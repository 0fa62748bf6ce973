/**
 * The two files c2demo opens, seen as streams of 16-bit samples: `fin` is read
 * with fread from a position that only moves forward, and `fout` collects what
 * fwrite appends.
 */
module Streams {
  import opened Codec

  /** An input file opened with mode "rb": its samples and the read position. */
  class InputStream {
    const data: seq<int16>
    var pos: nat

    ghost predicate Valid()
      reads this
    {
      pos <= |data|
    }

    /** The samples not read yet. */
    function Remaining(): (rest: seq<int16>)
      reads this
      requires Valid()
      ensures |rest| == |data| - pos
    {
      data[pos..]
    }

    constructor (data: seq<int16>)
      ensures Valid() && this.data == data && pos == 0 && Remaining() == data
    {
      this.data := data;
      pos := 0;
    }

    /**
     * fread(buf, sizeof(short), count, fin): copies up to `count` samples into the
     * front of `buf`, fewer only when the file ends first, and returns how many.
     */
    method Read(buf: array<int16>, count: nat) returns (n: nat)
      requires Valid() && count <= buf.Length
      modifies this, buf
      ensures Valid()
      ensures n == if count <= |data| - old(pos) then count else |data| - old(pos)
      ensures pos == old(pos) + n
      ensures old(Remaining()) == buf[..n] + Remaining()
      ensures buf[n..] == old(buf[n..])
    {
      n := if count <= |data| - pos then count else |data| - pos;
      forall i | 0 <= i < n {
        buf[i] := data[pos + i];
      }
      pos := pos + n;
      assert old(data[pos..]) == buf[..n] + data[pos..];
    }
  }

  /** An output file opened with mode "wb": truncated on opening, then appended to. */
  class OutputStream {
    var contents: seq<int16>

    constructor ()
      ensures contents == []
    {
      contents := [];
    }

    /** fwrite(buf, sizeof(short), count, fout): appends the first `count` samples of `buf`. */
    method Write(buf: array<int16>, count: nat)
      requires count <= buf.Length
      modifies this
      ensures contents == old(contents) + buf[..count]
    {
      contents := contents + buf[..count];
    }
  }
}
