/**
 * The Codec 2 library as c2demo.c uses it: a handle created for a mode, which reports
 * its frame geometry (samples per frame, bits per frame) and converts one frame of
 * samples into packed bits and back. The library's internals are not part of this
 * model: a handle is its geometry plus two transforms that are only known to respect
 * that geometry.
 */
module Codec {

  /** A signed 16-bit PCM sample (C `short`). */
  newtype int16 = x: int | -0x8000 <= x < 0x8000

  /** One byte of a packed bit frame (C `unsigned char`). */
  newtype byte = x: int | 0 <= x < 0x100

  /**
   * A `struct CODEC2` handle: `nsam` is what codec2_samples_per_frame reports, `nbit`
   * what codec2_bits_per_frame reports, `encode` and `decode` are codec2_encode and
   * codec2_decode as transforms between a frame of samples and its packed bits.
   */
  datatype Codec2 = Codec2(
    nsam: nat,
    nbit: nat,
    encode: seq<int16> -> seq<byte>,
    decode: seq<byte> -> seq<int16>)
  {
    /** The number of bytes `nbit` bits are packed into. */
    function PackedBytes(): nat {
      (nbit + 7) / 8
    }

    /**
     * The library's contract: a frame holds at least one sample (otherwise the read
     * loop of c2demo.c would never end), encoding a frame of `nsam` samples packs its
     * `nbit` bits into PackedBytes() bytes, and decoding those bytes yields `nsam`
     * samples.
     */
    ghost predicate Valid() {
      nsam > 0 &&
      (forall frame: seq<int16> | |frame| == nsam :: |encode(frame)| == PackedBytes()) &&
      (forall packed: seq<byte> | |packed| == PackedBytes() :: |decode(packed)| == nsam)
    }
  }

  /** What one pass through the loop body does to one frame: encode, then decode. */
  function RoundTrip(c: Codec2, frame: seq<int16>): (decoded: seq<int16>)
    requires c.Valid() && |frame| == c.nsam
    ensures |decoded| == c.nsam
  {
    c.decode(c.encode(frame))
  }

  /**
   * c2demo allocates `nbit` bytes for the packed bits, where PackedBytes() would do:
   * the buffer is larger than needed, never smaller.
   */
  lemma {:induction false} BitBufferLargeEnough(c: Codec2)
    ensures c.PackedBytes() <= c.nbit
    ensures c.nbit > 1 ==> c.PackedBytes() < c.nbit
  {
    if c.nbit > 1 {
      assert (c.nbit + 7) / 8 <= (c.nbit + 7) / 8 * 8 <= c.nbit + 7;
    }
  }

  /**
   * codec2_encode(codec2, bits, buf): packs the frame in `buf` into the front of the
   * bit buffer, which must hold PackedBytes() bytes; the rest of it is not touched.
   */
  method Encode(c: Codec2, bits: array<byte>, buf: array<int16>)
    requires c.Valid() && buf.Length == c.nsam && c.PackedBytes() <= bits.Length
    modifies bits
    ensures bits[..c.PackedBytes()] == c.encode(buf[..])
    ensures bits[c.PackedBytes()..] == old(bits[c.PackedBytes()..])
  {
    var packed := c.encode(buf[..]);
    forall i | 0 <= i < |packed| {
      bits[i] := packed[i];
    }
    assert bits[..c.PackedBytes()] == packed;
    assert buf[..] == old(buf[..]);
  }

  /**
   * codec2_decode(codec2, buf, bits): unpacks the first PackedBytes() bytes of the
   * bit buffer and overwrites the sample buffer with the decoded frame.
   */
  method Decode(c: Codec2, buf: array<int16>, bits: array<byte>)
    requires c.Valid() && buf.Length == c.nsam && c.PackedBytes() <= bits.Length
    modifies buf
    ensures buf[..] == c.decode(bits[..c.PackedBytes()])
  {
    var frame := c.decode(bits[..c.PackedBytes()]);
    forall i | 0 <= i < buf.Length {
      buf[i] := frame[i];
    }
    assert buf[..] == frame;
    assert bits[..] == old(bits[..]);
  }
}
