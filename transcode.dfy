/**
 * What the read-encode-decode-write loop of c2demo produces: the round trip of every
 * whole frame of the input, in order, and nothing for a trailing partial frame.
 */
module Transcode {
  import opened Codec

  /** The samples written for `input`: one decoded frame per whole input frame. */
  function Transcoded(c: Codec2, input: seq<int16>): (output: seq<int16>)
    requires c.Valid()
    ensures |output| <= |input|
    decreases |input|
  {
    if |input| < c.nsam then []
    else RoundTrip(c, input[..c.nsam]) + Transcoded(c, input[c.nsam..])
  }

  /** A whole frame in front of the input contributes its round trip in front of the output. */
  lemma TranscodedCons(c: Codec2, frame: seq<int16>, rest: seq<int16>)
    requires c.Valid() && |frame| == c.nsam
    ensures Transcoded(c, frame + rest) == RoundTrip(c, frame) + Transcoded(c, rest)
  {
    assert (frame + rest)[..c.nsam] == frame;
    assert (frame + rest)[c.nsam..] == rest;
  }

  /**
   * One loop iteration keeps the loop's accounting: what was written plus what the
   * unread samples will give stays the whole output, after the frame at the front of
   * the unread samples is written as its round trip.
   */
  lemma TranscodedStep(c: Codec2, written: seq<int16>, frame: seq<int16>, rest: seq<int16>, total: seq<int16>)
    requires c.Valid() && |frame| == c.nsam
    requires written + Transcoded(c, frame + rest) == total
    ensures (written + RoundTrip(c, frame)) + Transcoded(c, rest) == total
  {
    TranscodedCons(c, frame, rest);
  }

  /** Transcoding splits at any frame boundary of the input. */
  lemma {:induction false} TranscodedAppend(c: Codec2, a: seq<int16>, b: seq<int16>, k: nat)
    requires c.Valid() && |a| == k * c.nsam
    ensures Transcoded(c, a + b) == Transcoded(c, a) + Transcoded(c, b)
  {
    if k == 0 {
      assert a + b == b;
    } else {
      var n := c.nsam;
      assert |a| == (k - 1) * n + n;
      assert (a + b)[..n] == a[..n];
      assert (a + b)[n..] == a[n..] + b;
      TranscodedAppend(c, a[n..], b, k - 1);
    }
  }

  /** An input of exactly `k` frames gives an output of exactly `k` frames. */
  lemma {:induction false} TranscodedWholeFrames(c: Codec2, input: seq<int16>, k: nat)
    requires c.Valid() && |input| == k * c.nsam
    ensures |Transcoded(c, input)| == |input|
  {
    if k > 0 {
      assert |input| == (k - 1) * c.nsam + c.nsam;
      TranscodedWholeFrames(c, input[c.nsam..], k - 1);
    }
  }

  /**
   * `k` whole frames followed by `r < nsam` extra samples give `k` frames of output,
   * the same as the whole frames alone: the extra samples never reach the output.
   */
  lemma PartialFrameDropped(c: Codec2, input: seq<int16>, k: nat, r: nat)
    requires c.Valid() && |input| == k * c.nsam + r && r < c.nsam
    ensures Transcoded(c, input) == Transcoded(c, input[..k * c.nsam])
    ensures |Transcoded(c, input)| == k * c.nsam
  {
    var whole := input[..k * c.nsam];
    assert input == whole + input[k * c.nsam..];
    TranscodedAppend(c, whole, input[k * c.nsam..], k);
    TranscodedWholeFrames(c, whole, k);
  }

  /** For an input of n samples, exactly floor(n / nsam) * nsam samples come out. */
  lemma TranscodedLength(c: Codec2, input: seq<int16>)
    requires c.Valid()
    ensures |Transcoded(c, input)| == |input| / c.nsam * c.nsam
  {
    PartialFrameDropped(c, input, |input| / c.nsam, |input| % c.nsam);
  }

  /** Slicing what follows the first `k` elements is slicing further along. */
  lemma SliceOfTail<T>(s: seq<T>, k: nat, i: nat, j: nat)
    requires k <= |s| && i <= j <= |s| - k
    ensures s[k..][i..j] == s[k + i..k + j]
  {
  }

  /** The index of the first sample of frame `i`, for frames of `n` samples. */
  function FrameStart(i: nat, n: nat): nat {
    if i == 0 then 0 else FrameStart(i - 1, n) + n
  }

  lemma {:induction false} FrameStartIsProduct(i: nat, n: nat)
    ensures FrameStart(i, n) == i * n
  {
    if i > 0 {
      FrameStartIsProduct(i - 1, n);
    }
  }

  /** `TranscodedFrame` with the frame offset counted out frame by frame. */
  lemma {:induction false} TranscodedFrameAt(c: Codec2, input: seq<int16>, i: nat)
    requires c.Valid() && FrameStart(i, c.nsam) + c.nsam <= |input|
    ensures FrameStart(i, c.nsam) + c.nsam <= |Transcoded(c, input)|
    ensures var lo := FrameStart(i, c.nsam);
            Transcoded(c, input)[lo..lo + c.nsam] == RoundTrip(c, input[lo..lo + c.nsam])
  {
    var n := c.nsam;
    var out := Transcoded(c, input);
    if i == 0 {
      assert out[..n] == RoundTrip(c, input[..n]);
    } else {
      var rest := input[n..];
      var lo := FrameStart(i, n);
      TranscodedFrameAt(c, rest, i - 1);
      SliceOfTail(input, n, lo - n, lo);
      SliceOfTail(out, n, lo - n, lo);
    }
  }

  /**
   * Output frame `i` is the round trip of input frame `i`: frames are neither
   * reordered, duplicated nor skipped.
   */
  lemma TranscodedFrame(c: Codec2, input: seq<int16>, i: nat)
    requires c.Valid() && i * c.nsam + c.nsam <= |input|
    ensures i * c.nsam + c.nsam <= |Transcoded(c, input)|
    ensures var lo := i * c.nsam;
            Transcoded(c, input)[lo..lo + c.nsam] == RoundTrip(c, input[lo..lo + c.nsam])
  {
    FrameStartIsProduct(i, c.nsam);
    TranscodedFrameAt(c, input, i);
  }
}
