/**
 * The c2demo program: `c2demo InputRawSpeechFile OutputRawSpeechFile [bitrate]`
 * reads raw 16-bit speech samples, encodes and immediately decodes every whole frame
 * with Codec 2, and writes the decoded samples out.
 */
module C2Demo {
  import opened Wrappers
  import opened Codec
  import opened Bitrate
  import opened Streams
  import opened Transcode

  /** Why the program exits with EXIT_FAILURE. */
  datatype Failure =
    | UsageError                        // argc is not 3 or 4
    | InputOpenError                    // fopen(argv[1], "rb") failed
    | OutputOpenError                   // fopen(argv[2], "wb") failed
    | BitrateFailure(error: BitrateError)

  datatype Exit = Success | Failed(reason: Failure)

  /**
   * One iteration of the loop of `main` followed by the next test of its condition:
   * encode the frame in `buf` into `bits`, decode `bits` back into `buf`, fwrite the
   * frame, then fread the next one. `n` is the count fread returns.
   */
  method ProcessFrame(codec: Codec2, fin: InputStream, fout: OutputStream, buf: array<int16>, bits: array<byte>) returns (n: nat)
    requires codec.Valid() && fin.Valid()
    requires buf.Length == codec.nsam && codec.PackedBytes() <= bits.Length
    modifies fin, fout, buf, bits
    ensures fin.Valid() && n <= codec.nsam
    ensures fout.contents == old(fout.contents) + RoundTrip(codec, old(buf[..]))
    ensures n == codec.nsam ==> old(fin.Remaining()) == buf[..] + fin.Remaining()
    ensures n < codec.nsam ==> |old(fin.Remaining())| == n && fin.Remaining() == []
  {
    Encode(codec, bits, buf);
    Decode(codec, buf, bits);
    fout.Write(buf, codec.nsam);
    n := fin.Read(buf, codec.nsam);
    assert n == codec.nsam ==> buf[..n] == buf[..];
  }

  /**
   * The loop of `main`: while fread delivers a whole frame of `nsam` samples, encode
   * it into the bit buffer, decode it back into the sample buffer and fwrite it. A
   * short read ends the loop and its samples are not written.
   */
  method TranscodeLoop(codec: Codec2, fin: InputStream, fout: OutputStream, buf: array<int16>, bits: array<byte>)
    requires codec.Valid() && fin.Valid()
    requires buf.Length == codec.nsam && codec.PackedBytes() <= bits.Length
    modifies fin, fout, buf, bits
    ensures fin.Valid() && fin.Remaining() == []
    ensures fout.contents == old(fout.contents) + Transcoded(codec, old(fin.Remaining()))
  {
    var nsam := codec.nsam;
    ghost var input := fin.Remaining();
    ghost var total := fout.contents + Transcoded(codec, input);
    var n := fin.Read(buf, nsam);
    ghost var unread := input;
    while n == nsam
      invariant fin.Valid() && n <= nsam
      invariant n == nsam ==> unread == buf[..] + fin.Remaining()
      invariant n < nsam ==> |unread| < nsam && fin.Remaining() == []
      invariant fout.contents + Transcoded(codec, unread) == total
      decreases |fin.Remaining()| + n
    {
      ghost var frame := buf[..];
      ghost var rest := fin.Remaining();
      TranscodedStep(codec, fout.contents, frame, rest, total);
      n := ProcessFrame(codec, fin, fout, buf, bits);
      unread := rest;
    }
  }

  /**
   * `main`. `args` is argv (argv[0] is the program's name; argv[3], when given, is the
   * bitrate token). The file system is given
   * as the input file's samples (None when it cannot be opened) and whether the
   * output file can be opened. `create` stands for codec2_create. The results are
   * the exit status and the output file's final samples, None when it was never
   * opened; `created` is the mode codec2_create was called with, if it was.
   */
  method Run(args: seq<CString>, inputFile: Option<seq<int16>>, outputOpens: bool, create: Mode -> Codec2)
    returns (exit: Exit, written: Option<seq<int16>>, ghost created: Option<Mode>)
    requires forall m :: create(m).Valid()
    ensures (|args| < 3 || |args| > 4) ==> exit == Failed(UsageError) && written == None
    ensures 3 <= |args| <= 4 && inputFile.None? ==> exit == Failed(InputOpenError) && written == None
    ensures 3 <= |args| <= 4 && inputFile.Some? && !outputOpens ==>
              exit == Failed(OutputOpenError) && written == None
    ensures 3 <= |args| <= 4 && inputFile.Some? && outputOpens ==>
              match ResolveMode(if |args| == 4 then Some(args[3]) else None)
              case Err(e) => exit == Failed(BitrateFailure(e)) && written == Some([])
              case Ok(m) =>
                exit == Success && created == Some(m) &&
                written == Some(Transcoded(create(m), inputFile.value))
    ensures created.Some? <==> exit == Success
  {
    created := None;
    if |args| < 3 || |args| > 4 {
      return Failed(UsageError), None, created;
    }
    if inputFile.None? {
      return Failed(InputOpenError), None, created;
    }
    var fin := new InputStream(inputFile.value);
    if !outputOpens {
      return Failed(OutputOpenError), None, created;
    }
    var fout := new OutputStream();
    var resolved := ResolveMode(if |args| == 4 then Some(args[3]) else None);
    if resolved.Err? {
      return Failed(BitrateFailure(resolved.error)), Some(fout.contents), created;
    }
    var mode := resolved.value;

    var codec := create(mode);
    created := Some(mode);
    var nsam := codec.nsam;
    var buf := new int16[nsam];
    var nbit := codec.nbit;
    var bits := new byte[nbit];
    BitBufferLargeEnough(codec);

    assert fin.Remaining() == inputFile.value && fout.contents == [];
    TranscodeLoop(codec, fin, fout, buf, bits);
    assert fout.contents == Transcoded(codec, inputFile.value);
    return Success, Some(fout.contents), created;
  }
}
