# c2demo in Dafny

A model of `c2demo`, the Codec 2 demonstration program: `c2demo InputRawSpeechFile
OutputRawSpeechFile [3200|2400|1400|1200]`. The program reads raw signed 16-bit speech
samples. It encodes each whole frame with Codec 2 at the chosen bitrate, decodes it
straight back, and writes the decoded samples to the output file.

The model covers the two pieces of logic in `main`:

- **Argument and mode resolution.** The argument count must be 3 or 4. Then the input
  file is opened, then the output file. Only after that is the optional bitrate token
  read with `strtol(token, &endptr, 10)`. The token must be consumed up to its
  terminating NUL and must be one of 3200, 2400, 1400 or 1200. Without a token the
  mode is 1400.
- **The frame loop.** `nsam` and `nbit` are queried once from the codec. A buffer of
  `nsam` samples and a buffer of `nbit` bytes are allocated. While `fread` delivers a
  whole frame, the frame is encoded into the bit buffer, decoded back into the sample
  buffer, and written with `fwrite`. A short read ends the loop.

Files and modules:

- `wrappers.dfy` (`Wrappers`): `Option` and `Result`.
- `codec.dfy` (`Codec`): `int16` and `byte`, and the Codec 2 handle. A handle is its
  frame geometry plus an encode and a decode transform that only promise to respect
  that geometry. The module also holds the in-place `Encode` and `Decode` calls.
- `bitrate.dfy` (`Bitrate`): a simplified `strtol` and `ResolveMode`. `strtol` skips
  C-locale white space, takes an optional sign, then the longest run of decimal digits.
- `streams.dfy` (`Streams`): the input file as a class with a read position, used by
  `fread`. The output file as a class whose contents `fwrite` appends to.
- `transcode.dfy` (`Transcode`): `Transcoded`, the output the loop must produce, with
  lemmas about its length, its frame order and the dropped partial frame.
- `c2demo.dfy` (`C2Demo`): `Run`, which is `main`, and its frame loop. `Run` performs
  the checks in the order of the source.

Facts about the code that the model keeps as written:

- The output file is opened with mode "wb", which truncates it, before the bitrate
  token is checked. So a bad bitrate leaves an empty output file behind. `Run` returns
  `Some([])` as the output in that case, not `None`.
- The bit buffer gets `nbit` bytes. The `BITS_SIZE` macro (`(bits + 7) / 8`) is never
  used. The model lets the codec pack a frame into `(nbit + 7) / 8` bytes and proves the
  `nbit`-byte buffer is large enough (`Codec.BitBufferLargeEnough`).
- The results of `malloc`, `codec2_create` and `fwrite` are not checked, and a failing
  `fread` is not told apart from end of file, so the model has no error paths for them.
- No error path closes the files or frees anything before `exit`.

## Model

| member | source | states |
|---|---|---|
| `Codec.RoundTrip` | src/c2demo.c:107-108 | encoding a frame of `nsam` samples and decoding the result gives back a frame of exactly `nsam` samples |
| `Codec.BitBufferLargeEnough` | src/c2demo.c:103-104 | the `nbit`-byte bit buffer holds the `(nbit + 7) / 8` packed bytes of a frame, and is strictly larger than needed once `nbit > 1` |
| `Codec.Encode` | src/c2demo.c:107 | the front `(nbit + 7) / 8` bytes of `bits` become the encoding of the frame in `buf`; the rest of `bits` is untouched |
| `Codec.Decode` | src/c2demo.c:108 | `buf` becomes the decoding of the packed bytes at the front of `bits` |
| `Bitrate.Strtol` | src/c2demo.c:71 | `endptr` stays within the token; when it is past the start, what it consumed is a well-formed numeral (white space, an optional sign, at least one digit) and no digit follows; when it is at the start the value is 0. The value of a consumed numeral is stated by `StrtolWellFormed` |
| `Bitrate.ResolveMode` | src/c2demo.c:68-94 | no token gives mode 1400; a token strtol does not consume to the end is a parse error naming the unconsumed rest, whatever number was read; a token resolves to mode m exactly when it is consumed completely and its value is m's bitrate; it is a range error exactly when it is consumed completely and names no mode |
| `Bitrate.StrtolWellFormed` | src/c2demo.c:71 | white space, an optional sign and at least one digit, followed by anything that does not start with a digit: strtol consumes exactly the numeral and reads the signed value of its digits |
| `Bitrate.StrtolLongest` | src/c2demo.c:71 | `endptr` reaches at least the end of every well-formed prefix of the token; with `Strtol`'s contract it is the end of the longest one, and it stays at the start only when no prefix is a numeral |
| `Bitrate.ParseErrorIffMalformed` | src/c2demo.c:71-76 | a token is a parse error exactly when it is non-empty and not a well-formed numeral |
| `Bitrate.ResolveWellFormed` | src/c2demo.c:71-94 | a well-formed token (for example " +03200") resolves to m exactly when its value is m's bitrate; otherwise it is a range error carrying that value, never a parse error |
| `Bitrate.StrtolDecimal` | src/c2demo.c:71 | strtol reads the decimal rendering of any natural number back completely, as that number |
| `Bitrate.ResolveRendered` | src/c2demo.c:77-89 | the decimal rendering of each mode's bitrate resolves back to that mode |
| `Bitrate.ResolveUsageToken` | src/c2demo.c:77-89 | "3200", "2400", "1400" and "1200" select MODE_3200, MODE_2400, MODE_1400 and MODE_1200 |
| `Bitrate.ResolveUnsupportedNumber` | src/c2demo.c:90-93 | "9999" is a range error |
| `Bitrate.ResolveUnsupportedRate` | src/c2demo.c:90-93 | "1000" is a range error |
| `Bitrate.ResolveEmptyToken` | src/c2demo.c:71-72 | "" reads as 0 with `endptr` at the terminator, so it passes the parse check and is a range error |
| `Bitrate.ResolveTrailingGarbage` | src/c2demo.c:72-76 | "12x" is a parse error naming "x" |
| `Bitrate.ResolveNoDigits` | src/c2demo.c:71-76 | "abc" is a parse error naming the whole token |
| `Bitrate.ResolveOnlySpace` | src/c2demo.c:71-76 | " " is a parse error, because strtol leaves `endptr` at the start when there are no digits |
| `Streams.InputStream.constructor` | src/c2demo.c:57 | an opened input file is read from its first sample |
| `Streams.InputStream.Read` | src/c2demo.c:106 | fread returns `nsam` when that many samples remain, and otherwise the number that remain; it copies them to the front of `buf` in order and advances past them |
| `Streams.OutputStream.constructor` | src/c2demo.c:63 | an output file opened with "wb" starts empty |
| `Streams.OutputStream.Write` | src/c2demo.c:109 | fwrite appends exactly the first `count` samples of `buf` |
| `Transcode.Transcoded` | src/c2demo.c:106-110 | the output is never longer than the input |
| `Transcode.TranscodedCons` | src/c2demo.c:106-109 | a whole frame at the front of the input gives its round trip at the front of the output |
| `Transcode.TranscodedAppend` | src/c2demo.c:106-110 | the output for two inputs split at a frame boundary is the concatenation of their outputs |
| `Transcode.TranscodedWholeFrames` | src/c2demo.c:106-110 | an input of exactly k frames gives an output of exactly k frames |
| `Transcode.PartialFrameDropped` | src/c2demo.c:106 | k frames plus r < nsam extra samples give the same output as the k frames alone, k × nsam samples: the extra samples never reach the output |
| `Transcode.TranscodedLength` | src/c2demo.c:106-110 | an input of n samples gives exactly floor(n / nsam) × nsam output samples |
| `Transcode.FrameStartIsProduct` | src/c2demo.c:106 | frame i of the stream starts at sample i × nsam |
| `Transcode.TranscodedFrame` | src/c2demo.c:106-109 | output frame i is the decode of the encode of input frame i, for every whole input frame i, so frames are never reordered, duplicated or skipped |
| `C2Demo.ProcessFrame` | src/c2demo.c:106-110 | one iteration appends the round trip of the frame in `buf` to the output, then reads the next frame: either a whole frame from the front of the unread samples, or the short remainder, which ends the input |
| `C2Demo.TranscodeLoop` | src/c2demo.c:106-110 | the loop consumes the whole input and appends exactly `Transcoded` of the unread samples to the output |
| `C2Demo.Run` | src/c2demo.c:52-119 | argc other than 3 or 4 is a usage failure, with no file opened and no codec created. Otherwise an input-open failure is reported before an output-open failure, and both before the bitrate. The bitrate token is argv[3] when argc is 4, and otherwise there is none. A bad bitrate fails with that error, leaves the output truncated to empty and creates no codec. On success the codec is created for the resolved mode, and the output is `Transcoded` of the input with that codec |

## Left out

- File handling: the paths, `fopen` failure reasons, `errno`/`strerror`, `fclose`, and the message texts on stdout and stderr. An input or output that cannot be opened is a parameter of `Run`.
- Codec 2 internals: `codec2_create` is the parameter `create`, and a handle is its geometry plus pure encode and decode transforms. The real codec keeps state from one frame to the next, so the model's per-frame `decode(encode(frame))` does not capture output that depends on earlier frames. The per-mode values of `nsam` and `nbit` are not modelled either.
- `free` and `codec2_destroy` (src/c2demo.c:112-114): these release memory and have no effect the model can observe.
- The failures the code ignores: a `malloc` or `codec2_create` that fails, an `fwrite` that writes fewer samples, and an `fread` error (see `Streams.InputStream.Read` below). The model's allocation and writes always succeed.
- Byte order and odd-length files: the input is a sequence of whole samples in native order. A trailing odd byte, which `fread` of whole samples also never delivers, is not represented.
- Bitrate.Strtol: does not clamp to `LONG_MIN`/`LONG_MAX` on overflow. A clamped value can never be one of the four bitrates, so the program still exits with a range error. Only the value carried by `RangeError` differs, and the program does not print it.
- C2Demo.Run: assumes the input and output paths name different files. For `c2demo a.raw a.raw`, opening the output with "wb" (src/c2demo.c:63) truncates the file already opened as input, so the first fread returns 0 and the output stays empty; `Run` promises the transcoded input instead.
- Streams.InputStream.Read: has no read errors. The loop condition at src/c2demo.c:106 only compares fread's count, so a read error ends the loop like end of file and the remaining frames are lost. The model's fread always delivers as many samples as remain, up to `count`.
- Bitrate.IsSpace: follows the "C" locale only.
