# liora-lib native core, modelled in Dafny

liora-lib ships three native Node.js add-ons. This project models the byte-level,
sequential logic inside them and proves what it promises. Calls into curl,
FFmpeg, libwebp and N-API become parameters or are left out.

- **HTTP engine** (`src/fetch.cpp`):
  - The response assembler. Header lines fold into a per-hop header multimap,
    and a status line starts a new hop.
  - The body sink, with its `maxBodySize` guard and abort flag.
  - The `multipart/form-data` serialiser and its boundary.
  - How the options are read, which header lines are synthesised, and which
    body is sent.
  - The method and address-family mappings, the cookie settings, the default
    status-text table and the `ok` predicate.
- **Audio converter** (`src/converter.cpp`):
  - The in-memory read/seek cursor the demuxer reads through.
  - `parseBitrate`, `pick_sample_fmt`, `set_layout_default` and
    `default_frame_size`.
  - The format-to-muxer/codec table, the encoder parameters and the option
    defaults of `Convert`.
  - The sample-FIFO framing. Full encoder frames are drained as soon as they
    are available, the tail goes out as one shorter frame, and each frame's
    pts counts the samples sent before it.
- **Sticker builder** (`src/sticker.cpp`):
  - The EXIF block: `write_le32`, `random_hex` and the JSON payload of
    `BuildWhatsAppExif`.
  - `IsWebP` and the read cursor.
  - The `maxDuration`/`fps` frame selection of `DecodeAll`.
  - The animation timestamps, the centre-crop window and the zero-padded
    512x512 canvas.
  - The pass-through/still/animation dispatch of `MakeSticker`.

Byte strings and byte vectors are Dafny `string`s holding one char per byte.
Character classes follow the "C" locale. Integer widths are written out where
they matter:
- the 64-bit unsigned seek arithmetic;
- the clamping of the status code by the stream extraction;
- the `(int)` casts of the animation timestamps;
- the 32-bit length patched into the EXIF header.

Modules:

| module | file | models |
|---|---|---|
| `Wrappers` | wrappers.dfy | `Option`, `Result` |
| `Text` | text.dfy | `lower`, `trim`, C-locale character classes, number scanning |
| `FetchResponse` | fetch_response.dfy | `ResponseData`, status text, `ok` |
| `Multipart` | fetch_multipart.dfy | `buildMultipartFromNapi`, `randomBoundary` output |
| `FetchRequest` | fetch_request.dfy | `FetchWorker` options, headers, body, callbacks |
| `MemoryIo` | memory_io.dfy | `BufferCtx`, `readPacket`, `seekPacket` of both media modules |
| `Converter` | converter.dfy | parameter choices of `convertCore` and `Convert` |
| `AudioFifo` | audio_fifo.dfy | the FIFO drain and tail flush of `convertCore` |
| `StickerExif` | sticker_exif.dfy | `write_le32`, `random_hex`, `BuildWhatsAppExif` |
| `Sticker` | sticker.dfy | `IsWebP`, `DecodeAll` selection, geometry, timing, `MakeSticker` |

Points where the code is followed as written:
- A user header suppresses a default header only under its two exact
  spellings, such as `User-Agent` and `user-agent`. A header named
  `USER-AGENT` is sent alongside the default one
  (`FetchRequest.UserAgentSpellingNotFolded`).
- A body refused by the size guard is not reported as a separate error kind.
  The write callback returns 0, and the transport's return code then ends the
  request as a transport error (`FetchRequest.FetchWorker.Complete`).
- In the streaming branch the outcome of the blocking hand-off is not checked.
  The chunk counts as forwarded.
- The empty URL is not rejected by the logic modelled here.
- `Convert` picks the bitrate default from the format as given, but picks the
  codec from the lower-cased format. `"MP3"` without a bitrate therefore
  encodes MP3 at 64000 bit/s, while `"mp3"` gets 128000
  (`Converter.UpperCaseMp3Bitrate`).
- The multipart serialiser writes the field name, the filename and the content
  type unescaped. A value holding a quote or a CRLF can close the quoted
  parameter or start a header line of its own
  (`Multipart.NameWithLineBreakAddsHeader`), so `Multipart.OneDispositionPerPart`
  is stated for values without CR or LF.
- The EXIF JSON escapes nothing. It reads back into its values only when none
  of them contains a double quote (`StickerExif.ExifJsonRoundTrip`).

## Model

| member | source | states |
|---|---|---|
| Text.Lower | src/fetch.cpp:71-75 | every character is mapped through C-locale `tolower`: same length, no upper-case letter left, each upper-case letter replaced by its lower-case form (code + 32), other characters unchanged |
| Text.Upper | src/fetch.cpp:294-295 | `toupper` of the method: same length, no lower-case letter left, each lower-case letter replaced by its upper-case form (code - 32), other characters unchanged |
| Text.LowerEqualIffIgnoringCase | src/fetch.cpp:71-75 | two strings lower-case to the same string exactly when they differ only in the case of ASCII letters |
| Text.LowerIdempotent | src/fetch.cpp:71-75 | lower-casing twice equals lower-casing once |
| Text.Trim | src/fetch.cpp:76-81 | the two index loops return exactly `Trimmed(s)`, the slice between the leading and trailing whitespace |
| Text.TrimmedIsInnerSlice | src/fetch.cpp:76-81 | the trimmed result is a contiguous slice of the input with only whitespace on both sides and none at its own ends |
| Text.TrimmedEmptyIffAllSpace | src/fetch.cpp:76-81 | trim gives "" exactly when the input is all whitespace |
| Text.TrimmedIdempotent | src/fetch.cpp:76-81 | trimming a trimmed string changes nothing |
| Text.TrimmedOfSpacePrefix | src/fetch.cpp:76-81 | a leading blank does not change the trimmed result |
| Text.ScanSigned | src/fetch.cpp:101 | reading `[+-]digits`: fails exactly when no digit follows the optional sign, and otherwise stops at the first non-digit |
| Text.ToInt32 | src/sticker.cpp:219 | the `(int)` cast wraps: the result is in the 32-bit range and differs from the input by a multiple of 2^32, so in-range values are unchanged |
| FetchResponse.LineEnd | src/fetch.cpp:94 | the pop-back loop drops exactly the trailing run of CR/LF characters |
| FetchResponse.ChopLineEnd | src/fetch.cpp:94 | the pop-back loop leaves the line without its trailing run of CR/LF characters, the prefix `LineEnd` describes |
| FetchResponse.FirstColon | src/fetch.cpp:107-108 | `find(':')`: the first colon, or none when the line has no colon |
| FetchResponse.UpToNewline | src/fetch.cpp:102 | `getline` extracts the text before the first newline, or all of it when there is none |
| FetchResponse.ParseStatusLine | src/fetch.cpp:99-103 | definition of `>> proto >> status` then `getline`: status kept when no number follows, 0 when no digit follows, clamped to 64 bits when out of range; the rest is the text after the digits up to a newline |
| FetchResponse.HeaderStep | src/fetch.cpp:92-112 | definition of one raw line's effect on the hop: stripped of CR/LF; ignored when empty; a status line starts a new hop; "key: value" appends to lower(trim(key)) |
| FetchResponse.Replay | src/fetch.cpp:92-112 | definition: the header lines applied in order |
| FetchResponse.ResponseData.constructor | src/fetch.cpp:83-88 | empty body, headers, URL and status text, status 0 |
| FetchResponse.ResponseData.ResetHop | src/fetch.cpp:90 | the header map becomes empty |
| FetchResponse.ResponseData.AddHeaderLine | src/fetch.cpp:92-112 | the new headers, status and status text are `HeaderStep` of the old ones and the raw line |
| FetchResponse.IgnoredLineLeavesHop | src/fetch.cpp:94-111 | a line that is empty after stripping CR/LF, or has no colon, or whose key trims to nothing, leaves headers, status and status text unchanged |
| FetchResponse.StatusLineStartsHop | src/fetch.cpp:97-104 | a line starting with "HTTP/" clears the headers and sets the status text to the trimmed rest of the line |
| FetchResponse.WellFormedStatusLine | src/fetch.cpp:99-103 | "HTTP/v code reason" yields the code as status and the trimmed reason as status text |
| FetchResponse.HeaderLineAppends | src/fetch.cpp:107-111 | "key: value" appends trim(value) after the existing values of lower(trim(key)); every other key, the status and the status text are unchanged; the key set grows by that key only |
| FetchResponse.HeaderStepKeepsKeysLowercase | src/fetch.cpp:109-111 | each line keeps every header name lower case and non-empty |
| FetchResponse.ReplayKeepsKeysLowercase | src/fetch.cpp:109-111 | after any sequence of lines, every header name is lower case and non-empty |
| FetchResponse.HeadersIndependentOfStatus | src/fetch.cpp:107-111 | without status lines, the headers collected do not depend on status or status text |
| FetchResponse.LastHopWins | src/fetch.cpp:90-98 | after redirects the headers are those of the lines after the last status line, starting from an empty map |
| FetchResponse.DefaultStatusText | src/fetch.cpp:381-395 | the phrase is non-empty exactly for the ten codes of the table |
| FetchResponse.FinalStatusText | src/fetch.cpp:381 | a received status text is kept; an empty one is replaced by the table's phrase |
| FetchResponse.ResponseOf | src/fetch.cpp:402-405 | `ok` holds exactly when 200 <= status < 300; the other fields are passed through |
| Multipart.Classify | src/fetch.cpp:171-201 | a part is a file part exactly for a Buffer value or an object with non-empty Buffer bytes; file parts always have a filename and a content type |
| Multipart.AppendPart | src/fetch.cpp:144-169 | the serialiser's piecewise appends equal the body followed by the field's `Part`: delimiter, header block, payload, CRLF |
| Multipart.PartHeadPieces | src/fetch.cpp:153-165 | the header block equals the pieces the serialiser writes, for file parts and for text parts |
| Multipart.BuildMultipart | src/fetch.cpp:136-204 | the loop over fields builds `MultipartBody`: every field's part in order, then the closing delimiter |
| Multipart.Part | src/fetch.cpp:144-169 | definition: the delimiter line, the header block, the payload bytes and a closing CRLF |
| Multipart.MultipartBody | src/fetch.cpp:136-204 | definition: every field's part in order, then the closing delimiter "--B--\r\n" |
| Multipart.PartHeadLines | src/fetch.cpp:153-165 | split at each CRLF, the header block of a part whose name, filename and content type hold no CR or LF is its header lines followed by one empty line |
| Multipart.OneDispositionPerPart | src/fetch.cpp:154-159 | split at each CRLF, the header block of a part whose name, filename and content type hold no CR or LF has exactly one Content-Disposition line, and a Content-Type line exactly when it is a file part |
| Multipart.NameWithLineBreakAddsHeader | src/fetch.cpp:154 | the name is written unescaped: a text part named `x"` CRLF `Content-Type: t` has a Content-Type line in its header block, though text parts get none |
| Multipart.ConcatAppend | src/fetch.cpp:120-122 | appending to the body concatenates the contents |
| Multipart.PartInPlace | src/fetch.cpp:141-202 | field i's part sits in the body at its offset, right after the parts of the fields before it |
| Multipart.BodyClosed | src/fetch.cpp:203 | the body ends with "--B--\r\n" and is only that when there are no fields |
| Multipart.BufferSentVerbatim | src/fetch.cpp:156-175 | a Buffer field is a file part named "blob" of type application/octet-stream whose bytes appear unmodified in the body |
| Multipart.ObjectPrecedence | src/fetch.cpp:176-197 | Buffer `value` beats Buffer `data`, which beats Buffer `buffer`; then `value` as text, then the object's coercion; an empty Buffer gives an empty text part |
| Multipart.HexDigitsRoundTrip | src/fetch.cpp:132 | `std::hex` output reads back as the number, needs at most n digits below 16^n, and has no leading zero |
| Multipart.Boundary | src/fetch.cpp:126-134 | the boundary is "----LioraFormBoundary" followed by 3 to 48 lower-case hex digits |
| FetchRequest.UserHeaderLines | src/fetch.cpp:223-227 | one "name: value" line per header with a non-empty name, in order |
| FetchRequest.CollectHeaderLines | src/fetch.cpp:223-227 | the constructor's loop over the header entries collects exactly `UserHeaderLines`: one line per entry with a non-empty name, in order |
| FetchRequest.ConfigOf | src/fetch.cpp:208-267 | definition of the constructor's reading of the options: each option or its default, the user header lines and the five suppression flags, the body, and a form that replaces the body |
| FetchRequest.DefaultHeaders | src/fetch.cpp:301-316 | definition: User-Agent, Accept-Encoding (with decompression), Connection, Expect and the form's Content-Type, each unless the user supplied it |
| FetchRequest.Configure | src/fetch.cpp:208-264 | the constructor's option reading yields `ConfigOf`: the defaults, the header lines, the body, and the form replacing the body |
| FetchRequest.DefaultConfig | src/fetch.cpp:210-218 | without options: GET, 300000 ms, 20 redirects, TLS verified, decompression on, any address family, no cookies, no body, no size limit, no user headers |
| FetchRequest.RequestHeaders | src/fetch.cpp:301-322 | each default line is present exactly when the user did not supply it (Accept-Encoding also needs decompression; Content-Type needs a form); the defaults are only those five lines, none twice, in the order User-Agent, Accept-Encoding, Connection, Expect, Content-Type; the user's lines follow the defaults |
| FetchRequest.DefaultHeadersOrdered | src/fetch.cpp:301-316 | the synthesised lines are only the five default lines, each at most once, in the order they are appended |
| FetchRequest.UserAgentSpellingNotFolded | src/fetch.cpp:228-302 | only "User-Agent" and "user-agent" count as a user User-Agent header (line 228), so with "USER-AGENT" the default line is still added (line 302) and both are sent |
| FetchRequest.PostFields | src/fetch.cpp:310-320 | the multipart body when a form is used, else the body when it is non-empty, else nothing |
| FetchRequest.FormDataWins | src/fetch.cpp:246-316 | a form clears the body, is what gets sent, and adds its Content-Type line unless the caller supplied one |
| FetchRequest.MethodSetting | src/fetch.cpp:294-299 | GET, POST and HEAD are recognised exactly when the upper-cased method equals them; any other method is sent in its original spelling |
| FetchRequest.MethodCaseInsensitive | src/fetch.cpp:294-298 | the standard methods map the same way in any letter case |
| FetchRequest.IpResolveSetting | src/fetch.cpp:290-292 | exactly "v4" and "v6" select a family; anything else allows both |
| FetchRequest.CookieSettings | src/fetch.cpp:325-331 | a non-empty cookie file is used both as cookie file and as cookie jar; a non-empty cookie string is sent |
| FetchRequest.FetchWorker.constructor | src/fetch.cpp:208-267 | the configuration is `ConfigOf` the options, the abort flag is clear, nothing is downloaded, the response is empty |
| FetchRequest.FetchWorker.WriteBody | src/fetch.cpp:535-564 | after abort: returns 0 and changes nothing; streaming: the chunk is forwarded and not kept; over a non-negative limit: returns 0 and the body is untouched; otherwise the body becomes old + chunk; the size limit is an invariant |
| FetchRequest.FetchWorker.WriteHeader | src/fetch.cpp:566-570 | the whole line is taken and folded into the current hop |
| FetchRequest.FetchWorker.OnProgress | src/fetch.cpp:572-589 | returns 1 exactly when the abort flag is set, else 0 |
| FetchRequest.FetchWorker.Abort | src/fetch.cpp:515-521 | only sets the abort flag to true, so repeating it changes nothing |
| FetchRequest.FetchWorker.Complete | src/fetch.cpp:366-395 | abort wins over the transport error, which wins over completion; on completion the status and effective URL are stored, the status text is defaulted, and the response has `ok` |
| MemoryIo.RawTarget | src/converter.cpp:58-71 | the seek target computed modulo 2^64 |
| MemoryIo.WrappedTargetInRange | src/converter.cpp:63-68 | below 2^63 bytes, the unsigned target is within [0, size] exactly when the mathematical target is, and the two then agree |
| MemoryIo.BufferCtx.constructor | src/converter.cpp:80-96 | the cursor starts at position 0 over the whole buffer |
| MemoryIo.BufferCtx.ReadPacket | src/converter.cpp:49-57 | copies min(size - pos, bufSize) bytes from pos and advances by that much; EOF without change when nothing remains; pos <= size is kept |
| MemoryIo.UnguardedRemainingAgrees | src/sticker.cpp:94-96 | the sticker builder's unguarded `size - pos` equals the converter's guarded count while pos does not pass size, which the cursor keeps, so its read callback behaves like `ReadPacket`; past the end it would wrap to 2^64 - (pos - size) |
| MemoryIo.BufferCtx.SeekPacket | src/converter.cpp:58-71 | a size query returns the size without moving; SET/CUR/END move to the target and return it exactly when it lies in [0, size], else return -1 without moving; an unknown whence returns -1 |
| Converter.Trunc | src/converter.cpp:100 | the `(int64_t)` cast of a double truncates toward zero |
| Converter.ParseBitrate | src/converter.cpp:98-115 | a number of at least 1 gives its truncation (the integer r with r <= x < r + 1), a number below 1 the default; a non-number, non-string gives the default |
| Converter.BitrateTextRoundTrip | src/converter.cpp:110 | the decimal text of n reads back as n |
| Converter.BitrateKilobitRoundTrip | src/converter.cpp:106-108 | "<n>k" reads back as n * 1000 |
| Converter.BitrateUnparsable | src/converter.cpp:105-112 | text where no number starts gives the default, with or without the k suffix |
| Converter.BitrateDecimalText | src/converter.cpp:110 | blanks, an optional sign, the decimal digits of n and a tail that does not continue the number read as the signed n when it fits in 64 bits and as the default otherwise; zero and negative values are returned as they are |
| Converter.BitrateDigitText | src/converter.cpp:110 | the same for any non-empty run of decimal digits, leading zeros included: the text reads as the signed value of the run when it fits in 64 bits and as the default otherwise |
| Converter.BitrateKilobitText | src/converter.cpp:106-108 | blanks, an optional sign, a non-empty digit run, a tail that does not continue the number as digits, a fraction, an exponent or a hexadecimal number, then "k" or "K", read as the signed value times 1000 while that is exactly representable as a double |
| Converter.BitrateNumber | src/converter.cpp:99-101 | a positive whole number is kept; zero and negative numbers give the default |
| Converter.PickSampleFmt | src/converter.cpp:117-124 | S16 if listed, else FLTP if listed, else the first entry (the terminator for an empty list); FLTP without a list |
| Converter.LayoutChannels | src/converter.cpp:126-129 | mono exactly for channels <= 1, stereo otherwise |
| Converter.DefaultFrameSize | src/converter.cpp:131-135 | a positive default frame size for every codec |
| Converter.EncoderFrameSize | src/converter.cpp:246-247 | the encoder's frame size when positive, else the codec default; always positive |
| Converter.OutputFormat | src/converter.cpp:160-169 | Opus is chosen exactly with the ogg muxer; unknown lower-cased names fall back to ogg/Opus |
| Converter.OutputFormatIgnoresCase | src/converter.cpp:160-161 | the table gives the same result for a name and its lower-cased form |
| Converter.DefaultBitrate | src/converter.cpp:201-206 | 32000/64000 for Opus with and without push-to-talk, 128000 for every other codec |
| Converter.ChooseEncoder | src/converter.cpp:185-212 | the requested rate if positive, else the decoder's if positive, else 48000, and always 48000 for Opus or ptt; mono exactly for one channel or ptt; a non-positive bitrate becomes the codec default; Opus gets voip/audio and vbr on/off |
| Converter.ReadOptions | src/converter.cpp:436-442 | each supplied option passes through; absent ones default to format "opus", 48000 Hz, 2 channels, no push-to-talk, variable bitrate on; a supplied bitrate is parsed against a default of 128000 when the format is exactly "mp3" and 64000 otherwise, and an absent one is that default |
| Converter.PlanFor | src/converter.cpp:160-247 | the output comes from the format table; frame size, sample rate and bitrate are positive |
| Converter.AbsentSampleRateIs48000 | src/converter.cpp:184-185 | without a sample-rate option the encoder's rate is 48000 Hz for every input rate |
| Converter.DefaultPlan | src/converter.cpp:436-442 | with no options: ogg/Opus, 48000 Hz, stereo, 64000 bit/s, audio application, vbr on |
| Converter.UpperCaseMp3Bitrate | src/converter.cpp:161-442 | the codec comes from the lower-cased format (line 161) but the default bitrate from the format as given (line 442): "MP3" encodes MP3 at 64000 bit/s while "mp3" gets 128000 |
| AudioFifo.Chop | src/converter.cpp:267-288 | definition of the drain loop: full frames of frame-size samples cut from the front, pts advancing by frame-size |
| AudioFifo.Frames | src/converter.cpp:267-407 | definition: the full frames, then the remainder as one shorter frame when it is not empty |
| AudioFifo.SamplesAppend | src/converter.cpp:267-288 | the samples of two frame lists are the samples of each, concatenated |
| AudioFifo.ChopCovers | src/converter.cpp:268-283 | the full frames and what stays in the FIFO are exactly the input, and fewer than a frame's worth stays |
| AudioFifo.ChopAppend | src/converter.cpp:321-328 | draining after each write cuts the same frames as draining all samples at once |
| AudioFifo.ChopShape | src/converter.cpp:269-283 | every drained frame has exactly frame-size samples and pts equal to the samples before it |
| AudioFifo.FramesProperties | src/converter.cpp:267-407 | every sample is sent once and in order; every frame holds 1 to frame-size samples and all but the last exactly frame-size; each pts counts the samples sent before it |
| AudioFifo.FullFramesLength | src/converter.cpp:283 | i full frames hold i * frame-size samples |
| AudioFifo.Framer.constructor | src/converter.cpp:238-249 | an empty FIFO, nothing sent, counter at 0 |
| AudioFifo.Framer.Write | src/converter.cpp:321-324 | the samples are appended to the FIFO |
| AudioFifo.Framer.Drain | src/converter.cpp:267-288 | the frames sent are the full frames of the FIFO, stamped from the counter; the leftover stays; the counter matches the samples sent |
| AudioFifo.Framer.FlushTail | src/converter.cpp:395-407 | a non-empty remainder goes out as one frame stamped with the counter; the FIFO ends empty |
| AudioFifo.FrameStream | src/converter.cpp:290-407 | the frames sent for a stream of chunks are `Frames` of all samples joined, whatever the chunking, and carry every sample in order |
| StickerExif.ExifJson | src/sticker.cpp:51-59 | definition of the payload: `{"sticker-pack-id":"...","sticker-pack-name":"...","sticker-pack-publisher":"...","emojis":[...]}` with nothing escaped |
| StickerExif.ExifBlock | src/sticker.cpp:61-69 | definition: header bytes 0..13, the payload length mod 2^32 as four little-endian bytes, header bytes 18..21, the payload |
| StickerExif.Le32 | src/sticker.cpp:37-39 | four bytes, each below 256 |
| StickerExif.Le32RoundTrip | src/sticker.cpp:37-39 | reading the four bytes back gives x |
| StickerExif.Le32OfRead | src/sticker.cpp:37-39 | writing back a value read from four bytes gives the same bytes |
| StickerExif.WriteLe32 | src/sticker.cpp:37-39 | bytes off..off+3 become `Le32(x)`; every other byte is unchanged |
| StickerExif.RandomHex | src/sticker.cpp:40-45 | 2n lower-case hex digits; the pair j reads back as the low byte of draw j |
| StickerExif.WriteHexPair | src/sticker.cpp:43 | the two table look-ups write lower-case hex digits whose value is the byte, high nibble at 2i and low nibble at 2i+1, and change no other character |
| StickerExif.EmojiListSnoc | src/sticker.cpp:57 | one more emoji adds a comma (unless it is the first) and the quoted emoji |
| StickerExif.WriteJson | src/sticker.cpp:51-59 | the stream writes exactly `ExifJson`: id, pack name, publisher, then the quoted emojis separated by commas |
| StickerExif.ParseItemsRoundTrip | src/sticker.cpp:57 | the emoji list reads back into the emojis when none contains a quote |
| StickerExif.ExifJsonRoundTrip | src/sticker.cpp:51-58 | the payload reads back into id, pack, publisher and emojis when no value contains a quote |
| StickerExif.PackIdPosition | src/sticker.cpp:52-53 | the pack id occupies bytes 20 onwards of the payload |
| StickerExif.ExifRoundTrip | src/sticker.cpp:61-69 | a block reads back as its payload when the payload is shorter than 4 GiB |
| StickerExif.ExifParseSound | src/sticker.cpp:61-69 | every byte string that reads back as a payload is that payload's block |
| StickerExif.ExifBlockShape | src/sticker.cpp:61-69 | the block is 22 + payload bytes: header bytes 0..13, the payload length in bytes 14..17, header bytes 18..21, then the payload |
| StickerExif.AssembleExif | src/sticker.cpp:61-69 | inserting the header, patching its length field with `write_le32` and appending the payload builds exactly `ExifBlock` |
| StickerExif.BuildWhatsAppExif | src/sticker.cpp:46-71 | the block is the header with the payload length in bytes 14..17, then the payload with some 32-hex-digit id; its length is 22 + the payload's |
| Sticker.IsWebP | src/sticker.cpp:88-91 | definition: at least 12 bytes, "RIFF" in bytes 0..3 and "WEBP" in bytes 8..11 |
| Sticker.WebPHeaderRecognised | src/sticker.cpp:88-91 | any "RIFF" + 4 bytes + "WEBP" prefix is recognised as WebP |
| Sticker.WebPOnlyHeader | src/sticker.cpp:88-91 | every input recognised as WebP is "RIFF", four size bytes, "WEBP" and the rest |
| Sticker.NotWebP | src/sticker.cpp:88-91 | inputs shorter than 12 bytes, not starting with 'R', or without "WEBP" in bytes 8 to 11 are not WebP |
| Sticker.Select | src/sticker.cpp:275-290 | definition of the main decode loop: frames without a picture skipped, a timed frame past the limit stops decoding, with a positive step a timed frame before the next-keep mark is dropped and a kept one sets the mark one step past its timestamp |
| Sticker.Selected | src/sticker.cpp:253-322 | definition: the main-loop selection, then the flush frames unless decoding stopped early |
| Sticker.Limits | src/sticker.cpp:253-262 | definition: the limit and the step in stream time when the time base is valid; otherwise no limit and no step |
| Sticker.SelectFrames | src/sticker.cpp:253-323 | the decode loops keep exactly `Selected`: the main-loop selection, then every flush frame unless decoding stopped early |
| Sticker.SelectStopsIff | src/sticker.cpp:283-285 | decoding stops early exactly when some frame with a picture has a timestamp past the limit |
| Sticker.SelectKeptBounds | src/sticker.cpp:275-290 | each kept frame has a picture and is an input frame; a timed kept frame is within the limit and not before the next-keep mark |
| Sticker.SelectSpacing | src/sticker.cpp:287-290 | with a positive step, kept timed frames are at least one step apart |
| Sticker.SelectKeepsUntimed | src/sticker.cpp:283-287 | unless decoding stops early, every frame with a picture and no timestamp is kept |
| Sticker.SelectUnlimited | src/sticker.cpp:253-259 | with no limit and no step, exactly the frames with a picture are kept, in order |
| Sticker.NoTimeBaseKeepsAll | src/sticker.cpp:253-262 | without a valid time base, the frames kept are all main-loop frames with a picture, then the flush frames |
| Sticker.AnimTimestamps | src/sticker.cpp:203-223 | no frames is an error; otherwise one timestamp per frame, the first 0, all in the 32-bit range |
| Sticker.AnimTimestampsClamped | src/sticker.cpp:211-223 | in any frame order, while the spans fit in 32 bits: each timestamp is the frame's time since the first frame, 0 for a frame earlier than the first, and the closing timestamp is max(0, last - first + 1000 / max(1, fps)) |
| Sticker.AnimTimestampsOrdered | src/sticker.cpp:211-223 | for frames in time order, each timestamp is the time since the first frame, the timestamps are ordered, and the closing one is one frame duration after the last |
| Sticker.AnimTimestampWraps | src/sticker.cpp:219 | a frame 2^31 ms after the first gets the timestamp -2^31: the cast wraps rather than clamps |
| Sticker.AnimFastFrameRate | src/sticker.cpp:223 | above 1000 fps the closing timestamp equals the last frame's |
| Sticker.CropWindow | src/sticker.cpp:142-144 | definition: side min(w, h), offsets half the surplus in each direction, rounded down |
| Sticker.CropWindowInside | src/sticker.cpp:142-144 | the window is the largest square inside the image, centred to within one pixel |
| Sticker.CropWindowInBuffer | src/sticker.cpp:175 | the window's first and last bytes lie inside the w x h RGBA buffer |
| Sticker.PadCanvas | src/sticker.cpp:161-165 | the 512x512x4 canvas holds the scaled image's bytes in the centred rectangle and zero everywhere else |
| Sticker.CopyRow | src/sticker.cpp:163-165 | one row's `memcpy` puts the scaled row's bytes at their centred place, so the canvas is filled up to the start of the next row, and zero after it |
| Sticker.StringItemsMembers | src/sticker.cpp:365-369 | a string is collected exactly when the array holds it |
| Sticker.CollectEmojis | src/sticker.cpp:364-369 | the loop collects the array's strings in order, skipping other elements |
| Sticker.MakeSticker | src/sticker.cpp:349-399 | WebP input passes through; otherwise no kept frame is the no-frame error, one gives a still image, several give an animation with `AnimTimestamps`, both encoded with the options' crop flag (default off) and quality (default 80); the EXIF block carries the options' pack, publisher and emojis |
| Sticker.DefaultStickerOptions | src/sticker.cpp:358-369 | without options: no crop, quality 80, a 15 s limit and 15 fps (66 ms step), empty names, no emojis |

## Left out

- curl transport. The handles, `setopt` calls and `curl_easy_perform` are not modelled. Their outcome enters as the return code, the final status code and the effective URL given to `FetchRequest.FetchWorker.Complete`. TLS, keep-alive, timeout and HTTP-version settings are passed through without logic of their own, so they are left out too.
- N-API plumbing. Property access, JS coercions (`ToString`, `ToNumber().Int32Value()`, `ToBoolean`), the Promise and the JS response object with its accessor closures are not modelled. Option records hold already-coerced values, with `None` for an absent property.
- Cross-thread delivery. The `ThreadSafeFunction` hand-offs of streamed chunks and progress values are not modelled. A streamed chunk is recorded as forwarded, and progress numbers are not modelled at all.
- Atomics and `std::call_once`. The abort flag is an ordinary boolean field, and concurrency between callbacks and `Abort` is not modelled.
- Randomness. `randomBoundary` takes its three 64-bit draws as parameters (`Multipart.Boundary`), and `random_hex` takes its `rand()` values as parameters.
- FFmpeg, swscale and libwebp work is not modelled: decoding, resampling, encoding, scaling, muxing, WebP encoding and `AttachExifToWebP`. Their failures are not modelled either. The decoded frames, the time base and its millisecond conversion (`av_rescale_q`), and the encoder's reported frame size are parameters. `AddExif` (`src/sticker.cpp:326-347`) only combines the modelled option reading and `BuildWhatsAppExif` with the libwebp mux.
- Floating point. The pad branch's scale factor is left out, so `Sticker.PadCanvas` takes dstW and dstH as inputs. Fractional, exponent, hexadecimal, infinite and NaN forms of the k-suffixed bitrate are also left out.
- Converter.ParseBitrate: covers numbers within the 64-bit range and k-suffixed strings that are whole decimal numbers or have no number at all. Other k-suffixed strings go through `std::stod` rounding, which is left out with the rest of floating point.
- Converter.ReadOptions: the sample rate and channel count enter already converted by `Int32Value`.
- MemoryIo.BufferCtx.SeekPacket: requires the offset to fit in 64 bits, as the C signature guarantees. Buffers of 2^63 bytes or more are excluded by the cursor's invariant.
- FetchRequest.FetchWorker.WriteBody: does not model the `size_t` overflow of `body.size() + n`, or a failing allocation while appending.
- Sticker.SelectFrames: timestamps are unbounded integers, so `next_keep = pts + step` cannot overflow here. The `sws_getContext` failures inside the loops are not modelled.
- StickerExif.ExifJsonRoundTrip: holds only for values without a double quote, because the builder does not escape them.
- FetchResponse.ParseStatusLine: models only the parts of `istringstream` extraction that a status line can reach: the first token, then an optional sign and decimal digits. Locale-specific grouping is not modelled.
