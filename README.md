# ONScripter core in Dafny

This project models the core of ONScripter, an interpreter for NScripter
visual-novel scripts. It covers four areas:

- **Archive reader.** This is `DirectReader`:
  - the keyed big-endian byte reads and writes;
  - the MSB-first bit reader `getbit`;
  - the SPB picture decoder, which produces a 24-bit BMP;
  - the LZSS decoder, with its 256-byte ring;
  - the length a compressed entry reports;
  - the registry of compression types keyed by file extension;
  - file-name normalisation;
  - Shift_JIS to EUC-JP conversion.
- **Screen transitions.** `setEffect` and `doEffect` cover the shutters,
  curtains, scrolls, crossfade, mosaic, quake timing and the `cascade.dll`,
  `trvswave.dll` and `whirl.dll` plug-ins, any other plug-in name falling back
  to a crossfade; only the cascade moves the edge of the new picture. Also modelled are the integer geometry of every numbered
  effect and `generateMosaic`.
- **Old-movie filter.** It has three revisions:
  - the experimental `OldMovieLayer` with its settings message;
  - the root `OldMovieLayer`;
  - the file-level old-movie state.

  All three share the scratches, the tint clamp, the noise and glow surfaces,
  the byte filters and the blur geometry of `BlendOnSurface`.
- **Text scanner.** This covers:
  - `isTextCommand`;
  - the `!s`, `!d`, `!w` and `#rrggbb` commands of `processText`;
  - the line-break table of `processBreaks`;
  - `findNextBreak`, `startRuby` and `doLineBreak`.

Randomness (`rand()`) is a nondeterministic choice. The loops that retry a
random choice until it differs from the previous one are stated by their
postconditions. The clock is an input. SDL surfaces are arrays of pixels, and
drawing is a recorded list of blit and blend operations. A file is an
immutable byte sequence with a cursor.

Modules:

- **`Bytes`**: byte type, `Option`, powers of two.
- **`ByteCodec`**: key table, `readChar/Short/Long`, `writeShort/Long`.
- **`BitStream`**: the bit sequence of a byte sequence, and the reference
  reader `GetBits`.
- **`BitReader`**: the `getbit` state as a class, and the program's `getbit`
  as written.
- **`Spb`**: the SPB header, delta codes, groups, planes and pixel placement,
  as functions.
- **`Lzss`**: the LZSS decoder as a function of the bit stream.
- **`DirectReader`**: the reader class. Its decoding loops are proved against
  `Spb` and `Lzss`.
- **`Names`**: the compression-type registry, name normalisation and
  SJIS→EUC.
- **`EffectGeometry`**: the rectangles each numbered effect draws.
- **`Effect`**: the transition executor class, `setEffect` and `doEffect`.
- **`Mosaic`**: `generateMosaic`.
- **`Pixel`**: pixels, the tint clamp, the byte filters, and the noise and glow
  fills.
- **`Scratches`**: `Scratch` and the shared visible-scratch count.
- **`MovieFrame`**: the per-frame random choices and the glow bounce.
- **`Blur`**: the geometry of `BlendOnSurface`.
- **`MovieMessage`**: the settings message parser.
- **`ExperimentalLayer`**, **`MovieLayer`** and **`OldMovie`**: the three
  old-movie revisions.
- **`TextCommands`**: the text scanner.

## Model

| member | source | states |
|---|---|---|
| ByteCodec.IdentityKey | DirectReader.cpp:83-86 | the default key table maps every byte to itself |
| ByteCodec.ReadChar | DirectReader.cpp:216-222 | a byte is read iff one remains at the cursor; the value is its key-table image and the cursor advances by one |
| ByteCodec.ReadShort | DirectReader.cpp:224-232 | a 16-bit value is read iff two bytes remain; it is the big-endian value of their key-table images, below 65536, and the cursor advances by two |
| ByteCodec.ReadLong | DirectReader.cpp:234-245 | a 32-bit value is read iff four bytes remain; it is the big-endian value of their key-table images, below 2^32, and the cursor advances by four |
| ByteCodec.ShortRoundTrip | DirectReader.cpp:252-259 | with the identity table, reading back a written 16-bit value gives the value and advances two bytes |
| ByteCodec.LongRoundTrip | DirectReader.cpp:261-270 | with the identity table, reading back a written 32-bit value gives the value and advances four bytes |
| ByteCodec.KeyedShortRead | DirectReader.cpp:224-232 | with any key table, a written value reads back as the key-table images of its high and low bytes |
| BitStream.GetBits | DirectReader.cpp:550-571 | the reference reader: EOF (-1) exactly when fewer than n bits remain, then the position is the end; otherwise an n-bit value and the position n bits on |
| BitStream.UnpackPack | DirectReader.cpp:563-568 | bytes cut from a bit sequence and expanded again give back the bits |
| BitStream.AlignedByte | DirectReader.cpp:563-568 | eight bits read at a byte boundary are that byte |
| BitStream.OneBit | DirectReader.cpp:563-568 | one bit is the next bit of the stream, or EOF at its end |
| BitStream.ReadOneMore | DirectReader.cpp:566-568 | reading one more bit doubles the value and adds the next bit (MSB first) |
| BitReader.BitReader.constructor | DirectReader.cpp:63-97 | a reader over no file, at position 0, with the given key table |
| BitReader.BitReader.Restart | DirectReader.cpp:580-583 | after the reset and seek, the stream is the key-table image of the file from the offset, read from its first bit |
| BitReader.BitReader.Refill | DirectReader.cpp:557-560 | the buffer is refilled with the next up-to-4096 bytes of the file, and the file position advances by that many |
| BitReader.BitReader.TakeByte | DirectReader.cpp:556-565 | taking the next byte keeps the stream position; it reports EOF iff the stream is exhausted, and otherwise arms the mask at the top bit |
| BitReader.BitReader.NextBit | DirectReader.cpp:555-569 | one step of `getbit` reads exactly the next bit of the stream, or EOF |
| BitReader.BitReader.ReadPending | DirectReader.cpp:566-568 | with bits pending in the current byte, the next one is read |
| BitReader.BitReader.ShiftMask | DirectReader.cpp:568 | shifting the mask right consumes the pending bit: the stream position advances by one and the reader stays consistent |
| BitReader.BitReader.ShiftIn | DirectReader.cpp:566-568 | shifting a bit into an accumulated i-bit value gives the (i+1)-bit value, or EOF exactly at the stream's end |
| BitReader.BitReader.GetBit | DirectReader.cpp:550-571 | `getbit(n)` returns what the reference `GetBits` reads from the current position and moves to where it stops; the file does not change |
| BitReader.GetbitAsWritten | DirectReader.cpp:550-571 | the program's `getbit` step by step: a read that returns keeps the buffer size, the file position in range and a valid mask |
| BitReader.GetbitEofNotSticky | DirectReader.cpp:557-563 | on the one-byte file `FF`, the read after an EOF is served from a stale buffer byte instead of reporting EOF again |
| BitReader.AsWrittenBeforeEof | DirectReader.cpp:550-571 | before the end of the stream, the program's `getbit` from any state the reader can be in returns what the reference reading `GetBits` returns, and leaves the reader right after those bits |
| BitReader.PendingStep | DirectReader.cpp:566-568 | shifting in the bit under the mask adds the stream's next bit to the value, and halving the mask moves on one bit |
| BitReader.TakeAsWritten | DirectReader.cpp:553-565 | with no bit pending, the loop takes the next buffered byte, refilling the buffer first when it is used up; before the end of the stream the position does not move |
| Spb.Pad | DirectReader.cpp:587 | the row padding is below 4 and makes `3 * width` a multiple of 4 |
| Spb.Stride | DirectReader.cpp:587-589 | a row's stride is the least multiple of 4 of at least `3 * width` bytes |
| Spb.HeaderFields | DirectReader.cpp:593-607 | the 54-byte header is a BMP header: `BM`, the file size mod 2^32, data offset 54, info size 40, width, height, 1 plane, 24 bits, the image size's low byte, and zeros elsewhere |
| Spb.LowBytes | DirectReader.cpp:595-598 | the four size bytes are the little-endian size mod 2^32 |
| Spb.ShortBytes | DirectReader.cpp:601-604 | the two stored bytes of a 16-bit width or height give it back |
| Spb.CodeFor | DirectReader.cpp:642-643 | every target byte has a delta code reaching it from the current one, and code 0 means "unchanged" |
| Spb.Delta | DirectReader.cpp:636-645 | one delta read consumes bits only forward within the stream |
| Spb.Deltas | DirectReader.cpp:636-646 | n deltas give n samples, and the last sample becomes the running value |
| Spb.Width | DirectReader.cpp:629-634 | selectors 1..6 mean deltas of n+2 bits and read nothing more; every width is at most 8 |
| Spb.Group | DirectReader.cpp:621-646 | a group always yields four samples, and its last is the running value |
| Spb.PlaneGroups | DirectReader.cpp:617-647 | after k groups a plane has `1 + 4k` samples, and the last is the running value |
| Spb.GroupCountExact | DirectReader.cpp:620 | the group loop runs the least number of groups that reaches the plane's size |
| Spb.Plane | DirectReader.cpp:617-647 | a decoded plane holds at least `width*height` samples and at most three more |
| Spb.WhereInverse | DirectReader.cpp:649-661 | each sample of each plane lands inside the image body, on its own channel, and the inverse map gives the sample back |
| Spb.SampleAtInverse | DirectReader.cpp:649-661 | each colour byte of the body is the landing place of exactly one sample: placement is a bijection onto the non-padding bytes |
| Spb.Placement | DirectReader.cpp:649-661 | after all three planes, the body byte where sample t of plane i lands holds that sample |
| Spb.PlacedStep | DirectReader.cpp:654-658 | placing one more sample changes only its own byte |
| Spb.BodyStep | DirectReader.cpp:649-661 | placing a further plane is the plane's placement over the body so far |
| Spb.WhereRow | DirectReader.cpp:652-661 | row j is stored bottom-up, and odd rows run right to left (the zigzag scan) |
| Lzss.InitialWindow | DirectReader.cpp:676 | the ring's first `N-F` bytes are cleared, and the rest keep what the buffer held |
| Lzss.Emit | DirectReader.cpp:682-683 | an output byte is appended to the output and stored at the ring cursor |
| Lzss.Step | DirectReader.cpp:680-692 | one item appends between 1 and 17 bytes and keeps what was produced; it stops only at the stream's end, adding nothing |
| Lzss.Literal | DirectReader.cpp:680-683 | a literal appends exactly one byte, or stops at the end of the stream |
| Lzss.Reference | DirectReader.cpp:685-691 | a match appends 2 to 17 bytes, or stops at the end of the stream |
| Lzss.Run | DirectReader.cpp:679-693 | the loop only extends the output, overshoots the length by less than 17 bytes, and stops short only at the end of the stream |
| Lzss.Decode | DirectReader.cpp:667-696 | the decoded size is below `length + 17`, and is short of `length` only when the stream ran out |
| Lzss.EmitHolds | DirectReader.cpp:683 | storing a byte keeps the ring equal to the last bytes of output |
| Lzss.CopyBack | DirectReader.cpp:687-691 | a match copies output bytes from d back, byte by byte, overlapping copies included |
| Lzss.TrailingSlot | DirectReader.cpp:687-691 | the ring slot a match reads is the one `d` bytes behind the write cursor, and stays `d` behind as both advance |
| Lzss.Match | DirectReader.cpp:687-691 | a match at ring index i of j+2 bytes repeats the output from the distance the index encodes |
| Lzss.StepHolds | DirectReader.cpp:679-693 | every item keeps the ring a window on the output's tail |
| Lzss.RunHolds | DirectReader.cpp:679-693 | the whole loop keeps the ring a window on the output's tail |
| Lzss.CopyHolds | DirectReader.cpp:687-691 | a match keeps the ring a window on the output's tail |
| Lzss.LiteralStep | DirectReader.cpp:680-683 | a flag bit 1 followed by a byte decodes as that byte |
| Lzss.LiteralRun | DirectReader.cpp:679-693 | a stream of literal items decodes to their bytes |
| Lzss.LiteralsRoundTrip | DirectReader.cpp:667-696 | any data encoded as literals and packed into bytes decodes back to itself |
| DirectReader.GetDecompressedFileLength | DirectReader.cpp:698-718 | an SPB entry reports the BMP size from its stored width and height; an NBZ entry its big-endian first long; any other kind 0 |
| DirectReader.EntryLength | DirectReader.cpp:393-403 | an uncompressed entry reports its size; an SPB or NBZ entry its decompressed length |
| DirectReader.TableOrIdentity | DirectReader.cpp:78-86 | the reader's table is the first 256 bytes of the table given, or maps every byte to itself when none is |
| DirectReader.DirectReader.constructor | DirectReader.cpp:63-97 | the key table is the one given, or the identity; the registry holds the built-in SPB, JPG and GIF entries |
| DirectReader.DirectReader.FileHandle | DirectReader.cpp:336-406 | the name is cut to the maximum length and its separators are rewritten; a found file of at least three name bytes reports the registry's kind and that kind's length, and anything else reports nothing |
| DirectReader.DirectReader.FileLength | DirectReader.cpp:408-417 | the length is the one `getFileHandle` reports |
| DirectReader.DirectReader.DecodeSpb | DirectReader.cpp:573-665 | the buffer becomes the BMP image of the SPB entry: its header plus the three placed planes; the size returned is the length `getDecompressedFileLength` reports |
| DirectReader.DirectReader.WriteHeader | DirectReader.cpp:593-607 | the first 54 bytes become the BMP header and the rest is untouched |
| DirectReader.DirectReader.Reserve | DirectReader.cpp:611-615 | the decompression buffer grows to at least n bytes |
| DirectReader.DirectReader.DecodePlane | DirectReader.cpp:617-647 | the plane loop decodes exactly the samples `Spb.Plane` defines, from the current bit position |
| DirectReader.DirectReader.DecodeGroups | DirectReader.cpp:620-647 | the group loop stores the first `1 + 4k` samples of `Spb.PlaneGroups` |
| DirectReader.DirectReader.NextGroup | DirectReader.cpp:620-647 | one pass of the group loop extends the stored samples by the next group |
| DirectReader.DirectReader.DecodeGroup | DirectReader.cpp:621-646 | one group stores the four samples `Spb.Group` defines |
| DirectReader.DirectReader.Repeat | DirectReader.cpp:622-627 | a zero selector repeats the running value four times and reads no more bits |
| DirectReader.DirectReader.DeltaWidth | DirectReader.cpp:629-634 | the delta width is the one `Spb.Width` reads |
| DirectReader.DirectReader.DecodeDeltas | DirectReader.cpp:636-646 | four deltas store the samples `Spb.Deltas` defines |
| DirectReader.DirectReader.PlacePlane | DirectReader.cpp:649-661 | a decoded plane lands in the body exactly where `Spb.Placed` puts its samples |
| DirectReader.DirectReader.NextRow | DirectReader.cpp:653-660 | one row of the plane lands where `Spb.Placed` puts it, and the target steps to the row above with the snake direction flipped |
| DirectReader.DirectReader.PlaceRow | DirectReader.cpp:653-660 | one row places the row's w samples and moves the pointers to the next row in zigzag order |
| DirectReader.DirectReader.DecodeLzss | DirectReader.cpp:667-696 | the count is the size of the output `Lzss.Decode` defines, that output is in the buffer, and the ring ends as the model's |
| DirectReader.DirectReader.DecodeItems | DirectReader.cpp:679-693 | the loop produces exactly `Lzss.Run`'s output |
| DirectReader.DirectReader.ClearWindow | DirectReader.cpp:676 | the ring is cleared below `N-F` and kept above |
| DirectReader.DirectReader.LzssStep | DirectReader.cpp:680-692 | one item of the loop is the model's step, and it stops exactly when the model breaks |
| DirectReader.DirectReader.ReadLiteral | DirectReader.cpp:680-683 | a literal item is the model's `Literal` |
| DirectReader.DirectReader.ReadReference | DirectReader.cpp:685-691 | a match item is the model's `Reference` |
| DirectReader.DirectReader.Store | DirectReader.cpp:682-683 | storing a byte is the model's `Emit` |
| DirectReader.DirectReader.CopyMatch | DirectReader.cpp:687-691 | the match copy loop is the model's `CopyFrom` |
| Names.ScanBack | DirectReader.cpp:310-311 | the backward scan stops at the last dot before i, or at 0 |
| Names.ExtensionAsWritten | DirectReader.cpp:310-312 | the program's extension is a dot-free proper suffix of the name |
| Names.Extension | DirectReader.cpp:310-312 | a name has an extension iff it contains a dot; the extension is what follows the last dot |
| Names.Upper | DirectReader.cpp:314-317 | the upper-case copy has the same length and upper-cases exactly the ASCII letters a-z |
| Names.UpperCopy | DirectReader.cpp:314-317 | the copy loop produces the upper-case name |
| Names.Registry.constructor | DirectReader.cpp:92-95 | the registry starts with the built-in entries |
| Names.Registry.Register | DirectReader.cpp:302-306 | registering appends the entry at the end of the list |
| Names.Registry.Lookup | DirectReader.cpp:308-327 | the kind is the first entry's kind for the name's upper-cased extension, and none when no entry matches |
| Names.FindFirst | DirectReader.cpp:319-326 | the earliest matching entry decides the kind |
| Names.FindNone | DirectReader.cpp:319-326 | with no matching entry the kind is "no compression" |
| Names.FindAppend | DirectReader.cpp:302-306 | a registered entry decides only extensions no earlier entry matches |
| Names.UpperIdempotent | DirectReader.cpp:314-317 | upper-casing twice is upper-casing once |
| Names.ExtensionUpper | DirectReader.cpp:310-317 | upper-casing a name upper-cases its extension |
| Names.KindIgnoresCase | DirectReader.cpp:308-327 | the lookup ignores the case of the name |
| Names.BuiltinKinds | DirectReader.cpp:93-95 | with the built-in entries, `.spb` in any case is SPB, `.jpg` and `.gif` are uncompressed, and a name without a dot is uncompressed |
| Names.ExtensionlessName | DirectReader.cpp:310-312 | the program takes "xspb" as an SPB name, while the corrected lookup does not |
| Names.Separators | DirectReader.cpp:341-352 | the rewritten name keeps its length |
| Names.CapitalName | DirectReader.cpp:341-352 | the name buffer holds the name cut to the maximum length, with its separators rewritten, and a terminating NUL |
| Names.TwoByteKept | DirectReader.cpp:347-349 | passing over a two-byte character keeps both of its bytes unchanged, or only its lead byte when it ends the name |
| Names.SeparatorStep | DirectReader.cpp:347-352 | one pass of the separator loop rewrites the next character, or a two-byte character whole |
| Names.SeparatorsOnly | DirectReader.cpp:347-352 | without two-byte characters, only `/` and `\` change, and they become the delimiter |
| Names.SeparatorsConcat | DirectReader.cpp:347-352 | rewriting a name of whole characters piece by piece is rewriting it at once |
| Names.TrailKept | DirectReader.cpp:348-351 | the second byte of a two-byte character is never rewritten, even when it looks like `\` |
| Names.SeparatorsSingle | DirectReader.cpp:347-352 | in one-byte text every separator becomes the delimiter and every other byte is kept |
| Names.ToEuc | DirectReader.cpp:444-472 | the conversion keeps the length |
| Names.SjisToEuc | DirectReader.cpp:444-472 | the in-place loop turns the NUL-terminated text into its EUC form and leaves the terminator and everything after it untouched |
| Names.EucStep | DirectReader.cpp:447-470 | one pass of the loop converts one character, or one pair |
| Names.EucPairStep | DirectReader.cpp:448-468 | a lead byte above `0x80` with a second byte before the terminator: the pair is replaced by its EUC-JP transcoding and the scan moves past both bytes |
| Names.EucAsWritten | DirectReader.cpp:444-472 | the program's loop, which can fail by reading past the buffer, keeps the length when it succeeds |
| Names.PairRoundTrip | DirectReader.cpp:448-467 | each SJIS pair maps to a valid EUC pair, and that pair maps back to the original |
| Names.EvenRow | DirectReader.cpp:455-458 | trail bytes from 0x9F are the even ku row, with cell `c2 - 0x7E` |
| Names.OddRow | DirectReader.cpp:459-464 | trail bytes up to 0x9E are the odd ku row; the cell skips 0x7F |
| Names.EucRoundTrip | DirectReader.cpp:444-472 | for valid SJIS text, converting to EUC and back is the identity |
| Names.LastLeadByte | DirectReader.cpp:448-470 | a lead byte before the terminator makes the program read past a two-byte buffer, or overwrite the terminator in a longer one; the corrected conversion keeps it |
| EffectGeometry.EffectNo | ONScripterLabel_effect.cpp:37-38 | skipping with `cut` turns every effect into effect 1; otherwise the effect is the one given |
| EffectGeometry.ShutterOps | ONScripterLabel_effect.cpp:109-151 | a shutter draws one stripe per repetition |
| EffectGeometry.CurtainOps | ONScripterLabel_effect.cpp:153-209 | a curtain draws at most one stripe per repetition |
| EffectGeometry.ScrollOps | ONScripterLabel_effect.cpp:218-285 | a scroll draws two pieces |
| EffectGeometry.CascadeMode | ONScripterLabel_effect.cpp:451-463 | the cascade mode is a 4-bit value |
| EffectGeometry.FirstSlash | ONScripterLabel_effect.cpp:329-337 | the dll name ends at the first `/` |
| EffectGeometry.ProgressRange | ONScripterLabel_effect.cpp:110 | `k * counter / duration` lies in `0..k-1` while the effect runs |
| EffectGeometry.ProgressMono | ONScripterLabel_effect.cpp:110 | the progress never goes back as the counter grows |
| EffectGeometry.CrossfadeAlpha | ONScripterLabel_effect.cpp:210-217 | the crossfade alpha stays in 0..255, and the mask alpha in 0..511 |
| EffectGeometry.UnknownIsCrossfade | ONScripterLabel_effect.cpp:210-217 | an unknown effect number draws like effect 10, one constant-alpha blend |
| EffectGeometry.MosaicLevels | ONScripterLabel_effect.cpp:290-297 | the mosaic level stays in 0..5, both ways |
| EffectGeometry.ShutterWidth | ONScripterLabel_effect.cpp:109-151 | a shutter stripe is narrower than the stripe pitch |
| EffectGeometry.StripeSpan | ONScripterLabel_effect.cpp:109-151 | each stripe has the drawn width and starts at its own pitch offset |
| EffectGeometry.ShutterApart | ONScripterLabel_effect.cpp:109-151 | distinct shutter stripes never overlap |
| EffectGeometry.CountFits | ONScripterLabel_effect.cpp:109-151 | the stripes fit in the screen's extent |
| EffectGeometry.ShutterOnScreen | ONScripterLabel_effect.cpp:109-151 | every shutter stripe lies on the screen |
| EffectGeometry.ShutterOpsAt | ONScripterLabel_effect.cpp:109-151 | the t-th operation draws stripe t |
| EffectGeometry.CurtainWidth | ONScripterLabel_effect.cpp:153-209 | the curtain's leading width stays below twice the curtain pitch |
| EffectGeometry.CurtainStripeShape | ONScripterLabel_effect.cpp:153-209 | stripe i lags by `curtain^2 * i / extent`, is drawn only while it has width, and is at most a pitch wide |
| EffectGeometry.CurtainPrefix | ONScripterLabel_effect.cpp:153-209 | once a stripe is empty all later ones are, so the loop's early exit loses nothing |
| EffectGeometry.CurtainOpsShape | ONScripterLabel_effect.cpp:153-209 | each curtain operation draws stripe t at its offset |
| EffectGeometry.ScrollExtents | ONScripterLabel_effect.cpp:218-285 | the two pieces of a scroll have non-negative sizes that add up to the screen |
| EffectGeometry.ScrollTiles | ONScripterLabel_effect.cpp:218-285 | the two pieces of a horizontal or vertical scroll tile the screen |
| EffectGeometry.CascadeModeBits | ONScripterLabel_effect.cpp:451-463 | the mode bits read back the two parameter letters: direction `u`/`d`/`r`/left, and `i`n or cross-fade `x` |
| EffectGeometry.CascadeTail | ONScripterLabel_effect.cpp:474-530 | a cascade moving in never goes back, so each frame's tail strip has a non-negative size |
| EffectGeometry.DllSplitJoin | ONScripterLabel_effect.cpp:329-337 | splitting at the first `/` loses nothing: the two parts joined by `/` give the name |
| EffectGeometry.DllScan | ONScripterLabel_effect.cpp:331-337 | the walk stops at the first `/` or NUL of the stored name, or its end |
| EffectGeometry.CStr | ONScripterLabel_effect.cpp:339-344 | the string a plug-in sees is the memory before the first NUL |
| EffectGeometry.DllScanTerminated | ONScripterLabel_effect.cpp:329-337 | on a terminated name without NULs the walk stops at its first `/`, or at the terminator |
| EffectGeometry.CStrTerminated | ONScripterLabel_effect.cpp:339-344 | a terminated string reads back as itself |
| EffectGeometry.CascadeModeTerminated | ONScripterLabel_effect.cpp:451-463 | the terminator after the parameters does not change the cascade mode |
| EffectGeometry.DllFirstSplit | ONScripterLabel_effect.cpp:329-337 | on the first frame the program's split gives the corrected dll name and the parameters with their terminator |
| EffectGeometry.DllFirstFrame | ONScripterLabel_effect.cpp:328-349 | the first frame of a dll effect as written draws what the corrected split draws |
| EffectGeometry.DllLaterFrames | ONScripterLabel_effect.cpp:329-337 | after the first frame the stored name stays cut, the dll name is still found, and the parameters start at the NUL written over the `/`, so the plug-ins see an empty string |
| EffectGeometry.CascadeUiSplit | ONScripterLabel_effect.cpp:329-337 | `cascade.dll/ui` splits into `cascade.dll` and `ui` |
| EffectGeometry.CascadeModeFlips | ONScripterLabel_effect.cpp:329-337 | `cascade.dll/ui` cascades up and in on the first frame and left without `in` on every later one |
| Effect.QuakeResolution | ONScripterLabel_effect.cpp:303-304 | the quake clamps the timer step to at most a quarter period and never below 1 |
| Effect.QuakeStalls | ONScripterLabel_effect.cpp:302-304 | as written, duration 3 with quake count 1 clamps every frame's step to 0, so after any number of frames the counter is still 0 and below the duration |
| Effect.QuakeAdvances | ONScripterLabel_effect.cpp:302-304 | with the intended clamp, every frame whose clock moved adds at least 1, so the counter reaches the duration within `duration` such frames |
| Effect.Canvas.constructor | ONScripterLabel_effect.cpp:384-396 | the record of drawing starts empty |
| Effect.Canvas.Append | ONScripterLabel_effect.cpp:384-396 | a draw is recorded at the end |
| Effect.Executor.constructor | ONScripterLabel_effect.cpp:26-28 | the stripe and curtain pitches scale with the screen ratio, and the executor starts idle with counter 0 |
| Effect.Executor.SetEffect | ONScripterLabel_effect.cpp:30-76 | effect 0 changes nothing; any other keeps the current picture as the old one (`SaveSource`), resets the counter, enters the effect event mode, waits, and marks the whole screen dirty for scrolls and mosaics |
| Effect.Executor.DoEffect | ONScripterLabel_effect.cpp:78-382 | the counter advances by the clock step (clamped for quakey and quakex); the frame is drawn; it waits iff the counter is below the duration and the effect is not 1; otherwise it copies the dirty region and returns to idle; every effect but 0 flushes, the last frame with `clear_dirty_region`; `quake` needs neither a positive duration nor a positive amplitude |
| EffectGeometry.QuakeWithoutDuration | ONScripterLabel_effect.cpp:321-326 | `quake` with duration and amplitude 0 still draws its frame: black, then the new picture unshifted |
| Effect.Executor.DrawFrame | ONScripterLabel_effect.cpp:103-349 | one frame draws the operations of its effect number and keeps the cascade edge |
| Effect.Executor.DrawNumbered | ONScripterLabel_effect.cpp:103-300 | effects 0..18 draw their geometry |
| Effect.Executor.DrawCustom | ONScripterLabel_effect.cpp:302-349 | the quakes and the dll effect draw their operations, and only the dll effect moves the cascade edge |
| Effect.Executor.DrawShutter | ONScripterLabel_effect.cpp:109-151 | the shutter loop draws the stripes of the shutter model |
| Effect.Executor.DrawCurtain | ONScripterLabel_effect.cpp:153-209 | the curtain loop draws the stripes of the curtain model |
| Effect.Executor.DrawScroll | ONScripterLabel_effect.cpp:218-285 | a scroll draws its two pieces |
| Effect.Executor.DrawDll | ONScripterLabel_effect.cpp:328-349 | `cascade.dll`, `trvswave.dll` and `whirl.dll` draw their operations and any other name a crossfade; only the cascade moves the edge |
| Effect.Executor.DrawCascade | ONScripterLabel_effect.cpp:435-591 | the cascade draws its strips and moves the edge to where the mode puts it |
| Effect.ParseCascadeMode | ONScripterLabel_effect.cpp:451-463 | parsing the parameters gives the cascade mode |
| Effect.SplitDll | ONScripterLabel_effect.cpp:329-337 | the split loop separates the dll name from its parameters at the first `/` |
| Effect.SplitDllAsWritten | ONScripterLabel_effect.cpp:329-337 | the program's walk on the stored name: it stops at the first `/` or NUL, overwrites that `/` with a NUL, and returns the name before the stop and the memory after it |
| Mosaic.BlockWidth | ONScripterLabel_effect.cpp:401-402 | the block width for level l is `160 >> l` |
| Mosaic.BlockSizes | ONScripterLabel_effect.cpp:401-402 | levels 0..5 have blocks of `160 / 2^l`, and the width is positive exactly up to level 7 |
| Mosaic.GenerateMosaic | ONScripterLabel_effect.cpp:398-433 | every pixel becomes the source pixel at its block's anchor, the bottom-left corner of a block counted from the bottom row |
| Mosaic.BlockRow | ONScripterLabel_effect.cpp:413-429 | one row of blocks fills its rows from their anchors and keeps the rows below |
| Mosaic.FillBlock | ONScripterLabel_effect.cpp:422-427 | the block, clipped to the picture, is filled with one pixel and nothing else changes |
| Mosaic.AnchorNear | ONScripterLabel_effect.cpp:413-429 | each pixel's anchor is within one block below and left of it |
| Pixel.Clamp | Layer.cpp:96-99 | the clamp is the byte nearest the value, and the value itself when in range |
| Pixel.TintChannels | Layer.cpp:96-101 | tinting adds the offset to each of the three colour channels, clamped, and clears the fourth |
| Pixel.TintZero | Layer.cpp:96-101 | a zero tint keeps a pixel with an empty fourth channel |
| Pixel.PackChannels | Layer.cpp:101 | packing three channels puts each back in its byte |
| Pixel.ChannelsPack | Layer.cpp:101 | a pixel is the sum of its four channels |
| Pixel.ImageFilter | branches/experimental-effects/Layer.cpp:286-318 | every destination byte in range becomes the kernel applied to the two source bytes at that offset, even when a source is the destination; all other bytes keep their value |
| Pixel.KernelMeaning | branches/experimental-effects/Layer.cpp:286-318 | the kernels are the mean, the saturating add and the saturating subtract, and the mean lies between its inputs |
| Pixel.HalvesApproximate | Layer.cpp:178-199 | the root filters, which halve before adding, are within one of the mean and two of the sum, and saturate only when the sum does |
| Pixel.FillNoise | Layer.cpp:127-140 | every noise pixel is a grey with a level `step * r` for r below `levels` |
| Pixel.GreyNoise | Layer.cpp:135-136 | each random level gives such a grey |
| Pixel.FillGlow | Layer.cpp:143-147 | glow row y is the grey of its shade |
| Scratches.Tally.constructor | ONScripterLabel_oldmovie.cpp:50 | the count starts at the given value |
| Scratches.Scratch.constructor | ONScripterLabel_oldmovie.cpp:77 | a new scratch is invisible and re-rolls on its next update |
| Scratches.Scratch.SetWindow | Layer.cpp:122-124 | setting the width changes nothing else |
| Scratches.Scratch.InitCapped | Layer.cpp:50-65 | a re-roll lasts 3..9 frames and keeps the shared count equal to the visible scratches; it is invisible when four others are visible, and when visible its x lies in 10..width-11 |
| Scratches.Scratch.InitLevel | branches/experimental-effects/Layer.cpp:71-87 | the level decides visibility: never at level 0 or below, always from 600; a visible scratch starts in 10..width-11 and the count is kept |
| Scratches.Scratch.Spawn | branches/experimental-effects/Layer.cpp:79-85 | a spawned scratch is visible, inside the screen margins, and adds one to the count |
| Scratches.Scratch.UpdateCapped | Layer.cpp:69-77 | one frame (`Stepped`): with time left the scratch counts down, keeps its tint and step, and moves both ends by its step while visible; when its time runs out it re-rolls for 3..9 frames, a visible one starting in 10..width-11 and an invisible one keeping its ends; the count follows its visibility, and a fifth visible scratch is refused |
| Scratches.Scratch.UpdateLevel | branches/experimental-effects/Layer.cpp:90-98 | the same frame, with the level deciding visibility on a re-roll: never at level 0 or below, always from 600 (`LevelRule`) |
| Scratches.ScratchSet.constructor | ONScripterLabel_oldmovie.cpp:121-133 | n invisible scratches with a count of 0 |
| Scratches.ScratchSet.SetWindow | Layer.cpp:122-124 | every scratch gets the width and the visibility does not change |
| Scratches.ScratchSet.UpdateCapped | Layer.cpp:170 | every scratch takes its one frame (`Stepped` against its state before), and the count stays equal to the visible ones and at most four |
| Scratches.ScratchSet.UpdateOneCapped | Layer.cpp:170 | the loop's pass for scratch `k`: it takes its frame, the scratches before it have had theirs, those after it are unchanged, and the count stays at most four |
| Scratches.ScratchSet.UpdateLevel | branches/experimental-effects/Layer.cpp:224 | every scratch takes its one frame under the level rule, and the count stays equal to the visible ones |
| Scratches.ScratchSet.UpdateOneLevel | branches/experimental-effects/Layer.cpp:224 | the loop's pass for scratch `k`: it takes its frame under the level rule, the others are as the loop left them, and the count stays equal to the visible ones on the layer's width |
| Scratches.CountUpdate | Layer.cpp:50-65 | re-rolling one scratch changes the visible count by its change in visibility |
| Scratches.CountBound | Layer.cpp:50-65 | no more scratches are visible than exist |
| Scratches.ZeroTints | ONScripterLabel_oldmovie.cpp:121-133 | with every scratch invisible the count is 0 |
| MovieFrame.PickOffset | Layer.cpp:155-161 | the blur offset is in range and differs from the last one |
| MovieFrame.PickNoise | Layer.cpp:162-164 | the noise screen is one of ten and differs from the last one |
| MovieFrame.GlowBounce | Layer.cpp:166-168 | the glow row stays in range, turns exactly at either end, and otherwise moves one row on |
| MovieFrame.GlowStaysInRange | Layer.cpp:119-120 | from the initial row and direction, any number of frames keeps the glow in range |
| MovieFrame.GlowRowsFit | Layer.cpp:144-147 | every glow shade is at most 30 |
| MovieLayer.Surfaces | Layer.cpp:126-147 | ten noise screens of greys in steps of 6 and a glow strip of `max_glow` graded rows |
| MovieLayer.OldMovieLayer.constructor | Layer.cpp:109-115 | the layer starts with its surfaces built and the glow at row 0 going up |
| MovieLayer.OldMovieLayer.Init | Layer.cpp:117-150 | init rebuilds the noise and glow and restarts the glow at row 0 |
| MovieLayer.OldMovieLayer.Update | Layer.cpp:153-171 | a frame picks a new offset in -2..1 by 0..1 and a new noise screen, each different from the last, moves the glow one step, and gives every scratch its frame (`Stepped`) |
| MovieLayer.OldMovieLayer.Roll | Layer.cpp:155-168 | the per-frame choices of `update` |
| OldMovie.GlowShades | ONScripterLabel_oldmovie.cpp:154-158 | this revision's glow rows are `5y + 4` |
| OldMovie.OldMovieState.constructor | ONScripterLabel_oldmovie.cpp:121-133 | the variables start at zero with the glow going up, six invisible scratches, and no surfaces |
| OldMovie.OldMovieState.OmInit | ONScripterLabel_oldmovie.cpp:136-162 | ten 640x480 noise screens in steps of 6, five glow rows of `5y + 4`, and the initialised flag; the frame variables are kept |
| OldMovie.OldMovieState.UpdateOldMovie | ONScripterLabel_oldmovie.cpp:165-195 | outside the effect event mode the surfaces are created once; the parameters change only while sprite 120 is shown, to a new offset in -1..0 by 0..1, a new noise screen, the next glow row and one frame of every scratch (`Stepped`) with at most four visible |
| OldMovie.OldMovieState.Roll | ONScripterLabel_oldmovie.cpp:174-187 | the per-frame choices of `updateOldMovie` |
| ExperimentalLayer.Limit | branches/experimental-effects/Layer.cpp:261-276 | the clamp lands in `0..hi` and keeps values already there |
| ExperimentalLayer.GlowRowShade | branches/experimental-effects/Layer.cpp:193-195 | each of the 25 glow shades lies in 4..32 |
| ExperimentalLayer.GlowRowOnSurface | branches/experimental-effects/Layer.cpp:396 | the glow row that refresh draws is one of the 25 on the surface |
| ExperimentalLayer.Surfaces | branches/experimental-effects/Layer.cpp:175-196 | ten noise screens of greys in steps of 2 up to the noise level, and 25 graded glow rows |
| ExperimentalLayer.Globals.constructor | branches/experimental-effects/Layer.cpp:130-134 | the shared count starts at 0 and no scratch is visible |
| ExperimentalLayer.Globals.Attach | branches/experimental-effects/Layer.cpp:163-197 | every `om_init` adds one to `om_count` and rebuilds the shared surfaces; the scratch count is kept |
| ExperimentalLayer.OldMovieLayer.constructor | branches/experimental-effects/Layer.cpp:136-159 | a new layer has every level 0 and is not initialised |
| ExperimentalLayer.OldMovieLayer.OmInit | branches/experimental-effects/Layer.cpp:161-200 | `om_init` resets the offset and the glow, keeps the levels, and builds the surfaces: noise greys up to the noise level and the 25 graded glow rows |
| ExperimentalLayer.OldMovieLayer.Update | branches/experimental-effects/Layer.cpp:203-226 | before `om_init` nothing changes; after it, an offset within the blur level (kept at level 0), a new noise screen, the next glow row and one frame of every scratch under the scratch level (`Stepped`, `LevelRule`) |
| ExperimentalLayer.OldMovieLayer.Roll | branches/experimental-effects/Layer.cpp:207-222 | the per-frame choices of `update` |
| ExperimentalLayer.OldMovieLayer.Message | branches/experimental-effects/Layer.cpp:228-283 | a settings message with exactly six fields sets the clamped levels and the dust sprite and runs `om_init`; any other message changes nothing |
| ExperimentalLayer.OldMovieLayer.Configure | branches/experimental-effects/Layer.cpp:261-279 | each level is clamped to its range, and the dust sprite changes only to a valid sprite number |
| ExperimentalLayer.OldMovieLayer.SetLevels | branches/experimental-effects/Layer.cpp:262-278 | the five levels are clamped to 3, 24, 24, 400 and 400, and the dust sprite changes only to a valid sprite number |
| ExperimentalLayer.OldMovieLayer.Passes | branches/experimental-effects/Layer.cpp:380-429 | refresh draws nothing before `om_init`; after it, the blur iff there is an offset, and the noise, glow and scratches iff their levels are positive |
| ExperimentalLayer.OldMovieLayer.RefreshOnSurfaces | branches/experimental-effects/Layer.cpp:380-429 | every pass of refresh stays on its surfaces: the blur reads only the picture and covers the clip, with a valid noise screen and glow row |
| ExperimentalLayer.ParseFields | branches/experimental-effects/Layer.cpp:231-257 | the parse loop computes the corrected field parse |
| MovieMessage.Scan | branches/experimental-effects/Layer.cpp:242-257 | the scan never fills more than the six slots and never loses a field |
| MovieMessage.Parse | branches/experimental-effects/Layer.cpp:234-257 | the corrected parse: the sign checked at the first character, fields capped at six |
| MovieMessage.ParseAsWritten | branches/experimental-effects/Layer.cpp:234-257 | the program's parse, with the sign checked one character late, stays within the slots |
| MovieMessage.Values | branches/experimental-effects/Layer.cpp:258-261 | an accepted message gives six values |
| MovieMessage.ScanCount | branches/experimental-effects/Layer.cpp:242-257 | the field count is the commas seen, capped at six |
| MovieMessage.FieldCount | branches/experimental-effects/Layer.cpp:242-260 | a message is accepted iff it has exactly five commas |
| MovieMessage.ScanDigits | branches/experimental-effects/Layer.cpp:254-255 | a run of digits accumulates into the current field in decimal |
| MovieMessage.CommaStep | branches/experimental-effects/Layer.cpp:243-252 | a comma opens the next field at 0 |
| MovieMessage.ScanJoin | branches/experimental-effects/Layer.cpp:242-257 | fields of digits joined by commas are read back as their numbers |
| MovieMessage.ScanFrozen | branches/experimental-effects/Layer.cpp:242-257 | fields already closed are never changed |
| MovieMessage.SixNumbers | branches/experimental-effects/Layer.cpp:231-261 | `s|` followed by six decimal numbers joined by commas is accepted and gives those numbers: a parse round trip |
| MovieMessage.SeventhFieldOverflows | branches/experimental-effects/Layer.cpp:243-247 | a seventh field makes the program write slot 6 of six |
| MovieMessage.FirstSignAsWritten | branches/experimental-effects/Layer.cpp:234-239 | as written, a first field `-5` reads as `-25`; the corrected parse reads `-5` |
| Blur.AsWrittenSafe | branches/experimental-effects/Layer.cpp:321-375 | for offsets -1..0 and a clip at least one column wide, the program's plan reads only the picture, covers the clip, and blends what the clipped plan blends |
| Blur.AsWrittenReadsBefore | branches/experimental-effects/Layer.cpp:324-349 | as written, a horizontal offset of 1 reads one pixel before the picture |
| Blur.AsWrittenRowsNegative | branches/experimental-effects/Layer.cpp:327-353 | as written, a vertical offset of 2 on a one-row clip leaves -1 rows, and the countdown never stops |
| Blur.PlanSafe | branches/experimental-effects/Layer.cpp:321-375 | the clipped plan reads only the picture and covers the clip for every offset |
| TextCommands.DigitRun | trunk/ONScripterLabel_text.cpp:705-711 | the run is all digits and stops at a non-digit |
| TextCommands.BlankRun | trunk/ONScripterLabel_text.cpp:712-713 | the run is all blanks and stops at a non-blank |
| TextCommands.SpaceRun | trunk/ONScripterLabel_text.cpp:851-854 | the run is all spaces and stops at a non-space |
| TextCommands.IsTextCommand | trunk/ONScripterLabel_text.cpp:858-911 | a command is recognised only at a click-page mark or at one of `` ` ``, `@`, `\`, `!` and `#`, and lies within the text |
| TextCommands.SkipCommands | trunk/ONScripterLabel_text.cpp:920-923 | skipping commands stops at the first position that starts none, within the text |
| TextCommands.Stops | trunk/ONScripterLabel_text.cpp:935-976 | the character positions, from the start to the end, each one command or character after the last |
| TextCommands.StopsIncrease | trunk/ONScripterLabel_text.cpp:935-976 | the positions strictly increase |
| TextCommands.Align | trunk/ONScripterLabel_text.cpp:985-994 | the first loop stops at or past the offset |
| TextCommands.FullWidthSpaces | trunk/ONScripterLabel_text.cpp:846-850 | the indent is that many full-width spaces |
| TextCommands.Advances | trunk/ONScripterLabel_text.cpp:846-850 | the font advances two half-widths per indent |
| TextCommands.Find | trunk/ONScripterLabel_text.cpp:489-504 | the first `/` of the ruby group, or the end |
| TextCommands.FindLast | trunk/ONScripterLabel_text.cpp:489-504 | the last `/` of the ruby group, or the end |
| TextCommands.FindFirst | trunk/ONScripterLabel_text.cpp:489-504 | nothing before the first `/` is a `/` |
| TextCommands.FindLastFinal | trunk/ONScripterLabel_text.cpp:489-504 | nothing after the last `/` is a `/` |
| TextCommands.FindStep | trunk/ONScripterLabel_text.cpp:489-504 | one more byte moves the first `/` only when there was none and the byte is `/` |
| TextCommands.CountOther | trunk/ONScripterLabel_text.cpp:489-504 | the bytes other than `/` number at most the group's |
| TextCommands.CountOtherSplit | trunk/ONScripterLabel_text.cpp:489-504 | counts add up over a split |
| TextCommands.CountOtherNone | trunk/ONScripterLabel_text.cpp:489-504 | a group without `/` counts all its bytes |
| TextCommands.RubyCounts | trunk/ONScripterLabel_text.cpp:489-504 | the body and ruby counts together are every byte of the group other than `/` |
| TextCommands.RubyEnd | trunk/ONScripterLabel_text.cpp:489-505 | the group ends at the first `)` or the end of the line |
| TextCommands.RubyScan | trunk/ONScripterLabel_text.cpp:486-505 | the scan loop finds the group's end and counts the body and ruby bytes |
| TextCommands.RubyStep | trunk/ONScripterLabel_text.cpp:489-504 | one pass of the scan keeps the body and ruby counts and the last `/` those of the bytes scanned so far |
| TextCommands.RubyByte | trunk/ONScripterLabel_text.cpp:489-504 | one byte of the scan is counted in the body or the ruby text, or a `/` moves the ruby start |
| TextCommands.ScanSlash | trunk/ONScripterLabel_text.cpp:490-492 | a `/` moves the ruby start past itself |
| TextCommands.ScanRuby | trunk/ONScripterLabel_text.cpp:500-501 | after a `/` each byte counts as ruby text |
| TextCommands.ScanBody | trunk/ONScripterLabel_text.cpp:498-499 | before any `/` each byte counts as body |
| TextCommands.TextState.StartRuby | trunk/ONScripterLabel_text.cpp:472-508 | the body counts the bytes before the first `/` and the ruby text the rest other than `/`; the ruby starts after the last `/` and ends at the first `)`; the ruby font is half the sentence font unless a size is set; the offset, page, font trace, speed, colours, break table and indent are kept |
| TextCommands.TextState.Command | trunk/ONScripterLabel_text.cpp:696-764 | `!sd` restores the default speed, `!sN` sets it, `!wN` and `!dN` wait N (with a click for `!d`) unless skipping, `#rrggbb` sets the colour; the offset moves past the command, and any other byte is displayed unchanged; the page, font trace, break table, indent and ruby group are kept |
| TextCommands.ScanCommand | trunk/ONScripterLabel_text.cpp:696-764 | the scan computes the command's effect and its end |
| TextCommands.ScanBang | trunk/ONScripterLabel_text.cpp:696-753 | a `!` command is read with its number |
| TextCommands.ScanSpeed | trunk/ONScripterLabel_text.cpp:704-714 | `!s` with a number sets the text speed to the number's value and steps over the digits and the spaces and tabs after them |
| TextCommands.ScanTimer | trunk/ONScripterLabel_text.cpp:716-730 | `!w` or `!d` with a number waits for the number's value, with a click for `!d`, and steps over the digits |
| TextCommands.ScanColour | trunk/ONScripterLabel_text.cpp:754-764 | a `#` followed by six hex digits is a colour; otherwise it is displayed |
| TextCommands.CommandAgrees | trunk/ONScripterLabel_text.cpp:696-764 | `processText` treats a `!` or `#` as a command exactly when `isTextCommand` does |
| TextCommands.ReadNumber | trunk/ONScripterLabel_text.cpp:705-711 | the number is the decimal value of the digit run |
| TextCommands.SkipBlanks | trunk/ONScripterLabel_text.cpp:712-713 | the loop stops after the blank run |
| TextCommands.SkipFrom | trunk/ONScripterLabel_text.cpp:920-923 | the skip loop stops where `SkipCommands` does |
| TextCommands.TextState.ProcessBreaks | trunk/ONScripterLabel_text.cpp:913-978 | the table has two entries more than the text; the first character gets `contLine`, and each later one whether the line may break before it; nothing else changes |
| TextCommands.FillBreaks | trunk/ONScripterLabel_text.cpp:913-978 | the loop fills the break table |
| TextCommands.FillNext | trunk/ONScripterLabel_text.cpp:935-976 | one pass writes the entry of the next character position as the break rule says and returns that position |
| TextCommands.FillStep | trunk/ONScripterLabel_text.cpp:935-976 | filling one more position keeps the table filled up to it |
| TextCommands.Allowed | trunk/ONScripterLabel_text.cpp:944-974 | the break rule: kinsoku sets, or a space, `/` or newline not after a space |
| TextCommands.FindNextBreak | trunk/ONScripterLabel_text.cpp:980-1013 | the result is the bytes of the characters from the aligned offset to the next allowed break |
| TextCommands.AlignFrom | trunk/ONScripterLabel_text.cpp:985-994 | the first loop stops where `Align` does |
| TextCommands.DistanceFrom | trunk/ONScripterLabel_text.cpp:995-1012 | the second loop counts the bytes `Distance` counts |
| TextCommands.DistanceZero | trunk/ONScripterLabel_text.cpp:995-1003 | the distance is 0 iff a break is allowed right after the commands |
| TextCommands.DistanceBound | trunk/ONScripterLabel_text.cpp:995-1012 | the distance never exceeds the rest of the text |
| TextCommands.TextState.DoLineBreak | trunk/ONScripterLabel_text.cpp:843-856 | a new line followed by the indent as full-width spaces and font advances; the spaces at the offset are skipped and the next byte is returned; the speed, colours, break table, indent and ruby group are kept |

## Left out

- File-system access (`fopen` with its directory walk, `fread`/`fseek`, `getFile`): a file is a byte sequence given to the model.
- NBZ (bzip2) decoding and encoding, and `convertFromSJISToUTF8`: they call foreign libraries.
- Re-encoding file names (`RECODING_FILENAMES`) is not part of this model.
- `getRegisteredCompressionType` copies the name over itself with overlapping `strcpy`; the model upper-cases a copy.
- A short read in `readChar`/`readShort`/`readLong` returns the key-table image of an unread byte; the model returns `None`.
- ByteCodec.WriteLong: requires a value below 2^32 rather than truncating an `unsigned long`.
- The quake offsets use `sin` and `rand()`, so only the quake timing is modelled. `effectTrvswave` and `effectWhirl` use floating point.
- The cascade's per-line blits are modelled as one strip per frame, not line by line.
- Effect drawing is recorded as operations, not executed: `drawEffect` (with its `doClipping`), `alphaBlend`, `generateMosaic`, the black fill, the plug-ins, the copies between the accumulation and effect surfaces, and `flush`. `SDL_GetTicks` becomes the `ticks` input.
- `SDL_Delay` of `doEffect` (the frame padded to 17 ms) only waits, and is left out.
- `setEffect`'s `refreshSurface` of the backup surface and of a generated new picture, and its `advancePhase` call, are left out; `setEffect` records only the copy of the current picture to the old-picture surface.
- Effect image loading is left out: masks and the `EFFECT_DST_GENERATE`/`GIVEN` surfaces.
- The effect duration override of the INSANI build is left out, and so are the event-mode bits other than the effect and idle modes.
- The mosaic works on a 2-D array, so surface pitch is not modelled.
- Scratch drawing uses `float` stepping, so only its tint clamp is modelled. SDL blits and surface locking are left out.
- The root `Layer.cpp` uses a `max_glow` it never defines, so it is a parameter of the model. Its `message` (empty) and `refresh` are left out.
- `BlendOnSurface` of `Layer.cpp` and `ONScripterLabel_oldmovie.cpp` is not modelled; only the experimental revision's geometry is.
- `refreshOldMovie` and the pixel drawing of refresh are left out; the model states which passes refresh draws and what they read.
- The experimental layer's destructor (freeing the surfaces, lowering `om_count`) is left out.
- The experimental layer's diagnostic `printf` is left out.
- Message digits accumulate in an unbounded integer, not a 32-bit `int`.
- `dust_sprite` is kept as a sprite number, not a sprite reference.
- `ns` is not initialised in the experimental layer's constructor; the model starts it at 0.
- The `SDL_imageFilter*` library of `ONScripterLabel_oldmovie.cpp` is modelled by the program's own filter loops.
- Scratch positions use `rand() % (width - 20)`, so widths of 20 or less are excluded.
- Blur.AsWrittenSafe: assumes a clip at least one column wide, a horizontal offset in -1..0 and a vertical offset in `0 .. clip.y + clip.h`; outside these the program's plan goes wrong (Findings rows 7 and 8).
- Only the INSANI build of `processText` is modelled.
- The constructor of `ONScripterLabel` is not part of this model; `TextState` starts at offset 0 with the default speed and an empty page.
- `readColor` is not part of this model; a colour is kept as its `#rrggbb` text.
- The `/`, `)` and `(` branches of `processText` are left out, except the start of a ruby group. So are the ruby margins of `initRuby`, `drawChar`, `clickWait`, `clickNewPage` and the `pretextgosub` hook.
- The skip flags and `skip_in_text` are abstracted into one `skipping` input, and event-mode bits are not modelled.
- `processBreaks` leaves table entries between characters unset; the model sets them to false.
- `FontInfo` calls are recorded as a trace of new lines and advances.
- The text wait time is an unbounded integer, not a 32-bit `int`.
- `processBreaks` with `SPACEBREAK` reads past the terminator; the model reads 0 there.
- FileHandle: follows the corrected extension lookup of Findings row 2. The program takes a dotless name minus its first byte as its extension, so `xspb` reports SPB and the SPB length, where the model reports no compression and the file size.
- FileLength: reports the length of the corrected `FileHandle`, so a dotless name such as `xspb` gets the file size, not the SPB length the program reports.
- DecodeSpb: reads bits with the corrected reader of Findings row 1, whose EOF stays EOF. On a truncated entry the program's `getbit` goes on serving stale `read_buf` bytes after the first EOF, and the picture it decodes from them is not modelled.
- DecodeLzss: reads bits with the corrected reader of Findings row 1 and stops at the first EOF. On a truncated stream the program takes the EOF value -1 as a literal flag, reads stale `read_buf` bytes and keeps writing up to `original_length`; that output is not modelled.
- Lzss.Decode: "short of `length` only when the stream ran out" holds for the corrected reader; the program's reader does not stop there.
- DoEffect: clamps the quake step with the corrected `QuakeResolution` of Findings row 4. For `quakey`/`quakex` with a duration below `4 * no` the program adds 0 each frame and waits forever (`Effect.QuakeStalls`); the model adds 1 and finishes. Its effect link is a value, so the dll effect's image name is the same on every frame; the program cuts it on the first frame (Findings row 9).
- DrawFrame: draws the dll effect with the corrected `DrawDll`, the same on every frame (Findings row 9).
- DrawCustom: draws the dll effect with the corrected `DrawDll`, the same on every frame (Findings row 9).
- DrawDll: splits with the corrected `DllSplit` and leaves the image name as it is. The program writes a NUL over the `/` on the first frame, so from the second frame on `trvswave.dll` and `whirl.dll` get empty parameters and the cascade reads that NUL and the first parameter letter as its mode (`EffectGeometry.DllLaterFrames`, `EffectGeometry.DllOpsAsWritten`).
- SplitDll: computes the corrected split without writing to the name; the in-place walk with its NUL write is `Effect.SplitDllAsWritten`.
- Message: parses with the corrected `MovieMessage.Parse` of Findings rows 5 and 6. The program reads `s|-5,0,0,0,0,0` with a first value of -25, where the model reads -5; and on a seventh field the program stores into `vals[6]`, past its array, where the model's scan stays within its six slots.
- ParseFields: its loop computes the corrected parse, with the sign of the first field tested at the field's first character; the program tests it one character late (`MovieMessage.ParseAsWritten`).
- Passes: uses the clipped blur plan `Blur.BlendPlan` of Findings rows 7 and 8. With `rx = 1` the program reads the shifted copy from before the picture, and with `ry = 2` on a one-row clip its row loop does not stop; neither is modelled as a pass.
- RefreshOnSurfaces: "the blur reads only the picture" is proved for the clipped plan. The program's own plan reads before the picture when `rx = 1` (`Blur.AsWrittenReadsBefore`).
- ParseCascadeMode: parses the corrected parameters. In the program the second mode letter is the byte after the first. For a plug-in name without `/`, such as `cascade.dll`, the parameter pointer stays on the terminator and that byte lies past the string; the model reads 0 there, and so does `EffectGeometry.CascadeMode`. From the second frame of a name with `/` on, the parameters start at the NUL written over the `/`, so the mode letters are that NUL and the first parameter letter (Findings row 9).

## Findings

| source | as written | input that shows it | evidently intended | confidence | as-written member | corrected member |
|---|---|---|---|---|---|---|
| DirectReader.cpp:550-571 | after EOF, `getbit_count` is not reset, so the next `getbit` reads a stale byte of `read_buf` | the one-byte file `FF`: `getbit(8)`, then `getbit(1)` twice; the second read returns a bit of `read_buf[1]` | EOF stays EOF | not executed | BitReader.GetbitEofNotSticky | BitReader.BitReader.GetBit |
| DirectReader.cpp:308-312 | a name without a dot is scanned back to its start and the pointer then steps one byte on, so the whole name but its first byte is taken as an extension | `xspb` is looked up as SPB (its extension is `spb`); `abspb` as `BSPB`, which matches nothing | a name without a dot has no extension | not executed | Names.ExtensionlessName | Names.Registry.Lookup |
| DirectReader.cpp:444-472 | a lead byte before the terminator is converted together with the terminator | `[0x82, 0]` reads past the buffer; `[0x82, 0, 0x41, 0]` overwrites the terminator | a lone lead byte is kept as it is | not executed | Names.LastLeadByte | Names.SjisToEuc |
| ONScripterLabel_effect.cpp:303-304 | the quake step is clamped to `duration / 4 / no`, which can be 0 | duration 3, quake count 1: the counter stays at 0 forever | a step of at least 1 | not executed | Effect.QuakeStalls | Effect.QuakeResolution |
| branches/experimental-effects/Layer.cpp:243-247 | a seventh field stores into `vals[6]` of a six-slot array | `s|0,0,0,0,0,0,0` | fields past the sixth are ignored | not executed | MovieMessage.SeventhFieldOverflows | MovieMessage.FieldCount |
| branches/experimental-effects/Layer.cpp:234-239 | the sign of the first field is tested at `message+1` | `s|-5,0,0,0,0,0` gives a first value of -25 | -5 | not executed | MovieMessage.FirstSignAsWritten | MovieMessage.Parse |
| branches/experimental-effects/Layer.cpp:324-349 | a positive horizontal offset reads the shifted copy from before the picture's first pixel | offset `rx = 1` on a full-screen clip | the shifted copy clipped to the picture | not executed | Blur.AsWrittenReadsBefore | Blur.PlanSafe |
| branches/experimental-effects/Layer.cpp:327-348 | skipping more rows than the clip has leaves a negative count, and `while (rows--)` does not stop | clip `(0, 0, w, 1)` with `ry = 2` | no more rows skipped than the clip has | not executed | Blur.AsWrittenRowsNegative | Blur.PlanSafe |
| ONScripterLabel_effect.cpp:329-337 | the dll split writes a NUL over the `/` of the effect's stored image name; the next frame's walk stops at that NUL, so its parameters start there | `cascade.dll/ui` cascades up and in on the first frame, then left and not in; `trvswave.dll` and `whirl.dll` get empty parameters from the second frame on | every frame reads the same dll and parameters | not executed | EffectGeometry.CascadeModeFlips | Effect.Executor.DrawDll |
