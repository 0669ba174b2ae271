# A verified model of a C# QOI codec

This project models the codec of a small C# implementation of the Quite OK
Image format (QOI 1.0). The modelled parts are:

- the encoder (`QOIEncoder/EncoderProgram.cs`), which turns an RGBA buffer
  into a 14-byte header, a stream of chunks and an 8-byte end marker;
- the decoder (`QOIDecoder/DecoderProgram.cs`), which turns such a file back
  into an RGBA buffer;
- the shared `Colour` struct, the 64-slot colour hash and tag constants, and
  the `QOIHeader` validating constructor (`QOIShared/`).

Both programs are written as one long `Main`. The model follows that code
step by step, with the same tests in the same order, the same C# casts and
the same error conditions.

## Files

- `bits.dfy`: the C# number semantics. It covers `byte` and `uint` ranges,
  the unchecked `(byte)` and `(sbyte)` casts, and C#'s truncating `%`. It
  also models `|` bit by bit and the header's big- and little-endian words.
- `colours.dfy`: `Colour` and the two conversions between the flat RGBA
  buffer and pixels.
- `chunks.dfy`: the hash, the tags, and the cache with its one-slot update.
  It also defines a `Chunk` datatype with a reference meaning (`ChunkPixels`,
  `Play`) that both sides are proved against.
- `encoder.dfy`:
  - a specification function, `EncodeFrom`, that follows the encoder loop
    on values;
  - the byte packing of each chunk;
  - the imperative encoder, with a `seq<byte>` for the `List<byte>` and an
    `array` for the 64-slot cache. It is proved to compute that function.
- `decoder.dfy`:
  - the specification `DecodeFile`;
  - the imperative decoder over an `array` image and an `array` cache. Its
    loop is bounded by byte offset, and it is proved equal to `DecodeFile`.
- `header.dfy`: the `QOIHeader` constructor as written, and as its messages
  describe it.
- `roundtrip.dfy`: the per-chunk inverses, the cache lockstep and the
  whole-file round trip, plus the LUMA finding.

The decoder is parameterised by `LumaRule`:

- `AsWritten` is the program as it stands. It reads only two bits of a
  LUMA chunk's green delta.
- `Corrected` reads the six bits the encoder writes.

Everything about the decoder is proved for both rules.

The source behaves in these ways, and the model follows it:

- The encoder never stores into the cache when it flushes a run. The
  decoder does store the pixel after every chunk, runs included. So the two
  caches are not equal in general. For an image of opaque black only, the
  encoder's final cache is still the fresh one, and the decoder's final cache
  holds opaque black in slot 53 (`CacheAsymmetry`).
  - The invariant that holds is weaker. Every slot whose colour hashes to
    that slot holds the same colour on both sides. Only such slots can
    produce an INDEX match (`Agree`, `Owns`, `Lockstep`).
- Four copies of (10, 20, 30, 255) do not become one run of four. The first
  pixel differs from the initial opaque black, so the result is an RGB chunk
  followed by a run of three (`FourEqualPixels`).
- The decoder's loop runs while the byte offset is below `length - 8`. It
  does not count pixels. Chunks whose pixels go past the
  allocated image are an `IndexOutOfRange`. Pixels no chunk writes stay
  (0, 0, 0, 0).
- `width * height` wraps around as a `uint` in the decoder. The flattening
  loop fails once the image has more than 2^29 pixels.

## Model

| member | source | states |
|---|---|---|
| Bits.ToByte | QOIEncoder/EncoderProgram.cs:76-77 | the unchecked `(byte)` cast leaves a value already in [0, 256) unchanged |
| Bits.ByteCongruent | QOIEncoder/EncoderProgram.cs:76-77 | `(byte)x` differs from `x` by a multiple of 256 |
| Bits.ToSByte | QOIEncoder/EncoderProgram.cs:125-127 | the unchecked `(sbyte)` cast yields a value in [-128, 127] |
| Bits.SByteCongruent | QOIEncoder/EncoderProgram.cs:125-127 | `(sbyte)x` is in [-128, 127] and differs from `x` by a multiple of 256 |
| Bits.CRem256 | QOIDecoder/DecoderProgram.cs:137 | C#'s `%` by 256 keeps the sign of the dividend and is congruent to it |
| Bits.CastOfRemainder | QOIDecoder/DecoderProgram.cs:137 | `(byte)(x % 256)` with C#'s `%` equals `x` modulo 256, for negative `x` too |
| Bits.Or | QOIEncoder/EncoderProgram.cs:101-145 | C#'s `|` on non-negative values is at least each operand and at most their sum |
| Bits.OrDisjoint | QOIEncoder/EncoderProgram.cs:132 | `|` of a value shifted by k bits and a value below 2^k is their sum |
| Bits.BigEndianValue | QOIDecoder/DecoderProgram.cs:77-78 | the shifted-and-or'ed dimension bytes give `s0·2^24 + s1·2^16 + s2·2^8 + s3` |
| Bits.BigEndianBytes | QOIEncoder/EncoderProgram.cs:76-77 | the four bytes written for a dimension are its base-256 digits, most significant first: `s0·2^24 + s1·2^16 + s2·2^8 + s3` is the dimension |
| Bits.BigEndianRoundTrip | QOIEncoder/EncoderProgram.cs:76-77 | reading back the four bytes the encoder writes for a dimension gives the dimension |
| Bits.LittleEndianValue | QOIDecoder/DecoderProgram.cs:62 | `BinaryReader.ReadUInt32` takes the first byte as the least significant eight bits and the fourth as the most significant |
| Bits.LittleEndianInjective | QOIDecoder/DecoderProgram.cs:60-63 | the little-endian `ReadUInt32` value equals another exactly when the four bytes do |
| Colours.NewColour | QOIShared/Colour.cs:13-19 | the constructor stores r, g, b, a unchanged; alpha is 255 when omitted |
| Colours.StartIsOpaqueBlack | QOIEncoder/EncoderProgram.cs:88 | the initial previous pixel is (0, 0, 0, 255), not the default (0, 0, 0, 0) |
| Colours.PixelsOf | QOIEncoder/EncoderProgram.cs:80-85 | pixel k is made of bytes 4k to 4k + 3 of the RGBA buffer |
| Colours.Flatten | QOIDecoder/DecoderProgram.cs:178-185 | the output buffer has four bytes per pixel (their content is `FlattenAt`) |
| Colours.FlattenAt | QOIDecoder/DecoderProgram.cs:178-185 | bytes 4k to 4k + 3 of the output buffer are the channels of pixel k |
| Colours.FlattenPixelsOf | QOIDecoder/DecoderProgram.cs:178-185 | flattening the encoder's pixels gives back the RGBA buffer |
| Colours.PixelsOfFlatten | QOIEncoder/EncoderProgram.cs:80-85 | the encoder's conversion of a flattened image gives back its pixels |
| Chunks.Hash | QOIShared/QOIChunks.cs:7-10 | `(r·3 + g·5 + b·7 + a·11) % 64` lies in [0, 64) |
| Chunks.HashChannels | QOIShared/QOIChunks.cs:7-10 | the four-byte overload lies in [0, 64) |
| Chunks.HashOverloads | QOIShared/QOIChunks.cs:11-14 | the `Colour` overload is the four-byte overload on its channels |
| Chunks.HashOfInitialColours | QOIShared/QOIChunks.cs:9 | the default colour hashes to slot 0 and opaque black to slot 53 |
| Chunks.TagLayout | QOIShared/QOIChunks.cs:18-26 | INDEX, DIFF, LUMA, RUN have top bits 0-3 and no payload; RGB and RGBA are RUN payloads 62 and 63 |
| Chunks.FreshCache | QOIEncoder/EncoderProgram.cs:87 | a new cache holds the default colour in all 64 slots |
| Chunks.Remember | QOIEncoder/EncoderProgram.cs:171 | storing a colour changes only slot `hash(colour)`, to that colour |
| Chunks.ChunkPixelsRepeat | QOIDecoder/DecoderProgram.cs:156-166 | every chunk stands for copies of one pixel, its last |
| Header.NewHeaderAsWritten | QOIShared/QOIHeader.cs:11-35 | succeeds exactly when width ≠ 0, height ≠ 0, channels ∉ {3, 4}, colorspace ∉ {0, 1}; the fields are the arguments |
| Header.AsWrittenRejects | QOIShared/QOIHeader.cs:13-34 | the exception names width, height, channels, colorspace, each exactly when the earlier checks pass and its own fails |
| Header.AsWrittenRefusesFormatHeader | QOIShared/QOIHeader.cs:11-34 | the header of every encoder output (4 channels, colour space 0) is refused at every size: for "channels" when width and height are non-zero, for "width" or "height" at the first zero dimension; channels 5 is refused for colour space 0 and colour space 2 is accepted |
| Header.NewHeader | QOIShared/QOIHeader.cs:11-35 | the intended constructor succeeds exactly when channels ∈ {3, 4} and colorspace ∈ {0, 1} and both dimensions are non-zero |
| Header.NewHeaderRejects | QOIShared/QOIHeader.cs:13-34 | the intended constructor names the first failing field, in the same order |
| Header.GuardsInverted | QOIShared/QOIHeader.cs:25-34 | with non-zero dimensions, the constructor as written fails exactly for valid channels or colour space, and every header the intended one accepts it refuses |
| Encoder.RunByte | QOIEncoder/EncoderProgram.cs:101 | a run byte is 0xC0 + len − 1 and never 0xFE or 0xFF |
| Encoder.IndexByte | QOIEncoder/EncoderProgram.cs:119 | an index byte is the slot number |
| Encoder.DiffByte | QOIEncoder/EncoderProgram.cs:132 | a DIFF byte is 0x40 + (dr+2)·16 + (dg+2)·4 + (db+2) |
| Encoder.LumaFirstByte | QOIEncoder/EncoderProgram.cs:144 | the first LUMA byte is 0x80 + dg + 32 |
| Encoder.LumaSecondByte | QOIEncoder/EncoderProgram.cs:145 | the second LUMA byte is (dr−dg+8)·16 + (db−dg+8) |
| Encoder.ChunkBytes | QOIEncoder/EncoderProgram.cs:99-167 | a chunk is written as 1 to 5 bytes; the first is 0xFE exactly for RGB, 0xFF exactly for RGBA, and in [0xC0, 0xFE) exactly for a run |
| Encoder.ChunksBytes | QOIEncoder/EncoderProgram.cs:101-165 | the bytes a chunk sequence adds to the output number between one and five per chunk |
| Encoder.ChunksBytesAppend | QOIEncoder/EncoderProgram.cs:101-165 | appending chunks appends their bytes |
| Encoder.ChooseChunk | QOIEncoder/EncoderProgram.cs:110-167 | the chunk for a pixel is well formed, and an INDEX chunk names the pixel's own slot |
| Encoder.DeltaChunk | QOIEncoder/EncoderProgram.cs:123-157 | with the previous alpha the chunk is a well-formed DIFF, LUMA or RGB chunk |
| Encoder.ChooseChunkKind | QOIEncoder/EncoderProgram.cs:110-167 | INDEX exactly on a cache hit, whatever the alpha or deltas; otherwise DIFF, LUMA or RGB exactly when alpha is unchanged and the earlier forms do not fit; RGBA exactly when alpha changed |
| Encoder.ChosenDiff | QOIEncoder/EncoderProgram.cs:125-134 | the DIFF chunk carries the signed-byte deltas |
| Encoder.ChosenLuma | QOIEncoder/EncoderProgram.cs:138-147 | the LUMA chunk carries dg and the red and blue deltas less dg |
| Encoder.ChosenRgb | QOIEncoder/EncoderProgram.cs:149-156 | the RGB fallback carries the pixel's colour channels |
| Encoder.ChooseChunkPixels | QOIEncoder/EncoderProgram.cs:110-167 | the chosen chunk stands for exactly the pixel, given the same previous pixel and cache |
| Encoder.DiffPixels | QOIEncoder/EncoderProgram.cs:123-134 | the wrapped DIFF deltas rebuild the pixel modulo 256 |
| Encoder.LumaPixels | QOIEncoder/EncoderProgram.cs:136-147 | the wrapped LUMA deltas rebuild the pixel modulo 256 |
| Encoder.EncodeFrom | QOIEncoder/EncoderProgram.cs:91-180 | the chunks from pixel i with a pending run are well formed and cover the remaining pixels plus the run |
| Encoder.ExtendStep | QOIEncoder/EncoderProgram.cs:93-97 | a pixel equal to the previous one extends a run below 62 before anything else is checked |
| Encoder.FlushStep | QOIEncoder/EncoderProgram.cs:99-106 | otherwise a pending run is flushed and the same pixel is looked at again |
| Encoder.ChunkStep | QOIEncoder/EncoderProgram.cs:108-171 | otherwise the pixel gets the chosen chunk, becomes the previous pixel and is stored in its slot |
| Encoder.EncodeImage | QOIEncoder/EncoderProgram.cs:87-91 | the chunks of an image account for exactly its pixels |
| Encoder.CacheFrom | QOIEncoder/EncoderProgram.cs:91-173 | the encoder's cache after the pixels from i on: every slot keeps its colour or holds one that hashes to it |
| Encoder.CacheFromPixels | QOIEncoder/EncoderProgram.cs:108-171 | every slot the loop changes holds one of the pixels it looked at |
| Encoder.EncoderCache | QOIEncoder/EncoderProgram.cs:87-173 | after the whole image every slot of the encoder's cache is still blank or holds a pixel of the image that hashes to it |
| Encoder.RepeatedPixelsKeepCache | QOIEncoder/EncoderProgram.cs:93-106 | pixels all equal to the previous one never change the encoder's cache |
| Encoder.HeaderBytes | QOIEncoder/EncoderProgram.cs:75-78 | the header is 14 bytes, starting with "qoif" and ending with channels 4 and colour space 0 |
| Encoder.EncodedBytes | QOIEncoder/EncoderProgram.cs:75-184 | the output is at least 22 bytes, starts with "qoif" and ends with the end marker |
| Encoder.EncodedLayout | QOIEncoder/EncoderProgram.cs:75-184 | output is "qoif", big-endian width and height, 4, 0, the chunk bytes, then seven 0x00 and a 0x01 |
| Encoder.RunChunks | QOIEncoder/EncoderProgram.cs:93-106 | n repeated pixels are ⌈n / 62⌉ run chunks covering n |
| Encoder.RepeatedPixelsBecomeRuns | QOIEncoder/EncoderProgram.cs:93-106 | pixels all equal to the previous one encode to those run chunks only |
| Encoder.FourEqualPixels | QOIEncoder/EncoderProgram.cs:88-106 | four copies of (10, 20, 30, 255) encode as RGB then a run of three |
| Encoder.EncodePixel | QOIEncoder/EncoderProgram.cs:110-167 | the loop body emits the bytes of the chosen chunk |
| Encoder.EncodeDelta | QOIEncoder/EncoderProgram.cs:123-157 | the same-alpha branch emits the bytes of the DIFF, LUMA or RGB chunk |
| Encoder.EncodeLumaOrRgb | QOIEncoder/EncoderProgram.cs:136-157 | once DIFF fails, it emits the bytes of the LUMA or RGB chunk |
| Encoder.Encode | QOIEncoder/EncoderProgram.cs:72-184 | the whole output equals the header, the chunk bytes of the image and the end marker |
| Encoder.WriteHeader | QOIEncoder/EncoderProgram.cs:75-78 | the 14 header bytes |
| Encoder.ToPixels | QOIEncoder/EncoderProgram.cs:80-85 | a fresh array holding the converted pixels |
| Encoder.EncodeChunks | QOIEncoder/EncoderProgram.cs:87-180 | the loop with its run counter, `i--` rewind, cache array and final flush emits the bytes of `EncodeImage`, and leaves the cache array holding `EncoderCache` |
| Decoder.MagicIsQoif | QOIDecoder/DecoderProgram.cs:62-63 | 0x66696F71 is "qoif" read little-endian |
| Decoder.FramingErrors | QOIDecoder/DecoderProgram.cs:60-79 | fewer than 4 bytes end the stream; another magic is invalid data; a file cut inside the dimensions is an index error |
| Decoder.SkippedBytesIgnored | QOIDecoder/DecoderProgram.cs:81 | bytes 12 and 13 never change the result |
| Decoder.DecodeFile | QOIDecoder/DecoderProgram.cs:58-185 | a decoded image has the big-endian width and height of bytes 4-11 and four bytes per pixel of the wrapped pixel count, at most 2^31 bytes |
| Decoder.ByteFields | QOIDecoder/DecoderProgram.cs:134-136 | `(byte)(b1 << k) >> 6` is bits 5-4, 3-2 or 1-0 of b1 |
| Decoder.LeadingBits | QOIDecoder/DecoderProgram.cs:101 | `b1 >> 6` is the top two bits |
| Decoder.IndexSlot | QOIDecoder/DecoderProgram.cs:126 | `(b1 << 2) >> 2` on an `int` is b1 itself, under 64 for an INDEX byte |
| Decoder.RunLength | QOIDecoder/DecoderProgram.cs:157 | the run length is the low six bits plus one |
| Decoder.DiffColour | QOIDecoder/DecoderProgram.cs:130-141 | each channel moves by its two-bit field less 2, modulo 256; alpha is kept |
| Decoder.LumaGreen | QOIDecoder/DecoderProgram.cs:145 | as written the green delta is bits 5-4 less 32, in [-32, -29]; corrected it is the low six bits less 32 |
| Decoder.LumaColour | QOIDecoder/DecoderProgram.cs:142-151 | the channels move by the green delta, plus the nibbles less 8 for red and blue, modulo 256; alpha is kept |
| Decoder.ParseChunk | QOIDecoder/DecoderProgram.cs:99-167 | a chunk consumes 1 to 5 bytes and yields 1 to 62 pixels |
| Decoder.Place | QOIDecoder/DecoderProgram.cs:162-173 | writing fails exactly when the pixels do not fit; on success the index advances by the count |
| Decoder.InitialState | QOIDecoder/DecoderProgram.cs:90-96 | the decoder starts with `width * height` blank pixels, all 64 cache slots blank, previous pixel opaque black and index 0 |
| Decoder.DecodeFrom | QOIDecoder/DecoderProgram.cs:96-176 | the loop from byte offset i yields an image of the allocated size or an error |
| Decoder.DecodeFromStep | QOIDecoder/DecoderProgram.cs:97-176 | one loop iteration: parse, place, continue at the next offset, or stop at the first error |
| Decoder.DecodeKeepsWritten | QOIDecoder/DecoderProgram.cs:162-173 | the image index only moves forward: a decoded image keeps every pixel written below the current index |
| Decoder.Store | QOIDecoder/DecoderProgram.cs:109 | writing one pixel fails exactly past the end, else overwrites that slot only |
| Decoder.WriteRun | QOIDecoder/DecoderProgram.cs:159-165 | the run loop writes `run` copies of the previous pixel or fails when they do not fit |
| Decoder.DecodeChunk | QOIDecoder/DecoderProgram.cs:99-168 | one iteration's writes and offsets are those of `ParseChunk` and `Place` |
| Decoder.DecodeTagged | QOIDecoder/DecoderProgram.cs:120-167 | the same for the two-bit dispatch |
| Decoder.DecodeChunks | QOIDecoder/DecoderProgram.cs:90-176 | the byte-offset loop fails with the first error of `DecodeFrom` or leaves its image |
| Decoder.FlattenImage | QOIDecoder/DecoderProgram.cs:178-185 | the output buffer is the flattened image |
| Decoder.Decode | QOIDecoder/DecoderProgram.cs:58-185 | the imperative decoder computes `DecodeFile`, errors included |
| RoundTrip.RunInverse | QOIDecoder/DecoderProgram.cs:156-166 | a run byte decodes to `len` copies of the previous pixel, one byte consumed |
| RoundTrip.IndexInverse | QOIDecoder/DecoderProgram.cs:125-129 | an index byte yields the cache slot verbatim, alpha included |
| RoundTrip.DiffInverse | QOIDecoder/DecoderProgram.cs:130-141 | a DIFF byte decodes to the pixel its chunk stands for |
| RoundTrip.LumaInverse | QOIDecoder/DecoderProgram.cs:142-155 | a LUMA pair decodes to its pixel under a reading that is faithful to it |
| RoundTrip.RgbInverse | QOIDecoder/DecoderProgram.cs:112-119 | 0xFE yields the next three bytes with the previous alpha and consumes 4 bytes |
| RoundTrip.RgbaInverse | QOIDecoder/DecoderProgram.cs:103-111 | 0xFF yields the next four bytes verbatim and consumes 5 bytes |
| RoundTrip.ChunkInverse | QOIDecoder/DecoderProgram.cs:99-167 | each chunk's bytes parse back to its pixels and their count, and the offset moves past exactly those bytes |
| RoundTrip.ReplayedImage | QOIDecoder/DecoderProgram.cs:171-173 | placing the chunks one by one writes their pixels in order |
| RoundTrip.ChunksDecode | QOIDecoder/DecoderProgram.cs:97-176 | chunk bytes laid out up to the last 8 bytes decode to the replayed image; the trailer is never read |
| RoundTrip.ChunksInverse | QOIDecoder/DecoderProgram.cs:97-176 | decoding the bytes of a faithful chunk sequence writes exactly the pixels it stands for |
| RoundTrip.CacheAsymmetry | QOIDecoder/DecoderProgram.cs:171-172 | for an image of opaque black only, the encoder emits runs only and ends with its cache untouched, while the decoder replaying those runs ends with opaque black in slot 53; the two final caches still agree on every matchable slot |
| RoundTrip.RunsRemember | QOIDecoder/DecoderProgram.cs:156-173 | replaying run chunks leaves the previous pixel as it is and stores it in its slot |
| RoundTrip.ChosenPixelsAgree | QOIEncoder/EncoderProgram.cs:110-121 | a chunk chosen with the encoder's cache means the same pixel with any agreeing decoder cache |
| RoundTrip.AgreeAfterRun | QOIDecoder/DecoderProgram.cs:171-172 | the decoder's store after a run keeps the caches agreeing |
| RoundTrip.AgreeAfterChunk | QOIEncoder/EncoderProgram.cs:170-171 | storing the same pixel on both sides keeps them agreeing |
| RoundTrip.Lockstep | QOIEncoder/EncoderProgram.cs:91-180 | replaying the encoder's chunks from any agreeing state gives back the pending run and the remaining pixels |
| RoundTrip.PlayEncodeImage | QOIEncoder/EncoderProgram.cs:87-180 | the chunks of an image stand for exactly that image |
| RoundTrip.BodyDecodes | QOIDecoder/DecoderProgram.cs:90-176 | the chunk bytes and end marker decode to the image |
| RoundTrip.FramingDecodes | QOIDecoder/DecoderProgram.cs:58-90 | the decoder accepts the encoder's header and reads back its dimensions |
| RoundTrip.RoundTrip | QOIDecoder/DecoderProgram.cs:58-185 | with the six-bit LUMA reading, decoding an encoder output gives back the RGBA buffer |
| RoundTrip.RoundTripAsWritten | QOIDecoder/DecoderProgram.cs:142-155 | with the source's reading, it does so whenever every LUMA chunk has green delta −32 |
| RoundTrip.LumaReadings | QOIDecoder/DecoderProgram.cs:145 | the two-bit reading decodes a LUMA chunk to its pixel exactly when dg = −32; the six-bit reading always does |
| RoundTrip.LumaGreenOf | QOIDecoder/DecoderProgram.cs:145 | the two-bit reading recovers dg exactly when dg = −32 |
| RoundTrip.LumaMisreadsGreen | QOIDecoder/DecoderProgram.cs:145-148 | a misread green delta always changes the green channel |
| RoundTrip.MisreadChunk | QOIDecoder/DecoderProgram.cs:142-151 | a LUMA chunk with dg ≠ −32 read first makes the two-bit reading write a wrong pixel that stays, so the chunks' image is not produced |
| RoundTrip.MisreadChunks | QOIDecoder/DecoderProgram.cs:97-176 | the same for such a chunk anywhere in a laid-out chunk sequence |
| RoundTrip.MisreadBody | QOIDecoder/DecoderProgram.cs:90-176 | the chunk bytes and end marker of an image containing such a chunk do not decode to the image, nor to any image that flattens to the same buffer |
| RoundTrip.AsWrittenMisdecodes | QOIDecoder/DecoderProgram.cs:58-185 | with the source's reading, an encoder output with a LUMA chunk whose dg ≠ −32 does not decode to its image |
| RoundTrip.AsWrittenRoundTripExactly | QOIDecoder/DecoderProgram.cs:142-155 | with the source's reading, an encoder output decodes to its image exactly when every LUMA chunk of its encoding has dg = −32 |
| RoundTrip.LumaCounterexample | QOIDecoder/DecoderProgram.cs:145 | the image (5, 5, 5, 255) encodes to LUMA bytes A5 88, which the program decodes to (226, 226, 226, 255) |

## Left out

- Command-line parsing, usage text and the `-v` flag: user-interface glue.
- File streams, `BinaryReader` and `BinaryWriter`: the model starts from the file's bytes and ends with the output bytes. `ReadUInt32` is little-endian assembly of four bytes. `ReadBytes` returns fewer bytes at the end of the file, which is modelled.
- Loading and saving PNG images through ImageSharp: a foreign library. The RGBA buffer is the boundary.
- `Verbose` logging and console output: they have no effect on the result.
- Exception messages: errors are identified by their kind (`EndOfStream`, `InvalidData`, `IndexOutOfRange`) and, for `QOIHeader`, by the parameter they name.
- Running out of memory on a huge allocation: memory is unbounded in the model.
- Encoder.Encode: requires width · height · 4 ≤ 2^31 and a bitmap of exactly that many bytes. The encoder's `uint` wrap-around of `width * height` and a bitmap of another length are not modelled. The decoder's wrap-around is modelled.
- Decoder.Decode: an exception stops the C# program after a partial write. The model returns the error and keeps no partial image, because nothing observes it.

## Findings

| source | as written | input that shows it | evidently intended | confidence | as-written member | corrected member |
|---|---|---|---|---|---|---|
| QOIDecoder/DecoderProgram.cs:145 | the LUMA green delta is read as `((byte)(b1 << 2) >> 6) - 32`, only bits 5-4 of the first byte, so always in [-32, -29] | the 1×1 image (5, 5, 5, 255) encodes to the LUMA bytes A5 88; the program decodes them to (226, 226, 226, 255) | the six bits the encoder writes at QOIEncoder/EncoderProgram.cs:144: `(b1 & 0x3F) - 32` | not executed | RoundTrip.LumaCounterexample | RoundTrip.RoundTrip |
| QOIShared/QOIHeader.cs:25-34 | `!(channels != 3 && channels != 4)` and the same colour-space test throw exactly for the valid values | `QOIHeader(1, 1, 4, 0)` throws `ArgumentException` for "channels" | throw when channels ∉ {3, 4} or colorspace ∉ {0, 1} | not executed | Header.AsWrittenRefusesFormatHeader | Header.NewHeaderRejects |
