# FFAB container tooling in Dafny

This project models the Python tooling of FFAB ("FlexFrameAnimation
Bundle"), a binary container that packs a sequence of ASTC-compressed
frames. The FFAB tools modelled here are:

- `ffa-bundle/ffab_encoder.py` (the root encoder). It checks that all
  frames share one size and looks up the ASTC format code of the block-size
  name. It writes a 4-byte header (magic `0xFFAB`, version `0x0001`), an
  8-byte meta block (frame count, width, height, format code), one 12-byte
  index entry per frame (absolute offset, length) and the payloads. Before
  storing a frame it checks that the compressor output begins with the
  16-byte `.astc` header it regenerates itself, and strips that header.
- `ffa-bundle/tools/ffab_encoder.py`, the same container writer without the
  header check: it stores each compressor output whole.
- `ffa-bundle/ffab_decoder.py`. It checks magic and version, reads the meta
  block, maps the format code back to its name and rejects unknown codes.
  It reads the index table and slices each payload out of the file. Then it
  puts a regenerated `.astc` header in front of the payload for the
  decompressor, and names frame i `frame_NNNN.png`.
- `ffa-bundle/ffab_info.py`, the inspection tool. It runs the same header
  checks, reads the meta block without rejecting unknown codes, and lists
  the index. It computes the total, smallest and largest payload length,
  the data-start offset and the uncompressed RGBA size.

Files are byte sequences (`seq<byte>`, `byte` being 0..255). Every
`open` + `seek` + `read` becomes a slice. A read that comes back too short
for `struct.unpack` becomes the error `ShortRead`. The external `astcenc`
compressor becomes an input: each image carries its size and the bytes the
compressor wrote for it.

Modules, one per file:

- `Bytes`: big-endian packing and unpacking (`struct`'s `>H`, `>I`, `>Q`)
  and `b''.join`.
- `Text`: `str.lower`, `str.split`, `int()` on digit strings, and the
  `{n}`, `{n:04d}` and `{n:04X}` formats.
- `AstcFormat`: the 14-entry format table, its inverse, the two name
  lookups, `generate_astc_header`, and a reference reader of the `.astc`
  header laid out in ARM astc-encoder's Docs/FileFormat.md.
- `FfabFormat`: the container layout, stated once as a function of the
  payloads (`FileBytes`), with the layout lemmas.
- `FfabEncoder` and `FfabToolsEncoder`: the two `create_ffab_file_v1`.
  Each is a method whose loop is proved against a loop-free specification
  function (`EncodeV1`).
- `FfabDecoder`: `read_*` and `decode_ffab_file`.
- `FfabInfo`: the inspection tool. `read_ffab_index_table` is a method
  with accumulators, proved against `IndexInfoOf(TableOf(...))`.
- `FfabRoundTrip`: what the decoder makes of what each encoder writes.

Root encoder, then decoder: frame i's decompressor input is exactly the
compressor's output for image i (`RootFrameRoundTrip`). Tools encoder, then
decoder: each payload reads back as the whole compressor output, but the
decoder still puts a regenerated header in front of it, so the
decompressor gets 16 header bytes followed by the whole output
(`ToolsFrameRoundTrip`). The root encoder passes the format name to
`generate_astc_header` without lower-casing it. A name that passes the
case-insensitive code lookup only after lower-casing, such as `"6X6"`, is
therefore rejected by the root encoder. The tools encoder's
`create_ffab_file_v1` raises nothing of its own for it
(`UpperCaseFormatName`); the compressor receives the name unlowered, and
the model does not constrain what it does with it. Both `main` functions
lower-case the name, and their argument parsers admit only the lower-case
table names, so neither command line reaches this case.

Two behaviours of the code are worth stating, because a stricter reader
would fail where these succeed or fail elsewhere:

- `read_compressed_image_data` (`ffa-bundle/ffab_decoder.py:240-255`)
  seeks to the offset and returns whatever `f.read(length)` gives. For an
  offset below 2^63, a range that runs past the end of the file yields a
  shortened payload, and one that starts past the end yields an empty
  payload; neither is an error. Larger offsets are under "Left out".
- No reader checks the file size up front. Each fails at the first
  `struct.unpack` that gets too few bytes: the header needs 4 bytes
  (`ffa-bundle/ffab_decoder.py:175-176`), the meta block 12
  (`ffa-bundle/ffab_decoder.py:203-204`), and the index table
  12 + 12·n (`ffa-bundle/ffab_decoder.py:233-234`). The inspection tool
  reads the same way (`ffa-bundle/ffab_info.py:56-57`, `:88-89`,
  `:132-133`).

## Model

| member | source | states |
|---|---|---|
| Bytes.DecodeEncodeBE | ffa-bundle/ffab_decoder.py:204 | unpacking a big-endian field that was packed gives the value back |
| Bytes.EncodeDecodeBE | ffa-bundle/ffab_decoder.py:234 | packing the value unpacked from n bytes gives those n bytes back |
| Bytes.EncodeBEInjective | ffa-bundle/ffab_encoder.py:270 | two values packed into the same width have equal bytes exactly when they are equal |
| Bytes.Flatten | ffa-bundle/ffab_encoder.py:313-316 | `b''.join` is as long as the chunks together |
| Bytes.FlattenPrefix | ffa-bundle/ffab_encoder.py:316 | the join of the first k chunks is the prefix of the join of length their total |
| Bytes.FlattenSlice | ffa-bundle/ffab_encoder.py:316 | chunk k of a join is the range starting at the total length of the chunks before it |
| Bytes.TotalLengthUniform | ffa-bundle/ffab_encoder.py:313 | k chunks of one width w are w·k bytes long |
| Text.Lower | ffa-bundle/ffab_encoder.py:74 | `lower()` keeps the length and lower-cases each character on its own |
| Text.LowerIdempotent | ffa-bundle/ffab_encoder.py:65 | lower-casing a lower-cased name changes nothing |
| Text.SplitOnPiecesFree | ffa-bundle/ffab_encoder.py:228 | no piece of `split(sep)` contains the separator |
| Text.SplitOnCount | ffa-bundle/ffab_encoder.py:228 | `split(sep)` gives one piece more than there are separators |
| Text.JoinSplitOn | ffa-bundle/ffab_encoder.py:228 | joining the pieces of a split with the separator restores the string |
| Text.SplitOnTwo | ffa-bundle/ffab_encoder.py:228 | a + sep + b, neither holding sep, splits into exactly [a, b] |
| Text.Decimal | ffa-bundle/ffab_info.py:98 | `str(n)` is a non-empty digit string without a leading zero |
| Text.DecimalRoundTrip | ffa-bundle/ffab_encoder.py:228 | `int(str(n)) == n`, and `str(n)` holds no 'x' |
| Text.ZeroPaddedRoundTrip | ffa-bundle/ffab_decoder.py:302 | `{n:0wd}` is exactly w characters unless n needs more digits, is the decimal form of n behind nothing but zeros, and reads back as n |
| Text.Hex4RoundTrip | ffa-bundle/ffab_info.py:70 | `{v:04X}` reads back as v as a hex number |
| AstcFormat.TableNamesAreBlockSizes | ffa-bundle/ffab_encoder.py:30-45 | every table name is "AxB" with A and B block sizes between 4 and 12 |
| AstcFormat.NameCodeName | ffa-bundle/ffab_decoder.py:50 | the code of a table name maps back to that name in the inverse table |
| AstcFormat.CodeNameCode | ffa-bundle/ffab_decoder.py:50 | the name of a known code maps back to that code |
| AstcFormat.KnownCodes | ffa-bundle/ffab_decoder.py:32-47 | the known codes are exactly 0x0001 to 0x000E |
| AstcFormat.CheckAstcFormat | ffa-bundle/ffab_encoder.py:63-69 | succeeds exactly when the lower-cased name is in the table, returning it (already lower-case); otherwise fails naming the lower-cased name |
| AstcFormat.GetAstcFormatCode | ffa-bundle/ffab_encoder.py:72-78 | succeeds exactly when the lower-cased name is in the table, with a code in 1..14 that maps back to that name; otherwise fails naming the lower-cased name |
| AstcFormat.GetAstcFormatCodeCaseInsensitive | ffa-bundle/tools/ffab_encoder.py:68-83 | names equal up to case get the same lookup result, and looking up the checked name gives the same code |
| AstcFormat.ParseBlockSizeName | ffa-bundle/ffab_encoder.py:228 | splitting "AxB" on 'x' and converting both parts gives back (A, B) |
| AstcFormat.GenerateAstcHeader | ffa-bundle/ffab_encoder.py:202-238 | a header exists exactly when the name splits into two integers below 256, and it is 16 bytes long |
| AstcFormat.LE3RoundTrip | ffa-bundle/ffab_encoder.py:234-235 | the three little-endian bytes of a dimension hold it modulo 2^24 |
| AstcFormat.AstcHeaderRoundTrip | ffa-bundle/ffab_decoder.py:56-92 | an ASTC reader finds in the generated header the magic, the block size the name spells, depth 1, and width and height modulo 2^24 |
| AstcFormat.AstcHeaderForTableName | ffa-bundle/ffab_decoder.py:121 | every table name yields a header whose block size is the one the name spells |
| AstcFormat.ParsableNameIsCanonical | ffa-bundle/ffab_encoder.py:228 | a name whose lower-case form is in the table splits into two block sizes only if it is already lower-case |
| AstcFormat.UpperCaseNameRejectedByHeader | ffa-bundle/ffab_encoder.py:263-283 | "6X6" passes the code lookup (code 5) but gets no header |
| FfabFormat.HeaderBytesValue | ffa-bundle/ffab_encoder.py:266 | the header is the bytes FF AB 00 01 |
| FfabFormat.MetaBytes | ffa-bundle/ffab_encoder.py:270 | the packed meta block is 8 bytes, defined only when all four fields fit 16 bits |
| FfabFormat.EntryBytes | ffa-bundle/ffab_encoder.py:302 | a packed entry is 12 bytes, defined only when the offset fits 64 bits and the length 32 |
| FfabFormat.EntriesContiguous | ffa-bundle/ffab_encoder.py:278-308 | the first entry starts at the data start, each next one where the previous ends, and the last ends after all payloads |
| FfabFormat.EntriesOrdered | ffa-bundle/ffab_encoder.py:299-308 | an earlier payload ends no later than a later one starts: entries never overlap |
| FfabFormat.IndexTableLength | ffa-bundle/ffab_encoder.py:313 | the index table is 12 bytes per entry |
| FfabFormat.IndexTableEntry | ffa-bundle/ffab_encoder.py:302-313 | entry i of the index table is the packed entry i, at byte 12·i |
| FfabFormat.FileLength | ffa-bundle/ffab_encoder.py:318-330 | the file is 12 + 12·n + (sum of payload lengths) bytes long |
| FfabFormat.LastEntryEndsFile | ffa-bundle/ffab_encoder.py:308-330 | the last entry's offset plus its length is the file length |
| FfabFormat.FileHead | ffa-bundle/ffab_encoder.py:321-324 | the file starts with the header and then the meta block |
| FfabFormat.FileIndexSlice | ffa-bundle/ffab_encoder.py:327 | bytes 12 + 12·i to 24 + 12·i of the file are the packed entry i |
| FfabFormat.FilePayloadSlice | ffa-bundle/ffab_encoder.py:330 | the byte range entry i records holds exactly payload i |
| FfabDecoder.HeaderBytesDecode | ffa-bundle/ffab_decoder.py:175-183 | four bytes are the FFAB header exactly when their halves unpack as 0xFFAB and 0x0001 |
| FfabDecoder.ReadFfabHeader | ffa-bundle/ffab_decoder.py:160-186 | succeeds with version 1 exactly when the file starts with the FFAB header; fails with ShortRead under 4 bytes, with BadMagic, checked before the version, on a wrong magic, and with UnsupportedVersion(v) when the magic is right and the version v is not 1 |
| FfabDecoder.UnpackMeta | ffa-bundle/ffab_decoder.py:203-204 | the 8 bytes unpack to the one meta block that packs back to them |
| FfabDecoder.ReadFfabMeta | ffa-bundle/ffab_decoder.py:189-206 | succeeds exactly when the file holds 12 bytes, with the meta block that packs to bytes 4..12; otherwise ShortRead |
| FfabDecoder.IndexEntryAt | ffa-bundle/ffab_decoder.py:233-234 | entry i is the one entry that packs to the 12 bytes at 12 + 12·i |
| FfabDecoder.EntryBytesInjective | ffa-bundle/ffab_decoder.py:234 | two entries that pack to the same bytes are equal |
| FfabDecoder.MetaBytesInjective | ffa-bundle/ffab_decoder.py:204 | two meta blocks that pack to the same bytes are equal |
| FfabDecoder.ReadFfabIndexTable | ffa-bundle/ffab_decoder.py:209-237 | succeeds exactly when n = 0 or the file holds all n entries (otherwise ShortRead), with n entries, entry i packing to bytes 12 + 12·i to 24 + 12·i |
| FfabDecoder.ReadCompressedImageData | ffa-bundle/ffab_decoder.py:240-255 | never longer than asked; the exact range when it lies in the file, cut at the end of the file otherwise, empty from past the end |
| FfabDecoder.ReadLocated | ffa-bundle/ffab_decoder.py:252-255 | an entry that lies in the file reads back exactly the bytes it records |
| FfabDecoder.AstcInput | ffa-bundle/ffab_decoder.py:121-129 | the decompressor input exists exactly when a header does; it is the payload behind 16 bytes an ASTC reader reads as the generated header |
| FfabDecoder.StripThenPrepend | ffa-bundle/ffab_decoder.py:127-129 | putting the header back in front of an output the encoder stripped restores that output |
| FfabDecoder.FrameFileNameInjective | ffa-bundle/ffab_decoder.py:302 | distinct frames get distinct file names |
| FfabDecoder.FrameFileNameLength | ffa-bundle/ffab_decoder.py:302 | below 10000 every name is `frame_` + 4 digits + `.png` (14 characters) |
| FfabDecoder.DecodeFrames | ffa-bundle/ffab_decoder.py:293-305 | one decoded frame per entry, in index order; frame i is FrameOf(file, i): its name and the header plus the range entry i records |
| FfabDecoder.DecodeFfabFile | ffa-bundle/ffab_decoder.py:258-309 | header error, then ShortRead on the meta, then UnknownFormatCode, then ShortRead on the index, in that order; succeeds whenever the header is valid, the meta block is present, the code is known and the index table lies in the file; on success the meta as read, the format named by the code, and every frame as FrameOf |
| FfabDecoder.DecodeEncodedFile | ffa-bundle/ffab_decoder.py:271-295 | on a laid-out file the header and meta read back, entry i is the entry written, and reading it gives back payload i |
| FfabEncoder.FirstMismatch | ffa-bundle/ffab_encoder.py:194-197 | the first image after image 0 whose size differs from image 0's |
| FfabEncoder.CheckImagesDimensions | ffa-bundle/ffab_encoder.py:175-199 | NoImages on an empty list; the first image's (width, height) when all sizes agree; otherwise the first mismatching image |
| FfabEncoder.StripRestores | ffa-bundle/ffab_encoder.py:293-297 | an output that passes the header check is the header followed by what is stored |
| FfabEncoder.FirstFrameError | ffa-bundle/ffab_encoder.py:286-302 | no frame error from k on exactly when every image from k on passes the header check and packs its entry |
| FfabEncoder.FirstFrameErrorAt | ffa-bundle/ffab_encoder.py:286-302 | when every image before k passes and image k does not, k's error is the first |
| FfabEncoder.PackFrames | ffa-bundle/ffab_encoder.py:286-310 | the first failing image's error, or the packed entries of the layout over the stripped outputs and those outputs |
| FfabEncoder.CreateFfabFileV1 | ffa-bundle/ffab_encoder.py:241-330 | the written bytes or the raised error, as EncodeV1 states them without the loop |
| FfabToolsEncoder.FirstOverflow | ffa-bundle/tools/ffab_encoder.py:249 | the first entry that `>QI` cannot pack, or none exactly when all pack |
| FfabToolsEncoder.FirstOverflowAt | ffa-bundle/tools/ffab_encoder.py:243-255 | when every entry before k packs and entry k does not, k is the first overflow |
| FfabToolsEncoder.PackFrames | ffa-bundle/tools/ffab_encoder.py:243-257 | the first overflowing entry, or the packed entries of the layout over the whole outputs and those outputs |
| FfabToolsEncoder.CreateFfabFileV1 | ffa-bundle/tools/ffab_encoder.py:207-277 | the written bytes or the raised error, as EncodeV1 states them without the loop |
| FfabRoundTrip.RootEncodedFile | ffa-bundle/ffab_encoder.py:256-330 | a successful root encoding is the layout over the stripped outputs, the code maps back to the name given, and each output is the header followed by its payload |
| FfabRoundTrip.RootFrameRoundTrip | ffa-bundle/ffab_decoder.py:293-302 | decoding frame i of a root-encoded file hands the decompressor exactly image i's compressor output |
| FfabRoundTrip.RootEncodeThenDecode | ffa-bundle/ffab_decoder.py:271-290 | decoding a root-encoded file reads back version 1, the encoded meta block and the format name, and the file is as long as the layout says |
| FfabRoundTrip.ToolsEncodedFile | ffa-bundle/tools/ffab_encoder.py:216-277 | a successful tools encoding is the layout over the whole outputs, under the code of the lower-cased name |
| FfabRoundTrip.ToolsFrameRoundTrip | ffa-bundle/ffab_decoder.py:293-299 | entry i of a tools-encoded file reads back as image i's whole output, and the decompressor gets a header in front of it |
| FfabRoundTrip.ToolsEncodeThenDecode | ffa-bundle/ffab_decoder.py:271-290 | decoding a tools-encoded file reads back version 1, the encoded meta block and the lower-cased name, and the file is as long as the layout says |
| FfabRoundTrip.RootEncodeDecode | ffa-bundle/ffab_decoder.py:258-309 | `decode_ffab_file` accepts every file the root encoder writes, with the encoded meta and format name, and frame i hands the decompressor exactly image i's compressor output as `frame_NNNN.png` |
| FfabRoundTrip.ToolsEncodeDecode | ffa-bundle/ffab_decoder.py:258-309 | `decode_ffab_file` accepts every file the tools encoder writes, under the lower-cased format name, and frame i hands the decompressor a regenerated header followed by image i's whole output |
| FfabRoundTrip.UpperCaseFormatName | ffa-bundle/ffab_encoder.py:263-283 | with "6X6" the root encoder fails with BadBlockSize, while the tools encoder can fail only on an index overflow |
| FfabInfo.HexField | ffa-bundle/ffab_info.py:70 | `0x{v:04X}` is 6 characters, starts "0x", and the rest reads back as v |
| FfabInfo.ReadHeaderInfo | ffa-bundle/ffab_info.py:41-71 | succeeds exactly when the file starts with the FFAB header, failing as the decoder's header check does; reports the magic, version 1 and its hex form `0x0001`, which reads back as the version |
| FfabInfo.UnknownFormatName | ffa-bundle/ffab_info.py:92 | the fallback name is "未知(0x" + 4 hex digits that read back as the code + ")" |
| FfabInfo.FormatNameMeaning | ffa-bundle/ffab_info.py:92 | a known code is shown as the name that maps back to it; an unknown one as a name no format has, from which the code reads back |
| FfabInfo.Resolution | ffa-bundle/ffab_info.py:98 | `f"{width}x{height}"` splits on 'x' into the two decimal forms |
| FfabInfo.ResolutionRoundTrip | ffa-bundle/ffab_info.py:98 | the resolution string reads back as the width and the height |
| FfabInfo.ReadMetaInfo | ffa-bundle/ffab_info.py:74-102 | succeeds exactly when the decoder's meta read does, never rejecting a code; reports the decoder's fields, the resolution, the code as `0x` + 4 hex digits, and the table name of a known code or `未知(0x%04X)` for an unknown one |
| FfabInfo.MinLength | ffa-bundle/ffab_info.py:118-142 | infinity exactly for no entries; otherwise a recorded length no larger than any other |
| FfabInfo.MaxLength | ffa-bundle/ffab_info.py:119-143 | a recorded length no smaller than any other, and 0 for no entries |
| FfabInfo.MaxAtMostSum | ffa-bundle/ffab_info.py:141-143 | the largest length is at most the total |
| FfabInfo.FrameEntries | ffa-bundle/ffab_info.py:134-138 | row i lists frame number i with entry i's offset and length |
| FfabInfo.FrameEntriesAppend | ffa-bundle/ffab_info.py:134-138 | reading one more entry appends one row, numbered by its position |
| FfabInfo.StatsAppend | ffa-bundle/ffab_info.py:141-143 | one more entry adds its length to the total and updates the minimum and maximum as `min`/`max` do |
| FfabInfo.IndexStatsOrdered | ffa-bundle/ffab_info.py:116-143 | for a non-empty index min ≤ max ≤ total; for an empty one infinity, 0 and 0 |
| FfabInfo.TableOfAppend | ffa-bundle/ffab_info.py:130-133 | reading entry i extends the first i entries by that entry |
| FfabInfo.ReadIndexInfo | ffa-bundle/ffab_info.py:105-155 | succeeds exactly when n = 0 or the file holds all n entries (otherwise ShortRead), with the rows and statistics of the entries the file holds |
| FfabInfo.GetFileInfo | ffa-bundle/ffab_info.py:158-200 | the report is FileInfoOf(file): header, meta and index checks in order, then the file-level figures |
| FfabInfo.FileInfoSucceeds | ffa-bundle/ffab_info.py:169-182 | the report succeeds exactly when the header is valid and the file holds the meta block and the whole index table |
| FfabInfo.FileInfoFields | ffa-bundle/ffab_info.py:173-188 | a report gives the file size, the meta fields as read, the statistics over the table read, data start 12 + 12·n and uncompressed size width·height·4·n |
| FfabInfo.SumEntryLengths | ffa-bundle/ffab_info.py:141 | the first k lengths of an encoded index add up to the first k payloads |
| FfabInfo.EncodedTable | ffa-bundle/ffab_info.py:130-133 | the index of a laid-out file reads back as the entries written |
| FfabInfo.EncodedTotal | ffa-bundle/ffab_info.py:141 | the lengths of an encoded index add up to the payloads' total |
| FfabInfo.EncodedFileInfo | ffa-bundle/ffab_info.py:173-185 | on a laid-out file the report succeeds with the encoded meta, lists the entries written, totals the payloads, and the file size is the data start plus that total |

## Left out

- The `astcenc` subprocesses (`compress_with_astc`, the decompression in `decode_astc_data`, `check_astc_encoder`, `check_astc_decoder`) are foreign processes. Each image's compressor output is an input. The decoder's result records the bytes it would hand to the decompressor and the file name of the image, not the decoded pixels.
- Image loading and saving through PIL and numpy (`load_images_from_folder`, `Image.fromarray(...).save`) is library I/O. An image is known only by its (height, width) and its compressor output.
- File-system calls become an in-memory byte sequence: `open`, `seek`, `read`, `mkdir`, temporary directories, `os.path.getsize`. That includes the file-exists check of `get_file_info`, so a missing file is not modelled.
- All `main()` functions (argparse, range check of the quality, `sys.exit`), the `print` calls and `print_file_info` are user-interface code.
- `avg_data_size` and `compression_ratio` in `ffab_info.py` are floating-point values; the integer figures they are derived from are modelled.
- FfabDecoder.ReadCompressedImageData: the limits of `seek` are not modelled. In Python an offset of 2^63 or more raises ValueError and an offset beyond the file system's largest file raises OSError; the model returns an empty payload for any offset past the end of the file, and `DecodeFfabFile` goes on decoding.
- Text.ParseDecimal: `int()` is modelled for ASCII digit strings only. Python also accepts surrounding whitespace, a sign, underscores and non-ASCII digits; none of these can occur in a name that passes the table lookup.
- Text.Lower: `str.lower()` is modelled for ASCII. Non-ASCII letters are kept unchanged, whereas Python lower-cases them. No table name contains one.
- The `for` loops of `create_ffab_file_v1` and `decode_ffab_file` are the methods `PackFrames` and `DecodeFrames`. The surrounding methods call them, so the loop bodies are not inlined.
- The tools encoder's format table, `check_astc_format`, `get_astc_format_code` and `check_images_dimensions` (`ffa-bundle/tools/ffab_encoder.py:31-83`, `:193-204`) are textually the same as the root encoder's. They are modelled once, in `AstcFormat` and `FfabEncoder`.
- `ffa-bundle/ffab_decoder.py` has its own copies of the format table (`:32-50`) and of `generate_astc_header` (`:56-92`); `ffa-bundle/ffab_info.py` has a copy of the table only (`:20-38`). Each copy is the same code as the root encoder's and is modelled once, in `AstcFormat`.
