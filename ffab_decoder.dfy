/** The FFAB decoder (ffa-bundle/ffab_decoder.py): it checks the header,
    reads the meta block and the index table, slices every frame's payload
    out of the file, puts the regenerated 16-byte ASTC header in front of it
    for the external decompressor, and names the output image of frame i
    `frame_NNNN.png`. The file is a byte sequence; every `seek` + `read`
    is a slice, and a read that comes back short makes `struct.unpack` fail. */
module FfabDecoder {
  import opened Bytes
  import opened Text
  import opened AstcFormat
  import opened FfabFormat

  datatype DecodeError =
    | ShortRead                       // struct.unpack got fewer bytes than its format needs
    | BadMagic(magic: nat)
    | UnsupportedVersion(version: nat)
    | UnknownFormatCode(code: nat)

  /** The 4 header bytes are the packed magic and version exactly when their
      two big-endian halves read as 0xFFAB and 0x0001. */
  lemma HeaderBytesDecode(s: seq<byte>)
    requires |s| == HEADER_SIZE
    ensures s == HeaderBytes() <==> DecodeBE(s[..2]) == FFAB_MAGIC && DecodeBE(s[2..]) == FFAB_VERSION_1
  {
    Pow256Limits();
    assert s == s[..2] + s[2..];
    EncodeDecodeBE(s[..2]);
    EncodeDecodeBE(s[2..]);
    DecodeEncodeBE(FFAB_MAGIC, 2);
    DecodeEncodeBE(FFAB_VERSION_1, 2);
    var h := HeaderBytes();
    assert h[..2] == EncodeBE(FFAB_MAGIC, 2) && h[2..] == EncodeBE(FFAB_VERSION_1, 2);
  }

  /** `read_ffab_header`: the version, after checking the magic and then the version. */
  function ReadFfabHeader(file: seq<byte>): (r: Result<nat, DecodeError>)
    ensures r.Success? <==> |file| >= HEADER_SIZE && file[..HEADER_SIZE] == HeaderBytes()
    ensures r.Success? ==> r.value == FFAB_VERSION_1
    ensures |file| < HEADER_SIZE ==> r == Failure(ShortRead)
    ensures |file| >= HEADER_SIZE && DecodeBE(file[..2]) != FFAB_MAGIC ==> r == Failure(BadMagic(DecodeBE(file[..2])))
    ensures |file| >= HEADER_SIZE && DecodeBE(file[..2]) == FFAB_MAGIC && DecodeBE(file[2..4]) != FFAB_VERSION_1 ==>
      r == Failure(UnsupportedVersion(DecodeBE(file[2..4])))
  {
    if |file| < HEADER_SIZE then Failure(ShortRead)
    else
      var magic, version := DecodeBE(file[..2]), DecodeBE(file[2..4]);
      HeaderBytesDecode(file[..4]);
      assert file[..4][..2] == file[..2] && file[..4][2..] == file[2..4];
      if magic != FFAB_MAGIC then Failure(BadMagic(magic))
      else if version != FFAB_VERSION_1 then Failure(UnsupportedVersion(version))
      else Success(version)
  }

  /** The 8 meta bytes unpacked as four big-endian 16-bit fields. */
  function UnpackMeta(s: seq<byte>): (m: Meta)
    requires |s| == META_SIZE
    ensures MetaFits(m) && MetaBytes(m) == s
  {
    var a, b, c, d := s[..2], s[2..4], s[4..6], s[6..];
    Field16RoundTrip(a);
    Field16RoundTrip(b);
    Field16RoundTrip(c);
    Field16RoundTrip(d);
    SplitFour(s, 2, 4, 6);
    Meta(DecodeBE(a), DecodeBE(b), DecodeBE(c), DecodeBE(d))
  }

  /** One `>H` field read and packed again gives back its two bytes. */
  lemma Field16RoundTrip(f: seq<byte>)
    requires |f| == 2
    ensures DecodeBE(f) < U16_LIMIT && EncodeBE(DecodeBE(f), 2) == f
  {
    Pow256Limits();
    EncodeDecodeBE(f);
  }


  /** `read_ffab_meta`: bytes 4..12 as (count, width, height, format code);
      the result is the one meta block that packs to exactly those bytes. */
  function ReadFfabMeta(file: seq<byte>): (r: Result<Meta, DecodeError>)
    ensures r.Success? <==> |file| >= INDEX_START_OFFSET
    ensures r.Success? ==> MetaFits(r.value) && MetaBytes(r.value) == file[HEADER_SIZE..INDEX_START_OFFSET]
    ensures r.Failure? ==> r.error == ShortRead
  {
    if |file| < INDEX_START_OFFSET then Failure(ShortRead)
    else Success(UnpackMeta(file[HEADER_SIZE..INDEX_START_OFFSET]))
  }

  /** Index entry i unpacked from the 12 bytes at 12 + 12 i with `>QI`; the
      result is the one entry that packs to exactly those bytes. */
  function IndexEntryAt(file: seq<byte>, i: nat): (e: IndexEntry)
    requires INDEX_START_OFFSET + 12 * i + INDEX_ENTRY_SIZE <= |file|
    ensures EntryFits(e) && EntryBytes(e) == file[INDEX_START_OFFSET + 12 * i..INDEX_START_OFFSET + 12 * i + INDEX_ENTRY_SIZE]
  {
    Pow256Limits();
    var s := file[INDEX_START_OFFSET + 12 * i..INDEX_START_OFFSET + 12 * i + INDEX_ENTRY_SIZE];
    EncodeDecodeBE(s[..8]);
    EncodeDecodeBE(s[8..]);
    assert s == s[..8] + s[8..];
    IndexEntry(DecodeBE(s[..8]), DecodeBE(s[8..]))
  }

  /** Two entries that pack to the same bytes are the same entry. */
  lemma EntryBytesInjective(e1: IndexEntry, e2: IndexEntry)
    requires EntryFits(e1) && EntryFits(e2)
    requires EntryBytes(e1) == EntryBytes(e2)
    ensures e1 == e2
  {
    Pow256Limits();
    var b1, b2 := EntryBytes(e1), EntryBytes(e2);
    assert b1[..8] == EncodeBE(e1.offset, 8) && b2[..8] == EncodeBE(e2.offset, 8);
    assert b1[8..] == EncodeBE(e1.length, 4) && b2[8..] == EncodeBE(e2.length, 4);
    EncodeBEInjective(e1.offset, e2.offset, 8);
    EncodeBEInjective(e1.length, e2.length, 4);
  }

  /** `read_ffab_index_table`: `imageCount` entries read one after another
      from offset 12; a read past the end of the file fails (reading no
      entry at all never fails). */
  method ReadFfabIndexTable(file: seq<byte>, imageCount: nat) returns (r: Result<seq<IndexEntry>, DecodeError>)
    ensures r.Success? <==> imageCount == 0 || DataStartOffset(imageCount) <= |file|
    ensures r.Failure? ==> r.error == ShortRead
    ensures r.Success? ==> |r.value| == imageCount
    ensures r.Success? ==> forall i :: 0 <= i < imageCount ==>
      EntryFits(r.value[i]) &&
      EntryBytes(r.value[i]) == file[INDEX_START_OFFSET + 12 * i..INDEX_START_OFFSET + 12 * i + INDEX_ENTRY_SIZE]
  {
    var indexEntries: seq<IndexEntry> := [];
    var i := 0;
    while i < imageCount
      invariant 0 <= i <= imageCount
      invariant i == 0 || INDEX_START_OFFSET + 12 * i <= |file|
      invariant |indexEntries| == i
      invariant forall j :: 0 <= j < i ==>
        EntryFits(indexEntries[j]) &&
        EntryBytes(indexEntries[j]) == file[INDEX_START_OFFSET + 12 * j..INDEX_START_OFFSET + 12 * j + INDEX_ENTRY_SIZE]
    {
      if |file| < INDEX_START_OFFSET + 12 * i + INDEX_ENTRY_SIZE {
        assert DataStartOffset(imageCount) > |file|;
        return Failure(ShortRead);
      }
      indexEntries := indexEntries + [IndexEntryAt(file, i)];
      i := i + 1;
    }
    return Success(indexEntries);
  }

  /** `read_compressed_image_data`: seek to `offset` and read up to `length`
      bytes; past the end of the file the read comes back short or empty. */
  function ReadCompressedImageData(file: seq<byte>, offset: nat, length: nat): (r: seq<byte>)
    ensures |r| <= length
    ensures offset + length <= |file| ==> r == file[offset..offset + length]
    ensures offset < |file| < offset + length ==> r == file[offset..]
    ensures offset >= |file| ==> r == []
  {
    if offset >= |file| then []
    else if offset + length <= |file| then file[offset..offset + length]
    else file[offset..]
  }

  /** An entry that lies within the file reads back exactly the bytes it records. */
  lemma ReadLocated(file: seq<byte>, e: IndexEntry, data: seq<byte>)
    requires Locates(file, e, data)
    ensures ReadCompressedImageData(file, e.offset, e.length) == data
  {
  }

  /** What `decode_astc_data` writes to the temporary `.astc` file: the
      regenerated header followed by the payload. */
  function AstcInput(payload: seq<byte>, width: nat, height: nat, astcFormat: string): (r: Option<seq<byte>>)
    ensures r.Some? <==> GenerateAstcHeader(width, height, astcFormat).Some?
    ensures r.Some? ==> |r.value| == 16 + |payload| && r.value[16..] == payload
    ensures r.Some? ==> ParseAstcHeader(r.value) == ParseAstcHeader(GenerateAstcHeader(width, height, astcFormat).value)
  {
    match GenerateAstcHeader(width, height, astcFormat)
    case None => None
    case Some(header) =>
      assert (header + payload)[..4] == header[..4];
      assert (header + payload)[..16] == header;
      Some(header + payload)
  }

  /** Putting the header back in front of what remains after stripping it
      restores the compressor's output exactly. */
  lemma {:induction false} StripThenPrepend(out: seq<byte>, width: nat, height: nat, astcFormat: string)
    requires GenerateAstcHeader(width, height, astcFormat).Some?
    requires |out| >= 16 && out[..16] == GenerateAstcHeader(width, height, astcFormat).value
    ensures AstcInput(out[16..], width, height, astcFormat) == Some(out)
  {
    assert out == out[..16] + out[16..];
  }

  /** `f"frame_{i:04d}.png"`. */
  function FrameFileName(i: nat): string
  {
    "frame_" + ZeroPadded(i, 4) + ".png"
  }

  /** Distinct frames are written to distinct files. */
  lemma FrameFileNameInjective(i: nat, j: nat)
    requires FrameFileName(i) == FrameFileName(j)
    ensures i == j
  {
    var a, b := FrameFileName(i), FrameFileName(j);
    assert a[6..|a| - 4] == ZeroPadded(i, 4);
    assert b[6..|b| - 4] == ZeroPadded(j, 4);
    ZeroPaddedRoundTrip(i, 4);
    ZeroPaddedRoundTrip(j, 4);
  }

  /** Below 10000 the number is padded to exactly four digits. */
  lemma FrameFileNameLength(i: nat)
    requires i < 10000
    ensures |FrameFileName(i)| == 14
  {
    DecimalLength(i);
  }

  lemma {:induction false} DecimalLength(n: nat)
    requires n < 10000
    ensures |Decimal(n)| <= 4
  {
    if n >= 10 {
      DecimalLength(n / 10);
      if n >= 1000 {
        assert n / 10 >= 100;
        assert |Decimal(n / 10)| <= 3 by { DecimalLength3(n / 10); }
      }
    }
  }

  lemma {:induction false} DecimalLength3(n: nat)
    requires n < 1000
    ensures |Decimal(n)| <= 3
  {
    if n >= 10 {
      if n >= 100 {
        assert |Decimal(n / 10)| <= 2 by {
          assert Decimal(n / 10) == Decimal(n / 10 / 10) + [DigitChar(n / 10 % 10)];
        }
      }
    }
  }

  /** One decoded frame: the PNG file it is saved as and the bytes handed to the decompressor. */
  datatype DecodedFrame = DecodedFrame(fileName: string, astcInput: seq<byte>)

  datatype DecodedFile = DecodedFile(version: nat, meta: Meta, astcFormat: string, frames: seq<DecodedFrame>)

  /** What frame i of a well-formed file becomes. */
  function FrameOf(file: seq<byte>, meta: Meta, astcFormat: string, i: nat): DecodedFrame
    requires INDEX_START_OFFSET + 12 * i + INDEX_ENTRY_SIZE <= |file|
    requires GenerateAstcHeader(meta.width, meta.height, astcFormat).Some?
  {
    var e := IndexEntryAt(file, i);
    var data := ReadCompressedImageData(file, e.offset, e.length);
    DecodedFrame(FrameFileName(i), GenerateAstcHeader(meta.width, meta.height, astcFormat).value + data)
  }

  /** The per-frame loop of `decode_ffab_file`: for each index entry in
      order, read its payload, put the regenerated header in front, and name
      the output image after the frame's position. */
  method DecodeFrames(file: seq<byte>, m: Meta, astcFormat: string, indexEntries: seq<IndexEntry>)
    returns (frames: seq<DecodedFrame>)
    requires GenerateAstcHeader(m.width, m.height, astcFormat).Some?
    requires DataStartOffset(|indexEntries|) <= |file|
    requires forall i :: 0 <= i < |indexEntries| ==>
      EntryFits(indexEntries[i]) &&
      EntryBytes(indexEntries[i]) == file[INDEX_START_OFFSET + 12 * i..INDEX_START_OFFSET + 12 * i + INDEX_ENTRY_SIZE]
    ensures |frames| == |indexEntries|
    ensures forall j :: 0 <= j < |frames| ==> frames[j] == FrameOf(file, m, astcFormat, j)
  {
    frames := [];
    var i := 0;
    while i < |indexEntries|
      invariant 0 <= i <= |indexEntries|
      invariant |frames| == i
      invariant forall j :: 0 <= j < i ==> frames[j] == FrameOf(file, m, astcFormat, j)
    {
      var entry := indexEntries[i];
      var compressedData := ReadCompressedImageData(file, entry.offset, entry.length);
      var astcInput := AstcInput(compressedData, m.width, m.height, astcFormat);
      var frame := DecodedFrame(FrameFileName(i), astcInput.value);
      assert frame == FrameOf(file, m, astcFormat, i) by {
        EntryBytesInjective(entry, IndexEntryAt(file, i));
      }
      ghost var prev := frames;
      frames := frames + [frame];
      forall j | 0 <= j < i + 1
        ensures frames[j] == FrameOf(file, m, astcFormat, j)
      {
        if j < i {
          assert frames[j] == prev[j];
        }
      }
      i := i + 1;
    }
  }

  /** `decode_ffab_file`: header, meta block, format name, index table, then
      every frame in index order. Decompressing and saving each image is
      outside the model; the result records what would be decompressed and
      the file name it would be saved under. */
  method DecodeFfabFile(file: seq<byte>) returns (r: Result<DecodedFile, DecodeError>)
    ensures ReadFfabHeader(file).Failure? ==> r == Failure(ReadFfabHeader(file).error)
    ensures ReadFfabHeader(file).Success? && ReadFfabMeta(file).Failure? ==> r == Failure(ShortRead)
    ensures ReadFfabHeader(file).Success? && ReadFfabMeta(file).Success? ==>
      var m := ReadFfabMeta(file).value;
      && (m.formatCode !in CodeToFormat ==> r == Failure(UnknownFormatCode(m.formatCode)))
      && (m.formatCode in CodeToFormat && |file| < DataStartOffset(m.imageCount) ==> r == Failure(ShortRead))
      && (m.formatCode in CodeToFormat && DataStartOffset(m.imageCount) <= |file| ==> r.Success?)
    ensures r.Success? ==>
      var m := ReadFfabMeta(file).value;
      && ReadFfabHeader(file).Success? && ReadFfabMeta(file).Success?
      && m.formatCode in CodeToFormat && DataStartOffset(m.imageCount) <= |file|
      && r.value.version == FFAB_VERSION_1 && r.value.meta == m
      && r.value.astcFormat == CodeToFormat[m.formatCode]
      && GenerateAstcHeader(m.width, m.height, r.value.astcFormat).Some?
      && |r.value.frames| == m.imageCount
      && forall i :: 0 <= i < m.imageCount ==> r.value.frames[i] == FrameOf(file, m, r.value.astcFormat, i)
  {
    var header := ReadFfabHeader(file);
    if header.Failure? {
      return Failure(header.error);
    }
    var version := header.value;
    assert version == FFAB_VERSION_1;

    var meta := ReadFfabMeta(file);
    if meta.Failure? {
      return Failure(meta.error);
    }
    var m := meta.value;

    if m.formatCode !in CodeToFormat {
      return Failure(UnknownFormatCode(m.formatCode));
    }
    var astcFormat := CodeToFormat[m.formatCode];
    CodeNameCode(m.formatCode);
    AstcHeaderForTableName(m.width, m.height, astcFormat);

    var table := ReadFfabIndexTable(file, m.imageCount);
    if table.Failure? {
      return Failure(table.error);
    }
    var indexEntries := table.value;

    var frames := DecodeFrames(file, m, astcFormat, indexEntries);
    return Success(DecodedFile(version, m, astcFormat, frames));
  }

  /** Decoding a file laid out by the encoder recovers what was encoded: the
      header checks pass, the meta block reads back unchanged, the index
      table is complete, and reading entry i gives back payload i exactly. */
  lemma DecodeEncodedFile(m: Meta, payloads: seq<seq<byte>>)
    requires MetaFits(m) && m.imageCount == |payloads|
    requires AllEntriesFit(Entries(payloads, DataStartOffset(|payloads|)))
    ensures ReadFfabHeader(FileBytes(m, payloads)) == Success(FFAB_VERSION_1)
    ensures ReadFfabMeta(FileBytes(m, payloads)) == Success(m)
    ensures DataStartOffset(|payloads|) <= |FileBytes(m, payloads)|
    ensures forall i :: 0 <= i < |payloads| ==>
      IndexEntryAt(FileBytes(m, payloads), i) == Entries(payloads, DataStartOffset(|payloads|))[i]
    ensures forall i :: 0 <= i < |payloads| ==>
      var e := IndexEntryAt(FileBytes(m, payloads), i);
      ReadCompressedImageData(FileBytes(m, payloads), e.offset, e.length) == payloads[i]
  {
    var f := FileBytes(m, payloads);
    var es := Entries(payloads, DataStartOffset(|payloads|));
    FileHead(m, payloads);
    MetaBytesInjective(m, ReadFfabMeta(f).value);
    forall i | 0 <= i < |payloads|
      ensures IndexEntryAt(f, i) == es[i]
      ensures ReadCompressedImageData(f, es[i].offset, es[i].length) == payloads[i]
    {
      FileIndexSlice(m, payloads, i);
      EntryBytesInjective(IndexEntryAt(f, i), es[i]);
      FilePayloadSlice(m, payloads, i);
    }
  }

  /** Two meta blocks that pack to the same bytes are the same. */
  lemma MetaBytesInjective(m1: Meta, m2: Meta)
    requires MetaFits(m1) && MetaFits(m2)
    requires MetaBytes(m1) == MetaBytes(m2)
    ensures m1 == m2
  {
    Pow256Limits();
    var b1, b2 := MetaBytes(m1), MetaBytes(m2);
    assert b1[0..2] == EncodeBE(m1.imageCount, 2) && b2[0..2] == EncodeBE(m2.imageCount, 2);
    assert b1[2..4] == EncodeBE(m1.width, 2) && b2[2..4] == EncodeBE(m2.width, 2);
    assert b1[4..6] == EncodeBE(m1.height, 2) && b2[4..6] == EncodeBE(m2.height, 2);
    assert b1[6..8] == EncodeBE(m1.formatCode, 2) && b2[6..8] == EncodeBE(m2.formatCode, 2);
    EncodeBEInjective(m1.imageCount, m2.imageCount, 2);
    EncodeBEInjective(m1.width, m2.width, 2);
    EncodeBEInjective(m1.height, m2.height, 2);
    EncodeBEInjective(m1.formatCode, m2.formatCode, 2);
  }
}
