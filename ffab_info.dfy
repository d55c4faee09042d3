/** The inspection tool (ffa-bundle/ffab_info.py). It checks the header as
    the decoder does, reads the meta block without checking the format code,
    reads the index table while keeping the total, the smallest and the
    largest payload length, and derives the file-level figures. As in
    FfabDecoder the file is a byte sequence and a short read fails. */
module FfabInfo {
  import opened Bytes
  import opened Text
  import opened AstcFormat
  import opened FfabFormat
  import opened FfabDecoder

  /** What `read_ffab_header` returns. */
  datatype HeaderInfo = HeaderInfo(magic: nat, version: nat, versionHex: string)

  /** What `read_ffab_meta` returns. */
  datatype MetaInfo = MetaInfo(
    imageCount: nat, width: nat, height: nat, resolution: string,
    astcFormatCode: nat, astcFormat: string, astcFormatHex: string)

  /** One row of the index as `read_ffab_index_table` lists it. */
  datatype FrameEntry = FrameEntry(frame: nat, offset: nat, dataLength: nat)

  /** Python's `min_data_size`: `float('inf')` until a length is seen. */
  datatype Bound = Infinity | Finite(value: nat)

  /** What `read_ffab_index_table` returns, apart from the floating-point average. */
  datatype IndexInfo = IndexInfo(
    indexStartOffset: nat, entries: seq<FrameEntry>,
    totalCompressedSize: nat, minDataSize: Bound, maxDataSize: nat)

  /** What `get_file_info` returns, apart from the path and the floating-point ratio. */
  datatype FileInfo = FileInfo(
    fileSize: nat, header: HeaderInfo, meta: MetaInfo, index: IndexInfo,
    dataStartOffset: nat, uncompressedSize: nat)

  /** `f"0x{v:04X}"`. */
  function HexField(v: nat): (s: string)
    requires v < U16_LIMIT
    ensures |s| == 6 && s[..2] == "0x" && ParseHex(s[2..]) == Some(v)
  {
    Hex4RoundTrip(v);
    var s := "0x" + Hex4(v);
    assert s[2..] == Hex4(v);
    s
  }

  /** `read_ffab_header` of the inspection tool: the same checks, in the same
      order, as the decoder's, with the version also given in hexadecimal. */
  function ReadHeaderInfo(file: seq<byte>): (r: Result<HeaderInfo, DecodeError>)
    ensures r.Success? <==> |file| >= HEADER_SIZE && file[..HEADER_SIZE] == HeaderBytes()
    ensures r.Failure? ==> r.error == ReadFfabHeader(file).error
    ensures r.Success? ==> r.value.magic == FFAB_MAGIC && r.value.version == FFAB_VERSION_1
    ensures r.Success? ==> |r.value.versionHex| == 6 && ParseHex(r.value.versionHex[2..]) == Some(r.value.version)
    ensures r.Success? ==> r.value.versionHex[..2] == "0x" && r.value.versionHex == HexField(r.value.version)
  {
    match ReadFfabHeader(file)
    case Failure(e) => Failure(e)
    case Success(version) =>
      Pow256Limits();
      Success(HeaderInfo(FFAB_MAGIC, version, HexField(version)))
  }

  /** The name shown for a code the table does not know: "未知(0xNNNN)". */
  function UnknownFormatName(code: nat): (s: string)
    requires code < U16_LIMIT
    ensures |s| == 10 && s[..5] == "未知(0x" && ParseHex(s[5..9]) == Some(code) && s[9] == ')'
  {
    Hex4RoundTrip(code);
    var s := "未知(0x" + Hex4(code) + ")";
    assert s[5..9] == Hex4(code);
    s
  }

  /** `ASTC_CODE_TO_FORMAT.get(code, f"未知(0x{code:04X})")`. */
  function FormatNameOrUnknown(code: nat): (name: string)
    requires code < U16_LIMIT
  {
    if code in CodeToFormat then CodeToFormat[code] else UnknownFormatName(code)
  }

  /** A known code is shown as its table name, which maps back to the code;
      an unknown one is shown as a name no format has, from which the code
      can be read back. */
  lemma FormatNameMeaning(code: nat)
    requires code < U16_LIMIT
    ensures code in CodeToFormat ==>
      FormatNameOrUnknown(code) in FormatCodes && FormatCodes[FormatNameOrUnknown(code)] == code
    ensures code !in CodeToFormat ==>
      FormatNameOrUnknown(code) !in FormatCodes && ParseHex(FormatNameOrUnknown(code)[5..9]) == Some(code)
  {
    if code in CodeToFormat {
      CodeNameCode(code);
    } else {
      var name := UnknownFormatName(code);
      assert forall n :: n in FormatCodes ==> |n| <= 5;
      assert |name| == 10;
    }
  }

  /** `f"{width}x{height}"`. */
  function Resolution(width: nat, height: nat): (s: string)
    ensures SplitOn(s, 'x') == [Decimal(width), Decimal(height)]
  {
    DecimalRoundTrip(width);
    DecimalRoundTrip(height);
    SplitOnTwo(Decimal(width), Decimal(height), 'x');
    Decimal(width) + ['x'] + Decimal(height)
  }

  /** The resolution string reads back as the width and the height. */
  lemma ResolutionRoundTrip(width: nat, height: nat)
    ensures var parts := SplitOn(Resolution(width, height), 'x');
      |parts| == 2 && ParseDecimal(parts[0]) == Some(width) && ParseDecimal(parts[1]) == Some(height)
  {
    DecimalRoundTrip(width);
    DecimalRoundTrip(height);
  }

  /** `read_ffab_meta` of the inspection tool: the meta block as the decoder
      reads it, with the format code looked up but never rejected. */
  function ReadMetaInfo(file: seq<byte>): (r: Result<MetaInfo, DecodeError>)
    ensures r.Success? <==> |file| >= INDEX_START_OFFSET
    ensures r.Failure? ==> r.error == ShortRead
    ensures r.Success? ==>
      var m := ReadFfabMeta(file).value;
      && r.value.imageCount == m.imageCount && r.value.width == m.width && r.value.height == m.height
      && r.value.astcFormatCode == m.formatCode
      && SplitOn(r.value.resolution, 'x') == [Decimal(m.width), Decimal(m.height)]
      && |r.value.astcFormatHex| == 6 && ParseHex(r.value.astcFormatHex[2..]) == Some(m.formatCode)
      && (m.formatCode in CodeToFormat ==> r.value.astcFormat == CodeToFormat[m.formatCode])
      && (m.formatCode !in CodeToFormat ==> r.value.astcFormat !in FormatCodes)
      && (m.formatCode !in CodeToFormat ==> r.value.astcFormat == UnknownFormatName(m.formatCode))
      && r.value.astcFormatHex[..2] == "0x" && r.value.astcFormatHex == HexField(m.formatCode)
  {
    match ReadFfabMeta(file)
    case Failure(e) => Failure(e)
    case Success(m) =>
      FormatNameMeaning(m.formatCode);
      Success(MetaInfo(m.imageCount, m.width, m.height, Resolution(m.width, m.height),
                       m.formatCode, FormatNameOrUnknown(m.formatCode), HexField(m.formatCode)))
  }

  /** The sum of the recorded lengths. */
  function SumLengths(es: seq<IndexEntry>): nat
  {
    if es == [] then 0 else SumLengths(es[..|es| - 1]) + es[|es| - 1].length
  }

  /** `min(a, n)` with `a` possibly infinite. */
  function MinBound(a: Bound, n: nat): Bound
  {
    match a
    case Infinity => Finite(n)
    case Finite(v) => Finite(if n < v then n else v)
  }

  /** The smallest recorded length, or infinity when there is none. */
  function MinLength(es: seq<IndexEntry>): (r: Bound)
    ensures r == Infinity <==> es == []
    ensures r.Finite? ==> forall k :: 0 <= k < |es| ==> r.value <= es[k].length
    ensures r.Finite? ==> exists k :: 0 <= k < |es| && es[k].length == r.value
  {
    if es == [] then Infinity
    else
      var init := es[..|es| - 1];
      var r := MinBound(MinLength(init), es[|es| - 1].length);
      assert forall k :: 0 <= k < |init| ==> init[k] == es[k];
      r
  }

  /** The largest recorded length, or 0 when there is none. */
  function MaxLength(es: seq<IndexEntry>): (r: nat)
    ensures forall k :: 0 <= k < |es| ==> es[k].length <= r
    ensures es != [] ==> exists k :: 0 <= k < |es| && es[k].length == r
    ensures es == [] ==> r == 0
  {
    if es == [] then 0
    else
      var init := es[..|es| - 1];
      var m := MaxLength(init);
      var last := es[|es| - 1].length;
      assert forall k :: 0 <= k < |init| ==> init[k] == es[k];
      if last > m then last else m
  }

  /** No payload is longer than all of them together. */
  lemma {:induction false} MaxAtMostSum(es: seq<IndexEntry>)
    ensures MaxLength(es) <= SumLengths(es)
  {
    if es != [] {
      MaxAtMostSum(es[..|es| - 1]);
    }
  }

  /** The index as the tool lists it: each entry with its position. */
  function FrameEntries(es: seq<IndexEntry>): (rows: seq<FrameEntry>)
    ensures |rows| == |es|
    ensures forall i :: 0 <= i < |rows| ==>
      rows[i].frame == i && IndexEntry(rows[i].offset, rows[i].dataLength) == es[i]
  {
    seq(|es|, i requires 0 <= i < |es| => FrameEntry(i, es[i].offset, es[i].length))
  }

  /** Listing one more entry appends one row, numbered by its position. */
  lemma FrameEntriesAppend(es: seq<IndexEntry>, e: IndexEntry)
    ensures FrameEntries(es + [e]) == FrameEntries(es) + [FrameEntry(|es|, e.offset, e.length)]
  {
    var a, b := FrameEntries(es + [e]), FrameEntries(es) + [FrameEntry(|es|, e.offset, e.length)];
    forall i | 0 <= i < |a|
      ensures a[i] == b[i]
    {
      if i < |es| { assert (es + [e])[i] == es[i]; }
    }
  }

  /** How the running figures change when one more entry is read. */
  lemma StatsAppend(es: seq<IndexEntry>, e: IndexEntry)
    ensures SumLengths(es + [e]) == SumLengths(es) + e.length
    ensures MinLength(es + [e]) == MinBound(MinLength(es), e.length)
    ensures MaxLength(es + [e]) == if e.length > MaxLength(es) then e.length else MaxLength(es)
  {
    assert (es + [e])[..|es|] == es;
  }

  /** The statistics `read_ffab_index_table` keeps over the entries it read. */
  function IndexInfoOf(es: seq<IndexEntry>): IndexInfo
  {
    IndexInfo(INDEX_START_OFFSET, FrameEntries(es), SumLengths(es), MinLength(es), MaxLength(es))
  }

  /** For a non-empty index the reported minimum, maximum and total are
      ordered; for an empty one they are infinity, 0 and 0. */
  lemma IndexStatsOrdered(es: seq<IndexEntry>)
    ensures var info := IndexInfoOf(es);
      es != [] ==>
        info.minDataSize.Finite? && info.minDataSize.value <= info.maxDataSize <= info.totalCompressedSize
    ensures var info := IndexInfoOf(es);
      es == [] ==> info.minDataSize == Infinity && info.maxDataSize == 0 && info.totalCompressedSize == 0
  {
    MaxAtMostSum(es);
    if es != [] {
      var k :| 0 <= k < |es| && es[k].length == MinLength(es).value;
    }
  }

  /** The first `n` index entries of a file long enough to hold them. */
  function TableOf(file: seq<byte>, n: nat): (es: seq<IndexEntry>)
    requires n == 0 || DataStartOffset(n) <= |file|
    ensures |es| == n
  {
    seq(n, i requires 0 <= i < n => IndexEntryAt(file, i))
  }

  /** Reading one more entry extends the table by that entry. */
  lemma TableOfAppend(file: seq<byte>, i: nat)
    requires DataStartOffset(i + 1) <= |file|
    ensures TableOf(file, i + 1) == TableOf(file, i) + [IndexEntryAt(file, i)]
  {
    var a, b := TableOf(file, i + 1), TableOf(file, i) + [IndexEntryAt(file, i)];
    forall j | 0 <= j < i + 1
      ensures a[j] == b[j]
    {
    }
  }

  /** `read_ffab_index_table` of the inspection tool: the entries read one
      after another from offset 12, with the running total, minimum and
      maximum of their lengths. */
  method ReadIndexInfo(file: seq<byte>, imageCount: nat) returns (r: Result<IndexInfo, DecodeError>)
    ensures r.Success? <==> imageCount == 0 || DataStartOffset(imageCount) <= |file|
    ensures r.Failure? ==> r.error == ShortRead
    ensures r.Success? ==> r.value == IndexInfoOf(TableOf(file, imageCount))
  {
    var indexEntries: seq<FrameEntry> := [];
    var totalCompressedSize := 0;
    var minDataSize := Infinity;
    var maxDataSize := 0;
    ghost var es: seq<IndexEntry> := [];
    var i := 0;
    while i < imageCount
      invariant 0 <= i <= imageCount
      invariant i == 0 || DataStartOffset(i) <= |file|
      invariant es == TableOf(file, i)
      invariant indexEntries == FrameEntries(es)
      invariant totalCompressedSize == SumLengths(es)
      invariant minDataSize == MinLength(es)
      invariant maxDataSize == MaxLength(es)
    {
      if |file| < INDEX_START_OFFSET + 12 * i + INDEX_ENTRY_SIZE {
        assert DataStartOffset(imageCount) > |file|;
        return Failure(ShortRead);
      }
      var e := IndexEntryAt(file, i);
      FrameEntriesAppend(es, e);
      StatsAppend(es, e);
      TableOfAppend(file, i);
      es := es + [e];
      indexEntries := indexEntries + [FrameEntry(i, e.offset, e.length)];
      totalCompressedSize := totalCompressedSize + e.length;
      minDataSize := MinBound(minDataSize, e.length);
      maxDataSize := if e.length > maxDataSize then e.length else maxDataSize;
      i := i + 1;
    }
    return Success(IndexInfo(INDEX_START_OFFSET, indexEntries, totalCompressedSize, minDataSize, maxDataSize));
  }

  /** `width * height * 4 * image_count`: the frames as 8-bit RGBA. */
  function RgbaSize(width: nat, height: nat, imageCount: nat): nat
  {
    var pixels: nat := width * height;
    var frame: nat := pixels * 4;
    frame * imageCount
  }

  /** `get_file_info`, stated without its calls: header, meta and index in
      that order, then the file-level figures. */
  function FileInfoOf(file: seq<byte>): Result<FileInfo, DecodeError>
  {
    match ReadHeaderInfo(file)
    case Failure(e) => Failure(e)
    case Success(header) =>
      match ReadMetaInfo(file)
      case Failure(e) => Failure(e)
      case Success(meta) =>
        if !(meta.imageCount == 0 || DataStartOffset(meta.imageCount) <= |file|) then Failure(ShortRead)
        else
          var index := IndexInfoOf(TableOf(file, meta.imageCount));
          Success(FileInfo(|file|, header, meta, index, DataStartOffset(meta.imageCount),
                           RgbaSize(meta.width, meta.height, meta.imageCount)))
  }

  /** `get_file_info`: the whole report, or the first check that fails. */
  method GetFileInfo(file: seq<byte>) returns (r: Result<FileInfo, DecodeError>)
    ensures r == FileInfoOf(file)
  {
    var fileSize := |file|;
    var headerInfo := ReadHeaderInfo(file);
    if headerInfo.Failure? {
      return Failure(headerInfo.error);
    }
    var metaInfo := ReadMetaInfo(file);
    if metaInfo.Failure? {
      return Failure(metaInfo.error);
    }
    var indexInfo := ReadIndexInfo(file, metaInfo.value.imageCount);
    if indexInfo.Failure? {
      return Failure(indexInfo.error);
    }
    var dataStartOffset := INDEX_START_OFFSET + metaInfo.value.imageCount * INDEX_ENTRY_SIZE;
    assert dataStartOffset == DataStartOffset(metaInfo.value.imageCount);
    var uncompressedSize := RgbaSize(metaInfo.value.width, metaInfo.value.height, metaInfo.value.imageCount);
    r := Success(FileInfo(fileSize, headerInfo.value, metaInfo.value, indexInfo.value, dataStartOffset, uncompressedSize));
    assert FileInfoOf(file) == r by {
      assert indexInfo.value == IndexInfoOf(TableOf(file, metaInfo.value.imageCount));
    }
  }

  /** The report succeeds exactly when the header is valid and the file holds
      the meta block and the whole index table. */
  lemma FileInfoSucceeds(file: seq<byte>)
    ensures FileInfoOf(file).Success? <==>
      && |file| >= HEADER_SIZE && file[..HEADER_SIZE] == HeaderBytes()
      && |file| >= INDEX_START_OFFSET
      && DataStartOffset(ReadFfabMeta(file).value.imageCount) <= |file|
  {
  }

  /** What a successful report says: the file's size, the meta fields as
      the decoder reads them, the statistics over the table the file holds,
      and where the data starts. */
  lemma FileInfoFields(file: seq<byte>)
    requires FileInfoOf(file).Success?
    ensures ReadFfabMeta(file).Success?
    ensures var info, m := FileInfoOf(file).value, ReadFfabMeta(file).value;
      && info.fileSize == |file|
      && info.meta.imageCount == m.imageCount && info.meta.width == m.width && info.meta.height == m.height
      && info.meta.astcFormatCode == m.formatCode
      && DataStartOffset(m.imageCount) <= |file|
      && info.index == IndexInfoOf(TableOf(file, m.imageCount))
      && info.dataStartOffset == DataStartOffset(m.imageCount)
      && info.uncompressedSize == m.width * m.height * 4 * m.imageCount
  {
  }

  /** The lengths recorded by the first k entries of an encoded index add up
      to the first k payloads. */
  lemma {:induction false} SumEntryLengths(payloads: seq<seq<byte>>, start: nat, k: nat)
    requires k <= |payloads|
    ensures SumLengths(Entries(payloads, start)[..k]) == TotalLength(payloads[..k])
  {
    if k > 0 {
      SumEntryLengths(payloads, start, k - 1);
      var es := Entries(payloads, start);
      assert es[..k][..k - 1] == es[..k - 1];
      assert payloads[..k][..k - 1] == payloads[..k - 1];
    }
  }

  /** The inspection tool's report on a file the encoders lay out: the
      index it lists is the one written, the total it adds up is the sum of
      the payload lengths, and the file is exactly the data start plus that
      total. */
  lemma EncodedFileInfo(m: Meta, payloads: seq<seq<byte>>)
    requires MetaFits(m) && m.imageCount == |payloads|
    requires AllEntriesFit(Entries(payloads, DataStartOffset(|payloads|)))
    ensures var file := FileBytes(m, payloads);
      && FileInfoOf(file).Success?
      && FileInfoOf(file).value.meta.imageCount == m.imageCount
      && FileInfoOf(file).value.meta.width == m.width
      && FileInfoOf(file).value.meta.height == m.height
      && FileInfoOf(file).value.meta.astcFormatCode == m.formatCode
      && FileInfoOf(file).value.index.entries == FrameEntries(Entries(payloads, DataStartOffset(|payloads|)))
      && FileInfoOf(file).value.index.totalCompressedSize == TotalLength(payloads)
      && FileInfoOf(file).value.fileSize
         == FileInfoOf(file).value.dataStartOffset + FileInfoOf(file).value.index.totalCompressedSize
  {
    var file := FileBytes(m, payloads);
    var es := Entries(payloads, DataStartOffset(|payloads|));
    assert ReadFfabHeader(file) == Success(FFAB_VERSION_1) && ReadFfabMeta(file) == Success(m) by {
      FileHead(m, payloads);
      MetaBytesInjective(m, ReadFfabMeta(file).value);
    }
    FileLength(m, payloads);
    FileInfoSucceeds(file);
    FileInfoFields(file);
    EncodedTable(m, payloads);
    EncodedTotal(payloads, DataStartOffset(|payloads|));
  }

  /** The index table of an encoded file reads back as the entries written. */
  lemma EncodedTable(m: Meta, payloads: seq<seq<byte>>)
    requires MetaFits(m)
    requires AllEntriesFit(Entries(payloads, DataStartOffset(|payloads|)))
    ensures DataStartOffset(|payloads|) <= |FileBytes(m, payloads)|
    ensures TableOf(FileBytes(m, payloads), |payloads|) == Entries(payloads, DataStartOffset(|payloads|))
  {
    var file := FileBytes(m, payloads);
    var es := Entries(payloads, DataStartOffset(|payloads|));
    FileLength(m, payloads);
    forall i | 0 <= i < |payloads|
      ensures TableOf(file, |payloads|)[i] == es[i]
    {
      FileIndexSlice(m, payloads, i);
      EntryBytesInjective(IndexEntryAt(file, i), es[i]);
    }
  }

  /** The lengths an encoded index records add up to the payloads' total. */
  lemma EncodedTotal(payloads: seq<seq<byte>>, start: nat)
    ensures SumLengths(Entries(payloads, start)) == TotalLength(payloads)
  {
    SumEntryLengths(payloads, start, |payloads|);
    assert Entries(payloads, start)[..|payloads|] == Entries(payloads, start);
    assert payloads[..|payloads|] == payloads;
  }
}
