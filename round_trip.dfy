/** What the decoder makes of the files the two encoders write. The decoder
    reads a file through ReadFfabHeader, ReadFfabMeta, IndexEntryAt and
    ReadCompressedImageData, and DecodeFfabFile's contract states its result
    in those terms; the lemmas here evaluate them on encoded files. */
module FfabRoundTrip {
  import opened Bytes
  import opened Text
  import opened AstcFormat
  import opened FfabFormat
  import opened FfabDecoder
  import FfabEncoder
  import FfabToolsEncoder

  /** The meta block both encoders write for a successful encoding. */
  function EncodedMeta(images: seq<FfabEncoder.Image>, astcFormat: string): Meta
    requires images != [] && GetAstcFormatCode(astcFormat).Success?
  {
    Meta(|images|, images[0].width, images[0].height, GetAstcFormatCode(astcFormat).value)
  }

  /** A successful root encoding is the FfabFormat layout over the stripped
      outputs, every output starts with the header the decoder will rebuild,
      and the format name was already lower-case. */
  lemma RootEncodedFile(images: seq<FfabEncoder.Image>, astcFormat: string)
    requires FfabEncoder.EncodeV1(images, astcFormat).Success?
    ensures images != [] && GetAstcFormatCode(astcFormat).Success?
    ensures var m := EncodedMeta(images, astcFormat);
      && MetaFits(m)
      && AllEntriesFit(Entries(FfabEncoder.Stripped(images), DataStartOffset(|images|)))
      && FfabEncoder.EncodeV1(images, astcFormat).value == FileBytes(m, FfabEncoder.Stripped(images))
      && m.formatCode in CodeToFormat && CodeToFormat[m.formatCode] == astcFormat
      && GenerateAstcHeader(m.width, m.height, astcFormat).Some?
      && forall i :: 0 <= i < |images| ==>
           GenerateAstcHeader(m.width, m.height, astcFormat).value + FfabEncoder.Stripped(images)[i] == images[i].astcOutput
  {
    var m := EncodedMeta(images, astcFormat);
    var astcHeader := GenerateAstcHeader(m.width, m.height, astcFormat).value;
    var payloads := FfabEncoder.Stripped(images);
    var es := Entries(payloads, DataStartOffset(|images|));
    assert FfabEncoder.EncodeV1(images, astcFormat) == FfabEncoder.EncodeFrames(m, images, astcHeader);
    assert FfabEncoder.FirstFrameError(images, astcHeader, es, 0).None?;
    FfabEncoder.NoFrameErrorFits(images, astcHeader, es);
    ParsableNameIsCanonical(astcFormat);
    forall i | 0 <= i < |images|
      ensures astcHeader + payloads[i] == images[i].astcOutput
    {
      assert FfabEncoder.FrameError(images, astcHeader, es, i).None?;
      FfabEncoder.StripRestores(images[i].astcOutput, astcHeader);
    }
  }

  /** Frame i of a file the root encoder wrote: the decompressor is handed
      exactly the compressor's output for image i. */
  lemma RootFrameRoundTrip(images: seq<FfabEncoder.Image>, astcFormat: string, i: nat)
    requires FfabEncoder.EncodeV1(images, astcFormat).Success?
    requires i < |images|
    ensures images != [] && GetAstcFormatCode(astcFormat).Success?
    ensures var file := FfabEncoder.EncodeV1(images, astcFormat).value;
      var m := EncodedMeta(images, astcFormat);
      && INDEX_START_OFFSET + 12 * i + INDEX_ENTRY_SIZE <= |file|
      && GenerateAstcHeader(m.width, m.height, astcFormat).Some?
      && FrameOf(file, m, astcFormat, i) == FfabDecoder.DecodedFrame(FrameFileName(i), images[i].astcOutput)
  {
    RootEncodedFile(images, astcFormat);
    var m := EncodedMeta(images, astcFormat);
    var payloads := FfabEncoder.Stripped(images);
    var es := Entries(payloads, DataStartOffset(|images|));
    var file := FileBytes(m, payloads);
    FileIndexSlice(m, payloads, i);
    EntryBytesInjective(IndexEntryAt(file, i), es[i]);
    FilePayloadSlice(m, payloads, i);
    var e := IndexEntryAt(file, i);
    assert e == es[i];
    ReadLocated(file, e, payloads[i]);
    var astcHeader := GenerateAstcHeader(m.width, m.height, astcFormat).value;
    assert astcHeader + payloads[i] == images[i].astcOutput;
  }

  /** Encoding with ffa-bundle/ffab_encoder.py and decoding again loses
      nothing: the header and meta checks pass with the encoded count, size
      and format code, the code maps back to the very name given, the file
      is as long as the layout says, and every frame decodes as
      RootFrameRoundTrip states. */
  lemma RootEncodeThenDecode(images: seq<FfabEncoder.Image>, astcFormat: string)
    requires FfabEncoder.EncodeV1(images, astcFormat).Success?
    ensures images != [] && GetAstcFormatCode(astcFormat).Success?
    ensures var file := FfabEncoder.EncodeV1(images, astcFormat).value;
      var m := EncodedMeta(images, astcFormat);
      && ReadFfabHeader(file) == Success(FFAB_VERSION_1)
      && ReadFfabMeta(file) == Success(m)
      && m.formatCode in CodeToFormat && CodeToFormat[m.formatCode] == astcFormat
      && DataStartOffset(m.imageCount) <= |file|
      && |file| == DataStartOffset(|images|) + TotalLength(FfabEncoder.Stripped(images))
  {
    RootEncodedFile(images, astcFormat);
    var m := EncodedMeta(images, astcFormat);
    var payloads := FfabEncoder.Stripped(images);
    FileHead(m, payloads);
    FileLength(m, payloads);
    MetaBytesInjective(m, ReadFfabMeta(FileBytes(m, payloads)).value);
  }

  /** A successful tools encoding is the FfabFormat layout over the whole
      compressor outputs, under the code of the lower-cased name. */
  lemma ToolsEncodedFile(images: seq<FfabEncoder.Image>, astcFormat: string)
    requires FfabToolsEncoder.EncodeV1(images, astcFormat).Success?
    ensures images != [] && GetAstcFormatCode(astcFormat).Success?
    ensures var m := EncodedMeta(images, astcFormat);
      && MetaFits(m)
      && AllEntriesFit(Entries(FfabToolsEncoder.Outputs(images), DataStartOffset(|images|)))
      && FfabToolsEncoder.EncodeV1(images, astcFormat).value == FileBytes(m, FfabToolsEncoder.Outputs(images))
      && m.formatCode in CodeToFormat && CodeToFormat[m.formatCode] == Lower(astcFormat)
      && GenerateAstcHeader(m.width, m.height, Lower(astcFormat)).Some?
  {
    var m := EncodedMeta(images, astcFormat);
    var es := Entries(FfabToolsEncoder.Outputs(images), DataStartOffset(|images|));
    assert FfabToolsEncoder.FirstOverflow(es, 0).None?;
    AstcHeaderForTableName(m.width, m.height, Lower(astcFormat));
  }

  /** Frame i of a file the tools encoder wrote: entry i reads back as the
      whole compressor output, and the decompressor is handed a regenerated
      header followed by that whole output. */
  lemma ToolsFrameRoundTrip(images: seq<FfabEncoder.Image>, astcFormat: string, i: nat)
    requires FfabToolsEncoder.EncodeV1(images, astcFormat).Success?
    requires i < |images|
    ensures images != [] && GetAstcFormatCode(astcFormat).Success?
    ensures var file := FfabToolsEncoder.EncodeV1(images, astcFormat).value;
      var m := EncodedMeta(images, astcFormat);
      && INDEX_START_OFFSET + 12 * i + INDEX_ENTRY_SIZE <= |file|
      && GenerateAstcHeader(m.width, m.height, Lower(astcFormat)).Some?
      && var e := IndexEntryAt(file, i);
      && ReadCompressedImageData(file, e.offset, e.length) == images[i].astcOutput
      && FrameOf(file, m, Lower(astcFormat), i).astcInput
         == GenerateAstcHeader(m.width, m.height, Lower(astcFormat)).value + images[i].astcOutput
  {
    ToolsEncodedFile(images, astcFormat);
    var m := EncodedMeta(images, astcFormat);
    var payloads := FfabToolsEncoder.Outputs(images);
    var es := Entries(payloads, DataStartOffset(|images|));
    var file := FileBytes(m, payloads);
    FileIndexSlice(m, payloads, i);
    EntryBytesInjective(IndexEntryAt(file, i), es[i]);
    FilePayloadSlice(m, payloads, i);
    var e := IndexEntryAt(file, i);
    assert e == es[i];
    ReadLocated(file, e, payloads[i]);
  }

  /** Encoding with ffa-bundle/tools/ffab_encoder.py and decoding again: the
      header and meta checks pass, the code maps back to the lower-cased
      name, and the file is as long as the layout says. Frame by frame,
      ToolsFrameRoundTrip states what the decompressor is handed: because
      the decoder still puts a header in front, that is 16 header bytes
      followed by the whole output, which itself begins with a header when
      the compressor writes one. */
  lemma ToolsEncodeThenDecode(images: seq<FfabEncoder.Image>, astcFormat: string)
    requires FfabToolsEncoder.EncodeV1(images, astcFormat).Success?
    ensures images != [] && GetAstcFormatCode(astcFormat).Success?
    ensures var file := FfabToolsEncoder.EncodeV1(images, astcFormat).value;
      var m := EncodedMeta(images, astcFormat);
      && ReadFfabHeader(file) == Success(FFAB_VERSION_1)
      && ReadFfabMeta(file) == Success(m)
      && m.formatCode in CodeToFormat && CodeToFormat[m.formatCode] == Lower(astcFormat)
      && DataStartOffset(m.imageCount) <= |file|
      && |file| == DataStartOffset(|images|) + TotalLength(FfabToolsEncoder.Outputs(images))
  {
    ToolsEncodedFile(images, astcFormat);
    var m := EncodedMeta(images, astcFormat);
    var payloads := FfabToolsEncoder.Outputs(images);
    FileHead(m, payloads);
    FileLength(m, payloads);
    MetaBytesInjective(m, ReadFfabMeta(FileBytes(m, payloads)).value);
  }

  /** The full pipeline through ffa-bundle/ffab_encoder.py: whatever it
      writes, `decode_ffab_file` accepts, with the encoded meta block and the
      very format name given, and frame i hands the decompressor exactly
      image i's compressor output under the name `frame_NNNN.png`. */
  method RootEncodeDecode(images: seq<FfabEncoder.Image>, astcFormat: string)
    returns (r: Result<DecodedFile, DecodeError>)
    requires FfabEncoder.EncodeV1(images, astcFormat).Success?
    ensures images != [] && GetAstcFormatCode(astcFormat).Success?
    ensures r.Success?
    ensures r.value.version == FFAB_VERSION_1 && r.value.meta == EncodedMeta(images, astcFormat)
    ensures r.value.astcFormat == astcFormat
    ensures |r.value.frames| == |images|
    ensures forall i :: 0 <= i < |images| ==>
      r.value.frames[i] == FfabDecoder.DecodedFrame(FrameFileName(i), images[i].astcOutput)
  {
    var file := FfabEncoder.CreateFfabFileV1(images, astcFormat);
    RootEncodeThenDecode(images, astcFormat);
    r := DecodeFfabFile(file.value);
    forall i | 0 <= i < |images|
      ensures r.value.frames[i] == FfabDecoder.DecodedFrame(FrameFileName(i), images[i].astcOutput)
    {
      RootFrameRoundTrip(images, astcFormat, i);
    }
  }

  /** The full pipeline through ffa-bundle/tools/ffab_encoder.py: the decoder
      accepts the file under the lower-cased format name, and frame i hands
      the decompressor a regenerated header followed by image i's whole
      compressor output. */
  method ToolsEncodeDecode(images: seq<FfabEncoder.Image>, astcFormat: string)
    returns (r: Result<DecodedFile, DecodeError>)
    requires FfabToolsEncoder.EncodeV1(images, astcFormat).Success?
    ensures images != [] && GetAstcFormatCode(astcFormat).Success?
    ensures var m := EncodedMeta(images, astcFormat);
      && GenerateAstcHeader(m.width, m.height, Lower(astcFormat)).Some?
      && r.Success?
      && r.value.version == FFAB_VERSION_1 && r.value.meta == m
      && r.value.astcFormat == Lower(astcFormat)
      && |r.value.frames| == |images|
      && forall i :: 0 <= i < |images| ==>
           r.value.frames[i].fileName == FrameFileName(i) &&
           r.value.frames[i].astcInput == GenerateAstcHeader(m.width, m.height, Lower(astcFormat)).value + images[i].astcOutput
  {
    var file := FfabToolsEncoder.CreateFfabFileV1(images, astcFormat);
    ToolsEncodeThenDecode(images, astcFormat);
    ToolsEncodedFile(images, astcFormat);
    r := DecodeFfabFile(file.value);
    var m := EncodedMeta(images, astcFormat);
    forall i | 0 <= i < |images|
      ensures r.value.frames[i].fileName == FrameFileName(i)
      ensures r.value.frames[i].astcInput == GenerateAstcHeader(m.width, m.height, Lower(astcFormat)).value + images[i].astcOutput
    {
      ToolsFrameRoundTrip(images, astcFormat, i);
    }
  }

  /** The header check makes the root encoder case-sensitive after all: a
      format name that passes the code lookup only after lower-casing
      ("6X6") is rejected when the ASTC header is generated, while the
      tools encoder, which generates no header, accepts it. */
  lemma UpperCaseFormatName(images: seq<FfabEncoder.Image>)
    requires images != [] && FfabEncoder.Uniform(images)
    requires |images| < U16_LIMIT && images[0].width < U16_LIMIT && images[0].height < U16_LIMIT
    ensures FfabEncoder.EncodeV1(images, "6X6") == Failure(FfabEncoder.BadBlockSize("6X6"))
    ensures FfabToolsEncoder.EncodeV1(images, "6X6").Failure? ==>
      FfabToolsEncoder.EncodeV1(images, "6X6").error.IndexEntryOverflow?
  {
    UpperCaseNameRejectedByHeader();
    var s := "6X6";
    assert forall i :: 0 <= i < |s| ==> s[i] != 'x';
    NoOccurrence(s, 'x');
    SplitOnCount(s, 'x');
  }
}
