/** The encoder of ffa-bundle/tools/ffab_encoder.py. Its format table,
    format checks and `check_images_dimensions` are the same code as the
    root encoder's and are taken from FfabEncoder; its `create_ffab_file_v1`
    differs: it neither checks nor strips the 16-byte ASTC header, and
    stores each compressor output whole. */
module FfabToolsEncoder {
  import opened Bytes
  import opened AstcFormat
  import opened FfabFormat
  import FfabEncoder

  type Image = FfabEncoder.Image
  type EncodeError = FfabEncoder.EncodeError

  /** The payloads this encoder stores: the compressor outputs, untouched. */
  function Outputs(images: seq<Image>): (payloads: seq<seq<byte>>)
    ensures |payloads| == |images|
  {
    seq(|images|, i requires 0 <= i < |images| => images[i].astcOutput)
  }

  /** The first entry from `from` on that `>QI` cannot pack. */
  function FirstOverflow(es: seq<IndexEntry>, from: nat): (r: Option<nat>)
    requires from <= |es|
    ensures r.None? <==> forall k :: from <= k < |es| ==> EntryFits(es[k])
    ensures r.Some? ==> from <= r.value < |es| && !EntryFits(es[r.value])
    decreases |es| - from
  {
    if from == |es| then None
    else if !EntryFits(es[from]) then Some(from)
    else FirstOverflow(es, from + 1)
  }

  /** When every entry before k packs and entry k does not, k is the first. */
  lemma {:induction false} FirstOverflowAt(es: seq<IndexEntry>, from: nat, k: nat)
    requires from <= k < |es|
    requires forall j :: from <= j < k ==> EntryFits(es[j])
    requires !EntryFits(es[k])
    ensures FirstOverflow(es, from) == Some(k)
    decreases k - from
  {
    if from < k {
      FirstOverflowAt(es, from + 1, k);
    }
  }

  /** The file this `create_ffab_file_v1` writes, or the exception it raises,
      stated without its loop. */
  function EncodeV1(images: seq<Image>, astcFormat: string): (r: Result<seq<byte>, EncodeError>)
  {
    if images == [] then Failure(FfabEncoder.NoImages)
    else if !FfabEncoder.Uniform(images) then Failure(FfabEncoder.DimensionMismatch(FfabEncoder.FirstMismatch(images)))
    else match GetAstcFormatCode(astcFormat)
      case Failure(e) => Failure(FfabEncoder.UnknownAstcFormat(e.name))
      case Success(code) =>
        var m := Meta(|images|, images[0].width, images[0].height, code);
        if !MetaFits(m) then Failure(FfabEncoder.MetaOverflow)
        else
          var payloads := Outputs(images);
          var es := Entries(payloads, DataStartOffset(|images|));
          match FirstOverflow(es, 0)
          case Some(k) => Failure(FfabEncoder.IndexEntryOverflow(k))
          case None => Success(FileBytes(m, payloads))
  }

  /** The loop: image by image, append the packed index entry and the whole
      compressor output, and advance the offset. */
  method PackFrames(images: seq<Image>, dataStartOffset: nat)
    returns (r: Result<(seq<seq<byte>>, seq<seq<byte>>), EncodeError>)
    ensures var es := Entries(Outputs(images), dataStartOffset);
      match FirstOverflow(es, 0)
      case Some(k) => r == Failure(FfabEncoder.IndexEntryOverflow(k))
      case None => AllEntriesFit(es) && r == Success((EntryChunks(es), Outputs(images)))
  {
    ghost var payloads := Outputs(images);
    ghost var es := Entries(payloads, dataStartOffset);
    var indexEntries: seq<seq<byte>> := [];
    var imageDataBlocks: seq<seq<byte>> := [];
    var currentOffset := dataStartOffset;
    var i := 0;
    while i < |images|
      invariant 0 <= i <= |images|
      invariant imageDataBlocks == payloads[..i]
      invariant currentOffset == dataStartOffset + TotalLength(payloads[..i])
      invariant |indexEntries| == i
      invariant forall j :: 0 <= j < i ==> EntryFits(es[j]) && indexEntries[j] == EntryBytes(es[j])
    {
      var compressedData := images[i].astcOutput;
      var dataLength := |compressedData|;
      var entry := IndexEntry(currentOffset, dataLength);
      assert payloads[i] == compressedData && es[i] == entry;
      if !EntryFits(entry) {
        FirstOverflowAt(es, 0, i);
        return Failure(FfabEncoder.IndexEntryOverflow(i));
      }
      indexEntries := indexEntries + [EntryBytes(entry)];
      imageDataBlocks := imageDataBlocks + [compressedData];
      currentOffset := currentOffset + dataLength;
      assert payloads[..i + 1][..i] == payloads[..i];
      i := i + 1;
    }
    assert payloads[..i] == payloads;
    assert indexEntries == EntryChunks(es);
    return Success((indexEntries, imageDataBlocks));
  }

  /** `create_ffab_file_v1` of ffa-bundle/tools/ffab_encoder.py: the bytes it writes. */
  method CreateFfabFileV1(images: seq<Image>, astcFormat: string) returns (r: Result<seq<byte>, EncodeError>)
    ensures r == EncodeV1(images, astcFormat)
  {
    if images == [] {
      return Failure(FfabEncoder.NoImages);
    }
    var dims := FfabEncoder.CheckImagesDimensions(images);
    if dims.Failure? {
      return Failure(dims.error);
    }
    var (width, height) := dims.value;

    var code := GetAstcFormatCode(astcFormat);
    if code.Failure? {
      return Failure(FfabEncoder.UnknownAstcFormat(code.error.name));
    }

    var header := HeaderBytes();
    var imageCount := |images|;
    var m := Meta(imageCount, width, height, code.value);
    if !MetaFits(m) {
      return Failure(FfabEncoder.MetaOverflow);
    }
    var meta := MetaBytes(m);
    var dataStartOffset := DataStartOffset(imageCount);

    var packed := PackFrames(images, dataStartOffset);
    if packed.Failure? {
      return Failure(packed.error);
    }
    var (indexEntries, imageDataBlocks) := packed.value;
    var indexTable := Flatten(indexEntries);
    var imageData := Flatten(imageDataBlocks);
    return Success(header + meta + indexTable + imageData);
  }
}
