/** The FFAB encoder (ffa-bundle/ffab_encoder.py). Each input image is
    known by its size and by the `.astc` file the external compressor wrote
    for it; the encoder checks that the first 16 bytes of that file are the
    ASTC header it expects, stores the rest as the frame's payload, and lays
    the container out as FfabFormat.FileBytes describes. */
module FfabEncoder {
  import opened Bytes
  import opened Text
  import opened AstcFormat
  import opened FfabFormat

  /** An input frame: `img_data.shape[:2]` and the compressor's output for it. */
  datatype Image = Image(height: nat, width: nat, astcOutput: seq<byte>)

  /** Every exception `create_ffab_file_v1` can raise before it writes the file. */
  datatype EncodeError =
    | NoImages                           // empty image list
    | DimensionMismatch(image: nat)      // first image whose size differs from image 0
    | UnknownAstcFormat(name: string)    // lower-cased name not in the format table
    | MetaOverflow                       // `>HHHH` rejects a count, width or height above 65535
    | BadBlockSize(name: string)         // the name does not split into two block sizes below 256
    | AstcHeaderMismatch(image: nat)     // the compressor output does not start with the expected header
    | IndexEntryOverflow(image: nat)     // `>QI` rejects the offset or the length

  predicate SameShape(a: Image, b: Image)
  {
    a.height == b.height && a.width == b.width
  }

  /** Every image has the size of the first. */
  predicate Uniform(images: seq<Image>)
  {
    forall i :: 0 < i < |images| ==> SameShape(images[i], images[0])
  }

  /** The first index from k on whose image differs in size from image 0, or |images|. */
  function FirstMismatchFrom(images: seq<Image>, k: nat): (r: nat)
    requires 0 < k <= |images|
    ensures k <= r <= |images|
    ensures forall j :: k <= j < r ==> SameShape(images[j], images[0])
    ensures r < |images| ==> !SameShape(images[r], images[0])
    decreases |images| - k
  {
    if k == |images| then k
    else if !SameShape(images[k], images[0]) then k
    else FirstMismatchFrom(images, k + 1)
  }

  /** The image `check_images_dimensions` complains about. */
  function FirstMismatch(images: seq<Image>): (r: nat)
    requires images != [] && !Uniform(images)
    ensures 0 < r < |images| && !SameShape(images[r], images[0])
    ensures forall j :: 0 < j < r ==> SameShape(images[j], images[0])
  {
    FirstMismatchFrom(images, 1)
  }

  /** `check_images_dimensions`: (width, height) of the first image when all
      images share it; otherwise the first image that differs. */
  method CheckImagesDimensions(images: seq<Image>) returns (r: Result<(nat, nat), EncodeError>)
    ensures images == [] ==> r == Failure(NoImages)
    ensures images != [] && Uniform(images) ==> r == Success((images[0].width, images[0].height))
    ensures images != [] && !Uniform(images) ==> r == Failure(DimensionMismatch(FirstMismatch(images)))
  {
    if images == [] {
      return Failure(NoImages);
    }
    var height, width := images[0].height, images[0].width;
    var i := 1;
    while i < |images|
      invariant 1 <= i <= |images|
      invariant forall j :: 0 < j < i ==> SameShape(images[j], images[0])
    {
      if images[i].height != height || images[i].width != width {
        assert FirstMismatch(images) == i;
        return Failure(DimensionMismatch(i));
      }
      i := i + 1;
    }
    return Success((width, height));
  }

  /** Python's `data[:16]`. */
  function Prefix16(data: seq<byte>): seq<byte>
  {
    if |data| < 16 then data else data[..16]
  }

  /** Python's `data[16:]`. */
  function Drop16(data: seq<byte>): seq<byte>
  {
    if |data| < 16 then [] else data[16..]
  }

  /** An output that passes the header check is its header followed by what
      the encoder stores for it. */
  lemma StripRestores(out: seq<byte>, astcHeader: seq<byte>)
    requires |astcHeader| == 16 && Prefix16(out) == astcHeader
    ensures astcHeader + Drop16(out) == out
  {
    assert out == out[..16] + out[16..];
  }

  /** The payloads the encoder stores: each compressor output without its header. */
  function Stripped(images: seq<Image>): (payloads: seq<seq<byte>>)
    ensures |payloads| == |images|
  {
    seq(|images|, i requires 0 <= i < |images| => Drop16(images[i].astcOutput))
  }

  /** What stops the loop at image k, if anything: the header check comes
      first, then packing the index entry. */
  function FrameError(images: seq<Image>, astcHeader: seq<byte>, es: seq<IndexEntry>, k: nat): Option<EncodeError>
    requires k < |images| == |es|
  {
    if Prefix16(images[k].astcOutput) != astcHeader then Some(AstcHeaderMismatch(k))
    else if !EntryFits(es[k]) then Some(IndexEntryOverflow(k))
    else None
  }

  /** The error of the first image from `from` on that stops the loop. */
  function FirstFrameError(images: seq<Image>, astcHeader: seq<byte>, es: seq<IndexEntry>, from: nat): (r: Option<EncodeError>)
    requires from <= |images| == |es|
    ensures r.None? <==> forall k :: from <= k < |images| ==> FrameError(images, astcHeader, es, k).None?
    decreases |images| - from
  {
    if from == |images| then None
    else if FrameError(images, astcHeader, es, from).Some? then FrameError(images, astcHeader, es, from)
    else FirstFrameError(images, astcHeader, es, from + 1)
  }

  /** When every image before k passes and image k does not, k's error is the first. */
  lemma {:induction false} FirstFrameErrorAt(images: seq<Image>, astcHeader: seq<byte>, es: seq<IndexEntry>, from: nat, k: nat)
    requires from <= k < |images| == |es|
    requires forall j :: from <= j < k ==> FrameError(images, astcHeader, es, j).None?
    requires FrameError(images, astcHeader, es, k).Some?
    ensures FirstFrameError(images, astcHeader, es, from) == FrameError(images, astcHeader, es, k)
    decreases k - from
  {
    if from < k {
      FirstFrameErrorAt(images, astcHeader, es, from + 1, k);
    }
  }

  lemma NoFrameErrorFits(images: seq<Image>, astcHeader: seq<byte>, es: seq<IndexEntry>)
    requires |images| == |es|
    requires FirstFrameError(images, astcHeader, es, 0).None?
    ensures AllEntriesFit(es)
  {
    forall k | 0 <= k < |es|
      ensures EntryFits(es[k])
    {
      assert FrameError(images, astcHeader, es, k).None?;
    }
  }

  /** The file `create_ffab_file_v1` writes, or the exception it raises,
      stated without its loop: the checks in source order, then the layout
      of FfabFormat over the stripped outputs. */
  function EncodeV1(images: seq<Image>, astcFormat: string): (r: Result<seq<byte>, EncodeError>)
  {
    if images == [] then Failure(NoImages)
    else if !Uniform(images) then Failure(DimensionMismatch(FirstMismatch(images)))
    else match GetAstcFormatCode(astcFormat)
      case Failure(e) => Failure(UnknownAstcFormat(e.name))
      case Success(code) =>
        var m := Meta(|images|, images[0].width, images[0].height, code);
        if !MetaFits(m) then Failure(MetaOverflow)
        else match GenerateAstcHeader(m.width, m.height, astcFormat)
          case None => Failure(BadBlockSize(astcFormat))
          case Some(astcHeader) => EncodeFrames(m, images, astcHeader)
  }

  /** The loop of `create_ffab_file_v1` without the loop: the first image
      that stops it, or the file over the stripped outputs. */
  function EncodeFrames(m: Meta, images: seq<Image>, astcHeader: seq<byte>): Result<seq<byte>, EncodeError>
    requires MetaFits(m)
  {
    var payloads := Stripped(images);
    var es := Entries(payloads, DataStartOffset(|images|));
    match FirstFrameError(images, astcHeader, es, 0)
    case Some(e) => Failure(e)
    case None =>
      NoFrameErrorFits(images, astcHeader, es);
      Success(FileBytes(m, payloads))
  }

  /** The loop of `create_ffab_file_v1`: image by image it checks the
      compressor output's header, strips it, appends the packed index entry
      and the payload, and advances the offset. The result is the two lists
      the file is joined from, or the first image that stops the loop. */
  method PackFrames(images: seq<Image>, astcHeader: seq<byte>, dataStartOffset: nat)
    returns (r: Result<(seq<seq<byte>>, seq<seq<byte>>), EncodeError>)
    ensures var es := Entries(Stripped(images), dataStartOffset);
      match FirstFrameError(images, astcHeader, es, 0)
      case Some(e) => r == Failure(e)
      case None => AllEntriesFit(es) && r == Success((EntryChunks(es), Stripped(images)))
  {
    ghost var payloads := Stripped(images);
    ghost var es := Entries(payloads, dataStartOffset);
    var indexEntries: seq<seq<byte>> := [];
    var imageDataBlocks: seq<seq<byte>> := [];
    var currentOffset := dataStartOffset;
    var i := 0;
    while i < |images|
      invariant 0 <= i <= |images|
      invariant forall j :: 0 <= j < i ==> FrameError(images, astcHeader, es, j).None?
      invariant imageDataBlocks == payloads[..i]
      invariant currentOffset == dataStartOffset + TotalLength(payloads[..i])
      invariant |indexEntries| == i
      invariant forall j :: 0 <= j < i ==> EntryFits(es[j]) && indexEntries[j] == EntryBytes(es[j])
    {
      var astcCompressedData := images[i].astcOutput;
      if Prefix16(astcCompressedData) != astcHeader {
        FirstFrameErrorAt(images, astcHeader, es, 0, i);
        return Failure(AstcHeaderMismatch(i));
      }
      var compressedData := Drop16(astcCompressedData);
      var dataLength := |compressedData|;
      var entry := IndexEntry(currentOffset, dataLength);
      assert payloads[i] == compressedData && es[i] == entry;
      if !EntryFits(entry) {
        FirstFrameErrorAt(images, astcHeader, es, 0, i);
        return Failure(IndexEntryOverflow(i));
      }
      assert FrameError(images, astcHeader, es, i).None?;
      ghost var prev := indexEntries;
      indexEntries := indexEntries + [EntryBytes(entry)];
      forall j | 0 <= j < i + 1
        ensures EntryFits(es[j]) && indexEntries[j] == EntryBytes(es[j])
      {
        if j < i { assert indexEntries[j] == prev[j]; }
      }
      imageDataBlocks := imageDataBlocks + [compressedData];
      currentOffset := currentOffset + dataLength;
      assert payloads[..i + 1][..i] == payloads[..i];
      i := i + 1;
    }
    assert payloads[..i] == payloads;
    NoFrameErrorFits(images, astcHeader, es);
    assert indexEntries == EntryChunks(es);
    return Success((indexEntries, imageDataBlocks));
  }

  /** `create_ffab_file_v1` of ffa-bundle/ffab_encoder.py: the bytes it writes. */
  method CreateFfabFileV1(images: seq<Image>, astcFormat: string) returns (r: Result<seq<byte>, EncodeError>)
    ensures r == EncodeV1(images, astcFormat)
  {
    if images == [] {
      return Failure(NoImages);
    }
    var dims := CheckImagesDimensions(images);
    if dims.Failure? {
      return Failure(dims.error);
    }
    var (width, height) := dims.value;

    var code := GetAstcFormatCode(astcFormat);
    if code.Failure? {
      return Failure(UnknownAstcFormat(code.error.name));
    }

    var header := HeaderBytes();
    var imageCount := |images|;
    var m := Meta(imageCount, width, height, code.value);
    if !MetaFits(m) {
      return Failure(MetaOverflow);
    }
    var meta := MetaBytes(m);
    var dataStartOffset := DataStartOffset(imageCount);

    var astcHeader := GenerateAstcHeader(width, height, astcFormat);
    if astcHeader.None? {
      return Failure(BadBlockSize(astcFormat));
    }
    assert EncodeV1(images, astcFormat) == EncodeFrames(m, images, astcHeader.value);

    var packed := PackFrames(images, astcHeader.value, dataStartOffset);
    if packed.Failure? {
      return Failure(packed.error);
    }
    var (indexEntries, imageDataBlocks) := packed.value;
    var indexTable := Flatten(indexEntries);
    var imageData := Flatten(imageDataBlocks);
    return Success(header + meta + indexTable + imageData);
  }
}
