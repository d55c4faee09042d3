/** The ASTC block-size table shared by the encoder, the decoder and the info
    tool (`ASTC_FORMAT_CODES` and its inverse `ASTC_CODE_TO_FORMAT`), the
    name lookups `check_astc_format` / `get_astc_format_code`, and
    `generate_astc_header`, which rebuilds the 16-byte header of an `.astc`
    file (ARM astc-encoder, Docs/FileFormat.md) from the image size and the
    block size named by the format string. */
module AstcFormat {
  import opened Bytes
  import opened Text

  /** Format name (the block size "AxB") to the 16-bit code stored in the container. */
  const FormatCodes: map<string, nat> := map[
    "4x4" := 0x0001,
    "5x4" := 0x0002,
    "5x5" := 0x0003,
    "6x5" := 0x0004,
    "6x6" := 0x0005,
    "8x5" := 0x0006,
    "8x6" := 0x0007,
    "8x8" := 0x0008,
    "10x5" := 0x0009,
    "10x6" := 0x000A,
    "10x8" := 0x000B,
    "10x10" := 0x000C,
    "12x10" := 0x000D,
    "12x12" := 0x000E
  ]

  /** The reverse mapping from code to name, which the tools build by swapping
      the keys and values of FormatCodes; NameCodeName and CodeNameCode show
      that this table is exactly that swap. */
  const CodeToFormat: map<nat, string> := map[
    0x0001 := "4x4",
    0x0002 := "5x4",
    0x0003 := "5x5",
    0x0004 := "6x5",
    0x0005 := "6x6",
    0x0006 := "8x5",
    0x0007 := "8x6",
    0x0008 := "8x8",
    0x0009 := "10x5",
    0x000A := "10x6",
    0x000B := "10x8",
    0x000C := "10x10",
    0x000D := "12x10",
    0x000E := "12x12"
  ]

  datatype FormatError = InvalidFormat(name: string)

  /** The format name as "AxB" with both block dimensions written in decimal. */
  predicate IsBlockSizeName(name: string, blockX: nat, blockY: nat)
  {
    name == Decimal(blockX) + ['x'] + Decimal(blockY)
  }

  /** Every table name is a block size between 4 and 12 written "AxB". */
  lemma TableNamesAreBlockSizes(name: string)
    requires name in FormatCodes
    ensures exists blockX: nat, blockY: nat :: 4 <= blockX <= 12 && 4 <= blockY <= 12 && IsBlockSizeName(name, blockX, blockY)
  {
    BlockSizeDecimals();
    if name == "4x4" { assert IsBlockSizeName(name, 4, 4); }
    else if name == "5x4" { assert IsBlockSizeName(name, 5, 4); }
    else if name == "5x5" { assert IsBlockSizeName(name, 5, 5); }
    else if name == "6x5" { assert IsBlockSizeName(name, 6, 5); }
    else if name == "6x6" { assert IsBlockSizeName(name, 6, 6); }
    else if name == "8x5" { assert IsBlockSizeName(name, 8, 5); }
    else if name == "8x6" { assert IsBlockSizeName(name, 8, 6); }
    else if name == "8x8" { assert IsBlockSizeName(name, 8, 8); }
    else if name == "10x5" { assert IsBlockSizeName(name, 10, 5); }
    else if name == "10x6" { assert IsBlockSizeName(name, 10, 6); }
    else if name == "10x8" { assert IsBlockSizeName(name, 10, 8); }
    else if name == "10x10" { assert IsBlockSizeName(name, 10, 10); }
    else if name == "12x10" { assert IsBlockSizeName(name, 12, 10); }
    else { assert IsBlockSizeName(name, 12, 12); }
  }

  /** The decimal forms of the block sizes the table uses. */
  lemma BlockSizeDecimals()
    ensures Decimal(4) == "4" && Decimal(5) == "5" && Decimal(6) == "6" && Decimal(8) == "8"
    ensures Decimal(10) == "10" && Decimal(12) == "12"
  {
    assert Decimal(1) == "1" && Decimal(0) == "0" && Decimal(10 / 10) == "1";
  }

  /** Looking a name's code up in the reverse table gives the name back. */
  lemma NameCodeName(name: string)
    requires name in FormatCodes
    ensures FormatCodes[name] in CodeToFormat && CodeToFormat[FormatCodes[name]] == name
  {
  }

  /** Looking a code's name up in the forward table gives the code back. */
  lemma CodeNameCode(code: nat)
    requires code in CodeToFormat
    ensures CodeToFormat[code] in FormatCodes && FormatCodes[CodeToFormat[code]] == code
  {
  }

  /** The known codes are exactly 1..14. */
  lemma KnownCodes(code: nat)
    ensures code in CodeToFormat <==> 1 <= code <= 14
  {
  }

  /** `check_astc_format`: the lower-cased name if it is in the table. */
  function CheckAstcFormat(name: string): (r: Result<string, FormatError>)
    ensures r.Success? <==> Lower(name) in FormatCodes
    ensures r.Success? ==> r.value in FormatCodes && Lower(r.value) == r.value && Lower(name) == r.value
    ensures r.Failure? ==> r.error == InvalidFormat(Lower(name))
  {
    var lowered := Lower(name);
    LowerIdempotent(name);
    if lowered in FormatCodes then Success(lowered) else Failure(InvalidFormat(lowered))
  }

  /** `get_astc_format_code`: the code of the lower-cased name, or an error. */
  function GetAstcFormatCode(name: string): (r: Result<nat, FormatError>)
    ensures r.Success? <==> Lower(name) in FormatCodes
    ensures r.Success? ==> 1 <= r.value <= 14 && r.value in CodeToFormat && CodeToFormat[r.value] == Lower(name)
    ensures r.Failure? ==> r.error == InvalidFormat(Lower(name))
  {
    var lowered := Lower(name);
    if lowered in FormatCodes then
      NameCodeName(lowered);
      KnownCodes(FormatCodes[lowered]);
      Success(FormatCodes[lowered])
    else Failure(InvalidFormat(lowered))
  }

  /** The lookup ignores case, and agrees with check_astc_format's normalised name. */
  lemma GetAstcFormatCodeCaseInsensitive(a: string, b: string)
    requires Lower(a) == Lower(b)
    ensures GetAstcFormatCode(a) == GetAstcFormatCode(b)
    ensures CheckAstcFormat(a).Success? ==> GetAstcFormatCode(CheckAstcFormat(a).value) == GetAstcFormatCode(a)
  {
    LowerIdempotent(a);
  }

  /** `map(int, name.split('x'))` unpacked into two values; None where Python raises. */
  function ParseBlockDims(name: string): Option<(nat, nat)>
  {
    var parts := SplitOn(name, 'x');
    if |parts| != 2 then None
    else
      match (ParseDecimal(parts[0]), ParseDecimal(parts[1]))
      case (Some(blockX), Some(blockY)) => Some((blockX, blockY))
      case _ => None
  }

  /** Parsing a name written "AxB" gives back (A, B). */
  lemma ParseBlockSizeName(blockX: nat, blockY: nat)
    ensures ParseBlockDims(Decimal(blockX) + ['x'] + Decimal(blockY)) == Some((blockX, blockY))
  {
    DecimalRoundTrip(blockX);
    DecimalRoundTrip(blockY);
    SplitOnTwo(Decimal(blockX), Decimal(blockY), 'x');
  }

  /** The ASTC file magic 0x5CA1AB13, stored little-endian. */
  const AstcMagic: seq<byte> := [0x13, 0xAB, 0xA1, 0x5C]

  /** `v & 0xFF, (v >> 8) & 0xFF, (v >> 16) & 0xFF`: the low 24 bits, little-endian. */
  function LE3(v: nat): (r: seq<byte>)
    ensures |r| == 3
  {
    [v % 256, v / 256 % 256, v / 0x1_0000 % 256]
  }

  /** `generate_astc_header`: None where the split, the int conversion or
      struct's one-byte `B` field would raise. */
  function GenerateAstcHeader(width: nat, height: nat, name: string): (r: Option<seq<byte>>)
    ensures r.Some? ==> |r.value| == 16
    ensures r.Some? <==> ParseBlockDims(name).Some? && ParseBlockDims(name).value.0 < 256 && ParseBlockDims(name).value.1 < 256
  {
    match ParseBlockDims(name)
    case None => None
    case Some((blockX, blockY)) =>
      if blockX < 256 && blockY < 256 then
        Some(AstcMagic + [blockX, blockY, 1] + LE3(width) + LE3(height) + [1, 0, 0])
      else None
  }

  /** The fields of an `.astc` header as an ASTC reader sees them. */
  datatype AstcHeaderFields = AstcHeaderFields(blockX: nat, blockY: nat, blockZ: nat, dimX: nat, dimY: nat, dimZ: nat)

  /** Reference reader of the 16-byte header laid out in Docs/FileFormat.md:
      magic, three block dimensions, three 24-bit little-endian image dimensions. */
  function ParseAstcHeader(b: seq<byte>): Option<AstcHeaderFields>
  {
    if |b| < 16 || b[..4] != AstcMagic then None
    else Some(AstcHeaderFields(b[4], b[5], b[6], LE3Value(b[7..10]), LE3Value(b[10..13]), LE3Value(b[13..16])))
  }

  /** A three-byte little-endian value. */
  function LE3Value(b: seq<byte>): nat
    requires |b| == 3
  {
    b[0] as int + 256 * (b[1] as int) + 0x1_0000 * (b[2] as int)
  }

  lemma LE3RoundTrip(v: nat)
    ensures LE3Value(LE3(v)) == v % 0x100_0000
  {
    var v1 := v / 256;
    var v2 := v1 / 256;
    assert v == v % 256 + 256 * v1;
    assert v1 == v1 % 256 + 256 * v2;
    assert v2 == v / 0x1_0000;
    assert v2 == v2 % 256 + 256 * (v2 / 256);
    assert v == LE3Value(LE3(v)) + 0x100_0000 * (v2 / 256);
  }

  /** An ASTC reader recovers from the generated header the block size named
      by the format, a depth of 1, and the image size modulo 2^24. */
  lemma AstcHeaderRoundTrip(width: nat, height: nat, name: string)
    requires GenerateAstcHeader(width, height, name).Some?
    ensures ParseAstcHeader(GenerateAstcHeader(width, height, name).value)
         == Some(AstcHeaderFields(ParseBlockDims(name).value.0, ParseBlockDims(name).value.1, 1,
                                  width % 0x100_0000, height % 0x100_0000, 1))
  {
    LE3RoundTrip(width);
    LE3RoundTrip(height);
  }

  /** Every table name yields a header whose block size is the one the name spells. */
  lemma AstcHeaderForTableName(width: nat, height: nat, name: string)
    requires name in FormatCodes
    ensures GenerateAstcHeader(width, height, name).Some?
    ensures exists blockX: nat, blockY: nat :: IsBlockSizeName(name, blockX, blockY) && ParseBlockDims(name) == Some((blockX, blockY))
  {
    TableNamesAreBlockSizes(name);
    var blockX: nat, blockY: nat :| 4 <= blockX <= 12 && 4 <= blockY <= 12 && IsBlockSizeName(name, blockX, blockY);
    ParseBlockSizeName(blockX, blockY);
  }

  lemma NoOccurrence(s: string, c: char)
    requires forall i :: 0 <= i < |s| ==> s[i] != c
    ensures Count(s, c) == 0
  {
  }

  /** In a name "AxB" every character but the one at |A| is a digit, and that one is 'x'. */
  lemma BlockSizeNameShape(t: string, blockX: nat, blockY: nat)
    requires IsBlockSizeName(t, blockX, blockY)
    ensures |Decimal(blockX)| < |t| && t[|Decimal(blockX)|] == 'x'
    ensures forall i :: 0 <= i < |t| && i != |Decimal(blockX)| ==> IsDigit(t[i])
  {
    var p := |Decimal(blockX)|;
    forall i | 0 <= i < |t| && i != p ensures IsDigit(t[i]) {
      if i < p { assert t[i] == Decimal(blockX)[i]; } else { assert t[i] == Decimal(blockY)[i - p - 1]; }
    }
  }

  /** A character that lower-cases to a digit was that digit already. */
  lemma LowerDigits(name: string, p: nat)
    requires forall i :: 0 <= i < |name| && i != p ==> IsDigit(Lower(name)[i])
    ensures forall i :: 0 <= i < |name| && i != p ==> name[i] == Lower(name)[i]
  {
    forall i | 0 <= i < |name| && i != p ensures name[i] == Lower(name)[i] {
      assert LowerChar(name[i]) == Lower(name)[i];
    }
  }

  /** A name whose lower-cased form is in the table parses as a block size only
      if it is already lower-case: an upper-case 'X' leaves split('x') one piece. */
  lemma ParsableNameIsCanonical(name: string)
    requires Lower(name) in FormatCodes
    requires ParseBlockDims(name).Some?
    ensures name == Lower(name)
  {
    var t := Lower(name);
    TableNamesAreBlockSizes(t);
    var blockX: nat, blockY: nat :| 4 <= blockX <= 12 && 4 <= blockY <= 12 && IsBlockSizeName(t, blockX, blockY);
    BlockSizeNameShape(t, blockX, blockY);
    var p := |Decimal(blockX)|;
    LowerDigits(name, p);
    if name[p] != 'x' {
      assert name[p] == 'X';
      NoOccurrence(name, 'x');
      SplitOnCount(name, 'x');
      assert false;
    }
  }

  /** The container stores a code only for the canonical name; a name that
      differs only in case ("6X6") passes the code lookup but not the header. */
  lemma UpperCaseNameRejectedByHeader()
    ensures GetAstcFormatCode("6X6") == Success(5)
    ensures GenerateAstcHeader(16, 16, "6X6") == None
  {
    assert Lower("6X6") == "6x6";
    var s := "6X6";
    assert forall i :: 0 <= i < |s| ==> s[i] != 'x';
    NoOccurrence(s, 'x');
    SplitOnCount(s, 'x');
  }
}
