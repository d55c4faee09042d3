/** The few string operations of Python the tools use: `str.lower`,
    `str.split(sep)`, `int(s)` on a decimal string, and the format
    specifiers `{n}`, `{n:04d}` and `{n:04X}`. Strings are sequences of
    characters; only ASCII letters, digits and separators occur in what the
    tools format or parse. */
module Text {
  import opened Bytes

  predicate IsDigit(c: char) { '0' <= c <= '9' }

  predicate IsDigits(s: string) { forall i :: 0 <= i < |s| ==> IsDigit(s[i]) }

  /** `c.lower()` for ASCII: upper-case A..Z map to a..z, everything else is kept. */
  function LowerChar(c: char): (d: char)
    ensures 'A' <= c <= 'Z' ==> 'a' <= d <= 'z'
    ensures !('A' <= c <= 'Z') ==> d == c
  {
    if 'A' <= c <= 'Z' then (c as int - 'A' as int + 'a' as int) as char else c
  }

  /** `s.lower()`, character by character. */
  function Lower(s: string): (r: string)
    ensures |r| == |s|
    ensures forall i :: 0 <= i < |s| ==> r[i] == LowerChar(s[i])
  {
    if s == [] then [] else [LowerChar(s[0])] + Lower(s[1..])
  }

  /** Lower-casing twice changes nothing more. */
  lemma LowerIdempotent(s: string)
    ensures Lower(Lower(s)) == Lower(s)
  {
  }

  /** Number of occurrences of c in s. */
  function Count(s: string, c: char): nat
  {
    if s == [] then 0 else (if s[0] == c then 1 else 0) + Count(s[1..], c)
  }

  /** `s.split(sep)`: the pieces between the separators, empty pieces included. */
  function SplitOn(s: string, sep: char): (parts: seq<string>)
    ensures |parts| >= 1
  {
    if s == [] then [[]]
    else
      var rest := SplitOn(s[1..], sep);
      if s[0] == sep then [[]] + rest else [[s[0]] + rest[0]] + rest[1..]
  }

  /** `sep.join(parts)`. */
  function Join(parts: seq<string>, sep: char): string
    requires |parts| >= 1
  {
    if |parts| == 1 then parts[0] else parts[0] + [sep] + Join(parts[1..], sep)
  }

  /** No piece produced by split contains the separator. */
  lemma {:induction false} SplitOnPiecesFree(s: string, sep: char)
    ensures forall k :: 0 <= k < |SplitOn(s, sep)| ==> Count(SplitOn(s, sep)[k], sep) == 0
  {
    if s != [] {
      SplitOnPiecesFree(s[1..], sep);
      var rest := SplitOn(s[1..], sep);
      if s[0] != sep {
        assert Count([s[0]] + rest[0], sep) == Count(rest[0], sep) by {
          assert ([s[0]] + rest[0])[1..] == rest[0];
        }
      }
    }
  }

  /** split yields one more piece than there are separators. */
  lemma {:induction false} SplitOnCount(s: string, sep: char)
    ensures |SplitOn(s, sep)| == Count(s, sep) + 1
  {
    if s != [] {
      SplitOnCount(s[1..], sep);
    }
  }

  /** Joining the pieces of a split with the same separator restores the string. */
  lemma {:induction false} JoinSplitOn(s: string, sep: char)
    ensures Join(SplitOn(s, sep), sep) == s
  {
    if s != [] {
      var rest := SplitOn(s[1..], sep);
      JoinSplitOn(s[1..], sep);
      if s[0] == sep {
        assert SplitOn(s, sep)[1..] == rest;
      } else {
        var parts := SplitOn(s, sep);
        if |rest| == 1 {
          assert parts == [[s[0]] + rest[0]];
        } else {
          assert parts[1..] == rest[1..];
          assert Join(rest, sep) == rest[0] + [sep] + Join(rest[1..], sep);
        }
      }
    }
  }

  /** Splitting a + [sep] + b where neither part holds sep gives exactly [a, b]. */
  lemma {:induction false} SplitOnTwo(a: string, b: string, sep: char)
    requires Count(a, sep) == 0 && Count(b, sep) == 0
    ensures SplitOn(a + [sep] + b, sep) == [a, b]
  {
    if a == [] {
      assert a + [sep] + b == [sep] + b;
      SplitOnNone(b, sep);
    } else {
      assert (a + [sep] + b)[1..] == a[1..] + [sep] + b;
      SplitOnTwo(a[1..], b, sep);
      assert [a[0]] + a[1..] == a;
    }
  }

  /** A string without the separator splits into itself. */
  lemma {:induction false} SplitOnNone(s: string, sep: char)
    requires Count(s, sep) == 0
    ensures SplitOn(s, sep) == [s]
  {
    if s != [] {
      SplitOnNone(s[1..], sep);
      assert [s[0]] + s[1..] == s;
    }
  }

  function DigitValue(c: char): nat
    requires IsDigit(c)
  {
    c as int - '0' as int
  }

  /** The value of a non-empty string of decimal digits, most significant first. */
  function DigitsValue(s: string): nat
    requires IsDigits(s)
  {
    if s == [] then 0 else 10 * DigitsValue(s[..|s| - 1]) + DigitValue(s[|s| - 1])
  }

  /** `int(s)` restricted to ASCII digit strings; None where Python raises. */
  function ParseDecimal(s: string): (r: Option<nat>)
  {
    if s != [] && IsDigits(s) then Some(DigitsValue(s)) else None
  }

  function DigitChar(d: nat): (c: char)
    requires d < 10
    ensures IsDigit(c) && DigitValue(c) == d
  {
    ('0' as int + d) as char
  }

  /** `f"{n}"` for a non-negative integer: shortest decimal form. */
  function Decimal(n: nat): (s: string)
    ensures |s| >= 1 && IsDigits(s)
    ensures n >= 10 ==> s[0] != '0'
  {
    if n < 10 then [DigitChar(n)] else Decimal(n / 10) + [DigitChar(n % 10)]
  }

  /** Reading back the decimal form gives the number. */
  lemma {:induction false} DecimalRoundTrip(n: nat)
    ensures ParseDecimal(Decimal(n)) == Some(n)
    ensures Count(Decimal(n), 'x') == 0
  {
    var s := Decimal(n);
    if n >= 10 {
      DecimalRoundTrip(n / 10);
      assert s[..|s| - 1] == Decimal(n / 10);
      assert DigitsValue(s) == 10 * (n / 10) + n % 10;
      CountAppend(Decimal(n / 10), [DigitChar(n % 10)], 'x');
    }
  }

  lemma {:induction false} CountAppend(a: string, b: string, c: char)
    ensures Count(a + b, c) == Count(a, c) + Count(b, c)
  {
    if a != [] {
      assert (a + b)[1..] == a[1..] + b;
      CountAppend(a[1..], b, c);
    } else {
      assert a + b == b;
    }
  }

  function Zeros(n: nat): (s: string)
    ensures |s| == n && IsDigits(s)
    ensures forall i :: 0 <= i < n ==> s[i] == '0'
  {
    if n == 0 then [] else Zeros(n - 1) + ['0']
  }

  /** `f"{n:0wd}"`: the decimal form, padded on the left with zeros to width w. */
  function ZeroPadded(n: nat, w: nat): (s: string)
    ensures IsDigits(s)
  {
    var d := Decimal(n);
    if |d| < w then Zeros(w - |d|) + d else d
  }

  /** Leading zeros do not change the value of a digit string. */
  lemma {:induction false} LeadingZerosValue(z: nat, s: string)
    requires IsDigits(s)
    ensures DigitsValue(Zeros(z) + s) == DigitsValue(s)
  {
    if s == [] {
      assert Zeros(z) + s == Zeros(z);
      ZerosValue(z);
    } else {
      var t := Zeros(z) + s;
      assert t[..|t| - 1] == Zeros(z) + s[..|s| - 1];
      LeadingZerosValue(z, s[..|s| - 1]);
    }
  }

  lemma {:induction false} ZerosValue(z: nat)
    ensures DigitsValue(Zeros(z)) == 0
  {
    if z > 0 {
      assert Zeros(z)[..z - 1] == Zeros(z - 1);
      ZerosValue(z - 1);
    }
  }

  /** Reading back a zero-padded number gives the number, whatever the width;
      the result is exactly w long unless the number needs more digits, and
      it is the decimal form with nothing but zeros in front. */
  lemma ZeroPaddedRoundTrip(n: nat, w: nat)
    ensures |ZeroPadded(n, w)| >= w
    ensures |ZeroPadded(n, w)| == if |Decimal(n)| < w then w else |Decimal(n)|
    ensures var p := ZeroPadded(n, w); var k := |p| - |Decimal(n)|;
      0 <= k && p[k..] == Decimal(n) && forall i :: 0 <= i < k ==> p[i] == '0'
    ensures ParseDecimal(ZeroPadded(n, w)) == Some(n)
  {
    DecimalRoundTrip(n);
    var d := Decimal(n);
    if |d| < w {
      LeadingZerosValue(w - |d|, d);
      assert ZeroPadded(n, w)[w - |d|..] == d;
    }
  }

  function HexDigit(d: nat): (c: char)
    requires d < 16
  {
    if d < 10 then ('0' as int + d) as char else ('A' as int + d - 10) as char
  }

  function HexDigitValue(c: char): Option<nat>
  {
    if '0' <= c <= '9' then Some(c as int - '0' as int)
    else if 'A' <= c <= 'F' then Some(c as int - 'A' as int + 10)
    else None
  }

  /** `f"{v:04X}"` for a 16-bit value: exactly four upper-case hex digits. */
  function Hex4(v: nat): (s: string)
    requires v < U16_LIMIT
    ensures |s| == 4
  {
    [HexDigit(v / 4096), HexDigit(v / 256 % 16), HexDigit(v / 16 % 16), HexDigit(v % 16)]
  }

  /** A string of hex digits read back, most significant first. */
  function ParseHex(s: string): Option<nat>
  {
    if s == [] then Some(0)
    else
      match (ParseHex(s[..|s| - 1]), HexDigitValue(s[|s| - 1]))
      case (Some(hi), Some(lo)) => Some(16 * hi + lo)
      case _ => None
  }

  /** Each hex digit reads back as its value. */
  lemma HexDigitRoundTrip(d: nat)
    requires d < 16
    ensures HexDigitValue(HexDigit(d)) == Some(d)
  {
  }

  /** Appending one digit shifts the value read so far by one hex place. */
  lemma ParseHexStep(s: string, hi: nat, d: nat)
    requires ParseHex(s) == Some(hi) && d < 16
    ensures ParseHex(s + [HexDigit(d)]) == Some(16 * hi + d)
  {
    var t := s + [HexDigit(d)];
    assert t[..|t| - 1] == s;
    HexDigitRoundTrip(d);
  }

  /** The four hex digits read back give the value. */
  lemma Hex4RoundTrip(v: nat)
    requires v < U16_LIMIT
    ensures ParseHex(Hex4(v)) == Some(v)
  {
    var v1, v2, v3 := v / 16, v / 256, v / 4096;
    assert v2 == v1 / 16 && v3 == v2 / 16;
    var s1 := [HexDigit(v3)];
    var s2 := s1 + [HexDigit(v2 % 16)];
    var s3 := s2 + [HexDigit(v1 % 16)];
    assert [] + s1 == s1;
    ParseHexStep([], 0, v3);
    ParseHexStep(s1, v3, v2 % 16);
    ParseHexStep(s2, v2, v1 % 16);
    ParseHexStep(s3, v1, v % 16);
    assert s3 + [HexDigit(v % 16)] == Hex4(v);
  }
}
