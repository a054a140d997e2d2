/**
 * The numeric conversions of the assembler: `parseInt(s, 16)` and
 * `parseInt(s)` on digit strings, and `n.toString(16).toUpperCase()`.
 * JavaScript numbers are modelled as unbounded integers.
 */
module Numbers {
  import opened Text

  predicate IsHexDigit(c: char) {
    '0' <= c <= '9' || 'a' <= c <= 'f' || 'A' <= c <= 'F'
  }

  predicate IsDecDigit(c: char) {
    '0' <= c <= '9'
  }

  /** A non-empty string of hexadecimal digits (either case): `parseInt(s, 16)` reads all of it. */
  predicate IsHexNumeral(s: string) {
    s != [] && forall k :: 0 <= k < |s| ==> IsHexDigit(s[k])
  }

  /** A non-empty string of decimal digits: `parseInt(s)` reads all of it. */
  predicate IsDecNumeral(s: string) {
    s != [] && forall k :: 0 <= k < |s| ==> IsDecDigit(s[k])
  }

  /** No lower-case hexadecimal letter: what `toUpperCase()` guarantees of hexadecimal digits. */
  predicate NoLowerHex(s: string) {
    forall k :: 0 <= k < |s| ==> !('a' <= s[k] <= 'f')
  }

  function HexDigitValue(c: char): (v: nat)
    requires IsHexDigit(c)
    ensures v < 16
  {
    if '0' <= c <= '9' then c as int - '0' as int
    else if 'a' <= c <= 'f' then c as int - 'a' as int + 10
    else c as int - 'A' as int + 10
  }

  /** The upper-case digit that `toString(16).toUpperCase()` writes for `d`. */
  function HexChar(d: nat): (c: char)
    requires d < 16
    ensures IsHexDigit(c) && !('a' <= c <= 'f') && HexDigitValue(c) == d
  {
    if d < 10 then ('0' as int + d) as char else ('A' as int + d - 10) as char
  }

  function DecDigitValue(c: char): (v: nat)
    requires IsDecDigit(c)
    ensures v < 10
  {
    c as int - '0' as int
  }

  /** `parseInt(s, 16)` on hexadecimal digits; the empty string, reached only by the recursion, is 0 here, where `parseInt` would give `NaN`. */
  function ParseHex(s: string): nat
    requires forall k :: 0 <= k < |s| ==> IsHexDigit(s[k])
  {
    if s == [] then 0 else 16 * ParseHex(s[..|s| - 1]) + HexDigitValue(s[|s| - 1])
  }

  /** `parseInt(s)` on decimal digits; the empty string, reached only by the recursion, is 0 here, where `parseInt` would give `NaN`. */
  function ParseDec(s: string): nat
    requires forall k :: 0 <= k < |s| ==> IsDecDigit(s[k])
  {
    if s == [] then 0 else 10 * ParseDec(s[..|s| - 1]) + DecDigitValue(s[|s| - 1])
  }

  /** `n.toString(16).toUpperCase()` for a natural `n`: upper-case digits without leading zeros. */
  function HexDigits(n: nat): (s: string)
    ensures IsHexNumeral(s)
    ensures NoLowerHex(s)
    ensures s[0] == '0' ==> n == 0 && s == "0"
    decreases n
  {
    if n < 16 then [HexChar(n)] else HexDigits(n / 16) + [HexChar(n % 16)]
  }

  /** `n.toString(16).toUpperCase()` for any integer: a minus sign before the digits of a negative value. */
  function JsHex(n: int): (s: string)
    ensures s != [] && IsToken(s)
    ensures n >= 0 ==> IsHexNumeral(s)
    ensures n < 0 ==> s[0] == '-' && IsHexNumeral(s[1..])
  {
    if n < 0 then "-" + HexDigits(-n) else HexDigits(n)
  }

  /** `toString(16)` writes only digits and a minus sign. */
  lemma JsHexAvoids(n: int, c: char)
    requires c != '-' && !IsHexDigit(c)
    ensures c !in JsHex(n)
  {
    var s := JsHex(n);
    if n >= 0 {
      assert forall k :: 0 <= k < |s| ==> s[k] != c;
    } else {
      var d := s[1..];
      assert forall k :: 1 <= k < |s| ==> s[k] == d[k - 1];
    }
  }

  /** Reading back what `toString(16)` wrote gives the number. */
  lemma {:induction false} ParseHexDigits(n: nat)
    ensures ParseHex(HexDigits(n)) == n
    decreases n
  {
    if n >= 16 {
      var s := HexDigits(n);
      ParseHexDigits(n / 16);
      assert s[..|s| - 1] == HexDigits(n / 16);
    }
  }

  /** A leading `0` does not change what `parseInt(s, 16)` reads. */
  lemma {:induction false} ParseHexLeadingZero(s: string)
    requires forall k :: 0 <= k < |s| ==> IsHexDigit(s[k])
    ensures ParseHex("0" + s) == ParseHex(s)
    decreases |s|
  {
    var t := "0" + s;
    if s == [] {
      assert t[..0] == [];
    } else {
      assert t[..|t| - 1] == "0" + s[..|s| - 1];
      ParseHexLeadingZero(s[..|s| - 1]);
    }
  }

  lemma {:induction false} ParseHexLeadingZeros(z: nat, s: string)
    requires forall k :: 0 <= k < |s| ==> IsHexDigit(s[k])
    ensures ParseHex(Repeat('0', z) + s) == ParseHex(s)
    decreases z
  {
    if z > 0 {
      var t := Repeat('0', z - 1) + s;
      assert Repeat('0', z) == "0" + Repeat('0', z - 1);
      assert Repeat('0', z) + s == "0" + t;
      assert forall k :: 0 <= k < |t| ==> IsHexDigit(t[k]) by {
        forall k | 0 <= k < |t| ensures IsHexDigit(t[k]) {
          if k >= z - 1 { assert t[k] == s[k - (z - 1)]; }
        }
      }
      ParseHexLeadingZeros(z - 1, s);
      ParseHexLeadingZero(t);
      assert ParseHex(Repeat('0', z) + s) == ParseHex("0" + t);
    } else {
      assert Repeat('0', z) + s == s;
    }
  }

  /** Padding with zeros in front adds no lower-case letter. */
  lemma ZeroPaddedUpper(s: string, w: nat)
    requires NoLowerHex(s)
    ensures NoLowerHex(PadStart(s, w, '0'))
  {
    var p := PadStart(s, w, '0');
    PadStartParts(s, w, '0');
    forall k | 0 <= k < |p| ensures !('a' <= p[k] <= 'f') {
      if k >= |p| - |s| { assert p[k] == p[|p| - |s|..][k - (|p| - |s|)]; }
    }
  }

  /** Padding a hexadecimal numeral with zeros in front keeps its value, and adds no lower-case letter. */
  lemma ZeroPaddedReadsBack(s: string, w: nat)
    requires IsHexNumeral(s)
    ensures var p := PadStart(s, w, '0');
      && |p| >= w && IsHexNumeral(p) && ParseHex(p) == ParseHex(s)
      && (NoLowerHex(s) ==> NoLowerHex(p))
  {
    if |s| < w {
      ParseHexLeadingZeros(w - |s|, s);
    }
    if NoLowerHex(s) {
      ZeroPaddedUpper(s, w);
    }
  }

  /** A counter printed with `padStart(w, '0')` is at least `w` upper-case digits and reads back as the counter. */
  lemma PaddedHexReadsBack(n: nat, w: nat)
    ensures var s := PadStart(HexDigits(n), w, '0');
      |s| >= w && IsHexNumeral(s) && NoLowerHex(s) && ParseHex(s) == n
  {
    ParseHexDigits(n);
    ZeroPaddedReadsBack(HexDigits(n), w);
  }
}
