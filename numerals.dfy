/**
 * The two numeric conversions the converter relies on: `int(text)` in base 10
 * and `hex(n)`, both on unbounded integers.
 */
module Numerals {
  import opened Wrappers
  import opened Text

  // ---------------------------------------------------------------- decimal

  predicate IsDigit(c: char) { '0' <= c <= '9' }

  function DigitValue(c: char): nat
    requires IsDigit(c)
  {
    c as int - '0' as int
  }

  function DigitChar(d: nat): (c: char)
    requires d < 10
    ensures IsDigit(c) && DigitValue(c) == d
  {
    ('0' as int + d) as char
  }

  /** One or more ASCII decimal digits. */
  predicate IsDecimal(s: string) {
    s != [] && forall i :: 0 <= i < |s| ==> IsDigit(s[i])
  }

  /** The value of a run of decimal digits, most significant first. */
  function DecimalValue(s: string): nat
    requires forall i :: 0 <= i < |s| ==> IsDigit(s[i])
  {
    if s == [] then 0 else DecimalValue(s[..|s| - 1]) * 10 + DigitValue(s[|s| - 1])
  }

  /** `str(n)` for a natural number: its shortest decimal spelling. */
  function DecimalDigits(n: nat): (s: string)
    ensures IsDecimal(s)
  {
    if n < 10 then [DigitChar(n)] else DecimalDigits(n / 10) + [DigitChar(n % 10)]
  }

  lemma {:induction false} DecimalRoundTrip(n: nat)
    ensures DecimalValue(DecimalDigits(n)) == n
  {
    if n >= 10 {
      var s := DecimalDigits(n);
      assert s[..|s| - 1] == DecimalDigits(n / 10);
      DecimalRoundTrip(n / 10);
    }
  }

  /**
   * The whitespace `int()` skips around its digits: the ASCII space, tab,
   * line feed, vertical tab, form feed and carriage return, and every
   * non-ASCII character `str.isspace()` accepts. Unlike `str.strip()`, it
   * does not skip the ASCII separators U+001C to U+001F.
   */
  predicate IsIntSpace(c: char) {
    IsSpace(c) && !('\U{1C}' <= c <= '\U{1F}')
  }

  predicate AllIntSpace(s: string) {
    AllOf(s, IsIntSpace)
  }

  /** `s` without the whitespace `int()` skips at either end. */
  function IntStrip(s: string): string {
    Trim(s, IsIntSpace)
  }

  /**
   * `int(s)` in base 10, restricted to ASCII digits: surrounding whitespace
   * (in the sense of IsIntSpace) is ignored, then an optional `+` or `-`, then one or more digits (leading
   * zeros allowed). Anything else is the ValueError case, None.
   */
  function ParseInt(s: string): Option<int> {
    ParseSigned(IntStrip(s))
  }

  /** The stripped text: an optional `+` or `-`, then one or more digits. */
  function ParseSigned(t: string): Option<int> {
    var signed := t != [] && (t[0] == '+' || t[0] == '-');
    var digits := if signed then t[1..] else t;
    if !IsDecimal(digits) then None
    else Some(if signed && t[0] == '-' then -(DecimalValue(digits) as int) else DecimalValue(digits))
  }

  /**
   * An accepted text, once stripped, is an optional sign followed by one or
   * more digits: only its first character may be a sign.
   */
  lemma {:induction false} ParsedText(s: string)
    requires ParseInt(s).Some?
    ensures var t := IntStrip(s);
      t != [] && (IsDigit(t[0]) || t[0] == '+' || t[0] == '-') &&
      (forall i :: 1 <= i < |t| ==> IsDigit(t[i])) && IsDigit(t[|t| - 1]) &&
      (ParseInt(s).value < 0 ==> t[0] == '-')
  {
    var t := IntStrip(s);
    if t != [] && (t[0] == '+' || t[0] == '-') {
      var d := t[1..];
      assert IsDecimal(d);
      assert t[|t| - 1] == d[|d| - 1];
      forall i | 1 <= i < |t| ensures IsDigit(t[i]) {
        assert t[i] == d[i - 1];
      }
    } else {
      assert IsDecimal(t);
    }
  }

  /**
   * What `int` accepts: only digits, signs and whitespace, at least one
   * digit, and a negative value only when there is a minus sign.
   */
  lemma ParseIntAccepts(s: string)
    requires ParseInt(s).Some?
    ensures forall i :: 0 <= i < |s| ==>
              IsDigit(s[i]) || IsIntSpace(s[i]) || s[i] == '+' || s[i] == '-'
    ensures exists i :: 0 <= i < |s| && IsDigit(s[i])
    ensures ParseInt(s).value < 0 ==> exists i :: 0 <= i < |s| && s[i] == '-'
  {
    var t := IntStrip(s);
    var lo := TrimAt(s, IsIntSpace);
    ParsedText(s);
    assert forall i :: 0 <= i < |t| ==> IsDigit(t[i]) || t[i] == '+' || t[i] == '-';
    PaddedChars(s, t, lo);
    assert IsDigit(s[lo + |t| - 1]);
  }

  lemma PaddedChars(s: string, t: string, lo: nat)
    requires lo + |t| <= |s| && t == s[lo..lo + |t|] && t != []
    requires AllIntSpace(s[..lo]) && AllIntSpace(s[lo + |t|..])
    requires forall i :: 0 <= i < |t| ==> IsDigit(t[i]) || t[i] == '+' || t[i] == '-'
    ensures forall i :: 0 <= i < |s| ==>
              IsDigit(s[i]) || IsIntSpace(s[i]) || s[i] == '+' || s[i] == '-'
    ensures s[lo] == t[0] && s[lo + |t| - 1] == t[|t| - 1]
  {
    forall i | 0 <= i < |s|
      ensures IsDigit(s[i]) || IsIntSpace(s[i]) || s[i] == '+' || s[i] == '-'
    {
      if i < lo {
        assert s[i] == s[..lo][i];
      } else if i < lo + |t| {
        assert s[i] == t[i - lo];
      } else {
        assert s[i] == s[lo + |t|..][i - lo - |t|];
      }
    }
  }

  /** `int(str(n)) == n`, with or without whitespace around the digits. */
  lemma ParseDecimal(lead: string, n: nat, trail: string)
    requires AllIntSpace(lead) && AllIntSpace(trail)
    ensures ParseInt(lead + DecimalDigits(n) + trail) == Some(n)
  {
    var d := DecimalDigits(n);
    TrimPadded(lead, d, trail, IsIntSpace);
    DecimalRoundTrip(n);
  }

  /** `int("-" + str(n)) == -n`: the parser accepts negative numbers. */
  lemma ParseNegative(n: nat)
    ensures ParseInt("-" + DecimalDigits(n)) == Some(-(n as int))
  {
    DecimalRoundTrip(n);
    ParseMinus("-" + DecimalDigits(n));
  }

  lemma ParseMinus(t: string)
    requires t != [] && t[0] == '-' && IsDecimal(t[1..])
    ensures ParseInt(t) == Some(-(DecimalValue(t[1..]) as int))
  {
    assert t[|t| - 1] == t[1..][|t| - 2];
    TrimPadded([], t, [], IsIntSpace);
    assert [] + t + [] == t;
    assert IntStrip(t) == t;
    assert ParseInt(t).Some?;
  }

  /** The sign in front of the digits: none, `+` or `-`. */
  predicate IsSign(sign: string) { sign == "" || sign == "+" || sign == "-" }

  /** The value of digits worth `m` behind `sign`. */
  function Signed(sign: string, m: nat): int {
    if sign == "-" then -(m as int) else m
  }

  /** `int` accepts whitespace, an optional sign, digits (leading zeros too) and whitespace. */
  lemma ParseIntOf(lead: string, sign: string, ds: string, trail: string)
    requires AllIntSpace(lead) && AllIntSpace(trail) && IsSign(sign) && IsDecimal(ds)
    ensures ParseInt(lead + sign + ds + trail) == Some(Signed(sign, DecimalValue(ds)))
  {
    var t := sign + ds;
    assert t[|t| - 1] == ds[|ds| - 1];
    assert IsDigit(ds[0]);
    assert lead + sign + ds + trail == lead + t + trail;
    TrimPadded(lead, t, trail, IsIntSpace);
    SignedOf(sign, ds);
  }

  lemma SignedOf(sign: string, ds: string)
    requires IsSign(sign) && IsDecimal(ds)
    ensures ParseSigned(sign + ds) == Some(Signed(sign, DecimalValue(ds)))
  {
    if sign == "" {
      assert sign + ds == ds;
      assert IsDigit(ds[0]);
    } else {
      var t := sign + ds;
      assert t[0] == sign[0] && t[1..] == ds;
    }
  }

  /** Conversely, every text `int` accepts has that shape and that value. */
  lemma ParseIntParts(s: string) returns (lead: string, sign: string, ds: string, trail: string)
    requires ParseInt(s).Some?
    ensures AllIntSpace(lead) && AllIntSpace(trail) && IsSign(sign) && IsDecimal(ds)
    ensures s == lead + sign + ds + trail
    ensures ParseInt(s).value == Signed(sign, DecimalValue(ds))
  {
    var t := IntStrip(s);
    var lo := TrimAt(s, IsIntSpace);
    lead := s[..lo];
    trail := s[lo + |t|..];
    sign, ds := SignedParts(t);
    Regroup(s, lo, sign, ds);
  }

  /** `s` is what comes before its infix `sign + ds`, that infix, and what comes after. */
  lemma Regroup(s: string, lo: nat, sign: string, ds: string)
    requires lo + |sign + ds| <= |s| && s[lo..lo + |sign + ds|] == sign + ds
    ensures s == s[..lo] + sign + ds + s[lo + |sign + ds|..]
  {
    var n := |sign + ds|;
    assert s == s[..lo] + s[lo..lo + n] + s[lo + n..];
  }

  lemma SignedParts(t: string) returns (sign: string, ds: string)
    requires ParseSigned(t).Some?
    ensures IsSign(sign) && IsDecimal(ds) && t == sign + ds
    ensures ParseSigned(t).value == Signed(sign, DecimalValue(ds))
  {
    if t != [] && t[0] == '+' {
      sign, ds := "+", t[1..];
      assert t == [t[0]] + t[1..];
    } else if t != [] && t[0] == '-' {
      sign, ds := "-", t[1..];
      assert t == [t[0]] + t[1..];
    } else {
      sign, ds := "", t;
      assert t == sign + ds;
    }
  }

  /**
   * Exactly what `int` accepts and what it yields: `int(s) == v` if and only
   * if `s` is whitespace, an optional sign, one or more digits and whitespace,
   * and `v` is the digits' value under that sign.
   */
  lemma ParseIntSpec(s: string, v: int)
    ensures ParseInt(s) == Some(v) <==>
      exists lead, sign, ds, trail :: AllIntSpace(lead) && AllIntSpace(trail) && IsSign(sign) &&
        IsDecimal(ds) && s == lead + sign + ds + trail && v == Signed(sign, DecimalValue(ds))
  {
    if ParseInt(s) == Some(v) {
      var lead, sign, ds, trail := ParseIntParts(s);
      assert v == Signed(sign, DecimalValue(ds));
    }
    if exists lead, sign, ds, trail :: AllIntSpace(lead) && AllIntSpace(trail) && IsSign(sign) &&
        IsDecimal(ds) && s == lead + sign + ds + trail && v == Signed(sign, DecimalValue(ds)) {
      var lead, sign, ds, trail :| AllIntSpace(lead) && AllIntSpace(trail) && IsSign(sign) &&
        IsDecimal(ds) && s == lead + sign + ds + trail && v == Signed(sign, DecimalValue(ds));
      ParseIntOf(lead, sign, ds, trail);
    }
  }

  /**
   * `int` does not skip the ASCII separator U+001C, although `str.strip()`
   * does: `5` followed by it is rejected.
   */
  lemma SeparatorNotSkipped()
    ensures Strip("5\U{1C}") == "5"
    ensures ParseInt("5\U{1C}") == None
  {
    var s := "5\U{1C}";
    assert IsSpace(s[1]) && !IsIntSpace(s[1]) && !IsSpace(s[0]);
    assert TrimStart(s, IsSpace) == s;
    assert s[..1] == "5";
    assert TrimEnd(s, IsSpace) == TrimEnd("5", IsSpace) == "5";
    assert TrimStart(s, IsIntSpace) == s;
    assert TrimEnd(s, IsIntSpace) == s;
    assert !IsDecimal(s) by { assert !IsDigit(s[1]); }
  }

  /** `int` reads a sign and leading zeros: `+007` and ` -007 ` are 7 and -7. */
  lemma SignedSpellings()
    ensures ParseInt("+007") == Some(7)
    ensures ParseInt(" -007 ") == Some(-7)
  {
    assert DecimalValue("007") == 7 by {
      assert "007"[..2] == "00" && "00"[..1] == "0" && "0"[..0] == "";
    }
    ParseIntOf("", "+", "007", "");
    assert "" + "+" + "007" + "" == "+007";
    ParseIntOf(" ", "-", "007", " ");
    assert " " + "-" + "007" + " " == " -007 ";
  }

  // ---------------------------------------------------------------- hexadecimal

  predicate IsHexDigit(c: char) { ('0' <= c <= '9') || ('a' <= c <= 'f') }

  function HexDigitValue(c: char): (d: nat)
    requires IsHexDigit(c)
    ensures d < 16
  {
    if c <= '9' then c as int - '0' as int else c as int - 'a' as int + 10
  }

  /** The lowercase hex digit for `d`. */
  function HexChar(d: nat): (c: char)
    requires d < 16
    ensures IsHexDigit(c) && HexDigitValue(c) == d
  {
    if d < 10 then ('0' as int + d) as char else ('a' as int + d - 10) as char
  }

  predicate IsHexString(s: string) {
    forall i :: 0 <= i < |s| ==> IsHexDigit(s[i])
  }

  /** A minimal hex spelling: non-empty, lowercase, no leading zero except for "0" itself. */
  predicate IsCanonicalHex(s: string) {
    s != [] && IsHexString(s) && (|s| > 1 ==> s[0] != '0')
  }

  /** The value of a hex string read in base 16, most significant digit first. */
  function HexValue(s: string): nat
    requires IsHexString(s)
  {
    if s == [] then 0 else HexValue(s[..|s| - 1]) * 16 + HexDigitValue(s[|s| - 1])
  }

  /**
   * The digits `hex(n)` prints after its `0x` prefix, for a natural number:
   * lowercase, minimal, "0" for zero, with no width bound.
   */
  function HexDigits(n: nat): (s: string)
    ensures IsCanonicalHex(s)
    ensures s[0] == '0' <==> n == 0
    ensures n == 0 ==> s == "0"
  {
    if n < 16 then [HexChar(n)] else HexDigits(n / 16) + [HexChar(n % 16)]
  }

  /** Reading the hex digits of `n` back in base 16 gives `n`. */
  lemma {:induction false} HexRoundTrip(n: nat)
    ensures HexValue(HexDigits(n)) == n
  {
    if n >= 16 {
      var s := HexDigits(n);
      assert s[..|s| - 1] == HexDigits(n / 16);
      HexRoundTrip(n / 16);
    }
  }

  /** A hex string without leading zeros is worth more than zero. */
  lemma {:induction false} HexValuePositive(s: string)
    requires s != [] && IsHexString(s) && s[0] != '0'
    ensures HexValue(s) > 0
  {
    if |s| > 1 {
      HexValuePositive(s[..|s| - 1]);
    }
  }

  /**
   * The other direction: every canonical hex string is the spelling of its
   * own value, so the spelling of a number is unique.
   */
  lemma {:induction false} HexCanonicalRoundTrip(s: string)
    requires IsCanonicalHex(s)
    ensures HexDigits(HexValue(s)) == s
  {
    var t, c := s[..|s| - 1], s[|s| - 1];
    var v := HexDigitValue(c);
    if t == [] {
      assert s == [c];
    } else {
      HexValuePositive(t);
      HexCanonicalRoundTrip(t);
      var n := HexValue(s);
      assert n / 16 == HexValue(t) && n % 16 == v;
      assert s == t + [c];
    }
  }

  /** `hex(n)` itself: a `0x` prefix, with a `-` before it when `n` is negative. */
  function Hex(n: int): (s: string)
    ensures |s| >= 3
    ensures n >= 0 ==> s[..2] == "0x"
    ensures n < 0 ==> s[..3] == "-0x"
  {
    if n < 0 then "-0x" + HexDigits(-n) else "0x" + HexDigits(n)
  }

  /** `hex(n)[2:]`, the identifier field the converter writes. */
  function HexField(n: int): string {
    Hex(n)[2..]
  }

  /**
   * For a natural number the field is the canonical hex spelling of it, and
   * reads back to it; for a negative one the slice leaves the `x` of the
   * prefix in front of the digits of `-n`, so the field is not a hex number.
   */
  lemma HexFieldSpec(n: int)
    ensures n >= 0 ==> HexField(n) == HexDigits(n)
    ensures n >= 0 ==> IsCanonicalHex(HexField(n)) && HexValue(HexField(n)) == n
    ensures n < 0 ==> |HexField(n)| > 1 && HexField(n)[0] == 'x' && !IsHexString(HexField(n)) &&
                      HexField(n)[1..] == HexDigits(-n)
  {
    if n >= 0 {
      HexRoundTrip(n);
      assert HexField(n) == HexDigits(n);
    } else {
      assert HexField(n) == "x" + HexDigits(-n);
    }
  }

  /** The field for `-n` is the field for `n` behind an `x`: the sign is not lost, but it is not hex. */
  lemma HexFieldNegative(n: nat)
    requires n > 0
    ensures HexField(-(n as int)) == "x" + HexField(n)
  {
    assert Hex(-(n as int))[2..] == "x" + HexDigits(n);
    assert Hex(n)[2..] == HexDigits(n);
  }

  /** `hex(100)[2:] == "64"`, `hex(200)[2:] == "c8"`, and `hex(-5)[2:] == "x5"`. */
  lemma HexFieldExamples()
    ensures HexField(100) == "64" && HexField(200) == "c8" && HexField(-5) == "x5"
  {
    assert HexDigits(6) == "6" && HexDigits(100) == "64";
    assert HexDigits(12) == "c" && HexDigits(200) == "c8";
    assert HexDigits(5) == "5";
  }
}
