/**
 * The two string operations the converter applies to every input line:
 * `str.strip()` with no argument and `str.split(',')`.
 */
module Text {

  /** Characters `str.isspace()` accepts, hence the ones `str.strip()` removes. */
  predicate IsSpace(c: char) {
    if c <= ' ' then c == ' ' || ('\t' <= c <= '\r') || ('\U{1C}' <= c <= '\U{1F}')
    else if c < '\U{85}' then false
    else c == '\U{85}' || c == '\U{A0}' || c == '\U{1680}' ||
         ('\U{2000}' <= c <= '\U{200A}') || c == '\U{2028}' || c == '\U{2029}' ||
         c == '\U{202F}' || c == '\U{205F}' || c == '\U{3000}'
  }

  /** Every character of `s` is one that `sp` accepts. */
  predicate AllOf(s: string, sp: char -> bool) {
    forall i :: 0 <= i < |s| ==> sp(s[i])
  }

  predicate AllSpace(s: string) {
    AllOf(s, IsSpace)
  }

  /** Drops the leading characters of `s` that `sp` accepts. */
  function TrimStart(s: string, sp: char -> bool): string {
    if s != [] && sp(s[0]) then TrimStart(s[1..], sp) else s
  }

  /** Drops the trailing characters of `s` that `sp` accepts. */
  function TrimEnd(s: string, sp: char -> bool): string {
    if s != [] && sp(s[|s| - 1]) then TrimEnd(s[..|s| - 1], sp) else s
  }

  /** TrimStart removes a prefix of `sp` characters and leaves a text that does not start with one. */
  lemma {:induction false} TrimStartShape(s: string, sp: char -> bool)
    ensures var r := TrimStart(s, sp);
      |r| <= |s| && r == s[|s| - |r|..] && AllOf(s[..|s| - |r|], sp) && (r == [] || !sp(r[0]))
  {
    if s != [] && sp(s[0]) {
      TrimStartShape(s[1..], sp);
      var r := TrimStart(s, sp);
      assert s[..|s| - |r|] == [s[0]] + s[1..][..|s| - 1 - |r|];
    }
  }

  /** TrimEnd removes a suffix of `sp` characters and leaves a text that does not end with one. */
  lemma {:induction false} TrimEndShape(s: string, sp: char -> bool)
    ensures var r := TrimEnd(s, sp);
      |r| <= |s| && r == s[..|r|] && AllOf(s[|r|..], sp) && (r == [] || !sp(r[|r| - 1]))
  {
    if s != [] && sp(s[|s| - 1]) {
      TrimEndShape(s[..|s| - 1], sp);
      var r := TrimEnd(s, sp);
      assert s[|r|..] == s[..|s| - 1][|r|..] + [s[|s| - 1]];
    }
  }

  /** `s` without the characters `sp` accepts at either end. */
  function Trim(s: string, sp: char -> bool): string {
    TrimEnd(TrimStart(s, sp), sp)
  }

  /** `str.strip()`: `s` without its leading and trailing whitespace. */
  function Strip(s: string): string {
    Trim(s, IsSpace)
  }

  /**
   * What `str.strip()` returns: the infix of `s` that neither starts nor ends
   * with whitespace, everything cut off on either side being whitespace; it
   * is empty exactly when `s` is all whitespace.
   */
  lemma StripShape(s: string)
    ensures var r := Strip(s);
      exists lo :: 0 <= lo <= |s| - |r| && r == s[lo..lo + |r|] &&
                   AllSpace(s[..lo]) && AllSpace(s[lo + |r|..])
    ensures var r := Strip(s); r == [] || (!IsSpace(r[0]) && !IsSpace(r[|r| - 1]))
    ensures Strip(s) == [] <==> AllSpace(s)
  {
    var t := TrimStart(s, IsSpace);
    var r := TrimEnd(t, IsSpace);
    TrimStartShape(s, IsSpace);
    TrimEndShape(t, IsSpace);
    var lo := |s| - |t|;
    assert s[lo..lo + |r|] == r;
    assert s[lo + |r|..] == t[|r|..];
    assert r == [] ==> s == s[..lo] + t && AllSpace(t);
  }

  /** Where the trimmed text starts in `s`. */
  lemma TrimAt(s: string, sp: char -> bool) returns (lo: nat)
    ensures var r := Trim(s, sp);
      lo + |r| <= |s| && r == s[lo..lo + |r|] && AllOf(s[..lo], sp) && AllOf(s[lo + |r|..], sp)
  {
    var t := TrimStart(s, sp);
    TrimStartShape(s, sp);
    TrimEndShape(t, sp);
    lo := |s| - |t|;
    var r := TrimEnd(t, sp);
    assert s[lo..lo + |r|] == r;
    assert s[lo + |r|..] == t[|r|..];
  }

  /** Number of commas in `s`. */
  function Commas(s: string): nat {
    if s == [] then 0 else (if s[0] == ',' then 1 else 0) + Commas(s[1..])
  }

  /** The inverse of `Split`: the parts glued back together with commas. */
  function JoinCommas(parts: seq<string>): string
    requires parts != []
  {
    if |parts| == 1 then parts[0] else parts[0] + "," + JoinCommas(parts[1..])
  }

  /**
   * `str.split(',')`: the maximal comma-free runs of `s`, in order. There is
   * always one part more than there are commas, and an empty field is kept.
   */
  function Split(s: string): (parts: seq<string>)
    ensures |parts| == Commas(s) + 1
    ensures forall i :: 0 <= i < |parts| ==> ',' !in parts[i]
    ensures JoinCommas(parts) == s
  {
    if s == [] then [""]
    else
      var rest := Split(s[1..]);
      if s[0] == ',' then
        assert JoinCommas([""] + rest) == "" + "," + JoinCommas(rest);
        [""] + rest
      else
        var parts := [[s[0]] + rest[0]] + rest[1..];
        assert parts[1..] == rest[1..];
        parts
  }

  /** A line of a comma-free text around exactly one comma splits in two. */
  lemma {:induction false} SplitTwo(a: string, b: string)
    requires ',' !in a && ',' !in b
    ensures Split(a + "," + b) == [a, b]
  {
    if a == [] {
      assert (a + "," + b)[1..] == b;
      SplitNoComma(b);
    } else {
      assert (a + "," + b)[1..] == a[1..] + "," + b;
      SplitTwo(a[1..], b);
      assert [a[0]] + a[1..] == a;
    }
  }

  /** A comma-free text is a single part. */
  lemma {:induction false} SplitNoComma(s: string)
    requires ',' !in s
    ensures Split(s) == [s]
  {
    if s != [] {
      SplitNoComma(s[1..]);
    }
  }

  /** Exactly two parts means the text is the two parts around its one comma. */
  lemma SplitInTwo(s: string)
    requires |Split(s)| == 2
    ensures Commas(s) == 1
    ensures s == Split(s)[0] + "," + Split(s)[1]
    ensures ',' !in Split(s)[0] && ',' !in Split(s)[1]
  {
    var p := Split(s);
    assert JoinCommas(p[1..]) == p[1];
  }

  /** Leading `sp` characters in front of a text that does not start with one are exactly what TrimStart drops. */
  lemma {:induction false} TrimStartPadded(w: string, t: string, sp: char -> bool)
    requires AllOf(w, sp)
    requires t == [] || !sp(t[0])
    ensures TrimStart(w + t, sp) == t
  {
    if w != [] {
      assert (w + t)[1..] == w[1..] + t;
      TrimStartPadded(w[1..], t, sp);
    }
  }

  /** Trailing `sp` characters behind a text that does not end with one are exactly what TrimEnd drops. */
  lemma {:induction false} TrimEndPadded(t: string, w: string, sp: char -> bool)
    requires AllOf(w, sp)
    requires t == [] || !sp(t[|t| - 1])
    ensures TrimEnd(t + w, sp) == t
  {
    if w != [] {
      var s := t + w;
      assert s[..|s| - 1] == t + w[..|w| - 1];
      TrimEndPadded(t, w[..|w| - 1], sp);
    }
  }

  /** Trimming a non-empty text padded with `sp` characters on both sides gives back the text. */
  lemma TrimPadded(lead: string, t: string, trail: string, sp: char -> bool)
    requires AllOf(lead, sp) && AllOf(trail, sp)
    requires t != [] && !sp(t[0]) && !sp(t[|t| - 1])
    ensures Trim(lead + t + trail, sp) == t
  {
    assert lead + t + trail == lead + (t + trail);
    TrimStartPadded(lead, t + trail, sp);
    TrimEndPadded(t, trail, sp);
  }
}
