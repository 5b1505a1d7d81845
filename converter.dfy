/**
 * The record converter: every input line is stripped, skipped when blank,
 * split on commas, rejected unless it has exactly two fields, its first
 * field parsed as a base-10 integer and re-written in hexadecimal. The data
 * lines follow a fixed header, and the number written is counted.
 */
module Converter {
  import opened Wrappers
  import opened Text
  import opened Numerals

  /** The first thing written to the output, whatever the input. */
  const Header: string := "h3code,density\n"

  /** A diagnostic for a skipped line; it carries the stripped line. */
  datatype Warning =
    | InvalidLine(line: string)   // not exactly two comma-separated fields
    | ParseFailure(line: string)  // the first field is not an integer

  /** What one input line turns into. */
  datatype LineOutcome =
    | Blank                               // nothing but whitespace: skipped silently
    | Malformed(line: string)             // not exactly two fields
    | BadId(line: string)                 // first field rejected by the integer parser
    | Converted(id: int, density: string) // a record to write

  /** The output line for a converted record: `<hex id>,<density>` and a newline. */
  function Record(id: int, density: string): string {
    HexField(id) + "," + density + "\n"
  }

  /** The fate of a single raw input line. */
  function ConvertLine(raw: string): LineOutcome {
    var line := Strip(raw);
    if line == [] then Blank
    else
      var parts := Split(line);
      if |parts| != 2 then Malformed(line)
      else
        match ParseInt(parts[0])
        case None => BadId(line)
        case Some(id) => Converted(id, parts[1])
  }

  /**
   * A line is skipped silently exactly when it is all whitespace, and
   * rejected as invalid exactly when its stripped text does not hold
   * exactly one comma (two or more commas included).
   */
  lemma ConvertLineSkips(raw: string)
    ensures ConvertLine(raw).Blank? <==> AllSpace(raw)
    ensures ConvertLine(raw).Malformed? <==> !AllSpace(raw) && Commas(Strip(raw)) != 1
    ensures ConvertLine(raw).Malformed? ==> ConvertLine(raw).line == Strip(raw)
  {
    StripShape(raw);
  }

  /**
   * A line whose stripped text is two comma-free fields around one comma is
   * rejected when the integer parser rejects the first field, and otherwise
   * becomes a record of the parsed id and the second field as it stands.
   */
  lemma ConvertLineFields(raw: string, idText: string, density: string)
    requires Strip(raw) == idText + "," + density
    requires ',' !in idText && ',' !in density
    ensures ConvertLine(raw) == match ParseInt(idText)
                                case None => BadId(Strip(raw))
                                case Some(id) => Converted(id, density)
  {
    SplitTwo(idText, density);
  }

  /**
   * Round trip: a line holding the decimal spelling of `n`, a comma and a
   * density (plus whatever line terminator or trailing whitespace) becomes a
   * conversion of `n` with that density unchanged.
   */
  lemma ConvertRoundTrip(n: nat, density: string, eol: string)
    requires ',' !in density && AllSpace(eol)
    requires density == [] || !IsSpace(density[|density| - 1])
    ensures ConvertLine(DecimalDigits(n) + "," + density + eol) == Converted(n, density)
  {
    var d := DecimalDigits(n);
    DigitsText(d);
    StripFields(d, density, eol);
    assert ParseInt(d) == Some(n) by {
      ParseDecimal([], n, []);
      assert [] + d + [] == d;
    }
    ConvertLineFields(d + "," + density + eol, d, density);
  }

  /**
   * The whole round trip in one statement: a line holding the decimal
   * spelling of `n` converts, and the id field written for it is canonical
   * lower-case hex that reads back to `n` in base 16.
   */
  lemma DecimalLineToHex(n: nat, density: string, eol: string)
    requires ',' !in density && AllSpace(eol)
    requires density == [] || !IsSpace(density[|density| - 1])
    ensures var o := ConvertLine(DecimalDigits(n) + "," + density + eol);
      o.Converted? && IsCanonicalHex(HexField(o.id)) && HexValue(HexField(o.id)) == n &&
      Record(o.id, density) == HexDigits(n) + "," + density + "\n"
  {
    ConvertRoundTrip(n, density, eol);
    HexFieldSpec(n);
  }

  /** A run of decimal digits holds no comma and does not start with whitespace. */
  lemma DigitsText(d: string)
    requires IsDecimal(d)
    ensures ',' !in d && !IsSpace(d[0])
  {
    forall i | 0 <= i < |d| ensures d[i] != ',' { assert IsDigit(d[i]); }
  }

  /**
   * The converse of ConvertLineFields: a converted line is two comma-free
   * fields around one comma, the first parsing to the identifier and the
   * second being the density.
   */
  lemma ConvertedFields(raw: string) returns (idText: string)
    requires ConvertLine(raw).Converted?
    ensures Strip(raw) == idText + "," + ConvertLine(raw).density
    ensures ',' !in idText && ',' !in ConvertLine(raw).density
    ensures ParseInt(idText) == Some(ConvertLine(raw).id)
  {
    SplitInTwo(Strip(raw));
    idText := Split(Strip(raw))[0];
  }

  /** Two fields, the first starting and the second ending with a non-space, survive the strip. */
  lemma StripFields(h: string, d: string, eol: string)
    requires h != [] && !IsSpace(h[0]) && AllSpace(eol)
    requires d == [] || !IsSpace(d[|d| - 1])
    ensures Strip(h + "," + d + eol) == h + "," + d
  {
    var text := h + "," + d;
    assert text[0] == h[0];
    assert !IsSpace(text[|text| - 1]) by {
      if d == [] { assert text[|text| - 1] == ','; }
      else { assert text[|text| - 1] == d[|d| - 1]; }
    }
    TrimPadded([], text, eol, IsSpace);
    assert [] + text + eol == h + "," + d + eol;
  }

  /**
   * An output data line, read again with the same rules, splits into
   * exactly the hex field and the density that were written.
   */
  lemma RecordReadsBack(raw: string)
    requires ConvertLine(raw).Converted?
    ensures var o := ConvertLine(raw);
      Split(Strip(Record(o.id, o.density))) == [HexField(o.id), o.density]
  {
    var o := ConvertLine(raw);
    var idText := ConvertedFields(raw);
    StripShape(raw);
    DensityEnd(Strip(raw), idText, o.density);
    HexFieldText(o.id);
    FieldsReadBack(HexField(o.id), o.density);
  }

  /** The density of a stripped line does not end with whitespace. */
  lemma DensityEnd(line: string, idText: string, density: string)
    requires line == idText + "," + density
    requires !IsSpace(line[|line| - 1])
    ensures density == [] || !IsSpace(density[|density| - 1])
  {
    if density != [] {
      assert density[|density| - 1] == line[|line| - 1];
    }
  }

  /** The hex field is not empty, holds no comma and does not start with whitespace. */
  lemma HexFieldText(n: int)
    ensures HexField(n) != [] && !IsSpace(HexField(n)[0]) && ',' !in HexField(n)
  {
    var h := HexField(n);
    HexFieldSpec(n);
    forall i | 0 <= i < |h| ensures h[i] != ',' && (i == 0 ==> !IsSpace(h[i])) {
      if n >= 0 {
        assert IsHexDigit(h[i]);
      } else if i > 0 {
        assert h[i] == h[1..][i - 1];
        assert IsHexDigit(h[1..][i - 1]);
      }
    }
  }

  lemma FieldsReadBack(h: string, d: string)
    requires h != [] && !IsSpace(h[0]) && ',' !in h && ',' !in d
    requires d == [] || !IsSpace(d[|d| - 1])
    ensures Split(Strip(h + "," + d + "\n")) == [h, d]
  {
    assert AllSpace("\n");
    StripFields(h, d, "\n");
    SplitTwo(h, d);
  }

  // ---------------------------------------------------------------- whole input

  /** The outcome of every input line, in input order. */
  function Outcomes(lines: seq<string>): seq<LineOutcome> {
    if lines == [] then [] else Outcomes(lines[..|lines| - 1]) + [ConvertLine(lines[|lines| - 1])]
  }

  /** Line `i` has outcome `i`. */
  lemma {:induction false} OutcomesAt(lines: seq<string>, i: nat)
    requires i < |lines|
    ensures |Outcomes(lines)| == |lines| && Outcomes(lines)[i] == ConvertLine(lines[i])
  {
    var init := lines[..|lines| - 1];
    if i < |init| {
      OutcomesAt(init, i);
    } else {
      OutcomesLength(init);
    }
  }

  lemma {:induction false} OutcomesLength(lines: seq<string>)
    ensures |Outcomes(lines)| == |lines|
  {
    if lines != [] {
      OutcomesLength(lines[..|lines| - 1]);
    }
  }

  /** The output lines one outcome contributes. */
  function Emitted(o: LineOutcome): seq<string> {
    if o.Converted? then [Record(o.id, o.density)] else []
  }

  /** The warnings one outcome contributes. */
  function Diagnosed(o: LineOutcome): seq<Warning> {
    match o
    case Malformed(line) => [InvalidLine(line)]
    case BadId(line) => [ParseFailure(line)]
    case _ => []
  }

  /** The data lines written for a run of outcomes, in order. */
  function DataLines(os: seq<LineOutcome>): seq<string> {
    if os == [] then [] else DataLines(os[..|os| - 1]) + Emitted(os[|os| - 1])
  }

  /** The warnings printed for a run of outcomes, in order. */
  function Warnings(os: seq<LineOutcome>): seq<Warning> {
    if os == [] then [] else Warnings(os[..|os| - 1]) + Diagnosed(os[|os| - 1])
  }

  /** How many outcomes of a run satisfy `p`. */
  function CountWhere(os: seq<LineOutcome>, p: LineOutcome -> bool): nat {
    if os == [] then 0
    else CountWhere(os[..|os| - 1], p) + (if p(os[|os| - 1]) then 1 else 0)
  }

  function NonBlankCount(os: seq<LineOutcome>): nat { CountWhere(os, (o: LineOutcome) => !o.Blank?) }
  function MalformedCount(os: seq<LineOutcome>): nat { CountWhere(os, (o: LineOutcome) => o.Malformed?) }
  function BadIdCount(os: seq<LineOutcome>): nat { CountWhere(os, (o: LineOutcome) => o.BadId?) }
  function ConvertedCount(os: seq<LineOutcome>): nat { CountWhere(os, (o: LineOutcome) => o.Converted?) }

  /**
   * Every non-blank line is exactly one of: invalid, unparseable, converted;
   * one data line is written per converted line and one warning per rejected one.
   */
  lemma {:induction false} Tally(os: seq<LineOutcome>)
    ensures NonBlankCount(os) == MalformedCount(os) + BadIdCount(os) + ConvertedCount(os)
    ensures |DataLines(os)| == ConvertedCount(os)
    ensures |Warnings(os)| == MalformedCount(os) + BadIdCount(os)
  {
    if os != [] {
      Tally(os[..|os| - 1]);
    }
  }

  /** Converting two pieces of input one after the other is converting their concatenation. */
  lemma {:induction false} DataLinesAppend(a: seq<LineOutcome>, b: seq<LineOutcome>)
    ensures DataLines(a + b) == DataLines(a) + DataLines(b)
    ensures Warnings(a + b) == Warnings(a) + Warnings(b)
    ensures ConvertedCount(a + b) == ConvertedCount(a) + ConvertedCount(b)
  {
    if b == [] {
      assert a + b == a;
    } else {
      var b' := b[..|b| - 1];
      assert (a + b)[..|a + b| - 1] == a + b';
      assert (a + b)[|a + b| - 1] == b[|b| - 1];
      DataLinesAppend(a, b');
    }
  }

  /**
   * Order preservation, forwards: the record of the `i`-th line is the data
   * line whose position is the number of records converted before it.
   */
  lemma DataLineAt(os: seq<LineOutcome>, i: nat)
    requires i < |os| && os[i].Converted?
    ensures ConvertedCount(os[..i]) < |DataLines(os)|
    ensures DataLines(os)[ConvertedCount(os[..i])] == Record(os[i].id, os[i].density)
  {
    assert os == os[..i] + ([os[i]] + os[i + 1..]);
    DataLinesAppend(os[..i], [os[i]] + os[i + 1..]);
    DataLinesAppend([os[i]], os[i + 1..]);
    Tally(os[..i]);
    assert [os[i]][..0] == [];
  }

  /**
   * Order preservation, backwards: every data line is the record of some
   * converted line, namely the one with exactly that many converted lines
   * before it.
   */
  lemma {:induction false} DataLineOrigin(os: seq<LineOutcome>, j: nat)
    requires j < |DataLines(os)|
    ensures exists i :: 0 <= i < |os| && os[i].Converted? && ConvertedCount(os[..i]) == j &&
                        DataLines(os)[j] == Record(os[i].id, os[i].density)
  {
    var init := os[..|os| - 1];
    Tally(init);
    if j < |DataLines(init)| {
      DataLineOrigin(init, j);
      var i :| 0 <= i < |init| && init[i].Converted? && ConvertedCount(init[..i]) == j &&
               DataLines(init)[j] == Record(init[i].id, init[i].density);
      assert init[..i] == os[..i];
    } else {
      assert os[..|os| - 1] == init;
    }
  }

  /** One more line has one more outcome. */
  lemma OutcomesSnoc(lines: seq<string>, i: nat)
    requires i < |lines|
    ensures Outcomes(lines[..i + 1]) == Outcomes(lines[..i]) + [ConvertLine(lines[i])]
  {
    assert lines[..i + 1][..i] == lines[..i];
  }

  /** Handling one more outcome keeps the loop's account of what was written, counted and warned. */
  lemma LoopStep(done: seq<LineOutcome>, o: LineOutcome, written: seq<string>, lineCount: nat, warnings: seq<Warning>)
    requires written == [Header] + DataLines(done)
    requires lineCount == ConvertedCount(done)
    requires warnings == Warnings(done)
    ensures written + Emitted(o) == [Header] + DataLines(done + [o])
    ensures lineCount + (if o.Converted? then 1 else 0) == ConvertedCount(done + [o])
    ensures warnings + Diagnosed(o) == Warnings(done + [o])
  {
    assert (done + [o])[..|done|] == done;
  }

  /** What the loop's account means once every line is handled. */
  lemma Account(os: seq<LineOutcome>, written: seq<string>, lineCount: nat)
    requires written == [Header] + DataLines(os)
    requires lineCount == ConvertedCount(os)
    ensures |written| >= 1 && written[0] == Header
    ensures lineCount == |written| - 1
    ensures lineCount == NonBlankCount(os) - MalformedCount(os) - BadIdCount(os)
  {
    Tally(os);
  }

  /**
   * One turn of the converter's loop: strip, skip when blank, split, warn
   * and skip unless there are two fields, parse, warn and skip when the
   * parse fails, otherwise write the record and count it. Its effect is
   * exactly what the line's outcome contributes.
   */
  method HandleLine(raw: string, written: seq<string>, lineCount: nat, warnings: seq<Warning>)
    returns (written': seq<string>, lineCount': nat, warnings': seq<Warning>)
    ensures written' == written + Emitted(ConvertLine(raw))
    ensures lineCount' == lineCount + (if ConvertLine(raw).Converted? then 1 else 0)
    ensures warnings' == warnings + Diagnosed(ConvertLine(raw))
  {
    written', lineCount', warnings' := written, lineCount, warnings;
    var line := Strip(raw);
    if line == [] {
      return;
    }
    var parts := Split(line);
    if |parts| != 2 {
      warnings' := warnings + [InvalidLine(line)];
      return;
    }
    var parsed := ParseInt(parts[0]);
    if parsed.None? {
      warnings' := warnings + [ParseFailure(line)];
      return;
    }
    var hex := HexField(parsed.value);
    written' := written + [hex + "," + parts[1] + "\n"];
    lineCount' := lineCount + 1;
  }

  /**
   * The converter: the header, then the loop over the lines of the input
   * file. It returns what was written to the output file, one string per
   * write, the record counter, and the warnings printed on the way.
   */
  method ConvertCsv(lines: seq<string>) returns (written: seq<string>, lineCount: nat, warnings: seq<Warning>)
    ensures |written| >= 1 && written[0] == Header
    ensures written == [Header] + DataLines(Outcomes(lines))
    ensures lineCount == |written| - 1
    ensures lineCount == NonBlankCount(Outcomes(lines)) - MalformedCount(Outcomes(lines)) - BadIdCount(Outcomes(lines))
    ensures warnings == Warnings(Outcomes(lines))
  {
    written := [Header];
    lineCount := 0;
    warnings := [];
    for i := 0 to |lines|
      invariant written == [Header] + DataLines(Outcomes(lines[..i]))
      invariant lineCount == ConvertedCount(Outcomes(lines[..i]))
      invariant warnings == Warnings(Outcomes(lines[..i]))
    {
      OutcomesSnoc(lines, i);
      LoopStep(Outcomes(lines[..i]), ConvertLine(lines[i]), written, lineCount, warnings);
      written, lineCount, warnings := HandleLine(lines[i], written, lineCount, warnings);
    }
    assert lines[..|lines|] == lines;
    Account(Outcomes(lines), written, lineCount);
  }

  // ---------------------------------------------------------------- worked examples

  /** Zero is written as the single digit `0`, not as an empty field. */
  lemma ZeroRecord()
    ensures ConvertLine("0,0.0\n") == Converted(0, "0.0") && Record(0, "0.0") == "0,0.0\n"
  {
    assert AllSpace("\n");
    assert DecimalDigits(0) == "0";
    ConvertRoundTrip(0, "0.0", "\n");
    assert "0" + "," + "0.0" + "\n" == "0,0.0\n";
  }

  /** A blank line is skipped silently. */
  lemma BlankLine()
    ensures ConvertLine("\n") == Blank
  {
    assert AllSpace("\n");
    ConvertLineSkips("\n");
  }

  /** `abc,0.5` has two fields but the first is not an integer. */
  lemma UnparseableLine()
    ensures ConvertLine("abc,0.5\n") == BadId("abc,0.5")
  {
    assert AllSpace("\n");
    StripFields("abc", "0.5", "\n");
    assert "abc" + "," + "0.5" + "\n" == "abc,0.5\n";
    assert "abc" + "," + "0.5" == "abc,0.5";
    NotAnInteger();
    ConvertLineFields("abc,0.5\n", "abc", "0.5");
  }

  lemma NotAnInteger()
    ensures ParseInt("abc") == None
  {
    TrimPadded([], "abc", [], IsIntSpace);
    assert [] + "abc" + [] == "abc";
    assert !IsDecimal("abc");
  }

  /**
   * A separator character inside the line survives `line.strip()`, and
   * `int()` then rejects the identifier it sticks to: `5` followed by U+001C
   * is reported as unparseable rather than written as `5`.
   */
  lemma SeparatorInField()
    ensures ConvertLine("5\U{1C},0.5\n") == BadId("5\U{1C},0.5")
  {
    var line := "5\U{1C},0.5";
    assert AllSpace("\n");
    assert !IsSpace(line[0]) && !IsSpace(line[|line| - 1]);
    TrimPadded([], line, "\n", IsSpace);
    assert [] + line + "\n" == "5\U{1C},0.5\n";
    assert line == "5\U{1C}" + "," + "0.5";
    SeparatorNotSkipped();
    ConvertLineFields("5\U{1C},0.5\n", "5\U{1C}", "0.5");
  }

  /** `1,2,3` has three fields and is rejected as invalid. */
  lemma ThreeFieldLine()
    ensures ConvertLine("1,2,3\n") == Malformed("1,2,3")
  {
    assert AllSpace("\n");
    TrimPadded([], "1,2,3", "\n", IsSpace);
    assert [] + "1,2,3" + "\n" == "1,2,3\n";
    ConvertLineSkips("1,2,3\n");
  }
}
