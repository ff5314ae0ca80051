/**
 * The annotation file of the batch script (selector.py lines 19-34): every line of the form
 * `M:S-M:S   label` gives one record of a start and an end time, and every other line is ignored.
 */
module Annotations {
  import opened Wrappers
  import opened Sequences
  import opened Decimal
  import opened Times

  /** An annotated span: start and end as (minutes, seconds, 0, 0). */
  datatype Record = Record(start: Time, end: Time)

  /** The groups of a matching line and the label after the three spaces. */
  datatype Fields = Fields(startMinutes: string, startSeconds: string,
                           endMinutes: string, endSeconds: string, text: string)

  predicate ValidFields(f: Fields)
  {
    && IsNumeral(f.startMinutes) && IsNumeral(f.startSeconds)
    && IsNumeral(f.endMinutes) && IsNumeral(f.endSeconds)
    && '\n' !in f.text
  }

  /** The line a choice of fields spells, without its newline. */
  function SpellLine(f: Fields): string
  {
    f.startMinutes + (":" + (f.startSeconds + ("-" + (f.endMinutes + (":" + (f.endSeconds + ("   " + f.text)))))))
  }

  /**
   * The lines the pattern matches: the fields spelled out, possibly followed by one newline
   * (`.` does not match a newline, and `$` also matches just before a final one).
   */
  ghost predicate IsAnnotation(line: string)
  {
    exists f :: ValidFields(f) && (line == SpellLine(f) || line == SpellLine(f) + "\n")
  }

  function RecordOf(f: Fields): Record
    requires ValidFields(f)
  {
    Record(Time(Value(f.startMinutes), Value(f.startSeconds), 0, 0),
           Time(Value(f.endMinutes), Value(f.endSeconds), 0, 0))
  }

  // ---------------------------------------------------------------- the parser

  /** `(\d+)` followed by `sep`: the digits, and what follows the separator. */
  function Field(s: string, sep: string): (r: Option<(string, string)>)
    ensures r.Some? ==> IsNumeral(r.value.0) && s == r.value.0 + (sep + r.value.1)
  {
    var k := DigitRun(s);
    if k > 0 && k + |sep| <= |s| && s[k..k + |sep|] == sep then
      assert s == s[..k] + (s[k..k + |sep|] + s[k + |sep|..]);
      Some((s[..k], s[k + |sep|..]))
    else None
  }

  /** The groups of `(\d+):(\d+)-(\d+):(\d+)   (.*)` matched against a line with no final newline. */
  function MatchCore(core: string): (r: Option<Fields>)
    ensures r.Some? ==> ValidFields(r.value) && core == SpellLine(r.value)
  {
    var f1 := Field(core, ":");
    if f1.None? then None else
    var f2 := Field(f1.value.1, "-");
    if f2.None? then None else
    var f3 := Field(f2.value.1, ":");
    if f3.None? then None else
    var f4 := Field(f3.value.1, "   ");
    if f4.None? || '\n' in f4.value.1 then None
    else Some(Fields(f1.value.0, f2.value.0, f3.value.0, f4.value.0, f4.value.1))
  }

  /** The fields of a line, if it matches the pattern. */
  function Match(line: string): (r: Option<Fields>)
    ensures r.Some? ==> ValidFields(r.value) && StripFinalNewline(line) == SpellLine(r.value)
  {
    MatchCore(StripFinalNewline(line))
  }

  /** One line of the file: its record, or None when the line does not match. */
  function ParseLine(line: string): (r: Option<Record>)
    ensures r.Some? ==> r.value.start.milliseconds == 0 && r.value.start.ticks == 0
    ensures r.Some? ==> r.value.end.milliseconds == 0 && r.value.end.ticks == 0
  {
    match Match(line)
    case None => None
    case Some(f) => Some(RecordOf(f))
  }

  lemma FieldOf(d: string, sep: string, rest: string)
    requires IsNumeral(d) && |sep| > 0 && !IsDigit(sep[0])
    ensures Field(d + (sep + rest), sep) == Some((d, rest))
  {
    var s := d + (sep + rest);
    DigitRunOf(d, sep + rest);
    assert s[|d|..|d| + |sep|] == sep;
    assert s[..|d|] == d && s[|d| + |sep|..] == rest;
  }

  lemma SpellLineDoesNotEndInNewline(f: Fields)
    requires ValidFields(f)
    ensures SpellLine(f)[|SpellLine(f)| - 1] != '\n'
  {
    var s := SpellLine(f);
    if f.text == [] {
      assert s[|s| - 1] == ' ';
    } else {
      assert s[|s| - 1] == f.text[|f.text| - 1];
    }
  }

  lemma MatchCoreSpelled(f: Fields)
    requires ValidFields(f)
    ensures MatchCore(SpellLine(f)) == Some(f)
  {
    var c := f.endSeconds + ("   " + f.text);
    var b := f.endMinutes + (":" + c);
    var a := f.startSeconds + ("-" + b);
    FieldOf(f.startMinutes, ":", a);
    FieldOf(f.startSeconds, "-", b);
    FieldOf(f.endMinutes, ":", c);
    FieldOf(f.endSeconds, "   ", f.text);
  }

  /** A spelled line, with or without its final newline, yields its fields. */
  lemma MatchSpelled(f: Fields, newline: bool)
    requires ValidFields(f)
    ensures Match(if newline then SpellLine(f) + "\n" else SpellLine(f)) == Some(f)
  {
    SpellLineDoesNotEndInNewline(f);
    var line := if newline then SpellLine(f) + "\n" else SpellLine(f);
    if newline {
      assert line[..|line| - 1] == SpellLine(f);
    }
    assert StripFinalNewline(line) == SpellLine(f);
    MatchCoreSpelled(f);
  }

  /** A line yields a record exactly when the pattern matches it. */
  lemma ParseLineMatchesPattern(line: string)
    ensures ParseLine(line).Some? <==> IsAnnotation(line)
  {
    if ParseLine(line).Some? {
      var f := Match(line).value;
      assert line == SpellLine(f) || line == SpellLine(f) + "\n";
    }
    if IsAnnotation(line) {
      var f :| ValidFields(f) && (line == SpellLine(f) || line == SpellLine(f) + "\n");
      MatchSpelled(f, line != SpellLine(f));
    }
  }

  /** A matching line yields the record of its four numbers, with milliseconds and ticks zero. */
  lemma ParseSpelledLine(f: Fields, newline: bool)
    requires ValidFields(f)
    ensures ParseLine(if newline then SpellLine(f) + "\n" else SpellLine(f)) ==
            Some(Record(Time(Value(f.startMinutes), Value(f.startSeconds), 0, 0),
                        Time(Value(f.endMinutes), Value(f.endSeconds), 0, 0)))
  {
    MatchSpelled(f, newline);
  }

  lemma ExampleNumerals()
    ensures Value("12") == 12 && Value("30") == 30 && Value("13") == 13 && Value("05") == 5
  {
    assert "12"[..1] == "1" && "30"[..1] == "3" && "13"[..1] == "1";
    assert "1"[..0] == [] && "3"[..0] == [] && "5"[..0] == [];
    assert "05" == "0" + "5";
    ValueLeadingZero("5");
  }

  lemma ExampleSpelled()
    ensures SpellLine(Fields("12", "30", "13", "05", "some label")) + "\n" == "12:30-13:05   some label\n"
  {
  }

  lemma ExampleLine()
    ensures ParseLine("12:30-13:05   some label\n") == Some(Record(Time(12, 30, 0, 0), Time(13, 5, 0, 0)))
  {
    ExampleSpelled();
    ParseSpelledLine(Fields("12", "30", "13", "05", "some label"), true);
    ExampleNumerals();
  }

  /** A run of `n` spaces. */
  function Spaces(n: nat): (r: string)
    ensures |r| == n && forall j :: 0 <= j < n ==> r[j] == ' '
  {
    seq(n, _ => ' ')
  }

  /**
   * Digits followed by fewer than three spaces and then no further space do not end the range (with
   * no space at all, the label must not go on with a digit either).
   */
  lemma NotThreeSpaces(es: string, gap: nat, text: string)
    requires IsNumeral(es) && gap < 3
    requires text == [] || (text[0] != ' ' && (gap > 0 || !IsDigit(text[0])))
    ensures Field(es + (Spaces(gap) + text), "   ") == None
  {
    var d := es + (Spaces(gap) + text);
    var after := Spaces(gap) + text;
    if gap > 0 {
      assert after[0] == ' ';
    } else {
      assert after == text;
    }
    DigitRunOf(es, after);
    var k := |es|;
    if k + 3 <= |d| {
      assert |text| > 0 && after[gap] == text[0];
      assert d[k + gap] == after[gap];
      assert d[k..k + 3][gap] == d[k + gap];
    }
  }

  /** Fewer than three spaces between the range and the label: the line is ignored, newline or not. */
  lemma ShortGapRejected(sm: string, ss: string, em: string, es: string, gap: nat, text: string, newline: bool)
    requires IsNumeral(sm) && IsNumeral(ss) && IsNumeral(em) && IsNumeral(es) && gap < 3
    requires '\n' !in text && (text == [] || (text[0] != ' ' && (gap > 0 || !IsDigit(text[0]))))
    ensures var core := sm + (":" + (ss + ("-" + (em + (":" + (es + (Spaces(gap) + text)))))));
            ParseLine(if newline then core + "\n" else core) == None
  {
    var d := es + (Spaces(gap) + text);
    var c := em + (":" + d);
    var b := ss + ("-" + c);
    var core := sm + (":" + b);
    assert core[|core| - 1] == d[|d| - 1];
    assert d[|d| - 1] != '\n' by {
      if text != [] {
        assert d[|d| - 1] == text[|text| - 1];
      } else if gap > 0 {
        assert d[|d| - 1] == ' ';
      } else {
        assert d[|d| - 1] == es[|es| - 1];
      }
    }
    var line := if newline then core + "\n" else core;
    if newline {
      assert line[..|line| - 1] == core;
    }
    assert StripFinalNewline(line) == core;
    FieldOf(sm, ":", b);
    FieldOf(ss, "-", c);
    FieldOf(em, ":", d);
    NotThreeSpaces(es, gap, text);
  }

  // ---------------------------------------------------------------- the list of records

  /** The values present in a sequence of options, in order. */
  function Present<T>(xs: seq<Option<T>>): seq<T>
  {
    if xs == [] then []
    else Present(xs[..|xs| - 1]) + (match xs[|xs| - 1] case None => [] case Some(x) => [x])
  }

  /** The indices at which a value is present, ascending. */
  function Positions<T>(xs: seq<Option<T>>): seq<nat>
  {
    if xs == [] then []
    else Positions(xs[..|xs| - 1]) + (if xs[|xs| - 1].Some? then [|xs| - 1] else [])
  }

  lemma {:induction false} PresentAtPositions<T>(xs: seq<Option<T>>)
    ensures |Present(xs)| == |Positions(xs)|
    ensures forall k :: 0 <= k < |Positions(xs)| ==>
              Positions(xs)[k] < |xs| && xs[Positions(xs)[k]] == Some(Present(xs)[k])
  {
    if xs != [] {
      var init := xs[..|xs| - 1];
      PresentAtPositions(init);
      forall k | 0 <= k < |Positions(init)|
        ensures Positions(xs)[k] == Positions(init)[k] && Present(xs)[k] == Present(init)[k]
      { }
    }
  }

  lemma {:induction false} PositionsOrdered<T>(xs: seq<Option<T>>)
    ensures forall k, l :: 0 <= k < l < |Positions(xs)| ==> Positions(xs)[k] < Positions(xs)[l]
  {
    if xs != [] {
      PositionsOrdered(xs[..|xs| - 1]);
      PresentAtPositions(xs[..|xs| - 1]);
    }
  }

  lemma {:induction false} PositionsComplete<T>(xs: seq<Option<T>>)
    ensures forall j :: 0 <= j < |xs| ==> (xs[j].Some? <==> j in Positions(xs))
  {
    if xs != [] {
      var n := |xs| - 1;
      var init := xs[..n];
      PositionsComplete(init);
      PresentAtPositions(init);
      assert n !in Positions(init);
      forall j | 0 <= j < n ensures xs[j] == init[j] { }
    }
  }

  lemma {:induction false} PresentAppend<T>(a: seq<Option<T>>, b: seq<Option<T>>)
    ensures Present(a + b) == Present(a) + Present(b)
  {
    if b == [] {
      assert a + b == a;
    } else {
      var n := |b| - 1;
      assert (a + b)[..|a + b| - 1] == a + b[..n];
      assert (a + b)[|a + b| - 1] == b[n];
      PresentAppend(a, b[..n]);
    }
  }

  /** The result of the pattern on every line of the file. */
  function Parsed(lines: seq<string>): (r: seq<Option<Record>>)
    ensures |r| == |lines| && forall j :: 0 <= j < |lines| ==> r[j] == ParseLine(lines[j])
  {
    seq(|lines|, j requires 0 <= j < |lines| => ParseLine(lines[j]))
  }

  /** The list `times`: the records of the matching lines, in file order. */
  function Records(lines: seq<string>): seq<Record>
  {
    Present(Parsed(lines))
  }

  /** The line numbers of the matching lines. */
  function MatchingLines(lines: seq<string>): seq<nat>
  {
    Positions(Parsed(lines))
  }

  /**
   * The records are exactly those of the matching lines, in the order of the file: the k-th record
   * comes from the k-th matching line, the matching lines ascend, and every matching line is taken.
   */
  lemma RecordsOfMatchingLines(lines: seq<string>)
    ensures |Records(lines)| == |MatchingLines(lines)|
    ensures forall k :: 0 <= k < |MatchingLines(lines)| ==>
              MatchingLines(lines)[k] < |lines| && ParseLine(lines[MatchingLines(lines)[k]]) == Some(Records(lines)[k])
    ensures forall k, l :: 0 <= k < l < |MatchingLines(lines)| ==> MatchingLines(lines)[k] < MatchingLines(lines)[l]
    ensures forall j :: 0 <= j < |lines| ==> (ParseLine(lines[j]).Some? <==> j in MatchingLines(lines))
  {
    PresentAtPositions(Parsed(lines));
    PositionsOrdered(Parsed(lines));
    PositionsComplete(Parsed(lines));
  }

  lemma ParsedAppend(a: seq<string>, b: seq<string>)
    ensures Parsed(a + b) == Parsed(a) + Parsed(b)
  {
    var l := a + b;
    forall j | 0 <= j < |l| ensures Parsed(l)[j] == (Parsed(a) + Parsed(b))[j]
    {
      if j < |a| { assert l[j] == a[j]; } else { assert l[j] == b[j - |a|]; }
    }
  }

  /** Reading a file in two parts gives the records of the first part, then those of the second. */
  lemma RecordsAppend(a: seq<string>, b: seq<string>)
    ensures Records(a + b) == Records(a) + Records(b)
  {
    ParsedAppend(a, b);
    PresentAppend(Parsed(a), Parsed(b));
  }

  lemma PresentOne<T>(o: Option<T>)
    ensures Present([o]) == match o case None => [] case Some(x) => [x]
  {
    assert [o][..0] == [];
  }

  /** The records of one line: its record if it matches, none otherwise. */
  lemma RecordsOfLine(line: string)
    ensures Records([line]) == match ParseLine(line) case None => [] case Some(r) => [r]
  {
    assert Parsed([line]) == [ParseLine(line)];
    PresentOne(ParseLine(line));
  }

  /** One more line adds its record, if it has one, at the end. */
  lemma RecordsSnoc(init: seq<string>, line: string)
    ensures Records(init + [line]) == Records(init) + match ParseLine(line) case None => [] case Some(r) => [r]
  {
    RecordsAppend(init, [line]);
    RecordsOfLine(line);
  }

  /** A line the pattern does not match adds no record, wherever it stands. */
  lemma RecordsSkipLine(a: seq<string>, line: string, b: seq<string>)
    requires !IsAnnotation(line)
    ensures Records(a + [line] + b) == Records(a) + Records(b)
  {
    ParseLineMatchesPattern(line);
    RecordsOfLine(line);
    assert Records([line]) == [];
    RecordsAppend(a + [line], b);
    RecordsAppend(a, [line]);
    assert Records(a + [line]) == Records(a);
  }

  lemma PrefixSnoc<T>(s: seq<T>, k: nat)
    requires k < |s|
    ensures s[..k + 1] == s[..k] + [s[k]]
  {
  }

  /** Lines 19-34: the loop over the file's lines that appends one record per matching line. */
  method ReadTimes(lines: seq<string>) returns (times: seq<Record>)
    ensures times == Records(lines)
  {
    times := [];
    assert Parsed(lines[..0]) == [];
    for k := 0 to |lines|
      invariant times == Records(lines[..k])
    {
      PrefixSnoc(lines, k);
      RecordsSnoc(lines[..k], lines[k]);
      var m := ParseLine(lines[k]);
      match m {
        case None =>
        case Some(r) =>
          times := times + [r];
      }
    }
    assert lines[..|lines|] == lines;
  }
}
