/**
 * The duration strings of the interactive script (`parse_time`): an optional minutes segment, then
 * optional seconds, milliseconds and ticks segments, each a run of ASCII digits followed by its unit
 * (`m`, `s`, `ms`, `t`), in that order and with no separators.
 */
module TimeSpec {
  import opened Wrappers
  import opened Sequences
  import opened Decimal
  import opened Times

  /** The exception parse_time raises for a string outside the grammar. */
  datatype ParseError = CouldNotParse

  /** The digit strings of the four segments in grammar order; None where a segment is absent. */
  datatype Segments = Segments(minutes: Option<string>, seconds: Option<string>,
                               milliseconds: Option<string>, ticks: Option<string>)

  predicate ValidPart(d: Option<string>)
  {
    d.Some? ==> IsNumeral(d.value)
  }

  predicate ValidSegments(g: Segments)
  {
    ValidPart(g.minutes) && ValidPart(g.seconds) && ValidPart(g.milliseconds) && ValidPart(g.ticks)
  }

  function Part(d: Option<string>, unit: string): string
  {
    if d.Some? then d.value + unit else ""
  }

  /** The string the segments spell. */
  function Spell(g: Segments): string
  {
    Part(g.minutes, "m") + Part(g.seconds, "s") + Part(g.milliseconds, "ms") + Part(g.ticks, "t")
  }

  function PartValue(d: Option<string>): nat
    requires ValidPart(d)
  {
    if d.Some? then Value(d.value) else 0
  }

  /** The tuple the segments denote: the decimal value of each present segment, zero for an absent one. */
  function ValueOf(g: Segments): Time
    requires ValidSegments(g)
  {
    Time(PartValue(g.minutes), PartValue(g.seconds), PartValue(g.milliseconds), PartValue(g.ticks))
  }

  /**
   * The strings parse_time accepts: non-empty, and spelled by some segments, possibly followed by one
   * newline (Python's `$` also matches just before a final newline).
   */
  ghost predicate InGrammar(s: string)
  {
    s != "" && exists g :: ValidSegments(g) && (s == Spell(g) || s == Spell(g) + "\n")
  }

  // ---------------------------------------------------------------- the parser

  /** Length of the longest prefix made of non-digits. */
  function UnitRun(s: string): (k: nat)
    ensures k <= |s| && NoDigits(s[..k]) && (k < |s| ==> IsDigit(s[k]))
  {
    if s == [] || IsDigit(s[0]) then 0
    else
      var k := 1 + UnitRun(s[1..]);
      assert s[..k] == [s[0]] + s[1..][..k - 1];
      k
  }

  /** A number and the letters after it, e.g. ("300", "ms"). */
  datatype Token = Token(digits: string, unit: string)

  predicate ValidToken(t: Token)
  {
    IsNumeral(t.digits) && |t.unit| > 0 && NoDigits(t.unit)
  }

  predicate ValidTokens(ts: seq<Token>)
  {
    forall k :: 0 <= k < |ts| ==> ValidToken(ts[k])
  }

  function Join(ts: seq<Token>): string
  {
    if ts == [] then "" else ts[0].digits + ts[0].unit + Join(ts[1..])
  }

  lemma JoinCons(t: Token, ts: seq<Token>)
    ensures Join([t] + ts) == t.digits + t.unit + Join(ts)
  {
    assert ([t] + ts)[1..] == ts;
  }

  lemma ValidTokensCons(t: Token, ts: seq<Token>)
    requires ValidToken(t) && ValidTokens(ts)
    ensures ValidTokens([t] + ts)
  {
    forall k | 0 <= k < |[t] + ts| ensures ValidToken(([t] + ts)[k]) {
      if k > 0 { assert ([t] + ts)[k] == ts[k - 1]; }
    }
  }

  /** Splits a string into alternating digit and non-digit runs; None if it does not alternate so. */
  function Tokenize(s: string): (r: Option<seq<Token>>)
    ensures r.Some? ==> ValidTokens(r.value) && Join(r.value) == s
    decreases |s|
  {
    if s == [] then Some([])
    else
      var k := DigitRun(s);
      var j := UnitRun(s[k..]);
      if k == 0 || j == 0 then None
      else
        match Tokenize(s[k + j..])
        case None => None
        case Some(ts) =>
          var t := Token(s[..k], s[k..][..j]);
          JoinCons(t, ts);
          ValidTokensCons(t, ts);
          SplitTwice(s, k, j);
          Some([t] + ts)
  }

  /** One optional group of the pattern: takes the first token if it carries `unit`. */
  function Pick(ts: seq<Token>, unit: string): (Option<string>, seq<Token>)
  {
    if ts != [] && ts[0].unit == unit then (Some(ts[0].digits), ts[1..]) else (None, ts)
  }

  function TokenOf(d: Option<string>, unit: string): seq<Token>
  {
    if d.Some? then [Token(d.value, unit)] else []
  }

  /** The tokens of the present segments, in order. */
  function Tokens(g: Segments): seq<Token>
  {
    TokenOf(g.minutes, "m") + TokenOf(g.seconds, "s") + TokenOf(g.milliseconds, "ms") + TokenOf(g.ticks, "t")
  }

  /** The four optional groups tried in their fixed order; every token must be consumed. */
  function Assemble(ts: seq<Token>): (r: Option<Segments>)
    ensures r.Some? ==> Tokens(r.value) == ts
  {
    var (mi, t1) := Pick(ts, "m");
    var (se, t2) := Pick(t1, "s");
    var (ms, t3) := Pick(t2, "ms");
    var (ti, t4) := Pick(t3, "t");
    if t4 == [] then Some(Segments(mi, se, ms, ti)) else None
  }

  lemma TokensValid(g: Segments)
    requires ValidTokens(Tokens(g))
    ensures ValidSegments(g)
  {
    var ts := Tokens(g);
    var a := TokenOf(g.minutes, "m");
    var b := TokenOf(g.seconds, "s");
    var c := TokenOf(g.milliseconds, "ms");
    var d := TokenOf(g.ticks, "t");
    assert ts == a + b + c + d;
    if g.minutes.Some? { assert ts[0] == a[0]; }
    if g.seconds.Some? { assert ts[|a|] == b[0]; }
    if g.milliseconds.Some? { assert ts[|a| + |b|] == c[0]; }
    if g.ticks.Some? { assert ts[|a| + |b| + |c|] == d[0]; }
  }

  /** parse_time: the tuple of the string's segments, or the exception. */
  function ParseTime(s: string): (r: Result<Time, ParseError>)
  {
    if s == "" then Err(CouldNotParse)
    else
      match Tokenize(StripFinalNewline(s))
      case None => Err(CouldNotParse)
      case Some(ts) =>
        match Assemble(ts)
        case None => Err(CouldNotParse)
        case Some(g) =>
          TokensValid(g);
          Ok(ValueOf(g))
  }

  // ---------------------------------------------------------------- lemmas

  lemma {:induction false} JoinAppend(a: seq<Token>, b: seq<Token>)
    ensures Join(a + b) == Join(a) + Join(b)
  {
    if a != [] {
      assert (a + b)[1..] == a[1..] + b;
      JoinAppend(a[1..], b);
    } else {
      assert a + b == b;
    }
  }

  lemma JoinPart(d: Option<string>, unit: string)
    ensures Join(TokenOf(d, unit)) == Part(d, unit)
  {
    if d.Some? {
      assert TokenOf(d, unit)[1..] == [];
    }
  }

  lemma SpellIsJoin(g: Segments)
    ensures Spell(g) == Join(Tokens(g))
  {
    var a := TokenOf(g.minutes, "m");
    var b := TokenOf(g.seconds, "s");
    var c := TokenOf(g.milliseconds, "ms");
    var d := TokenOf(g.ticks, "t");
    JoinPart(g.minutes, "m");
    JoinPart(g.seconds, "s");
    JoinPart(g.milliseconds, "ms");
    JoinPart(g.ticks, "t");
    JoinAppend(a, b);
    JoinAppend(a + b, c);
    JoinAppend(a + b + c, d);
  }

  lemma {:induction false} UnitRunOf(u: string, rest: string)
    requires NoDigits(u)
    requires rest == [] || IsDigit(rest[0])
    ensures UnitRun(u + rest) == |u|
  {
    if u != [] {
      assert (u + rest)[1..] == u[1..] + rest;
      UnitRunOf(u[1..], rest);
    } else {
      assert u + rest == rest;
    }
  }

  /** A valid token followed by a digit or by nothing is read off as one token. */
  lemma TokenizeCons(t: Token, rest: string, ts: seq<Token>)
    requires ValidToken(t)
    requires rest == [] || IsDigit(rest[0])
    requires Tokenize(rest) == Some(ts)
    ensures Tokenize(t.digits + t.unit + rest) == Some([t] + ts)
  {
    Pieces(t.digits, t.unit, rest);
    DigitRunOf(t.digits, t.unit + rest);
    UnitRunOf(t.unit, rest);
  }

  lemma ValidTokensTail(ts: seq<Token>)
    requires ts != [] && ValidTokens(ts)
    ensures ValidToken(ts[0]) && ValidTokens(ts[1..])
  {
    forall k | 0 <= k < |ts[1..]| ensures ValidToken(ts[1..][k]) { assert ts[1..][k] == ts[k + 1]; }
  }

  /** The spelling of valid tokens is empty or starts with a digit. */
  lemma JoinStartsWithDigit(ts: seq<Token>)
    requires ValidTokens(ts)
    ensures Join(ts) == [] || IsDigit(Join(ts)[0])
  {
    if ts != [] {
      ValidTokensTail(ts);
      assert Join(ts) == ts[0].digits + (ts[0].unit + Join(ts[1..]));
    }
  }

  /** Tokenizing is the inverse of joining valid tokens. */
  lemma {:induction false} TokenizeJoin(ts: seq<Token>)
    requires ValidTokens(ts)
    ensures Tokenize(Join(ts)) == Some(ts)
  {
    if ts != [] {
      ValidTokensTail(ts);
      JoinStartsWithDigit(ts[1..]);
      TokenizeJoin(ts[1..]);
      TokenizeCons(ts[0], Join(ts[1..]), ts[1..]);
      assert [ts[0]] + ts[1..] == ts;
    }
  }

  /** The group for `unit` takes a present segment's token and leaves an absent one's successors alone. */
  lemma PickPart(d: Option<string>, unit: string, rest: seq<Token>)
    requires rest == [] || rest[0].unit != unit
    ensures Pick(TokenOf(d, unit) + rest, unit) == (d, rest)
  {
    if d.Some? {
      assert (TokenOf(d, unit) + rest)[1..] == rest;
    } else {
      assert TokenOf(d, unit) + rest == rest;
    }
  }

  lemma AssembleTokens(g: Segments)
    ensures Assemble(Tokens(g)) == Some(g)
  {
    var a := TokenOf(g.minutes, "m");
    var b := TokenOf(g.seconds, "s");
    var c := TokenOf(g.milliseconds, "ms");
    var d := TokenOf(g.ticks, "t");
    assert "s" != "m" by { assert "s"[0] != "m"[0]; }
    assert "ms" != "m" && "ms" != "s" by { assert |"ms"| == 2; }
    assert "t" != "m" && "t" != "s" && "t" != "ms" by { assert "t"[0] != "m"[0] && "t"[0] != "s"[0]; }
    assert Tokens(g) == a + (b + (c + d));
    PickPart(g.ticks, "t", []);
    assert d + [] == d;
    PickPart(g.milliseconds, "ms", d);
    PickPart(g.seconds, "s", c + d);
    PickPart(g.minutes, "m", b + (c + d));
  }

  lemma SpellDoesNotEndInNewline(g: Segments)
    ensures Spell(g) == "" || Spell(g)[|Spell(g)| - 1] != '\n'
  {
    var s := Spell(g);
    var a := Part(g.minutes, "m");
    var b := Part(g.seconds, "s");
    var c := Part(g.milliseconds, "ms");
    var d := Part(g.ticks, "t");
    if d != "" { assert s[|s| - 1] == d[|d| - 1]; }
    else if c != "" { assert s[|s| - 1] == c[|c| - 1]; }
    else if b != "" { assert s[|s| - 1] == b[|b| - 1]; }
    else if a != "" { assert s[|s| - 1] == a[|a| - 1]; }
  }

  lemma SegmentTokensValid(g: Segments)
    requires ValidSegments(g)
    ensures ValidTokens(Tokens(g))
  {
    var a := TokenOf(g.minutes, "m");
    var b := TokenOf(g.seconds, "s");
    var c := TokenOf(g.milliseconds, "ms");
    var d := TokenOf(g.ticks, "t");
    assert Tokens(g) == a + b + c + d;
    TokenOfValid(g.minutes, "m");
    TokenOfValid(g.seconds, "s");
    TokenOfValid(g.milliseconds, "ms");
    TokenOfValid(g.ticks, "t");
    ValidTokensAppend(a, b);
    ValidTokensAppend(a + b, c);
    ValidTokensAppend(a + b + c, d);
  }

  lemma TokenOfValid(d: Option<string>, unit: string)
    requires ValidPart(d) && |unit| > 0 && NoDigits(unit)
    ensures ValidTokens(TokenOf(d, unit))
  {
  }

  lemma ValidTokensAppend(a: seq<Token>, b: seq<Token>)
    requires ValidTokens(a) && ValidTokens(b)
    ensures ValidTokens(a + b)
  {
    forall k | 0 <= k < |a + b| ensures ValidToken((a + b)[k]) {
      if k >= |a| { assert (a + b)[k] == b[k - |a|]; }
    }
  }

  lemma ParseSpelledTokens(g: Segments)
    requires ValidSegments(g)
    ensures Tokenize(Spell(g)) == Some(Tokens(g))
  {
    SpellIsJoin(g);
    SegmentTokensValid(g);
    TokenizeJoin(Tokens(g));
  }

  /** A spelled string, with or without a final newline, parses to the value of its segments. */
  lemma ParseSpelled(g: Segments, newline: bool)
    requires ValidSegments(g)
    requires Spell(g) != "" || newline
    ensures ParseTime(if newline then Spell(g) + "\n" else Spell(g)) == Ok(ValueOf(g))
  {
    var s := if newline then Spell(g) + "\n" else Spell(g);
    SpellDoesNotEndInNewline(g);
    assert StripFinalNewline(s) == Spell(g);
    ParseSpelledTokens(g);
    AssembleTokens(g);
  }

  /** parse_time succeeds exactly on the strings of the grammar. */
  lemma ParseTimeAcceptsGrammar(s: string)
    ensures ParseTime(s).Ok? <==> InGrammar(s)
  {
    if ParseTime(s).Ok? {
      var core := StripFinalNewline(s);
      var ts := Tokenize(core).value;
      var g := Assemble(ts).value;
      TokensValid(g);
      SpellIsJoin(g);
      assert ValidSegments(g) && (s == Spell(g) || s == Spell(g) + "\n");
    }
    if InGrammar(s) {
      var g :| ValidSegments(g) && (s == Spell(g) || s == Spell(g) + "\n");
      if s == Spell(g) {
        ParseSpelled(g, false);
      } else {
        ParseSpelled(g, true);
      }
    }
  }

  /** Every accepted string splits into segments in exactly one way. */
  lemma SpellInjective(g1: Segments, g2: Segments)
    requires ValidSegments(g1) && ValidSegments(g2)
    requires Spell(g1) == Spell(g2)
    ensures g1 == g2
  {
    SpellIsJoin(g1);
    SpellIsJoin(g2);
    AssembleTokens(g1);
    AssembleTokens(g2);
    assert Tokens(g1) == Tokens(g2) by {
      ParseSpelledTokens(g1);
      ParseSpelledTokens(g2);
    }
  }

  // ---------------------------------------------------------------- the round trip

  function NonZeroPart(n: nat): Option<string>
  {
    if n == 0 then None else Some(Numeral(n))
  }

  /** The segments of the shortest spelling of a tuple: only its non-zero components. */
  function SegmentsFor(t: Time): (g: Segments)
    ensures ValidSegments(g)
  {
    Segments(NonZeroPart(t.minutes), NonZeroPart(t.seconds), NonZeroPart(t.milliseconds), NonZeroPart(t.ticks))
  }

  /** The tuple written as the concatenation of its non-zero segments, e.g. "4m300ms90090t". */
  function Format(t: Time): string
  {
    Spell(SegmentsFor(t))
  }

  lemma PartValueNonZero(n: nat)
    ensures PartValue(NonZeroPart(n)) == n
  {
    if n != 0 { ValueOfNumeral(n); }
  }

  /** Parsing the spelling of a tuple with a non-zero component gives the tuple back. */
  lemma ParseFormat(t: Time)
    requires t != Time(0, 0, 0, 0)
    ensures ParseTime(Format(t)) == Ok(t)
  {
    var g := SegmentsFor(t);
    assert Spell(g) != "" by {
      if t.minutes != 0 { assert |Part(g.minutes, "m")| > 0; }
      else if t.seconds != 0 { assert |Part(g.seconds, "s")| > 0; }
      else if t.milliseconds != 0 { assert |Part(g.milliseconds, "ms")| > 0; }
      else { assert |Part(g.ticks, "t")| > 0; }
    }
    ParseSpelled(g, false);
    PartValueNonZero(t.minutes);
    PartValueNonZero(t.seconds);
    PartValueNonZero(t.milliseconds);
    PartValueNonZero(t.ticks);
  }

  // ---------------------------------------------------------------- the documented examples

  lemma NumeralsShort()
    ensures Numeral(4) == "4" && Numeral(11) == "11" && Numeral(28) == "28" && Numeral(30) == "30"
    ensures Numeral(300) == "300"
  {
  }

  lemma NumeralsLong()
    ensures Numeral(90090) == "90090" && Numeral(12392424) == "12392424"
  {
    assert Numeral(9) == "9";
    assert Numeral(90) == "9" + "0";
    assert Numeral(900) == "90" + "0";
    assert Numeral(9009) == "900" + "9";
    assert Numeral(90090) == "9009" + "0";
    assert Numeral(1) == "1";
    assert Numeral(12) == "1" + "2";
    assert Numeral(123) == "12" + "3";
    assert Numeral(1239) == "123" + "9";
    assert Numeral(12392) == "1239" + "2";
    assert Numeral(123924) == "12392" + "4";
    assert Numeral(1239242) == "123924" + "2";
    assert Numeral(12392424) == "1239242" + "4";
  }

  lemma ExampleMinutesSeconds()
    ensures ParseTime("30m11s") == Ok(Time(30, 11, 0, 0))
  {
    var g := Segments(Some("30"), Some("11"), None, None);
    assert Spell(g) == "30m11s";
    ParseSpelled(g, false);
    NumeralsShort();
    ValueOfNumeral(30);
    ValueOfNumeral(11);
  }

  lemma ExampleSeconds()
    ensures ParseTime("28s") == Ok(Time(0, 28, 0, 0))
  {
    var g := Segments(None, Some("28"), None, None);
    assert Spell(g) == "28s";
    ParseSpelled(g, false);
    NumeralsShort();
    ValueOfNumeral(28);
  }

  lemma ExampleTicks()
    ensures ParseTime("12392424t") == Ok(Time(0, 0, 0, 12392424))
  {
    var g := Segments(None, None, None, Some("12392424"));
    assert Spell(g) == "12392424t";
    ParseSpelled(g, false);
    NumeralsLong();
    ValueOfNumeral(12392424);
  }

  /** "ms" is read as milliseconds, never as minutes followed by seconds. */
  lemma ExampleMilliseconds()
    ensures ParseTime("300ms") == Ok(Time(0, 0, 300, 0))
  {
    var g := Segments(None, None, Some("300"), None);
    assert Spell(g) == "300ms";
    ParseSpelled(g, false);
    NumeralsShort();
    ValueOfNumeral(300);
  }

  lemma ExampleAllButSeconds()
    ensures ParseTime("4m300ms90090t") == Ok(Time(4, 0, 300, 90090))
  {
    var g := Segments(Some("4"), None, Some("300"), Some("90090"));
    assert Spell(g) == "4m300ms90090t";
    ParseSpelled(g, false);
    NumeralsShort();
    NumeralsLong();
    ValueOfNumeral(4);
    ValueOfNumeral(300);
    ValueOfNumeral(90090);
  }

  /** The empty string, and a string that does not start with a digit, are refused. */
  lemma ExamplesRejected()
    ensures ParseTime("") == Err(CouldNotParse)
    ensures ParseTime("xyz") == Err(CouldNotParse)
  {
    assert "xyz"[2] != '\n';
    assert StripFinalNewline("xyz") == "xyz";
    assert DigitRun("xyz") == 0;
  }

  lemma OutOfOrderTokens()
    ensures Tokenize("11s30m") == Some([Token("11", "s"), Token("30", "m")])
  {
    var a := Token("11", "s");
    var b := Token("30", "m");
    var ts := [a, b];
    assert ts[1..] == [b] && [b][1..] == [];
    assert Join([b]) == "30m" by { assert Join([b]) == "30" + "m" + Join([]); }
    assert Join(ts) == "11" + "s" + "30m";
    assert Join(ts) == "11s30m";
    assert ValidTokens(ts);
    TokenizeJoin(ts);
  }

  lemma OutOfOrderAssembled()
    ensures Assemble([Token("11", "s"), Token("30", "m")]) == None
  {
    assert "s" != "m" by { assert "s"[0] != "m"[0]; }
    assert "m" != "t" by { assert "m"[0] != "t"[0]; }
    assert "m" != "ms" by { assert |"m"| != |"ms"|; }
    var ts := [Token("11", "s"), Token("30", "m")];
    assert Pick(ts, "m") == (None, ts);
    assert Pick(ts, "s") == (Some("11"), ts[1..]);
    assert Pick(ts[1..], "ms") == (None, ts[1..]);
    assert Pick(ts[1..], "t") == (None, ts[1..]);
  }

  /** The units must come in the order m, s, ms, t. */
  lemma ExampleOutOfOrder()
    ensures ParseTime("11s30m") == Err(CouldNotParse)
  {
    assert "11s30m"[5] != '\n';
    assert StripFinalNewline("11s30m") == "11s30m";
    OutOfOrderTokens();
    OutOfOrderAssembled();
  }

  /** A lone newline passes both the match and the empty-string guard. */
  lemma LoneNewlineAccepted()
    ensures ParseTime("\n") == Ok(Time(0, 0, 0, 0))
  {
    ParseSpelled(Segments(None, None, None, None), true);
  }
}
