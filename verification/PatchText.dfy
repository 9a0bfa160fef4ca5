/** What the lines of a unified diff say, told from their characters alone: which lines are read as
    what, with or without a final newline, and what a written chunk header has in it. */
module PatchText {
  import opened PatchFormat

  // ---------------------------------------------------------------- numerals

  function Pow10(n: nat): nat {
    if n == 0 then 1 else 10 * Pow10(n - 1)
  }

  /** Digits count by their places, the first one most. */
  lemma {:induction false} PlaceValue(a: string, b: string)
    requires AllDigits(a) && AllDigits(b)
    ensures AllDigits(a + b) && ToNat(a + b) == ToNat(a) * Pow10(|b|) + ToNat(b)
  {
    if b == [] {
      assert a + b == a;
    } else {
      var front, last := b[..|b| - 1], b[|b| - 1];
      PlaceValue(a, front);
      assert (a + b)[..|a + b| - 1] == a + front && (a + b)[|a + b| - 1] == last;
      TenTimes(ToNat(a), Pow10(|front|), ToNat(front));
    }
  }

  lemma TenTimes(x: nat, p: nat, y: nat)
    ensures 10 * (x * p + y) == x * (10 * p) + 10 * y
  {
  }

  lemma OneDigit(c: char)
    requires '0' <= c <= '9'
    ensures ToNat([c]) == c as int - '0' as int
  {
    assert [c][..0] == [];
  }

  ghost predicate Numeral(s: string, n: nat) {
    s != [] && AllDigits(s) && ToNat(s) == n
  }

  /** What %d prints: no needless zeros in front. */
  ghost predicate Decimal(s: string, n: nat) {
    Numeral(s, n) && (|s| > 1 ==> s[0] != '0')
  }

  lemma {:induction false} DigitsDecimal(n: nat)
    ensures Decimal(Digits(n), n)
  {
    DigitsBack(n);
    if n >= 10 {
      DigitsDecimal(n / 10);
      NotZero(n / 10);
    }
  }

  lemma {:induction false} NotZero(n: nat)
    requires n > 0
    ensures Digits(n)[0] != '0'
  {
    if n >= 10 { NotZero(n / 10); }
  }

  // ---------------------------------------------------------------- one line

  /** The line is this text, with or without a final newline. */
  predicate Reads(line: string, text: string) {
    OneLine(text) && (line == text || line == text + "\n")
  }

  lemma Chomped(line: string, text: string)
    ensures Reads(line, text) <==> Chomp(line) == text && OneLine(text)
  {
    if line != [] && line[|line| - 1] == '\n' {
      assert line == line[..|line| - 1] + "\n";
      if line == text { assert '\n' in text; }
    }
    if line == text + "\n" {
      assert line[..|line| - 1] == text;
    }
  }

  /** The expressions ^lit(.*)$ match a line without regard to its final newline. */
  lemma MatchRestExact(lit: string, line: string, rest: string)
    ensures MatchRest(lit, line) == Some(rest) <==> Reads(line, lit + rest)
  {
    Chomped(line, lit + rest);
    var body := Chomp(line);
    if lit <= body {
      assert body == lit + body[|lit|..];
    }
    assert (lit + rest)[|lit|..] == rest;
  }

  const CLOSING: string := " @@"

  /** A chunk header with the numerals `a`, `b`, `c`, `d`, and any text after it. */
  function HeaderLine(a: string, b: string, c: string, d: string, tail: string): string {
    "@@ -" + (a + ("," + (b + (" +" + (c + ("," + (d + (CLOSING + tail))))))))
  }

  ghost predicate IsHeader(line: string, ns: Numbers) {
    exists a, b, c, d, tail ::
      && line == HeaderLine(a, b, c, d, tail)
      && Numeral(a, ns.srcPos) && Numeral(b, ns.srcLen) && Numeral(c, ns.dstPos) && Numeral(d, ns.dstLen)
  }

  lemma ExpectSplit(lit: string, s: string)
    ensures Expect(lit, s).Some? ==> s == lit + Expect(lit, s).value
  {
  }

  lemma NumberSplit(s: string)
    ensures Number(s).Some? ==>
      var a := s[..DigitRun(s)]; Numeral(a, Number(s).value.0) && s == a + Number(s).value.1
  {
  }

  lemma NumeralRead(a: string, n: nat, rest: string)
    requires Numeral(a, n) && (rest == [] || !('0' <= rest[0] <= '9'))
    ensures Number(a + rest) == Some((n, rest))
  {
    RunOfDigits(a, rest);
    assert (a + rest)[..|a|] == a && (a + rest)[|a|..] == rest;
  }

  lemma HeaderMatched(line: string)
    requires MatchHeader(line).Some?
    ensures IsHeader(line, MatchHeader(line).value)
  {
    hide Expect, Number, Numeral, HeaderLine, DigitRun;
    var s1 := Expect("@@ -", line).value;
    var (n1, s2) := Number(s1).value;
    var s3 := Expect(",", s2).value;
    var (n2, s4) := Number(s3).value;
    var s5 := Expect(" +", s4).value;
    var (n3, s6) := Number(s5).value;
    var s7 := Expect(",", s6).value;
    var (n4, s8) := Number(s7).value;
    var tail := Expect(CLOSING, s8).value;
    ExpectSplit("@@ -", line);
    NumberSplit(s1);
    ExpectSplit(",", s2);
    NumberSplit(s3);
    ExpectSplit(" +", s4);
    NumberSplit(s5);
    ExpectSplit(",", s6);
    NumberSplit(s7);
    ExpectSplit(CLOSING, s8);
    var a, b, c, d := s1[..DigitRun(s1)], s3[..DigitRun(s3)], s5[..DigitRun(s5)], s7[..DigitRun(s7)];
    HeaderJoined(a, b, c, d, tail, s2, s4, s6, s8);
    assert line == HeaderLine(a, b, c, d, tail);
  }

  lemma HeaderJoined(a: string, b: string, c: string, d: string, tail: string,
                     s2: string, s4: string, s6: string, s8: string)
    requires s8 == CLOSING + tail && s6 == "," + (d + s8) && s4 == " +" + (c + s6) && s2 == "," + (b + s4)
    ensures "@@ -" + (a + s2) == HeaderLine(a, b, c, d, tail)
  {
  }

  lemma MatchesHeader(a: string, b: string, c: string, d: string, tail: string, ns: Numbers)
    requires Numeral(a, ns.srcPos) && Numeral(b, ns.srcLen) && Numeral(c, ns.dstPos) && Numeral(d, ns.dstLen)
    ensures MatchHeader(HeaderLine(a, b, c, d, tail)) == Some(ns)
  {
    hide Expect, Number, Numeral;
    var s8 := CLOSING + tail;
    var s7 := d + s8;
    var s6 := "," + s7;
    var s5 := c + s6;
    var s4 := " +" + s5;
    var s3 := b + s4;
    var s2 := "," + s3;
    var s1 := a + s2;
    Expected("@@ -", s1);
    NumeralRead(a, ns.srcPos, s2);
    Expected(",", s3);
    NumeralRead(b, ns.srcLen, s4);
    Expected(" +", s5);
    NumeralRead(c, ns.dstPos, s6);
    Expected(",", s7);
    NumeralRead(d, ns.dstLen, s8);
    Expected(CLOSING, tail);
  }

  /** The expression for chunk headers is not anchored at the end: any text may follow. */
  lemma HeaderExact(line: string, ns: Numbers)
    ensures MatchHeader(line) == Some(ns) <==> IsHeader(line, ns)
  {
    hide MatchHeader, HeaderLine, Numeral;
    if MatchHeader(line).Some? {
      HeaderMatched(line);
    }
    if IsHeader(line, ns) {
      var a, b, c, d, tail :|
        && line == HeaderLine(a, b, c, d, tail)
        && Numeral(a, ns.srcPos) && Numeral(b, ns.srcLen) && Numeral(c, ns.dstPos) && Numeral(d, ns.dstLen);
      MatchesHeader(a, b, c, d, tail, ns);
    }
  }

  lemma FirstChar(lit: string, line: string)
    requires lit != []
    ensures MatchRest(lit, line).Some? ==> line != [] && line[0] == lit[0]
    ensures MatchHeader(line).Some? ==> line != [] && line[0] == '@'
  {
  }

  lemma LongMark(mark: string, long: string, line: string, text: string)
    requires |mark| == 1 && MatchRest(mark, line) == Some(text)
    ensures MatchRest(mark + long, line).Some? <==> long <= text
  {
    var body := Chomp(line);
    assert body == mark + text && (mark + long)[1..] == long && body[1..] == text;
    if long <= text {
      assert body == mark + (long + text[|long|..]) == mark + long + text[|long|..];
    }
  }

  /** What each line is read as, for all lines. */
  lemma ClassifyExact(line: string, text: string, ns: Numbers)
    ensures Classify(line) == SrcFile(text) <==> Reads(line, "--- " + text)
    ensures Classify(line) == DstFile(text) <==> Reads(line, "+++ " + text)
    ensures Classify(line) == ChunkStart(ns) <==> IsHeader(line, ns)
    ensures Classify(line) == Body(Line(Src, text)) <==> Reads(line, "-" + text) && !("-- " <= text)
    ensures Classify(line) == Body(Line(Dst, text)) <==> Reads(line, "+" + text) && !("++ " <= text)
    ensures Classify(line) == Body(Line(Both, text)) <==> Reads(line, " " + text)
  {
    hide MatchHeader, MatchRest, IsHeader, Reads;
    MatchRestExact("--- ", line, text);
    MatchRestExact("+++ ", line, text);
    MatchRestExact("-", line, text);
    MatchRestExact("+", line, text);
    MatchRestExact(" ", line, text);
    HeaderExact(line, ns);
    FirstChar("--- ", line);
    FirstChar("+++ ", line);
    FirstChar("-", line);
    FirstChar("+", line);
    FirstChar(" ", line);
    assert "--- " == "-" + "-- " && "+++ " == "+" + "++ ";
    if MatchRest("-", line) == Some(text) { LongMark("-", "-- ", line, text); }
    if MatchRest("+", line) == Some(text) { LongMark("+", "++ ", line, text); }
  }

  // ---------------------------------------------------------------- without the final newline

  lemma ReadsAlike(line: string, text: string)
    requires OneLine(line)
    ensures Reads(line + "\n", text) <==> Reads(line, text)
  {
    Chomped(line, text);
    Chomped(line + "\n", text);
    assert Chomp(line) == line && Chomp(line + "\n") == line;
  }

  lemma HeaderTail(a: string, b: string, c: string, d: string, tail: string)
    ensures HeaderLine(a, b, c, d, tail) == HeaderLine(a, b, c, d, "") + tail
    ensures HeaderLine(a, b, c, d, "")[|HeaderLine(a, b, c, d, "")| - 1] == '@'
  {
  }

  lemma HeadersAlike(line: string, ns: Numbers)
    requires OneLine(line)
    ensures IsHeader(line + "\n", ns) <==> IsHeader(line, ns)
  {
    hide HeaderLine, Numeral;
    if a, b, c, d, tail :|
      && line == HeaderLine(a, b, c, d, tail)
      && Numeral(a, ns.srcPos) && Numeral(b, ns.srcLen) && Numeral(c, ns.dstPos) && Numeral(d, ns.dstLen)
    {
      HeaderTail(a, b, c, d, tail);
      HeaderTail(a, b, c, d, tail + "\n");
      assert line + "\n" == HeaderLine(a, b, c, d, tail + "\n");
    }
    if a, b, c, d, tail :|
      && line + "\n" == HeaderLine(a, b, c, d, tail)
      && Numeral(a, ns.srcPos) && Numeral(b, ns.srcLen) && Numeral(c, ns.dstPos) && Numeral(d, ns.dstLen)
    {
      HeaderTail(a, b, c, d, tail);
      var whole, n := line + "\n", |tail| - 1;
      assert whole[|whole| - 1] == '\n';
      assert tail != [] && tail[n] == '\n' && tail == tail[..n] + "\n";
      HeaderTail(a, b, c, d, tail[..n]);
      assert line == whole[..|whole| - 1] == HeaderLine(a, b, c, d, "") + tail[..n];
    }
  }

  lemma ItemAlike(line: string, item: Item)
    requires OneLine(line) && item != Unknown && (item.Body? ==> item.line.kind != Unset)
    ensures Classify(line + "\n") == item <==> Classify(line) == item
  {
    hide Classify, Reads, IsHeader, OneLine;
    var text := match item case SrcFile(name) => name case DstFile(name) => name case Body(l) => l.text case _ => "";
    var ns := if item.ChunkStart? then item.numbers else Numbers(0, 0, 0, 0);
    ClassifyExact(line, text, ns);
    ClassifyExact(line + "\n", text, ns);
    ReadsAlike(line, "--- " + text);
    ReadsAlike(line, "+++ " + text);
    ReadsAlike(line, "-" + text);
    ReadsAlike(line, "+" + text);
    ReadsAlike(line, " " + text);
    HeadersAlike(line, ns);
  }

  /** A line is read alike with and without its newline. */
  lemma ClassifyAlike(line: string)
    requires OneLine(line)
    ensures Classify(line + "\n") == Classify(line)
  {
    hide Classify, OneLine;
    if Classify(line) != Unknown {
      ItemAlike(line, Classify(line));
    } else if Classify(line + "\n") != Unknown {
      ItemAlike(line, Classify(line + "\n"));
    }
  }

  lemma {:induction false} ParseAlikeFrom(st: ParseState, before: seq<string>, line: string, after: seq<string>)
    requires StateOk(st) && OneLine(line)
    ensures ParseFrom(st, before + ([line + "\n"] + after)) == ParseFrom(st, before + ([line] + after))
    decreases |before|
  {
    hide Classify, OneLine;
    if before == [] {
      ClassifyAlike(line);
      ParseOn(st, line + "\n", after);
      ParseOn(st, line, after);
      assert [] + ([line + "\n"] + after) == [line + "\n"] + after && [] + ([line] + after) == [line] + after;
    } else {
      var x, rest := before[0], before[1..];
      assert before + ([line + "\n"] + after) == [x] + (rest + ([line + "\n"] + after));
      assert before + ([line] + after) == [x] + (rest + ([line] + after));
      ParseOn(st, x, rest + ([line + "\n"] + after));
      ParseOn(st, x, rest + ([line] + after));
      if Step(st, x).Ok? {
        ParseAlikeFrom(Step(st, x).value, rest, line, after);
      }
    }
  }

  /** In particular a last line may lack its newline. */
  lemma ParseAlike(before: seq<string>, line: string, after: seq<string>)
    requires OneLine(line)
    ensures Parse(before + ([line + "\n"] + after)) == Parse(before + ([line] + after))
  {
    hide ParseFrom;
    ParseAlikeFrom(START, before, line, after);
  }

  // ---------------------------------------------------------------- the header that is written

  /** The first line written for a chunk: its positions, and how many of the lines written after it
      belong to either side, in decimal. */
  lemma HeaderWritten(c: Chunk) returns (a: string, b: string, x: string, y: string)
    requires LinesSet(c.lines)
    ensures WriteChunk(c)[0] == "@@ -" + a + "," + b + " +" + x + "," + y + " @@\n"
    ensures Decimal(a, c.srcPos) && Decimal(b, |Marked(WriteChunk(c)[1..], '-')|)
    ensures Decimal(x, c.dstPos) && Decimal(y, |Marked(WriteChunk(c)[1..], '+')|)
    ensures MatchHeader(WriteChunk(c)[0])
      == Some(Numbers(c.srcPos, |Marked(WriteChunk(c)[1..], '-')|, c.dstPos, |Marked(WriteChunk(c)[1..], '+')|))
  {
    hide SrcLines, DstLines, Marked, Digits, Decimal, MatchHeader;
    assert WriteChunk(c)[1..] == WriteLines(c.lines);
    MarkedCounts(c.lines);
    var m, n := |SrcLines(c.lines)|, |DstLines(c.lines)|;
    a, b, x, y := Digits(c.srcPos), Digits(m), Digits(c.dstPos), Digits(n);
    DigitsDecimal(c.srcPos);
    DigitsDecimal(m);
    DigitsDecimal(c.dstPos);
    DigitsDecimal(n);
    HeaderRead(c.srcPos, m, c.dstPos, n);
  }
}
