/** The text form of unified diffs in `check-style.py`: what is written for a patch set, and
    what `parse_patchset` makes of a list of lines. */
module PatchFormat {

  datatype Option<+T> = None | Some(value: T) {
    predicate IsFailure() { None? }
    function PropagateFailure<U>(): Option<U> requires None? { None }
    function Extract(): T requires Some? { value }
  }

  datatype Kind = Unset | Src | Dst | Both

  datatype Line = Line(kind: Kind, text: string) {
    predicate IsSrc() { kind == Src || kind == Both }
    predicate IsDst() { kind == Dst || kind == Both }
  }

  datatype Chunk = Chunk(srcPos: nat, dstPos: nat, lines: seq<Line>)
  datatype Patch = Patch(src: string, dst: string, chunks: seq<Chunk>)

  // ---------------------------------------------------------------- writing

  function Digits(n: nat): (s: string)
    ensures s != [] && AllDigits(s)
  {
    if n < 10 then [(n + '0' as int) as char] else Digits(n / 10) + [(n % 10 + '0' as int) as char]
  }

  function SrcLines(lines: seq<Line>): seq<Line> {
    if lines == [] then []
    else SrcLines(lines[..|lines| - 1]) + if lines[|lines| - 1].IsSrc() then [lines[|lines| - 1]] else []
  }

  function DstLines(lines: seq<Line>): seq<Line> {
    if lines == [] then []
    else DstLines(lines[..|lines| - 1]) + if lines[|lines| - 1].IsDst() then [lines[|lines| - 1]] else []
  }

  function Header(srcPos: nat, srcLen: nat, dstPos: nat, dstLen: nat): string {
    "@@ -" + (Digits(srcPos) + ("," + (Digits(srcLen) + (" +" + (Digits(dstPos) + (","
    + (Digits(dstLen) + (" @@" + "\n"))))))))
  }

  function Mark(kind: Kind): char
    requires kind != Unset
  {
    match kind case Src => '-' case Dst => '+' case Both => ' '
  }

  function WriteLine(l: Line): string
    requires l.kind != Unset
  {
    [Mark(l.kind)] + l.text + "\n"
  }

  predicate LinesSet(ls: seq<Line>) {
    forall i :: 0 <= i < |ls| ==> ls[i].kind != Unset
  }

  function WriteLines(ls: seq<Line>): seq<string>
    requires LinesSet(ls)
  {
    seq(|ls|, i requires 0 <= i < |ls| => WriteLine(ls[i]))
  }

  function HeaderOf(c: Chunk): string {
    Header(c.srcPos, |SrcLines(c.lines)|, c.dstPos, |DstLines(c.lines)|)
  }

  function WriteChunk(c: Chunk): seq<string>
    requires LinesSet(c.lines)
  {
    [HeaderOf(c)] + WriteLines(c.lines)
  }

  predicate ChunksSet(cs: seq<Chunk>) {
    forall i :: 0 <= i < |cs| ==> LinesSet(cs[i].lines)
  }

  function WriteChunks(cs: seq<Chunk>): seq<string>
    requires ChunksSet(cs)
  {
    if cs == [] then [] else WriteChunk(cs[0]) + WriteChunks(cs[1..])
  }

  function WritePatch(p: Patch): seq<string>
    requires ChunksSet(p.chunks)
  {
    ["--- " + p.src + "\n", "+++ " + p.dst + "\n"] + WriteChunks(p.chunks)
  }

  predicate PatchesSet(ps: seq<Patch>) {
    forall i :: 0 <= i < |ps| ==> ChunksSet(ps[i].chunks)
  }

  function WriteAll(ps: seq<Patch>): seq<string>
    requires PatchesSet(ps)
  {
    if ps == [] then [] else WritePatch(ps[0]) + WriteAll(ps[1..])
  }

  predicate HasMark(line: string, mark: char) {
    line != [] && (line[0] == mark || line[0] == ' ')
  }

  /** The written lines of one side: those that begin with its mark or a space. */
  function Marked(lines: seq<string>, mark: char): set<nat> {
    set i: nat | i < |lines| && HasMark(lines[i], mark)
  }

  lemma MarkedIn(lines: seq<string>, line: string, mark: char, i: nat)
    ensures i in Marked(lines + [line], mark) <==>
      i in Marked(lines, mark) || (i == |lines| && HasMark(line, mark))
  {
    hide HasMark;
    assert i < |lines| ==> (lines + [line])[i] == lines[i];
  }

  lemma MarkedPush(lines: seq<string>, line: string, mark: char)
    ensures |Marked(lines + [line], mark)| == |Marked(lines, mark)| + if HasMark(line, mark) then 1 else 0
  {
    hide Marked, HasMark;
    forall i: nat { MarkedIn(lines, line, mark, i); }
    assert |lines| !in Marked(lines, mark) by { NotMarked(lines, mark); }
    assert Marked(lines + [line], mark) ==
      if HasMark(line, mark) then Marked(lines, mark) + {|lines|} else Marked(lines, mark);
  }

  lemma NotMarked(lines: seq<string>, mark: char)
    ensures |lines| !in Marked(lines, mark)
  {
  }

  lemma NothingMarked()
    ensures WriteLines([]) == [] && |Marked([], '-')| == 0 && |Marked([], '+')| == 0
  {
    assert Marked([], '-') == {} && Marked([], '+') == {};
  }

  /** The lines of either side are told by their marks. */
  lemma {:induction false} MarkedCounts(ls: seq<Line>)
    requires LinesSet(ls)
    ensures |Marked(WriteLines(ls), '-')| == |SrcLines(ls)| && |Marked(WriteLines(ls), '+')| == |DstLines(ls)|
  {
    hide Marked;
    if ls == [] {
      NothingMarked();
    } else {
      var front, last := ls[..|ls| - 1], ls[|ls| - 1];
      MarkedCounts(front);
      MarkedPush(WriteLines(front), WriteLine(last), '-');
      MarkedPush(WriteLines(front), WriteLine(last), '+');
      assert WriteLines(ls) == WriteLines(front) + [WriteLine(last)];
    }
  }

  // ---------------------------------------------------------------- reading a line

  function Chomp(line: string): string {
    if line != [] && line[|line| - 1] == '\n' then line[..|line| - 1] else line
  }

  predicate OneLine(s: string) {
    '\n' !in s
  }

  /** The regular expression ^lit(.*)$, whose group is the rest of the line. */
  function MatchRest(lit: string, line: string): Option<string> {
    var body := Chomp(line);
    if lit <= body && OneLine(body) then Some(body[|lit|..]) else None
  }

  function Expect(lit: string, s: string): Option<string> {
    if lit <= s then Some(s[|lit|..]) else None
  }

  predicate AllDigits(s: string) {
    forall i :: 0 <= i < |s| ==> '0' <= s[i] <= '9'
  }

  function ToNat(s: string): nat
    requires AllDigits(s)
  {
    if s == [] then 0 else 10 * ToNat(s[..|s| - 1]) + (s[|s| - 1] as int - '0' as int)
  }

  function DigitRun(s: string): (n: nat)
    ensures n <= |s| && forall i :: 0 <= i < n ==> '0' <= s[i] <= '9'
    ensures n < |s| ==> !('0' <= s[n] <= '9')
  {
    if s != [] && '0' <= s[0] <= '9' then 1 + DigitRun(s[1..]) else 0
  }

  /** [0-9]+ */
  function Number(s: string): Option<(nat, string)> {
    var n := DigitRun(s);
    if n == 0 then None else Some((ToNat(s[..n]), s[n..]))
  }

  datatype Numbers = Numbers(srcPos: nat, srcLen: nat, dstPos: nat, dstLen: nat)

  /** The regular expression for a chunk's first line; it is not anchored at the end. */
  function MatchHeader(line: string): Option<Numbers> {
    var s :- Expect("@@ -", line);
    var (a, s) :- Number(s);
    var s :- Expect(",", s);
    var (b, s) :- Number(s);
    var s :- Expect(" +", s);
    var (c, s) :- Number(s);
    var s :- Expect(",", s);
    var (d, s) :- Number(s);
    var s :- Expect(" @@", s);
    Some(Numbers(a, b, c, d))
  }

  datatype Item =
    | SrcFile(name: string)
    | DstFile(name: string)
    | ChunkStart(numbers: Numbers)
    | Body(line: Line)
    | Unknown

  /** The expressions are tried in this order. */
  function Classify(line: string): (item: Item)
    ensures item.Body? ==> item.line.kind != Unset
  {
    if MatchRest("--- ", line).Some? then SrcFile(MatchRest("--- ", line).value)
    else if MatchRest("+++ ", line).Some? then DstFile(MatchRest("+++ ", line).value)
    else if MatchHeader(line).Some? then ChunkStart(MatchHeader(line).value)
    else if MatchRest("-", line).Some? then Body(Line(Src, MatchRest("-", line).value))
    else if MatchRest("+", line).Some? then Body(Line(Dst, MatchRest("+", line).value))
    else if MatchRest(" ", line).Some? then Body(Line(Both, MatchRest(" ", line).value))
    else Unknown
  }

  // ---------------------------------------------------------------- parse_patchset

  datatype ParseError = AttributeError | UnboundLocalError | UnknownLine

  datatype Result<+T> = Ok(value: T) | Err(error: ParseError)

  /** The patches so far. The current patch is the last one; the current chunk is the last
      chunk of patch `current`, which need not be the current patch. */
  datatype ParseState = ParseState(patches: seq<Patch>, current: Option<nat>)

  predicate StateOk(st: ParseState) {
    st.current.Some? ==> st.current.value < |st.patches| && st.patches[st.current.value].chunks != []
  }

  const START := ParseState([], None)

  function AddLine(p: Patch, l: Line): Patch
    requires p.chunks != []
  {
    var n := |p.chunks| - 1;
    p.(chunks := p.chunks[n := p.chunks[n].(lines := p.chunks[n].lines + [l])])
  }

  function Step(st: ParseState, line: string): (r: Result<ParseState>)
    requires StateOk(st)
    ensures r.Ok? ==> StateOk(r.value)
  {
    var n := |st.patches| - 1;
    match Classify(line)
    case SrcFile(name) => Ok(st.(patches := st.patches + [Patch(name, "", [])]))
    case DstFile(name) =>
      if st.patches == [] then Err(AttributeError)
      else Ok(st.(patches := st.patches[n := st.patches[n].(dst := name)]))
    case ChunkStart(ns) =>
      if st.patches == [] then Err(AttributeError)
      else
        var p := st.patches[n];
        Ok(ParseState(st.patches[n := p.(chunks := p.chunks + [Chunk(ns.srcPos, ns.dstPos, [])])], Some(n)))
    case Body(l) =>
      if st.current.None? then Err(UnboundLocalError)
      else Ok(st.(patches := st.patches[st.current.value := AddLine(st.patches[st.current.value], l)]))
    case Unknown => Err(UnknownLine)
  }

  function ParseFrom(st: ParseState, lines: seq<string>): (r: Result<ParseState>)
    requires StateOk(st)
    ensures r.Ok? ==> StateOk(r.value)
    decreases |lines|
  {
    if lines == [] then Ok(st)
    else
      var r := Step(st, lines[0]);
      if r.Ok? then ParseFrom(r.value, lines[1..]) else r
  }

  function Parse(lines: seq<string>): Result<seq<Patch>> {
    match ParseFrom(START, lines)
    case Ok(st) => Ok(st.patches)
    case Err(e) => Err(e)
  }

  // ---------------------------------------------------------------- which texts are accepted?

  ghost predicate Earlier(lines: seq<string>, i: nat, header: bool) {
    exists j :: 0 <= j < i && j < |lines|
                && if header then Classify(lines[j]).SrcFile? else Classify(lines[j]).ChunkStart?
  }

  /** A line of a known form, after the lines it presupposes: a source file name before the
      destination file name and the chunks, a chunk header before the lines of chunks. */
  ghost predicate Acceptable(lines: seq<string>, i: nat, named: bool, chunked: bool)
    requires i < |lines|
  {
    match Classify(lines[i])
    case SrcFile(_) => true
    case DstFile(_) => named || Earlier(lines, i, true)
    case ChunkStart(_) => named || Earlier(lines, i, true)
    case Body(_) => chunked || Earlier(lines, i, false)
    case Unknown => false
  }

  ghost predicate AllAcceptable(lines: seq<string>, named: bool, chunked: bool) {
    forall i :: 0 <= i < |lines| ==> Acceptable(lines, i, named, chunked)
  }

  lemma {:induction false} AcceptedFrom(st: ParseState, lines: seq<string>)
    requires StateOk(st)
    ensures ParseFrom(st, lines).Ok? <==> AllAcceptable(lines, st.patches != [], st.current.Some?)
    decreases |lines|
  {
    hide AllAcceptable, Acceptable, Step;
    if lines != [] {
      var named, chunked := st.patches != [], st.current.Some?;
      StepAccepted(st, lines);
      AcceptableSplit(lines, named, chunked);
      if Step(st, lines[0]).Ok? {
        AcceptedFrom(Step(st, lines[0]).value, lines[1..]);
      }
    } else {
      NothingToAccept(st.patches != [], st.current.Some?);
    }
  }

  lemma NothingToAccept(named: bool, chunked: bool)
    ensures AllAcceptable([], named, chunked)
  {
  }

  lemma StepAccepted(st: ParseState, lines: seq<string>)
    requires StateOk(st) && lines != []
    ensures Step(st, lines[0]).Ok? <==> Acceptable(lines, 0, st.patches != [], st.current.Some?)
    ensures Step(st, lines[0]).Ok? ==>
      (Step(st, lines[0]).value.patches != [] <==> st.patches != [] || Classify(lines[0]).SrcFile?)
    ensures Step(st, lines[0]).Ok? ==>
      (Step(st, lines[0]).value.current.Some? <==> st.current.Some? || Classify(lines[0]).ChunkStart?)
  {
  }

  /** Accepting a text is accepting its first line, and the others after it. */
  lemma AcceptableSplit(lines: seq<string>, named: bool, chunked: bool)
    requires lines != []
    ensures AllAcceptable(lines, named, chunked) <==>
      Acceptable(lines, 0, named, chunked)
      && AllAcceptable(lines[1..], named || Classify(lines[0]).SrcFile?, chunked || Classify(lines[0]).ChunkStart?)
  {
    hide Acceptable, Classify;
    var named', chunked' := named || Classify(lines[0]).SrcFile?, chunked || Classify(lines[0]).ChunkStart?;
    forall i | 0 <= i < |lines| - 1
      ensures Acceptable(lines[1..], i, named', chunked') <==> Acceptable(lines, i + 1, named, chunked)
    {
      AcceptableShift(lines, i, named, chunked);
    }
    if Acceptable(lines, 0, named, chunked) && AllAcceptable(lines[1..], named', chunked') {
      forall i | 0 <= i < |lines| ensures Acceptable(lines, i, named, chunked) {
        if i > 0 { assert Acceptable(lines[1..], i - 1, named', chunked'); }
      }
    }
    if AllAcceptable(lines, named, chunked) {
      forall i | 0 <= i < |lines| - 1 ensures Acceptable(lines[1..], i, named', chunked') {
        assert Acceptable(lines, i + 1, named, chunked);
      }
    }
  }

  lemma AcceptableShift(lines: seq<string>, i: nat, named: bool, chunked: bool)
    requires i + 1 < |lines|
    ensures Acceptable(lines[1..], i, named || Classify(lines[0]).SrcFile?, chunked || Classify(lines[0]).ChunkStart?)
      <==> Acceptable(lines, i + 1, named, chunked)
  {
    hide Classify, Earlier;
    assert lines[1..][i] == lines[i + 1];
    EarlierShift(lines, i, true);
    EarlierShift(lines, i, false);
  }

  lemma EarlierShift(lines: seq<string>, i: nat, header: bool)
    requires lines != []
    ensures Earlier(lines, i + 1, header) <==>
      Earlier(lines[1..], i, header) || (if header then Classify(lines[0]).SrcFile? else Classify(lines[0]).ChunkStart?)
  {
  }

  /** Parsing succeeds exactly on lines of known form in an acceptable order. */
  lemma Accepted(lines: seq<string>)
    ensures Parse(lines).Ok? <==> AllAcceptable(lines, false, false)
  {
    hide AllAcceptable;
    AcceptedFrom(START, lines);
  }

  // ---------------------------------------------------------------- when is a patch set read back?

  /** The marked line is read as a line of the same kind, not as the name of a file. */
  predicate LineFaithful(l: Line) {
    && OneLine(l.text)
    && (l.kind == Src ==> !("-- " <= l.text))
    && (l.kind == Dst ==> !("++ " <= l.text))
  }

  predicate LinesFaithful(ls: seq<Line>) {
    forall i :: 0 <= i < |ls| ==> LineFaithful(ls[i])
  }

  predicate ChunksFaithful(cs: seq<Chunk>) {
    forall i :: 0 <= i < |cs| ==> LinesFaithful(cs[i].lines)
  }

  predicate PatchFaithful(p: Patch) {
    OneLine(p.src) && OneLine(p.dst) && ChunksFaithful(p.chunks)
  }

  predicate Faithful(ps: seq<Patch>) {
    forall i :: 0 <= i < |ps| ==> PatchFaithful(ps[i])
  }

  // ---- numbers and chunk headers

  lemma {:induction false} DigitsBack(n: nat)
    ensures ToNat(Digits(n)) == n
  {
    if n >= 10 {
      DigitsBack(n / 10);
      assert Digits(n)[..|Digits(n)| - 1] == Digits(n / 10);
    } else {
      assert Digits(n)[..0] == [];
    }
  }

  lemma {:induction false} RunOfDigits(ds: string, rest: string)
    requires AllDigits(ds) && (rest == [] || !('0' <= rest[0] <= '9'))
    ensures DigitRun(ds + rest) == |ds|
  {
    if ds == [] {
      assert ds + rest == rest;
    } else {
      RunOfDigits(ds[1..], rest);
      assert (ds + rest)[1..] == ds[1..] + rest;
    }
  }

  lemma NumberRead(n: nat, rest: string)
    requires rest == [] || !('0' <= rest[0] <= '9')
    ensures Number(Digits(n) + rest) == Some((n, rest))
  {
    RunOfDigits(Digits(n), rest);
    DigitsBack(n);
    assert (Digits(n) + rest)[..|Digits(n)|] == Digits(n);
    assert (Digits(n) + rest)[|Digits(n)|..] == rest;
  }

  lemma Expected(lit: string, rest: string)
    ensures Expect(lit, lit + rest) == Some(rest)
  {
  }

  lemma HeaderRead(a: nat, b: nat, c: nat, d: nat)
    ensures MatchHeader(Header(a, b, c, d)) == Some(Numbers(a, b, c, d))
  {
    hide Expect, Number, Digits;
    var s8 := " @@" + "\n";
    var s7 := Digits(d) + s8;
    var s6 := "," + s7;
    var s5 := Digits(c) + s6;
    var s4 := " +" + s5;
    var s3 := Digits(b) + s4;
    var s2 := "," + s3;
    var s1 := Digits(a) + s2;
    Expected("@@ -", s1);
    NumberRead(a, s2);
    Expected(",", s3);
    NumberRead(b, s4);
    Expected(" +", s5);
    NumberRead(c, s6);
    Expected(",", s7);
    NumberRead(d, s8);
    Expected(" @@", "\n");
  }

  lemma HeaderClassified(a: nat, b: nat, c: nat, d: nat)
    ensures Classify(Header(a, b, c, d)) == ChunkStart(Numbers(a, b, c, d))
  {
    HeaderRead(a, b, c, d);
    hide MatchHeader;
    var h := Header(a, b, c, d);
    assert h[0] == '@';
    NoRest("--- ", h);
    NoRest("+++ ", h);
  }

  lemma NoRest(lit: string, line: string)
    requires lit != [] && line != [] && line[0] != lit[0]
    ensures MatchRest(lit, line).None?
  {
  }

  lemma RestRead(lit: string, text: string)
    requires OneLine(lit)
    ensures MatchRest(lit, lit + text + "\n") == if OneLine(text) then Some(text) else None
  {
    var line := lit + text + "\n";
    assert Chomp(line) == lit + text;
    assert (lit + text)[|lit|..] == text;
    if !OneLine(text) {
      var i :| 0 <= i < |text| && text[i] == '\n';
      assert (lit + text)[|lit| + i] == '\n';
    }
  }

  lemma NoHeader(line: string)
    requires line != [] && line[0] != '@'
    ensures MatchHeader(line).None?
  {
  }

  lemma SrcFileClassified(name: string)
    ensures Classify("--- " + name + "\n") == if OneLine(name) then SrcFile(name) else Unknown
  {
    var line := "--- " + name + "\n";
    RestRead("--- ", name);
    assert line == "-" + ("-- " + name) + "\n";
    if !OneLine(name) { NewlineInside("-- ", name); }
    RestRead("-", "-- " + name);
    NoRest("+++ ", line);
    NoRest("+", line);
    NoRest(" ", line);
    NoHeader(line);
    hide MatchRest, MatchHeader;
  }

  lemma DstFileClassified(name: string)
    ensures Classify("+++ " + name + "\n") == if OneLine(name) then DstFile(name) else Unknown
  {
    var line := "+++ " + name + "\n";
    RestRead("+++ ", name);
    assert line == "+" + ("++ " + name) + "\n";
    if !OneLine(name) { NewlineInside("++ ", name); }
    RestRead("+", "++ " + name);
    NoRest("--- ", line);
    NoRest("-", line);
    NoRest(" ", line);
    NoHeader(line);
    hide MatchRest, MatchHeader;
  }

  lemma NewlineInside(lit: string, s: string)
    requires !OneLine(s)
    ensures !OneLine(lit + s)
  {
  }

  /** A written line is read back as itself exactly when it is faithful; otherwise as no line at all. */
  lemma LineClassified(l: Line)
    requires l.kind != Unset
    ensures Classify(WriteLine(l)).Body? <==> LineFaithful(l)
    ensures LineFaithful(l) ==> Classify(WriteLine(l)) == Body(l)
  {
    var line := WriteLine(l);
    NoHeader(line);
    match l.kind
    case Src =>
      assert line == "-" + l.text + "\n";
      RestRead("-", l.text);
      NoRest("+++ ", line);
      NoRest("+", line);
      NoRest(" ", line);
      LongRest("-", "--- ", "-- ", l.text);
      hide MatchRest, MatchHeader;
    case Dst =>
      assert line == "+" + l.text + "\n";
      RestRead("+", l.text);
      NoRest("--- ", line);
      NoRest("-", line);
      NoRest(" ", line);
      LongRest("+", "+++ ", "++ ", l.text);
      hide MatchRest, MatchHeader;
    case Both =>
      assert line == " " + l.text + "\n";
      RestRead(" ", l.text);
      NoRest("--- ", line);
      NoRest("+++ ", line);
      NoRest("-", line);
      NoRest("+", line);
      hide MatchRest, MatchHeader;
  }

  lemma LongRest(mark: string, long: string, tail: string, text: string)
    requires |mark| == 1 && long == mark + tail
    ensures MatchRest(long, mark + text + "\n").Some? <==> tail <= text && OneLine(mark + text)
  {
    var line := mark + text + "\n";
    assert Chomp(line) == mark + text;
    assert (mark + text)[1..] == text && long[1..] == tail;
    if long <= mark + text {
      assert tail == (mark + text)[1..|long|] == text[..|tail|];
    }
  }

  // ---------------------------------------------------------------- reading back what was written

  /** The state after the patches `pre` and the first chunks of one more patch were read. */
  function Reading(pre: seq<Patch>, p: Patch): (st: ParseState)
    ensures StateOk(st)
  {
    ParseState(pre + [p], if p.chunks != [] then Some(|pre|) else LastChunked(pre))
  }

  /** The patch holding the current chunk: the last one that has any. */
  function LastChunked(ps: seq<Patch>): (r: Option<nat>)
    ensures r.Some? ==> r.value < |ps| && ps[r.value].chunks != []
  {
    if ps == [] then None
    else if ps[|ps| - 1].chunks != [] then Some(|ps| - 1)
    else LastChunked(ps[..|ps| - 1])
  }

  lemma ParseOn(st: ParseState, line: string, rest: seq<string>)
    requires StateOk(st)
    ensures ParseFrom(st, [line] + rest) ==
      if Step(st, line).Ok? then ParseFrom(Step(st, line).value, rest) else Step(st, line)
  {
  }

  lemma {:induction false} LinesBack(pre: seq<Patch>, p: Patch, cs: seq<Chunk>, c: Chunk, todo: seq<Line>,
                                     rest: seq<string>)
    requires LinesSet(todo) && LinesFaithful(todo)
    ensures ParseFrom(Reading(pre, p.(chunks := cs + [c])), WriteLines(todo) + rest)
      == ParseFrom(Reading(pre, p.(chunks := cs + [c.(lines := c.lines + todo)])), rest)
    decreases |todo|
  {
    hide Classify, WriteLine, LineFaithful;
    if todo == [] {
      assert c.lines + todo == c.lines && WriteLines(todo) + rest == rest;
    } else {
      var st, l := Reading(pre, p.(chunks := cs + [c])), todo[0];
      var c' := c.(lines := c.lines + [l]);
      LineClassified(l);
      assert WriteLines(todo) + rest == [WriteLine(l)] + (WriteLines(todo[1..]) + rest);
      ParseOn(st, WriteLine(l), WriteLines(todo[1..]) + rest);
      assert Step(st, WriteLine(l)) == Ok(Reading(pre, p.(chunks := cs + [c']))) by {
        assert (pre + [p.(chunks := cs + [c])])[|pre| := p.(chunks := cs + [c'])] == pre + [p.(chunks := cs + [c'])];
        assert (cs + [c])[|cs| := c'] == cs + [c'];
      }
      LinesBack(pre, p, cs, c', todo[1..], rest);
      assert c'.lines + todo[1..] == c.lines + todo;
    }
  }

  lemma HeaderBack(pre: seq<Patch>, p: Patch, done: seq<Chunk>, c: Chunk)
    ensures Step(Reading(pre, p.(chunks := done)), HeaderOf(c))
      == Ok(Reading(pre, p.(chunks := done + [Chunk(c.srcPos, c.dstPos, [])])))
  {
    hide Classify, Header;
    HeaderClassified(c.srcPos, |SrcLines(c.lines)|, c.dstPos, |DstLines(c.lines)|);
    var c0 := Chunk(c.srcPos, c.dstPos, []);
    assert (pre + [p.(chunks := done)])[|pre| := p.(chunks := done + [c0])] == pre + [p.(chunks := done + [c0])];
  }

  lemma ChunkBack(pre: seq<Patch>, p: Patch, done: seq<Chunk>, c: Chunk, rest: seq<string>)
    requires LinesSet(c.lines) && LinesFaithful(c.lines)
    ensures ParseFrom(Reading(pre, p.(chunks := done)), WriteChunk(c) + rest)
      == ParseFrom(Reading(pre, p.(chunks := done + [c])), rest)
  {
    hide Step, HeaderOf, Reading, WriteLines, LinesFaithful, LinesSet, ParseFrom;
    HeaderBack(pre, p, done, c);
    assert WriteChunk(c) + rest == [HeaderOf(c)] + (WriteLines(c.lines) + rest);
    ParseOn(Reading(pre, p.(chunks := done)), HeaderOf(c), WriteLines(c.lines) + rest);
    LinesBack(pre, p, done, Chunk(c.srcPos, c.dstPos, []), c.lines, rest);
    assert [] + c.lines == c.lines;
  }

  lemma ChunksSplit(cs: seq<Chunk>, rest: seq<string>)
    requires cs != [] && ChunksSet(cs)
    ensures LinesSet(cs[0].lines) && ChunksSet(cs[1..])
    ensures WriteChunks(cs) + rest == WriteChunk(cs[0]) + (WriteChunks(cs[1..]) + rest)
    ensures ChunksFaithful(cs) ==> LinesFaithful(cs[0].lines) && ChunksFaithful(cs[1..])
  {
  }

  lemma {:induction false} ChunksBack(pre: seq<Patch>, p: Patch, done: seq<Chunk>, todo: seq<Chunk>, rest: seq<string>)
    requires ChunksSet(todo) && ChunksFaithful(todo)
    ensures ParseFrom(Reading(pre, p.(chunks := done)), WriteChunks(todo) + rest)
      == ParseFrom(Reading(pre, p.(chunks := done + todo)), rest)
    decreases |todo|
  {
    if todo == [] {
      assert done + todo == done && WriteChunks(todo) + rest == rest;
    } else {
      hide *;
      ChunksSplit(todo, rest);
      ChunkBack(pre, p, done, todo[0], WriteChunks(todo[1..]) + rest);
      ChunksBack(pre, p, done + [todo[0]], todo[1..], rest);
      Regroup(done, todo);
    }
  }

  lemma Regroup<T>(a: seq<T>, b: seq<T>)
    requires b != []
    ensures a + [b[0]] + b[1..] == a + b
  {
  }

  function Read(ps: seq<Patch>): (st: ParseState)
    ensures StateOk(st)
  {
    ParseState(ps, LastChunked(ps))
  }

  lemma FilesBack(pre: seq<Patch>, src: string, dst: string, rest: seq<string>)
    requires OneLine(src) && OneLine(dst)
    ensures ParseFrom(Read(pre), ["--- " + src + "\n", "+++ " + dst + "\n"] + rest)
      == ParseFrom(Reading(pre, Patch(src, dst, [])), rest)
  {
    hide Classify, ParseFrom, OneLine;
    var m, q := "--- " + src + "\n", "+++ " + dst + "\n";
    SrcFileClassified(src);
    DstFileClassified(dst);
    var p0, p1 := Patch(src, "", []), Patch(src, dst, []);
    assert [m, q] + rest == [m] + ([q] + rest);
    ParseOn(Read(pre), m, [q] + rest);
    assert Step(Read(pre), m) == Ok(Reading(pre, p0));
    ParseOn(Reading(pre, p0), q, rest);
    assert (pre + [p0])[|pre| := p1] == pre + [p1];
  }

  lemma PatchesSplit(ps: seq<Patch>)
    requires ps != [] && PatchesSet(ps)
    ensures ChunksSet(ps[0].chunks) && PatchesSet(ps[1..])
    ensures WriteAll(ps) ==
      ["--- " + ps[0].src + "\n", "+++ " + ps[0].dst + "\n"] + (WriteChunks(ps[0].chunks) + WriteAll(ps[1..]))
    ensures Faithful(ps) ==> PatchFaithful(ps[0]) && Faithful(ps[1..])
  {
    hide WriteChunks, PatchFaithful, ChunksSet;
    assert forall i :: 0 <= i < |ps[1..]| ==> ps[1..][i] == ps[i + 1];
  }

  lemma {:induction false} PatchesBack(pre: seq<Patch>, todo: seq<Patch>)
    requires PatchesSet(todo) && Faithful(todo)
    ensures ParseFrom(Read(pre), WriteAll(todo)) == Ok(Read(pre + todo))
    decreases |todo|
  {
    if todo == [] {
      assert pre + todo == pre;
      assert ParseFrom(Read(pre), []) == Ok(Read(pre));
    } else {
      var p, rest := todo[0], WriteAll(todo[1..]);
      PatchesSplit(todo);
      PatchBack(pre, p, rest);
      hide *;
      PatchesBack(pre + [p], todo[1..]);
      Regroup(pre, todo);
    }
  }

  lemma PatchBack(pre: seq<Patch>, p: Patch, rest: seq<string>)
    requires ChunksSet(p.chunks) && PatchFaithful(p)
    ensures ParseFrom(Read(pre), ["--- " + p.src + "\n", "+++ " + p.dst + "\n"] + (WriteChunks(p.chunks) + rest))
      == ParseFrom(Read(pre + [p]), rest)
  {
    hide Reading, Read, WriteChunks, ChunksFaithful, ChunksSet, ParseFrom, OneLine;
    var p1 := Patch(p.src, p.dst, []);
    FilesBack(pre, p.src, p.dst, WriteChunks(p.chunks) + rest);
    ChunksBack(pre, p1, [], p.chunks, rest);
    assert [] + p.chunks == p.chunks && p1.(chunks := p.chunks) == p && p1.(chunks := []) == p1;
    ReadingDone(pre, p);
  }

  lemma ReadingDone(pre: seq<Patch>, p: Patch)
    ensures Reading(pre, p) == Read(pre + [p])
  {
  }

  // ---- the converse: a line read as something else is missing from the result

  ghost function ChunksTotal(cs: seq<Chunk>): nat {
    if cs == [] then 0 else ChunksTotal(cs[..|cs| - 1]) + |cs[|cs| - 1].lines|
  }

  /** The number of lines in a patch set. */
  ghost function Total(ps: seq<Patch>): nat {
    if ps == [] then 0 else Total(ps[..|ps| - 1]) + ChunksTotal(ps[|ps| - 1].chunks)
  }

  ghost function BodyLines(lines: seq<string>): nat {
    if lines == [] then 0 else (if Classify(lines[0]).Body? then 1 else 0) + BodyLines(lines[1..])
  }

  ghost predicate NoUnknown(lines: seq<string>) {
    forall i :: 0 <= i < |lines| ==> !Classify(lines[i]).Unknown?
  }

  lemma {:induction false} TotalUpdate(ps: seq<Patch>, n: nat, p: Patch)
    requires n < |ps|
    ensures Total(ps[n := p]) + ChunksTotal(ps[n].chunks) == Total(ps) + ChunksTotal(p.chunks)
  {
    hide ChunksTotal;
    var k := |ps| - 1;
    if n == k {
      assert ps[n := p][..k] == ps[..k];
    } else {
      TotalUpdate(ps[..k], n, p);
      assert ps[n := p][..k] == ps[..k][n := p];
    }
  }

  lemma AddLineTotal(p: Patch, l: Line)
    requires p.chunks != []
    ensures ChunksTotal(AddLine(p, l).chunks) == ChunksTotal(p.chunks) + 1
  {
  }

  lemma StepTotal(st: ParseState, line: string)
    requires StateOk(st)
    ensures Step(st, line).Ok? ==> !Classify(line).Unknown?
    ensures Step(st, line).Ok? ==>
      Total(Step(st, line).value.patches) == Total(st.patches) + if Classify(line).Body? then 1 else 0
  {
    hide ChunksTotal, Total, AddLine, Classify;
    var n := |st.patches| - 1;
    match Classify(line)
    case SrcFile(name) =>
      PatchAdded(st.patches, Patch(name, "", []));
      NothingTotal();
    case DstFile(name) =>
      if n >= 0 { TotalUpdate(st.patches, n, st.patches[n].(dst := name)); }
    case ChunkStart(ns) =>
      if n >= 0 {
        var c, p := Chunk(ns.srcPos, ns.dstPos, []), st.patches[n];
        TotalUpdate(st.patches, n, p.(chunks := p.chunks + [c]));
        ChunkAdded(p.chunks, c);
      }
    case Body(l) =>
      if st.current.Some? {
        AddLineTotal(st.patches[st.current.value], l);
        TotalUpdate(st.patches, st.current.value, AddLine(st.patches[st.current.value], l));
      }
    case Unknown =>
  }

  lemma PatchAdded(ps: seq<Patch>, p: Patch)
    ensures Total(ps + [p]) == Total(ps) + ChunksTotal(p.chunks)
  {
  }

  lemma ChunkAdded(cs: seq<Chunk>, c: Chunk)
    ensures ChunksTotal(cs + [c]) == ChunksTotal(cs) + |c.lines|
  {
  }

  lemma {:induction false} ParseTotal(st: ParseState, lines: seq<string>)
    requires StateOk(st)
    ensures ParseFrom(st, lines).Ok? ==>
      NoUnknown(lines) && Total(ParseFrom(st, lines).value.patches) == Total(st.patches) + BodyLines(lines)
    decreases |lines|
  {
    hide Total, Classify, Step;
    if lines != [] {
      StepTotal(st, lines[0]);
      if Step(st, lines[0]).Ok? {
        ParseTotal(Step(st, lines[0]).value, lines[1..]);
        if ParseFrom(st, lines).Ok? {
          forall i | 0 <= i < |lines| ensures !Classify(lines[i]).Unknown? {
            if i > 0 { assert lines[1..][i - 1] == lines[i]; }
          }
        }
      }
    }
  }

  lemma {:induction false} BodyLinesConcat(a: seq<string>, b: seq<string>)
    ensures BodyLines(a + b) == BodyLines(a) + BodyLines(b)
  {
    hide Classify;
    if a == [] {
      assert a + b == b;
    } else {
      BodyLinesConcat(a[1..], b);
      assert (a + b)[1..] == a[1..] + b;
    }
  }

  lemma {:induction false} LinesKept(ls: seq<Line>)
    requires LinesSet(ls)
    ensures BodyLines(WriteLines(ls)) <= |ls|
    ensures BodyLines(WriteLines(ls)) == |ls| ==> LinesFaithful(ls)
  {
    hide Classify, WriteLine, LineFaithful;
    if ls != [] {
      LineClassified(ls[0]);
      LinesKept(ls[1..]);
      assert WriteLines(ls)[1..] == WriteLines(ls[1..]);
      assert forall i :: 0 < i < |ls| ==> ls[i] == ls[1..][i - 1];
    }
  }

  lemma {:induction false} ChunksKept(cs: seq<Chunk>)
    requires ChunksSet(cs)
    ensures BodyLines(WriteChunks(cs)) <= ChunksTotal(cs)
    ensures BodyLines(WriteChunks(cs)) == ChunksTotal(cs) ==> ChunksFaithful(cs)
  {
    if cs != [] {
      hide Classify, Header, WriteLines, LinesFaithful, LinesSet;
      var c := cs[0];
      var header := Header(c.srcPos, |SrcLines(c.lines)|, c.dstPos, |DstLines(c.lines)|);
      HeaderClassified(c.srcPos, |SrcLines(c.lines)|, c.dstPos, |DstLines(c.lines)|);
      assert WriteChunk(c)[1..] == WriteLines(c.lines) && WriteChunk(c)[0] == header;
      LinesKept(c.lines);
      ChunksKept(cs[1..]);
      BodyLinesConcat(WriteChunk(c), WriteChunks(cs[1..]));
      ChunksTotalFront(cs);
      assert forall i :: 0 < i < |cs| ==> cs[i] == cs[1..][i - 1];
    }
  }

  lemma {:induction false} ChunksTotalFront(cs: seq<Chunk>)
    requires cs != []
    ensures ChunksTotal(cs) == |cs[0].lines| + ChunksTotal(cs[1..])
  {
    if |cs| > 1 {
      ChunksTotalFront(cs[..|cs| - 1]);
      assert cs[..|cs| - 1][1..] == cs[1..][..|cs| - 2];
    }
  }

  lemma {:induction false} TotalFront(ps: seq<Patch>)
    requires ps != []
    ensures Total(ps) == ChunksTotal(ps[0].chunks) + Total(ps[1..])
  {
    if |ps| > 1 {
      TotalFront(ps[..|ps| - 1]);
      assert ps[..|ps| - 1][1..] == ps[1..][..|ps| - 2];
    }
  }

  lemma {:induction false} PatchesKept(ps: seq<Patch>)
    requires PatchesSet(ps) && NoUnknown(WriteAll(ps))
    ensures BodyLines(WriteAll(ps)) <= Total(ps)
    ensures BodyLines(WriteAll(ps)) == Total(ps) ==> Faithful(ps)
  {
    if ps != [] {
      hide WriteChunks, WritePatch, BodyLines, NoUnknown, ChunksTotal, PatchFaithful, ChunksSet;
      PatchKept(ps);
      PatchesSplit(ps);
      PatchesKept(ps[1..]);
      if BodyLines(WriteAll(ps)) == Total(ps) {
        FaithfulCons(ps);
      }
    }
  }

  lemma FaithfulCons(ps: seq<Patch>)
    requires ps != [] && PatchFaithful(ps[0]) && Faithful(ps[1..])
    ensures Faithful(ps)
  {
  }

  /** The first patch keeps its lines at most, and all of them only if it is faithful. */
  lemma PatchKept(ps: seq<Patch>)
    requires ps != [] && PatchesSet(ps) && NoUnknown(WriteAll(ps))
    ensures NoUnknown(WriteAll(ps[1..]))
    ensures Total(ps) == ChunksTotal(ps[0].chunks) + Total(ps[1..])
    ensures var kept := BodyLines(WriteAll(ps)) - BodyLines(WriteAll(ps[1..]));
      kept <= ChunksTotal(ps[0].chunks) && (kept == ChunksTotal(ps[0].chunks) ==> PatchFaithful(ps[0]))
  {
    PatchesSplit(ps);
    TotalFront(ps);
    var p, body, rest := ps[0], WriteChunks(ps[0].chunks), WriteAll(ps[1..]);
    ChunksKept(p.chunks);
    hide WriteAll, WriteChunks, BodyLines, NoUnknown, ChunksTotal, Total, ChunksFaithful, ChunksSet, PatchesSet;
    FilesKept(p.src, p.dst, body + rest);
    BodyLinesConcat(body, rest);
    NoUnknownTail(body, rest);
  }

  lemma NoUnknownTail(a: seq<string>, b: seq<string>)
    requires NoUnknown(a + b)
    ensures NoUnknown(b)
  {
    hide Classify;
    assert forall i :: 0 <= i < |b| ==> b[i] == (a + b)[|a| + i];
  }

  lemma FilesKept(src: string, dst: string, rest: seq<string>)
    requires NoUnknown(["--- " + src + "\n", "+++ " + dst + "\n"] + rest)
    ensures OneLine(src) && OneLine(dst) && NoUnknown(rest)
    ensures BodyLines(["--- " + src + "\n", "+++ " + dst + "\n"] + rest) == BodyLines(rest)
  {
    hide Classify, OneLine;
    var files := ["--- " + src + "\n", "+++ " + dst + "\n"];
    SrcFileClassified(src);
    DstFileClassified(dst);
    NoUnknownTail(files, rest);
    assert (files + rest)[0] == files[0] && (files + rest)[1] == files[1];
    assert !Classify(files[0]).Unknown? && !Classify(files[1]).Unknown?;
    assert (files + rest)[1..][1..] == rest;
  }

  /** Parsing undoes writing exactly for the faithful patch sets: those without newlines in
      their texts, deleted lines that start with "-- " and added lines that start with "++ ". */
  lemma ReadBack(ps: seq<Patch>)
    requires PatchesSet(ps)
    ensures Parse(WriteAll(ps)) == Ok(ps) <==> Faithful(ps)
  {
    hide Faithful, PatchesSet, WriteAll, ParseFrom, Total, NoUnknown, BodyLines;
    if Faithful(ps) {
      PatchesBack([], ps);
      assert [] + ps == ps && Read([]) == START;
    }
    if Parse(WriteAll(ps)) == Ok(ps) {
      ParseTotal(START, WriteAll(ps));
      NothingTotal();
      PatchesKept(ps);
    }
  }

  lemma NothingTotal()
    ensures Total([]) == 0 && ChunksTotal([]) == 0
  {
  }

  // ---------------------------------------------------------------- writing back what was read

  /** How many lines at the start of `lines` are lines of a chunk. */
  function BodyRun(lines: seq<string>): (n: nat)
    ensures n <= |lines| && forall i :: 0 <= i < n ==> Classify(lines[i]).Body?
  {
    if lines != [] && Classify(lines[0]).Body? then 1 + BodyRun(lines[1..]) else 0
  }

  function BodyOf(lines: seq<string>): seq<Line>
    requires forall i :: 0 <= i < |lines| ==> Classify(lines[i]).Body?
  {
    seq(|lines|, i requires 0 <= i < |lines| && Classify(lines[i]).Body? => Classify(lines[i]).line)
  }

  predicate Terminated(line: string) {
    line != [] && line[|line| - 1] == '\n'
  }

  predicate AllTerminated(lines: seq<string>) {
    forall i :: 0 <= i < |lines| ==> Terminated(lines[i])
  }

  /** Text in the printer's shape: each source file name is followed by a destination file name;
      chunk headers come after them, in the exact form that is written, with the counts of the
      lines that follow; every line ends in a newline. */
  predicate Shaped(lines: seq<string>, inPatch: bool)
    decreases |lines|
  {
    lines == []
    || (&& AllTerminated(lines)
        && match Classify(lines[0])
           case SrcFile(_) => |lines| >= 2 && Classify(lines[1]).DstFile? && Shaped(lines[2..], true)
           case ChunkStart(ns) =>
             var n := BodyRun(lines[1..]);
             var body := lines[1..][..n];
             && inPatch && lines[0] == Header(ns.srcPos, ns.srcLen, ns.dstPos, ns.dstLen)
             && ns.srcLen == |Marked(body, '-')| && ns.dstLen == |Marked(body, '+')|
             && Shaped(lines[1 + n..], inPatch)
           case _ => false)
  }

  lemma RestBack(lit: string, line: string)
    requires Terminated(line) && MatchRest(lit, line).Some?
    ensures line == lit + MatchRest(lit, line).value + "\n"
  {
  }

  /** What a terminated line is read as tells what it is. */
  lemma ItemBack(line: string)
    requires Terminated(line)
    ensures Classify(line).SrcFile? ==> line == "--- " + Classify(line).name + "\n"
    ensures Classify(line).DstFile? ==> line == "+++ " + Classify(line).name + "\n"
    ensures Classify(line).Body? ==> Classify(line).line.kind != Unset && line == WriteLine(Classify(line).line)
  {
    hide MatchHeader;
    if MatchRest("--- ", line).Some? { RestBack("--- ", line); }
    if MatchRest("+++ ", line).Some? { RestBack("+++ ", line); }
    if MatchRest("-", line).Some? { RestBack("-", line); }
    if MatchRest("+", line).Some? { RestBack("+", line); }
    if MatchRest(" ", line).Some? { RestBack(" ", line); }
    hide MatchRest;
  }

  lemma BodyBack(lines: seq<string>)
    requires AllTerminated(lines) && forall i :: 0 <= i < |lines| ==> Classify(lines[i]).Body?
    ensures LinesSet(BodyOf(lines)) && WriteLines(BodyOf(lines)) == lines && LinesFaithful(BodyOf(lines))
  {
    hide Classify, WriteLine, LineFaithful;
    var ls := BodyOf(lines);
    forall i | 0 <= i < |lines| ensures WriteLine(ls[i]) == lines[i] && LineFaithful(ls[i]) {
      ItemBack(lines[i]);
      LineClassified(ls[i]);
    }
  }

  lemma FileBack(line: string)
    requires Terminated(line)
    ensures Classify(line).SrcFile? ==> OneLine(Classify(line).name)
    ensures Classify(line).DstFile? ==> OneLine(Classify(line).name)
  {
  }

  /** Shaped lines are the written form of some chunks followed by some patches. */
  lemma {:induction false} ShapedIsWritten(lines: seq<string>, inPatch: bool) returns (cs: seq<Chunk>, ps: seq<Patch>)
    requires Shaped(lines, inPatch)
    ensures ChunksSet(cs) && PatchesSet(ps) && lines == WriteChunks(cs) + WriteAll(ps)
    ensures ChunksFaithful(cs) && Faithful(ps) && (!inPatch ==> cs == [])
    decreases |lines|
  {
    if lines == [] {
      cs, ps := [], [];
    } else {
      assert Terminated(lines[0]);
      if Classify(lines[0]).SrcFile? {
        cs, ps := ShapedPatch(lines, inPatch);
      } else {
        cs, ps := ShapedChunk(lines);
      }
    }
  }

  lemma {:induction false} ShapedPatch(lines: seq<string>, inPatch: bool) returns (cs: seq<Chunk>, ps: seq<Patch>)
    requires Shaped(lines, inPatch) && lines != [] && Classify(lines[0]).SrcFile?
    ensures PatchesSet(ps) && cs == [] && lines == WriteChunks(cs) + WriteAll(ps) && Faithful(ps)
    decreases |lines|, 0
  {
    hide Classify, OneLine;
    var cs', ps' := ShapedIsWritten(lines[2..], true);
    assert Terminated(lines[0]) && Terminated(lines[1]);
    ItemBack(lines[0]);
    ItemBack(lines[1]);
    FileBack(lines[0]);
    FileBack(lines[1]);
    var p := Patch(Classify(lines[0]).name, Classify(lines[1]).name, cs');
    cs, ps := [], [p] + ps';
    hide Shaped, WriteChunks, WriteAll, ChunksFaithful, ChunksSet;
    PatchCons(p, ps');
    assert lines == [lines[0], lines[1]] + lines[2..];
    assert WriteChunks([]) == [] by { NoChunks(); }
  }

  lemma NoChunks()
    ensures WriteChunks([]) == []
  {
  }

  lemma PatchCons(p: Patch, ps: seq<Patch>)
    requires ChunksSet(p.chunks) && PatchesSet(ps)
    ensures PatchesSet([p] + ps)
    ensures WriteAll([p] + ps)
      == ["--- " + p.src + "\n", "+++ " + p.dst + "\n"] + (WriteChunks(p.chunks) + WriteAll(ps))
    ensures PatchFaithful(p) && Faithful(ps) ==> Faithful([p] + ps)
  {
    hide WriteChunks, PatchFaithful, ChunksSet;
    assert ([p] + ps)[1..] == ps;
  }

  lemma ChunkCons(c: Chunk, cs: seq<Chunk>, rest: seq<string>)
    requires LinesSet(c.lines) && ChunksSet(cs)
    ensures ChunksSet([c] + cs)
    ensures WriteChunks([c] + cs) + rest == [HeaderOf(c)] + (WriteLines(c.lines) + (WriteChunks(cs) + rest))
    ensures LinesFaithful(c.lines) && ChunksFaithful(cs) ==> ChunksFaithful([c] + cs)
  {
  }

  lemma {:induction false} ShapedChunk(lines: seq<string>) returns (cs: seq<Chunk>, ps: seq<Patch>)
    requires Shaped(lines, true) && lines != [] && Classify(lines[0]).ChunkStart?
    ensures ChunksSet(cs) && PatchesSet(ps) && lines == WriteChunks(cs) + WriteAll(ps)
    ensures ChunksFaithful(cs) && Faithful(ps)
    decreases |lines|, 0
  {
    var c, n := FirstChunk(lines);
    hide *;
    var cs', ps' := ShapedIsWritten(lines[1 + n..], true);
    cs, ps := [c] + cs', ps';
    ChunkCons(c, cs', WriteAll(ps'));
  }

  /** A shaped chunk header and the lines of its chunk are the written form of the chunk. */
  lemma FirstChunk(lines: seq<string>) returns (c: Chunk, n: nat)
    requires Shaped(lines, true) && lines != [] && Classify(lines[0]).ChunkStart?
    ensures n < |lines| && Shaped(lines[1 + n..], true) && LinesSet(c.lines) && LinesFaithful(c.lines)
    ensures forall rest :: lines[1 + n..] == rest ==> lines == [HeaderOf(c)] + (WriteLines(c.lines) + rest)
  {
    hide Classify, Header, Marked, SrcLines, DstLines;
    var ns := Classify(lines[0]).numbers;
    n := BodyRun(lines[1..]);
    var body := lines[1..][..n];
    forall i | 0 <= i < |body| ensures Terminated(body[i]) { assert body[i] == lines[i + 1]; }
    c := Chunk(ns.srcPos, ns.dstPos, BodyOf(body));
    BodyBack(body);
    MarkedCounts(c.lines);
    assert lines[0] == HeaderOf(c);
    assert lines == [lines[0]] + (body + lines[1 + n..]);
  }

  // ---- the converse: what is written has the printer's shape

  lemma StepSet(st: ParseState, line: string)
    requires StateOk(st) && PatchesSet(st.patches)
    ensures Step(st, line).Ok? ==> PatchesSet(Step(st, line).value.patches)
  {
    hide Classify;
  }

  lemma {:induction false} ParsedSet(st: ParseState, lines: seq<string>)
    requires StateOk(st) && PatchesSet(st.patches)
    ensures ParseFrom(st, lines).Ok? ==> PatchesSet(ParseFrom(st, lines).value.patches)
    decreases |lines|
  {
    hide Step, PatchesSet;
    if lines != [] {
      StepSet(st, lines[0]);
      if Step(st, lines[0]).Ok? {
        ParsedSet(Step(st, lines[0]).value, lines[1..]);
      }
    }
  }

  lemma EndsAlike(a: string, b: string)
    requires Terminated(b)
    ensures Terminated(a + b)
  {
  }

  lemma HeaderTerminated(a: nat, b: nat, c: nat, d: nat)
    ensures Terminated(Header(a, b, c, d))
  {
    hide Digits, Terminated;
    var s8 := " @@" + "\n";
    assert Terminated(s8) by { EndsAlike(" @@", "\n"); }
    var s7 := Digits(d) + s8;
    var s6 := "," + s7;
    var s5 := Digits(c) + s6;
    var s4 := " +" + s5;
    var s3 := Digits(b) + s4;
    var s2 := "," + s3;
    EndsAlike(Digits(d), s8);
    EndsAlike(",", s7);
    EndsAlike(Digits(c), s6);
    EndsAlike(" +", s5);
    EndsAlike(Digits(b), s4);
    EndsAlike(",", s3);
    EndsAlike(Digits(a), s2);
    EndsAlike("@@ -", Digits(a) + s2);
  }

  /** No written text begins with a line of a chunk. */
  lemma NoBodyFirst(cs: seq<Chunk>, ps: seq<Patch>)
    requires ChunksSet(cs) && PatchesSet(ps)
    ensures var lines := WriteChunks(cs) + WriteAll(ps); lines != [] ==> !Classify(lines[0]).Body?
  {
    hide Classify, Header;
    if cs != [] {
      var c := cs[0];
      HeaderClassified(c.srcPos, |SrcLines(c.lines)|, c.dstPos, |DstLines(c.lines)|);
    } else if ps != [] {
      SrcFileClassified(ps[0].src);
    }
  }

  lemma {:induction false} RunOfLines(ls: seq<Line>, rest: seq<string>)
    requires LinesSet(ls) && LinesFaithful(ls) && (rest == [] || !Classify(rest[0]).Body?)
    ensures BodyRun(WriteLines(ls) + rest) == |ls|
  {
    hide Classify, WriteLine, LineFaithful;
    if ls == [] {
      assert WriteLines(ls) + rest == rest;
    } else {
      LineClassified(ls[0]);
      RunOfLines(ls[1..], rest);
      assert (WriteLines(ls) + rest)[1..] == WriteLines(ls[1..]) + rest;
    }
  }

  lemma LinesRead(ls: seq<Line>)
    requires LinesSet(ls) && LinesFaithful(ls)
    ensures AllTerminated(WriteLines(ls))
    ensures forall i :: 0 <= i < |ls| ==> Classify(WriteLines(ls)[i]) == Body(ls[i])
  {
    hide Classify, LineFaithful;
    forall i | 0 <= i < |ls| ensures Classify(WriteLines(ls)[i]) == Body(ls[i]) {
      LineClassified(ls[i]);
    }
  }

  lemma {:induction false} WrittenIsShaped(cs: seq<Chunk>, ps: seq<Patch>, inPatch: bool)
    requires ChunksSet(cs) && PatchesSet(ps) && ChunksFaithful(cs) && Faithful(ps) && (inPatch || cs == [])
    ensures Shaped(WriteChunks(cs) + WriteAll(ps), inPatch)
    decreases |ps|, |cs|
  {
    hide *;
    NoChunks();
    if cs != [] {
      ChunksSplit(cs, WriteAll(ps));
      WrittenIsShaped(cs[1..], ps, true);
      NoBodyFirst(cs[1..], ps);
      ChunkShaped(cs[0], WriteChunks(cs[1..]) + WriteAll(ps));
      ChunkWritten(cs[0], WriteChunks(cs[1..]) + WriteAll(ps));
    } else if ps != [] {
      PatchesSplit(ps);
      FaithfulParts(ps[0]);
      WrittenIsShaped(ps[0].chunks, ps[1..], true);
      FilesShaped(ps[0].src, ps[0].dst, WriteChunks(ps[0].chunks) + WriteAll(ps[1..]), inPatch);
      assert [] + WriteAll(ps) == WriteAll(ps);
    } else {
      NothingShaped(inPatch);
      assert WriteChunks(cs) + WriteAll(ps) == [];
    }
  }

  lemma ChunkWritten(c: Chunk, rest: seq<string>)
    requires LinesSet(c.lines)
    ensures WriteChunk(c) + rest == [HeaderOf(c)] + (WriteLines(c.lines) + rest)
  {
  }

  lemma FaithfulParts(p: Patch)
    ensures PatchFaithful(p) ==> OneLine(p.src) && OneLine(p.dst) && ChunksFaithful(p.chunks)
  {
  }

  lemma NothingShaped(inPatch: bool)
    ensures WriteAll([]) == [] && Shaped([], inPatch)
  {
  }

  lemma FilesShaped(src: string, dst: string, rest: seq<string>, inPatch: bool)
    requires OneLine(src) && OneLine(dst) && Shaped(rest, true)
    ensures Shaped(["--- " + src + "\n", "+++ " + dst + "\n"] + rest, inPatch)
  {
    hide Classify, OneLine;
    var files := ["--- " + src + "\n", "+++ " + dst + "\n"];
    SrcFileClassified(src);
    DstFileClassified(dst);
    assert (files + rest)[2..] == rest && (files + rest)[0] == files[0] && (files + rest)[1] == files[1];
  }

  lemma ChunkShaped(c: Chunk, rest: seq<string>)
    requires LinesSet(c.lines) && LinesFaithful(c.lines) && Shaped(rest, true)
    requires rest == [] || !Classify(rest[0]).Body?
    ensures Shaped([HeaderOf(c)] + (WriteLines(c.lines) + rest), true)
  {
    hide Classify, Header, Shaped, WriteLines, LinesFaithful, LinesSet, BodyRun, BodyOf, Terminated, AllTerminated;
    hide Marked, SrcLines, DstLines;
    HeaderClassified(c.srcPos, |SrcLines(c.lines)|, c.dstPos, |DstLines(c.lines)|);
    HeaderTerminated(c.srcPos, |SrcLines(c.lines)|, c.dstPos, |DstLines(c.lines)|);
    RunOfLines(c.lines, rest);
    BodyRead(c.lines);
    MarkedCounts(c.lines);
    HeaderShapes(c, Classify(HeaderOf(c)).numbers, WriteLines(c.lines), rest);
  }

  lemma BodyRead(ls: seq<Line>)
    requires LinesSet(ls) && LinesFaithful(ls)
    ensures |WriteLines(ls)| == |ls| && AllTerminated(WriteLines(ls))
    ensures forall i :: 0 <= i < |ls| ==> Classify(WriteLines(ls)[i]).Body?
    ensures BodyOf(WriteLines(ls)) == ls
  {
    hide Classify, LineFaithful;
    LinesRead(ls);
  }

  lemma HeaderShapes(c: Chunk, ns: Numbers, body: seq<string>, rest: seq<string>)
    requires Classify(HeaderOf(c)) == ChunkStart(ns)
    requires HeaderOf(c) == Header(ns.srcPos, ns.srcLen, ns.dstPos, ns.dstLen)
    requires ns.srcLen == |Marked(body, '-')| && ns.dstLen == |Marked(body, '+')|
    requires Terminated(HeaderOf(c)) && AllTerminated(body) && Shaped(rest, true)
    requires forall i :: 0 <= i < |body| ==> Classify(body[i]).Body?
    requires BodyRun(body + rest) == |body|
    ensures Shaped([HeaderOf(c)] + (body + rest), true)
  {
    hide Classify, HeaderOf, Header, BodyRun, Terminated, Marked;
    var lines := [HeaderOf(c)] + (body + rest);
    assert AllTerminated(rest);
    assert lines[0] == HeaderOf(c) && lines[1..] == body + rest;
    assert lines[1..][..|body|] == body && lines[1 + |body|..] == rest;
  }

  /** Printing undoes parsing exactly on text in the printer's shape. */
  lemma WriteBack(lines: seq<string>)
    ensures Parse(lines).Ok? ==> PatchesSet(Parse(lines).value)
    ensures Parse(lines).Ok? && WriteAll(Parse(lines).value) == lines <==> Shaped(lines, false)
  {
    hide Shaped, WriteAll, WriteChunks, PatchesSet, ParseFrom, Faithful, ChunksFaithful, ChunksSet;
    NothingSet();
    ParsedSet(START, lines);
    NoChunks();
    if Shaped(lines, false) {
      var cs, ps := ShapedIsWritten(lines, false);
      assert WriteChunks([]) + WriteAll(ps) == WriteAll(ps);
      ReadBack(ps);
    }
    if Parse(lines).Ok? && WriteAll(Parse(lines).value) == lines {
      var ps := Parse(lines).value;
      ReadBack(ps);
      WrittenIsShaped([], ps, false);
      assert WriteChunks([]) + WriteAll(ps) == WriteAll(ps);
    }
  }

  lemma NothingSet()
    ensures PatchesSet([]) && ChunksSet([]) && ChunksFaithful([])
  {
  }
}
