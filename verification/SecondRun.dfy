/** Running `remove_trailing_whitespace_changes` on the text that its own result is written as:
    a blank given back to an added line can make it look like the name of a file. */
module SecondRun {
  import opened PatchFormat
  import opened WhitespacePass

  // ---------------------------------------------------------------- what is parsed is faithful

  lemma ClassifiedFaithful(line: string)
    ensures Classify(line).Body? ==> LineFaithful(Classify(line).line)
    ensures Classify(line).SrcFile? ==> OneLine(Classify(line).name)
    ensures Classify(line).DstFile? ==> OneLine(Classify(line).name)
  {
    hide MatchHeader;
    LongMarks(Chomp(line));
  }

  lemma LongMarks(body: string)
    ensures "-" <= body && "-- " <= body[1..] ==> "--- " <= body
    ensures "+" <= body && "++ " <= body[1..] ==> "+++ " <= body
    ensures body != [] && OneLine(body) ==> OneLine(body[1..])
  {
    if body != [] {
      assert body == [body[0]] + body[1..];
    }
  }

  lemma StepFaithful(st: ParseState, line: string)
    requires StateOk(st) && Faithful(st.patches)
    ensures Step(st, line).Ok? ==> Faithful(Step(st, line).value.patches)
  {
    hide Classify, LineFaithful, OneLine;
    ClassifiedFaithful(line);
    EmptyOneLine();
  }

  lemma EmptyOneLine()
    ensures OneLine("")
  {
  }

  lemma {:induction false} ParsedFaithful(st: ParseState, lines: seq<string>)
    requires StateOk(st) && Faithful(st.patches)
    ensures ParseFrom(st, lines).Ok? ==> Faithful(ParseFrom(st, lines).value.patches)
    decreases |lines|
  {
    hide Step, Faithful;
    if lines != [] {
      StepFaithful(st, lines[0]);
      if Step(st, lines[0]).Ok? {
        ParsedFaithful(Step(st, lines[0]).value, lines[1..]);
      }
    }
  }

  lemma ParseFaithful(lines: seq<string>)
    ensures Parse(lines).Ok? ==> Faithful(Parse(lines).value) && PatchesSet(Parse(lines).value)
  {
    hide ParseFrom, PatchFaithful, ChunksSet;
    ParsedFaithful(START, lines);
    ParsedSet(START, lines);
  }

  // ---------------------------------------------------------------- one chunk

  /** The earlier pair, if any, that gave the `k`-th source line a blank. */
  ghost function Giver(lines: seq<Line>, k: nat): (m: Option<nat>)
    ensures m.Some? ==> m.value < k && OneObject(lines, m.value, k) && Fires(lines, m.value)
    ensures m.None? ==> forall m: nat :: m < k && OneObject(lines, m, k) ==> !Fires(lines, m)
  {
    if m: nat :| m < k && OneObject(lines, m, k) && Fires(lines, m) then Some(m) else None
  }

  /** The blank that a firing pair gives its destination line: its source line's last one, which
      may itself come from an earlier pair. */
  ghost function BlankGiven(lines: seq<Line>, k: nat): char
    requires Fires(lines, k)
    decreases k
  {
    var m := Giver(lines, k);
    if m.Some? then BlankGiven(lines, m.value)
    else
      FirstMatches(lines, k);
      var source := Chomp(lines[SrcAt(lines)[k]].text);
      source[|source| - 1]
  }

  lemma FirstMatches(lines: seq<Line>, k: nat)
    requires Fires(lines, k) && forall m: nat :: m < k && OneObject(lines, m, k) ==> !Fires(lines, m)
    ensures k < |SrcAt(lines)| && Chomp(lines[SrcAt(lines)[k]].text) != []
  {
    hide SrcAt, DstAt;
  }

  lemma AppendGives(src: string, d: Line)
    requires LacksBlank(src, d.text)
    ensures Chomp(src) != [] && AppendBlank(src, d).text == d.text + [Chomp(src)[|Chomp(src)| - 1]]
  {
  }

  lemma BlankedEnd(before: Line, after: Line)
    requires Blanked(before, after)
    ensures Chomp(after.text) == after.text != [] && after.text == before.text + [after.text[|after.text| - 1]]
  {
  }

  /** What the `k`-th pair appends is the last character of its source line as it then is. */
  lemma AppendedNow(lines: seq<Line>, k: nat)
    requires k < Pairs(lines) && Fires(lines, k)
    ensures var d, source := DstAt(lines)[k], Chomp(After(lines, k)[SrcAt(lines)[k]].text);
      source != [] && After(lines, k + 1)[d].text == lines[d].text + [source[|source| - 1]]
  {
    hide SrcAt, DstAt, LacksBlank, AppendBlank, Blanked, After, Chomp, Fires;
    Judged(lines, k);
    AppendGives(After(lines, k)[SrcAt(lines)[k]].text, After(lines, k)[DstAt(lines)[k]]);
  }

  lemma {:induction false} BlankIs(lines: seq<Line>, k: nat)
    requires k < Pairs(lines) && Fires(lines, k)
    ensures var d := DstAt(lines)[k]; After(lines, k + 1)[d].text == lines[d].text + [BlankGiven(lines, k)]
  {
    hide SrcAt, DstAt, LacksBlank, AppendBlank, Blanked, After, Chomp, Fires, Giver;
    AppendedNow(lines, k);
    var giver := Giver(lines, k);
    if giver.Some? {
      var s, now, m := SrcAt(lines)[k], After(lines, k), giver.value;
      BlankIs(lines, m);
      Judged(lines, m);
      AfterStays(lines, k, m);
      BlankedEnd(lines[s], now[s]);
      assert now[s].text[|now[s].text| - 1] == BlankGiven(lines, m);
    } else {
      SourceKept(lines, k, k);
    }
  }

  /** The `k`-th pair makes an added line look like the name of a destination file. */
  ghost predicate Disguises(lines: seq<Line>, k: nat) {
    && k < Pairs(lines) && Fires(lines, k)
    && lines[DstAt(lines)[k]] == Line(Dst, "++") && BlankGiven(lines, k) == ' '
  }

  ghost predicate Undisguised(lines: seq<Line>) {
    forall k: nat :: !Disguises(lines, k)
  }

  /** A line with one more blank is faithful unless it was the added line "++" and got a space. */
  lemma BlankedFaithful(before: Line, after: Line)
    requires LineFaithful(before) && before.IsDst() && Blanked(before, after)
    ensures LineFaithful(after) <==> !(before == Line(Dst, "++") && after.text == "++ ")
  {
    var n := |before.text|;
    assert after.text[..n] == before.text;
    if "++ " <= after.text {
      if n >= 3 {
        assert "++ " == after.text[..3] == before.text[..3];
      } else {
        assert after.text == "++ " && before.text == after.text[..2] == "++";
      }
    }
  }

  /** The pass keeps the lines of a chunk faithful exactly if it disguises none. */
  lemma StaysFaithful(lines: seq<Line>)
    requires LinesFaithful(lines)
    ensures LinesFaithful(FixLines(lines).0) <==> Undisguised(lines)
  {
    hide SrcAt, DstAt, Fires, FixLines, Blanked, LineFaithful, After, BlankGiven;
    var r, n := FixLines(lines).0, Pairs(lines);
    forall k: nat | k < n && Fires(lines, k)
      ensures LineFaithful(r[DstAt(lines)[k]]) <==> !Disguises(lines, k)
    {
      FiredFaithful(lines, k);
    }
    forall j | 0 <= j < |lines| && !LineFaithful(r[j]) ensures exists k: nat :: Disguises(lines, k) {
      Outcome(lines, j);
      assert exists k: nat :: k < n && DstAt(lines)[k] == j && Fires(lines, k);
    }
  }

  lemma FiredFaithful(lines: seq<Line>, k: nat)
    requires LinesFaithful(lines) && k < Pairs(lines) && Fires(lines, k)
    ensures LineFaithful(FixLines(lines).0[DstAt(lines)[k]]) <==> !Disguises(lines, k)
  {
    hide SrcAt, DstAt, Fires, FixLines, Blanked, LineFaithful, After, BlankGiven;
    var d := DstAt(lines)[k];
    FixWhole(lines);
    Judged(lines, k);
    AfterStays(lines, Pairs(lines), k);
    BlankIs(lines, k);
    BlankedFaithful(lines[d], FixLines(lines).0[d]);
    assert ("++" + [BlankGiven(lines, k)])[2] == BlankGiven(lines, k) && "++ " == "++" + [' '];
  }

  // ---------------------------------------------------------------- the whole patch set

  /** No line is disguised in any chunk the pass gets to. */
  ghost predicate UndisguisedChunks(cs: seq<Chunk>) {
    cs == [] || (Undisguised(cs[0].lines) && (Complete(cs[0]) ==> UndisguisedChunks(cs[1..])))
  }

  ghost predicate UndisguisedPatches(ps: seq<Patch>) {
    ps == [] || (UndisguisedChunks(ps[0].chunks) && (AllComplete(ps[0].chunks) ==> UndisguisedPatches(ps[1..])))
  }

  lemma ChunksFaithfulCons(c: Chunk, cs: seq<Chunk>)
    ensures ChunksFaithful([c] + cs) <==> LinesFaithful(c.lines) && ChunksFaithful(cs)
  {
    hide LinesFaithful;
    assert ([c] + cs)[0] == c && forall i :: 0 <= i < |cs| ==> ([c] + cs)[i + 1] == cs[i];
  }

  lemma FaithfulIsCons(p: Patch, ps: seq<Patch>)
    ensures Faithful([p] + ps) <==> PatchFaithful(p) && Faithful(ps)
  {
    hide PatchFaithful;
    assert ([p] + ps)[0] == p && forall i :: 0 <= i < |ps| ==> ([p] + ps)[i + 1] == ps[i];
  }

  lemma {:induction false} ChunksStayFaithful(cs: seq<Chunk>)
    requires ChunksFaithful(cs)
    ensures ChunksFaithful(FixChunks(cs).0) <==> UndisguisedChunks(cs)
  {
    if cs == [] {
      assert FixChunks(cs).0 == [];
    } else {
      hide LinesFaithful, ChunksFaithful, Undisguised, FixLines, Complete;
      var c := FixChunk(cs[0]).0;
      assert cs == [cs[0]] + cs[1..];
      ChunksFaithfulCons(cs[0], cs[1..]);
      StaysFaithful(cs[0].lines);
      ChunkComplete(cs[0]);
      ChunksFaithfulCons(c, FixChunks(cs[1..]).0);
      ChunksFaithfulCons(c, cs[1..]);
      ChunksStayFaithful(cs[1..]);
    }
  }

  /** The pass keeps a patch set faithful exactly if it disguises no line on its way. */
  lemma {:induction false} PassStaysFaithful(ps: seq<Patch>)
    requires Faithful(ps)
    ensures Faithful(FixPatches(ps).0) <==> UndisguisedPatches(ps)
  {
    if ps == [] {
      assert FixPatches(ps).0 == [];
    } else {
      hide ChunksFaithful, Faithful, UndisguisedChunks, FixChunks, AllComplete, OneLine;
      var p := ps[0].(chunks := FixChunks(ps[0].chunks).0);
      assert ps == [ps[0]] + ps[1..];
      FaithfulIsCons(ps[0], ps[1..]);
      ChunksStayFaithful(ps[0].chunks);
      ChunksSurvive(ps[0].chunks);
      FaithfulIsCons(p, FixPatches(ps[1..]).0);
      FaithfulIsCons(p, ps[1..]);
      PassStaysFaithful(ps[1..]);
    }
  }

  // ---------------------------------------------------------------- the second run

  lemma {:induction false} ChunksTotalKept(cs: seq<Chunk>, ds: seq<Chunk>)
    requires SameOutlines(cs, ds)
    ensures ChunksTotal(cs) == ChunksTotal(ds) && (ChunksSet(ds) ==> ChunksSet(cs))
  {
    if cs != [] {
      var n := |cs| - 1;
      ChunksTotalKept(cs[..n], ds[..n]);
    }
  }

  lemma {:induction false} TotalKept(ps: seq<Patch>, qs: seq<Patch>)
    requires |ps| == |qs| && forall i :: 0 <= i < |ps| ==> SameOutlines(ps[i].chunks, qs[i].chunks)
    ensures Total(ps) == Total(qs) && (PatchesSet(qs) ==> PatchesSet(ps))
  {
    if ps != [] {
      hide SameOutlines, ChunksSet;
      var n := |ps| - 1;
      TotalKept(ps[..n], qs[..n]);
      ChunksTotalKept(ps[n].chunks, qs[n].chunks);
      forall i | 0 <= i < |ps| && PatchesSet(qs) ensures ChunksSet(ps[i].chunks) {
        ChunksTotalKept(ps[i].chunks, qs[i].chunks);
      }
    }
  }

  /** The pass neither adds nor drops a line. */
  lemma PassTotal(ps: seq<Patch>)
    ensures Total(FixPatches(ps).0) == Total(ps) && (PatchesSet(ps) ==> PatchesSet(FixPatches(ps).0))
  {
    hide SameOutlines;
    var qs := FixPatches(ps).0;
    if ps != [] {
      OutlineKept(ps, 0);
    }
    forall i | 0 <= i < |ps| ensures |qs| == |ps| && SameOutlines(qs[i].chunks, ps[i].chunks) {
      OutlineKept(ps, i);
    }
    TotalKept(qs, ps);
  }

  /** What is written for an unfaithful patch set is not read as one with the same number of lines. */
  lemma LostLine(ps: seq<Patch>)
    requires PatchesSet(ps)
    ensures Parse(WriteAll(ps)).Ok? && Total(Parse(WriteAll(ps)).value) == Total(ps) ==> Faithful(ps)
  {
    hide Faithful, PatchesSet, WriteAll, ParseFrom, Total, NoUnknown, BodyLines;
    if Parse(WriteAll(ps)).Ok? && Total(Parse(WriteAll(ps)).value) == Total(ps) {
      ParseTotal(START, WriteAll(ps));
      NothingTotal();
      PatchesKept(ps);
    }
  }

  /** Running the function on the text its result is written as gives the same patches exactly if
      no pair of lines was reopened and no added line was disguised on the way. */
  lemma TextAgain(lines: seq<string>)
    requires Parse(lines).Ok?
    ensures PatchesSet(RunOn(lines).value)
    ensures RunOn(WriteAll(RunOn(lines).value)) == RunOn(lines) <==>
      SettledPatches(Parse(lines).value) && UndisguisedPatches(Parse(lines).value)
  {
    hide Faithful, PatchesSet, WriteAll, Parse, FixPatches, Total, SettledPatches, UndisguisedPatches;
    var ps := Parse(lines).value;
    var out := FixPatches(ps).0;
    ParseFaithful(lines);
    PassTotal(ps);
    PassStaysFaithful(ps);
    PassAgain(ps);
    ReadBack(out);
    LostLine(out);
    if RunOn(WriteAll(out)) == Ok(out) {
      PassTotal(Parse(WriteAll(out)).value);
    }
  }

  /** Aligned context lines settle a patch set, so that only disguised lines are left to mind. */
  lemma AlignedTextAgain(lines: seq<string>)
    requires Parse(lines).Ok? && forall p, c :: p in Parse(lines).value && c in p.chunks ==> Aligned(c.lines)
    ensures PatchesSet(RunOn(lines).value)
    ensures RunOn(WriteAll(RunOn(lines).value)) == RunOn(lines) <==> UndisguisedPatches(Parse(lines).value)
  {
    hide *;
    TextAgain(lines);
    AlignedPatches(Parse(lines).value);
    SafePatchesSettled(Parse(lines).value);
  }

  // ---------------------------------------------------------------- a disguised line

  const PLUS_LINES: seq<Line> := [Line(Src, "++ "), Line(Dst, "++")]

  /** A patch that deletes "++ " and adds "++". */
  const PLUS_PATCHES: seq<Patch> := [Patch("a", "b", [Chunk(1, 1, PLUS_LINES)])]

  lemma PlusSides()
    ensures SrcAt(PLUS_LINES) == [0] && DstAt(PLUS_LINES) == [1]
  {
    assert PLUS_LINES[..1] == [Line(Src, "++ ")] && PLUS_LINES[..1][..0] == [];
    assert SrcAt(PLUS_LINES[..1]) == [0] && DstAt(PLUS_LINES[..1]) == [];
  }

  lemma PlusBlank()
    ensures LacksBlank("++ ", "++") && Chomp("++ ") == "++ "
  {
    assert "++ "[..2] == "++";
  }

  lemma PlusDisguised()
    ensures Disguises(PLUS_LINES, 0)
  {
    hide SrcAt, DstAt, LacksBlank, Chomp;
    PlusSides();
    PlusBlank();
  }

  lemma PlusFaithful()
    ensures Faithful(PLUS_PATCHES) && PatchesSet(PLUS_PATCHES) && Aligned(PLUS_LINES)
  {
    hide SrcAt, DstAt;
    PlusSides();
    assert forall i :: 0 <= i < 2 ==> PLUS_LINES[i].text[0] == '+';
  }

  /** The patch is written and read back as it is, and its context lines (it has none) are aligned;
      but its result, written and read again, gives other patches: the added line is lost. */
  lemma DisguisedExample()
    ensures PatchesSet(PLUS_PATCHES) && Parse(WriteAll(PLUS_PATCHES)) == Ok(PLUS_PATCHES) && Aligned(PLUS_LINES)
    ensures PatchesSet(RunOn(WriteAll(PLUS_PATCHES)).value)
    ensures RunOn(WriteAll(RunOn(WriteAll(PLUS_PATCHES)).value)) != RunOn(WriteAll(PLUS_PATCHES))
  {
    hide Faithful, PatchesSet, WriteAll, Parse, FixPatches, SettledPatches, Aligned, Disguises;
    PlusFaithful();
    PlusDisguised();
    ReadBack(PLUS_PATCHES);
    TextAgain(WriteAll(PLUS_PATCHES));
    assert !UndisguisedPatches(PLUS_PATCHES);
  }
}
