/** What `remove_trailing_whitespace_changes` does to the lines of a chunk. A context line is
    on both sides of the chunk, so editing the destination can edit the source. */
module WhitespacePass {
  import opened PatchFormat
  import opened PatchText

  /** The groups of ^(.*)([ \t]+)$ : the first one is greedy and leaves a single blank. */
  function TrailingBlank(text: string): Option<(string, string)> {
    var body := Chomp(text);
    if body != [] && OneLine(body) && (body[|body| - 1] == ' ' || body[|body| - 1] == '\t')
    then Some((body[..|body| - 1], body[|body| - 1..]))
    else None
  }

  /** The destination text lacks just the source's last blank. */
  predicate LacksBlank(src: string, dst: string) {
    var m := TrailingBlank(src);
    m.Some? && m.value.0 == dst
  }

  /** The source, with or without a final newline, is the destination and one blank. */
  lemma LacksBlankExact(src: string, dst: string)
    ensures LacksBlank(src, dst) <==> Reads(src, dst + " ") || Reads(src, dst + "\t")
  {
    hide Reads;
    Chomped(src, dst + " ");
    Chomped(src, dst + "\t");
    var body := Chomp(src);
    if body != [] {
      assert body == body[..|body| - 1] + [body[|body| - 1]];
    }
    assert (dst + " ")[..|dst|] == dst && (dst + "\t")[..|dst|] == dst;
  }

  function AppendBlank(src: string, d: Line): Line
    requires LacksBlank(src, d.text)
  {
    d.(text := d.text + TrailingBlank(src).value.1)
  }

  /** Where the lines of either side are in the chunk. */
  function SrcAt(lines: seq<Line>): (at: seq<nat>)
    ensures forall i :: 0 <= i < |at| ==> at[i] < |lines| && lines[at[i]].IsSrc()
  {
    if lines == [] then []
    else
      var n := |lines| - 1;
      SrcAt(lines[..n]) + if lines[n].IsSrc() then [n] else []
  }

  function DstAt(lines: seq<Line>): (at: seq<nat>)
    ensures forall i :: 0 <= i < |at| ==> at[i] < |lines| && lines[at[i]].IsDst()
  {
    if lines == [] then []
    else
      var n := |lines| - 1;
      DstAt(lines[..n]) + if lines[n].IsDst() then [n] else []
  }

  function FixPair(lines: seq<Line>, s: nat, d: nat): seq<Line>
    requires s < |lines| && d < |lines|
  {
    if LacksBlank(lines[s].text, lines[d].text) then lines[d := AppendBlank(lines[s].text, lines[d])] else lines
  }

  ghost predicate SameKinds(a: seq<Line>, b: seq<Line>) {
    |a| == |b| && forall j :: 0 <= j < |a| ==> a[j].kind == b[j].kind
  }

  /** The pairs from the `i`-th on, the sides being those at `src` and `dst`; and whether every
      source line had a destination line. */
  function FixFrom(lines: seq<Line>, src: seq<nat>, dst: seq<nat>, i: nat): (r: (seq<Line>, bool))
    requires forall k :: 0 <= k < |src| ==> src[k] < |lines|
    requires forall k :: 0 <= k < |dst| ==> dst[k] < |lines|
    requires i <= |src|
    ensures SameKinds(r.0, lines)
    decreases |src| - i
  {
    if i == |src| then (lines, true)
    else if i >= |dst| then (lines, false)
    else FixFrom(FixPair(lines, src[i], dst[i]), src, dst, i + 1)
  }

  lemma FixNext(lines: seq<Line>, src: seq<nat>, dst: seq<nat>, i: nat)
    requires forall k :: 0 <= k < |src| ==> src[k] < |lines|
    requires forall k :: 0 <= k < |dst| ==> dst[k] < |lines|
    requires i <= |src|
    ensures FixFrom(lines, src, dst, i) ==
      if i == |src| then (lines, true)
      else if i >= |dst| then (lines, false)
      else FixFrom(FixPair(lines, src[i], dst[i]), src, dst, i + 1)
  {
  }

  function FixLines(lines: seq<Line>): (r: (seq<Line>, bool))
    ensures SameKinds(r.0, lines)
  {
    FixFrom(lines, SrcAt(lines), DstAt(lines), 0)
  }

  function FixChunk(c: Chunk): (Chunk, bool) {
    var (lines, complete) := FixLines(c.lines);
    (c.(lines := lines), complete)
  }

  /** A chunk with too few destination lines ends the whole pass. */
  function FixChunks(cs: seq<Chunk>): (seq<Chunk>, bool) {
    if cs == [] then ([], true)
    else
      var (c, complete) := FixChunk(cs[0]);
      if !complete then ([c] + cs[1..], false)
      else
        var (rest, done) := FixChunks(cs[1..]);
        ([c] + rest, done)
  }

  function FixPatches(ps: seq<Patch>): (seq<Patch>, bool) {
    if ps == [] then ([], true)
    else
      var (cs, complete) := FixChunks(ps[0].chunks);
      if !complete then ([ps[0].(chunks := cs)] + ps[1..], false)
      else
        var (rest, done) := FixPatches(ps[1..]);
        ([ps[0].(chunks := cs)] + rest, done)
  }

  /** From lines of text to the patches that the function returns. */
  function RunOn(lines: seq<string>): Result<seq<Patch>> {
    match Parse(lines)
    case Ok(ps) => Ok(FixPatches(ps).0)
    case Err(e) => Err(e)
  }

  // ---------------------------------------------------------------- one chunk

  /** The `i`-th pair, on the lines as they were before the pass. */
  ghost predicate Edits(lines: seq<Line>, i: nat) {
    i < |SrcAt(lines)| && i < |DstAt(lines)|
    && LacksBlank(lines[SrcAt(lines)[i]].text, lines[DstAt(lines)[i]].text)
  }

  /** An edit of a line that is on both sides. */
  ghost predicate SharedEdit(lines: seq<Line>, i: nat) {
    Edits(lines, i) && lines[DstAt(lines)[i]].kind == Both
  }

  ghost predicate NoSharedEdit(lines: seq<Line>) {
    forall i: nat :: !SharedEdit(lines, i)
  }

  /** Each context line has the same index on both sides. */
  ghost predicate Aligned(lines: seq<Line>) {
    forall i, k :: 0 <= i < |SrcAt(lines)| && 0 <= k < |DstAt(lines)| && SrcAt(lines)[i] == DstAt(lines)[k] ==> i == k
  }

  lemma {:induction false} DstAtSorted(lines: seq<Line>)
    ensures forall i, k :: 0 <= i < k < |DstAt(lines)| ==> DstAt(lines)[i] < DstAt(lines)[k]
  {
    if lines != [] { DstAtSorted(lines[..|lines| - 1]); }
  }

  /** The positions of either side: of all lines of its kinds, in order. */
  lemma {:induction false} SidesExact(lines: seq<Line>, j: nat)
    ensures j in SrcAt(lines) <==> j < |lines| && lines[j].kind in {Src, Both}
    ensures j in DstAt(lines) <==> j < |lines| && lines[j].kind in {Dst, Both}
    ensures forall i, k :: 0 <= i < k < |SrcAt(lines)| ==> SrcAt(lines)[i] < SrcAt(lines)[k]
    ensures forall i, k :: 0 <= i < k < |DstAt(lines)| ==> DstAt(lines)[i] < DstAt(lines)[k]
  {
    if lines != [] {
      SidesExact(lines[..|lines| - 1], j);
    }
  }

  lemma {:induction false} SidesAt(lines: seq<Line>)
    ensures |SrcAt(lines)| == |SrcLines(lines)| && |DstAt(lines)| == |DstLines(lines)|
    ensures forall i :: 0 <= i < |SrcAt(lines)| ==> SrcLines(lines)[i] == lines[SrcAt(lines)[i]]
    ensures forall i :: 0 <= i < |DstAt(lines)| ==> DstLines(lines)[i] == lines[DstAt(lines)[i]]
  {
    if lines != [] { SidesAt(lines[..|lines| - 1]); }
  }

  lemma {:induction false} SrcAtHas(lines: seq<Line>, j: nat) returns (i: nat)
    requires j < |lines| && lines[j].IsSrc()
    ensures i < |SrcAt(lines)| && SrcAt(lines)[i] == j
  {
    var n := |lines| - 1;
    if j == n {
      i := |SrcAt(lines)| - 1;
    } else {
      i := SrcAtHas(lines[..n], j);
    }
  }

  lemma {:induction false} KindsDecide(a: seq<Line>, b: seq<Line>)
    requires SameKinds(a, b)
    ensures SrcAt(a) == SrcAt(b) && DstAt(a) == DstAt(b)
  {
    if a != [] { KindsDecide(a[..|a| - 1], b[..|b| - 1]); }
  }

  /** How many pairs the pass judges. */
  ghost function Pairs(lines: seq<Line>): nat {
    if |SrcAt(lines)| <= |DstAt(lines)| then |SrcAt(lines)| else |DstAt(lines)|
  }

  /** The lines after the first `i` pairs. */
  ghost function After(lines: seq<Line>, i: nat): (r: seq<Line>)
    requires i <= Pairs(lines)
    ensures SameKinds(r, lines)
  {
    if i == 0 then lines else FixPair(After(lines, i - 1), SrcAt(lines)[i - 1], DstAt(lines)[i - 1])
  }

  lemma {:induction false} FixIsAfter(lines: seq<Line>, i: nat)
    requires i <= Pairs(lines)
    ensures FixFrom(lines, SrcAt(lines), DstAt(lines), 0) == FixFrom(After(lines, i), SrcAt(lines), DstAt(lines), i)
  {
    hide SrcAt, DstAt, FixPair, FixFrom;
    if i > 0 {
      FixIsAfter(lines, i - 1);
      FixNext(After(lines, i - 1), SrcAt(lines), DstAt(lines), i - 1);
    }
  }

  lemma FixWhole(lines: seq<Line>)
    ensures FixLines(lines) == (After(lines, Pairs(lines)), |SrcAt(lines)| <= |DstAt(lines)|)
  {
    hide SrcAt, DstAt, FixPair, FixFrom, After;
    FixIsAfter(lines, Pairs(lines));
    FixNext(After(lines, Pairs(lines)), SrcAt(lines), DstAt(lines), Pairs(lines));
  }

  lemma OthersStay(lines: seq<Line>, s: nat, d: nat, j: nat)
    requires s < |lines| && d < |lines| && j < |lines| && j != d
    ensures FixPair(lines, s, d)[j] == lines[j]
  {
  }

  lemma {:induction false} AfterElsewhere(lines: seq<Line>, i: nat, j: nat)
    requires i <= Pairs(lines) && j < |lines| && forall k: nat :: k < i ==> DstAt(lines)[k] != j
    ensures After(lines, i)[j] == lines[j]
  {
    hide SrcAt, DstAt, FixPair;
    if i > 0 {
      AfterElsewhere(lines, i - 1, j);
      OthersStay(After(lines, i - 1), SrcAt(lines)[i - 1], DstAt(lines)[i - 1], j);
    }
  }

  /** A destination line is edited by its own pair or not at all. */
  lemma {:induction false} AfterStays(lines: seq<Line>, i: nat, k: nat)
    requires k < i <= Pairs(lines)
    ensures After(lines, i)[DstAt(lines)[k]] == After(lines, k + 1)[DstAt(lines)[k]]
  {
    hide SrcAt, DstAt, FixPair;
    if k + 1 < i {
      DstAtSorted(lines);
      AfterStays(lines, i - 1, k);
      OthersStay(After(lines, i - 1), SrcAt(lines)[i - 1], DstAt(lines)[i - 1], DstAt(lines)[k]);
    }
  }

  /** The `m`-th destination line and the `k`-th source line are one line. */
  ghost predicate OneObject(lines: seq<Line>, m: nat, k: nat) {
    m < |DstAt(lines)| && k < |SrcAt(lines)| && DstAt(lines)[m] == SrcAt(lines)[k]
  }

  /** Whether the `k`-th pair makes an edit, told from the lines before the pass: if an earlier
      pair has given the source line another blank, that blank is what may be missing. */
  ghost predicate Fires(lines: seq<Line>, k: nat)
    decreases k
  {
    k < Pairs(lines)
    && if exists m: nat :: m < k && OneObject(lines, m, k) && Fires(lines, m)
       then lines[SrcAt(lines)[k]].text == lines[DstAt(lines)[k]].text
       else LacksBlank(lines[SrcAt(lines)[k]].text, lines[DstAt(lines)[k]].text)
  }

  /** The same line with one more blank. */
  ghost predicate Blanked(before: Line, after: Line) {
    && OneLine(before.text) && |after.text| == |before.text| + 1
    && after == before.(text := before.text + [after.text[|before.text|]])
    && (after.text[|before.text|] == ' ' || after.text[|before.text|] == '\t')
  }

  lemma AppendIsBlanked(src: string, d: Line)
    requires LacksBlank(src, d.text)
    ensures Blanked(d, AppendBlank(src, d))
  {
    var body := Chomp(src);
    assert forall i :: 0 <= i < |d.text| ==> d.text[i] == body[i];
    assert TrailingBlank(src).value.1 == [body[|body| - 1]];
  }

  lemma BlankedLacks(before: Line, after: Line, text: string)
    requires Blanked(before, after)
    ensures LacksBlank(after.text, text) <==> before.text == text
  {
    var blank := after.text[|before.text|];
    assert OneLine(after.text) && Chomp(after.text) == after.text;
    assert after.text[..|before.text|] == before.text;
  }

  lemma BlankRestores(src: string, d: Line)
    requires LacksBlank(src, d.text)
    ensures AppendBlank(src, d) == d.(text := Chomp(src))
    ensures |d.text| + 1 == |Chomp(src)| && !LacksBlank(src, Chomp(src))
  {
    assert Chomp(src) == Chomp(src)[..|Chomp(src)| - 1] + Chomp(src)[|Chomp(src)| - 1..];
  }

  lemma NotItself(text: string)
    ensures !LacksBlank(text, text)
  {
  }

  lemma DestinationNow(lines: seq<Line>, k: nat)
    requires k < Pairs(lines)
    ensures After(lines, k)[DstAt(lines)[k]] == lines[DstAt(lines)[k]]
  {
    hide SrcAt, DstAt, After;
    DstAtSorted(lines);
    AfterElsewhere(lines, k, DstAt(lines)[k]);
  }

  lemma SourceElsewhere(lines: seq<Line>, n: nat, k: nat)
    requires n <= Pairs(lines) && k < |SrcAt(lines)| && forall m: nat :: m < n ==> !OneObject(lines, m, k)
    ensures After(lines, n)[SrcAt(lines)[k]] == lines[SrcAt(lines)[k]]
  {
    hide SrcAt, DstAt, After;
    forall m: nat | m < n ensures DstAt(lines)[m] != SrcAt(lines)[k] {
      assert !OneObject(lines, m, k);
    }
    AfterElsewhere(lines, n, SrcAt(lines)[k]);
  }

  /** What the `k`-th pair finds. */
  lemma {:induction false} SourceNow(lines: seq<Line>, k: nat)
    requires k < Pairs(lines)
    ensures var s, d, now := SrcAt(lines)[k], DstAt(lines)[k], After(lines, k);
      Fires(lines, k) <==> LacksBlank(now[s].text, lines[d].text)
    decreases k, 0
  {
    hide SrcAt, DstAt, LacksBlank, AppendBlank, Blanked, After;
    var s, d, now := SrcAt(lines)[k], DstAt(lines)[k], After(lines, k);
    if m: nat :| m < k && OneObject(lines, m, k) {
      Judged(lines, m);
      AfterStays(lines, k, m);
      DstAtSorted(lines);
      if Fires(lines, m) {
        BlankedLacks(lines[s], now[s], lines[d].text);
      }
    } else {
      SourceElsewhere(lines, k, k);
    }
  }

  /** What the `k`-th pair does to its destination line. */
  lemma {:induction false} Judged(lines: seq<Line>, k: nat)
    requires k < Pairs(lines)
    ensures var s, d, now := SrcAt(lines)[k], DstAt(lines)[k], After(lines, k);
      && now[d] == lines[d]
      && (Fires(lines, k) <==> LacksBlank(now[s].text, now[d].text))
      && After(lines, k + 1)[d] == (if Fires(lines, k) then AppendBlank(now[s].text, now[d]) else lines[d])
      && (Fires(lines, k) ==> Blanked(lines[d], After(lines, k + 1)[d]))
    decreases k, 1
  {
    hide SrcAt, DstAt, LacksBlank, AppendBlank, Blanked, Fires;
    SourceNow(lines, k);
    DestinationNow(lines, k);
    var s, d, now := SrcAt(lines)[k], DstAt(lines)[k], After(lines, k);
    if LacksBlank(now[s].text, now[d].text) {
      AppendIsBlanked(now[s].text, now[d]);
    }
  }

  /** After the pass a destination line is as it was, or has one more blank if its pair fired;
      a line that is no destination of a pair is as it was. */
  lemma Outcome(lines: seq<Line>, j: nat)
    requires j < |lines|
    ensures var after := FixLines(lines).0;
      && (forall k: nat :: k < Pairs(lines) && DstAt(lines)[k] == j ==>
            if Fires(lines, k) then Blanked(lines[j], after[j]) else after[j] == lines[j])
      && ((forall k: nat :: k < Pairs(lines) ==> DstAt(lines)[k] != j) ==> after[j] == lines[j])
  {
    hide SrcAt, DstAt, Fires, Blanked, After;
    var n := Pairs(lines);
    FixWhole(lines);
    if forall k: nat :: k < n ==> DstAt(lines)[k] != j {
      AfterElsewhere(lines, n, j);
    }
    forall k: nat | k < n && DstAt(lines)[k] == j
      ensures if Fires(lines, k) then Blanked(lines[j], After(lines, n)[j]) else After(lines, n)[j] == lines[j]
    {
      Judged(lines, k);
      AfterStays(lines, n, k);
    }
  }

  /** As long as no shared line was edited, each pair is judged on the lines before the pass. */
  lemma {:induction false} FiresIsEdits(lines: seq<Line>, k: nat)
    requires forall m: nat :: m < k ==> !SharedEdit(lines, m)
    ensures Fires(lines, k) <==> Edits(lines, k)
  {
    hide SrcAt, DstAt, LacksBlank;
    forall m: nat | m < k && OneObject(lines, m, k) ensures !Fires(lines, m) {
      FiresIsEdits(lines, m);
      assert !SharedEdit(lines, m);
    }
  }

  lemma SameSrc(a: seq<Line>, b: seq<Line>)
    requires SameKinds(a, b)
    ensures SrcLines(a) == SrcLines(b) <==> forall j :: 0 <= j < |a| && a[j].IsSrc() ==> a[j] == b[j]
  {
    KindsDecide(a, b);
    SidesAt(a);
    SidesAt(b);
    if SrcLines(a) == SrcLines(b) {
      forall j | 0 <= j < |a| && a[j].IsSrc() ensures a[j] == b[j] {
        var i := SrcAtHas(a, j);
        assert SrcLines(a)[i] == a[j] && SrcLines(b)[i] == b[j];
      }
    }
  }

  /** The source side of a chunk survives exactly when no context line is to be edited. */
  lemma SrcSurvives(lines: seq<Line>)
    ensures SrcLines(FixLines(lines).0) == SrcLines(lines) <==> NoSharedEdit(lines)
  {
    hide SrcAt, DstAt, Fires, FixFrom;
    var r := FixLines(lines).0;
    SameSrc(r, lines);
    if NoSharedEdit(lines) {
      forall j | 0 <= j < |lines| && r[j].IsSrc() ensures r[j] == lines[j] {
        Outcome(lines, j);
        forall k: nat | k < Pairs(lines) && DstAt(lines)[k] == j ensures !Fires(lines, k) {
          FiresIsEdits(lines, k);
          assert !SharedEdit(lines, k);
        }
      }
    } else {
      var i := FirstShared(lines);
      FiresIsEdits(lines, i);
      Outcome(lines, DstAt(lines)[i]);
      assert r[DstAt(lines)[i]].IsSrc();
    }
  }

  lemma FirstShared(lines: seq<Line>) returns (i: nat)
    requires !NoSharedEdit(lines)
    ensures SharedEdit(lines, i) && forall k: nat :: k < i ==> !SharedEdit(lines, k)
  {
    var n: nat :| SharedEdit(lines, n);
    i := 0;
    while !SharedEdit(lines, i)
      invariant i <= n && forall k: nat :: k < i ==> !SharedEdit(lines, k)
      decreases n - i
    {
      i := i + 1;
    }
  }

  /** Context lines with the same index on both sides are never edited. */
  lemma AlignedIsSafe(lines: seq<Line>)
    requires Aligned(lines)
    ensures NoSharedEdit(lines)
  {
    forall i: nat ensures !SharedEdit(lines, i) {
      if SharedEdit(lines, i) {
        var k := SrcAtHas(lines, DstAt(lines)[i]);
      }
    }
  }

  /** Each destination line is untouched, or becomes its source line, which it lacked the last
      character of; the number of lines of either side stays. */
  lemma DstOutcome(lines: seq<Line>, i: nat)
    requires NoSharedEdit(lines)
    ensures var after := FixLines(lines).0;
      && |SrcLines(after)| == |SrcLines(lines)| && |DstLines(after)| == |DstLines(lines)|
      && (i < |DstLines(lines)| ==>
            || DstLines(after)[i] == DstLines(lines)[i]
            || (&& i < |SrcLines(lines)|
                && LacksBlank(SrcLines(lines)[i].text, DstLines(lines)[i].text)
                && DstLines(after)[i] == DstLines(lines)[i].(text := Chomp(SrcLines(lines)[i].text))))
      && (i < |DstLines(lines)| && i < |SrcLines(lines)|
          && LacksBlank(SrcLines(lines)[i].text, DstLines(lines)[i].text) ==>
            DstLines(after)[i].text == Chomp(SrcLines(lines)[i].text))
  {
    hide SrcAt, DstAt, Fires, FixFrom, SharedEdit, LacksBlank, AppendBlank;
    var after := FixLines(lines).0;
    KindsDecide(after, lines);
    SidesAt(after);
    SidesAt(lines);
    if i < Pairs(lines) {
      PairOutcome(lines, i);
    } else if i < |DstLines(lines)| {
      DstAtSorted(lines);
      Outcome(lines, DstAt(lines)[i]);
    }
  }

  lemma PairOutcome(lines: seq<Line>, i: nat)
    requires NoSharedEdit(lines) && i < Pairs(lines)
    ensures var s, d, after := lines[SrcAt(lines)[i]], lines[DstAt(lines)[i]], FixLines(lines).0[DstAt(lines)[i]];
      if LacksBlank(s.text, d.text) then after == d.(text := Chomp(s.text)) else after == d
  {
    hide SrcAt, DstAt, Fires, FixFrom, LacksBlank, AppendBlank, After;
    FiresIsEdits(lines, i);
    Judged(lines, i);
    FixWhole(lines);
    AfterStays(lines, Pairs(lines), i);
    if LacksBlank(lines[SrcAt(lines)[i]].text, lines[DstAt(lines)[i]].text) {
      forall k: nat | k < i && OneObject(lines, k, i) ensures !Fires(lines, k) {
        FiresIsEdits(lines, k);
        assert !SharedEdit(lines, k);
      }
      SourceKept(lines, i, i);
      BlankRestores(lines[SrcAt(lines)[i]].text, lines[DstAt(lines)[i]]);
    }
  }

  /** Up to the `n`-th pair a source line is as it was, unless it is a destination that has fired. */
  lemma SourceKept(lines: seq<Line>, n: nat, i: nat)
    requires n <= Pairs(lines) && i < |SrcAt(lines)|
    requires forall k: nat :: k < n && OneObject(lines, k, i) ==> !Fires(lines, k)
    ensures After(lines, n)[SrcAt(lines)[i]] == lines[SrcAt(lines)[i]]
  {
    hide SrcAt, DstAt, Fires, After, Blanked, LacksBlank;
    if k: nat :| k < n && OneObject(lines, k, i) {
      Judged(lines, k);
      AfterStays(lines, n, k);
    } else {
      SourceElsewhere(lines, n, i);
    }
  }

  // ---------------------------------------------------------------- a second run

  /** The `k`-th pair edits the source line of the `i`-th, judged before it, just so that this pair
      matches afterwards: the line had the text of its destination, or one blank more. */
  ghost predicate Reopened(lines: seq<Line>, i: nat, k: nat) {
    && i < k < Pairs(lines) && OneObject(lines, k, i) && Fires(lines, k)
    && (|| lines[SrcAt(lines)[i]].text == lines[DstAt(lines)[i]].text
        || LacksBlank(lines[SrcAt(lines)[i]].text, lines[DstAt(lines)[i]].text))
  }

  ghost predicate Settled(lines: seq<Line>) {
    forall i: nat, k: nat :: !Reopened(lines, i, k)
  }

  /** After the pass a pair matches again exactly if a later one has reopened it. */
  lemma EditsAgain(lines: seq<Line>, i: nat)
    ensures Edits(FixLines(lines).0, i) <==> exists k: nat :: Reopened(lines, i, k)
  {
    hide SrcAt, DstAt, Fires, FixFrom, LacksBlank, AppendBlank, After, Blanked;
    var r, n := FixLines(lines).0, Pairs(lines);
    KindsDecide(r, lines);
    if i < n {
      var s, d := SrcAt(lines)[i], DstAt(lines)[i];
      FixWhole(lines);
      Judged(lines, i);
      AfterStays(lines, n, i);
      if k: nat :| i < k < n && OneObject(lines, k, i) && Fires(lines, k) {
        DstAtSorted(lines);
        SourceKept(lines, i, i);
        Judged(lines, k);
        AfterStays(lines, n, k);
        BlankedLacks(lines[s], r[s], r[d].text);
        MatchesThen(lines, i, lines[s], r[s]);
        assert Reopened(lines, i, k) <==> LacksBlank(r[s].text, r[d].text);
      } else {
        NotReopened(lines, i);
      }
    }
  }

  /** Whether or not the pair fired, its destination has the source's text if it had it or lacked
      one blank of it. */
  lemma MatchesThen(lines: seq<Line>, i: nat, source: Line, blanked: Line)
    requires i < Pairs(lines) && source == lines[SrcAt(lines)[i]] == After(lines, i)[SrcAt(lines)[i]]
    requires Blanked(source, blanked)
    ensures source.text == After(lines, i + 1)[DstAt(lines)[i]].text <==>
      source.text == lines[DstAt(lines)[i]].text || LacksBlank(source.text, lines[DstAt(lines)[i]].text)
  {
    hide SrcAt, DstAt, Fires, LacksBlank, AppendBlank, After;
    var d := DstAt(lines)[i];
    Judged(lines, i);
    if LacksBlank(source.text, lines[d].text) {
      BlankRestores(source.text, lines[d]);
      assert Chomp(source.text) == source.text;
    }
  }

  /** A pair whose source line is not edited after it does not match any more. */
  lemma NotReopened(lines: seq<Line>, i: nat)
    requires i < Pairs(lines)
    requires forall k: nat :: i < k < Pairs(lines) && OneObject(lines, k, i) ==> !Fires(lines, k)
    ensures var after, s, d := After(lines, Pairs(lines)), SrcAt(lines)[i], DstAt(lines)[i];
      !LacksBlank(after[s].text, after[d].text)
  {
    hide SrcAt, DstAt, Fires, LacksBlank, AppendBlank, After, Blanked;
    var n, s, d := Pairs(lines), SrcAt(lines)[i], DstAt(lines)[i];
    var now := After(lines, i);
    Judged(lines, i);
    AfterStays(lines, n, i);
    if s == d {
      NotItself(After(lines, n)[s].text);
    } else {
      SourceStays(lines, i);
      if LacksBlank(now[s].text, now[d].text) {
        BlankRestores(now[s].text, now[d]);
      }
    }
  }

  lemma SourceStays(lines: seq<Line>, i: nat)
    requires i < Pairs(lines) && SrcAt(lines)[i] != DstAt(lines)[i]
    requires forall k: nat :: i < k < Pairs(lines) && OneObject(lines, k, i) ==> !Fires(lines, k)
    ensures After(lines, Pairs(lines))[SrcAt(lines)[i]] == After(lines, i)[SrcAt(lines)[i]]
  {
    hide SrcAt, DstAt, Fires, LacksBlank, AppendBlank, After, Blanked;
    var n, s := Pairs(lines), SrcAt(lines)[i];
    DstAtSorted(lines);
    if k: nat :| k < n && OneObject(lines, k, i) {
      Judged(lines, k);
      AfterStays(lines, n, k);
      if k < i {
        AfterStays(lines, i, k);
      } else {
        AfterElsewhere(lines, i, s);
      }
    } else {
      SourceElsewhere(lines, n, i);
      SourceElsewhere(lines, i, i);
    }
  }

  /** The pass changes nothing exactly if no pair matches. */
  lemma NothingToFix(lines: seq<Line>)
    ensures FixLines(lines).0 == lines <==> forall i: nat :: !Edits(lines, i)
  {
    hide SrcAt, DstAt, Fires, FixFrom, LacksBlank;
    if forall i: nat :: !Edits(lines, i) {
      forall j | 0 <= j < |lines| ensures FixLines(lines).0[j] == lines[j] {
        Outcome(lines, j);
        forall k: nat | k < Pairs(lines) ensures !Fires(lines, k) {
          FiresIsEdits(lines, k);
        }
      }
    } else {
      var i := FirstFire(lines);
      Outcome(lines, DstAt(lines)[i]);
    }
  }

  /** If some pair matches before the pass, some pair fires. */
  lemma FirstFire(lines: seq<Line>) returns (i: nat)
    requires exists i: nat :: Edits(lines, i)
    ensures i < Pairs(lines) && Fires(lines, i)
  {
    hide SrcAt, DstAt, LacksBlank;
    i :| Edits(lines, i);
    if m: nat :| m < i && OneObject(lines, m, i) && Fires(lines, m) {
      i := m;
    }
  }

  /** A second run changes nothing, and stops where the first one did, exactly when no pair was
      reopened. */
  lemma FixAgain(lines: seq<Line>)
    ensures FixLines(FixLines(lines).0) == FixLines(lines) <==> Settled(lines)
  {
    hide SrcAt, DstAt, FixFrom, Edits, Reopened;
    var r := FixLines(lines).0;
    KindsDecide(r, lines);
    FixWhole(r);
    FixWhole(lines);
    NothingToFix(r);
    forall i: nat ensures Edits(r, i) <==> exists k: nat :: Reopened(lines, i, k) {
      EditsAgain(lines, i);
    }
    if forall i: nat :: !Edits(r, i) {
      forall i: nat, k: nat ensures !Reopened(lines, i, k) {
        assert !Edits(r, i);
      }
    }
  }

  lemma SafeIsSettled(lines: seq<Line>)
    requires NoSharedEdit(lines)
    ensures Settled(lines)
  {
    hide SrcAt, DstAt, LacksBlank, Fires;
    forall i: nat, k: nat ensures !Reopened(lines, i, k) {
      FiresIsEdits(lines, k);
      assert !SharedEdit(lines, k);
    }
  }

  /** In particular when no context line was to be edited. */
  lemma FixTwice(lines: seq<Line>)
    requires NoSharedEdit(lines)
    ensures NoSharedEdit(FixLines(lines).0) && FixLines(FixLines(lines).0) == FixLines(lines)
  {
    hide NoSharedEdit, FixLines, Settled;
    SafeIsSettled(lines);
    FixAgain(lines);
    SrcSurvives(FixLines(lines).0);
  }

  // ---------------------------------------------------------------- the whole patch set

  predicate Complete(c: Chunk) {
    |SrcLines(c.lines)| <= |DstLines(c.lines)|
  }

  predicate AllComplete(cs: seq<Chunk>) {
    forall i :: 0 <= i < |cs| ==> Complete(cs[i])
  }

  /** No context line is edited in any chunk the pass gets to. */
  ghost predicate SafeChunks(cs: seq<Chunk>) {
    cs == [] || (NoSharedEdit(cs[0].lines) && (Complete(cs[0]) ==> SafeChunks(cs[1..])))
  }

  ghost predicate SafePatches(ps: seq<Patch>) {
    ps == [] || (SafeChunks(ps[0].chunks) && (AllComplete(ps[0].chunks) ==> SafePatches(ps[1..])))
  }

  ghost function SrcSides(cs: seq<Chunk>): seq<seq<Line>> {
    if cs == [] then [] else [SrcLines(cs[0].lines)] + SrcSides(cs[1..])
  }

  ghost function AllSrcSides(ps: seq<Patch>): seq<seq<seq<Line>>> {
    if ps == [] then [] else [SrcSides(ps[0].chunks)] + AllSrcSides(ps[1..])
  }

  lemma ConsEqual<T>(a: T, x: seq<T>, b: T, y: seq<T>)
    ensures [a] + x == [b] + y <==> a == b && x == y
  {
    if [a] + x == [b] + y {
      assert ([a] + x)[0] == a && ([b] + y)[0] == b;
      assert ([a] + x)[1..] == x && ([b] + y)[1..] == y;
    }
  }

  lemma ChunkComplete(c: Chunk)
    ensures FixChunk(c).1 <==> Complete(c)
  {
    SidesAt(c.lines);
    FixWhole(c.lines);
  }

  lemma AllCompleteCons(cs: seq<Chunk>)
    requires cs != []
    ensures AllComplete(cs) <==> Complete(cs[0]) && AllComplete(cs[1..])
  {
  }

  lemma {:induction false} ChunksSurvive(cs: seq<Chunk>)
    ensures FixChunks(cs).1 <==> AllComplete(cs)
    ensures SrcSides(FixChunks(cs).0) == SrcSides(cs) <==> SafeChunks(cs)
  {
    if cs != [] {
      hide Complete, NoSharedEdit, FixLines, SrcLines;
      ChunkComplete(cs[0]);
      AllCompleteCons(cs);
      ChunksSurvive(cs[1..]);
      SrcSurvives(cs[0].lines);
      var after, c := FixChunks(cs).0, FixChunk(cs[0]).0;
      assert after[0] == c && SrcSides(after) == [SrcLines(c.lines)] + SrcSides(after[1..]);
      ConsEqual(SrcLines(c.lines), SrcSides(after[1..]), SrcLines(cs[0].lines), SrcSides(cs[1..]));
      assert after[1..] == if Complete(cs[0]) then FixChunks(cs[1..]).0 else cs[1..];
    }
  }

  /** The source sides survive exactly when no context line is edited on the way. */
  lemma {:induction false} SourcesSurvive(ps: seq<Patch>)
    ensures AllSrcSides(FixPatches(ps).0) == AllSrcSides(ps) <==> SafePatches(ps)
  {
    if ps != [] {
      hide AllComplete, SafeChunks, FixChunks, SrcSides;
      ChunksSurvive(ps[0].chunks);
      SourcesSurvive(ps[1..]);
      var after, cs := FixPatches(ps).0, FixChunks(ps[0].chunks).0;
      assert after[0].chunks == cs && AllSrcSides(after) == [SrcSides(cs)] + AllSrcSides(after[1..]);
      ConsEqual(SrcSides(cs), AllSrcSides(after[1..]), SrcSides(ps[0].chunks), AllSrcSides(ps[1..]));
      assert after[1..] == if AllComplete(ps[0].chunks) then FixPatches(ps[1..]).0 else ps[1..];
    }
  }

  /** The same positions and the same numbers of lines on both sides. */
  ghost predicate SameOutline(a: Chunk, b: Chunk) {
    && a.srcPos == b.srcPos && a.dstPos == b.dstPos && SameKinds(a.lines, b.lines)
    && |SrcLines(a.lines)| == |SrcLines(b.lines)| && |DstLines(a.lines)| == |DstLines(b.lines)|
  }

  ghost predicate SameOutlines(a: seq<Chunk>, b: seq<Chunk>) {
    |a| == |b| && forall i :: 0 <= i < |a| ==> SameOutline(a[i], b[i])
  }

  lemma {:induction false} ChunksOutline(cs: seq<Chunk>)
    ensures SameOutlines(FixChunks(cs).0, cs)
  {
    if cs != [] {
      var c := FixChunk(cs[0]).0;
      SidesAt(c.lines);
      SidesAt(cs[0].lines);
      KindsDecide(c.lines, cs[0].lines);
      ChunksOutline(cs[1..]);
    }
  }

  lemma OutlineOfSame(cs: seq<Chunk>)
    ensures SameOutlines(cs, cs)
  {
  }

  /** File names, positions and counts always stay, aligned or not. */
  lemma {:induction false} OutlineKept(ps: seq<Patch>, i: nat)
    requires i < |ps|
    ensures |FixPatches(ps).0| == |ps|
    ensures var a, b := FixPatches(ps).0[i], ps[i];
      a.src == b.src && a.dst == b.dst && SameOutlines(a.chunks, b.chunks)
  {
    hide SameOutlines, FixChunks;
    ChunksOutline(ps[0].chunks);
    OutlineOfSame(ps[i].chunks);
    if |ps| > 1 {
      OutlineKept(ps[1..], if i > 0 then i - 1 else 0);
    }
  }

  /** All chunks before chunk `j` of patch `i` have a destination line for each source line. */
  ghost predicate Reached(ps: seq<Patch>, i: nat, j: nat)
    requires i < |ps| && j <= |ps[i].chunks|
  {
    && (forall m :: 0 <= m < i ==> AllComplete(ps[m].chunks))
    && (forall k :: 0 <= k < j ==> Complete(ps[i].chunks[k]))
  }

  lemma {:induction false} ChunkOutcome(cs: seq<Chunk>, j: nat)
    requires j < |cs|
    ensures |FixChunks(cs).0| == |cs|
    ensures FixChunks(cs).0[j] == if forall k :: 0 <= k < j ==> Complete(cs[k]) then FixChunk(cs[j]).0 else cs[j]
  {
    hide Complete, FixLines;
    ChunkComplete(cs[0]);
    if j > 0 {
      ChunkOutcome(cs[1..], j - 1);
      assert (forall k :: 0 <= k < j ==> Complete(cs[k]))
        <==> Complete(cs[0]) && forall k :: 0 <= k < j - 1 ==> Complete(cs[1..][k]);
    } else if Complete(cs[0]) && |cs| > 1 {
      ChunkOutcome(cs[1..], 0);
    }
  }

  /** The pass edits exactly the chunks it reaches: it stops after the first one that has fewer
      destination lines than source lines. */
  lemma {:induction false} PassOutcome(ps: seq<Patch>, i: nat, j: nat)
    requires i < |ps| && j < |ps[i].chunks|
    ensures |FixPatches(ps).0| == |ps| && |FixPatches(ps).0[i].chunks| == |ps[i].chunks|
    ensures FixPatches(ps).0[i].chunks[j]
      == if Reached(ps, i, j) then FixChunk(ps[i].chunks[j]).0 else ps[i].chunks[j]
  {
    hide FixChunk, FixChunks, Complete, AllComplete;
    ChunksSurvive(ps[0].chunks);
    OutlineKept(ps, i);
    if i == 0 {
      ChunkOutcome(ps[0].chunks, j);
    } else {
      PassOutcome(ps[1..], i - 1, j);
      assert ps[1..][i - 1] == ps[i];
      assert (forall m :: 0 <= m < i ==> AllComplete(ps[m].chunks))
        <==> AllComplete(ps[0].chunks) && forall m :: 0 <= m < i - 1 ==> AllComplete(ps[1..][m].chunks);
    }
  }

  /** No pair is reopened in any chunk the pass gets to. */
  ghost predicate SettledChunks(cs: seq<Chunk>) {
    cs == [] || (Settled(cs[0].lines) && (Complete(cs[0]) ==> SettledChunks(cs[1..])))
  }

  ghost predicate SettledPatches(ps: seq<Patch>) {
    ps == [] || (SettledChunks(ps[0].chunks) && (AllComplete(ps[0].chunks) ==> SettledPatches(ps[1..])))
  }

  lemma {:induction false} ChunksAgain(cs: seq<Chunk>)
    ensures FixChunks(FixChunks(cs).0) == FixChunks(cs) <==> SettledChunks(cs)
    ensures FixChunks(FixChunks(cs).0).1 == FixChunks(cs).1
  {
    if cs != [] {
      hide Settled, FixLines, Complete;
      var after, c := FixChunks(cs).0, FixChunk(cs[0]).0;
      FixAgain(cs[0].lines);
      ChunkComplete(cs[0]);
      ChunkComplete(c);
      SameComplete(cs[0]);
      if Complete(cs[0]) {
        ChunksAgain(cs[1..]);
        assert after[1..] == FixChunks(cs[1..]).0;
        ConsEqual(FixChunk(c).0, FixChunks(after[1..]).0, c, after[1..]);
      } else {
        assert after[1..] == cs[1..];
        ConsEqual(FixChunk(c).0, cs[1..], c, cs[1..]);
      }
    }
  }

  lemma SameComplete(c: Chunk)
    ensures Complete(FixChunk(c).0) == Complete(c)
  {
    hide FixLines;
    KindsDecide(FixLines(c.lines).0, c.lines);
    SidesAt(c.lines);
    SidesAt(FixLines(c.lines).0);
  }

  /** Running the pass again changes nothing, early return included, exactly when no pair was
      reopened on the way. */
  lemma {:induction false} PassAgain(ps: seq<Patch>)
    ensures FixPatches(FixPatches(ps).0) == FixPatches(ps) <==> SettledPatches(ps)
    ensures FixPatches(FixPatches(ps).0).1 == FixPatches(ps).1
  {
    if ps != [] {
      hide SettledChunks, FixChunks, AllComplete;
      var after, cs := FixPatches(ps).0, FixChunks(ps[0].chunks).0;
      var p, again := ps[0].(chunks := cs), ps[0].(chunks := FixChunks(cs).0);
      ChunksAgain(ps[0].chunks);
      ChunksSurvive(ps[0].chunks);
      assert after[0] == p;
      if AllComplete(ps[0].chunks) {
        PassAgain(ps[1..]);
        assert after[1..] == FixPatches(ps[1..]).0;
        ConsEqual(again, FixPatches(after[1..]).0, p, after[1..]);
      } else {
        assert after[1..] == ps[1..];
        ConsEqual(again, ps[1..], p, ps[1..]);
      }
    }
  }

  lemma {:induction false} SafeChunksSettled(cs: seq<Chunk>)
    requires SafeChunks(cs)
    ensures SettledChunks(cs)
  {
    if cs != [] {
      hide NoSharedEdit, Settled, Complete;
      SafeIsSettled(cs[0].lines);
      if Complete(cs[0]) { SafeChunksSettled(cs[1..]); }
    }
  }

  lemma {:induction false} SafePatchesSettled(ps: seq<Patch>)
    requires SafePatches(ps)
    ensures SettledPatches(ps)
  {
    if ps != [] {
      hide SafeChunks, SettledChunks, AllComplete;
      SafeChunksSettled(ps[0].chunks);
      if AllComplete(ps[0].chunks) { SafePatchesSettled(ps[1..]); }
    }
  }

  /** In particular when no context line was edited on the way. */
  lemma PassTwice(ps: seq<Patch>)
    requires SafePatches(ps)
    ensures FixPatches(FixPatches(ps).0) == FixPatches(ps)
  {
    SafePatchesSettled(ps);
    PassAgain(ps);
  }

  lemma {:induction false} AlignedChunks(cs: seq<Chunk>)
    requires forall c :: c in cs ==> Aligned(c.lines)
    ensures SafeChunks(cs)
  {
    if cs != [] {
      hide Aligned, NoSharedEdit, Complete;
      AlignedIsSafe(cs[0].lines);
      AlignedChunks(cs[1..]);
    }
  }

  /** Patches all of whose context lines have the same index on both sides keep their source
      sides, and a second run changes nothing. */
  lemma {:induction false} AlignedPatches(ps: seq<Patch>)
    requires forall p, c :: p in ps && c in p.chunks ==> Aligned(c.lines)
    ensures SafePatches(ps)
    ensures AllSrcSides(FixPatches(ps).0) == AllSrcSides(ps) && FixPatches(FixPatches(ps).0) == FixPatches(ps)
  {
    hide Aligned, SafeChunks, AllComplete;
    if ps != [] {
      AlignedChunks(ps[0].chunks);
      AlignedPatches(ps[1..]);
    }
    SourcesSurvive(ps);
    PassTwice(ps);
  }

  lemma BlankLacked()
    ensures LacksBlank("a ", "a")
  {
    assert Chomp("a ") == "a ";
  }

  lemma SharedSides()
    ensures var lines := [Line(Src, "a "), Line(Both, "a"), Line(Dst, "b")];
      SrcAt(lines) == [0, 1] && DstAt(lines) == [1, 2]
  {
    var lines := [Line(Src, "a "), Line(Both, "a"), Line(Dst, "b")];
    assert lines[..2] == [Line(Src, "a "), Line(Both, "a")];
    assert lines[..2][..1] == [Line(Src, "a ")];
    assert SrcAt(lines[..2][..1]) == [0] && DstAt(lines[..2][..1]) == [];
    assert SrcAt(lines[..2]) == [0, 1] && DstAt(lines[..2]) == [1];
  }

  /** A context line that also serves as a source line further on is edited on both sides. */
  lemma SharedEditExample()
    ensures var lines := [Line(Src, "a "), Line(Both, "a"), Line(Dst, "b")];
      !NoSharedEdit(lines) && SrcLines(FixLines(lines).0) != SrcLines(lines)
  {
    hide SrcAt, DstAt, FixLines, SrcLines, LacksBlank;
    var lines := [Line(Src, "a "), Line(Both, "a"), Line(Dst, "b")];
    SharedSides();
    BlankLacked();
    assert SharedEdit(lines, 0);
    SrcSurvives(lines);
  }

  lemma ReopenedSides()
    ensures var lines := [Line(Dst, "a"), Line(Both, "a"), Line(Src, "a ")];
      SrcAt(lines) == [1, 2] && DstAt(lines) == [0, 1]
  {
    var lines := [Line(Dst, "a"), Line(Both, "a"), Line(Src, "a ")];
    assert lines[..2] == [Line(Dst, "a"), Line(Both, "a")];
    assert lines[..2][..1] == [Line(Dst, "a")];
    assert SrcAt(lines[..2][..1]) == [] && DstAt(lines[..2][..1]) == [0];
    assert SrcAt(lines[..2]) == [1] && DstAt(lines[..2]) == [0, 1];
  }

  /** A source line edited after its own pair was judged: the second run edits one more line. */
  lemma ReopenedExample()
    ensures var lines := [Line(Dst, "a"), Line(Both, "a"), Line(Src, "a ")];
      !Settled(lines) && FixLines(FixLines(lines).0) != FixLines(lines)
  {
    hide SrcAt, DstAt, Fires, FixLines, LacksBlank;
    var lines := [Line(Dst, "a"), Line(Both, "a"), Line(Src, "a ")];
    ReopenedSides();
    BlankLacked();
    assert !SharedEdit(lines, 0);
    FiresIsEdits(lines, 1);
    assert Reopened(lines, 0, 1);
    FixAgain(lines);
  }
}
