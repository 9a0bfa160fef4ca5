/** What `parse_patchset` builds from any lines it accepts, and which error it raises at which line
    of those it does not. */
module PatchContents {
  import opened PatchFormat

  // ---------------------------------------------------------------- what the lines hold

  /** The names of the source files, in order. */
  ghost function SrcNames(lines: seq<string>): seq<string> {
    if lines == [] then []
    else
      var front := SrcNames(lines[..|lines| - 1]);
      match Classify(lines[|lines| - 1])
      case SrcFile(name) => front + [name]
      case _ => front
  }

  /** For each source file the last name of a destination file before the next source file. */
  ghost function DstNames(lines: seq<string>): seq<string> {
    if lines == [] then []
    else
      var front := DstNames(lines[..|lines| - 1]);
      match Classify(lines[|lines| - 1])
      case SrcFile(_) => front + [""]
      case DstFile(name) => if front == [] then [] else front[|front| - 1 := name]
      case _ => front
  }

  /** For each source file the number of chunk headers before the next one. */
  ghost function ChunkCounts(lines: seq<string>): seq<nat> {
    if lines == [] then []
    else
      var front := ChunkCounts(lines[..|lines| - 1]);
      match Classify(lines[|lines| - 1])
      case SrcFile(_) => front + [0]
      case ChunkStart(_) => if front == [] then [] else front[|front| - 1 := front[|front| - 1] + 1]
      case _ => front
  }

  /** The positions in the chunk headers, in order. */
  ghost function Positions(lines: seq<string>): seq<(nat, nat)> {
    if lines == [] then []
    else
      var front := Positions(lines[..|lines| - 1]);
      match Classify(lines[|lines| - 1])
      case ChunkStart(ns) => front + [(ns.srcPos, ns.dstPos)]
      case _ => front
  }

  /** For each chunk header the lines of the chunk: those before the next header, be there names of
      files between or not. */
  ghost function Bodies(lines: seq<string>): seq<seq<Line>> {
    if lines == [] then []
    else
      var front := Bodies(lines[..|lines| - 1]);
      match Classify(lines[|lines| - 1])
      case ChunkStart(_) => front + [[]]
      case Body(l) => if front == [] then [] else front[|front| - 1 := front[|front| - 1] + [l]]
      case _ => front
  }

  // ---------------------------------------------------------------- what the patches hold

  ghost function AllChunks(ps: seq<Patch>): seq<Chunk> {
    if ps == [] then [] else AllChunks(ps[..|ps| - 1]) + ps[|ps| - 1].chunks
  }

  ghost predicate Holds(ps: seq<Patch>, lines: seq<string>) {
    var cs := AllChunks(ps);
    && |ps| == |SrcNames(lines)| == |DstNames(lines)| == |ChunkCounts(lines)|
    && |cs| == |Positions(lines)| == |Bodies(lines)|
    && (forall i :: 0 <= i < |ps| ==> ps[i].src == SrcNames(lines)[i])
    && (forall i :: 0 <= i < |ps| ==> ps[i].dst == DstNames(lines)[i])
    && (forall i :: 0 <= i < |ps| ==> |ps[i].chunks| == ChunkCounts(lines)[i])
    && (forall j :: 0 <= j < |cs| ==> (cs[j].srcPos, cs[j].dstPos) == Positions(lines)[j])
    && (forall j :: 0 <= j < |cs| ==> cs[j].lines == Bodies(lines)[j])
  }

  /** The current chunk is the last one of all. */
  ghost predicate CurrentIsLast(st: ParseState) {
    if st.current.None? then AllChunks(st.patches) == []
    else
      var n := st.current.value;
      && n < |st.patches| && st.patches[n].chunks != []
      && forall i :: n < i < |st.patches| ==> st.patches[i].chunks == []
  }

  lemma AllChunksPush(ps: seq<Patch>, p: Patch)
    ensures AllChunks(ps + [p]) == AllChunks(ps) + p.chunks
  {
    assert (ps + [p])[..|ps|] == ps;
  }

  lemma {:induction false} SameChunks(ps: seq<Patch>, n: nat, p: Patch)
    requires n < |ps| && p.chunks == ps[n].chunks
    ensures AllChunks(ps[n := p]) == AllChunks(ps)
  {
    var last := |ps| - 1;
    if n == last {
      assert ps[n := p][..last] == ps[..last];
    } else {
      SameChunks(ps[..last], n, p);
      assert ps[n := p][..last] == ps[..last][n := p];
    }
  }

  /** Another patch in place of the last one that has chunks. */
  lemma {:induction false} LastChunks(ps: seq<Patch>, n: nat, p: Patch)
    requires n < |ps| && forall i :: n < i < |ps| ==> ps[i].chunks == []
    ensures AllChunks(ps[n := p]) == AllChunks(ps[..n]) + p.chunks
    ensures AllChunks(ps) == AllChunks(ps[..n]) + ps[n].chunks
  {
    var last := |ps| - 1;
    if n == last {
      assert ps[n := p][..last] == ps[..last];
    } else {
      LastChunks(ps[..last], n, p);
      assert ps[n := p][..last] == ps[..last][n := p] && ps[..last][..n] == ps[..n];
    }
  }

  lemma OneMore(lines: seq<string>, line: string)
    ensures (lines + [line])[..|lines + [line]| - 1] == lines && (lines + [line])[|lines + [line]| - 1] == line
  {
  }

  lemma SrcFileHeld(st: ParseState, lines: seq<string>, line: string, name: string)
    requires StateOk(st) && CurrentIsLast(st) && Holds(st.patches, lines) && Classify(line) == SrcFile(name)
    ensures Step(st, line).Ok?
    ensures CurrentIsLast(Step(st, line).value) && Holds(Step(st, line).value.patches, lines + [line])
  {
    hide Classify, AllChunks;
    OneMore(lines, line);
    AllChunksPush(st.patches, Patch(name, "", []));
  }

  lemma DstFileHeld(st: ParseState, lines: seq<string>, line: string, name: string)
    requires StateOk(st) && CurrentIsLast(st) && Holds(st.patches, lines) && Classify(line) == DstFile(name)
    requires Step(st, line).Ok?
    ensures CurrentIsLast(Step(st, line).value) && Holds(Step(st, line).value.patches, lines + [line])
  {
    hide Classify, AllChunks;
    var n := |st.patches| - 1;
    OneMore(lines, line);
    SameChunks(st.patches, n, st.patches[n].(dst := name));
  }

  lemma ChunkStartHeld(st: ParseState, lines: seq<string>, line: string, ns: Numbers)
    requires StateOk(st) && CurrentIsLast(st) && Holds(st.patches, lines) && Classify(line) == ChunkStart(ns)
    requires Step(st, line).Ok?
    ensures CurrentIsLast(Step(st, line).value) && Holds(Step(st, line).value.patches, lines + [line])
  {
    hide Classify, AllChunks;
    var n := |st.patches| - 1;
    var c := Chunk(ns.srcPos, ns.dstPos, []);
    OneMore(lines, line);
    LastChunks(st.patches, n, st.patches[n].(chunks := st.patches[n].chunks + [c]));
    assert AllChunks(Step(st, line).value.patches) == AllChunks(st.patches) + [c];
  }

  lemma BodyHeld(st: ParseState, lines: seq<string>, line: string, l: Line)
    requires StateOk(st) && CurrentIsLast(st) && Holds(st.patches, lines) && Classify(line) == Body(l)
    requires Step(st, line).Ok?
    ensures CurrentIsLast(Step(st, line).value) && Holds(Step(st, line).value.patches, lines + [line])
  {
    hide Classify, AllChunks;
    var n, ps := st.current.value, st.patches;
    var p := AddLine(ps[n], l);
    OneMore(lines, line);
    LastChunks(ps, n, p);
    var cs, cs' := AllChunks(ps), AllChunks(ps[n := p]);
    var m := |cs| - 1;
    assert cs'[..m] == cs[..m] && cs' == cs[m := cs[m].(lines := cs[m].lines + [l])];
  }

  lemma StepHeld(st: ParseState, lines: seq<string>, line: string)
    requires StateOk(st) && CurrentIsLast(st) && Holds(st.patches, lines) && Step(st, line).Ok?
    ensures CurrentIsLast(Step(st, line).value) && Holds(Step(st, line).value.patches, lines + [line])
  {
    hide Classify, CurrentIsLast, Holds;
    match Classify(line)
    case SrcFile(name) => SrcFileHeld(st, lines, line, name);
    case DstFile(name) => DstFileHeld(st, lines, line, name);
    case ChunkStart(ns) => ChunkStartHeld(st, lines, line, ns);
    case Body(l) => BodyHeld(st, lines, line, l);
    case Unknown =>
  }

  lemma {:induction false} ParseHeld(st: ParseState, before: seq<string>, lines: seq<string>)
    requires StateOk(st) && CurrentIsLast(st) && Holds(st.patches, before)
    ensures ParseFrom(st, lines).Ok? ==> Holds(ParseFrom(st, lines).value.patches, before + lines)
    decreases |lines|
  {
    hide Step, CurrentIsLast, Holds;
    if lines == [] {
      assert before + lines == before;
    } else if Step(st, lines[0]).Ok? {
      StepHeld(st, before, lines[0]);
      ParseHeld(Step(st, lines[0]).value, before + [lines[0]], lines[1..]);
      assert before + [lines[0]] + lines[1..] == before + lines;
    }
  }

  /** The patches parsed from any accepted lines: their file names, how many chunks each has, and the
      positions and lines of all chunks in a row. */
  lemma ParsedContents(lines: seq<string>)
    ensures Parse(lines).Ok? ==> Holds(Parse(lines).value, lines)
  {
    hide ParseFrom, Holds;
    NothingHeld();
    ParseHeld(START, [], lines);
    assert [] + lines == lines;
  }

  lemma NothingHeld()
    ensures Holds([], []) && CurrentIsLast(START)
  {
  }

  // ---------------------------------------------------------------- which error

  /** The error that a line of this form raises where it is not acceptable. */
  function ErrorOf(item: Item): ParseError {
    match item
    case Unknown => UnknownLine
    case Body(_) => UnboundLocalError
    case _ => AttributeError
  }

  lemma {:induction false} RefusedFrom(st: ParseState, lines: seq<string>, named: bool, chunked: bool) returns (i: nat)
    requires StateOk(st) && ParseFrom(st, lines).Err?
    requires named == (st.patches != []) && chunked == st.current.Some?
    ensures i < |lines| && !Acceptable(lines, i, named, chunked)
    ensures forall j :: 0 <= j < i ==> Acceptable(lines, j, named, chunked)
    ensures ParseFrom(st, lines).error == ErrorOf(Classify(lines[i]))
    decreases |lines|
  {
    hide Classify, Acceptable;
    StepAccepted(st, lines);
    if Step(st, lines[0]).Err? {
      i := 0;
    } else {
      var named', chunked' := named || Classify(lines[0]).SrcFile?, chunked || Classify(lines[0]).ChunkStart?;
      var k := RefusedFrom(Step(st, lines[0]).value, lines[1..], named', chunked');
      i := k + 1;
      AcceptableShift(lines, k, named, chunked);
      forall j | 0 <= j < i ensures Acceptable(lines, j, named, chunked) {
        if j > 0 {
          AcceptableShift(lines, j - 1, named, chunked);
          assert Acceptable(lines[1..], j - 1, named', chunked');
        }
      }
    }
  }

  /** Parsing fails at the first line that is not acceptable, with the error of its form. */
  lemma Refused(lines: seq<string>) returns (i: nat)
    requires Parse(lines).Err?
    ensures i < |lines| && !Acceptable(lines, i, false, false)
    ensures forall j :: 0 <= j < i ==> Acceptable(lines, j, false, false)
    ensures Parse(lines).error ==
      if Classify(lines[i]).Unknown? then UnknownLine
      else if Classify(lines[i]).Body? then UnboundLocalError
      else AttributeError
  {
    hide ParseFrom, Classify, Acceptable;
    i := RefusedFrom(START, lines, false, false);
  }
}
