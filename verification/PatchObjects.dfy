/** The mutable objects of `check-style.py`: lines, chunks and patches, the parser that builds
    them and the pass that edits destination lines in place. */
module PatchObjects {
  import opened PatchFormat
  import opened WhitespacePass

  class PatchChunkLine {
    var kind: Kind
    var line: string
    ghost const chunk: PatchChunk  // the one chunk that will hold the line

    constructor (ghost chunk: PatchChunk)
      ensures kind == Unset && line == "" && this.chunk == chunk
    {
      kind, line := Unset, "";
      this.chunk := chunk;
    }

    function Value(): Line
      reads this
    {
      Line(kind, line)
    }

    method SetSrc(line: string)
      modifies this
      ensures Value() == Line(Src, line)
    {
      kind, this.line := Src, line;
    }

    method SetDst(line: string)
      modifies this
      ensures Value() == Line(Dst, line)
    {
      kind, this.line := Dst, line;
    }

    method SetBoth(line: string)
      modifies this
      ensures Value() == Line(Both, line)
    {
      kind, this.line := Both, line;
    }

    /** What is written to the file, unless the type was never set. */
    method Write() returns (out: Option<string>)
      ensures out == if kind == Unset then None else Some(WriteLine(Value()))
    {
      match kind {
        case Src => out := Some("-" + line + "\n");
        case Dst => out := Some("+" + line + "\n");
        case Both => out := Some(" " + line + "\n");
        case Unset => out := None;
      }
    }

    method AppendToLine(s: string)
      modifies this
      ensures Value() == old(Value()).(text := old(line) + s)
    {
      line := line + s;
    }
  }

  class PatchChunk {
    var lines: seq<PatchChunkLine>
    var srcPos: nat
    var dstPos: nat
    ghost const patch: Patch  // the one patch that will hold the chunk

    constructor (srcPos: nat, dstPos: nat, ghost patch: Patch)
      ensures lines == [] && this.srcPos == srcPos && this.dstPos == dstPos && this.patch == patch
    {
      lines := [];
      this.patch := patch;
      this.srcPos, this.dstPos := srcPos, dstPos;
    }

    ghost predicate Valid()
      reads this
    {
      && (forall i, j :: 0 <= i < j < |lines| ==> lines[i] != lines[j])
      && (forall l :: l in lines ==> l.chunk == this)
    }

    function Values(): (vs: seq<Line>)
      reads this, lines
      ensures |vs| == |lines|
    {
      seq(|lines|, i requires 0 <= i < |lines| reads this, lines => lines[i].Value())
    }

    function Value(): Chunk
      reads this, lines
    {
      Chunk(srcPos, dstPos, Values())
    }

    method AddLine(line: PatchChunkLine)
      modifies this`lines
      ensures lines == old(lines) + [line]
    {
      lines := lines + [line];
    }

    method PutLine(l: Line) returns (line: PatchChunkLine)
      requires Valid() && l.kind != Unset
      modifies this`lines
      ensures fresh(line) && lines == old(lines) + [line] && Valid() && Values() == old(Values()) + [l]
    {
      line := new PatchChunkLine(this);
      match l.kind {
        case Src => line.SetSrc(l.text);
        case Dst => line.SetDst(l.text);
        case Both => line.SetBoth(l.text);
      }
      AddLine(line);
    }

    /** The line objects of the source side: the very objects the chunk holds. */
    method SrcSide() returns (src: seq<PatchChunkLine>)
      ensures |src| == |SrcAt(Values())| && forall i :: 0 <= i < |src| ==> src[i] == lines[SrcAt(Values())[i]]
    {
      src := [];
      for n := 0 to |lines|
        invariant |src| == |SrcAt(Values()[..n])|
        invariant forall i :: 0 <= i < |src| ==> src[i] == lines[SrcAt(Values()[..n])[i]]
      {
        assert Values()[..n + 1][..n] == Values()[..n];
        var line := lines[n];
        if line.kind == Src || line.kind == Both {
          src := src + [line];
        }
      }
      assert Values()[..|lines|] == Values();
    }

    method DstSide() returns (dst: seq<PatchChunkLine>)
      ensures |dst| == |DstAt(Values())| && forall i :: 0 <= i < |dst| ==> dst[i] == lines[DstAt(Values())[i]]
    {
      dst := [];
      for n := 0 to |lines|
        invariant |dst| == |DstAt(Values()[..n])|
        invariant forall i :: 0 <= i < |dst| ==> dst[i] == lines[DstAt(Values()[..n])[i]]
      {
        assert Values()[..n + 1][..n] == Values()[..n];
        var line := lines[n];
        if line.kind == Dst || line.kind == Both {
          dst := dst + [line];
        }
      }
      assert Values()[..|lines|] == Values();
    }

    /** The strings written, up to the first line whose type was never set. */
    method Write() returns (out: seq<string>, ok: bool)
      ensures ok <==> LinesSet(Values())
      ensures ok ==> out == WriteChunk(Value())
      ensures !ok ==> CutShort(Value(), out)
    {
      var src := SrcSide();
      var dst := DstSide();
      SidesAt(Values());
      ghost var c := Value();
      hide SrcLines, DstLines, SrcAt, DstAt, Header, WriteLine;
      out := [Header(srcPos, |src|, dstPos, |dst|)];
      assert out == [HeaderOf(c)];
      for i := 0 to |lines|
        invariant LinesSet(c.lines[..i]) && out == [HeaderOf(c)] + WriteLines(c.lines[..i])
      {
        assert lines[i].Value() == c.lines[i];
        var text := lines[i].Write();
        if text.None? {
          assert i < |c.lines| && c.lines[i].kind == Unset;
          return out, false;
        }
        WriteNext(c.lines, i);
        out := out + [text.value];
      }
      assert c.lines[..|lines|] == c.lines;
      return out, true;
    }

    /** Edits the destination lines of one chunk; false if a source line has no partner. */
    method RemoveTrailing() returns (complete: bool)
      requires Valid()
      modifies lines
      ensures (Values(), complete) == FixLines(old(Values()))
    {
      hide SrcAt, DstAt, FixFrom, TrailingBlank, SameKinds;
      ghost var before := Values();
      ghost var srcAt, dstAt := SrcAt(before), DstAt(before);
      var src := SrcSide();
      var dst := DstSide();
      FixBegins(before);
      var i := 0;
      while i < |src|
        invariant i <= |src| && lines == old(lines)
        invariant FixFrom(Values(), srcAt, dstAt, i) == FixLines(before)
        decreases |src| - i
      {
        FixNext(Values(), srcAt, dstAt, i);
        if i >= |dst| {
          return false;
        }
        PairStep(src[i], dst[i], srcAt[i], dstAt[i]);
        i := i + 1;
      }
      FixNext(Values(), srcAt, dstAt, i);
      return true;
    }

    /** One round of the loop: the destination line may be the source line itself, or another
        context line. */
    method PairStep(s: PatchChunkLine, d: PatchChunkLine, ghost sAt: nat, ghost dAt: nat)
      requires Valid() && sAt < |lines| && dAt < |lines| && s == lines[sAt] && d == lines[dAt]
      modifies d
      ensures Values() == FixPair(old(Values()), sAt, dAt)
    {
      hide TrailingBlank;
      ghost var now := Values();
      assert now[sAt] == s.Value() && now[dAt] == d.Value();
      var m := TrailingBlank(s.line);
      if m.Some? && m.value.0 == d.line {
        d.AppendToLine(m.value.1);
        assert Values() == now[dAt := d.Value()];
      }
    }
  }

  /** What is written of a chunk up to the line of no type that raises the exception. */
  ghost predicate CutShort(c: Chunk, out: seq<string>) {
    exists n: nat :: n < |c.lines| && c.lines[n].kind == Unset && LinesSet(c.lines[..n])
      && out == [HeaderOf(c)] + WriteLines(c.lines[..n])
  }

  lemma WriteNext(ls: seq<Line>, i: nat)
    requires i < |ls| && LinesSet(ls[..i]) && ls[i].kind != Unset
    ensures LinesSet(ls[..i + 1]) && WriteLines(ls[..i + 1]) == WriteLines(ls[..i]) + [WriteLine(ls[i])]
  {
  }

  lemma FixBegins(lines: seq<Line>)
    ensures FixFrom(lines, SrcAt(lines), DstAt(lines), 0) == FixLines(lines)
  {
  }

  class Patch {
    var src: string
    var dst: string
    var chunks: seq<PatchChunk>

    constructor ()
      ensures src == "" && dst == "" && chunks == []
    {
      src, dst, chunks := "", "", [];
    }

    ghost predicate Valid()
      reads this, chunks
    {
      && (forall i, j :: 0 <= i < j < |chunks| ==> chunks[i] != chunks[j])
      && (forall c :: c in chunks ==> c.patch == this && c.Valid())
    }

    ghost function Lines(): set<PatchChunkLine>
      reads this, chunks
    {
      set c, l | c in chunks && l in c.lines :: l
    }

    lemma LinesOf(i: nat)
      requires i < |chunks|
      ensures forall l :: l in chunks[i].lines ==> l in Lines()
    {
    }

    /** The patch holds these chunks. */
    ghost predicate Holds(cs: seq<Chunk>)
      reads this, chunks, Lines()
    {
      |chunks| == |cs| && forall i :: 0 <= i < |cs| ==>
        (LinesOf(i); chunks[i].Value() == cs[i])
    }

    ghost predicate Is(p: PatchFormat.Patch)
      reads this, chunks, Lines()
    {
      Valid() && src == p.src && dst == p.dst && Holds(p.chunks)
    }

    method SetSrc(src: string)
      modifies this`src
      ensures this.src == src
    {
      this.src := src;
    }

    method SetDst(dst: string)
      modifies this`dst
      ensures this.dst == dst
    {
      this.dst := dst;
    }

    method AddChunk(chunk: PatchChunk)
      modifies this`chunks
      ensures chunks == old(chunks) + [chunk]
    {
      chunks := chunks + [chunk];
    }

    method Write(ghost cs: seq<Chunk>) returns (out: seq<string>, ok: bool)
      requires Holds(cs)
      ensures ok <==> ChunksSet(cs)
      ensures ok ==> out == WritePatch(PatchFormat.Patch(src, dst, cs))
      ensures !ok ==>
        exists i: nat, text ::
          && i < |cs| && (forall j :: 0 <= j < i ==> LinesSet(cs[j].lines)) && CutShort(cs[i], text)
          && out == ["--- " + src + "\n", "+++ " + dst + "\n"] + WriteChunks(cs[..i]) + text
    {
      hide LinesSet, WriteChunk, CutShort;
      out := ["--- " + src + "\n", "+++ " + dst + "\n"];
      for i := 0 to |chunks|
        invariant forall j :: 0 <= j < i ==> LinesSet(cs[j].lines)
        invariant out == ["--- " + src + "\n", "+++ " + dst + "\n"] + WriteChunks(cs[..i])
      {
        var text, done := chunks[i].Write();
        assert chunks[i].Value() == cs[i];
        if !done {
          assert CutShort(cs[i], text);
          return out + text, false;
        }
        WriteOneMore(cs, i);
        out := out + text;
      }
      assert cs[..|chunks|] == cs;
      return out, true;
    }

    method RemoveTrailing(ghost cs: seq<Chunk>) returns (complete: bool)
      requires Valid() && Holds(cs)
      modifies Lines()
      ensures Valid() && Holds(FixChunks(cs).0) && complete == FixChunks(cs).1
    {
      hide FixChunk, FixChunks;
      ghost var now := cs;
      for i := 0 to |chunks|
        invariant Valid() && Lines() == old(Lines()) && Holds(now) && |now| == |cs|
        invariant forall j :: 0 <= j < i ==> (now[j], true) == FixChunk(cs[j])
        invariant forall j :: i <= j < |cs| ==> now[j] == cs[j]
      {
        LinesOf(i);
        var done := RemoveTrailingAt(now, i);
        now := now[i := FixChunk(cs[i]).0];
        if !done {
          FixChunksStop(cs, now, i);
          return false;
        }
      }
      FixChunksAll(cs, now);
      return true;
    }

    method RemoveTrailingAt(ghost cs: seq<Chunk>, i: nat) returns (complete: bool)
      requires Valid() && Holds(cs) && i < |chunks|
      modifies chunks[i].lines
      ensures Valid() && Lines() == old(Lines())
      ensures Holds(cs[i := FixChunk(cs[i]).0]) && complete == FixChunk(cs[i]).1
    {
      hide FixLines;
      complete := chunks[i].RemoveTrailing();
      forall j | 0 <= j < |chunks| && j != i ensures chunks[j].Value() == cs[j] {
        assert chunks[i] != chunks[j] && chunks[i].Valid() && chunks[j].Valid();
        assert forall l :: l in chunks[j].lines ==> l !in chunks[i].lines;
        assert chunks[j].lines == old(chunks[j].lines);
        assert forall l :: l in chunks[j].lines ==> l.Value() == old(l.Value());
        assert chunks[j].Values() == old(chunks[j].Values());
      }
    }
  }

  lemma {:induction false} WriteOneMore(cs: seq<Chunk>, i: nat)
    requires i < |cs| && forall j :: 0 <= j <= i ==> LinesSet(cs[j].lines)
    ensures WriteChunks(cs[..i + 1]) == WriteChunks(cs[..i]) + WriteChunk(cs[i])
  {
    hide LinesSet, WriteChunk;
    if i > 0 {
      WriteOneMore(cs[1..], i - 1);
      assert cs[..i + 1][1..] == cs[1..][..i] && cs[..i][1..] == cs[1..][..i - 1];
    } else {
      assert cs[..1][1..] == [] && cs[..0] == [];
    }
  }

  lemma {:induction false} FixChunksAll(cs: seq<Chunk>, after: seq<Chunk>)
    requires |after| == |cs| && forall j :: 0 <= j < |cs| ==> (after[j], true) == FixChunk(cs[j])
    ensures FixChunks(cs) == (after, true)
  {
    hide FixChunk;
    if cs != [] {
      FixChunksAll(cs[1..], after[1..]);
      assert [after[0]] + after[1..] == after;
    }
  }

  lemma {:induction false} FixChunksStop(cs: seq<Chunk>, after: seq<Chunk>, i: nat)
    requires i < |after| == |cs| && forall j :: 0 <= j < i ==> (after[j], true) == FixChunk(cs[j])
    requires (after[i], false) == FixChunk(cs[i]) && forall j :: i < j < |cs| ==> after[j] == cs[j]
    ensures FixChunks(cs) == (after, false)
  {
    hide FixChunk;
    if i > 0 {
      FixChunksStop(cs[1..], after[1..], i - 1);
      assert [after[0]] + after[1..] == after;
    } else {
      assert [after[0]] + cs[1..] == after;
    }
  }

  // ---------------------------------------------------------------- patch sets

  /** The objects of a patch set, each with the value it has. */
  ghost predicate Denotes(patches: seq<Patch>, ps: seq<PatchFormat.Patch>)
    reads patches, Chunks(patches), AllLines(patches)
  {
    && |patches| == |ps|
    && (forall i, j :: 0 <= i < j < |patches| ==> patches[i] != patches[j])
    && (forall i :: 0 <= i < |patches| ==>
          (InSet(patches, i); patches[i].Is(ps[i])))
  }

  ghost function Chunks(patches: seq<Patch>): set<PatchChunk>
    reads patches
  {
    set p, c | p in patches && c in p.chunks :: c
  }

  ghost function AllLines(patches: seq<Patch>): set<PatchChunkLine>
    reads patches, Chunks(patches)
  {
    set p, c, l | p in patches && c in p.chunks && l in c.lines :: l
  }

  lemma InSet(patches: seq<Patch>, i: nat)
    requires i < |patches|
    ensures forall c :: c in patches[i].chunks ==> c in Chunks(patches)
    ensures patches[i].Lines() <= AllLines(patches)
  {
  }

  lemma {:induction false} FixPatchesAll(ps: seq<PatchFormat.Patch>, after: seq<PatchFormat.Patch>)
    requires |after| == |ps|
    requires forall j :: 0 <= j < |ps| ==>
      after[j] == ps[j].(chunks := FixChunks(ps[j].chunks).0) && FixChunks(ps[j].chunks).1
    ensures FixPatches(ps) == (after, true)
  {
    hide FixChunks;
    if ps != [] {
      FixPatchesAll(ps[1..], after[1..]);
      assert [after[0]] + after[1..] == after;
    }
  }

  lemma {:induction false} FixPatchesStop(ps: seq<PatchFormat.Patch>, after: seq<PatchFormat.Patch>, i: nat)
    requires i < |after| == |ps|
    requires forall j :: 0 <= j <= i ==>
      after[j] == ps[j].(chunks := FixChunks(ps[j].chunks).0) && (FixChunks(ps[j].chunks).1 <==> j < i)
    requires forall j :: i < j < |ps| ==> after[j] == ps[j]
    ensures FixPatches(ps) == (after, false)
  {
    hide FixChunks;
    if i > 0 {
      FixPatchesStop(ps[1..], after[1..], i - 1);
      assert [after[0]] + after[1..] == after;
    } else {
      assert [after[0]] + ps[1..] == after;
    }
  }

  /** The loops of remove_trailing_whitespace_changes over a parsed patch set. */
  method RemoveTrailing(patches: seq<Patch>, ghost ps: seq<PatchFormat.Patch>)
    requires Denotes(patches, ps)
    modifies AllLines(patches)
    ensures Denotes(patches, FixPatches(ps).0)
  {
    hide FixChunks, FixPatches;
    ghost var now := ps;
    for i := 0 to |patches|
      invariant Denotes(patches, now) && AllLines(patches) == old(AllLines(patches)) && |now| == |ps|
      invariant forall j :: 0 <= j < i ==>
        now[j] == ps[j].(chunks := FixChunks(ps[j].chunks).0) && FixChunks(ps[j].chunks).1
      invariant forall j :: i <= j < |ps| ==> now[j] == ps[j]
    {
      InSet(patches, i);
      var done := RemoveTrailingIn(patches, now, i);
      now := now[i := ps[i].(chunks := FixChunks(ps[i].chunks).0)];
      if !done {
        FixPatchesStop(ps, now, i);
        return;
      }
    }
    FixPatchesAll(ps, now);
  }

  method RemoveTrailingIn(patches: seq<Patch>, ghost ps: seq<PatchFormat.Patch>, i: nat) returns (complete: bool)
    requires Denotes(patches, ps) && i < |patches|
    modifies patches[i].Lines()
    ensures AllLines(patches) == old(AllLines(patches)) && complete == FixChunks(ps[i].chunks).1
    ensures Denotes(patches, ps[i := ps[i].(chunks := FixChunks(ps[i].chunks).0)])
  {
    hide FixChunks;
    forall j | 0 <= j < |patches| && j != i ensures patches[j].Lines() !! patches[i].Lines() {
      LinesApart(patches[i], patches[j]);
    }
    complete := patches[i].RemoveTrailing(ps[i].chunks);
  }

  lemma LinesApart(p: Patch, q: Patch)
    requires p != q && p.Valid() && q.Valid()
    ensures p.Lines() !! q.Lines()
  {
  }

  // ---------------------------------------------------------------- parse_patchset

  method OpenPatch(patches: seq<Patch>, ghost ps: seq<PatchFormat.Patch>, name: string) returns (patch: Patch)
    requires Denotes(patches, ps)
    ensures fresh(patch) && Denotes(patches + [patch], ps + [PatchFormat.Patch(name, "", [])])
    ensures patch.chunks == []
  {
    patch := new Patch();
    patch.SetSrc(name);
    assert forall i :: 0 <= i < |patches| ==> (patches + [patch])[i] == patches[i];
  }

  method NameDst(patches: seq<Patch>, patch: Patch, ghost ps: seq<PatchFormat.Patch>, name: string)
    requires Denotes(patches, ps) && patches != [] && patch == patches[|patches| - 1]
    modifies patch`dst
    ensures var n := |ps| - 1; Denotes(patches, ps[n := ps[n].(dst := name)])
  {
    patch.SetDst(name);
  }

  method OpenChunk(patches: seq<Patch>, patch: Patch, ghost ps: seq<PatchFormat.Patch>, srcPos: nat, dstPos: nat)
    returns (chunk: PatchChunk)
    requires Denotes(patches, ps) && patches != [] && patch == patches[|patches| - 1]
    modifies patch`chunks
    ensures fresh(chunk) && chunk.lines == []
    ensures var n := |ps| - 1; Denotes(patches, ps[n := ps[n].(chunks := ps[n].chunks + [Chunk(srcPos, dstPos, [])])])
    ensures patch.chunks == old(patch.chunks) + [chunk]
  {
    chunk := new PatchChunk(srcPos, dstPos, patch);
    assert forall c :: c in patch.chunks ==> c in Chunks(patches);
    patch.AddChunk(chunk);
  }

  method PutLine(patches: seq<Patch>, ghost k: nat, chunk: PatchChunk, ghost ps: seq<PatchFormat.Patch>, l: Line)
    returns (line: PatchChunkLine)
    requires Denotes(patches, ps) && k < |patches| && patches[k].chunks != [] && l.kind != Unset
    requires chunk == patches[k].chunks[|patches[k].chunks| - 1]
    modifies chunk`lines
    ensures fresh(line) && chunk.lines == old(chunk.lines) + [line]
    ensures ps[k].chunks != [] && Denotes(patches, ps[k := AddLine(ps[k], l)])
  {
    assert patches[k].Is(ps[k]);
    forall j | 0 <= j < |patches| && j != k ensures chunk !in patches[j].chunks {
      assert patches[j].Is(ps[j]);
    }
    ghost var cs := patches[k].chunks;
    line := chunk.PutLine(l);
    forall j | 0 <= j < |cs| - 1 ensures cs[j].Valid() && cs[j].Value() == ps[k].chunks[j] {
      assert cs[j].Values() == old(cs[j].Values());
    }
    assert patches[k].Is(AddLine(ps[k], l));
  }

  /** The loop's variables against the state of the parser. */
  ghost predicate Parsed(patches: seq<Patch>, currentPatch: Patch?, currentChunk: PatchChunk?, st: ParseState)
    reads patches, Chunks(patches), AllLines(patches)
  {
    && StateOk(st) && Denotes(patches, st.patches) && |patches| == |st.patches|
    && currentPatch == (if patches == [] then null else patches[|patches| - 1])
    && (st.current.None? ==> currentChunk == null)
    && (st.current.Some? ==>
          var cs := patches[st.current.value].chunks;
          cs != [] && currentChunk == cs[|cs| - 1])
  }

  method ParsePatchset(lines: seq<string>) returns (r: Result<seq<Patch>>)
    ensures r.Ok? <==> Parse(lines).Ok?
    ensures r.Err? ==> r.error == Parse(lines).error
    ensures r.Ok? ==> Denotes(r.value, Parse(lines).value) && fresh(AllLines(r.value))
  {
    hide Classify, Denotes, ParseFrom, AllLines;
    var patches: seq<Patch> := [];
    var currentPatch: Patch? := null;
    var currentChunk: PatchChunk? := null;
    ghost var st := START;
    NothingParsed(lines);
    for i := 0 to |lines|
      invariant forall p :: p in patches ==> fresh(p)
      invariant forall p, c :: p in patches && c in p.chunks ==> fresh(c)
      invariant forall p, c, l :: p in patches && c in p.chunks && l in c.lines ==> fresh(l)
      invariant Parsed(patches, currentPatch, currentChunk, st) && ParseFrom(START, lines) == ParseFrom(st, lines[i..])
    {
      ParseNext(st, lines, i);
      match Classify(lines[i]) {
        case SrcFile(name) =>
          currentPatch := OpenPatch(patches, st.patches, name);
          patches := patches + [currentPatch];
        case DstFile(name) =>
          if currentPatch == null {
            return Err(AttributeError);
          }
          assert currentPatch in patches;
          NameDst(patches, currentPatch, st.patches, name);
        case ChunkStart(ns) =>
          if currentPatch == null {
            return Err(AttributeError);
          }
          assert currentPatch in patches;
          currentChunk := OpenChunk(patches, currentPatch, st.patches, ns.srcPos, ns.dstPos);
        case Body(l) =>
          if currentChunk == null {
            return Err(UnboundLocalError);
          }
          assert patches[st.current.value] in patches && currentChunk in patches[st.current.value].chunks;
          var line := PutLine(patches, st.current.value, currentChunk, st.patches, l);
        case Unknown =>
          return Err(UnknownLine);
      }
      st := Step(st, lines[i]).value;
    }
    NothingLeft(st, lines);
    assert forall l :: l in AllLines(patches) ==> fresh(l) by { FreshLines(patches); }
    return Ok(patches);
  }

  lemma NothingLeft(st: ParseState, lines: seq<string>)
    requires StateOk(st)
    ensures ParseFrom(st, lines[|lines|..]) == Ok(st)
  {
  }

  lemma FreshLines(patches: seq<Patch>)
    ensures forall l :: l in AllLines(patches) ==> exists p, c :: p in patches && c in p.chunks && l in c.lines
  {
  }

  lemma NothingParsed(lines: seq<string>)
    ensures Denotes([], []) && lines[0..] == lines
  {
  }

  lemma ParseNext(st: ParseState, lines: seq<string>, i: nat)
    requires StateOk(st) && i < |lines|
    ensures ParseFrom(st, lines[i..]) ==
      if Step(st, lines[i]).Ok? then ParseFrom(Step(st, lines[i]).value, lines[i + 1..]) else Step(st, lines[i])
    ensures Classify(lines[i]).Body? ==> Classify(lines[i]).line.kind != Unset
  {
  }

  method RemoveTrailingWhitespaceChanges(lines: seq<string>) returns (r: Result<seq<Patch>>)
    ensures r.Ok? <==> RunOn(lines).Ok?
    ensures r.Err? ==> r.error == RunOn(lines).error
    ensures r.Ok? ==> Denotes(r.value, RunOn(lines).value)
  {
    hide Parse, FixPatches, Denotes, AllLines;
    r := ParsePatchset(lines);
    if r.Ok? {
      RemoveTrailing(r.value, Parse(lines).value);
    }
  }
}
