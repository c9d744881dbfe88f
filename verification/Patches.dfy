/** The mutable patch objects, their printing, and the parser that builds them
    (simulation/utils/check-style.py). */
module Patches {
  import opened Outcomes
  import T = PatchText
  import R = PatchRoundTrip

  class File {
    var text: string

    constructor ()
      ensures text == ""
    {
      text := "";
    }

    method Write(s: string)
      modifies this
      ensures text == old(text) + s
    {
      text := text + s;
    }
  }

  class PatchChunkLine {
    var kind: T.Kind
    var line: string

    constructor ()
      ensures kind == T.NONE && line == ""
    {
      kind, line := T.NONE, "";
    }

    function View(): T.Line
      reads this
    {
      T.Line(kind, line)
    }

    method SetSrc(line: string)
      modifies this
      ensures View() == T.Line(T.SRC, line)
    {
      kind := T.SRC;
      this.line := line;
    }

    method SetDst(line: string)
      modifies this
      ensures View() == T.Line(T.DST, line)
    {
      kind := T.DST;
      this.line := line;
    }

    method SetBoth(line: string)
      modifies this
      ensures View() == T.Line(T.BOTH, line)
    {
      kind := T.BOTH;
      this.line := line;
    }

    predicate IsSrc()
      reads this
    {
      kind == T.SRC || kind == T.BOTH
    }

    predicate IsDst()
      reads this
    {
      kind == T.DST || kind == T.BOTH
    }

    // A line whose kind is not set raises an exception.
    method Write(f: File) returns (raised: bool)
      modifies f
      ensures raised <==> kind == T.NONE
      ensures f.text == old(f.text) + if raised then "" else R.LineText(View()) + "\n"
    {
      raised := false;
      match kind
      case SRC => f.Write("-" + line + "\n");
      case DST => f.Write("+" + line + "\n");
      case BOTH => f.Write(" " + line + "\n");
      case NONE => raised := true;
    }
  }

  ghost function LineViews(lines: seq<PatchChunkLine>): (r: seq<T.Line>)
    reads lines
    ensures |r| == |lines|
  {
    seq(|lines|, i requires 0 <= i < |lines| reads lines => lines[i].View())
  }

  // The lines of the given kinds, in their order.
  ghost function OfKinds(lines: seq<PatchChunkLine>, kinds: set<T.Kind>): seq<PatchChunkLine>
    reads lines
  {
    if lines == [] then [] else
      var last := lines[|lines| - 1];
      OfKinds(lines[..|lines| - 1], kinds) + if last.kind in kinds then [last] else []
  }

  class PatchChunk {
    var lines: seq<PatchChunkLine>
    var srcPos: int
    var dstPos: int

    constructor (srcPos: int, dstPos: int)
      ensures lines == [] && this.srcPos == srcPos && this.dstPos == dstPos
    {
      lines := [];
      this.srcPos, this.dstPos := srcPos, dstPos;
    }

    ghost function View(): T.Chunk
      reads this, lines
    {
      T.Chunk(srcPos, dstPos, LineViews(lines))
    }

    method AddLine(line: PatchChunkLine)
      modifies this`lines
      ensures lines == old(lines) + [line]
      ensures View() == old(View()).(lines := old(View()).lines + [line.View()])
    {
      lines := lines + [line];
      assert LineViews(lines) == old(LineViews(lines)) + [line.View()];
    }

    method Src() returns (src: seq<PatchChunkLine>)
      ensures |src| == R.Sources(View().lines)
      ensures src == OfKinds(lines, {T.SRC, T.BOTH})
      ensures forall l :: l in src <==> l in lines && l.IsSrc()
    {
      src := [];
      for i := 0 to |lines|
        invariant |src| == R.Sources(LineViews(lines)[..i])
        invariant src == OfKinds(lines[..i], {T.SRC, T.BOTH})
        invariant forall l :: l in src <==> l in lines[..i] && l.IsSrc()
      {
        assert LineViews(lines)[..i + 1][..i] == LineViews(lines)[..i] && lines[..i + 1][..i] == lines[..i];
        if lines[i].IsSrc() {
          src := src + [lines[i]];
        }
      }
      assert LineViews(lines)[..|lines|] == LineViews(lines) && lines[..|lines|] == lines;
    }

    method Dst() returns (dst: seq<PatchChunkLine>)
      ensures |dst| == R.Destinations(View().lines)
      ensures dst == OfKinds(lines, {T.DST, T.BOTH})
      ensures forall l :: l in dst <==> l in lines && l.IsDst()
    {
      dst := [];
      for i := 0 to |lines|
        invariant |dst| == R.Destinations(LineViews(lines)[..i])
        invariant dst == OfKinds(lines[..i], {T.DST, T.BOTH})
        invariant forall l :: l in dst <==> l in lines[..i] && l.IsDst()
      {
        assert LineViews(lines)[..i + 1][..i] == LineViews(lines)[..i] && lines[..i + 1][..i] == lines[..i];
        if lines[i].IsDst() {
          dst := dst + [lines[i]];
        }
      }
      assert LineViews(lines)[..|lines|] == LineViews(lines) && lines[..|lines|] == lines;
    }

    method SrcLen() returns (n: nat)
      ensures n == R.Sources(View().lines)
    {
      var src := Src();
      n := |src|;
    }

    method DstLen() returns (n: nat)
      ensures n == R.Destinations(View().lines)
    {
      var dst := Dst();
      n := |dst|;
    }

    // The header with the counts, then the lines up to one whose kind is not set.
    method Write(f: File) returns (raised: bool)
      modifies f
      ensures raised <==> Raises(View())
      ensures f.text == old(f.text) + R.FileText(ChunkWrites(View()))
      ensures !raised ==> f.text == old(f.text) + R.FileText(R.ChunkTexts(View()))
      ensures !raised && srcPos >= 0 && dstPos >= 0 ==> R.CountsInHeader(R.ChunkTexts(View()), srcPos, dstPos)
    {
      hide T.HeaderText, R.FileText, R.LineTexts, R.LineText, Raises, ChunkWrites, LinesText, SetBefore,
        R.CountsInHeader;
      raised := false;
      var srcLen := SrcLen();
      var dstLen := DstLen();
      var header := T.HeaderText(srcPos, srcLen, dstPos, dstLen, "");
      f.Write(header + "\n");
      ghost var views := LineViews(lines);
      HeaderWritten(header, views);
      for i := 0 to |lines|
        invariant LineViews(lines) == views
        invariant f.text == old(f.text) + LinesText(header, views, i)
        invariant SetBefore(views, i)
      {
        assert lines[i].View() == views[i];
        raised := lines[i].Write(f);
        assert LineViews(lines) == views;
        if raised {
          LinesWritten(View(), header, i);
          return;
        }
        LineWritten(old(f.text), header, views, i);
      }
      LinesWritten(View(), header, |lines|);
      CountsWritten(View());
    }
  }

  lemma CountsWritten(c: T.Chunk)
    requires SetBefore(c.lines, |c.lines|)
    ensures c.srcPos >= 0 && c.dstPos >= 0 ==> R.CountsInHeader(R.ChunkTexts(c), c.srcPos, c.dstPos)
  {
    hide R.CountsInHeader, R.ChunkTexts;
    if c.srcPos >= 0 && c.dstPos >= 0 {
      R.WrittenCounts(c);
    }
  }

  // What a chunk with this header writes up to its i-th line.
  ghost function LinesText(header: string, lines: seq<T.Line>, i: nat): string
    requires i <= |lines|
  {
    R.FileText([header] + R.LineTexts(lines[..i]))
  }

  ghost predicate SetBefore(lines: seq<T.Line>, i: nat)
    requires i <= |lines|
  {
    forall j :: 0 <= j < i ==> lines[j].kind != T.NONE
  }

  // What has been written when the loop over the lines ends.
  lemma LinesWritten(c: T.Chunk, header: string, i: nat)
    requires i <= |c.lines| && header == R.ChunkTexts(c)[0]
    requires SetBefore(c.lines, i) && (i < |c.lines| ==> c.lines[i].kind == T.NONE)
    ensures Raises(c) <==> i < |c.lines|
    ensures R.FileText(ChunkWrites(c)) == LinesText(header, c.lines, i)
    ensures i == |c.lines| ==> R.ChunkTexts(c) == ChunkWrites(c)
  {
    hide R.LineTexts, T.HeaderText, R.FileText;
    assert LinesBefore(c.lines) == i;
    assert c.lines[..|c.lines|] == c.lines;
  }

  // The number of lines in front of the first one whose kind is not set.
  ghost function LinesBefore(lines: seq<T.Line>): (i: nat)
    ensures i <= |lines| && forall j :: 0 <= j < i ==> lines[j].kind != T.NONE
    ensures i < |lines| ==> lines[i].kind == T.NONE
  {
    if lines == [] || lines[0].kind == T.NONE then 0 else 1 + LinesBefore(lines[1..])
  }

  ghost predicate Raises(c: T.Chunk) { LinesBefore(c.lines) < |c.lines| }

  ghost function ChunkWrites(c: T.Chunk): seq<string> {
    [R.ChunkTexts(c)[0]] + R.LineTexts(c.lines[..LinesBefore(c.lines)])
  }

  lemma HeaderWritten(header: string, lines: seq<T.Line>)
    ensures LinesText(header, lines, 0) == header + "\n" && SetBefore(lines, 0)
  {
    assert [header] + R.LineTexts(lines[..0]) == [header];
    OneText(header);
  }

  lemma LineWritten(before: string, header: string, lines: seq<T.Line>, i: nat)
    requires i < |lines| && SetBefore(lines, i) && lines[i].kind != T.NONE
    ensures before + LinesText(header, lines, i) + (R.LineText(lines[i]) + "\n")
      == before + LinesText(header, lines, i + 1)
    ensures SetBefore(lines, i + 1)
  {
    assert lines[..i + 1][..i] == lines[..i];
    assert [header] + R.LineTexts(lines[..i + 1])
      == [header] + R.LineTexts(lines[..i]) + [R.LineText(lines[i])];
    MoreText([header] + R.LineTexts(lines[..i]), R.LineText(lines[i]));
    hide R.FileText, R.LineText, R.LineTexts;
    Joined(before, R.FileText([header] + R.LineTexts(lines[..i])), R.LineText(lines[i]) + "\n");
  }

  lemma Joined(a: string, b: string, c: string)
    ensures a + b + c == a + (b + c)
  {
  }

  lemma OneText(t: string)
    ensures R.FileText([t]) == t + "\n"
  {
    assert [t][..0] == [];
    assert R.FileText([]) == "";
  }

  lemma MoreText(texts: seq<string>, t: string)
    ensures R.FileText(texts + [t]) == R.FileText(texts) + (t + "\n")
  {
    assert (texts + [t])[..|texts|] == texts;
  }

  lemma {:induction false} FileTextAppend(a: seq<string>, b: seq<string>)
    ensures R.FileText(a + b) == R.FileText(a) + R.FileText(b)
  {
    if b == [] {
      assert a + b == a;
    } else {
      hide R.FileText;
      var front, last := b[..|b| - 1], b[|b| - 1];
      FileTextAppend(a, front);
      assert b == front + [last];
      MoreText(a + front, last);
      MoreText(front, last);
      assert a + b == (a + front) + [last];
      Joined(R.FileText(a), R.FileText(front), last + "\n");
    }
  }

  ghost function LinesOf(chunks: seq<PatchChunk>): (r: set<object>)
    reads chunks
    ensures forall k, l :: 0 <= k < |chunks| && l in chunks[k].lines ==> l in r
    ensures forall o :: o in r ==> o is PatchChunkLine
  {
    set c, l | c in chunks && l in c.lines :: l
  }

  ghost function ChunkViews(chunks: seq<PatchChunk>): (r: seq<T.Chunk>)
    reads chunks, LinesOf(chunks)
    ensures |r| == |chunks|
  {
    seq(|chunks|, k requires 0 <= k < |chunks| reads chunks, LinesOf(chunks) => chunks[k].View())
  }

  class Patch {
    var src: string
    var dst: string
    var chunks: seq<PatchChunk>

    constructor ()
      ensures src == dst == "" && chunks == []
    {
      src, dst, chunks := "", "", [];
    }

    ghost function View(): T.Patch
      reads this, chunks, LinesOf(chunks)
    {
      T.Patch(src, dst, ChunkViews(chunks))
    }

    method AddChunk(chunk: PatchChunk)
      modifies this`chunks
      ensures chunks == old(chunks) + [chunk]
    {
      chunks := chunks + [chunk];
    }

    method SetSrc(src: string)
      modifies this`src
      ensures this.src == src
    {
      this.src := src;
    }

    method SetDst(dst: string)
      modifies this`dst
      ensures this.dst == dst
    {
      this.dst := dst;
    }

    // The names, then the chunks up to one that raises an exception.
    method Write(f: File) returns (raised: bool)
      modifies f
      ensures raised <==> ChunksBefore(View().chunks) < |chunks|
      ensures f.text == old(f.text) + R.FileText(["--- " + src, "+++ " + dst] + ChunksWrite(View().chunks))
      ensures !raised ==> f.text == old(f.text) + R.FileText(R.PatchTexts(View()))
    {
      hide R.FileText, R.AllChunkTexts, R.ChunkTexts, ChunkWrites, Raises, ChunksWrite, ChunksText, NoneRaises;
      raised := false;
      f.Write("--- " + src + "\n");
      f.Write("+++ " + dst + "\n");
      ghost var views := ChunkViews(chunks);
      NamesWritten(old(f.text), src, dst, views);
      for k := 0 to |chunks|
        invariant ChunkViews(chunks) == views
        invariant f.text == old(f.text) + ChunksText(src, dst, views, k)
        invariant NoneRaises(views, k)
      {
        assert chunks[k].View() == views[k];
        raised := chunks[k].Write(f);
        assert ChunkViews(chunks) == views;
        if raised {
          StoppedAt(old(f.text), src, dst, views, k);
          return;
        }
        ChunkWritten(old(f.text), src, dst, views, k);
      }
      NotStopped(T.Patch(src, dst, views));
    }
  }

  // What a patch with these names writes up to its k-th chunk.
  ghost function ChunksText(src: string, dst: string, chunks: seq<T.Chunk>, k: nat): string
    requires k <= |chunks|
  {
    R.FileText(["--- " + src, "+++ " + dst] + R.AllChunkTexts(chunks[..k]))
  }

  ghost predicate NoneRaises(chunks: seq<T.Chunk>, k: nat)
    requires k <= |chunks|
  {
    forall j :: 0 <= j < k ==> !Raises(chunks[j])
  }

  // The number of chunks in front of the first one that raises.
  ghost function ChunksBefore(chunks: seq<T.Chunk>): (k: nat)
    ensures k <= |chunks| && forall j :: 0 <= j < k ==> !Raises(chunks[j])
    ensures k < |chunks| ==> Raises(chunks[k])
  {
    if chunks == [] || Raises(chunks[0]) then 0 else 1 + ChunksBefore(chunks[1..])
  }

  ghost function ChunksWrite(chunks: seq<T.Chunk>): seq<string> {
    var k := ChunksBefore(chunks);
    R.AllChunkTexts(chunks[..k]) + if k < |chunks| then ChunkWrites(chunks[k]) else []
  }

  lemma StoppedAt(before: string, src: string, dst: string, chunks: seq<T.Chunk>, k: nat)
    requires k < |chunks| && Raises(chunks[k]) && NoneRaises(chunks, k)
    ensures ChunksBefore(chunks) == k
    ensures before + ChunksText(src, dst, chunks, k) + R.FileText(ChunkWrites(chunks[k]))
      == before + R.FileText(["--- " + src, "+++ " + dst] + ChunksWrite(chunks))
  {
    hide R.FileText, R.AllChunkTexts, ChunkWrites, Raises;
    var names := ["--- " + src, "+++ " + dst];
    assert ChunksBefore(chunks) == k;
    FileTextAppend(names + R.AllChunkTexts(chunks[..k]), ChunkWrites(chunks[k]));
    assert names + ChunksWrite(chunks) == names + R.AllChunkTexts(chunks[..k]) + ChunkWrites(chunks[k]);
    hide NoneRaises, ChunksBefore, ChunksWrite;
    Joined(before, R.FileText(names + R.AllChunkTexts(chunks[..k])), R.FileText(ChunkWrites(chunks[k])));
  }

  lemma NotStopped(p: T.Patch)
    requires NoneRaises(p.chunks, |p.chunks|)
    ensures ChunksBefore(p.chunks) == |p.chunks|
    ensures ChunksText(p.src, p.dst, p.chunks, |p.chunks|)
      == R.FileText(["--- " + p.src, "+++ " + p.dst] + ChunksWrite(p.chunks)) == R.FileText(R.PatchTexts(p))
  {
    hide R.AllChunkTexts, R.FileText, Raises;
    assert p.chunks[..|p.chunks|] == p.chunks;
    assert ChunksWrite(p.chunks) == R.AllChunkTexts(p.chunks);
  }

  lemma NamesWritten(before: string, src: string, dst: string, chunks: seq<T.Chunk>)
    ensures before + ("--- " + src + "\n") + ("+++ " + dst + "\n") == before + ChunksText(src, dst, chunks, 0)
    ensures NoneRaises(chunks, 0)
  {
    var a, b := "--- " + src, "+++ " + dst;
    assert [a, b] + R.AllChunkTexts(chunks[..0]) == [a] + [b];
    OneText(a);
    MoreText([a], b);
    hide R.FileText, R.AllChunkTexts;
    Joined(before, a + "\n", b + "\n");
  }

  lemma ChunkWritten(before: string, src: string, dst: string, chunks: seq<T.Chunk>, k: nat)
    requires k < |chunks| && !Raises(chunks[k]) && NoneRaises(chunks, k)
    ensures before + ChunksText(src, dst, chunks, k) + R.FileText(R.ChunkTexts(chunks[k]))
      == before + ChunksText(src, dst, chunks, k + 1)
    ensures NoneRaises(chunks, k + 1)
  {
    hide R.FileText, R.ChunkTexts, Raises;
    var names := ["--- " + src, "+++ " + dst];
    assert chunks[..k + 1][..k] == chunks[..k];
    assert names + R.AllChunkTexts(chunks[..k + 1]) == names + R.AllChunkTexts(chunks[..k]) + R.ChunkTexts(chunks[k]);
    hide R.AllChunkTexts;
    FileTextAppend(names + R.AllChunkTexts(chunks[..k]), R.ChunkTexts(chunks[k]));
    Joined(before, R.FileText(names + R.AllChunkTexts(chunks[..k])), R.FileText(R.ChunkTexts(chunks[k])));
  }

  // ---------- the parser ----------

  ghost predicate LinesMatch(lines: seq<PatchChunkLine>, values: seq<T.Line>)
    reads lines
  {
    |lines| == |values| && forall j :: 0 <= j < |lines| ==> lines[j].View() == values[j]
  }

  ghost predicate ChunkMatches(chunk: PatchChunk, value: T.Chunk)
    reads chunk, chunk.lines
  {
    chunk.srcPos == value.srcPos && chunk.dstPos == value.dstPos && LinesMatch(chunk.lines, value.lines)
  }

  ghost predicate PatchMatches(patch: Patch, value: T.Patch)
    reads patch, patch.chunks, LinesOf(patch.chunks)
  {
    && patch.src == value.src && patch.dst == value.dst
    && |patch.chunks| == |value.chunks|
    && forall k :: 0 <= k < |patch.chunks| ==>
         ChunkMatches(patch.chunks[k], value.chunks[k])
  }

  lemma MatchMeansView(patch: Patch, value: T.Patch)
    requires PatchMatches(patch, value)
    ensures patch.View() == value
  {
    forall k | 0 <= k < |patch.chunks|
      ensures patch.chunks[k].View() == value.chunks[k]
    {
      assert ChunkMatches(patch.chunks[k], value.chunks[k]);
      assert LineViews(patch.chunks[k].lines) == value.chunks[k].lines;
    }
    assert ChunkViews(patch.chunks) == value.chunks;
  }

  // No patch and no chunk occurs twice.
  ghost predicate Apart(patchset: seq<Patch>)
    reads patchset
  {
    && (forall i, j :: 0 <= i < j < |patchset| ==> patchset[i] != patchset[j])
    && (forall i, k, j, m :: At(patchset, i, k) && At(patchset, j, m) && (i != j || k != m) ==>
          patchset[i].chunks[k] != patchset[j].chunks[m])
  }

  ghost predicate At(patchset: seq<Patch>, i: int, k: int)
    reads patchset
  {
    0 <= i < |patchset| && 0 <= k < |patchset[i].chunks|
  }

  ghost function ChunksOf(patchset: seq<Patch>): (r: set<object>)
    reads patchset
    ensures forall i, c :: 0 <= i < |patchset| && c in patchset[i].chunks ==> c in r
    ensures forall o :: o in r ==> o is PatchChunk
  {
    set p, c | p in patchset && c in p.chunks :: c
  }

  ghost function PartsOf(patchset: seq<Patch>): (r: set<object>)
    reads patchset, ChunksOf(patchset)
    ensures ChunksOf(patchset) <= r
    ensures forall i, o :: 0 <= i < |patchset| && o in LinesOf(patchset[i].chunks) ==> o in r
    ensures forall o :: o in r ==> o is PatchChunk || o is PatchChunkLine
  {
    ChunksOf(patchset) + set i, o | 0 <= i < |patchset| && o in LinesOf(patchset[i].chunks) :: o
  }

  // The objects are what the parser on values has built, and the current chunk is the same one.
  ghost predicate Builds(patchset: seq<Patch>, chunk: PatchChunk?, st: R.Parser)
    reads patchset, PartsOf(patchset)
  {
    && |patchset| == |st.patches|
    && Apart(patchset)
    && (forall i :: 0 <= i < |patchset| ==>
          PatchMatches(patchset[i], st.patches[i]))
    && match st.current
       case None => chunk == null
       case Some((i, k)) => At(patchset, i, k) && chunk == patchset[i].chunks[k]
  }

  method StartPatch(patchset0: seq<Patch>, ghost chunk: PatchChunk?, ghost st: R.Parser, name: string)
    returns (patchset: seq<Patch>)
    requires R.ParserOk(st) && Builds(patchset0, chunk, st)
    ensures |patchset| == |patchset0| + 1 && patchset0 <= patchset
    ensures fresh(patchset[|patchset0|]) && patchset[|patchset0|].chunks == []
    ensures Builds(patchset, chunk, st.(patches := st.patches + [T.Patch(name, "", [])]))
  {
    var currentPatch := new Patch();
    currentPatch.SetSrc(name);
    patchset := patchset0 + [currentPatch];
    assert PatchMatches(currentPatch, T.Patch(name, "", []));
    OnePatchMore(patchset0, currentPatch, chunk, st, T.Patch(name, "", []));
  }

  lemma OnePatchMore(patchset: seq<Patch>, patch: Patch, chunk: PatchChunk?, st: R.Parser, value: T.Patch)
    requires R.ParserOk(st) && Builds(patchset, chunk, st)
    requires patch !in patchset && patch.chunks == [] && PatchMatches(patch, value)
    ensures Builds(patchset + [patch], chunk, st.(patches := st.patches + [value]))
  {
    hide PatchMatches;
    var longer := patchset + [patch];
    assert forall i, k :: At(longer, i, k) ==> At(patchset, i, k) && longer[i].chunks[k] == patchset[i].chunks[k];
    assert forall i, k :: At(patchset, i, k) ==> At(longer, i, k);
  }

  // The names of the last patch.
  method NamePatch(ghost patchset: seq<Patch>, currentPatch: Patch, ghost chunk: PatchChunk?, ghost st: R.Parser,
                   name: string)
    requires R.ParserOk(st) && Builds(patchset, chunk, st)
    requires patchset != [] && currentPatch == patchset[|patchset| - 1]
    modifies currentPatch`dst
    ensures forall i :: 0 <= i < |patchset| ==> patchset[i].chunks == old(patchset[i].chunks)
    ensures var n := |st.patches| - 1;
      && |st.patches| == |patchset|
      && Builds(patchset, chunk, st.(patches := st.patches[n := st.patches[n].(dst := name)]))
  {
    ghost var n := |patchset| - 1;
    assert forall i :: 0 <= i < n ==> patchset[i] != patchset[n];
    currentPatch.SetDst(name);
    assert forall i :: 0 <= i < |patchset| ==> patchset[i].chunks == old(patchset[i].chunks);
    assert forall i, k :: At(patchset, i, k) ==>
      old(At(patchset, i, k)) && ChunkMatches(patchset[i].chunks[k], st.patches[i].chunks[k]);
    assert Apart(patchset);
  }

  lemma NoLinesMatch(chunk: PatchChunk, value: T.Chunk)
    requires chunk.srcPos == value.srcPos && chunk.dstPos == value.dstPos && chunk.lines == [] && value.lines == []
    ensures ChunkMatches(chunk, value)
  {
  }

  twostate lemma StillApart(patchset: seq<Patch>, new chunk: PatchChunk)
    requires patchset != [] && old(Apart(patchset))
    requires forall i :: 0 <= i < |patchset| ==> chunk !in old(patchset[i].chunks)
    requires forall i :: 0 <= i < |patchset| - 1 ==> patchset[i].chunks == old(patchset[i].chunks)
    requires patchset[|patchset| - 1].chunks == old(patchset[|patchset| - 1].chunks) + [chunk]
    ensures Apart(patchset)
  {
    var n := |patchset| - 1;
    assert forall i, k :: At(patchset, i, k) && patchset[i].chunks[k] != chunk ==>
      old(At(patchset, i, k)) && patchset[i].chunks[k] == old(patchset[i].chunks)[k];
    assert forall i, k :: At(patchset, i, k) && patchset[i].chunks[k] == chunk ==>
      i == n && k == |old(patchset[n].chunks)|;
  }

  // A new chunk at the end of the last patch.
  method StartChunk(ghost patchset: seq<Patch>, currentPatch: Patch, ghost chunk0: PatchChunk?, ghost st: R.Parser,
                    src: nat, dst: nat) returns (chunk: PatchChunk)
    requires R.ParserOk(st) && Builds(patchset, chunk0, st)
    requires patchset != [] && currentPatch == patchset[|patchset| - 1]
    modifies currentPatch`chunks
    ensures fresh(chunk)
    ensures var n := |patchset| - 1;
      && patchset[n].chunks == old(patchset[n].chunks) + [chunk]
      && (forall i :: 0 <= i < n ==> patchset[i].chunks == old(patchset[i].chunks))
      && |st.patches| == |patchset|
      && Builds(patchset, chunk, R.Parser(
           st.patches[n := st.patches[n].(chunks := st.patches[n].chunks + [T.Chunk(src, dst, [])])],
           Some((n, |st.patches[n].chunks|))))
  {
    hide LinesMatch;
    ghost var n := |patchset| - 1;
    assert forall i :: 0 <= i < n ==> patchset[i] != patchset[n];
    chunk := new PatchChunk(src, dst);
    NoLinesMatch(chunk, T.Chunk(src, dst, []));
    hide ChunkMatches;
    ghost var was := patchset[n].chunks;
    currentPatch.AddChunk(chunk);
    StillApart(patchset, chunk);
    hide Apart;
    OneChunkMore(patchset, was, chunk, st, src, dst);
  }

  // The current patch has the new chunk behind those that the parser on values has built.
  lemma OneChunkMore(patchset: seq<Patch>, was: seq<PatchChunk>, chunk: PatchChunk, st: R.Parser, src: nat, dst: nat)
    requires patchset != [] && |patchset| == |st.patches| && Apart(patchset)
    requires var n := |patchset| - 1;
      && (forall i :: 0 <= i < n ==> PatchMatches(patchset[i], st.patches[i]))
      && patchset[n].src == st.patches[n].src && patchset[n].dst == st.patches[n].dst
      && patchset[n].chunks == was + [chunk] && |was| == |st.patches[n].chunks|
      && (forall k :: 0 <= k < |was| ==> ChunkMatches(was[k], st.patches[n].chunks[k]))
      && ChunkMatches(chunk, T.Chunk(src, dst, []))
    ensures var n := |patchset| - 1;
      Builds(patchset, chunk, R.Parser(
        st.patches[n := st.patches[n].(chunks := st.patches[n].chunks + [T.Chunk(src, dst, [])])],
        Some((n, |st.patches[n].chunks|))))
  {
    hide Apart, ChunkMatches;
    var n := |patchset| - 1;
    var value := st.patches[n].(chunks := st.patches[n].chunks + [T.Chunk(src, dst, [])]);
    assert PatchMatches(patchset[n], value);
    hide PatchMatches;
  }

  method NewLine(ghost patchset: seq<Patch>, ghost chunk: PatchChunk?, l: T.Line, ghost st: R.Parser)
    returns (line: PatchChunkLine)
    requires R.ParserOk(st) && Builds(patchset, chunk, st)
    requires l.kind in {T.SRC, T.DST, T.BOTH}
    ensures fresh(line) && line.View() == l
    ensures Builds(patchset, chunk, st)
  {
    hide Builds;
    assert forall o :: o in PartsOf(patchset) ==> allocated(o);
    hide PartsOf;
    line := new PatchChunkLine();
    if l.kind == T.SRC {
      line.SetSrc(l.text);
    } else if l.kind == T.DST {
      line.SetDst(l.text);
    } else {
      line.SetBoth(l.text);
    }
  }

  // A line at the end of the current chunk.
  method AddToChunk(ghost patchset: seq<Patch>, chunk: PatchChunk, line: PatchChunkLine, ghost st: R.Parser)
    requires R.ParserOk(st) && Builds(patchset, chunk, st)
    modifies chunk`lines
    ensures st.current.Some? && Builds(patchset, chunk, R.AddLine(st, line.View()))
  {
    chunk.AddLine(line);
  }

  // The patches built from the lines, or an exception: for a name or a header before any patch, a
  // line before any chunk, or a line that no expression matches.
  method ParsePatchset(lines: seq<string>) returns (patchset: seq<Patch>, raised: bool)
    ensures raised <==> R.ParsePatchset(lines).None?
    ensures !raised ==> |patchset| == |R.ParsePatchset(lines).value|
    ensures !raised ==> forall i :: 0 <= i < |patchset| ==> patchset[i].View() == R.ParsePatchset(lines).value[i]
  {
    hide T.Classify, Builds, PatchMatches, R.AddLine;
    patchset, raised := [], false;
    var currentPatch: Patch? := null;
    var currentChunk: PatchChunk? := null;
    ghost var st := R.Parser([], None);
    NothingBuilt();
    for n := 0 to |lines|
      invariant R.ParserOk(st) && R.ParseLines(R.Parser([], None), lines[..n]) == Some(st)
      invariant Builds(patchset, currentChunk, st) && |st.patches| == |patchset|
      invariant if patchset == [] then currentPatch == null else currentPatch == patchset[|patchset| - 1]
      invariant currentPatch != null ==> fresh(currentPatch)
      invariant currentChunk != null ==> fresh(currentChunk)
      invariant currentChunk == null <==> st.current.None?
    {
      Prefixes(lines, n);
      assert lines[..n + 1] == lines[..n] + [lines[n]];
      R.ParseStep(R.Parser([], None), lines[..n], lines[n], st);
      match T.Classify(lines[n])
      case SrcFile(name) =>
        patchset := StartPatch(patchset, currentChunk, st, name);
        currentPatch := patchset[|patchset| - 1];
        st := st.(patches := st.patches + [T.Patch(name, "", [])]);
      case DstFile(name) =>
        if currentPatch == null {
          raised := true;
          return;
        }
        NamePatch(patchset, currentPatch, currentChunk, st, name);
        st := R.ParseLine(st, lines[n]).value;
      case Header(src, dst) =>
        if currentPatch == null {
          raised := true;
          return;
        }
        currentChunk := StartChunk(patchset, currentPatch, currentChunk, st, src, dst);
        st := R.ParseLine(st, lines[n]).value;
      case Body(l) =>
        BodyKinds(lines[n]);
        if currentChunk == null {
          raised := true;
          return;
        }
        var line := NewLine(patchset, currentChunk, l, st);
        AddToChunk(patchset, currentChunk, line, st);
        st := R.ParseLine(st, lines[n]).value;
      case Unmatched =>
        raised := true;
        return;
    }
    assert lines[..|lines|] == lines;
    AllBuilt(patchset, currentChunk, st);
  }

  lemma NothingBuilt()
    ensures Builds([], null, R.Parser([], None))
  {
  }

  lemma AllBuilt(patchset: seq<Patch>, chunk: PatchChunk?, st: R.Parser)
    requires Builds(patchset, chunk, st)
    ensures |patchset| == |st.patches| && forall i :: 0 <= i < |patchset| ==> patchset[i].View() == st.patches[i]
  {
    hide PatchMatches;
    forall i | 0 <= i < |patchset|
      ensures patchset[i].View() == st.patches[i]
    {
      MatchMeansView(patchset[i], st.patches[i]);
    }
  }

  // Once a line raises an exception, the whole parse does.
  lemma Prefixes(lines: seq<string>, n: nat)
    requires n < |lines|
    ensures R.ParseLines(R.Parser([], None), lines[..n + 1]).None? ==> R.ParsePatchset(lines).None?
  {
    R.ParseAppend(R.Parser([], None), lines[..n + 1], lines[n + 1..]);
    assert lines[..n + 1] + lines[n + 1..] == lines;
  }

  lemma BodyKinds(line: string)
    ensures T.Classify(line).Body? ==> T.Classify(line).line.kind in {T.SRC, T.DST, T.BOTH}
  {
    hide T.HeaderOf, T.RestOfLine;
  }

  // ---------- writing and parsing back ----------

  ghost function PatchViews(patches: seq<Patch>): (r: seq<T.Patch>)
    reads patches, PartsOf(patches)
    ensures |r| == |patches|
  {
    seq(|patches|, i requires 0 <= i < |patches| reads patches, PartsOf(patches) => patches[i].View())
  }

  // Patches one after the other, up to one that raises.
  method WriteAll(patches: seq<Patch>, f: File) returns (raised: bool)
    modifies f
    ensures raised <==> !R.KindsSet(PatchViews(patches))
    ensures !raised ==> f.text == old(f.text) + R.FileText(R.AllTexts(PatchViews(patches)))
  {
    hide *;
    raised := false;
    ghost var views := PatchViews(patches);
    NothingWritten(f.text, views);
    for i := 0 to |patches|
      invariant PatchViews(patches) == views
      invariant f.text == old(f.text) + R.FileText(R.AllTexts(views[..i]))
      invariant R.KindsSet(views[..i])
    {
      NotAPart(patches, f);
      raised := patches[i].Write(f);
      assert PatchViews(patches) == views;
      ViewAt(patches, i);
      PatchWritten(old(f.text), views, i);
      if raised {
        return;
      }
    }
    assert views[..|patches|] == views;
  }

  lemma ViewAt(patches: seq<Patch>, i: nat)
    requires i < |patches|
    ensures PatchViews(patches)[i] == patches[i].View()
    ensures patches[i].View().src == patches[i].src && patches[i].View().dst == patches[i].dst
    ensures |patches[i].View().chunks| == |patches[i].chunks|
  {
  }

  // A file is neither a patch nor a part of one.
  lemma NotAPart(patches: seq<Patch>, f: File)
    ensures f !in PartsOf(patches) && forall o :: o in PartsOf(patches) ==> allocated(o)
  {
  }

  lemma NothingWritten(before: string, views: seq<T.Patch>)
    ensures before == before + R.FileText(R.AllTexts(views[..0])) && R.KindsSet(views[..0])
  {
    assert views[..0] == [] && R.AllTexts([]) == [] && R.FileText([]) == "";
  }

  // A patch raises exactly if one of its lines has no kind.
  lemma RaisesIffNotSet(p: T.Patch)
    ensures ChunksBefore(p.chunks) < |p.chunks| <==> !R.KindsSet([p])
  {
    if ChunksBefore(p.chunks) == |p.chunks| {
      forall k, j | 0 <= k < |p.chunks| && 0 <= j < |p.chunks[k].lines|
        ensures p.chunks[k].lines[j].kind != T.NONE
      {
        assert !Raises(p.chunks[k]);
      }
    } else {
      var c := p.chunks[ChunksBefore(p.chunks)];
      assert Raises(c) && [p][0].chunks[ChunksBefore(p.chunks)].lines[LinesBefore(c.lines)].kind == T.NONE;
    }
  }

  lemma SetOneByOne(views: seq<T.Patch>, i: nat)
    requires i < |views| && R.KindsSet(views[..i])
    ensures R.KindsSet(views[..i + 1]) <==> R.KindsSet([views[i]])
    ensures !R.KindsSet([views[i]]) ==> !R.KindsSet(views)
  {
    var shorter, longer := views[..i], views[..i + 1];
    if R.KindsSet([views[i]]) {
      forall m, k, j | 0 <= m <= i && 0 <= k < |longer[m].chunks| && 0 <= j < |longer[m].chunks[k].lines|
        ensures longer[m].chunks[k].lines[j].kind != T.NONE
      {
        assert m < i ==> shorter[m].chunks[k].lines[j].kind != T.NONE;
        assert m == i ==> [views[i]][0].chunks[k].lines[j].kind != T.NONE;
      }
    } else {
      var k, j :| 0 <= k < |views[i].chunks| && 0 <= j < |views[i].chunks[k].lines|
        && [views[i]][0].chunks[k].lines[j].kind == T.NONE;
      assert longer[i].chunks[k].lines[j].kind == T.NONE && views[i].chunks[k].lines[j].kind == T.NONE;
    }
  }

  lemma PatchWritten(before: string, views: seq<T.Patch>, i: nat)
    requires i < |views| && R.KindsSet(views[..i])
    ensures before + R.FileText(R.AllTexts(views[..i])) + R.FileText(R.PatchTexts(views[i]))
      == before + R.FileText(R.AllTexts(views[..i + 1]))
    ensures var raised := ChunksBefore(views[i].chunks) < |views[i].chunks|;
      if raised then !R.KindsSet(views) else R.KindsSet(views[..i + 1])
  {
    hide R.FileText, R.PatchTexts, R.KindsSet, ChunksBefore;
    SetOneByOne(views, i);
    RaisesIffNotSet(views[i]);
    var texts := R.AllTexts(views[..i]);
    assert views[..i + 1][..i] == views[..i];
    assert R.AllTexts(views[..i + 1]) == texts + R.PatchTexts(views[i]);
    hide R.AllTexts;
    FileTextAppend(texts, R.PatchTexts(views[i]));
    Joined(before, R.FileText(texts), R.FileText(R.PatchTexts(views[i])));
  }

  // Patches written to a new file and parsed from its lines come back exactly if they are well
  // formed and hold no line that can be mistaken for a name.
  method WriteAndParse(patches: seq<Patch>) returns (back: seq<Patch>, raised: bool)
    ensures !raised && PatchViews(back) == PatchViews(patches) <==>
      R.PatchesOk(PatchViews(patches)) && R.PatchesPlain(PatchViews(patches))
  {
    hide R.KindsSet, R.FileText, R.AllTexts, R.SplitLines, R.PatchesOk, R.PatchesPlain, R.ParsePatchset;
    back := [];
    ghost var views := PatchViews(patches);
    R.RoundTripIff(views);
    assert forall o :: o in PartsOf(patches) ==> allocated(o);
    hide PartsOf, PatchViews;
    var f := new File();
    raised := WriteAll(patches, f);
    assert PatchViews(patches) == views;
    if raised {
      return;
    }
    assert "" + R.FileText(R.AllTexts(views)) == R.FileText(R.AllTexts(views));
    back, raised := ParsePatchset(R.SplitLines(f.text));
    if !raised {
      SameViews(back, R.ParsePatchset(R.SplitLines(f.text)).value);
    }
  }

  lemma SameViews(patches: seq<Patch>, values: seq<T.Patch>)
    requires |patches| == |values| && forall i :: 0 <= i < |patches| ==> patches[i].View() == values[i]
    ensures PatchViews(patches) == values
  {
  }
}
