/** What the expressions match and what parsing builds, told without the parser
    (parse_patchset, simulation/utils/check-style.py). */
module PatchParser {
  import opened Outcomes
  import opened PatchText
  import R = PatchRoundTrip

  // ---------- what the expressions match ----------

  // The line is this text, possibly with a newline behind it.
  ghost predicate IsWhole(line: string, text: string) {
    '\n' !in text && (line == text || line == text + "\n")
  }

  lemma {:induction false} RestIsWhole(s: string, r: string)
    ensures RestOfLine(s) == Some(r) <==> IsWhole(s, r)
  {
    if s != "" && s != "\n" {
      if r != "" {
        RestIsWhole(s[1..], r[1..]);
        assert r == [r[0]] + r[1..] && s == [s[0]] + s[1..];
        assert r + "\n" == [r[0]] + (r[1..] + "\n");
        assert '\n' in r <==> r[0] == '\n' || '\n' in r[1..];
        assert s == r + "\n" <==> s[0] == r[0] && s[1..] == r[1..] + "\n" by {
          assert (r + "\n")[1..] == r[1..] + "\n";
        }
      }
    }
  }

  lemma RestBehind(prefix: string, s: string, r: string)
    requires '\n' !in prefix
    ensures prefix <= s && RestOfLine(s[|prefix|..]) == Some(r) <==> IsWhole(s, prefix + r)
  {
    if prefix <= s {
      RestIsWhole(s[|prefix|..], r);
      assert s == prefix + s[|prefix|..];
    }
    if IsWhole(s, prefix + r) {
      assert prefix + r + "\n" == prefix + (r + "\n");
    }
  }

  ghost predicate IsNumber(digits: string) { digits != "" && AllDigits(digits) }

  // A line that starts with a header with these two positions.
  ghost predicate IsHeader(line: string, src: nat, dst: nat) {
    exists d1, d2, d3, d4, rest ::
      && IsNumber(d1) && IsNumber(d2) && IsNumber(d3) && IsNumber(d4)
      && line == HeaderLine(d1, d2, d3, d4, rest)
      && Value(d1) == src && Value(d3) == dst
  }

  ghost function HeaderLine(d1: string, d2: string, d3: string, d4: string, rest: string): string {
    "@@ -" + d1 + "," + d2 + " +" + d3 + "," + d4 + " @@" + rest
  }

  ghost function HeaderNested(d1: string, d2: string, d3: string, d4: string, rest: string): string {
    "@@ -" + d1 + ("," + d2 + (" +" + d3 + ("," + d4 + (" @@" + rest))))
  }

  lemma SameHeader(d1: string, d2: string, d3: string, d4: string, rest: string)
    ensures HeaderLine(d1, d2, d3, d4, rest) == HeaderNested(d1, d2, d3, d4, rest)
  {
    var r4 := " @@" + rest;
    var r3 := "," + d4 + r4;
    var r2 := " +" + d3 + r3;
    Regroup("@@ -" + d1 + "," + d2 + " +" + d3, ",", d4, r4);
    Regroup("@@ -" + d1 + "," + d2, " +", d3, r3);
    Regroup("@@ -" + d1, ",", d2, r2);
    assert HeaderLine(d1, d2, d3, d4, rest) == "@@ -" + d1 + "," + d2 + " +" + d3 + "," + d4 + r4;
  }

  lemma Regroup(a: string, b: string, c: string, d: string)
    ensures a + b + c + d == a + (b + c + d)
  {
  }

  lemma NumberThere(prefix: string, d: string, rest: string)
    requires IsNumber(d) && rest != "" && !IsDigit(rest[0])
    ensures NumberAfter(prefix, prefix + d + rest) == Some((Value(d), rest))
  {
    assert (prefix + d + rest)[|prefix|..] == d + rest;
    DigitsOf(d, rest);
  }

  lemma NumberFound(prefix: string, s: string) returns (d: string)
    requires NumberAfter(prefix, s).Some?
    ensures var (n, rest) := NumberAfter(prefix, s).value;
      IsNumber(d) && s == prefix + d + rest && Value(d) == n
  {
    d := Digits(s[|prefix|..]).0;
    assert s == prefix + s[|prefix|..];
  }

  lemma HeaderFound(line: string)
    requires HeaderOf(line).Some?
    ensures IsHeader(line, HeaderOf(line).value.0, HeaderOf(line).value.1)
  {
    hide NumberAfter, IsNumber, HeaderLine;
    var d1 := NumberFound("@@ -", line);
    var after1 := NumberAfter("@@ -", line).value.1;
    var d2 := NumberFound(",", after1);
    var after2 := NumberAfter(",", after1).value.1;
    var d3 := NumberFound(" +", after2);
    var after3 := NumberAfter(" +", after2).value.1;
    var d4 := NumberFound(",", after3);
    var after4 := NumberAfter(",", after3).value.1;
    assert after4 == " @@" + after4[3..];
    SameHeader(d1, d2, d3, d4, after4[3..]);
  }

  lemma HeaderThere(d1: string, d2: string, d3: string, d4: string, rest: string)
    requires IsNumber(d1) && IsNumber(d2) && IsNumber(d3) && IsNumber(d4)
    ensures HeaderOf(HeaderLine(d1, d2, d3, d4, rest)) == Some((Value(d1), Value(d3)))
  {
    SameHeader(d1, d2, d3, d4, rest);
    var r4 := " @@" + rest;
    var r3 := "," + d4 + r4;
    var r2 := " +" + d3 + r3;
    var r1 := "," + d2 + r2;
    NumberThere("@@ -", d1, r1);
    NumberThere(",", d2, r2);
    NumberThere(" +", d3, r3);
    NumberThere(",", d4, r4);
    hide NumberAfter, IsNumber, HeaderLine;
  }

  lemma HeaderAt(line: string, src: nat, dst: nat)
    requires IsHeader(line, src, dst)
    ensures HeaderOf(line) == Some((src, dst))
  {
    hide HeaderOf, HeaderLine;
    var d1, d2, d3, d4, rest :| IsNumber(d1) && IsNumber(d2) && IsNumber(d3) && IsNumber(d4)
      && line == HeaderLine(d1, d2, d3, d4, rest) && Value(d1) == src && Value(d3) == dst;
    HeaderThere(d1, d2, d3, d4, rest);
  }

  lemma HeaderIff(line: string, src: nat, dst: nat)
    ensures HeaderOf(line) == Some((src, dst)) <==> IsHeader(line, src, dst)
  {
    hide HeaderOf, IsNumber, HeaderLine;
    if HeaderOf(line).Some? {
      HeaderFound(line);
    }
    if IsHeader(line, src, dst) {
      HeaderAt(line, src, dst);
    }
  }

  // A line of a chunk is a name exactly if its text goes on like one.
  lemma NameBehindMark(mark: char, p: string, line: string, text: string)
    requires IsWhole(line, [mark] + text) && '\n' !in p && |p| == 3
    ensures [mark] + p <= line && RestOfLine(line[4..]).Some? <==> p <= text
  {
    if p <= text {
      assert [mark] + text == [mark] + p + text[3..];
      RestBehind([mark] + p, line, text[3..]);
    } else {
      R.PrefixCons(mark, p, line);
      assert line[1..] == text || line[1..] == text + "\n" by {
        assert [mark] + text + "\n" == [mark] + (text + "\n");
      }
      R.PrefixBeforeNewline(p, text);
    }
  }

  // What a line is taken for, by its form alone: first the names of old and of new files.
  lemma NameIff(line: string, name: string)
    ensures Classify(line) == SrcFile(name) <==> IsWhole(line, "--- " + name)
    ensures Classify(line) == DstFile(name) <==> IsWhole(line, "+++ " + name)
  {
    RestBehind("--- ", line, name);
    RestBehind("+++ ", line, name);
    assert "--- " <= line ==> line[0] == '-';
    assert "+++ " <= line ==> line[0] == '+';
    hide RestOfLine, HeaderOf, IsWhole;
  }

  lemma ChunkHeaderIff(line: string, src: nat, dst: nat)
    ensures Classify(line) == Header(src, dst) <==> IsHeader(line, src, dst)
  {
    HeaderIff(line, src, dst);
    if line != "" && line[0] == '@' {
      R.ClassifyAt(line);
    } else if line != "" {
      R.NotAHeader(line);
    }
    hide RestOfLine, HeaderOf, IsHeader;
  }

  ghost function Mark(kind: Kind): char {
    match kind case SRC => '-' case DST => '+' case _ => ' '
  }

  lemma BodyThere(line: string, l: Line)
    requires l.kind != NONE && IsWhole(line, [Mark(l.kind)] + l.text)
    ensures Classify(line) == Body(l) <==> !R.Mistakable(l)
  {
    RestBehind([Mark(l.kind)], line, l.text);
    assert line[0] == Mark(l.kind);
    R.NotAHeader(line);
    hide IsWhole, RestOfLine, HeaderOf;
    match l.kind
    case SRC =>
      NameBehindMark('-', "-- ", line, l.text);
      assert "--- " == ['-'] + "-- ";
      R.StartsDifferently("+++ ", line);
    case DST =>
      NameBehindMark('+', "++ ", line, l.text);
      assert "+++ " == ['+'] + "++ ";
      R.StartsDifferently("--- ", line);
      R.StartsDifferently("-", line);
    case BOTH =>
      R.StartsDifferently("--- ", line);
      R.StartsDifferently("+++ ", line);
      R.StartsDifferently("-", line);
      R.StartsDifferently("+", line);
  }

  // A line of a chunk: its kind's mark and its text, unless the text makes it a name.
  lemma BodyIff(line: string, l: Line)
    ensures Classify(line) == Body(l) <==>
      && l.kind != NONE && IsWhole(line, [Mark(l.kind)] + l.text) && !R.Mistakable(l)
  {
    if l.kind != NONE && IsWhole(line, [Mark(l.kind)] + l.text) {
      BodyThere(line, l);
    } else {
      RestBehind([Mark(l.kind)], line, l.text);
      hide RestOfLine, HeaderOf, IsWhole;
    }
  }

  // ---------- what parsing builds ----------

  // Among the first n lines there is an old file's name.
  ghost predicate NamedBefore(lines: seq<string>, n: nat) {
    exists m: nat :: m < n && m < |lines| && Classify(lines[m]).SrcFile?
  }

  ghost predicate HeaderBefore(lines: seq<string>, n: nat) {
    exists m: nat :: m < n && m < |lines| && Classify(lines[m]).Header?
  }

  // Line n makes the program raise: it is nothing at all, or it is a new file's name or a header
  // with no old file's name before it, or a line of a chunk with no header before it.
  ghost predicate RaisesAt(lines: seq<string>, n: nat) {
    n < |lines| &&
    match Classify(lines[n])
    case SrcFile(_) => false
    case DstFile(_) => !NamedBefore(lines, n)
    case Header(_, _) => !NamedBefore(lines, n)
    case Body(_) => !HeaderBefore(lines, n)
    case Unmatched => true
  }

  ghost predicate Started(st: R.Parser, lines: seq<string>) {
    && (st.patches != [] <==> NamedBefore(lines, |lines|))
    && (st.current.Some? <==> HeaderBefore(lines, |lines|))
  }

  lemma LastStarts(st: R.Parser, lines: seq<string>)
    requires lines != [] && R.ParserOk(st) && Started(st, lines[..|lines| - 1])
    ensures R.ParseLine(st, lines[|lines| - 1]).None? <==> RaisesAt(lines, |lines| - 1)
    ensures R.ParseLine(st, lines[|lines| - 1]).Some? ==> Started(R.ParseLine(st, lines[|lines| - 1]).value, lines)
  {
    hide Classify;
    var n := |lines| - 1;
    var before := lines[..n];
    assert NamedBefore(before, n) <==> NamedBefore(lines, n) by {
      assert forall m: nat :: m < n ==> before[m] == lines[m];
    }
    assert HeaderBefore(before, n) <==> HeaderBefore(lines, n) by {
      assert forall m: nat :: m < n ==> before[m] == lines[m];
    }
    assert NamedBefore(lines, n + 1) <==> NamedBefore(lines, n) || Classify(lines[n]).SrcFile?;
    assert HeaderBefore(lines, n + 1) <==> HeaderBefore(lines, n) || Classify(lines[n]).Header?;
    hide NamedBefore, HeaderBefore;
  }

  lemma SameBefore(lines: seq<string>, n: nat, m: nat)
    requires m < n <= |lines|
    ensures RaisesAt(lines[..n], m) <==> RaisesAt(lines, m)
  {
    hide Classify;
    assert forall k: nat :: k < n ==> lines[..n][k] == lines[k];
  }

  // Parsing raises exactly if some line does.
  lemma {:induction false} RaisesIff(lines: seq<string>)
    ensures R.ParseLines(R.Parser([], None), lines).None? <==> exists n: nat :: RaisesAt(lines, n)
    ensures R.ParseLines(R.Parser([], None), lines).Some? ==>
      Started(R.ParseLines(R.Parser([], None), lines).value, lines)
  {
    if lines != [] {
      hide Classify;
      var n := |lines| - 1;
      var before := lines[..n];
      RaisesIff(before);
      assert forall m: nat :: RaisesAt(lines, m) ==> m <= n;
      assert forall m: nat :: RaisesAt(before, m) ==> m < n;
      forall m: nat | m < n
        ensures RaisesAt(before, m) <==> RaisesAt(lines, m)
      {
        SameBefore(lines, n, m);
      }
      var st := R.ParseLines(R.Parser([], None), before);
      if st.Some? {
        LastStarts(st.value, lines);
      }
      hide RaisesAt, Started, R.ParseLine;
    }
  }

  // The chunks that the lines describe, in one list: a header starts a chunk, and every line of a
  // chunk belongs to the chunk started last.
  ghost function ChunksIn(lines: seq<string>): seq<Chunk> {
    if lines == [] then [] else
      var before := ChunksIn(lines[..|lines| - 1]);
      match Classify(lines[|lines| - 1])
      case Header(src, dst) => before + [Chunk(src, dst, [])]
      case Body(l) => if before == [] then [] else
        var c := before[|before| - 1];
        before[..|before| - 1] + [c.(lines := c.lines + [l])]
      case _ => before
  }

  // A patch without its chunks, but with how many it has.
  datatype Head = Head(src: string, dst: string, chunks: nat)

  // The patches that the lines describe: an old file's name starts a patch; a new file's name and
  // a header go to the patch started last.
  ghost function HeadsIn(lines: seq<string>): seq<Head> {
    if lines == [] then [] else
      var before := HeadsIn(lines[..|lines| - 1]);
      match Classify(lines[|lines| - 1])
      case SrcFile(name) => before + [Head(name, "", 0)]
      case DstFile(name) => if before == [] then [] else
        before[..|before| - 1] + [before[|before| - 1].(dst := name)]
      case Header(_, _) => if before == [] then [] else
        before[..|before| - 1] + [before[|before| - 1].(chunks := before[|before| - 1].chunks + 1)]
      case _ => before
  }

  ghost function ChunksOf(ps: seq<Patch>): seq<Chunk> {
    if ps == [] then [] else ChunksOf(ps[..|ps| - 1]) + ps[|ps| - 1].chunks
  }

  ghost function HeadsOf(ps: seq<Patch>): (heads: seq<Head>)
    ensures |heads| == |ps|
    ensures forall i :: 0 <= i < |ps| ==> heads[i] == Head(ps[i].src, ps[i].dst, |ps[i].chunks|)
  {
    if ps == [] then [] else
      var p := ps[|ps| - 1];
      HeadsOf(ps[..|ps| - 1]) + [Head(p.src, p.dst, |p.chunks|)]
  }

  lemma CutAlike<T>(a: seq<T>, x: seq<T>, b: seq<T>, y: seq<T>)
    requires a + x == b + y && |x| == |y|
    ensures a == b && x == y
  {
    assert a == (a + x)[..|a|] && x == (a + x)[|a|..];
    assert b == (b + y)[..|b|] && y == (b + y)[|b|..];
  }

  lemma LastAlike(ps: seq<Patch>, qs: seq<Patch>)
    requires ps != [] && qs != [] && HeadsOf(ps) == HeadsOf(qs) && ChunksOf(ps) == ChunksOf(qs)
    ensures var n, m := |ps| - 1, |qs| - 1;
      ps[n] == qs[m] && HeadsOf(ps[..n]) == HeadsOf(qs[..m]) && ChunksOf(ps[..n]) == ChunksOf(qs[..m])
  {
    var n, m := |ps| - 1, |qs| - 1;
    assert n == |HeadsOf(ps)| - 1 == |HeadsOf(qs)| - 1 == m;
    assert HeadsOf(ps)[n] == HeadsOf(qs)[n];
    assert HeadsOf(ps[..n]) == HeadsOf(ps)[..n] && HeadsOf(qs[..n]) == HeadsOf(qs)[..n];
    hide HeadsOf;
    CutAlike(ChunksOf(ps[..n]), ps[n].chunks, ChunksOf(qs[..n]), qs[n].chunks);
  }

  // Chunks and heads leave nothing open.
  lemma {:induction false} HeadsAndChunksTell(ps: seq<Patch>, qs: seq<Patch>)
    requires HeadsOf(ps) == HeadsOf(qs) && ChunksOf(ps) == ChunksOf(qs)
    ensures ps == qs
  {
    hide ChunksOf, HeadsOf;
    assert |ps| == |HeadsOf(ps)| == |HeadsOf(qs)| == |qs|;
    if ps != [] {
      var n := |ps| - 1;
      LastAlike(ps, qs);
      HeadsAndChunksTell(ps[..n], qs[..n]);
      assert ps == ps[..n] + [ps[n]] && qs == qs[..n] + [qs[n]];
    }
  }

  // The chunk that lines go to is the last one of all.
  ghost predicate AtLastChunk(st: R.Parser) {
    && R.ParserOk(st)
    && match st.current
       case None => forall j :: 0 <= j < |st.patches| ==> st.patches[j].chunks == []
       case Some((i, k)) =>
         && k + 1 == |st.patches[i].chunks|
         && forall j :: i < j < |st.patches| ==> st.patches[j].chunks == []
  }

  lemma {:induction false} NoChunks(ps: seq<Patch>)
    requires forall j :: 0 <= j < |ps| ==> ps[j].chunks == []
    ensures ChunksOf(ps) == []
  {
    if ps != [] {
      NoChunks(ps[..|ps| - 1]);
    }
  }

  // Changing the last chunk of all changes the last of the list.
  lemma {:induction false} LastChunkOf(ps: seq<Patch>, i: nat, c: Chunk)
    requires i < |ps| && ps[i].chunks != [] && forall j :: i < j < |ps| ==> ps[j].chunks == []
    ensures var n := |ps[i].chunks| - 1;
      var p := ps[i].(chunks := ps[i].chunks[n := c]);
      && ChunksOf(ps) != [] && ChunksOf(ps)[|ChunksOf(ps)| - 1] == ps[i].chunks[n]
      && ChunksOf(ps[i := p]) == ChunksOf(ps)[..|ChunksOf(ps)| - 1] + [c]
  {
    var n, last := |ps[i].chunks| - 1, |ps| - 1;
    var p := ps[i].(chunks := ps[i].chunks[n := c]);
    if i == last {
      assert ps[i := p][..last] == ps[..last];
      var front := ChunksOf(ps[..last]);
      assert front + ps[i].chunks[n := c] == (front + ps[i].chunks)[..|front| + n] + [c];
    } else {
      LastChunkOf(ps[..last], i, c);
      assert ps[i := p][..last] == ps[..last][i := p];
    }
  }

  lemma LastPatchOf(ps: seq<Patch>, p: Patch)
    requires ps != []
    ensures ChunksOf(ps[|ps| - 1 := p]) == ChunksOf(ps[..|ps| - 1]) + p.chunks
  {
    assert ps[|ps| - 1 := p][..|ps| - 1] == ps[..|ps| - 1];
  }

  lemma NamedPatch(st: R.Parser, name: string)
    requires AtLastChunk(st)
    ensures var after := st.(patches := st.patches + [Patch(name, "", [])]);
      && AtLastChunk(after)
      && ChunksOf(after.patches) == ChunksOf(st.patches)
      && HeadsOf(after.patches) == HeadsOf(st.patches) + [Head(name, "", 0)]
  {
    var ps := st.patches;
    assert (ps + [Patch(name, "", [])])[..|ps|] == ps;
  }

  lemma RenamedPatch(st: R.Parser, name: string)
    requires AtLastChunk(st) && st.patches != []
    ensures var n := |st.patches| - 1;
      var after := st.(patches := st.patches[n := st.patches[n].(dst := name)]);
      && AtLastChunk(after)
      && ChunksOf(after.patches) == ChunksOf(st.patches)
      && HeadsOf(after.patches) == HeadsOf(st.patches)[..n] + [HeadsOf(st.patches)[n].(dst := name)]
  {
    var n := |st.patches| - 1;
    LastPatchOf(st.patches, st.patches[n].(dst := name));
  }

  lemma StartedChunk(st: R.Parser, c: Chunk)
    requires AtLastChunk(st) && st.patches != []
    ensures var n := |st.patches| - 1;
      var p := st.patches[n];
      var after := R.Parser(st.patches[n := p.(chunks := p.chunks + [c])], Some((n, |p.chunks|)));
      && AtLastChunk(after)
      && ChunksOf(after.patches) == ChunksOf(st.patches) + [c]
      && HeadsOf(after.patches) == HeadsOf(st.patches)[..n] + [Head(p.src, p.dst, |p.chunks| + 1)]
  {
    var n := |st.patches| - 1;
    var p := st.patches[n];
    LastPatchOf(st.patches, p.(chunks := p.chunks + [c]));
  }

  lemma AddedLine(st: R.Parser, l: Line)
    requires AtLastChunk(st) && st.current.Some?
    ensures var after, chunks := R.AddLine(st, l), ChunksOf(st.patches);
      && AtLastChunk(after)
      && chunks != []
      && ChunksOf(after.patches)
         == chunks[..|chunks| - 1] + [chunks[|chunks| - 1].(lines := chunks[|chunks| - 1].lines + [l])]
      && HeadsOf(after.patches) == HeadsOf(st.patches)
  {
    var (i, k) := st.current.value;
    var c := st.patches[i].chunks[k];
    LastChunkOf(st.patches, i, c.(lines := c.lines + [l]));
    hide ChunksOf;
    assert |R.AddLine(st, l).patches[i].chunks| == |st.patches[i].chunks|;
  }

  // The chunks and heads are those that the lines describe.
  ghost predicate AsDescribed(st: R.Parser, lines: seq<string>) {
    AtLastChunk(st) && ChunksOf(st.patches) == ChunksIn(lines) && HeadsOf(st.patches) == HeadsIn(lines)
  }

  lemma ParsedLine(st: R.Parser, lines: seq<string>)
    requires lines != [] && AsDescribed(st, lines[..|lines| - 1])
    requires R.ParseLine(st, lines[|lines| - 1]).Some?
    ensures AsDescribed(R.ParseLine(st, lines[|lines| - 1]).value, lines)
  {
    hide Classify, AtLastChunk, ChunksOf, HeadsOf, R.AddLine;
    match Classify(lines[|lines| - 1])
    case SrcFile(name) => NamedPatch(st, name);
    case DstFile(name) => RenamedPatch(st, name);
    case Header(src, dst) => StartedChunk(st, Chunk(src, dst, []));
    case Body(l) => AddedLine(st, l);
    case Unmatched =>
  }

  // What is parsed are the patches that the lines describe.
  lemma {:induction false} ParsedAsDescribed(lines: seq<string>)
    requires R.ParseLines(R.Parser([], None), lines).Some?
    ensures AsDescribed(R.ParseLines(R.Parser([], None), lines).value, lines)
  {
    if lines != [] {
      ParsedAsDescribed(lines[..|lines| - 1]);
      hide R.ParseLine;
      ParsedLine(R.ParseLines(R.Parser([], None), lines[..|lines| - 1]).value, lines);
    }
  }
}
