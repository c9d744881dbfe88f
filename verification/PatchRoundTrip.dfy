/** Writing patches and parsing what was written (simulation/utils/check-style.py). */
module PatchRoundTrip {
  import opened Outcomes
  import opened Sums
  import opened PatchText

  // ---------- what is written ----------

  function Sources(lines: seq<Line>): nat {
    if lines == [] then 0 else
      Sources(lines[..|lines| - 1]) + if lines[|lines| - 1].kind in {SRC, BOTH} then 1 else 0
  }

  function Destinations(lines: seq<Line>): nat {
    if lines == [] then 0 else
      Destinations(lines[..|lines| - 1]) + if lines[|lines| - 1].kind in {DST, BOTH} then 1 else 0
  }

  function LineText(l: Line): string {
    (match l.kind case SRC => "-" case DST => "+" case _ => " ") + l.text
  }

  function LineTexts(lines: seq<Line>): (r: seq<string>)
    ensures |r| == |lines|
    ensures forall i :: 0 <= i < |lines| ==> r[i] == LineText(lines[i])
  {
    if lines == [] then [] else LineTexts(lines[..|lines| - 1]) + [LineText(lines[|lines| - 1])]
  }

  function ChunkTexts(c: Chunk): seq<string> {
    [HeaderText(c.srcPos, Sources(c.lines), c.dstPos, Destinations(c.lines), "")] + LineTexts(c.lines)
  }

  function AllChunkTexts(chunks: seq<Chunk>): seq<string> {
    if chunks == [] then [] else AllChunkTexts(chunks[..|chunks| - 1]) + ChunkTexts(chunks[|chunks| - 1])
  }

  function PatchTexts(p: Patch): seq<string> {
    ["--- " + p.src, "+++ " + p.dst] + AllChunkTexts(p.chunks)
  }

  function AllTexts(ps: seq<Patch>): seq<string> {
    if ps == [] then [] else AllTexts(ps[..|ps| - 1]) + PatchTexts(ps[|ps| - 1])
  }

  // The file: each line text with a newline behind it.
  function FileText(texts: seq<string>): string {
    if texts == [] then "" else FileText(texts[..|texts| - 1]) + texts[|texts| - 1] + "\n"
  }

  // The lines of a file, each with its newline.
  function FirstLine(s: string): (r: string)
    requires s != ""
    ensures r != "" && r <= s
  {
    if s[0] == '\n' || |s| == 1 then s[..1] else
      assert s == [s[0]] + s[1..];
      [s[0]] + FirstLine(s[1..])
  }

  // It reaches up to the first newline, or to the end if there is none.
  lemma {:induction false} FirstLineIs(s: string)
    requires s != ""
    ensures var r := FirstLine(s); '\n' !in r[..|r| - 1] && (r[|r| - 1] == '\n' || r == s)
  {
    if s[0] != '\n' && |s| > 1 {
      FirstLineIs(s[1..]);
      var r, below := FirstLine(s), FirstLine(s[1..]);
      assert r == [s[0]] + below && r[..|r| - 1] == [s[0]] + below[..|below| - 1];
      assert s == [s[0]] + s[1..];
    }
  }

  function SplitLines(s: string): seq<string> {
    if s == "" then [] else [FirstLine(s)] + SplitLines(s[|FirstLine(s)|..])
  }

  function Terminated(texts: seq<string>): (r: seq<string>) {
    seq(|texts|, i requires 0 <= i < |texts| => texts[i] + "\n")
  }

  lemma {:induction false} FirstLineEnds(t: string, rest: string)
    requires '\n' !in t
    ensures FirstLine(t + "\n" + rest) == t + "\n"
  {
    var s := t + "\n" + rest;
    if t != "" {
      assert t == [t[0]] + t[1..] && t[0] in t;
      assert s[1..] == t[1..] + "\n" + rest;
      FirstLineEnds(t[1..], rest);
    }
  }

  lemma MoveOver(a: string, b: string, c: string, d: string)
    ensures a + b + c + d == a + (b + c + d)
  {
  }

  lemma {:induction false} SplitFile(texts: seq<string>, rest: string)
    requires forall i :: 0 <= i < |texts| ==> '\n' !in texts[i]
    ensures SplitLines(FileText(texts) + rest) == Terminated(texts) + SplitLines(rest)
  {
    if texts == [] {
      assert FileText(texts) + rest == rest;
    } else {
      hide FirstLine, SplitLines, Terminated;
      var front, last := texts[..|texts| - 1], texts[|texts| - 1];
      SplitFile(front, last + "\n" + rest);
      MoveOver(FileText(front), last, "\n", rest);
      hide FileText;
      FirstSplit(last, rest);
      LastTermination(texts);
    }
  }

  lemma FirstSplit(t: string, rest: string)
    requires '\n' !in t
    ensures SplitLines(t + "\n" + rest) == [t + "\n"] + SplitLines(rest)
  {
    FirstLineEnds(t, rest);
    hide FirstLine;
    assert (t + "\n" + rest)[|t + "\n"|..] == rest;
  }

  lemma LastTermination(texts: seq<string>)
    requires texts != []
    ensures Terminated(texts) == Terminated(texts[..|texts| - 1]) + [texts[|texts| - 1] + "\n"]
  {
  }

  // ---------- what is parsed ----------

  // The patches so far, and the chunk that lines are added to: the last one started, which need not
  // be in the last patch.
  datatype Parser = Parser(patches: seq<Patch>, current: Option<(nat, nat)>)

  ghost predicate ParserOk(st: Parser) {
    st.current.Some? ==>
      && st.current.value.0 < |st.patches|
      && st.current.value.1 < |st.patches[st.current.value.0].chunks|
  }

  function AddLine(st: Parser, l: Line): (r: Parser)
    requires ParserOk(st) && st.current.Some?
    ensures ParserOk(r)
  {
    var (i, k) := st.current.value;
    var p := st.patches[i];
    var c := p.chunks[k];
    st.(patches := st.patches[i := p.(chunks := p.chunks[k := c.(lines := c.lines + [l])])])
  }

  // One line; None when the program raises an exception: no patch for a name or a header, no chunk
  // for a line, or a line that no expression matches.
  function ParseLine(st: Parser, line: string): (r: Option<Parser>)
    requires ParserOk(st)
    ensures r.Some? ==> ParserOk(r.value)
  {
    match Classify(line)
    case SrcFile(name) => Some(st.(patches := st.patches + [Patch(name, "", [])]))
    case DstFile(name) =>
      if st.patches == [] then None else
        var n := |st.patches| - 1;
        Some(st.(patches := st.patches[n := st.patches[n].(dst := name)]))
    case Header(src, dst) =>
      if st.patches == [] then None else
        var n := |st.patches| - 1;
        var chunks := st.patches[n].chunks;
        Some(Parser(st.patches[n := st.patches[n].(chunks := chunks + [Chunk(src, dst, [])])], Some((n, |chunks|))))
    case Body(l) => if st.current.None? then None else Some(AddLine(st, l))
    case Unmatched => None
  }

  function ParseLines(st: Parser, lines: seq<string>): (r: Option<Parser>)
    requires ParserOk(st)
    ensures r.Some? ==> ParserOk(r.value)
  {
    if lines == [] then Some(st) else
      match ParseLines(st, lines[..|lines| - 1])
      case None => None
      case Some(before) => ParseLine(before, lines[|lines| - 1])
  }

  function ParsePatchset(lines: seq<string>): Option<seq<Patch>> {
    match ParseLines(Parser([], None), lines) case None => None case Some(st) => Some(st.patches)
  }

  lemma {:induction false} ParseAppend(st: Parser, a: seq<string>, b: seq<string>)
    requires ParserOk(st)
    ensures ParseLines(st, a + b) ==
      match ParseLines(st, a) case None => None case Some(between) => ParseLines(between, b)
  {
    if b == [] {
      assert a + b == a;
    } else {
      assert (a + b)[..|a + b| - 1] == a + b[..|b| - 1];
      ParseAppend(st, a, b[..|b| - 1]);
    }
  }

  // ---------- when parsing gives back what was written ----------

  // A removed line that looks like the name of an old file, or an added line that looks like the
  // name of a new file.
  predicate Mistakable(l: Line) {
    (l.kind == SRC && "-- " <= l.text) || (l.kind == DST && "++ " <= l.text)
  }

  predicate LineOk(l: Line) { l.kind != NONE && '\n' !in l.text }

  ghost predicate ChunkOk(c: Chunk) {
    c.srcPos >= 0 && c.dstPos >= 0 && forall i :: 0 <= i < |c.lines| ==> LineOk(c.lines[i])
  }

  ghost predicate PatchOk(p: Patch) {
    '\n' !in p.src && '\n' !in p.dst && forall k :: 0 <= k < |p.chunks| ==> ChunkOk(p.chunks[k])
  }

  // Kinds are set, positions are not negative, and no name or line holds a newline.
  ghost predicate PatchesOk(ps: seq<Patch>) {
    forall i :: 0 <= i < |ps| ==> PatchOk(ps[i])
  }

  ghost predicate NoneMistakable(lines: seq<Line>) {
    forall i :: 0 <= i < |lines| ==> !Mistakable(lines[i])
  }

  ghost predicate ChunkPlain(c: Chunk) { NoneMistakable(c.lines) }

  ghost predicate PatchPlain(p: Patch) {
    forall k :: 0 <= k < |p.chunks| ==> ChunkPlain(p.chunks[k])
  }

  ghost predicate PatchesPlain(ps: seq<Patch>) {
    forall i :: 0 <= i < |ps| ==> PatchPlain(ps[i])
  }

  lemma PrefixCons(c: char, p: string, s: string)
    requires s != ""
    ensures [c] + p <= s <==> c == s[0] && p <= s[1..]
  {
    assert s == [s[0]] + s[1..];
    if [c] + p <= s {
      assert ([c] + p)[1..] == p && s[1..][..|p|] == s[..|p| + 1][1..];
    }
  }

  // A newline at the end does not complete a prefix that has none.
  lemma PrefixBeforeNewline(p: string, t: string)
    requires '\n' !in p
    ensures p <= t + "\n" <==> p <= t
  {
    assert (t + "\n")[|t|] == '\n';
  }

  lemma ClassifyLine(l: Line)
    requires LineOk(l)
    ensures Classify(LineText(l) + "\n") ==
      if l.kind == SRC && "-- " <= l.text then SrcFile(l.text[3..])
      else if l.kind == DST && "++ " <= l.text then DstFile(l.text[3..])
      else Body(l)
  {
    hide Classify, RestOfLine;
    if Mistakable(l) {
      TakenForName(l);
    } else {
      NotTakenForName(l);
    }
  }

  // What stands behind the mark, and behind the next three characters.
  lemma BehindMark(l: Line)
    ensures var s := LineText(l) + "\n";
      s[1..] == l.text + "\n" && (|l.text| >= 3 ==> s[4..] == l.text[3..] + "\n")
  {
  }

  lemma TakenForName(l: Line)
    requires LineOk(l) && Mistakable(l)
    ensures Classify(LineText(l) + "\n") == if l.kind == SRC then SrcFile(l.text[3..]) else DstFile(l.text[3..])
  {
    hide HeaderOf, RestOfLine;
    var s := LineText(l) + "\n";
    BehindMark(l);
    assert l.text == l.text[..3] + l.text[3..];
    RestOfNewline(l.text[3..]);
    assert "--- " == ['-'] + "-- " && "+++ " == ['+'] + "++ ";
    PrefixCons('-', "-- ", s);
    PrefixCons('+', "++ ", s);
    PrefixBeforeNewline("-- ", l.text);
    PrefixBeforeNewline("++ ", l.text);
  }

  lemma NotTakenForName(l: Line)
    requires LineOk(l) && !Mistakable(l)
    ensures Classify(LineText(l) + "\n") == Body(l)
  {
    hide HeaderOf, RestOfLine;
    var s := LineText(l) + "\n";
    BehindMark(l);
    RestOfNewline(l.text);
    PrefixCons('-', "-- ", s);
    PrefixCons('+', "++ ", s);
    PrefixBeforeNewline("-- ", l.text);
    PrefixBeforeNewline("++ ", l.text);
    NotAHeader(s);
    assert "--- " == ['-'] + "-- " && "+++ " == ['+'] + "++ ";
  }

  lemma NotAHeader(s: string)
    requires s != "" && s[0] != '@'
    ensures HeaderOf(s) == None
  {
  }

  lemma ClassifyNames(name: string)
    requires '\n' !in name
    ensures Classify("--- " + name + "\n") == SrcFile(name)
    ensures Classify("+++ " + name + "\n") == DstFile(name)
  {
    RestOfNewline(name);
    var s, d := "--- " + name + "\n", "+++ " + name + "\n";
    assert s[4..] == name + "\n" && d[4..] == name + "\n";
    PrefixCons('-', "-- ", d);
    assert "--- " == ['-'] + "-- ";
    assert d[0] == '+';
  }

  lemma ClassifyHeader(c: Chunk)
    ensures var s := ChunkTexts(c)[0] + "\n";
      Classify(s) == if c.srcPos >= 0 && c.dstPos >= 0 then Header(c.srcPos, c.dstPos) else Unmatched
  {
    var s := ChunkTexts(c)[0] + "\n";
    HeaderRead(c.srcPos, Sources(c.lines), c.dstPos, Destinations(c.lines), "\n");
    HeaderAndNewline(c.srcPos, Sources(c.lines), c.dstPos, Destinations(c.lines));
    hide HeaderText;
    ClassifyAt(s);
    hide *;
  }

  // A line that starts with an at sign is a header or nothing.
  lemma ClassifyAt(s: string)
    requires s != "" && s[0] == '@'
    ensures Classify(s) ==
      match HeaderOf(s) case Some((src, dst)) => Header(src, dst) case None => Unmatched
  {
    hide HeaderOf, RestOfLine;
    StartsDifferently("--- ", s);
    StartsDifferently("+++ ", s);
    StartsDifferently("-", s);
    StartsDifferently("+", s);
    StartsDifferently(" ", s);
  }

  lemma StartsDifferently(p: string, s: string)
    requires p != "" && s != "" && p[0] != s[0]
    ensures !(p <= s)
  {
  }

  lemma HeaderAndNewline(src: int, srcLen: nat, dst: int, dstLen: nat)
    ensures HeaderText(src, srcLen, dst, dstLen, "") + "\n" == HeaderText(src, srcLen, dst, dstLen, "\n")
    ensures HeaderText(src, srcLen, dst, dstLen, "")[0] == '@'
  {
  }

  // ---------- well-formed patches come back ----------

  // The parser inside a chunk: the last one of the last patch.
  ghost function Inside(done: seq<Patch>, p: Patch, c: Chunk): Parser {
    Parser(done + [p.(chunks := p.chunks + [c])], Some((|done|, |p.chunks|)))
  }

  lemma AddInside(done: seq<Patch>, p: Patch, c: Chunk, l: Line)
    ensures ParserOk(Inside(done, p, c))
    ensures AddLine(Inside(done, p, c), l) == Inside(done, p, c.(lines := c.lines + [l]))
  {
    var q := p.(chunks := p.chunks + [c]);
    assert (done + [q])[|done|] == q;
    assert q.chunks[|p.chunks| := c.(lines := c.lines + [l])] == p.chunks + [c.(lines := c.lines + [l])];
  }

  lemma NextLineComesBack(done: seq<Patch>, p: Patch, c: Chunk, lines: seq<Line>)
    requires lines != [] && LineOk(lines[|lines| - 1]) && !Mistakable(lines[|lines| - 1])
    requires ParserOk(Inside(done, p, c)) && ParserOk(Inside(done, p, c.(lines := c.lines + lines[..|lines| - 1])))
    requires ParseLines(Inside(done, p, c), Terminated(LineTexts(lines[..|lines| - 1])))
      == Some(Inside(done, p, c.(lines := c.lines + lines[..|lines| - 1])))
    ensures ParseLines(Inside(done, p, c), Terminated(LineTexts(lines)))
      == Some(Inside(done, p, c.(lines := c.lines + lines)))
  {
    hide *;
    var front, last := lines[..|lines| - 1], lines[|lines| - 1];
    var before := c.(lines := c.lines + front);
    LastTerminated(lines);
    PlainLine(last);
    BodyInside(done, p, before, LineText(last) + "\n", last);
    ParseStep(Inside(done, p, c), Terminated(LineTexts(front)), LineText(last) + "\n", Inside(done, p, before));
    assert before.lines + [last] == c.lines + lines;
  }

  lemma LastTerminated(lines: seq<Line>)
    requires lines != []
    ensures Terminated(LineTexts(lines))
      == Terminated(LineTexts(lines[..|lines| - 1])) + [LineText(lines[|lines| - 1]) + "\n"]
  {
    hide LineText;
    var front, last := LineTexts(lines[..|lines| - 1]), LineText(lines[|lines| - 1]);
    assert LineTexts(lines) == front + [last];
    hide LineTexts;
    TerminatedAppend(front, [last]);
    assert Terminated([last]) == [last + "\n"];
  }

  lemma ParseStep(st: Parser, front: seq<string>, line: string, between: Parser)
    requires ParserOk(st) && ParserOk(between) && ParseLines(st, front) == Some(between)
    ensures ParseLines(st, front + [line]) == ParseLine(between, line)
  {
    hide Classify;
    assert (front + [line])[..|front|] == front;
  }

  lemma BodyInside(done: seq<Patch>, p: Patch, c: Chunk, line: string, l: Line)
    requires Classify(line) == Body(l) && ParserOk(Inside(done, p, c))
    ensures ParseLine(Inside(done, p, c), line) == Some(Inside(done, p, c.(lines := c.lines + [l])))
  {
    hide Classify, AddLine;
    AddInside(done, p, c, l);
  }

  lemma PlainLine(l: Line)
    requires LineOk(l) && !Mistakable(l)
    ensures Classify(LineText(l) + "\n") == Body(l)
  {
    hide Classify, LineText;
    ClassifyLine(l);
  }

  lemma {:induction false} LinesComeBack(done: seq<Patch>, p: Patch, c: Chunk, lines: seq<Line>)
    requires forall i :: 0 <= i < |lines| ==> LineOk(lines[i])
    requires NoneMistakable(lines)
    ensures ParserOk(Inside(done, p, c))
    ensures ParseLines(Inside(done, p, c), Terminated(LineTexts(lines)))
      == Some(Inside(done, p, c.(lines := c.lines + lines)))
  {
    AddInside(done, p, c, Line(SRC, ""));
    hide Inside, LineOk, Mistakable;
    if lines == [] {
      assert c.lines + lines == c.lines;
    } else {
      var front := lines[..|lines| - 1];
      LinesComeBack(done, p, c, front);
      AddInside(done, p, c.(lines := c.lines + front), Line(SRC, ""));
      hide ParseLines, LineTexts, Terminated;
      NextLineComesBack(done, p, c, lines);
    }
  }

  lemma TerminatedAppend(a: seq<string>, b: seq<string>)
    ensures Terminated(a + b) == Terminated(a) + Terminated(b)
  {
  }

  lemma HeaderStarts(done: seq<Patch>, p: Patch, c: Chunk, current: Option<(nat, nat)>)
    requires ParserOk(Parser(done + [p], current)) && c.srcPos >= 0 && c.dstPos >= 0
    ensures ParseLine(Parser(done + [p], current), ChunkTexts(c)[0] + "\n") == Some(Inside(done, p, c.(lines := [])))
  {
    ClassifyHeader(c);
    hide Classify, ChunkTexts;
    var q := p.(chunks := p.chunks + [c.(lines := [])]);
    assert (done + [p])[|done| := q] == done + [q];
  }

  lemma ChunkComesBack(done: seq<Patch>, p: Patch, c: Chunk, current: Option<(nat, nat)>)
    requires ParserOk(Parser(done + [p], current)) && ChunkOk(c) && ChunkPlain(c)
    ensures ParserOk(Inside(done, p, c))
    ensures ParseLines(Parser(done + [p], current), Terminated(ChunkTexts(c))) == Some(Inside(done, p, c))
  {
    var head, body := [ChunkTexts(c)[0] + "\n"], Terminated(LineTexts(c.lines));
    assert Terminated(ChunkTexts(c)) == head + body;
    HeaderStarts(done, p, c, current);
    var st := Parser(done + [p], current);
    ParseOne(st, head[0]);
    assert ParseLines(st, head) == Some(Inside(done, p, c.(lines := [])));
    LinesComeBack(done, p, c.(lines := []), c.lines);
    ParseAppend(st, head, body);
    hide ChunkTexts, LineTexts, Terminated, ParseLine, LineOk, NoneMistakable;
    assert c.(lines := [] + c.lines) == c;
  }

  lemma NextChunkComesBack(done: seq<Patch>, p: Patch, chunks: seq<Chunk>, st: Parser, between: Parser)
    requires chunks != [] && ChunkOk(chunks[|chunks| - 1]) && ChunkPlain(chunks[|chunks| - 1])
    requires ParserOk(st) && ParserOk(between)
    requires ParseLines(st, Terminated(AllChunkTexts(chunks[..|chunks| - 1]))) == Some(between)
    requires between.patches == done + [p.(chunks := chunks[..|chunks| - 1])]
    ensures var r := ParseLines(st, Terminated(AllChunkTexts(chunks)));
      r.Some? && r.value.patches == done + [p.(chunks := chunks)]
  {
    hide ParseLines, ChunkTexts, Terminated, ChunkOk, ChunkPlain;
    var front, last := chunks[..|chunks| - 1], chunks[|chunks| - 1];
    assert AllChunkTexts(chunks) == AllChunkTexts(front) + ChunkTexts(last);
    hide AllChunkTexts;
    TerminatedAppend(AllChunkTexts(front), ChunkTexts(last));
    ParseAppend(st, Terminated(AllChunkTexts(front)), Terminated(ChunkTexts(last)));
    ChunkComesBack(done, p.(chunks := front), last, between.current);
    assert front + [last] == chunks;
  }

  lemma {:induction false} ChunksComeBack(done: seq<Patch>, p: Patch, chunks: seq<Chunk>, current: Option<(nat, nat)>)
    requires ParserOk(Parser(done + [p], current)) && p.chunks == []
    requires forall k :: 0 <= k < |chunks| ==> ChunkOk(chunks[k]) && ChunkPlain(chunks[k])
    ensures var r := ParseLines(Parser(done + [p], current), Terminated(AllChunkTexts(chunks)));
      r.Some? && r.value.patches == done + [p.(chunks := chunks)]
  {
    hide ChunkTexts, ChunkOk, ChunkPlain;
    if chunks == [] {
      assert p.(chunks := []) == p;
    } else {
      ChunksComeBack(done, p, chunks[..|chunks| - 1], current);
      var st := Parser(done + [p], current);
      var between := ParseLines(st, Terminated(AllChunkTexts(chunks[..|chunks| - 1]))).value;
      hide ParseLines, AllChunkTexts, Terminated;
      NextChunkComesBack(done, p, chunks, st, between);
    }
  }

  lemma ParseOne(st: Parser, line: string)
    requires ParserOk(st)
    ensures ParseLines(st, [line]) == ParseLine(st, line)
  {
    assert [line][..0] == [];
    assert ParseLines(st, []) == Some(st);
  }

  lemma NamesStart(done: seq<Patch>, src: string, dst: string, current: Option<(nat, nat)>)
    requires '\n' !in src && '\n' !in dst && ParserOk(Parser(done, current))
    ensures ParserOk(Parser(done + [Patch(src, dst, [])], current))
    ensures ParseLines(Parser(done, current), Terminated(["--- " + src, "+++ " + dst]))
      == Some(Parser(done + [Patch(src, dst, [])], current))
  {
    ClassifyNames(src);
    ClassifyNames(dst);
    hide Classify;
    var st := Parser(done, current);
    var a, b := "--- " + src + "\n", "+++ " + dst + "\n";
    assert Terminated(["--- " + src, "+++ " + dst]) == [a, b];
    assert [a, b] == [a] + [b];
    ParseAppend(st, [a], [b]);
    ParseOne(st, a);
    var named := Parser(done + [Patch(src, "", [])], current);
    ParseOne(named, b);
    assert ParseLine(st, a) == Some(named);
    assert (done + [Patch(src, "", [])])[|done| := Patch(src, dst, [])] == done + [Patch(src, dst, [])];
    assert ParseLine(named, b) == Some(Parser(done + [Patch(src, dst, [])], current));
  }

  lemma PatchComesBack(done: seq<Patch>, p: Patch, current: Option<(nat, nat)>)
    requires ParserOk(Parser(done, current)) && PatchOk(p) && PatchPlain(p)
    ensures var r := ParseLines(Parser(done, current), Terminated(PatchTexts(p)));
      r.Some? && r.value.patches == done + [p]
  {
    var names := ["--- " + p.src, "+++ " + p.dst];
    TerminatedAppend(names, AllChunkTexts(p.chunks));
    NamesStart(done, p.src, p.dst, current);
    ParseAppend(Parser(done, current), Terminated(names), Terminated(AllChunkTexts(p.chunks)));
    ChunksComeBack(done, Patch(p.src, p.dst, []), p.chunks, current);
    hide ParseLines, Terminated, AllChunkTexts, ChunkOk, ChunkPlain;
    assert Patch(p.src, p.dst, []).(chunks := p.chunks) == p;
  }

  lemma NextPatchComesBack(ps: seq<Patch>, between: Parser)
    requires ps != [] && PatchOk(ps[|ps| - 1]) && PatchPlain(ps[|ps| - 1])
    requires ParserOk(between) && between.patches == ps[..|ps| - 1]
    requires ParseLines(Parser([], None), Terminated(AllTexts(ps[..|ps| - 1]))) == Some(between)
    ensures var r := ParseLines(Parser([], None), Terminated(AllTexts(ps))); r.Some? && r.value.patches == ps
  {
    hide ParseLines, PatchTexts, Terminated, PatchOk, PatchPlain;
    var front, last := ps[..|ps| - 1], ps[|ps| - 1];
    assert AllTexts(ps) == AllTexts(front) + PatchTexts(last);
    hide AllTexts;
    TerminatedAppend(AllTexts(front), PatchTexts(last));
    ParseAppend(Parser([], None), Terminated(AllTexts(front)), Terminated(PatchTexts(last)));
    PatchComesBack(front, last, between.current);
    assert front + [last] == ps;
  }

  lemma {:induction false} PatchesComeBack(ps: seq<Patch>)
    requires PatchesOk(ps) && PatchesPlain(ps)
    ensures var r := ParseLines(Parser([], None), Terminated(AllTexts(ps))); r.Some? && r.value.patches == ps
  {
    hide PatchTexts, PatchOk, PatchPlain;
    if ps != [] {
      PatchesComeBack(ps[..|ps| - 1]);
      var between := ParseLines(Parser([], None), Terminated(AllTexts(ps[..|ps| - 1]))).value;
      hide ParseLines, AllTexts, Terminated;
      NextPatchComesBack(ps, between);
    }
  }

  // ---------- whatever comes back was well-formed ----------

  // Names and texts are what "." matches, positions are digits, kinds are set.
  lemma ParsedLineOk(st: Parser, line: string)
    requires ParserOk(st) && PatchesOk(st.patches)
    ensures ParseLine(st, line).Some? ==> PatchesOk(ParseLine(st, line).value.patches)
  {
    match Classify(line)
    case SrcFile(name) => RestHasNoNewline(line[4..]);
    case DstFile(name) => RestHasNoNewline(line[4..]);
    case Header(_, _) =>
    case Body(l) =>
      RestHasNoNewline(line[1..]);
      if st.current.Some? {
        AddedLineOk(st, l);
      }
    case Unmatched =>
  }

  lemma AddedLineOk(st: Parser, l: Line)
    requires ParserOk(st) && st.current.Some? && PatchesOk(st.patches) && LineOk(l)
    ensures PatchesOk(AddLine(st, l).patches)
  {
    var (i, k) := st.current.value;
    assert PatchOk(st.patches[i]) && ChunkOk(st.patches[i].chunks[k]);
    hide LineOk;
  }

  lemma {:induction false} ParsedOk(st: Parser, lines: seq<string>)
    requires ParserOk(st) && PatchesOk(st.patches)
    ensures ParseLines(st, lines).Some? ==> PatchesOk(ParseLines(st, lines).value.patches)
  {
    hide ParseLine, PatchesOk;
    if lines != [] {
      ParsedOk(st, lines[..|lines| - 1]);
      if ParseLines(st, lines[..|lines| - 1]).Some? {
        ParsedLineOk(ParseLines(st, lines[..|lines| - 1]).value, lines[|lines| - 1]);
      }
    }
  }

  // The number of lines in all chunks.
  ghost function LineCount(ps: seq<Patch>): int {
    Sum((p: Patch) => ChunkLines(p.chunks), ps)
  }

  ghost function ChunkLines(chunks: seq<Chunk>): int {
    Sum((c: Chunk) => |c.lines|, chunks)
  }

  // 1 for texts that are taken as a line of a chunk.
  ghost function BodyBit(line: string): int { if Classify(line).Body? then 1 else 0 }

  ghost function BodyCount(lines: seq<string>): int { Sum((s: string) => BodyBit(s), lines) }

  lemma ParsedLineCount(st: Parser, line: string)
    requires ParserOk(st) && ParseLine(st, line).Some?
    ensures LineCount(ParseLine(st, line).value.patches) == LineCount(st.patches) + BodyBit(line)
  {
    hide Classify, AddLine;
    var f := (p: Patch) => ChunkLines(p.chunks);
    match Classify(line)
    case SrcFile(name) =>
      SumAppend(f, st.patches, [Patch(name, "", [])]);
    case DstFile(name) =>
      var n := |st.patches| - 1;
      SumUpdate(f, st.patches, n, st.patches[n].(dst := name));
    case Header(src, dst) =>
      var n := |st.patches| - 1;
      var chunks := st.patches[n].chunks;
      SumAppend((c: Chunk) => |c.lines|, chunks, [Chunk(src, dst, [])]);
      SumUpdate(f, st.patches, n, st.patches[n].(chunks := chunks + [Chunk(src, dst, [])]));
    case Body(l) =>
      AddedLineCount(st, l);
  }

  lemma AddedLineCount(st: Parser, l: Line)
    requires ParserOk(st) && st.current.Some?
    ensures LineCount(AddLine(st, l).patches) == LineCount(st.patches) + 1
  {
    var (i, k) := st.current.value;
    var p := st.patches[i];
    var c := p.chunks[k].(lines := p.chunks[k].lines + [l]);
    SumUpdate((c: Chunk) => |c.lines|, p.chunks, k, c);
    SumUpdate((p: Patch) => ChunkLines(p.chunks), st.patches, i, p.(chunks := p.chunks[k := c]));
  }

  lemma {:induction false} ParsedCount(st: Parser, lines: seq<string>)
    requires ParserOk(st) && ParseLines(st, lines).Some?
    ensures LineCount(ParseLines(st, lines).value.patches) == LineCount(st.patches) + BodyCount(lines)
  {
    hide ParseLine, LineCount, BodyBit;
    if lines != [] {
      var n := |lines| - 1;
      ParsedCount(st, lines[..n]);
      ParsedLineCount(ParseLines(st, lines[..n]).value, lines[n]);
      SumAppend((s: string) => BodyBit(s), lines[..n], [lines[n]]);
      assert lines[..n] + [lines[n]] == lines;
    }
  }

  lemma BodyCountAppend(a: seq<string>, b: seq<string>)
    ensures BodyCount(Terminated(a + b)) == BodyCount(Terminated(a)) + BodyCount(Terminated(b))
  {
    hide BodyBit;
    TerminatedAppend(a, b);
    SumAppend((s: string) => BodyBit(s), Terminated(a), Terminated(b));
  }

  // Of the written lines of a chunk just those are taken as lines that cannot be mistaken.
  lemma {:induction false} LinesBodyCount(lines: seq<Line>)
    requires forall i :: 0 <= i < |lines| ==> LineOk(lines[i])
    ensures BodyCount(Terminated(LineTexts(lines))) <= |lines|
    ensures BodyCount(Terminated(LineTexts(lines))) == |lines| <==> NoneMistakable(lines)
  {
    hide Classify, LineText, LineOk;
    if lines != [] {
      var front, last := lines[..|lines| - 1], lines[|lines| - 1];
      LinesBodyCount(front);
      ClassifyLine(last);
      assert LineTexts(lines) == LineTexts(front) + [LineText(last)];
      BodyCountAppend(LineTexts(front), [LineText(last)]);
      assert Terminated([LineText(last)]) == [LineText(last) + "\n"];
      BodyCountOne(LineText(last) + "\n");
      hide BodyCount, Mistakable, LineTexts, Terminated;
    }
  }

  lemma BodyCountOne(s: string)
    ensures BodyCount([s]) == BodyBit(s)
  {
    SumOne((s: string) => BodyBit(s), s);
  }

  lemma ChunkBodyCount(c: Chunk)
    requires ChunkOk(c)
    ensures BodyCount(Terminated(ChunkTexts(c))) <= |c.lines|
    ensures BodyCount(Terminated(ChunkTexts(c))) == |c.lines| <==> ChunkPlain(c)
  {
    hide LineTexts, LineOk, HeaderText, Classify, BodyCount;
    LinesBodyCount(c.lines);
    var header := ChunkTexts(c)[0];
    ClassifyHeader(c);
    BodyCountAppend([header], LineTexts(c.lines));
    assert Terminated([header]) == [header + "\n"];
    BodyCountOne(header + "\n");
  }

  lemma {:induction false} ChunksBodyCount(chunks: seq<Chunk>)
    requires forall k :: 0 <= k < |chunks| ==> ChunkOk(chunks[k])
    ensures BodyCount(Terminated(AllChunkTexts(chunks))) <= ChunkLines(chunks)
    ensures BodyCount(Terminated(AllChunkTexts(chunks))) == ChunkLines(chunks) <==>
      forall k :: 0 <= k < |chunks| ==> ChunkPlain(chunks[k])
  {
    hide ChunkTexts, ChunkOk, ChunkPlain;
    if chunks != [] {
      var front, last := chunks[..|chunks| - 1], chunks[|chunks| - 1];
      ChunksBodyCount(front);
      ChunkBodyCount(last);
      BodyCountAppend(AllChunkTexts(front), ChunkTexts(last));
      assert AllChunkTexts(chunks) == AllChunkTexts(front) + ChunkTexts(last);
      SumAppend((c: Chunk) => |c.lines|, front, [last]);
      assert front + [last] == chunks;
      hide AllChunkTexts, BodyCount;
    }
  }

  lemma PatchBodyCount(p: Patch)
    requires PatchOk(p)
    ensures BodyCount(Terminated(PatchTexts(p))) <= ChunkLines(p.chunks)
    ensures BodyCount(Terminated(PatchTexts(p))) == ChunkLines(p.chunks) <==> PatchPlain(p)
  {
    hide AllChunkTexts, ChunkLines, ChunkOk, ChunkPlain;
    ChunksBodyCount(p.chunks);
    var names := ["--- " + p.src, "+++ " + p.dst];
    BodyCountAppend(names, AllChunkTexts(p.chunks));
    ClassifyNames(p.src);
    ClassifyNames(p.dst);
    hide Classify;
    assert Terminated(names) == ["--- " + p.src + "\n"] + ["+++ " + p.dst + "\n"];
    SumAppend((s: string) => BodyBit(s), ["--- " + p.src + "\n"], ["+++ " + p.dst + "\n"]);
    assert BodyCount(["--- " + p.src + "\n"]) == 0 == BodyCount(["+++ " + p.dst + "\n"]);
  }

  lemma {:induction false} PatchesBodyCount(ps: seq<Patch>)
    requires PatchesOk(ps)
    ensures BodyCount(Terminated(AllTexts(ps))) <= LineCount(ps)
    ensures BodyCount(Terminated(AllTexts(ps))) == LineCount(ps) <==> PatchesPlain(ps)
  {
    hide PatchTexts, PatchOk, PatchPlain, ChunkLines;
    if ps != [] {
      var front, last := ps[..|ps| - 1], ps[|ps| - 1];
      PatchesBodyCount(front);
      PatchBodyCount(last);
      BodyCountAppend(AllTexts(front), PatchTexts(last));
      assert AllTexts(ps) == AllTexts(front) + PatchTexts(last);
      SumAppend((p: Patch) => ChunkLines(p.chunks), front, [last]);
      assert front + [last] == ps;
      hide AllTexts, BodyCount;
    }
  }

  // ---------- the round trip ----------

  // The kinds of all lines are set, so that writing raises no exception.
  ghost predicate KindsSet(ps: seq<Patch>) {
    forall i, k, j :: 0 <= i < |ps| && 0 <= k < |ps[i].chunks| && 0 <= j < |ps[i].chunks[k].lines| ==>
      ps[i].chunks[k].lines[j].kind != NONE
  }

  ghost predicate RoundTrips(ps: seq<Patch>) {
    KindsSet(ps) && ParsePatchset(SplitLines(FileText(AllTexts(ps)))) == Some(ps)
  }

  lemma {:induction false} ChunkTextsClean(chunks: seq<Chunk>)
    requires forall k :: 0 <= k < |chunks| ==> ChunkOk(chunks[k])
    ensures forall i :: 0 <= i < |AllChunkTexts(chunks)| ==> '\n' !in AllChunkTexts(chunks)[i]
  {
    if chunks != [] {
      var c := chunks[|chunks| - 1];
      ChunkTextsClean(chunks[..|chunks| - 1]);
      HeaderClean(c.srcPos, Sources(c.lines), c.dstPos, Destinations(c.lines));
      hide HeaderText;
      assert ChunkOk(c);
      forall i | 0 <= i < |ChunkTexts(c)|
        ensures '\n' !in ChunkTexts(c)[i]
      {
        assert i > 0 ==> LineOk(c.lines[i - 1]);
      }
      hide ChunkTexts, ChunkOk;
    }
  }

  lemma {:induction false} DecimalClean(n: nat)
    ensures '\n' !in NatDecimal(n)
  {
    DecimalValue(n);
  }

  lemma HeaderClean(src: int, srcLen: nat, dst: int, dstLen: nat)
    ensures '\n' !in HeaderText(src, srcLen, dst, dstLen, "")
  {
    SignedClean(src);
    SignedClean(dst);
    DecimalClean(srcLen);
    DecimalClean(dstLen);
    hide NatDecimal, Decimal;
    var r4 := "," + NatDecimal(dstLen) + (" @@" + "");
    var r3 := " +" + Decimal(dst) + r4;
    assert '\n' !in r3;
    var r2 := "," + NatDecimal(srcLen) + r3;
    assert '\n' !in r2;
  }

  lemma SignedClean(n: int)
    ensures '\n' !in Decimal(n)
  {
    DecimalClean(if n < 0 then -n else n);
  }

  lemma {:induction false} TextsClean(ps: seq<Patch>)
    requires PatchesOk(ps)
    ensures forall i :: 0 <= i < |AllTexts(ps)| ==> '\n' !in AllTexts(ps)[i]
  {
    if ps != [] {
      var p := ps[|ps| - 1];
      TextsClean(ps[..|ps| - 1]);
      assert PatchOk(p);
      ChunkTextsClean(p.chunks);
      hide AllChunkTexts, PatchOk;
    }
  }

  lemma SplitsIntoTexts(ps: seq<Patch>)
    requires PatchesOk(ps)
    ensures SplitLines(FileText(AllTexts(ps))) == Terminated(AllTexts(ps))
  {
    TextsClean(ps);
    SplitFile(AllTexts(ps), "");
    assert FileText(AllTexts(ps)) + "" == FileText(AllTexts(ps));
  }

  // Writing patches and parsing the file gives them back exactly if no name or line holds a
  // newline, no position is negative, all kinds are set, and no line can be mistaken for a name.
  lemma RoundTripIff(ps: seq<Patch>)
    ensures RoundTrips(ps) <==> PatchesOk(ps) && PatchesPlain(ps)
  {
    hide AllTexts, FileText, SplitLines, PatchesPlain, LineCount, BodyCount;
    if PatchesOk(ps) && PatchesPlain(ps) {
      SplitsIntoTexts(ps);
      PatchesComeBack(ps);
      AreSet(ps);
    }
    if RoundTrips(ps) {
      hide ParseLines, KindsSet;
      var lines := SplitLines(FileText(AllTexts(ps)));
      ParsedOk(Parser([], None), lines);
      SplitsIntoTexts(ps);
      ParsedCount(Parser([], None), lines);
      PatchesBodyCount(ps);
      NoLines();
    }
  }

  lemma NoLines()
    ensures LineCount([]) == 0
  {
  }

  lemma AreSet(ps: seq<Patch>)
    requires PatchesOk(ps)
    ensures KindsSet(ps)
  {
    forall i, k, j | 0 <= i < |ps| && 0 <= k < |ps[i].chunks| && 0 <= j < |ps[i].chunks[k].lines|
      ensures ps[i].chunks[k].lines[j].kind != NONE
    {
      assert PatchOk(ps[i]) && ChunkOk(ps[i].chunks[k]) && LineOk(ps[i].chunks[k].lines[j]);
    }
  }

  // A removed line "-- x" comes back as a second patch for the file x.
  lemma MistakenForName()
    ensures var p := Patch("a", "b", [Chunk(1, 1, [Line(SRC, "-- x")])]);
      PatchesOk([p]) && !RoundTrips([p])
  {
    var p := Patch("a", "b", [Chunk(1, 1, [Line(SRC, "-- x")])]);
    hide RoundTrips;
    RoundTripIff([p]);
    assert Mistakable(p.chunks[0].lines[0]) && !ChunkPlain(p.chunks[0]) && !PatchPlain([p][0]);
  }

  ghost function CountStarting(texts: seq<string>, marks: set<char>): nat {
    if texts == [] then 0 else
      var t := texts[|texts| - 1];
      CountStarting(texts[..|texts| - 1], marks) + if t != "" && t[0] in marks then 1 else 0
  }

  // The header line in front of texts holds these positions, and counts the texts by their marks.
  ghost predicate CountsInHeader(texts: seq<string>, src: nat, dst: nat) {
    && texts != []
    && HeaderNumbers(texts[0])
       == Some((src, CountStarting(texts[1..], {'-', ' '}), dst, CountStarting(texts[1..], {'+', ' '})))
  }

  // The numbers in the header line that is written are the positions, and the numbers of removed or
  // kept and of added or kept lines behind it.
  lemma WrittenCounts(c: Chunk)
    requires c.srcPos >= 0 && c.dstPos >= 0 && forall i :: 0 <= i < |c.lines| ==> c.lines[i].kind != NONE
    ensures CountsInHeader(ChunkTexts(c), c.srcPos, c.dstPos)
  {
    HeaderNumbersRead(c.srcPos, Sources(c.lines), c.dstPos, Destinations(c.lines), "");
    HeaderCountsMatch(c.lines);
    hide HeaderText, HeaderNumbers, LineTexts;
    assert ChunkTexts(c)[1..] == LineTexts(c.lines);
  }

  // The counts in a header match the lines that follow it.
  lemma {:induction false} HeaderCountsMatch(lines: seq<Line>)
    requires forall i :: 0 <= i < |lines| ==> lines[i].kind != NONE
    ensures Sources(lines) == CountStarting(LineTexts(lines), {'-', ' '})
    ensures Destinations(lines) == CountStarting(LineTexts(lines), {'+', ' '})
  {
    if lines != [] {
      var front, last := lines[..|lines| - 1], lines[|lines| - 1];
      HeaderCountsMatch(front);
      hide Sources, Destinations;
      assert LineTexts(lines) == LineTexts(front) + [LineText(last)];
      OneMoreText(LineTexts(front), LineText(last), {'-', ' '});
      OneMoreText(LineTexts(front), LineText(last), {'+', ' '});
      hide LineTexts, CountStarting;
      OneMoreLine(lines);
    }
  }

  lemma OneMoreText(texts: seq<string>, t: string, marks: set<char>)
    requires t != ""
    ensures CountStarting(texts + [t], marks) == CountStarting(texts, marks) + if t[0] in marks then 1 else 0
  {
    assert (texts + [t])[..|texts|] == texts;
  }

  lemma OneMoreLine(lines: seq<Line>)
    requires lines != [] && lines[|lines| - 1].kind != NONE
    ensures var front, t := lines[..|lines| - 1], LineText(lines[|lines| - 1]);
      && t != ""
      && Sources(lines) == Sources(front) + (if t[0] in {'-', ' '} then 1 else 0)
      && Destinations(lines) == Destinations(front) + (if t[0] in {'+', ' '} then 1 else 0)
  {
  }
}
