/** Patches as values, the text they are written as, and what parsing lines makes of them
    (simulation/utils/check-style.py). The format is that of unified diffs with explicit counts. */
module PatchText {
  import opened Outcomes

  datatype Kind = NONE | SRC | DST | BOTH

  datatype Line = Line(kind: Kind, text: string)

  datatype Chunk = Chunk(srcPos: int, dstPos: int, lines: seq<Line>)

  datatype Patch = Patch(src: string, dst: string, chunks: seq<Chunk>)

  // ---------- decimal numbers ----------

  function Digit(d: nat): char
    requires d < 10
  {
    "0123456789"[d]
  }

  predicate IsDigit(c: char) { '0' <= c <= '9' }

  function NatDecimal(n: nat): string {
    if n < 10 then [Digit(n)] else NatDecimal(n / 10) + [Digit(n % 10)]
  }

  // What %d prints.
  function Decimal(n: int): string {
    if n < 0 then "-" + NatDecimal(-n) else NatDecimal(n)
  }

  predicate AllDigits(s: string) { forall i :: 0 <= i < |s| ==> IsDigit(s[i]) }

  // int() of a string of digits.
  function Value(digits: string): nat
    requires AllDigits(digits)
  {
    if digits == "" then 0 else
      var last := digits[|digits| - 1];
      assert IsDigit(last);
      10 * Value(digits[..|digits| - 1]) + (last as int - '0' as int)
  }

  lemma {:induction false} DecimalValue(n: nat)
    ensures NatDecimal(n) != "" && AllDigits(NatDecimal(n))
    ensures Value(NatDecimal(n)) == n
  {
    assert forall d: nat :: d < 10 ==> IsDigit(Digit(d)) && Digit(d) as int - '0' as int == d;
    if n >= 10 {
      DecimalValue(n / 10);
      assert NatDecimal(n)[..|NatDecimal(n)| - 1] == NatDecimal(n / 10);
    }
  }

  // No number is printed with a zero in front.
  lemma {:induction false} NoLeadingZero(n: nat)
    ensures NatDecimal(n)[0] == '0' <==> n == 0
    ensures n < 10 <==> |NatDecimal(n)| == 1
  {
    if n >= 10 {
      NoLeadingZero(n / 10);
      DecimalValue(n / 10);
    }
  }

  // ---------- the regular expressions ----------

  // "(.*)$": everything up to the end of the line, which only one newline at the very end may follow.
  function RestOfLine(s: string): Option<string> {
    if s == "" then Some("")
    else if s == "\n" then Some("")
    else if s[0] == '\n' then None
    else match RestOfLine(s[1..]) case None => None case Some(r) => Some([s[0]] + r)
  }

  lemma {:induction false} RestOfNewline(s: string)
    requires '\n' !in s
    ensures RestOfLine(s + "\n") == Some(s)
  {
    if s == "" {
      assert s + "\n" == "\n";
    } else {
      assert (s + "\n")[1..] == s[1..] + "\n";
      assert s[0] in s && s == [s[0]] + s[1..];
      RestOfNewline(s[1..]);
    }
  }

  lemma {:induction false} RestHasNoNewline(s: string)
    ensures RestOfLine(s).Some? ==> '\n' !in RestOfLine(s).value
  {
    if s != "" {
      RestHasNoNewline(s[1..]);
    }
  }

  // "([0-9]+)": the longest run of digits, and what follows it.
  function Digits(s: string): (r: (string, string))
    ensures s == r.0 + r.1
    ensures AllDigits(r.0)
  {
    if s == "" || !IsDigit(s[0]) then ("", s) else
      var (d, rest) := Digits(s[1..]);
      ([s[0]] + d, rest)
  }

  lemma {:induction false} DigitsOf(d: string, rest: string)
    requires AllDigits(d)
    requires rest != "" && !IsDigit(rest[0])
    ensures Digits(d + rest) == (d, rest)
  {
    if d == "" {
      assert d + rest == rest;
    } else {
      assert (d + rest)[1..] == d[1..] + rest && d == [d[0]] + d[1..];
      DigitsOf(d[1..], rest);
    }
  }

  // A number after the given prefix, and what follows it.
  function NumberAfter(prefix: string, s: string): Option<(nat, string)> {
    if prefix <= s && Digits(s[|prefix|..]).0 != "" then
      var (d, rest) := Digits(s[|prefix|..]);
      Some((Value(d), rest))
    else None
  }

  lemma NumberAfterPrefix(prefix: string, n: nat, rest: string)
    requires rest != "" && !IsDigit(rest[0])
    ensures NumberAfter(prefix, prefix + NatDecimal(n) + rest) == Some((n, rest))
  {
    DecimalValue(n);
    assert (prefix + NatDecimal(n) + rest)[|prefix|..] == NatDecimal(n) + rest;
    DigitsOf(NatDecimal(n), rest);
  }

  // "^@@ -([0-9]+),([0-9]+) \+([0-9]+),([0-9]+) @@": the two positions.
  function HeaderOf(line: string): Option<(nat, nat)> {
    match NumberAfter("@@ -", line)
    case None => None
    case Some((src, afterSrc)) =>
      match NumberAfter(",", afterSrc)
      case None => None
      case Some((_, afterSrcLen)) =>
        match NumberAfter(" +", afterSrcLen)
        case None => None
        case Some((dst, afterDst)) =>
          match NumberAfter(",", afterDst)
          case None => None
          case Some((_, afterDstLen)) => if " @@" <= afterDstLen then Some((src, dst)) else None
  }

  // All four numbers of a header line.
  function HeaderNumbers(line: string): Option<(nat, nat, nat, nat)> {
    match NumberAfter("@@ -", line)
    case None => None
    case Some((src, afterSrc)) =>
      match NumberAfter(",", afterSrc)
      case None => None
      case Some((srcLen, afterSrcLen)) =>
        match NumberAfter(" +", afterSrcLen)
        case None => None
        case Some((dst, afterDst)) =>
          match NumberAfter(",", afterDst)
          case None => None
          case Some((dstLen, afterDstLen)) =>
            if " @@" <= afterDstLen then Some((src, srcLen, dst, dstLen)) else None
  }

  // "@@ -%d,%d +%d,%d @@", followed by what comes behind it.
  function HeaderText(src: int, srcLen: nat, dst: int, dstLen: nat, behind: string): string {
    "@@ -" + Decimal(src) +
      ("," + NatDecimal(srcLen) +
        (" +" + Decimal(dst) +
          ("," + NatDecimal(dstLen) + (" @@" + behind))))
  }

  lemma HeaderRead(src: int, srcLen: nat, dst: int, dstLen: nat, behind: string)
    ensures HeaderOf(HeaderText(src, srcLen, dst, dstLen, behind))
      == if src >= 0 && dst >= 0 then Some((src, dst)) else None
  {
    var r4 := " @@" + behind;
    var r3 := "," + NatDecimal(dstLen) + r4;
    var r2 := " +" + Decimal(dst) + r3;
    var r1 := "," + NatDecimal(srcLen) + r2;
    NumberAfterPrefix(",", srcLen, r2);
    NumberAfterPrefix(",", dstLen, r4);
    SignedAfterPrefix("@@ -", src, r1);
    SignedAfterPrefix(" +", dst, r3);
    hide NumberAfter, Decimal, NatDecimal;
  }

  // A reader of all four numbers finds the positions and the counts where they belong.
  lemma HeaderNumbersRead(src: int, srcLen: nat, dst: int, dstLen: nat, behind: string)
    ensures var r := HeaderNumbers(HeaderText(src, srcLen, dst, dstLen, behind));
      if src < 0 || dst < 0 then r == None else r == Some((src, srcLen, dst, dstLen))
  {
    var r4 := " @@" + behind;
    var r3 := "," + NatDecimal(dstLen) + r4;
    var r2 := " +" + Decimal(dst) + r3;
    var r1 := "," + NatDecimal(srcLen) + r2;
    NumberAfterPrefix(",", srcLen, r2);
    NumberAfterPrefix(",", dstLen, r4);
    SignedAfterPrefix("@@ -", src, r1);
    SignedAfterPrefix(" +", dst, r3);
    hide NumberAfter, Decimal, NatDecimal;
  }

  // A negative number is printed with a sign, which is no digit.
  lemma SignedAfterPrefix(prefix: string, n: int, rest: string)
    requires rest != "" && !IsDigit(rest[0])
    ensures NumberAfter(prefix, prefix + Decimal(n) + rest) == if n >= 0 then Some((n, rest)) else None
  {
    if n >= 0 {
      NumberAfterPrefix(prefix, n, rest);
    } else {
      var s := prefix + Decimal(n) + rest;
      assert s[|prefix|..][0] == '-';
    }
  }

  datatype Piece =
    | SrcFile(name: string)
    | DstFile(name: string)
    | Header(src: nat, dst: nat)
    | Body(line: Line)
    | Unmatched

  // The expressions are tried in this order.
  function Classify(line: string): Piece {
    if "--- " <= line && RestOfLine(line[4..]).Some? then SrcFile(RestOfLine(line[4..]).value)
    else if "+++ " <= line && RestOfLine(line[4..]).Some? then DstFile(RestOfLine(line[4..]).value)
    else if HeaderOf(line).Some? then Header(HeaderOf(line).value.0, HeaderOf(line).value.1)
    else if "-" <= line && RestOfLine(line[1..]).Some? then Body(Line(SRC, RestOfLine(line[1..]).value))
    else if "+" <= line && RestOfLine(line[1..]).Some? then Body(Line(DST, RestOfLine(line[1..]).value))
    else if " " <= line && RestOfLine(line[1..]).Some? then Body(Line(BOTH, RestOfLine(line[1..]).value))
    else Unmatched
  }
}
