/** Binary numbers as strings (int2bin, bin2int and binary_range, simulation/bindings/python/rad_util.py). */
module Binary {
  import opened Outcomes

  // ---------- the value of a string of bits ----------

  function Power(n: nat): (p: nat)
    ensures p > 0
  {
    if n == 0 then 1 else 2 * Power(n - 1)
  }

  predicate Bits(s: string) { forall k :: 0 <= k < |s| ==> s[k] in "01" }

  function Bit(c: char): nat { if c == '1' then 1 else 0 }

  function ValueOf(binString: string): nat {
    if binString == "" then 0 else
      2 * ValueOf(binString[..|binString| - 1]) + Bit(binString[|binString| - 1])
  }

  // int() with base 2; no value for a string without bits or with other characters.
  function Bin2Int(binString: string): Option<nat> {
    if binString != "" && Bits(binString) then Some(ValueOf(binString)) else None
  }

  lemma {:induction false} ValueOfBoth(a: string, b: string)
    ensures ValueOf(a + b) == ValueOf(a) * Power(|b|) + ValueOf(b)
  {
    if b == "" {
      assert a + b == a;
    } else {
      var front := b[..|b| - 1];
      ValueOfBoth(a, front);
      assert (a + b)[..|a + b| - 1] == a + front;
      assert ValueOf(a + b) == 2 * ValueOf(a + front) + Bit(b[|b| - 1]);
      assert ValueOf(b) == 2 * ValueOf(front) + Bit(b[|b| - 1]) && Power(|b|) == 2 * Power(|front|);
      hide ValueOf, Power, Bit;
      DoubleProduct(ValueOf(a), Power(|front|));
    }
  }

  lemma DoubleProduct(x: nat, y: nat)
    ensures 2 * (x * y) == x * (2 * y)
  {
  }

  lemma {:induction false} ValueFits(s: string)
    ensures ValueOf(s) < Power(|s|)
  {
    if s != "" {
      ValueFits(s[..|s| - 1]);
    }
  }

  lemma {:induction false} ValueOfZeros(s: string)
    requires Bits(s)
    ensures '1' !in s <==> ValueOf(s) == 0
  {
    if s != "" {
      var front, last := s[..|s| - 1], s[|s| - 1];
      ValueOfZeros(front);
      assert s == front + [last];
    }
  }

  // Strings of the same length have different values.
  lemma {:induction false} SameValue(s: string, t: string)
    requires Bits(s) && Bits(t) && |s| == |t| && ValueOf(s) == ValueOf(t)
    ensures s == t
  {
    if s != "" {
      var n := |s| - 1;
      assert s[n] in "01" && t[n] in "01";
      SameValue(s[..n], t[..n]);
      assert s == s[..n] + [s[n]] && t == t[..n] + [t[n]];
    }
  }

  // ---------- int2bin ----------

  // The table hex2bin, and its KeyError.
  function HexToBin(c: char): Option<string> {
    var hex2bin := map[
      '0' := "0000", '1' := "0001", '2' := "0010", '3' := "0011",
      '4' := "0100", '5' := "0101", '6' := "0110", '7' := "0111",
      '8' := "1000", '9' := "1001", 'a' := "1010", 'b' := "1011",
      'c' := "1100", 'd' := "1101", 'e' := "1110", 'f' := "1111"];
    if c in hex2bin then Some(hex2bin[c]) else None
  }

  function HexDigit(d: nat): char
    requires d < 16
  {
    "0123456789abcdef"[d]
  }

  function HexDigits(i: nat): string {
    if i < 16 then [HexDigit(i)] else HexDigits(i / 16) + [HexDigit(i % 16)]
  }

  // hex(), without the mark of a long integer.
  function Hex(i: int): string {
    if i < 0 then "-0x" + HexDigits(-i) else "0x" + HexDigits(i)
  }

  datatype BinResult = Binary(bits: string) | KeyError | ValueError

  // The digits' bits joined; KeyError for a character that is no digit.
  function Joined(digits: string): (r: BinResult)
    ensures !r.ValueError?
  {
    if digits == "" then Binary("") else
      match Joined(digits[..|digits| - 1])
      case Binary(front) =>
        (match HexToBin(digits[|digits| - 1])
         case Some(last) => Binary(front + last)
         case None => KeyError)
      case _ => KeyError
  }

  // Where a slice ends that is given a bound: a negative bound counts from the end of the string.
  function SliceBound(length: nat, bound: int): (b: nat)
    ensures b <= length
  {
    if bound < 0 then (if length + bound < 0 then 0 else length + bound)
    else if bound > length then length else bound
  }

  function Zeros(n: int): (s: string)
    ensures |s| == (if n > 0 then n else 0) && forall k :: 0 <= k < |s| ==> s[k] == '0'
  {
    seq(if n > 0 then n else 0, k => '0')
  }

  function Int2Bin(i: int, n: int): BinResult {
    match Joined(Hex(i)[2..])
    case Binary(result) =>
      var cut := SliceBound(|result|, -n);
      if '1' in result[..cut] then ValueError else
        Binary(Zeros(n - |result[cut..]|) + result[cut..])
    case _ => KeyError
  }

  lemma FourBits(b: string)
    requires |b| == 4
    ensures ValueOf(b) == 8 * Bit(b[0]) + 4 * Bit(b[1]) + 2 * Bit(b[2]) + Bit(b[3])
  {
    assert b[..3][..2] == b[..2] && b[..2][..1] == b[..1] && b[..1][..0] == "";
    assert ValueOf(b[..1]) == Bit(b[0]);
    assert ValueOf(b[..2]) == 2 * ValueOf(b[..1]) + Bit(b[1]);
    assert ValueOf(b[..3]) == 2 * ValueOf(b[..2]) + Bit(b[2]);
  }

  lemma HexDigitBits(d: nat)
    requires d < 16
    ensures var b := HexToBin(HexDigit(d)); b.Some? && |b.value| == 4 && Bits(b.value) && ValueOf(b.value) == d
  {
    hide ValueOf;
    FourBits(HexToBin(HexDigit(d)).value);
  }

  lemma JoinMore(digits: string, c: char)
    requires Joined(digits).Binary? && HexToBin(c).Some?
    ensures Joined(digits + [c]) == Binary(Joined(digits).bits + HexToBin(c).value)
  {
    hide HexToBin;
    assert (digits + [c])[..|digits|] == digits;
  }

  ghost predicate BitsFor(r: BinResult, i: nat) {
    r.Binary? && |r.bits| >= 4 && Bits(r.bits) && ValueOf(r.bits) == i
  }

  lemma OneDigit(i: nat)
    requires i < 16
    ensures BitsFor(Joined([HexDigit(i)]), i)
  {
    HexDigitBits(i);
    JoinMore("", HexDigit(i));
    assert "" + [HexDigit(i)] == [HexDigit(i)];
    hide HexToBin, HexDigit, ValueOf;
    assert "" + HexToBin(HexDigit(i)).value == HexToBin(HexDigit(i)).value;
  }

  lemma OneDigitMore(digits: string, front: nat, d: nat)
    requires BitsFor(Joined(digits), front) && d < 16
    ensures BitsFor(Joined(digits + [HexDigit(d)]), 16 * front + d)
  {
    HexDigitBits(d);
    JoinMore(digits, HexDigit(d));
    var a, b := Joined(digits).bits, HexToBin(HexDigit(d)).value;
    ValueOfBoth(a, b);
    assert Power(|b|) == 16;
    hide Joined, HexToBin, HexDigit, ValueOf, Power;
  }

  // The bits of a number's digits, four for each.
  lemma {:induction false} DigitsBits(i: nat)
    ensures BitsFor(Joined(HexDigits(i)), i)
  {
    hide BitsFor, Joined, HexDigit;
    if i < 16 {
      OneDigit(i);
    } else {
      DigitsBits(i / 16);
      OneDigitMore(HexDigits(i / 16), i / 16, i % 16);
    }
  }

  // How many of the bits are left after the cut.
  function Kept(i: nat, n: int): nat {
    DigitsBits(i);
    var length := |Joined(HexDigits(i)).bits|;
    length - SliceBound(length, -n)
  }

  // For any width, even one that is not positive: the bits before the cut must not count, and what is
  // left keeps the value.
  lemma CutKeepsValue(i: nat, n: int)
    ensures !Int2Bin(i, n).KeyError?
    ensures Int2Bin(i, n).ValueError? <==> i >= Power(Kept(i, n))
    ensures var r := Int2Bin(i, n);
      r.Binary? ==> Bits(r.bits) && ValueOf(r.bits) == i && |r.bits| == if n > Kept(i, n) then n else Kept(i, n)
  {
    DigitsBits(i);
    hide Joined, HexDigits, ValueOf;
    assert Hex(i)[2..] == HexDigits(i);
    var result := Joined(HexDigits(i)).bits;
    var cut := SliceBound(|result|, -n);
    var front, back := result[..cut], result[cut..];
    assert result == front + back;
    ValueOfBoth(front, back);
    ValueOfZeros(front);
    ValueFits(back);
    AtLeastOne(ValueOf(front), Power(|back|));
    var zeros := Zeros(n - |back|);
    ValueOfZeros(zeros);
    ValueOfBoth(zeros, back);
  }

  lemma AtLeastOne(x: nat, y: nat)
    ensures x > 0 ==> x * y >= y
  {
  }

  // A positive width: exactly the numbers that fit are written, in that width, and read back.
  lemma WrittenIffFits(i: nat, n: nat)
    requires n >= 1
    ensures Int2Bin(i, n).ValueError? <==> i >= Power(n)
    ensures i < Power(n) ==>
      Int2Bin(i, n).Binary? && |Int2Bin(i, n).bits| == n && Bin2Int(Int2Bin(i, n).bits) == Some(i)
  {
    CutKeepsValue(i, n);
    DigitsBits(i);
    ValueFits(Joined(HexDigits(i)).bits);
    hide Joined, HexDigits, ValueOf, Bits, Int2Bin, Power;
    if Kept(i, n) < n {
      PowerGrows(Kept(i, n), n);
    }
  }

  lemma {:induction false} PowerGrows(m: nat, n: nat)
    requires m <= n
    ensures Power(m) <= Power(n)
  {
    if m < n {
      PowerGrows(m, n - 1);
    }
  }

  // The other way round: a string of bits is what is written for its value.
  lemma ReadThenWritten(s: string)
    requires Bin2Int(s).Some?
    ensures Int2Bin(Bin2Int(s).value, |s|) == Binary(s)
  {
    ValueFits(s);
    WrittenIffFits(ValueOf(s), |s|);
    CutKeepsValue(ValueOf(s), |s|);
    SameValue(Int2Bin(ValueOf(s), |s|).bits, s);
  }

  // With width 0 nothing is cut off, so that no number is too large for it.
  lemma WidthZeroNeverRaises(i: nat)
    ensures Int2Bin(i, 0).Binary? && Bin2Int(Int2Bin(i, 0).bits) == Some(i) && |Int2Bin(i, 0).bits| >= 4
  {
    DigitsBits(i);
    CutKeepsValue(i, 0);
    ValueFits(Joined(HexDigits(i)).bits);
    hide Joined, HexDigits, ValueOf, Bits, Int2Bin, Power;
  }

  // A negative number has an x where its digits are looked for.
  lemma NegativeRaises(i: int, n: int)
    requires i < 0
    ensures Int2Bin(i, n).KeyError?
  {
    assert Hex(i)[2..] == "x" + HexDigits(-i);
    NoDigit(HexDigits(-i));
  }

  lemma {:induction false} NoDigit(digits: string)
    ensures Joined("x" + digits).KeyError?
  {
    var s := "x" + digits;
    if digits == "" {
      assert s[..0] == "";
    } else {
      NoDigit(digits[..|digits| - 1]);
      assert s[..|s| - 1] == "x" + digits[..|digits| - 1];
    }
  }

  // ---------- binary_range ----------

  function Reversed(s: string): (r: string)
    ensures |r| == |s| && forall k :: 0 <= k < |s| ==> r[k] == s[|s| - 1 - k]
  {
    seq(|s|, k requires 0 <= k < |s| => s[|s| - 1 - k])
  }

  // A bit's weight is the power of its distance from the end.
  lemma {:induction false} ValueOfChange(s: string, j: nat, c: char)
    requires j < |s|
    ensures ValueOf(s[j := c]) == ValueOf(s) + Power(|s| - 1 - j) * (Bit(c) - Bit(s[j]))
  {
    var n := |s| - 1;
    if j < n {
      ValueOfChange(s[..n], j, c);
      assert s[j := c][..n] == s[..n][j := c];
      DoubleDifference(Power(n - 1 - j), Bit(c) - Bit(s[j]));
    } else {
      assert s[j := c][..n] == s[..n];
    }
  }

  lemma DoubleDifference(x: int, y: int)
    ensures 2 * (x * y) == (2 * x) * y
  {
  }

  // The value of bits that come with the least weight first.
  function Count(v: string): nat { ValueOf(Reversed(v)) }

  lemma CountOfChange(v: string, i: nat, c: char)
    requires i < |v|
    ensures Count(v[i := c]) == Count(v) + Power(i) * (Bit(c) - Bit(v[i]))
  {
    hide ValueOf, Power, Bit;
    var r := Reversed(v);
    assert Reversed(v[i := c]) == r[|v| - 1 - i := c];
    assert r[|v| - 1 - i] == v[i];
    ValueOfChange(r, |v| - 1 - i, c);
  }

  lemma CountFits(v: string)
    ensures Count(v) < Power(|v|)
  {
    ValueFits(Reversed(v));
  }

  // What the carry into place i still has to add.
  function Carried(toggle: int, i: nat): nat { if toggle == 1 then Power(i) else 0 }

  // Flipping a bit: a zero takes the carry in, a one passes it on to the next place.
  lemma Flip(v: string, i: nat)
    requires i < |v| && Bits(v)
    ensures v[i] == '0' ==> Count(v[i := '1']) == Count(v) + Power(i)
    ensures v[i] != '0' ==> Count(v[i := '0']) + Power(i + 1) == Count(v) + Power(i)
  {
    hide Count;
    CountOfChange(v, i, if v[i] == '0' then '1' else '0');
    assert v[i] in "01";
  }

  // The carry runs over the low ones and stops at the first zero.
  method Increment(v: array<char>, toggle: array<int>)
    requires v != toggle as object && toggle.Length == v.Length + 1 && Bits(v[..])
    requires toggle[0] == 1 && forall j :: 0 < j <= v.Length ==> toggle[j] == 0
    modifies v, toggle
    ensures Bits(v[..])
    ensures toggle[v.Length] == 0 || toggle[v.Length] == 1
    ensures Count(v[..]) + Carried(toggle[v.Length], v.Length) == old(Count(v[..])) + 1
  {
    var i := 0;
    while i < v.Length && toggle[i] == 1
      invariant i <= v.Length
      invariant Bits(v[..])
      invariant toggle[i] == 0 || toggle[i] == 1
      invariant forall j :: i < j <= v.Length ==> toggle[j] == 0
      invariant Count(v[..]) + Carried(toggle[i], i) == old(Count(v[..])) + 1
    {
      hide Count, Power;
      ghost var before := v[..];
      Flip(before, i);
      if v[i] == '0' {
        v[i] := '1';
        toggle[i + 1] := 0;
      } else {
        v[i] := '0';
        toggle[i + 1] := 1;
      }
      assert v[..] == before[i := v[i]];
      i := i + 1;
    }
  }

  // Each string is what is written for its place in the list.
  ghost predicate Listed(l: seq<string>, bits: int) {
    forall k :: 0 <= k < |l| ==> Int2Bin(k, bits) == Binary(l[k])
  }

  // Every string of that many bits, in the order of their values. No list is long enough for a bound
  // below -1.
  method BinaryRange(bits: int) returns (r: Outcome<seq<string>>)
    ensures r.IndexError? <==> bits < -1
    ensures r.Returned? && bits <= 0 ==> r.value == []
    ensures bits >= 1 ==> |r.value| == Power(bits)
    ensures bits >= 1 ==> Listed(r.value, bits)
  {
    if bits < -1 {
      return IndexError;
    }
    if bits <= 0 {
      // toggle[bits] is toggle[0], and is set from the start.
      return Returned([]);
    }
    hide Int2Bin, Count, Bits, Power, Listed;
    var l: seq<string> := [];
    var v := new char[bits](_ => '0');
    var toggle := new int[bits + 1](j => if j == 0 then 1 else 0);
    StartsAtZero(v[..], bits);
    while toggle[bits] != 1
      invariant v.Length == bits && toggle.Length == bits + 1 && fresh(v) && fresh(toggle)
      invariant Bits(v[..]) && (toggle[bits] == 0 || toggle[bits] == 1)
      invariant Count(v[..]) + Carried(toggle[bits], bits) == |l|
      invariant Listed(l, bits)
      invariant |l| <= Power(bits)
      decreases Power(bits) - |l|
    {
      CountFits(v[..]);
      ListedMore(l, v[..]);
      l := l + [Reversed(v[..])];
      toggle := new int[bits + 1](j => if j == 0 then 1 else 0);
      Increment(v, toggle);
    }
    CountFits(v[..]);
    r := Returned(l);
  }

  lemma StartsAtZero(v: string, bits: int)
    requires forall k :: 0 <= k < |v| ==> v[k] == '0'
    ensures Bits(v) && Count(v) == 0 && Listed([], bits)
  {
    ValueOfZeros(Reversed(v));
  }

  lemma ListedMore(l: seq<string>, v: string)
    requires v != "" && Bits(v) && Listed(l, |v|) && Count(v) == |l|
    ensures Listed(l + [Reversed(v)], |v|)
  {
    hide Int2Bin;
    ReadThenWritten(Reversed(v));
  }
}
