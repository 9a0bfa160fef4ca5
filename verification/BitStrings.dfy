/** Binary strings in `rad_util.py`: conversion both ways, the list of all strings of a width,
    and the Gray code. */
module BitStrings {

  function Pow2(n: nat): (p: nat)
    ensures p >= 1
  {
    if n == 0 then 1 else 2 * Pow2(n - 1)
  }

  predicate Binary(s: string) {
    forall i :: 0 <= i < |s| ==> s[i] == '0' || s[i] == '1'
  }

  function BitOf(c: char): nat {
    if c == '1' then 1 else 0
  }

  function CharOf(bit: nat): char {
    if bit == 1 then '1' else '0'
  }

  /** The number a string of bits denotes, most significant bit first. */
  function Value(s: string): nat {
    if s == [] then 0 else 2 * Value(s[..|s| - 1]) + BitOf(s[|s| - 1])
  }

  /** The `n` low bits of `i`, most significant first. */
  function Bits(i: nat, n: nat): (s: string)
    ensures |s| == n && Binary(s)
  {
    if n == 0 then [] else Bits(i / 2, n - 1) + [CharOf(i % 2)]
  }

  lemma {:induction false} ValueBound(s: string)
    ensures Value(s) < Pow2(|s|)
  {
    if s != [] { ValueBound(s[..|s| - 1]); }
  }

  lemma {:induction false} ValueConcat(a: string, b: string)
    ensures Value(a + b) == Value(a) * Pow2(|b|) + Value(b)
  {
    if b == [] {
      assert a + b == a;
    } else {
      var front := b[..|b| - 1];
      ValueConcat(a, front);
      assert (a + b)[..|a + b| - 1] == a + front;
      assert 2 * (Value(a) * Pow2(|front|)) == Value(a) * Pow2(|b|);
    }
  }

  /** A string of bits is determined by its length and its value. */
  lemma {:induction false} BitsOfValue(s: string)
    requires Binary(s)
    ensures Bits(Value(s), |s|) == s
  {
    if s != [] {
      BitsOfValue(s[..|s| - 1]);
      assert Value(s) / 2 == Value(s[..|s| - 1]);
    }
  }

  lemma {:induction false} ValueOfBits(i: nat, n: nat)
    requires i < Pow2(n)
    ensures Value(Bits(i, n)) == i
  {
    if n > 0 { ValueOfBits(i / 2, n - 1); }
  }

  lemma {:induction false} ZeroValue(s: string)
    ensures Value(s) == 0 <==> '1' !in s
  {
    if s != [] {
      ZeroValue(s[..|s| - 1]);
      assert s == s[..|s| - 1] + [s[|s| - 1]];
    }
  }

  // ---------------------------------------------------------------- int2bin and bin2int

  const HEX2BIN: map<char, string> := map[
    '0' := "0000", '1' := "0001", '2' := "0010", '3' := "0011",
    '4' := "0100", '5' := "0101", '6' := "0110", '7' := "0111",
    '8' := "1000", '9' := "1001", 'a' := "1010", 'b' := "1011",
    'c' := "1100", 'd' := "1101", 'e' := "1110", 'f' := "1111"]

  predicate InTable(c: char) {
    c in HEX2BIN
  }

  function Nibble(c: char): string
    requires InTable(c)
  {
    HEX2BIN[c]
  }

  function HexDigit(d: nat): char
    requires d < 16
  {
    "0123456789abcdef"[d]
  }

  function Hex(i: nat): (s: string)
    ensures s != []
  {
    if i < 16 then [HexDigit(i)] else Hex(i / 16) + [HexDigit(i % 16)]
  }

  /** What follows the first two characters of Python's hex(i), which for a negative number
      still has the x of the prefix. */
  function HexTail(i: int): string {
    if i >= 0 then Hex(i) else "x" + Hex(-i)
  }

  function Expand(hex: string): string
    requires forall k :: 0 <= k < |hex| ==> InTable(hex[k])
  {
    if hex == [] then [] else Expand(hex[..|hex| - 1]) + Nibble(hex[|hex| - 1])
  }

  /** The slices s[:-n] and s[-n:]; minus zero is zero. */
  function AllButLast(s: string, n: nat): string {
    if n == 0 || n >= |s| then [] else s[..|s| - n]
  }

  function LastOf(s: string, n: nat): string {
    if n == 0 || n >= |s| then s else s[|s| - n..]
  }

  datatype BinResult = Str(s: string) | ValueError | KeyError

  function Int2Bin(i: int, n: nat): BinResult {
    var hex := HexTail(i);
    if exists k :: 0 <= k < |hex| && !InTable(hex[k]) then KeyError
    else
      var result := Expand(hex);
      if '1' in AllButLast(result, n) then ValueError
      else
        var low := LastOf(result, n);
        Str(seq(if n > |low| then n - |low| else 0, _ => '0') + low)
  }

  /** Python's int(s, 2) on a string of bits. */
  function Bin2Int(s: string): nat
    requires s != [] && Binary(s)
  {
    Value(s)
  }

  lemma DigitValue(d: nat)
    requires d < 16
    ensures InTable(HexDigit(d)) && Binary(Nibble(HexDigit(d)))
    ensures |Nibble(HexDigit(d))| == 4 && Value(Nibble(HexDigit(d))) == d
  {
    hide Value;
    var s := Nibble(HexDigit(d));
    assert |s| == 4;
    FourBits(s);
  }

  lemma FourBits(s: string)
    requires |s| == 4
    ensures Value(s) == 8 * BitOf(s[0]) + 4 * BitOf(s[1]) + 2 * BitOf(s[2]) + BitOf(s[3])
  {
    assert s[..3][..2][..1][..0] == [];
    assert s[..3][..2][..1][0] == s[0] && s[..3][..2][1] == s[1] && s[..3][2] == s[2];
    assert Value(s[..3]) == 2 * Value(s[..3][..2]) + BitOf(s[2]);
    assert Value(s[..3][..2]) == 2 * Value(s[..3][..2][..1]) + BitOf(s[1]);
    assert Value(s[..3][..2][..1]) == BitOf(s[0]);
  }

  lemma ExpandMore(hex: string, c: char)
    requires InTable(c) && forall k :: 0 <= k < |hex| ==> InTable(hex[k])
    requires Binary(Expand(hex)) && Binary(Nibble(c)) && |Nibble(c)| == 4
    ensures Binary(Expand(hex + [c])) && Value(Expand(hex + [c])) == 16 * Value(Expand(hex)) + Value(Nibble(c))
  {
    hide Expand, Nibble, Binary, Value;
    ExpandAppend(hex, c);
    FourMore(Expand(hex), Nibble(c));
  }

  lemma ExpandAppend(hex: string, c: char)
    requires InTable(c) && forall k :: 0 <= k < |hex| ==> InTable(hex[k])
    ensures Expand(hex + [c]) == Expand(hex) + Nibble(c)
  {
    hide Nibble;
    assert (hex + [c])[..|hex|] == hex;
  }

  lemma FourMore(a: string, b: string)
    requires Binary(a) && Binary(b) && |b| == 4
    ensures Binary(a + b) && Value(a + b) == 16 * Value(a) + Value(b)
  {
    hide Value, Pow2;
    ValueConcat(a, b);
    Sixteen();
    assert Pow2(|b|) == 16;
  }

  lemma Sixteen()
    ensures Pow2(4) == 16
  {
    assert Pow2(1) == 2 && Pow2(2) == 4 && Pow2(3) == 8;
  }

  lemma ExpandNone()
    ensures Expand([]) == [] && Binary([]) && Value([]) == 0
  {
  }

  lemma {:induction false} HexValue(i: nat)
    ensures forall k :: 0 <= k < |Hex(i)| ==> InTable(Hex(i)[k])
    ensures Binary(Expand(Hex(i))) && Value(Expand(Hex(i))) == i
  {
    hide Expand, InTable, Nibble, HexDigit, Value, Binary;
    DigitValue(i % 16);
    ExpandNone();
    if i < 16 {
      assert Hex(i) == [] + [HexDigit(i)];
      ExpandMore([], HexDigit(i));
    } else {
      HexValue(i / 16);
      ExpandMore(Hex(i / 16), HexDigit(i % 16));
    }
  }

  lemma SplitValue(s: string, n: nat)
    requires n >= 1
    ensures Value(s) == Value(AllButLast(s, n)) * Pow2(n) + Value(LastOf(s, n)) && Value(LastOf(s, n)) < Pow2(n)
  {
    if n >= |s| {
      ValueBound(s);
      Pow2Grows(|s|, n);
    } else {
      assert s == AllButLast(s, n) + LastOf(s, n);
      ValueConcat(AllButLast(s, n), LastOf(s, n));
      ValueBound(LastOf(s, n));
    }
  }

  lemma {:induction false} Pow2Grows(m: nat, n: nat)
    requires m <= n
    ensures Pow2(m) <= Pow2(n)
  {
    if m < n { Pow2Grows(m, n - 1); }
  }

  lemma QuotientZero(q: nat, p: nat, r: nat)
    requires p >= 1 && r < p
    ensures q * p + r < p <==> q == 0
  {
    if q >= 1 {
      assert q * p >= p;
    }
  }

  /** Conversion fails exactly when the number needs more bits than it is given. */
  lemma Int2BinExact(i: nat, n: nat)
    requires n >= 1
    ensures Int2Bin(i, n) == if i < Pow2(n) then Str(Bits(i, n)) else ValueError
  {
    hide Hex, Expand, InTable, Bits, Value, Pow2;
    HexValue(i);
    var result := Expand(Hex(i));
    SplitValue(result, n);
    ZeroValue(AllButLast(result, n));
    QuotientZero(Value(AllButLast(result, n)), Pow2(n), Value(LastOf(result, n)));
    if i < Pow2(n) {
      var low := LastOf(result, n);
      var zeros := seq(if n > |low| then n - |low| else 0, _ => '0');
      PadValue(zeros, low);
      BitsOfValue(zeros + low);
      assert |zeros + low| == n;
      assert Value(zeros + low) == i;
    }
  }

  lemma PadValue(zeros: string, low: string)
    requires forall k :: 0 <= k < |zeros| ==> zeros[k] == '0'
    ensures Value(zeros + low) == Value(low)
  {
    ValueConcat(zeros, low);
    ZeroValue(zeros);
  }

  lemma Int2BinNegative(i: int, n: nat)
    requires i < 0
    ensures Int2Bin(i, n) == KeyError
  {
    assert HexTail(i)[0] == 'x' && !InTable('x');
  }

  /** Back from the string to the number. */
  lemma NumberBack(i: nat, n: nat)
    requires n >= 1 && i < Pow2(n)
    ensures Int2Bin(i, n).Str? && Int2Bin(i, n).s != [] && Binary(Int2Bin(i, n).s) && Bin2Int(Int2Bin(i, n).s) == i
  {
    Int2BinExact(i, n);
    ValueOfBits(i, n);
  }

  /** Back from the number to the string. */
  lemma StringBack(s: string)
    requires s != [] && Binary(s)
    ensures Int2Bin(Bin2Int(s), |s|) == Str(s)
  {
    ValueBound(s);
    Int2BinExact(Value(s), |s|);
    BitsOfValue(s);
  }

  // ---------------------------------------------------------------- binary_range

  function Reversed(s: seq<char>): (r: string)
    ensures |r| == |s| && forall k :: 0 <= k < |s| ==> r[k] == s[|s| - 1 - k]
  {
    if s == [] then [] else Reversed(s[1..]) + [s[0]]
  }

  /** The number a list of bits denotes, least significant bit first. */
  ghost function LowFirst(v: seq<char>): nat {
    if v == [] then 0 else BitOf(v[0]) + 2 * LowFirst(v[1..])
  }

  lemma {:induction false} ReversedValue(v: seq<char>)
    ensures Value(Reversed(v)) == LowFirst(v)
  {
    if v != [] {
      ReversedValue(v[1..]);
      assert Reversed(v)[..|v| - 1] == Reversed(v[1..]);
    }
  }

  lemma {:induction false} SetBit(v: seq<char>, i: nat, c: char)
    requires i < |v|
    ensures LowFirst(v[i := c]) + BitOf(v[i]) * Pow2(i) == LowFirst(v) + BitOf(c) * Pow2(i)
  {
    if i == 0 {
      assert v[0 := c][1..] == v[1..];
    } else {
      SetBit(v[1..], i - 1, c);
      assert v[i := c][1..] == v[1..][i - 1 := c];
    }
  }

  lemma {:induction false} LowFirstBound(v: seq<char>)
    ensures LowFirst(v) < Pow2(|v|)
  {
    if v != [] { LowFirstBound(v[1..]); }
  }

  lemma {:induction false} ZerosLow(v: seq<char>)
    requires forall k :: 0 <= k < |v| ==> v[k] == '0'
    ensures LowFirst(v) == 0
  {
    if v != [] { ZerosLow(v[1..]); }
  }

  /** One round of the ripple carry: position `i` turns over, the carry goes on if it was set. */
  lemma Ripple(v: seq<char>, i: nat, k: nat)
    requires i < |v| && (v[i] == '0' || v[i] == '1') && LowFirst(v) + Pow2(i) == k + 1
    ensures v[i] == '0' ==> LowFirst(v[i := '1']) == k + 1
    ensures v[i] == '1' ==> LowFirst(v[i := '0']) + Pow2(i + 1) == k + 1
  {
    SetBit(v, i, if v[i] == '0' then '1' else '0');
  }

  /** The value of `v` is `k`, and what is written for it are the low bits of `k`. */
  lemma Written(v: seq<char>, k: nat)
    requires Binary(v) && LowFirst(v) == k
    ensures Reversed(v) == Bits(k, |v|) && k < Pow2(|v|)
  {
    ReversedValue(v);
    BitsOfValue(Reversed(v));
    LowFirstBound(v);
  }

  method BinaryRange(bits: nat) returns (l: seq<string>)
    ensures |l| == if bits == 0 then 0 else Pow2(bits)
    ensures forall k :: 0 <= k < |l| ==> l[k] == Bits(k, bits) && Int2Bin(k, bits) == Str(l[k])
  {
    hide LowFirst, Bits, Pow2, Reversed, Int2Bin;
    l := [];
    var v := new char[bits](_ => '0');
    var toggle := new nat[bits + 1](j => if j == 0 then 1 else 0);
    ZerosLow(v[..]);
    while toggle[bits] != 1
      invariant fresh(v) && fresh(toggle) && v.Length == bits && toggle.Length == bits + 1
      invariant Binary(v[..]) && forall k :: 0 <= k < |l| ==> l[k] == Bits(k, bits)
      invariant bits == 0 ==> toggle[bits] == 1 && l == []
      invariant toggle[bits] != 1 ==> LowFirst(v[..]) == |l|
      invariant bits > 0 && toggle[bits] == 1 ==> |l| == Pow2(bits)
      invariant bits > 0 ==> |l| <= Pow2(bits)
      decreases Pow2(bits) - |l|
    {
      Written(v[..], |l|);
      ghost var k := |l|;
      l := l + [Reversed(v[..])];
      toggle := new nat[bits + 1](j => if j == 0 then 1 else 0);
      var i := 0;
      PowZero();
      while i < bits && toggle[i] == 1
        invariant i <= bits && fresh(v) && fresh(toggle) && v.Length == bits && toggle.Length == bits + 1
        invariant Binary(v[..])
        invariant forall j :: i < j <= bits ==> toggle[j] == 0
        invariant toggle[i] == 0 || toggle[i] == 1
        invariant LowFirst(v[..]) + (if toggle[i] == 1 then Pow2(i) else 0) == k + 1
      {
        Ripple(v[..], i, k);
        assert v[..][i := '0'][i] == '0';
        ghost var before := v[..];
        if v[i] == '0' {
          v[i] := '1';
          toggle[i + 1] := 0;
          assert v[..] == before[i := '1'];
        } else {
          v[i] := '0';
          toggle[i + 1] := 1;
          assert v[..] == before[i := '0'];
        }
        i := i + 1;
      }
      LowFirstBound(v[..]);
    }
    forall k | 0 <= k < |l| ensures Int2Bin(k, bits) == Str(l[k]) {
      Int2BinExact(k, bits);
    }
  }

  lemma PowZero()
    ensures Pow2(0) == 1
  {
  }

  // ---------------------------------------------------------------- gray_encode

  /** The ^ operator on non-negative numbers. */
  function Xor(a: nat, b: nat): nat
    decreases a + b
  {
    if a == 0 && b == 0 then 0 else (a + b) % 2 + 2 * Xor(a / 2, b / 2)
  }

  /** i ^ (i >> 1) */
  function GrayEncode(i: nat): nat {
    Xor(i, i / 2)
  }

  ghost function GrayDecode(g: nat): nat {
    if g == 0 then 0
    else
      var high := GrayDecode(g / 2);
      2 * high + Parity(g + high)
  }

  ghost function Parity(n: nat): nat {
    n % 2
  }

  lemma GrayStep(i: nat)
    ensures GrayEncode(i) / 2 == GrayEncode(i / 2) && GrayEncode(i) % 2 == (i + i / 2) % 2
  {
  }

  lemma ParityCancels(g: nat, i: nat, h: nat)
    requires g % 2 == (i + h) % 2
    ensures (g + h) % 2 == i % 2
  {
  }

  lemma DecodeStep(g: nat)
    ensures GrayDecode(g) / 2 == GrayDecode(g / 2) && GrayDecode(g) % 2 == (g + GrayDecode(g / 2)) % 2
  {
    hide GrayDecode;
    if g == 0 {
      GrayZero();
    } else {
      DecodeUnfolded(g);
      var high := GrayDecode(g / 2);
      DoubledPlus(high, (g + high) % 2);
    }
  }

  lemma {:induction false} DecodeUnfolded(g: nat)
    requires g > 0
    ensures GrayDecode(g) == 2 * GrayDecode(g / 2) + Parity(g + GrayDecode(g / 2))
  {
    hide Parity;
  }

  lemma DoubledPlus(high: nat, bit: nat)
    requires bit < 2
    ensures (2 * high + bit) / 2 == high && (2 * high + bit) % 2 == bit
  {
  }

  lemma SameHalves(a: nat, b: nat)
    requires a / 2 == b / 2 && a % 2 == b % 2
    ensures a == b
  {
  }

  lemma {:induction false} DecodeEncode(i: nat)
    ensures GrayDecode(GrayEncode(i)) == i
  {
    hide GrayEncode, GrayDecode;
    var g := GrayEncode(i);
    GrayStep(i);
    DecodeStep(g);
    if i == 0 {
      GrayZero();
    } else {
      DecodeEncode(i / 2);
      ParityCancels(g, i, i / 2);
      SameHalves(GrayDecode(g), i);
    }
  }

  lemma GrayZero()
    ensures GrayEncode(0) == 0 && GrayDecode(0) == 0
  {
  }

  lemma {:induction false} EncodeDecode(g: nat)
    ensures GrayEncode(GrayDecode(g)) == g
  {
    hide GrayEncode, GrayDecode;
    var i := GrayDecode(g);
    DecodeStep(g);
    GrayStep(i);
    if g == 0 {
      GrayZero();
    } else {
      EncodeDecode(g / 2);
      ParityCancels(i, g, i / 2);
      SameHalves(GrayEncode(i), g);
    }
  }

  lemma {:induction false} EncodeRange(i: nat, n: nat)
    ensures GrayEncode(i) < Pow2(n) <==> i < Pow2(n)
  {
    hide GrayEncode, GrayDecode;
    GrayStep(i);
    if n > 0 {
      EncodeRange(i / 2, n - 1);
    } else {
      OnlyZero(i);
    }
  }

  lemma OnlyZero(i: nat)
    ensures GrayEncode(i) == 0 <==> i == 0
  {
    hide GrayEncode;
    GrayStep(0);
    DecodeEncode(i);
  }

  /** gray_encode permutes the numbers below 2^n: `GrayDecode` is its inverse there. */
  lemma GrayBijection(i: nat, n: nat)
    requires i < Pow2(n)
    ensures GrayEncode(i) < Pow2(n) && GrayDecode(GrayEncode(i)) == i
    ensures GrayDecode(i) < Pow2(n) && GrayEncode(GrayDecode(i)) == i
  {
    EncodeRange(i, n);
    DecodeEncode(i);
    EncodeDecode(i);
    EncodeRange(GrayDecode(i), n);
  }

  lemma ParityDiffers(a: nat, b: nat)
    ensures CharOf((a + b) % 2) == '1' <==> CharOf(a % 2) != CharOf(b % 2)
  {
  }

  lemma LastBits(i: nat, n: nat)
    requires n >= 1
    ensures Bits(i, n)[n - 1] == CharOf(i % 2) && Bits(i, n)[..n - 1] == Bits(i / 2, n - 1)
  {
  }

  /** Each bit of the code tells whether the bit of the number differs from the one before it; the
      first bit is the number's. */
  lemma {:induction false} GrayBit(i: nat, n: nat, k: nat)
    requires i < Pow2(n) && k < n
    ensures if k == 0 then Bits(GrayEncode(i), n)[0] == Bits(i, n)[0]
            else Bits(GrayEncode(i), n)[k] == '1' <==> Bits(i, n)[k] != Bits(i, n)[k - 1]
  {
    hide GrayEncode, Bits, CharOf;
    GrayStep(i);
    LastBits(i, n);
    LastBits(GrayEncode(i), n);
    if k < n - 1 {
      GrayBit(i / 2, n - 1, k);
      assert Bits(i, n)[k] == Bits(i, n)[..n - 1][k] == Bits(i / 2, n - 1)[k];
      assert Bits(GrayEncode(i), n)[k] == Bits(GrayEncode(i), n)[..n - 1][k] == Bits(GrayEncode(i) / 2, n - 1)[k];
      if k > 0 { assert Bits(i, n)[k - 1] == Bits(i, n)[..n - 1][k - 1] == Bits(i / 2, n - 1)[k - 1]; }
    } else if k > 0 {
      LastBits(i / 2, n - 1);
      assert Bits(i, n)[k - 1] == Bits(i, n)[..n - 1][k - 1];
      ParityDiffers(i, i / 2);
    } else {
      OnlyBit(i);
    }
  }

  lemma OnlyBit(i: nat)
    requires i < Pow2(1)
    ensures i / 2 == 0
  {
    assert Pow2(1) == 2 * Pow2(0);
  }

  ghost predicate DifferOnce(s: string, t: string) {
    |s| == |t| && exists p :: 0 <= p < |s| && s[p] != t[p] && s[..p] == t[..p] && s[p + 1..] == t[p + 1..]
  }

  lemma DifferMore(s: string, t: string, c: char)
    requires DifferOnce(s, t)
    ensures DifferOnce(s + [c], t + [c])
  {
    var p :| 0 <= p < |s| && s[p] != t[p] && s[..p] == t[..p] && s[p + 1..] == t[p + 1..];
    assert (s + [c])[p] != (t + [c])[p];
    assert (s + [c])[..p] == s[..p] && (t + [c])[..p] == t[..p];
    assert (s + [c])[p + 1..] == s[p + 1..] + [c] && (t + [c])[p + 1..] == t[p + 1..] + [c];
  }

  /** Neighbouring codes differ in the last bit only, or have it in common and neighbouring halves. */
  lemma GrayNeighbours(i: nat)
    ensures var g, h := GrayEncode(i), GrayEncode(i + 1);
      if i % 2 == 0 then g / 2 == h / 2 && g % 2 != h % 2
      else g / 2 == GrayEncode(i / 2) && h / 2 == GrayEncode(i / 2 + 1) && g % 2 == h % 2
  {
    hide GrayEncode;
    GrayStep(i);
    GrayStep(i + 1);
    Halves(i);
  }

  lemma Halves(i: nat)
    ensures var j := i + 1;
      if i % 2 == 0 then j / 2 == i / 2 && (i + i / 2) % 2 != (j + j / 2) % 2
      else j / 2 == i / 2 + 1 && (i + i / 2) % 2 == (j + j / 2) % 2
  {
    var m := i / 2;
    if i % 2 == 0 {
      assert i == 2 * m && (i + 1) / 2 == m;
    } else {
      assert i == 2 * m + 1 && (i + 1) / 2 == m + 1;
    }
  }

  lemma {:induction false} GrayBitsAdjacent(i: nat, n: nat)
    requires i + 1 < Pow2(n)
    ensures DifferOnce(Bits(GrayEncode(i), n), Bits(GrayEncode(i + 1), n))
  {
    hide GrayEncode, DifferOnce;
    GrayNeighbours(i);
    var g, h := GrayEncode(i), GrayEncode(i + 1);
    var front := Bits(g / 2, n - 1);
    if i % 2 == 0 {
      DifferLast(front, CharOf(g % 2), CharOf(h % 2));
    } else {
      GrayBitsAdjacent(i / 2, n - 1);
      DifferMore(front, Bits(h / 2, n - 1), CharOf(g % 2));
    }
  }

  lemma DifferLast(s: string, c: char, d: char)
    requires c != d
    ensures DifferOnce(s + [c], s + [d])
  {
    assert (s + [c])[..|s|] == (s + [d])[..|s|] && (s + [c])[|s| + 1..] == (s + [d])[|s| + 1..];
  }

  /** The n-bit strings of neighbouring codes differ in exactly one position. */
  lemma GrayAdjacent(i: nat, n: nat)
    requires n >= 1 && i + 1 < Pow2(n)
    ensures Int2Bin(GrayEncode(i), n).Str? && Int2Bin(GrayEncode(i + 1), n).Str?
    ensures DifferOnce(Int2Bin(GrayEncode(i), n).s, Int2Bin(GrayEncode(i + 1), n).s)
  {
    hide Bits, Int2Bin;
    EncodeRange(i, n);
    EncodeRange(i + 1, n);
    Int2BinExact(GrayEncode(i), n);
    Int2BinExact(GrayEncode(i + 1), n);
    GrayBitsAdjacent(i, n);
  }
}
