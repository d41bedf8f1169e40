/**
 Numeric character references: `XMLUtil::GetCharacterRef` and
 `XMLUtil::ConvertUTF32ToUTF8`, with the widths of the C types written out.
 */
module CharRef {
  import opened Bytes

  const W32: nat := 0x1_0000_0000              // unsigned mult
  const W64: nat := 0x1_0000_0000_0000_0000    // unsigned long ucs

  // ---------------------------------------------------------------- UTF-8

  function Utf8Length(v: nat): nat {
    if v < 0x80 then 1
    else if v < 0x800 then 2
    else if v < 0x10000 then 3
    else if v < 0x200000 then 4
    else 0
  }

  /** The UTF-8 form of `v` by division and remainder; empty from 0x200000 on. */
  function Utf8(v: nat): (r: bytes)
    ensures |r| == Utf8Length(v)
  {
    if v < 0x80 then [v]
    else if v < 0x800 then [0xC0 + v / 64, 0x80 + v % 64]
    else if v < 0x10000 then [0xE0 + v / 4096, 0x80 + v / 64 % 64, 0x80 + v % 64]
    else if v < 0x200000 then
      [0xF0 + v / 262144, 0x80 + v / 4096 % 64, 0x80 + v / 64 % 64, 0x80 + v % 64]
    else []
  }

  predicate IsContinuation(b: byte) { 0x80 <= b < 0xC0 }

  /** RFC 3629 section 3 read backwards: the number that one byte sequence carries. */
  function ReadUtf8(b: bytes): Option<nat> {
    var v := seq(|b|, k requires 0 <= k < |b| => b[k] as int);
    if |b| == 1 && v[0] < 0x80 then
      Some(v[0])
    else if |b| == 2 && 0xC0 <= v[0] < 0xE0 && IsContinuation(b[1]) then
      Some((v[0] - 0xC0) * 64 + (v[1] - 0x80))
    else if |b| == 3 && 0xE0 <= v[0] < 0xF0 && IsContinuation(b[1]) && IsContinuation(b[2]) then
      Some((v[0] - 0xE0) * 4096 + (v[1] - 0x80) * 64 + (v[2] - 0x80))
    else if |b| == 4 && 0xF0 <= v[0] < 0xF8
            && IsContinuation(b[1]) && IsContinuation(b[2]) && IsContinuation(b[3]) then
      Some((v[0] - 0xF0) * 262144 + (v[1] - 0x80) * 4096 + (v[2] - 0x80) * 64 + (v[3] - 0x80))
    else None
  }

  /** Below 0x200000 the bytes carry exactly `v`, and no shorter sequence does. */
  lemma Utf8ReadsBack(v: nat)
    requires v < 0x200000
    ensures ReadUtf8(Utf8(v)) == Some(v)
    ensures forall b: bytes :: ReadUtf8(b) == Some(v) ==> |Utf8(v)| <= |b|
  {
    assert v / 4096 == v / 64 / 64;
    assert v / 262144 == v / 4096 / 64;
    assert v == v / 64 * 64 + v % 64;
    assert v / 64 == v / 4096 * 64 + v / 64 % 64;
    assert v / 4096 == v / 262144 * 64 + v / 4096 % 64;
  }

  /** `(char)((x | BYTE_MARK) & BYTE_MASK)` on the low eight bits that the cast keeps. */
  function ContinuationBits(b: bv8): bv8 { (b | 0x80) & 0xBF }

  function LeadBits(b: bv8, length: nat): bv8 {
    if length == 2 then b | 0xC0
    else if length == 3 then b | 0xE0
    else if length == 4 then b | 0xF0
    else b
  }

  lemma Increment(b: bv8)
    requires b < 255
    ensures (b + 1) as int == b as int + 1
  {
  }

  /** A byte as a bit vector. */
  function Bits(v: byte): (b: bv8)
    ensures b as int == v
  {
    if v == 0 then 0 else
      Increment(Bits(v - 1));
      Bits(v - 1) + 1
  }

  lemma ContinuationValue(b: bv8)
    ensures ContinuationBits(b) as int == 0x80 + (b as int) % 64
  {
  }

  lemma LeadValue(b: bv8, length: nat)
    requires 1 <= length <= 4
    requires b as int < match length case 1 => 0x80 case 2 => 0x20 case 3 => 0x10 case _ => 0x08
    ensures LeadBits(b, length) as int
         == b as int + match length case 1 => 0 case 2 => 0xC0 case 3 => 0xE0 case _ => 0xF0
  {
  }

  lemma SixtyFour(x: nat, q: nat, r: nat)
    requires x == 64 * q + r && r < 64
    ensures x % 64 == r
  {
  }

  lemma LowSixBits(x: nat)
    ensures x % 256 % 64 == x % 64
  {
    var q, r := x / 256, x % 256;
    SixtyFour(x, 4 * q + r / 64, r % 64);
  }

  method ContinuationByte(x: nat) returns (r: byte)
    ensures r == 0x80 + x % 64
  {
    var b := Bits(x % 256);
    LowSixBits(x);
    ContinuationValue(b);
    r := ContinuationBits(b) as byte;
  }

  method LeadByte(x: nat, length: nat) returns (r: byte)
    requires 1 <= length <= 4
    requires x < match length case 1 => 0x80 case 2 => 0x20 case 3 => 0x10 case _ => 0x08
    ensures r == x + match length case 1 => 0 case 2 => 0xC0 case 3 => 0xE0 case _ => 0xF0
  {
    var b := Bits(x);
    LeadValue(b, length);
    r := LeadBits(b, length) as byte;
  }

  /**
   The switch with its fall-throughs: `output` is filled backwards from `length`, six
   bits at a time, and the lead byte comes last.
   */
  method ConvertUTF32ToUTF8(input: nat, output: array<byte>) returns (length: nat)
    requires output.Length >= 4
    modifies output
    ensures length <= 4
    ensures output[..length] == Utf8(input)
    ensures output[length..] == old(output[length..])
  {
    hide Utf8;
    length := Utf8Length(input);
    if length == 0 {
      NoBytesOf(input);
      return;
    }
    ghost var y := input / 64;
    ghost var z := y / 64;
    Shifted(input, y, z);
    var x, k := input, length;
    if length >= 4 {
      k := k - 1;
      var b := ContinuationByte(x);
      output[k] := b;
      x := x / 64;
    }
    if length >= 3 {
      k := k - 1;
      var b := ContinuationByte(x);
      output[k] := b;
      x := x / 64;
    }
    if length >= 2 {
      k := k - 1;
      var b := ContinuationByte(x);
      output[k] := b;
      x := x / 64;
    }
    k := k - 1;
    var b := LeadByte(x, length);
    output[k] := b;
    Utf8Of(input, y, z, output[..length]);
  }

  lemma NoBytesOf(v: nat)
    requires Utf8Length(v) == 0
    ensures Utf8(v) == []
  {
  }

  /** Six bits at a time are a division by 64 at a time. */
  lemma Shifted(v: nat, y: nat, z: nat)
    requires y == v / 64 && z == y / 64
    ensures z == v / 4096 && z / 64 == v / 262144
  {
  }

  lemma Utf8Of(v: nat, y: nat, z: nat, b: bytes)
    requires y == v / 64 && z == v / 4096 && z / 64 == v / 262144 && |b| == Utf8Length(v) > 0
    requires b[|b| - 1] == if |b| == 1 then v else 0x80 + v % 64
    requires |b| == 2 ==> b[0] == 0xC0 + y
    requires |b| == 3 ==> b[0] == 0xE0 + z && b[1] == 0x80 + y % 64
    requires |b| == 4 ==> b[0] == 0xF0 + z / 64 && b[1] == 0x80 + z % 64 && b[2] == 0x80 + y % 64
    ensures b == Utf8(v)
  {
  }

  // ---------------------------------------------------- the numeral's value

  /** The value of a digit, or `base` and above when `b` is not one. */
  function Digit(b: byte, base: nat): nat {
    if 48 <= b <= 57 then b - 48
    else if base == 16 && 97 <= b <= 102 then b - 87
    else if base == 16 && 65 <= b <= 70 then b - 55
    else base
  }

  predicate AllDigits(ds: bytes, base: nat) {
    forall k :: 0 <= k < |ds| ==> Digit(ds[k], base) < base
  }

  /** The number that a numeral denotes. */
  function Value(ds: bytes, base: nat): nat {
    if ds == [] then 0
    else Value(ds[..|ds| - 1], base) * base + Digit(ds[|ds| - 1], base)
  }

  /** The scan from the last digit to the first, with `mult` and `ucs` wrapping as in C. */
  function Accumulate(ds: bytes, base: nat, mult: nat, ucs: nat): nat {
    if ds == [] then ucs
    else
      Accumulate(ds[..|ds| - 1], base, NextMult(mult, base), NextSum(ucs, mult, Digit(ds[|ds| - 1], base)))
  }

  function NextMult(mult: nat, base: nat): nat {
    mult * base % W32
  }

  function NextSum(ucs: nat, mult: nat, d: nat): nat {
    (ucs + mult * d % W32) % W64
  }

  /** The weight of the digit at distance `n` from the right. */
  function Weight(base: nat, n: nat): nat {
    if n == 0 then 1 else Weight(base, n - 1) * base % W32
  }

  lemma {:induction false} AccumulateSplit(hi: bytes, lo: bytes, base: nat, n: nat, ucs: nat)
    ensures Accumulate(hi + lo, base, Weight(base, n), ucs)
         == Accumulate(hi, base, Weight(base, n + |lo|), Accumulate(lo, base, Weight(base, n), ucs))
    decreases |lo|
  {
    if lo == [] {
      assert hi + lo == hi;
    } else {
      var front, c := lo[..|lo| - 1], lo[|lo| - 1];
      var next := (ucs + Weight(base, n) * Digit(c, base) % W32) % W64;
      AccumulateSnoc(hi + front, c, base, Weight(base, n), ucs);
      AccumulateSnoc(front, c, base, Weight(base, n), ucs);
      assert hi + front + [c] == hi + lo && front + [c] == lo;
      AccumulateSplit(hi, front, base, n + 1, next);
    }
  }

  lemma AccumulateSnoc(ds: bytes, c: byte, base: nat, mult: nat, ucs: nat)
    ensures Accumulate(ds + [c], base, mult, ucs)
         == Accumulate(ds, base, NextMult(mult, base), NextSum(ucs, mult, Digit(c, base)))
  {
    assert (ds + [c])[..|ds + [c]| - 1] == ds;
  }

  function Pow(base: nat, n: nat): nat {
    if n == 0 then 1 else base * Pow(base, n - 1)
  }

  lemma {:induction false} ValueSplit(hi: bytes, lo: bytes, base: nat)
    ensures Value(hi + lo, base) == Pow(base, |lo|) * Value(hi, base) + Value(lo, base)
    decreases |lo|
  {
    if lo == [] {
      assert hi + lo == hi;
    } else {
      var front, p, v := lo[..|lo| - 1], Pow(base, |lo| - 1), Value(hi, base);
      assert Value(hi + lo, base) == Value(hi + front, base) * base + Digit(lo[|lo| - 1], base) by {
        assert (hi + lo)[..|hi + lo| - 1] == hi + front;
      }
      ValueSplit(hi, front, base);
      Distribute(base, p, v, Value(front, base));
    }
  }

  lemma Distribute(b: nat, p: nat, v: nat, w: nat)
    ensures (p * v + w) * b == (b * p) * v + w * b
  {
    assert (p * v + w) * b == p * v * b + w * b;
  }

  /** Until it reaches 2^32 the weight is the true power. */
  lemma {:induction false} WeightIsPower(base: nat, n: nat)
    requires base > 0 && Pow(base, n) < W32
    ensures Weight(base, n) == Pow(base, n)
  {
    if n > 0 {
      MulGrows(Pow(base, n - 1), base);
      WeightIsPower(base, n - 1);
    }
  }

  /** One more digit in front adds its wrapped product. */
  lemma AccumulateFront(c: byte, lo: bytes, base: nat)
    ensures Accumulate([c] + lo, base, 1, 0)
         == (Accumulate(lo, base, 1, 0) + Weight(base, |lo|) * Digit(c, base) % W32) % W64
  {
    AccumulateSplit([c], lo, base, 0, 0);
    AccumulateSnoc([], c, base, Weight(base, |lo|), Accumulate(lo, base, 1, 0));
    assert [] + [c] == [c];
  }

  lemma ExactTerm(weight: nat, p: nat, d: nat, v: nat)
    requires p * d + v < W32 && (d > 0 && p < W32 ==> weight == p)
    ensures (v + weight * d % W32) % W64 == p * d + v
  {
    if d > 0 {
      MulGrows(p, d);
    }
  }

  /**
   A numeral whose value fits 32 bits is read exactly, however many leading zeros it
   has, although `mult` has long wrapped by then.
   */
  lemma {:induction false} NumeralIsExact(ds: bytes, base: nat)
    requires base > 0 && Value(ds, base) < W32
    ensures Accumulate(ds, base, 1, 0) == Value(ds, base)
    decreases |ds|
  {
    if ds != [] {
      var c, lo := ds[0], ds[1..];
      assert ds == [c] + lo;
      var d, p, v := Digit(c, base), Pow(base, |lo|), Value(lo, base);
      assert Value(ds, base) == p * d + v && v < W32 by {
        ValueSplit([c], lo, base);
        assert [c][..0] == [];
        MulNat(p, d);
      }
      NumeralIsExact(lo, base);
      AccumulateFront(c, lo, base);
      if p < W32 {
        WeightIsPower(base, |lo|);
      }
      ExactTerm(Weight(base, |lo|), p, d, v);
    }
  }

  lemma MulNat(x: nat, y: nat)
    ensures x * y >= 0
  {
  }

  lemma MulGrows(m: nat, v: nat)
    requires v > 0
    ensures m <= m * v
  {
  }

  lemma {:induction false} ValueBelow(ds: bytes)
    requires AllDigits(ds, 16)
    ensures Value(ds, 16) < Pow(16, |ds|)
  {
    if ds != [] {
      ValueBelow(ds[..|ds| - 1]);
    }
  }

  lemma {:induction false} WeightGone(ds: bytes, ucs: nat)
    requires ucs < W32
    ensures Accumulate(ds, 16, 0, ucs) == ucs
  {
    if ds != [] {
      WeightGone(ds[..|ds| - 1], ucs);
    }
  }

  /** After eight hexadecimal digits `mult` has wrapped to zero. */
  lemma EightDigits()
    ensures Pow(16, 8) == W32 && Weight(16, 8) == 0
  {
    assert Pow(16, 7) == 0x1000_0000;
    WeightIsPower(16, 7);
  }

  lemma ShortHex(ds: bytes)
    requires AllDigits(ds, 16) && |ds| <= 8
    ensures Accumulate(ds, 16, 1, 0) == Value(ds, 16) < W32
  {
    EightDigits();
    ValueBelow(ds);
    Pow16Grows(|ds|);
    NumeralIsExact(ds, 16);
  }

  lemma Pow16Grows(n: nat)
    requires n <= 8
    ensures Pow(16, n) <= Pow(16, 8)
    decreases 8 - n
  {
    if n < 8 {
      Pow16Grows(n + 1);
    }
  }

  lemma LongHex(hi: bytes, lo: bytes)
    requires AllDigits(hi + lo, 16) && |lo| == 8
    ensures Accumulate(hi + lo, 16, 1, 0) == Value(lo, 16) < W32
    ensures Value(hi + lo, 16) == W32 * Value(hi, 16) + Value(lo, 16)
  {
    assert AllDigits(lo, 16) by {
      forall k | 0 <= k < |lo| ensures Digit(lo[k], 16) < 16 {
        assert (hi + lo)[|hi| + k] == lo[k];
      }
    }
    ShortHex(lo);
    EightDigits();
    AccumulateSplit(hi, lo, 16, 0, 0);
    WeightGone(hi, Value(lo, 16));
    ValueSplit(hi, lo, 16);
  }

  lemma Remainder(x: nat, q: nat, r: nat)
    requires x == W32 * q + r && r < W32
    ensures x % W32 == r && (r == x <==> x < W32)
  {
  }

  /** A hexadecimal numeral is read modulo 2^32, so exactly if and only if it is below 2^32. */
  lemma HexIsExactBelow32Bits(ds: bytes)
    requires AllDigits(ds, 16)
    ensures Accumulate(ds, 16, 1, 0) == Value(ds, 16) % W32
    ensures Accumulate(ds, 16, 1, 0) == Value(ds, 16) <==> Value(ds, 16) < W32
  {
    var n := if |ds| <= 8 then 0 else |ds| - 8;
    var hi, lo := ds[..n], ds[n..];
    assert ds == hi + lo;
    if n == 0 {
      assert ds == lo;
      ShortHex(ds);
      Remainder(Value(ds, 16), 0, Value(ds, 16));
    } else {
      LongHex(hi, lo);
      Remainder(Value(ds, 16), Value(hi, 16), Value(lo, 16));
    }
  }

  lemma {:induction false} WeightBelowPower(base: nat, n: nat)
    requires base > 0
    ensures Weight(base, n) <= Pow(base, n)
  {
    if n > 0 {
      WeightBelowPower(base, n - 1);
      MulBelow(Weight(base, n - 1), Pow(base, n - 1), base);
    }
  }

  lemma MulBelow(x: nat, y: nat, d: nat)
    requires x <= y
    ensures x * d <= y * d && d * y == y * d
  {
    assert (y - x) * d >= 0;
  }

  lemma {:induction false} DecimalBelow(ds: bytes)
    requires AllDigits(ds, 10)
    ensures Value(ds, 10) < Pow(10, |ds|)
  {
    if ds != [] {
      DecimalBelow(ds[..|ds| - 1]);
    }
  }

  lemma {:induction false} PowGrows(n: nat, m: nat)
    requires n <= m
    ensures Pow(10, n) <= Pow(10, m)
    decreases m - n
  {
    if n < m {
      PowGrows(n + 1, m);
    }
  }

  lemma TenPowers()
    ensures Pow(10, 8) == 100_000_000 && Pow(10, 9) == 1_000_000_000 && Pow(10, 10) == 10_000_000_000
  {
    assert Pow(10, 4) == 10_000;
    assert Pow(10, 8) == 100_000_000;
  }

  /** The term of a decimal digit, and when it is exact: up to 4 * 10^9. */
  lemma DecimalTerm(n: nat, d: nat, v: nat, term: nat)
    requires d < 10 && v < Pow(10, n) && term == Weight(10, n) * d % W32
    ensures term <= Pow(10, n) * d
    ensures term == Pow(10, n) * d && v < 5_000_000_000 <==> Pow(10, n) * d + v < 5_000_000_000
  {
    hide Weight, Pow;
    var w, p := Weight(10, n), Pow(10, n);
    WeightBelowPower(10, n);
    TenPowers();
    if n <= 9 {
      PowGrows(n, 9);
      WeightIsPower(10, n);
      if n <= 8 {
        PowGrows(n, 8);
      }
    } else {
      PowGrows(10, n);
    }
    TermOf(w, p, d, v, term);
  }

  /** The weight is exact up to 10^9, and the powers from 10^10 on are too large anyway. */
  lemma TermOf(w: nat, p: nat, d: nat, v: nat, term: nat)
    requires d < 10 && v < p && w <= p && term == w * d % W32
    requires p >= 10_000_000_000 || (w == p && (p == 1_000_000_000 || p <= 100_000_000))
    ensures term <= p * d
    ensures term == p * d && v < 5_000_000_000 <==> p * d + v < 5_000_000_000
  {
    MulBelow(w, p, d);
    if d > 0 {
      MulGrows(p, d);
      MulBelow(d, 9, p);
    }
  }

  lemma SumIsExact(x: nat, v: nat, term: nat, p: nat)
    requires x <= v && term <= p
    ensures (x + term) % W64 <= v + p
    ensures (x + term) % W64 == v + p ==> x == v && term == p
    ensures x == v && term == p && v + p < W64 ==> (x + term) % W64 == v + p
  {
  }

  /** A decimal numeral is never read as more than its value, and exactly if and only if that is below 5 * 10^9. */
  lemma {:induction false} DecimalIsExactBelowFiveBillion(ds: bytes)
    requires AllDigits(ds, 10)
    ensures Accumulate(ds, 10, 1, 0) <= Value(ds, 10)
    ensures Accumulate(ds, 10, 1, 0) == Value(ds, 10) <==> Value(ds, 10) < 5_000_000_000
    decreases |ds|
  {
    if ds != [] {
      var c, lo := ds[0], ds[1..];
      assert ds == [c] + lo;
      var d, n := Digit(c, 10), |lo|;
      var term := Weight(10, n) * d % W32;
      assert Value(ds, 10) == Pow(10, n) * d + Value(lo, 10) by {
        ValueSplit([c], lo, 10);
        assert [c][..0] == [];
      }
      DecimalIsExactBelowFiveBillion(lo);
      AccumulateFront(c, lo, 10);
      DecimalBelow(lo);
      hide Weight, Pow, Value, Accumulate;
      DecimalTerm(n, d, Value(lo, 10), term);
      SumIsExact(Accumulate(lo, 10, 1, 0), Value(lo, 10), term, Pow(10, n) * d);
    }
  }

  /** The first decimal numeral that is misread: 5000000000 gives 705032704. */
  lemma WideDecimalWraps()
    ensures var ds := [53, 48, 48, 48, 48, 48, 48, 48, 48, 48];
            AllDigits(ds, 10) && Value(ds, 10) == 5_000_000_000 && Accumulate(ds, 10, 1, 0) == 705_032_704
  {
    var lo: bytes := [48, 48, 48, 48, 48, 48, 48, 48, 48];
    NineZeros(lo);
    assert [53] + lo == [53, 48, 48, 48, 48, 48, 48, 48, 48, 48];
  }

  lemma NineZeros(lo: bytes)
    requires |lo| == 9 && forall k :: 0 <= k < 9 ==> lo[k] == 48
    ensures Value([53] + lo, 10) == 5_000_000_000 && Accumulate([53] + lo, 10, 1, 0) == 705_032_704
  {
    hide Weight, Pow, Value, Accumulate, Digit;
    ZeroValue(lo);
    DigitFive();
    NumeralIsExact(lo, 10);
    AccumulateFront(53, lo, 10);
    ValueSplit([53], lo, 10);
    TenPowers();
    WeightIsPower(10, 9);
  }

  lemma DigitFive()
    ensures Digit(53, 10) == 5 && Value([53], 10) == 5
  {
    assert [] + [53] == [53] && Value([], 10) == 0;
    ValueSnoc([], 53, 10);
  }

  lemma {:induction false} ZeroValue(ds: bytes)
    requires forall k :: 0 <= k < |ds| ==> ds[k] == 48
    ensures Value(ds, 10) == 0
  {
    if ds != [] {
      ZeroValue(ds[..|ds| - 1]);
    }
  }

  // ---------------------------------------------------- the whole reference

  /** What `GetCharacterRef` answers: the null pointer, or how far to move and what to write. */
  datatype Reference = Null | Reference(adv: nat, out: bytes)

  /** `strchr`: the first `c` at or after `i`, or the end of the text. */
  function IndexOf(t: bytes, i: nat, c: byte): (r: nat)
    requires i <= |t|
    ensures i <= r <= |t| && (r < |t| ==> t[r] == c)
    ensures forall k :: i <= k < r ==> t[k] != c
    decreases |t| - i
  {
    if i < |t| && t[i] != c then IndexOf(t, i + 1, c) else i
  }

  /** The nearest `c` at or before `q`, where the backward scan stops. */
  function LastIndexOf(t: bytes, lo: nat, q: nat, c: byte): (r: nat)
    requires lo <= q < |t| && t[lo] == c
    ensures lo <= r <= q && t[r] == c
    ensures forall k :: r < k <= q ==> t[k] != c
  {
    if t[q] == c then q else LastIndexOf(t, lo, q - 1, c)
  }

  /** The backward loop as a function of the text: `None` is the null pointer. */
  function Scan(t: bytes, first: nat, q: nat, base: nat, stop: byte, mult: nat, ucs: nat): Option<nat>
    requires first <= q < |t| && t[first] == stop
    decreases q
  {
    var d := Digit(t[q], base);
    if t[q] == stop then Some(ucs)
    else if d >= base then None
    else Scan(t, first, q - 1, base, stop, NextMult(mult, base), NextSum(ucs, mult, d))
  }

  lemma {:induction false} ScanReadsNumeral(t: bytes, first: nat, q: nat, base: nat, stop: byte, mult: nat, ucs: nat)
    requires first <= q < |t| && t[first] == stop
    ensures var ds := t[LastIndexOf(t, first, q, stop) + 1..q + 1];
            Scan(t, first, q, base, stop, mult, ucs)
            == if AllDigits(ds, base) then Some(Accumulate(ds, base, mult, ucs)) else None
    decreases q
  {
    if t[q] == stop {
      assert t[q + 1..q + 1] == [];
    } else {
      hide *;
      var b, d := LastIndexOf(t, first, q, stop), Digit(t[q], base);
      var rest := t[b + 1..q];
      OneScanned(t, first, q, base, stop, mult, ucs, b);
      ScanReadsNumeral(t, first, q - 1, base, stop, NextMult(mult, base), NextSum(ucs, mult, d));
      AllDigitsSnoc(rest, t[q], base);
      AccumulateSnoc(rest, t[q], base, mult, ucs);
    }
  }

  lemma OneScanned(t: bytes, first: nat, q: nat, base: nat, stop: byte, mult: nat, ucs: nat, b: nat)
    requires first <= q < |t| && t[first] == stop != t[q] && b == LastIndexOf(t, first, q, stop)
    ensures first <= b <= q - 1 && b == LastIndexOf(t, first, q - 1, stop)
    ensures t[b + 1..q + 1] == t[b + 1..q] + [t[q]]
    ensures var d := Digit(t[q], base);
            Scan(t, first, q, base, stop, mult, ucs)
            == if d >= base then None else Scan(t, first, q - 1, base, stop, NextMult(mult, base), NextSum(ucs, mult, d))
  {
    hide Digit, NextMult, NextSum;
  }

  lemma AllDigitsSnoc(ds: bytes, c: byte, base: nat)
    ensures AllDigits(ds + [c], base) <==> AllDigits(ds, base) && Digit(c, base) < base
  {
    assert forall k :: 0 <= k < |ds| ==> (ds + [c])[k] == ds[k];
    assert (ds + [c])[|ds|] == c;
  }

  datatype Number = Number(semi: nat, ucs: nat)

  /**
   The number written at the front of `t` (`&#` or `&#x`, then digits) and the place of
   its semicolon. The scan backwards from the semicolon ends at the nearest `x`
   (hexadecimal) or `#` (decimal), which need not be the one at the front.
   */
  function NumberAt(t: bytes): (r: Option<Number>)
    requires |t| > 2 && t[1] == HASH
    ensures r.Some? ==> 2 <= r.value.semi < |t|
    ensures r.Some? && r.value.semi == 2 ==> r.value.ucs == 0
  {
    var hex := t[2] == LOWER_X;
    var first, base, stop := if hex then 2 else 1, if hex then 16 else 10, if hex then LOWER_X else HASH;
    var semi := IndexOf(t, first + 1, SEMI);
    if semi == |t| then None
    else
      match Scan(t, first, semi - 1, base, stop, 1, 0)
      case None => None
      case Some(ucs) => Some(Number(semi, ucs))
  }

  /** `&#` is at the front of the text, with at least one byte behind it. */
  predicate IsReference(t: bytes) {
    |t| > 2 && t[0] == AMP && t[1] == HASH
  }

  /** What is read for the reference at the front of `t`; the cursor only moves by one when there is none. */
  function CharacterRef(t: bytes): (r: Reference)
    requires t != []
    ensures r.Reference? ==> 1 <= r.adv <= |t| && |r.out| <= r.adv
  {
    if |t| <= 2 || t[1] != HASH then Reference(1, [])
    else match NumberAt(t)
      case None => Null
      case Some(n) => Reference(n.semi + 1, Utf8(n.ucs))
  }

  /**
   No numeral ends in a semicolon: there is no semicolon, or a byte that is not a digit
   between it and the nearest `x` (hexadecimal) or `#` (decimal) in front of it.
   */
  predicate Malformed(t: bytes) {
    IsReference(t) &&
    var hex := t[2] == LOWER_X;
    var first, base, stop := if hex then 2 else 1, if hex then 16 else 10, if hex then LOWER_X else HASH;
    var semi := IndexOf(t, first + 1, SEMI);
    semi == |t| || !AllDigits(t[LastIndexOf(t, first, semi - 1, stop) + 1..semi], base)
  }

  /** The null pointer is the answer exactly to a malformed reference. */
  lemma NullIsMalformed(t: bytes)
    requires t != [] && t[0] == AMP
    ensures CharacterRef(t) == Null <==> Malformed(t)
  {
    hide Scan, AllDigits, IndexOf, LastIndexOf, Utf8, Accumulate;
    if IsReference(t) {
      var hex := t[2] == LOWER_X;
      var first, base, stop := if hex then 2 else 1, if hex then 16 else 10, if hex then LOWER_X else HASH;
      var semi := IndexOf(t, first + 1, SEMI);
      if semi < |t| {
        ScanReadsNumeral(t, first, semi - 1, base, stop, 1, 0);
      }
    }
  }

  function RefHead(hex: bool): bytes {
    if hex then [AMP, HASH, LOWER_X] else [AMP, HASH]
  }

  lemma ReferenceShape(t: bytes, hex: bool, ds: bytes, rest: bytes)
    requires ds != [] && AllDigits(ds, if hex then 16 else 10)
    requires t == RefHead(hex) + ds + [SEMI] + rest
    ensures var first, stop := |RefHead(hex)| - 1, if hex then LOWER_X else HASH;
            var semi := first + 1 + |ds|;
            && |t| > semi && t[1] == HASH && t[first] == stop && (hex <==> t[2] == LOWER_X)
            && IndexOf(t, first + 1, SEMI) == semi
            && LastIndexOf(t, first, semi - 1, stop) == first
            && t[first + 1..semi] == ds
  {
    var first, base, stop := |RefHead(hex)| - 1, if hex then 16 else 10, if hex then LOWER_X else HASH;
    var semi := first + 1 + |ds|;
    forall k | first < k < semi ensures t[k] == ds[k - first - 1] && t[k] != SEMI && t[k] != stop {
      assert Digit(ds[k - first - 1], base) < base;
    }
    assert t[first + 1] == ds[0] && t[semi] == SEMI;
  }

  /**
   A well-formed reference is replaced by the UTF-8 form of what its numeral is read as,
   which fits the place of the reference. That form carries the number that the numeral
   denotes if and only if this number is below 0x200000, however it is padded.
   */
  lemma WellFormedReference(t: bytes, hex: bool, ds: bytes, rest: bytes)
    requires ds != [] && AllDigits(ds, if hex then 16 else 10)
    requires t == RefHead(hex) + ds + [SEMI] + rest
    ensures var base := if hex then 16 else 10;
            var out := Utf8(Accumulate(ds, base, 1, 0));
            && |t| > 2 && t[1] == HASH
            && CharacterRef(t) == Reference(|t| - |rest|, out) && |out| <= |t| - |rest|
            && (ReadUtf8(out) == Some(Value(ds, base)) <==> Value(ds, base) < 0x200000)
  {
    hide Scan, Value, AllDigits, IndexOf, LastIndexOf, Utf8, ReadUtf8;
    var first, base, stop := |RefHead(hex)| - 1, if hex then 16 else 10, if hex then LOWER_X else HASH;
    ReferenceShape(t, hex, ds, rest);
    ScanReadsNumeral(t, first, first + |ds|, base, stop, 1, 0);
    CarriesValue(ds, base);
  }

  lemma CarriesValue(ds: bytes, base: nat)
    requires base > 0
    ensures ReadUtf8(Utf8(Accumulate(ds, base, 1, 0))) == Some(Value(ds, base)) <==> Value(ds, base) < 0x200000
  {
    hide Value, Accumulate, ReadUtf8;
    var x := Accumulate(ds, base, 1, 0);
    if Value(ds, base) < W32 {
      NumeralIsExact(ds, base);
    }
    if x < 0x200000 {
      Utf8ReadsBack(x);
    } else {
      NoBytes();
    }
  }

  lemma NoBytes()
    ensures ReadUtf8([]) == None
  {
  }

  /** Beyond 32 bits the weight wraps: `&#x100000041;` is read as the letter A. */
  lemma WideReferenceWraps()
    ensures var ds := [49, 48, 48, 48, 48, 48, 48, 52, 49];
            AllDigits(ds, 16) && Value(ds, 16) == 0x1_0000_0041
            && Utf8(Accumulate(ds, 16, 1, 0)) == [65]
  {
    var d1: bytes := [49];
    assert Value([], 16) == 0 && [] + [49] == d1;
    ValueSnoc([], 49, 16);
    var d4 := ThreeZeros(d1);
    var d7 := ThreeZeros(d4);
    ValueSnoc(d7, 52, 16);
    ValueSnoc(d7 + [52], 49, 16);
    var ds: bytes := [49, 48, 48, 48, 48, 48, 48, 52, 49];
    assert d7 + [52] + [49] == ds;
    HexIsExactBelow32Bits(ds);
    Remainder(0x1_0000_0041, 1, 65);
  }

  lemma ValueSnoc(ds: bytes, c: byte, base: nat)
    ensures Value(ds + [c], base) == Value(ds, base) * base + Digit(c, base)
  {
    assert (ds + [c])[..|ds + [c]| - 1] == ds;
  }

  lemma ThreeZeros(ds: bytes) returns (r: bytes)
    ensures r == ds + [48, 48, 48] && Value(r, 16) == Value(ds, 16) * 0x1000
  {
    ValueSnoc(ds, 48, 16);
    ValueSnoc(ds + [48], 48, 16);
    ValueSnoc(ds + [48] + [48], 48, 16);
    r := ds + [48] + [48] + [48];
  }

  /** The buffer `b` holds the text `t` at `p`, followed by its NUL. */
  ghost predicate TextAt(b: bytes, p: nat, t: bytes) {
    && p + |t| < |b| && b[p + |t|] == 0 && NoNul(t)
    && forall k :: p <= k < p + |t| ==> b[k] == t[k - p]
  }

  /** `strchr( q, ';' )`: stops at the semicolon or at the NUL. */
  method FindSemicolon(buf: array<byte>, p: nat, from: nat, ghost t: bytes) returns (q: nat)
    requires TextAt(buf[..], p, t) && from <= |t|
    ensures q == p + IndexOf(t, from, SEMI)
  {
    q := p + from;
    while buf[q] != 0 && buf[q] != SEMI
      invariant p + from <= q <= p + |t|
      invariant IndexOf(t, q - p, SEMI) == IndexOf(t, from, SEMI)
      decreases p + |t| - q
    {
      q := q + 1;
    }
  }

  /** The backward loop over the digits. */
  method ScanNumeral(buf: array<byte>, p: nat, first: nat, semi: nat, base: nat, stop: byte, ghost t: bytes)
    returns (r: Option<nat>)
    requires TextAt(buf[..], p, t) && first < semi <= |t| && t[first] == stop
    ensures r == Scan(t, first, semi - 1, base, stop, 1, 0)
  {
    var ucs: nat, mult: nat := 0, 1;
    var q := semi - 1;
    while buf[p + q] != stop
      invariant first <= q < semi
      invariant Scan(t, first, q, base, stop, mult, ucs) == Scan(t, first, semi - 1, base, stop, 1, 0)
      decreases q
    {
      var d := Digit(buf[p + q], base);
      if d >= base {
        return None;
      }
      ucs := (ucs + mult * d % W32) % W64;
      mult := mult * base % W32;
      q := q - 1;
    }
    r := Some(ucs);
  }

  method ReadNumber(buf: array<byte>, p: nat, ghost t: bytes) returns (r: Option<Number>)
    requires TextAt(buf[..], p, t) && |t| > 2 && t[1] == HASH
    ensures r == NumberAt(t)
  {
    var hex := buf[p + 2] == LOWER_X;
    var first, base, stop := if hex then 2 else 1, if hex then 16 else 10, if hex then LOWER_X else HASH;
    if buf[p + first + 1] == 0 {
      return None;
    }
    var q := FindSemicolon(buf, p, first + 1, t);
    if buf[q] == 0 {
      return None;
    }
    var ucs := ScanNumeral(buf, p, first, q - p, base, stop, t);
    r := if ucs.None? then None else Some(Number(q - p, ucs.value));
  }

  /** `value` is the caller's `char buf[10]`. */
  method GetCharacterRef(buf: array<byte>, p: nat, value: array<byte>, ghost t: bytes)
    returns (next: Option<nat>, length: nat)
    requires TextAt(buf[..], p, t) && t != []
    requires value != buf && value.Length == 10
    modifies value
    ensures length <= 4
    ensures match CharacterRef(t)
            case Null => next == None
            case Reference(adv, out) => next == Some(p + adv) && value[..length] == out
  {
    if !(buf[p + 1] == HASH && buf[p + 2] != 0) {
      return Some(p + 1), 0;
    }
    var n := ReadNumber(buf, p, t);
    if n.None? {
      return None, 0;
    }
    length := ConvertUTF32ToUTF8(n.value.ucs, value);
    next := Some(p + n.value.semi + 1);
  }
}
