/**
 Numeric references written out: a number is put down digit by digit, by repeated
 division, and the reference with that numeral is read as the number.
 */
module Numerals {
  import opened Bytes
  import opened CharRef

  /** `0123456789ABCDEF` and `0123456789abcdef`. */
  const UPPER: bytes := [48, 49, 50, 51, 52, 53, 54, 55, 56, 57, 65, 66, 67, 68, 69, 70]
  const LOWER: bytes := [48, 49, 50, 51, 52, 53, 54, 55, 56, 57, 97, 98, 99, 100, 101, 102]

  /** The numeral of `n`, with the digits of `table`. */
  function Numeral(n: nat, base: nat, table: bytes): (ds: bytes)
    requires (base == 10 || base == 16) && base <= |table|
    ensures ds != []
    decreases n
  {
    if n < base then [table[n]]
    else
      var front := if base == 10 then n / 10 else n / 16;
      var last := if base == 10 then n % 10 else n % 16;
      Numeral(front, base, table) + [table[last]]
  }

  predicate IsTable(base: nat, table: bytes) {
    (base == 16 && (table == UPPER || table == LOWER)) || (base == 10 && table == UPPER[..10])
  }

  lemma TableSize(base: nat, table: bytes)
    requires IsTable(base, table)
    ensures (base == 10 || base == 16) && base <= |table|
  {
  }

  lemma DigitIs(base: nat, table: bytes, d: nat)
    requires IsTable(base, table) && d < base
    ensures d < |table| && Digit(table[d], base) == d
  {
  }

  /** No other byte is a digit. */
  lemma OnlyDigits(b: byte)
    ensures Digit(b, 16) < 16 <==> b in UPPER || b in LOWER
    ensures Digit(b, 10) < 10 <==> b in UPPER[..10]
  {
    if Digit(b, 16) < 16 {
      assert UPPER[Digit(b, 16)] == b || LOWER[Digit(b, 16)] == b;
    }
    if Digit(b, 10) < 10 {
      assert UPPER[..10][Digit(b, 10)] == b;
    }
  }

  lemma {:induction false} NumeralValue(n: nat, base: nat, table: bytes)
    requires IsTable(base, table) && (base == 10 || base == 16) && base <= |table|
    ensures AllDigits(Numeral(n, base, table), base) && Value(Numeral(n, base, table), base) == n
  {
    hide IsTable, Digit, AllDigits, Value;
    if n < base {
      DigitIs(base, table, n);
      ConcatEmpty([table[n]]);
      NoDigits(base);
      ValueSnoc([], table[n], base);
      AllDigitsSnoc([], table[n], base);
    } else {
      var m, d := LastDigit(n, base, table);
      var front := Numeral(m, base, table);
      NumeralValue(m, base, table);
      hide *;
      DigitIs(base, table, d);
      ValueSnoc(front, table[d], base);
      AllDigitsSnoc(front, table[d], base);
    }
  }

  lemma NoDigits(base: nat)
    ensures Value([], base) == 0 && AllDigits([], base)
  {
  }

  lemma LastDigit(n: nat, base: nat, table: bytes) returns (m: nat, d: nat)
    requires (base == 10 || base == 16) && base <= |table| && base <= n
    ensures m < n && d < base && m * base + d == n && Numeral(n, base, table) == Numeral(m, base, table) + [table[d]]
  {
    m := if base == 10 then n / 10 else n / 16;
    d := if base == 10 then n % 10 else n % 16;
    if base == 10 {
      assert m * 10 + d == n;
    } else {
      assert m * 16 + d == n;
    }
  }

  /**
   `&#x` or `&#`, the numeral of `n` in capital or small digits, and `;`: the reference is
   read as `n`, and the cursor moves behind it.
   */
  lemma NumeralReference(n: nat, hex: bool, table: bytes, rest: bytes)
    requires n < 0x1_0000_0000 && IsTable(if hex then 16 else 10, table)
    ensures var base := if hex then 16 else 10;
            var front: bytes := if hex then [38, 35, 120] else [38, 35];
            && base <= |table|
            && var x := front + Numeral(n, base, table) + [59];
               CharacterRef(x + rest) == Reference(|x|, Utf8(n))
  {
    hide IsTable, Numeral, AllDigits, Value, Accumulate, CharacterRef, Utf8, ReadUtf8;
    var base := if hex then 16 else 10;
    TableSize(base, table);
    var ds := Numeral(n, base, table);
    NumeralValue(n, base, table);
    NumeralIsExact(ds, base);
    WellFormedReference(RefHead(hex) + ds + [SEMI] + rest, hex, ds, rest);
  }

  /** Below 0x200000 the bytes written are those of the number in UTF-8. */
  lemma NumeralReadsBack(n: nat, hex: bool, table: bytes)
    requires n < 0x20_0000 && IsTable(if hex then 16 else 10, table)
    ensures var base := if hex then 16 else 10;
            var front: bytes := if hex then [38, 35, 120] else [38, 35];
            && base <= |table|
            && var r := CharacterRef(front + Numeral(n, base, table) + [59]);
               r.Reference? && r.adv == |front| + |Numeral(n, base, table)| + 1 && ReadUtf8(r.out) == Some(n)
  {
    hide IsTable, Numeral, CharacterRef, Utf8, ReadUtf8;
    var base := if hex then 16 else 10;
    var front: bytes := if hex then [38, 35, 120] else [38, 35];
    TableSize(base, table);
    NumeralReference(n, hex, table, []);
    ConcatEmpty(front + Numeral(n, base, table) + [59]);
    Utf8ReadsBack(n);
  }
}
