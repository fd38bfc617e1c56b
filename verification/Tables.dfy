/** The length and distance codes: the generator formulas of compress/gt_deflate.cpp, and the tables of
    section 3.2.5 of RFC 1951 that invert them. */
module Tables {
  import opened Words

  /** A table row: the code, the number of extra bits, and their value. */
  datatype Entry = Entry(code: nat, nExtra: nat, extra: nat)

  // ---- RFC 1951 section 3.2.5

  const LENGTH_BASE: seq<nat> :=
    [3, 4, 5, 6, 7, 8, 9, 10, 11, 13, 15, 17, 19, 23, 27, 31,
     35, 43, 51, 59, 67, 83, 99, 115, 131, 163, 195, 227, 258]
  const LENGTH_EXTRA: seq<nat> :=
    [0, 0, 0, 0, 0, 0, 0, 0, 1, 1, 1, 1, 2, 2, 2, 2, 3, 3, 3, 3, 4, 4, 4, 4, 5, 5, 5, 5, 0]
  const DISTANCE_BASE: seq<nat> :=
    [1, 2, 3, 4, 5, 7, 9, 13, 17, 25, 33, 49, 65, 97, 129, 193, 257, 385, 513, 769,
     1025, 1537, 2049, 3073, 4097, 6145, 8193, 12289, 16385, 24577]
  const DISTANCE_EXTRA: seq<nat> :=
    [0, 0, 0, 0, 1, 1, 2, 2, 3, 3, 4, 4, 5, 5, 6, 6, 7, 7, 8, 8, 9, 9, 10, 10, 11, 11, 12, 12, 13, 13]

  function LengthBase(code: nat): nat
    requires 257 <= code <= 285
  {
    LENGTH_BASE[code - 257]
  }

  function LengthExtra(code: nat): nat
    requires 257 <= code <= 285
  {
    LENGTH_EXTRA[code - 257]
  }

  function DistanceBase(code: nat): nat
    requires code <= 29
  {
    DISTANCE_BASE[code]
  }

  function DistanceExtra(code: nat): nat
    requires code <= 29
  {
    DISTANCE_EXTRA[code]
  }

  /** The row stands for x in the decoder's tables. */
  ghost predicate LengthInverts(e: Entry, x: nat) {
    && 257 <= e.code <= 285
    && e.nExtra == LengthExtra(e.code) <= 5
    && e.extra < Pow2(e.nExtra)
    && LengthBase(e.code) + e.extra == x
  }

  ghost predicate DistanceInverts(e: Entry, x: nat) {
    && e.code <= 29
    && e.nExtra == DistanceExtra(e.code) <= 13
    && e.extra < Pow2(e.nExtra)
    && DistanceBase(e.code) + e.extra == x
  }

  // ---- the generator

  function LengthEntry(x: nat): Entry {
    if x < 3 then Entry(0, 0, 0)
    else if x <= 10 then Entry(257 + x - 3, 0, 0)
    else if x <= 18 then Entry(265 + ShiftRight(x - 11, 1), 1, And(x - 11, 1))
    else if x <= 34 then Entry(269 + ShiftRight(x - 19, 2), 2, And(x - 19, 3))
    else if x <= 66 then Entry(273 + ShiftRight(x - 35, 3), 3, And(x - 35, 7))
    else if x <= 130 then Entry(277 + ShiftRight(x - 67, 4), 4, And(x - 67, 15))
    else if x <= 257 then Entry(281 + ShiftRight(x - 131, 5), 5, And(x - 131, 31))
    else Entry(285, 0, 0)
  }

  const DISTANCE_DIV: seq<(nat, nat)> :=
    [(0, 1), (4, 5), (6, 9), (8, 17), (10, 33), (12, 65), (14, 129), (16, 257), (18, 513), (20, 1025),
     (22, 2049), (24, 4097), (26, 8193), (28, 16385)]

  function DivCode(b: nat): nat
    requires b < 14
  {
    DISTANCE_DIV[b].0
  }

  function DivStart(b: nat): nat
    requires b < 14
  {
    DISTANCE_DIV[b].1
  }

  /** The last row of DISTANCE_DIV that starts at or below x. */
  function DistanceRow(x: nat, b: nat): (r: nat)
    requires b <= 14
    ensures b <= r <= 14
    decreases 14 - b
  {
    if b < 14 && DivStart(b) <= x then DistanceRow(x, b + 1) else b
  }

  function DistanceEntry(x: nat): Entry
    requires x >= 1
  {
    var b := DistanceRow(x, 0) - 1;
    DistanceAt(x, b)
  }

  function DistanceAt(x: nat, b: int): Entry
    requires x >= 1
  {
    if 0 <= b < 14 && DivStart(b) <= x then
      var v := x - DivStart(b);
      Entry(DivCode(b) + ShiftRight(v, b), b, And(v, Pow2(b) - 1))
    else Entry(0, 0, 0)
  }

  /** Splitting a value at bit k. */
  lemma {:induction false} SplitAt(v: nat, k: nat)
    ensures v == And(v, Pow2(k) - 1) + ShiftLeft(ShiftRight(v, k), k)
  {
    if k == 0 {
    } else if v == 0 {
      SplitAt(0, k - 1);
    } else {
      SplitAt(v / 2, k - 1);
      var p := Pow2(k - 1);
      assert (2 * p - 1) % 2 == 1 && (2 * p - 1) / 2 == p - 1;
    }
  }

  lemma ShiftsOfFour(k: nat)
    ensures ShiftLeft(0, k) == 0 && ShiftLeft(1, k) == Pow2(k)
    ensures ShiftLeft(2, k) == 2 * Pow2(k) && ShiftLeft(3, k) == 3 * Pow2(k)
  {
    ShiftLeftPow2(0, k);
    ShiftLeftLinear(0, 0, k);
    ShiftLeftLinear(1, 1, k);
    ShiftLeftLinear(2, 1, k);
  }

  ghost predicate LengthRow(code: nat, base: nat, nExtra: nat)
    requires 257 <= code <= 285
  {
    LengthBase(code) == base && LengthExtra(code) == nExtra
  }

  lemma LengthRows()
    ensures LengthRow(265, 11, 1) && LengthRow(266, 13, 1) && LengthRow(267, 15, 1) && LengthRow(268, 17, 1)
    ensures LengthRow(269, 19, 2) && LengthRow(270, 23, 2) && LengthRow(271, 27, 2) && LengthRow(272, 31, 2)
  {
  }

  lemma LongerRows()
    ensures LengthRow(273, 35, 3) && LengthRow(274, 43, 3) && LengthRow(275, 51, 3) && LengthRow(276, 59, 3)
    ensures LengthRow(277, 67, 4) && LengthRow(278, 83, 4) && LengthRow(279, 99, 4) && LengthRow(280, 115, 4)
    ensures LengthRow(281, 131, 5) && LengthRow(282, 163, 5) && LengthRow(283, 195, 5) && LengthRow(284, 227, 5)
  {
  }

  lemma ShortRow(c: nat)
    requires 257 <= c <= 264
    ensures LengthRow(c, c - 254, 0)
  {
  }

  lemma LastRow()
    ensures LengthRow(285, 258, 0)
  {
  }

  /** Every four length codes share their number of extra bits, from 265 on, and each starts where the one before
      it ends; the last stands for 258 alone. */
  lemma LengthCodes(c: nat)
    requires 257 <= c <= 285
    ensures LengthBase(257) == 3 && LengthBase(285) == 258
    ensures LengthExtra(c) == if c < 265 || c == 285 then 0 else (c - 261) / 4
    ensures c < 284 ==> LengthBase(c + 1) == LengthBase(c) + Pow2(LengthExtra(c))
  {
    hide LengthBase, LengthExtra, Pow2;
    Pow2Values();
    ShortRow(257);
    if c <= 264 {
      ShortRow(c);
    }
    if c < 264 {
      ShortRow(c + 1);
    }
    LengthRows();
    LongerRows();
    LastRow();
  }

  lemma LengthSmall(x: nat)
    requires 3 <= x <= 10 || x == 258
    ensures LengthInverts(LengthEntry(x), x)
  {
  }

  lemma LengthGroup(x: nat, first: nat, k: nat, code: nat)
    requires 1 <= k <= 5 && first <= x < first + 4 * Pow2(k)
    requires code + 3 <= 284 && code >= 257
    requires LengthRow(code, first, k) && LengthRow(code + 1, first + Pow2(k), k)
    requires LengthRow(code + 2, first + 2 * Pow2(k), k) && LengthRow(code + 3, first + 3 * Pow2(k), k)
    ensures LengthInverts(Entry(code + ShiftRight(x - first, k), k, And(x - first, Pow2(k) - 1)), x)
  {
    hide And, ShiftLeft, ShiftRight, LengthBase, LengthExtra, Pow2;
    SplitAt(x - first, k);
    MaskLow(x - first, k);
    Pow2Values();
    Pow2Step(k);
    Pow2Step(k + 1);
    ShiftRightSmall(x - first, k, 2);
    ShiftsOfFour(k);
    var j := ShiftRight(x - first, k);
    assert j == 0 || j == 1 || j == 2 || j == 3;
  }

  /** The decoder's length table inverts the generator on every match length. */
  lemma LengthTableInverts(x: nat)
    requires 3 <= x <= 258
    ensures LengthInverts(LengthEntry(x), x)
  {
    hide And, ShiftLeft, ShiftRight, Pow2, LengthRow, LengthInverts, LengthBase, LengthExtra;
    Pow2Values();
    LengthRows();
    LongerRows();
    if x <= 10 || x == 258 {
      LengthSmall(x);
    } else if x <= 18 {
      LengthGroup(x, 11, 1, 265);
    } else if x <= 34 {
      LengthGroup(x, 19, 2, 269);
    } else if x <= 66 {
      LengthGroup(x, 35, 3, 273);
    } else if x <= 130 {
      LengthGroup(x, 67, 4, 277);
    } else {
      LengthGroup(x, 131, 5, 281);
    }
  }

  /** The longest match has the code of its own. */
  lemma LongestCode(x: nat)
    requires 3 <= x <= 258
    ensures LengthEntry(x).code == 285 <==> x == 258
  {
    hide And, ShiftRight;
    LengthTableInverts(x);
    if LengthEntry(x).code == 285 {
      assert LengthEntry(x).extra < Pow2(0) == 1;
    }
  }

  /** Row b + 1 starts twice as far from 1 as row b. */
  lemma DivRow(b: nat)
    requires b < 14
    ensures b > 0 ==> DivStart(b) == Pow2(b + 1) + 1 && DivCode(b) == 2 * b + 2
  {
    hide Pow2;
    Pow2Values();
  }

  /** The decoder's two rows for the codes of generator row b. */
  lemma DecoderRow(b: nat)
    requires b < 14
    ensures b > 0 ==> DistanceBase(2 * b + 2) == Pow2(b + 1) + 1
                      && DistanceBase(2 * b + 3) == Pow2(b + 1) + Pow2(b) + 1
    ensures b > 0 ==> DistanceExtra(2 * b + 2) == DistanceExtra(2 * b + 3) == b
  {
    hide Pow2;
    Pow2Values();
  }

  /** Every two distance codes share their number of extra bits, from 4 on, and each starts where the one before
      it ends. */
  lemma DistanceCodes(d: nat)
    requires d <= 29
    ensures DistanceBase(0) == 1
    ensures DistanceExtra(d) == if d < 4 then 0 else (d - 2) / 2
    ensures d < 29 ==> DistanceBase(d + 1) == DistanceBase(d) + Pow2(DistanceExtra(d))
  {
    hide DistanceBase, DistanceExtra, Pow2;
    FirstDistances();
    if d >= 4 {
      var b := (d - 2) / 2;
      assert d == 2 * b + 2 || d == 2 * b + 3;
      DecoderRow(b);
      if b < 13 {
        DecoderRow(b + 1);
        Pow2Step(b);
        Pow2Step(b + 1);
      }
    }
  }

  lemma FirstDistances()
    ensures forall d: nat | d <= 4 :: DistanceBase(d) == d + 1
    ensures forall d: nat | d < 4 :: DistanceExtra(d) == 0
    ensures Pow2(0) == 1
  {
  }

  /** The row found is the one whose range holds x. */
  lemma {:induction false} RowRange(x: nat, b: nat)
    requires 1 <= x <= 32768 && b <= 14
    requires b > 0 ==> DivStart(b - 1) <= x
    ensures var r := DistanceRow(x, b);
            && 1 <= r <= 14
            && DivStart(r - 1) <= x
            && (r < 14 ==> x < DivStart(r))
    decreases 14 - b
  {
    assert DivStart(0) == 1;
    if b < 14 && DivStart(b) <= x {
      RowRange(x, b + 1);
    }
  }

  /** Row b >= 1 has two codes, each for 2^b distances. */
  lemma DistanceGroup(x: nat, b: nat)
    requires 1 <= b < 14 && Pow2(b + 1) + 1 <= x < Pow2(b + 2) + 1
    ensures var v := x - (Pow2(b + 1) + 1);
            DistanceInverts(Entry(2 * b + 2 + ShiftRight(v, b), b, And(v, Pow2(b) - 1)), x)
  {
    hide And, ShiftLeft, ShiftRight, Pow2, DistanceBase, DistanceExtra, DivCode, DivStart;
    var v := x - (Pow2(b + 1) + 1);
    DivRow(b);
    DecoderRow(b);
    Pow2Step(b);
    Pow2Step(b + 1);
    assert v < Pow2(1 + b);
    ShiftRightSmall(v, b, 1);
    Pow2Values();
    SplitAt(v, b);
    MaskLow(v, b);
    ShiftsOfFour(b);
    var j := ShiftRight(v, b);
    assert j == 0 || j == 1;
  }

  lemma FirstRows()
    ensures DivStart(0) == 1 && DivStart(1) == 5
  {
  }

  lemma DistanceSmall(x: nat)
    requires 1 <= x <= 4
    ensures DistanceInverts(DistanceAt(x, 0), x)
  {
    hide And, ShiftRight, Pow2;
    SplitAtZero(x - 1);
    assert DistanceBase(x - 1) == x && DistanceExtra(x - 1) == 0;
  }

  /** The decoder's distance table inverts the generator on every distance of the window. */
  lemma DistanceTableInverts(x: nat)
    requires 1 <= x <= 32768
    ensures DistanceInverts(DistanceEntry(x), x)
  {
    hide And, ShiftLeft, ShiftRight, Pow2, DistanceRow, DistanceInverts, DivCode, DivStart;
    RowRange(x, 0);
    var b := DistanceRow(x, 0) - 1;
    if b == 0 {
      FirstRows();
      DistanceSmall(x);
    } else {
      DivRow(b);
      if b < 13 {
        DivRow(b + 1);
      } else {
        Pow2Values();
      }
      DistanceGroup(x, b);
    }
  }

  lemma Pow2Step(b: nat)
    ensures Pow2(b + 1) == 2 * Pow2(b)
  {
  }

  lemma SplitAtZero(v: nat)
    ensures ShiftRight(v, 0) == v && And(v, Pow2(0) - 1) == 0 && Pow2(0) == 1
  {
  }

  /** The generator loops: one row per length and per distance. */
  method GenerateTables() returns (lengths: seq<Entry>, distances: seq<Entry>)
    ensures |lengths| == 259 && forall x | 0 <= x <= 258 :: lengths[x] == LengthEntry(x)
    ensures forall x | 3 <= x <= 258 :: LengthInverts(lengths[x], x)
    ensures |distances| == 32769 && distances[0] == Entry(0, 0, 0)
    ensures forall x | 1 <= x <= 32768 :: distances[x] == DistanceEntry(x)
    ensures forall x | 1 <= x <= 32768 :: DistanceInverts(distances[x], x)
  {
    hide LengthInverts, DistanceInverts, LengthEntry, DistanceEntry;
    lengths := [];
    for x := 0 to 259
      invariant |lengths| == x && forall y | 0 <= y < x :: lengths[y] == LengthEntry(y)
      invariant forall y | 3 <= y < x :: LengthInverts(lengths[y], y)
    {
      if x >= 3 {
        LengthTableInverts(x);
      }
      lengths := lengths + [LengthEntry(x)];
    }
    distances := [];
    for x := 0 to 32769
      invariant |distances| == x && forall y | 1 <= y < x :: distances[y] == DistanceEntry(y)
      invariant x > 0 ==> distances[0] == Entry(0, 0, 0)
      invariant forall y | 1 <= y < x :: DistanceInverts(distances[y], y)
    {
      var row := DistanceRowEntry(x);
      if x >= 1 {
        DistanceTableInverts(x);
      }
      distances := distances + [row];
    }
  }

  lemma RowStep(x: nat, b: nat)
    requires b <= 14
    ensures DistanceRow(x, b) == if b < 14 && DivStart(b) <= x then DistanceRow(x, b + 1) else b
  {
  }

  /** One row of the distance table, with the loop that looks the range up. */
  method DistanceRowEntry(x: nat) returns (row: Entry)
    requires x <= 32768
    ensures row == if x == 0 then Entry(0, 0, 0) else DistanceEntry(x)
  {
    hide DistanceRow, DivStart, DivCode, And, ShiftRight, Pow2;
    var a, b, c := 0, 0, 0;
    if x > 0 {
      while b < 14 && DivStart(b) <= x
        invariant 0 <= b <= 14 && DistanceRow(x, b) == DistanceRow(x, 0)
        decreases 14 - b
      {
        RowStep(x, b);
        b := b + 1;
      }
      RowStep(x, b);
      RowRange(x, 0);
      b := b - 1;
      a := DivCode(b) + ShiftRight(x - DivStart(b), b);
      c := And(x - DivStart(b), Pow2(b) - 1);
    }
    row := Entry(a, b, c);
  }
}
