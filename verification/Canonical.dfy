/** Canonical Huffman codes from code lengths, as section 3.2.2 of RFC 1951 prescribes them, and a decoder
    that reads one bit at a time until the bits read are the code of a symbol. */
module Canonical {
  import opened Words
  import opened Options

  /** How many of the first k symbols have code length l. */
  function Count(lens: seq<nat>, l: nat, k: nat): (c: nat)
    requires k <= |lens|
    ensures c <= k
  {
    if k == 0 then 0 else Count(lens, l, k - 1) + (if lens[k - 1] == l then 1 else 0)
  }

  /** bl_count over the first k symbols; length 0 means "no code" and is not counted. */
  function BlCount(lens: seq<nat>, l: nat, k: nat): nat
    requires k <= |lens|
  {
    if l == 0 then 0 else Count(lens, l, k)
  }

  /** next_code: the smallest code of length l. */
  function NextCode(lens: seq<nat>, l: nat, k: nat): nat
    requires k <= |lens|
  {
    if l == 0 then 0 else 2 * (NextCode(lens, l - 1, k) + BlCount(lens, l - 1, k))
  }

  function Code(lens: seq<nat>, s: nat): nat
    requires s < |lens|
  {
    NextCode(lens, lens[s], |lens|) + Count(lens, lens[s], s)
  }

  lemma CodeValue(lens: seq<nat>, s: nat)
    requires s < |lens|
    ensures Code(lens, s) == NextCode(lens, lens[s], |lens|) + Count(lens, lens[s], s)
    ensures forall l :: Count(lens, l, s + 1) == Count(lens, l, s) + (if lens[s] == l then 1 else 0)
  {
  }

  /** The code of s in stream order: most significant bit first. */
  function CodeBits(lens: seq<nat>, s: nat): (w: Bits)
    requires s < |lens|
    ensures |w| == lens[s]
  {
    Reversed(BitsOf(Code(lens, s), lens[s]))
  }

  /** The Kraft sum over the first k symbols, scaled by 2^L. */
  function Kraft(lens: seq<nat>, L: nat, k: nat): nat
    requires k <= |lens|
  {
    if k == 0 then 0
    else Kraft(lens, L, k - 1) + (if 0 < lens[k - 1] <= L then Pow2(L - lens[k - 1]) else 0)
  }

  /** Code lengths of at most L that meet the Kraft inequality. */
  ghost predicate Decodable(lens: seq<nat>, L: nat) {
    (forall s | 0 <= s < |lens| :: lens[s] <= L) && Kraft(lens, L, |lens|) <= Pow2(L)
  }

  // ---- decoding

  /** The first symbol from k on whose code is w. */
  function Find(lens: seq<nat>, w: Bits, k: nat): (r: Option<nat>)
    requires k <= |lens|
    ensures r.Some? ==> k <= r.value < |lens| && CodeBits(lens, r.value) == w
    ensures r.None? ==> forall s | k <= s < |lens| :: CodeBits(lens, s) != w
    decreases |lens| - k
  {
    if k == |lens| then None
    else if CodeBits(lens, k) == w then Some(k)
    else Find(lens, w, k + 1)
  }

  /** Reads a symbol at pos, trying codes of l bits and longer. */
  function DecodeFrom(lens: seq<nat>, bits: Bits, pos: nat, l: nat): (r: Option<(nat, nat)>)
    ensures r.Some? ==> r.value.0 < |lens| && pos + l <= r.value.1 <= |bits|
    decreases |bits| - l
  {
    if pos + l > |bits| then None
    else
      match Find(lens, bits[pos..pos + l], 0)
      case Some(s) => Some((s, pos + l))
      case None => DecodeFrom(lens, bits, pos, l + 1)
  }

  /** The symbol at pos and the position after its code. */
  function DecodeSymbol(lens: seq<nat>, bits: Bits, pos: nat): (r: Option<(nat, nat)>)
    ensures r.Some? ==> r.value.0 < |lens| && pos < r.value.1 <= |bits|
  {
    DecodeFrom(lens, bits, pos, 1)
  }

  // ---- the codes fit and are prefix-free

  /** One more symbol of length m moves every later code boundary up by its share. */
  lemma {:induction false} TotalStep(lens: seq<nat>, l: nat, k: nat)
    requires k < |lens|
    ensures NextCode(lens, l, k + 1) + BlCount(lens, l, k + 1)
         == NextCode(lens, l, k) + BlCount(lens, l, k) + (if 0 < lens[k] <= l then Pow2(l - lens[k]) else 0)
  {
    if l > 0 {
      TotalStep(lens, l - 1, k);
    }
  }

  lemma {:induction false} TotalZero(lens: seq<nat>, l: nat)
    ensures NextCode(lens, l, 0) + BlCount(lens, l, 0) == 0
  {
    if l > 0 {
      TotalZero(lens, l - 1);
    }
  }

  /** The first code value past level L is the scaled Kraft sum. */
  lemma {:induction false} TotalIsKraft(lens: seq<nat>, L: nat, k: nat)
    requires k <= |lens|
    ensures NextCode(lens, L, k) + BlCount(lens, L, k) == Kraft(lens, L, k)
  {
    if k == 0 {
      TotalZero(lens, L);
    } else {
      TotalIsKraft(lens, L, k - 1);
      TotalStep(lens, L, k - 1);
    }
  }

  lemma {:induction false} LevelFits(lens: seq<nat>, L: nat, l: nat)
    requires Decodable(lens, L) && l <= L
    ensures NextCode(lens, l, |lens|) + BlCount(lens, l, |lens|) <= Pow2(l)
    decreases L - l
  {
    if l == L {
      TotalIsKraft(lens, L, |lens|);
    } else {
      LevelFits(lens, L, l + 1);
    }
  }

  lemma {:induction false} CountGrows(lens: seq<nat>, l: nat, s: nat, k: nat)
    requires s < k <= |lens| && lens[s] == l
    ensures Count(lens, l, s) < Count(lens, l, k)
  {
    if s < k - 1 {
      CountGrows(lens, l, s, k - 1);
    }
  }

  lemma CodeBelowTotal(lens: seq<nat>, s: nat)
    requires s < |lens| && lens[s] > 0
    ensures NextCode(lens, lens[s], |lens|) <= Code(lens, s)
         < NextCode(lens, lens[s], |lens|) + BlCount(lens, lens[s], |lens|)
  {
    CountGrows(lens, lens[s], s, |lens|);
  }

  /** Every code fits in its length. */
  lemma CodeFits(lens: seq<nat>, L: nat, s: nat)
    requires Decodable(lens, L) && s < |lens| && lens[s] > 0
    ensures Code(lens, s) < Pow2(lens[s])
  {
    CodeBelowTotal(lens, s);
    LevelFits(lens, L, lens[s]);
  }

  /** Codes of a longer length start past all extensions of those of a shorter one. */
  lemma {:induction false} LevelsApart(lens: seq<nat>, l: nat, d: nat)
    requires d > 0
    ensures ShiftRight(NextCode(lens, l + d, |lens|), d) >= NextCode(lens, l, |lens|) + BlCount(lens, l, |lens|)
  {
    var n := NextCode(lens, l + d, |lens|);
    var below := NextCode(lens, l + d - 1, |lens|) + BlCount(lens, l + d - 1, |lens|);
    assert n / 2 == below;
    if d > 1 {
      LevelsApart(lens, l, d - 1);
      ShiftRightMonotone(NextCode(lens, l + d - 1, |lens|), below, d - 1);
    } else {
      assert ShiftRight(n, 1) == ShiftRight(n / 2, 0);
    }
  }

  lemma {:induction false} ShiftRightMonotone(x: nat, y: nat, d: nat)
    requires x <= y
    ensures ShiftRight(x, d) <= ShiftRight(y, d)
  {
    if d > 0 {
      ShiftRightMonotone(x / 2, y / 2, d - 1);
    }
  }

  lemma {:induction false} CountBetween(lens: seq<nat>, l: nat, s: nat, k: nat)
    requires s <= k <= |lens| && forall u | s <= u < k :: lens[u] != l
    ensures Count(lens, l, k) == Count(lens, l, s)
  {
    if s < k {
      CountBetween(lens, l, s, k - 1);
    }
  }

  /** Codes of one length are consecutive in the order of their symbols; a longer code is past all extensions of
      a shorter one. */
  lemma CodesInOrder(lens: seq<nat>, s: nat, t: nat)
    requires s < |lens| && t < |lens| && 0 < lens[s] <= lens[t]
    ensures s < t && lens[t] == lens[s] ==> Code(lens, s) < Code(lens, t)
    ensures s < t && lens[t] == lens[s] && (forall u | s < u < t :: lens[u] != lens[s]) ==>
              Code(lens, t) == Code(lens, s) + 1
    ensures lens[s] < lens[t] ==> Code(lens, s) < ShiftRight(Code(lens, t), lens[t] - lens[s])
  {
    hide NextCode;
    if lens[t] == lens[s] {
      if s < t {
        CountGrows(lens, lens[s], s, t);
        if forall u | s < u < t :: lens[u] != lens[s] {
          CountBetween(lens, lens[s], s + 1, t);
        }
      }
    } else {
      CodeBelowTotal(lens, s);
      LevelsApart(lens, lens[s], lens[t] - lens[s]);
      ShiftRightMonotone(NextCode(lens, lens[t], |lens|), Code(lens, t), lens[t] - lens[s]);
    }
  }

  /** The example of section 3.2.2 of RFC 1951: lengths 3, 3, 3, 3, 3, 2, 4, 4 for the symbols A to H. */
  lemma StandardExample()
    ensures var lens := [3, 3, 3, 3, 3, 2, 4, 4];
            && CodeBits(lens, 0) == [false, true, false] && CodeBits(lens, 1) == [false, true, true]
            && CodeBits(lens, 2) == [true, false, false] && CodeBits(lens, 3) == [true, false, true]
            && CodeBits(lens, 4) == [true, true, false] && CodeBits(lens, 5) == [false, false]
            && CodeBits(lens, 6) == [true, true, true, false] && CodeBits(lens, 7) == [true, true, true, true]
  {
    hide Code, BitsOf, Reversed;
    ExampleCodes();
    ExampleShort();
    ExampleThree();
    ExampleFour();
  }

  lemma ExampleShort()
    ensures Reversed(BitsOf(0, 2)) == [false, false]
    ensures Reversed(BitsOf(2, 3)) == [false, true, false] && Reversed(BitsOf(3, 3)) == [false, true, true]
  {
    hide Reversed;
    assert BitsOf(0, 2) == [false, false];
    assert BitsOf(2, 3) == [false, true, false] && BitsOf(3, 3) == [true, true, false];
    hide BitsOf;
    ReversedTwo(false, false);
    ReversedThree(false, true, false);
    ReversedThree(true, true, false);
  }

  lemma ExampleThree()
    ensures Reversed(BitsOf(4, 3)) == [true, false, false] && Reversed(BitsOf(5, 3)) == [true, false, true]
    ensures Reversed(BitsOf(6, 3)) == [true, true, false]
  {
    hide Reversed;
    assert BitsOf(4, 3) == [false, false, true] && BitsOf(5, 3) == [true, false, true];
    assert BitsOf(6, 3) == [false, true, true];
    hide BitsOf;
    ReversedThree(false, false, true);
    ReversedThree(true, false, true);
    ReversedThree(false, true, true);
  }

  lemma ExampleFour()
    ensures Reversed(BitsOf(14, 4)) == [true, true, true, false]
    ensures Reversed(BitsOf(15, 4)) == [true, true, true, true]
  {
    hide Reversed;
    assert BitsOf(14, 4) == [false, true, true, true] && BitsOf(15, 4) == [true, true, true, true];
    hide BitsOf;
    ReversedFour(false, true, true, true);
    ReversedFour(true, true, true, true);
  }

  lemma ReversedTwo(a: bool, b: bool)
    ensures Reversed([a, b]) == [b, a]
  {
    assert [a, b][1..] == [b];
    assert Reversed([b]) == [b];
  }

  lemma ReversedThree(a: bool, b: bool, c: bool)
    ensures Reversed([a, b, c]) == [c, b, a]
  {
    ReversedTwo(b, c);
    assert [a, b, c][1..] == [b, c];
  }

  lemma ReversedFour(a: bool, b: bool, c: bool, d: bool)
    ensures Reversed([a, b, c, d]) == [d, c, b, a]
  {
    ReversedThree(b, c, d);
    assert [a, b, c, d][1..] == [b, c, d];
  }

  lemma ExampleCodes()
    ensures var lens := [3, 3, 3, 3, 3, 2, 4, 4];
            && Code(lens, 0) == 2 && Code(lens, 1) == 3 && Code(lens, 2) == 4 && Code(lens, 3) == 5
            && Code(lens, 4) == 6 && Code(lens, 5) == 0 && Code(lens, 6) == 14 && Code(lens, 7) == 15
  {
    var lens := [3, 3, 3, 3, 3, 2, 4, 4];
    assert Count(lens, 1, 8) == 0 && Count(lens, 2, 8) == 1 && Count(lens, 3, 8) == 5;
    assert NextCode(lens, 1, 8) == 0;
    assert NextCode(lens, 2, 8) == 0;
    assert NextCode(lens, 3, 8) == 2;
    assert NextCode(lens, 4, 8) == 14;
  }

  lemma {:induction false} ReversedConcat(a: Bits, b: Bits)
    ensures Reversed(a + b) == Reversed(b) + Reversed(a)
  {
    if a == [] {
      assert a + b == b;
    } else {
      assert (a + b)[1..] == a[1..] + b;
      ReversedConcat(a[1..], b);
    }
  }

  /** The first m bits of an n-bit code are the bits of the code shifted right. */
  lemma CodePrefix(c: nat, n: nat, m: nat)
    requires m <= n
    ensures Reversed(BitsOf(c, n))[..m] == Reversed(BitsOf(ShiftRight(c, n - m), m))
  {
    BitsSplit(c, n - m, m);
    ReversedConcat(BitsOf(c, n - m), BitsOf(ShiftRight(c, n - m), m));
  }

  lemma ReversedBitsInjective(x: nat, y: nat, n: nat)
    requires x < Pow2(n) && y < Pow2(n) && Reversed(BitsOf(x, n)) == Reversed(BitsOf(y, n))
    ensures x == y
  {
    ReversedTwice(BitsOf(x, n));
    ReversedTwice(BitsOf(y, n));
    ValueOfBits(x, n);
    ValueOfBits(y, n);
  }

  /** No code is a prefix of the code of another symbol. */
  lemma PrefixFree(lens: seq<nat>, L: nat, s: nat, t: nat)
    requires Decodable(lens, L) && s < |lens| && t < |lens| && lens[s] > 0 && lens[t] > 0
    requires CodeBits(lens, t) <= CodeBits(lens, s)
    ensures s == t
  {
    hide Kraft, NextCode, BlCount, Count, Pow2, ShiftRight, BitsOf, Reversed, Code;
    var d := lens[s] - lens[t];
    CodeFits(lens, L, s);
    CodeFits(lens, L, t);
    CodePrefix(Code(lens, s), lens[s], lens[t]);
    ShiftRightSmall(Code(lens, s), d, lens[t]);
    ReversedBitsInjective(ShiftRight(Code(lens, s), d), Code(lens, t), lens[t]);
    CodeBelowTotal(lens, s);
    CodeBelowTotal(lens, t);
    if d > 0 {
      LevelsApart(lens, lens[t], d);
      ShiftRightMonotone(NextCode(lens, lens[s], |lens|), Code(lens, s), d);
      assert false;
    }
    if s != t {
      SameLength(lens, s, t);
    }
  }

  lemma SameLength(lens: seq<nat>, s: nat, t: nat)
    requires s < |lens| && t < |lens| && lens[s] == lens[t] && s != t
    ensures Code(lens, s) != Code(lens, t)
    ensures ShiftRight(Code(lens, s), 0) == Code(lens, s)
  {
    if s < t {
      CountGrows(lens, lens[s], s, t);
    } else {
      CountGrows(lens, lens[s], t, s);
    }
  }

  /** A code standing at pos is what the bit-by-bit decoder reads there. */
  lemma DecodeWritten(lens: seq<nat>, L: nat, s: nat, bits: Bits, pos: nat)
    requires Decodable(lens, L) && s < |lens| && lens[s] > 0
    requires At(bits, pos, CodeBits(lens, s))
    ensures DecodeSymbol(lens, bits, pos) == Some((s, pos + lens[s]))
  {
    DecodeFromWritten(lens, L, s, bits, pos, 1);
  }

  lemma {:induction false} DecodeFromWritten(lens: seq<nat>, L: nat, s: nat, bits: Bits, pos: nat, l: nat)
    requires Decodable(lens, L) && s < |lens| && 0 < l <= lens[s]
    requires At(bits, pos, CodeBits(lens, s))
    ensures DecodeFrom(lens, bits, pos, l) == Some((s, pos + lens[s]))
    decreases lens[s] - l
  {
    hide Kraft, CodeBits, Pow2;
    var w := bits[pos..pos + l];
    assert w == CodeBits(lens, s)[..l];
    var found := Find(lens, w, 0);
    if found.Some? {
      PrefixFree(lens, L, s, found.value);
    } else {
      assert w != CodeBits(lens, s);
      DecodeFromWritten(lens, L, s, bits, pos, l + 1);
    }
  }

  // ---- sequences of symbols

  function SymbolsBits(lens: seq<nat>, syms: seq<nat>): Bits
    requires forall i | 0 <= i < |syms| :: syms[i] < |lens|
  {
    if syms == [] then [] else CodeBits(lens, syms[0]) + SymbolsBits(lens, syms[1..])
  }

  function DecodeSymbols(lens: seq<nat>, bits: Bits, pos: nat, n: nat): Option<(seq<nat>, nat)>
    decreases n
  {
    if n == 0 then Some(([], pos))
    else
      var (s, p) :- DecodeSymbol(lens, bits, pos);
      var (rest, end) :- DecodeSymbols(lens, bits, p, n - 1);
      Some(([s] + rest, end))
  }

  /** Any sequence of symbols that have codes is recovered from its bits, wherever they stand. */
  lemma {:induction false} SymbolsRoundTrip(lens: seq<nat>, L: nat, syms: seq<nat>, bits: Bits, pos: nat)
    requires Decodable(lens, L) && forall i | 0 <= i < |syms| :: syms[i] < |lens| && lens[syms[i]] > 0
    requires At(bits, pos, SymbolsBits(lens, syms))
    ensures DecodeSymbols(lens, bits, pos, |syms|) == Some((syms, pos + |SymbolsBits(lens, syms)|))
    decreases |syms|
  {
    hide Decodable, CodeBits, DecodeSymbol, At;
    if syms != [] {
      AtConcat(bits, pos, CodeBits(lens, syms[0]), SymbolsBits(lens, syms[1..]));
      DecodeWritten(lens, L, syms[0], bits, pos);
      SymbolsRoundTrip(lens, L, syms[1..], bits, pos + lens[syms[0]]);
      assert [syms[0]] + syms[1..] == syms;
    }
  }

  // ---- unused trailing symbols

  lemma {:induction false} TrimCount(lens: seq<nat>, k: nat, l: nat, j: nat)
    requires k <= |lens| && forall s | k <= s < |lens| :: lens[s] == 0
    requires j <= |lens|
    ensures l > 0 ==> Count(lens, l, j) == Count(lens[..k], l, if j < k then j else k)
  {
    if j > 0 {
      TrimCount(lens, k, l, j - 1);
    }
  }

  lemma {:induction false} TrimNextCode(lens: seq<nat>, k: nat, l: nat)
    requires k <= |lens| && forall s | k <= s < |lens| :: lens[s] == 0
    ensures NextCode(lens, l, |lens|) == NextCode(lens[..k], l, k)
  {
    if l > 0 {
      TrimNextCode(lens, k, l - 1);
      TrimCount(lens, k, l - 1, |lens|);
    }
  }

  lemma {:induction false} TrimKraft(lens: seq<nat>, k: nat, L: nat, j: nat)
    requires k <= |lens| && forall s | k <= s < |lens| :: lens[s] == 0
    requires j <= |lens|
    ensures Kraft(lens, L, j) == Kraft(lens[..k], L, if j < k then j else k)
  {
    if j > 0 {
      TrimKraft(lens, k, L, j - 1);
    }
  }

  /** Dropping unused symbols at the end changes no code. */
  lemma TrimmedCode(lens: seq<nat>, k: nat, s: nat)
    requires s < k <= |lens| && forall t | k <= t < |lens| :: lens[t] == 0
    requires lens[s] > 0
    ensures CodeBits(lens[..k], s) == CodeBits(lens, s)
  {
    TrimNextCode(lens, k, lens[s]);
    TrimCount(lens, k, lens[s], s);
  }
}
