/** The length-limited Huffman construction of compress/deflate_huffman. */
module HuffmanTrees {
  import opened Words
  import opened Options
  import opened PackageMerge
  import opened BitStreams
  import Canonical

  /** How often each symbol below n occurs. */
  ghost function Frequencies(src: seq<nat>, n: nat): (f: seq<nat>)
    ensures |f| == n
  {
    seq(n, s => multiset(src)[s])
  }

  /** The total length of the encoded source, in bits, over the first k symbols. */
  ghost function CostTo(freq: seq<nat>, lens: seq<nat>, k: nat): nat
    requires k <= |freq| == |lens|
  {
    if k == 0 then 0 else CostTo(freq, lens, k - 1) + freq[k - 1] * lens[k - 1]
  }

  /** Code lengths a decoder can use for a source with these frequencies. */
  ghost predicate Feasible(freq: seq<nat>, lens: seq<nat>, L: nat) {
    && |lens| == |freq|
    && Canonical.Decodable(lens, L)
    && forall s | 0 <= s < |freq| && freq[s] > 0 :: lens[s] > 0
  }

  /** No feasible lengths encode a source with these frequencies in fewer bits. */
  ghost predicate Optimal(freq: seq<nat>, lens: seq<nat>, L: nat) {
    && |lens| == |freq|
    && forall other | Feasible(freq, other, L) :: CostTo(freq, lens, |freq|) <= CostTo(freq, other, |freq|)
  }

  /** The symbol that joins x when it is the only one in use. */
  function Partner(x: nat): nat {
    if x == 0 then 1 else 0
  }

  /** Exactly the symbols of src have a code; a symbol alone shares one bit with its partner. */
  ghost predicate OnlyFor(src: seq<nat>, lens: seq<nat>)
    requires src != []
  {
    if forall x | x in src :: x == src[0]
    then forall s | 0 <= s < |lens| :: lens[s] == if s == src[0] || s == Partner(src[0]) then 1 else 0
    else forall s | 0 <= s < |lens| :: lens[s] > 0 <==> s in src
  }

  // ---- sums over all symbols and over an index of them

  ghost predicate Distinct(index: seq<nat>, n: nat) {
    && (forall k | 0 <= k < |index| :: index[k] < n)
    && forall j, k | 0 <= j < k < |index| :: index[j] != index[k]
  }

  ghost function Gather(w: seq<nat>, index: seq<nat>): (r: seq<nat>)
    requires forall k | 0 <= k < |index| :: index[k] < |w|
    ensures |r| == |index|
  {
    seq(|index|, k requires 0 <= k < |index| => w[index[k]])
  }

  lemma {:induction false} SumUpdate(w: seq<nat>, x: nat, k: nat)
    requires x < |w| && k <= |w|
    ensures SumTo(w, k) == SumTo(w[x := 0], k) + (if x < k then w[x] else 0)
  {
    if k > 0 {
      SumUpdate(w, x, k - 1);
    }
  }

  lemma {:induction false} SumAgree(v: seq<nat>, w: seq<nat>, k: nat)
    requires k <= |v| && k <= |w| && forall j | 0 <= j < k :: v[j] == w[j]
    ensures SumTo(v, k) == SumTo(w, k)
  {
    if k > 0 {
      SumAgree(v, w, k - 1);
    }
  }

  lemma {:induction false} SumOfZeros(w: seq<nat>, k: nat)
    requires k <= |w| && forall j | 0 <= j < k :: w[j] == 0
    ensures SumTo(w, k) == 0
  {
    if k > 0 {
      SumOfZeros(w, k - 1);
    }
  }

  /** A sum over all symbols is at least the sum over an index; equal if nothing else contributes. */
  lemma {:induction false} SumGather(w: seq<nat>, index: seq<nat>)
    requires Distinct(index, |w|)
    ensures SumTo(Gather(w, index), |index|) <= SumTo(w, |w|)
    ensures (forall s | 0 <= s < |w| && w[s] > 0 :: s in index)
        ==> SumTo(Gather(w, index), |index|) == SumTo(w, |w|)
    decreases |index|
  {
    if index == [] {
      if forall s | 0 <= s < |w| && w[s] > 0 :: s in index {
        SumOfZeros(w, |w|);
      }
    } else {
      var k := |index| - 1;
      var x, rest := index[k], index[..k];
      var v := w[x := 0];
      SumUpdate(w, x, |w|);
      SumGather(v, rest);
      SumAgree(Gather(v, rest), Gather(w, index), k);
      if forall s | 0 <= s < |w| && w[s] > 0 :: s in index {
        RestCovers(w, index);
      }
    }
  }

  lemma RestCovers(w: seq<nat>, index: seq<nat>)
    requires index != [] && index[|index| - 1] < |w| && forall s | 0 <= s < |w| && w[s] > 0 :: s in index
    ensures var v := w[index[|index| - 1] := 0];
            forall s | 0 <= s < |v| && v[s] > 0 :: s in index[..|index| - 1]
  {
    var v, rest := w[index[|index| - 1] := 0], index[..|index| - 1];
    forall s | 0 <= s < |v| && v[s] > 0
      ensures s in rest
    {
      assert s in index;
      var j :| 0 <= j < |index| && index[j] == s;
      assert rest[j] == s;
    }
  }

  ghost function KraftTerms(lens: seq<nat>, L: nat): (w: seq<nat>)
    ensures |w| == |lens|
  {
    seq(|lens|, s requires 0 <= s < |lens| => if 0 < lens[s] <= L then Pow2(L - lens[s]) else 0)
  }

  ghost function CostTerms(freq: seq<nat>, lens: seq<nat>): (w: seq<nat>)
    requires |freq| == |lens|
    ensures |w| == |lens|
  {
    seq(|lens|, s requires 0 <= s < |lens| => freq[s] * lens[s])
  }

  lemma {:induction false} KraftIsSum(lens: seq<nat>, L: nat, k: nat)
    requires k <= |lens|
    ensures Canonical.Kraft(lens, L, k) == SumTo(KraftTerms(lens, L), k)
  {
    if k > 0 {
      KraftIsSum(lens, L, k - 1);
    }
  }

  lemma {:induction false} CostIsSum(freq: seq<nat>, lens: seq<nat>, k: nat)
    requires k <= |freq| == |lens|
    ensures CostTo(freq, lens, k) == SumTo(CostTerms(freq, lens), k)
  {
    if k > 0 {
      CostIsSum(freq, lens, k - 1);
    }
  }

  /** The index-side Kraft sum of positive depths. */
  lemma {:induction false} KraftOfIndex(lens: seq<nat>, index: seq<nat>, L: nat, k: nat)
    requires Distinct(index, |lens|) && k <= |index|
    requires forall j | 0 <= j < |index| :: 0 < Gather(lens, index)[j] <= L
    ensures KraftTo(L, Gather(lens, index), k) == SumTo(Gather(KraftTerms(lens, L), index), k)
  {
    if k > 0 {
      KraftOfIndex(lens, index, L, k - 1);
      assert 0 < Gather(lens, index)[k - 1] <= L;
    }
  }

  lemma {:induction false} CostOfIndex(freq: seq<nat>, lens: seq<nat>, index: seq<nat>, k: nat)
    requires |freq| == |lens| && Distinct(index, |lens|) && k <= |index|
    ensures DotTo(Gather(freq, index), Gather(lens, index), k) == SumTo(Gather(CostTerms(freq, lens), index), k)
  {
    if k > 0 {
      CostOfIndex(freq, lens, index, k - 1);
    }
  }

  // ---- the index of the symbols in use

  /** The first k symbols that occur. */
  function UsedIn(freq: seq<nat>, k: nat): seq<nat>
    requires k <= |freq|
  {
    if k == 0 then [] else UsedIn(freq, k - 1) + (if freq[k - 1] > 0 then [k - 1] else [])
  }

  /** The index, filled up to two with unused symbols from i on. */
  function FillFrom(freq: seq<nat>, index: seq<nat>, i: nat): seq<nat>
    requires i <= |freq|
    decreases |freq| - i
  {
    if i == |freq| || |index| >= 2 then index
    else FillFrom(freq, if freq[i] == 0 then index + [i] else index, i + 1)
  }

  function IndexFor(freq: seq<nat>): seq<nat> {
    FillFrom(freq, UsedIn(freq, |freq|), 0)
  }

  /** A sort of symbols by frequency. */
  datatype Sorter = Sorter(run: (seq<nat>, seq<nat>) -> seq<nat>)

  function SortWith(sort: Sorter, index: seq<nat>, freq: seq<nat>): seq<nat> {
    sort.run(index, freq)
  }

  /** The same symbols by rising frequency, ties in any order. */
  ghost predicate SortedBy(sorted: seq<nat>, index: seq<nat>, freq: seq<nat>) {
    && Distinct(sorted, |freq|) && |sorted| == |index|
    && (forall s :: s in sorted <==> s in index)
    && Sorted(Gather(freq, sorted))
  }

  ghost predicate Sorts(sort: Sorter) {
    forall index: seq<nat>, freq: seq<nat> | Distinct(index, |freq|) ::
      SortedBy(SortWith(sort, index, freq), index, freq)
  }

  /** What the selection gives on the sorted index carries over to the whole alphabet. */
  ghost predicate IndexOf(index: seq<nat>, freq: seq<nat>) {
    && Distinct(index, |freq|)
    && index != []
    && (forall s | 0 <= s < |freq| && freq[s] > 0 :: s in index)
    && Sorted(Gather(freq, index))
  }

  /** The code lengths that package-merge assigns through an index. */
  ghost predicate Selected(lens: seq<nat>, index: seq<nat>, freq: seq<nat>, L: nat)
    requires IndexOf(index, freq)
  {
    var f := Gather(freq, index);
    && L >= 1
    && 2 * (|f| - 1) <= |List(f, L - 1)|
    && |lens| == |freq|
    && Gather(lens, index) == Depths(f, L - 1, 2 * (|f| - 1))
    && forall s | 0 <= s < |lens| && s !in index :: lens[s] == 0
  }

  /** The code lengths that package-merge assigns when the symbols are sorted by a given sort. */
  ghost predicate DepthsBy(sort: Sorter, lens: seq<nat>, freq: seq<nat>, L: nat) {
    var index := SortWith(sort, IndexFor(freq), freq);
    IndexOf(index, freq) && Selected(lens, index, freq, L)
  }

  /** The order of ties fixes all code lengths. */
  lemma DepthsUnique(sort: Sorter, a: seq<nat>, b: seq<nat>, freq: seq<nat>, L: nat)
    requires DepthsBy(sort, a, freq, L) && DepthsBy(sort, b, freq, L)
    ensures a == b
  {
    hide List, Depths, Sorted, IndexFor;
    var index := SortWith(sort, IndexFor(freq), freq);
    forall s | 0 <= s < |a|
      ensures a[s] == b[s]
    {
      if s in index {
        var k :| 0 <= k < |index| && index[k] == s;
        assert Gather(a, index)[k] == Gather(b, index)[k];
      }
    }
  }

  /** The code is complete: every indexed symbol has a length in 1..L and the Kraft sum is exactly 1. */
  lemma SelectedIsComplete(lens: seq<nat>, index: seq<nat>, freq: seq<nat>, L: nat)
    requires L >= 1 && IndexOf(index, freq) && 2 <= |index| <= Pow2(L) && Selected(lens, index, freq, L)
    ensures Feasible(freq, lens, L) && Canonical.Kraft(lens, L, |lens|) == Pow2(L)
    ensures forall s | 0 <= s < |lens| :: lens[s] > 0 <==> s in index
  {
    hide List, Depths, KraftTo, Sorted, Canonical.Kraft, KraftTerms, Pow2;
    var f := Gather(freq, index);
    SelectionIsComplete(f, L);
    var d := Gather(lens, index);
    forall s | 0 <= s < |lens|
      ensures lens[s] > 0 <==> s in index
      ensures lens[s] <= L
    {
      if s in index {
        var k :| 0 <= k < |index| && index[k] == s;
        assert d[k] == lens[s];
      }
    }
    KraftOfIndex(lens, index, L, |index|);
    KraftTermsUsed(lens, L);
    SumGather(KraftTerms(lens, L), index);
    KraftIsSum(lens, L, |lens|);
  }

  lemma KraftTermsUsed(lens: seq<nat>, L: nat)
    ensures forall s | 0 <= s < |lens| && KraftTerms(lens, L)[s] > 0 :: lens[s] > 0
  {
  }

  /** No feasible code lengths encode the source in fewer bits. */
  lemma SelectedIsOptimal(lens: seq<nat>, index: seq<nat>, freq: seq<nat>, L: nat, other: seq<nat>)
    requires L >= 1 && IndexOf(index, freq) && 2 <= |index| <= Pow2(L) && Selected(lens, index, freq, L)
    requires (forall k | 0 <= k < |index| :: freq[index[k]] > 0) || |index| == 2
    requires Feasible(freq, other, L)
    ensures CostTo(freq, lens, |freq|) <= CostTo(freq, other, |freq|)
  {
    hide List, Depths, KraftTo, DotTo, Sorted, Canonical.Kraft, KraftTerms, CostTerms, CostTo;
    var f := Gather(freq, index);
    CostThroughIndex(freq, lens, index);
    CostThroughIndex(freq, other, index);
    if forall k | 0 <= k < |index| :: freq[index[k]] > 0 {
      var d := Gather(other, index);
      KraftOfIndex(other, index, L, |index|);
      SumGather(KraftTerms(other, L), index);
      KraftIsSum(other, L, |other|);
      SelectionIsOptimal(f, L, d);
    } else {
      SelectionIsOptimal(f, L, [1, 1]) by {
        KraftOfPair(L);
      }
      PairCost(f, Gather(other, index));
    }
  }

  /** An index of two whose unused symbols are the lowest. */
  lemma PairIsFilled(index: seq<nat>, x: nat)
    requires |index| == 2 && index[0] != index[1] && x in index
    requires forall s, t | s in index && 0 <= t < s && s != x :: t in index
    ensures forall s :: s in index <==> s == x || s == Partner(x)
  {
    var y := if index[0] == x then index[1] else index[0];
    assert y in index;
    assert y > 0 ==> 0 in index;
    assert y > 1 ==> 1 in index;
  }

  lemma {:induction false} UsedAtLeast(freq: seq<nat>, s: nat, k: nat)
    requires s < k <= |freq| && freq[s] > 0
    ensures PositiveTo(freq, k) >= PositiveTo(freq, s) + 1
  {
    if s < k - 1 {
      UsedAtLeast(freq, s, k - 1);
    }
  }

  lemma OnlyUsed(freq: seq<nat>, x: nat, s: nat)
    requires x < |freq| && s < |freq| && x != s && freq[x] > 0 && PositiveTo(freq, |freq|) < 2
    ensures freq[s] == 0
  {
    if freq[s] > 0 {
      var a, b := if x < s then x else s, if x < s then s else x;
      UsedAtLeast(freq, b, |freq|);
      UsedAtLeast(freq, a, b);
    }
  }

  /** The depths when only x is in use: one bit for x and one for its partner. */
  lemma LoneSymbol(lens: seq<nat>, index: seq<nat>, freq: seq<nat>, L: nat, x: nat)
    requires L >= 1 && IndexOf(index, freq) && |index| == 2 <= Pow2(L) && Selected(lens, index, freq, L)
    requires x < |freq| && freq[x] > 0 && PositiveTo(freq, |freq|) < 2
    requires forall s, t | s in index && 0 <= t < s < |freq| && freq[s] == 0 :: t in index
    ensures forall s | 0 <= s < |lens| :: lens[s] == if s == x || s == Partner(x) then 1 else 0
  {
    PairSelected(lens, index, freq, L);
    hide List, Depths, Sorted, PositiveTo, Partner;
    forall s, t | s in index && 0 <= t < s && s != x
      ensures t in index
    {
      OnlyUsed(freq, x, s);
    }
    PairIsFilled(index, x);
  }

  lemma PairDepths(L: nat, d: seq<nat>)
    requires |d| == 2 && 1 <= d[0] <= L && 1 <= d[1] <= L && KraftTo(L, d, 2) == Pow2(L)
    ensures d[0] == d[1] == 1
  {
    hide Pow2;
    assert KraftTo(L, d, 1) == KraftTo(L, d, 0) + Pow2(L - d[0]);
    Half(L);
    Pow2Monotone(L - d[0], L - 1);
    Pow2Monotone(L - d[1], L - 1);
    if L > 1 {
      Half(L - 1);
      if d[0] > 1 {
        Pow2Monotone(L - d[0], L - 2);
      }
      if d[1] > 1 {
        Pow2Monotone(L - d[1], L - 2);
      }
    }
  }

  lemma Half(L: nat)
    requires L >= 1
    ensures Pow2(L) == 2 * Pow2(L - 1)
  {
  }

  /** Two symbols get one bit each. */
  lemma PairSelected(lens: seq<nat>, index: seq<nat>, freq: seq<nat>, L: nat)
    requires L >= 1 && IndexOf(index, freq) && |index| == 2 <= Pow2(L) && Selected(lens, index, freq, L)
    ensures lens[index[0]] == lens[index[1]] == 1
  {
    hide List, Depths, KraftTo, Sorted;
    var d := Gather(lens, index);
    SelectionIsComplete(Gather(freq, index), L);
    PairDepths(L, d);
    assert d[0] == lens[index[0]] && d[1] == lens[index[1]];
  }

  lemma KraftOfPair(L: nat)
    requires L >= 1
    ensures KraftTo(L, [1, 1], 2) == Pow2(L)
  {
    assert KraftTo(L, [1, 1], 1) == KraftTo(L, [1, 1], 0) + Pow2(L - 1);
  }

  lemma DotOfPair(f: seq<nat>, d: seq<nat>)
    requires |f| == |d| == 2
    ensures DotTo(f, d, 2) == f[0] * d[0] + f[1] * d[1]
  {
    assert DotTo(f, d, 1) == DotTo(f, d, 0) + f[0] * d[0];
  }

  lemma TimesAtLeast(x: nat, n: nat)
    requires x > 0 ==> n > 0
    ensures x <= x * n
  {
    if x > 0 {
      assert x * n == x * (n - 1) + x;
    }
  }

  lemma PairCost(f: seq<nat>, d: seq<nat>)
    requires |f| == |d| == 2 && forall k | 0 <= k < 2 :: f[k] > 0 ==> d[k] > 0
    ensures DotTo(f, [1, 1], 2) <= DotTo(f, d, 2)
  {
    DotOfPair(f, [1, 1]);
    DotOfPair(f, d);
    TimesAtLeast(f[0], d[0]);
    TimesAtLeast(f[1], d[1]);
  }

  lemma CostTermsUsed(freq: seq<nat>, lens: seq<nat>)
    requires |freq| == |lens|
    ensures forall s | 0 <= s < |freq| && CostTerms(freq, lens)[s] > 0 :: freq[s] > 0
  {
    forall s | 0 <= s < |freq| && freq[s] == 0
      ensures CostTerms(freq, lens)[s] == 0
    {
      assert 0 * lens[s] == 0;
    }
  }

  lemma CostThroughIndex(freq: seq<nat>, lens: seq<nat>, index: seq<nat>)
    requires IndexOf(index, freq) && |lens| == |freq|
    ensures CostTo(freq, lens, |freq|) == DotTo(Gather(freq, index), Gather(lens, index), |index|)
  {
    hide CostTo, DotTo, CostTerms, Sorted;
    CostOfIndex(freq, lens, index, |index|);
    CostIsSum(freq, lens, |lens|);
    CostTermsUsed(freq, lens);
    SumGather(CostTerms(freq, lens), index);
  }

  // ---- the class

  /** An item of a list: a symbol, or -1 - k for the package made of items k and k + 1 of the list before. */
  datatype Coin = Coin(tag: int, cost: nat)

  /** list is list i of the construction, with tags that name its symbols and packages. */
  ghost predicate IsList(list: seq<Coin>, index: seq<nat>, f: Costs, i: nat)
    requires |index| == |f|
  {
    |list| == |List(f, i)| && Begins(list, index, f, i)
  }

  /** The list is list i up to its length. */
  ghost predicate Begins(list: seq<Coin>, index: seq<nat>, f: Costs, i: nat)
    requires |index| == |f|
  {
    && |list| <= |List(f, i)|
    && forall j | 0 <= j < |list| :: list[j] == CoinAt(index, f, i, j)
  }

  ghost function CoinAt(index: seq<nat>, f: Costs, i: nat, j: nat): Coin
    requires |index| == |f| && j < |List(f, i)|
  {
    if i == 0 then Coin(index[j], f[j])
    else
      var q := Packages(List(f, i - 1));
      var a := Cut(f, q, j);
      Coin(if TakesLeaf(f, q, a, j - a) then index[a] else -1 - 2 * (j - a), MergedAt(f, q, j))
  }

  predicate InBounds(index: seq<nat>, n: nat) {
    forall k | 0 <= k < |index| :: index[k] < n
  }

  /** Where x is inserted in front of the symbols that occur more often, looked for from j down. */
  function InsertPlace(sorted: seq<nat>, bucket: seq<nat>, x: nat, j: nat): (r: nat)
    requires j <= |sorted| && x < |bucket| && InBounds(sorted, |bucket|)
    ensures r <= j
  {
    if j > 0 && bucket[x] < bucket[sorted[j - 1]] then InsertPlace(sorted, bucket, x, j - 1) else j
  }

  function InsertAt(sorted: seq<nat>, j: nat, x: nat): seq<nat>
    requires j <= |sorted|
  {
    sorted[..j] + [x] + sorted[j..]
  }

  /** The stable insertion sort; symbols without a frequency are dropped. */
  function InsertionSort(index: seq<nat>, bucket: seq<nat>): (sorted: seq<nat>)
    ensures InBounds(sorted, |bucket|)
  {
    if index == [] then []
    else
      var sorted, x := InsertionSort(index[..|index| - 1], bucket), index[|index| - 1];
      if x >= |bucket| then sorted
      else
        var j := InsertPlace(sorted, bucket, x, |sorted|);
        assert InBounds(InsertAt(sorted, j, x), |bucket|);
        InsertAt(sorted, j, x)
  }

  /** Insertion sort is one of the sorts the construction may be given. */
  lemma InsertionSortSorts()
    ensures Sorts(Sorter(InsertionSort))
  {
    forall index: seq<nat>, freq: seq<nat> | Distinct(index, |freq|)
      ensures SortedBy(SortWith(Sorter(InsertionSort), index, freq), index, freq)
    {
      InsertionSorted(index, freq);
    }
  }

  lemma {:induction false} InsertionSorted(index: seq<nat>, bucket: seq<nat>)
    requires Distinct(index, |bucket|)
    ensures SortedBy(InsertionSort(index, bucket), index, bucket)
  {
    if index == [] {
      NothingSorted(bucket);
    } else {
      DistinctInit(index, |bucket|);
      hide InsertPlace, SortedBy, Distinct, InsertAt;
      InsertionSorted(index[..|index| - 1], bucket);
      InsertStep(bucket, index, |index| - 1, InsertionSort(index[..|index| - 1], bucket));
      assert index[..|index|] == index;
    }
  }

  lemma NothingSorted(bucket: seq<nat>)
    ensures SortedBy([], [], bucket)
  {
  }

  lemma DistinctInit(index: seq<nat>, n: nat)
    requires index != [] && Distinct(index, n)
    ensures Distinct(index[..|index| - 1], n) && index[|index| - 1] < n
  {
  }

  lemma {:induction false} PlaceFound(sorted: seq<nat>, bucket: seq<nat>, x: nat, j: nat)
    requires j <= |sorted| && x < |bucket| && InBounds(sorted, |bucket|)
    ensures var r := InsertPlace(sorted, bucket, x, j);
            && (r > 0 ==> bucket[sorted[r - 1]] <= bucket[x])
            && forall k | r <= k < j :: bucket[x] < bucket[sorted[k]]
  {
    if j > 0 && bucket[x] < bucket[sorted[j - 1]] {
      PlaceFound(sorted, bucket, x, j - 1);
    }
  }

  /** One more symbol keeps the symbols so far sorted. */
  lemma InsertStep(bucket: seq<nat>, index: seq<nat>, i: nat, sorted: seq<nat>)
    requires i < |index| && Distinct(index, |bucket|) && SortedBy(sorted, index[..i], bucket)
    requires InBounds(sorted, |bucket|)
    ensures var j := InsertPlace(sorted, bucket, index[i], |sorted|);
            SortedBy(InsertAt(sorted, j, index[i]), index[..i + 1], bucket)
  {
    hide Sorted, Gather, InsertPlace, InsertAt;
    var x := index[i];
    var j := InsertPlace(sorted, bucket, x, |sorted|);
    NotYet(index, |bucket|, i, sorted, bucket);
    PlaceFound(sorted, bucket, x, |sorted|);
    InsertSorted(bucket, sorted, j, x);
    hide Distinct;
    OneMoreIn(index, i);
  }

  lemma OneMoreIn(index: seq<nat>, i: nat)
    requires i < |index|
    ensures forall s :: s in index[..i + 1] <==> s in index[..i] || s == index[i]
  {
    assert index[..i + 1] == index[..i] + [index[i]];
  }

  lemma NotYet(index: seq<nat>, n: nat, i: nat, sorted: seq<nat>, bucket: seq<nat>)
    requires i < |index| && Distinct(index, n) && SortedBy(sorted, index[..i], bucket)
    ensures index[i] !in sorted
  {
    hide Sorted;
    assert forall k | 0 <= k < i :: index[..i][k] != index[i];
  }

  /** The insertion sort in place of the library's sort. */
  method SortByFrequency(index: seq<nat>, bucket: seq<nat>) returns (sorted: seq<nat>)
    requires Distinct(index, |bucket|)
    ensures sorted == InsertionSort(index, bucket) && SortedBy(sorted, index, bucket)
  {
    InsertionSorted(index, bucket);
    assert InBounds(index, |bucket|);
    hide SortedBy, Distinct, InsertPlace, InsertAt;
    sorted := [];
    for i := 0 to |index|
      invariant sorted == InsertionSort(index[..i], bucket)
    {
      var x := index[i];
      var j := |sorted|;
      PlaceStep(sorted, bucket, x, j);
      while j > 0 && bucket[x] < bucket[sorted[j - 1]]
        invariant 0 <= j <= |sorted|
        invariant InsertPlace(sorted, bucket, x, j) == InsertPlace(sorted, bucket, x, |sorted|)
      {
        PlaceStep(sorted, bucket, x, j);
        j := j - 1;
      }
      PlaceStep(sorted, bucket, x, j);
      assert index[..i + 1][..i] == index[..i];
      sorted := InsertAt(sorted, j, x);
    }
    assert index[..|index|] == index;
  }

  lemma PlaceStep(sorted: seq<nat>, bucket: seq<nat>, x: nat, j: nat)
    requires j <= |sorted| && x < |bucket| && InBounds(sorted, |bucket|)
    ensures InsertPlace(sorted, bucket, x, j)
         == if j > 0 && bucket[x] < bucket[sorted[j - 1]] then InsertPlace(sorted, bucket, x, j - 1) else j
  {
  }

  lemma InsertDistinct(sorted: seq<nat>, n: nat, j: nat, x: nat)
    requires Distinct(sorted, n) && j <= |sorted| && x < n && x !in sorted
    ensures var r := sorted[..j] + [x] + sorted[j..];
            Distinct(r, n) && forall s :: s in r <==> s in sorted || s == x
  {
    assert sorted == sorted[..j] + sorted[j..];
  }

  lemma InsertSorted(bucket: seq<nat>, sorted: seq<nat>, j: nat, x: nat)
    requires Distinct(sorted, |bucket|) && Sorted(Gather(bucket, sorted)) && j <= |sorted|
    requires x < |bucket| && x !in sorted
    requires j > 0 ==> bucket[sorted[j - 1]] <= bucket[x]
    requires forall k | j <= k < |sorted| :: bucket[x] < bucket[sorted[k]]
    ensures var r := InsertAt(sorted, j, x);
            && Distinct(r, |bucket|) && |r| == |sorted| + 1 && Sorted(Gather(bucket, r))
            && forall s :: s in r <==> s in sorted || s == x
  {
    var r := sorted[..j] + [x] + sorted[j..];
    InsertDistinct(sorted, |bucket|, j, x);
    hide Distinct;
    forall a, b | 0 <= a <= b < |r|
      ensures bucket[r[a]] <= bucket[r[b]]
    {
      var g := Gather(bucket, sorted);
      if a < j && j > 0 {
        assert g[a] <= g[j - 1];
      }
      if b < j {
        assert g[a] <= g[b];
      } else if a > j {
        assert g[a - 1] <= g[b - 1];
      }
    }
  }

  lemma SizeAtLeast(used: nat, n: nat)
    requires used >= 1
    ensures IndexSize(used, n) >= 1
  {
  }

  lemma NoneUsed(freq: seq<nat>)
    ensures UsedIn(freq, 0) == [] && PositiveTo(freq, 0) == 0
  {
  }

  lemma UsedOne(freq: seq<nat>, k: nat)
    requires k < |freq|
    ensures UsedIn(freq, k + 1) == if freq[k] > 0 then UsedIn(freq, k) + [k] else UsedIn(freq, k)
    ensures PositiveTo(freq, k + 1) == PositiveTo(freq, k) + if freq[k] > 0 then 1 else 0
  {
  }

  /** The symbols below k that occur, each once and in order. */
  lemma {:induction false} AllUsed(freq: seq<nat>, k: nat)
    requires k <= |freq|
    ensures |UsedIn(freq, k)| == PositiveTo(freq, k)
    ensures forall j | 0 <= j < |UsedIn(freq, k)| :: UsedIn(freq, k)[j] < k && freq[UsedIn(freq, k)[j]] > 0
    ensures forall i, j | 0 <= i < j < |UsedIn(freq, k)| :: UsedIn(freq, k)[i] < UsedIn(freq, k)[j]
  {
    hide UsedIn, PositiveTo;
    NoneUsed(freq);
    if k > 0 {
      AllUsed(freq, k - 1);
      UsedOne(freq, k - 1);
    }
  }

  lemma {:induction false} UsedMember(freq: seq<nat>, k: nat, s: nat)
    requires s < k <= |freq| && freq[s] > 0
    ensures s in UsedIn(freq, k)
  {
    hide UsedIn;
    UsedOne(freq, k - 1);
    if s < k - 1 {
      UsedMember(freq, k - 1, s);
    }
  }

  /** How many symbols the index holds when used of n occur. */
  function IndexSize(used: nat, n: nat): nat {
    if used < 2 && n >= 2 then 2 else used
  }

  /** index is used and the unused symbols below i. */
  ghost predicate Filled(index: seq<nat>, used: seq<nat>, bucket: seq<nat>, i: nat) {
    && Distinct(index, |bucket|) && used <= index
    && (forall k | |used| <= k < |index| :: index[k] < i)
    && forall t | 0 <= t < i :: t in index
  }

  lemma NothingFilled(used: seq<nat>, bucket: seq<nat>)
    requires Distinct(used, |bucket|)
    ensures Filled(used, used, bucket, 0) && PositiveTo(bucket, 0) == 0
    ensures forall k | 0 <= k < |used| :: used[k] < |bucket|
  {
  }

  lemma FillStep(index: seq<nat>, used: seq<nat>, bucket: seq<nat>, i: nat)
    requires i < |bucket| && Filled(index, used, bucket, i)
    requires forall k | 0 <= k < |used| :: used[k] < |bucket| && bucket[used[k]] > 0
    requires forall s | 0 <= s < |bucket| && bucket[s] > 0 :: s in used
    ensures Filled(if bucket[i] == 0 then index + [i] else index, used, bucket, i + 1)
    ensures PositiveTo(bucket, i + 1) == PositiveTo(bucket, i) + (if bucket[i] == 0 then 0 else 1)
  {
    hide Distinct;
    if bucket[i] != 0 {
      assert i in used;
      var k :| 0 <= k < |used| && used[k] == i;
      assert index[k] == i;
    } else {
      forall k | 0 <= k < |index|
        ensures index[k] != i
      {
        assert k < |used| ==> index[k] == used[k];
      }
      DistinctSnoc(index, |bucket|, i);
    }
  }

  lemma DistinctSnoc(index: seq<nat>, n: nat, x: nat)
    requires Distinct(index, n) && x < n && forall k | 0 <= k < |index| :: index[k] != x
    ensures Distinct(index + [x], n)
    ensures x in index + [x] && forall t | t in index :: t in index + [x]
  {
    assert (index + [x])[|index|] == x;
  }

  lemma FilledUp(index: seq<nat>, used: seq<nat>, bucket: seq<nat>, i: nat)
    requires i <= |bucket| && Filled(index, used, bucket, i)
    requires forall k | 0 <= k < |used| :: used[k] < |bucket| && bucket[used[k]] > 0
    ensures Distinct(index, |bucket|) && used <= index
    ensures forall s, t | s in index && 0 <= t < s < |bucket| && bucket[s] == 0 :: t in index
  {
    forall k | 0 <= k < |used|
      ensures index[k] < |bucket| && bucket[index[k]] > 0
    {
      assert index[k] == used[k];
    }
    forall s, t | s in index && 0 <= t < s < |bucket| && bucket[s] == 0
      ensures t in index
    {
      var k :| 0 <= k < |index| && index[k] == s;
      assert k >= |used|;
    }
  }

  class HuffmanTree {
    const maxCode: nat    // m_max_code
    const maxLen: nat     // m_max_len
    var bucket: seq<nat>  // m_bucket
    var dep: seq<nat>     // m_dep
    var code: seq<nat>    // m_code

    ghost predicate Valid()
      reads this
    {
      1 <= maxLen <= 64 && |bucket| == |dep| == |code| == maxCode
    }

    /** Every symbol with a depth holds its canonical code. */
    ghost predicate Coded()
      reads this
    {
      Valid() && forall s | 0 <= s < maxCode && dep[s] > 0 :: code[s] == Canonical.Code(dep, s)
    }

    constructor (maxCode: nat, maxLen: nat)
      requires 1 <= maxLen <= 64
      ensures Valid() && this.maxCode == maxCode && this.maxLen == maxLen
    {
      this.maxCode, this.maxLen := maxCode, maxLen;
      bucket := seq(maxCode, _ => 0);
      dep := seq(maxCode, _ => 0);
      code := seq(maxCode, _ => 0);
    }

    /** Builds the code for a source; an empty source is an error. The depths are complete, at most maxLen, and
        optimal under that limit. A source with one symbol gets a second one, so that both have depth 1; with
        no other symbol in the alphabet it gets depth 0. sort is the library's sort. */
    method Calculate(src: seq<nat>, sort: Sorter) returns (lens: Option<seq<nat>>)
      requires Valid() && Sorts(sort)
      requires forall x | x in src :: x < maxCode
      requires PositiveTo(Frequencies(src, maxCode), maxCode) <= Pow2(maxLen)
      modifies this
      ensures Valid()
      ensures src == [] ==> lens == None && bucket == old(bucket) && dep == old(dep) && code == old(code)
      ensures src != [] ==> Coded() && lens == Some(dep)
      ensures src != [] && maxCode >= 2 ==> Feasible(Frequencies(src, maxCode), dep, maxLen)
      ensures src != [] && maxCode >= 2 ==> Canonical.Kraft(dep, maxLen, maxCode) == Pow2(maxLen)
      ensures src != [] && maxCode >= 2 ==> Optimal(Frequencies(src, maxCode), dep, maxLen)
      ensures src != [] && maxCode >= 2 ==> OnlyFor(src, dep)
      ensures src != [] && maxCode == 1 ==> dep == [0]
      ensures src != [] ==> DepthsBy(sort, dep, Frequencies(src, maxCode), maxLen)
    {
      hide Canonical.Kraft, PositiveTo, Feasible, Optimal, OnlyFor, Sorted, Selected, Pow2, IsList, IndexOf, Gather,
        Distinct, IndexFor, Frequencies, SortedBy, Sorts, DepthsBy, UsedIndex, SortWith, HuffmanTree.Coded;
      if src == [] {
        return None;
      }
      CountSymbols(src);
      SomeUsed(src, maxCode);
      ghost var index := BuildDepths(sort);
      CalculatedFacts(sort, dep, index, src, bucket, maxCode, maxLen);
      AssignCodes();
      lens := Some(dep);
    }

    /** The depths of the symbols counted. */
    method BuildDepths(sort: Sorter) returns (ghost sorted: seq<nat>)
      requires Valid() && Sorts(sort) && 1 <= PositiveTo(bucket, maxCode) <= Pow2(maxLen)
      modifies this`dep
      ensures Valid() && bucket == old(bucket)
      ensures sorted == SortWith(sort, IndexFor(bucket), bucket) && IndexOf(sorted, bucket)
      ensures UsedIndex(sorted, bucket) && |sorted| <= Pow2(maxLen)
      ensures Selected(dep, sorted, bucket, maxLen)
    {
      hide PositiveTo, Selected, Pow2, IsList, IndexOf, Gather, IndexFor, Sorts, SortWith, UsedIndex;
      var index := SortedIndex(sort);
      sorted := index;
      assert 2 <= Pow2(maxLen) by {
        Pow2Monotone(1, maxLen);
        Pow2Values();
      }
      var lists := BuildLists(index);
      SelectDepths(lists, index);
    }

    /** The index of the symbols in use, sorted by frequency. */
    method SortedIndex(sort: Sorter) returns (index: seq<nat>)
      requires Valid() && Sorts(sort) && PositiveTo(bucket, maxCode) >= 1
      ensures index == SortWith(sort, IndexFor(bucket), bucket) && IndexOf(index, bucket) && UsedIndex(index, bucket)
      ensures |index| == IndexSize(PositiveTo(bucket, maxCode), maxCode)
    {
      hide PositiveTo, IndexOf, IndexFor, SortedBy, IndexSize;
      var unsorted := BuildIndex();
      index := SortWith(sort, unsorted, bucket);
      SizeAtLeast(PositiveTo(bucket, maxCode), maxCode);
      IsIndex(index, unsorted, bucket);
    }

    method CountSymbols(src: seq<nat>)
      requires Valid() && forall x | x in src :: x < maxCode
      modifies this`bucket
      ensures Valid() && bucket == Frequencies(src, maxCode)
    {
      bucket := seq(maxCode, _ => 0);
      for i := 0 to |src|
        invariant |bucket| == maxCode
        invariant bucket == Frequencies(src[..i], maxCode)
      {
        assert src[i] in src && src[..i + 1] == src[..i] + [src[i]];
        bucket := bucket[src[i] := bucket[src[i]] + 1];
      }
      assert src[..|src|] == src;
    }

    /** The symbols in use, filled up to two with the lowest unused ones. */
    method BuildIndex() returns (index: seq<nat>)
      requires Valid() && PositiveTo(bucket, maxCode) >= 1
      ensures index == IndexFor(bucket) && Distinct(index, maxCode)
      ensures forall s | 0 <= s < maxCode && bucket[s] > 0 :: s in index
      ensures |index| == IndexSize(PositiveTo(bucket, maxCode), maxCode)
      ensures (forall k | 0 <= k < |index| :: bucket[index[k]] > 0) || |index| == 2
      ensures PositiveTo(bucket, maxCode) >= 2 ==> forall s | s in index :: s < maxCode && bucket[s] > 0
      ensures forall s, t | s in index && 0 <= t < s < maxCode && bucket[s] == 0 :: t in index
    {
      index := UsedSymbols();
      index := FillIndex(index);
    }

    method UsedSymbols() returns (index: seq<nat>)
      requires Valid()
      ensures index == UsedIn(bucket, maxCode)
      ensures Distinct(index, maxCode) && |index| == PositiveTo(bucket, maxCode)
      ensures forall s | 0 <= s < maxCode && bucket[s] > 0 :: s in index
      ensures forall k | 0 <= k < |index| :: bucket[index[k]] > 0
    {
      hide UsedIn, PositiveTo;
      index := [];
      NoneUsed(bucket);
      for i := 0 to maxCode
        invariant index == UsedIn(bucket, i)
      {
        UsedOne(bucket, i);
        if bucket[i] != 0 {
          index := index + [i];
        }
      }
      AllUsed(bucket, maxCode);
      forall s | 0 <= s < maxCode && bucket[s] > 0
        ensures s in index
      {
        UsedMember(bucket, maxCode, s);
      }
    }

    method FillIndex(used: seq<nat>) returns (index: seq<nat>)
      requires Valid() && Distinct(used, maxCode) && |used| == PositiveTo(bucket, maxCode) >= 1
      requires forall k | 0 <= k < |used| :: bucket[used[k]] > 0
      requires forall s | 0 <= s < maxCode && bucket[s] > 0 :: s in used
      ensures Distinct(index, maxCode) && used <= index
      ensures forall s, t | s in index && 0 <= t < s < maxCode && bucket[s] == 0 :: t in index
      ensures index == FillFrom(bucket, used, 0)
      ensures |used| >= 2 ==> index == used
      ensures |index| == IndexSize(|used|, maxCode)
    {
      hide PositiveTo, Distinct, Filled;
      index := used;
      var i := 0;
      NothingFilled(used, bucket);
      assert |bucket| == maxCode;
      while i < maxCode && |index| < 2
        invariant i <= maxCode && Filled(index, used, bucket, i)
        invariant FillFrom(bucket, index, i) == FillFrom(bucket, used, 0)
        invariant |index| == |used| + i - PositiveTo(bucket, i)
        invariant |index| <= 2 || index == used
      {
        FillStep(index, used, bucket, i);
        if bucket[i] == 0 {
          index := index + [i];
        }
        i := i + 1;
      }
      FilledUp(index, used, bucket, i);
    }

    method BuildLists(index: seq<nat>) returns (lists: seq<seq<Coin>>)
      requires Valid() && IndexOf(index, bucket)
      ensures |lists| == maxLen
      ensures forall i | 0 <= i < maxLen :: IsList(lists[i], index, Gather(bucket, index), i)
    {
      hide List, Sorted;
      lists := [];
      for i := 0 to maxLen
        invariant |lists| == i
        invariant forall k | 0 <= k < i :: IsList(lists[k], index, Gather(bucket, index), k)
      {
        var list;
        if i == 0 {
          list := LeafList(index);
        } else {
          list := MergedList(index, lists[i - 1], i);
        }
        lists := lists + [list];
      }
    }

    method LeafList(index: seq<nat>) returns (list: seq<Coin>)
      requires Valid() && IndexOf(index, bucket)
      ensures IsList(list, index, Gather(bucket, index), 0)
    {
      list := [];
      for j := 0 to |index|
        invariant |list| == j
        invariant forall k | 0 <= k < j :: list[k] == Coin(index[k], bucket[index[k]])
      {
        list := list + [Coin(index[j], bucket[index[j]])];
      }
    }

    /** Merges the leaves with the packages of the previous list. */
    method MergedList(index: seq<nat>, prev: seq<Coin>, ghost i: nat) returns (list: seq<Coin>)
      requires Valid() && IndexOf(index, bucket)
      requires i > 0 && IsList(prev, index, Gather(bucket, index), i - 1)
      ensures IsList(list, index, Gather(bucket, index), i)
    {
      hide Sorted, Cut, TakesLeaf, Packages, CoinAt, List, Begins;
      ghost var f := Gather(bucket, index);
      ghost var q := Packages(List(f, i - 1));
      ListStep(f, i);
      ListSize(prev, index, f, i - 1);
      NothingMerged(index, f, i);
      list := [];
      var lastP := 0;
      var j := 0;
      while j <= |index|
        invariant 0 <= j <= |index| + 1
        invariant lastP % 2 == 0 && lastP / 2 <= |q|
        invariant j <= |index| ==> |list| == j + lastP / 2 && Cut(f, q, |list|) == j
        invariant j == |index| + 1 ==> |list| == |f| + |q|
        invariant Begins(list, index, f, i)
      {
        while lastP + 1 < |prev|
              && (j == |index| || prev[lastP].cost + prev[lastP + 1].cost < bucket[index[j]])
          invariant lastP % 2 == 0 && lastP / 2 <= |q|
          invariant |list| == j + lastP / 2 && Cut(f, q, |list|) == j
          invariant Begins(list, index, f, i)
          decreases |prev| - lastP
        {
          PackageCost(prev, index, f, i - 1, lastP / 2);
          PackageNext(index, f, i, j, lastP / 2);
          var coin := Coin(-1 - lastP, prev[lastP].cost + prev[lastP + 1].cost);
          BeginsSnoc(list, coin, index, f, i);
          list := list + [coin];
          lastP := lastP + 2;
        }
        if j < |index| {
          if lastP / 2 < |q| {
            PackageCost(prev, index, f, i - 1, lastP / 2);
          }
          LeafNext(index, f, i, j, lastP / 2);
          BeginsSnoc(list, Coin(index[j], bucket[index[j]]), index, f, i);
          list := list + [Coin(index[j], bucket[index[j]])];
        }
        j := j + 1;
      }
    }

    /** Counts, from the last list down, how many selected coins each symbol owns. */
    method SelectDepths(lists: seq<seq<Coin>>, index: seq<nat>)
      requires Valid() && IndexOf(index, bucket) && |index| <= Pow2(maxLen)
      requires |lists| == maxLen
      requires forall i | 0 <= i < maxLen :: IsList(lists[i], index, Gather(bucket, index), i)
      modifies this`dep
      ensures Valid() && Selected(dep, index, bucket, maxLen)
      ensures bucket == old(bucket) && code == old(code)
    {
      hide Sorted, List, Depths, Leaves, Pow2, IsList, IndexOf, Selected, Gather;
      IndexBounds(index, bucket);
      ghost var f := Gather(bucket, index);
      dep := seq(maxCode, _ => 0);
      var bound: nat := 2 * (|index| - 1);
      SelectionFits(f, maxLen);
      ghost var total := Depths(f, maxLen - 1, bound);
      ghost var rest := total;
      var i := maxLen;
      while i > 0
        invariant 0 <= i <= maxLen && |dep| == maxCode
        invariant i > 0 ==> bound <= |List(f, i - 1)| && rest == Depths(f, i - 1, bound)
        invariant i == 0 ==> rest == seq(|f|, _ => 0)
        invariant |rest| == |f|
        invariant forall k | 0 <= k < |index| :: dep[index[k]] + rest[k] == total[k]
        invariant forall s | 0 <= s < maxCode && s !in index :: dep[s] == 0
      {
        i := i - 1;
        DepthsStep(f, i, bound);
        ghost var a := Leaves(f, i, bound);
        rest := if i > 0 then Depths(f, i - 1, 2 * (bound - a)) else seq(|f|, _ => 0);
        ListSize(lists[i], index, f, i);
        bound := SelectFrom(lists[i], bound, index, i);
      }
      IsSelected(dep, index, bucket, maxLen, total);
    }

    /** Counts the leaves among the first bound items of one list; returns how many items of the
        list before its packages cover. */
    method SelectFrom(list: seq<Coin>, bound: nat, index: seq<nat>, ghost i: nat) returns (newBound: nat)
      requires Valid() && IndexOf(index, bucket)
      requires IsList(list, index, Gather(bucket, index), i) && bound <= |list|
      modifies this`dep
      ensures Valid()
      ensures newBound == 2 * (bound - Leaves(Gather(bucket, index), i, bound))
      ensures forall k | 0 <= k < |index| ::
                dep[index[k]] == old(dep)[index[k]] + (if k < Leaves(Gather(bucket, index), i, bound) then 1 else 0)
      ensures forall s | 0 <= s < maxCode && s !in index :: dep[s] == old(dep)[s]
    {
      hide Sorted, List, Packages, MergedAt, TakesLeaf, Leaves;
      ghost var f := Gather(bucket, index);
      newBound := 0;
      assert Leaves(f, i, 0) == 0 by { LeavesNone(f, i); }
      for j := 0 to bound
        invariant |dep| == maxCode
        invariant newBound == 2 * (j - Leaves(f, i, j))
        invariant forall k | 0 <= k < |index| ::
                    dep[index[k]] == old(dep)[index[k]] + (if k < Leaves(f, i, j) then 1 else 0)
        invariant forall s | 0 <= s < maxCode && s !in index :: dep[s] == old(dep)[s]
      {
        LeavesStep(index, f, i, j);
        if list[j].tag >= 0 {
          dep := dep[list[j].tag := dep[list[j].tag] + 1];
        } else {
          newBound := 1 - list[j].tag;
        }
      }
    }

    /** The canonical codes of the depths (section 3.2.2 of RFC 1951). */
    method AssignCodes()
      requires Valid() && forall s | 0 <= s < maxCode :: dep[s] <= maxLen
      modifies this`code
      ensures Valid() && Coded()
    {
      hide Canonical.NextCode, Canonical.CodeBits, Canonical.Code;
      var blCount := CountLengths();
      var startCode := StartCodes(blCount);
      for i := 0 to maxCode
        invariant |startCode| == maxLen + 1 && |code| == maxCode
        invariant forall l | 1 <= l <= maxLen ::
                    startCode[l] == Canonical.NextCode(dep, l, maxCode) + Canonical.Count(dep, l, i)
        invariant forall s | 0 <= s < i && dep[s] > 0 :: code[s] == Canonical.Code(dep, s)
      {
        Canonical.CodeValue(dep, i);
        if dep[i] != 0 {
          code := code[i := startCode[dep[i]]];
          startCode := startCode[dep[i] := startCode[dep[i]] + 1];
        }
      }
    }

    method CountLengths() returns (blCount: seq<nat>)
      requires Valid() && forall s | 0 <= s < maxCode :: dep[s] <= maxLen
      ensures |blCount| == maxLen + 1
      ensures forall l | 0 <= l <= maxLen :: blCount[l] == Canonical.BlCount(dep, l, maxCode)
    {
      blCount := seq(maxLen + 1, _ => 0);
      for i := 0 to maxCode
        invariant |blCount| == maxLen + 1
        invariant forall l | 0 <= l <= maxLen :: blCount[l] == Canonical.BlCount(dep, l, i)
      {
        if dep[i] != 0 {
          blCount := blCount[dep[i] := blCount[dep[i]] + 1];
        }
      }
    }

    method StartCodes(blCount: seq<nat>) returns (startCode: seq<nat>)
      requires Valid() && |blCount| == maxLen + 1
      requires forall l | 0 <= l <= maxLen :: blCount[l] == Canonical.BlCount(dep, l, maxCode)
      ensures |startCode| == maxLen + 1
      ensures forall l | 0 <= l <= maxLen :: startCode[l] == Canonical.NextCode(dep, l, maxCode)
    {
      hide Canonical.BlCount, Canonical.Count, ShiftLeft, Canonical.NextCode;
      var next := 0;
      NextStart(dep, 0, maxCode);
      startCode := seq(maxLen + 1, _ => 0);
      for level := 1 to maxLen + 1
        invariant |startCode| == maxLen + 1
        invariant next == Canonical.NextCode(dep, level - 1, maxCode)
        invariant forall l | 0 <= l < level :: startCode[l] == Canonical.NextCode(dep, l, maxCode)
      {
        ShiftLeftOne(next + blCount[level - 1]);
        NextStart(dep, level, maxCode);
        next := ShiftLeft(next + blCount[level - 1], 1);
        startCode := startCode[level := next];
      }
    }

    function Encode(x: nat): (nat, nat)
      requires Valid() && x < maxCode
      reads this
    {
      (code[x], dep[x])
    }

    /** Writes the code of a symbol, most significant bit first. */
    method WriteToBs(bs: BitStream, x: nat)
      requires Coded() && x < maxCode && dep[x] <= 31
      requires bs.Valid()
      modifies bs
      ensures bs.Valid()
      ensures bs.Content() == old(bs.Content()) + Canonical.CodeBits(dep, x)
    {
      var (payload, n) := Encode(x);
      bs.WriteBits(payload, n, false);
    }

    /** The largest symbol that has a code, or -1. */
    method GetLastCode() returns (last: int)
      requires Valid()
      ensures -1 <= last < maxCode
      ensures last >= 0 ==> dep[last] > 0
      ensures forall s | last < s < maxCode :: dep[s] == 0
    {
      last := maxCode - 1;
      while last >= 0
        invariant -1 <= last < maxCode
        invariant forall s | last < s < maxCode :: dep[s] == 0
      {
        if dep[last] != 0 {
          return;
        }
        last := last - 1;
      }
    }
  }

  lemma IsIndex(sorted: seq<nat>, index: seq<nat>, freq: seq<nat>)
    requires SortedBy(sorted, index, freq) && index != []
    requires forall s | 0 <= s < |freq| && freq[s] > 0 :: s in index
    ensures IndexOf(sorted, freq) && |sorted| == |index| && forall s :: s in sorted <==> s in index
    ensures (forall k | 0 <= k < |index| :: index[k] < |freq| && freq[index[k]] > 0)
        ==> forall k | 0 <= k < |sorted| :: freq[sorted[k]] > 0
  {
    if forall k | 0 <= k < |index| :: index[k] < |freq| && freq[index[k]] > 0 {
      forall k | 0 <= k < |sorted|
        ensures freq[sorted[k]] > 0
      {
        assert sorted[k] in index;
      }
    }
  }

  lemma IsDepths(sort: Sorter, lens: seq<nat>, freq: seq<nat>, L: nat)
    requires var index := SortWith(sort, IndexFor(freq), freq);
             IndexOf(index, freq) && Selected(lens, index, freq, L)
    ensures DepthsBy(sort, lens, freq, L)
  {
    hide IndexOf, Selected, IndexFor;
  }

  /** index holds the symbols that occur, or two with the lowest of the others. */
  ghost predicate UsedIndex(index: seq<nat>, freq: seq<nat>) {
    && ((forall k | 0 <= k < |index| :: index[k] < |freq| && freq[index[k]] > 0) || |index| == 2)
    && |index| == IndexSize(PositiveTo(freq, |freq|), |freq|)
    && (PositiveTo(freq, |freq|) >= 2 ==> forall s | s in index :: s < |freq| && freq[s] > 0)
    && forall s, t | s in index && 0 <= t < s < |freq| && freq[s] == 0 :: t in index
  }

  lemma CalculatedFacts(sort: Sorter, lens: seq<nat>, index: seq<nat>, src: seq<nat>,
                        freq: seq<nat>, n: nat, L: nat)
    requires freq == Frequencies(src, n) && src != [] && forall x | x in src :: x < n
    requires index == SortWith(sort, IndexFor(freq), freq)
    requires L >= 1 && IndexOf(index, freq) && |index| <= Pow2(L)
    requires Selected(lens, index, freq, L) && UsedIndex(index, freq)
    ensures DepthsBy(sort, lens, Frequencies(src, n), L)
    ensures |lens| == n && forall s | 0 <= s < n :: lens[s] <= L
    ensures n >= 2 ==> Feasible(Frequencies(src, n), lens, L) && Canonical.Kraft(lens, L, n) == Pow2(L)
    ensures n >= 2 ==> Optimal(Frequencies(src, n), lens, L) && OnlyFor(src, lens)
    ensures n == 1 ==> lens == [0]
  {
    hide Canonical.Kraft, Feasible, Optimal, OnlyFor, Sorted, Selected, Pow2, Gather, Distinct, IndexFor, DepthsBy,
      Frequencies;
    SomeUsed(src, n);
    IsDepths(sort, lens, Frequencies(src, n), L);
    if n >= 2 {
      SelectedFacts(lens, index, src, n, L);
    } else {
      SomeSymbol(src, n);
      LoneDepth(lens, index, Frequencies(src, n), L);
    }
  }

  lemma SomeSymbol(src: seq<nat>, n: nat)
    requires src != [] && forall x | x in src :: x < n
    ensures n >= 1
  {
    assert src[0] in src;
  }

  lemma SomeUsed(src: seq<nat>, n: nat)
    requires src != [] && forall x | x in src :: x < n
    ensures PositiveTo(Frequencies(src, n), n) >= 1
  {
    assert src[0] in src;
    UsedAtLeast(Frequencies(src, n), src[0], n);
  }

  /** With one symbol in the alphabet no coin is selected. */
  lemma LoneDepth(lens: seq<nat>, index: seq<nat>, freq: seq<nat>, L: nat)
    requires L >= 1 && IndexOf(index, freq) && Selected(lens, index, freq, L) && |freq| == |index| == 1
    ensures lens == [0]
  {
    var f := Gather(freq, index);
    NothingSelected(f, L - 1);
    hide List, Depths, Sorted;
    assert index[0] == 0 && Gather(lens, index)[0] == lens[0];
  }

  lemma {:induction false} NothingSelected(f: Costs, i: nat)
    ensures forall k | 0 <= k < |f| :: Depths(f, i, 0)[k] == 0
  {
    if i > 0 {
      NothingSelected(f, i - 1);
    }
  }

  /** What the selected lengths are for the source. */
  lemma SelectedFacts(lens: seq<nat>, index: seq<nat>, src: seq<nat>, n: nat, L: nat)
    requires src != [] && forall x | x in src :: x < n
    requires L >= 1 && IndexOf(index, Frequencies(src, n)) && |index| <= Pow2(L) && n >= 2
    requires Selected(lens, index, Frequencies(src, n), L)
    requires (forall k | 0 <= k < |index| :: Frequencies(src, n)[index[k]] > 0) || |index| == 2
    requires |index| == IndexSize(PositiveTo(Frequencies(src, n), n), n)
    requires PositiveTo(Frequencies(src, n), n) >= 2 ==> forall s | s in index :: s < n && Frequencies(src, n)[s] > 0
    requires forall s, t | s in index && 0 <= t < s < n && Frequencies(src, n)[s] == 0 :: t in index
    ensures |lens| == n && Feasible(Frequencies(src, n), lens, L) && Canonical.Kraft(lens, L, n) == Pow2(L)
    ensures Optimal(Frequencies(src, n), lens, L) && OnlyFor(src, lens)
    ensures forall s | 0 <= s < n :: lens[s] <= L
  {
    hide Canonical.Kraft, CostTo, Feasible, List, Depths, Sorted, Selected, Pow2, IndexOf, Gather, Distinct;
    var freq := Frequencies(src, n);
    SelectedIsComplete(lens, index, freq, L);
    FeasibleLengths(freq, lens, L);
    forall other | Feasible(freq, other, L)
      ensures |other| == n && CostTo(freq, lens, n) <= CostTo(freq, other, n)
    {
      FeasibleLengths(freq, other, L);
      SelectedIsOptimal(lens, index, freq, L, other);
    }
    assert forall x | 0 <= x < n :: freq[x] > 0 <==> x in src;
    assert src[0] in src;
    if PositiveTo(freq, n) < 2 {
      LoneSymbol(lens, index, freq, L, src[0]);
      forall x | x in src
        ensures x == src[0]
      {
        if x != src[0] {
          OnlyUsed(freq, src[0], x);
        }
      }
    } else {
      assert exists x :: x in src && x != src[0] by {
        hide Frequencies;
        AnotherUsed(freq, src[0]);
      }
    }
  }

  // ---- a symbol alone

  lemma {:induction false} LoneUsed(freq: seq<nat>, x: nat, k: nat)
    requires x < |freq| && k <= |freq| && forall s | 0 <= s < |freq| :: freq[s] > 0 <==> s == x
    ensures UsedIn(freq, k) == if k <= x then [] else [x]
  {
    if k > 0 {
      LoneUsed(freq, x, k - 1);
    }
  }

  lemma LoneIndex(freq: seq<nat>, x: nat)
    requires x < |freq| && |freq| >= 2 && forall s | 0 <= s < |freq| :: freq[s] > 0 <==> s == x
    ensures IndexFor(freq) == if x == 0 then [0, 1] else [x, 0]
  {
    LoneUsed(freq, x, |freq|);
    if x == 0 {
      assert [0] + [1] == [0, 1];
      assert FillFrom(freq, [0, 1], 2) == [0, 1];
      assert FillFrom(freq, [0], 1) == [0, 1];
    } else {
      assert [x] + [0] == [x, 0];
      assert FillFrom(freq, [x, 0], 1) == [x, 0];
    }
  }

  /** One bit each for x and the lowest other symbol. */
  ghost predicate OneBitEach(lens: seq<nat>, n: nat, x: nat) {
    && |lens| == n
    && forall s | 0 <= s < n :: lens[s] == if s == x || s == (if x == 0 then 1 else 0) then 1 else 0
  }

  lemma SortedPair(sort: Sorter, freq: seq<nat>, x: nat)
    requires x < |freq| && |freq| >= 2 && forall s | 0 <= s < |freq| :: freq[s] > 0 <==> s == x
    requires Sorts(sort)
    ensures var index := SortWith(sort, IndexFor(freq), freq);
            |index| == 2 && forall s :: s in index <==> s == x || s == (if x == 0 then 1 else 0)
  {
    hide IndexFor, Sorted;
    LoneIndex(freq, x);
    var pair := IndexFor(freq);
    assert Distinct(pair, |freq|);
    assert SortedBy(SortWith(sort, pair, freq), pair, freq);
  }

  lemma PairDepthsOnly(lens: seq<nat>, index: seq<nat>, freq: seq<nat>, L: nat, x: nat)
    requires L >= 1 && IndexOf(index, freq) && |index| == 2 && Selected(lens, index, freq, L)
    requires forall s :: s in index <==> s == x || s == (if x == 0 then 1 else 0)
    ensures OneBitEach(lens, |freq|, x)
  {
    assert Pow2(L) >= 2;
    PairSelected(lens, index, freq, L);
    hide List, Depths, Sorted, Gather, Distinct;
    assert forall s | s in index :: s == index[0] || s == index[1];
  }

  /** A source of one symbol gets one bit for it and one for the lowest other symbol, whatever the sort. */
  lemma LoneDepths(sort: Sorter, lens: seq<nat>, src: seq<nat>, n: nat, L: nat, x: nat)
    requires L >= 1 && x < n && n >= 2 && src != [] && forall y | y in src :: y == x
    requires Sorts(sort) && DepthsBy(sort, lens, Frequencies(src, n), L)
    ensures OneBitEach(lens, n, x)
  {
    hide IndexFor, IndexOf, Selected, Sorts, SortWith, OneBitEach;
    var freq := Frequencies(src, n);
    LoneFrequency(src, n, x);
    SortedPair(sort, freq, x);
    PairDepthsOnly(lens, SortWith(sort, IndexFor(freq), freq), freq, L, x);
  }

  lemma LoneFrequency(src: seq<nat>, n: nat, x: nat)
    requires x < n && src != [] && forall y | y in src :: y == x
    ensures forall s | 0 <= s < n :: Frequencies(src, n)[s] > 0 <==> s == x
  {
    assert src[0] in src;
    assert forall s | 0 <= s < n :: s in multiset(src) <==> s in src;
  }

  lemma {:induction false} NoOtherUsed(freq: seq<nat>, x: nat, k: nat)
    requires k <= |freq| && forall s | 0 <= s < |freq| && s != x :: freq[s] == 0
    ensures PositiveTo(freq, k) <= if x < k then 1 else 0
  {
    if k > 0 {
      NoOtherUsed(freq, x, k - 1);
    }
  }

  lemma AnotherUsed(freq: seq<nat>, x: nat)
    requires PositiveTo(freq, |freq|) >= 2
    ensures exists s :: 0 <= s < |freq| && s != x && freq[s] > 0
  {
    if forall s | 0 <= s < |freq| && s != x :: freq[s] == 0 {
      NoOtherUsed(freq, x, |freq|);
    }
  }

  lemma FeasibleLengths(freq: seq<nat>, lens: seq<nat>, L: nat)
    requires Feasible(freq, lens, L)
    ensures |lens| == |freq| && forall s | 0 <= s < |lens| :: lens[s] <= L
    ensures forall s | 0 <= s < |lens| && freq[s] > 0 :: lens[s] > 0
  {
  }

  lemma CostsOfList(list: seq<Coin>, index: seq<nat>, f: Costs, i: nat)
    requires |index| == |f| && IsList(list, index, f, i)
    ensures forall k | 0 <= k < |list| :: list[k].cost == List(f, i)[k]
  {
  }

  lemma ListSize(list: seq<Coin>, index: seq<nat>, f: Costs, i: nat)
    requires |index| == |f| && IsList(list, index, f, i)
    ensures |list| == |List(f, i)| && |list| / 2 == |Packages(List(f, i))|
  {
    hide List, CoinAt;
  }

  lemma PackageCost(list: seq<Coin>, index: seq<nat>, f: Costs, i: nat, k: nat)
    requires |index| == |f| && IsList(list, index, f, i) && k < |Packages(List(f, i))|
    ensures 2 * k + 1 < |list| && list[2 * k].cost + list[2 * k + 1].cost == Packages(List(f, i))[k]
  {
    hide List, CoinAt;
    CostsOfList(list, index, f, i);
  }

  lemma NothingMerged(index: seq<nat>, f: Costs, i: nat)
    requires |index| == |f| && i > 0
    ensures Begins([], index, f, i) && Cut(f, Packages(List(f, i - 1)), 0) == 0
  {
    hide List;
  }

  lemma BeginsSnoc(list: seq<Coin>, coin: Coin, index: seq<nat>, f: Costs, i: nat)
    requires |index| == |f| && Begins(list, index, f, i)
    requires |list| < |List(f, i)| && coin == CoinAt(index, f, i, |list|)
    ensures Begins(list + [coin], index, f, i)
  {
    hide List, CoinAt;
  }

  lemma NextStart(lens: seq<nat>, l: nat, k: nat)
    requires k <= |lens|
    ensures Canonical.NextCode(lens, l, k)
         == if l == 0 then 0 else 2 * (Canonical.NextCode(lens, l - 1, k) + Canonical.BlCount(lens, l - 1, k))
  {
  }

  lemma CutNext(f: Costs, q: Costs, j: nat, p: nat)
    requires j <= |f| && p <= |q| && j + p < |f| + |q| && Cut(f, q, j + p) == j
    ensures if TakesLeaf(f, q, j, p)
            then Cut(f, q, j + p + 1) == j + 1 && MergedAt(f, q, j + p) == f[j]
            else p < |q| && Cut(f, q, j + p + 1) == j && MergedAt(f, q, j + p) == q[p]
  {
  }

  lemma PackageNext(index: seq<nat>, f: Costs, i: nat, j: nat, p: nat)
    requires i > 0 && |index| == |f| && j <= |f| && p < |Packages(List(f, i - 1))|
    requires Cut(f, Packages(List(f, i - 1)), j + p) == j
    requires j == |f| || Packages(List(f, i - 1))[p] < f[j]
    ensures Cut(f, Packages(List(f, i - 1)), j + p + 1) == j && j + p < |List(f, i)|
    ensures CoinAt(index, f, i, j + p) == Coin(-1 - 2 * p, Packages(List(f, i - 1))[p])
  {
    hide Cut, MergedAt, Packages;
    CutNext(f, Packages(List(f, i - 1)), j, p);
  }

  lemma LeafNext(index: seq<nat>, f: Costs, i: nat, j: nat, p: nat)
    requires i > 0 && |index| == |f| && j < |f| && p <= |Packages(List(f, i - 1))|
    requires Cut(f, Packages(List(f, i - 1)), j + p) == j
    requires p == |Packages(List(f, i - 1))| || f[j] <= Packages(List(f, i - 1))[p]
    ensures Cut(f, Packages(List(f, i - 1)), j + p + 1) == j + 1 && j + p < |List(f, i)|
    ensures CoinAt(index, f, i, j + p) == Coin(index[j], f[j])
  {
    hide Cut, MergedAt, Packages;
    CutNext(f, Packages(List(f, i - 1)), j, p);
  }

  lemma IndexBounds(index: seq<nat>, freq: seq<nat>)
    requires IndexOf(index, freq)
    ensures index != [] && forall k | 0 <= k < |index| :: index[k] < |freq|
  {
    hide Sorted;
  }

  lemma IsSelected(lens: seq<nat>, index: seq<nat>, freq: seq<nat>, L: nat, total: seq<nat>)
    requires IndexOf(index, freq) && L >= 1 && |lens| == |freq|
    requires 2 * (|index| - 1) <= |List(Gather(freq, index), L - 1)|
    requires total == Depths(Gather(freq, index), L - 1, 2 * (|index| - 1))
    requires forall k | 0 <= k < |index| :: lens[index[k]] == total[k]
    requires forall s | 0 <= s < |lens| && s !in index :: lens[s] == 0
    ensures Selected(lens, index, freq, L)
  {
    hide Sorted, List, Depths;
  }

  lemma LeavesNone(f: Costs, i: nat)
    ensures Leaves(f, i, 0) == 0
  {
  }

  lemma LeavesStep(index: seq<nat>, f: Costs, i: nat, j: nat)
    requires |index| == |f| && j < |List(f, i)|
    ensures var a := Leaves(f, i, j);
            if CoinAt(index, f, i, j).tag >= 0
            then a < |f| && CoinAt(index, f, i, j).tag == index[a] && Leaves(f, i, j + 1) == a + 1
            else CoinAt(index, f, i, j).tag == -1 - 2 * (j - a) && Leaves(f, i, j + 1) == a
  {
    if i > 0 {
      ListStep(f, i);
      hide List, Packages, MergedAt, Cut;
      CutStep(f, Packages(List(f, i - 1)), j);
    }
  }

  lemma CutStep(f: Costs, q: Costs, j: nat)
    requires j < |f| + |q|
    ensures var a := Cut(f, q, j);
            && (TakesLeaf(f, q, a, j - a) ==> a < |f|)
            && Cut(f, q, j + 1) == (if TakesLeaf(f, q, a, j - a) then a + 1 else a)
  {
  }
}
