/** The package-merge algorithm on sorted frequencies: lists of coins, the selection from the last list
    down to the first, and why the depths it yields are a complete and optimal length-limited code.
    A coin of list i is worth 2^i units; a symbol of depth d owns one leaf coin in each of d lists. */
module PackageMerge {
  import opened Words

  type Costs = seq<nat>

  ghost predicate Sorted(c: Costs) {
    forall i, j | 0 <= i <= j < |c| :: c[i] <= c[j]
  }

  function SumTo(c: Costs, k: nat): nat
    requires k <= |c|
  {
    if k == 0 then 0 else SumTo(c, k - 1) + c[k - 1]
  }

  /** Neighbours joined in pairs; an odd last item is dropped. */
  function Packages(c: Costs): (q: Costs)
    ensures |q| == |c| / 2
  {
    seq(|c| / 2, k requires 0 <= k < |c| / 2 => c[2 * k] + c[2 * k + 1])
  }

  /** After a leaves and p packages, is the next item of the merged list a leaf? Leaves win ties. */
  predicate TakesLeaf(f: Costs, q: Costs, a: nat, p: nat) {
    a < |f| && (p >= |q| || f[a] <= q[p])
  }

  /** The number of leaves among the first b items of the merged list. */
  function Cut(f: Costs, q: Costs, b: nat): (a: nat)
    requires b <= |f| + |q|
    ensures a <= |f| && a <= b && b - a <= |q|
  {
    if b == 0 then 0 else
      var a := Cut(f, q, b - 1);
      if TakesLeaf(f, q, a, b - 1 - a) then a + 1 else a
  }

  function MergedAt(f: Costs, q: Costs, j: nat): nat
    requires j < |f| + |q|
  {
    var a := Cut(f, q, j);
    if TakesLeaf(f, q, a, j - a) then f[a] else q[j - a]
  }

  function Merge(f: Costs, q: Costs): (c: Costs)
    ensures |c| == |f| + |q|
  {
    seq(|f| + |q|, j requires 0 <= j < |f| + |q| => MergedAt(f, q, j))
  }

  /** The costs of list i, where list 0 holds the leaves alone. */
  function List(f: Costs, i: nat): (c: Costs)
    ensures |c| >= |f|
  {
    if i == 0 then f else Merge(f, Packages(List(f, i - 1)))
  }

  /** The number of leaves among the first b items of list i. */
  function Leaves(f: Costs, i: nat, b: nat): (a: nat)
    requires b <= |List(f, i)|
    ensures a <= |f| && a <= b
    ensures if i == 0 then a == b else 2 * (b - a) <= |List(f, i - 1)|
  {
    if i == 0 then b else Cut(f, Packages(List(f, i - 1)), b)
  }

  /** One more for each of the first a entries. */
  function OneMore(d: seq<nat>, a: nat): (e: seq<nat>)
    ensures |e| == |d| && forall k | 0 <= k < |d| :: e[k] == d[k] + (if k < a then 1 else 0)
  {
    seq(|d|, k requires 0 <= k < |d| => d[k] + (if k < a then 1 else 0))
  }

  /** How many leaf coins of each symbol are in the first b items of list i, packages opened all the way down. */
  function Depths(f: Costs, i: nat, b: nat): (d: seq<nat>)
    requires b <= |List(f, i)|
    ensures |d| == |f|
    ensures forall k | 0 <= k < |d| :: d[k] <= i + 1
  {
    var a := Leaves(f, i, b);
    if i == 0 then OneMore(Repeated(0, |f|), a) else OneMore(Depths(f, i - 1, 2 * (b - a)), a)
  }

  // ---- the merged list

  lemma {:induction false} CutBalanced(f: Costs, q: Costs, b: nat)
    requires Sorted(f) && Sorted(q) && b <= |f| + |q|
    ensures var a := Cut(f, q, b);
            && (a > 0 && b - a < |q| ==> f[a - 1] <= q[b - a])
            && (b - a > 0 && a < |f| ==> q[b - a - 1] < f[a])
  {
    if b > 0 {
      CutBalanced(f, q, b - 1);
    }
  }

  lemma {:induction false} MergeSum(f: Costs, q: Costs, b: nat)
    requires b <= |f| + |q|
    ensures SumTo(Merge(f, q), b) == SumTo(f, Cut(f, q, b)) + SumTo(q, b - Cut(f, q, b))
  {
    if b > 0 {
      MergeSum(f, q, b - 1);
      assert Merge(f, q)[b - 1] == MergedAt(f, q, b - 1);
    }
  }

  /** Any taken leaf is no dearer than the last item taken. */
  lemma TakenLeaf(f: Costs, q: Costs, b: nat)
    requires Sorted(f) && Sorted(q) && 0 < b <= |f| + |q|
    ensures Cut(f, q, b) > 0 ==> f[Cut(f, q, b) - 1] <= MergedAt(f, q, b - 1)
  {
    CutBalanced(f, q, b - 1);
  }

  lemma MergeSorted(f: Costs, q: Costs)
    requires Sorted(f) && Sorted(q)
    ensures Sorted(Merge(f, q))
  {
    hide Sorted, MergedAt;
    var c := Merge(f, q);
    forall j | 0 <= j < |c| - 1
      ensures c[j] <= c[j + 1]
    {
      MergedStep(f, q, j);
    }
    AllSorted(c);
  }

  lemma MergedStep(f: Costs, q: Costs, j: nat)
    requires Sorted(f) && Sorted(q) && j + 1 < |f| + |q|
    ensures MergedAt(f, q, j) <= MergedAt(f, q, j + 1)
  {
    CutBalanced(f, q, j);
  }

  lemma AllSorted(c: Costs)
    requires forall k | 0 <= k < |c| - 1 :: c[k] <= c[k + 1]
    ensures Sorted(c)
  {
    forall i, j | 0 <= i <= j < |c|
      ensures c[i] <= c[j]
    {
      StepsSorted(c, i, j);
    }
  }

  lemma {:induction false} StepsSorted(c: Costs, i: nat, j: nat)
    requires i <= j < |c| && forall k | 0 <= k < |c| - 1 :: c[k] <= c[k + 1]
    ensures c[i] <= c[j]
  {
    if i < j {
      StepsSorted(c, i, j - 1);
      assert c[j - 1] <= c[j - 1 + 1];
    }
  }

  lemma PackagesSorted(c: Costs)
    requires Sorted(c)
    ensures Sorted(Packages(c))
  {
  }

  lemma {:induction false} ListSorted(f: Costs, i: nat)
    requires Sorted(f)
    ensures Sorted(List(f, i)) && Sorted(Packages(List(f, i)))
  {
    hide Sorted, MergedAt, Cut, Packages;
    if i > 0 {
      ListSorted(f, i - 1);
      MergeSorted(f, Packages(List(f, i - 1)));
    }
    PackagesSorted(List(f, i));
  }

  lemma {:induction false} PackageSum(c: Costs, y: nat)
    requires 2 * y <= |c|
    ensures SumTo(Packages(c), y) == SumTo(c, 2 * y)
  {
    if y > 0 {
      PackageSum(c, y - 1);
      assert SumTo(c, 2 * y) == SumTo(c, 2 * y - 2) + c[2 * y - 2] + c[2 * y - 1];
    }
  }

  /** No choice of x leaves and y packages is cheaper than the first x + y merged items. */
  lemma {:induction false} CutIsCheapest(f: Costs, q: Costs, x: nat, y: nat)
    requires Sorted(f) && Sorted(q) && x <= |f| && y <= |q|
    ensures SumTo(f, Cut(f, q, x + y)) + SumTo(q, x + y - Cut(f, q, x + y)) <= SumTo(f, x) + SumTo(q, y)
    decreases if x <= Cut(f, q, x + y) then Cut(f, q, x + y) - x else x - Cut(f, q, x + y)
  {
    hide Cut, SumTo, Sorted;
    var a := Cut(f, q, x + y);
    if x < a {
      Exchange(f, q, x, y - 1);
      CutIsCheapest(f, q, x + 1, y - 1);
    } else if x > a {
      Exchange(f, q, x - 1, y);
      CutIsCheapest(f, q, x - 1, y + 1);
    }
  }

  /** Of leaf x and package y, one is on the cheaper side of the cut. */
  lemma Exchange(f: Costs, q: Costs, x: nat, y: nat)
    requires Sorted(f) && Sorted(q) && x < |f| && y < |q|
    ensures var a := Cut(f, q, x + y + 1);
            if x < a then SumTo(f, x + 1) + SumTo(q, y) <= SumTo(f, x) + SumTo(q, y + 1)
            else SumTo(f, x) + SumTo(q, y + 1) <= SumTo(f, x + 1) + SumTo(q, y)
  {
    hide Cut;
    CutBalanced(f, q, x + y + 1);
    assert SumTo(f, x + 1) == SumTo(f, x) + f[x] && SumTo(q, y + 1) == SumTo(q, y) + q[y];
  }

  /** Enough items exist in list i exactly when there are not too many symbols. */
  lemma {:induction false} ListLength(f: Costs, i: nat, j: nat)
    ensures |f| <= Pow2(i + j) <==> 2 * |f| <= |List(f, i)| + Pow2(j)
  {
    if i > 0 {
      ListLength(f, i - 1, j + 1);
    }
  }

  // ---- sets of coins, one depth per symbol

  /** The total cost of depths d over the first k symbols. */
  function DotTo(f: Costs, d: seq<nat>, k: nat): nat
    requires k <= |f| == |d|
  {
    if k == 0 then 0 else DotTo(f, d, k - 1) + f[k - 1] * d[k - 1]
  }

  /** The width, in units, of the leaf coins that depths e own in lists 0 to i. */
  function WidthTo(i: nat, e: seq<nat>, k: nat): int
    requires k <= |e| && forall j | 0 <= j < |e| :: e[j] <= i + 1
  {
    if k == 0 then 0 else WidthTo(i, e, k - 1) + Pow2(i + 1) - Pow2(i + 1 - e[k - 1])
  }

  function KraftTo(L: nat, e: seq<nat>, k: nat): nat
    requires k <= |e| && forall j | 0 <= j < |e| :: e[j] <= L
  {
    if k == 0 then 0 else KraftTo(L, e, k - 1) + Pow2(L - e[k - 1])
  }

  /** How many of the first k entries are positive: symbols that occur, or that own a coin in the top list. */
  function PositiveTo(e: seq<nat>, k: nat): (s: nat)
    requires k <= |e|
    ensures s <= k
  {
    if k == 0 then 0 else PositiveTo(e, k - 1) + (if e[k - 1] > 0 then 1 else 0)
  }

  /** The coins left when those of the top list are removed. */
  function Lower(e: seq<nat>): (r: seq<nat>)
    ensures |r| == |e|
  {
    seq(|e|, k requires 0 <= k < |e| => if e[k] > 0 then e[k] - 1 else 0)
  }

  lemma {:induction false} WidthPeel(i: nat, e: seq<nat>, k: nat)
    requires k <= |e| && forall j | 0 <= j < |e| :: e[j] <= i + 1
    ensures WidthTo(i, e, k) == ShiftLeft(PositiveTo(e, k), i) + (if i == 0 then 0 else WidthTo(i - 1, Lower(e), k))
  {
    if k == 0 {
      ShiftLeftLinear(0, 0, i);
    } else {
      WidthPeel(i, e, k - 1);
      ShiftLeftLinear(PositiveTo(e, k - 1), 1, i);
      ShiftLeftPow2(0, i);
      assert Pow2(i + 1) == 2 * Pow2(i);
    }
  }

  lemma {:induction false} DotPeel(f: Costs, e: seq<nat>, k: nat)
    requires Sorted(f) && k <= |f| == |e|
    ensures DotTo(f, e, k) >= DotTo(f, Lower(e), k) + SumTo(f, PositiveTo(e, k))
  {
    if k > 0 {
      DotPeel(f, e, k - 1);
      if e[k - 1] > 0 {
        TimesSucc(f[k - 1], e[k - 1] - 1);
      }
    }
  }

  lemma TimesSucc(x: nat, n: nat)
    ensures x * (n + 1) == x * n + x
  {
  }

  lemma {:induction false} SumMonotone(c: Costs, x: nat, y: nat)
    requires x <= y <= |c|
    ensures SumTo(c, x) <= SumTo(c, y)
  {
    if x < y {
      SumMonotone(c, x, y - 1);
    }
  }

  lemma NoSum(c: Costs)
    ensures SumTo(c, 0) == 0
  {
  }

  lemma ListMerge(f: Costs, i: nat)
    ensures List(f, i) == if i == 0 then f else Merge(f, Packages(List(f, i - 1)))
  {
  }

  lemma LowerBound(e: seq<nat>, i: nat)
    requires forall j | 0 <= j < |e| :: e[j] <= i + 1
    ensures forall j | 0 <= j < |e| :: Lower(e)[j] <= i
  {
  }

  /** The first b items of list i are the cheapest coins at least b coins of that list wide. */
  lemma {:induction false} CheapestCoins(f: Costs, i: nat, e: seq<nat>, b: nat)
    requires Sorted(f) && |e| == |f| && forall j | 0 <= j < |e| :: e[j] <= i + 1
    requires ShiftLeft(b, i) <= WidthTo(i, e, |e|)
    ensures b <= |List(f, i)| && SumTo(List(f, i), b) <= DotTo(f, e, |f|)
  {
    hide Cut, Merge, List, Packages, Sorted, WidthTo, DotTo, SumTo, PositiveTo, Pow2, ShiftLeft, Lower;
    var s, lower := PositiveTo(e, |e|), Lower(e);
    LowerBound(e, i);
    WidthPeel(i, e, |e|);
    DotPeel(f, e, |f|);
    ListMerge(f, i);
    if i == 0 {
      ShiftLeftOne(b);
      ShiftLeftOne(s);
      SumMonotone(f, b, s);
    } else {
      var c := List(f, i - 1);
      var q := Packages(c);
      NoSum(q);
      ListSorted(f, i - 1);
      if b <= s {
        SumMonotone(f, b, s);
        CutIsCheapest(f, q, b, 0);
      } else {
        ShiftLeftLinear(b - s, s, i);
        ShiftLeftTwice(b - s, 1, i - 1);
        ShiftLeftOne(b - s);
        CheapestCoins(f, i - 1, lower, 2 * (b - s));
        PackageSum(c, b - s);
        CutIsCheapest(f, q, s, b - s);
      }
      MergeSum(f, q, b);
    }
  }

  // ---- the selection

  lemma {:induction false} AddPrefix(f: Costs, d: seq<nat>, e: seq<nat>, a: nat, k: nat)
    requires k <= |f| == |d| == |e| && a <= |f|
    requires forall j | 0 <= j < |f| :: e[j] == d[j] + (if j < a then 1 else 0)
    ensures DotTo(f, e, k) == DotTo(f, d, k) + SumTo(f, if k < a then k else a)
  {
    if k > 0 {
      AddPrefix(f, d, e, a, k - 1);
      TimesSucc(f[k - 1], d[k - 1]);
    }
  }

  lemma {:induction false} DotZero(f: Costs, d: seq<nat>, k: nat)
    requires k <= |f| == |d| && forall j | 0 <= j < |d| :: d[j] == 0
    ensures DotTo(f, d, k) == 0
  {
    if k > 0 {
      DotZero(f, d, k - 1);
    }
  }

  /** The selected leaf coins cost exactly the first b items of the list. */
  lemma {:induction false} DepthsCost(f: Costs, i: nat, b: nat)
    requires b <= |List(f, i)|
    ensures DotTo(f, Depths(f, i, b), |f|) == SumTo(List(f, i), b)
  {
    hide Cut, MergedAt, Merge, Packages, DotTo, SumTo, Pow2;
    var a, d := Leaves(f, i, b), Depths(f, i, b);
    if i == 0 {
      var none := seq(|f|, k => 0);
      DotZero(f, none, |f|);
      AddPrefix(f, none, d, a, |f|);
    } else {
      DepthsCost(f, i - 1, 2 * (b - a));
      AddPrefix(f, Depths(f, i - 1, 2 * (b - a)), d, a, |f|);
      PackageSum(List(f, i - 1), b - a);
      MergeSum(f, Packages(List(f, i - 1)), b);
    }
  }

  /** Any leaf among the first b items of a list is no dearer than the last of them. */
  lemma LastLeaf(f: Costs, i: nat, b: nat)
    requires Sorted(f) && 0 < b <= |List(f, i)| && Leaves(f, i, b) > 0
    ensures f[Leaves(f, i, b) - 1] <= List(f, i)[b - 1]
  {
    hide Cut, MergedAt, Packages, Sorted;
    if i > 0 {
      ListSorted(f, i - 1);
      TakenLeaf(f, Packages(List(f, i - 1)), b);
    }
  }

  /** A package among the first b items, when some leaf is not, is cheaper than that leaf; so are its parts. */
  lemma PartsBelowLeaf(f: Costs, c: Costs, b: nat)
    requires Sorted(f) && Sorted(c) && b <= |f| + |c| / 2
    requires b > Cut(f, Packages(c), b) && Cut(f, Packages(c), b) < |f|
    ensures c[2 * (b - Cut(f, Packages(c), b)) - 1] < f[Cut(f, Packages(c), b)]
  {
    var p := b - Cut(f, Packages(c), b);
    PackagesSorted(c);
    CutBalanced(f, Packages(c), b);
    assert Packages(c)[p - 1] == c[2 * (p - 1)] + c[2 * (p - 1) + 1];
  }

  /** The leaves a lower list contributes are among those of the list above it. */
  lemma LeavesNested(f: Costs, i: nat, b: nat)
    requires Sorted(f) && i > 0 && b <= |List(f, i)|
    ensures Leaves(f, i - 1, 2 * (b - Leaves(f, i, b))) <= Leaves(f, i, b)
  {
    hide List, Packages, Cut, Sorted, Leaves;
    LeavesCut(f, i, b);
    var a := Leaves(f, i, b);
    var below := Leaves(f, i - 1, 2 * (b - a));
    assert |List(f, i)| == |f| + |List(f, i - 1)| / 2 by {
      ListStep(f, i);
    }
    if a < below {
      SortedAt(f, a, below - 1);
      ListSorted(f, i - 1);
      PartsBelowLeaf(f, List(f, i - 1), b);
      LastLeaf(f, i - 1, 2 * (b - a));
    }
  }

  lemma LeavesCut(f: Costs, i: nat, b: nat)
    requires i > 0 && b <= |List(f, i)|
    ensures Leaves(f, i, b) == Cut(f, Packages(List(f, i - 1)), b)
  {
  }

  lemma SortedAt(c: Costs, i: nat, j: nat)
    requires Sorted(c) && i <= j < |c|
    ensures c[i] <= c[j]
  {
  }

  lemma ListStep(f: Costs, i: nat)
    requires i > 0
    ensures |List(f, i)| == |f| + |List(f, i - 1)| / 2
  {
  }

  /** Opening the packages of the first b items of a list. */
  lemma DepthsStep(f: Costs, i: nat, b: nat)
    requires b <= |List(f, i)|
    ensures i > 0 ==> 2 * (b - Leaves(f, i, b)) <= |List(f, i - 1)|
    ensures var a, d := Leaves(f, i, b), Depths(f, i, b);
            if i == 0 then forall k | 0 <= k < |f| :: d[k] == if k < a then 1 else 0
            else
              var below := Depths(f, i - 1, 2 * (b - a));
              forall k | 0 <= k < |f| :: d[k] == below[k] + (if k < a then 1 else 0)
  {
  }

  lemma {:induction false} DepthsNested(f: Costs, i: nat, b: nat)
    requires Sorted(f) && b <= |List(f, i)|
    ensures forall k | 0 <= k < |f| :: Depths(f, i, b)[k] > 0 <==> k < Leaves(f, i, b)
  {
    hide Depths, Leaves, List, Sorted;
    DepthsStep(f, i, b);
    if i > 0 {
      var c := 2 * (b - Leaves(f, i, b));
      var below := Depths(f, i - 1, c);
      DepthsNested(f, i - 1, c);
      LeavesNested(f, i, b);
      assert forall k | 0 <= k < |f| :: below[k] > 0 <==> k < Leaves(f, i - 1, c);
    }
  }

  lemma {:induction false} TopOfPrefix(e: seq<nat>, a: nat, k: nat)
    requires k <= |e| && a <= |e| && forall j | 0 <= j < |e| :: e[j] > 0 <==> j < a
    ensures PositiveTo(e, k) == if k < a then k else a
  {
    if k > 0 {
      TopOfPrefix(e, a, k - 1);
    }
  }

  lemma AllLeaves(f: Costs, b: nat)
    requires b <= |List(f, 0)|
    ensures Leaves(f, 0, b) == b
  {
  }

  /** Without the coins of list i, the depths are those selected from the list below. */
  lemma LowerDepths(f: Costs, i: nat, b: nat)
    requires Sorted(f) && i > 0 && b <= |List(f, i)|
    ensures 2 * (b - Leaves(f, i, b)) <= |List(f, i - 1)|
    ensures Lower(Depths(f, i, b)) == Depths(f, i - 1, 2 * (b - Leaves(f, i, b)))
  {
    hide List, Depths, Sorted, Leaves;
    DepthsStep(f, i, b);
    DepthsNested(f, i - 1, 2 * (b - Leaves(f, i, b)));
    LeavesNested(f, i, b);
  }

  /** The selected leaf coins are exactly b coins of the list wide. */
  lemma {:induction false} DepthsWidth(f: Costs, i: nat, b: nat)
    requires Sorted(f) && b <= |List(f, i)|
    ensures WidthTo(i, Depths(f, i, b), |f|) == ShiftLeft(b, i)
  {
    hide List, Depths, WidthTo, Sorted, Pow2, ShiftLeft, PositiveTo, Leaves, Lower;
    var a, d := Leaves(f, i, b), Depths(f, i, b);
    DepthsNested(f, i, b);
    TopOfPrefix(d, a, |f|);
    WidthPeel(i, d, |f|);
    if i == 0 {
      AllLeaves(f, b);
    } else {
      LowerDepths(f, i, b);
      DepthsWidth(f, i - 1, 2 * (b - a));
      ShiftLeftTwice(b - a, 1, i - 1);
      ShiftLeftOne(b - a);
      ShiftLeftLinear(a, b - a, i);
    }
  }

  // ---- the code

  /** The items the selection starts from exist exactly when every symbol can have a depth of at most L. */
  lemma SelectionFits(f: Costs, L: nat)
    requires L >= 1
    ensures 2 * (|f| - 1) <= |List(f, L - 1)| <==> |f| <= Pow2(L)
  {
    ListLength(f, L - 1, 1);
    assert Pow2(1) == 2;
  }

  lemma {:induction false} KraftOfWidth(L: nat, e: seq<nat>, k: nat)
    requires L >= 1 && k <= |e| && forall j | 0 <= j < |e| :: e[j] <= L
    ensures WidthTo(L - 1, e, k) + KraftTo(L, e, k) == ShiftLeft(k, L)
  {
    if k == 0 {
      ShiftLeftLinear(0, 0, L);
    } else {
      KraftOfWidth(L, e, k - 1);
      ShiftLeftLinear(k - 1, 1, L);
      ShiftLeftPow2(0, L);
    }
  }

  lemma {:induction false} KraftAtLeast(L: nat, e: seq<nat>, k: nat)
    requires k <= |e| && forall j | 0 <= j < |e| :: e[j] <= L
    ensures KraftTo(L, e, k) >= k
    ensures forall j | 0 <= j < k :: KraftTo(L, e, k) >= Pow2(L - e[j]) + k - 1
  {
    if k > 0 {
      KraftAtLeast(L, e, k - 1);
    }
  }

  /** The widths of N - 1 whole units, as coins of the last list and as a scaled count. */
  lemma TargetWidth(n: nat, L: nat)
    requires n >= 1 && L >= 1
    ensures ShiftLeft(2 * (n - 1), L - 1) + Pow2(L) == ShiftLeft(n, L)
  {
    ShiftLeftTwice(n - 1, 1, L - 1);
    ShiftLeftOne(n - 1);
    ShiftLeftLinear(n - 1, 1, L);
    ShiftLeftPow2(0, L);
  }

  /** Depths in 1..L that use up the whole Kraft sum. */
  ghost predicate FullDepths(L: nat, d: seq<nat>) {
    (forall k | 0 <= k < |d| :: 1 <= d[k] <= L) && KraftTo(L, d, |d|) == Pow2(L)
  }

  /** Every symbol gets a depth in 1..L and the Kraft sum is met with equality. */
  lemma SelectionIsComplete(f: Costs, L: nat)
    requires Sorted(f) && L >= 1 && 2 <= |f| <= Pow2(L)
    ensures 2 * (|f| - 1) <= |List(f, L - 1)|
    ensures FullDepths(L, Depths(f, L - 1, 2 * (|f| - 1)))
  {
    hide Depths, List, WidthTo, KraftTo, Sorted, ShiftLeft;
    SelectionFits(f, L);
    var d := Depths(f, L - 1, 2 * (|f| - 1));
    DepthsWidth(f, L - 1, 2 * (|f| - 1));
    TargetWidth(|f|, L);
    KraftOfWidth(L, d, |f|);
    KraftAtLeast(L, d, |f|);
  }

  /** No other depths of at most L with Kraft sum at most 1 have a smaller total cost. */
  lemma SelectionIsOptimal(f: Costs, L: nat, other: seq<nat>)
    requires Sorted(f) && L >= 1 && 2 <= |f| <= Pow2(L)
    requires |other| == |f| && (forall k | 0 <= k < |f| :: other[k] <= L) && KraftTo(L, other, |f|) <= Pow2(L)
    ensures 2 * (|f| - 1) <= |List(f, L - 1)|
    ensures DotTo(f, Depths(f, L - 1, 2 * (|f| - 1)), |f|) <= DotTo(f, other, |f|)
  {
    hide Depths, List, WidthTo, KraftTo, DotTo, SumTo, Sorted, ShiftLeft, Pow2;
    TargetWidth(|f|, L);
    KraftOfWidth(L, other, |f|);
    CheapestCoins(f, L - 1, other, 2 * (|f| - 1));
    DepthsCost(f, L - 1, 2 * (|f| - 1));
  }
}
