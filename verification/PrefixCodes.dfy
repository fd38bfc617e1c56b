/** The Kraft inequality: the word lengths of any prefix code meet the condition under which the
    length-limited construction is optimal, so it is optimal among all prefix codes. */
module PrefixCodes {
  import opened Words
  import opened Canonical
  import opened HuffmanTrees

  predicate Incomparable(v: Bits, w: Bits) {
    !(v <= w) && !(w <= v)
  }

  /** Pairwise, no word is a prefix of another. */
  predicate PrefixFreeWords(words: seq<Bits>) {
    words == []
    || ((forall w | w in words[1..] :: Incomparable(words[0], w)) && PrefixFreeWords(words[1..]))
  }

  function WordSum(words: seq<Bits>, L: nat): nat
    requires forall w | w in words :: |w| <= L
  {
    if words == [] then 0 else Pow2(L - |words[0]|) + WordSum(words[1..], L)
  }

  /** What follows the first bit b in the words that start with it. */
  function Tails(words: seq<Bits>, b: bool): (r: seq<Bits>)
    requires [] !in words
    ensures forall w :: w in r <==> [b] + w in words
  {
    if words == [] then []
    else if words[0][0] == b then TailsHead(words[0]); [words[0][1..]] + Tails(words[1..], b)
    else Tails(words[1..], b)
  }

  lemma TailsHead(w: Bits)
    requires w != []
    ensures [w[0]] + w[1..] == w
  {
  }

  lemma {:induction false} TailsPrefixFree(words: seq<Bits>, b: bool)
    requires [] !in words && PrefixFreeWords(words)
    ensures PrefixFreeWords(Tails(words, b))
  {
    if words != [] {
      TailsPrefixFree(words[1..], b);
      if words[0][0] == b {
        var rest := Tails(words[1..], b);
        TailsHead(words[0]);
        assert Tails(words, b) == [words[0][1..]] + rest;
        forall w | w in rest
          ensures Incomparable(words[0][1..], w)
        {
          assert [b] + w in words[1..];
          PrefixCons(b, words[0][1..], w);
        }
      }
    }
  }

  lemma PrefixCons(b: bool, v: Bits, w: Bits)
    ensures [b] + v <= [b] + w <==> v <= w
  {
    if [b] + v <= [b] + w {
      assert ([b] + w)[1..] == w && ([b] + v)[1..] == v;
    }
  }

  lemma TailsShorter(words: seq<Bits>, L: nat, b: bool)
    requires [] !in words && L > 0 && forall w | w in words :: |w| <= L
    ensures forall w | w in Tails(words, b) :: |w| <= L - 1
  {
    forall w | w in Tails(words, b)
      ensures |w| <= L - 1
    {
      assert [b] + w in words;
    }
  }

  lemma WordSumCons(w: Bits, rest: seq<Bits>, L: nat)
    requires |w| <= L && forall v | v in rest :: |v| <= L
    ensures WordSum([w] + rest, L) == Pow2(L - |w|) + WordSum(rest, L)
  {
    assert ([w] + rest)[1..] == rest;
  }

  lemma {:induction false} SumSplit(words: seq<Bits>, L: nat)
    requires [] !in words && L > 0 && forall w | w in words :: |w| <= L
    ensures forall w | w in Tails(words, false) :: |w| <= L - 1
    ensures forall w | w in Tails(words, true) :: |w| <= L - 1
    ensures WordSum(words, L) == WordSum(Tails(words, false), L - 1) + WordSum(Tails(words, true), L - 1)
  {
    TailsShorter(words, L, false);
    TailsShorter(words, L, true);
    if words != [] {
      SumSplit(words[1..], L);
      SumStep(words, L, words[0][0]);
    }
  }

  /** The first word goes to the tails of its first bit, and to no others. */
  lemma SumStep(words: seq<Bits>, L: nat, b: bool)
    requires words != [] && words[0] != [] && words[0][0] == b && L > 0
    requires [] !in words && forall w | w in words :: |w| <= L
    ensures forall w | w in Tails(words[1..], b) :: |w| <= L - 1
    ensures forall w | w in Tails(words, b) :: |w| <= L - 1
    ensures WordSum(words, L) == Pow2(L - |words[0]|) + WordSum(words[1..], L)
    ensures WordSum(Tails(words, b), L - 1) == Pow2(L - |words[0]|) + WordSum(Tails(words[1..], b), L - 1)
    ensures Tails(words, !b) == Tails(words[1..], !b)
  {
    TailsShorter(words, L, b);
    TailsShorter(words[1..], L, b);
    assert Tails(words, b) == [words[0][1..]] + Tails(words[1..], b);
    WordSumCons(words[0][1..], Tails(words[1..], b), L - 1);
  }

  lemma FewWords(L: nat)
    ensures WordSum([], L) == 0 && WordSum([[]], L) == Pow2(L)
  {
    var w: Bits := [];
    WordSumCons(w, [], L);
    assert [w] + [] == [w];
  }

  /** The words of a prefix code of depth L fill at most all of its 2^L leaves. */
  lemma {:induction false} KraftInequality(words: seq<Bits>, L: nat)
    requires PrefixFreeWords(words) && forall w | w in words :: |w| <= L
    ensures WordSum(words, L) <= Pow2(L)
    decreases L
  {
    hide PrefixFreeWords, Tails, WordSum;
    FewWords(L);
    if words == [] {
    } else if L == 0 || [] in words {
      assert words[0] in words;
      EmptyWordAlone(words);
    } else {
      SumSplit(words, L);
      TailsPrefixFree(words, false);
      TailsPrefixFree(words, true);
      KraftInequality(Tails(words, false), L - 1);
      KraftInequality(Tails(words, true), L - 1);
    }
  }

  /** The empty word is a prefix of every other, so it stands alone in a prefix code. */
  lemma EmptyWordAlone(words: seq<Bits>)
    requires PrefixFreeWords(words) && [] in words
    ensures words == [[]]
  {
    if |words| > 1 {
      NoEmptyAmongSeveral(words);
    }
  }

  lemma NoEmptyAmongSeveral(words: seq<Bits>)
    requires PrefixFreeWords(words) && |words| > 1
    ensures forall j | 0 <= j < |words| :: words[j] != []
  {
    forall j | 1 <= j < |words|
      ensures words[0] != [] && words[j] != []
    {
      assert words[j] == words[1..][j - 1];
      assert Incomparable(words[0], words[1..][j - 1]);
    }
    assert words[1] != [];
  }

  // ---- codes indexed by symbols

  /** A code: a word for each symbol, empty for symbols that have none. */
  ghost predicate PrefixCode(code: seq<Bits>, L: nat) {
    && (forall s | 0 <= s < |code| :: |code[s]| <= L)
    && forall s, t | 0 <= s < t < |code| && code[s] != [] && code[t] != [] :: Incomparable(code[s], code[t])
  }

  function Lengths(code: seq<Bits>): (lens: seq<nat>)
    ensures |lens| == |code|
  {
    seq(|code|, s requires 0 <= s < |code| => |code[s]|)
  }

  /** The words in use among the first k symbols, last first. */
  function UsedWords(code: seq<Bits>, k: nat): (words: seq<Bits>)
    requires k <= |code|
    ensures forall j | 0 <= j < |words| :: words[j] in code[..k] && words[j] != []
  {
    if k == 0 then []
    else if code[k - 1] == [] then UsedWords(code, k - 1)
    else [code[k - 1]] + UsedWords(code, k - 1)
  }

  lemma {:induction false} UsedPrefixFree(code: seq<Bits>, L: nat, k: nat)
    requires PrefixCode(code, L) && k <= |code|
    ensures PrefixFreeWords(UsedWords(code, k))
  {
    hide PrefixCode;
    if k > 0 {
      UsedPrefixFree(code, L, k - 1);
      if code[k - 1] != [] {
        LastIncomparable(code, L, k, UsedWords(code, k - 1));
        assert UsedWords(code, k)[1..] == UsedWords(code, k - 1);
      }
    }
  }

  lemma LastIncomparable(code: seq<Bits>, L: nat, k: nat, used: seq<Bits>)
    requires PrefixCode(code, L) && 0 < k <= |code| && code[k - 1] != [] && used == UsedWords(code, k - 1)
    ensures forall w | w in used :: Incomparable(code[k - 1], w)
  {
    hide UsedWords;
    forall w | w in used
      ensures Incomparable(code[k - 1], w)
    {
      var j :| 0 <= j < |used| && used[j] == w;
      var s :| 0 <= s < k - 1 && code[..k - 1][s] == w;
      assert Incomparable(code[s], code[k - 1]);
    }
  }

  lemma UsedShort(code: seq<Bits>, L: nat, k: nat)
    requires PrefixCode(code, L) && k <= |code|
    ensures forall w | w in UsedWords(code, k) :: |w| <= L
  {
    hide UsedWords;
    var used := UsedWords(code, k);
    forall w | w in used
      ensures |w| <= L
    {
      var j :| 0 <= j < |used| && used[j] == w;
      var s :| 0 <= s < k && code[..k][s] == w;
    }
  }

  lemma KraftStep(code: seq<Bits>, L: nat, k: nat)
    requires 0 < k <= |code| && |code[k - 1]| <= L
    ensures Kraft(Lengths(code), L, k)
         == Kraft(Lengths(code), L, k - 1) + (if code[k - 1] == [] then 0 else Pow2(L - |code[k - 1]|))
  {
    assert Lengths(code)[k - 1] == |code[k - 1]|;
  }

  lemma WordShort(code: seq<Bits>, L: nat, k: nat)
    requires PrefixCode(code, L) && k < |code|
    ensures |code[k]| <= L
  {
  }

  lemma NothingUsed(code: seq<Bits>, L: nat)
    ensures WordSum([], L) == 0 == Kraft(Lengths(code), L, 0)
  {
  }

  lemma {:induction false} UsedSum(code: seq<Bits>, L: nat, k: nat)
    requires PrefixCode(code, L) && k <= |code|
    ensures forall w | w in UsedWords(code, k) :: |w| <= L
    ensures WordSum(UsedWords(code, k), L) == Kraft(Lengths(code), L, k)
  {
    hide PrefixCode, Pow2, WordSum, Kraft, Lengths, UsedWords;
    UsedShort(code, L, k);
    UsedStep(code, k);
    if k == 0 {
      NothingUsed(code, L);
    } else {
      var used := UsedWords(code, k - 1);
      UsedShort(code, L, k - 1);
      UsedSum(code, L, k - 1);
      WordShort(code, L, k - 1);
      KraftStep(code, L, k);
      if code[k - 1] != [] {
        WordSumCons(code[k - 1], used, L);
      }
    }
  }

  lemma UsedStep(code: seq<Bits>, k: nat)
    requires k <= |code|
    ensures UsedWords(code, k)
         == if k == 0 then [] else if code[k - 1] == [] then UsedWords(code, k - 1)
            else [code[k - 1]] + UsedWords(code, k - 1)
  {
  }

  /** The lengths of any prefix code for a source are among those the construction is optimal against. */
  lemma PrefixCodeIsFeasible(freq: seq<nat>, code: seq<Bits>, L: nat)
    requires |code| == |freq| && PrefixCode(code, L)
    requires forall s | 0 <= s < |freq| && freq[s] > 0 :: code[s] != []
    ensures Feasible(freq, Lengths(code), L)
  {
    UsedPrefixFree(code, L, |code|);
    UsedSum(code, L, |code|);
    KraftInequality(UsedWords(code, |code|), L);
  }

  /** So no prefix code with words of at most L bits encodes a source in fewer bits than the depths that
      package-merge selects. */
  lemma OptimalPrefixCode(freq: seq<nat>, lens: seq<nat>, index: seq<nat>, L: nat, code: seq<Bits>)
    requires L >= 1 && IndexOf(index, freq) && 2 <= |index| <= Pow2(L) && Selected(lens, index, freq, L)
    requires (forall k | 0 <= k < |index| :: freq[index[k]] > 0) || |index| == 2
    requires |code| == |freq| && PrefixCode(code, L)
    requires forall s | 0 <= s < |freq| && freq[s] > 0 :: code[s] != []
    ensures CostTo(freq, lens, |freq|) <= CostTo(freq, Lengths(code), |freq|)
  {
    PrefixCodeIsFeasible(freq, code, L);
    SelectedIsOptimal(lens, index, freq, L, Lengths(code));
  }
}
