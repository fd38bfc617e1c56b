/** Items whose dynamic block is a bit longer than it need be because the end of block is counted twice: those
    of the bytes "aab". With two ends of block, "a" and the end of block tie; a stable sort leaves them in the
    order of their symbols, and the later one, the end of block, gets the short code. */
module ExtraBit {
  import opened Words
  import opened BitStreams
  import opened Canonical
  import opened PackageMerge
  import opened HuffmanTrees
  import opened Inflate
  import opened Items
  import opened Lz77
  import opened DynamicBlock
  import opened BlockChoice

  /** What LZ77 makes of "aab". */
  function Aab(): (items: seq<LZ77Item>)
    ensures forall i | 0 <= i < |items| :: ValidItem(items[i])
  {
    [Literal(97), Literal(97), Literal(98), Eob]
  }

  const AAB: ByteSeq := [97, 97, 98]

  lemma AabItems(level: nat, tokens: seq<Token>)
    requires level < 4 && Parsed(AAB, level, tokens)
    ensures Flatten(tokens) + [Eob] == Aab()
  {
    hide Reproduces;
    assert tokens == [Lit(97), Lit(97), Lit(98)];
    assert tokens[1..] == [Lit(97), Lit(98)] && tokens[2..] == [Lit(98)];
    assert Flatten(tokens) == [Literal(97)] + Flatten([Lit(97), Lit(98)]);
  }

  lemma AabCodes()
    ensures LitCodes(Aab()) == [97, 97, 98, 256] && DistCodes(Aab()) == [] && ExtraTotal(Aab()) == 0
    ensures LitSymbols(Aab()) == [97, 97, 98, 256, 256]
  {
    var a, b, c := Aab()[1..], Aab()[2..], Aab()[3..];
    assert a[1..] == b && b[1..] == c && c[1..] == [];
    assert LitCodes(c) == [256] && DistCodes(c) == [] && ExtraTotal(c) == 0;
    assert LitCodes(b) == [98] + LitCodes(c) && LitCodes(a) == [97] + LitCodes(b);
  }

  /** How often each symbol is counted. */
  ghost function Counted(): (freq: seq<nat>)
    ensures |freq| == 286
    ensures forall s | 0 <= s < 286 :: freq[s] == if s == 97 || s == 256 then 2 else if s == 98 then 1 else 0
  {
    var src: seq<nat> := [97, 97, 98, 256, 256];
    assert multiset(src) == multiset{97, 97, 98, 256, 256};
    Frequencies(src, 286)
  }

  // ---- the order of the symbols

  lemma {:induction false} UsedStretch(freq: seq<nat>, a: nat, b: nat)
    requires a <= b <= |freq| && forall s | a <= s < b :: freq[s] == 0
    ensures UsedIn(freq, b) == UsedIn(freq, a)
    decreases b
  {
    if a < b {
      UsedStretch(freq, a, b - 1);
    }
  }

  lemma IndexOfUsed(freq: seq<nat>)
    requires |UsedIn(freq, |freq|)| >= 2
    ensures IndexFor(freq) == UsedIn(freq, |freq|)
  {
    hide UsedIn;
  }

  lemma CountedIndex()
    ensures IndexFor(Counted()) == [97, 98, 256]
  {
    hide Counted, UsedIn, IndexFor, PositiveTo;
    var freq := Counted();
    NoneUsed(freq);
    UsedStretch(freq, 0, 97);
    UsedOne(freq, 97);
    UsedOne(freq, 98);
    UsedStretch(freq, 99, 256);
    UsedOne(freq, 256);
    UsedStretch(freq, 257, 286);
    IndexOfUsed(freq);
  }

  lemma CountedOrder()
    ensures InsertionSort([97, 98, 256], Counted()) == [98, 97, 256]
  {
    hide Counted;
    var freq, all := Counted(), [97, 98, 256];
    assert all[..2] == [97, 98] && all[..1] == [97] && all[..0] == [];
    assert [97, 98][..1] == [97] && [97][..0] == [];
    assert InsertionSort([], freq) == [];
    assert InsertAt([], 0, 97) == [97];
    assert InsertionSort([97], freq) == [97];
    assert InsertAt([97], 0, 98) == [98, 97];
    assert InsertionSort([97, 98], freq) == [98, 97];
    assert InsertAt([98, 97], 2, 256) == [98, 97, 256];
  }

  // ---- the depths

  /** Symbols that occur more often have no longer codes; of those that tie, the later one. */
  lemma {:induction false} DepthsDescend(f: Costs, i: nat, b: nat)
    requires b <= |List(f, i)|
    ensures forall j, k | 0 <= j <= k < |f| :: Depths(f, i, b)[k] <= Depths(f, i, b)[j]
  {
    hide List;
    if i > 0 {
      DepthsDescend(f, i - 1, 2 * (b - Leaves(f, i, b)));
    }
  }

  lemma ThreeDepths(d: seq<nat>)
    requires |d| == 3 && (forall k | 0 <= k < 3 :: 1 <= d[k] <= 15) && d[2] <= d[1] <= d[0]
    requires KraftTo(15, d, 3) == Pow2(15)
    ensures d == [2, 2, 1]
  {
    hide Pow2;
    Pow2Values();
    assert KraftTo(15, d, 1) == KraftTo(15, d, 0) + Pow2(15 - d[0]);
    assert KraftTo(15, d, 2) == KraftTo(15, d, 1) + Pow2(15 - d[1]);
    assert Pow2(15) == Pow2(15 - d[0]) + Pow2(15 - d[1]) + Pow2(15 - d[2]);
    Pow2Monotone(15 - d[0], 15 - d[1]);
    Pow2Monotone(15 - d[1], 15 - d[2]);
    if d[2] >= 2 {
      Pow2Monotone(15 - d[2], 13);
    }
    if d[1] >= 3 {
      Pow2Monotone(15 - d[1], 12);
    }
    if d[0] >= 3 {
      Pow2Monotone(15 - d[0], 12);
    }
  }

  lemma CountedDepths(dep: seq<nat>)
    requires DepthsBy(Sorter(InsertionSort), dep, Counted(), MAX_CODE_LENGTH)
    ensures |dep| == 286 && dep[98] == 2 && dep[97] == 2 && dep[256] == 1
  {
    hide List, Depths, KraftTo, Counted, IndexFor, InsertionSort;
    CountedIndex();
    CountedOrder();
    var index := [98, 97, 256];
    assert SortWith(Sorter(InsertionSort), IndexFor(Counted()), Counted()) == index;
    var f := Gather(Counted(), index);
    Pow2Monotone(2, 15);
    SelectionIsComplete(f, 15);
    DepthsDescend(f, 14, 4);
    var d := Gather(dep, index);
    ThreeDepths(d);
    assert dep[98] == d[0] && dep[97] == d[1] && dep[256] == d[2];
  }

  lemma CountedSymbols()
    ensures Frequencies(LitSymbols(Aab()), 286) == Counted()
  {
    hide LitSymbols;
    AabCodes();
  }

  lemma TableOfCounted(ll: seq<nat>)
    requires TableBy(Sorter(InsertionSort), ll, LitSymbols(Aab()), 286, MAX_CODE_LENGTH)
    ensures |ll| > 256 && ll[98] == 2 && ll[97] == 2 && ll[256] == 1
  {
    hide DepthsBy, LitSymbols, Counted, Frequencies, Aab;
    CountedSymbols();
    var dep: seq<nat> :| DepthsBy(Sorter(InsertionSort), dep, Frequencies(LitSymbols(Aab()), 286), MAX_CODE_LENGTH)
                         && 0 < |ll| <= |dep| && ll == dep[..|ll|]
                         && forall s | |ll| <= s < |dep| :: dep[s] == 0;
    CountedDepths(dep);
    assert 256 < |ll|;
  }

  // ---- a shorter code for the same items

  /** One bit for "a", and two for "b" and the end of block. */
  function Shorter(): (ll: seq<nat>)
    ensures |ll| == 286
    ensures forall s | 0 <= s < 286 :: ll[s] == if s == 97 then 1 else if s == 98 || s == 256 then 2 else 0
  {
    seq(286, s => if s == 97 then 1 else if s == 98 || s == 256 then 2 else 0)
  }

  lemma {:induction false} KraftStretch(lens: seq<nat>, a: nat, b: nat)
    requires a <= b <= |lens| && forall s | a <= s < b :: lens[s] == 0
    ensures Kraft(lens, MAX_CODE_LENGTH, b) == Kraft(lens, MAX_CODE_LENGTH, a)
    decreases b
  {
    if a < b {
      KraftStretch(lens, a, b - 1);
    }
  }

  lemma KraftNext(lens: seq<nat>, k: nat)
    requires k < |lens| && 0 < lens[k] <= MAX_CODE_LENGTH
    ensures Kraft(lens, MAX_CODE_LENGTH, k + 1) == Kraft(lens, MAX_CODE_LENGTH, k) + Pow2(MAX_CODE_LENGTH - lens[k])
  {
    hide Pow2;
  }

  lemma ShorterKraft()
    ensures Kraft(Shorter(), MAX_CODE_LENGTH, 286) == Pow2(14) + Pow2(13) + Pow2(13)
  {
    hide Pow2, Shorter, Kraft;
    var lens := Shorter();
    NoKraft(lens);
    KraftStretch(lens, 0, 97);
    KraftNext(lens, 97);
    KraftNext(lens, 98);
    KraftStretch(lens, 99, 256);
    KraftNext(lens, 256);
    KraftStretch(lens, 257, 286);
  }

  lemma ShorterDecodable()
    ensures Decodable(Shorter(), MAX_CODE_LENGTH) && Decodable(Repeated(0, 30), MAX_CODE_LENGTH)
  {
    hide Pow2, Shorter, Kraft;
    Pow2Values();
    ShorterKraft();
    KraftStretch(Repeated(0, 30), 0, 30);
    NoKraft(Repeated(0, 30));
  }

  lemma NoKraft(lens: seq<nat>)
    ensures Kraft(lens, MAX_CODE_LENGTH, 0) == 0
  {
  }

  lemma ShorterEncodes()
    ensures Encodable(Shorter(), Repeated(0, 30), Aab())
  {
    hide Shorter;
  }

  lemma AabCost(ll: seq<nat>, dl: seq<nat>)
    requires Encodable(ll, dl, Aab())
    ensures |ll| > 256 && |ItemsBits(ll, dl, Aab())| == 2 * ll[97] + ll[98] + ll[256]
  {
    hide Encodable, ItemsBits, Aab;
    ItemsCost(ll, dl, Aab());
    AabCodes();
    var src := LitCodes(Aab());
    assert src[0] == 97 && src[2] == 98 && src[3] == 256;
    SumOfFour(97, 97, 98, 256, ll);
  }

  lemma SumOfFour(a: nat, b: nat, c: nat, d: nat, lens: seq<nat>)
    requires a < |lens| && b < |lens| && c < |lens| && d < |lens|
    ensures SumLengths([a, b, c, d], lens) == lens[a] + lens[b] + lens[c] + lens[d]
  {
    var s := [a, b, c, d];
    var t, u, v := s[1..], s[2..], s[3..];
    assert t[1..] == u && u[1..] == v && v[1..] == [];
    assert SumLengths(v, lens) == lens[d];
    assert SumLengths(u, lens) == lens[c] + SumLengths(v, lens);
    assert SumLengths(t, lens) == lens[b] + SumLengths(u, lens);
  }

  /** The codes built for "aab" take one bit more than others would: all that the second end of block can cost. */
  lemma OneBitLonger(c: BlockCodes)
    requires CodesFor(Sorter(InsertionSort), c, Aab())
    ensures var ll, dl := Shorter(), Repeated(0, 30);
            && Decodable(ll, MAX_CODE_LENGTH) && Decodable(dl, MAX_CODE_LENGTH) && Encodable(ll, dl, Aab())
            && |ItemsBits(c.ll, c.dl, Aab())| == |ItemsBits(ll, dl, Aab())| + 1
            && c.ll[END_OF_BLOCK] == 1 && ll[END_OF_BLOCK] == 2
  {
    hide TableBy, DepthsBy, Sound, Tight, Encodable, ItemsBits, Decodable, Aab, LitSymbols,
      DistSymbols, Symbols;
    TableOfCounted(c.ll);
    ShorterDecodable();
    ShorterEncodes();
    AabCost(c.ll, c.dl);
    AabCost(Shorter(), Repeated(0, 30));
  }

  /** LZ77 and the encoder run on the bytes. */
  method EncodeAab(level: nat, last: bool) returns (bs: BitStream, ghost c: BlockCodes)
    requires level < 4
    ensures fresh(bs) && bs.Valid() && Sound(c) && Encodable(c.ll, c.dl, Aab())
    ensures bs.Content() == DynamicBits(c, Aab(), last)
    ensures Encodable(Shorter(), Repeated(0, 30), Aab())
    ensures |ItemsBits(c.ll, c.dl, Aab())| == |ItemsBits(Shorter(), Repeated(0, 30), Aab())| + 1
    ensures c.dl == [1, 1]
  {
    hide Sorts, Built, NearlyShortest, Tight, Sound, Encodable, ItemsBits, DynamicBits, BitStream.Content,
      BitStream.Valid, Aab, Shorter, Parsed, Flatten;
    var dict := new LZ77Dictionary();
    var items;
    ghost var tokens;
    items, tokens := dict.Calc(AAB, level);
    AabItems(level, tokens);
    bs := new BitStream(8 * |items + [Eob]|);
    Prepend(bs.Content());
    InsertionSortSorts();
    c := EncodeDynamicBlock(bs, items + [Eob], last, Sorter(InsertionSort));
    OneBitLonger(c);
    AabCodes();
    NoDistances(Sorter(InsertionSort), c, Aab());
  }
}
