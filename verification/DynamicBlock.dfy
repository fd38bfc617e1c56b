/** Blocks with their own codes: `deflate_encode_dynamic_block` of compress/deflate.cpp. */
module DynamicBlock {
  import opened Words
  import opened Options
  import opened Canonical
  import opened BitStreams
  import opened HuffmanTrees
  import opened Inflate
  import opened Items
  import opened StaticBlock
  import opened RunLength
  import PackageMerge
  import Tables

  /** What a dynamic block sends about its codes: the two tables of lengths, their run-length codes, and
      the lengths of the code for those, of which the first n in the permuted order are sent. */
  datatype BlockCodes = BlockCodes(ll: seq<nat>, dl: seq<nat>, rl: seq<nat>, rd: seq<nat>, cl: seq<nat>, n: nat)

  // ---- the permuted order

  /** Where each symbol stands in PERMUTATION. */
  const PLACES: seq<nat> := [3, 17, 15, 13, 11, 9, 7, 5, 4, 6, 8, 10, 12, 14, 16, 18, 0, 1, 2]

  function PlaceOf(s: nat): (k: nat)
    requires s < 19
    ensures k < 19
  {
    PLACES[s]
  }

  function Permuted(k: nat): (s: nat)
    requires k < 19
    ensures s < 19
  {
    PERMUTATION[k]
  }

  lemma PlacesInvert()
    ensures forall k | 0 <= k < 19 :: Permuted(k) < 19 && PlaceOf(Permuted(k)) == k
    ensures forall s | 0 <= s < 19 :: PlaceOf(s) < 19 && Permuted(PlaceOf(s)) == s
    ensures forall s | 0 <= s < 16 :: PlaceOf(s) >= 3
  {
  }

  // ---- the bits of the header

  function ClBits(cl: seq<nat>, k: nat, n: nat): Bits
    requires k <= n <= 19 && |cl| == 19
    decreases n - k
  {
    if k == n then [] else PlacesInvert(); BitsOf(cl[Permuted(k)], 3) + ClBits(cl, k + 1, n)
  }

  /** A code of the run-length alphabet with its extra bits. */
  function LengthBits(cl: seq<nat>, code: nat): Bits
    requires |cl| == 19 && ValidCode(code)
  {
    var (x, y) := RunLengthDecode(code);
    CodeBits(cl, x) + (if x <= 15 then [] else BitsOf(y - MinCount(x), ExtraBits(x)))
  }

  /** Every code is valid and its symbol has a code length code. */
  ghost predicate Sendable(cl: seq<nat>, codes: seq<nat>) {
    |cl| == 19 && forall i | 0 <= i < |codes| :: ValidCode(codes[i]) && cl[RunLengthDecode(codes[i]).0] > 0
  }

  ghost function LengthsBits(cl: seq<nat>, codes: seq<nat>): Bits
    requires Sendable(cl, codes)
  {
    if codes == [] then [] else LengthBits(cl, codes[0]) + LengthsBits(cl, codes[1..])
  }

  /** The fields are in range, all three codes are complete, and the run-length codes stand for the tables. */
  ghost predicate Sound(c: BlockCodes) {
    && 257 <= |c.ll| <= 286 && 1 <= |c.dl| <= 30 && |c.cl| == 19 && 4 <= c.n <= 19
    && c.ll[END_OF_BLOCK] > 0
    && (forall s | 0 <= s < 19 && c.cl[s] > 0 :: PlaceOf(s) < c.n)
    && RunLength.StandsFor(c.rl, c.ll, |c.ll|) && RunLength.StandsFor(c.rd, c.dl, |c.dl|)
    && Complete(c.ll, MAX_CODE_LENGTH) && Complete(c.dl, MAX_CODE_LENGTH) && Complete(c.cl, MAX_CL_LENGTH)
    && Sendable(c.cl, c.rl + c.rd)
  }

  ghost function HeaderBits(c: BlockCodes): Bits
    requires Sound(c)
  {
    BitsOf(|c.ll| - 257, 5) + (BitsOf(|c.dl| - 1, 5) + (BitsOf(c.n - 4, 4)
    + (ClBits(c.cl, 0, c.n) + LengthsBits(c.cl, c.rl + c.rd))))
  }

  ghost function DynamicBits(c: BlockCodes, items: seq<LZ77Item>, last: bool): Bits
    requires Sound(c) && Encodable(c.ll, c.dl, items)
  {
    BlockHeader(last, 2) + (HeaderBits(c) + ItemsBits(c.ll, c.dl, items))
  }

  /** The order in which the lengths of the code length code are sent: the three repeat symbols, 0, and then
      8, 7, 9, 6 and so on outwards. */
  lemma SentOrder(j: nat)
    ensures |PERMUTATION| == 19 && PERMUTATION[..4] == [16, 17, 18, 0]
    ensures j < 8 ==> PERMUTATION[4 + 2 * j] == 8 + j
    ensures j < 7 ==> PERMUTATION[5 + 2 * j] == 7 - j
  {
  }

  /** A dynamic block in numbers: the mark and the type 10, the sizes of its three tables in 5, 5 and 4 bits, the
      lengths of the code length code, the run-length codes of the literal and of the distance lengths, the items. */
  lemma DynamicLayout(c: BlockCodes, items: seq<LZ77Item>, last: bool)
    requires Sound(c) && Encodable(c.ll, c.dl, items)
    ensures Sendable(c.cl, c.rl) && Sendable(c.cl, c.rd)
    ensures DynamicBits(c, items, last)
         == [last, false, true] + BitsOf(|c.ll| - 257, 5) + BitsOf(|c.dl| - 1, 5) + BitsOf(c.n - 4, 4)
          + ClBits(c.cl, 0, c.n) + LengthsBits(c.cl, c.rl) + LengthsBits(c.cl, c.rd) + ItemsBits(c.ll, c.dl, items)
  {
    assert BlockHeader(last, 2) == [last, false, true] by { assert BitsOf(2, 2) == [false, true]; }
    hide BitsOf, BlockHeader, ClBits, LengthsBits, Complete, RunLength.StandsFor, Sendable, Encodable, ItemsBits;
    SendableParts(c.cl, c.rl, c.rd);
    HeaderNested(c);
    LengthsBitsConcat(c.cl, c.rl, c.rd);
    hide Sound, HeaderBits;
    Ungroup(BlockHeader(last, 2), BitsOf(|c.ll| - 257, 5), BitsOf(|c.dl| - 1, 5), BitsOf(c.n - 4, 4),
            ClBits(c.cl, 0, c.n), LengthsBits(c.cl, c.rl), LengthsBits(c.cl, c.rd), ItemsBits(c.ll, c.dl, items));
  }

  lemma HeaderNested(c: BlockCodes)
    requires Sound(c)
    ensures HeaderBits(c)
         == BitsOf(|c.ll| - 257, 5) + (BitsOf(|c.dl| - 1, 5) + (BitsOf(c.n - 4, 4)
          + (ClBits(c.cl, 0, c.n) + LengthsBits(c.cl, c.rl + c.rd))))
  {
    hide BitsOf, ClBits, LengthsBits, Complete, RunLength.StandsFor, Sendable;
  }

  lemma Ungroup(h: Bits, u: Bits, v: Bits, w: Bits, x: Bits, y: Bits, z: Bits, items: Bits)
    ensures h + ((u + (v + (w + (x + (y + z))))) + items) == h + u + v + w + x + y + z + items
  {
    var t := x + (y + z);
    assert t == x + y + z;
    assert u + (v + (w + t)) == u + v + w + t;
  }

  lemma {:induction false} ClBitsAt(cl: seq<nat>, i: nat, n: nat, k: nat)
    requires i <= n <= 19 && |cl| == 19
    ensures |ClBits(cl, i, n)| == 3 * (n - i)
    ensures i <= k < n ==> ClBits(cl, i, n)[3 * (k - i)..3 * (k - i) + 3] == BitsOf(cl[Permuted(k)], 3)
    decreases n - i
  {
    hide Permuted, BitsOf;
    if i < n {
      var w, rest := BitsOf(cl[Permuted(i)], 3), ClBits(cl, i + 1, n);
      ClBitsAt(cl, i + 1, n, k);
      assert ClBits(cl, i, n) == w + rest;
      if i < k < n {
        assert (w + rest)[3 * (k - i)..3 * (k - i) + 3] == rest[3 * (k - i - 1)..3 * (k - i - 1) + 3];
      }
    }
  }

  /** The header sends, after its 14 bits of sizes, three bits for each of the first n symbols of that order. */
  lemma SentAt(c: BlockCodes, k: nat, s: nat)
    requires Sound(c) && k < c.n
    requires s == if k < 3 then 16 + k else if k == 3 then 0
                  else if k % 2 == 0 then 8 + (k - 4) / 2 else 7 - (k - 5) / 2
    ensures 14 + 3 * c.n <= |HeaderBits(c)|
    ensures HeaderBits(c)[14 + 3 * k..14 + 3 * k + 3] == BitsOf(c.cl[s], 3)
  {
    hide BitsOf, ClBits, LengthsBits, Complete, RunLength.StandsFor, Sendable, Permuted;
    ClBitsAt(c.cl, 0, c.n, k);
    PermutedTo(k, s);
    var u, v, w := BitsOf(|c.ll| - 257, 5), BitsOf(|c.dl| - 1, 5), BitsOf(c.n - 4, 4);
    var sent := ClBits(c.cl, 0, c.n);
    Inside(u, v, w, sent, LengthsBits(c.cl, c.rl + c.rd), 3 * k, 3);
  }

  /** No length is sent that need not be: the last one sent is used, and none after it is. */
  lemma LastSent(c: BlockCodes, items: seq<LZ77Item>, k: nat, s: nat)
    requires (forall i | 0 <= i < |items| :: ValidItem(items[i])) && Sound(c) && Tight(c, items) && k < 19
    requires s == if k < 3 then 16 + k else if k == 3 then 0
                  else if k % 2 == 0 then 8 + (k - 4) / 2 else 7 - (k - 5) / 2
    ensures k >= c.n ==> c.cl[s] == 0
    ensures k == c.n - 1 ==> c.cl[s] > 0
  {
    hide Complete, RunLength.StandsFor, Sendable, BestFor, Permuted, PlaceOf, EntryOf, ValidItem;
    PermutedTo(k, s);
    PlacesInvert();
    assert PlaceOf(Permuted(k)) == k;
  }

  lemma PermutedTo(k: nat, s: nat)
    requires k < 19
    requires s == if k < 3 then 16 + k else if k == 3 then 0
                  else if k % 2 == 0 then 8 + (k - 4) / 2 else 7 - (k - 5) / 2
    ensures Permuted(k) == s
  {
    if k >= 4 {
      SentOrder((k - 4) / 2);
    }
    assert k < 4 ==> PERMUTATION[k] == PERMUTATION[..4][k];
  }

  lemma Inside(a: Bits, b: Bits, c: Bits, d: Bits, e: Bits, i: nat, n: nat)
    requires i + n <= |d|
    ensures var p := |a| + |b| + |c| + i;
            (a + (b + (c + (d + e))))[p..p + n] == d[i..i + n]
  {
  }

  // ---- reading the code length code

  /** The lengths read after the first k. */
  ghost function Partial(cl: seq<nat>, k: nat): (r: seq<nat>)
    requires |cl| == 19
    ensures |r| == 19
  {
    seq(19, s requires 0 <= s < 19 => if PlaceOf(s) < k then cl[s] else 0)
  }

  lemma {:induction false} ReadClWritten(cl: seq<nat>, bits: Bits, pos: nat, k: nat, n: nat)
    requires k <= n <= 19 && |cl| == 19 && forall s | 0 <= s < 19 :: cl[s] <= MAX_CL_LENGTH
    requires At(bits, pos, ClBits(cl, k, n))
    ensures ReadClLengths(bits, pos, k, n, Partial(cl, k)) == Some(Partial(cl, n))
    ensures |ClBits(cl, k, n)| == 3 * (n - k)
    decreases n - k
  {
    PlacesInvert();
    hide PlaceOf, At;
    if k < n {
      var s := Permuted(k);
      AtConcat(bits, pos, BitsOf(cl[s], 3), ClBits(cl, k + 1, n));
      Pow2Values();
      ReadWritten(bits, pos, cl[s], 3);
      assert Partial(cl, k)[s := cl[s]] == Partial(cl, k + 1);
      ReadClWritten(cl, bits, pos + 3, k + 1, n);
    }
  }

  // ---- reading the code lengths

  lemma {:induction false} ExpandHead(codes: seq<nat>, lens: seq<nat>)
    requires codes != []
    ensures var (x, y) := RunLengthDecode(codes[0]);
            Expand(codes, lens) == match ExpandOne(lens, x, y)
                                   case None => None
                                   case Some(next) => Expand(codes[1..], next)
    decreases |codes|
  {
    hide RunLengthDecode, ExpandOne;
    var init := codes[..|codes| - 1];
    if |codes| == 1 {
      assert init == [];
    } else {
      ExpandHead(init, lens);
      assert init[1..] == codes[1..][..|codes| - 2];
    }
  }

  lemma {:induction false} ExpandConcat(a: seq<nat>, b: seq<nat>, lens: seq<nat>)
    requires Expand(a, lens).Some?
    ensures Expand(a + b, lens) == Expand(b, Expand(a, lens).value)
    decreases |b|
  {
    hide RunLengthDecode, ExpandOne;
    if b == [] {
      assert a + b == a;
    } else {
      assert (a + b)[..|a + b| - 1] == a + b[..|b| - 1];
      ExpandConcat(a, b[..|b| - 1], lens);
    }
  }

  /** Every code stands for at least one length. */
  lemma {:induction false} ExpandGrows(codes: seq<nat>, lens: seq<nat>)
    requires (forall c | c in codes :: ValidCode(c)) && Expand(codes, lens).Some?
    ensures |Expand(codes, lens).value| >= |lens| + |codes|
    decreases |codes|
  {
    if codes != [] {
      ExpandGrows(codes[..|codes| - 1], lens);
      OneGrows(Expand(codes[..|codes| - 1], lens).value, codes[|codes| - 1]);
    }
  }

  lemma OneGrows(lens: seq<nat>, code: nat)
    requires ValidCode(code)
    ensures var (x, y) := RunLengthDecode(code);
            ExpandOne(lens, x, y).Some? ==> |ExpandOne(lens, x, y).value| > |lens|
  {
  }

  lemma {:induction false} DecodeLengthsWritten(cl: seq<nat>, codes: seq<nat>, bits: Bits, pos: nat,
                                                lens: seq<nat>, all: seq<nat>)
    requires Decodable(cl, MAX_CL_LENGTH) && Sendable(cl, codes)
    requires Expand(codes, lens) == Some(all)
    requires At(bits, pos, LengthsBits(cl, codes))
    ensures DecodeLengths(cl, bits, pos, lens, |all|) == Some((all, pos + |LengthsBits(cl, codes)|))
    decreases |codes|
  {
    hide Decodable, DecodeSymbol, At, RunLengthDecode, ExpandOne, LengthBits, Expand, ReadBits, ValidCode;
    ExpandGrows(codes, lens);
    if codes == [] {
      assert Expand(codes, lens) == Some(lens) by { ExpandNothing(lens); }
    } else {
      AtConcat(bits, pos, LengthBits(cl, codes[0]), LengthsBits(cl, codes[1..]));
      ExpandHead(codes, lens);
      var (x, y) := RunLengthDecode(codes[0]);
      var next := ExpandOne(lens, x, y).value;
      var p := pos + |LengthBits(cl, codes[0])|;
      ReadLengthCode(cl, codes[0], bits, pos);
      DecodeLengthsWritten(cl, codes[1..], bits, p, next, all);
      LengthStep(cl, codes[0], bits, pos, lens, |all|);
    }
  }

  lemma ExpandNothing(lens: seq<nat>)
    ensures Expand([], lens) == Some(lens)
  {
  }

  lemma LengthStep(cl: seq<nat>, code: nat, bits: Bits, pos: nat, lens: seq<nat>, need: nat)
    requires |lens| < need
    requires var (x, y) := RunLengthDecode(code);
             && DecodeSymbol(cl, bits, pos).Some? && DecodeSymbol(cl, bits, pos).value.0 == x
             && ReadBits(bits, DecodeSymbol(cl, bits, pos).value.1, ExtraBits(x)).Some?
             && ExpandOne(lens, x, MinCount(x)
                                   + ReadBits(bits, DecodeSymbol(cl, bits, pos).value.1, ExtraBits(x)).value)
                == ExpandOne(lens, x, y) != None
    ensures var (x, y) := RunLengthDecode(code);
            var next := DecodeSymbol(cl, bits, pos).value.1 + ExtraBits(x);
            DecodeLengths(cl, bits, pos, lens, need)
            == DecodeLengths(cl, bits, next, ExpandOne(lens, x, y).value, need)
  {
    hide RunLengthDecode, DecodeSymbol, ReadBits, ExpandOne, ExtraBits, MinCount;
  }

  /** A run-length code at pos is read as its symbol and count. */
  lemma ReadLengthCode(cl: seq<nat>, code: nat, bits: Bits, pos: nat)
    requires Decodable(cl, MAX_CL_LENGTH) && |cl| == 19 && ValidCode(code) && cl[RunLengthDecode(code).0] > 0
    requires At(bits, pos, LengthBits(cl, code))
    ensures var (x, y) := RunLengthDecode(code);
            && DecodeSymbol(cl, bits, pos) == Some((x, pos + cl[x]))
            && ReadBits(bits, pos + cl[x], ExtraBits(x)).Some?
            && (forall lens :: ExpandOne(lens, x, MinCount(x) + ReadBits(bits, pos + cl[x], ExtraBits(x)).value)
                               == ExpandOne(lens, x, y))
            && pos + |LengthBits(cl, code)| == pos + cl[x] + ExtraBits(x)
  {
    hide Decodable, DecodeSymbol, At, RunLengthDecode, CodeBits, ReadBits;
    var (x, y) := RunLengthDecode(code);
    var extra := if x <= 15 then [] else BitsOf(y - MinCount(x), ExtraBits(x));
    AtConcat(bits, pos, CodeBits(cl, x), extra);
    DecodeWritten(cl, MAX_CL_LENGTH, x, bits, pos);
    if x <= 15 {
      assert extra == BitsOf(0, 0) && Pow2(0) == 1;
      ReadWritten(bits, pos + cl[x], 0, 0);
    } else {
      ReadWritten(bits, pos + cl[x], y - MinCount(x), ExtraBits(x));
    }
  }

  // ---- round trip

  /** The header is decoded to the two tables. */
  lemma HeaderRoundTrip(c: BlockCodes, bits: Bits, pos: nat)
    requires Sound(c) && At(bits, pos, HeaderBits(c))
    ensures DecodeHeader(bits, pos) == Some((c.ll, c.dl, pos + |HeaderBits(c)|))
  {
    hide At, Complete, ClBits, LengthsBits, RunLength.StandsFor, ReadClLengths, DecodeLengths, ReadBits, Sendable,
      Decodable, BitsOf, Partial;
    var w1, w2, w3 := BitsOf(|c.ll| - 257, 5), BitsOf(|c.dl| - 1, 5), BitsOf(c.n - 4, 4);
    var w4, w5 := ClBits(c.cl, 0, c.n), LengthsBits(c.cl, c.rl + c.rd);
    AtFive(bits, pos, w1, w2, w3, w4, w5);
    Pow2Values();
    ReadWritten(bits, pos, |c.ll| - 257, 5);
    ReadWritten(bits, pos + 5, |c.dl| - 1, 5);
    ReadWritten(bits, pos + 10, c.n - 4, 4);
    CompleteBounds(c.cl, MAX_CL_LENGTH);
    ReadClWritten(c.cl, bits, pos + 14, 0, c.n);
    PartialEnds(c);
    TablesExpand(c);
    DecodeLengthsWritten(c.cl, c.rl + c.rd, bits, pos + 14 + 3 * c.n, [], c.ll + c.dl);
    assert (c.ll + c.dl)[..|c.ll|] == c.ll && (c.ll + c.dl)[|c.ll|..] == c.dl;
  }

  lemma PartialEnds(c: BlockCodes)
    requires Sound(c)
    ensures Partial(c.cl, 0) == seq(19, _ => 0) && Partial(c.cl, c.n) == c.cl
  {
    hide Complete, RunLength.StandsFor, Sendable;
  }

  lemma CompleteBounds(lens: seq<nat>, L: nat)
    requires Complete(lens, L)
    ensures Decodable(lens, L) && forall s | 0 <= s < |lens| :: lens[s] <= L
  {
  }

  /** The codes of both tables, one after the other, stand for both tables. */
  lemma TablesExpand(c: BlockCodes)
    requires Sound(c)
    ensures Expand(c.rl + c.rd, []) == Some(c.ll + c.dl)
  {
    hide Expand;
    ExpandConcat(c.rl, c.rd, []);
    assert Expand(c.rl, []) == Some([] + c.ll[..|c.ll|]);
    assert [] + c.ll[..|c.ll|] == c.ll && c.dl[..|c.dl|] == c.dl;
  }

  /** A dynamic block is decoded to the expansion of its tokens, at any position and after any output. */
  lemma DynamicRoundTrip(c: BlockCodes, tokens: seq<Token>, last: bool, bits: Bits, pos: nat, out: ByteSeq)
    requires Sound(c) && ValidTokens(tokens) && Apply(tokens, out).Some?
    requires Encodable(c.ll, c.dl, BlockItems(tokens))
    requires At(bits, pos, DynamicBits(c, BlockItems(tokens), last))
    ensures DecodeBlock(bits, pos, out)
         == Some((Apply(tokens, out).value, last, pos + |DynamicBits(c, BlockItems(tokens), last)|))
  {
    hide At, Encodable, ItemsBits, DecodeTokens, ReadBits, BlockHeader, ValidTokens, Apply, Decodable, DecodeHeader,
      DecodeStored, BlockItems, HeaderBits, Complete, RunLength.StandsFor, Sendable;
    var w := ItemsBits(c.ll, c.dl, BlockItems(tokens));
    AtConcat(bits, pos, BlockHeader(last, 2), HeaderBits(c) + w);
    AtConcat(bits, pos + 3, HeaderBits(c), w);
    ReadHeader(bits, pos, last, 2);
    HeaderRoundTrip(c, bits, pos + 3);
    CompleteBounds(c.ll, MAX_CODE_LENGTH);
    CompleteBounds(c.dl, MAX_CODE_LENGTH);
    DecodeItems(c.ll, c.dl, tokens, bits, pos + 3 + |HeaderBits(c)|);
  }

  // ---- what the codes cost

  /** All symbols of src are below n. */
  ghost predicate Within(src: seq<nat>, n: nat) {
    forall i | 0 <= i < |src| :: src[i] < n
  }

  /** The bits the codes of a sequence of symbols take. */
  ghost function SumLengths(src: seq<nat>, lens: seq<nat>): nat
    requires Within(src, |lens|)
  {
    if src == [] then 0 else lens[src[0]] + SumLengths(src[1..], lens)
  }

  function LitCodes(items: seq<LZ77Item>): seq<nat>
    requires forall i | 0 <= i < |items| :: ValidItem(items[i])
  {
    if items == [] then []
    else (if items[0].Distance? then [] else [EntryOf(items[0]).code]) + LitCodes(items[1..])
  }

  function DistCodes(items: seq<LZ77Item>): seq<nat>
    requires forall i | 0 <= i < |items| :: ValidItem(items[i])
  {
    if items == [] then []
    else (if items[0].Distance? then [EntryOf(items[0]).code] else []) + DistCodes(items[1..])
  }

  function ExtraTotal(items: seq<LZ77Item>): nat
    requires forall i | 0 <= i < |items| :: ValidItem(items[i])
  {
    if items == [] then 0 else EntryOf(items[0]).nExtra + ExtraTotal(items[1..])
  }

  lemma {:induction false} SumConcat(a: seq<nat>, b: seq<nat>, lens: seq<nat>)
    requires Within(a, |lens|) && Within(b, |lens|)
    ensures Within(a + b, |lens|)
    ensures SumLengths(a + b, lens) == SumLengths(a, lens) + SumLengths(b, lens)
  {
    if a == [] {
      assert a + b == b;
    } else {
      assert (a + b)[1..] == a[1..] + b;
      SumConcat(a[1..], b, lens);
    }
  }

  /** The data of a block is its symbols' codes and their extra bits. */
  lemma {:induction false} ItemsCost(ll: seq<nat>, dl: seq<nat>, items: seq<LZ77Item>)
    requires Encodable(ll, dl, items)
    ensures Within(LitCodes(items), |ll|) && Within(DistCodes(items), |dl|)
    ensures |ItemsBits(ll, dl, items)|
         == SumLengths(LitCodes(items), ll) + SumLengths(DistCodes(items), dl) + ExtraTotal(items)
  {
    hide EntryOf, ItemBits, SumLengths;
    NoSymbols(ll, dl);
    if items != [] {
      ItemsCost(ll, dl, items[1..]);
      var code := EntryOf(items[0]).code;
      assert ValidItem(items[0]) && HasCode(ll, dl, items[0]);
      ItemSize(ll, dl, items[0]);
      if items[0].Distance? {
        assert LitCodes(items) == LitCodes(items[1..]);
        SumCons(code, DistCodes(items[1..]), dl);
      } else {
        assert DistCodes(items) == DistCodes(items[1..]);
        SumCons(code, LitCodes(items[1..]), ll);
      }
    }
  }

  lemma SumCons(code: nat, codes: seq<nat>, lens: seq<nat>)
    requires code < |lens| && Within(codes, |lens|)
    ensures Within([code] + codes, |lens|) && SumLengths([code] + codes, lens) == lens[code] + SumLengths(codes, lens)
  {
    assert ([code] + codes)[1..] == codes;
  }

  lemma NoSymbols(ll: seq<nat>, dl: seq<nat>)
    ensures SumLengths([], ll) == 0 == SumLengths([], dl)
  {
  }

  lemma ItemSize(ll: seq<nat>, dl: seq<nat>, item: LZ77Item)
    requires ValidItem(item) && HasCode(ll, dl, item)
    ensures |ItemBits(ll, dl, item)| == (if item.Distance? then dl else ll)[EntryOf(item).code] + EntryOf(item).nExtra
  {
    hide EntryOf, CodeBits, BitsOf;
  }

  lemma {:induction false} CostStep(f: seq<nat>, lens: seq<nat>, x: nat, k: nat)
    requires k <= |f| == |lens| && x < |f|
    ensures CostTo(f[x := f[x] + 1], lens, k) == CostTo(f, lens, k) + (if x < k then lens[x] else 0)
  {
    if k > 0 {
      CostStep(f, lens, x, k - 1);
      assert (f[k - 1] + 1) * lens[k - 1] == f[k - 1] * lens[k - 1] + lens[k - 1];
    }
  }

  lemma {:induction false} CostOfNothing(lens: seq<nat>, k: nat)
    requires k <= |lens|
    ensures CostTo(Frequencies([], |lens|), lens, k) == 0
  {
    if k > 0 {
      CostOfNothing(lens, k - 1);
      assert 0 * lens[k - 1] == 0;
    }
  }

  /** Summing code lengths symbol by symbol or frequency by frequency is the same. */
  lemma {:induction false} SumIsCost(src: seq<nat>, lens: seq<nat>)
    requires Within(src, |lens|)
    ensures SumLengths(src, lens) == CostTo(Frequencies(src, |lens|), lens, |lens|)
  {
    if src == [] {
      CostOfNothing(lens, |lens|);
    } else {
      SumIsCost(src[1..], lens);
      var f := Frequencies(src[1..], |lens|);
      assert src == [src[0]] + src[1..];
      assert Frequencies(src, |lens|) == f[src[0] := f[src[0]] + 1];
      CostStep(f, lens, src[0], |lens|);
    }
  }

  /** No code lengths of at most L for n symbols encode src in fewer bits. */
  ghost predicate Shortest(lens: seq<nat>, src: seq<nat>, n: nat, L: nat)
    requires Within(src, |lens|)
  {
    forall other: seq<nat> | |other| == n && Decodable(other, L) && Covers(other, src) ::
      SumLengths(src, lens) <= SumLengths(src, other)
  }

  /** The codes are optimal for the items with one more end-of-block than they hold, since the encoder
      counts it twice: other codes of at most 15 bits for the same data can save no more than the
      difference of their end-of-block codes. */
  ghost predicate NearlyShortest(c: BlockCodes, items: seq<LZ77Item>)
    requires Encodable(c.ll, c.dl, items) && |c.ll| >= 257
  {
    forall ll: seq<nat>, dl: seq<nat> |
      && |ll| == 286 && |dl| == 30 && Decodable(ll, MAX_CODE_LENGTH) && Decodable(dl, MAX_CODE_LENGTH)
      && Encodable(ll, dl, items) && ll[END_OF_BLOCK] > 0 ::
        |ItemsBits(c.ll, c.dl, items)| + c.ll[END_OF_BLOCK] <= |ItemsBits(ll, dl, items)| + ll[END_OF_BLOCK]
  }

  /** The symbols whose frequencies the two data codes are built from: the end of block is counted twice,
      and a block without copies counts distance code 0. */
  function LitSymbols(items: seq<LZ77Item>): seq<nat>
    requires forall i | 0 <= i < |items| :: ValidItem(items[i])
  {
    LitCodes(items) + [END_OF_BLOCK]
  }

  function DistSymbols(items: seq<LZ77Item>): seq<nat>
    requires forall i | 0 <= i < |items| :: ValidItem(items[i])
  {
    if DistCodes(items) == [] then [0] else DistCodes(items)
  }

  /** The run-length symbols of both tables. */
  ghost function Symbols(codes: seq<nat>): (symbols: seq<nat>)
    ensures |symbols| == |codes|
  {
    seq(|codes|, i requires 0 <= i < |codes| => RunLengthDecode(codes[i]).0)
  }

  /** lens has a code for every symbol of src, and no code of n symbols and at most L bits is shorter. */
  ghost predicate BestFor(lens: seq<nat>, src: seq<nat>, n: nat, L: nat) {
    Covers(lens, src) && Shortest(lens, src, n, L)
  }

  /** Nothing is sent that need not be: each code is the best for its symbols, the tables and the permuted
      code length code end with a length that is used, and the tables are run-length coded as they should be. */
  ghost predicate Tight(c: BlockCodes, items: seq<LZ77Item>)
    requires forall i | 0 <= i < |items| :: ValidItem(items[i])
  {
    && BestFor(c.ll, LitSymbols(items), 286, MAX_CODE_LENGTH) && BestFor(c.dl, DistSymbols(items), 30, MAX_CODE_LENGTH)
    && c.ll != [] && c.ll[|c.ll| - 1] > 0 && c.dl != [] && c.dl[|c.dl| - 1] > 0
    && c.rl == RunCodes(c.ll, 0) && c.rd == RunCodes(c.dl, 0)
    && BestFor(c.cl, Symbols(c.rl + c.rd), 19, MAX_CL_LENGTH)
    && 1 <= c.n <= 19 && |c.cl| == 19 && c.cl[Permuted(c.n - 1)] > 0
  }

  /** lens is the table of the depths for src, without the unused symbols at its end. */
  ghost predicate TableBy(sort: Sorter, lens: seq<nat>, src: seq<nat>, n: nat, L: nat) {
    exists dep: seq<nat> ::
      && DepthsBy(sort, dep, Frequencies(src, n), L)
      && 0 < |lens| <= |dep| && lens == dep[..|lens|] && lens[|lens| - 1] > 0
      && forall s | |lens| <= s < |dep| :: dep[s] == 0
  }

  lemma TableUnique(sort: Sorter, a: seq<nat>, b: seq<nat>, src: seq<nat>, n: nat, L: nat)
    requires TableBy(sort, a, src, n, L) && TableBy(sort, b, src, n, L)
    ensures a == b
  {
    hide DepthsBy;
    var d: seq<nat> :| DepthsBy(sort, d, Frequencies(src, n), L) && 0 < |a| <= |d| && a == d[..|a|]
                       && a[|a| - 1] > 0 && forall s | |a| <= s < |d| :: d[s] == 0;
    var e: seq<nat> :| DepthsBy(sort, e, Frequencies(src, n), L) && 0 < |b| <= |e| && b == e[..|b|]
                       && b[|b| - 1] > 0 && forall s | |b| <= s < |e| :: e[s] == 0;
    DepthsUnique(sort, d, e, Frequencies(src, n), L);
    assert d[|a| - 1] > 0 && d[|b| - 1] > 0;
  }

  /** The codes are the ones the construction gives for the items under a given sort. */
  ghost predicate Built(sort: Sorter, c: BlockCodes, items: seq<LZ77Item>)
    requires forall i | 0 <= i < |items| :: ValidItem(items[i])
  {
    && TableBy(sort, c.ll, LitSymbols(items), 286, MAX_CODE_LENGTH)
    && TableBy(sort, c.dl, DistSymbols(items), 30, MAX_CODE_LENGTH)
    && c.rl == RunCodes(c.ll, 0) && c.rd == RunCodes(c.dl, 0)
    && DepthsBy(sort, c.cl, Frequencies(Symbols(c.rl + c.rd), 19), MAX_CL_LENGTH)
    && 1 <= c.n <= 19 && |c.cl| == 19 && c.cl[Permuted(c.n - 1)] > 0
    && forall s | 0 <= s < 19 && c.cl[s] > 0 :: PlaceOf(s) < c.n
  }

  /** The items and the order of ties fix all that a dynamic block sends. */
  lemma BuiltUnique(sort: Sorter, a: BlockCodes, b: BlockCodes, items: seq<LZ77Item>)
    requires forall i | 0 <= i < |items| :: ValidItem(items[i])
    requires Built(sort, a, items) && Built(sort, b, items)
    ensures a == b
  {
    hide TableBy, DepthsBy, RunCodes, Symbols, ValidItem;
    TableUnique(sort, a.ll, b.ll, LitSymbols(items), 286, MAX_CODE_LENGTH);
    TableUnique(sort, a.dl, b.dl, DistSymbols(items), 30, MAX_CODE_LENGTH);
    DepthsUnique(sort, a.cl, b.cl, Frequencies(Symbols(a.rl + a.rd), 19), MAX_CL_LENGTH);
    PlacesInvert();
    assert PlaceOf(Permuted(a.n - 1)) == a.n - 1 < b.n && PlaceOf(Permuted(b.n - 1)) == b.n - 1 < a.n;
  }

  /** A table for one symbol has one bit for it and one for the lowest other symbol. */
  lemma LoneTable(sort: Sorter, lens: seq<nat>, src: seq<nat>, n: nat, L: nat, x: nat)
    requires Sorts(sort) && L >= 1 && x < n && n >= 2 && src != [] && forall y | y in src :: y == x
    requires TableBy(sort, lens, src, n, L)
    ensures lens == if x == 0 then [1, 1] else [1] + Repeated(0, x - 1) + [1]
  {
    hide DepthsBy, Sorts, Frequencies;
    var dep: seq<nat> :| DepthsBy(sort, dep, Frequencies(src, n), L) && 0 < |lens| <= |dep| && lens == dep[..|lens|]
                         && lens[|lens| - 1] > 0 && forall s | |lens| <= s < |dep| :: dep[s] == 0;
    LoneDepths(sort, dep, src, n, L, x);
    var last := if x == 0 then 1 else x;
    assert dep[last] == 1 && dep[|lens| - 1] == lens[|lens| - 1];
    assert |lens| == last + 1;
  }

  /** A block without copies sends a distance table of two codes of one bit. */
  lemma NoDistances(sort: Sorter, c: BlockCodes, items: seq<LZ77Item>)
    requires (forall i | 0 <= i < |items| :: ValidItem(items[i])) && Sorts(sort) && Built(sort, c, items)
    requires DistCodes(items) == []
    ensures c.dl == [1, 1]
  {
    hide TableBy, Sorts, ValidItem;
    LoneTable(sort, c.dl, DistSymbols(items), 30, MAX_CODE_LENGTH, 0);
  }

  /** The code for the run-length symbols is the best of all that fit seven bits. */
  lemma BestOfSeven(c: BlockCodes, items: seq<LZ77Item>, other: seq<nat>)
    requires (forall i | 0 <= i < |items| :: ValidItem(items[i])) && Sound(c) && Tight(c, items)
    requires |other| == 19 && (forall s | 0 <= s < 19 :: other[s] <= 7) && Kraft(other, 7, 19) <= 128
    requires Covers(other, Symbols(c.rl + c.rd))
    ensures (forall s | 0 <= s < 19 :: c.cl[s] <= 7) && Kraft(c.cl, 7, 19) == 128
    ensures SumLengths(Symbols(c.rl + c.rd), c.cl) <= SumLengths(Symbols(c.rl + c.rd), other)
  {
    hide Kraft, Symbols, SumLengths, ValidItem, RunLength.StandsFor, LitSymbols, DistSymbols;
    Pow2Values();
    assert BestFor(c.cl, Symbols(c.rl + c.rd), 19, MAX_CL_LENGTH);
  }

  /** The codes for the data are the best of all that fit fifteen bits, for what they were counted from. */
  lemma BestOfFifteen(c: BlockCodes, items: seq<LZ77Item>, ll: seq<nat>, dl: seq<nat>)
    requires (forall i | 0 <= i < |items| :: ValidItem(items[i])) && Sound(c) && Tight(c, items)
    requires |ll| == 286 && (forall s | 0 <= s < 286 :: ll[s] <= 15) && Kraft(ll, 15, 286) <= 32768
    requires |dl| == 30 && (forall s | 0 <= s < 30 :: dl[s] <= 15) && Kraft(dl, 15, 30) <= 32768
    requires Covers(ll, LitSymbols(items)) && Covers(dl, DistSymbols(items))
    ensures SumLengths(LitSymbols(items), c.ll) <= SumLengths(LitSymbols(items), ll)
    ensures SumLengths(DistSymbols(items), c.dl) <= SumLengths(DistSymbols(items), dl)
  {
    hide Kraft, Symbols, SumLengths, ValidItem, RunLength.StandsFor, LitSymbols, DistSymbols;
    Pow2Values();
    assert BestFor(c.ll, LitSymbols(items), 286, MAX_CODE_LENGTH);
    assert BestFor(c.dl, DistSymbols(items), 30, MAX_CODE_LENGTH);
  }

  lemma CodesNearlyShortest(c: BlockCodes, items: seq<LZ77Item>, litLen: seq<nat>, dis: seq<nat>)
    requires Encodable(c.ll, c.dl, items) && |c.ll| >= 257 && Collected(items, litLen, dis)
    requires Covers(c.ll, litLen) && Covers(c.dl, dis)
    requires Shortest(c.ll, litLen, 286, MAX_CODE_LENGTH) && Shortest(c.dl, dis, 30, MAX_CODE_LENGTH)
    ensures NearlyShortest(c, items)
  {
    forall ll: seq<nat>, dl: seq<nat> |
      && |ll| == 286 && |dl| == 30 && Decodable(ll, MAX_CODE_LENGTH) && Decodable(dl, MAX_CODE_LENGTH)
      && Encodable(ll, dl, items) && ll[END_OF_BLOCK] > 0
      ensures |ItemsBits(c.ll, c.dl, items)| + c.ll[END_OF_BLOCK] <= |ItemsBits(ll, dl, items)| + ll[END_OF_BLOCK]
    {
      LitShorter(c.ll, ll, items, litLen, dis) by { LitCovered(ll, dl, items); }
      DistShorter(c.dl, dl, items, litLen, dis) by { LitCovered(ll, dl, items); }
      hide Collected, Covers, Shortest, Decodable, ItemsBits;
      ItemsCost(c.ll, c.dl, items);
      ItemsCost(ll, dl, items);
    }
  }

  lemma {:induction false} LitCovered(ll: seq<nat>, dl: seq<nat>, items: seq<LZ77Item>)
    requires Encodable(ll, dl, items)
    ensures Covers(ll, LitCodes(items)) && Covers(dl, DistCodes(items))
  {
    hide EntryOf, ValidItem, Covers;
    CoversNone(ll);
    CoversNone(dl);
    if items != [] {
      assert HasCode(ll, dl, items[0]);
      var x := EntryOf(items[0]).code;
      LitCovered(ll, dl, items[1..]);
      if items[0].Distance? {
        CoversCons(dl, x, DistCodes(items[1..]));
        assert [] + LitCodes(items[1..]) == LitCodes(items[1..]);
      } else {
        CoversCons(ll, x, LitCodes(items[1..]));
        assert [] + DistCodes(items[1..]) == DistCodes(items[1..]);
      }
    }
  }

  lemma CoversNone(lens: seq<nat>)
    ensures Covers(lens, [])
  {
  }

  lemma CoversCons(lens: seq<nat>, x: nat, src: seq<nat>)
    requires x < |lens| && lens[x] > 0 && Covers(lens, src)
    ensures Covers(lens, [x] + src)
  {
  }

  lemma LitShorter(mine: seq<nat>, ll: seq<nat>, items: seq<LZ77Item>, litLen: seq<nat>, dis: seq<nat>)
    requires Collected(items, litLen, dis) && Covers(mine, litLen) && Shortest(mine, litLen, 286, MAX_CODE_LENGTH)
    requires |ll| == 286 && Decodable(ll, MAX_CODE_LENGTH) && Covers(ll, LitCodes(items)) && ll[END_OF_BLOCK] > 0
    ensures Covers(mine, LitCodes(items)) && END_OF_BLOCK < |mine|
    ensures SumLengths(LitCodes(items), mine) + mine[END_OF_BLOCK] <= SumLengths(LitCodes(items), ll) + ll[END_OF_BLOCK]
  {
    hide LitCodes, DistCodes, Decodable;
    var codes := LitCodes(items);
    assert litLen == codes + [END_OF_BLOCK];
    assert forall i | 0 <= i < |codes| :: codes[i] == litLen[i];
    assert litLen[|codes|] == END_OF_BLOCK;
    SumConcat(codes, [END_OF_BLOCK], mine);
    SumConcat(codes, [END_OF_BLOCK], ll);
    assert SumLengths([END_OF_BLOCK], mine) == mine[END_OF_BLOCK] + SumLengths([], mine);
    assert SumLengths([END_OF_BLOCK], ll) == ll[END_OF_BLOCK] + SumLengths([], ll);
  }

  lemma DistShorter(mine: seq<nat>, dl: seq<nat>, items: seq<LZ77Item>, litLen: seq<nat>, dis: seq<nat>)
    requires Collected(items, litLen, dis) && Covers(mine, dis) && Shortest(mine, dis, 30, MAX_CODE_LENGTH)
    requires |dl| == 30 && Decodable(dl, MAX_CODE_LENGTH) && Covers(dl, DistCodes(items))
    ensures Covers(mine, DistCodes(items))
    ensures SumLengths(DistCodes(items), mine) <= SumLengths(DistCodes(items), dl)
  {
    hide LitCodes, DistCodes, Decodable;
    if DistCodes(items) != [] {
      assert dis == DistCodes(items);
    }
  }

  // ---- choosing the codes

  /** lens are the depths of a tree without the unused symbols at its end. */
  ghost predicate Trimmed(h: HuffmanTree, lens: seq<nat>, L: nat)
    reads h
  {
    && h.Coded() && L <= 31
    && |lens| <= h.maxCode
    && Complete(lens, L)
    && forall s | 0 <= s < |lens| && lens[s] > 0 ::
         h.dep[s] == lens[s] && CodeBits(h.dep, s) == CodeBits(lens, s)
  }

  /** Every symbol of src has a code. */
  ghost predicate Covers(lens: seq<nat>, src: seq<nat>) {
    forall i | 0 <= i < |src| :: src[i] < |lens| && lens[src[i]] > 0
  }

  /** The symbols of the items, as the two frequency tables are fed with them. */
  ghost predicate Collected(items: seq<LZ77Item>, litLen: seq<nat>, dis: seq<nat>) {
    && (forall i | 0 <= i < |items| :: ValidItem(items[i])
                                       && EntryOf(items[i]).code in (if items[i].Distance? then dis else litLen))
    && litLen == LitSymbols(items) && dis == DistSymbols(items)
    && (forall x | x in litLen :: x <= 285) && (forall x | x in dis :: x <= 29)
  }

  method CollectCodes(items: seq<LZ77Item>) returns (litLen: seq<nat>, dis: seq<nat>)
    requires forall i | 0 <= i < |items| :: ValidItem(items[i])
    ensures Collected(items, litLen, dis)
  {
    hide EntryOf, ValidItem, LitCodes, DistCodes;
    litLen, dis := [], [];
    NoCodes(items);
    for i := 0 to |items|
      invariant litLen == LitCodes(items[..i]) && dis == DistCodes(items[..i])
      invariant forall k | 0 <= k < i ::
                  EntryOf(items[k]).code in (if items[k].Distance? then dis else litLen)
      invariant (forall x | x in litLen :: x <= 285) && (forall x | x in dis :: x <= 29)
    {
      ItemCodeBound(items[i]);
      CodesSnoc(items, i);
      if items[i].Distance? {
        dis := dis + [EntryOf(items[i]).code];
      } else {
        litLen := litLen + [EntryOf(items[i]).code];
      }
    }
    assert items[..|items|] == items;
    litLen := litLen + [END_OF_BLOCK];
    if dis == [] {
      dis := [0];
    }
  }

  lemma NoCodes(items: seq<LZ77Item>)
    ensures items[..0] == [] && LitCodes(items[..0]) == [] && DistCodes(items[..0]) == []
  {
  }

  lemma {:induction false} LitCodesConcat(a: seq<LZ77Item>, b: seq<LZ77Item>)
    requires (forall i | 0 <= i < |a| :: ValidItem(a[i])) && (forall i | 0 <= i < |b| :: ValidItem(b[i]))
    ensures LitCodes(a + b) == LitCodes(a) + LitCodes(b)
  {
    hide EntryOf, ValidItem;
    if a == [] {
      assert a + b == b;
    } else {
      var x := if a[0].Distance? then [] else [EntryOf(a[0]).code];
      assert (a + b)[1..] == a[1..] + b;
      LitCodesConcat(a[1..], b);
      assert LitCodes(a + b) == x + LitCodes(a[1..] + b);
      assert x + (LitCodes(a[1..]) + LitCodes(b)) == (x + LitCodes(a[1..])) + LitCodes(b);
    }
  }

  lemma {:induction false} DistCodesConcat(a: seq<LZ77Item>, b: seq<LZ77Item>)
    requires (forall i | 0 <= i < |a| :: ValidItem(a[i])) && (forall i | 0 <= i < |b| :: ValidItem(b[i]))
    ensures DistCodes(a + b) == DistCodes(a) + DistCodes(b)
  {
    hide EntryOf, ValidItem;
    if a == [] {
      assert a + b == b;
    } else {
      var x := if a[0].Distance? then [EntryOf(a[0]).code] else [];
      assert (a + b)[1..] == a[1..] + b;
      DistCodesConcat(a[1..], b);
      assert DistCodes(a + b) == x + DistCodes(a[1..] + b);
      assert x + (DistCodes(a[1..]) + DistCodes(b)) == (x + DistCodes(a[1..])) + DistCodes(b);
    }
  }

  lemma CodesSnoc(items: seq<LZ77Item>, k: nat)
    requires k < |items| && forall i | 0 <= i < |items| :: ValidItem(items[i])
    ensures LitCodes(items[..k + 1])
         == LitCodes(items[..k]) + (if items[k].Distance? then [] else [EntryOf(items[k]).code])
    ensures DistCodes(items[..k + 1])
         == DistCodes(items[..k]) + (if items[k].Distance? then [EntryOf(items[k]).code] else [])
  {
    hide EntryOf, ValidItem;
    assert items[..k + 1] == items[..k] + [items[k]];
    LitCodesConcat(items[..k], [items[k]]);
    DistCodesConcat(items[..k], [items[k]]);
    assert LitCodes([items[k]]) == (if items[k].Distance? then [] else [EntryOf(items[k]).code]) + LitCodes([]);
    assert DistCodes([items[k]]) == (if items[k].Distance? then [EntryOf(items[k]).code] else []) + DistCodes([]);
  }

  lemma ItemCodeBound(item: LZ77Item)
    requires ValidItem(item)
    ensures EntryOf(item).code <= (if item.Distance? then 29 else 285)
  {
    hide Tables.LengthEntry, Tables.DistanceEntry;
    match item
    case Length(x) => Tables.LengthTableInverts(x);
    case Distance(x) => Tables.DistanceTableInverts(x);
    case _ =>
  }

  lemma CollectedEncodable(ll: seq<nat>, dl: seq<nat>, items: seq<LZ77Item>, litLen: seq<nat>, dis: seq<nat>)
    requires Collected(items, litLen, dis) && Covers(ll, litLen) && Covers(dl, dis)
    ensures Encodable(ll, dl, items)
  {
    hide EntryOf, ValidItem;
    forall i | 0 <= i < |items|
      ensures HasCode(ll, dl, items[i])
    {
    }
  }

  /** A tree for src, and its depths up to the last symbol in use. */
  method BuildCode(maxCode: nat, maxLen: nat, src: seq<nat>, sort: Sorter) returns (h: HuffmanTree, lens: seq<nat>)
    requires 2 <= maxCode <= Pow2(maxLen) && 1 <= maxLen <= 31 && Sorts(sort)
    requires src != [] && forall x | x in src :: x < maxCode
    ensures fresh(h) && Trimmed(h, lens, maxLen) && Covers(lens, src) && h.maxCode == maxCode
    ensures Shortest(lens, src, maxCode, maxLen) && BestFor(lens, src, maxCode, maxLen)
    ensures 1 <= |lens| <= maxCode && lens == h.dep[..|lens|] && forall s | |lens| <= s < maxCode :: h.dep[s] == 0
    ensures lens[|lens| - 1] > 0
    ensures DepthsBy(sort, h.dep, Frequencies(src, maxCode), maxLen)
    ensures TableBy(sort, lens, src, maxCode, maxLen)
  {
    hide CodeBits, Kraft, Shortest, CostTo, Frequencies, Feasible, Complete, PackageMerge.PositiveTo, BestFor,
      DepthsBy, TableBy, Sorts, OnlyFor, Optimal, Covers, Within, Trimmed, HuffmanTree.Coded;
    h := new HuffmanTree(maxCode, maxLen);
    var calculated := h.Calculate(src, sort);
    var dep := calculated.value;
    var last := h.GetLastCode();
    LastUsed(src, dep, last);
    var k := last + 1;
    lens := dep[..k];
    DepthBounds(Frequencies(src, maxCode), dep, maxLen);
    IsTrimmed(h, k, maxLen);
    TrimmedShortest(src, dep, k, maxLen);
    BestCode(lens, src, maxCode, maxLen);
    IsTable(sort, dep, k, src, maxCode, maxLen);
  }

  lemma LastUsed(src: seq<nat>, dep: seq<nat>, last: int)
    requires src != [] && OnlyFor(src, dep) && (forall x | x in src :: x < |dep|) && -1 <= last < |dep|
    requires forall s | last < s < |dep| :: dep[s] == 0
    ensures last >= 0 && Within(src, last + 1) && Covers(dep[..last + 1], src)
  {
    forall i | 0 <= i < |src|
      ensures src[i] <= last && dep[src[i]] > 0
    {
      assert src[i] in src;
    }
    assert src[0] <= last;
  }

  lemma IsTrimmed(h: HuffmanTree, k: nat, L: nat)
    requires h.Coded() && L <= 31 && k <= |h.dep| == h.maxCode
    requires Complete(h.dep, L) && forall s | k <= s < |h.dep| :: h.dep[s] == 0
    ensures Trimmed(h, h.dep[..k], L)
  {
    hide CodeBits, Complete, HuffmanTree.Coded;
    TrimmedTable(h.dep, k, L);
  }

  lemma IsTable(sort: Sorter, dep: seq<nat>, k: nat, src: seq<nat>, n: nat, L: nat)
    requires DepthsBy(sort, dep, Frequencies(src, n), L) && 0 < k <= |dep| && dep[k - 1] > 0
    requires forall s | k <= s < |dep| :: dep[s] == 0
    ensures TableBy(sort, dep[..k], src, n, L)
  {
    hide DepthsBy;
  }

  lemma BestCode(lens: seq<nat>, src: seq<nat>, n: nat, L: nat)
    requires Covers(lens, src) && Shortest(lens, src, n, L)
    ensures BestFor(lens, src, n, L)
  {
  }

  lemma DepthBounds(freq: seq<nat>, dep: seq<nat>, L: nat)
    requires Feasible(freq, dep, L) && Kraft(dep, L, |dep|) == Pow2(L)
    ensures Complete(dep, L) && |dep| == |freq|
  {
  }

  /** Dropping unused symbols at the end keeps a table complete and its codes as they are. */
  lemma TrimmedTable(dep: seq<nat>, k: nat, L: nat)
    requires k <= |dep| && Complete(dep, L) && forall s | k <= s < |dep| :: dep[s] == 0
    ensures Complete(dep[..k], L)
    ensures forall s | 0 <= s < k && dep[s] > 0 :: CodeBits(dep, s) == CodeBits(dep[..k], s)
  {
    hide CodeBits, Kraft;
    TrimKraft(dep, k, L, |dep|);
    forall s | 0 <= s < k && dep[s] > 0
      ensures CodeBits(dep, s) == CodeBits(dep[..k], s)
    {
      TrimmedCode(dep, k, s);
    }
  }

  lemma TrimmedShortest(src: seq<nat>, dep: seq<nat>, k: nat, L: nat)
    requires k <= |dep| && Within(src, k) && Optimal(Frequencies(src, |dep|), dep, L)
    ensures Shortest(dep[..k], src, |dep|, L)
  {
    hide SumLengths, CostTo, Decodable;
    forall other: seq<nat> | |other| == |dep| && Decodable(other, L) && Covers(other, src)
      ensures SumLengths(src, dep[..k]) <= SumLengths(src, other)
    {
      SumTrimmed(src, dep, k);
      SumIsCost(src, dep);
      SumIsCost(src, other);
      assert Feasible(Frequencies(src, |dep|), other, L);
    }
  }

  lemma {:induction false} SumTrimmed(src: seq<nat>, lens: seq<nat>, k: nat)
    requires k <= |lens| && Within(src, k)
    ensures SumLengths(src, lens[..k]) == SumLengths(src, lens)
  {
    if src != [] {
      SumTrimmed(src[1..], lens, k);
    }
  }

  /** Repeat codes alone can only stand for zeros. */
  lemma {:induction false} OnlyRepeats(codes: seq<nat>)
    requires Expand(codes, []).Some? && forall c | c in codes :: RunLengthDecode(c).0 >= 16
    ensures forall v | v in Expand(codes, []).value :: v == 0
    decreases |codes|
  {
    hide RunLengthDecode;
    if codes != [] {
      var init := codes[..|codes| - 1];
      OnlyRepeats(init);
      var before := Expand(init, []).value;
      assert RunLengthDecode(codes[|codes| - 1]).0 >= 16 by {
        assert codes[|codes| - 1] in codes;
      }
      assert before != [] ==> before[|before| - 1] in before;
    }
  }

  /** Some code of a table that is not all zero is a plain length. */
  lemma SomeLength(codes: seq<nat>, lens: seq<nat>) returns (k: nat)
    requires RunLength.StandsFor(codes, lens, |lens|) && exists v :: v in lens && v != 0
    ensures k < |codes| && RunLengthDecode(codes[k]).0 <= 15
  {
    hide Expand, RunLengthDecode, ValidCode;
    assert Expand(codes, []) == Some([] + lens[..|lens|]);
    assert [] + lens[..|lens|] == lens;
    if forall c | c in codes :: RunLengthDecode(c).0 >= 16 {
      OnlyRepeats(codes);
      assert false;
    }
    k :| 0 <= k < |codes| && RunLengthDecode(codes[k]).0 <= 15;
  }

  lemma AllValid(a: seq<nat>, b: seq<nat>, ll: seq<nat>, dl: seq<nat>)
    requires RunLength.StandsFor(a, ll, |ll|) && RunLength.StandsFor(b, dl, |dl|)
    ensures forall c | c in a + b :: ValidCode(c)
  {
    hide ValidCode;
  }

  method SymbolsOf(codes: seq<nat>) returns (symbols: seq<nat>)
    requires forall c | c in codes :: ValidCode(c)
    ensures symbols == Symbols(codes)
    ensures forall i | 0 <= i < |codes| :: symbols[i] == RunLengthDecode(codes[i]).0 < 19
  {
    symbols := [];
    for i := 0 to |codes|
      invariant |symbols| == i && forall k | 0 <= k < i :: symbols[k] == RunLengthDecode(codes[k]).0 < 19
    {
      assert ValidCode(codes[i]);
      symbols := symbols + [And(codes[i], 31)];
    }
  }

  /** The code length code for the run-length codes of both tables, and how many of its lengths are sent. */
  method BuildLengthCode(rl: seq<nat>, rd: seq<nat>, ghost ll: seq<nat>, ghost dl: seq<nat>, sort: Sorter)
      returns (h: HuffmanTree, n: nat)
    requires RunLength.StandsFor(rl, ll, |ll|) && RunLength.StandsFor(rd, dl, |dl|)
    requires Sorts(sort) && exists v :: v in ll && v != 0
    ensures fresh(h) && h.Coded() && h.maxCode == 19 && Complete(h.dep, MAX_CL_LENGTH)
    ensures 4 <= n <= 19 && |h.dep| == 19 && Sendable(h.dep, rl + rd) && h.dep[Permuted(n - 1)] > 0
    ensures BestFor(h.dep, Symbols(rl + rd), 19, MAX_CL_LENGTH)
    ensures forall s | 0 <= s < 19 && h.dep[s] > 0 :: PlaceOf(s) < n
    ensures DepthsBy(sort, h.dep, Frequencies(Symbols(rl + rd), 19), MAX_CL_LENGTH)
  {
    hide Complete, RunLengthDecode, Expand, Shortest, RunLength.StandsFor, HuffmanTree.Coded, CodeBits, Trimmed, Covers,
      ValidCode, PlaceOf, Sendable, DepthsBy, TableBy, Sorts;
    ghost var k := SomeLength(rl, ll);
    AllValid(rl, rd, ll, dl);
    var symbols := SymbolsOf(rl + rd);
    assert (rl + rd)[k] == rl[k] && symbols[k] <= 15;
    Pow2Values();
    var lens;
    h, lens := BuildCode(19, MAX_CL_LENGTH, symbols, sort);
    TrimmedFacts(h, lens, MAX_CL_LENGTH);
    FullComplete(h.dep, lens, MAX_CL_LENGTH);
    SymbolsSendable(h.dep, lens, rl + rd, symbols);
    BestUntrimmed(symbols, h.dep, |lens|, 19, MAX_CL_LENGTH);
    n := LastClIndex(h.dep, symbols[k]);
  }

  lemma BestUntrimmed(src: seq<nat>, dep: seq<nat>, k: nat, n: nat, L: nat)
    requires k <= |dep| && BestFor(dep[..k], src, n, L)
    ensures BestFor(dep, src, n, L)
  {
    hide Decodable, SumLengths;
    forall i | 0 <= i < |src|
      ensures src[i] < k && dep[src[i]] > 0
    {
      assert dep[..k][src[i]] > 0;
    }
    SumTrimmed(src, dep, k);
  }

  lemma TrimmedFacts(h: HuffmanTree, lens: seq<nat>, L: nat)
    requires Trimmed(h, lens, L)
    ensures h.Coded() && |h.dep| == h.maxCode && Complete(lens, L)
  {
  }

  lemma SymbolsSendable(dep: seq<nat>, lens: seq<nat>, codes: seq<nat>, symbols: seq<nat>)
    requires |dep| == 19 && |lens| <= 19 && lens == dep[..|lens|] && Covers(lens, symbols) && |symbols| == |codes|
    requires forall c | c in codes :: ValidCode(c)
    requires forall i | 0 <= i < |codes| :: symbols[i] == RunLengthDecode(codes[i]).0 < 19
    ensures Sendable(dep, codes) && forall i | 0 <= i < |symbols| :: dep[symbols[i]] > 0
  {
    hide RunLengthDecode;
    forall i | 0 <= i < |codes|
      ensures ValidCode(codes[i]) && dep[symbols[i]] > 0
    {
      assert codes[i] in codes;
    }
  }

  lemma FullComplete(dep: seq<nat>, lens: seq<nat>, L: nat)
    requires |lens| <= |dep| && lens == dep[..|lens|] && Complete(lens, L)
    requires forall s | |lens| <= s < |dep| :: dep[s] == 0
    ensures Complete(dep, L)
  {
    TrimKraft(dep, |lens|, L, |dep|);
    assert forall s | 0 <= s < |lens| :: dep[s] == lens[s];
  }

  /** One more than the last place in the permuted order whose length is not zero. */
  method LastClIndex(cl: seq<nat>, ghost used: nat) returns (n: nat)
    requires |cl| == 19 && used < 16 && cl[used] > 0
    ensures 4 <= n <= 19
    ensures forall s | 0 <= s < 19 && cl[s] > 0 :: PlaceOf(s) < n
    ensures cl[Permuted(n - 1)] > 0
  {
    PlacesInvert();
    hide PlaceOf, Permuted;
    assert cl[Permuted(PlaceOf(used))] > 0;
    var index := 18;
    var i := 18;
    while i >= 0
      invariant -1 <= i <= 18 && index == 18
      invariant forall k | i < k < 19 :: cl[Permuted(k)] == 0
    {
      if cl[Permuted(i)] != 0 {
        index := i;
        break;
      }
      i := i - 1;
    }
    n := index + 1;
    forall s | 0 <= s < 19 && cl[s] > 0
      ensures PlaceOf(s) < n
    {
      assert Permuted(PlaceOf(s)) == s;
    }
  }

  /** The three trees of a block and what is sent about them. */
  method ChooseCodes(items: seq<LZ77Item>, sort: Sorter)
      returns (h1: HuffmanTree, h2: HuffmanTree, h3: HuffmanTree, c: BlockCodes)
    requires Sorts(sort) && forall i | 0 <= i < |items| :: ValidItem(items[i])
    ensures fresh(h1) && fresh(h2) && fresh(h3)
    ensures Sound(c) && Encodable(c.ll, c.dl, items) && NearlyShortest(c, items) && Tight(c, items)
    ensures Trimmed(h1, c.ll, MAX_CODE_LENGTH) && Trimmed(h2, c.dl, MAX_CODE_LENGTH)
    ensures h3.Coded() && h3.maxCode == 19 && h3.dep == c.cl
    ensures Built(sort, c, items)
  {
    hide Complete, Encodable, ValidItem, RunLength.StandsFor, Pow2, Sendable, HuffmanTree.Coded, Trimmed, Collected,
      Covers, EntryOf, PlaceOf, Shortest, NearlyShortest, Tight, BestFor, RunCodes, Symbols, DepthsBy, TableBy, Built,
      Sorts;
    var litLen, dis := CollectCodes(items);
    CollectedBounds(items, litLen, dis);
    Pow2Values();
    var cl1, cl2, n;
    h1, cl1 := BuildCode(286, MAX_CODE_LENGTH, litLen, sort);
    h2, cl2 := BuildCode(30, MAX_CODE_LENGTH, dis, sort);
    TableFacts(h1, cl1);
    TableFacts(h2, cl2);
    CoversOne(cl1, litLen, END_OF_BLOCK);
    var rlc1 := RunLengthEncode(cl1);
    var rlc2 := RunLengthEncode(cl2);
    assert cl1[END_OF_BLOCK] in cl1;
    h3, n := BuildLengthCode(rlc1, rlc2, cl1, cl2, sort);
    c := BlockCodes(cl1, cl2, rlc1, rlc2, h3.dep, n);
    CollectedEncodable(cl1, cl2, items, litLen, dis);
    CodesNearlyShortest(c, items, litLen, dis);
    CodesTight(c, items, litLen, dis);
    CodesBuilt(sort, c, items, litLen, dis);
  }

  lemma CodesBuilt(sort: Sorter, c: BlockCodes, items: seq<LZ77Item>, litLen: seq<nat>, dis: seq<nat>)
    requires Collected(items, litLen, dis)
    requires TableBy(sort, c.ll, litLen, 286, MAX_CODE_LENGTH) && TableBy(sort, c.dl, dis, 30, MAX_CODE_LENGTH)
    requires c.rl == RunCodes(c.ll, 0) && c.rd == RunCodes(c.dl, 0)
    requires DepthsBy(sort, c.cl, Frequencies(Symbols(c.rl + c.rd), 19), MAX_CL_LENGTH)
    requires 1 <= c.n <= 19 && |c.cl| == 19 && c.cl[Permuted(c.n - 1)] > 0
    requires forall s | 0 <= s < 19 && c.cl[s] > 0 :: PlaceOf(s) < c.n
    ensures Built(sort, c, items)
  {
    hide TableBy, DepthsBy, Symbols, RunCodes;
  }

  lemma CodesTight(c: BlockCodes, items: seq<LZ77Item>, litLen: seq<nat>, dis: seq<nat>)
    requires Collected(items, litLen, dis)
    requires BestFor(c.ll, litLen, 286, MAX_CODE_LENGTH) && BestFor(c.dl, dis, 30, MAX_CODE_LENGTH)
    requires c.ll != [] && c.ll[|c.ll| - 1] > 0 && c.dl != [] && c.dl[|c.dl| - 1] > 0
    requires c.rl == RunCodes(c.ll, 0) && c.rd == RunCodes(c.dl, 0)
    requires BestFor(c.cl, Symbols(c.rl + c.rd), 19, MAX_CL_LENGTH)
    requires 1 <= c.n <= 19 && |c.cl| == 19 && c.cl[Permuted(c.n - 1)] > 0
    ensures Tight(c, items)
  {
    hide BestFor, Symbols, RunCodes;
  }

  lemma CollectedBounds(items: seq<LZ77Item>, litLen: seq<nat>, dis: seq<nat>)
    requires Collected(items, litLen, dis)
    ensures litLen != [] && dis != [] && END_OF_BLOCK in litLen
    ensures (forall x | x in litLen :: x < 286) && (forall x | x in dis :: x < 30)
  {
  }

  lemma TableFacts(h: HuffmanTree, lens: seq<nat>)
    requires Trimmed(h, lens, MAX_CODE_LENGTH)
    ensures Complete(lens, MAX_CODE_LENGTH) && forall v | v in lens :: v <= 15
  {
  }

  lemma CoversOne(lens: seq<nat>, src: seq<nat>, x: nat)
    requires Covers(lens, src) && x in src
    ensures x < |lens| && lens[x] > 0
  {
  }

  // ---- writing

  lemma {:induction false} LengthsBitsConcat(cl: seq<nat>, a: seq<nat>, b: seq<nat>)
    requires Sendable(cl, a) && Sendable(cl, b)
    ensures Sendable(cl, a + b) && LengthsBits(cl, a + b) == LengthsBits(cl, a) + LengthsBits(cl, b)
  {
    hide LengthBits, ValidCode, RunLengthDecode;
    if a == [] {
      assert a + b == b;
    } else {
      assert (a + b)[1..] == a[1..] + b;
      LengthsBitsConcat(cl, a[1..], b);
    }
  }

  lemma LengthsBitsSnoc(cl: seq<nat>, codes: seq<nat>, k: nat)
    requires k < |codes| && Sendable(cl, codes)
    ensures Sendable(cl, codes[..k]) && Sendable(cl, codes[..k + 1])
    ensures LengthsBits(cl, codes[..k + 1]) == LengthsBits(cl, codes[..k]) + LengthBits(cl, codes[k])
  {
    hide LengthBits, ValidCode, RunLengthDecode;
    assert codes[..k + 1] == codes[..k] + [codes[k]];
    LengthsBitsConcat(cl, codes[..k], [codes[k]]);
    assert LengthsBits(cl, [codes[k]]) == LengthBits(cl, codes[k]) + LengthsBits(cl, []);
  }

  method WriteLengths(bs: BitStream, h: HuffmanTree, codes: seq<nat>)
    requires bs.Valid() && h.Coded() && h.maxCode == 19 && Decodable(h.dep, MAX_CL_LENGTH) && Sendable(h.dep, codes)
    modifies bs
    ensures bs.Valid() && bs.Content() == old(bs.Content()) + LengthsBits(h.dep, codes)
  {
    hide LengthBits, ValidCode, RunLengthDecode, Decodable, HuffmanTree.Coded, LengthsBits,
      BitStream.Content, BitStream.Valid;
    NoLengths(h.dep, codes);
    var i := 0;
    while i < |codes|
      invariant i <= |codes| && bs.Valid() && Sendable(h.dep, codes[..i])
      invariant bs.Content() == old(bs.Content()) + LengthsBits(h.dep, codes[..i])
    {
      LengthsBitsSnoc(h.dep, codes, i);
      WriteLength(bs, h, codes[i]);
      i := i + 1;
    }
    assert codes[..|codes|] == codes;
  }

  lemma NoLengths(cl: seq<nat>, codes: seq<nat>)
    requires |cl| == 19
    ensures Sendable(cl, codes[..0]) && LengthsBits(cl, codes[..0]) == []
  {
  }

  lemma LengthBitsOf(cl: seq<nat>, code: nat)
    requires |cl| == 19 && ValidCode(code)
    ensures var (x, y) := RunLengthDecode(code);
            && x <= 18
            && (x <= 15 ==> LengthBits(cl, code) == CodeBits(cl, x))
            && (x == 16 ==> y >= 3 && LengthBits(cl, code) == CodeBits(cl, x) + BitsOf(y - 3, 2))
            && (x == 17 ==> y >= 3 && LengthBits(cl, code) == CodeBits(cl, x) + BitsOf(y - 3, 3))
            && (x == 18 ==> y >= 11 && LengthBits(cl, code) == CodeBits(cl, x) + BitsOf(y - 11, 7))
  {
    hide RunLengthDecode, CodeBits, BitsOf;
  }

  method WriteLength(bs: BitStream, h: HuffmanTree, code: nat)
    requires bs.Valid() && h.Coded() && h.maxCode == 19 && Decodable(h.dep, MAX_CL_LENGTH)
    requires ValidCode(code) && h.dep[RunLengthDecode(code).0] > 0
    modifies bs
    ensures bs.Valid() && bs.Content() == old(bs.Content()) + LengthBits(h.dep, code)
  {
    hide RunLengthDecode, CodeBits, BitsOf, LengthBits, ValidCode, Decodable, BitStream.Content, BitStream.Valid,
      HuffmanTree.Coded;
    ShortDepths(h);
    LengthBitsOf(h.dep, code);
    var (x, y) := RunLengthDecode(code);
    h.WriteToBs(bs, x);
    if x == 16 {
      bs.WriteBits(y - 3, 2);
    } else if x == 17 {
      bs.WriteBits(y - 3, 3);
    } else if x == 18 {
      bs.WriteBits(y - 11, 7);
    }
  }

  lemma ShortDepths(h: HuffmanTree)
    requires h.Coded() && h.maxCode == 19 && Decodable(h.dep, MAX_CL_LENGTH)
    ensures |h.dep| == 19 && forall s | 0 <= s < 19 :: h.dep[s] <= MAX_CL_LENGTH
  {
    hide Kraft;
  }

  /** The block header and the sizes of the tables. */
  method WriteSizes(bs: BitStream, c: BlockCodes, last: bool)
    requires bs.Valid() && |c.ll| >= 257 && |c.dl| >= 1 && c.n >= 4
    modifies bs
    ensures bs.Valid()
    ensures bs.Content() == old(bs.Content()) + BlockHeader(last, 2)
                          + (BitsOf(|c.ll| - 257, 5) + (BitsOf(|c.dl| - 1, 5) + BitsOf(c.n - 4, 4)))
  {
    hide BitsOf, BitStream.Content, BitStream.Valid, BlockHeader;
    WriteBlockHeader(bs, last, 2);
    bs.WriteBits(|c.ll| - 257, 5);
    bs.WriteBits(|c.dl| - 1, 5);
    bs.WriteBits(c.n - 4, 4);
  }

  lemma ClStep(cl: seq<nat>, i: nat, n: nat)
    requires |cl| == 19 && i < n <= 19
    ensures ClBits(cl, i, n) == BitsOf(cl[Permuted(i)], 3) + ClBits(cl, i + 1, n)
  {
  }

  lemma ClDone(cl: seq<nat>, n: nat)
    requires |cl| == 19 && n <= 19
    ensures ClBits(cl, n, n) == []
  {
  }

  /** The lengths of the code length code in the permuted order. */
  method WriteClLengths(bs: BitStream, cl: seq<nat>, n: nat)
    requires bs.Valid() && |cl| == 19 && n <= 19
    modifies bs
    ensures bs.Valid() && bs.Content() == old(bs.Content()) + ClBits(cl, 0, n)
  {
    PlacesInvert();
    hide PlaceOf, Permuted, BitsOf, ClBits, BitStream.Content, BitStream.Valid;
    var i := 0;
    while i < n
      invariant i <= n && bs.Valid()
      invariant bs.Content() + ClBits(cl, i, n) == old(bs.Content()) + ClBits(cl, 0, n)
    {
      ghost var before := bs.Content();
      ClStep(cl, i, n);
      bs.WriteBits(cl[Permuted(i)], 3);
      Regroup(before, BitsOf(cl[Permuted(i)], 3), ClBits(cl, i + 1, n));
      i := i + 1;
    }
    ClDone(cl, n);
  }

  method WriteHeader(bs: BitStream, h3: HuffmanTree, c: BlockCodes, last: bool)
    requires bs.Valid() && Sound(c) && h3.Coded() && h3.maxCode == 19 && h3.dep == c.cl
    modifies bs
    ensures bs.Valid() && bs.Content() == old(bs.Content()) + BlockHeader(last, 2) + HeaderBits(c)
  {
    hide RunLength.StandsFor, BitsOf, HuffmanTree.Coded, ClBits, LengthsBits, ValidCode, RunLengthDecode, PlaceOf,
      BitStream.Content, BitStream.Valid, BlockHeader;
    WriteSizes(bs, c, last);
    WriteClLengths(bs, c.cl, c.n);
    assert Sendable(c.cl, c.rl) && Sendable(c.cl, c.rd) by { SendableParts(c.cl, c.rl, c.rd); }
    CompleteBounds(c.cl, MAX_CL_LENGTH);
    hide Complete, Decodable, Sendable;
    WriteLengths(bs, h3, c.rl);
    WriteLengths(bs, h3, c.rd);
    LengthsBitsConcat(c.cl, c.rl, c.rd);
  }

  lemma SendableParts(cl: seq<nat>, a: seq<nat>, b: seq<nat>)
    requires Sendable(cl, a + b)
    ensures Sendable(cl, a) && Sendable(cl, b)
  {
    hide RunLengthDecode;
    forall i | 0 <= i < |a|
      ensures ValidCode(a[i]) && cl[RunLengthDecode(a[i]).0] > 0
    {
      assert a[i] == (a + b)[i];
    }
    forall i | 0 <= i < |b|
      ensures ValidCode(b[i]) && cl[RunLengthDecode(b[i]).0] > 0
    {
      assert b[i] == (a + b)[|a| + i];
    }
  }

  lemma TrimmedSymbol(h: HuffmanTree, lens: seq<nat>, L: nat, s: nat)
    requires Trimmed(h, lens, L) && s < |lens| && lens[s] > 0
    ensures h.Coded() && s < h.maxCode == |h.dep| && h.dep[s] <= 31 && CodeBits(h.dep, s) == CodeBits(lens, s)
  {
    hide CodeBits, Kraft;
  }

  method WriteItem(bs: BitStream, h1: HuffmanTree, h2: HuffmanTree, item: LZ77Item, ghost c: BlockCodes)
    requires bs.Valid() && Trimmed(h1, c.ll, MAX_CODE_LENGTH) && Trimmed(h2, c.dl, MAX_CODE_LENGTH)
    requires ValidItem(item) && HasCode(c.ll, c.dl, item)
    modifies bs
    ensures bs.Valid() && bs.Content() == old(bs.Content()) + ItemBits(c.ll, c.dl, item)
  {
    hide CodeBits, BitsOf, EntryOf, ValidItem, Trimmed, HuffmanTree.Coded, BitStream.Content, BitStream.Valid;
    var e := EntryOf(item);
    TrimmedSymbol(if item.Distance? then h2 else h1, if item.Distance? then c.dl else c.ll, MAX_CODE_LENGTH, e.code);
    if item.Distance? {
      h2.WriteToBs(bs, e.code);
    } else {
      h1.WriteToBs(bs, e.code);
    }
    if e.nExtra != 0 {
      bs.WriteBits(e.extra, e.nExtra);
    }
  }

  method WriteItems(bs: BitStream, h1: HuffmanTree, h2: HuffmanTree, items: seq<LZ77Item>, ghost c: BlockCodes)
    requires bs.Valid() && Trimmed(h1, c.ll, MAX_CODE_LENGTH) && Trimmed(h2, c.dl, MAX_CODE_LENGTH)
    requires Encodable(c.ll, c.dl, items)
    modifies bs
    ensures bs.Valid() && bs.Content() == old(bs.Content()) + ItemsBits(c.ll, c.dl, items)
  {
    hide ItemBits, HasCode, ValidItem, ItemsBits, Trimmed, BitStream.Content, BitStream.Valid;
    EmptyItems(c.ll, c.dl, items);
    var i := 0;
    while i < |items|
      invariant i <= |items| && bs.Valid() && Encodable(c.ll, c.dl, items[..i])
      invariant Trimmed(h1, c.ll, MAX_CODE_LENGTH) && Trimmed(h2, c.dl, MAX_CODE_LENGTH)
      invariant bs.Content() == old(bs.Content()) + ItemsBits(c.ll, c.dl, items[..i])
    {
      ItemsBitsSnoc(c.ll, c.dl, items, i);
      WriteItem(bs, h1, h2, items[i], c);
      i := i + 1;
    }
    assert items[..|items|] == items;
  }

  method EncodeDynamicBlock(bs: BitStream, items: seq<LZ77Item>, last: bool, sort: Sorter)
      returns (ghost c: BlockCodes)
    requires bs.Valid() && Sorts(sort) && forall i | 0 <= i < |items| :: ValidItem(items[i])
    modifies bs
    ensures Sound(c) && Encodable(c.ll, c.dl, items) && NearlyShortest(c, items) && Tight(c, items)
    ensures bs.Valid() && bs.Content() == old(bs.Content()) + DynamicBits(c, items, last)
    ensures Built(sort, c, items)
  {
    hide Sorts, Built, NearlyShortest, Tight, Sound, Encodable, Trimmed, HuffmanTree.Coded, ItemsBits, HeaderBits,
      ValidItem, BlockHeader, BitStream.Content, BitStream.Valid, HuffmanTree.Valid;
    var h1, h2, h3, codes := ChooseCodes(items, sort);
    c := codes;
    WriteHeader(bs, h3, codes, last);
    WriteItems(bs, h1, h2, items, c);
  }
}
