/** With dynamic blocks, a block that starts with 65280 zero bytes is never stored. The codes of a dynamic block
    cost no more than any others, but for the end of block; and there are others that gain more on the zeros
    than they can lose on what follows: they give no copy more bits than its bytes have, and a ninth bit to only
    16 literals, which can be chosen so that at most every sixteenth literal is one of them. */
module ZeroHead {
  import opened Words
  import opened Options
  import opened Canonical
  import opened HuffmanTrees
  import opened Inflate
  import opened Items
  import opened Lz77
  import opened StaticBlock
  import opened DynamicBlock
  import opened StoredBlock
  import opened Stream
  import opened BlockChoice
  import opened Sections
  import RunLength
  import Tables

  // ---- the other codes

  /** Eight bits for a literal, but nine in group g; six for the shortest length, eleven for all else. */
  function LitLengths(g: nat): (ll: seq<nat>)
    ensures |ll| == 286 && forall s | 0 <= s < 286 :: ll[s] == LitLength(g, s)
  {
    seq(286, s requires 0 <= s => LitLength(g, s))
  }

  function LitLength(g: nat, s: nat): nat {
    if s < 256 then (if s / 16 == g then 9 else 8) else if s == 257 then 6 else 11
  }

  function DistLengths(): (dl: seq<nat>)
    ensures |dl| == 30 && forall s | 0 <= s < 30 :: dl[s] == 5
  {
    Repeated(5, 30)
  }

  /** How many of the first k symbols are in group g. */
  function GroupSize(g: nat, k: nat): nat {
    if k <= 16 * g then 0 else if k <= 16 * g + 16 then k - 16 * g else 16
  }

  lemma {:induction false} LiteralKraft(g: nat, k: nat)
    requires g < 16 && k <= 256
    ensures Kraft(LitLengths(g), MAX_CODE_LENGTH, k) == 128 * k - 64 * GroupSize(g, k)
  {
    hide LitLengths, Pow2;
    if k > 0 {
      LiteralKraft(g, k - 1);
      Pow2Values();
    } else {
      NoSymbolsKraft(LitLengths(g));
    }
  }

  lemma NoSymbolsKraft(lens: seq<nat>)
    ensures Kraft(lens, MAX_CODE_LENGTH, 0) == 0
  {
  }

  lemma {:induction false} OtherKraft(g: nat, k: nat)
    requires g < 16 && 256 <= k <= 286
    ensures Kraft(LitLengths(g), MAX_CODE_LENGTH, k)
         == 31744 + 16 * (k - 256) + (if k > 257 then 512 - 16 else 0)
  {
    hide LitLengths, Pow2;
    if k == 256 {
      LiteralKraft(g, 256);
    } else {
      OtherKraft(g, k - 1);
      Pow2Values();
    }
  }

  lemma {:induction false} DistKraft(k: nat)
    requires k <= 30
    ensures Kraft(DistLengths(), MAX_CODE_LENGTH, k) == 1024 * k
  {
    hide DistLengths, Pow2;
    if k > 0 {
      DistKraft(k - 1);
      Pow2Values();
    } else {
      NoSymbolsKraft(DistLengths());
    }
  }

  lemma OthersDecodable(g: nat)
    requires g < 16
    ensures Decodable(LitLengths(g), MAX_CODE_LENGTH) && Decodable(DistLengths(), MAX_CODE_LENGTH)
  {
    hide LitLengths, DistLengths, Kraft, Pow2;
    Pow2Values();
    OtherKraft(g, 286);
    DistKraft(30);
  }

  // ---- what a token costs

  /** The shortest length has a code of its own, and the next one no extra bits. */
  lemma LengthCode(length: nat)
    requires 3 <= length <= 258
    ensures var e := Tables.LengthEntry(length);
            && 257 <= e.code <= 285 && (e.code == 257 <==> length == 3) && e.nExtra <= 5
            && (length <= 4 || length == 258 ==> e.nExtra == 0)
  {
    hide ShiftRight, And;
    Tables.LengthTableInverts(length);
  }

  lemma DistanceCode(distance: nat)
    requires 1 <= distance <= 32768
    ensures Tables.DistanceEntry(distance).code < 30 && Tables.DistanceEntry(distance).nExtra <= 13
  {
    hide Tables.DistanceEntry;
    Tables.DistanceTableInverts(distance);
  }

  /** The literals of a group. */
  predicate InGroup(g: nat, t: Token) {
    t.Lit? && t.b / 16 == g
  }

  lemma LiteralCost(g: nat, b: Byte)
    requires g < 16
    ensures var ll, dl := LitLengths(g), DistLengths();
            && Encodable(ll, dl, ItemsOf(Lit(b)))
            && |ItemsBits(ll, dl, ItemsOf(Lit(b)))| == if b / 16 == g then 9 else 8
  {
    hide CodeBits, BitsOf;
    var ll, dl, items := LitLengths(g), DistLengths(), [Literal(b)];
    assert items[1..] == [];
    assert ItemsBits(ll, dl, items) == ItemBits(ll, dl, items[0]) + ItemsBits(ll, dl, []);
  }

  lemma EobCost(g: nat)
    requires g < 16
    ensures var ll, dl := LitLengths(g), DistLengths();
            Encodable(ll, dl, [Eob]) && |ItemsBits(ll, dl, [Eob])| == 11
  {
    hide CodeBits, BitsOf;
    var ll, dl, items := LitLengths(g), DistLengths(), [Eob];
    assert items[1..] == [];
    assert ItemsBits(ll, dl, items) == ItemBits(ll, dl, items[0]) + ItemsBits(ll, dl, []);
  }

  /** A copy takes no more bits than its bytes; one of the longest length at most 29. */
  lemma CopyCost(g: nat, length: nat, distance: nat)
    requires g < 16 && 3 <= length <= 258 && 1 <= distance <= 32768
    ensures var ll, dl, items := LitLengths(g), DistLengths(), ItemsOf(Copy(length, distance));
            && Encodable(ll, dl, items) && |ItemsBits(ll, dl, items)| <= 8 * length
            && (length == 258 ==> |ItemsBits(ll, dl, items)| <= 29)
  {
    hide CodeBits, BitsOf, Tables.LengthEntry, Tables.DistanceEntry, LitLengths, DistLengths;
    LengthCode(length);
    DistanceCode(distance);
    var ll, dl, items := LitLengths(g), DistLengths(), [Length(length), Distance(distance)];
    var rest := items[1..];
    assert rest[0] == Distance(distance) && rest[1..] == [];
    assert ItemsBits(ll, dl, rest) == ItemBits(ll, dl, rest[0]) + ItemsBits(ll, dl, []);
    assert ItemsBits(ll, dl, items) == ItemBits(ll, dl, items[0]) + ItemsBits(ll, dl, rest);
  }

  // ---- the least used group

  function Uses(tokens: seq<Token>, g: nat): nat {
    if tokens == [] then 0
    else Uses(tokens[..|tokens| - 1], g) + (if InGroup(g, tokens[|tokens| - 1]) then 1 else 0)
  }

  function UsesTo(tokens: seq<Token>, k: nat): nat {
    if k == 0 then 0 else UsesTo(tokens, k - 1) + Uses(tokens, k - 1)
  }

  lemma {:induction false} OneGroupEach(tokens: seq<Token>, k: nat)
    requires tokens != []
    ensures var t := tokens[|tokens| - 1];
            UsesTo(tokens, k) == UsesTo(tokens[..|tokens| - 1], k) + (if t.Lit? && t.b / 16 < k then 1 else 0)
  {
    if k > 0 {
      OneGroupEach(tokens, k - 1);
    }
  }

  lemma {:induction false} UsesBound(tokens: seq<Token>, k: nat)
    ensures UsesTo(tokens, k) <= |tokens|
    decreases |tokens|
  {
    if tokens == [] {
      NoUses(k);
    } else {
      UsesBound(tokens[..|tokens| - 1], k);
      OneGroupEach(tokens, k);
    }
  }

  lemma {:induction false} NoUses(k: nat)
    ensures UsesTo([], k) == 0
  {
    if k > 0 {
      NoUses(k - 1);
    }
  }

  lemma {:induction false} LeastOf(tokens: seq<Token>, k: nat) returns (g: nat)
    requires k > 0
    ensures g < k && forall j: nat | j < k :: Uses(tokens, g) <= Uses(tokens, j)
  {
    if k == 1 {
      g := 0;
    } else {
      g := LeastOf(tokens, k - 1);
      if Uses(tokens, k - 1) < Uses(tokens, g) {
        g := k - 1;
      }
    }
  }

  lemma {:induction false} AllAtLeast(tokens: seq<Token>, k: nat, m: nat)
    requires forall j: nat | j < k :: m <= Uses(tokens, j)
    ensures k * m <= UsesTo(tokens, k)
  {
    if k > 0 {
      AllAtLeast(tokens, k - 1, m);
      assert k * m == (k - 1) * m + m;
    }
  }

  /** Some group holds no more than every sixteenth literal. */
  lemma LeastGroup(tokens: seq<Token>) returns (g: nat)
    ensures g < 16 && 16 * Uses(tokens, g) <= |tokens|
  {
    g := LeastOf(tokens, 16);
    AllAtLeast(tokens, 16, Uses(tokens, g));
    UsesBound(tokens, 16);
  }

  // ---- what a parse costs

  const ZEROS := 65280

  /** The input starts with the zero bytes of a decoy. */
  ghost predicate ZeroHeaded(src: ByteSeq) {
    ZEROS <= |src| && forall k | 0 <= k < ZEROS :: src[k] == 0
  }

  lemma HeadLiteral(src: ByteSeq, level: nat, t: Token)
    requires src != [] && level < 4 && TokenOk(src, 0, level, t)
    ensures t.Lit?
  {
    hide Trigram;
    CopyNeedsWindow(src, 0, level, t);
  }

  /** Where as many zeros follow, the longest possible copy is taken. */
  lemma HeadCopy(src: ByteSeq, i: nat, level: nat, t: Token)
    requires ZeroHeaded(src) && 0 < i && i + REPEAT_MAX <= ZEROS && level < 4 && TokenOk(src, i, level, t)
    ensures t.Copy? && t.length == REPEAT_MAX
  {
    hide Trigram, CommonPrefix, Longest, Stops, Window, Accepted;
    var key, left := Trigram(src, i), LeftEdge(i);
    var w := Window(src, key, i, left);
    TrigramOfEqual(src, i - 1, i);
    WindowComplete(src, key, i, left, i - 1);
    CopyNeedsWindow(src, i, level, t);
    var visited: nat, best: nat :| BestMatch(src, i, level, w, visited, best, t.length) && i - t.distance == w[best];
    NearestFirst(w, i - 1);
    PrefixFrom(src, i - 1, i, REPEAT_MAX);
    RetainedUpTo(|src|, i, i - 1);
  }

  const HEAD_COPIES := 253

  /** How many copies of the longest length the first end bytes have taken of the zeros. */
  function HeadCopies(end: nat): nat {
    if end == 0 then 0 else if (end - 1) / REPEAT_MAX < HEAD_COPIES then (end - 1) / REPEAT_MAX else HEAD_COPIES
  }

  /** Where a token can end in the zeros. */
  predicate HeadEnd(end: nat) {
    end == 0 || end > HEAD_COPIES * REPEAT_MAX || (end - 1) % REPEAT_MAX == 0
  }

  function CostBound(tokens: seq<Token>, end: nat, g: nat): int {
    8 * end + Uses(tokens, g) - 2035 * HeadCopies(end)
  }

  ghost predicate Costs(tokens: seq<Token>, end: nat, g: nat)
    requires g < 16
  {
    && HeadEnd(end) && Encodable(LitLengths(g), DistLengths(), Flatten(tokens))
    && |ItemsBits(LitLengths(g), DistLengths(), Flatten(tokens))| <= CostBound(tokens, end, g)
  }

  lemma CostStep(front: seq<Token>, i: nat, g: nat, t: Token, bits: nat)
    requires g < 16 && Costs(front, i, g) && Encodable(LitLengths(g), DistLengths(), ItemsOf(t))
    requires |ItemsBits(LitLengths(g), DistLengths(), ItemsOf(t))| <= bits && HeadEnd(i + TokenLength(t))
    requires bits + 2035 * (HeadCopies(i + TokenLength(t)) - HeadCopies(i))
          <= 8 * TokenLength(t) + if InGroup(g, t) then 1 else 0
    ensures Costs(front + [t], i + TokenLength(t), g)
  {
    hide ItemsBits, Encodable, LitLengths, DistLengths, Flatten, ItemsOf, HeadEnd, HeadCopies;
    SnocBits(LitLengths(g), DistLengths(), front, t);
    assert (front + [t])[..|front|] == front;
  }

  lemma TokenCosts(src: ByteSeq, level: nat, front: seq<Token>, i: nat, g: nat, t: Token)
    requires ZeroHeaded(src) && i < |src| && level < 4 && g < 16 && TokenOk(src, i, level, t) && ValidToken(t)
    requires Costs(front, i, g)
    ensures Costs(front + [t], i + TokenLength(t), g)
  {
    hide TokenOk, ZeroHeaded, Costs, ItemsBits, Encodable, LitLengths, DistLengths;
    assert HeadEnd(i) by { EndOf(front, i, g); }
    match t {
      case Lit(b) =>
        LiteralCost(g, b);
        if 0 < i <= HEAD_COPIES * REPEAT_MAX {
          HeadCopy(src, i, level, t);
        }
        CostStep(front, i, g, t, 8 + if InGroup(g, t) then 1 else 0);
      case Copy(length, distance) =>
        CopyCost(g, length, distance);
        if i == 0 {
          HeadLiteral(src, level, t);
        } else if i <= HEAD_COPIES * REPEAT_MAX {
          HeadCopy(src, i, level, t);
          CostStep(front, i, g, t, 29);
        } else {
          CostStep(front, i, g, t, 8 * length);
        }
    }
  }

  lemma EndOf(tokens: seq<Token>, end: nat, g: nat)
    requires g < 16 && Costs(tokens, end, g)
    ensures HeadEnd(end)
  {
  }

  lemma {:induction false} ParseCosts(src: ByteSeq, level: nat, tokens: seq<Token>, end: nat, g: nat)
    requires ZeroHeaded(src) && level < 4 && g < 16 && ValidTokens(tokens) && Parse(src, level, tokens, end)
    ensures Costs(tokens, end, g) && |tokens| <= end
    decreases |tokens|
  {
    hide TokenOk, Costs, ZeroHeaded;
    if tokens == [] {
      NothingCosts(g);
    } else {
      var front, t := tokens[..|tokens| - 1], tokens[|tokens| - 1];
      ParseCosts(src, level, front, end - TokenLength(t), g);
      assert t in tokens && tokens == front + [t];
      TokenCosts(src, level, front, end - TokenLength(t), g, t);
    }
  }

  lemma NothingCosts(g: nat)
    requires g < 16
    ensures Costs([], 0, g)
  {
  }

  /** Under the other codes for the right group the items take far fewer bits than the bytes. */
  lemma OthersCost(src: ByteSeq, level: nat, tokens: seq<Token>) returns (g: nat)
    requires ZeroHeaded(src) && level < 4 && Parsed(src, level, tokens)
    ensures g < 16 && Encodable(LitLengths(g), DistLengths(), BlockItems(tokens))
    ensures 16 * |ItemsBits(LitLengths(g), DistLengths(), BlockItems(tokens))|
         <= 129 * |src| + 16 * (11 - 2035 * HEAD_COPIES)
  {
    hide TokenOk, ZeroHeaded, Parse, ItemsBits, Encodable, LitLengths, DistLengths, Flatten, Apply;
    assert |src| >= ZEROS by { LongEnough(src); }
    g := LeastGroup(tokens);
    ParseCosts(src, level, tokens, |src|, g);
    EobCost(g);
    ItemsBitsConcat(LitLengths(g), DistLengths(), Flatten(tokens), [Eob]);
  }

  lemma LongEnough(src: ByteSeq)
    requires ZeroHeaded(src)
    ensures |src| >= ZEROS
  {
  }

  // ---- the header

  lemma {:induction false} ClSize(cl: seq<nat>, k: nat, n: nat)
    requires k <= n <= 19 && |cl| == 19
    ensures |ClBits(cl, k, n)| == 3 * (n - k)
    decreases n - k
  {
    hide Permuted, BitsOf;
    if k < n {
      ClSize(cl, k + 1, n);
    }
  }

  lemma CodeSize(cl: seq<nat>, code: nat)
    requires |cl| == 19 && RunLength.ValidCode(code) && forall s | 0 <= s < 19 :: cl[s] <= MAX_CL_LENGTH
    ensures |LengthBits(cl, code)| <= 14
  {
    hide CodeBits, BitsOf, RunLength.RunLengthDecode;
    var (x, y) := RunLength.RunLengthDecode(code);
    assert cl[x] <= MAX_CL_LENGTH;
    var extra := if x <= 15 then [] else BitsOf(y - RunLength.MinCount(x), RunLength.ExtraBits(x));
    assert LengthBits(cl, code) == CodeBits(cl, x) + extra;
  }

  lemma {:induction false} LengthsSize(cl: seq<nat>, codes: seq<nat>)
    requires Sendable(cl, codes) && forall s | 0 <= s < 19 :: cl[s] <= MAX_CL_LENGTH
    ensures |LengthsBits(cl, codes)| <= 14 * |codes|
  {
    hide LengthBits, RunLength.ValidCode, RunLength.RunLengthDecode;
    if codes != [] {
      CodeSize(cl, codes[0]);
      LengthsSize(cl, codes[1..]);
    }
  }

  /** A table has no more run-length codes than lengths. */
  lemma FewCodes(codes: seq<nat>, lens: seq<nat>)
    requires RunLength.StandsFor(codes, lens, |lens|)
    ensures |codes| <= |lens|
  {
    hide RunLength.ValidCode, RunLength.RunLengthDecode, RunLength.Expand;
    var none: seq<nat> := [];
    assert RunLength.Expand(codes, none) == Some(none + lens[..|lens|]);
    assert |none + lens[..|lens|]| == |lens|;
    ExpandGrows(codes, none);
  }

  lemma HeaderSize(c: BlockCodes)
    requires Sound(c)
    ensures |HeaderBits(c)| <= 4495
  {
    hide BitsOf, ClBits, LengthsBits, RunLength.StandsFor, Kraft;
    FewCodes(c.rl, c.ll);
    FewCodes(c.rd, c.dl);
    ClSize(c.cl, 0, c.n);
    LengthsSize(c.cl, c.rl + c.rd);
  }

  // ---- the block

  lemma {:induction false} AllCollected(items: seq<LZ77Item>)
    requires forall i | 0 <= i < |items| :: ValidItem(items[i])
    ensures forall i | 0 <= i < |items| ::
              EntryOf(items[i]).code in (if items[i].Distance? then DistCodes(items) else LitCodes(items))
    ensures (forall x | x in LitCodes(items) :: x <= 285) && forall x | x in DistCodes(items) :: x <= 29
  {
    hide EntryOf;
    if items != [] {
      AllCollected(items[1..]);
      CodeInRange(items[0]);
      assert forall i | 1 <= i < |items| :: items[i] == items[1..][i - 1];
    }
  }

  lemma CodeInRange(item: LZ77Item)
    requires ValidItem(item)
    ensures EntryOf(item).code <= if item.Distance? then 29 else 285
  {
    hide Tables.LengthEntry, Tables.DistanceEntry;
    match item {
      case Length(x) => Tables.LengthTableInverts(x);
      case Distance(x) => Tables.DistanceTableInverts(x);
      case _ => assert true;
    }
  }

  lemma SymbolsCollected(items: seq<LZ77Item>)
    requires forall i | 0 <= i < |items| :: ValidItem(items[i])
    ensures Collected(items, LitSymbols(items), DistSymbols(items))
  {
    hide EntryOf, LitCodes, DistCodes, ValidItem;
    AllCollected(items);
  }

  lemma ItemsSmall(c: BlockCodes, tokens: seq<Token>, level: nat, data: ByteSeq, last: bool)
    requires level < 4 && Parsed(data, level, tokens) && ZeroHeaded(data)
    requires forall i | 0 <= i < |BlockItems(tokens)| :: ValidItem(BlockItems(tokens)[i])
    requires Sound(c) && Encodable(c.ll, c.dl, BlockItems(tokens)) && Tight(c, BlockItems(tokens))
    ensures 16 * |DynamicBits(c, BlockItems(tokens), last)|
         <= 129 * |data| + 16 * (3 + 4495 + 22 - 2035 * HEAD_COPIES)
  {
    hide Parsed, ZeroHeaded, ItemsBits, HeaderBits, Encodable, LitLengths, DistLengths, Collected, Covers, Shortest,
      Decodable, BlockItems, LitSymbols, DistSymbols, ValidItem, Kraft, RunLength.StandsFor, Symbols;
    var items := BlockItems(tokens);
    var g := OthersCost(data, level, tokens);
    SymbolsCollected(items);
    CodesNearlyShortest(c, items, LitSymbols(items), DistSymbols(items));
    OthersDecodable(g);
    assert LitLengths(g)[END_OF_BLOCK] == 11;
    HeaderSize(c);
  }

  /** Dynamic coding never stores such a block. */
  lemma DynamicNotStored(s: Settings, b: Blk)
    requires s.level < 4 && s.coding.DynamicCoding? && Chosen(s, b)
    requires ZeroHeaded(b.data) && |b.data| < 2 * DEFLATE_BLOCK_SIZE
    ensures !b.stored
  {
    hide Parsed, ZeroHeaded, BlockItems, DynamicBits, Encodable, Sound, Tight, Built, ValidItem;
    var tokens, w :| ChosenFrom(s, b, tokens, w);
    var items := BlockItems(tokens);
    var c :| CodesFor(s.sort, c, items) && w == DynamicBits(c, items, b.last);
    ItemsSmall(c, tokens, s.level, b.data, b.last);
    FewBytes(|w|, |b.data|);
  }

  lemma FewBytes(bits: nat, n: nat)
    requires 16 * bits <= 129 * n + 16 * (3 + 4495 + 22 - 2035 * HEAD_COPIES)
    requires n < 2 * DEFLATE_BLOCK_SIZE
    ensures (bits + 7) / 8 < n
  {
  }
}
