/** A block of up to four distinct bytes and then zeros: its only parse, and the bits of its static form. */
module ZeroRuns {
  import opened Words
  import opened Options
  import opened Canonical
  import opened Inflate
  import opened Items
  import opened Lz77
  import opened StaticBlock
  import opened Sections
  import Tables

  /** The bytes 200, 201, ... up to h of them, then zeros up to a block size. */
  function Headed(h: nat): (src: ByteSeq)
    requires h <= 4
    ensures |src| == DEFLATE_BLOCK_SIZE
    ensures forall k | 0 <= k < DEFLATE_BLOCK_SIZE :: src[k] == HeadByte(h, k)
  {
    seq(DEFLATE_BLOCK_SIZE, k requires 0 <= k => HeadByte(h, k))
  }

  function HeadByte(h: nat, k: nat): Byte
    requires h <= 4
  {
    if k < h then 200 + k else 0
  }

  // ---- the parse

  lemma {:induction false} ZeroPrefix(h: nat, p: nat, i: nat, k: nat)
    requires h <= 4 && h <= p < i && i + k <= DEFLATE_BLOCK_SIZE && k <= REPEAT_MAX
    ensures CommonPrefix(Headed(h), p, i, k)
         == if DEFLATE_BLOCK_SIZE - i < REPEAT_MAX then DEFLATE_BLOCK_SIZE - i else REPEAT_MAX
    decreases REPEAT_MAX - k
  {
    hide Headed;
    if i + k < DEFLATE_BLOCK_SIZE && k < REPEAT_MAX {
      ZeroPrefix(h, p, i, k + 1);
    }
  }

  /** The bytes of the head and the first zero have not occurred before. */
  lemma HeadToken(h: nat, i: nat, level: nat, t: Token)
    requires h <= 4 && i <= h && level < 4 && TokenOk(Headed(h), i, level, t)
    ensures t == Lit(HeadByte(h, i))
  {
    hide Headed, Trigram, Window;
    var src := Headed(h);
    var w := Window(src, Trigram(src, i), i, LeftEdge(i));
    CopyNeedsWindow(src, i, level, t);
    forall p: nat | p < i
      ensures Trigram(src, p) != Trigram(src, i)
    {
      HeadsDiffer(h, i, p);
      if Trigram(src, p) == Trigram(src, i) {
        TrigramMatch(src, p, i);
      }
    }
    assert w == [];
  }

  lemma HeadsDiffer(h: nat, i: nat, p: nat)
    requires h <= 4 && p < i <= h
    ensures Headed(h)[p] != Headed(h)[i]
  {
  }

  /** After the first zero, the longest possible copy from the byte before is taken. */
  lemma ZeroToken(h: nat, i: nat, level: nat, t: Token)
    requires h <= 4 && h < i && i + 2 < DEFLATE_BLOCK_SIZE && level < 4 && TokenOk(Headed(h), i, level, t)
    ensures t == Copy(if DEFLATE_BLOCK_SIZE - i < REPEAT_MAX then DEFLATE_BLOCK_SIZE - i else REPEAT_MAX, 1)
  {
    hide Headed, Trigram, CommonPrefix, Longest, Stops, Window, Accepted;
    var src := Headed(h);
    var key, left := Trigram(src, i), LeftEdge(i);
    var w := Window(src, key, i, left);
    TrigramOfEqual(src, i - 1, i);
    WindowComplete(src, key, i, left, i - 1);
    CopyNeedsWindow(src, i, level, t);
    var visited: nat, best: nat :| BestMatch(src, i, level, w, visited, best, t.length) && i - t.distance == w[best];
    NearestFirst(w, i - 1);
    ZeroTrigram(h, w[best], i);
    ZeroPrefix(h, w[best], i, 0);
    ZeroPrefix(h, w[0], i, 0);
    RetainedUpTo(|src|, i, i - 1);
  }

  lemma ZeroTrigram(h: nat, p: nat, i: nat)
    requires h <= 4 && h < i < DEFLATE_BLOCK_SIZE && p < i && Trigram(Headed(h), p) == Trigram(Headed(h), i)
    ensures h <= p
  {
    hide Headed, Trigram;
    TrigramMatch(Headed(h), p, i);
    assert Headed(h)[p] == Headed(h)[p + (i - p)];
  }

  function HeadTokens(h: nat, k: nat): (tokens: seq<Token>)
    requires h <= 4
    ensures |tokens| == k && forall j | 0 <= j < k :: tokens[j] == Lit(HeadByte(h, j))
  {
    seq(k, j requires 0 <= j => Lit(HeadByte(h, j)))
  }

  /** The head, a zero, and k copies of the longest length. */
  function ZeroRun(h: nat, k: nat): seq<Token>
    requires h <= 4
  {
    HeadTokens(h, h + 1) + Repeated(Copy(REPEAT_MAX, 1), k)
  }

  const FULL_COPIES := 4064

  /** What a parse of the first end bytes can be. */
  ghost predicate ZeroParsed(h: nat, tokens: seq<Token>, end: nat)
    requires h <= 4
  {
    var n := |tokens|;
    || (n <= h && end == n && tokens == HeadTokens(h, n))
    || (n > h && end == h + 1 + REPEAT_MAX * (n - 1 - h) && end < DEFLATE_BLOCK_SIZE && tokens == ZeroRun(h, n - 1 - h))
    || (end == DEFLATE_BLOCK_SIZE && tokens == ZeroRun(h, FULL_COPIES) + [Copy(63 - h, 1)])
  }

  lemma ZeroStep(h: nat, front: seq<Token>, i: nat, level: nat, t: Token)
    requires h <= 4 && ZeroParsed(h, front, i) && i < DEFLATE_BLOCK_SIZE && level < 4
    requires TokenOk(Headed(h), i, level, t)
    ensures ZeroParsed(h, front + [t], i + TokenLength(t))
  {
    hide TokenOk, Headed;
    var n := |front|;
    if n <= h {
      HeadToken(h, i, level, t);
      assert front + [t] == HeadTokens(h, n + 1);
      assert n == h ==> front + [t] == ZeroRun(h, 0);
    } else {
      assert n - 1 - h <= FULL_COPIES;
      ZeroToken(h, i, level, t);
      if n - 1 - h < FULL_COPIES {
        assert front + [t] == ZeroRun(h, n - h);
      }
    }
  }

  lemma {:induction false} ZeroParse(h: nat, tokens: seq<Token>, end: nat, level: nat)
    requires h <= 4 && level < 4 && Parse(Headed(h), level, tokens, end)
    ensures ZeroParsed(h, tokens, end)
    decreases |tokens|
  {
    hide TokenOk, ZeroParsed, Headed;
    if tokens == [] {
      NoTokens(h);
    } else {
      var front, t := tokens[..|tokens| - 1], tokens[|tokens| - 1];
      ZeroParse(h, front, end - TokenLength(t), level);
      ZeroStep(h, front, end - TokenLength(t), level, t);
      assert tokens == front + [t];
    }
  }

  lemma NoTokens(h: nat)
    requires h <= 4
    ensures ZeroParsed(h, [], 0)
  {
    assert HeadTokens(h, 0) == [];
  }

  // ---- how many bits it takes

  /** A literal or the end of block takes its fixed code. */
  lemma SoleItem(item: LZ77Item)
    requires ValidItem(item) && (item.Literal? || item.Eob?)
    ensures var ll, dl := FixedLitLengths(), FixedDistLengths();
            && Encodable(ll, dl, [item])
            && |ItemsBits(ll, dl, [item])| == if item.Eob? then 7 else if item.val < 144 then 8 else 9
  {
    hide CodeBits, BitsOf;
    var ll, dl := FixedLitLengths(), FixedDistLengths();
    var items := [item];
    assert items[1..] == [];
    assert ItemsBits(ll, dl, items) == ItemBits(ll, dl, item) + ItemsBits(ll, dl, []);
  }

  lemma NearestDistance()
    ensures Tables.DistanceEntry(1) == Tables.Entry(0, 0, 0)
  {
    hide Pow2;
    assert Tables.DistanceRow(1, 0) == 1;
  }

  lemma ZeroDistance()
    ensures var ll, dl := FixedLitLengths(), FixedDistLengths();
            Encodable(ll, dl, [Distance(1)]) && |ItemsBits(ll, dl, [Distance(1)])| == 5
  {
    hide CodeBits, BitsOf, FixedLitLengths, FixedDistLengths, Tables.DistanceEntry;
    var ll, dl := FixedLitLengths(), FixedDistLengths();
    NearestDistance();
    FixedDistLength(0);
    assert ItemsBits(ll, dl, [Distance(1)]) == ItemBits(ll, dl, Distance(1)) + ItemsBits(ll, dl, []);
  }

  lemma LengthItem(length: nat, code: nat, nExtra: nat)
    requires 3 <= length <= 258 && code < 288
    requires Tables.LengthEntry(length).code == code && Tables.LengthEntry(length).nExtra == nExtra
    ensures var ll, dl := FixedLitLengths(), FixedDistLengths();
            Encodable(ll, dl, [Length(length)]) && |ItemsBits(ll, dl, [Length(length)])| == ll[code] + nExtra
  {
    hide CodeBits, BitsOf, FixedLitLengths, FixedDistLengths, Tables.LengthEntry;
    var ll, dl := FixedLitLengths(), FixedDistLengths();
    LitLengthsPositive(code);
    assert ItemsBits(ll, dl, [Length(length)]) == ItemBits(ll, dl, Length(length)) + ItemsBits(ll, dl, []);
  }

  /** A copy from the byte before takes the length's code and extra bits, and five more. */
  lemma CopyItem(length: nat, code: nat, nExtra: nat)
    requires 3 <= length <= 258 && code < 288
    requires Tables.LengthEntry(length).code == code && Tables.LengthEntry(length).nExtra == nExtra
    ensures var ll, dl := FixedLitLengths(), FixedDistLengths();
            && Encodable(ll, dl, ItemsOf(Copy(length, 1)))
            && |ItemsBits(ll, dl, ItemsOf(Copy(length, 1)))| == ll[code] + nExtra + 5
  {
    hide ItemsBits, Encodable, Tables.LengthEntry, FixedLitLengths, FixedDistLengths;
    LengthItem(length, code, nExtra);
    ZeroDistance();
    ItemsBitsConcat(FixedLitLengths(), FixedDistLengths(), [Length(length)], [Distance(1)]);
    assert ItemsOf(Copy(length, 1)) == [Length(length)] + [Distance(1)];
  }

  lemma LitLengthsPositive(code: nat)
    requires code < 288
    ensures FixedLitLengths()[code] > 0
  {
  }

  lemma {:induction false} HeadBits(h: nat, k: nat)
    requires h <= 4 && k <= h + 1
    ensures var ll, dl := FixedLitLengths(), FixedDistLengths();
            && Encodable(ll, dl, Flatten(HeadTokens(h, k)))
            && |ItemsBits(ll, dl, Flatten(HeadTokens(h, k)))| == if k <= h then 9 * k else 9 * h + 8
  {
    hide ItemsBits, Encodable, FixedLitLengths, FixedDistLengths;
    if k == 0 {
      NoItems();
      assert HeadTokens(h, 0) == [];
    } else {
      HeadBits(h, k - 1);
      SoleItem(Literal(HeadByte(h, k - 1)));
      assert HeadTokens(h, k) == HeadTokens(h, k - 1) + [Lit(HeadByte(h, k - 1))];
      SnocBits(FixedLitLengths(), FixedDistLengths(), HeadTokens(h, k - 1), Lit(HeadByte(h, k - 1)));
    }
  }

  lemma NoItems()
    ensures var ll, dl := FixedLitLengths(), FixedDistLengths();
            Encodable(ll, dl, Flatten([])) && ItemsBits(ll, dl, Flatten([])) == []
  {
  }

  lemma {:induction false} ZeroRunBits(h: nat, k: nat)
    requires h <= 4
    ensures var ll, dl := FixedLitLengths(), FixedDistLengths();
            && Encodable(ll, dl, Flatten(ZeroRun(h, k)))
            && |ItemsBits(ll, dl, Flatten(ZeroRun(h, k)))| == 9 * h + 8 + 13 * k
  {
    hide ItemsBits, Encodable, FixedDistLengths, Flatten;
    if k == 0 {
      HeadBits(h, h + 1);
      assert ZeroRun(h, 0) == HeadTokens(h, h + 1);
    } else {
      ZeroRunBits(h, k - 1);
      CopyItem(REPEAT_MAX, 285, 0);
      assert ZeroRun(h, k) == ZeroRun(h, k - 1) + [Copy(REPEAT_MAX, 1)];
      SnocBits(FixedLitLengths(), FixedDistLengths(), ZeroRun(h, k - 1), Copy(REPEAT_MAX, 1));
    }
  }

  lemma LastCopy(h: nat)
    requires h <= 4
    ensures var ll, dl, items := FixedLitLengths(), FixedDistLengths(), ItemsOf(Copy(63 - h, 1));
            Encodable(ll, dl, items) && |ItemsBits(ll, dl, items)| == 15
  {
    hide ItemsBits, Encodable, FixedDistLengths, ItemsOf;
    LastLength(h);
    CopyItem(63 - h, 276, 3);
  }

  lemma LastLength(h: nat)
    requires h <= 4
    ensures Tables.LengthEntry(63 - h).code == 276 && Tables.LengthEntry(63 - h).nExtra == 3
  {
    assert ShiftRight(24, 3) == 3 && ShiftRight(25, 3) == 3 && ShiftRight(26, 3) == 3;
    assert ShiftRight(27, 3) == 3 && ShiftRight(28, 3) == 3;
  }

  const ZERO_BITS := 52865

  /** The static form of the block, of which there is only one. */
  lemma ZeroBits(h: nat, level: nat, tokens: seq<Token>, last: bool)
    requires h <= 4 && level < 4 && Parsed(Headed(h), level, tokens)
    requires Encodable(FixedLitLengths(), FixedDistLengths(), BlockItems(tokens))
    ensures |StaticBits(BlockItems(tokens), last)| == ZERO_BITS + 9 * h
  {
    hide ItemsBits, Encodable, FixedLitLengths, FixedDistLengths, Flatten, Parse, ItemsOf, Headed, Reproduces;
    ZeroParse(h, tokens, DEFLATE_BLOCK_SIZE, level);
    AllParsed(h, tokens);
    var t := Copy(63 - h, 1);
    ZeroRunBits(h, FULL_COPIES);
    LastCopy(h);
    SnocBits(FixedLitLengths(), FixedDistLengths(), ZeroRun(h, FULL_COPIES), t);
    SoleItem(Eob);
    ItemsBitsConcat(FixedLitLengths(), FixedDistLengths(), Flatten(tokens), [Eob]);
  }

  lemma AllParsed(h: nat, tokens: seq<Token>)
    requires h <= 4 && ZeroParsed(h, tokens, DEFLATE_BLOCK_SIZE)
    ensures tokens == ZeroRun(h, FULL_COPIES) + [Copy(63 - h, 1)]
  {
  }
}
