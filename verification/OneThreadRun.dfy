/** An input on which the compressor fails on one thread, with static blocks, at any level and under any schedule:
    four bytes and zeros up to a block size, which take 52901 bits, five more than a multiple of eight, and then
    a block size of bytes in which nothing repeats within the window, which are stored at bit 5 of a byte. */
module OneThreadRun {
  import opened Words
  import opened Options
  import opened Inflate
  import opened Items
  import opened Lz77
  import opened StaticBlock
  import opened StoredBlock
  import opened Stream
  import opened BlockChoice
  import opened Sections
  import opened Outcome
  import opened Compressor
  import opened ZeroRuns

  // ---- bytes that do not repeat

  /** A counter in base 32, three bytes for each value, with the digits of each place in a range of their own. */
  function Digit(j: nat): Byte {
    var t := j / 3;
    if j % 3 == 0 then 144 + t / 32 / 32 % 32 else if j % 3 == 1 then 176 + t / 32 % 32 else 208 + t % 32
  }

  function Counter(): (src: ByteSeq)
    ensures |src| == DEFLATE_BLOCK_SIZE
    ensures forall j | 0 <= j < DEFLATE_BLOCK_SIZE :: src[j] == Digit(j)
  {
    seq(DEFLATE_BLOCK_SIZE, j requires 0 <= j => Digit(j))
  }

  /** Equal last digits: what is left differs by a 32nd. */
  lemma SameLast(x: nat, y: nat)
    requires x <= y && x % 32 == y % 32
    ensures y - x == 32 * (y / 32 - x / 32) && (x + 1) % 32 == (y + 1) % 32
  {
  }

  /** Three digits fix a value up to 32768. */
  lemma ValuesDiffer(x: nat, y: nat)
    requires x < y < x + 32768 && x % 32 == y % 32 && x / 32 % 32 == y / 32 % 32
    ensures x / 32 / 32 % 32 != y / 32 / 32 % 32
  {
    SameLast(x, y);
    SameLast(x / 32, y / 32);
    if x / 32 / 32 % 32 == y / 32 / 32 % 32 {
      SameLast(x / 32 / 32, y / 32 / 32);
    }
  }

  /** When the last two digits of two values are equal, so are those of the values after them. */
  lemma NextDigits(x: nat, y: nat)
    requires x <= y && x % 32 == y % 32
    ensures (x + 1) % 32 == (y + 1) % 32
    ensures x / 32 % 32 == y / 32 % 32 ==> (x + 1) / 32 % 32 == (y + 1) / 32 % 32
  {
    SameLast(x, y);
    SameLast(x + 1, y + 1);
    if x / 32 % 32 == y / 32 % 32 {
      SameLast(x / 32, y / 32);
      WholeTurns((x + 1) / 32, y / 32 / 32 - x / 32 / 32);
    }
  }

  lemma WholeTurns(q: nat, k: int)
    ensures (q + 32 * k) % 32 == q % 32
  {
  }

  lemma PlacesDiffer(p: nat, i: nat)
    ensures p % 3 != i % 3 ==> Digit(p) != Digit(i)
  {
  }

  /** No three bytes in a row come again within the window. */
  lemma DigitsDiffer(p: nat, i: nat)
    requires p < i && i - p <= DICTIONARY_SIZE
    ensures Digit(p) != Digit(i) || Digit(p + 1) != Digit(i + 1) || Digit(p + 2) != Digit(i + 2)
  {
    hide Digit;
    var x, y := p / 3, i / 3;
    PlacesDiffer(p, i);
    if p % 3 == i % 3 {
      assert x < y < x + 32768;
      if p % 3 == 0 {
        ThreeDigits(p, x);
        ThreeDigits(i, y);
        if x % 32 == y % 32 && x / 32 % 32 == y / 32 % 32 {
          ValuesDiffer(x, y);
        }
      } else if p % 3 == 1 {
        ThreeDigits(p, x);
        ThreeDigits(i, y);
        if x % 32 == y % 32 && x / 32 % 32 == y / 32 % 32 {
          NextDigits(x, y);
          ValuesDiffer(x + 1, y + 1);
        }
      } else {
        ThreeDigits(p, x);
        ThreeDigits(i, y);
        if x % 32 == y % 32 && (x + 1) / 32 % 32 == (y + 1) / 32 % 32 {
          NextDigits(x, y);
          ValuesDiffer(x + 1, y + 1);
        }
      }
    }
  }

  lemma DigitAt(t: nat)
    ensures Digit(3 * t) == 144 + t / 32 / 32 % 32
    ensures Digit(3 * t + 1) == 176 + t / 32 % 32
    ensures Digit(3 * t + 2) == 208 + t % 32
  {
    assert 3 * t / 3 == t && (3 * t + 1) / 3 == t && (3 * t + 2) / 3 == t;
  }

  lemma ThreeDigits(j: nat, t: nat)
    requires t == j / 3
    ensures j % 3 == 0 ==> Digit(j) == 144 + t / 32 / 32 % 32 && Digit(j + 1) == 176 + t / 32 % 32
                           && Digit(j + 2) == 208 + t % 32
    ensures j % 3 == 1 ==> Digit(j) == 176 + t / 32 % 32 && Digit(j + 1) == 208 + t % 32
                           && Digit(j + 2) == 144 + (t + 1) / 32 / 32 % 32
    ensures j % 3 == 2 ==> Digit(j) == 208 + t % 32 && Digit(j + 1) == 144 + (t + 1) / 32 / 32 % 32
                           && Digit(j + 2) == 176 + (t + 1) / 32 % 32
  {
    hide Digit;
    assert j == 3 * t + j % 3;
    DigitAt(t);
    DigitAt(t + 1);
  }

  // ---- so they are all literals

  lemma CounterToken(i: nat, level: nat, t: Token)
    requires i < DEFLATE_BLOCK_SIZE && level < 4 && TokenOk(Counter(), i, level, t)
    ensures t.Lit?
  {
    hide Counter, Trigram, Window, Digit;
    var src := Counter();
    var w := Window(src, Trigram(src, i), i, LeftEdge(i));
    CopyNeedsWindow(src, i, level, t);
    if w != [] {
      TrigramMatch(src, w[0], i);
      DigitsDiffer(w[0], i);
      ThreeEqual(src, w[0], i);
    }
  }

  lemma ThreeEqual(src: ByteSeq, p: nat, i: nat)
    requires p < i && Matches(src, p, i, 3)
    ensures i + 2 < |src| && src[p] == src[i] && src[p + 1] == src[i + 1] && src[p + 2] == src[i + 2]
  {
    assert src[p] == src[p + (i - p)] && src[p + 1] == src[p + 1 + (i - p)] && src[p + 2] == src[p + 2 + (i - p)];
  }

  lemma {:induction false} CounterParse(tokens: seq<Token>, end: nat, level: nat)
    requires level < 4 && Parse(Counter(), level, tokens, end)
    ensures |tokens| == end && forall t | t in tokens :: t.Lit?
    decreases |tokens|
  {
    hide TokenOk, Counter;
    if tokens != [] {
      var front, t := tokens[..|tokens| - 1], tokens[|tokens| - 1];
      CounterToken(end - TokenLength(t), level, t);
      CounterParse(front, end - TokenLength(t), level);
      assert tokens == front + [t];
    }
  }

  lemma {:induction false} LiteralBits(tokens: seq<Token>)
    requires forall t | t in tokens :: t.Lit?
    ensures var ll, dl := FixedLitLengths(), FixedDistLengths();
            Encodable(ll, dl, Flatten(tokens)) && |ItemsBits(ll, dl, Flatten(tokens))| >= 8 * |tokens|
    decreases |tokens|
  {
    hide ItemsBits, Encodable, FixedLitLengths, FixedDistLengths, Flatten;
    if tokens == [] {
      NoItems();
    } else {
      var front, t := tokens[..|tokens| - 1], tokens[|tokens| - 1];
      LiteralBits(front);
      assert t in tokens && tokens == front + [t];
      SoleItem(Literal(t.b));
      SnocBits(FixedLitLengths(), FixedDistLengths(), front, t);
    }
  }

  /** Literals alone take at least as many bytes as they stand for, so the block is stored. */
  lemma CounterStored(s: Settings, b: Blk)
    requires s.level < 4 && s.coding.StaticCoding? && Chosen(s, b) && b.data == Counter()
    ensures b.stored
  {
    hide Parsed, BlockItems, StaticBits, Encodable, Counter;
    var tokens, w :| ChosenFrom(s, b, tokens, w);
    CounterBits(s.level, tokens, b.last);
  }

  lemma CounterBits(level: nat, tokens: seq<Token>, last: bool)
    requires level < 4 && Parsed(Counter(), level, tokens)
    requires Encodable(FixedLitLengths(), FixedDistLengths(), BlockItems(tokens))
    ensures |StaticBits(BlockItems(tokens), last)| >= 8 * DEFLATE_BLOCK_SIZE
  {
    hide ItemsBits, Encodable, FixedLitLengths, FixedDistLengths, Flatten, Parse, Counter, Reproduces;
    CounterParse(tokens, DEFLATE_BLOCK_SIZE, level);
    LiteralBits(tokens);
    SoleItem(Eob);
    ItemsBitsConcat(FixedLitLengths(), FixedDistLengths(), Flatten(tokens), [Eob]);
  }

  // ---- the plan

  const INPUT_SIZE := 2097152

  function Source(): (src: ByteSeq)
    ensures |src| == INPUT_SIZE
  {
    Headed(4) + Counter()
  }

  lemma OneSection()
    ensures ThreadCount(INPUT_SIZE, 1) == 1
    ensures SectionStart(INPUT_SIZE, 1, 0) == 0 && SectionStart(INPUT_SIZE, 1, 1) == INPUT_SIZE
  {
    assert EachCount(INPUT_SIZE, 1) == 2;
  }

  lemma TwoBlks(blks: seq<Blk>, a: ByteSeq, b: ByteSeq)
    requires SectionDone(blks, a + b, true) && |a| == |b| == DEFLATE_BLOCK_SIZE
    ensures |blks| == 2 && blks[0].data == a && blks[1].data == b
    ensures BlkOk(blks[0], 0) && BlkOk(blks[1], |blks[0].bits|)
  {
    hide BlkOk;
    SizedTotal(blks);
    assert |blks| == 2;
    var rest := blks[1..];
    assert rest[1..] == [];
    assert SectionData(rest) == rest[0].data + SectionData([]);
    assert SectionData(blks) == blks[0].data + blks[1].data;
    assert blks[0].data == (a + b)[..DEFLATE_BLOCK_SIZE] && blks[1].data == (a + b)[DEFLATE_BLOCK_SIZE..];
    assert BlksOk(rest, |blks[0].bits|);
  }

  lemma FirstChosen(s: Settings, b: Blk)
    requires s.level < 4 && s.coding.StaticCoding? && Chosen(s, b) && b.data == Headed(4)
    ensures !b.stored && |b.bits| == 52901
  {
    hide Parsed, BlockItems, StaticBits, Encodable, Headed;
    var tokens, w :| ChosenFrom(s, b, tokens, w);
    ZeroBits(4, s.level, tokens, b.last);
  }

  /** Any plan of the input: a compressed block of 52901 bits, and a stored one after it. */
  lemma PlanOfSource(s: Settings, plan: seq<seq<Blk>>) returns (a: Blk, b: Blk)
    requires s.level < 4 && s.coding.StaticCoding?
    requires PlanOk(plan, Source(), 1) && AllChosen(s, plan)
    ensures plan == [[a, b]] && !a.stored && |a.bits| == 52901 && b.stored && b.data == Counter()
  {
    hide SectionDone, SectionStart, ThreadCount, Chosen, BlkOk, Headed, Counter;
    OneSection();
    assert SectionOk(plan[0], Source(), 1, 0);
    assert Source()[0..INPUT_SIZE] == Headed(4) + Counter();
    TwoBlks(plan[0], Headed(4), Counter());
    a, b := plan[0][0], plan[0][1];
    FirstChosen(s, plan[0][0]);
    CounterStored(s, plan[0][1]);
    assert plan[0] == [a, b];
  }

  lemma PlacedPair(a: Blk, b: Blk)
    ensures Place(0, [[a, b]]) == [Placed(0, 0, a), Placed(0, |a.bits|, b)]
  {
    var sec, rest := [a, b], [b];
    assert sec[1..] == rest && rest[1..] == [];
    assert PlaceBlks(0, |a.bits|, rest) == [Placed(0, |a.bits|, b)];
    assert Place(0, [sec]) == PlaceBlks(0, 0, sec) + Place(|SectionBits(sec)|, []);
  }

  lemma NothingSuspect()
    ensures NoSuspects(StaticCoding, Source(), 1)
  {
    hide Headed;
    forall i: nat | i > 0
      ensures !Suspect(StaticCoding, Source(), 1, i)
    {
      var p := i * DEFLATE_BLOCK_SIZE;
      if p + SUB_BLOCK_SIZE < |Source()| {
        assert p == DEFLATE_BLOCK_SIZE;
        assert Source()[p] == Counter()[0] == 144;
        assert Source()[p..p + 65280][0] == 144;
      }
    }
  }

  /** Whatever the compressor makes of the input on one thread, its second block is stored at bit 5 of a byte,
      and the decoder does not return the input. */
  lemma SourceLost(s: Settings, plan: seq<seq<Blk>>, res: ByteSeq)
    requires s.level < 4 && s.coding.StaticCoding?
    requires PlanOk(plan, Source(), 1) && AllChosen(s, plan) && Exported(res, plan)
    ensures var ps := Place(0, plan);
            |ps| == 2 && ps[1].base == 0 && ps[1].offset == 52901 && ps[1].blk.stored
    ensures !Returns(res, Source())
  {
    hide PlanOk, AllChosen, Exported, Place, Returns, Source, NoSuspects;
    var a, b := PlanOfSource(s, plan);
    PlacedPair(a, b);
    assert Place(0, plan)[1] == Placed(0, 52901, b);
    NothingSuspect();
    OutputExact(s, res, plan, Source(), 1);
  }

  /** The compressor run on it. */
  method CompressSource(s: Settings, schedule: seq<nat>) returns (res: ByteSeq)
    requires Usable(s) && s.coding.StaticCoding?
    ensures !Returns(res, Source())
  {
    hide Usable, PlanOk, AllChosen, Exported, Aligned, Place, Faithful, Decode, Returns, Source;
    LevelBound(s);
    var c := new DeflateCompressor(s, 1);
    c.Feed(Source());
    var _ := c.Compress(schedule);
    res := c.WriteResult();
    SourceLost(s, c.plan, res);
  }
}
