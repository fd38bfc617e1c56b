/** Blocks with the fixed codes: `deflate_encode_static_block` of compress/deflate.cpp. */
module StaticBlock {
  import opened Words
  import opened Options
  import opened Canonical
  import opened BitStreams
  import opened Inflate
  import opened Items
  import Tables

  /** The three header bits of a block. */
  function BlockHeader(last: bool, kind: nat): (w: Bits)
    ensures |w| == 3
  {
    [last] + BitsOf(kind, 2)
  }

  ghost function StaticBits(items: seq<LZ77Item>, last: bool): Bits
    requires Encodable(FixedLitLengths(), FixedDistLengths(), items)
  {
    BlockHeader(last, 1) + ItemsBits(FixedLitLengths(), FixedDistLengths(), items)
  }

  // ---- the fixed codes of RFC 1951 section 3.2.6

  lemma {:induction false} FixedCounts(k: nat)
    requires k <= 288
    ensures var l := FixedLitLengths();
            && Count(l, 8, k) == (if k <= 144 then k else 144) + (if k <= 280 then 0 else k - 280)
            && Count(l, 9, k) == (if k <= 144 then 0 else if k <= 256 then k - 144 else 112)
            && Count(l, 7, k) == (if k <= 256 then 0 else if k <= 280 then k - 256 else 24)
            && forall n: nat | n < 7 :: Count(l, n, k) == 0
  {
    if k > 0 {
      FixedCounts(k - 1);
    }
  }

  lemma {:induction false} NoShortCodes(lens: seq<nat>, n: nat)
    requires forall m: nat | m < n :: Count(lens, m, |lens|) == 0
    ensures NextCode(lens, n, |lens|) == 0
  {
    if n > 0 {
      NoShortCodes(lens, n - 1);
    }
  }

  lemma FixedNextCodes()
    ensures var l := FixedLitLengths();
            NextCode(l, 7, 288) == 0 && NextCode(l, 8, 288) == 0x30 && NextCode(l, 9, 288) == 0x190
  {
    var l := FixedLitLengths();
    FixedCounts(288);
    hide FixedLitLengths, Count;
    NoShortCodes(l, 7);
    assert NextCode(l, 8, 288) == 2 * (NextCode(l, 7, 288) + BlCount(l, 7, 288));
    assert NextCode(l, 9, 288) == 2 * (NextCode(l, 8, 288) + BlCount(l, 8, 288));
  }

  /** The values and lengths the static encoder writes are the canonical ones. */
  lemma FixedLitCodes(s: nat)
    requires s < 288
    ensures s < 144 ==> CodeBits(FixedLitLengths(), s) == Reversed(BitsOf(0x30 + s, 8))
    ensures 144 <= s < 256 ==> CodeBits(FixedLitLengths(), s) == Reversed(BitsOf(0x190 + s - 144, 9))
    ensures 256 <= s < 280 ==> CodeBits(FixedLitLengths(), s) == Reversed(BitsOf(s - 256, 7))
    ensures 280 <= s ==> CodeBits(FixedLitLengths(), s) == Reversed(BitsOf(0xc0 + s - 280, 8))
  {
    hide NextCode, Count, FixedLitLengths, BitsOf, Reversed;
    FixedLength(s);
    FixedNextCodes();
    FixedCounts(s);
  }

  lemma FixedLength(s: nat)
    requires s < 288
    ensures FixedLitLengths()[s] == if s < 144 then 8 else if s < 256 then 9 else if s < 280 then 7 else 8
  {
  }

  lemma {:induction false} FixedDistCounts(k: nat, n: nat)
    requires k <= 32
    ensures Count(FixedDistLengths(), n, k) == if n == 5 then k else 0
  {
    if k > 0 {
      FixedDistCounts(k - 1, n);
    }
  }

  lemma FixedDistSpace()
    ensures NextCode(FixedDistLengths(), 5, 32) == 0 && BlCount(FixedDistLengths(), 5, 32) == 32
  {
    hide FixedDistLengths, Count, NextCode;
    forall m: nat | m < 5
      ensures Count(FixedDistLengths(), m, 32) == 0
    {
      FixedDistCounts(32, m);
    }
    FixedDistCounts(32, 5);
    NoShortCodes(FixedDistLengths(), 5);
  }

  lemma FixedDistLength(s: nat)
    requires s < 32
    ensures FixedDistLengths()[s] == 5
  {
  }

  lemma FixedDistCodes(s: nat)
    requires s < 32
    ensures FixedDistLengths()[s] == 5 && CodeBits(FixedDistLengths(), s) == Reversed(BitsOf(s, 5))
  {
    FixedDistLength(s);
    hide FixedDistLengths, Count, NextCode, BitsOf, Reversed;
    FixedDistSpace();
    FixedDistCounts(s, 5);
  }

  lemma FixedIsDecodable()
    ensures Decodable(FixedLitLengths(), MAX_CODE_LENGTH) && Decodable(FixedDistLengths(), MAX_CODE_LENGTH)
  {
    FixedLitKraft();
    FixedDistKraft();
    Pow2Values();
  }

  /** Code space of a level passed on to deeper levels that no symbol uses. */
  lemma {:induction false} DeeperTotal(lens: seq<nat>, n: nat, d: nat)
    requires forall s | 0 <= s < |lens| :: lens[s] <= n
    ensures NextCode(lens, n + d, |lens|) + BlCount(lens, n + d, |lens|)
         == ShiftLeft(NextCode(lens, n, |lens|) + BlCount(lens, n, |lens|), d)
  {
    if d > 0 {
      DeeperTotal(lens, n, d - 1);
      NoSuchLength(lens, n + d, |lens|);
    }
  }

  lemma {:induction false} NoSuchLength(lens: seq<nat>, n: nat, k: nat)
    requires k <= |lens| && forall s | 0 <= s < |lens| :: lens[s] < n
    ensures Count(lens, n, k) == 0
  {
    if k > 0 {
      NoSuchLength(lens, n, k - 1);
    }
  }

  lemma FixedLitKraft()
    ensures Kraft(FixedLitLengths(), 15, 288) == 32768
  {
    var l := FixedLitLengths();
    FixedCounts(288);
    FixedNextCodes();
    assert forall s | 0 <= s < |l| :: l[s] <= 9;
    Pow2Values();
    SpaceKraft(l, 9, 6, 9);
  }

  lemma FixedDistKraft()
    ensures Kraft(FixedDistLengths(), 15, 32) == 32768
  {
    hide NextCode, BlCount, Kraft, Pow2;
    var l := FixedDistLengths();
    FixedDistSpace();
    Pow2Values();
    assert forall s | 0 <= s < |l| :: l[s] <= 5;
    SpaceKraft(l, 5, 10, 5);
  }

  /** A full level n with all code space used means a full Kraft sum at any deeper level. */
  lemma SpaceKraft(lens: seq<nat>, n: nat, d: nat, m: nat)
    requires forall s | 0 <= s < |lens| :: lens[s] <= n
    requires NextCode(lens, n, |lens|) + BlCount(lens, n, |lens|) == Pow2(m)
    ensures Kraft(lens, n + d, |lens|) == Pow2(m + d)
  {
    hide Count, NextCode, BlCount, Kraft, Pow2, ShiftLeft;
    DeeperTotal(lens, n, d);
    ShiftLeftPow2(m, d);
    TotalIsKraft(lens, n + d, |lens|);
  }

  /** Every item has a fixed code. */
  lemma FixedHasCode(item: LZ77Item)
    requires ValidItem(item)
    ensures HasCode(FixedLitLengths(), FixedDistLengths(), item)
  {
    hide Tables.LengthEntry, Tables.DistanceEntry;
    match item
    case Length(x) => Tables.LengthTableInverts(x);
    case Distance(x) => Tables.DistanceTableInverts(x);
    case _ =>
  }

  lemma FixedEncodable(items: seq<LZ77Item>)
    requires forall i | 0 <= i < |items| :: ValidItem(items[i])
    ensures Encodable(FixedLitLengths(), FixedDistLengths(), items)
  {
    forall i | 0 <= i < |items|
      ensures HasCode(FixedLitLengths(), FixedDistLengths(), items[i])
    {
      FixedHasCode(items[i]);
    }
  }

  // ---- the bits of a block, in numbers

  /** A static block starts with the mark and the type 01, least significant bit first. */
  lemma StaticHead(items: seq<LZ77Item>, last: bool)
    requires Encodable(FixedLitLengths(), FixedDistLengths(), items)
    ensures |StaticBits(items, last)| >= 3 && StaticBits(items, last)[..3] == [last, true, false]
  {
    hide Encodable, FixedLitLengths, FixedDistLengths, ItemsBits;
    assert BitsOf(1, 2) == [true, false];
  }

  /** The letter a, a copy of 20 bytes from 10 bytes back, and the end of block: codes with the highest bit first,
      extra bits with the lowest first, and the distance after the length. */
  lemma FixedExample()
    ensures var items := [Literal(97), Length(20), Distance(10), Eob];
            && Encodable(FixedLitLengths(), FixedDistLengths(), items)
            && ItemsBits(FixedLitLengths(), FixedDistLengths(), items)
               == [true, false, false, true, false, false, false, true]
                + [false, false, false, true, true, false, true] + [true, false]
                + [false, false, true, true, false] + [true, false]
                + [false, false, false, false, false, false, false]
  {
    hide ItemBits, FixedLitLengths, FixedDistLengths, HasCode;
    var ll, dl := FixedLitLengths(), FixedDistLengths();
    var items := [Literal(97), Length(20), Distance(10), Eob];
    assert ValidItem(items[0]) && ValidItem(items[1]) && ValidItem(items[2]) && ValidItem(items[3]);
    FixedEncodable(items);
    ExampleLiteral();
    ExampleLength();
    ExampleDistance();
    ExampleEnd();
    assert items[1..] == [Length(20), Distance(10), Eob] && items[1..][1..] == [Distance(10), Eob];
    assert items[1..][1..][1..] == [Eob];
    assert ItemsBits(ll, dl, [Eob]) == ItemBits(ll, dl, Eob) + ItemsBits(ll, dl, []);
  }

  lemma ExampleLiteral()
    ensures HasCode(FixedLitLengths(), FixedDistLengths(), Literal(97))
    ensures ItemBits(FixedLitLengths(), FixedDistLengths(), Literal(97))
         == [true, false, false, true, false, false, false, true]
  {
    hide FixedLitLengths, FixedDistLengths, CodeBits, Reversed;
    FixedHasCode(Literal(97));
    FixedLitCodes(97);
    assert BitsOf(0, 0) == [];
    hide BitsOf;
    LiteralCode();
  }

  lemma ExampleLength()
    ensures HasCode(FixedLitLengths(), FixedDistLengths(), Length(20))
    ensures ItemBits(FixedLitLengths(), FixedDistLengths(), Length(20))
         == [false, false, false, true, true, false, true] + [true, false]
  {
    hide FixedLitLengths, FixedDistLengths, CodeBits, Reversed;
    FixedHasCode(Length(20));
    FixedLitCodes(269);
    LengthOf20();
    assert BitsOf(1, 2) == [true, false];
    hide BitsOf, Tables.LengthEntry;
    LengthCode();
  }

  lemma ExampleDistance()
    ensures HasCode(FixedLitLengths(), FixedDistLengths(), Distance(10))
    ensures ItemBits(FixedLitLengths(), FixedDistLengths(), Distance(10))
         == [false, false, true, true, false] + [true, false]
  {
    hide FixedLitLengths, FixedDistLengths, CodeBits, Reversed;
    FixedHasCode(Distance(10));
    FixedDistCodes(6);
    DistanceOf10();
    assert BitsOf(1, 2) == [true, false];
    hide BitsOf, Tables.DistanceEntry;
    DistanceCode();
  }

  lemma ExampleEnd()
    ensures HasCode(FixedLitLengths(), FixedDistLengths(), Eob)
    ensures ItemBits(FixedLitLengths(), FixedDistLengths(), Eob)
         == [false, false, false, false, false, false, false]
  {
    hide FixedLitLengths, FixedDistLengths, CodeBits, Reversed;
    FixedHasCode(Eob);
    FixedLitCodes(256);
    assert BitsOf(0, 0) == [];
    hide BitsOf;
    EndCode();
  }

  lemma LengthOf20()
    ensures Tables.LengthEntry(20) == Tables.Entry(269, 2, 1)
  {
  }

  lemma DistanceOf10()
    ensures Tables.DistanceEntry(10) == Tables.Entry(6, 2, 1)
  {
    hide Tables.DistanceRow;
    Tables.RowStep(10, 0);
    Tables.RowStep(10, 1);
    Tables.RowStep(10, 2);
    Tables.RowStep(10, 3);
  }

  lemma LiteralCode()
    ensures Reversed(BitsOf(145, 8)) == [true, false, false, true, false, false, false, true]
  {
    hide BitsOf, Reversed;
    LowestLast(145, 8);
    LowestLast(72, 7);
    LowestLast(36, 6);
    LowestLast(18, 5);
    LowestLast(9, 4);
    LowestLast(4, 3);
    LowestLast(2, 2);
    LowestLast(1, 1);
    LowestLast(0, 0);
  }

  lemma LengthCode()
    ensures Reversed(BitsOf(13, 7)) == [false, false, false, true, true, false, true]
  {
    hide BitsOf, Reversed;
    LowestLast(13, 7);
    LowestLast(6, 6);
    LowestLast(3, 5);
    LowestLast(1, 4);
    LowestLast(0, 3);
    LowestLast(0, 2);
    LowestLast(0, 1);
    LowestLast(0, 0);
  }

  lemma DistanceCode()
    ensures Reversed(BitsOf(6, 5)) == [false, false, true, true, false]
  {
    hide BitsOf, Reversed;
    LowestLast(6, 5);
    LowestLast(3, 4);
    LowestLast(1, 3);
    LowestLast(0, 2);
    LowestLast(0, 1);
    LowestLast(0, 0);
  }

  lemma EndCode()
    ensures Reversed(BitsOf(0, 7)) == [false, false, false, false, false, false, false]
  {
    hide BitsOf, Reversed;
    LowestLast(0, 7);
    LowestLast(0, 6);
    LowestLast(0, 5);
    LowestLast(0, 4);
    LowestLast(0, 3);
    LowestLast(0, 2);
    LowestLast(0, 1);
    LowestLast(0, 0);
  }

  /** Reversed, a number's lowest bit comes last. */
  lemma LowestLast(v: nat, n: nat)
    ensures Reversed(BitsOf(v, n)) == if n == 0 then [] else Reversed(BitsOf(v / 2, n - 1)) + [v % 2 == 1]
  {
    if n > 0 {
      var w := BitsOf(v, n);
      assert w[0] == (v % 2 == 1) && w[1..] == BitsOf(v / 2, n - 1);
    }
  }

  // ---- the encoder

  method WriteBlockHeader(bs: BitStream, last: bool, kind: nat)
    requires bs.Valid()
    modifies bs
    ensures bs.Valid() && bs.Content() == old(bs.Content()) + BlockHeader(last, kind)
  {
    hide BitsOf, BitStream.Content, BitStream.Valid;
    bs.WriteBit(if last then 1 else 0);
    bs.WriteBits(kind, 2);
  }

  method EncodeStaticBlock(bs: BitStream, items: seq<LZ77Item>, last: bool)
    requires bs.Valid() && forall i | 0 <= i < |items| :: ValidItem(items[i])
    modifies bs
    ensures Encodable(FixedLitLengths(), FixedDistLengths(), items)
    ensures bs.Valid() && bs.Content() == old(bs.Content()) + StaticBits(items, last)
  {
    hide ItemBits, HasCode, FixedLitLengths, FixedDistLengths, ValidItem, BitsOf, ItemsBits;
    FixedEncodable(items);
    ghost var ll, dl := FixedLitLengths(), FixedDistLengths();
    WriteBlockHeader(bs, last, 1);
    hide BlockHeader, BitStream.Content, BitStream.Valid;
    var i := 0;
    EmptyItems(ll, dl, items);
    while i < |items|
      invariant i <= |items| && bs.Valid()
      invariant Encodable(ll, dl, items[..i])
      invariant bs.Content() == old(bs.Content()) + BlockHeader(last, 1) + ItemsBits(ll, dl, items[..i])
    {
      ItemsBitsSnoc(ll, dl, items, i);
      WriteStaticItem(bs, items[i]);
      i := i + 1;
    }
    assert items[..|items|] == items;
  }

  lemma EmptyItems(ll: seq<nat>, dl: seq<nat>, items: seq<LZ77Item>)
    ensures items[..0] == [] && ItemsBits(ll, dl, items[..0]) == []
  {
  }

  /** One item: its code, most significant bit first, then its extra bits. */
  method WriteStaticItem(bs: BitStream, item: LZ77Item)
    requires bs.Valid() && ValidItem(item)
    requires HasCode(FixedLitLengths(), FixedDistLengths(), item)
    modifies bs
    ensures bs.Valid()
    ensures bs.Content() == old(bs.Content()) + ItemBits(FixedLitLengths(), FixedDistLengths(), item)
  {
    hide FixedLitLengths, FixedDistLengths, CodeBits, Tables.LengthEntry, Tables.DistanceEntry, BitsOf, Reversed,
      BitStream.Content, BitStream.Valid;
    var e := EntryOf(item);
    var base, nExtra, extra := e.code, e.nExtra, e.extra;
    if item.Distance? {
      FixedDistCodes(base);
      bs.WriteBits(base, 5, false);
    } else {
      FixedLitCodes(base);
      if base < 144 {
        bs.WriteBits(0x30 + base, 8, false);
      } else if base < 256 {
        bs.WriteBits(0x190 + base - 144, 9, false);
      } else if base < 280 {
        bs.WriteBits(base - 256, 7, false);
      } else {
        bs.WriteBits(0xc0 + base - 280, 8, false);
      }
    }
    if nExtra != 0 {
      bs.WriteBits(extra, nExtra, true);
    }
  }

  // ---- round trip

  lemma ReadHeader(bits: Bits, pos: nat, last: bool, kind: nat)
    requires kind < 4 && At(bits, pos, BlockHeader(last, kind))
    ensures ReadBits(bits, pos, 1) == Some(if last then 1 else 0)
    ensures ReadBits(bits, pos + 1, 2) == Some(kind)
  {
    AtConcat(bits, pos, [last], BitsOf(kind, 2));
    assert BitsOf(if last then 1 else 0, 1) == [last];
    Pow2Values();
    ReadWritten(bits, pos, if last then 1 else 0, 1);
    ReadWritten(bits, pos + 1, kind, 2);
  }

  /** A static block is decoded to the expansion of its tokens, at any position and after any output. */
  lemma StaticRoundTrip(tokens: seq<Token>, last: bool, bits: Bits, pos: nat, out: ByteSeq)
    requires ValidTokens(tokens) && Apply(tokens, out).Some?
    requires Encodable(FixedLitLengths(), FixedDistLengths(), BlockItems(tokens))
    requires At(bits, pos, StaticBits(BlockItems(tokens), last))
    ensures DecodeBlock(bits, pos, out)
         == Some((Apply(tokens, out).value, last, pos + |StaticBits(BlockItems(tokens), last)|))
  {
    hide FixedLitLengths, FixedDistLengths, At, Encodable, ItemsBits, DecodeTokens, ReadBits, BlockHeader, ValidTokens,
      Apply, Decodable, DecodeHeader, DecodeStored, BlockItems;
    var ll, dl := FixedLitLengths(), FixedDistLengths();
    AtConcat(bits, pos, BlockHeader(last, 1), ItemsBits(ll, dl, BlockItems(tokens)));
    ReadHeader(bits, pos, last, 1);
    FixedIsDecodable();
    DecodeItems(ll, dl, tokens, bits, pos + 3);
  }
}
