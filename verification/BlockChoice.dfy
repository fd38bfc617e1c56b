/** One block: its items under the chosen coding, and the choice between that and a stored block, as in the
    work thread of compress/deflate.cpp. What is chosen is fixed by the data, the mark and the offset. */
module BlockChoice {
  import opened Words
  import opened Options
  import opened BitStreams
  import opened HuffmanTrees
  import opened Inflate
  import opened Items
  import opened Lz77
  import opened StaticBlock
  import opened DynamicBlock
  import opened StoredBlock
  import opened Stream

  datatype CodingType = StaticCoding | DynamicCoding

  /** The coding type, the LZ77 level, and the library's sort. */
  datatype Settings = Settings(coding: CodingType, level: nat, sort: Sorter)

  ghost predicate Usable(s: Settings) {
    s.level < 4 && Sorts(s.sort)
  }

  /** The codes of a dynamic block that are sound for a decoder, the best for its items, and sorted by sort. */
  ghost predicate CodesFor(sort: Sorter, c: BlockCodes, items: seq<LZ77Item>)
    requires forall i | 0 <= i < |items| :: ValidItem(items[i])
  {
    Sound(c) && Encodable(c.ll, c.dl, items) && Tight(c, items) && Built(sort, c, items)
  }

  /** w is what the chosen coding makes of the items of a block. */
  ghost predicate Encodes(s: Settings, items: seq<LZ77Item>, last: bool, w: Bits) {
    && (forall i | 0 <= i < |items| :: ValidItem(items[i]))
    && match s.coding
       case StaticCoding => Encodable(FixedLitLengths(), FixedDistLengths(), items) && w == StaticBits(items, last)
       case DynamicCoding => exists c: BlockCodes :: CodesFor(s.sort, c, items) && w == DynamicBits(c, items, last)
  }

  /** The block is the compressed form of a greedy parse of its data, or is stored because that form takes at
      least as many bytes as the data. */
  ghost predicate Chosen(s: Settings, b: Blk)
    requires s.level < 4
  {
    exists tokens: seq<Token>, w: Bits :: ChosenFrom(s, b, tokens, w)
  }

  ghost predicate ChosenFrom(s: Settings, b: Blk, tokens: seq<Token>, w: Bits)
    requires s.level < 4
  {
    && Parsed(b.data, s.level, tokens)
    && Encodes(s, BlockItems(tokens), b.last, w)
    && (b.stored <==> (|w| + 7) / 8 >= |b.data|)
    && (!b.stored ==> b.bits == w)
  }

  // ---- the encoder

  /** The items of a block under the chosen coding, decoded from wherever they are written. */
  method EncodeItems(s: Settings, items: seq<LZ77Item>, ghost tokens: seq<Token>, ghost data: ByteSeq, last: bool)
      returns (bs: BitStream)
    requires Usable(s)
    requires items == BlockItems(tokens) && ValidTokens(tokens) && Apply(tokens, []) == Some(data)
    ensures fresh(bs) && bs.Valid() && Decodes(bs.Content(), data, last)
    ensures Encodes(s, items, last, bs.Content())
  {
    hide Encodable, Sound, Tight, Built, NearlyShortest, Encodes, Decodes, Apply, ValidTokens, BlockItems, ValidItem,
      StaticBits, DynamicBits, Sorts, BitStream.Content, BitStream.Valid;
    ItemsValid(tokens);
    bs := new BitStream(8 * |items|);
    Prepend(bs.Content());
    match s.coding
    case StaticCoding =>
      EncodeStaticBlock(bs, items, last);
      StaticEncodes(s, items, last);
      StaticDecodes(tokens, data, last);
    case DynamicCoding =>
      ghost var c := EncodeDynamicBlock(bs, items, last, s.sort);
      DynamicEncodes(s, c, items, last);
      DynamicDecodes(c, tokens, data, last);
  }

  lemma Prepend(w: Bits)
    ensures w == [] ==> forall v: Bits :: w + v == v
  {
  }

  lemma StaticEncodes(s: Settings, items: seq<LZ77Item>, last: bool)
    requires s.coding.StaticCoding? && forall i | 0 <= i < |items| :: ValidItem(items[i])
    requires Encodable(FixedLitLengths(), FixedDistLengths(), items)
    ensures Encodes(s, items, last, StaticBits(items, last))
  {
    hide Encodable, StaticBits;
  }

  lemma DynamicEncodes(s: Settings, c: BlockCodes, items: seq<LZ77Item>, last: bool)
    requires s.coding.DynamicCoding? && forall i | 0 <= i < |items| :: ValidItem(items[i])
    requires Sound(c) && Encodable(c.ll, c.dl, items) && Tight(c, items) && Built(s.sort, c, items)
    ensures Encodes(s, items, last, DynamicBits(c, items, last))
  {
    hide Encodable, DynamicBits, Sound, Tight, Built;
    assert CodesFor(s.sort, c, items);
  }

  lemma StaticDecodes(tokens: seq<Token>, data: ByteSeq, last: bool)
    requires ValidTokens(tokens) && Apply(tokens, []) == Some(data)
    requires Encodable(FixedLitLengths(), FixedDistLengths(), BlockItems(tokens))
    ensures Decodes(StaticBits(BlockItems(tokens), last), data, last)
  {
    hide Encodable, StaticBits, Apply, ValidTokens, BlockItems, DecodeBlock, At;
    var w := StaticBits(BlockItems(tokens), last);
    forall bits: Bits, pos: nat, out: ByteSeq | At(bits, pos, w)
      ensures DecodeBlock(bits, pos, out) == Some((out + data, last, pos + |w|))
    {
      ApplyOn(tokens, data, out);
      StaticRoundTrip(tokens, last, bits, pos, out);
    }
  }

  lemma DynamicDecodes(c: BlockCodes, tokens: seq<Token>, data: ByteSeq, last: bool)
    requires ValidTokens(tokens) && Apply(tokens, []) == Some(data)
    requires Sound(c) && Encodable(c.ll, c.dl, BlockItems(tokens))
    ensures Decodes(DynamicBits(c, BlockItems(tokens), last), data, last)
  {
    hide Encodable, DynamicBits, Sound, Apply, ValidTokens, BlockItems, DecodeBlock, At;
    var w := DynamicBits(c, BlockItems(tokens), last);
    forall bits: Bits, pos: nat, out: ByteSeq | At(bits, pos, w)
      ensures DecodeBlock(bits, pos, out) == Some((out + data, last, pos + |w|))
    {
      ApplyOn(tokens, data, out);
      DynamicRoundTrip(c, tokens, last, bits, pos, out);
    }
  }

  lemma ApplyOn(tokens: seq<Token>, data: ByteSeq, out: ByteSeq)
    requires Apply(tokens, []) == Some(data)
    ensures Apply(tokens, out) == Some(out + data)
  {
    ApplyAfter(tokens, out, []);
    assert out + [] == out;
  }

  lemma {:induction false} FlattenValid(tokens: seq<Token>)
    requires ValidTokens(tokens)
    ensures forall i | 0 <= i < |Flatten(tokens)| :: ValidItem(Flatten(tokens)[i])
  {
    if tokens != [] {
      assert ValidToken(tokens[0]);
      FlattenValid(tokens[1..]);
      assert forall i | 0 <= i < |ItemsOf(tokens[0])| :: ValidItem(ItemsOf(tokens[0])[i]);
    }
  }

  lemma ItemsValid(tokens: seq<Token>)
    requires ValidTokens(tokens)
    ensures forall i | 0 <= i < |BlockItems(tokens)| :: ValidItem(BlockItems(tokens)[i])
  {
    FlattenValid(tokens);
  }

  /** Compresses one block; if that saves nothing, stores it. */
  method EncodeBlock(bs: BitStream, dict: LZ77Dictionary, data: ByteSeq, s: Settings, last: bool)
      returns (ghost b: Blk)
    requires bs.Valid() && dict.Valid() && Usable(s) && data != []
    modifies bs, dict, dict.hash
    ensures bs.Valid() && dict.Valid() && b.data == data && b.last == last
    ensures BlkOk(b, |old(bs.Content())|) && bs.Content() == old(bs.Content()) + b.bits
    ensures Chosen(s, b)
  {
    hide Decodes, StoredBits, Apply, BitStream.Content, Parse, ValidTokens, Encodes, Chosen, Sorts;
    ghost var before := bs.Content();
    var items;
    ghost var tokens;
    items, tokens := dict.Calc(data, s.level);
    assert data[..|data|] == data;
    items := items + [Eob];
    var bsCps := EncodeItems(s, items, tokens, data, last);
    ghost var w := bsCps.Content();
    if bsCps.BytesSize() >= |data| {
      EncodeStoreBlock(bs, data, last);
      b := Blk(data, last, true, StoredBits(|before|, data, last));
    } else {
      bs.Append(bsCps);
      b := Blk(data, last, false, w);
    }
    IsChosen(s, b, tokens, w);
  }

  lemma IsChosen(s: Settings, b: Blk, tokens: seq<Token>, w: Bits)
    requires s.level < 4 && Parsed(b.data, s.level, tokens) && Encodes(s, BlockItems(tokens), b.last, w)
    requires (b.stored <==> (|w| + 7) / 8 >= |b.data|) && (!b.stored ==> b.bits == w)
    ensures Chosen(s, b)
  {
    hide Parsed, Encodes;
    assert ChosenFrom(s, b, tokens, w);
  }

  // ---- the choice

  /** A block is stored exactly when its coded form, of which there is one, takes as many bytes as the data or
      more, a last partial byte counted. */
  lemma ChosenExact(s: Settings, b: Blk, tokens: seq<Token>, w: Bits)
    requires s.level < 4 && Chosen(s, b)
    requires Parsed(b.data, s.level, tokens) && Encodes(s, BlockItems(tokens), b.last, w)
    ensures b.stored <==> 8 * |b.data| < |w| + 8
    ensures !b.stored ==> b.bits == w
  {
    hide Parsed, Encodes, BlockItems;
    var u, v :| ChosenFrom(s, b, u, v);
    ParsedUnique(b.data, s.level, tokens, u);
    EncodesUnique(s, BlockItems(u), b.last, v, w);
  }

  // ---- uniqueness

  lemma EncodesUnique(s: Settings, items: seq<LZ77Item>, last: bool, v: Bits, w: Bits)
    requires Encodes(s, items, last, v) && Encodes(s, items, last, w)
    ensures v == w
  {
    hide Encodable, StaticBits, DynamicBits, Sound, Tight, Built, ValidItem;
    if s.coding.DynamicCoding? {
      var c :| CodesFor(s.sort, c, items) && v == DynamicBits(c, items, last);
      var d :| CodesFor(s.sort, d, items) && w == DynamicBits(d, items, last);
      BuiltUnique(s.sort, c, d, items);
    }
  }

  /** Data, mark and offset fix the block that is written: its kind and its bits. */
  lemma BlockUnique(s: Settings, a: Blk, b: Blk, offset: nat)
    requires s.level < 4 && Chosen(s, a) && Chosen(s, b) && BlkOk(a, offset) && BlkOk(b, offset)
    requires a.data == b.data && a.last == b.last
    ensures a == b
  {
    hide Parsed, Encodes, BlockItems, StoredBits, Decodes;
    var t, v :| ChosenFrom(s, a, t, v);
    var u, w :| ChosenFrom(s, b, u, w);
    ParsedUnique(a.data, s.level, t, u);
    EncodesUnique(s, BlockItems(t), a.last, v, w);
  }
}
