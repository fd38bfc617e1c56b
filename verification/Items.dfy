/** The items LZ77 hands to the block encoders, their bits under a pair of codes, and the proof that the
    decoder reads them back. */
module Items {
  import opened Words
  import opened Options
  import opened Canonical
  import opened Inflate
  import Tables

  datatype LZ77Item = Literal(val: nat) | Distance(val: nat) | Length(val: nat) | Eob

  ghost predicate ValidToken(t: Token) {
    t.Copy? ==> 3 <= t.length <= 258 && 1 <= t.distance <= 32768
  }

  ghost predicate ValidTokens(tokens: seq<Token>) {
    forall t | t in tokens :: ValidToken(t)
  }

  /** A literal is one item; a copy is a length item followed by its distance. */
  function ItemsOf(t: Token): seq<LZ77Item> {
    match t
    case Lit(b) => [Literal(b)]
    case Copy(length, distance) => [Length(length), Distance(distance)]
  }

  function Flatten(tokens: seq<Token>): seq<LZ77Item> {
    if tokens == [] then [] else ItemsOf(tokens[0]) + Flatten(tokens[1..])
  }

  predicate ValidItem(item: LZ77Item) {
    match item
    case Literal(v) => v < 256
    case Distance(v) => 1 <= v <= 32768
    case Length(v) => 3 <= v <= 258
    case Eob => true
  }

  /** The table row of an item: its code, and its extra bits. */
  function EntryOf(item: LZ77Item): Tables.Entry
    requires ValidItem(item)
  {
    match item
    case Literal(v) => Tables.Entry(v, 0, 0)
    case Distance(v) => Tables.DistanceEntry(v)
    case Length(v) => Tables.LengthEntry(v)
    case Eob => Tables.Entry(END_OF_BLOCK, 0, 0)
  }

  /** The item's symbol has a code. */
  predicate HasCode(ll: seq<nat>, dl: seq<nat>, item: LZ77Item)
    requires ValidItem(item)
  {
    var lens, code := if item.Distance? then dl else ll, EntryOf(item).code;
    code < |lens| && lens[code] > 0
  }

  function ItemBits(ll: seq<nat>, dl: seq<nat>, item: LZ77Item): Bits
    requires ValidItem(item) && HasCode(ll, dl, item)
  {
    var e := EntryOf(item);
    CodeBits(if item.Distance? then dl else ll, e.code) + BitsOf(e.extra, e.nExtra)
  }

  predicate Encodable(ll: seq<nat>, dl: seq<nat>, items: seq<LZ77Item>) {
    forall i | 0 <= i < |items| :: ValidItem(items[i]) && HasCode(ll, dl, items[i])
  }

  function ItemsBits(ll: seq<nat>, dl: seq<nat>, items: seq<LZ77Item>): Bits
    requires Encodable(ll, dl, items)
  {
    if items == [] then [] else ItemBits(ll, dl, items[0]) + ItemsBits(ll, dl, items[1..])
  }

  lemma {:induction false} ItemsBitsConcat(ll: seq<nat>, dl: seq<nat>, a: seq<LZ77Item>, b: seq<LZ77Item>)
    requires Encodable(ll, dl, a) && Encodable(ll, dl, b)
    ensures Encodable(ll, dl, a + b)
    ensures ItemsBits(ll, dl, a + b) == ItemsBits(ll, dl, a) + ItemsBits(ll, dl, b)
  {
    hide ItemBits, HasCode, ValidItem;
    if a == [] {
      assert a + b == b;
    } else {
      assert (a + b)[1..] == a[1..] + b;
      ItemsBitsConcat(ll, dl, a[1..], b);
    }
  }

  lemma ItemsBitsSnoc(ll: seq<nat>, dl: seq<nat>, items: seq<LZ77Item>, k: nat)
    requires k < |items| && Encodable(ll, dl, items)
    ensures Encodable(ll, dl, items[..k]) && Encodable(ll, dl, items[..k + 1])
    ensures ItemsBits(ll, dl, items[..k + 1]) == ItemsBits(ll, dl, items[..k]) + ItemBits(ll, dl, items[k])
  {
    hide ItemBits, HasCode, ValidItem;
    assert items[..k + 1] == items[..k] + [items[k]];
    ItemsBitsConcat(ll, dl, items[..k], [items[k]]);
    assert ItemsBits(ll, dl, [items[k]]) == ItemBits(ll, dl, items[k]) + ItemsBits(ll, dl, []);
  }

  lemma {:induction false} FlattenSnoc(tokens: seq<Token>, t: Token)
    ensures Flatten(tokens + [t]) == Flatten(tokens) + ItemsOf(t)
  {
    if tokens == [] {
      assert [] + [t] == [t];
      assert Flatten([t]) == ItemsOf(t) + Flatten([]);
    } else {
      assert (tokens + [t])[1..] == tokens[1..] + [t];
      FlattenSnoc(tokens[1..], t);
    }
  }

  /** The items of one more token add its bits. */
  lemma SnocBits(ll: seq<nat>, dl: seq<nat>, tokens: seq<Token>, t: Token)
    requires Encodable(ll, dl, Flatten(tokens)) && Encodable(ll, dl, ItemsOf(t))
    ensures Encodable(ll, dl, Flatten(tokens + [t]))
    ensures |ItemsBits(ll, dl, Flatten(tokens + [t]))|
         == |ItemsBits(ll, dl, Flatten(tokens))| + |ItemsBits(ll, dl, ItemsOf(t))|
  {
    hide ItemsBits, Encodable, ItemsOf, Flatten;
    FlattenSnoc(tokens, t);
    ItemsBitsConcat(ll, dl, Flatten(tokens), ItemsOf(t));
  }

  // ---- reading items back

  /** The items of a block: the tokens, then the end of block. */
  function BlockItems(tokens: seq<Token>): seq<LZ77Item> {
    Flatten(tokens) + [Eob]
  }

  /** A symbol with its extra bits at pos is read as its code and the extra value. */
  lemma ReadItem(lens: seq<nat>, e: Tables.Entry, bits: Bits, pos: nat)
    requires Decodable(lens, MAX_CODE_LENGTH) && e.code < |lens| && lens[e.code] > 0 && e.extra < Pow2(e.nExtra)
    requires At(bits, pos, CodeBits(lens, e.code) + BitsOf(e.extra, e.nExtra))
    ensures DecodeSymbol(lens, bits, pos) == Some((e.code, pos + lens[e.code]))
    ensures ReadBits(bits, pos + lens[e.code], e.nExtra) == Some(e.extra)
  {
    AtConcat(bits, pos, CodeBits(lens, e.code), BitsOf(e.extra, e.nExtra));
    DecodeWritten(lens, MAX_CODE_LENGTH, e.code, bits, pos);
    ReadWritten(bits, pos + lens[e.code], e.extra, e.nExtra);
  }

  lemma ReadEncoded(ll: seq<nat>, dl: seq<nat>, item: LZ77Item, bits: Bits, pos: nat)
    requires ValidItem(item) && HasCode(ll, dl, item) && At(bits, pos, ItemBits(ll, dl, item))
    requires Decodable(if item.Distance? then dl else ll, MAX_CODE_LENGTH)
    ensures var e, lens := EntryOf(item), if item.Distance? then dl else ll;
            && DecodeSymbol(lens, bits, pos) == Some((e.code, pos + lens[e.code]))
            && ReadBits(bits, pos + lens[e.code], e.nExtra) == Some(e.extra)
            && |ItemBits(ll, dl, item)| == lens[e.code] + e.nExtra
  {
    hide CodeBits, DecodeSymbol, Decodable, At, ReadBits, Tables.LengthEntry, Tables.DistanceEntry;
    match item {
      case Length(x) => Tables.LengthTableInverts(x);
      case Distance(x) => Tables.DistanceTableInverts(x);
      case _ => assert 0 < Pow2(0);
    }
    ReadItem(if item.Distance? then dl else ll, EntryOf(item), bits, pos);
  }

  lemma ReadLit(ll: seq<nat>, dl: seq<nat>, b: Byte, bits: Bits, pos: nat)
    requires Decodable(ll, MAX_CODE_LENGTH) && HasCode(ll, dl, Literal(b))
    requires At(bits, pos, ItemBits(ll, dl, Literal(b)))
    requires DecodeTokens(ll, dl, bits, pos + |ItemBits(ll, dl, Literal(b))|).Some?
    ensures var (tokens, end) := DecodeTokens(ll, dl, bits, pos + |ItemBits(ll, dl, Literal(b))|).value;
            DecodeTokens(ll, dl, bits, pos) == Some(([Lit(b)] + tokens, end))
  {
    hide DecodeSymbol, DecodeTokens, Decodable, At, ItemBits, ReadBits;
    ReadEncoded(ll, dl, Literal(b), bits, pos);
    LitStep(ll, dl, bits, pos, b, pos + |ItemBits(ll, dl, Literal(b))|);
  }

  lemma ReadEob(ll: seq<nat>, dl: seq<nat>, bits: Bits, pos: nat)
    requires Decodable(ll, MAX_CODE_LENGTH) && HasCode(ll, dl, Eob)
    requires At(bits, pos, ItemBits(ll, dl, Eob))
    ensures DecodeTokens(ll, dl, bits, pos) == Some(([], pos + |ItemBits(ll, dl, Eob)|))
  {
    hide DecodeSymbol, DecodeTokens, Decodable, At, ItemBits, ReadBits;
    ReadEncoded(ll, dl, Eob, bits, pos);
    EndStep(ll, dl, bits, pos, pos + |ItemBits(ll, dl, Eob)|);
  }

  lemma ReadCopy(ll: seq<nat>, dl: seq<nat>, length: nat, distance: nat, bits: Bits, pos: nat, p: nat, q: nat)
    requires Decodable(ll, MAX_CODE_LENGTH) && Decodable(dl, MAX_CODE_LENGTH)
    requires 3 <= length <= 258 && 1 <= distance <= 32768
    requires HasCode(ll, dl, Length(length)) && HasCode(ll, dl, Distance(distance))
    requires At(bits, pos, ItemBits(ll, dl, Length(length))) && p == pos + |ItemBits(ll, dl, Length(length))|
    requires At(bits, p, ItemBits(ll, dl, Distance(distance))) && q == p + |ItemBits(ll, dl, Distance(distance))|
    requires DecodeTokens(ll, dl, bits, q).Some?
    ensures var (tokens, end) := DecodeTokens(ll, dl, bits, q).value;
            DecodeTokens(ll, dl, bits, pos) == Some(([Copy(length, distance)] + tokens, end))
  {
    hide ItemBits, HasCode, DecodeSymbol, DecodeTokens, Decodable, At, ReadBits, Tables.LengthEntry,
      Tables.DistanceEntry, Tables.LengthInverts, Tables.DistanceInverts;
    ReadEncoded(ll, dl, Length(length), bits, pos);
    ReadEncoded(ll, dl, Distance(distance), bits, p);
    Tables.LengthTableInverts(length);
    Tables.DistanceTableInverts(distance);
    var e, d := Tables.LengthEntry(length), Tables.DistanceEntry(distance);
    CopyStep(ll, dl, bits, pos, pos + ll[e.code], p + dl[d.code], e, d, length, distance);
  }

  lemma FirstLit(ll: seq<nat>, dl: seq<nat>, b: Byte, rest: seq<Token>, bits: Bits, pos: nat)
    requires Decodable(ll, MAX_CODE_LENGTH) && Encodable(ll, dl, BlockItems([Lit(b)] + rest))
    requires At(bits, pos, ItemsBits(ll, dl, BlockItems([Lit(b)] + rest)))
    ensures HasCode(ll, dl, Literal(b)) && Encodable(ll, dl, BlockItems(rest))
    ensures var p := pos + |ItemBits(ll, dl, Literal(b))|;
            && At(bits, p, ItemsBits(ll, dl, BlockItems(rest)))
            && |ItemsBits(ll, dl, BlockItems([Lit(b)] + rest))| == p - pos + |ItemsBits(ll, dl, BlockItems(rest))|
            && (DecodeTokens(ll, dl, bits, p).Some? ==>
                  var (tokens, end) := DecodeTokens(ll, dl, bits, p).value;
                  DecodeTokens(ll, dl, bits, pos) == Some(([Lit(b)] + tokens, end)))
  {
    hide CodeBits, Decodable, DecodeTokens, At, HasCode, ItemBits;
    ItemsOfFirst(Lit(b), rest);
    var items := BlockItems([Lit(b)] + rest);
    assert items[1..] == BlockItems(rest);
    AtConcat(bits, pos, ItemBits(ll, dl, items[0]), ItemsBits(ll, dl, items[1..]));
    if DecodeTokens(ll, dl, bits, pos + |ItemBits(ll, dl, Literal(b))|).Some? {
      ReadLit(ll, dl, b, bits, pos);
    }
  }

  lemma FirstCopy(ll: seq<nat>, dl: seq<nat>, length: nat, distance: nat, rest: seq<Token>, bits: Bits, pos: nat)
    requires Decodable(ll, MAX_CODE_LENGTH) && Decodable(dl, MAX_CODE_LENGTH)
    requires 3 <= length <= 258 && 1 <= distance <= 32768
    requires Encodable(ll, dl, BlockItems([Copy(length, distance)] + rest))
    requires At(bits, pos, ItemsBits(ll, dl, BlockItems([Copy(length, distance)] + rest)))
    ensures HasCode(ll, dl, Length(length)) && HasCode(ll, dl, Distance(distance))
    ensures Encodable(ll, dl, BlockItems(rest))
    ensures var q := pos + |ItemBits(ll, dl, Length(length))| + |ItemBits(ll, dl, Distance(distance))|;
            && At(bits, q, ItemsBits(ll, dl, BlockItems(rest)))
            && |ItemsBits(ll, dl, BlockItems([Copy(length, distance)] + rest))|
               == q - pos + |ItemsBits(ll, dl, BlockItems(rest))|
            && (DecodeTokens(ll, dl, bits, q).Some? ==>
                  var (tokens, end) := DecodeTokens(ll, dl, bits, q).value;
                  DecodeTokens(ll, dl, bits, pos) == Some(([Copy(length, distance)] + tokens, end)))
  {
    hide CodeBits, Decodable, DecodeTokens, At, HasCode, ItemBits;
    ItemsOfFirst(Copy(length, distance), rest);
    var items := BlockItems([Copy(length, distance)] + rest);
    var tail := items[1..];
    assert tail[1..] == BlockItems(rest);
    AtConcat(bits, pos, ItemBits(ll, dl, items[0]), ItemsBits(ll, dl, tail));
    var p := pos + |ItemBits(ll, dl, items[0])|;
    AtConcat(bits, p, ItemBits(ll, dl, tail[0]), ItemsBits(ll, dl, tail[1..]));
    var q := p + |ItemBits(ll, dl, tail[0])|;
    if DecodeTokens(ll, dl, bits, q).Some? {
      ReadCopy(ll, dl, length, distance, bits, pos, p, q);
    }
  }

  lemma ItemsOfFirst(t: Token, rest: seq<Token>)
    ensures BlockItems([t] + rest) == ItemsOf(t) + BlockItems(rest)
  {
    assert ([t] + rest)[1..] == rest;
  }

  lemma OnlyEob(ll: seq<nat>, dl: seq<nat>)
    requires Encodable(ll, dl, BlockItems([]))
    ensures HasCode(ll, dl, Eob) && ItemsBits(ll, dl, BlockItems([])) == ItemBits(ll, dl, Eob)
  {
    hide ItemBits, HasCode;
    var items := BlockItems([]);
    assert items == [Eob] && items[0] == Eob && items[1..] == [];
    assert ValidItem(items[0]) && HasCode(ll, dl, items[0]);
  }

  /** The decoder recovers any tokens from the bits of their items, whatever surrounds them. */
  lemma {:induction false} DecodeItems(ll: seq<nat>, dl: seq<nat>, tokens: seq<Token>, bits: Bits, pos: nat)
    requires Decodable(ll, MAX_CODE_LENGTH) && Decodable(dl, MAX_CODE_LENGTH)
    requires ValidTokens(tokens) && Encodable(ll, dl, BlockItems(tokens))
    requires At(bits, pos, ItemsBits(ll, dl, BlockItems(tokens)))
    ensures DecodeTokens(ll, dl, bits, pos)
         == Some((tokens, pos + |ItemsBits(ll, dl, BlockItems(tokens))|))
    decreases |tokens|
  {
    hide CodeBits, Decodable, DecodeTokens, At, HasCode, ItemBits, ItemsBits, Encodable, BlockItems;
    if tokens == [] {
      OnlyEob(ll, dl);
      ReadEob(ll, dl, bits, pos);
    } else {
      var rest := tokens[1..];
      assert tokens == [tokens[0]] + rest;
      match tokens[0]
      case Lit(b) =>
        FirstLit(ll, dl, b, rest, bits, pos);
        DecodeItems(ll, dl, rest, bits, pos + |ItemBits(ll, dl, Literal(b))|);
      case Copy(length, distance) =>
        assert ValidToken(tokens[0]);
        FirstCopy(ll, dl, length, distance, rest, bits, pos);
        DecodeItems(ll, dl, rest, bits,
                    pos + |ItemBits(ll, dl, Length(length))| + |ItemBits(ll, dl, Distance(distance))|);
    }
  }

  lemma EndStep(ll: seq<nat>, dl: seq<nat>, bits: Bits, pos: nat, p: nat)
    requires DecodeSymbol(ll, bits, pos) == Some((END_OF_BLOCK, p))
    ensures DecodeTokens(ll, dl, bits, pos) == Some(([], p))
  {
  }

  lemma LitStep(ll: seq<nat>, dl: seq<nat>, bits: Bits, pos: nat, b: Byte, p: nat)
    requires DecodeSymbol(ll, bits, pos) == Some((b as nat, p)) && DecodeTokens(ll, dl, bits, p).Some?
    ensures var (tokens, end) := DecodeTokens(ll, dl, bits, p).value;
            DecodeTokens(ll, dl, bits, pos) == Some(([Lit(b)] + tokens, end))
  {
  }

  lemma CopyStep(ll: seq<nat>, dl: seq<nat>, bits: Bits, pos: nat, p: nat, q: nat, e: Tables.Entry, d: Tables.Entry,
                 length: nat, distance: nat)
    requires Tables.LengthInverts(e, length) && Tables.DistanceInverts(d, distance)
    requires DecodeSymbol(ll, bits, pos) == Some((e.code, p)) && ReadBits(bits, p, e.nExtra) == Some(e.extra)
    requires DecodeSymbol(dl, bits, p + e.nExtra) == Some((d.code, q)) && ReadBits(bits, q, d.nExtra) == Some(d.extra)
    requires DecodeTokens(ll, dl, bits, q + d.nExtra).Some?
    ensures var (tokens, end) := DecodeTokens(ll, dl, bits, q + d.nExtra).value;
            DecodeTokens(ll, dl, bits, pos) == Some(([Copy(length, distance)] + tokens, end))
  {
    hide DecodeSymbol, ReadBits, Tables.LengthBase, Tables.LengthExtra, Tables.DistanceBase, Tables.DistanceExtra, Pow2;
  }
}
