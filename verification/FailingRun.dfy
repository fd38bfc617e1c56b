/** An input on which the compressor's result is rejected: a block size of zero bytes and one more, on two
    threads, with static blocks, at any level and under any schedule. The first section is compressed to 52865
    bits, one more than a multiple of eight, so the second, whose one byte is stored, starts at bit 1 of a byte. */
module FailingRun {
  import opened Words
  import opened Options
  import opened Inflate
  import opened Items
  import opened Lz77
  import opened StaticBlock
  import opened StoredBlock
  import opened Misread
  import opened Stream
  import opened BlockChoice
  import opened Sections
  import opened Compressor
  import opened ZeroRuns

  function ZeroBytes(n: nat): (src: ByteSeq)
    ensures |src| == n && forall k | 0 <= k < n :: src[k] == 0
  {
    Repeated(0, n)
  }

  // ---- the plan

  const INPUT_SIZE := 1048577

  lemma TwoSections()
    ensures ThreadCount(INPUT_SIZE, 2) == 2 && SectionStart(INPUT_SIZE, 2, 0) == 0
    ensures SectionStart(INPUT_SIZE, 2, 1) == DEFLATE_BLOCK_SIZE && SectionStart(INPUT_SIZE, 2, 2) == INPUT_SIZE
  {
    assert EachCount(INPUT_SIZE, 2) == 1;
  }

  lemma SoleBlk(blks: seq<Blk>, section: ByteSeq, last: bool)
    requires SectionDone(blks, section, last) && 0 < |section| < 2 * DEFLATE_BLOCK_SIZE
    ensures |blks| == 1 && blks[0].data == section && blks[0].last == last && BlkOk(blks[0], 0)
  {
    hide BlkOk;
    OneBlock(blks);
    assert SectionData(blks) == blks[0].data + SectionData([]);
  }

  lemma ZerosChosen(s: Settings, b: Blk)
    requires s.level < 4 && s.coding.StaticCoding? && Chosen(s, b) && b.data == ZeroBytes(DEFLATE_BLOCK_SIZE)
    ensures !b.stored && |b.bits| == ZERO_BITS
  {
    hide Parsed, BlockItems, StaticBits, Encodable, Headed;
    var tokens, w :| ChosenFrom(s, b, tokens, w);
    assert ZeroBytes(DEFLATE_BLOCK_SIZE) == Headed(0);
    ZeroBits(0, s.level, tokens, b.last);
  }

  lemma ByteStored(s: Settings, b: Blk)
    requires s.level < 4 && s.coding.StaticCoding? && Chosen(s, b) && |b.data| == 1
    ensures b.stored
  {
    hide Parsed, BlockItems, ItemsBits, Encodable;
    var tokens, w :| ChosenFrom(s, b, tokens, w);
    assert |w| >= 3;
  }

  /** Any plan of the input: one compressed block, and one stored byte. */
  lemma PlanOfZeros(s: Settings, plan: seq<seq<Blk>>) returns (a: Blk, b: Blk)
    requires s.level < 4 && s.coding.StaticCoding?
    requires PlanOk(plan, ZeroBytes(INPUT_SIZE), 2) && AllChosen(s, plan)
    ensures plan == [[a], [b]]
    ensures !a.stored && a.data == ZeroBytes(DEFLATE_BLOCK_SIZE) && !a.last && |a.bits| == ZERO_BITS && BlkOk(a, 0)
    ensures b.stored && b.data == [0] && b.last && b.bits == StoredBits(0, [0], true)
  {
    hide SectionDone, SectionStart, ThreadCount, Chosen, Decodes, StoredBits;
    var src := ZeroBytes(INPUT_SIZE);
    TwoSections();
    assert SectionOk(plan[0], src, 2, 0) && SectionOk(plan[1], src, 2, 1);
    assert src[0..DEFLATE_BLOCK_SIZE] == ZeroBytes(DEFLATE_BLOCK_SIZE);
    assert src[DEFLATE_BLOCK_SIZE..INPUT_SIZE] == [0];
    SoleBlk(plan[0], ZeroBytes(DEFLATE_BLOCK_SIZE), false);
    SoleBlk(plan[1], [0], true);
    a, b := plan[0][0], plan[1][0];
    assert Chosen(s, plan[0][0]) && Chosen(s, plan[1][0]);
    ZerosChosen(s, a);
    ByteStored(s, b);
    assert plan[0] == [a] && plan[1] == [b];
  }

  // ---- what a decoder makes of it

  /** Read a bit early, LEN 1 is 2 and its complement 65532. */
  lemma OneEarly(bits: Bits, p: nat)
    requires p % 8 == 4 && At(bits, p, Zeros(5))
    requires At(bits, p + 5, BitsOf(1, 16)) && At(bits, p + 21, BitsOf(65534, 16))
    ensures DecodeStored(bits, p) == None
  {
    hide At, BitsOf, ReadBits, Pow2, ShiftLeft;
    Pow2Values();
    ShiftLeftLinear(0, 0, 15);
    ShiftLeftPow2(0, 15);
    BitsJoin(1, 0, 15, 1);
    BitsJoin(32766, 1, 15, 1);
    AtConcat(bits, p + 5, BitsOf(1, 15), BitsOf(0, 1));
    AtConcat(bits, p + 21, BitsOf(32766, 15), BitsOf(1, 1));
    assert Zeros(5) == Zeros(4) + Zeros(1);
    AtConcat(bits, p, Zeros(4), Zeros(1));
    BitsOfZero(1);
    Doubled(1);
    Doubled(32766);
    AtConcat(bits, p + 4, BitsOf(0, 1), BitsOf(1, 15));
    AtConcat(bits, p + 20, BitsOf(0, 1), BitsOf(32766, 15));
    ReadWritten(bits, p + 4, 2, 16);
    ReadWritten(bits, p + 20, 65532, 16);
  }

  lemma Doubled(v: nat)
    ensures BitsOf(2 * v, 16) == BitsOf(0, 1) + BitsOf(v, 15)
  {
    assert BitsOf(0, 1) == [false];
  }

  lemma StreamOfTwo(a: Blk, b: Blk)
    ensures StreamBits([[a], [b]]) == a.bits + b.bits
    ensures Place(0, [[a], [b]]) == [Placed(0, 0, a), Placed(|a.bits|, 0, b)]
  {
    var first, second := [a], [b];
    assert first[1..] == [] && second[1..] == [];
    assert SectionBits(first) == a.bits + SectionBits([]) && SectionBits(second) == b.bits + SectionBits([]);
    assert StreamBits([first, second]) == SectionBits(first) + StreamBits([second]);
    assert StreamBits([second]) == SectionBits(second) + StreamBits([]);
    assert PlaceBlks(0, 0, first) == [Placed(0, 0, a)];
    assert PlaceBlks(|a.bits|, 0, second) == [Placed(|a.bits|, 0, b)];
    assert Place(|a.bits|, [second]) == PlaceBlks(|a.bits|, 0, second) + [];
  }

  /** The stored byte is read as a block with LEN 2 and rejected. */
  lemma ByteRejected(bits: Bits, pos: nat, out: ByteSeq)
    requires pos % 8 == 1 && At(bits, pos, StoredBits(0, [0], true))
    ensures DecodeBlock(bits, pos, out) == None && pos < |bits|
  {
    hide At, BitsOf, Zeros, BlockHeader, PaddedBits, DecodeHeader, DecodeCompressed, BytesBits, DecodeStored,
      DecodeBlock;
    var data: ByteSeq := [0];
    assert data[..1] == data && data[1..] == [];
    var w := SubBits(0, data, true);
    assert StoredBits(0, data, true) == w + [];
    assert w + [] == w;
    SubIsPadded(0, data, true);
    assert Padding(0) == 5;
    SubParts(bits, pos, 5, data, true);
    StoredRead(bits, pos, true, out);
    OneEarly(bits, pos + 3);
  }

  /** Whatever the compressor makes of the input is rejected by the decoder. */
  lemma ZerosRejected(s: Settings, plan: seq<seq<Blk>>, res: ByteSeq)
    requires s.level < 4 && s.coding.StaticCoding?
    requires PlanOk(plan, ZeroBytes(INPUT_SIZE), 2) && AllChosen(s, plan) && Exported(res, plan)
    ensures !Aligned(Place(0, plan)) && Decode(BytesBits(res), 0, []) == None
  {
    hide PlanOk, AllChosen, Exported, At, StreamBits, Place, DecodeBlock, StoredBits, BytesBits;
    var a, b := PlanOfZeros(s, plan);
    var bits := BytesBits(res);
    StreamOfTwo(a, b);
    ExportedAt(res, plan);
    AtConcat(bits, 0, a.bits, b.bits);
    assert !Aligned(Place(0, plan)) by {
      assert Place(0, plan)[1] == Placed(ZERO_BITS, 0, b);
    }
    assert DecodeBlock(bits, 0, []) == Some(([] + a.data, false, ZERO_BITS));
    ByteRejected(bits, ZERO_BITS, [] + a.data);
  }

  /** The compressor run on it. */
  method CompressZeros(s: Settings, schedule: seq<nat>) returns (res: ByteSeq)
    requires Usable(s) && s.coding.StaticCoding?
    ensures Decode(BytesBits(res), 0, []) == None
  {
    hide Usable, PlanOk, AllChosen, Exported, Aligned, Place, Faithful, Decode, Returns;
    LevelBound(s);
    var c := new DeflateCompressor(s, 2);
    c.Feed(ZeroBytes(INPUT_SIZE));
    var _ := c.Compress(schedule);
    res := c.WriteResult();
    ZerosRejected(s, c.plan, res);
  }
}
