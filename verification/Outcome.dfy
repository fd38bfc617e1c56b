/** What decoding the whole result returns: its input, if and only if every stored block is aligned. The one
    exception is an input in which a misread sub-block can be taken for a part of the data, and whether it is
    such an input can be seen before it is compressed. */
module Outcome {
  import opened Words
  import opened Options
  import opened Inflate
  import opened StaticBlock
  import opened StoredBlock
  import opened Stream
  import opened Misread
  import opened BlockChoice
  import opened Sections
  import opened ZeroHead

  // ---- one misaligned block

  lemma FirstSub(bits: Bits, base: nat, o: nat, data: ByteSeq, last: bool)
    requires data != [] && At(bits, base + o, StoredBits(o, data, last))
    ensures var k := SubSize(|data|);
            At(bits, base + o, SubBits(o, data[..k], last && k == |data|))
  {
    hide At, SubBits;
    var k := SubSize(|data|);
    var w := SubBits(o, data[..k], last && k == |data|);
    AtConcat(bits, base + o, w, StoredBits(o + |w|, data[k..], last));
  }

  /** A misaligned final block of one sub-block is not decoded to its data. */
  lemma ShortMisread(bits: Bits, base: nat, o: nat, data: ByteSeq, out: ByteSeq)
    requires 0 < |data| <= SUB_BLOCK_SIZE && At(bits, base + o, StoredBits(o, data, true))
    requires !(base % 8 == 0 && o % 8 != 5)
    ensures Decode(bits, base + o, out).Some? ==> Decode(bits, base + o, out).value.0 != out + data
  {
    hide At, Decode, SubBits, StoredBits;
    FirstSub(bits, base, o, data, true);
    assert data[..|data|] == data;
    FinalExact(bits, base, o, data, out);
  }

  /** Whatever follows, a longer misaligned block that is no decoy is not decoded to anything that starts with
      its data. */
  lemma LongMisread(bits: Bits, base: nat, o: nat, data: ByteSeq, last: bool, out: ByteSeq)
    requires |data| > SUB_BLOCK_SIZE && At(bits, base + o, StoredBits(o, data, last))
    requires !(base % 8 == 0 && o % 8 != 5) && !Decoy(base, o, data[..SUB_BLOCK_SIZE])
    ensures Decode(bits, base + o, out).Some? ==> !(out + data <= Decode(bits, base + o, out).value.0)
  {
    hide At, SubBits, StoredBits, DecodeBlock, DecodeStored, BlockHeader, Lead, Decoy, Padding;
    var first, p := data[..SUB_BLOCK_SIZE], base + o;
    FirstSub(bits, base, o, data, last);
    LeadBounds(base, o);
    SubFull(bits, base, o, first);
    StoredRead(bits, p, false, out);
    DecoyExact(bits, base, o, first);
    if Decode(bits, p, out).Some? {
      var (d, end) := DecodeStored(bits, p + 3).value;
      DecodeExtends(bits, end, out + d);
      PrefixOfBoth(out, d, data, Decode(bits, p, out).value.0);
    }
  }

  lemma PrefixOfBoth(out: ByteSeq, d: ByteSeq, data: ByteSeq, all: ByteSeq)
    requires out + d <= all && |d| < SUB_BLOCK_SIZE < |data| && !(d <= data[..SUB_BLOCK_SIZE])
    ensures !(out + data <= all)
  {
    if out + data <= all {
      forall k | 0 <= k < |d|
        ensures d[k] == data[k]
      {
        assert d[k] == (out + d)[|out| + k] == all[|out| + k] == (out + data)[|out| + k];
      }
    }
  }

  // ---- the run

  /** No long stored block starts with a run that its misread bytes could be taken for. */
  ghost predicate NoDecoys(ps: seq<Placed>) {
    forall k | 0 <= k < |ps| :: NoDecoy(ps[k])
  }

  ghost predicate NoDecoy(p: Placed) {
    p.blk.stored && |p.blk.data| > SUB_BLOCK_SIZE ==> !Decoy(p.base, p.offset, p.blk.data[..SUB_BLOCK_SIZE])
  }

  ghost predicate AlignedBlk(p: Placed) {
    p.blk.stored ==> p.base % 8 == 0 && p.offset % 8 != 5
  }

  lemma HeadMisread(bits: Bits, ps: seq<Placed>, pos: nat, out: ByteSeq)
    requires ps != [] && Chained(ps, pos) && At(bits, pos, RunBits(ps)) && OnlyLast(ps) && FullBlocks(ps)
    requires !AlignedBlk(ps[0]) && NoDecoy(ps[0])
    ensures Decode(bits, pos, out).Some? ==> Decode(bits, pos, out).value.0 != out + RunData(ps)
  {
    hide At, Decode, StoredBits, Decoy;
    var p := ps[0];
    AtConcat(bits, pos, p.blk.bits, RunBits(ps[1..]));
    assert p.blk.last <==> 0 == |ps| - 1;
    if |p.blk.data| <= SUB_BLOCK_SIZE {
      assert ps[1..] == [];
      ShortMisread(bits, p.base, p.offset, p.blk.data, out);
    } else {
      LongMisread(bits, p.base, p.offset, p.blk.data, p.blk.last, out);
      Regroup(out, p.blk.data, RunData(ps[1..]));
    }
  }

  lemma RunTail(ps: seq<Placed>)
    requires ps != []
    ensures OnlyLast(ps) && |ps| > 1 ==> OnlyLast(ps[1..]) && !ps[0].blk.last
    ensures FullBlocks(ps) ==> FullBlocks(ps[1..])
    ensures NoDecoys(ps) ==> NoDecoy(ps[0]) && NoDecoys(ps[1..])
  {
    hide NoDecoy;
    var rest := ps[1..];
    assert forall k | 0 <= k < |rest| :: rest[k] == ps[k + 1];
  }

  /** The decoder returns the data of the run exactly when the stored blocks are aligned. */
  lemma {:induction false} RunOutput(bits: Bits, ps: seq<Placed>, pos: nat, out: ByteSeq)
    requires Chained(ps, pos) && At(bits, pos, RunBits(ps)) && OnlyLast(ps) && FullBlocks(ps) && NoDecoys(ps)
    ensures (Decode(bits, pos, out).Some? && Decode(bits, pos, out).value.0 == out + RunData(ps)) <==> Aligned(ps)
    decreases |ps|
  {
    hide At, Decode, OnlyLast, FullBlocks, NoDecoys, NoDecoy, Aligned, BlkOk, BlkFaithful;
    assert ps != [] by { SomeBlock(ps); }
    var rest := ps[1..];
    AlignedHead(ps);
    RunTail(ps);
    if !AlignedBlk(ps[0]) {
      HeadMisread(bits, ps, pos, out);
    } else {
      AtConcat(bits, pos, ps[0].blk.bits, RunBits(rest));
      BlkExact(bits, ps[0], out);
      BlkDecodes(bits, ps[0], out);
      if rest == [] {
        SoleBlock(ps);
      } else {
        RunOutput(bits, rest, pos + |ps[0].blk.bits|, out + ps[0].blk.data);
        Regroup(out, ps[0].blk.data, RunData(rest));
      }
    }
  }

  lemma SomeBlock(ps: seq<Placed>)
    requires OnlyLast(ps)
    ensures ps != []
  {
  }

  lemma SoleBlock(ps: seq<Placed>)
    requires OnlyLast(ps) && ps[1..] == []
    ensures ps[0].blk.last && RunData(ps) == ps[0].blk.data && Aligned(ps[1..])
  {
  }

  // ---- inputs without decoys

  /** Block size i of the input, which at least a full sub-block follows, starts like a decoy that can be stored:
      with 65280 zero bytes, if blocks are static, or, on more than one thread, with 1023 bytes 255. */
  ghost predicate Suspect(coding: CodingType, src: ByteSeq, threads: nat, i: nat) {
    var p := i * DEFLATE_BLOCK_SIZE;
    && p + SUB_BLOCK_SIZE < |src|
    && ((coding.StaticCoding? && src[p..p + 65280] == Repeated(0, 65280))
        || (threads > 1 && src[p..p + 1023] == Repeated(255, 1023)))
  }

  ghost predicate NoSuspects(coding: CodingType, src: ByteSeq, threads: nat) {
    forall i: nat | i > 0 :: !Suspect(coding, src, threads, i)
  }

  /** With dynamic blocks, no stored block starts with the zeros of a decoy. */
  ghost predicate ZerosCompressed(coding: CodingType, p: Placed) {
    coding.DynamicCoding? && p.blk.stored ==> !ZeroHeaded(p.blk.data)
  }

  lemma DecoySuspect(coding: CodingType, p: Placed, src: ByteSeq, threads: nat, i: nat)
    requires i * DEFLATE_BLOCK_SIZE <= |src| && p.blk.data <= src[i * DEFLATE_BLOCK_SIZE..]
    requires threads >= 1 && (threads == 1 ==> p.base % 8 == 0) && ZerosCompressed(coding, p) && p.blk.stored
    requires |p.blk.data| > SUB_BLOCK_SIZE && Decoy(p.base, p.offset, p.blk.data[..SUB_BLOCK_SIZE])
    ensures Suspect(coding, src, threads, i)
  {
    hide Decoy, ZeroHeaded;
    var start, data := i * DEFLATE_BLOCK_SIZE, p.blk.data;
    var first := data[..SUB_BLOCK_SIZE];
    DecoyBytes(p.base, p.offset, first);
    assert start + |data| <= |src| && data == src[start..start + |data|];
    assert first[..65280] == src[start..start + 65280] && first[..1023] == src[start..start + 1023];
    if first[..65280] == Repeated(0, 65280) {
      StartsWithZeros(data);
    }
  }

  lemma StartsWithZeros(data: ByteSeq)
    requires |data| > SUB_BLOCK_SIZE && data[..SUB_BLOCK_SIZE][..65280] == Repeated(0, 65280)
    ensures ZeroHeaded(data)
  {
    var zeros: ByteSeq := Repeated(0, 65280);
    assert forall k | 0 <= k < 65280 :: data[k] == data[..SUB_BLOCK_SIZE][..65280][k] == zeros[k];
  }

  lemma BlockNoDecoy(coding: CodingType, p: Placed, src: ByteSeq, threads: nat, i: nat)
    requires i * DEFLATE_BLOCK_SIZE <= |src| && p.blk.data <= src[i * DEFLATE_BLOCK_SIZE..]
    requires threads >= 1 && (threads == 1 ==> p.base % 8 == 0) && ZerosCompressed(coding, p)
    requires if i == 0 then p.base == 0 && p.offset == 0 else !Suspect(coding, src, threads, i)
    ensures NoDecoy(p)
  {
    hide Lead, Suspect, ZerosCompressed;
    LeadBounds(p.base, p.offset);
    if i > 0 && p.blk.stored && |p.blk.data| > SUB_BLOCK_SIZE
       && Decoy(p.base, p.offset, p.blk.data[..SUB_BLOCK_SIZE]) {
      DecoySuspect(coding, p, src, threads, i);
    }
  }

  /** The blocks from block size i of the input on. */
  lemma {:induction false} RunNoDecoys(coding: CodingType, ps: seq<Placed>, src: ByteSeq, threads: nat, i: nat)
    requires i * DEFLATE_BLOCK_SIZE <= |src| && RunData(ps) == src[i * DEFLATE_BLOCK_SIZE..]
    requires OnlyLast(ps) && FullBlocks(ps) && threads >= 1 && NoSuspects(coding, src, threads)
    requires forall k | 0 <= k < |ps| :: ZerosCompressed(coding, ps[k])
    requires threads == 1 ==> forall k | 0 <= k < |ps| :: ps[k].base % 8 == 0
    requires i == 0 ==> ps[0].base == 0 && ps[0].offset == 0
    ensures NoDecoys(ps)
    decreases |ps|
  {
    hide Suspect, NoDecoy, ZerosCompressed;
    var rest, head := ps[1..], ps[0].blk.data;
    assert RunData(ps) == head + RunData(rest);
    assert !Suspect(coding, src, threads, i) || i == 0;
    BlockNoDecoy(coding, ps[0], src, threads, i);
    assert forall k | 0 <= k < |rest| :: rest[k] == ps[k + 1];
    if rest != [] {
      assert !ps[0].blk.last;
      assert |head| == DEFLATE_BLOCK_SIZE;
      assert src[(i + 1) * DEFLATE_BLOCK_SIZE..] == RunData(ps)[|head|..] == RunData(rest);
      RunNoDecoys(coding, rest, src, threads, i + 1);
    }
  }

  lemma {:induction false} SameBase(base: nat, offset: nat, blks: seq<Blk>)
    ensures forall k | 0 <= k < |PlaceBlks(base, offset, blks)| :: PlaceBlks(base, offset, blks)[k].base == base
    decreases |blks|
  {
    if blks != [] {
      SameBase(base, offset + |blks[0].bits|, blks[1..]);
    }
  }

  lemma {:induction false} FirstPlaced(base: nat, secs: seq<seq<Blk>>)
    ensures Place(base, secs) != [] ==> Place(base, secs)[0].base == base && Place(base, secs)[0].offset == 0
    decreases |secs|
  {
    if secs != [] && secs[0] == [] {
      assert SectionBits(secs[0]) == [];
      FirstPlaced(base, secs[1..]);
    }
  }

  /** One thread writes one section, which starts at bit 0. */
  lemma OneThread(plan: seq<seq<Blk>>, src: ByteSeq)
    requires src != [] && PlanOk(plan, src, 1)
    ensures forall k | 0 <= k < |Place(0, plan)| :: Place(0, plan)[k].base == 0
  {
    hide SectionOk;
    SameBase(0, 0, plan[0]);
    assert plan[1..] == [];
    assert Place(0, plan) == PlaceBlks(0, 0, plan[0]) + [];
  }

  lemma {:induction false} PlacedChosen(s: Settings, base: nat, secs: seq<seq<Blk>>)
    requires s.level < 4 && AllChosen(s, secs)
    ensures forall k | 0 <= k < |Place(base, secs)| :: Chosen(s, Place(base, secs)[k].blk)
    decreases |secs|
  {
    hide Chosen;
    if secs != [] {
      PlacedAt(base, 0, secs[0]);
      PlacedChosen(s, base + |SectionBits(secs[0])|, secs[1..]);
      var a, b := PlaceBlks(base, 0, secs[0]), Place(base + |SectionBits(secs[0])|, secs[1..]);
      var all: seq<Placed> := a + b;
      assert forall k | 0 <= k < |all| :: all[k] == if k < |a| then a[k] else b[k - |a|];
    }
  }

  /** The plan's blocks are chosen by size, so with dynamic blocks none of zeros is stored. */
  lemma ChosenCompressed(s: Settings, ps: seq<Placed>)
    requires s.level < 4 && FullBlocks(ps) && forall k | 0 <= k < |ps| :: Chosen(s, ps[k].blk)
    ensures forall k | 0 <= k < |ps| :: ZerosCompressed(s.coding, ps[k])
  {
    hide Chosen, ZeroHeaded;
    forall k | 0 <= k < |ps|
      ensures ZerosCompressed(s.coding, ps[k])
    {
      if s.coding.DynamicCoding? && ZeroHeaded(ps[k].blk.data) {
        assert FullBlk(ps[k].blk);
        DynamicNotStored(s, ps[k].blk);
      }
    }
  }

  lemma PlanNoDecoys(s: Settings, plan: seq<seq<Blk>>, src: ByteSeq, threads: nat)
    requires s.level < 4 && src != [] && threads >= 1 && PlanOk(plan, src, threads) && AllChosen(s, plan)
    requires NoSuspects(s.coding, src, threads)
    ensures NoDecoys(Place(0, plan))
  {
    hide PlanOk, AllChosen, Chosen, ZerosCompressed, NoSuspects, NoDecoys, FullBlocks, Place, Chained;
    PlanMarks(plan, src, threads);
    PlanFull(plan, src, threads);
    PlacedSections(0, plan);
    PlanData(plan, src, threads);
    FirstPlaced(0, plan);
    PlacedChosen(s, 0, plan);
    ChosenCompressed(s, Place(0, plan));
    if threads == 1 {
      OneThread(plan, src);
    }
    RunNoDecoys(s.coding, Place(0, plan), src, threads, 0);
  }
}
