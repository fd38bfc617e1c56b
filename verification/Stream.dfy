/** The stream the compressor joins from its sections: where each block stands, exactly when the decoder
    reads every block as what was written, and what it then returns. */
module Stream {
  import opened Words
  import opened Options
  import opened Inflate
  import opened StoredBlock

  /** A block as written: its data, whether it is marked last, and its bits. */
  datatype Blk = Blk(data: ByteSeq, last: bool, stored: bool, bits: Bits)

  /** A block at an offset of its section's stream, which starts at bit base of the joined stream. */
  datatype Placed = Placed(base: nat, offset: nat, blk: Blk)

  /** Bits that are decoded to data wherever they stand and whatever came before. */
  ghost predicate Decodes(w: Bits, data: ByteSeq, last: bool) {
    forall bits: Bits, pos: nat, out: ByteSeq | At(bits, pos, w) ::
      DecodeBlock(bits, pos, out) == Some((out + data, last, pos + |w|))
  }

  /** Either a stored block written at this offset, or a compressed block smaller than its data. */
  ghost predicate BlkOk(b: Blk, offset: nat) {
    && b.data != []
    && if b.stored then b.bits == StoredBits(offset, b.data, b.last)
       else Decodes(b.bits, b.data, b.last) && |b.bits| <= 8 * (|b.data| - 1)
  }

  ghost predicate BlksOk(blks: seq<Blk>, offset: nat) {
    blks == [] || (BlkOk(blks[0], offset) && BlksOk(blks[1..], offset + |blks[0].bits|))
  }

  function SectionBits(blks: seq<Blk>): Bits {
    if blks == [] then [] else blks[0].bits + SectionBits(blks[1..])
  }

  function SectionData(blks: seq<Blk>): ByteSeq {
    if blks == [] then [] else blks[0].data + SectionData(blks[1..])
  }

  function StreamBits(secs: seq<seq<Blk>>): Bits {
    if secs == [] then [] else SectionBits(secs[0]) + StreamBits(secs[1..])
  }

  function StreamData(secs: seq<seq<Blk>>): ByteSeq {
    if secs == [] then [] else SectionData(secs[0]) + StreamData(secs[1..])
  }

  function PlaceBlks(base: nat, offset: nat, blks: seq<Blk>): seq<Placed>
    decreases |blks|
  {
    if blks == [] then []
    else [Placed(base, offset, blks[0])] + PlaceBlks(base, offset + |blks[0].bits|, blks[1..])
  }

  /** All blocks with the positions the appended sections give them. */
  function Place(base: nat, secs: seq<seq<Blk>>): seq<Placed>
    decreases |secs|
  {
    if secs == [] then []
    else PlaceBlks(base, 0, secs[0]) + Place(base + |SectionBits(secs[0])|, secs[1..])
  }

  // ---- a run of placed blocks

  /** The blocks are well-formed and stand one after the other from pos on. */
  ghost predicate Chained(ps: seq<Placed>, pos: nat) {
    ps == []
    || (ps[0].base + ps[0].offset == pos
        && BlkOk(ps[0].blk, ps[0].offset)
        && Chained(ps[1..], pos + |ps[0].blk.bits|))
  }

  function RunBits(ps: seq<Placed>): Bits {
    if ps == [] then [] else ps[0].blk.bits + RunBits(ps[1..])
  }

  function RunData(ps: seq<Placed>): ByteSeq {
    if ps == [] then [] else ps[0].blk.data + RunData(ps[1..])
  }

  /** Where the padding of stored blocks is what a decoder expects: their section starts on a byte boundary
      and they do not start at bit 5 of a byte. */
  ghost predicate Aligned(ps: seq<Placed>) {
    forall k | 0 <= k < |ps| && ps[k].blk.stored :: ps[k].base % 8 == 0 && ps[k].offset % 8 != 5
  }

  ghost predicate BlkFaithful(bits: Bits, p: Placed, out: ByteSeq) {
    if p.blk.stored then StoredFaithful(bits, p.base, p.offset, p.blk.data, p.blk.last, out)
    else DecodeBlock(bits, p.base + p.offset, out)
         == Some((out + p.blk.data, p.blk.last, p.base + p.offset + |p.blk.bits|))
  }

  /** Every block is decoded, where it stands, to the data it was written for. */
  ghost predicate Faithful(bits: Bits, ps: seq<Placed>, out: ByteSeq) {
    ps == [] || (BlkFaithful(bits, ps[0], out) && Faithful(bits, ps[1..], out + ps[0].blk.data))
  }

  /** Exactly one block is marked last, and it is the last one. */
  ghost predicate OnlyLast(ps: seq<Placed>) {
    ps != [] && forall k | 0 <= k < |ps| :: ps[k].blk.last <==> k == |ps| - 1
  }

  lemma BlkExact(bits: Bits, p: Placed, out: ByteSeq)
    requires BlkOk(p.blk, p.offset) && At(bits, p.base + p.offset, p.blk.bits)
    ensures BlkFaithful(bits, p, out) <==> (p.blk.stored ==> p.base % 8 == 0 && p.offset % 8 != 5)
  {
    hide DecodeBlock, At, StoredFaithful, StoredBits;
    if p.blk.stored {
      StoredBlockExact(bits, p.base, p.offset, p.blk.data, p.blk.last, out);
    }
  }

  /** The decoder reads every block as written exactly when the stored blocks are aligned. */
  lemma {:induction false} RunExact(bits: Bits, ps: seq<Placed>, pos: nat, out: ByteSeq)
    requires Chained(ps, pos) && At(bits, pos, RunBits(ps))
    ensures Faithful(bits, ps, out) <==> Aligned(ps)
    decreases |ps|
  {
    hide BlkFaithful, At, BlkOk;
    if ps != [] {
      AtConcat(bits, pos, ps[0].blk.bits, RunBits(ps[1..]));
      BlkExact(bits, ps[0], out);
      RunExact(bits, ps[1..], pos + |ps[0].blk.bits|, out + ps[0].blk.data);
      AlignedHead(ps);
    }
  }

  lemma AlignedHead(ps: seq<Placed>)
    requires ps != []
    ensures Aligned(ps) <==>
              (ps[0].blk.stored ==> ps[0].base % 8 == 0 && ps[0].offset % 8 != 5) && Aligned(ps[1..])
  {
    assert ps == [ps[0]] + ps[1..];
    if Aligned(ps) {
      forall k | 0 <= k < |ps[1..]| && ps[1..][k].blk.stored
        ensures ps[1..][k].base % 8 == 0 && ps[1..][k].offset % 8 != 5
      {
        assert ps[1..][k] == ps[k + 1];
      }
    }
  }

  /** A compressed or stored block that is read faithfully moves the decoder past it, or ends it. */
  lemma BlkDecodes(bits: Bits, p: Placed, out: ByteSeq)
    requires BlkOk(p.blk, p.offset) && At(bits, p.base + p.offset, p.blk.bits) && BlkFaithful(bits, p, out)
    ensures var end := p.base + p.offset + |p.blk.bits|;
            Decode(bits, p.base + p.offset, out)
            == (if p.blk.last then Some((out + p.blk.data, end)) else Decode(bits, end, out + p.blk.data))
  {
    hide DecodeBlock, StoredFaithful, StoredBits, Decodes;
    if p.blk.stored {
      StoredDecodes(bits, p.base, p.offset, p.blk.data, p.blk.last, out);
    } else {
      assert p.base + p.offset < |bits| by {
        BlockInside(bits, p.base + p.offset, out);
      }
    }
  }

  lemma BlockInside(bits: Bits, pos: nat, out: ByteSeq)
    requires DecodeBlock(bits, pos, out).Some?
    ensures pos < |bits|
  {
  }

  /** Blocks read faithfully, of which only the last is marked last, decode to their data and stop at their end. */
  lemma {:induction false} RunDecodes(bits: Bits, ps: seq<Placed>, pos: nat, out: ByteSeq)
    requires Chained(ps, pos) && At(bits, pos, RunBits(ps)) && Faithful(bits, ps, out) && OnlyLast(ps)
    ensures Decode(bits, pos, out) == Some((out + RunData(ps), pos + |RunBits(ps)|))
    decreases |ps|
  {
    hide BlkFaithful, At, BlkOk, Decode;
    var rest := ps[1..];
    AtConcat(bits, pos, ps[0].blk.bits, RunBits(rest));
    BlkDecodes(bits, ps[0], out);
    assert ps[0].blk.last <==> 0 == |ps| - 1;
    if rest == [] {
      assert out + ps[0].blk.data == out + RunData(ps);
    } else {
      assert OnlyLast(rest) by {
        forall k | 0 <= k < |rest|
          ensures rest[k].blk.last <==> k == |rest| - 1
        {
          assert rest[k] == ps[k + 1];
        }
      }
      RunDecodes(bits, rest, pos + |ps[0].blk.bits|, out + ps[0].blk.data);
      assert out + ps[0].blk.data + RunData(rest) == out + RunData(ps);
    }
  }

  // ---- from sections to the run

  lemma {:induction false} PlacedBlks(base: nat, offset: nat, blks: seq<Blk>)
    requires BlksOk(blks, offset)
    ensures Chained(PlaceBlks(base, offset, blks), base + offset)
    ensures RunBits(PlaceBlks(base, offset, blks)) == SectionBits(blks)
    ensures RunData(PlaceBlks(base, offset, blks)) == SectionData(blks)
    decreases |blks|
  {
    hide BlkOk;
    if blks != [] {
      PlacedBlks(base, offset + |blks[0].bits|, blks[1..]);
      var ps := PlaceBlks(base, offset, blks);
      assert ps[1..] == PlaceBlks(base, offset + |blks[0].bits|, blks[1..]);
    }
  }

  lemma {:induction false} RunBitsConcat(a: seq<Placed>, b: seq<Placed>)
    ensures RunBits(a + b) == RunBits(a) + RunBits(b) && RunData(a + b) == RunData(a) + RunData(b)
    decreases |a|
  {
    if a == [] {
      assert a + b == b;
    } else {
      assert (a + b)[1..] == a[1..] + b;
      RunBitsConcat(a[1..], b);
    }
  }

  lemma {:induction false} RunConcat(a: seq<Placed>, b: seq<Placed>, pos: nat)
    requires Chained(a, pos) && Chained(b, pos + |RunBits(a)|)
    ensures Chained(a + b, pos)
    decreases |a|
  {
    hide BlkOk;
    if a == [] {
      assert a + b == b;
    } else {
      assert (a + b)[1..] == a[1..] + b;
      RunConcat(a[1..], b, pos + |a[0].blk.bits|);
    }
  }

  /** The placed sections are one chained run with the stream's bits and data. */
  lemma {:induction false} PlacedSections(base: nat, secs: seq<seq<Blk>>)
    requires forall i | 0 <= i < |secs| :: BlksOk(secs[i], 0)
    ensures Chained(Place(base, secs), base)
    ensures RunBits(Place(base, secs)) == StreamBits(secs) && RunData(Place(base, secs)) == StreamData(secs)
    decreases |secs|
  {
    hide BlksOk, Chained, SectionBits, SectionData, PlaceBlks, RunBits, RunData;
    if secs == [] {
      EmptyRun(base);
    } else {
      PlacedBlks(base, 0, secs[0]);
      PlacedSections(base + |SectionBits(secs[0])|, secs[1..]);
      RunConcat(PlaceBlks(base, 0, secs[0]), Place(base + |SectionBits(secs[0])|, secs[1..]), base);
      RunBitsConcat(PlaceBlks(base, 0, secs[0]), Place(base + |SectionBits(secs[0])|, secs[1..]));
    }
  }

  lemma EmptyRun(pos: nat)
    ensures Chained([], pos) && RunBits([]) == [] && RunData([]) == []
  {
  }

  /** The marks of the sections' blocks: only the last block of the one non-empty section flagged last. */
  ghost predicate Marked(blks: seq<Blk>, lastSection: bool) {
    forall k | 0 <= k < |blks| :: blks[k].last <==> (lastSection && k == |blks| - 1)
  }

  lemma {:induction false} PlacedAt(base: nat, offset: nat, blks: seq<Blk>)
    ensures |PlaceBlks(base, offset, blks)| == |blks|
    ensures forall k | 0 <= k < |blks| :: PlaceBlks(base, offset, blks)[k].blk == blks[k]
    decreases |blks|
  {
    if blks != [] {
      PlacedAt(base, offset + |blks[0].bits|, blks[1..]);
    }
  }

  /** No section after the first flagged last holds a block, so exactly one block is marked last. */
  lemma {:induction false} PlacedMarks(base: nat, secs: seq<seq<Blk>>, f: nat)
    requires f < |secs| && secs[f] != []
    requires forall i | 0 <= i < |secs| :: Marked(secs[i], i >= f)
    requires forall i | f < i < |secs| :: secs[i] == []
    ensures OnlyLast(Place(base, secs))
    decreases |secs|
  {
    hide Marked;
    var first, rest := PlaceBlks(base, 0, secs[0]), secs[1..];
    var b := base + |SectionBits(secs[0])|;
    PlacedAt(base, 0, secs[0]);
    if f == 0 {
      NoBlocks(b, rest);
      assert Place(base, secs) == first;
      MarkedBlks(secs[0], true);
    } else {
      forall i | 0 <= i < |rest|
        ensures Marked(rest[i], i >= f - 1)
      {
        assert rest[i] == secs[i + 1];
      }
      PlacedMarks(b, rest, f - 1);
      MarkedBlks(secs[0], false);
      MarksConcat(first, Place(b, rest));
    }
  }

  lemma MarkedBlks(blks: seq<Blk>, lastSection: bool)
    requires Marked(blks, lastSection)
    ensures forall k | 0 <= k < |blks| :: blks[k].last <==> (lastSection && k == |blks| - 1)
  {
  }

  lemma MarksConcat(a: seq<Placed>, b: seq<Placed>)
    requires OnlyLast(b) && forall k | 0 <= k < |a| :: !a[k].blk.last
    ensures OnlyLast(a + b)
  {
  }

  lemma {:induction false} NoBlocks(base: nat, secs: seq<seq<Blk>>)
    requires forall i | 0 <= i < |secs| :: secs[i] == []
    ensures Place(base, secs) == []
    decreases |secs|
  {
    if secs != [] {
      NoBlocks(base, secs[1..]);
    }
  }

  // ---- stored blocks after each other

  /** Stored blocks leave the stream on a byte boundary, so more of them are aligned. */
  lemma {:induction false} StoredBlksAligned(base: nat, offset: nat, blks: seq<Blk>)
    requires BlksOk(blks, offset) && forall k | 0 <= k < |blks| :: blks[k].stored
    requires base % 8 == 0 && offset % 8 == 0
    ensures Aligned(PlaceBlks(base, offset, blks)) && |SectionBits(blks)| % 8 == 0
    decreases |blks|
  {
    hide StoredBits;
    if blks != [] {
      StoredEndsAligned(offset, blks[0].data, blks[0].last);
      StoredBlksAligned(base, offset + |blks[0].bits|, blks[1..]);
      AlignedHead(PlaceBlks(base, offset, blks));
    }
  }

  lemma {:induction false} StoredSectionsAligned(base: nat, secs: seq<seq<Blk>>)
    requires forall i | 0 <= i < |secs| :: BlksOk(secs[i], 0) && forall k | 0 <= k < |secs[i]| :: secs[i][k].stored
    requires base % 8 == 0
    ensures Aligned(Place(base, secs))
    decreases |secs|
  {
    hide BlksOk;
    if secs != [] {
      StoredBlksAligned(base, 0, secs[0]);
      StoredSectionsAligned(base + |SectionBits(secs[0])|, secs[1..]);
      var a, b := PlaceBlks(base, 0, secs[0]), Place(base + |SectionBits(secs[0])|, secs[1..]);
      var all: seq<Placed> := a + b;
      assert forall k | 0 <= k < |all| :: all[k] == if k < |a| then a[k] else b[k - |a|];
    }
  }

  // ---- size

  /** What one block can take, in bits. */
  function BlkBound(n: nat): int
    requires n > 0
  {
    8 * n + 43 + 40 * ((n - 1) / 65535)
  }

  lemma BlkSize(b: Blk, offset: nat)
    requires BlkOk(b, offset)
    ensures |b.bits| <= BlkBound(|b.data|)
  {
    hide Decodes, StoredBits;
    if b.stored {
      StoredSize(offset, b.data, b.last);
    }
  }

  lemma SizeStep(n: nat, rest: nat)
    requires n > 0
    ensures (n - 1) / 65535 + rest / 65535 <= (n + rest) / 65535
  {
  }

  /** The whole stream: 8 bits a byte, 43 for each block, and 40 for each 65535 bytes. */
  lemma {:induction false} RunSize(ps: seq<Placed>, pos: nat)
    requires Chained(ps, pos)
    ensures |RunBits(ps)| <= 8 * |RunData(ps)| + 43 * |ps| + 40 * (|RunData(ps)| / 65535)
    decreases |ps|
  {
    hide BlkOk;
    if ps != [] {
      BlkSize(ps[0].blk, ps[0].offset);
      RunSize(ps[1..], pos + |ps[0].blk.bits|);
      assert |ps[0].blk.data| > 0 by { BlkNotEmpty(ps[0].blk, ps[0].offset); }
      SizeStep(|ps[0].blk.data|, |RunData(ps[1..])|);
    }
  }

  lemma BlkNotEmpty(b: Blk, offset: nat)
    requires BlkOk(b, offset)
    ensures b.data != []
  {
  }
}
