/** Stored blocks: `deflate_encode_store_block` of compress/deflate.cpp, and exactly when what it writes is
    a stored block of section 3.2.4 of RFC 1951. Its padding is relative to the stream it writes to, and
    a cursor that is already aligned is moved on by a whole byte. */
module StoredBlock {
  import opened Words
  import opened Options
  import opened BitStreams
  import opened Inflate
  import opened StaticBlock

  const SUB_BLOCK_SIZE := 65535

  /** The padding written after a header that starts at offset o of the stream. */
  function Padding(o: nat): (n: nat)
    ensures 1 <= n <= 8 && (o + 3 + n) % 8 == 0
  {
    8 - (o + 3) % 8
  }

  function PaddedBits(pad: nat, data: ByteSeq, last: bool): (w: Bits)
    requires |data| <= SUB_BLOCK_SIZE
    ensures |w| == 3 + pad + 32 + 8 * |data|
  {
    BlockHeader(last, 0) + (Zeros(pad) + (BitsOf(|data|, 16) + (BitsOf(65535 - |data|, 16) + BytesBits(data))))
  }

  /** One sub-block written at offset o of the stream. */
  function SubBits(o: nat, data: ByteSeq, last: bool): (w: Bits)
    requires |data| <= SUB_BLOCK_SIZE
    ensures |w| == 3 + Padding(o) + 32 + 8 * |data|
  {
    PaddedBits(Padding(o), data, last)
  }

  function SubSize(n: nat): (k: nat)
    ensures k <= n && k <= SUB_BLOCK_SIZE && (n > 0 ==> k > 0)
  {
    if n < SUB_BLOCK_SIZE then n else SUB_BLOCK_SIZE
  }

  /** All sub-blocks of a block written at offset o. Only the last of them may be final. */
  function StoredBits(o: nat, src: ByteSeq, last: bool): (w: Bits)
    decreases |src|
  {
    if src == [] then []
    else
      var k := SubSize(|src|);
      var w := SubBits(o, src[..k], last && k == |src|);
      w + StoredBits(o + |w|, src[k..], last)
  }

  method EncodeStoreBlock(bs: BitStream, src: ByteSeq, last: bool)
    requires bs.Valid()
    modifies bs
    ensures bs.Valid()
    ensures bs.Content() == old(bs.Content()) + StoredBits(|old(bs.Content())|, src, last)
  {
    hide SubBits, StoredBits, BitStream.Content, BitStream.Valid;
    ghost var start := bs.Content();
    var p := 0;
    assert src[0..] == src;
    while |src| - p > 0
      invariant p <= |src| && bs.Valid()
      invariant bs.Content() + StoredBits(|bs.Content()|, src[p..], last) == start + StoredBits(|start|, src, last)
      decreases |src| - p
    {
      var rest := |src| - p;
      var subBlock := if SUB_BLOCK_SIZE < rest then SUB_BLOCK_SIZE else rest;
      ghost var before := bs.Content();
      StoredStep(|before|, src, p, subBlock, last);
      EncodeSubBlock(bs, src[p..p + subBlock], last && subBlock == rest);
      Regroup(before, SubBits(|before|, src[p..p + subBlock], last && subBlock == rest),
              StoredBits(|bs.Content()|, src[p + subBlock..], last));
      p := p + subBlock;
    }
    NothingStored(|bs.Content()|, src[p..], last);
  }

  lemma NothingStored(o: nat, src: ByteSeq, last: bool)
    requires src == []
    ensures StoredBits(o, src, last) == []
  {
  }

  lemma StoredStep(o: nat, src: ByteSeq, p: nat, k: nat, last: bool)
    requires p < |src| && k == SubSize(|src| - p)
    ensures var w := SubBits(o, src[p..p + k], last && k == |src| - p);
            StoredBits(o, src[p..], last) == w + StoredBits(o + |w|, src[p + k..], last)
  {
    hide SubBits;
    assert src[p..][..k] == src[p..p + k] && src[p..][k..] == src[p + k..];
  }

  method EncodeSubBlock(bs: BitStream, data: ByteSeq, final: bool)
    requires bs.Valid() && |data| <= SUB_BLOCK_SIZE
    modifies bs
    ensures bs.Valid()
    ensures bs.Content() == old(bs.Content()) + SubBits(|old(bs.Content())|, data, final)
  {
    hide BitsOf, BitStream.Content, BytesBits, Zeros, Repeated, BlockHeader;
    EncodeSubHeader(bs, final);
    bs.WriteBits(|data|, 16);
    // the low 16 bits of the complement of the size
    bs.WriteBits(65535 - |data|, 16);
    WriteBytes(bs, data);
  }

  method EncodeSubHeader(bs: BitStream, final: bool)
    requires bs.Valid()
    modifies bs
    ensures bs.Valid()
    ensures bs.Content() == old(bs.Content()) + BlockHeader(final, 0) + Zeros(Padding(|old(bs.Content())|))
  {
    hide BitsOf, BitStream.Content, BitStream.Valid, Zeros, Repeated;
    bs.WriteBit(if final then 1 else 0);
    bs.WriteBits(0, 2);
    assert bs.Content() == old(bs.Content()) + BlockHeader(final, 0);
    PaddingBits(Padding(|old(bs.Content())|));
    bs.AlignToByte(0);
  }

  lemma PaddingBits(n: nat)
    ensures Repeated(false, n) == Zeros(n)
  {
  }

  method WriteBytes(bs: BitStream, data: ByteSeq)
    requires bs.Valid()
    modifies bs
    ensures bs.Valid() && bs.Content() == old(bs.Content()) + BytesBits(data)
  {
    hide BitsOf, BitStream.Content;
    var i := 0;
    while i < |data|
      invariant i <= |data| && bs.Valid()
      invariant bs.Content() == old(bs.Content()) + BytesBits(data[..i])
    {
      ByteDone(data, i);
      bs.WriteBits(data[i], 8);
      i := i + 1;
    }
    assert data[..|data|] == data;
  }

  /** A sub-block in numbers: the mark and the type 00, one to eight zero bits up to a byte boundary of its
      stream, its size, the complement of that in 16 bits, and its data. */
  lemma SubLayout(o: nat, data: ByteSeq, last: bool)
    requires |data| <= 65535
    ensures SubBits(o, data, last)
         == [last, false, false] + Zeros(Padding(o)) + BitsOf(|data|, 16) + BitsOf(65535 - |data|, 16) + BytesBits(data)
  {
    assert BlockHeader(last, 0) == [last, false, false] by { assert BitsOf(0, 2) == [false, false]; }
    hide BitsOf, BlockHeader, PaddedBits, BytesBits, Padding, Zeros, Repeated;
    PaddedFields(Padding(o), data, last);
    Ungroup(BlockHeader(last, 0), Zeros(Padding(o)), BitsOf(|data|, 16), BitsOf(65535 - |data|, 16), BytesBits(data));
  }

  lemma Ungroup(a: Bits, b: Bits, c: Bits, d: Bits, e: Bits)
    ensures a + (b + (c + (d + e))) == a + b + c + d + e
  {
    var t := c + (d + e);
    assert t == c + d + e;
  }

  /** Only the last sub-block has less than 65535 bytes, and only it can be marked. */
  lemma SubSizes(o: nat, src: ByteSeq, last: bool)
    ensures 0 < |src| <= 65535 ==> StoredBits(o, src, last) == SubBits(o, src, last)
    ensures |src| > 65535 ==>
              StoredBits(o, src, last) == SubBits(o, src[..65535], false)
                                        + StoredBits(o + |SubBits(o, src[..65535], false)|, src[65535..], last)
  {
    hide SubBits;
    if 0 < |src| <= 65535 {
      assert src[..|src|] == src && src[|src|..] == [];
      NothingStored(o + |SubBits(o, src, last)|, [], last);
    }
  }

  // ---- one sub-block, at offset o of a stream placed at bit base

  /** The writer's padding ends where the decoder's does exactly when the stream starts on a byte boundary
      and the header does not end on one. */
  lemma PaddingAgrees(base: nat, o: nat)
    ensures AlignUp(base + o + 3) == base + o + 3 + Padding(o) <==> base % 8 == 0 && o % 8 != 5
  {
    hide AlignUp, Padding;
    RemainderOfSum(base, o + 3);
    RemainderOfSum(o, 3);
    AlignUpPadding(base + o + 3);
    PaddingValue(o);
  }

  lemma RemainderOfSum(x: nat, y: nat)
    ensures (x + y) % 8 == if x % 8 + y % 8 < 8 then x % 8 + y % 8 else x % 8 + y % 8 - 8
  {
  }

  lemma AlignUpPadding(p: nat)
    ensures AlignUp(p) == p + (if p % 8 == 0 then 0 else 8 - p % 8)
  {
  }

  lemma PaddingValue(o: nat)
    ensures Padding(o) == 8 - (o + 3) % 8
  {
  }

  lemma SubParts(bits: Bits, p: nat, pad: nat, data: ByteSeq, last: bool)
    requires |data| <= SUB_BLOCK_SIZE && At(bits, p, PaddedBits(pad, data, last))
    ensures var q := p + 3 + pad;
            && At(bits, p, BlockHeader(last, 0)) && At(bits, p + 3, Zeros(pad))
            && At(bits, q, BitsOf(|data|, 16)) && At(bits, q + 16, BitsOf(65535 - |data|, 16))
            && At(bits, q + 32, BytesBits(data))
  {
    hide At, BytesBits, BitsOf, BlockHeader, Zeros, PaddedBits, Repeated;
    var h, z, b := BlockHeader(last, 0), Zeros(pad), BytesBits(data);
    PaddedFields(pad, data, last);
    FieldParts(bits, p, h, z, BitsOf(|data|, 16), BitsOf(65535 - |data|, 16), b);
    assert |z| == pad;
  }

  lemma PaddedFields(pad: nat, data: ByteSeq, last: bool)
    requires |data| <= SUB_BLOCK_SIZE
    ensures PaddedBits(pad, data, last)
         == BlockHeader(last, 0) + (Zeros(pad) + (BitsOf(|data|, 16) + (BitsOf(65535 - |data|, 16) + BytesBits(data))))
  {
  }

  lemma FieldParts(bits: Bits, p: nat, header: Bits, pad: Bits, len: Bits, nlen: Bits, payload: Bits)
    requires |header| == 3 && |len| == 16 && |nlen| == 16
    requires At(bits, p, header + (pad + (len + (nlen + payload))))
    ensures var q := p + 3 + |pad|;
            && At(bits, p, header) && At(bits, p + 3, pad)
            && At(bits, q, len) && At(bits, q + 16, nlen) && At(bits, q + 32, payload)
  {
    hide At;
    AtFive(bits, p, header, pad, len, nlen, payload);
  }

  /** An aligned sub-block is decoded to its payload. */
  lemma SubRoundTrip(bits: Bits, base: nat, o: nat, data: ByteSeq, last: bool, out: ByteSeq)
    requires |data| <= SUB_BLOCK_SIZE && At(bits, base + o, SubBits(o, data, last))
    requires base % 8 == 0 && o % 8 != 5
    ensures DecodeBlock(bits, base + o, out)
         == Some((out + data, last, base + o + |SubBits(o, data, last)|))
  {
    hide At, ReadBits, PaddedBits, BlockHeader, Padding, AlignUp, BytesBits, BitsOf, DecodeCompressed, DecodeHeader;
    var q := base + o + 3 + Padding(o);
    SubParts(bits, base + o, Padding(o), data, last);
    PaddingAgrees(base, o);
    ReadHeader(bits, base + o, last, 0);
    Pow2Values();
    ReadWritten(bits, q, |data|, 16);
    ReadWritten(bits, q + 16, 65535 - |data|, 16);
    ReadWrittenBytes(bits, q + 32, data);
  }

  /** The bits of the complement are the complements of the bits. */
  lemma {:induction false} ComplementBits(v: nat, n: nat, k: nat)
    requires v < Pow2(n) && k < n
    ensures BitsOf(Pow2(n) - 1 - v, n)[k] == !BitsOf(v, n)[k]
  {
    if k > 0 {
      ComplementBits(v / 2, n - 1, k - 1);
      assert (Pow2(n) - 1 - v) / 2 == Pow2(n - 1) - 1 - v / 2;
    }
  }

  /** A number read at q is len only if the bits there are those of len. */
  lemma ReadEquals(bits: Bits, q: nat, n: nat, len: nat)
    requires q + n <= |bits| && ReadBits(bits, q, n) == Some(len)
    ensures bits[q..q + n] == BitsOf(len, n)
  {
    BitsOfValue(bits[q..q + n]);
  }

  /** Reading LEN early, inside the padding, cannot give LEN unless it is zero. */
  lemma {:induction false} EarlyIsZero(bits: Bits, q: nat, s: nat, w: Bits, k: nat)
    requires 0 < s <= 8 && |w| == 16 && At(bits, q, Zeros(s)) && At(bits, q + s, w)
    requires At(bits, q, w) && k < 16
    ensures !w[k]
  {
    assert bits[q..q + 16][k] == bits[q + k] == w[k];
    if k < s {
      assert bits[q..q + s][k] == bits[q + k] == Zeros(s)[k];
    } else {
      EarlyIsZero(bits, q, s, w, k - s);
      assert bits[q + s..q + s + 16][k - s] == bits[q + k];
    }
  }

  lemma {:induction false} AllZeroValue(w: Bits)
    requires forall k | 0 <= k < |w| :: !w[k]
    ensures ValueOf(w) == 0
  {
    if w != [] {
      AllZeroValue(w[1..]);
    }
  }

  /** Sixteen bits that repeat themselves r places on, while the r bits after them are their complements. */
  ghost predicate LateRepeat(w: Bits, r: nat)
    requires |w| == 16 && 1 <= r <= 6
  {
    && (forall k | 0 <= k < 16 - r :: w[k + r] == w[k])
    && (forall k | 16 - r <= k < 16 :: w[k] == !w[k + r - 16])
  }

  /** Shifting by sixteen modulo r runs through an odd cycle, so the complements cannot agree with it. */
  lemma NoLateRepeat(w: Bits, r: nat)
    requires |w| == 16 && 1 <= r <= 6
    ensures !LateRepeat(w, r)
  {
    if LateRepeat(w, r) {
      if r == 1 {
        Chain(w, 1, 15, 0);
      } else if r == 2 {
        Chain(w, 2, 7, 0);
      } else if r == 3 {
        Chain(w, 3, 4, 1);
        Chain(w, 3, 4, 2);
        Chain(w, 3, 5, 0);
      } else if r == 4 {
        Chain(w, 4, 3, 0);
      } else if r == 5 {
        Chain(w, 5, 2, 1);
        Chain(w, 5, 2, 2);
        Chain(w, 5, 2, 3);
        Chain(w, 5, 2, 4);
        Chain(w, 5, 3, 0);
      } else {
        Chain(w, 6, 1, 4);
        Chain(w, 6, 2, 2);
        Chain(w, 6, 2, 0);
      }
    }
  }

  lemma {:induction false} Chain(w: Bits, r: nat, n: nat, k: nat)
    requires |w| == 16 && 1 <= r <= 6 && k + n * r < 16
    requires forall j | 0 <= j < 16 - r :: w[j + r] == w[j]
    ensures w[k + n * r] == w[k]
  {
    if n > 0 {
      assert n * r == (n - 1) * r + r;
      Chain(w, r, n - 1, k);
      assert w[k + (n - 1) * r + r] == w[k + (n - 1) * r];
    }
  }

  /** Reading LEN late, inside itself and its complement, cannot give LEN. */
  lemma LateDiffers(bits: Bits, q0: nat, r: nat, len: nat)
    requires 1 <= r <= 6 && len <= 65535
    requires At(bits, q0, BitsOf(len, 16)) && At(bits, q0 + 16, BitsOf(65535 - len, 16))
    ensures !At(bits, q0 + r, BitsOf(len, 16))
  {
    hide BitsOf;
    var w, c := BitsOf(len, 16), BitsOf(65535 - len, 16);
    Pow2Values();
    if At(bits, q0 + r, w) {
      forall k | 0 <= k < 16
        ensures bits[q0 + k] == w[k] && bits[q0 + r + k] == w[k] && bits[q0 + 16 + k] == !w[k]
      {
        ComplementBits(len, 16, k);
        assert bits[q0..q0 + 16][k] == bits[q0 + k];
        assert bits[q0 + r..q0 + r + 16][k] == bits[q0 + r + k];
        assert bits[q0 + 16..q0 + 32][k] == bits[q0 + 16 + k];
      }
      forall k | 0 <= k < 16 - r
        ensures w[k + r] == w[k]
      {
        assert bits[q0 + (k + r)] == bits[q0 + r + k];
      }
      forall k | 16 - r <= k < 16
        ensures w[k] == !w[k + r - 16]
      {
        assert bits[q0 + r + k] == bits[q0 + 16 + (k + r - 16)];
      }
      NoLateRepeat(w, r);
    }
  }

  /** A sub-block whose padding the decoder does not share is never read as its payload. */
  lemma SubMisread(bits: Bits, base: nat, o: nat, data: ByteSeq, last: bool, out: ByteSeq)
    requires 0 < |data| <= SUB_BLOCK_SIZE && At(bits, base + o, SubBits(o, data, last))
    requires !(base % 8 == 0 && o % 8 != 5)
    ensures DecodeBlock(bits, base + o, out)
         != Some((out + data, last, base + o + |SubBits(o, data, last)|))
  {
    hide At, ReadBits, PaddedBits, BlockHeader, BytesBits, BitsOf, DecodeCompressed, DecodeHeader, Padding, AlignUp;
    var p := base + o + 3;
    var q, q0 := AlignUp(p), p + Padding(o);
    SubParts(bits, base + o, Padding(o), data, last);
    PaddingAgrees(base, o);
    ReadHeader(bits, base + o, last, 0);
    if ReadBits(bits, q, 16) == Some(|data|) {
      MisreadLength(bits, p, q, q0, |data|);
    } else {
      StoredLength(bits, p);
      var r := DecodeStored(bits, p);
      hide DecodeStored;
      if r.Some? {
        assert |out + r.value.0| != |out + data|;
      }
    }
  }

  /** A stored block's payload has the length read at the byte boundary. */
  lemma StoredLength(bits: Bits, p: nat)
    ensures DecodeStored(bits, p).Some? ==>
              ReadBits(bits, AlignUp(p), 16) == Some(|DecodeStored(bits, p).value.0|)
  {
    hide ReadBits, AlignUp;
  }

  lemma MisreadLength(bits: Bits, p: nat, q: nat, q0: nat, len: nat)
    requires p <= q < p + 8 && p + 1 <= q0 <= p + 8 && q != q0 && 0 < len <= 65535
    requires At(bits, p, Zeros(q0 - p)) && At(bits, q0, BitsOf(len, 16)) && At(bits, q0 + 16, BitsOf(65535 - len, 16))
    ensures ReadBits(bits, q, 16) != Some(len)
  {
    if ReadBits(bits, q, 16) == Some(len) {
      hide BitsOf, ReadBits, At;
      ReadAt(bits, q, 16, len);
      if q < q0 {
        EarlyRead(bits, p, q, q0, len);
      } else {
        LateDiffers(bits, q0, q - q0, len);
      }
    }
  }

  /** What is read as len at a place inside the padding before len can only be zero. */
  lemma EarlyRead(bits: Bits, p: nat, q: nat, q0: nat, len: nat)
    requires p <= q < q0 <= p + 8 && len <= 65535
    requires At(bits, p, Zeros(q0 - p)) && At(bits, q0, BitsOf(len, 16)) && At(bits, q, BitsOf(len, 16))
    ensures len == 0
  {
    hide BitsOf;
    var w := BitsOf(len, 16);
    assert At(bits, q, Zeros(q0 - q)) by {
      assert bits[p..q0][q - p..] == bits[q..q0];
    }
    hide At;
    forall k | 0 <= k < 16
      ensures !w[k]
    {
      EarlyIsZero(bits, q, q0 - q, w, k);
    }
    AllZeroValue(w);
    Pow2Values();
    ValueOfBits(len, 16);
  }

  lemma ReadAt(bits: Bits, q: nat, n: nat, len: nat)
    requires ReadBits(bits, q, n) == Some(len)
    ensures At(bits, q, BitsOf(len, n))
  {
    ReadInside(bits, q, n);
    ReadEquals(bits, q, n, len);
  }

  lemma ReadInside(bits: Bits, q: nat, n: nat)
    requires ReadBits(bits, q, n).Some?
    ensures q + n <= |bits|
  {
  }

  /** Exactly when a sub-block is decoded, where it stands, to its payload and its end. */
  lemma SubBlockExact(bits: Bits, base: nat, o: nat, data: ByteSeq, last: bool, out: ByteSeq)
    requires 0 < |data| <= SUB_BLOCK_SIZE && At(bits, base + o, SubBits(o, data, last))
    ensures DecodeBlock(bits, base + o, out)
            == Some((out + data, last, base + o + |SubBits(o, data, last)|))
        <==> base % 8 == 0 && o % 8 != 5
  {
    hide DecodeBlock, SubBits, At;
    if base % 8 == 0 && o % 8 != 5 {
      SubRoundTrip(bits, base, o, data, last, out);
    } else {
      SubMisread(bits, base, o, data, last, out);
    }
  }

  // ---- a whole block

  /** Every sub-block of a stored block is decoded, where it stands, to its part of the payload. */
  ghost predicate StoredFaithful(bits: Bits, base: nat, o: nat, src: ByteSeq, last: bool, out: ByteSeq)
    decreases |src|
  {
    src == [] ||
    var k := SubSize(|src|);
    var end := o + |SubBits(o, src[..k], last && k == |src|)|;
    && DecodeBlock(bits, base + o, out) == Some((out + src[..k], last && k == |src|, base + end))
    && StoredFaithful(bits, base, end, src[k..], last, out + src[..k])
  }

  /** A stored block is decoded correctly exactly when its section starts on a byte boundary and the block
      does not start at bit 5 of a byte. Only the first sub-block is at risk: the others start aligned. */
  lemma {:induction false} StoredBlockExact(bits: Bits, base: nat, o: nat, src: ByteSeq, last: bool, out: ByteSeq)
    requires src != [] && At(bits, base + o, StoredBits(o, src, last))
    ensures StoredFaithful(bits, base, o, src, last, out) <==> base % 8 == 0 && o % 8 != 5
    decreases |src|
  {
    hide At, DecodeBlock, SubBits, Padding;
    var k := SubSize(|src|);
    var w := SubBits(o, src[..k], last && k == |src|);
    AtConcat(bits, base + o, w, StoredBits(o + |w|, src[k..], last));
    SubBlockExact(bits, base, o, src[..k], last && k == |src|, out);
    if src[k..] != [] {
      assert (o + |w|) % 8 == 0 by { SubEndsAligned(o, src[..k], last && k == |src|); }
      StoredBlockExact(bits, base, o + |w|, src[k..], last, out + src[..k]);
    }
  }

  lemma SubEndsAligned(o: nat, data: ByteSeq, last: bool)
    requires |data| <= SUB_BLOCK_SIZE
    ensures (o + |SubBits(o, data, last)|) % 8 == 0
  {
    hide SubBits, Padding;
    assert (o + 3 + Padding(o)) % 8 == 0;
  }

  lemma {:induction false} StoredEndsAligned(o: nat, src: ByteSeq, last: bool)
    requires src != []
    ensures (o + |StoredBits(o, src, last)|) % 8 == 0
    decreases |src|
  {
    hide SubBits, Padding;
    var k := SubSize(|src|);
    var w := SubBits(o, src[..k], last && k == |src|);
    SubEndsAligned(o, src[..k], last && k == |src|);
    if src[k..] != [] {
      StoredEndsAligned(o + |w|, src[k..], last);
    }
  }

  /** A faithful stored block that is not last leaves the decoder at its end; one that is last ends decoding. */
  lemma {:induction false} StoredDecodes(bits: Bits, base: nat, o: nat, src: ByteSeq, last: bool, out: ByteSeq)
    requires src != [] && At(bits, base + o, StoredBits(o, src, last))
    requires StoredFaithful(bits, base, o, src, last, out)
    ensures Decode(bits, base + o, out)
         == if last then Some((out + src, base + o + |StoredBits(o, src, last)|))
            else Decode(bits, base + o + |StoredBits(o, src, last)|, out + src)
    decreases |src|
  {
    hide At, Decode, DecodeBlock, SubBits, Padding;
    var k := SubSize(|src|);
    var w := SubBits(o, src[..k], last && k == |src|);
    AtConcat(bits, base + o, w, StoredBits(o + |w|, src[k..], last));
    AtInside(bits, base + o, w);
    DecodeNext(bits, base + o, out);
    Parts(src, k);
    if k < |src| {
      StoredDecodes(bits, base, o + |w|, src[k..], last, out + src[..k]);
      Regroup(out, src[..k], src[k..]);
    }
  }

  lemma Parts(src: ByteSeq, k: nat)
    requires k <= |src|
    ensures src[..k] + src[k..] == src && (k == |src| ==> src[..k] == src && src[k..] == [])
  {
  }

  lemma DecodeNext(bits: Bits, pos: nat, out: ByteSeq)
    requires pos < |bits|
    ensures Decode(bits, pos, out)
         == match DecodeBlock(bits, pos, out)
            case None => None
            case Some((longer, final, end)) => if final then Some((longer, end)) else Decode(bits, end, longer)
  {
    hide DecodeBlock;
  }

  lemma AtInside(bits: Bits, pos: nat, w: Bits)
    requires At(bits, pos, w) && |w| > 0
    ensures pos < |bits|
  {
  }

  /** The size of a stored block: 8 bits a byte, at most 43 for the first sub-block, and 40 for each other. */
  lemma {:induction false} StoredSize(o: nat, src: ByteSeq, last: bool)
    requires src != []
    ensures |StoredBits(o, src, last)| <= 8 * |src| + 43 + 40 * ((|src| - 1) / 65535)
    ensures o % 8 == 0 ==> |StoredBits(o, src, last)| == 8 * |src| + 40 + 40 * ((|src| - 1) / 65535)
    decreases |src|
  {
    hide SubBits, Padding;
    var k := SubSize(|src|);
    var w := SubBits(o, src[..k], last && k == |src|);
    SubEndsAligned(o, src[..k], last && k == |src|);
    assert o % 8 == 0 ==> Padding(o) == 5 by { PaddingAligned(o); }
    if src[k..] != [] {
      StoredSize(o + |w|, src[k..], last);
      assert (|src| - 1) / SUB_BLOCK_SIZE == (|src| - 1 - SUB_BLOCK_SIZE) / SUB_BLOCK_SIZE + 1;
    }
  }

  lemma PaddingAligned(o: nat)
    ensures o % 8 == 0 ==> Padding(o) == 5
  {
  }

  /** A block that starts at bit 5: the header ends on a byte boundary, the encoder adds a zero byte, and the
      decoder takes that byte for the low half of LEN. It reads LEN 256 and NLEN 65024 and rejects the block. */
  lemma StoredAtBitFive(x: Byte)
    ensures DecodeBlock(Zeros(5) + StoredBits(5, [x], true), 5, []) == None
  {
    hide BitsOf, At, Zeros, BlockHeader, PaddedBits, DecodeHeader, DecodeCompressed, BytesBits;
    var w := SubBits(5, [x], true);
    var bits := Zeros(5) + StoredBits(5, [x], true);
    assert [x][..1] == [x] && [x][1..] == [];
    assert StoredBits(5, [x], true) == w + [];
    assert At(bits, 5, w) by { AtEnd(Zeros(5), w); assert w + [] == w; }
    SubParts(bits, 5, 8, [x], true);
    ReadHeader(bits, 5, true, 0);
    ShiftedFields(bits);
  }

  lemma AtEnd(a: Bits, w: Bits)
    ensures At(a + w, |a|, w)
  {
  }

  lemma ShiftedFields(bits: Bits)
    requires At(bits, 8, Zeros(8)) && At(bits, 16, BitsOf(1, 16)) && At(bits, 32, BitsOf(65534, 16))
    ensures ReadBits(bits, 8, 16) == Some(256) && ReadBits(bits, 24, 16) == Some(65024)
  {
    hide BitsOf, At, ReadBits;
    BitsSplit(1, 8, 8);
    BitsSplit(65534, 8, 8);
    AtConcat(bits, 16, BitsOf(1, 8), BitsOf(ShiftRight(1, 8), 8));
    AtConcat(bits, 32, BitsOf(65534, 8), BitsOf(ShiftRight(65534, 8), 8));
    BitsOfZero(8);
    assert ShiftRight(1, 8) == 0 by { Pow2Values(); ShiftRightSmall(1, 8, 0); }
    HighByte(bits, 8, 1);
    HighByte(bits, 24, 254) by { LowBitsAgree(); }
  }

  lemma LowBitsAgree()
    ensures BitsOf(65534, 8) == BitsOf(254, 8)
  {
    Pow2Values();
    MaskLow(65534, 8);
    assert And(65534, 255) == 254;
  }

  /** A zero byte followed by the byte v is read as the number 256 v. */
  lemma HighByte(bits: Bits, pos: nat, v: Byte)
    requires At(bits, pos, BitsOf(0, 8)) && At(bits, pos + 8, BitsOf(v, 8))
    ensures ReadBits(bits, pos, 16) == Some(256 * v)
  {
    hide BitsOf, At, ReadBits;
    Pow2Values();
    AtConcat(bits, pos, BitsOf(0, 8), BitsOf(v, 8));
    BitsJoin(0, v, 8, 8);
    ByteShift(v);
    ReadWritten(bits, pos, 256 * v, 16);
  }

  lemma ByteShift(v: nat)
    ensures ShiftLeft(v, 8) == 256 * v
  {
    ShiftLeftOne(v);
    assert ShiftLeft(v, 2) == 4 * v;
    assert ShiftLeft(v, 4) == 16 * v;
    assert ShiftLeft(v, 6) == 64 * v;
  }
}
