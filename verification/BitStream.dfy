/** The growing bit buffer of util/bit_util, and the bit reversal behind its big-endian writes. */
module BitStreams {
  import opened Words

  function GetLowBits(x: nat, n: nat): nat {
    if n < 64 then And(x, Pow2(n) - 1) else x
  }

  /** The value whose n bits are those of payload in the opposite order. */
  function ReverseValue(payload: nat, n: nat): nat {
    ValueOf(Reversed(BitsOf(payload, n)))
  }

  lemma {:induction false} ValueOfConcat(a: Bits, b: Bits)
    ensures ValueOf(a + b) == ValueOf(a) + ShiftLeft(ValueOf(b), |a|)
  {
    if a == [] {
      assert a + b == b;
    } else {
      assert (a + b)[1..] == a[1..] + b;
      ValueOfConcat(a[1..], b);
    }
  }

  lemma ReverseValueBits(payload: nat, n: nat)
    ensures BitsOf(ReverseValue(payload, n), n) == Reversed(BitsOf(payload, n))
    ensures ReverseValue(payload, n) < Pow2(n)
  {
    BitsOfValue(Reversed(BitsOf(payload, n)));
  }

  /** Reversing twice masks the payload to its low n bits. */
  lemma ReverseTwice(payload: nat, n: nat)
    ensures ReverseValue(ReverseValue(payload, n), n) == And(payload, Pow2(n) - 1)
  {
    ReverseValueBits(payload, n);
    ReversedTwice(BitsOf(payload, n));
    MaskLow(payload, n);
    ValueOfBits(And(payload, Pow2(n) - 1), n);
  }

  /** One more bit of the payload becomes the new lowest bit of the reversed value. */
  lemma ReverseStep(p: nat, d: nat)
    ensures ReverseValue(p, d + 1) == And(ShiftRight(p, d), 1) + 2 * ReverseValue(p, d)
  {
    var b := ShiftRight(p, d);
    BitsSplit(p, d, 1);
    assert BitsOf(b, 1) == [b % 2 == 1];
    ReversedSnoc(BitsOf(p, d), b % 2 == 1);
    assert And(b, 1) == b % 2;
  }

  lemma ReversedSnoc(bits: Bits, last: bool)
    ensures Reversed(bits + [last]) == [last] + Reversed(bits)
  {
    if bits == [] {
      assert [] + [last] == [last];
    } else {
      assert (bits + [last])[1..] == bits[1..] + [last];
    }
  }

  lemma {:induction false} OrSymmetric(a: nat, b: nat)
    ensures Or(a, b) == Or(b, a)
    decreases a
  {
    if a == 0 || b == 0 {
    } else {
      OrSymmetric(a / 2, b / 2);
    }
  }

  /** The shifting loop of util/bit_util.cpp. The 32-bit mask limits n to 31. */
  method ReverseBits(payload: nat, n: nat) returns (res: nat)
    requires n <= 31
    ensures res == ReverseValue(payload, n)
  {
    var rest := And(payload, Pow2(n) - 1);
    ghost var masked := rest;
    MaskLow(payload, n);
    res := 0;
    var i := n;
    assert ReverseValue(masked, 0) == 0;
    ShiftLeftZero(n);
    while i > 0
      invariant 0 <= i <= n
      invariant rest == ShiftRight(masked, n - i)
      invariant res == ShiftLeft(ReverseValue(masked, n - i), i)
    {
      i := i - 1;
      ReverseLoopStep(masked, n - i - 1, i);
      res := Or(res, ShiftLeft(And(rest, 1), i));
      ShiftRightTwice(masked, n - i - 1, 1);
      rest := ShiftRight(rest, 1);
    }
  }

  lemma {:induction false} ShiftLeftZero(k: nat)
    ensures ShiftLeft(0, k) == 0
  {
    if k > 0 {
      ShiftLeftZero(k - 1);
    }
  }

  lemma ReverseLoopStep(p: nat, d: nat, i: nat)
    ensures Or(ShiftLeft(ReverseValue(p, d), i + 1), ShiftLeft(And(ShiftRight(p, d), 1), i))
         == ShiftLeft(ReverseValue(p, d + 1), i)
  {
    var r, b := ReverseValue(p, d), And(ShiftRight(p, d), 1);
    ReverseStep(p, d);
    assert b <= 1;
    ShiftLeftLinear(b, 2 * r, i);
    ShiftLeftTwice(r, 1, i);
    assert ShiftLeft(r, 1) == 2 * r;
    ShiftLeftMonotone(b, 1, i);
    ShiftLeftPow2(0, i);
    OrDisjoint(ShiftLeft(b, i), r, i + 1);
    OrSymmetric(ShiftLeft(b, i), ShiftLeft(r, i + 1));
  }

  /** The table generator of util/gt_reversebits.cpp: each entry comes from the one at half its index. */
  method ReverseTable(bit: nat) returns (vec: array<nat>)
    requires bit >= 1
    ensures vec.Length == Pow2(bit)
    ensures forall i | 0 <= i < vec.Length :: vec[i] == ReverseValue(i, bit)
  {
    var len := Pow2(bit);
    vec := new nat[len](i => i);
    ReverseValueZero(bit);
    var i := 1;
    while i < len
      invariant 1 <= i <= len == vec.Length
      invariant forall k | 0 <= k < i :: vec[k] == ReverseValue(k, bit)
    {
      ReverseRecurrence(i, bit);
      vec[i] := Or(ShiftRight(vec[ShiftRight(i, 1)], 1), ShiftLeft(And(i, 1), bit - 1));
      i := i + 1;
    }
  }

  lemma ReverseValueZero(n: nat)
    ensures ReverseValue(0, n) == 0
  {
    if n > 0 {
      ReverseValueZero(n - 1);
      assert BitsOf(0, n) == [false] + BitsOf(0, n - 1);
      ValueOfConcat(Reversed(BitsOf(0, n - 1)), [false]);
      ShiftLeftZero(n - 1);
    }
  }

  /** The halved index has a zero top bit, which becomes the low bit and is shifted out. */
  lemma ReverseHalved(h: nat, bit: nat)
    requires 1 <= bit && h < Pow2(bit - 1)
    ensures ShiftRight(ReverseValue(h, bit), 1) == ReverseValue(h, bit - 1)
  {
    var x := ReverseValue(h, bit - 1);
    ReverseStep(h, bit - 1);
    ShiftRightSmall(h, bit - 1, 0);
    assert ReverseValue(h, bit) == 2 * x;
    assert ShiftRight(2 * x, 1) == ShiftRight(2 * x / 2, 0) == x;
  }

  /** The low bit of the index becomes the top bit. */
  lemma ReverseLowBit(i: nat, bit: nat)
    requires 1 <= bit
    ensures ReverseValue(i, bit) == ReverseValue(i / 2, bit - 1) + ShiftLeft(i % 2, bit - 1)
  {
    var h, b := BitsOf(i / 2, bit - 1), i % 2 == 1;
    assert BitsOf(i, bit) == [b] + h;
    assert ([b] + h)[1..] == h;
    ValueOfConcat(Reversed(h), [b]);
    assert ValueOf([b]) == i % 2;
  }

  lemma ReverseRecurrence(i: nat, bit: nat)
    requires 1 <= bit && i < Pow2(bit)
    ensures Or(ShiftRight(ReverseValue(ShiftRight(i, 1), bit), 1), ShiftLeft(And(i, 1), bit - 1))
         == ReverseValue(i, bit)
  {
    hide ReverseValue, Or;
    assert ShiftRight(i, 1) == ShiftRight(i / 2, 0) == i / 2 && And(i, 1) == i % 2;
    hide ShiftRight, ShiftLeft, And;
    ReverseHalved(i / 2, bit);
    ReverseLowBit(i, bit);
    ReverseValueBits(i / 2, bit - 1);
    OrDisjoint(ReverseValue(i / 2, bit - 1), i % 2, bit - 1);
  }

  /** Writing the low m bits of v above the c bits already used in byte b. */
  lemma FillByte(b: nat, c: nat, v: nat, m: nat)
    requires c + m <= 8 && b < Pow2(c)
    ensures var r := Or(b, ShiftLeft(GetLowBits(v, m), c));
            r < Pow2(c + m) && ToByte(r) == r && BitsOf(r, c + m) == BitsOf(b, c) + BitsOf(v, m)
  {
    hide Or, And, ShiftLeft, Pow2, BitsOf;
    var low := And(v, Pow2(m) - 1);
    MaskLow(v, m);
    OrDisjoint(b, low, c);
    FillBound(b, c, low, m);
    Pow2Monotone(c + m, 8);
    Pow2Values();
    BitsJoin(b, low, c, m);
  }

  lemma {:induction false} FillBound(b: nat, c: nat, low: nat, m: nat)
    requires b < Pow2(c) && low < Pow2(m)
    ensures b + ShiftLeft(low, c) < Pow2(c + m)
  {
    if c > 0 {
      FillBound(b / 2, c - 1, low, m);
    }
  }

  class BitStream {
    var bytes: seq<Byte>  // m_bytes
    var cap: nat          // m_cap
    var curByte: nat      // m_cur_byte, as an index into the buffer
    var curBit: nat       // m_cur_bit

    /** The cursor is inside the buffer and every bit at or past it is zero. */
    ghost predicate Valid()
      reads this
    {
      && |bytes| == cap
      && curByte < cap
      && curBit < 8
      && bytes[curByte] < Pow2(curBit)
      && forall k | curByte < k < cap :: bytes[k] == 0
    }

    /** The bits written so far. */
    ghost function Content(): (bits: Bits)
      requires Valid()
      reads this
      ensures |bits| == 8 * curByte + curBit
    {
      BytesBits(bytes[..curByte]) + BitsOf(bytes[curByte], curBit)
    }

    /** initSize is in bits; slack is what the allocator reserves beyond the requested bytes. The capacity is
        the smallest power of two that holds both, at least one byte. */
    constructor (initSize: nat, slack: nat := 0)
      ensures Valid() && Content() == []
      ensures cap >= (initSize + 7) / 8 + slack && exists k :: cap == Pow2(k)
      ensures cap == 1 || cap < 2 * ((initSize + 7) / 8 + slack)
    {
      var size := ShiftRight(initSize, 3) + (if And(initSize, 7) != 0 then 1 else 0);
      ByteCount(initSize);
      var c := 1;
      ghost var k := 0;
      while c < size + slack
        invariant c == Pow2(k)
        invariant c == 1 || c < 2 * (size + slack)
      {
        c, k := 2 * c, k + 1;
      }
      cap := c;
      bytes := seq(c, _ => 0);
      curByte, curBit := 0, 0;
    }

    method WriteBit(payload: nat)
      requires Valid()
      modifies this
      ensures Valid() && Content() == old(Content()) + [payload % 2 == 1]
    {
      assert And(payload, 1) == payload % 2;
      assert BitsOf(payload, 1) == [payload % 2 == 1];
      OrBits(payload, 1);
    }

    /** ORs the low m bits of payload into the current byte at the cursor. */
    method OrBits(payload: nat, m: nat)
      requires Valid() && curBit + m <= 8
      modifies this
      ensures Valid() && Content() == old(Content()) + BitsOf(payload, m)
      ensures curBit == (old(curBit) + m) % 8
    {
      hide Or, And, ShiftLeft, Pow2, BytesBits, GetLowBits, ToByte;
      FillByte(bytes[curByte], curBit, payload, m);
      bytes := bytes[curByte := ToByte(Or(bytes[curByte], ShiftLeft(GetLowBits(payload, m), curBit)))];
      assert bytes[..curByte] == old(bytes)[..curByte];
      curBit := curBit + m;
      if curBit == 8 {
        ByteDone(bytes, curByte);
        NextByte();
      }
    }

    /** Stores a whole byte at an aligned cursor. */
    method PutByte(b: Byte)
      requires Valid() && curBit == 0
      modifies this
      ensures Valid() && Content() == old(Content()) + BitsOf(b, 8) && curBit == 0
    {
      bytes := bytes[curByte := b];
      assert bytes[..curByte] == old(bytes)[..curByte];
      ByteDone(bytes, curByte);
      NextByte();
    }

    method WriteBits(payload: nat, n: nat, littleEnd: bool := true)
      requires Valid()
      requires !littleEnd ==> n <= 31
      modifies this
      ensures Valid()
      ensures Content() == old(Content())
                           + (if littleEnd then BitsOf(payload, n) else Reversed(BitsOf(payload, n)))
    {
      var rest := payload;
      if !littleEnd {
        rest := ReverseBits(payload, n);
        ReverseValueBits(payload, n);
      }
      WriteLow(rest, n);
    }

    /** The little-endian part of write_bits. */
    method WriteLow(payload: nat, size: nat)
      requires Valid()
      modifies this
      ensures Valid() && Content() == old(Content()) + BitsOf(payload, size)
    {
      hide Or, And, ShiftLeft, ShiftRight, Pow2, BitsOf, BytesBits, Reversed, GetLowBits, ToByte;
      if size < 8 - curBit {
        OrBits(payload, size);
        return;
      }
      var rest, n := ShiftRight(payload, 8 - curBit), size - (8 - curBit);
      OrBits(payload, 8 - curBit);
      while n >= 8
        invariant Valid() && curBit == 0 && 0 <= n <= size
        invariant rest == ShiftRight(payload, size - n)
        invariant Content() == old(Content()) + BitsOf(payload, size - n)
        decreases n
      {
        BitsSplit(payload, size - n, 8);
        ShiftRightTwice(payload, size - n, 8);
        WholeByte(rest);
        PutByte(And(rest, 255));
        rest, n := ShiftRight(rest, 8), n - 8;
      }
      if n > 0 {
        BitsSplit(payload, size - n, n);
        OrBits(rest, n);
        assert BitsOf(payload, size - n) + BitsOf(rest, n) == BitsOf(payload, size);
      }
    }

    /** Concatenates the bits of another stream at any bit offset of this one. */
    method Append(rhs: BitStream)
      requires Valid() && rhs.Valid() && rhs != this
      modifies this
      ensures Valid() && Content() == old(Content()) + rhs.Content()
    {
      var remain := rhs.BitsSize();
      if remain == 0 {
        return;
      }
      ghost var src := BytesBits(rhs.bytes);
      ContentIsPrefix(rhs);
      if curBit == 0 {
        AppendAligned(rhs, remain);
      } else {
        AppendShifted(rhs, remain);
      }
      assert src[..|rhs.Content()|] == rhs.Content();
    }

    method AppendAligned(rhs: BitStream, total: nat)
      requires Valid() && rhs.Valid() && rhs != this
      requires total == |rhs.Content()| && curBit == 0
      modifies this
      ensures Valid() && Content() == old(Content()) + BytesBits(rhs.bytes)[..total]
    {
      hide BitStream.Content, Or, And, ShiftLeft, ShiftRight, Pow2, BitsOf, BytesBits, GetLowBits, ToByte;
      var remain, p := total, 0;
      ghost var src := BytesBits(rhs.bytes);
      while remain >= 8
        invariant Valid() && remain + 8 * p == total
        invariant Content() == old(Content()) + src[..8 * p]
      {
        BytesBitsAt(rhs.bytes, p);
        assert src[..8 * p + 8] == src[..8 * p] + src[8 * p..8 * p + 8];
        WriteBits(rhs.bytes[p], 8);
        p, remain := p + 1, remain - 8;
      }
      if remain > 0 {
        CopyBits(rhs, p, remain);
        assert src[..total] == src[..8 * p] + src[8 * p..total];
      }
    }

    /** Writes the first count bits of byte p of another stream's buffer, one by one. */
    method CopyBits(rhs: BitStream, p: nat, count: nat)
      requires Valid() && rhs != this && p < |rhs.bytes| && count < 8
      modifies this
      ensures Valid() && Content() == old(Content()) + BytesBits(rhs.bytes)[8 * p..8 * p + count]
    {
      hide BitStream.Content, BytesBits, BitsOf;
      ghost var src := BytesBits(rhs.bytes);
      var i := 0;
      while i < count
        invariant Valid() && i <= count
        invariant Content() == old(Content()) + src[8 * p..8 * p + i]
      {
        CopyBit(rhs, p, i);
        assert src[8 * p..8 * p + i + 1] == src[8 * p..8 * p + i] + [src[8 * p + i]];
        i := i + 1;
      }
    }

    /** Writes bit i of byte p of another stream's buffer. */
    method CopyBit(rhs: BitStream, p: nat, i: nat)
      requires Valid() && rhs != this && p < |rhs.bytes| && i < 8
      modifies this
      ensures Valid() && Content() == old(Content()) + [BytesBits(rhs.bytes)[8 * p + i]]
    {
      SourceBit(rhs.bytes, p, i);
      WriteBit(And(ShiftRight(rhs.bytes[p], i), 1));
    }

    method AppendShifted(rhs: BitStream, total: nat)
      requires Valid() && rhs.Valid() && rhs != this
      requires total == |rhs.Content()| > 0 && curBit != 0
      modifies this
      ensures Valid() && Content() == old(Content()) + BytesBits(rhs.bytes)[..total]
    {
      hide BitStream.Content, Or, And, ShiftLeft, ShiftRight, Pow2, BitsOf, BytesBits, GetLowBits, ToByte;
      var remain, offset := total, curBit;
      ghost var start, src := Content(), BytesBits(rhs.bytes);
      if remain < 8 - offset {
        CopyBits(rhs, 0, remain);
      } else {
        LowPart(rhs.bytes, 0, 8 - offset);
        OrBits(rhs.bytes[0], 8 - offset);
        assert Content() == start + src[..8 - offset];
        var p := AppendWhole(rhs, remain - (8 - offset), offset);
        AppendTail(rhs, p, remain - (8 - offset) - 8 * p, offset);
        ThreeParts(start, src, 8 - offset, 8 - offset + 8 * p, total);
      }
    }

    /** The byte loop of an unaligned append; p counts the bytes written. */
    method AppendWhole(rhs: BitStream, total: nat, offset: nat) returns (p: nat)
      requires Valid() && rhs.Valid() && rhs != this
      requires 0 < offset < 8 && curBit == 0 && total + 8 - offset == |rhs.Content()|
      modifies this
      ensures 8 * p <= total < 8 * p + 8
      ensures Valid()
      ensures Content() == old(Content()) + BytesBits(rhs.bytes)[8 - offset..8 - offset + 8 * p]
    {
      hide BitStream.Content, Or, And, ShiftLeft, ShiftRight, Pow2, BitsOf, BytesBits, GetLowBits, ToByte;
      ghost var src := BytesBits(rhs.bytes);
      var remain := total;
      p := 0;
      while remain >= 8
        invariant Valid() && curBit == 0 && remain >= 0 && remain + 8 * p == total
        invariant Content() == old(Content()) + src[8 - offset..8 - offset + 8 * p]
        decreases remain
      {
        ghost var at := 8 - offset + 8 * p;
        Straddle(rhs.bytes, p, offset);
        PutByte(ToByte(Or(ShiftRight(rhs.bytes[p], 8 - offset),
                          ShiftLeft(GetLowBits(rhs.bytes[p + 1], 8 - offset), offset))));
        SliceStep(old(Content()), src, 8 - offset, at, at + 8);
        p, remain := p + 1, remain - 8;
      }
    }

    /** The last, bit by bit part of an unaligned append. */
    method AppendTail(rhs: BitStream, p: nat, remain: nat, offset: nat)
      requires Valid() && rhs.Valid() && rhs != this
      requires 0 < offset < 8 && remain < 8 && 8 - offset + 8 * p + remain == |rhs.Content()|
      modifies this
      ensures Valid()
      ensures Content() == old(Content()) + BytesBits(rhs.bytes)[8 - offset + 8 * p..8 - offset + 8 * p + remain]
    {
      hide BitStream.Content, Or, And, ShiftLeft, ShiftRight, Pow2, BitsOf, BytesBits, GetLowBits, ToByte;
      ghost var src, at := BytesBits(rhs.bytes), 8 - offset + 8 * p;
      var i := 0;
      while i < remain
        invariant Valid() && i <= remain
        invariant Content() == old(Content()) + src[at..at + i]
      {
        if i < offset {
          CopyBit(rhs, p, 8 - offset + i);
        } else {
          CopyBit(rhs, p + 1, i - offset);
        }
        assert src[at..at + i + 1] == src[at..at + i] + [src[at + i]];
        i := i + 1;
      }
    }

    /** Fills up to the next byte boundary; an aligned stream gets a whole extra byte. */
    method AlignToByte(bit: nat)
      requires Valid()
      modifies this
      ensures Valid()
      ensures Content() == old(Content()) + Repeated(bit % 2 == 1, 8 - |old(Content())| % 8)
      ensures |Content()| % 8 == 0
    {
      hide BitStream.Content, Or, And, ShiftLeft, ShiftRight, Pow2, BitsOf, BytesBits, Reversed, GetLowBits, ToByte;
      var t := 8 - curBit;
      ghost var k := 0;
      assert |old(Content())| % 8 == curBit;
      while t > 0
        invariant Valid() && t >= 0 && t + k == 8 - old(curBit) && curBit == if t > 0 then 8 - t else 0
        invariant Content() == old(Content()) + Repeated(bit % 2 == 1, k)
        decreases t
      {
        WriteBit(bit % 2);
        assert Repeated(bit % 2 == 1, k + 1) == Repeated(bit % 2 == 1, k) + [bit % 2 == 1];
        t, k := t - 1, k + 1;
      }
    }

    function BitsSize(): (n: nat)
      requires Valid()
      reads this
      ensures n == |Content()|
    {
      8 * curByte + curBit
    }

    function BytesSize(): (n: nat)
      requires Valid()
      reads this
      ensures 8 * n - 8 < |Content()| <= 8 * n
    {
      curByte + (if curBit != 0 then 1 else 0)
    }

    /** The exported bytes are the written bits padded with zeros to a whole byte. A positive n exports the
        bytes that hold the first n bits of the buffer instead. */
    method Export(n: nat := 0) returns (dst: seq<Byte>)
      requires Valid() && n <= 8 * cap
      ensures |dst| == if n == 0 then BytesSize() else (n + 7) / 8
      ensures n == 0 ==> BytesBits(dst) == Content() + Zeros(8 * |dst| - |Content()|)
      ensures BytesBits(dst) == (Content() + Zeros(8 * cap - |Content()|))[..8 * |dst|]
    {
      var count := if n == 0 then BytesSize() else ShiftRight(n, 3) + (if And(n, 7) != 0 then 1 else 0);
      ByteCount(n);
      hide BytesBits, BitsOf, Zeros, Pow2, BitStream.Content;
      dst := bytes[..count];
      TailZero(this);
      BytesBitsTake(bytes, count);
    }

    method NextByte()
      requires |bytes| == cap && curByte < cap
      requires forall k | curByte < k < cap :: bytes[k] == 0
      modifies this
      ensures Valid() && curBit == 0
      ensures Content() == BytesBits(old(bytes)[..old(curByte) + 1])
    {
      curByte := curByte + 1;
      curBit := 0;
      if curByte == |bytes| {
        Expand();
      }
      assert bytes[..curByte] == old(bytes)[..old(curByte) + 1];
      assert BitsOf(bytes[curByte], 0) == [];
    }

    method Expand()
      requires |bytes| == cap == curByte >= 1
      modifies this
      ensures |bytes| == cap == 2 * old(cap) && curByte == old(curByte) && curBit == old(curBit)
      ensures bytes == old(bytes) + seq(old(cap), _ => 0)
    {
      cap := 2 * cap;
      bytes := bytes + seq(cap - |bytes|, _ => 0);
    }
  }

  lemma SliceStep(pre: Bits, src: Bits, a: nat, b: nat, c: nat)
    requires a <= b <= c <= |src|
    ensures pre + src[a..b] + src[b..c] == pre + src[a..c]
  {
  }

  lemma ThreeParts(pre: Bits, src: Bits, a: nat, b: nat, c: nat)
    requires a <= b <= c <= |src|
    ensures pre + src[..a] + src[a..b] + src[b..c] == pre + src[..c]
  {
  }

  lemma ByteDone(bytes: seq<Byte>, k: nat)
    requires k < |bytes|
    ensures BytesBits(bytes[..k + 1]) == BytesBits(bytes[..k]) + BitsOf(bytes[k], 8)
  {
    assert bytes[..k + 1] == bytes[..k] + [bytes[k]];
    BytesBitsSnoc(bytes[..k], bytes[k]);
  }

  /** The bytes that hold n bits, as the source computes them. */
  lemma ByteCount(n: nat)
    ensures ShiftRight(n, 3) + (if And(n, 7) != 0 then 1 else 0) == (n + 7) / 8
  {
    AndOnes(n, 3);
    AndOnes(n / 2, 1);
    AndOnes(n / 2 / 2, 0);
    assert ShiftRight(n, 3) == ShiftRight(n / 2, 2) == ShiftRight(n / 2 / 2, 1) == ShiftRight(n / 2 / 2 / 2, 0);
  }

  lemma AndOnes(n: nat, m: nat)
    ensures And(n, 2 * m + 1) == n % 2 + 2 * And(n / 2, m)
  {
  }

  lemma {:induction false} BytesBitsZero(bytes: seq<Byte>)
    requires forall k | 0 <= k < |bytes| :: bytes[k] == 0
    ensures BytesBits(bytes) == Zeros(8 * |bytes|)
  {
    if bytes != [] {
      BytesBitsZero(bytes[1..]);
      BitsOfZero(8);
    }
  }

  /** All bits of the buffer at and past the cursor are zero. */
  lemma TailZero(bs: BitStream)
    requires bs.Valid()
    ensures BytesBits(bs.bytes) == bs.Content() + Zeros(8 * bs.cap - |bs.Content()|)
  {
    hide BytesBits, BitsOf, Pow2;
    var bytes, k := bs.bytes, bs.curByte;
    ByteDone(bytes, k);
    PaddedByte(bytes[k], bs.curBit);
    assert bytes == bytes[..k + 1] + bytes[k + 1..];
    BytesBitsAppend(bytes[..k + 1], bytes[k + 1..]);
    BytesBitsZero(bytes[k + 1..]);
  }

  /** A byte below 2^k holds k bits and zeros above them. */
  lemma PaddedByte(b: Byte, k: nat)
    requires k <= 8 && b < Pow2(k)
    ensures BitsOf(b, 8) == BitsOf(b, k) + Zeros(8 - k)
  {
    hide BitsOf, Zeros, Pow2, ShiftRight;
    BitsSplit(b, k, 8 - k);
    ShiftRightGone(b, k);
    BitsOfZero(8 - k);
  }

  lemma ShiftRightGone(x: nat, k: nat)
    requires x < Pow2(k)
    ensures ShiftRight(x, k) == 0
  {
    ShiftRightSmall(x, k, 0);
  }

  lemma WholeByte(rest: nat)
    ensures And(rest, 255) < 256 && BitsOf(And(rest, 255), 8) == BitsOf(rest, 8)
  {
    Pow2Values();
    MaskLow(rest, 8);
  }

  lemma ContentIsPrefix(bs: BitStream)
    requires bs.Valid()
    ensures bs.Content() == BytesBits(bs.bytes)[..|bs.Content()|]
  {
    hide BytesBits, BitsOf, Pow2, BitStream.Valid, BitStream.Content;
    TailZero(bs);
  }

  /** Bit i of byte p, as `append` reads it. */
  lemma SourceBit(bytes: seq<Byte>, p: nat, i: nat)
    requires p < |bytes| && i < 8
    ensures BytesBits(bytes)[8 * p + i] == (And(ShiftRight(bytes[p], i), 1) % 2 == 1)
  {
    BytesBitsAt(bytes, p);
    var b := BitsOf(bytes[p], 8);
    assert BytesBits(bytes)[8 * p + i] == b[i] by {
      assert BytesBits(bytes)[8 * p..8 * p + 8][i] == BytesBits(bytes)[8 * p + i];
    }
    BitsSplit(bytes[p], i, 8 - i);
    var r := ShiftRight(bytes[p], i);
    assert b[i] == BitsOf(r, 8 - i)[0] == (r % 2 == 1);
    assert And(r, 1) == r % 2;
  }

  /** The byte built from the high bits of one source byte and the low bits of the next. */
  lemma Straddle(bytes: seq<Byte>, p: nat, offset: nat)
    requires p + 1 < |bytes| && 0 < offset < 8
    ensures var r := Or(ShiftRight(bytes[p], 8 - offset), ShiftLeft(GetLowBits(bytes[p + 1], 8 - offset), offset));
            ToByte(r) == r
            && BitsOf(r, 8) == BytesBits(bytes)[8 - offset + 8 * p..8 - offset + 8 * p + 8]
  {
    hide Or, ShiftLeft, ShiftRight, GetLowBits, BitsOf, BytesBits, ToByte, Pow2;
    var src, at := BytesBits(bytes), 8 - offset + 8 * p;
    Pow2Values();
    ShiftRightSmall(bytes[p], 8 - offset, offset);
    FillByte(ShiftRight(bytes[p], 8 - offset), offset, bytes[p + 1], 8 - offset);
    HighPart(bytes, p, 8 - offset);
    LowPart(bytes, p + 1, 8 - offset);
    assert src[at..at + 8] == src[at..8 * p + 8] + src[8 * (p + 1)..8 * (p + 1) + 8 - offset];
  }

  lemma HighPart(bytes: seq<Byte>, p: nat, k: nat)
    requires p < |bytes| && k <= 8
    ensures BitsOf(ShiftRight(bytes[p], k), 8 - k) == BytesBits(bytes)[8 * p + k..8 * p + 8]
  {
    BytesBitsAt(bytes, p);
    BitsSplit(bytes[p], k, 8 - k);
    assert BytesBits(bytes)[8 * p..8 * p + 8][k..] == BytesBits(bytes)[8 * p + k..8 * p + 8];
  }

  lemma LowPart(bytes: seq<Byte>, p: nat, k: nat)
    requires p < |bytes| && k <= 8
    ensures BitsOf(bytes[p], k) == BytesBits(bytes)[8 * p..8 * p + k]
  {
    BytesBitsAt(bytes, p);
    BitsSplit(bytes[p], k, 8 - k);
    assert BytesBits(bytes)[8 * p..8 * p + 8][..k] == BytesBits(bytes)[8 * p..8 * p + k];
  }
}
