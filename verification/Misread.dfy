/** What a decoder makes of a stored block whose padding it does not share: it reads LEN early, inside the
    padding, or late, inside LEN and its complement. A final block then never gives its data. The 65535-byte
    sub-block that starts a longer block can be accepted, with a shorter length and shifted data; that is
    a part of the data only if the data start with a long run of zero bytes or of bytes 255. */
module Misread {
  import opened Words
  import opened Options
  import opened Inflate
  import opened StaticBlock
  import opened StoredBlock

  // ---- the decoder only adds to its output

  lemma {:induction false} CopyExtends(out: ByteSeq, distance: nat, length: nat)
    requires 0 < distance <= |out|
    ensures out <= CopyBytes(out, distance, length)
    decreases length
  {
    if length > 0 {
      CopyExtends(out + [out[|out| - distance]], distance, length - 1);
    }
  }

  lemma {:induction false} ApplyExtends(tokens: seq<Token>, out: ByteSeq)
    requires Apply(tokens, out).Some?
    ensures out <= Apply(tokens, out).value
    decreases |tokens|
  {
    if tokens != [] {
      match tokens[0]
      case Lit(b) => ApplyExtends(tokens[1..], out + [b]);
      case Copy(length, distance) =>
        CopyExtends(out, distance, length);
        ApplyExtends(tokens[1..], CopyBytes(out, distance, length));
    }
  }

  lemma BlockExtends(bits: Bits, pos: nat, out: ByteSeq)
    requires DecodeBlock(bits, pos, out).Some?
    ensures out <= DecodeBlock(bits, pos, out).value.0
  {
    hide DecodeStored, DecodeTokens, DecodeHeader, ReadBits, Apply;
    forall tokens | Apply(tokens, out).Some?
      ensures out <= Apply(tokens, out).value
    {
      ApplyExtends(tokens, out);
    }
  }

  /** Whatever is decoded after some output starts with that output. */
  lemma {:induction false} DecodeExtends(bits: Bits, pos: nat, out: ByteSeq)
    requires Decode(bits, pos, out).Some?
    ensures out <= Decode(bits, pos, out).value.0
    decreases |bits| - pos
  {
    hide DecodeBlock;
    var (longer, final, end) := DecodeBlock(bits, pos, out).value;
    BlockExtends(bits, pos, out);
    if !final {
      DecodeExtends(bits, end, longer);
    }
  }

  // ---- final sub-blocks

  /** A stored block as read: its payload, if LEN and its complement agree and the payload is there. */
  lemma StoredRead(bits: Bits, pos: nat, last: bool, out: ByteSeq)
    requires At(bits, pos, BlockHeader(last, 0))
    ensures DecodeBlock(bits, pos, out)
         == match DecodeStored(bits, pos + 3)
            case None => None
            case Some((data, end)) => Some((out + data, last, end))
    ensures pos < |bits|
  {
    AtInside(bits, pos, BlockHeader(last, 0));
    hide At, ReadBits, DecodeStored, BlockHeader, DecodeCompressed, DecodeHeader;
    ReadHeader(bits, pos, last, 0);
  }

  lemma StoredLen(bits: Bits, p: nat)
    requires DecodeStored(bits, p).Some?
    ensures ReadBits(bits, AlignUp(p), 16) == Some(|DecodeStored(bits, p).value.0|)
  {
    hide ReadBits;
  }

  /** A final sub-block is all that is decoded exactly when its padding agrees; otherwise no output equals it. */
  lemma FinalExact(bits: Bits, base: nat, o: nat, data: ByteSeq, out: ByteSeq)
    requires 0 < |data| <= SUB_BLOCK_SIZE && At(bits, base + o, SubBits(o, data, true))
    ensures (Decode(bits, base + o, out).Some? && Decode(bits, base + o, out).value.0 == out + data)
        <==> base % 8 == 0 && o % 8 != 5
  {
    hide At, DecodeStored, DecodeBlock, SubBits, PaddedBits, BlockHeader, ReadBits, Zeros, BitsOf, BytesBits;
    var p := base + o + 3;
    var q, q0 := AlignUp(p), p + Padding(o);
    PaddingAgrees(base, o);
    SubIsPadded(o, data, true);
    SubParts(bits, base + o, Padding(o), data, true);
    StoredRead(bits, base + o, true, out);
    if base % 8 == 0 && o % 8 != 5 {
      SubRoundTrip(bits, base, o, data, true, out);
    } else {
      MisreadLength(bits, p, q, q0, |data|);
      if DecodeStored(bits, p).Some? {
        StoredLen(bits, p);
      }
    }
  }

  lemma SubIsPadded(o: nat, data: ByteSeq, last: bool)
    requires |data| <= SUB_BLOCK_SIZE
    ensures SubBits(o, data, last) == PaddedBits(Padding(o), data, last)
  {
  }

  // ---- full sub-blocks

  /** The first n bits of the data are b. */
  ghost predicate Run(data: ByteSeq, b: bool, n: nat) {
    n <= 8 * |data| && forall k | 0 <= k < n :: BytesBits(data)[k] == b
  }

  /** LEN, sixteen ones, at q0, after zeros from p on; then its complement, sixteen zeros, and the payload. */
  ghost predicate FullAt(bits: Bits, p: nat, q0: nat, data: ByteSeq) {
    && p <= q0 && q0 + 32 + 8 * |data| <= |bits|
    && (forall k | p <= k < q0 :: !bits[k])
    && (forall k | q0 <= k < q0 + 16 :: bits[k])
    && (forall k | q0 + 16 <= k < q0 + 32 :: !bits[k])
    && forall k | q0 + 32 <= k < q0 + 32 + 8 * |data| :: bits[k] == BytesBits(data)[k - q0 - 32]
  }

  lemma {:induction false} AllOnes(n: nat)
    ensures BitsOf(Pow2(n) - 1, n) == Repeated(true, n)
  {
    if n > 0 {
      AllOnes(n - 1);
      assert (2 * Pow2(n - 1) - 1) / 2 == Pow2(n - 1) - 1;
    }
  }

  lemma {:induction false} PointsAt(bits: Bits, pos: nat, w: Bits)
    requires At(bits, pos, w)
    ensures pos + |w| <= |bits|
    ensures forall k | pos <= k < pos + |w| :: bits[k] == w[k - pos]
  {
    forall k | pos <= k < pos + |w|
      ensures bits[k] == w[k - pos]
    {
      assert bits[pos..pos + |w|][k - pos] == bits[k];
    }
  }

  lemma FullFields(bits: Bits, p: nat, q0: nat, data: ByteSeq)
    requires |data| == SUB_BLOCK_SIZE && p <= q0 && At(bits, p, Zeros(q0 - p))
    requires At(bits, q0, BitsOf(|data|, 16)) && At(bits, q0 + 16, BitsOf(65535 - |data|, 16))
    requires At(bits, q0 + 32, BytesBits(data))
    ensures FullAt(bits, p, q0, data)
  {
    hide At, BitsOf, BytesBits, Pow2;
    Pow2Values();
    AllOnes(16);
    BitsOfZero(16);
    PointsAt(bits, p, Zeros(q0 - p));
    PointsAt(bits, q0, Repeated(true, 16));
    PointsAt(bits, q0 + 16, Zeros(16));
    PointsAt(bits, q0 + 32, BytesBits(data));
  }

  /** n bytes that are there are read, bit for bit. */
  lemma {:induction false} BytesRead(bits: Bits, pos: nat, n: nat)
    requires pos + 8 * n <= |bits|
    ensures ReadBytes(bits, pos, n).Some?
    ensures BytesBits(ReadBytes(bits, pos, n).value) == bits[pos..pos + 8 * n]
    decreases n
  {
    hide BitsOf, ValueOf;
    if n > 0 {
      BytesRead(bits, pos + 8, n - 1);
      BitsOfValue(bits[pos..pos + 8]);
      Pow2Values();
      assert bits[pos..pos + 8 * n] == bits[pos..pos + 8] + bits[pos + 8..pos + 8 + 8 * (n - 1)];
    }
  }

  /** The 16-bit numbers whose low s bits are all equal, and the others their complements. */
  lemma SplitNumbers(s: nat, n: nat)
    requires s >= 1 && s + n == 16
    ensures Pow2(s) <= 65536
    ensures BitsOf(65536 - Pow2(s), 16) == Zeros(s) + Repeated(true, n)
    ensures BitsOf(Pow2(s) - 1, 16) == Repeated(true, s) + Zeros(n)
  {
    hide BitsOf, Zeros, Repeated, Pow2, ShiftLeft;
    Pow2Values();
    Pow2Monotone(s, 16);
    AllOnes(n);
    AllOnes(s);
    BitsOfZero(n);
    BitsOfZero(s);
    ShiftLeftLinear(Pow2(n) - 1, 1, s);
    ShiftLeftPow2(n, s);
    ShiftLeftPow2(0, s);
    ShiftLeftLinear(0, 0, s);
    BitsJoin(0, Pow2(n) - 1, s, n);
    BitsJoin(Pow2(s) - 1, 0, s, n);
  }

  lemma EarlyFields(bits: Bits, p: nat, q0: nat, s: nat, data: ByteSeq)
    requires |data| == SUB_BLOCK_SIZE && FullAt(bits, p, q0, data) && 1 <= s <= 8 && p + s <= q0
    ensures Pow2(s) <= 65536
    ensures ReadBits(bits, q0 - s, 16) == Some(65536 - Pow2(s))
    ensures ReadBits(bits, q0 - s + 16, 16) == Some(Pow2(s) - 1)
  {
    hide BitsOf, ValueOf, BytesBits, ReadBits, Pow2;
    var q := q0 - s;
    SplitNumbers(s, 16 - s);
    Pow2Values();
    assert bits[q..q + 16] == Zeros(s) + Repeated(true, 16 - s);
    assert bits[q + 16..q + 32] == Repeated(true, s) + Zeros(16 - s);
    ReadWritten(bits, q, 65536 - Pow2(s), 16);
    ReadWritten(bits, q + 16, Pow2(s) - 1, 16);
  }

  /** What is read s bits early: LEN 65536 - 2^s, and bytes whose bits are s zeros and then the payload's. */
  lemma EarlyFull(bits: Bits, p: nat, q0: nat, s: nat, data: ByteSeq)
    requires |data| == SUB_BLOCK_SIZE && FullAt(bits, p, q0, data)
    requires 1 <= s <= 8 && p + s <= q0 && AlignUp(p) == q0 - s
    ensures Pow2(s) < 65536 && DecodeStored(bits, p).Some?
    ensures var (d, end) := DecodeStored(bits, p).value;
            && |d| == 65536 - Pow2(s) && end == q0 - s + 32 + 8 * |d|
            && forall k | 0 <= k < 8 * |d| :: BytesBits(d)[k] == (k >= s && BytesBits(data)[k - s])
  {
    hide BitsOf, ValueOf, ReadBytes, ReadBits, BytesBits, Pow2, AlignUp;
    Pow2Values();
    Pow2Monotone(1, s);
    Pow2Monotone(s, 8);
    EarlyFields(bits, p, q0, s, data);
    BytesRead(bits, q0 - s + 32, 65536 - Pow2(s));
  }

  /** The complement read r bits late is that of the LEN read there if and only if the payload starts with r ones. */
  lemma LateComplement(bits: Bits, p: nat, q0: nat, r: nat, data: ByteSeq)
    requires |data| == SUB_BLOCK_SIZE && FullAt(bits, p, q0, data) && 1 <= r <= 6
    ensures 1 <= Pow2(16 - r) <= 65536
    ensures ReadBits(bits, q0 + r + 16, 16) == Some(65536 - Pow2(16 - r)) <==> Run(data, true, r)
  {
    hide BitsOf, ValueOf, BytesBits, ReadBits, Pow2;
    SplitNumbers(16 - r, r);
    Pow2Values();
    var q, v := q0 + r + 16, 65536 - Pow2(16 - r);
    var w := bits[q..q + 16];
    if Run(data, true, r) {
      assert w == Zeros(16 - r) + Repeated(true, r);
      ReadWritten(bits, q, v, 16);
    } else if ReadBits(bits, q, 16) == Some(v) {
      ReadEquals(bits, q, 16, v);
      forall k | 0 <= k < r
        ensures BytesBits(data)[k]
      {
        assert w[16 - r + k] == bits[q0 + 32 + k] == BytesBits(data)[q0 + 32 + k - q0 - 32];
      }
    }
  }

  lemma LateLength(bits: Bits, p: nat, q0: nat, r: nat, data: ByteSeq)
    requires |data| == SUB_BLOCK_SIZE && FullAt(bits, p, q0, data) && 1 <= r <= 6
    ensures ReadBits(bits, q0 + r, 16) == Some(Pow2(16 - r) - 1)
  {
    hide BitsOf, ValueOf, BytesBits, ReadBits, Pow2;
    var q := q0 + r;
    SplitNumbers(16 - r, r);
    Pow2Values();
    assert bits[q..q + 16] == Repeated(true, 16 - r) + Zeros(r);
    ReadWritten(bits, q, Pow2(16 - r) - 1, 16);
  }

  /** What is read r bits late: LEN 2^(16-r) - 1, accepted if the payload starts with r ones; then bytes whose
      bits are the payload's without its first r. */
  lemma LateFull(bits: Bits, p: nat, q0: nat, r: nat, data: ByteSeq)
    requires |data| == SUB_BLOCK_SIZE && FullAt(bits, p, q0, data)
    requires 1 <= r <= 6 && AlignUp(p) == q0 + r
    ensures DecodeStored(bits, p).Some? <==> Run(data, true, r)
    ensures DecodeStored(bits, p).Some? ==>
              var (d, end) := DecodeStored(bits, p).value;
              && |d| == Pow2(16 - r) - 1 && 8 * |d| + r <= 8 * |data|
              && forall k | 0 <= k < 8 * |d| :: BytesBits(d)[k] == BytesBits(data)[k + r]
  {
    hide BitsOf, ValueOf, ReadBytes, BytesBits, ReadBits, Run, Pow2, AlignUp;
    var q := q0 + r;
    Pow2Values();
    Pow2Monotone(16 - r, 15);
    LateLength(bits, p, q0, r, data);
    LateComplement(bits, p, q0, r, data);
    BytesRead(bits, q + 32, Pow2(16 - r) - 1);
    ReadThere(bits, q + 16, 16);
  }

  lemma ReadThere(bits: Bits, pos: nat, n: nat)
    requires pos + n <= |bits|
    ensures ReadBits(bits, pos, n).Some?
  {
  }

  // ---- when the misread bytes are those of the data

  lemma {:induction false} ByteRuns(b: bool, n: nat)
    ensures BytesBits(Repeated(if b then 255 else 0, n)) == Repeated(b, 8 * n)
  {
    if n > 0 {
      var v: Byte := if b then 255 else 0;
      ByteRuns(b, n - 1);
      Pow2Values();
      AllOnes(8);
      BitsOfZero(8);
      assert Repeated(v, n)[1..] == Repeated(v, n - 1);
    }
  }

  /** A run of 8n bits is n equal bytes. */
  lemma RunBytes(data: ByteSeq, b: bool, n: nat)
    requires n <= |data| && Run(data, b, 8 * n)
    ensures forall k | 0 <= k < n :: data[k] == if b then 255 else 0
  {
    hide BytesBits;
    BytesBitsTake(data, n);
    ByteRuns(b, n);
    assert BytesBits(data[..n]) == Repeated(b, 8 * n);
    BytesBitsInjective(data[..n], Repeated(if b then 255 else 0, n));
    assert forall k | 0 <= k < n :: data[k] == data[..n][k];
  }

  lemma PrefixBits(d: ByteSeq, data: ByteSeq)
    requires d <= data
    ensures forall k | 0 <= k < 8 * |d| :: BytesBits(d)[k] == BytesBits(data)[k]
  {
    BytesBitsTake(data, |d|);
    assert data[..|d|] == d;
  }

  /** Bits that repeat at a distance of s, after s bits b, are all b. */
  lemma {:induction false} Periodic(w: Bits, s: nat, b: bool, n: nat, k: nat)
    requires 0 < s && k < n <= |w|
    requires forall j | 0 <= j < n && j < s :: w[j] == b
    requires forall j | s <= j < n :: w[j] == w[j - s]
    ensures w[k] == b
  {
    if k >= s {
      Periodic(w, s, b, n, k - s);
    }
  }

  lemma EarlyMatches(d: ByteSeq, data: ByteSeq, s: nat)
    requires 1 <= s && |d| <= |data|
    requires forall k | 0 <= k < 8 * |d| :: BytesBits(d)[k] == (k >= s && BytesBits(data)[k - s])
    ensures d <= data <==> Run(data, false, 8 * |d|)
  {
    hide BytesBits;
    var w := BytesBits(data);
    if d <= data {
      PrefixBits(d, data);
      forall k | 0 <= k < 8 * |d|
        ensures !w[k]
      {
        Periodic(w, s, false, 8 * |d|, k);
      }
    }
    if Run(data, false, 8 * |d|) {
      BytesBitsTake(data, |d|);
      assert BytesBits(d) == w[..8 * |d|];
      BytesBitsInjective(d, data[..|d|]);
    }
  }

  lemma LateMatches(d: ByteSeq, data: ByteSeq, r: nat)
    requires 1 <= r && 8 * |d| + r <= 8 * |data| && Run(data, true, r)
    requires forall k | 0 <= k < 8 * |d| :: BytesBits(d)[k] == BytesBits(data)[k + r]
    ensures d <= data <==> Run(data, true, 8 * |d| + r)
  {
    hide BytesBits;
    var w := BytesBits(data);
    var n := 8 * |d| + r;
    if d <= data {
      PrefixBits(d, data);
      forall j | r <= j < n
        ensures w[j] == w[j - r]
      {
        assert BytesBits(d)[j - r] == w[j - r + r];
      }
      forall k | 0 <= k < n
        ensures w[k]
      {
        Periodic(w, r, true, n, k);
      }
    }
    if Run(data, true, n) {
      BytesBitsTake(data, |d|);
      forall k | 0 <= k < 8 * |d|
        ensures BytesBits(d)[k] == w[k]
      {
        assert w[k + r];
      }
      assert BytesBits(d) == w[..8 * |d|];
      BytesBitsInjective(d, data[..|d|]);
    }
  }

  /** Where the writer's LEN is, less where the decoder looks for it. */
  function Lead(base: nat, o: nat): int {
    base + o + 3 + Padding(o) - AlignUp(base + o + 3)
  }

  lemma LeadBounds(base: nat, o: nat)
    ensures -6 <= Lead(base, o) <= 8 && (Lead(base, o) == 0 <==> base % 8 == 0 && o % 8 != 5)
    ensures base % 8 == 0 && o % 8 == 5 ==> Lead(base, o) == 8
    ensures Lead(base, o) < 0 ==> base % 8 != 0
    ensures Lead(base, o) > 0 ==> Lead(base, o) <= Padding(o)
  {
    hide AlignUp, Padding;
    PaddingAgrees(base, o);
    RemainderOfSum(base, o + 3);
    RemainderOfSum(o, 3);
    AlignUpPadding(base + o + 3);
    PaddingValue(o);
  }

  /** How many equal bits a full sub-block must start with for its misread bytes to be its own. */
  function DecoyRun(lead: int): (n: nat)
    requires -6 <= lead <= 8 && lead != 0
    ensures lead > 0 ==> n >= 8 * 65280
    ensures lead < 0 ==> n >= 8 * 1023
    ensures n <= 8 * SUB_BLOCK_SIZE
  {
    Pow2Values();
    if lead > 0 then
      Pow2Monotone(1, lead);
      Pow2Monotone(lead, 8);
      8 * (65536 - Pow2(lead))
    else
      Pow2Monotone(10, 16 + lead);
      Pow2Monotone(16 + lead, 15);
      8 * (Pow2(16 + lead) - 1) - lead
  }

  /** A misaligned full sub-block that starts with such a run: of zeros if LEN is read early, else of ones. */
  ghost predicate Decoy(base: nat, o: nat, data: ByteSeq) {
    LeadBounds(base, o);
    Lead(base, o) != 0 && Run(data, Lead(base, o) < 0, DecoyRun(Lead(base, o)))
  }

  lemma EarlyDecoy(bits: Bits, p: nat, q0: nat, s: nat, data: ByteSeq)
    requires |data| == SUB_BLOCK_SIZE && FullAt(bits, p, q0, data)
    requires 1 <= s <= 8 && p + s <= q0 && AlignUp(p) == q0 - s
    ensures DecodeStored(bits, p).Some? && |DecodeStored(bits, p).value.0| < |data|
    ensures DecodeStored(bits, p).value.0 <= data <==> Run(data, false, DecoyRun(s))
  {
    hide BytesBits, FullAt, AlignUp, DecodeStored, Run, Pow2;
    Pow2Values();
    Pow2Monotone(1, s);
    EarlyFull(bits, p, q0, s, data);
    EarlyMatches(DecodeStored(bits, p).value.0, data, s);
  }

  lemma LateDecoy(bits: Bits, p: nat, q0: nat, lead: int, data: ByteSeq)
    requires |data| == SUB_BLOCK_SIZE && FullAt(bits, p, q0, data)
    requires -6 <= lead <= -1 && AlignUp(p) == q0 - lead
    ensures DecodeStored(bits, p).Some? ==> |DecodeStored(bits, p).value.0| < |data|
    ensures (DecodeStored(bits, p).Some? && DecodeStored(bits, p).value.0 <= data) <==> Run(data, true, DecoyRun(lead))
  {
    hide BytesBits, FullAt, AlignUp, DecodeStored, Run, Pow2;
    Pow2Values();
    Pow2Monotone(16 + lead, 15);
    LateFull(bits, p, q0, -lead, data);
    RunStart(data, DecoyRun(lead), -lead);
    if DecodeStored(bits, p).Some? {
      LateMatches(DecodeStored(bits, p).value.0, data, -lead);
    }
  }

  lemma RunStart(data: ByteSeq, n: nat, m: nat)
    requires m <= n && n <= 8 * |data|
    ensures Run(data, true, n) ==> Run(data, true, m)
  {
  }

  lemma SubFull(bits: Bits, base: nat, o: nat, data: ByteSeq)
    requires |data| == SUB_BLOCK_SIZE && At(bits, base + o, SubBits(o, data, false))
    ensures At(bits, base + o, BlockHeader(false, 0))
    ensures FullAt(bits, base + o + 3, base + o + 3 + Padding(o), data)
  {
    hide At, BytesBits, BitsOf, Zeros, Padding, PaddedBits, BlockHeader, SubBits;
    SubIsPadded(o, data, false);
    SubParts(bits, base + o, Padding(o), data, false);
    FullFields(bits, base + o + 3, base + o + 3 + Padding(o), data);
  }

  /** Exactly when what a decoder gets from a misaligned full sub-block is a part of its data. It is always
      shorter. */
  lemma DecoyExact(bits: Bits, base: nat, o: nat, data: ByteSeq)
    requires |data| == SUB_BLOCK_SIZE && At(bits, base + o, SubBits(o, data, false)) && Lead(base, o) != 0
    ensures (DecodeStored(bits, base + o + 3).Some? && DecodeStored(bits, base + o + 3).value.0 <= data)
        <==> Decoy(base, o, data)
    ensures DecodeStored(bits, base + o + 3).Some? ==> |DecodeStored(bits, base + o + 3).value.0| < |data|
  {
    hide At, BytesBits, Padding, AlignUp, BlockHeader, SubBits, DecodeStored, Run, FullAt, DecoyRun;
    LeadBounds(base, o);
    SubFull(bits, base, o, data);
    var p, lead := base + o + 3, Lead(base, o);
    if lead > 0 {
      EarlyDecoy(bits, p, p + Padding(o), lead, data);
    } else {
      LateDecoy(bits, p, p + Padding(o), lead, data);
    }
  }

  /** A decoy starts with 65280 zero bytes, or, in a section that does not start on a byte boundary, perhaps
      with 1023 bytes 255. */
  lemma DecoyBytes(base: nat, o: nat, data: ByteSeq)
    requires |data| == SUB_BLOCK_SIZE && Decoy(base, o, data)
    ensures data[..65280] == Repeated(0, 65280) || (base % 8 != 0 && data[..1023] == Repeated(255, 1023))
  {
    hide Lead, DecoyRun, BytesBits;
    LeadBounds(base, o);
    if Lead(base, o) > 0 {
      RunBytes(data, false, 65280);
      assert data[..65280] == Repeated(0, 65280);
    } else {
      RunBytes(data, true, 1023);
      assert data[..1023] == Repeated(255, 1023);
    }
  }

  /** The first sub-block of a longer block that starts at bit 5 of an aligned section is accepted and
      misread: a zero byte comes first, and the last 256 bytes are taken for what follows. */
  lemma FullAtBitFive(bits: Bits, base: nat, o: nat, data: ByteSeq, out: ByteSeq)
    requires |data| == SUB_BLOCK_SIZE && At(bits, base + o, SubBits(o, data, false))
    requires base % 8 == 0 && o % 8 == 5
    ensures DecodeBlock(bits, base + o, out)
         == Some((out + ([0] + data[..65279]), false, base + o + |SubBits(o, data, false)| - 8 * 256))
  {
    hide At, DecodeStored, DecodeBlock, SubBits, BlockHeader, FullAt, BytesBits, BitsOf, AlignUp, Padding;
    LeadBounds(base, o);
    SubFull(bits, base, o, data);
    var p := base + o + 3;
    StoredRead(bits, base + o, false, out);
    Pow2Values();
    PaddingValue(o);
    EarlyFull(bits, p, p + Padding(o), 8, data);
    ShiftedByte(DecodeStored(bits, p).value.0, data);
  }

  lemma ShiftedByte(d: ByteSeq, data: ByteSeq)
    requires |data| == SUB_BLOCK_SIZE && |d| == 65280
    requires forall k | 0 <= k < 8 * |d| :: BytesBits(d)[k] == (k >= 8 && BytesBits(data)[k - 8])
    ensures d == [0] + data[..65279]
  {
    hide BitsOf;
    var e: ByteSeq := [0] + data[..65279];
    BitsOfZero(8);
    BytesBitsTake(data, 65279);
    assert e[0] == 0 && e[1..] == data[..65279];
    var w := BytesBits(data)[..8 * 65279];
    assert BytesBits(e) == Zeros(8) + w;
    hide BytesBits;
    assert BytesBits(d) == Zeros(8) + w;
    BytesBitsInjective(d, e);
  }
}
