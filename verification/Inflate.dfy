/** A decoder for the DEFLATE format, written from sections 3.2.2 to 3.2.7 of RFC 1951. It is the reference
    the compressor is proved against. A position is a bit offset from the start of the data. Like strict
    implementations, it rejects dynamic codes that are not complete or lack an end-of-block code. */
module Inflate {
  import opened Words
  import opened Options
  import opened Canonical
  import RunLength
  import Tables

  type ByteSeq = seq<Byte>

  /** One step of the expansion of a compressed block. */
  datatype Token = Lit(b: Byte) | Copy(length: nat, distance: nat)

  const END_OF_BLOCK := 256
  const MAX_CODE_LENGTH := 15
  const MAX_CL_LENGTH := 7

  /** The order in which the code length code's lengths are sent. */
  const PERMUTATION: seq<nat> := [16, 17, 18, 0, 8, 7, 9, 6, 10, 5, 11, 4, 12, 3, 13, 2, 14, 1, 15]

  // ---- expanding

  /** Copies one byte at a time, so a copy may read what it has just written. */
  function CopyBytes(out: ByteSeq, distance: nat, length: nat): (r: ByteSeq)
    requires 0 < distance <= |out|
    ensures |r| == |out| + length
    decreases length
  {
    if length == 0 then out else CopyBytes(out + [out[|out| - distance]], distance, length - 1)
  }

  function Apply(tokens: seq<Token>, out: ByteSeq): Option<ByteSeq> {
    if tokens == [] then Some(out)
    else
      match tokens[0]
      case Lit(b) => Apply(tokens[1..], out + [b])
      case Copy(length, distance) =>
        if 0 < distance <= |out| then Apply(tokens[1..], CopyBytes(out, distance, length)) else None
  }

  // ---- reading

  /** An n-bit number, least significant bit first. */
  function ReadBits(bits: Bits, pos: nat, n: nat): Option<nat> {
    if pos + n <= |bits| then Some(ValueOf(bits[pos..pos + n])) else None
  }

  function ReadBytes(bits: Bits, pos: nat, n: nat): (r: Option<ByteSeq>)
    ensures r.Some? ==> |r.value| == n
    decreases n
  {
    if n == 0 then Some([])
    else
      var b :- ReadBits(bits, pos, 8);
      var rest :- ReadBytes(bits, pos + 8, n - 1);
      Some([ToByte(b)] + rest)
  }

  /** Symbols of a compressed block up to and including the end-of-block symbol. */
  function DecodeTokens(ll: seq<nat>, dl: seq<nat>, bits: Bits, pos: nat): (r: Option<(seq<Token>, nat)>)
    ensures r.Some? ==> pos < r.value.1 <= |bits|
    decreases |bits| - pos
  {
    var (s, p) :- DecodeSymbol(ll, bits, pos);
    if s < 256 then
      var (tokens, end) :- DecodeTokens(ll, dl, bits, p);
      Some(([Lit(s)] + tokens, end))
    else if s == END_OF_BLOCK then Some(([], p))
    else if s > 285 then None
    else
      var x :- ReadBits(bits, p, Tables.LengthExtra(s));
      var p1 := p + Tables.LengthExtra(s);
      var (d, p2) :- DecodeSymbol(dl, bits, p1);
      if d > 29 then None
      else
        var y :- ReadBits(bits, p2, Tables.DistanceExtra(d));
        var (tokens, end) :- DecodeTokens(ll, dl, bits, p2 + Tables.DistanceExtra(d));
        Some(([Copy(Tables.LengthBase(s) + x, Tables.DistanceBase(d) + y)] + tokens, end))
  }

  // ---- block headers

  function FixedLitLengths(): (l: seq<nat>)
    ensures |l| == 288
  {
    seq(288, s => if s < 144 then 8 else if s < 256 then 9 else if s < 280 then 7 else 8)
  }

  function FixedDistLengths(): (l: seq<nat>)
    ensures |l| == 32
  {
    seq(32, s => 5)
  }

  /** The lengths of the code length code, 3 bits each, in the permuted order. */
  function ReadClLengths(bits: Bits, pos: nat, k: nat, n: nat, cl: seq<nat>): (r: Option<seq<nat>>)
    requires k <= n <= 19 && |cl| == 19
    ensures r.Some? ==> |r.value| == 19
    decreases n - k
  {
    if k == n then Some(cl)
    else
      var v :- ReadBits(bits, pos, 3);
      ReadClLengths(bits, pos + 3, k + 1, n, cl[PERMUTATION[k] := v])
  }

  /** Code lengths sent through the code length code, until there are exactly need of them. */
  function DecodeLengths(cl: seq<nat>, bits: Bits, pos: nat, lens: seq<nat>, need: nat): (r: Option<(seq<nat>, nat)>)
    ensures r.Some? ==> |r.value.0| == need && pos <= r.value.1
    decreases |bits| - pos
  {
    if |lens| >= need then (if |lens| == need then Some((lens, pos)) else None)
    else
      var (sym, p) :- DecodeSymbol(cl, bits, pos);
      var n := RunLength.ExtraBits(sym);
      var extra :- ReadBits(bits, p, n);
      var longer :- RunLength.ExpandOne(lens, sym, RunLength.MinCount(sym) + extra);
      DecodeLengths(cl, bits, p + n, longer, need)
  }

  ghost predicate Complete(lens: seq<nat>, L: nat) {
    Decodable(lens, L) && Kraft(lens, L, |lens|) == Pow2(L)
  }

  /** The two codes of a dynamic block and the position after its header. */
  ghost function DecodeHeader(bits: Bits, pos: nat): (r: Option<(seq<nat>, seq<nat>, nat)>)
    ensures r.Some? ==> pos < r.value.2
  {
    var hlit :- ReadBits(bits, pos, 5);
    var hdist :- ReadBits(bits, pos + 5, 5);
    var hclen :- ReadBits(bits, pos + 10, 4);
    if hlit + 257 > 286 || hdist + 1 > 30 || hclen + 4 > 19 then None
    else
      var cl :- ReadClLengths(bits, pos + 14, 0, hclen + 4, seq(19, _ => 0));
      if !Complete(cl, MAX_CL_LENGTH) then None
      else
        var (lens, p) :- DecodeLengths(cl, bits, pos + 14 + 3 * (hclen + 4), [], hlit + 257 + hdist + 1);
        var ll, dl := lens[..hlit + 257], lens[hlit + 257..];
        if Complete(ll, MAX_CODE_LENGTH) && Complete(dl, MAX_CODE_LENGTH) && ll[END_OF_BLOCK] > 0
        then Some((ll, dl, p)) else None
  }

  // ---- blocks

  /** The next byte boundary at or after pos. */
  function AlignUp(pos: nat): (r: nat)
    ensures pos <= r < pos + 8 && r % 8 == 0
  {
    pos + (8 - pos % 8) % 8
  }

  /** The payload of a stored block whose header ended at pos, and the position after it. */
  function DecodeStored(bits: Bits, pos: nat): (r: Option<(ByteSeq, nat)>)
    ensures r.Some? ==> pos < r.value.1
  {
    var q := AlignUp(pos);
    var len :- ReadBits(bits, q, 16);
    var nlen :- ReadBits(bits, q + 16, 16);
    if len + nlen != 65535 then None
    else
      var data :- ReadBytes(bits, q + 32, len);
      Some((data, q + 32 + 8 * len))
  }

  ghost function DecodeCompressed(ll: seq<nat>, dl: seq<nat>, bits: Bits, pos: nat, out: ByteSeq)
    : (r: Option<(ByteSeq, nat)>)
    ensures r.Some? ==> pos < r.value.1
  {
    var (tokens, end) :- DecodeTokens(ll, dl, bits, pos);
    var longer :- Apply(tokens, out);
    Some((longer, end))
  }

  /** One block at pos: the output extended by its data, whether it is the final block, and its end. */
  ghost function DecodeBlock(bits: Bits, pos: nat, out: ByteSeq): (r: Option<(ByteSeq, bool, nat)>)
    ensures r.Some? ==> pos < r.value.2
  {
    var final :- ReadBits(bits, pos, 1);
    var kind :- ReadBits(bits, pos + 1, 2);
    if kind == 0 then
      var (data, end) :- DecodeStored(bits, pos + 3);
      Some((out + data, final == 1, end))
    else if kind == 1 then
      var (longer, end) :- DecodeCompressed(FixedLitLengths(), FixedDistLengths(), bits, pos + 3, out);
      Some((longer, final == 1, end))
    else if kind == 2 then
      var (ll, dl, p) :- DecodeHeader(bits, pos + 3);
      var (longer, end) :- DecodeCompressed(ll, dl, bits, p, out);
      Some((longer, final == 1, end))
    else None
  }

  /** All blocks from pos to the final one: the output and the position after it. */
  ghost function Decode(bits: Bits, pos: nat, out: ByteSeq): Option<(ByteSeq, nat)>
    decreases |bits| - pos
  {
    if pos >= |bits| then None
    else
      var (longer, final, end) :- DecodeBlock(bits, pos, out);
      if final then Some((longer, end)) else Decode(bits, end, longer)
  }

  // ---- reading what was written

  lemma ReadWritten(bits: Bits, pos: nat, v: nat, n: nat)
    requires v < Pow2(n) && At(bits, pos, BitsOf(v, n))
    ensures ReadBits(bits, pos, n) == Some(v)
  {
    ValueOfBits(v, n);
  }

  lemma {:induction false} ReadWrittenBytes(bits: Bits, pos: nat, data: ByteSeq)
    requires At(bits, pos, BytesBits(data))
    ensures ReadBytes(bits, pos, |data|) == Some(data)
    decreases |data|
  {
    hide At, BitsOf, ReadBits;
    if data != [] {
      AtConcat(bits, pos, BitsOf(data[0], 8), BytesBits(data[1..]));
      Pow2Values();
      ReadWritten(bits, pos, data[0], 8);
      ReadWrittenBytes(bits, pos + 8, data[1..]);
      assert [data[0]] + data[1..] == data;
    }
  }

  // ---- expanding after other output

  lemma {:induction false} CopyAfter(before: ByteSeq, out: ByteSeq, distance: nat, length: nat)
    requires 0 < distance <= |out|
    ensures CopyBytes(before + out, distance, length) == before + CopyBytes(out, distance, length)
    decreases length
  {
    if length > 0 {
      CopyAfter(before, out + [out[|out| - distance]], distance, length - 1);
      assert before + out + [out[|out| - distance]] == before + (out + [out[|out| - distance]]);
    }
  }

  /** Tokens that expand on their own expand to the same bytes after any earlier output. */
  lemma {:induction false} ApplyAfter(tokens: seq<Token>, before: ByteSeq, out: ByteSeq)
    requires Apply(tokens, out).Some?
    ensures Apply(tokens, before + out) == Some(before + Apply(tokens, out).value)
  {
    if tokens != [] {
      match tokens[0]
      case Lit(b) =>
        assert before + out + [b] == before + (out + [b]);
        ApplyAfter(tokens[1..], before, out + [b]);
      case Copy(length, distance) =>
        CopyAfter(before, out, distance, length);
        ApplyAfter(tokens[1..], before, CopyBytes(out, distance, length));
    }
  }

  lemma {:induction false} ApplyConcat(a: seq<Token>, b: seq<Token>, out: ByteSeq)
    requires Apply(a, out).Some?
    ensures Apply(a + b, out) == Apply(b, Apply(a, out).value)
  {
    if a == [] {
      assert a + b == b;
    } else {
      assert (a + b)[1..] == a[1..] + b;
      match a[0]
      case Lit(c) =>
        ApplyConcat(a[1..], b, out + [c]);
      case Copy(length, distance) =>
        ApplyConcat(a[1..], b, CopyBytes(out, distance, length));
    }
  }
}
