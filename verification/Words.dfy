/** Unsigned machine words as integers, and their bits as sequences (least significant bit first).
    The C operators the source applies to words are written out: `And`, `Or`, shifts and truncation. */
module Words {

  type Byte = x: int | 0 <= x < 256

  type Bits = seq<bool>

  function Pow2(n: nat): (p: nat)
    ensures p >= 1
  {
    if n == 0 then 1 else 2 * Pow2(n - 1)
  }

  /** The low n bits of v, least significant first. */
  function BitsOf(v: nat, n: nat): (bits: Bits)
    ensures |bits| == n
  {
    if n == 0 then [] else [v % 2 == 1] + BitsOf(v / 2, n - 1)
  }

  function ValueOf(bits: Bits): nat {
    if bits == [] then 0 else (if bits[0] then 1 else 0) + 2 * ValueOf(bits[1..])
  }

  function Reversed(bits: Bits): (r: Bits)
    ensures |r| == |bits|
  {
    if bits == [] then [] else Reversed(bits[1..]) + [bits[0]]
  }

  function And(a: nat, b: nat): nat
    decreases a
  {
    if a == 0 || b == 0 then 0
    else (if a % 2 == 1 && b % 2 == 1 then 1 else 0) + 2 * And(a / 2, b / 2)
  }

  function Or(a: nat, b: nat): nat
    decreases a
  {
    if a == 0 then b
    else if b == 0 then a
    else (if a % 2 == 1 || b % 2 == 1 then 1 else 0) + 2 * Or(a / 2, b / 2)
  }

  function ShiftLeft(a: nat, k: nat): (r: nat) {
    if k == 0 then a else 2 * ShiftLeft(a, k - 1)
  }

  function ShiftRight(a: nat, k: nat): (r: nat) {
    if k == 0 then a else ShiftRight(a / 2, k - 1)
  }

  function ToByte(a: nat): Byte {
    a % 256
  }

  /** The bits of a byte sequence in stream order. */
  function BytesBits(bytes: seq<Byte>): (bits: Bits)
    ensures |bits| == 8 * |bytes|
  {
    if bytes == [] then [] else BitsOf(bytes[0], 8) + BytesBits(bytes[1..])
  }

  function Repeated<T>(v: T, n: nat): (r: seq<T>)
    ensures |r| == n
    ensures forall i | 0 <= i < n :: r[i] == v
  {
    seq(n, _ => v)
  }

  function Zeros(n: nat): (bits: Bits)
    ensures |bits| == n
    ensures forall i | 0 <= i < n :: !bits[i]
  {
    Repeated(false, n)
  }

  /** The bits w stand at position pos of bits. */
  predicate At(bits: Bits, pos: nat, w: Bits) {
    pos + |w| <= |bits| && bits[pos..pos + |w|] == w
  }

  lemma AtConcat(bits: Bits, pos: nat, a: Bits, b: Bits)
    ensures At(bits, pos, a + b) <==> At(bits, pos, a) && At(bits, pos + |a|, b)
  {
    if pos + |a| + |b| <= |bits| {
      var w := bits[pos..pos + |a| + |b|];
      assert w == bits[pos..pos + |a|] + bits[pos + |a|..pos + |a| + |b|];
      assert w[..|a|] == bits[pos..pos + |a|] && w[|a|..] == bits[pos + |a|..pos + |a| + |b|];
      assert (a + b)[..|a|] == a && (a + b)[|a|..] == b;
    }
  }

  lemma AtFive(bits: Bits, pos: nat, a: Bits, b: Bits, c: Bits, d: Bits, e: Bits)
    ensures At(bits, pos, a + (b + (c + (d + e)))) <==>
            && At(bits, pos, a) && At(bits, pos + |a|, b) && At(bits, pos + |a| + |b|, c)
            && At(bits, pos + |a| + |b| + |c|, d) && At(bits, pos + |a| + |b| + |c| + |d|, e)
  {
    hide At;
    AtConcat(bits, pos, a, b + (c + (d + e)));
    AtConcat(bits, pos + |a|, b, c + (d + e));
    AtConcat(bits, pos + |a| + |b|, c, d + e);
    AtConcat(bits, pos + |a| + |b| + |c|, d, e);
  }

  lemma Regroup<T>(a: seq<T>, b: seq<T>, c: seq<T>)
    ensures a + b + c == a + (b + c)
  {
  }

  // ---- powers of two and shifts

  lemma {:induction false} Pow2Monotone(a: nat, b: nat)
    requires a <= b
    ensures Pow2(a) <= Pow2(b)
    decreases b - a
  {
    if a < b {
      Pow2Monotone(a + 1, b);
    }
  }

  lemma Pow2Values()
    ensures Pow2(0) == 1 && Pow2(1) == 2 && Pow2(2) == 4 && Pow2(3) == 8 && Pow2(4) == 16
    ensures Pow2(5) == 32 && Pow2(6) == 64 && Pow2(7) == 128 && Pow2(8) == 256
    ensures Pow2(9) == 512 && Pow2(10) == 1024 && Pow2(11) == 2048 && Pow2(12) == 4096
    ensures Pow2(13) == 8192 && Pow2(14) == 16384 && Pow2(15) == 32768 && Pow2(16) == 65536
  {
    assert Pow2(4) == 16;
    assert Pow2(8) == 256;
    assert Pow2(12) == 4096;
  }

  lemma {:induction false} ShiftLeftLinear(x: nat, y: nat, k: nat)
    ensures ShiftLeft(x + y, k) == ShiftLeft(x, k) + ShiftLeft(y, k)
  {
    if k > 0 {
      ShiftLeftLinear(x, y, k - 1);
    }
  }

  lemma ShiftLeftOne(x: nat)
    ensures ShiftLeft(x, 0) == x && ShiftLeft(x, 1) == 2 * x
  {
    assert ShiftLeft(x, 1) == 2 * ShiftLeft(x, 0);
  }

  lemma {:induction false} ShiftLeftMonotone(x: nat, y: nat, k: nat)
    requires x <= y
    ensures ShiftLeft(x, k) <= ShiftLeft(y, k)
  {
    if k > 0 {
      ShiftLeftMonotone(x, y, k - 1);
    }
  }

  lemma {:induction false} ShiftLeftPow2(a: nat, k: nat)
    ensures ShiftLeft(Pow2(a), k) == Pow2(a + k)
  {
    if k > 0 {
      ShiftLeftPow2(a, k - 1);
    }
  }

  lemma {:induction false} ShiftLeftTwice(x: nat, a: nat, b: nat)
    ensures ShiftLeft(ShiftLeft(x, a), b) == ShiftLeft(x, a + b)
  {
    if b > 0 {
      ShiftLeftTwice(x, a, b - 1);
    }
  }

  lemma {:induction false} ShiftRightTwice(x: nat, a: nat, b: nat)
    ensures ShiftRight(ShiftRight(x, a), b) == ShiftRight(x, a + b)
  {
    if a > 0 {
      ShiftRightTwice(x / 2, a - 1, b);
    }
  }

  lemma {:induction false} ShiftRightSmall(x: nat, k: nat, n: nat)
    requires x < Pow2(n + k)
    ensures ShiftRight(x, k) < Pow2(n)
  {
    if k > 0 {
      ShiftRightSmall(x / 2, k - 1, n);
    }
  }

  /** Shifting left then right gives back the value, whatever was added below. */
  lemma {:induction false} ShiftRightOfLeft(x: nat, y: nat, k: nat)
    requires x < Pow2(k)
    ensures ShiftRight(x + ShiftLeft(y, k), k) == y
  {
    if k > 0 {
      ShiftRightOfLeft(x / 2, y, k - 1);
      assert (x + 2 * ShiftLeft(y, k - 1)) / 2 == x / 2 + ShiftLeft(y, k - 1);
    }
  }

  // ---- bits and values

  lemma {:induction false} BitsSplit(v: nat, a: nat, b: nat)
    ensures BitsOf(v, a + b) == BitsOf(v, a) + BitsOf(ShiftRight(v, a), b)
  {
    if a > 0 {
      BitsSplit(v / 2, a - 1, b);
    }
  }

  /** OR-free packing: x in the low a bits and y above them. */
  lemma {:induction false} BitsJoin(x: nat, y: nat, a: nat, b: nat)
    requires x < Pow2(a)
    ensures BitsOf(x + ShiftLeft(y, a), a + b) == BitsOf(x, a) + BitsOf(y, b)
  {
    if a > 0 {
      var z := ShiftLeft(y, a - 1);
      BitsJoin(x / 2, y, a - 1, b);
      assert (x + 2 * z) / 2 == x / 2 + z && (x + 2 * z) % 2 == x % 2;
    }
  }

  lemma {:induction false} BitsOfValue(bits: Bits)
    ensures BitsOf(ValueOf(bits), |bits|) == bits
    ensures ValueOf(bits) < Pow2(|bits|)
  {
    if bits == [] {
    } else {
      BitsOfValue(bits[1..]);
    }
  }

  /** A value below 2^n is recovered from its n bits. */
  lemma {:induction false} ValueOfBits(v: nat, n: nat)
    requires v < Pow2(n)
    ensures ValueOf(BitsOf(v, n)) == v
  {
    if n > 0 {
      ValueOfBits(v / 2, n - 1);
    }
  }

  lemma {:induction false} BitsOfZero(n: nat)
    ensures BitsOf(0, n) == Zeros(n)
  {
    if n > 0 {
      BitsOfZero(n - 1);
    }
  }

  lemma {:induction false} ReversedAt(bits: Bits, k: nat)
    requires k < |bits|
    ensures Reversed(bits)[k] == bits[|bits| - 1 - k]
  {
    if k < |bits| - 1 {
      ReversedAt(bits[1..], k);
    }
  }

  lemma ReversedTwice(bits: Bits)
    ensures Reversed(Reversed(bits)) == bits
  {
    forall k | 0 <= k < |bits|
      ensures Reversed(Reversed(bits))[k] == bits[k]
    {
      ReversedAt(Reversed(bits), k);
      ReversedAt(bits, |bits| - 1 - k);
    }
  }

  // ---- the C operators

  /** Masking with 2^n - 1 keeps exactly the low n bits. */
  lemma {:induction false} MaskLow(a: nat, n: nat)
    ensures And(a, Pow2(n) - 1) < Pow2(n)
    ensures BitsOf(And(a, Pow2(n) - 1), n) == BitsOf(a, n)
    ensures a < Pow2(n) ==> And(a, Pow2(n) - 1) == a
    decreases n
  {
    if n > 0 {
      MaskLow(a / 2, n - 1);
      var p := Pow2(n - 1);
      assert (2 * p - 1) % 2 == 1 && (2 * p - 1) / 2 == p - 1;
      if a == 0 {
      } else {
        assert And(a, 2 * p - 1) == a % 2 + 2 * And(a / 2, p - 1);
      }
    }
  }

  /** OR-ing a value below 2^k with one shifted left by k adds them. */
  lemma {:induction false} OrDisjoint(a: nat, b: nat, k: nat)
    requires a < Pow2(k)
    ensures Or(a, ShiftLeft(b, k)) == a + ShiftLeft(b, k)
  {
    if a == 0 || k == 0 {
    } else {
      OrDisjoint(a / 2, b, k - 1);
    }
  }

  lemma BytesBitsAppend(x: seq<Byte>, y: seq<Byte>)
    ensures BytesBits(x + y) == BytesBits(x) + BytesBits(y)
  {
    if x == [] {
      assert x + y == y;
    } else {
      assert (x + y)[1..] == x[1..] + y;
    }
  }

  lemma BytesBitsSnoc(x: seq<Byte>, b: Byte)
    ensures BytesBits(x + [b]) == BytesBits(x) + BitsOf(b, 8)
  {
    BytesBitsAppend(x, [b]);
    assert BytesBits([b]) == BitsOf(b, 8) + BytesBits([]);
  }

  /** Byte k of a sequence occupies bits 8k to 8k+7 of its bits. */
  lemma {:induction false} BytesBitsAt(x: seq<Byte>, k: nat)
    requires k < |x|
    ensures BytesBits(x)[8 * k..8 * k + 8] == BitsOf(x[k], 8)
  {
    assert x == x[..k] + ([x[k]] + x[k + 1..]);
    BytesBitsAppend(x[..k], [x[k]] + x[k + 1..]);
    BytesBitsAppend([x[k]], x[k + 1..]);
    assert BytesBits([x[k]]) == BitsOf(x[k], 8) + BytesBits([]);
  }

  /** Bytes are fixed by their bits. */
  lemma {:induction false} BytesBitsInjective(a: seq<Byte>, b: seq<Byte>)
    requires BytesBits(a) == BytesBits(b)
    ensures a == b
  {
    hide BitsOf;
    assert 8 * |a| == |BytesBits(a)| == |BytesBits(b)| == 8 * |b|;
    if a != [] {
      assert BitsOf(a[0], 8) == BytesBits(a)[..8] == BytesBits(b)[..8] == BitsOf(b[0], 8);
      Pow2Values();
      ValueOfBits(a[0], 8);
      ValueOfBits(b[0], 8);
      assert BytesBits(a[1..]) == BytesBits(a)[8..] && BytesBits(b[1..]) == BytesBits(b)[8..];
      BytesBitsInjective(a[1..], b[1..]);
      assert a == [a[0]] + a[1..] && b == [b[0]] + b[1..];
    }
  }

  lemma BytesBitsTake(bytes: seq<Byte>, k: nat)
    requires k <= |bytes|
    ensures BytesBits(bytes[..k]) == BytesBits(bytes)[..8 * k]
  {
    assert bytes == bytes[..k] + bytes[k..];
    BytesBitsAppend(bytes[..k], bytes[k..]);
  }
}
