/** The polynomial hash modulo 2^64 of compress/lz77_dictionary.cpp: prefix hashes, the hash of a range
    computed from two of them, and when that is the hash of the range. */
module RollingHash {
  import opened Words

  const WORD := 0x1_0000_0000_0000_0000
  const HASH_ROOT := 13333

  /** The polynomial of the first k bytes, before reduction. */
  function Poly(src: seq<Byte>, k: nat): nat
    requires k <= |src|
  {
    if k == 0 then 0 else Poly(src, k - 1) * HASH_ROOT + src[k - 1]
  }

  function Power(n: nat): nat {
    if n == 0 then 1 else Power(n - 1) * HASH_ROOT
  }

  /** The table of powers of the root (`get_pow_hash_root`). */
  function PowHashRoot(n: nat): nat {
    if n == 0 then 1 else PowHashRoot(n - 1) * HASH_ROOT % WORD
  }

  /** The hash of bytes 0 to j. */
  function PrefixHash(src: seq<Byte>, j: nat): nat
    requires j < |src|
  {
    Poly(src, j + 1) % WORD
  }

  /** The hash of n bytes from pos on, computed directly. */
  function RangeHash(src: seq<Byte>, pos: nat, n: nat): nat
    requires pos + n <= |src|
  {
    Poly(src[pos..pos + n], n) % WORD
  }

  /** What `get_hash` computes from the hash through the last byte and the one before the first. */
  function Difference(through: nat, before: nat, n: nat): nat {
    (through - before * PowHashRoot(n)) % WORD
  }

  /** Extending a prefix hash by one byte. */
  lemma NextPrefix(src: seq<Byte>, j: nat)
    requires 0 < j < |src|
    ensures PrefixHash(src, j) == (PrefixHash(src, j - 1) * 13333 + src[j]) % 0x1_0000_0000_0000_0000
  {
    var x := Poly(src, j);
    assert x == x / WORD * WORD + x % WORD;
    assert x * HASH_ROOT + src[j] == x / WORD * HASH_ROOT * WORD + (x % WORD * HASH_ROOT + src[j]);
    AddMultiple(x % WORD * HASH_ROOT + src[j], x / WORD * HASH_ROOT);
  }

  lemma AddMultiple(x: int, k: int)
    ensures (x + k * WORD) % WORD == x % WORD
  {
  }

  lemma PowerReduced(n: nat)
    ensures PowHashRoot(n) == Power(n) % WORD
  {
    if n > 0 {
      PowerReduced(n - 1);
      var x := Power(n - 1);
      assert x == x / WORD * WORD + x % WORD;
      AddMultiple(x % WORD * HASH_ROOT, x / WORD * HASH_ROOT);
    }
  }

  lemma MulAssoc(x: int, y: int, z: int)
    ensures x * (y * z) == (x * y) * z
  {
  }

  lemma {:induction false} PolySame(a: seq<Byte>, b: seq<Byte>, k: nat)
    requires k <= |a| && k <= |b| && a[..k] == b[..k]
    ensures Poly(a, k) == Poly(b, k)
  {
    if k > 0 {
      assert a[..k][..k - 1] == a[..k - 1] && b[..k][..k - 1] == b[..k - 1];
      assert a[..k][k - 1] == a[k - 1] && b[..k][k - 1] == b[k - 1];
      PolySame(a, b, k - 1);
    }
  }

  /** A prefix polynomial splits at any position. */
  lemma {:induction false} PolySplit(src: seq<Byte>, pos: nat, n: nat)
    requires pos + n <= |src|
    ensures Poly(src, pos + n) == Poly(src, pos) * Power(n) + Poly(src[pos..pos + n], n)
  {
    if n > 0 {
      PolySplit(src, pos, n - 1);
      var p, q := Poly(src, pos), Power(n - 1);
      MulAssoc(p, q, HASH_ROOT);
      PolySame(src[pos..pos + n], src[pos..pos + n - 1], n - 1);
    }
  }

  lemma ProductReduced(x: nat, y: nat)
    ensures (x * y) % WORD == ((x % WORD) * (y % WORD)) % WORD
  {
    var a, b, c, d := x / WORD, x % WORD, y / WORD, y % WORD;
    Distribute(a * WORD, b, y);
    Distribute(c * WORD, d, b);
    MulAssoc(WORD, a, y);
    MulAssoc(WORD, c, b);
    assert x * y == (a * y + c * b) * WORD + b * d;
    AddMultiple(b * d, a * y + c * b);
  }

  lemma Distribute(x: int, y: int, z: int)
    ensures (x + y) * z == x * z + y * z && z * (x + y) == z * x + z * y
  {
  }

  lemma SubtractReduced(x: int, y: int)
    ensures (x - y) % WORD == (x % WORD - y % WORD) % WORD
  {
    AddMultiple(x % WORD - y % WORD, x / WORD - y / WORD);
  }

  lemma DifferenceReduced(t: nat, b: nat, r: nat)
    ensures (t % WORD - b % WORD * (r % WORD)) % WORD == (t - b * r) % WORD
  {
    ProductReduced(b, r);
    Combine(t, b * r, b % WORD * (r % WORD));
  }

  lemma Combine(t: int, x: int, m: int)
    requires x % WORD == m % WORD
    ensures (t % WORD - m) % WORD == (t - x) % WORD
  {
    SubtractReduced(t, x);
    SubtractReduced(t % WORD, m);
  }

  /** With the right prefix hashes, the computed hash is that of the range. */
  lemma DifferenceIsRange(src: seq<Byte>, pos: nat, n: nat)
    requires 0 < pos && 0 < n && pos + n <= |src|
    ensures Difference(PrefixHash(src, pos + n - 1), PrefixHash(src, pos - 1), n) == RangeHash(src, pos, n)
  {
    hide Poly, Power, PowHashRoot;
    PolySplit(src, pos, n);
    PowerReduced(n);
    DifferenceReduced(Poly(src, pos + n), Poly(src, pos), Power(n));
  }

  lemma FirstRange(src: seq<Byte>, n: nat)
    requires 0 < n <= |src|
    ensures PrefixHash(src, n - 1) == RangeHash(src, 0, n)
  {
    PolySame(src, src[0..n], n);
  }

  // ---- the converse: a wrong predecessor is always noticed

  /** The root is odd, so it has an inverse modulo 2^64. */
  const ROOT_INVERSE := 4722023364851923773

  lemma RootCancels(y: int)
    requires (y * HASH_ROOT) % WORD == 0
    ensures y % WORD == 0
  {
    var k := y * HASH_ROOT / WORD;
    assert y * HASH_ROOT == k * WORD;
    assert y == (k * ROOT_INVERSE - y * 3413) * WORD;
    AddMultiple(0, k * ROOT_INVERSE - y * 3413);
  }

  lemma {:induction false} PowerCancels(y: int, n: nat)
    requires (y * Power(n)) % WORD == 0
    ensures y % WORD == 0
  {
    if n > 0 {
      MulAssoc(y, Power(n - 1), HASH_ROOT);
      RootCancels(y * Power(n - 1));
      PowerCancels(y, n - 1);
    }
  }

  /** Two predecessors give the same hash of a range only if they are equal. */
  lemma PredecessorMatters(through: nat, x: nat, y: nat, n: nat)
    requires x < WORD && y < WORD
    ensures Difference(through, x, n) == Difference(through, y, n) <==> x == y
  {
    hide Power, PowHashRoot;
    if Difference(through, x, n) == Difference(through, y, n) {
      var r := PowHashRoot(n);
      PowerReduced(n);
      SameResidue(through - x * r, through - y * r);
      assert (through - x * r) - (through - y * r) == (y - x) * r;
      IntProductReduced(y - x, Power(n));
      PowerCancels(y - x, n);
    }
  }

  lemma SameResidue(x: int, y: int)
    requires x % WORD == y % WORD
    ensures (x - y) % WORD == 0
  {
    AddMultiple(0, x / WORD - y / WORD);
  }

  lemma IntProductReduced(x: int, y: nat)
    ensures (x * y) % WORD == (x * (y % WORD)) % WORD
  {
    var c, d := y / WORD, y % WORD;
    Distribute(c * WORD, d, x);
    MulAssoc(x, c, WORD);
    AddMultiple(x * d, x * c);
  }
}
