/** The LZ77 matcher of compress/lz77_dictionary.cpp. */
module Lz77 {
  import opened Words
  import opened Options
  import opened Inflate
  import opened Items
  import opened RollingHash

  const DICTIONARY_SIZE := 32768
  const REPEAT_MAX := 258
  const HASH_BUFFER := 33026  // DICTIONARY_SIZE + REPEAT_MAX
  const SHORT_INPUT := 10

  /** max chain length, good, nice and perfect length of each level */
  const CONFIG: seq<seq<nat>> :=
    [[64, 4, 8, 16],
     [128, 8, 16, 128],
     [512, 16, 128, 258],
     [4096, 258, 258, 258]]

  function Config(level: nat, k: nat): (v: nat)
    requires level < 4 && k < 4
    ensures v >= 4
  {
    CONFIG[level][k]
  }

  // ---- trigrams

  /** get_hash3b */
  function Hash3b(a: int, b: int, c: int): int {
    (a + 1) * 66049 + (b + 1) * 257 + (c + 1)
  }

  /** The key of the three bytes at i; -1 stands for a byte past the end. */
  function Trigram(src: ByteSeq, i: nat): int
    requires i < |src|
  {
    Hash3b(src[i], if i + 1 < |src| then src[i + 1] else -1, if i + 2 < |src| then src[i + 2] else -1)
  }

  lemma Hash3bInjective(a: int, b: int, c: int, x: int, y: int, z: int)
    requires -1 <= a < 256 && -1 <= b < 256 && -1 <= c < 256
    requires -1 <= x < 256 && -1 <= y < 256 && -1 <= z < 256
    requires Hash3b(a, b, c) == Hash3b(x, y, z)
    ensures a == x && b == y && c == z
  {
    assert 257 * (257 * (a - x) + (b - y)) == z - c;
    assert 257 * (a - x) == y - b;
  }

  /** Equal keys mean three equal bytes, all inside the input. */
  lemma TrigramMatch(src: ByteSeq, p: nat, i: nat)
    requires p < i < |src| && Trigram(src, p) == Trigram(src, i)
    ensures i + 2 < |src| && Matches(src, p, i, 3)
  {
    Hash3bInjective(src[p], if p + 1 < |src| then src[p + 1] else -1, if p + 2 < |src| then src[p + 2] else -1,
                    src[i], if i + 1 < |src| then src[i + 1] else -1, if i + 2 < |src| then src[i + 2] else -1);
  }

  lemma TrigramOfEqual(src: ByteSeq, p: nat, i: nat)
    requires p < i && i + 2 < |src| && src[p] == src[i] && src[p + 1] == src[i + 1] && src[p + 2] == src[i + 2]
    ensures Trigram(src, p) == Trigram(src, i)
  {
  }

  // ---- matches

  /** The k bytes at p are those at i. */
  ghost predicate Matches(src: ByteSeq, p: nat, i: nat, k: nat)
    requires p < i
  {
    i + k <= |src| && forall j | p <= j < p + k :: src[j] == src[j + (i - p)]
  }

  /** The length of the common prefix at p and i, from k on, capped at the longest match. */
  function CommonPrefix(src: ByteSeq, p: nat, i: nat, k: nat): (r: nat)
    requires p < i && i + k <= |src| && k <= REPEAT_MAX
    ensures k <= r <= REPEAT_MAX && i + r <= |src|
    decreases REPEAT_MAX - k
  {
    if i + k < |src| && k < REPEAT_MAX && src[p + k] == src[i + k] then CommonPrefix(src, p, i, k + 1) else k
  }

  lemma PrefixStep(src: ByteSeq, p: nat, i: nat, k: nat)
    requires p < i && i + k <= |src| && k <= REPEAT_MAX
    ensures CommonPrefix(src, p, i, k)
         == if i + k < |src| && k < REPEAT_MAX && src[p + k] == src[i + k] then CommonPrefix(src, p, i, k + 1) else k
  {
  }

  lemma {:induction false} PrefixFrom(src: ByteSeq, p: nat, i: nat, k: nat)
    requires p < i && k <= REPEAT_MAX && Matches(src, p, i, k)
    ensures CommonPrefix(src, p, i, 0) == CommonPrefix(src, p, i, k)
  {
    if k > 0 {
      PrefixFrom(src, p, i, k - 1);
      assert src[p + k - 1] == src[p + k - 1 + (i - p)];
    }
  }

  lemma {:induction false} PrefixMatches(src: ByteSeq, p: nat, i: nat, k: nat)
    requires p < i && k <= REPEAT_MAX && Matches(src, p, i, k)
    ensures Matches(src, p, i, CommonPrefix(src, p, i, k))
    decreases REPEAT_MAX - k
  {
    if i + k < |src| && k < REPEAT_MAX && src[p + k] == src[i + k] {
      PrefixMatches(src, p, i, k + 1);
    }
  }

  /** A range that does not match bounds the common prefix. */
  lemma PrefixBelow(src: ByteSeq, p: nat, i: nat, k: nat)
    requires p < i && i + k <= |src| && !Matches(src, p, i, k)
    ensures CommonPrefix(src, p, i, 0) < k
  {
    assert Matches(src, p, i, 0);
    PrefixMatches(src, p, i, 0);
  }

  // ---- chains

  /** A chain of earlier positions, nearest first. */
  datatype LLNode = Null | Node(next: LLNode, pos: nat)

  /** The chain of all positions below k with a given key. */
  ghost function ChainAt(src: ByteSeq, key: int, k: nat): LLNode
    requires k <= |src|
  {
    if k == 0 then Null
    else if Trigram(src, k - 1) == key then Node(ChainAt(src, key, k - 1), k - 1)
    else ChainAt(src, key, k - 1)
  }

  /** The positions in [left, k) with a given key, nearest first. */
  ghost function Window(src: ByteSeq, key: int, k: nat, left: nat): (w: seq<nat>)
    requires k <= |src|
    ensures forall j | 0 <= j < |w| :: left <= w[j] < k && Trigram(src, w[j]) == key
    ensures forall i, j | 0 <= i < j < |w| :: w[j] < w[i]
  {
    if k <= left then []
    else if Trigram(src, k - 1) == key then [k - 1] + Window(src, key, k - 1, left)
    else Window(src, key, k - 1, left)
  }

  lemma ChainNext(src: ByteSeq, i: nat)
    requires i < |src|
    ensures forall key :: ChainAt(src, key, i + 1)
                       == if Trigram(src, i) == key then Node(ChainAt(src, key, i), i) else ChainAt(src, key, i)
  {
  }

  lemma {:induction false} WindowComplete(src: ByteSeq, key: int, k: nat, left: nat, p: nat)
    requires left <= p < k <= |src| && Trigram(src, p) == key
    ensures p in Window(src, key, k, left)
  {
    if p < k - 1 {
      WindowComplete(src, key, k - 1, left, p);
    }
  }

  lemma NearestFirst(w: seq<nat>, top: nat)
    requires top in w && (forall j | 0 <= j < |w| :: w[j] <= top) && forall i, j | 0 <= i < j < |w| :: w[j] < w[i]
    ensures w[0] == top
  {
  }

  /** The head of a chain is the nearest position; what follows it is the chain below it. */
  lemma {:induction false} ChainTop(src: ByteSeq, key: int, k: nat, left: nat)
    requires k <= |src|
    ensures match ChainAt(src, key, k)
            case Null => Window(src, key, k, left) == []
            case Node(next, pos) =>
              && pos < k && Trigram(src, pos) == key && next == ChainAt(src, key, pos)
              && Window(src, key, k, left) == if pos >= left then [pos] + Window(src, key, pos, left) else []
  {
    if k > 0 && Trigram(src, k - 1) != key {
      ChainTop(src, key, k - 1, left);
    }
  }

  // ---- what the search promises

  function LeftEdge(i: nat): nat {
    if i >= DICTIONARY_SIZE then i - DICTIONARY_SIZE else 0
  }

  /** The last position whose prefix hash is in the ring while position i is processed. */
  function RingTop(n: nat, i: nat): (t: int)
    ensures t < n
  {
    if i + REPEAT_MAX <= n then i + REPEAT_MAX - 1 else n - 1
  }

  /** The prefix hash before pos has not been overwritten. */
  predicate Retained(n: nat, i: nat, pos: nat) {
    pos == 0 || pos - 1 + HASH_BUFFER > RingTop(n, i)
  }

  /** Only the farthest position of the window can have lost its prefix hash. */
  lemma RetainedUpTo(n: nat, i: nat, pos: nat)
    requires LeftEdge(i) <= pos < i < n
    ensures i - pos < DICTIONARY_SIZE || pos == 0 ==> Retained(n, i, pos)
    ensures i - pos == DICTIONARY_SIZE && pos > 0 && i + REPEAT_MAX <= n ==> !Retained(n, i, pos)
  {
  }

  /** How many candidates may be visited once the best match has a given length. */
  function Budget(level: nat, length: nat): nat
    requires level < 4
  {
    if length >= Config(level, 2) then Config(level, 0) / 16
    else if length >= Config(level, 1) then Config(level, 0) / 4
    else Config(level, 0)
  }

  /** The filter passes candidate p when the longest match so far has a given length: as many bytes must match,
      and beyond three their hash must not have been lost. */
  ghost predicate Accepted(src: ByteSeq, i: nat, p: nat, best: nat)
    requires p < i < |src|
  {
    var k := if best < 3 then 3 else best;
    && Matches(src, p, i, k)
    && (k == 3 || Retained(|src|, i, p) || PrefixHash(src, p - 1) == PrefixHash(src, RingTop(|src|, i)))
  }

  /** The longest match among the first v candidates: one is taken if it passes and is longer. */
  ghost function Longest(src: ByteSeq, i: nat, w: seq<nat>, v: nat): (length: nat)
    requires i < |src| && v <= |w| && forall j | 0 <= j < |w| :: w[j] < i
    ensures length <= REPEAT_MAX && i + length <= |src|
  {
    if v == 0 then 0
    else
      var before, length := Longest(src, i, w, v - 1), CommonPrefix(src, w[v - 1], i, 0);
      if Accepted(src, i, w[v - 1], before) && length > before then length else before
  }

  /** The search ends after v candidates: with a perfect match, or with its budget spent. */
  ghost predicate Stops(src: ByteSeq, i: nat, level: nat, w: seq<nat>, v: nat)
    requires i < |src| && level < 4 && v <= |w| && forall j | 0 <= j < |w| :: w[j] < i
  {
    Longest(src, i, w, v) >= Config(level, 3) || v >= Budget(level, Longest(src, i, w, v))
  }

  /** The match at distance i - w[best] has the length of its common prefix, and among the first visited
      candidates whose hash is retained none is longer, and none before it is as long. */
  ghost predicate Leads(src: ByteSeq, i: nat, w: seq<nat>, visited: nat, best: nat, length: nat)
    requires i < |src| && forall j | 0 <= j < |w| :: w[j] < i
  {
    && best < visited <= |w|
    && 3 <= length == CommonPrefix(src, w[best], i, 0)
    && (forall j | 0 <= j < visited && Retained(|src|, i, w[j]) :: CommonPrefix(src, w[j], i, 0) <= length)
    && (forall j | 0 <= j < best && Retained(|src|, i, w[j]) :: CommonPrefix(src, w[j], i, 0) < length)
  }

  /** The search visits candidates until it first has a reason to stop, and ends with the best of them. */
  ghost predicate BestMatch(src: ByteSeq, i: nat, level: nat, w: seq<nat>, visited: nat, best: nat, length: nat)
    requires i < |src| && level < 4 && forall j | 0 <= j < |w| :: w[j] < i
  {
    && Leads(src, i, w, visited, best, length) && length == Longest(src, i, w, visited)
    && (visited == |w| || Stops(src, i, level, w, visited))
    && forall v | 0 < v < visited :: !Stops(src, i, level, w, v)
  }

  ghost predicate Found(src: ByteSeq, i: nat, level: nat, w: seq<nat>, length: nat, pos: nat)
    requires i < |src| && level < 4 && forall j | 0 <= j < |w| :: w[j] < i
  {
    exists visited: nat, best: nat :: BestMatch(src, i, level, w, visited, best, length) && pos == w[best]
  }

  /** A literal means no earlier position in the window shares the three bytes; a copy is the best match. */
  ghost predicate TokenOk(src: ByteSeq, i: nat, level: nat, token: Token)
    requires i < |src| && level < 4
  {
    var w := Window(src, Trigram(src, i), i, LeftEdge(i));
    match token
    case Lit(b) => w == [] && b == src[i]
    case Copy(length, distance) => distance <= i && Found(src, i, level, w, length, i - distance)
  }

  /** The items and the positions to skip are those of a token. */
  ghost predicate Emits(src: ByteSeq, i: nat, level: nat, items: seq<LZ77Item>, skip: nat, token: Token)
    requires i < |src| && level < 4
  {
    TokenOk(src, i, level, token) && items == ItemsOf(token) && skip == TokenLength(token) - 1
  }

  lemma EmitsToken(src: ByteSeq, i: nat, level: nat, items: seq<LZ77Item>, skip: nat, token: Token)
    requires i < |src| && level < 4 && TokenOk(src, i, level, token)
    requires items == ItemsOf(token) && skip == TokenLength(token) - 1
    ensures Emits(src, i, level, items, skip, token)
  {
    hide TokenOk;
  }

  function TokenLength(t: Token): nat {
    match t
    case Lit(_) => 1
    case Copy(length, _) => length
  }

  /** The tokens cut src[..end] greedily, each obeying TokenOk where it starts. */
  ghost predicate Parse(src: ByteSeq, level: nat, tokens: seq<Token>, end: nat)
    requires level < 4
    decreases |tokens|
  {
    if tokens == [] then end == 0
    else
      var last := tokens[|tokens| - 1];
      && TokenLength(last) <= end <= |src| && TokenLength(last) > 0
      && TokenOk(src, end - TokenLength(last), level, last)
      && Parse(src, level, tokens[..|tokens| - 1], end - TokenLength(last))
  }

  // ---- expanding what was parsed

  lemma {:induction false} CopyReproduces(src: ByteSeq, p: nat, i: nat, k: nat)
    requires p < i && Matches(src, p, i, k)
    ensures CopyBytes(src[..i], i - p, k) == src[..i + k]
    decreases k
  {
    if k > 0 {
      assert src[p] == src[p + (i - p)];
      assert src[..i + 1] == src[..i] + [src[i]];
      CopyReproduces(src, p + 1, i + 1, k - 1);
    }
  }

  /** tokens expand to the first end bytes of src. */
  ghost predicate Reproduces(src: ByteSeq, tokens: seq<Token>, end: nat) {
    end <= |src| && ValidTokens(tokens) && Apply(tokens, []) == Some(src[..end])
  }

  ghost function LitTokens(src: ByteSeq): (tokens: seq<Token>)
    ensures |tokens| == |src| && forall t | t in tokens :: t.Lit?
  {
    seq(|src|, k requires 0 <= k < |src| => Lit(src[k]))
  }

  /** The tokens of a whole input: literals if it is short, else a greedy parse. Both expand to it. */
  ghost predicate Parsed(src: ByteSeq, level: nat, tokens: seq<Token>)
    requires level < 4
  {
    && Reproduces(src, tokens, |src|)
    && if |src| <= SHORT_INPUT then tokens == LitTokens(src) else Parse(src, level, tokens, |src|)
  }

  lemma PushLiteral(src: ByteSeq, tokens: seq<Token>, i: nat)
    requires i < |src| && Reproduces(src, tokens, i)
    ensures Reproduces(src, tokens + [Lit(src[i])], i + 1)
  {
    ApplyConcat(tokens, [Lit(src[i])], []);
    assert src[..i] + [src[i]] == src[..i + 1];
    assert Apply([], src[..i + 1]) == Some(src[..i + 1]);
  }

  lemma PushCopy(src: ByteSeq, tokens: seq<Token>, i: nat, p: nat, k: nat)
    requires p < i < |src| && Reproduces(src, tokens, i)
    requires 3 <= k <= REPEAT_MAX && i - p <= DICTIONARY_SIZE && Matches(src, p, i, k)
    ensures Reproduces(src, tokens + [Copy(k, i - p)], i + k)
  {
    ApplyConcat(tokens, [Copy(k, i - p)], []);
    CopyReproduces(src, p, i, k);
    assert Apply([], src[..i + k]) == Some(src[..i + k]);
  }

  // ---- the dictionary

  class LZ77Dictionary {
    var head3b: map<int, LLNode>  // m_head3b; an absent key is a null head
    const hash: array<nat>        // m_hash
    var left: nat                 // m_left

    ghost predicate Valid() {
      hash.Length == HASH_BUFFER
    }

    /** The ring holds the prefix hashes of the last HASH_BUFFER positions up to top. */
    ghost predicate RingHolds(src: ByteSeq, top: int)
      requires Valid() && top < |src|
      reads hash
    {
      forall j | 0 <= j <= top && j + HASH_BUFFER > top :: hash[j % HASH_BUFFER] == PrefixHash(src, j)
    }

    /** Each chain holds exactly the positions below i with its key, nearest first. */
    ghost predicate ChainsHold(src: ByteSeq, i: nat)
      requires i <= |src|
      reads `head3b
    {
      forall key :: Head(key) == ChainAt(src, key, i)
    }

    constructor ()
      ensures Valid() && fresh(hash)
    {
      head3b := map[];
      hash := new nat[HASH_BUFFER](_ => 0);
      left := 0;
    }

    function Head(key: int): LLNode
      reads `head3b
    {
      if key in head3b then head3b[key] else Null
    }

    /** The hash of the n bytes at pos. */
    function GetHash(pos: nat, n: nat): nat
      requires Valid() && n > 0
      reads hash
    {
      var through := hash[(pos + n - 1) % HASH_BUFFER];
      (through - (if pos > 0 then hash[(pos + HASH_BUFFER - 1) % HASH_BUFFER] * PowHashRoot(n) else 0)) % WORD
    }

    method Reset()
      requires Valid()
      modifies this, hash
      ensures Valid() && left == 0 && head3b == map[]
      ensures forall k | 0 <= k < HASH_BUFFER :: hash[k] == 0
    {
      left := 0;
      head3b := map[];
      forall k | 0 <= k < hash.Length {
        hash[k] := 0;
      }
    }

    /** For retained ranges the computed hash is the hash of the bytes. */
    lemma HashExact(src: ByteSeq, i: nat, pos: nat, n: nat)
      requires Valid() && i < |src| && RingHolds(src, RingTop(|src|, i))
      requires LeftEdge(i) <= pos <= i && 0 < n <= REPEAT_MAX && i + n <= |src| && Retained(|src|, i, pos)
      ensures GetHash(pos, n) == RangeHash(src, pos, n)
    {
      hide PrefixHash, RangeHash, PowHashRoot;
      assert hash[(pos + n - 1) % HASH_BUFFER] == PrefixHash(src, pos + n - 1);
      if pos > 0 {
        SameSlot(pos);
        assert hash[(pos - 1) % HASH_BUFFER] == PrefixHash(src, pos - 1);
        DifferenceIsRange(src, pos, n);
      } else {
        FirstRange(src, n);
        assert PrefixHash(src, n - 1) < WORD by { PrefixBound(src, n - 1); }
      }
    }

    /** With the prefix hash before pos overwritten, the newest one is used in its place. */
    lemma LostHash(src: ByteSeq, i: nat, pos: nat, n: nat)
      requires Valid() && i < |src| && RingHolds(src, RingTop(|src|, i))
      requires LeftEdge(i) <= pos < i && 0 < n <= REPEAT_MAX && i + n <= |src| && !Retained(|src|, i, pos)
      ensures pos > 0
      ensures GetHash(pos, n)
           == Difference(PrefixHash(src, pos + n - 1), PrefixHash(src, RingTop(|src|, i)), n)
    {
      hide PrefixHash, PowHashRoot;
      var top := RingTop(|src|, i);
      SameSlot(pos);
      assert (pos - 1) % HASH_BUFFER == top % HASH_BUFFER;
      assert hash[top % HASH_BUFFER] == PrefixHash(src, top);
      assert hash[(pos + n - 1) % HASH_BUFFER] == PrefixHash(src, pos + n - 1);
    }

    /** Exactly when the filter lets a true match pass: when the prefix hash before it is retained, or has
        been replaced by an equal one. At distance 32768 the replacement is the newest prefix hash. */
    lemma FilterExact(src: ByteSeq, i: nat, pos: nat, n: nat)
      requires Valid() && i < |src| && RingHolds(src, RingTop(|src|, i))
      requires LeftEdge(i) <= pos < i && 0 < n <= REPEAT_MAX && Matches(src, pos, i, n)
      ensures GetHash(pos, n) == GetHash(i, n) <==>
                Retained(|src|, i, pos)
                || PrefixHash(src, pos - 1) == PrefixHash(src, RingTop(|src|, i))
    {
      MatchIsEqual(src, pos, i, n);
      hide Matches, LZ77Dictionary.GetHash, RangeHash, PrefixHash, RingHolds, Difference;
      HashExact(src, i, i, n);
      SameRange(src, pos, i, n);
      if Retained(|src|, i, pos) {
        HashExact(src, i, pos, n);
      } else {
        LostHash(src, i, pos, n);
        DifferenceIsRange(src, pos, n);
        var x, y := PrefixHash(src, RingTop(|src|, i)), PrefixHash(src, pos - 1);
        PrefixBound(src, RingTop(|src|, i));
        PrefixBound(src, pos - 1);
        PredecessorMatters(PrefixHash(src, pos + n - 1), x, y, n);
      }
    }

    /** Compares one candidate with the best length so far. One that is passed over is no longer match, unless
        its hash is lost. */
    method Compare(src: ByteSeq, i: nat, p: nat, best: nat) returns (ok: bool, length: nat)
      requires Valid() && i < |src| && RingHolds(src, RingTop(|src|, i))
      requires LeftEdge(i) <= p < i && Matches(src, p, i, 3)
      requires best <= REPEAT_MAX && i + best <= |src|
      ensures ok <==> Accepted(src, i, p, best)
      ensures best == 0 ==> ok
      ensures ok ==> length == CommonPrefix(src, p, i, 0) && length >= 3 && length >= best
      ensures !ok && Retained(|src|, i, p) ==> CommonPrefix(src, p, i, 0) < best
    {
      hide Matches, RingHolds, Retained, PrefixHash, Trigram, LZ77Dictionary.GetHash, CommonPrefix;
      length := if best == 0 then 3 else best;
      ok := true;
      if length > 3 {
        if GetHash(p, length) != GetHash(i, length) || src[p + 3..p + length] != src[i + 3..i + length] {
          ok := false;
          Rejected(src, i, p, length);
          return;
        }
        TailMatches(src, p, i, length);
        Passed(src, i, p, length);
      } else if length < 3 {
        ShorterMatches(src, p, i, 3, length);
      }
      PrefixFrom(src, p, i, length);
      while i + length < |src| && length < REPEAT_MAX && src[p + length] == src[i + length]
        invariant length <= REPEAT_MAX && i + length <= |src|
        invariant CommonPrefix(src, p, i, length) == CommonPrefix(src, p, i, 0)
        decreases REPEAT_MAX - length
      {
        PrefixStep(src, p, i, length);
        length := length + 1;
      }
      PrefixStep(src, p, i, length);
      PrefixFrom(src, p, i, 3);
    }

    lemma Rejected(src: ByteSeq, i: nat, p: nat, length: nat)
      requires Valid() && i < |src| && RingHolds(src, RingTop(|src|, i))
      requires LeftEdge(i) <= p < i && 3 < length <= REPEAT_MAX && i + length <= |src|
      requires GetHash(p, length) != GetHash(i, length) || src[p + 3..p + length] != src[i + 3..i + length]
      ensures !Accepted(src, i, p, length)
      ensures Retained(|src|, i, p) ==> CommonPrefix(src, p, i, 0) < length
    {
      hide GetHash, CommonPrefix, PrefixHash;
      if Matches(src, p, i, length) {
        FilterExact(src, i, p, length);
        SlicesEqual(src, p, i, length);
      } else {
        PrefixBelow(src, p, i, length);
      }
    }

    lemma Passed(src: ByteSeq, i: nat, p: nat, length: nat)
      requires Valid() && i < |src| && RingHolds(src, RingTop(|src|, i))
      requires LeftEdge(i) <= p < i && 3 < length <= REPEAT_MAX && Matches(src, p, i, length)
      requires GetHash(p, length) == GetHash(i, length)
      ensures Accepted(src, i, p, length)
    {
      hide GetHash, PrefixHash;
      FilterExact(src, i, p, length);
    }

    /** Walks a chain through the window for the longest match. */
    method LongestMatch(src: ByteSeq, i: nat, level: nat)
        returns (length: nat, pos: nat)
      requires Valid() && level < 4 && i < |src| && RingHolds(src, RingTop(|src|, i))
      requires left == LeftEdge(i) && Head(Trigram(src, i)) == ChainAt(src, Trigram(src, i), i)
      requires Window(src, Trigram(src, i), i, left) != []
      ensures Found(src, i, level, Window(src, Trigram(src, i), i, LeftEdge(i)), length, pos)
    {
      hide ChainAt, Window, CommonPrefix, Trigram, Retained, RingHolds, RingTop, Config, Matches, Accepted, Longest,
        Leads, Stops;
      var key := Trigram(src, i);
      ghost var w := Window(src, key, i, left);
      ghost var k: nat := i;
      var checked, maxCheck := 0, Config(level, 0);
      ConfigOrder(level);
      NothingVisited(src, i, w);
      length, pos := 0, 0;
      ghost var visited, best := 0, 0;
      var p := Head(key);
      while p.Node? && p.pos >= left
        invariant k <= i && p == ChainAt(src, key, k)
        invariant visited == checked <= |w| && w[visited..] == Window(src, key, k, left)
        invariant length == Longest(src, i, w, visited) < Config(level, 3) && maxCheck == Budget(level, length)
        invariant visited == 0 ==> length == 0
        invariant visited > 0 ==> best < visited && Leads(src, i, w, visited, best, length) && pos == w[best]
        invariant forall v | 0 < v <= visited :: !Stops(src, i, level, w, v)
        decreases k
      {
        ChainTop(src, key, k, left);
        assert w[visited] == p.pos;
        TrigramMatch(src, p.pos, i);
        var ok, matchLen := Compare(src, i, p.pos, length);
        LongestStep(src, i, level, w, visited);
        BestStep(src, i, w, visited, best, length, ok, matchLen);
        visited := visited + 1;
        if ok && matchLen > length {
          length, pos, best := matchLen, p.pos, visited - 1;
          if length >= Config(level, 3) {
            assert BestMatch(src, i, level, w, visited, best, length);
            return;
          } else if length >= Config(level, 2) {
            maxCheck := Config(level, 0) / 16;
          } else if length >= Config(level, 1) {
            maxCheck := Config(level, 0) / 4;
          }
        }
        checked := checked + 1;
        if checked >= maxCheck {
          assert BestMatch(src, i, level, w, visited, best, length);
          return;
        }
        k := p.pos;
        p := p.next;
      }
      ChainTop(src, key, k, left);
      assert BestMatch(src, i, level, w, visited, best, length);
    }

    /** The items for position i: a literal if the window has no candidate, else the longest match. */
    method NextToken(src: ByteSeq, i: nat, level: nat) returns (items: seq<LZ77Item>, skip: nat)
      requires Valid() && level < 4 && i < |src| && RingHolds(src, RingTop(|src|, i))
      requires left == LeftEdge(i) && ChainsHold(src, i)
      ensures exists token :: Emits(src, i, level, items, skip, token)
    {
      hide Emits, ChainAt, Window, Trigram, RingHolds, RingTop, Found;
      var key := Trigram(src, i);
      var head := Head(key);
      ChainTop(src, key, i, left);
      ghost var token;
      if head.Null? || head.pos < left {
        items, skip, token := [Literal(src[i])], 0, Lit(src[i]);
      } else {
        var length, pos := LongestMatch(src, i, level);
        FoundMatches(src, i, level, Window(src, key, i, left), length, pos);
        token := Copy(length, i - pos);
        items, skip := [Length(length), Distance(i - pos)], length - 1;
      }
      EmitsToken(src, i, level, items, skip, token);
    }

    /** Cuts src into items that reproduce it. */
    method Calc(src: ByteSeq, level: nat) returns (res: seq<LZ77Item>, ghost tokens: seq<Token>)
      requires Valid() && level < 4
      modifies this, hash
      ensures Valid() && res == Flatten(tokens) && Parsed(src, level, tokens)
    {
      hide Parse, Reproduces, TokenOk, RingHolds, ChainsHold, ChainAt, Trigram, RingTop;
      Reset();
      res, tokens := [], [];
      EmptyParse(src, level);
      if |src| <= SHORT_INPUT {
        res := Literals(src);
        tokens := LitTokens(src);
        return;
      }
      FillRing(src);
      EmptyChains(src);
      var i, skip := 0, 0;
      while i < |src|
        invariant Valid() && i + skip <= |src|
        invariant left == LeftEdge(if i == 0 then 0 else i - 1)
        invariant i < |src| ==> RingHolds(src, RingTop(|src|, i))
        invariant ChainsHold(src, i)
        invariant res == Flatten(tokens) && Reproduces(src, tokens, i + skip) && Parse(src, level, tokens, i + skip)
      {
        if i >= DICTIONARY_SIZE {
          left := i - DICTIONARY_SIZE;
        }
        if skip == 0 {
          var items;
          items, skip := NextToken(src, i, level);
          ghost var token :| Emits(src, i, level, items, skip, token);
          PushToken(src, tokens, i, level, token);
          FlattenSnoc(tokens, token);
          res, tokens := res + items, tokens + [token];
        } else {
          skip := skip - 1;
        }
        AdvanceRing(src, i);
        AddToChain(src, i);
        i := i + 1;
      }
    }

    lemma EmptyChains(src: ByteSeq)
      requires head3b == map[]
      ensures ChainsHold(src, 0)
    {
    }

    /** Short inputs become literals. */
    method Literals(src: ByteSeq) returns (res: seq<LZ77Item>)
      ensures res == Flatten(LitTokens(src)) && Reproduces(src, LitTokens(src), |src|)
    {
      hide Reproduces;
      res := [];
      EmptyParse(src, 0);
      assert LitTokens(src[..0]) == [];
      for i := 0 to |src|
        invariant res == Flatten(LitTokens(src[..i])) && Reproduces(src, LitTokens(src[..i]), i)
      {
        ghost var tokens := LitTokens(src[..i]);
        PushLiteral(src, tokens, i);
        FlattenSnoc(tokens, Lit(src[i]));
        assert LitTokens(src[..i + 1]) == tokens + [Lit(src[i])];
        res := res + [Literal(src[i])];
      }
      assert src[..|src|] == src;
    }

    /** Links position i in front of its chain. */
    method AddToChain(src: ByteSeq, i: nat)
      requires i < |src| && ChainsHold(src, i)
      modifies this`head3b
      ensures ChainsHold(src, i + 1)
    {
      hide Trigram, ChainAt;
      var key := Trigram(src, i);
      ChainNext(src, i);
      head3b := head3b[key := Node(Head(key), i)];
      forall k
        ensures Head(k) == ChainAt(src, k, i + 1)
      {
        assert old(Head(k)) == ChainAt(src, k, i);
      }
    }

    /** Puts the prefix hashes of the first positions into a cleared ring. */
    method FillRing(src: ByteSeq)
      requires Valid() && |src| > 0 && forall k | 0 <= k < HASH_BUFFER :: hash[k] == 0
      modifies hash
      ensures RingHolds(src, RingTop(|src|, 0))
    {
      hide PrefixHash;
      var i := 0;
      while i < |src| && i < REPEAT_MAX
        invariant 0 <= i <= |src| && i <= REPEAT_MAX
        invariant forall k | i <= k < HASH_BUFFER :: hash[k] == 0
        invariant forall j | 0 <= j < i :: hash[j % HASH_BUFFER] == PrefixHash(src, j)
      {
        RingStep(src, i);
        hash[i % HASH_BUFFER] := (hash[(i + HASH_BUFFER - 1) % HASH_BUFFER] * HASH_ROOT + src[i]) % WORD;
        i := i + 1;
      }
    }

    /** Moves the ring on by one position. */
    method AdvanceRing(src: ByteSeq, i: nat)
      requires Valid() && i < |src| && RingHolds(src, RingTop(|src|, i))
      modifies hash
      ensures i + 1 < |src| ==> RingHolds(src, RingTop(|src|, i + 1))
    {
      hide PrefixHash;
      var j := i + REPEAT_MAX;
      if j < |src| {
        RingStep(src, j);
        assert hash[(j - 1) % HASH_BUFFER] == PrefixHash(src, j - 1);
        hash[j % HASH_BUFFER] := (hash[(j - 1) % HASH_BUFFER] * HASH_ROOT + src[j]) % WORD;
        forall k | 0 <= k <= j && k + HASH_BUFFER > j
          ensures hash[k % HASH_BUFFER] == PrefixHash(src, k)
        {
          if k < j {
            RingSlots(k, j);
            assert old(hash[k % HASH_BUFFER]) == PrefixHash(src, k);
          }
        }
      }
    }
  }

  lemma EmptyParse(src: ByteSeq, level: nat)
    requires level < 4
    ensures Parse(src, level, [], 0) && Reproduces(src, [], 0)
  {
  }

  lemma NothingVisited(src: ByteSeq, i: nat, w: seq<nat>)
    requires i < |src| && forall j | 0 <= j < |w| :: w[j] < i
    ensures Longest(src, i, w, 0) == 0
  {
  }

  lemma LongestStep(src: ByteSeq, i: nat, level: nat, w: seq<nat>, v: nat)
    requires i < |src| && level < 4 && v < |w| && forall j | 0 <= j < |w| :: w[j] < i
    ensures var before, length := Longest(src, i, w, v), CommonPrefix(src, w[v], i, 0);
            var after := Longest(src, i, w, v + 1);
            && after == (if Accepted(src, i, w[v], before) && length > before then length else before)
            && (Stops(src, i, level, w, v + 1) <==> after >= Config(level, 3) || v + 1 >= Budget(level, after))
  {
    hide CommonPrefix, Accepted, Config;
  }

  /** One more candidate keeps the best match, or becomes it. */
  lemma BestStep(src: ByteSeq, i: nat, w: seq<nat>, v: nat, best: nat, length: nat, ok: bool, matchLen: nat)
    requires i < |src| && v < |w| && forall j | 0 <= j < |w| :: w[j] < i
    requires if v > 0 then Leads(src, i, w, v, best, length) else length == 0 && ok
    requires ok ==> matchLen == CommonPrefix(src, w[v], i, 0) >= 3 && matchLen >= length
    requires !ok && Retained(|src|, i, w[v]) ==> CommonPrefix(src, w[v], i, 0) < length
    ensures if ok && matchLen > length then Leads(src, i, w, v + 1, v, matchLen)
            else Leads(src, i, w, v + 1, best, length)
  {
    hide CommonPrefix, Retained;
  }

  /** A token that obeys TokenOk extends what the tokens reproduce. */
  lemma ExtendReproduction(src: ByteSeq, tokens: seq<Token>, i: nat, level: nat, t: Token)
    requires i < |src| && level < 4 && TokenOk(src, i, level, t) && Reproduces(src, tokens, i)
    ensures i + TokenLength(t) <= |src| && TokenLength(t) > 0
    ensures Reproduces(src, tokens + [t], i + TokenLength(t))
  {
    hide Reproduces, Trigram, Found;
    var w := Window(src, Trigram(src, i), i, LeftEdge(i));
    hide Window;
    match t
    case Lit(_) => PushLiteral(src, tokens, i);
    case Copy(length, distance) =>
      FoundMatches(src, i, level, w, length, i - distance);
      PushCopy(src, tokens, i, i - distance, length);
  }

  lemma FoundMatches(src: ByteSeq, i: nat, level: nat, w: seq<nat>, length: nat, pos: nat)
    requires i < |src| && level < 4 && (forall j | 0 <= j < |w| :: w[j] < i)
    requires Found(src, i, level, w, length, pos)
    ensures pos in w && pos < i && 3 <= length <= REPEAT_MAX && Matches(src, pos, i, length)
  {
    hide CommonPrefix, Retained, Config, Budget, Stops, Longest;
    var visited: nat, best: nat :| BestMatch(src, i, level, w, visited, best, length) && pos == w[best];
    assert Matches(src, pos, i, 0);
    PrefixMatches(src, pos, i, 0);
  }

  lemma PushToken(src: ByteSeq, tokens: seq<Token>, i: nat, level: nat, t: Token)
    requires i < |src| && level < 4 && TokenOk(src, i, level, t)
    requires Parse(src, level, tokens, i) && Reproduces(src, tokens, i)
    ensures i + TokenLength(t) <= |src|
    ensures Parse(src, level, tokens + [t], i + TokenLength(t))
    ensures Reproduces(src, tokens + [t], i + TokenLength(t))
  {
    hide Reproduces, TokenOk;
    assert (tokens + [t])[..|tokens|] == tokens;
    ExtendReproduction(src, tokens, i, level, t);
  }

  lemma SameSlot(pos: nat)
    requires pos > 0
    ensures (pos + HASH_BUFFER - 1) % HASH_BUFFER == (pos - 1) % HASH_BUFFER
  {
  }

  /** Positions less than a ring apart have different slots. */
  lemma RingSlots(k: nat, j: nat)
    requires k < j < k + HASH_BUFFER
    ensures k % HASH_BUFFER != j % HASH_BUFFER
  {
  }

  lemma RingStep(src: ByteSeq, j: nat)
    requires j < |src|
    ensures PrefixHash(src, j) == ((if j > 0 then PrefixHash(src, j - 1) else 0) * HASH_ROOT + src[j]) % WORD
  {
    if j > 0 {
      NextPrefix(src, j);
    } else {
      assert Poly(src, 1) == Poly(src, 0) * HASH_ROOT + src[0];
    }
  }

  lemma ConfigOrder(level: nat)
    requires level < 4
    ensures Config(level, 1) <= Config(level, 2)
  {
  }

  lemma TailMatches(src: ByteSeq, p: nat, i: nat, k: nat)
    requires p < i && 3 <= k && i + k <= |src| && Matches(src, p, i, 3)
    requires src[p + 3..p + k] == src[i + 3..i + k]
    ensures Matches(src, p, i, k)
  {
    forall j | p + 3 <= j < p + k
      ensures src[j] == src[j + (i - p)]
    {
      assert src[p + 3..p + k][j - p - 3] == src[i + 3..i + k][j - p - 3];
    }
  }

  /** Bytes that match byte by byte are equal as ranges. */
  lemma MatchIsEqual(src: ByteSeq, p: nat, i: nat, k: nat)
    requires p < i && Matches(src, p, i, k)
    ensures src[p..p + k] == src[i..i + k]
  {
    var a, b := src[p..p + k], src[i..i + k];
    forall j | 0 <= j < |a|
      ensures a[j] == b[j]
    {
      assert src[p + j] == src[p + j + (i - p)];
    }
  }

  lemma SlicesEqual(src: ByteSeq, p: nat, i: nat, k: nat)
    requires p < i && 3 <= k && Matches(src, p, i, k)
    ensures src[p + 3..p + k] == src[i + 3..i + k]
  {
    MatchIsEqual(src, p, i, k);
    assert src[p + 3..p + k] == src[p..p + k][3..] && src[i + 3..i + k] == src[i..i + k][3..];
  }

  lemma ShorterMatches(src: ByteSeq, p: nat, i: nat, k: nat, m: nat)
    requires p < i && m <= k && Matches(src, p, i, k)
    ensures Matches(src, p, i, m)
  {
  }

  lemma PrefixBound(src: ByteSeq, j: nat)
    requires j < |src|
    ensures PrefixHash(src, j) < WORD
  {
  }

  lemma SameRange(src: ByteSeq, p: nat, i: nat, n: nat)
    requires p + n <= |src| && i + n <= |src| && src[p..p + n] == src[i..i + n]
    ensures RangeHash(src, p, n) == RangeHash(src, i, n)
  {
  }

  // ---- when a copy is found, in numbers

  /** A literal means that none of the 32768 positions before shares three bytes. */
  lemma LiteralExact(src: ByteSeq, i: nat, level: nat, t: Token)
    requires i < |src| && level < 4 && TokenOk(src, i, level, t)
    ensures t.Lit? <==> forall p: nat | i - 32768 <= p < i :: !Matches(src, p, i, 3)
    ensures t.Copy? ==> 1 <= t.distance <= 32768 && t.distance <= i && Matches(src, i - t.distance, i, t.length)
  {
    hide Trigram, Window, Found;
    var key, left := Trigram(src, i), LeftEdge(i);
    var w := Window(src, key, i, left);
    CopyNeedsWindow(src, i, level, t);
    if w != [] {
      TrigramMatch(src, w[0], i);
    } else {
      forall p: nat | i - 32768 <= p < i
        ensures !Matches(src, p, i, 3)
      {
        if Matches(src, p, i, 3) {
          MatchTrigram(src, p, i);
          WindowComplete(src, key, i, left, p);
        }
      }
    }
    if t.Copy? {
      FoundMatches(src, i, level, w, t.length, i - t.distance);
    }
  }

  lemma MatchTrigram(src: ByteSeq, p: nat, i: nat)
    requires p < i && Matches(src, p, i, 3)
    ensures Trigram(src, p) == Trigram(src, i)
  {
    assert src[p] == src[p + (i - p)] && src[p + 1] == src[p + 1 + (i - p)] && src[p + 2] == src[p + 2 + (i - p)];
  }

  // ---- when a search stops, in numbers

  /** At level 0 a match of 16 ends the search; otherwise 64 candidates are visited, 16 once the match is at least 4
      long, and 4 once it is at least 8. */
  lemma StopsAtLevel0(src: ByteSeq, i: nat, w: seq<nat>, visited: nat, best: nat, length: nat)
    requires i < |src| && (forall j | 0 <= j < |w| :: w[j] < i)
    requires BestMatch(src, i, 0, w, visited, best, length)
    ensures visited < |w| ==> length >= 16 || visited >= (if length >= 8 then 4 else if length >= 4 then 16 else 64)
    ensures forall v | 0 < v < visited ::
              var k := Longest(src, i, w, v);
              k < 16 && v < (if k >= 8 then 4 else if k >= 4 then 16 else 64)
  {
    hide Longest, CommonPrefix, Retained;
    forall v: nat | 0 < v < visited
      ensures var k := Longest(src, i, w, v);
              k < 16 && v < (if k >= 8 then 4 else if k >= 4 then 16 else 64)
    {
      assert !Stops(src, i, 0, w, v);
    }
  }

  /** At level 1 a match of 128 ends it; the limits are 128 candidates, 32 from length 8, and 8 from length 16. */
  lemma StopsAtLevel1(src: ByteSeq, i: nat, w: seq<nat>, visited: nat, best: nat, length: nat)
    requires i < |src| && (forall j | 0 <= j < |w| :: w[j] < i)
    requires BestMatch(src, i, 1, w, visited, best, length)
    ensures visited < |w| ==> length >= 128 || visited >= (if length >= 16 then 8 else if length >= 8 then 32 else 128)
    ensures forall v | 0 < v < visited ::
              var k := Longest(src, i, w, v);
              k < 128 && v < (if k >= 16 then 8 else if k >= 8 then 32 else 128)
  {
    hide Longest, CommonPrefix, Retained;
    forall v: nat | 0 < v < visited
      ensures var k := Longest(src, i, w, v);
              k < 128 && v < (if k >= 16 then 8 else if k >= 8 then 32 else 128)
    {
      assert !Stops(src, i, 1, w, v);
    }
  }

  /** At level 2 a match of 258 ends it; the limits are 512 candidates, 128 from length 16, and 32 from length 128. */
  lemma StopsAtLevel2(src: ByteSeq, i: nat, w: seq<nat>, visited: nat, best: nat, length: nat)
    requires i < |src| && (forall j | 0 <= j < |w| :: w[j] < i)
    requires BestMatch(src, i, 2, w, visited, best, length)
    ensures visited < |w| ==>
              length >= 258 || visited >= (if length >= 128 then 32 else if length >= 16 then 128 else 512)
    ensures forall v | 0 < v < visited ::
              var k := Longest(src, i, w, v);
              k < 258 && v < (if k >= 128 then 32 else if k >= 16 then 128 else 512)
  {
    hide Longest, CommonPrefix, Retained;
    forall v: nat | 0 < v < visited
      ensures var k := Longest(src, i, w, v);
              k < 258 && v < (if k >= 128 then 32 else if k >= 16 then 128 else 512)
    {
      assert !Stops(src, i, 2, w, v);
    }
  }

  /** At level 3 a match of 258 ends it; the limit is 4096 candidates. */
  lemma StopsAtLevel3(src: ByteSeq, i: nat, w: seq<nat>, visited: nat, best: nat, length: nat)
    requires i < |src| && (forall j | 0 <= j < |w| :: w[j] < i)
    requires BestMatch(src, i, 3, w, visited, best, length)
    ensures visited < |w| ==> length >= 258 || visited >= 4096
    ensures forall v | 0 < v < visited ::
              var k := Longest(src, i, w, v);
              k < 258 && v < 4096
  {
    hide Longest, CommonPrefix, Retained;
    forall v: nat | 0 < v < visited
      ensures var k := Longest(src, i, w, v);
              k < 258 && v < 4096
    {
      assert !Stops(src, i, 3, w, v);
    }
  }

  /** Inputs of at most 10 bytes are sent as literals, longer ones are parsed. */
  lemma ParsedLength(src: ByteSeq, level: nat, tokens: seq<Token>)
    requires level < 4 && Parsed(src, level, tokens)
    ensures |src| > 10 ==> Parse(src, level, tokens, |src|)
    ensures |src| <= 10 ==> |tokens| == |src| && forall k | 0 <= k < |src| :: tokens[k] == Lit(src[k])
  {
    hide Parse, Reproduces;
  }

  // ---- uniqueness

  /** The window, and so the search, leaves no choice of a match. */
  lemma FoundUnique(src: ByteSeq, i: nat, level: nat, key: int, a: nat, p: nat, b: nat, q: nat)
    requires i < |src| && level < 4
    requires Found(src, i, level, Window(src, key, i, LeftEdge(i)), a, p)
    requires Found(src, i, level, Window(src, key, i, LeftEdge(i)), b, q)
    ensures a == b && p == q
  {
    var w := Window(src, key, i, LeftEdge(i));
    hide Window, CommonPrefix, Longest, Stops;
    var v: nat, x: nat :| BestMatch(src, i, level, w, v, x, a) && p == w[x];
    var u: nat, y: nat :| BestMatch(src, i, level, w, u, y, b) && q == w[y];
    assert v > 0 && u > 0;
    assert v == u;
    forall j | 0 <= j < |w| - 1
      ensures Retained(|src|, i, w[j])
    {
      assert w[|w| - 1] < w[j];
      RetainedUpTo(|src|, i, w[j]);
    }
    hide Retained;
    assert x == y;
  }

  lemma TokenUnique(src: ByteSeq, i: nat, level: nat, t: Token, u: Token)
    requires i < |src| && level < 4 && TokenOk(src, i, level, t) && TokenOk(src, i, level, u)
    ensures t == u
  {
    var w := Window(src, Trigram(src, i), i, LeftEdge(i));
    CopyNeedsWindow(src, i, level, t);
    CopyNeedsWindow(src, i, level, u);
    hide Window, Found;
    if t.Copy? && u.Copy? {
      FoundUnique(src, i, level, Trigram(src, i), t.length, i - t.distance, u.length, i - u.distance);
    }
  }

  lemma CopyNeedsWindow(src: ByteSeq, i: nat, level: nat, t: Token)
    requires i < |src| && level < 4 && TokenOk(src, i, level, t)
    ensures t.Lit? <==> Window(src, Trigram(src, i), i, LeftEdge(i)) == []
  {
    var w := Window(src, Trigram(src, i), i, LeftEdge(i));
    hide Window, Trigram, Found;
    if t.Copy? {
      FoundMatches(src, i, level, w, t.length, i - t.distance);
    }
  }

  /** A parse is fixed up to its end: of two, the shorter one is a prefix of the longer one and ends earlier. */
  lemma {:induction false} ParsesNested(src: ByteSeq, level: nat, a: seq<Token>, e: nat, b: seq<Token>, f: nat)
    requires level < 4 && |a| <= |b| && Parse(src, level, a, e) && Parse(src, level, b, f)
    ensures a == b[..|a|]
    ensures if |a| == |b| then e == f else e < f
    decreases |b|
  {
    hide TokenOk;
    if b != [] {
      var n := |b| - 1;
      var u := b[n];
      if |a| < |b| {
        ParsesNested(src, level, a, e, b[..n], f - TokenLength(u));
      } else {
        var t := a[n];
        ParsesNested(src, level, a[..n], e - TokenLength(t), b[..n], f - TokenLength(u));
        TokenUnique(src, e - TokenLength(t), level, t, u);
        assert a == a[..n] + [t] && b == b[..n] + [u];
      }
    }
  }

  /** The input and the level fix the tokens. */
  lemma ParsedUnique(src: ByteSeq, level: nat, a: seq<Token>, b: seq<Token>)
    requires level < 4 && Parsed(src, level, a) && Parsed(src, level, b)
    ensures a == b
  {
    hide Parse, Reproduces, LitTokens;
    if |src| > SHORT_INPUT {
      if |a| <= |b| {
        ParsesNested(src, level, a, |src|, b, |src|);
      } else {
        ParsesNested(src, level, b, |src|, a, |src|);
      }
    }
  }
}
