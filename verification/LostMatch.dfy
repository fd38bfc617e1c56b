/** An input in which the hash filter passes over a match: the search visits the earlier position at distance
    32768, where 258 bytes match, and takes a nearer match of four bytes, because the prefix hash before that
    position is no longer in the ring. */
module LostMatch {
  import opened Words
  import opened Options
  import opened Inflate
  import opened Items
  import opened RollingHash
  import opened Lz77

  const NEAR := 259
  const HERE := 32769

  /** Each byte up to 255 once, three more, 1, 2, 3, 4, 9 at NEAR, zero bytes, and at HERE what is at 1. */
  function Source(): (src: ByteSeq)
    ensures |src| == HERE + REPEAT_MAX
    ensures forall j | 0 <= j < |src| :: src[j] == ByteAt(j)
  {
    seq(HERE + REPEAT_MAX, j requires 0 <= j < HERE + REPEAT_MAX => ByteAt(j))
  }

  function ByteAt(j: nat): Byte
    requires j < HERE + REPEAT_MAX
  {
    if j < HERE then Earlier(j) else Earlier(j - HERE + 1)
  }

  function Earlier(j: nat): Byte {
    if j <= 255 then j
    else if j < NEAR then 2 * (j - 255)
    else if j < NEAR + 4 then j - NEAR + 1
    else if j == NEAR + 4 then 9
    else 0
  }

  // ---- the hash before position 1 and its replacement differ

  /** The first k bytes have an odd hash. */
  predicate OddHash(src: ByteSeq, k: nat)
    requires k <= |src|
  {
    Poly(src, k) % 2 == 1
  }

  /** The root is odd, so each odd byte changes the parity. */
  lemma OddStep(src: ByteSeq, k: nat)
    requires k < |src|
    ensures OddHash(src, k + 1) <==> (OddHash(src, k) != (src[k] % 2 == 1))
  {
    var x := Poly(src, k);
    assert x * HASH_ROOT == 2 * (x * 6666) + x;
  }

  lemma {:induction false} ZerosKeepParity(src: ByteSeq, a: nat, b: nat)
    requires a <= b <= |src| && forall j | a <= j < b :: src[j] == 0
    ensures OddHash(src, b) == OddHash(src, a)
    decreases b
  {
    hide OddHash;
    if a < b {
      ZerosKeepParity(src, a, b - 1);
      OddStep(src, b - 1);
    }
  }

  /** Equal bytes change the parity in the same way. */
  lemma {:induction false} SameParity(src: ByteSeq, a: nat, b: nat, n: nat)
    requires a <= b && b + n <= |src| && forall j | a <= j < a + n :: src[j] == src[j + (b - a)]
    ensures (OddHash(src, a + n) == OddHash(src, a)) == (OddHash(src, b + n) == OddHash(src, b))
  {
    hide OddHash;
    if n > 0 {
      SameParity(src, a, b, n - 1);
      assert src[a + n - 1] == src[a + n - 1 + (b - a)];
      OddStep(src, a + n - 1);
      OddStep(src, b + n - 1);
    }
  }

  lemma NearParity(src: ByteSeq)
    requires NEAR + 5 <= |src| && src[NEAR..NEAR + 5] == [1, 2, 3, 4, 9]
    ensures OddHash(src, NEAR + 5) != OddHash(src, NEAR)
  {
    hide OddHash;
    var five := src[NEAR..NEAR + 5];
    assert five[0] == src[NEAR] && five[1] == src[NEAR + 1] && five[2] == src[NEAR + 2] && five[3] == src[NEAR + 3];
    assert five[4] == src[NEAR + 4];
    OddStep(src, NEAR);
    OddStep(src, NEAR + 1);
    OddStep(src, NEAR + 2);
    OddStep(src, NEAR + 3);
    OddStep(src, NEAR + 4);
  }

  lemma OddTotal()
    ensures OddHash(Source(), HERE + REPEAT_MAX)
  {
    hide OddHash, Source;
    var src := Source();
    NoBytes(src);
    ZerosKeepParity(src, 0, 1);
    NearParity(src);
    ZerosKeepParity(src, NEAR + 5, HERE);
    SameParity(src, 1, HERE, REPEAT_MAX);
  }

  lemma NoBytes(src: ByteSeq)
    ensures !OddHash(src, 0)
  {
  }

  lemma ReducedParity(x: nat)
    ensures (x % WORD) % 2 == x % 2
  {
    assert x == 2 * (x / WORD * (WORD / 2)) + x % WORD;
  }

  lemma HashesDiffer()
    ensures PrefixHash(Source(), 0) != PrefixHash(Source(), HERE + REPEAT_MAX - 1)
  {
    var src := Source();
    assert Poly(src, 1) == Poly(src, 0) * HASH_ROOT + src[0] == 0;
    hide Poly, Source;
    OddTotal();
    ReducedParity(Poly(src, HERE + REPEAT_MAX));
  }

  // ---- the candidates

  lemma Prefixes()
    ensures Matches(Source(), 1, HERE, REPEAT_MAX) && CommonPrefix(Source(), 1, HERE, 0) == REPEAT_MAX
    ensures Matches(Source(), NEAR, HERE, 4) && CommonPrefix(Source(), NEAR, HERE, 0) == 4
  {
    var src := Source();
    PrefixFrom(src, 1, HERE, REPEAT_MAX);
    PrefixFrom(src, NEAR, HERE, 4);
  }

  ghost function Candidates(): seq<nat> {
    Window(Source(), Trigram(Source(), HERE), HERE, LeftEdge(HERE))
  }

  lemma TwoCandidates()
    ensures Candidates() == [NEAR, 1]
  {
    hide Window, Trigram;
    var src := Source();
    var key, w := Trigram(src, HERE), Candidates();
    assert Trigram(src, 1) == key && Trigram(src, NEAR) == key by { SameTrigrams(); }
    WindowComplete(src, key, HERE, 1, 1);
    WindowComplete(src, key, HERE, 1, NEAR);
    forall j | 0 <= j < |w|
      ensures w[j] == 1 || w[j] == NEAR
    {
      TrigramMatch(src, w[j], HERE);
      assert src[w[j]] == src[w[j] + (HERE - w[j])];
    }
    OnlyTwo(w);
  }

  lemma SameTrigrams()
    ensures var src := Source();
            Trigram(src, 1) == Trigram(src, HERE) && Trigram(src, NEAR) == Trigram(src, HERE)
  {
  }

  lemma OnlyTwo(w: seq<nat>)
    requires 1 in w && NEAR in w && (forall j | 0 <= j < |w| :: w[j] == 1 || w[j] == NEAR)
    requires forall i, j | 0 <= i < j < |w| :: w[j] < w[i]
    ensures w == [NEAR, 1]
  {
    var x, y :| 0 <= x < |w| && 0 <= y < |w| && w[x] == NEAR && w[y] == 1;
    assert x < y;
    assert w[0] == NEAR && w[1] == 1;
    Drops(w, |w| - 1);
  }

  lemma {:induction false} Drops(w: seq<nat>, k: nat)
    requires 1 <= k < |w| && forall i, j | 0 <= i < j < |w| :: w[j] < w[i]
    ensures w[k] <= w[1] - (k - 1)
  {
    if k > 1 {
      Drops(w, k - 1);
    }
  }

  // ---- the search

  lemma FarRejected()
    ensures !Accepted(Source(), HERE, 1, 4)
  {
    hide PrefixHash;
    HashesDiffer();
    RetainedUpTo(|Source()|, HERE, 1);
  }

  lemma NearLongest()
    ensures Candidates() == [NEAR, 1]
    ensures Longest(Source(), HERE, Candidates(), 1) == 4 && Longest(Source(), HERE, Candidates(), 2) == 4
  {
    hide CommonPrefix, PrefixHash;
    var src, w := Source(), [NEAR, 1];
    TwoCandidates();
    Prefixes();
    FarRejected();
    assert Longest(src, HERE, w, 0) == 0;
    assert Accepted(src, HERE, NEAR, 0);
    assert Longest(src, HERE, w, 1) == 4;
  }

  /** Both candidates are visited, and the first of them is taken. */
  lemma BothVisited(level: nat, visited: nat, best: nat, length: nat)
    requires level < 4 && BestMatch(Source(), HERE, level, Candidates(), visited, best, length)
    ensures visited == 2 && best == 0 && length == 4
  {
    hide CommonPrefix, Longest, Accepted, Window, Source;
    NearLongest();
    Prefixes();
  }

  /** At every level the token at HERE is a copy of four bytes, though 258 match at a distance in the window. */
  lemma MatchPassedOver(level: nat, t: Token)
    requires level < 4 && TokenOk(Source(), HERE, level, t)
    ensures t == Copy(4, HERE - NEAR)
    ensures HERE - 1 == DICTIONARY_SIZE && CommonPrefix(Source(), 1, HERE, 0) == REPEAT_MAX
  {
    hide CommonPrefix, Longest, Stops, Window, Source, PrefixHash, Trigram;
    var src, w := Source(), Candidates();
    NearLongest();
    Prefixes();
    CopyNeedsWindow(src, HERE, level, t);
    var visited: nat, best: nat :| BestMatch(src, HERE, level, w, visited, best, t.length)
                                && HERE - t.distance == w[best];
    BothVisited(level, visited, best, t.length);
  }

  // ---- the parse up to HERE

  /** Where a token can end, up to HERE. */
  ghost predicate Boundary(e: nat) {
    || e <= NEAR
    || e == NEAR + 4 || e == NEAR + 5
    || (NEAR + 6 <= e < HERE && (e - (NEAR + 6)) % REPEAT_MAX == 0)
    || e >= HERE
  }

  /** Each byte of the start and the pattern's end comes with bytes it has not come with before. */
  lemma NoEarlier(i: nat, p: nat)
    requires p < i && (i < NEAR || i == NEAR + 4 || i == NEAR + 5)
    ensures Trigram(Source(), p) != Trigram(Source(), i)
  {
    hide Trigram, Source;
    var src := Source();
    PairsDiffer(i, p);
    if Trigram(src, p) == Trigram(src, i) {
      TrigramMatch(src, p, i);
    }
  }

  lemma PairsDiffer(i: nat, p: nat)
    requires p < i && (i < NEAR || i == NEAR + 4 || i == NEAR + 5)
    ensures Source()[p] != Source()[i] || Source()[p + 1] != Source()[i + 1]
  {
  }

  lemma Alone(i: nat, level: nat, t: Token)
    requires level < 4 && (i < NEAR || i == NEAR + 4 || i == NEAR + 5) && TokenOk(Source(), i, level, t)
    ensures TokenLength(t) == 1
  {
    hide Trigram, Source, Window;
    var src := Source();
    var w := Window(src, Trigram(src, i), i, LeftEdge(i));
    CopyNeedsWindow(src, i, level, t);
    if w != [] {
      NoEarlier(i, w[0]);
    }
  }

  lemma AtNear(level: nat, t: Token)
    requires level < 4 && TokenOk(Source(), NEAR, level, t)
    ensures TokenLength(t) == 4
  {
    hide Trigram, CommonPrefix, Longest, Stops, Window, Accepted;
    var src := Source();
    var w := Window(src, Trigram(src, NEAR), NEAR, 0);
    assert Trigram(src, 1) == Trigram(src, NEAR) by { TrigramOfEqual(src, 1, NEAR); }
    WindowComplete(src, Trigram(src, NEAR), NEAR, 0, 1);
    CopyNeedsWindow(src, NEAR, level, t);
    var visited: nat, best: nat :| BestMatch(src, NEAR, level, w, visited, best, t.length)
                                && NEAR - t.distance == w[best];
    TrigramMatch(src, w[best], NEAR);
    assert src[w[best]] == src[w[best] + (NEAR - w[best])];
    PrefixFrom(src, 1, NEAR, 4);
    FourOnly();
  }

  lemma FourOnly()
    ensures CommonPrefix(Source(), 1, NEAR, 4) == 4
  {
  }

  /** In the zero bytes all earlier zero bytes match equally far, up to HERE at most. */
  lemma AtZero(i: nat, level: nat, t: Token)
    requires NEAR + 6 <= i && i + 2 < HERE && level < 4 && TokenOk(Source(), i, level, t)
    ensures TokenLength(t) == if HERE - i < REPEAT_MAX then HERE - i else REPEAT_MAX
  {
    hide Trigram, CommonPrefix, Longest, Stops, Window, Accepted;
    var src := Source();
    var key, left := Trigram(src, i), LeftEdge(i);
    var w := Window(src, key, i, left);
    TrigramOfEqual(src, i - 1, i);
    WindowComplete(src, key, i, left, i - 1);
    CopyNeedsWindow(src, i, level, t);
    var visited: nat, best: nat :| BestMatch(src, i, level, w, visited, best, t.length) && i - t.distance == w[best];
    TrigramMatch(src, w[best], i);
    assert src[w[best]] == src[w[best] + (i - w[best])] && src[w[best] + 1] == src[w[best] + 1 + (i - w[best])];
    ZerosMatch(w[best], i, 0);
  }

  lemma {:induction false} ZerosMatch(p: nat, i: nat, k: nat)
    requires NEAR + 5 <= p < i <= i + k <= HERE && k <= REPEAT_MAX
    ensures CommonPrefix(Source(), p, i, k) == if HERE - i < REPEAT_MAX then HERE - i else REPEAT_MAX
    decreases REPEAT_MAX - k
  {
    hide Source;
    if i + k < HERE && k < REPEAT_MAX {
      ZerosMatch(p, i, k + 1);
    }
  }

  lemma BoundaryStep(i: nat, level: nat, t: Token)
    requires i < HERE && Boundary(i) && level < 4 && TokenOk(Source(), i, level, t)
    ensures Boundary(i + TokenLength(t)) && i + TokenLength(t) <= HERE
  {
    hide TokenOk, Source;
    if i < NEAR || i == NEAR + 4 || i == NEAR + 5 {
      Alone(i, level, t);
    } else if i == NEAR {
      AtNear(level, t);
    } else {
      AtZero(i, level, t);
    }
  }

  lemma {:induction false} Boundaries(tokens: seq<Token>, end: nat, level: nat)
    requires level < 4 && Parse(Source(), level, tokens, end)
    ensures Boundary(end)
    ensures end > HERE ==> exists k: nat :: k < |tokens| && Parse(Source(), level, tokens[..k], HERE)
    decreases |tokens|
  {
    hide TokenOk, Source;
    if tokens != [] {
      var n := |tokens| - 1;
      var front, i := tokens[..n], end - TokenLength(tokens[n]);
      Boundaries(front, i, level);
      if i < HERE {
        BoundaryStep(i, level, tokens[n]);
      } else if i == HERE {
        assert n < |tokens| && Parse(Source(), level, tokens[..n], HERE);
      } else {
        var k: nat :| k < |front| && Parse(Source(), level, front[..k], HERE);
        assert front[..k] == tokens[..k];
      }
    }
  }

  /** At every level the parse has a token at HERE, and it is the copy of four bytes. */
  lemma TokenAtHere(level: nat, tokens: seq<Token>) returns (k: nat)
    requires level < 4 && Parsed(Source(), level, tokens)
    ensures k < |tokens| && Parse(Source(), level, tokens[..k], HERE) && tokens[k] == Copy(4, HERE - NEAR)
  {
    hide Parse, Source, Reproduces, TokenOk;
    Boundaries(tokens, HERE + REPEAT_MAX, level);
    k :| k < |tokens| && Parse(Source(), level, tokens[..k], HERE);
    NextToken(tokens, HERE + REPEAT_MAX, level, k);
    MatchPassedOver(level, tokens[k]);
  }

  lemma {:induction false} NextToken(tokens: seq<Token>, end: nat, level: nat, k: nat)
    requires level < 4 && k < |tokens| && Parse(Source(), level, tokens, end)
    requires Parse(Source(), level, tokens[..k], HERE)
    ensures TokenOk(Source(), HERE, level, tokens[k])
    decreases |tokens|
  {
    hide TokenOk, Source;
    var n := |tokens| - 1;
    var front, i := tokens[..n], end - TokenLength(tokens[n]);
    if k < n {
      assert front[..k] == tokens[..k];
      NextToken(front, i, level, k);
    } else {
      ParsesNested(Source(), level, front, i, tokens[..k], HERE);
    }
  }

  /** LZ77 run on the input. */
  method RunSource(level: nat) returns (items: seq<LZ77Item>, ghost tokens: seq<Token>, ghost k: nat)
    requires level < 4
    ensures items == Flatten(tokens) && Parsed(Source(), level, tokens)
    ensures k < |tokens| && Parse(Source(), level, tokens[..k], HERE) && tokens[k] == Copy(4, HERE - NEAR)
  {
    hide Parsed, Parse, Source;
    var dict := new LZ77Dictionary();
    items, tokens := dict.Calc(Source(), level);
    k := TokenAtHere(level, tokens);
  }
}
