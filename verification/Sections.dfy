/** The cut of the input into sections and blocks by compress/deflate.cpp: where they start, that they tile the
    input, how many there are, and which block is marked last. */
module Sections {
  import opened Words
  import opened Options
  import opened Inflate
  import opened Stream
  import opened BlockChoice

  const DEFLATE_BLOCK_SIZE := 1048576

  // ---- the cut into blocks

  /** The end of the block that starts at p of a section of n bytes. */
  function BlockEnd(p: nat, n: nat): (q: nat)
    requires p < n
    ensures p < q <= n
  {
    var q := if p + DEFLATE_BLOCK_SIZE <= n then p + DEFLATE_BLOCK_SIZE else n;
    if n - q < DEFLATE_BLOCK_SIZE then n else q
  }

  /** Blocks before the last have the block size; the last has less than two of them, and no less than one
      unless it is the only one. */
  ghost predicate Sized(blks: seq<Blk>) {
    forall k | 0 <= k < |blks| ::
      if k < |blks| - 1 then |blks[k].data| == DEFLATE_BLOCK_SIZE
      else 1 <= |blks[k].data| < 2 * DEFLATE_BLOCK_SIZE && (k > 0 ==> |blks[k].data| >= DEFLATE_BLOCK_SIZE)
  }

  /** What a worker makes of its section. */
  ghost predicate SectionDone(blks: seq<Blk>, section: ByteSeq, lastSection: bool) {
    && BlksOk(blks, 0)
    && SectionData(blks) == section
    && Marked(blks, lastSection)
    && Sized(blks)
  }

  lemma {:induction false} BlksSnoc(blks: seq<Blk>, b: Blk, offset: nat)
    requires BlksOk(blks, offset) && BlkOk(b, offset + |SectionBits(blks)|)
    ensures BlksOk(blks + [b], offset)
    ensures SectionBits(blks + [b]) == SectionBits(blks) + b.bits
    ensures SectionData(blks + [b]) == SectionData(blks) + b.data
    decreases |blks|
  {
    hide BlkOk;
    if blks == [] {
      assert [] + [b] == [b];
      assert SectionBits([b]) == b.bits + SectionBits([]);
      assert SectionData([b]) == b.data + SectionData([]);
    } else {
      assert (blks + [b])[1..] == blks[1..] + [b];
      BlksSnoc(blks[1..], b, offset + |blks[0].bits|);
      Regroup(blks[0].bits, SectionBits(blks[1..]), b.bits);
      Regroup(blks[0].data, SectionData(blks[1..]), b.data);
    }
  }

  // ---- the sections

  /** How many threads run, and how many blocks each section has. */
  function ThreadCount(n: nat, threads: nat): (t: nat)
    requires n > 0 && threads >= 1
    ensures 1 <= t <= threads
  {
    var blocks := (n + DEFLATE_BLOCK_SIZE - 1) / DEFLATE_BLOCK_SIZE;
    if blocks < threads then blocks else threads
  }

  function EachCount(n: nat, threads: nat): (e: nat)
    requires n > 0 && threads >= 1
    ensures e >= 1
  {
    var blocks := (n + DEFLATE_BLOCK_SIZE - 1) / DEFLATE_BLOCK_SIZE;
    EachPositive(blocks, ThreadCount(n, threads));
    (blocks + ThreadCount(n, threads) - 1) / ThreadCount(n, threads)
  }

  lemma EachPositive(blocks: nat, t: nat)
    requires blocks >= 1 && t >= 1
    ensures (blocks + t - 1) / t >= 1
  {
    var x, q := blocks + t - 1, (blocks + t - 1) / t;
    assert x == q * t + x % t;
    assert q * t > 0;
    PositiveFactor(q, t);
  }

  lemma PositiveFactor(q: int, t: nat)
    requires q * t > 0
    ensures q > 0
  {
  }

  /** Where section i starts. */
  function SectionStart(n: nat, threads: nat, i: nat): (p: nat)
    requires n > 0 && threads >= 1
    ensures p <= n
  {
    var p := i * (EachCount(n, threads) * DEFLATE_BLOCK_SIZE);
    if p < n then p else n
  }

  lemma SectionNext(n: nat, threads: nat, i: nat)
    requires n > 0 && threads >= 1
    ensures var p, size := SectionStart(n, threads, i), EachCount(n, threads) * DEFLATE_BLOCK_SIZE;
            SectionStart(n, threads, i + 1) == (if p + size < n then p + size else n)
    ensures SectionStart(n, threads, i) <= SectionStart(n, threads, i + 1)
  {
    hide EachCount;
    var size := EachCount(n, threads) * DEFLATE_BLOCK_SIZE;
    assert (i + 1) * size == i * size + size;
  }

  /** The sections reach the end of the input. */
  lemma SectionsCover(n: nat, threads: nat)
    requires n > 0 && threads >= 1
    ensures SectionStart(n, threads, ThreadCount(n, threads)) == n
  {
    var blocks := (n + DEFLATE_BLOCK_SIZE - 1) / DEFLATE_BLOCK_SIZE;
    var t, e := ThreadCount(n, threads), EachCount(n, threads);
    CeilingCovers(blocks, t);
    assert t * e >= blocks;
    assert t * (e * DEFLATE_BLOCK_SIZE) == (t * e) * DEFLATE_BLOCK_SIZE;
    assert (t * e) * DEFLATE_BLOCK_SIZE >= blocks * DEFLATE_BLOCK_SIZE >= n;
  }

  lemma CeilingCovers(blocks: nat, t: nat)
    requires t >= 1
    ensures t * ((blocks + t - 1) / t) >= blocks
  {
    var x := blocks + t - 1;
    assert x == t * (x / t) + x % t;
  }

  // ---- the whole input

  /** One finished section for each thread; together they tile src in order. */
  ghost predicate PlanOk(plan: seq<seq<Blk>>, src: ByteSeq, threads: nat)
    requires src != [] && threads >= 1
  {
    && |plan| == ThreadCount(|src|, threads)
    && forall i | 0 <= i < |plan| :: SectionOk(plan[i], src, threads, i)
  }

  ghost predicate SectionOk(blks: seq<Blk>, src: ByteSeq, threads: nat, i: nat)
    requires src != [] && threads >= 1
  {
    var p, q := SectionStart(|src|, threads, i), SectionStart(|src|, threads, i + 1);
    p <= q && SectionDone(blks, src[p..q], q == |src|)
  }

  lemma {:induction false} DataUpTo(plan: seq<seq<Blk>>, src: ByteSeq, threads: nat, i: nat)
    requires src != [] && threads >= 1 && PlanOk(plan, src, threads) && i <= |plan|
    ensures StreamData(plan[i..]) == src[SectionStart(|src|, threads, i)..]
    decreases |plan| - i
  {
    hide SectionStart, ThreadCount;
    if i == |plan| {
      SectionsCover(|src|, threads);
    } else {
      var p, q := SectionStart(|src|, threads, i), SectionStart(|src|, threads, i + 1);
      DataUpTo(plan, src, threads, i + 1);
      assert SectionOk(plan[i], src, threads, i);
      SectionFacts(plan[i], src[p..q], q == |src|);
      assert plan[i..][1..] == plan[i + 1..];
      assert src[p..] == src[p..q] + src[q..];
    }
  }

  lemma SectionFacts(blks: seq<Blk>, section: ByteSeq, lastSection: bool)
    requires SectionDone(blks, section, lastSection)
    ensures BlksOk(blks, 0) && SectionData(blks) == section && Marked(blks, lastSection)
    ensures blks == [] <==> section == []
  {
    hide BlkOk;
    if blks != [] {
      BlkNotEmpty(blks[0], 0);
    }
  }

  /** The blocks of all sections carry the input in order. */
  lemma PlanData(plan: seq<seq<Blk>>, src: ByteSeq, threads: nat)
    requires src != [] && threads >= 1 && PlanOk(plan, src, threads)
    ensures StreamData(plan) == src
  {
    DataUpTo(plan, src, threads, 0);
    assert plan[0..] == plan && src[0..] == src;
  }

  /** The first section that reaches the end of the input. */
  lemma {:induction false} FirstLast(n: nat, threads: nat, k: nat) returns (f: nat)
    requires n > 0 && threads >= 1 && k > 0 && SectionStart(n, threads, k) == n
    ensures f < k && SectionStart(n, threads, f) < n && SectionStart(n, threads, f + 1) == n
    decreases k
  {
    if SectionStart(n, threads, k - 1) == n {
      assert k - 1 > 0;
      f := FirstLast(n, threads, k - 1);
    } else {
      f := k - 1;
    }
  }

  lemma {:induction false} StaysAtEnd(n: nat, threads: nat, i: nat, j: nat)
    requires n > 0 && threads >= 1 && i <= j && SectionStart(n, threads, i) == n
    ensures SectionStart(n, threads, j) == n
    decreases j
  {
    if i < j {
      StaysAtEnd(n, threads, i, j - 1);
      SectionNext(n, threads, j - 1);
    }
  }

  /** Only section f ends the input with a block: sections after it are empty, those before it are not flagged. */
  lemma SectionRole(blks: seq<Blk>, src: ByteSeq, threads: nat, f: nat, i: nat)
    requires src != [] && threads >= 1 && SectionOk(blks, src, threads, i)
    requires SectionStart(|src|, threads, f) < |src| && SectionStart(|src|, threads, f + 1) == |src|
    ensures Marked(blks, i >= f) && BlksOk(blks, 0)
    ensures i > f ==> blks == []
    ensures i == f ==> blks != []
  {
    hide SectionStart, Marked, BlksOk, SectionDone;
    var n := |src|;
    var p, q := SectionStart(n, threads, i), SectionStart(n, threads, i + 1);
    SectionFacts(blks, src[p..q], q == n);
    if i >= f {
      StaysAtEnd(n, threads, f + 1, i + 1);
      if i > f {
        StaysAtEnd(n, threads, f + 1, i);
      }
    } else if q == n {
      StaysAtEnd(n, threads, i + 1, f);
    }
  }

  /** Exactly one block of the joined stream is marked last, though trailing threads may get nothing. */
  lemma PlanMarks(plan: seq<seq<Blk>>, src: ByteSeq, threads: nat)
    requires src != [] && threads >= 1 && PlanOk(plan, src, threads)
    ensures OnlyLast(Place(0, plan))
    ensures forall i | 0 <= i < |plan| :: BlksOk(plan[i], 0)
  {
    hide SectionStart, ThreadCount, Marked, BlksOk, SectionOk, Place, OnlyLast;
    SectionsCover(|src|, threads);
    var f := FirstLast(|src|, threads, |plan|);
    forall i | 0 <= i < |plan|
      ensures Marked(plan[i], i >= f) && BlksOk(plan[i], 0)
      ensures i > f ==> plan[i] == []
      ensures i == f ==> plan[i] != []
    {
      SectionRole(plan[i], src, threads, f, i);
    }
    PlacedMarks(0, plan, f);
  }

  ghost predicate AllChosen(s: Settings, plan: seq<seq<Blk>>)
    requires s.level < 4
  {
    forall i, k | 0 <= i < |plan| && 0 <= k < |plan[i]| :: Chosen(s, plan[i][k])
  }

  lemma FirstStart(n: nat, threads: nat)
    requires n > 0 && threads >= 1
    ensures SectionStart(n, threads, 0) == 0
  {
  }

  // ---- inputs of one block

  lemma OneBlock(blks: seq<Blk>)
    requires blks != [] && Sized(blks) && |SectionData(blks)| < 2 * DEFLATE_BLOCK_SIZE
    ensures |blks| == 1
  {
    if |blks| >= 2 {
      TwoBlocks(blks);
    }
  }

  lemma TwoBlocks(blks: seq<Blk>)
    requires |blks| >= 2
    ensures |SectionData(blks)| >= |blks[0].data| + |blks[1].data|
  {
    var rest := blks[1..];
    assert SectionData(blks) == blks[0].data + (rest[0].data + SectionData(rest[1..]));
  }

  lemma OnlySection(blks: seq<Blk>, src: ByteSeq, threads: nat)
    requires src != [] && threads >= 1 && SectionOk(blks, src, threads, 0) && ThreadCount(|src|, threads) == 1
    requires |src| < 2 * DEFLATE_BLOCK_SIZE
    ensures |blks| == 1 && blks[1..] == []
  {
    hide SectionDone;
    FirstStart(|src|, threads);
    SectionsCover(|src|, threads);
    assert src[0..|src|] == src;
    SectionFacts(blks, src, true);
    SectionSizes(blks, src);
    OneBlock(blks);
  }

  lemma SectionSizes(blks: seq<Blk>, section: ByteSeq)
    requires SectionDone(blks, section, true)
    ensures Sized(blks)
  {
  }

  // ---- how many blocks

  /** Every block but the one marked last has the block size; that one has less than two of them. */
  ghost predicate FullBlocks(ps: seq<Placed>) {
    forall k | 0 <= k < |ps| :: FullBlk(ps[k].blk)
  }

  ghost predicate FullButLast(blks: seq<Blk>) {
    forall k | 0 <= k < |blks| :: FullBlk(blks[k])
  }

  ghost predicate FullBlk(b: Blk) {
    |b.data| < 2 * DEFLATE_BLOCK_SIZE && (!b.last ==> |b.data| == DEFLATE_BLOCK_SIZE)
  }

  lemma {:induction false} SizedTotal(blks: seq<Blk>)
    requires blks != [] && forall k | 0 <= k < |blks| - 1 :: |blks[k].data| == DEFLATE_BLOCK_SIZE
    ensures |SectionData(blks)| == (|blks| - 1) * DEFLATE_BLOCK_SIZE + |blks[|blks| - 1].data|
  {
    assert SectionData(blks) == blks[0].data + SectionData(blks[1..]);
    if |blks| > 1 {
      SizedTotal(blks[1..]);
    }
  }

  /** A section that does not end the input is a whole number of full blocks. */
  lemma SectionFull(blks: seq<Blk>, src: ByteSeq, threads: nat, i: nat)
    requires src != [] && threads >= 1 && SectionOk(blks, src, threads, i)
    ensures FullButLast(blks)
  {
    hide BlksOk, SectionStart, EachCount;
    var p, q := SectionStart(|src|, threads, i), SectionStart(|src|, threads, i + 1);
    if blks != [] && q < |src| {
      SizedTotal(blks);
      InnerSection(|src|, threads, i);
      OnlyMultiple(|blks[|blks| - 1].data|, |blks| - 1, q - p);
    }
  }

  lemma InnerSection(n: nat, threads: nat, i: nat)
    requires n > 0 && threads >= 1 && SectionStart(n, threads, i + 1) < n
    ensures SectionStart(n, threads, i + 1) - SectionStart(n, threads, i) == EachCount(n, threads) * DEFLATE_BLOCK_SIZE
  {
    hide EachCount;
    SectionNext(n, threads, i);
  }

  /** A last block below two block sizes that completes a multiple of the block size is one block size. */
  lemma OnlyMultiple(last: nat, full: nat, total: int)
    requires 1 <= last < 2 * DEFLATE_BLOCK_SIZE && total == full * DEFLATE_BLOCK_SIZE + last
    requires total % DEFLATE_BLOCK_SIZE == 0
    ensures last == DEFLATE_BLOCK_SIZE
  {
  }

  lemma {:induction false} PlacedFull(base: nat, secs: seq<seq<Blk>>)
    requires forall i | 0 <= i < |secs| :: FullButLast(secs[i])
    ensures FullBlocks(Place(base, secs))
    decreases |secs|
  {
    if secs != [] {
      var a, b := PlaceBlks(base, 0, secs[0]), Place(base + |SectionBits(secs[0])|, secs[1..]);
      PlacedAt(base, 0, secs[0]);
      PlacedFull(base + |SectionBits(secs[0])|, secs[1..]);
      assert FullButLast(secs[0]);
      var all: seq<Placed> := a + b;
      assert forall k | 0 <= k < |all| :: all[k] == if k < |a| then a[k] else b[k - |a|];
    }
  }

  lemma PlanFull(plan: seq<seq<Blk>>, src: ByteSeq, threads: nat)
    requires src != [] && threads >= 1 && PlanOk(plan, src, threads)
    ensures FullBlocks(Place(0, plan))
  {
    hide FullButLast, FullBlocks, SectionOk, ThreadCount;
    forall i | 0 <= i < |plan|
      ensures FullButLast(plan[i])
    {
      SectionFull(plan[i], src, threads, i);
    }
    PlacedFull(0, plan);
  }

  lemma {:induction false} RunCount(ps: seq<Placed>, pos: nat)
    requires OnlyLast(ps) && FullBlocks(ps) && Chained(ps, pos)
    ensures (|ps| - 1) * DEFLATE_BLOCK_SIZE < |RunData(ps)|
    decreases |ps|
  {
    hide BlkOk;
    BlkNotEmpty(ps[0].blk, ps[0].offset);
    var rest := ps[1..];
    assert forall k | 0 <= k < |rest| :: rest[k] == ps[k + 1];
    if rest != [] {
      RunCount(rest, pos + |ps[0].blk.bits|);
    }
  }

  /** There are no more blocks than the input has block sizes, begun ones included. */
  lemma BlockCount(plan: seq<seq<Blk>>, src: ByteSeq, threads: nat)
    requires src != [] && threads >= 1 && PlanOk(plan, src, threads)
    ensures 1 <= |Place(0, plan)| <= (|src| + DEFLATE_BLOCK_SIZE - 1) / DEFLATE_BLOCK_SIZE
  {
    hide PlanOk, FullBlocks, Chained, Place;
    PlanMarks(plan, src, threads);
    PlanFull(plan, src, threads);
    PlacedSections(0, plan);
    PlanData(plan, src, threads);
    RunCount(Place(0, plan), 0);
    CountBound(|Place(0, plan)|, |src|);
  }

  lemma CountBound(count: nat, n: nat)
    requires (count - 1) * DEFLATE_BLOCK_SIZE < n
    ensures count <= (n + DEFLATE_BLOCK_SIZE - 1) / DEFLATE_BLOCK_SIZE
  {
  }

  // ---- the cut in numbers

  /** As many threads as were asked for, but no more than the input has begun blocks of 1048576 bytes. */
  lemma PlanThreads(plan: seq<seq<Blk>>, src: ByteSeq, threads: nat)
    requires src != [] && threads >= 1 && PlanOk(plan, src, threads)
    ensures 1 <= |plan| <= threads && (|plan| - 1) * 1048576 < |src|
    ensures |plan| < threads ==> |src| <= |plan| * 1048576
  {
    hide SectionOk;
    var blocks := (|src| + DEFLATE_BLOCK_SIZE - 1) / DEFLATE_BLOCK_SIZE;
    assert (blocks - 1) * DEFLATE_BLOCK_SIZE < |src| <= blocks * DEFLATE_BLOCK_SIZE;
    FewerBlocks(|plan|, blocks);
  }

  lemma FewerBlocks(t: nat, blocks: nat)
    requires t <= blocks
    ensures (t - 1) * 1048576 <= (blocks - 1) * 1048576
  {
  }

  /** All sections have one size, but where the input ends; it is the least multiple of 1048576 bytes with which
      they reach that end. */
  lemma PlanSections(plan: seq<seq<Blk>>, src: ByteSeq, threads: nat) returns (size: nat)
    requires src != [] && threads >= 1 && PlanOk(plan, src, threads)
    ensures size > 0 && size % 1048576 == 0
    ensures |plan| * (size - 1048576) < |src| <= |plan| * size
    ensures forall i | 0 <= i < |plan| ::
              |SectionData(plan[i])| == if (i + 1) * size <= |src| then size
                                        else if i * size < |src| then |src| - i * size else 0
  {
    hide SectionDone, EachCount, ThreadCount;
    var n := |src|;
    var t, e := ThreadCount(n, threads), EachCount(n, threads);
    size := e * DEFLATE_BLOCK_SIZE;
    LeastMultiple(n, threads);
    forall i | 0 <= i < |plan|
      ensures |SectionData(plan[i])| == if (i + 1) * size <= n then size else if i * size < n then n - i * size else 0
    {
      assert (i + 1) * size == i * size + size;
      assert SectionOk(plan[i], src, threads, i);
      var p, q := SectionStart(n, threads, i), SectionStart(n, threads, i + 1);
      SectionFacts(plan[i], src[p..q], q == n);
    }
  }

  lemma LeastMultiple(n: nat, threads: nat)
    requires n > 0 && threads >= 1
    ensures var t, size := ThreadCount(n, threads), EachCount(n, threads) * DEFLATE_BLOCK_SIZE;
            size % 1048576 == 0 && t * (size - 1048576) < n <= t * size
  {
    var blocks := (n + DEFLATE_BLOCK_SIZE - 1) / DEFLATE_BLOCK_SIZE;
    var t, e := ThreadCount(n, threads), EachCount(n, threads);
    CeilingCovers(blocks, t);
    CeilingLeast(blocks, t);
    Scaled(t, e);
    Scaled(t, e - 1);
    assert (blocks - 1) * DEFLATE_BLOCK_SIZE < n <= blocks * DEFLATE_BLOCK_SIZE;
    assert t * (e - 1) <= blocks - 1;
    ScaledOrder(t * (e - 1), blocks - 1);
    ScaledOrder(blocks, t * e);
  }

  lemma CeilingLeast(blocks: nat, t: nat)
    requires t >= 1 && blocks >= 1
    ensures t * ((blocks + t - 1) / t - 1) < blocks
  {
    var x := blocks + t - 1;
    assert x == t * (x / t) + x % t;
    assert t * (x / t - 1) == t * (x / t) - t;
  }

  lemma Scaled(t: nat, e: int)
    ensures t * (e * 1048576) == (t * e) * 1048576
  {
  }

  lemma ScaledOrder(a: int, b: int)
    requires a <= b
    ensures a * 1048576 <= b * 1048576
  {
  }

  /** A section is cut into blocks of 1048576 bytes, of which the last takes what is left. */
  lemma SectionBlocks(blks: seq<Blk>, section: ByteSeq, lastSection: bool)
    requires SectionDone(blks, section, lastSection) && section != []
    ensures |blks| == if |section| < 1048576 then 1 else |section| / 1048576
    ensures forall k | 0 <= k < |blks| - 1 :: |blks[k].data| == 1048576
  {
    hide BlkOk, BlksOk;
    SectionFacts(blks, section, lastSection);
    SizedTotal(blks);
  }

  // ---- uniqueness

  lemma SizedTail(blks: seq<Blk>, lastSection: bool)
    requires blks != [] && Sized(blks) && Marked(blks, lastSection)
    ensures Sized(blks[1..]) && Marked(blks[1..], lastSection)
    ensures blks[0].last <==> (lastSection && |blks| == 1)
    ensures |blks| > 1 <==> |SectionData(blks)| >= 2 * DEFLATE_BLOCK_SIZE
    ensures |blks[0].data| == if |blks| > 1 then DEFLATE_BLOCK_SIZE else |SectionData(blks)|
  {
    var rest := blks[1..];
    assert forall k | 0 <= k < |rest| :: rest[k] == blks[k + 1];
    if |blks| > 1 {
      TwoBlocks(blks);
    } else {
      assert SectionData(blks) == blks[0].data + SectionData([]);
    }
  }

  /** A section's data and mark fix its blocks. */
  lemma {:induction false} BlksUnique(s: Settings, a: seq<Blk>, b: seq<Blk>, offset: nat, lastSection: bool)
    requires s.level < 4 && BlksOk(a, offset) && BlksOk(b, offset)
    requires forall k | 0 <= k < |a| :: Chosen(s, a[k])
    requires forall k | 0 <= k < |b| :: Chosen(s, b[k])
    requires Sized(a) && Sized(b) && Marked(a, lastSection) && Marked(b, lastSection)
    requires SectionData(a) == SectionData(b)
    ensures a == b
    decreases |a|
  {
    hide Chosen, BlkOk, Sized, Marked;
    assert a != [] ==> SectionData(a) != [] by { SomeData(a, offset); }
    assert b != [] ==> SectionData(b) != [] by { SomeData(b, offset); }
    if a != [] {
      SizedTail(a, lastSection);
      SizedTail(b, lastSection);
      assert a[0].data == SectionData(a)[..|a[0].data|] == SectionData(b)[..|b[0].data|] == b[0].data;
      BlockUnique(s, a[0], b[0], offset);
      assert SectionData(a[1..]) == SectionData(a)[|a[0].data|..];
      assert SectionData(b[1..]) == SectionData(b)[|b[0].data|..];
      BlksUnique(s, a[1..], b[1..], offset + |a[0].bits|, lastSection);
      assert a == [a[0]] + a[1..] && b == [b[0]] + b[1..];
    }
  }

  lemma SomeData(blks: seq<Blk>, offset: nat)
    requires BlksOk(blks, offset)
    ensures blks != [] ==> SectionData(blks) != []
  {
    hide BlkOk;
    if blks != [] {
      BlkNotEmpty(blks[0], offset);
    }
  }

  /** The input, the thread count and the settings fix every block of every section. */
  lemma PlanUnique(s: Settings, a: seq<seq<Blk>>, b: seq<seq<Blk>>, src: ByteSeq, threads: nat)
    requires s.level < 4 && src != [] && threads >= 1
    requires PlanOk(a, src, threads) && AllChosen(s, a) && PlanOk(b, src, threads) && AllChosen(s, b)
    ensures a == b
  {
    hide Chosen, BlksOk, Sized, Marked, SectionStart, ThreadCount;
    forall i | 0 <= i < |a|
      ensures a[i] == b[i]
    {
      assert SectionOk(a[i], src, threads, i) && SectionOk(b[i], src, threads, i);
      BlksUnique(s, a[i], b[i], 0, SectionStart(|src|, threads, i + 1) == |src|);
    }
  }
}
