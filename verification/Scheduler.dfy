/** The worker threads of compress/deflate.cpp. Each worker owns a stream and a dictionary and encodes its
    section block by block. A schedule lists which worker the system runs next, one block at a time; joining
    a thread lets its worker finish. Whatever the schedule, the streams hold the same finished sections. */
module Scheduler {
  import opened Words
  import opened Options
  import opened BitStreams
  import opened Inflate
  import opened Lz77
  import opened Stream
  import opened BlockChoice
  import opened Sections

  /** A worker is never left with less than a block, except at the start. */
  predicate AtBlock(n: nat, pos: nat) {
    pos <= n && (pos == 0 || pos == n || n - pos >= DEFLATE_BLOCK_SIZE)
  }

  /** How many blocks a worker has still to encode. */
  function StepsLeft(n: nat, pos: nat): (k: nat)
    requires pos <= n
    ensures k == 0 <==> pos == n
    decreases n - pos
  {
    if pos == n then 0 else 1 + StepsLeft(n, BlockEnd(pos, n))
  }

  /** A worker needs a turn for each 1048576 bytes of its section, or one if there are fewer. */
  lemma {:induction false} TurnsNeeded(n: nat, pos: nat)
    requires pos < n
    ensures StepsLeft(n, pos) == if n - pos < 1048576 then 1 else (n - pos) / 1048576
    decreases n - pos
  {
    var q := BlockEnd(pos, n);
    if q < n {
      TurnsNeeded(n, q);
    }
  }

  /** How often a schedule picks worker k. */
  function Turns(schedule: seq<nat>, k: nat): nat {
    if schedule == [] then 0
    else Turns(schedule[..|schedule| - 1], k) + (if schedule[|schedule| - 1] == k then 1 else 0)
  }

  /** The blocks so far: full ones, the last of them marked if they complete the last section. */
  ghost predicate CutUpTo(blks: seq<Blk>, n: nat, last: bool, pos: nat) {
    && AtBlock(n, pos)
    && (pos < n ==> pos == |blks| * DEFLATE_BLOCK_SIZE
                    && forall k | 0 <= k < |blks| :: |blks[k].data| == DEFLATE_BLOCK_SIZE)
    && (pos == n ==> Sized(blks))
    && forall k | 0 <= k < |blks| :: blks[k].last <==> (last && pos == n && k == |blks| - 1)
  }

  lemma NothingCut(n: nat, last: bool)
    ensures CutUpTo([], n, last, 0) && BlksOk([], 0)
  {
  }

  lemma CutStep(blks: seq<Blk>, n: nat, last: bool, pos: nat, b: Blk)
    requires pos < n && CutUpTo(blks, n, last, pos)
    requires |b.data| == BlockEnd(pos, n) - pos && b.last == (BlockEnd(pos, n) == n && last)
    ensures CutUpTo(blks + [b], n, last, BlockEnd(pos, n))
  {
  }

  lemma CutDone(blks: seq<Blk>, n: nat, last: bool)
    requires CutUpTo(blks, n, last, n)
    ensures Sized(blks) && Marked(blks, last)
  {
  }

  class Worker {
    const settings: Settings
    const section: ByteSeq
    const last: bool
    const bs: BitStream
    const dict: LZ77Dictionary
    var pos: nat              // p of the thread's loop
    ghost var blks: seq<Blk>  // what has been written

    ghost function Repr(): set<object> {
      {this, bs, dict, dict.hash}
    }

    ghost predicate Valid()
      reads Repr()
    {
      && Usable(settings) && bs.Valid() && dict.Valid()
      && pos <= |section| && CutUpTo(blks, |section|, last, pos)
      && BlksOk(blks, 0) && bs.Content() == SectionBits(blks) && SectionData(blks) == section[..pos]
      && forall k | 0 <= k < |blks| :: Chosen(settings, blks[k])
    }

    constructor (settings: Settings, section: ByteSeq, last: bool)
      requires Usable(settings)
      ensures Valid() && fresh(Repr()) && pos == 0
      ensures this.settings == settings && this.section == section && this.last == last
    {
      hide Usable, CutUpTo, BlksOk, BitStream.Valid, BitStream.Content, LZ77Dictionary.Valid;
      this.settings, this.section, this.last := settings, section, last;
      bs := new BitStream(8 * |section|);
      dict := new LZ77Dictionary();
      pos, blks := 0, [];
      new;
      NothingCut(|section|, last);
      assert section[..0] == [];
    }

    /** Encodes the next block, if there is one. */
    method Step()
      requires Valid()
      modifies Repr()
      ensures Valid()
      ensures pos == if old(pos) == |section| then old(pos) else BlockEnd(old(pos), |section|)
    {
      hide CutUpTo, BlksOk, BlkOk, BlockEnd, Chosen, BitStream.Valid, BitStream.Content, LZ77Dictionary.Valid, Usable;
      if pos < |section| {
        var q := BlockEnd(pos, |section|);
        ghost var before := bs.Content();
        ghost var b := EncodeBlock(bs, dict, section[pos..q], settings, q == |section| && last);
        BlksSnoc(blks, b, 0);
        CutStep(blks, |section|, last, pos, b);
        assert section[..pos] + section[pos..q] == section[..q];
        blks := blks + [b];
        pos := q;
      }
    }

    /** Runs the worker to the end of its section. */
    method Finish()
      requires Valid()
      modifies Repr()
      ensures Valid() && pos == |section|
      ensures SectionDone(blks, section, last)
    {
      hide Valid, SectionDone, BlockEnd;
      InSection(this);
      while pos < |section|
        invariant Valid() && pos <= |section|
        decreases |section| - pos
      {
        Step();
      }
      Finished(this);
    }
  }

  lemma InSection(w: Worker)
    requires w.Valid()
    ensures w.pos <= |w.section|
  {
    hide CutUpTo, BlksOk, Chosen;
  }

  lemma Finished(w: Worker)
    requires w.Valid() && w.pos == |w.section|
    ensures SectionDone(w.blks, w.section, w.last) && w.bs.Content() == SectionBits(w.blks)
  {
    hide BlksOk, Chosen;
    CutDone(w.blks, |w.section|, w.last);
    assert w.section[..w.pos] == w.section;
  }

  // ---- all workers

  ghost function AllRepr(ws: seq<Worker>): set<object> {
    set w, o | w in ws && o in w.Repr() :: o
  }

  ghost predicate Disjoint(ws: seq<Worker>) {
    forall i, j | 0 <= i < j < |ws| :: ws[i].Repr() !! ws[j].Repr()
  }

  /** The workers are intact. */
  ghost predicate AllValid(ws: seq<Worker>)
    reads AllRepr(ws)
  {
    forall i | 0 <= i < |ws| :: ws[i].Valid()
  }

  /** Gives worker i a turn; the others stay as they are. */
  method StepOne(ws: seq<Worker>, i: nat)
    requires i < |ws| && Disjoint(ws) && AllValid(ws)
    modifies ws[i].Repr()
    ensures AllValid(ws)
    ensures forall k | 0 <= k < |ws| && k != i :: ws[k].pos == old(ws[k].pos) && ws[k].blks == old(ws[k].blks)
    ensures ws[i].pos == if old(ws[i].pos) == |ws[i].section| then old(ws[i].pos)
                         else BlockEnd(old(ws[i].pos), |ws[i].section|)
  {
    hide Worker.Valid, BlockEnd;
    InSection(ws[i]);
    ws[i].Step();
  }

  /** Runs the workers in the order of a schedule; numbers that are no worker are skipped. A worker that gets
      a turn for each of its blocks is finished, whatever the others did. */
  method RunSchedule(ws: seq<Worker>, schedule: seq<nat>)
    requires Disjoint(ws) && AllValid(ws)
    modifies AllRepr(ws)
    ensures AllValid(ws)
    ensures forall k | 0 <= k < |ws| && Turns(schedule, k) >= old(Left(ws[k])) :: ws[k].pos == |ws[k].section|
  {
    hide Worker.Valid, BlockEnd, AllValid, Turns, StepsLeft, Worker.Repr, Disjoint;
    NoTurns(schedule[..0]);
    for t := 0 to |schedule|
      invariant AllValid(ws)
      invariant forall k | 0 <= k < |ws| ::
                  Left(ws[k]) == 0 || Left(ws[k]) + Turns(schedule[..t], k) <= old(Left(ws[k]))
    {
      var i := schedule[t];
      TurnsSnoc(schedule, t);
      if i < |ws| {
        AllInSection(ws);
        if ws[i].pos < |ws[i].section| {
          LeftStep(|ws[i].section|, ws[i].pos);
        }
        StepOne(ws, i);
      }
    }
    assert schedule[..|schedule|] == schedule;
    AllInSection(ws);
    forall k | 0 <= k < |ws| && Turns(schedule, k) >= old(Left(ws[k]))
      ensures ws[k].pos == |ws[k].section|
    {
      LeftNone(ws[k]);
    }
  }

  /** How many blocks a worker has still to encode. */
  ghost function Left(w: Worker): nat
    reads w
  {
    if w.pos <= |w.section| then StepsLeft(|w.section|, w.pos) else 0
  }

  lemma NoTurns(schedule: seq<nat>)
    requires schedule == []
    ensures forall k :: Turns(schedule, k) == 0
  {
  }

  lemma TurnsSnoc(schedule: seq<nat>, t: nat)
    requires t < |schedule|
    ensures forall k ::
              Turns(schedule[..t + 1], k) == Turns(schedule[..t], k) + (if schedule[t] == k then 1 else 0)
  {
    assert schedule[..t + 1][..t] == schedule[..t];
  }

  lemma LeftStep(n: nat, pos: nat)
    requires pos < n
    ensures StepsLeft(n, pos) == 1 + StepsLeft(n, BlockEnd(pos, n))
  {
  }

  lemma LeftNone(w: Worker)
    requires w.pos <= |w.section|
    ensures Left(w) == 0 <==> w.pos == |w.section|
  {
  }

  lemma AllInSection(ws: seq<Worker>)
    requires AllValid(ws)
    ensures forall k | 0 <= k < |ws| :: ws[k].pos <= |ws[k].section|
  {
    hide Worker.Valid;
    forall k | 0 <= k < |ws|
      ensures ws[k].pos <= |ws[k].section|
    {
      InSection(ws[k]);
    }
  }

  /** A fair schedule, with a turn for each block of each worker, finishes every section by itself. */
  method RunFair(ws: seq<Worker>, schedule: seq<nat>)
    requires Disjoint(ws) && AllValid(ws) && forall k | 0 <= k < |ws| :: Turns(schedule, k) >= Left(ws[k])
    modifies AllRepr(ws)
    ensures AllValid(ws)
    ensures forall k | 0 <= k < |ws| :: SectionDone(ws[k].blks, ws[k].section, ws[k].last)
  {
    hide Worker.Valid, AllValid, Turns, SectionDone, Worker.Repr, Disjoint, Left;
    RunSchedule(ws, schedule);
    AllFinished(ws);
  }

  /** Joins the threads in order: each worker runs to the end of its section. */
  method JoinAll(ws: seq<Worker>)
    requires Disjoint(ws) && AllValid(ws)
    modifies AllRepr(ws)
    ensures AllValid(ws) && forall k | 0 <= k < |ws| :: ws[k].pos == |ws[k].section|
  {
    hide Worker.Valid, AllValid, Worker.Repr, Disjoint;
    for i := 0 to |ws|
      invariant AllValid(ws) && forall k | 0 <= k < i :: ws[k].pos == |ws[k].section|
    {
      JoinOne(ws, i);
    }
  }

  method JoinOne(ws: seq<Worker>, i: nat)
    requires i < |ws| && Disjoint(ws) && AllValid(ws)
    modifies ws[i].Repr()
    ensures AllValid(ws) && ws[i].pos == |ws[i].section|
    ensures forall k | 0 <= k < |ws| && k != i :: ws[k].pos == old(ws[k].pos) && ws[k].blks == old(ws[k].blks)
  {
    hide Worker.Valid;
    ws[i].Finish();
  }

  // ---- the threads of one input

  /** The workers stand for the sections of src. */
  ghost predicate ForSections(ws: seq<Worker>, settings: Settings, src: ByteSeq, threads: nat)
    requires src != [] && threads >= 1
  {
    |ws| <= ThreadCount(|src|, threads) && forall k | 0 <= k < |ws| :: ForSection(ws[k], settings, src, threads, k)
  }

  ghost predicate ForSection(w: Worker, settings: Settings, src: ByteSeq, threads: nat, k: nat)
    requires src != [] && threads >= 1
  {
    var p, q := SectionStart(|src|, threads, k), SectionStart(|src|, threads, k + 1);
    p <= q && w.settings == settings && w.section == src[p..q] && w.last == (q == |src|)
  }

  /** One worker for each section. */
  method StartWorkers(settings: Settings, src: ByteSeq, threads: nat) returns (ws: seq<Worker>)
    requires Usable(settings) && src != [] && threads >= 1
    ensures |ws| == ThreadCount(|src|, threads) && ForSections(ws, settings, src, threads)
    ensures Disjoint(ws) && AllValid(ws) && fresh(AllRepr(ws))
  {
    hide Usable, Worker.Valid, SectionStart, ThreadCount, EachCount;
    var n := |src|;
    var t, size := ThreadCount(n, threads), EachCount(n, threads) * DEFLATE_BLOCK_SIZE;
    ws := [];
    var p := 0;
    assert SectionStart(n, threads, 0) == 0 by { FirstStart(n, threads); }
    for i := 0 to t
      invariant |ws| == i && p == SectionStart(n, threads, i) && p <= n
      invariant forall k | 0 <= k < i :: ForSection(ws[k], settings, src, threads, k)
      invariant Disjoint(ws) && AllValid(ws) && forall k | 0 <= k < i :: fresh(ws[k].Repr())
    {
      SectionNext(n, threads, i);
      var q := if p + size < n then p + size else n;
      var w := new Worker(settings, src[p..q], q == n);
      ws := ws + [w];
      p := q;
    }
  }

  /** What all workers have written. */
  ghost function Written(ws: seq<Worker>): (plan: seq<seq<Blk>>)
    reads ws
    ensures |plan| == |ws| && forall k | 0 <= k < |ws| :: plan[k] == ws[k].blks
  {
    if ws == [] then [] else Written(ws[..|ws| - 1]) + [ws[|ws| - 1].blks]
  }

  /** The workers' streams. */
  method Streams(ws: seq<Worker>) returns (bss: seq<BitStream>)
    ensures |bss| == |ws| && forall k | 0 <= k < |ws| :: bss[k] == ws[k].bs && bss[k] in AllRepr(ws)
  {
    bss := [];
    for i := 0 to |ws|
      invariant |bss| == i && forall k | 0 <= k < i :: bss[k] == ws[k].bs
    {
      bss := bss + [ws[i].bs];
    }
    forall k | 0 <= k < |ws|
      ensures ws[k].bs in AllRepr(ws)
    {
      assert ws[k] in ws && ws[k].bs in ws[k].Repr();
    }
  }

  /** Finished workers have written a plan of the input. */
  lemma WrittenPlan(ws: seq<Worker>, settings: Settings, src: ByteSeq, threads: nat)
    requires src != [] && threads >= 1 && settings.level < 4
    requires |ws| == ThreadCount(|src|, threads) && ForSections(ws, settings, src, threads)
    requires AllValid(ws) && forall k | 0 <= k < |ws| :: ws[k].pos == |ws[k].section|
    ensures PlanOk(Written(ws), src, threads) && AllChosen(settings, Written(ws))
    ensures forall k | 0 <= k < |ws| :: ws[k].bs.Valid() && ws[k].bs.Content() == SectionBits(Written(ws)[k])
  {
    hide Worker.Valid, SectionStart, ThreadCount, SectionDone, Chosen, Written;
    forall k | 0 <= k < |ws|
      ensures SectionOk(ws[k].blks, src, threads, k) && ws[k].bs.Valid()
      ensures ws[k].bs.Content() == SectionBits(ws[k].blks)
      ensures forall j | 0 <= j < |ws[k].blks| :: Chosen(settings, ws[k].blks[j])
    {
      assert ForSection(ws[k], settings, src, threads, k);
      Finished(ws[k]);
      ChosenBy(ws[k]);
    }
  }

  lemma ChosenBy(w: Worker)
    requires w.Valid()
    ensures w.bs.Valid() && w.settings.level < 4 && forall j | 0 <= j < |w.blks| :: Chosen(w.settings, w.blks[j])
  {
    hide CutUpTo, BlksOk, Chosen;
  }

  lemma AllFinished(ws: seq<Worker>)
    requires AllValid(ws) && forall k | 0 <= k < |ws| :: ws[k].pos == |ws[k].section|
    ensures forall k | 0 <= k < |ws| :: SectionDone(ws[k].blks, ws[k].section, ws[k].last)
  {
    hide Worker.Valid, SectionDone;
    forall k | 0 <= k < |ws|
      ensures SectionDone(ws[k].blks, ws[k].section, ws[k].last)
    {
      Finished(ws[k]);
    }
  }
}
