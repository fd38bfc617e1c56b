/** `DeflateCompressor` of compress/deflate.cpp: the joining of the sections' streams, and what the result is:
    what a decoder makes of it, how long it is, and that no schedule of the threads changes it. */
module Compressor {
  import opened Words
  import opened Options
  import opened BitStreams
  import opened Inflate
  import opened StoredBlock
  import opened Stream
  import opened Misread
  import opened BlockChoice
  import opened Sections
  import opened Outcome
  import opened Scheduler

  /** The exported bytes hold the stream of the plan, padded with zero bits to a whole byte. */
  ghost predicate Exported(res: ByteSeq, plan: seq<seq<Blk>>) {
    && 8 * |res| - 8 < |StreamBits(plan)| <= 8 * |res|
    && BytesBits(res) == StreamBits(plan) + Zeros(8 * |res| - |StreamBits(plan)|)
  }

  lemma ExportedAt(res: ByteSeq, plan: seq<seq<Blk>>)
    requires Exported(res, plan)
    ensures At(BytesBits(res), 0, StreamBits(plan)) && 8 * |res| - |StreamBits(plan)| < 8
  {
  }

  /** Every block of the result is decoded, where it stands, to what was written for it exactly when the
      stored blocks are aligned. */
  lemma ResultExact(res: ByteSeq, plan: seq<seq<Blk>>, src: ByteSeq, threads: nat)
    requires src != [] && threads >= 1 && PlanOk(plan, src, threads) && Exported(res, plan)
    ensures Faithful(BytesBits(res), Place(0, plan), []) <==> Aligned(Place(0, plan))
  {
    hide Chained, Faithful, Aligned, At, PlanOk, Place;
    PlanMarks(plan, src, threads);
    PlacedSections(0, plan);
    ExportedAt(res, plan);
    RunExact(BytesBits(res), Place(0, plan), 0, []);
  }

  /** With its stored blocks aligned, the result is decoded to the input, stopping at the end of the one
      final block, less than a byte before the end. */
  lemma ResultDecodes(res: ByteSeq, plan: seq<seq<Blk>>, src: ByteSeq, threads: nat)
    requires src != [] && threads >= 1 && PlanOk(plan, src, threads) && Exported(res, plan)
    requires Aligned(Place(0, plan))
    ensures Decode(BytesBits(res), 0, []) == Some((src, |StreamBits(plan)|))
    ensures OnlyLast(Place(0, plan)) && 8 * |res| - |StreamBits(plan)| < 8
  {
    hide Chained, Faithful, Aligned, At, PlanOk, Place, Decode, OnlyLast, Exported, StreamBits, StreamData, RunBits,
      RunData, BytesBits;
    PlanMarks(plan, src, threads);
    PlacedSections(0, plan);
    ExportedAt(res, plan);
    ResultExact(res, plan, src, threads);
    RunDecodes(BytesBits(res), Place(0, plan), 0, []);
    PlanData(plan, src, threads);
    assert [] + src == src;
  }

  /** The decoder accepts the result and returns the input. */
  ghost predicate Returns(res: ByteSeq, src: ByteSeq) {
    var d := Decode(BytesBits(res), 0, []);
    d.Some? && d.value.0 == src
  }

  /** Unless a long stored block is a decoy, the decoder returns the input exactly when the stored blocks are
      aligned. */
  lemma ResultOutput(res: ByteSeq, plan: seq<seq<Blk>>, src: ByteSeq, threads: nat)
    requires src != [] && threads >= 1 && PlanOk(plan, src, threads) && Exported(res, plan)
    requires NoDecoys(Place(0, plan))
    ensures Returns(res, src) <==> Aligned(Place(0, plan))
  {
    hide Chained, Aligned, NoDecoys, At, PlanOk, Place, Decode, OnlyLast, FullBlocks, Exported, StreamBits, StreamData,
      RunBits, RunData, BytesBits;
    PlanMarks(plan, src, threads);
    PlanFull(plan, src, threads);
    PlacedSections(0, plan);
    PlanData(plan, src, threads);
    ExportedAt(res, plan);
    RunOutput(BytesBits(res), Place(0, plan), 0, []);
    assert [] + src == src;
  }

  /** That no block is a decoy can be seen before compressing: no block size of the input but the first starts
      with a long run of zero bytes, if blocks are static, or, on more than one thread, of bytes 255. */
  lemma OutputExact(settings: Settings, res: ByteSeq, plan: seq<seq<Blk>>, src: ByteSeq, threads: nat)
    requires settings.level < 4 && src != [] && threads >= 1
    requires PlanOk(plan, src, threads) && AllChosen(settings, plan) && Exported(res, plan)
    requires NoSuspects(settings.coding, src, threads)
    ensures Returns(res, src) <==> Aligned(Place(0, plan))
  {
    hide PlanOk, AllChosen, Exported, Returns, Aligned, Place, NoSuspects, NoDecoys;
    PlanNoDecoys(settings, plan, src, threads);
    ResultOutput(res, plan, src, threads);
  }

  /** On one thread with dynamic blocks every input is such an input. */
  lemma DynamicOutputExact(settings: Settings, res: ByteSeq, plan: seq<seq<Blk>>, src: ByteSeq)
    requires settings.level < 4 && settings.coding.DynamicCoding? && src != []
    requires PlanOk(plan, src, 1) && AllChosen(settings, plan) && Exported(res, plan)
    ensures Returns(res, src) <==> Aligned(Place(0, plan))
  {
    hide PlanOk, AllChosen, Exported, Returns, Aligned, Place;
    OutputExact(settings, res, plan, src, 1);
  }

  /** When only a last block of at most 65535 bytes can be misaligned, the input does not matter. */
  lemma LastBlockExact(res: ByteSeq, plan: seq<seq<Blk>>, src: ByteSeq, threads: nat)
    requires src != [] && threads >= 1 && PlanOk(plan, src, threads) && Exported(res, plan)
    requires var ps := Place(0, plan);
             ps != [] && |ps[|ps| - 1].blk.data| <= 65535 && Aligned(ps[..|ps| - 1])
    ensures Returns(res, src) <==> Aligned(Place(0, plan))
  {
    hide PlanOk, Exported, Returns, Place, Lead;
    var ps := Place(0, plan);
    forall k | 0 <= k < |ps|
      ensures NoDecoy(ps[k])
    {
      if k < |ps| - 1 && ps[k].blk.stored {
        assert ps[..|ps| - 1][k] == ps[k];
        LeadBounds(ps[k].base, ps[k].offset);
      }
    }
    ResultOutput(res, plan, src, threads);
  }

  /** When every block is compressed, the result is always decoded to the input. */
  lemma CompressedDecodes(res: ByteSeq, plan: seq<seq<Blk>>, src: ByteSeq, threads: nat)
    requires src != [] && threads >= 1 && PlanOk(plan, src, threads) && Exported(res, plan)
    requires forall k | 0 <= k < |Place(0, plan)| :: !Place(0, plan)[k].blk.stored
    ensures Decode(BytesBits(res), 0, []) == Some((src, |StreamBits(plan)|))
  {
    hide PlanOk, Exported, Place, Decode;
    assert Aligned(Place(0, plan));
    ResultDecodes(res, plan, src, threads);
  }

  /** When every block is stored, as for data that cannot be compressed, the result is decoded to the input. */
  lemma AllStoredDecodes(res: ByteSeq, plan: seq<seq<Blk>>, src: ByteSeq, threads: nat)
    requires src != [] && threads >= 1 && PlanOk(plan, src, threads) && Exported(res, plan)
    requires forall i, k | 0 <= i < |plan| && 0 <= k < |plan[i]| :: plan[i][k].stored
    ensures Decode(BytesBits(res), 0, []) == Some((src, |StreamBits(plan)|))
  {
    hide PlanOk, Exported, Place, Decode, BlksOk;
    PlanMarks(plan, src, threads);
    StoredSectionsAligned(0, plan);
    ResultDecodes(res, plan, src, threads);
  }

  /** What an input of n bytes can take, in bits: 43 for each begun block size, 40 for each 65535 bytes, and a
      last partial byte. */
  function SizeBound(n: nat): nat {
    8 * n + 43 * ((n + 1048575) / 1048576) + 40 * (n / 65535) + 7
  }

  lemma ResultSize(res: ByteSeq, plan: seq<seq<Blk>>, src: ByteSeq, threads: nat)
    requires src != [] && threads >= 1 && PlanOk(plan, src, threads) && Exported(res, plan)
    ensures 8 * |res| <= SizeBound(|src|)
  {
    hide Chained, PlanOk, Place, OnlyLast;
    PlanMarks(plan, src, threads);
    PlacedSections(0, plan);
    PlanData(plan, src, threads);
    RunSize(Place(0, plan), 0);
    BlockCount(plan, src, threads);
  }

  // ---- the class

  class DeflateCompressor {
    const settings: Settings       // m_coding_type, the level and the sort
    const threadCnt: nat           // m_thread_cnt
    var src: ByteSeq               // m_src
    var finish: bool               // m_finish
    var res: ByteSeq               // m_res
    ghost var plan: seq<seq<Blk>>  // what each thread wrote

    ghost predicate Valid()
      reads this
    {
      && threadCnt >= 1 && Usable(settings)
      && (finish ==> src != [] && PlanOk(plan, src, threadCnt) && AllChosen(settings, plan) && Exported(res, plan))
    }

    constructor (settings: Settings, threadCnt: nat)
      requires threadCnt >= 1 && Usable(settings)
      ensures Valid() && src == [] && !finish
      ensures this.settings == settings && this.threadCnt == threadCnt
    {
      hide Usable, PlanOk, AllChosen, Exported;
      this.settings, this.threadCnt := settings, threadCnt;
      src, finish, res, plan := [], false, [], [];
    }

    method Feed(data: ByteSeq)
      requires Valid()
      modifies this
      ensures Valid() && src == data && !finish
    {
      hide Usable, PlanOk, AllChosen, Exported;
      src, finish := data, false;
    }

    /** Compresses the input that was fed. The schedule says in which order the system runs the threads. */
    method Compress(schedule: seq<nat>) returns (length: nat)
      requires Valid() && src != []
      modifies this
      ensures Valid() && finish && length == |res| && src == old(src)
      ensures old(finish) ==> res == old(res)
      ensures Faithful(BytesBits(res), Place(0, plan), []) <==> Aligned(Place(0, plan))
      ensures Aligned(Place(0, plan)) ==> Decode(BytesBits(res), 0, []) == Some((src, |StreamBits(plan)|))
      ensures NoSuspects(settings.coding, src, threadCnt) ==> (Returns(res, src) <==> Aligned(Place(0, plan)))
      ensures 8 * length <= SizeBound(|src|)
    {
      hide Usable, PlanOk, AllChosen, Exported, Place, Decode, Faithful, Aligned, StreamBits, SizeBound,
        Returns, NoSuspects;
      if !finish {
        var bss, secs := RunThreads(schedule);
        var bs := JoinStreams(bss, secs);
        res := bs.Export();
        ExportedStream(res, secs, bs);
        plan := secs;
        finish := true;
      }
      LevelBound(settings);
      ResultExact(res, plan, src, threadCnt);
      if Aligned(Place(0, plan)) {
        ResultDecodes(res, plan, src, threadCnt);
      }
      if NoSuspects(settings.coding, src, threadCnt) {
        OutputExact(settings, res, plan, src, threadCnt);
      }
      ResultSize(res, plan, src, threadCnt);
      length := |res|;
    }

    /** Starts a thread for each section, lets the system run them, and joins them. */
    method RunThreads(schedule: seq<nat>) returns (bss: seq<BitStream>, ghost secs: seq<seq<Blk>>)
      requires Valid() && src != []
      ensures PlanOk(secs, src, threadCnt) && AllChosen(settings, secs) && |bss| == |secs|
      ensures forall i | 0 <= i < |bss| :: fresh(bss[i]) && bss[i].Valid() && bss[i].Content() == SectionBits(secs[i])
    {
      hide SectionDone, BitStream.Valid, BitStream.Content, SectionStart, ThreadCount, Worker.Valid, Disjoint, AllValid,
        ForSections, Written, PlanOk, AllChosen, Usable, Exported, AllRepr, Worker.Repr;
      var ws := StartWorkers(settings, src, threadCnt);
      RunSchedule(ws, schedule);
      JoinAll(ws);
      LevelBound(settings);
      WrittenPlan(ws, settings, src, threadCnt);
      secs := Written(ws);
      bss := Streams(ws);
    }

    /** Appends the threads' streams in order. */
    method JoinStreams(bss: seq<BitStream>, ghost secs: seq<seq<Blk>>) returns (bs: BitStream)
      requires |bss| == |secs|
      requires forall i | 0 <= i < |bss| :: bss[i].Valid() && bss[i].Content() == SectionBits(secs[i])
      ensures fresh(bs) && bs.Valid() && bs.Content() == StreamBits(secs)
    {
      hide BitStream.Valid, BitStream.Content, SectionBits;
      bs := new BitStream(8 * |src|);
      assert StreamBits(secs[..0]) == [];
      for i := 0 to |bss|
        invariant fresh(bs) && bs.Valid() && bs.Content() == StreamBits(secs[..i])
        invariant forall k | 0 <= k < |bss| :: bss[k].Valid() && bss[k].Content() == SectionBits(secs[k])
      {
        bs.Append(bss[i]);
        assert secs[..i + 1] == secs[..i] + [secs[i]];
        StreamSnoc(secs[..i], secs[i]);
      }
      assert secs[..|secs|] == secs;
    }

    function GetLengthCompressed(): nat
      reads this
    {
      |res|
    }

    method WriteResult() returns (dst: ByteSeq)
      ensures dst == res
    {
      dst := res;
    }
  }

  lemma LevelBound(s: Settings)
    requires Usable(s)
    ensures s.level < 4
  {
  }

  lemma {:induction false} StreamSnoc(secs: seq<seq<Blk>>, sec: seq<Blk>)
    ensures StreamBits(secs + [sec]) == StreamBits(secs) + SectionBits(sec)
    decreases |secs|
  {
    hide SectionBits;
    if secs == [] {
      assert [] + [sec] == [sec];
      assert StreamBits([sec]) == SectionBits(sec) + StreamBits([]);
    } else {
      assert (secs + [sec])[1..] == secs[1..] + [sec];
      StreamSnoc(secs[1..], sec);
    }
  }

  lemma ExportedStream(res: ByteSeq, secs: seq<seq<Blk>>, bs: BitStream)
    requires bs.Valid() && bs.Content() == StreamBits(secs) && |res| == bs.BytesSize()
    requires BytesBits(res) == bs.Content() + Zeros(8 * |res| - |bs.Content()|)
    ensures Exported(res, secs)
  {
    hide BytesBits;
  }

  // ---- inputs of one block

  /** Before compressing, a caller can tell that the result will decode: any input of at most one block
      size, or of less than two on one thread. */
  lemma OneBlockDecodes(res: ByteSeq, plan: seq<seq<Blk>>, src: ByteSeq, threads: nat)
    requires src != [] && threads >= 1 && PlanOk(plan, src, threads) && Exported(res, plan)
    requires |src| <= DEFLATE_BLOCK_SIZE || (threads == 1 && |src| < 2 * DEFLATE_BLOCK_SIZE)
    ensures Decode(BytesBits(res), 0, []) == Some((src, |StreamBits(plan)|))
  {
    hide Exported, Decode, SectionOk;
    assert |plan| == 1;
    assert SectionOk(plan[0], src, threads, 0);
    OnlySection(plan[0], src, threads);
    assert plan == [plan[0]] && plan[1..] == [];
    assert Place(0, plan) == PlaceBlks(0, 0, plan[0]) + [];
    assert PlaceBlks(0, 0, plan[0]) == [Placed(0, 0, plan[0][0])];
    ResultDecodes(res, plan, src, threads);
  }

  // ---- schedules

  /** Any two results for the same input, thread count and settings are the same bytes, however their threads
      were interleaved. */
  lemma AnyInterleaving(settings: Settings, src: ByteSeq, threads: nat,
                        plan: seq<seq<Blk>>, res: ByteSeq, plan': seq<seq<Blk>>, res': ByteSeq)
    requires src != [] && threads >= 1 && settings.level < 4
    requires PlanOk(plan, src, threads) && AllChosen(settings, plan) && Exported(res, plan)
    requires PlanOk(plan', src, threads) && AllChosen(settings, plan') && Exported(res', plan')
    ensures plan == plan' && res == res'
  {
    hide PlanOk, AllChosen, BytesBits;
    PlanUnique(settings, plan, plan', src, threads);
    BytesBitsInjective(res, res');
  }

  /** Two runs of the compressor under any two schedules give the same bytes. */
  method CompressTwice(settings: Settings, threads: nat, src: ByteSeq, schedule: seq<nat>, schedule': seq<nat>)
      returns (res: ByteSeq, res': ByteSeq)
    requires src != [] && threads >= 1 && Usable(settings)
    ensures res == res'
  {
    hide Usable, Exported, PlanOk, AllChosen, Aligned, Place, Faithful, Decode;
    LevelBound(settings);
    var c := new DeflateCompressor(settings, threads);
    c.Feed(src);
    var _ := c.Compress(schedule);
    res := c.WriteResult();
    var d := new DeflateCompressor(settings, threads);
    d.Feed(src);
    var _ := d.Compress(schedule');
    res' := d.WriteResult();
    AnyInterleaving(settings, src, threads, c.plan, res, d.plan, res');
  }
}
