/** Run-length coding of code lengths: `run_length_encode` and `run_length_decode` of compress/deflate.cpp,
    and the expansion section 3.2.7 of RFC 1951 gives to the codes. */
module RunLength {
  import opened Words
  import opened Options

  /** A code keeps its symbol in the low 5 bits and its extra value above them. */
  function Pack(sym: nat, extra: nat): nat {
    Or(sym, ShiftLeft(extra, 5))
  }

  /** The symbol of a code and, for the repeat symbols, the repeat count. */
  function RunLengthDecode(code: nat): (nat, nat) {
    var x, y := And(code, 31), ShiftRight(code, 5);
    if x <= 15 then (x, y)
    else if x == 16 then (x, y + 3)
    else if x == 17 then (x, y + 3)
    else (x, y + 11)
  }

  /** The number of extra bits of a symbol and the smallest count they stand for. */
  function ExtraBits(sym: nat): nat {
    if sym == 16 then 2 else if sym == 17 then 3 else if sym == 18 then 7 else 0
  }

  function MinCount(sym: nat): nat {
    if sym == 18 then 11 else 3
  }

  /** A code of the alphabet whose repeat count fits its extra bits. */
  predicate ValidCode(code: nat) {
    var (x, y) := RunLengthDecode(code);
    && x <= 18
    && (x <= 15 ==> y == 0)
    && (x >= 16 ==> MinCount(x) <= y < MinCount(x) + Pow2(ExtraBits(x)))
  }

  /** The lengths so far, extended by one symbol with its count. */
  function ExpandOne(lens: seq<nat>, sym: nat, count: nat): Option<seq<nat>> {
    if sym <= 15 then Some(lens + [sym])
    else if sym == 16 then (if lens == [] then None else Some(lens + Repeated(lens[|lens| - 1], count)))
    else Some(lens + Repeated(0, count))
  }

  /** The three repeat symbols, as section 3.2.7 of RFC 1951 has them. */
  lemma RepeatSymbols(lens: seq<nat>, n: nat)
    ensures ExtraBits(16) == 2 && ExtraBits(17) == 3 && ExtraBits(18) == 7
    ensures MinCount(16) == 3 && MinCount(17) == 3 && MinCount(18) == 11
    ensures lens != [] ==> ExpandOne(lens, 16, n) == Some(lens + Repeated(lens[|lens| - 1], n))
    ensures ExpandOne(lens, 17, n) == ExpandOne(lens, 18, n) == Some(lens + Repeated(0, n))
  {
  }

  function Expand(codes: seq<nat>, lens: seq<nat>): Option<seq<nat>> {
    if codes == [] then Some(lens)
    else
      var before :- Expand(codes[..|codes| - 1], lens);
      var (x, y) := RunLengthDecode(codes[|codes| - 1]);
      ExpandOne(before, x, y)
  }

  lemma PackFields(sym: nat, extra: nat)
    requires sym < 32
    ensures And(Pack(sym, extra), 31) == sym && ShiftRight(Pack(sym, extra), 5) == extra
  {
    hide Or, And, ShiftLeft, ShiftRight, BitsOf;
    Pow2Values();
    OrDisjoint(sym, extra, 5);
    ShiftRightOfLeft(sym, extra, 5);
    var v := sym + ShiftLeft(extra, 5);
    MaskLow(v, 5);
    BitsJoin(sym, extra, 5, 0);
    assert BitsOf(extra, 0) == [];
    assert BitsOf(v, 5) == BitsOf(sym, 5);
    ValueOfBits(sym, 5);
    ValueOfBits(And(v, 31), 5);
  }

  /** codes stand for the first i lengths, whatever lengths came before them. */
  ghost predicate StandsFor(codes: seq<nat>, src: seq<nat>, i: nat)
    requires i <= |src|
  {
    && (forall c | c in codes :: ValidCode(c))
    && (codes != [] ==> RunLengthDecode(codes[0]).0 != 16)
    && (i > 0 ==> codes != [])
    && forall lens :: Expand(codes, lens) == Some(lens + src[..i])
  }

  /** One more code covers k more lengths. */
  lemma PushCode(codes: seq<nat>, src: seq<nat>, i: nat, k: nat, code: nat)
    requires i + k <= |src| && StandsFor(codes, src, i) && ValidCode(code)
    requires i == 0 ==> RunLengthDecode(code).0 != 16
    requires forall lens: seq<nat> | i > 0 ==> lens != [] && lens[|lens| - 1] == src[i - 1] ::
               var (x, y) := RunLengthDecode(code); ExpandOne(lens, x, y) == Some(lens + src[i..i + k])
    ensures StandsFor(codes + [code], src, i + k)
  {
    hide RunLengthDecode, ExpandOne, ValidCode;
    var next := codes + [code];
    assert next[..|codes|] == codes;
    forall lens
      ensures Expand(next, lens) == Some(lens + src[..i + k])
    {
      var before := lens + src[..i];
      assert Expand(codes, lens) == Some(before);
      assert i > 0 ==> before[|before| - 1] == src[i - 1];
      assert before + src[i..i + k] == lens + src[..i + k];
    }
  }

  lemma PushLength(codes: seq<nat>, src: seq<nat>, i: nat)
    requires i < |src| && src[i] <= 15 && StandsFor(codes, src, i)
    ensures StandsFor(codes + [src[i]], src, i + 1)
  {
    hide RunLengthDecode, ValidCode, StandsFor;
    LengthCode(src[i]);
    assert src[i..i + 1] == [src[i]];
    PushCode(codes, src, i, 1, src[i]);
  }

  lemma LengthCode(v: nat)
    requires v <= 15
    ensures RunLengthDecode(v) == (v, 0) && ValidCode(v)
  {
    PackFields(v, 0);
    assert ShiftLeft(0, 5) == 0 by { OrDisjoint(0, 0, 5); BitsOfZero(5); ShiftLeftLinear(0, 0, 5); }
    assert Or(v, 0) == v;
  }

  lemma PushRepeat(codes: seq<nat>, src: seq<nat>, i: nat, k: nat, sym: nat)
    requires i + k <= |src| && StandsFor(codes, src, i)
    requires 16 <= sym <= 18 && MinCount(sym) <= k < MinCount(sym) + Pow2(ExtraBits(sym))
    requires sym == 16 ==> i > 0
    requires forall j | i <= j < i + k :: src[j] == if sym == 16 then src[i - 1] else 0
    ensures StandsFor(codes + [Pack(sym, k - MinCount(sym))], src, i + k)
  {
    hide Or, And, Pow2, ShiftRight, ShiftLeft, Expand, StandsFor;
    var code := Pack(sym, k - MinCount(sym));
    PackFields(sym, k - MinCount(sym));
    assert RunLengthDecode(code) == (sym, k);
    assert src[i..i + k] == Repeated(if sym == 16 then src[i - 1] else 0, k);
    PushCode(codes, src, i, k, code);
  }

  // ---- the codes the encoder picks

  /** The end of the run of equal lengths at i, looked for from j on. */
  function RunEnd(src: seq<nat>, i: nat, j: nat): (e: nat)
    requires i <= j <= |src| && i < |src|
    ensures j <= e <= |src| && (forall k | j <= k < e :: src[k] == src[i])
    ensures e == |src| || src[e] != src[i]
    decreases |src| - j
  {
    if j < |src| && src[j] == src[i] then RunEnd(src, i, j + 1) else j
  }

  /** n more lengths v after a v: as many sixes as fit, a rest of 3 to 5 in one code, a shorter rest singly. */
  function RepeatCodes(v: nat, n: nat): seq<nat> {
    if n >= 3 then
      var k := if n < 6 then n else 6;
      [Pack(16, k - 3)] + RepeatCodes(v, n - k)
    else Repeated(v, n)
  }

  /** n zeros: as many 138s as fit, a rest of at least 3 in one code, a shorter rest singly. */
  function ZeroCodes(n: nat): seq<nat> {
    if n >= 11 then
      var k := if n < 138 then n else 138;
      [Pack(18, k - 11)] + ZeroCodes(n - k)
    else if n >= 3 then [Pack(17, n - 3)]
    else Repeated(0, n)
  }

  /** The codes of the lengths from i on, run by run. */
  function RunCodes(src: seq<nat>, i: nat): seq<nat>
    requires i <= |src|
    decreases |src| - i
  {
    if i == |src| then []
    else
      var j := RunEnd(src, i, i + 1);
      (if src[i] != 0 then [src[i]] + RepeatCodes(src[i], j - i - 1) else ZeroCodes(j - i)) + RunCodes(src, j)
  }

  // ---- each code takes as much as it can

  /** The run of equal lengths at p ends at e, and nowhere before. */
  ghost predicate RunTo(src: seq<nat>, p: nat, e: nat) {
    && p < e <= |src| && (forall k | p <= k < e :: src[k] == src[p])
    && (e == |src| || src[e] != src[p])
  }

  /** What a code is for when n more lengths v follow, and whether one came just before. */
  predicate TakesMost(code: nat, v: nat, n: nat, started: bool) {
    var (x, y) := RunLengthDecode(code);
    if v == 0 && n >= 11 then x == 18 && y == (if n < 138 then n else 138)
    else if v == 0 && n >= 3 then x == 17 && y == n
    else if v != 0 && started && n >= 3 then x == 16 && y == (if n < 6 then n else 6)
    else x == v
  }

  /** How many lengths a code stands for. */
  function Covered(code: nat): nat {
    var (x, y) := RunLengthDecode(code);
    if x <= 15 then 1 else y
  }

  /** The codes stand for the lengths from p on, and each takes the most of the run it is in that one code can. */
  ghost predicate EachTakesMost(codes: seq<nat>, src: seq<nat>, p: nat) {
    if codes == [] then p == |src|
    else
      && p + Covered(codes[0]) <= |src| && p < |src|
      && (forall e: nat | RunTo(src, p, e) :: TakesMost(codes[0], src[p], e - p, p > 0 && src[p - 1] == src[p]))
      && EachTakesMost(codes[1..], src, p + Covered(codes[0]))
  }

  lemma OneTakesMost(code: nat, rest: seq<nat>, src: seq<nat>, s: nat, e: nat, p: nat)
    requires RunTo(src, s, e) && s <= p < e && (s == 0 || src[s - 1] != src[s])
    requires TakesMost(code, src[p], e - p, p > s) && p + Covered(code) <= e
    requires EachTakesMost(rest, src, p + Covered(code))
    ensures EachTakesMost([code] + rest, src, p)
  {
    hide TakesMost, Covered;
    assert ([code] + rest)[1..] == rest;
    forall d: nat | RunTo(src, p, d)
      ensures d == e
    {
      SameEnd(src, s, e, p, d);
    }
    assert p > s ==> src[p - 1] == src[s] == src[p];
  }

  lemma SameEnd(src: seq<nat>, s: nat, e: nat, p: nat, d: nat)
    requires RunTo(src, s, e) && s <= p < e && RunTo(src, p, d)
    ensures d == e
  {
  }

  lemma PackedCode(sym: nat, k: nat)
    requires 16 <= sym <= 18 && k >= MinCount(sym)
    ensures RunLengthDecode(Pack(sym, k - MinCount(sym))) == (sym, k)
  {
    hide Pack, And, ShiftRight;
    PackFields(sym, k - MinCount(sym));
  }

  lemma {:induction false} SinglesTakeMost(src: seq<nat>, s: nat, e: nat, p: nat, rest: seq<nat>)
    requires RunTo(src, s, e) && s <= p <= e <= p + 2 && src[s] <= 15 && (s == 0 || src[s - 1] != src[s])
    requires EachTakesMost(rest, src, e)
    ensures EachTakesMost(Repeated(src[s], e - p) + rest, src, p)
    decreases e - p
  {
    hide RunLengthDecode, ValidCode;
    LengthCode(src[s]);
    if p == e {
      assert Repeated(src[s], 0) + rest == rest;
    } else {
      SinglesTakeMost(src, s, e, p + 1, rest);
      OneTakesMost(src[s], Repeated(src[s], e - p - 1) + rest, src, s, e, p);
      assert Repeated(src[s], e - p) + rest == [src[s]] + (Repeated(src[s], e - p - 1) + rest);
    }
  }

  lemma {:induction false} RepeatsTakeMost(src: seq<nat>, s: nat, e: nat, p: nat, rest: seq<nat>)
    requires RunTo(src, s, e) && s < p <= e && 0 < src[s] <= 15 && (s == 0 || src[s - 1] != src[s])
    requires EachTakesMost(rest, src, e)
    ensures EachTakesMost(RepeatCodes(src[s], e - p) + rest, src, p)
    decreases e - p
  {
    hide RunLengthDecode, Pack, EachTakesMost, RunTo;
    InRun(src, s, e, p);
    if e - p < 3 {
      SinglesTakeMost(src, s, e, p, rest);
    } else {
      var k := if e - p < 6 then e - p else 6;
      PackedCode(16, k);
      RepeatsTakeMost(src, s, e, p + k, rest);
      OneTakesMost(Pack(16, k - 3), RepeatCodes(src[s], e - p - k) + rest, src, s, e, p);
      Regroup([Pack(16, k - 3)], RepeatCodes(src[s], e - p - k), rest);
    }
  }

  lemma InRun(src: seq<nat>, s: nat, e: nat, p: nat)
    requires RunTo(src, s, e) && s <= p <= e
    ensures s < e <= |src| && (p < e ==> src[p] == src[s])
  {
  }

  lemma {:induction false} ZerosTakeMost(src: seq<nat>, s: nat, e: nat, p: nat, rest: seq<nat>)
    requires RunTo(src, s, e) && s <= p <= e && src[s] == 0 && (s == 0 || src[s - 1] != src[s])
    requires EachTakesMost(rest, src, e)
    ensures EachTakesMost(ZeroCodes(e - p) + rest, src, p)
    decreases e - p
  {
    hide RunLengthDecode, Pack, EachTakesMost, RunTo;
    InRun(src, s, e, p);
    if e - p < 3 {
      SinglesTakeMost(src, s, e, p, rest);
    } else {
      var sym, k := if e - p < 11 then 17 else 18, if e - p < 138 then e - p else 138;
      PackedCode(sym, k);
      ZerosTakeMost(src, s, e, p + k, rest);
      OneTakesMost(Pack(sym, k - MinCount(sym)), ZeroCodes(e - p - k) + rest, src, s, e, p);
      Regroup([Pack(sym, k - MinCount(sym))], ZeroCodes(e - p - k), rest);
      assert e - p < 11 ==> ZeroCodes(e - p) == [Pack(sym, k - 3)] + ZeroCodes(0);
    }
  }

  /** No run is cut short, and no code stands for less than it could. */
  lemma {:induction false} RunsTakeMost(src: seq<nat>, i: nat)
    requires i <= |src| && (forall v | v in src :: v <= 15) && (0 < i < |src| ==> src[i - 1] != src[i])
    ensures EachTakesMost(RunCodes(src, i), src, i)
    decreases |src| - i
  {
    hide RunLengthDecode, RepeatCodes, ZeroCodes, TakesMost, Covered;
    if i < |src| {
      var e := RunEnd(src, i, i + 1);
      assert src[i] in src && RunTo(src, i, e);
      RunsTakeMost(src, e);
      var rest := RunCodes(src, e);
      if src[i] == 0 {
        ZerosTakeMost(src, i, e, i, rest);
      } else {
        RepeatsTakeMost(src, i, e, i + 1, rest);
        FirstTakesMost(src, i, e, RepeatCodes(src[i], e - i - 1) + rest);
        Regroup([src[i]], RepeatCodes(src[i], e - i - 1), rest);
      }
    }
  }

  lemma FirstTakesMost(src: seq<nat>, s: nat, e: nat, rest: seq<nat>)
    requires RunTo(src, s, e) && 0 < src[s] <= 15 && (s == 0 || src[s - 1] != src[s])
    requires EachTakesMost(rest, src, s + 1)
    ensures EachTakesMost([src[s]] + rest, src, s)
  {
    hide RunLengthDecode, EachTakesMost;
    LengthCode(src[s]);
    OneTakesMost(src[s], rest, src, s, e, s);
  }

  lemma RunStep(src: seq<nat>, i: nat, j: nat, codes: seq<nat>)
    requires i < j <= |src| && j == RunEnd(src, i, i)
    ensures codes + RunCodes(src, i)
         == codes + (if src[i] != 0 then [src[i]] + RepeatCodes(src[i], j - i - 1) else ZeroCodes(j - i))
            + RunCodes(src, j)
  {
    hide RepeatCodes, ZeroCodes, RunCodes, RunEnd;
    RunHead(src, i, j);
    var run := if src[i] != 0 then [src[i]] + RepeatCodes(src[i], j - i - 1) else ZeroCodes(j - i);
    Regroup(codes, run, RunCodes(src, j));
  }

  lemma RunHead(src: seq<nat>, i: nat, j: nat)
    requires i < j <= |src| && j == RunEnd(src, i, i)
    ensures RunCodes(src, i)
         == (if src[i] != 0 then [src[i]] + RepeatCodes(src[i], j - i - 1) else ZeroCodes(j - i)) + RunCodes(src, j)
  {
    hide RepeatCodes, ZeroCodes;
    assert RunEnd(src, i, i) == RunEnd(src, i, i + 1);
  }

  /** The codes of a table of lengths. They stand for it after any other lengths, and never start by repeating. */
  method RunLengthEncode(src: seq<nat>) returns (res: seq<nat>)
    requires forall v | v in src :: v <= 15
    ensures StandsFor(res, src, |src|) && res == RunCodes(src, 0) && EachTakesMost(res, src, 0)
  {
    hide StandsFor, Pow2, Pack, RunCodes, RepeatCodes, ZeroCodes, EachTakesMost;
    RunsTakeMost(src, 0);
    res := [];
    var i := 0;
    EmptyCodes(src);
    while i < |src|
      invariant i <= |src| && StandsFor(res, src, i) && res + RunCodes(src, i) == RunCodes(src, 0)
    {
      var j := i;
      while j < |src| && src[j] == src[i]
        invariant i <= j <= |src| && RunEnd(src, i, j) == RunEnd(src, i, i)
        invariant forall k | i <= k < j :: src[k] == src[i]
      {
        j := j + 1;
      }
      assert src[i] in src;
      RunStep(src, i, j, res);
      if src[i] != 0 {
        res := EncodeRun(src, i, j, res);
      } else {
        res := EncodeZeros(src, i, j, res);
      }
      i := j;
    }
    assert RunCodes(src, |src|) == [] by { NoRuns(src); }
  }

  lemma NoRuns(src: seq<nat>)
    ensures RunCodes(src, |src|) == []
  {
  }

  lemma RepeatStep(v: nat, n: nat, res: seq<nat>)
    ensures n >= 3 ==> var k := if n < 6 then n else 6;
                       res + RepeatCodes(v, n) == (res + [Pack(16, k - 3)]) + RepeatCodes(v, n - k)
    ensures 0 < n < 3 ==> res + RepeatCodes(v, n) == (res + [v]) + RepeatCodes(v, n - 1)
    ensures n == 0 ==> res + RepeatCodes(v, n) == res
  {
    assert 0 < n < 3 ==> Repeated(v, n) == [v] + Repeated(v, n - 1);
  }

  lemma ZeroStep(n: nat, res: seq<nat>)
    ensures n >= 11 ==> var k := if n < 138 then n else 138;
                        res + ZeroCodes(n) == (res + [Pack(18, k - 11)]) + ZeroCodes(n - k)
    ensures 3 <= n < 11 ==> res + ZeroCodes(n) == (res + [Pack(17, n - 3)]) + ZeroCodes(0)
    ensures 0 < n < 3 ==> res + ZeroCodes(n) == (res + [0]) + ZeroCodes(n - 1)
    ensures n == 0 ==> res + ZeroCodes(n) == res
  {
    assert 0 < n < 3 ==> Repeated(0, n) == [0] + Repeated(0, n - 1);
  }

  lemma EmptyCodes(src: seq<nat>)
    ensures StandsFor([], src, 0)
  {
    assert forall lens: seq<nat> :: lens + src[..0] == lens;
  }

  /** A run of a non-zero length: the length itself, then repeats of 3 to 6, then single lengths. */
  method EncodeRun(src: seq<nat>, start: nat, end: nat, codes: seq<nat>) returns (res: seq<nat>)
    requires start < end <= |src| && StandsFor(codes, src, start)
    requires src[start] <= 15 && forall k | start <= k < end :: src[k] == src[start]
    ensures StandsFor(res, src, end) && res == codes + ([src[start]] + RepeatCodes(src[start], end - start - 1))
  {
    hide StandsFor, Pow2, Pack, RepeatCodes;
    ghost var target := codes + ([src[start]] + RepeatCodes(src[start], end - start - 1));
    PushLength(codes, src, start);
    res := codes + [src[start]];
    var i := start + 1;
    assert Pow2(2) == 4 by { Pow2Values(); }
    while end - i >= 3
      invariant start < i <= end && StandsFor(res, src, i) && res + RepeatCodes(src[start], end - i) == target
    {
      var k := if end - i < 6 then end - i else 6;
      PushRepeat(res, src, i, k, 16);
      RepeatStep(src[start], end - i, res);
      res := res + [Pack(16, k - 3)];
      i := i + k;
    }
    while i < end
      invariant start < i <= end && StandsFor(res, src, i) && res + RepeatCodes(src[start], end - i) == target
      invariant end - i < 3
    {
      PushLength(res, src, i);
      RepeatStep(src[start], end - i, res);
      res := res + [src[i]];
      i := i + 1;
    }
    RepeatStep(src[start], 0, res);
  }

  /** A run of zeros: repeats of 11 to 138, then of 3 to 10, then single zeros. */
  method EncodeZeros(src: seq<nat>, start: nat, end: nat, codes: seq<nat>) returns (res: seq<nat>)
    requires start < end <= |src| && StandsFor(codes, src, start)
    requires forall k | start <= k < end :: src[k] == 0
    ensures StandsFor(res, src, end) && res == codes + ZeroCodes(end - start)
  {
    hide StandsFor, Pow2, Pack, ZeroCodes;
    ghost var target := codes + ZeroCodes(end - start);
    res := codes;
    var i := start;
    assert Pow2(3) == 8 && Pow2(7) == 128 by { Pow2Values(); }
    while end - i >= 11
      invariant start <= i <= end && StandsFor(res, src, i) && res + ZeroCodes(end - i) == target
    {
      var k := if end - i < 138 then end - i else 138;
      PushRepeat(res, src, i, k, 18);
      ZeroStep(end - i, res);
      res := res + [Pack(18, k - 11)];
      i := i + k;
    }
    while end - i >= 3
      invariant start <= i <= end && StandsFor(res, src, i) && res + ZeroCodes(end - i) == target
      invariant end - i < 11
    {
      var k := if end - i < 10 then end - i else 10;
      PushRepeat(res, src, i, k, 17);
      ZeroStep(end - i, res);
      res := res + [Pack(17, k - 3)];
      i := i + k;
    }
    while i < end
      invariant start <= i <= end && StandsFor(res, src, i) && res + ZeroCodes(end - i) == target
      invariant end - i < 3
    {
      PushLength(res, src, i);
      ZeroStep(end - i, res);
      res := res + [src[i]];
      i := i + 1;
    }
    ZeroStep(0, res);
  }
}
