/**
 The per-task burst accounting: ticks and sleeps of the Rust context, what they keep over every
 run, how they compose, and how smoothing converges.
 */
module BoreTask {
  import opened Bitwise
  import opened BoreMath

  /** The scheduling part of a `BoreCtx`. */
  datatype Ctx = Ctx(burst: u64, prev: u16, curr: u16, penalty: u16, score: u8, stop: bool)

  const NEW_CTX: Ctx := Ctx(0, 0, 0, 0, 0, false)

  function SatAdd(a: u64, b: u64): u64 {
    if a + b < U64 then a + b else U64 - 1
  }

  function Effective(penalty: u16, kthread: bool): u16 {
    if kthread then 0 else penalty
  }

  lemma ScoreFits(x: u16)
    ensures x / 256 < 0x100
  {
  }

  /** The context after running for `delta` nanoseconds. */
  function Tick(c: Ctx, delta: u64, p: Params, kthread: bool): Ctx {
    if c.stop then c
    else
      var burst := SatAdd(c.burst, delta);
      PenaltyMonotone(burst, burst, p);
      var d := c.(burst := burst, curr := CalcPenalty(burst, p));
      if d.curr <= d.prev then d
      else
        var penalty := Effective(d.curr, kthread);
        ScoreFits(d.curr);
        d.(penalty := penalty, score := penalty / 256)
  }

  /** Whether a tick asks for a reweight. */
  predicate Reweights(c: Ctx, delta: u64, p: Params) {
    !c.stop && CalcPenalty(SatAdd(c.burst, delta), p) > c.prev
  }

  /** The context after going to sleep. */
  function Sleep(c: Ctx, p: Params, kthread: bool): Ctx {
    SmoothBounds(c.curr, c.prev, p.smoothness);
    var prev := BinarySmooth(c.curr, c.prev, p.smoothness);
    ScoreFits(prev);
    Ctx(0, prev, 0, Effective(prev, kthread), Effective(prev, kthread) / 256, c.stop)
  }

  datatype Op = Ran(delta: u64) | Slept

  function Step(c: Ctx, op: Op, p: Params, kthread: bool): Ctx {
    match op
    case Ran(delta) => Tick(c, delta, p, kthread)
    case Slept => Sleep(c, p, kthread)
  }

  function Run(c: Ctx, ops: seq<Op>, p: Params, kthread: bool): Ctx {
    if ops == [] then c
    else Step(Run(c, ops[..|ops| - 1], p, kthread), ops[|ops| - 1], p, kthread)
  }

  // ----- the context as a function of what the task did

  /** The stretches of running time since the last sleep. */
  function SinceSleep(ops: seq<Op>): seq<u64> {
    if ops == [] then []
    else
      match ops[|ops| - 1]
      case Ran(delta) => SinceSleep(ops[..|ops| - 1]) + [delta]
      case Slept => []
  }

  function SatSum(deltas: seq<u64>): u64 {
    if deltas == [] then 0 else SatAdd(SatSum(deltas[..|deltas| - 1]), deltas[|deltas| - 1])
  }

  /** The smoothed penalty of the bursts that have ended. */
  function PastPenalty(ops: seq<Op>, p: Params): nat {
    if ops == [] then 0
    else
      var past := PastPenalty(ops[..|ops| - 1], p);
      match ops[|ops| - 1]
      case Ran(_) => past
      case Slept => BinarySmooth(CalcPenalty(SatSum(SinceSleep(ops[..|ops| - 1])), p), past, p.smoothness)
  }

  lemma SatSumSnoc(deltas: seq<u64>, delta: u64)
    ensures SatSum(deltas + [delta]) == SatAdd(SatSum(deltas), delta)
  {
    assert (deltas + [delta])[..|deltas|] == deltas;
  }

  // ----- what every run keeps

  predicate Inv(c: Ctx, p: Params, kthread: bool) {
    && c.curr == CalcPenalty(c.burst, p)
    && c.prev <= MAX_BURST_PENALTY && c.curr <= MAX_BURST_PENALTY
    && c.penalty == (if kthread then 0 else Max(c.prev, c.curr))
    && c.score == c.penalty / 256 && c.score <= MAX_PRIO
    && !c.stop
  }

  lemma StepKeepsInv(c: Ctx, op: Op, p: Params, kthread: bool)
    requires Inv(c, p, kthread)
    ensures Inv(Step(c, op, p, kthread), p, kthread)
  {
    hide CalcPenalty, BinarySmooth;
    match op
    case Ran(delta) =>
      PenaltyMonotone(c.burst, SatAdd(c.burst, delta), p);
    case Slept =>
      SmoothBounds(c.curr, c.prev, p.smoothness);
      PenaltyOfZero(p);
  }

  /**
   Over every run from a new context with fixed parameters: the current penalty is the penalty
   of the burst, the effective one is the larger of previous and current (0 for kernel threads),
   and the score is its high byte, at most 39.
   */
  lemma {:induction false} RunKeepsInv(ops: seq<Op>, p: Params, kthread: bool)
    ensures Inv(Run(NEW_CTX, ops, p, kthread), p, kthread)
  {
    hide CalcPenalty, Step;
    if ops == [] {
      PenaltyOfZero(p);
    } else {
      var n := |ops| - 1;
      RunKeepsInv(ops[..n], p, kthread);
      StepKeepsInv(Run(NEW_CTX, ops[..n], p, kthread), ops[n], p, kthread);
    }
  }

  lemma NoTime()
    ensures SatSum([]) == 0
  {
  }

  /**
   Over every run from a new context the burst time is the saturated running time since the last
   sleep, and the previous penalty is the smoothed penalty of the bursts before it; with the
   invariant this fixes the whole context.
   */
  lemma {:induction false} RunHistory(ops: seq<Op>, p: Params, kthread: bool)
    ensures var c := Run(NEW_CTX, ops, p, kthread);
      && c.burst == SatSum(SinceSleep(ops)) && c.prev == PastPenalty(ops, p)
      && c.curr == CalcPenalty(SatSum(SinceSleep(ops)), p) && !c.stop
  {
    hide CalcPenalty, BinarySmooth, SatSum, SatAdd;
    RunKeepsInv(ops, p, kthread);
    if ops == [] {
      assert SatSum([]) == 0 by {
        NoTime();
      }
    } else {
      var n := |ops| - 1;
      RunHistory(ops[..n], p, kthread);
      RunKeepsInv(ops[..n], p, kthread);
      match ops[n]
      case Ran(delta) => SatSumSnoc(SinceSleep(ops[..n]), delta);
      case Slept => NoTime();
    }
  }

  /** A tick is reported exactly when it leaves the current penalty above the previous one. */
  lemma ReportedIff(c: Ctx, delta: u64, p: Params, kthread: bool)
    requires !c.stop
    ensures Reweights(c, delta, p) <==> Tick(c, delta, p, kthread).curr > c.prev
  {
    hide CalcPenalty;
  }

  /** While updates are suspended a tick does nothing and reports nothing. */
  lemma SuspendedTick(c: Ctx, delta: u64, p: Params, kthread: bool)
    requires c.stop
    ensures Tick(c, delta, p, kthread) == c && !Reweights(c, delta, p)
  {
  }

  /** A changed penalty is always reported. */
  lemma ChangeIsReported(c: Ctx, delta: u64, p: Params, kthread: bool)
    ensures Tick(c, delta, p, kthread).penalty != c.penalty ==> Reweights(c, delta, p)
  {
    hide CalcPenalty;
  }

  /**
   In a reachable context a tick that is reported leaves the penalty unchanged exactly when the
   task is a kernel thread or the penalty of the burst has not moved.
   */
  lemma ReportWithoutChange(c: Ctx, delta: u64, p: Params, kthread: bool)
    requires Inv(c, p, kthread) && Reweights(c, delta, p)
    ensures Tick(c, delta, p, kthread).penalty == c.penalty <==>
            kthread || CalcPenalty(SatAdd(c.burst, delta), p) == c.curr
  {
    hide CalcPenalty;
    PenaltyMonotone(c.burst, SatAdd(c.burst, delta), p);
  }

  /** The default tunables. */
  const DEFAULT_PARAMS: Params := Params(1, 24, 1536)

  lemma LongestBurst()
    ensures CalcPenalty(U64 - 1, DEFAULT_PARAMS) == MAX_BURST_PENALTY
  {
    hide CalcPenalty, Log2p1;
    var v: u64 := U64 - 1;
    var k, m := LogSpec(v, 8);
    if k < 63 {
      Pow2Monotone(k + 1, 63);
    }
    Pow2Halves();
    assert (k + 1) * Pow2(8) == 64 * 256 by {
      Pow2Values();
    }
    PenaltyFormula(v, DEFAULT_PARAMS);
    assert Excess(v, DEFAULT_PARAMS) >= 10240;
    MulBounds(10240, Excess(v, DEFAULT_PARAMS), 1536);
  }

  /** With the default tunables: after the longest burst one more nanosecond is reported for nothing. */
  lemma ReportedForNothing()
    ensures var c := Run(NEW_CTX, [Ran(U64 - 1)], DEFAULT_PARAMS, false);
      && Inv(c, DEFAULT_PARAMS, false) && Reweights(c, 1, DEFAULT_PARAMS)
      && Tick(c, 1, DEFAULT_PARAMS, false).penalty == c.penalty
  {
    hide CalcPenalty;
    var ops := [Ran(U64 - 1)];
    assert ops[..0] == [];
    var c := Run(NEW_CTX, ops, DEFAULT_PARAMS, false);
    RunKeepsInv(ops, DEFAULT_PARAMS, false);
    LongestBurst();
    ReportWithoutChange(c, 1, DEFAULT_PARAMS, false);
  }

  // ----- splitting a burst into ticks

  function RunTicks(c: Ctx, deltas: seq<u64>, p: Params, kthread: bool): Ctx {
    if deltas == [] then c
    else Tick(RunTicks(c, deltas[..|deltas| - 1], p, kthread), deltas[|deltas| - 1], p, kthread)
  }

  /** Two ticks are one tick of the saturated sum, report included. */
  lemma TwoTicks(c: Ctx, a: u64, b: u64, p: Params, kthread: bool)
    ensures Tick(Tick(c, a, p, kthread), b, p, kthread) == Tick(c, SatAdd(a, b), p, kthread)
    ensures Reweights(Tick(c, a, p, kthread), b, p) == Reweights(c, SatAdd(a, b), p)
  {
    hide CalcPenalty;
    PenaltyMonotone(SatAdd(c.burst, a), SatAdd(SatAdd(c.burst, a), b), p);
  }

  /** However a burst is cut into ticks, the context is that of a single tick of the sum. */
  lemma {:induction false} TickSplit(c: Ctx, deltas: seq<u64>, p: Params, kthread: bool)
    requires deltas != []
    ensures RunTicks(c, deltas, p, kthread) == Tick(c, SatSum(deltas), p, kthread)
  {
    hide Tick;
    var n := |deltas| - 1;
    if n == 0 {
      assert deltas[..0] == [];
    } else {
      TickSplit(c, deltas[..n], p, kthread);
      TwoTicks(c, SatSum(deltas[..n]), deltas[n], p, kthread);
    }
  }

  /** In a reachable context an empty tick is the identity, so the split holds for no ticks too. */
  lemma EmptyTick(c: Ctx, p: Params, kthread: bool)
    requires Inv(c, p, kthread)
    ensures Tick(c, 0, p, kthread) == c
  {
    hide CalcPenalty;
  }

  // ----- smoothing over repeated cycles

  /** The previous penalty after `n` cycles of running into penalty `target` and sleeping. */
  function Smoothed(target: nat, prev: nat, s: Smoothness, n: nat): nat {
    if n == 0 then prev else BinarySmooth(target, Smoothed(target, prev, s, n - 1), s)
  }

  lemma Kept(w: int, q: nat)
    requires q >= 1 && w >= 0
    ensures w / q >= 0
  {
  }

  function Shrink(gap: nat, q: nat): nat
    requires q >= 1
  {
    Kept(gap * (q - 1), q);
    gap * (q - 1) / q
  }

  /** What is left of a gap after `n` cycles: each keeps (2^s - 1) / 2^s of it, rounded down. */
  function GapAfter(gap: nat, s: Smoothness, n: nat): nat {
    if n == 0 then gap else Shrink(GapAfter(gap, s, n - 1), Pow2(s))
  }

  /** Cycles that at least halve every gap. */
  function HalvingTime(s: Smoothness): nat {
    if s <= 1 then 1 else if s == 2 then 3 else 6
  }

  /** Every penalty gap is below 2^14, so 14 halvings close it. */
  function CyclesNeeded(s: Smoothness): nat {
    14 * HalvingTime(s)
  }

  /** One cycle from below. */
  lemma CycleStep(target: nat, prev: nat, s: Smoothness)
    requires prev <= target
    ensures BinarySmooth(target, prev, s) <= target
    ensures target - BinarySmooth(target, prev, s) == Shrink(target - prev, Pow2(s))
    ensures target - BinarySmooth(target, prev, s) == (target - prev) * (Pow2(s) - 1) / Pow2(s)
  {
    hide Pow2;
    SmoothBounds(target, prev, s);
    SmoothWidth(s);
    if prev < target {
      CeilStep(target - prev, Pow2(s));
    }
  }

  /** From below, the gap shrinks by exactly this law and is never overshot. */
  lemma {:induction false} GapLaw(target: nat, prev: nat, s: Smoothness, n: nat)
    requires prev <= target
    ensures Smoothed(target, prev, s, n) <= target
    ensures target - Smoothed(target, prev, s, n) == GapAfter(target - prev, s, n)
  {
    hide Pow2, BinarySmooth, Shrink;
    if n == 0 {
    } else {
      GapLaw(target, prev, s, n - 1);
      CycleStep(target, Smoothed(target, prev, s, n - 1), s);
    }
  }

  /** `n` more cycles after `m` cycles. */
  lemma {:induction false} GapSplit(gap: nat, s: Smoothness, m: nat, n: nat)
    ensures GapAfter(gap, s, m + n) == GapAfter(GapAfter(gap, s, m), s, n)
  {
    hide Pow2;
    if n == 0 {
    } else {
      GapSplit(gap, s, m, n - 1);
    }
  }

  lemma ShrinkLaw(gap: nat, q: nat)
    requires q >= 1
    ensures q * Shrink(gap, q) <= gap * (q - 1)
  {
    DivBounds(gap * (q - 1), q);
  }

  lemma GapHalves(gap: nat, s: Smoothness)
    ensures 2 * GapAfter(gap, s, HalvingTime(s)) <= gap
  {
    hide Shrink;
    assert Pow2(0) == 1 && Pow2(1) == 2 && Pow2(2) == 4 && Pow2(3) == 8;
    var g := seq(7, n requires n >= 0 => GapAfter(gap, s, n));
    forall n | 0 <= n < 6 ensures g[n + 1] == Shrink(g[n], Pow2(s)) {
      assert g[n + 1] == GapAfter(gap, s, n + 1);
    }
    assert g[0] == gap && g[HalvingTime(s)] == GapAfter(gap, s, HalvingTime(s));
    if s == 0 {
      ShrinkLaw(g[0], 1);
    } else if s == 1 {
      ShrinkLaw(g[0], 2);
    } else if s == 2 {
      ShrinkLaw(g[0], 4);
      ShrinkLaw(g[1], 4);
      ShrinkLaw(g[2], 4);
    } else {
      ShrinkLaw(g[0], 8);
      ShrinkLaw(g[1], 8);
      ShrinkLaw(g[2], 8);
      ShrinkLaw(g[3], 8);
      ShrinkLaw(g[4], 8);
      ShrinkLaw(g[5], 8);
    }
  }

  /** After m halving times at most the 2^m-th part of a gap is left. */
  lemma {:induction false} GapVanishes(gap: nat, s: Smoothness, m: nat)
    ensures GapAfter(gap, s, m * HalvingTime(s)) * Pow2(m) <= gap
  {
    hide HalvingTime;
    if m == 0 {
    } else {
      var h := HalvingTime(s);
      GapVanishes(gap, s, m - 1);
      Distribute(m - 1, 1, h);
      GapSplit(gap, s, (m - 1) * h, h);
      var g := GapAfter(gap, s, (m - 1) * h);
      GapHalves(g, s);
      MulBounds(2 * GapAfter(g, s, h), g, Pow2(m - 1));
      Doubled(Pow2(m - 1), GapAfter(g, s, h));
      Doubled(GapAfter(g, s, h), Pow2(m - 1));
    }
  }

  lemma LargeGapCloses(gap: nat, s: Smoothness)
    requires gap <= MAX_BURST_PENALTY
    ensures GapAfter(gap, s, CyclesNeeded(s)) == 0
  {
    hide HalvingTime, GapAfter;
    GapVanishes(gap, s, 14);
    assert Pow2(14) == 16384 by {
      assert Pow2(7) == 128;
      Pow2Square(7, 128);
    }
    var left := GapAfter(gap, s, CyclesNeeded(s));
    assert left * 16384 <= gap;
  }

  lemma {:induction false} StaysThere(target: nat, prev: nat, s: Smoothness, n: nat)
    requires prev >= target && n >= 1
    ensures Smoothed(target, prev, s, n) == target
  {
    hide BinarySmooth;
    if n <= 1 {
    } else {
      StaysThere(target, prev, s, n - 1);
    }
    SmoothBounds(target, Smoothed(target, prev, s, n - 1), s);
  }

  lemma {:induction false} GapStaysClosed(gap: nat, s: Smoothness, m: nat, n: nat)
    requires m <= n && GapAfter(gap, s, m) == 0
    ensures GapAfter(gap, s, n) == 0
  {
    hide Pow2;
    if m == n {
    } else {
      GapStaysClosed(gap, s, m, n - 1);
    }
  }

  /**
   Repeating the same burst and sleep reaches exactly the burst's penalty: at once from above,
   and from below after at most 14 halving times (14 cycles for smoothness 0 and 1).
   */
  lemma SmoothingConverges(target: nat, prev: nat, s: Smoothness, n: nat)
    requires target <= MAX_BURST_PENALTY
    requires n >= (if prev >= target then 1 else CyclesNeeded(s))
    ensures Smoothed(target, prev, s, n) == target
  {
    hide CyclesNeeded, GapAfter;
    if prev >= target {
      StaysThere(target, prev, s, n);
    } else {
      GapLaw(target, prev, s, n);
      LargeGapCloses(target - prev, s);
      GapStaysClosed(target - prev, s, CyclesNeeded(s), n);
    }
  }

  /** The same on contexts: `n` rounds of one burst and one sleep. */
  function Cycles(c: Ctx, burst: u64, p: Params, kthread: bool, n: nat): Ctx {
    if n == 0 then c else Sleep(Tick(Cycles(c, burst, p, kthread, n - 1), burst, p, kthread), p, kthread)
  }

  lemma {:induction false} CyclesSmooth(c: Ctx, burst: u64, p: Params, kthread: bool, n: nat)
    requires c.burst == 0 && !c.stop
    ensures Cycles(c, burst, p, kthread, n).burst == 0 && !Cycles(c, burst, p, kthread, n).stop
    ensures Cycles(c, burst, p, kthread, n).prev == Smoothed(CalcPenalty(burst, p), c.prev, p.smoothness, n)
  {
    hide CalcPenalty, BinarySmooth;
    if n == 0 {
    } else {
      CyclesSmooth(c, burst, p, kthread, n - 1);
    }
  }

  /** A task that keeps running the same burst settles at exactly that burst's penalty. */
  lemma CyclesSettle(c: Ctx, burst: u64, p: Params, kthread: bool, n: nat)
    requires c.burst == 0 && !c.stop && n >= CyclesNeeded(p.smoothness)
    ensures Cycles(c, burst, p, kthread, n).prev == CalcPenalty(burst, p)
    ensures Cycles(c, burst, p, kthread, n).penalty == Effective(CalcPenalty(burst, p), kthread)
  {
    hide CalcPenalty, Smoothed, BinarySmooth, Tick;
    PenaltyMonotone(burst, burst, p);
    CyclesSmooth(c, burst, p, kthread, n);
    SmoothingConverges(CalcPenalty(burst, p), c.prev, p.smoothness, n);
  }
}
