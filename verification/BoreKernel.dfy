/**
 The C side of the burst accounting (`kernel/sched/bore.c`): wrapping u64 burst time, branch-free
 maximum and masks, a score that is the high byte of the penalty, and the re-entrancy guard
 around reweighting. It is refined by the Rust context on every run without overflow.
 */
module BoreKernel {
  import opened Bitwise
  import opened BoreMath
  import opened BoreTask

  /** `struct bore_ctx` without caches; the score shares its storage with the penalty. */
  datatype KCtx = KCtx(burst: u64, prev: u16, curr: u16, penalty: u16, stop: bool)

  const NEW_KCTX: KCtx := KCtx(0, 0, 0, 0, false)

  /** The second byte of the little-endian penalty. */
  function Score(c: KCtx): u8 {
    ScoreFits(c.penalty);
    c.penalty / 256
  }

  /** `update_penalty`: maximum and kernel-thread mask without branches. */
  function Penalized(c: KCtx, kthread: bool): KCtx {
    var diff := c.curr - c.prev;
    var maxVal := (c.curr - And(diff, SignMask(diff))) % U16;
    var isKthread := if kthread then 1 else 0;
    c.(penalty := And(maxVal, -(1 - isKthread)) % U16)
  }

  lemma PenaltyIsMax(c: KCtx, kthread: bool)
    ensures Penalized(c, kthread) == c.(penalty := if kthread then 0 else Max(c.prev, c.curr))
  {
    hide And;
    var diff := c.curr - c.prev;
    NegativePart(diff);
    var maxVal := (c.curr - And(diff, SignMask(diff))) % U16;
    assert maxVal == Max(c.prev, c.curr);
    AndZero(maxVal);
    AndOnes(maxVal);
  }

  function KTick(c: KCtx, delta: u64, p: Params, kthread: bool): KCtx {
    if c.stop then c
    else
      var burst := (c.burst + delta) % U64;
      var curr := CalcPenalty(burst, p);
      var d := c.(burst := burst, curr := curr % U16);
      if curr <= d.prev then d else Penalized(d, kthread)
  }

  function KSleep(c: KCtx, p: Params, kthread: bool): KCtx {
    var prev := BinarySmoothMasked(c.curr, c.prev, p.smoothness) % U16;
    Penalized(c.(prev := prev, curr := 0, burst := 0), kthread)
  }

  function KStep(c: KCtx, op: Op, p: Params, kthread: bool): KCtx {
    match op
    case Ran(delta) => KTick(c, delta, p, kthread)
    case Slept => KSleep(c, p, kthread)
  }

  function KRun(c: KCtx, ops: seq<Op>, p: Params, kthread: bool): KCtx {
    if ops == [] then c
    else KStep(KRun(c, ops[..|ops| - 1], p, kthread), ops[|ops| - 1], p, kthread)
  }

  // ----- refinement

  /** Both contexts hold the same burst, penalties and score. */
  predicate Agree(c: Ctx, k: KCtx) {
    c.burst == k.burst && c.prev == k.prev && c.curr == k.curr && c.penalty == k.penalty
    && c.score == Score(k) && c.stop == k.stop
  }

  /** A tick agrees exactly when the update is suspended or the burst time does not overflow. */
  lemma TickAgrees(c: Ctx, k: KCtx, delta: u64, p: Params, kthread: bool)
    requires Agree(c, k)
    ensures Agree(Tick(c, delta, p, kthread), KTick(k, delta, p, kthread)) <==> c.stop || c.burst + delta < U64
  {
    hide CalcPenalty, Penalized;
    if !c.stop {
      var wrapped := (c.burst + delta) % U64;
      PenaltyIsMax(k.(burst := wrapped, curr := CalcPenalty(wrapped, p) % U16), kthread);
    }
    if !c.stop && c.burst + delta < U64 {
      var burst := c.burst + delta;
      PenaltyMonotone(burst, burst, p);
      PenaltyIsMax(k.(burst := burst, curr := CalcPenalty(burst, p)), kthread);
    }
  }

  lemma SleepAgrees(c: Ctx, k: KCtx, p: Params, kthread: bool)
    requires Agree(c, k)
    ensures Agree(Sleep(c, p, kthread), KSleep(k, p, kthread))
  {
    hide BinarySmooth, BinarySmoothMasked, Penalized;
    SmoothBounds(c.curr, c.prev, p.smoothness);
    SmoothAgrees(c.curr, c.prev, p.smoothness);
    var prev := BinarySmooth(c.curr, c.prev, p.smoothness);
    PenaltyIsMax(k.(prev := prev, curr := 0, burst := 0), kthread);
  }

  /** No tick of the run overflows the 64-bit burst time. */
  predicate NoOverflow(c: Ctx, ops: seq<Op>, p: Params, kthread: bool) {
    forall i | 0 <= i < |ops| && ops[i].Ran? :: Run(c, ops[..i], p, kthread).burst + ops[i].delta < U64
  }

  lemma PrefixNoOverflow(c: Ctx, ops: seq<Op>, n: nat, p: Params, kthread: bool)
    requires n <= |ops| && NoOverflow(c, ops, p, kthread)
    ensures NoOverflow(c, ops[..n], p, kthread)
  {
    hide Run;
    forall i | 0 <= i < n && ops[..n][i].Ran?
      ensures Run(c, ops[..n][..i], p, kthread).burst + ops[..n][i].delta < U64
    {
      assert ops[..n][..i] == ops[..i];
      assert ops[i].Ran?;
    }
  }

  /** On every run without overflow the Rust and the C accounting agree step by step. */
  lemma {:induction false} RunsAgree(c: Ctx, k: KCtx, ops: seq<Op>, p: Params, kthread: bool)
    requires Agree(c, k) && NoOverflow(c, ops, p, kthread)
    ensures Agree(Run(c, ops, p, kthread), KRun(k, ops, p, kthread))
  {
    hide Tick, KTick, Sleep, KSleep, Agree;
    if ops == [] {
    } else {
      var n := |ops| - 1;
      PrefixNoOverflow(c, ops, n, p, kthread);
      RunsAgree(c, k, ops[..n], p, kthread);
      var c', k' := Run(c, ops[..n], p, kthread), KRun(k, ops[..n], p, kthread);
      match ops[n]
      case Ran(delta) =>
        assert ops[n].Ran?;
        TickAgrees(c', k', delta, p, kthread);
      case Slept =>
        SleepAgrees(c', k', p, kthread);
    }
  }

  /** Both accountings agree after every prefix of the run. */
  predicate AgreeThroughout(c: Ctx, k: KCtx, ops: seq<Op>, p: Params, kthread: bool) {
    forall n | 0 <= n <= |ops| :: Agree(Run(c, ops[..n], p, kthread), KRun(k, ops[..n], p, kthread))
  }

  lemma {:induction false} StopIsKept(c: Ctx, ops: seq<Op>, p: Params, kthread: bool)
    ensures Run(c, ops, p, kthread).stop == c.stop
  {
    hide CalcPenalty, BinarySmooth;
    if ops == [] {
    } else {
      StopIsKept(c, ops[..|ops| - 1], p, kthread);
    }
  }

  lemma PrefixStep(c: Ctx, k: KCtx, ops: seq<Op>, i: nat, p: Params, kthread: bool)
    requires i < |ops|
    ensures Run(c, ops[..i + 1], p, kthread) == Step(Run(c, ops[..i], p, kthread), ops[i], p, kthread)
    ensures KRun(k, ops[..i + 1], p, kthread) == KStep(KRun(k, ops[..i], p, kthread), ops[i], p, kthread)
  {
    hide Step, KStep;
    assert ops[..i + 1][..i] == ops[..i];
  }

  /** With updates enabled the two agree throughout a run exactly when no tick overflows. */
  lemma RunsAgreeIff(c: Ctx, k: KCtx, ops: seq<Op>, p: Params, kthread: bool)
    requires Agree(c, k) && !c.stop
    ensures AgreeThroughout(c, k, ops, p, kthread) <==> NoOverflow(c, ops, p, kthread)
  {
    hide Tick, KTick, Sleep, KSleep, Agree, Run, KRun;
    if AgreeThroughout(c, k, ops, p, kthread) {
      forall i | 0 <= i < |ops| && ops[i].Ran?
        ensures Run(c, ops[..i], p, kthread).burst + ops[i].delta < U64
      {
        StopIsKept(c, ops[..i], p, kthread);
        PrefixStep(c, k, ops, i, p, kthread);
        TickAgrees(Run(c, ops[..i], p, kthread), KRun(k, ops[..i], p, kthread), ops[i].delta, p, kthread);
      }
    } else {
      var n :| 0 <= n <= |ops| && !Agree(Run(c, ops[..n], p, kthread), KRun(k, ops[..n], p, kthread));
      if NoOverflow(c, ops, p, kthread) {
        PrefixNoOverflow(c, ops, n, p, kthread);
        RunsAgree(c, k, ops[..n], p, kthread);
      }
    }
  }

  lemma NewAgrees()
    ensures Agree(NEW_CTX, NEW_KCTX)
  {
  }

  lemma FirstTick(p: Params, kthread: bool)
    ensures var ops := [Ran(U64 - 1)];
      var c, k := Run(NEW_CTX, ops, p, kthread), KRun(NEW_KCTX, ops, p, kthread);
      Agree(c, k) && c.burst == U64 - 1 && !c.stop
  {
    hide CalcPenalty, KTick, Agree;
    var ops := [Ran(U64 - 1)];
    assert ops[..0] == [];
    assert Agree(NEW_CTX, NEW_KCTX) by {
      NewAgrees();
    }
    TickAgrees(NEW_CTX, NEW_KCTX, U64 - 1, p, kthread);
  }

  /** Whatever the tunables: two ticks of a new task on which the saturated and the wrapped burst time differ. */
  lemma OverflowSplits(p: Params, kthread: bool)
    ensures var ops := [Ran(U64 - 1), Ran(1)];
      && Agree(NEW_CTX, NEW_KCTX)
      && !Agree(Run(NEW_CTX, ops, p, kthread), KRun(NEW_KCTX, ops, p, kthread))
  {
    hide Tick, KTick, Run, KRun;
    var ops := [Ran(U64 - 1), Ran(1)];
    FirstTick(p, kthread);
    assert ops[..1] == [Ran(U64 - 1)] && ops[..2] == ops;
    PrefixStep(NEW_CTX, NEW_KCTX, ops, 1, p, kthread);
    TickAgrees(Run(NEW_CTX, ops[..1], p, kthread), KRun(NEW_KCTX, ops[..1], p, kthread), 1, p, kthread);
  }

  // ----- the task structure updated in place

  /** Static priorities: 0..99 real-time, 100..139 normal. */
  type StaticPriority = x: int | 0 <= x < 140

  class TaskStruct {
    const kthread: bool
    const idlePolicy: bool
    var burstTime: u64
    var prevPenalty: u16
    var currPenalty: u16
    var penalty: u16
    var stopUpdate: bool
    var onRq: bool
    var staticPrio: StaticPriority
    var boreEnabled: bool
    /** The priority whose load weight the scheduling entity carries. */
    var weightPrio: int

    ghost function View(): KCtx
      reads this
    {
      KCtx(burstTime, prevPenalty, currPenalty, penalty, stopUpdate)
    }

    /** The static priority plus the score, clamped to 0..39. */
    ghost function Prio(): int
      reads this
    {
      Min(Max(staticPrio - 100 + (if boreEnabled then Score(View()) else 0), 0), MAX_PRIO)
    }

    constructor (kthread: bool, idlePolicy: bool, staticPrio: StaticPriority)
      ensures View() == NEW_KCTX && weightPrio == Prio()
      ensures this.kthread == kthread && this.idlePolicy == idlePolicy
    {
      this.kthread := kthread;
      this.idlePolicy := idlePolicy;
      burstTime, prevPenalty, currPenalty, penalty := 0, 0, 0, 0;
      stopUpdate, onRq, boreEnabled := false, false, true;
      this.staticPrio := staticPrio;
      weightPrio := if staticPrio < 100 then 0 else staticPrio - 100;
    }

    method EffectivePrio() returns (prio: int)
      ensures prio == Prio() && 0 <= prio <= 39
      ensures prio == Min(Max(staticPrio - 100 + (if boreEnabled then penalty / 256 else 0), 0), 39)
    {
      ScoreFits(penalty);
      prio := EffectivePrioMasked(staticPrio - 100, penalty / 256, boreEnabled);
      EffectivePrioAgrees(staticPrio - 100, penalty / 256, boreEnabled);
    }

    /**
     Reweighting a queued task may account running time to it again; `nested` are the deltas
     of those calls. The guard makes every one of them a no-op.
     */
    method ReweightByPrio(prio: int, nested: seq<u64>, p: Params)
      modifies this`burstTime, this`currPenalty, this`penalty, this`stopUpdate, this`weightPrio
      ensures View() == old(View()).(stop := if onRq && !idlePolicy then false else old(stopUpdate))
      ensures weightPrio == if idlePolicy then old(weightPrio) else prio
      decreases |nested|, 0
    {
      if idlePolicy {
        return;
      }
      if onRq {
        stopUpdate := true;
        for i := 0 to |nested|
          invariant View() == old(View()).(stop := true)
        {
          UpdateCurr(nested[i], [], p);
        }
        weightPrio := prio;
        stopUpdate := false;
      } else {
        weightPrio := prio;
      }
    }

    /** Unless the task has the idle policy, its weight follows its effective priority. */
    method UpdatePenalty(nested: seq<u64>, p: Params)
      modifies this`burstTime, this`currPenalty, this`penalty, this`stopUpdate, this`weightPrio
      ensures View() == Penalized(old(View()), kthread).(stop := stopUpdate)
      ensures !old(stopUpdate) ==> !stopUpdate
      ensures !idlePolicy && old(weightPrio == Prio()) ==> weightPrio == Prio()
      ensures idlePolicy ==> weightPrio == old(weightPrio)
      decreases |nested|, 1
    {
      hide And;
      var prevPrio := EffectivePrio();
      var diff := currPenalty - prevPenalty;
      var maxVal := (currPenalty - And(diff, SignMask(diff))) % U16;
      var isKthread := if kthread then 1 else 0;
      penalty := And(maxVal, -(1 - isKthread)) % U16;
      var newPrio := EffectivePrio();
      if newPrio != prevPrio {
        ReweightByPrio(newPrio, nested, p);
      }
    }

    method UpdateCurr(delta: u64, nested: seq<u64>, p: Params)
      modifies this`burstTime, this`currPenalty, this`penalty, this`stopUpdate, this`weightPrio
      ensures View() == KTick(old(View()), delta, p, kthread)
      ensures !idlePolicy && old(weightPrio == Prio()) ==> weightPrio == Prio()
      ensures idlePolicy || old(stopUpdate) ==> weightPrio == old(weightPrio)
      decreases |nested|, 2
    {
      hide CalcPenalty, Penalized;
      if stopUpdate {
        return;
      }
      burstTime := (burstTime + delta) % U64;
      var curr := CalcPenalty(burstTime, p);
      currPenalty := curr % U16;
      if curr <= prevPenalty {
        return;
      }
      PenaltyIsMax(View(), kthread);
      UpdatePenalty(nested, p);
    }

    method RestartBurst(nested: seq<u64>, p: Params)
      modifies this`burstTime, this`prevPenalty, this`currPenalty, this`penalty, this`stopUpdate, this`weightPrio
      ensures View() == KSleep(old(View()), p, kthread).(stop := stopUpdate)
      ensures !old(stopUpdate) ==> !stopUpdate
      ensures !idlePolicy && old(weightPrio == Prio()) ==> weightPrio == Prio()
      ensures idlePolicy ==> weightPrio == old(weightPrio)
    {
      prevPenalty := BinarySmoothMasked(currPenalty, prevPenalty, p.smoothness) % U16;
      currPenalty := 0;
      burstTime := 0;
      UpdatePenalty(nested, p);
    }
  }
}
