/** The Rust `BoreCtx`, updated in place by ticks and sleeps. */
module BoreContext {
  import opened Bitwise
  import opened BoreMath
  import opened BoreTask

  class BoreCtx {
    var burstTime: u64
    var prevPenalty: u16
    var currPenalty: u16
    var penalty: u16
    var score: u8
    var stopUpdate: bool
    var futexWaiting: bool
    var subtree: u64
    var group: u64

    ghost function View(): Ctx
      reads this
    {
      Ctx(burstTime, prevPenalty, currPenalty, penalty, score, stopUpdate)
    }

    constructor ()
      ensures View() == NEW_CTX && !futexWaiting && subtree == 0 && group == 0
    {
      burstTime, prevPenalty, currPenalty, penalty, score := 0, 0, 0, 0, 0;
      stopUpdate, futexWaiting, subtree, group := false, false, 0, 0;
    }

    method UpdateCurr(delta: u64, p: Params, kthread: bool) returns (reweight: bool)
      modifies this`burstTime, this`currPenalty, this`penalty, this`score
      ensures View() == Tick(old(View()), delta, p, kthread)
      ensures reweight == Reweights(old(View()), delta, p)
    {
      hide CalcPenalty, And;
      if stopUpdate {
        return false;
      }
      burstTime := if burstTime + delta < U64 then burstTime + delta else U64 - 1;
      PenaltyMonotone(burstTime, burstTime, p);
      var curr := CalcPenalty(burstTime, p) % U16;
      currPenalty := curr;
      if curr <= prevPenalty {
        return false;
      }
      var diff := currPenalty - prevPenalty;
      NegativePart(diff);
      var maxVal := currPenalty - And(diff, SignMask(diff));
      penalty := if kthread then 0 else maxVal;
      ScoreFits(penalty);
      score := penalty / 256;
      return true;
    }

    method RestartBurst(p: Params, kthread: bool)
      modifies this`burstTime, this`prevPenalty, this`currPenalty, this`penalty, this`score
      ensures View() == Sleep(old(View()), p, kthread)
    {
      SmoothBounds(currPenalty, prevPenalty, p.smoothness);
      var smoothed := BinarySmooth(currPenalty, prevPenalty, p.smoothness) % U16;
      prevPenalty := smoothed;
      currPenalty := 0;
      burstTime := 0;
      penalty := if kthread then 0 else smoothed;
      ScoreFits(penalty);
      score := penalty / 256;
    }
  }
}
