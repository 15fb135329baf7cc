/**
 The memory sentinel called one error at a time: which errors warn, how often, and how its Rust
 and C versions compare.
 */
module Sentinel {
  import opened Bitwise

  const WINDOW_MS: nat := 60000

  datatype Action = Nothing | Warn | Offline

  datatype Window = Window(start: u64, count: u32)

  datatype Err = Err(now: u64, uncorrected: bool)

  /** `now - start > WINDOW_MS` in wrapping arithmetic. */
  predicate Expires(w: Window, now: u64) {
    (now - w.start) % U64 > WINDOW_MS
  }

  /** The window after one error. */
  function After(w: Window, e: Err): Window {
    if e.uncorrected then w
    else if Expires(w, e.now) then Window(e.now, 1)
    else w.(count := (w.count + 1) % U32)
  }

  function Decide(w: Window, e: Err, threshold: u32): Action {
    if e.uncorrected then Offline else if After(w, e).count == threshold then Warn else Nothing
  }

  function Code(a: Action): int {
    match a
    case Nothing => 0
    case Warn => 1
    case Offline => 2
  }

  function FallbackCode(w: Window, e: Err, threshold: u32): int {
    if e.uncorrected then 2 else if AsI32(After(w, e).count) == AsI32(threshold) then 1 else 0
  }

  class MemSentinel {
    var windowStartMs: u64
    var windowCount: u32

    ghost function View(): Window
      reads this
    {
      Window(windowStartMs, windowCount)
    }

    constructor ()
      ensures View() == Window(0, 0)
    {
      windowStartMs, windowCount := 0, 0;
    }

    /** The crate's method, without interference from other CPUs. */
    method OnError(now: u64, uncorrected: bool, threshold: u32) returns (action: Action)
      modifies this
      ensures View() == After(old(View()), Err(now, uncorrected))
      ensures action == Decide(old(View()), Err(now, uncorrected), threshold)
      ensures uncorrected ==> action == Offline && View() == old(View())
      ensures !uncorrected && (now - old(windowStartMs)) % U64 <= 60000 ==>
        View() == Window(old(windowStartMs), (old(windowCount) + 1) % U32)
      ensures !uncorrected && (now - old(windowStartMs)) % U64 >= 60001 ==> View() == Window(now, 1)
      ensures !uncorrected ==> action == if windowCount == threshold then Warn else Nothing
    {
      if uncorrected {
        return Offline;
      }
      var start := windowStartMs;
      if (now - start) % U64 > WINDOW_MS {
        if windowStartMs == start {
          windowStartMs := now;
          windowCount := 0;
        }
      }
      windowCount := (windowCount + 1) % U32;
      action := if windowCount == threshold then Warn else Nothing;
    }

    /** The entry point for C callers, in the crate and inside the kernel: the threshold is at least 1. */
    method OnErrorFfi(now: u64, uncorrected: u8, threshold: u32) returns (code: int)
      modifies this
      ensures View() == After(old(View()), Err(now, uncorrected != 0))
      ensures code == Code(Decide(old(View()), Err(now, uncorrected != 0), Max(threshold, 1)))
      ensures code == 2 <==> uncorrected != 0
      ensures code == 1 <==> uncorrected == 0 && windowCount == Max(threshold, 1)
      ensures code in {0, 1, 2}
      ensures uncorrected != 0 ==> View() == old(View())
      ensures uncorrected == 0 && (now - old(windowStartMs)) % U64 <= 60000 ==>
        View() == Window(old(windowStartMs), (old(windowCount) + 1) % U32)
      ensures uncorrected == 0 && (now - old(windowStartMs)) % U64 >= 60001 ==> View() == Window(now, 1)
    {
      var action := OnError(now, uncorrected != 0, Max(threshold, 1));
      code := Code(action);
    }

    /** The C fallback: the count is a signed int and the threshold is not clamped. */
    method OnErrorFallback(now: u64, uncorrected: u8, threshold: u32) returns (code: int)
      modifies this
      ensures View() == After(old(View()), Err(now, uncorrected != 0))
      ensures code == FallbackCode(old(View()), Err(now, uncorrected != 0), threshold)
      ensures code == 2 <==> uncorrected != 0
      ensures code == 1 <==> uncorrected == 0 && windowCount == threshold
      ensures code in {0, 1, 2}
      ensures uncorrected != 0 ==> View() == old(View())
      ensures uncorrected == 0 && (now - old(windowStartMs)) % U64 <= 60000 ==>
        View() == Window(old(windowStartMs), (old(windowCount) + 1) % U32)
      ensures uncorrected == 0 && (now - old(windowStartMs)) % U64 >= 60001 ==> View() == Window(now, 1)
    {
      if uncorrected != 0 {
        return 2;
      }
      var start := windowStartMs;
      if (now - start) % U64 > WINDOW_MS {
        if windowStartMs == start {
          windowStartMs := now;
          windowCount := 0;
        }
      }
      windowCount := (windowCount + 1) % U32;
      if AsI32(windowCount) == AsI32(threshold) {
        return 1;
      }
      return 0;
    }
  }

  /**
   The answer to every error, in numbers: uncorrected errors are offlined and leave the window
   alone; a corrected one joins the window up to 60000 ms after its start and opens a new one
   from 60001 ms on.
   */
  lemma AnswerToError(w: Window, now: u64, threshold: u32)
    requires w.start <= now
    ensures After(w, Err(now, true)) == w
    ensures Code(Decide(w, Err(now, true), threshold)) == FallbackCode(w, Err(now, true), threshold) == 2
    ensures After(w, Err(now, false)) ==
            if now <= w.start + 60000 then Window(w.start, (w.count + 1) % U32) else Window(now, 1)
    ensures var count, e := After(w, Err(now, false)).count, Err(now, false);
      && Code(Decide(w, e, threshold)) == FallbackCode(w, e, threshold) == if count == threshold then 1 else 0
  {
    SmallMod(now - w.start, U64);
  }

  /**
   The C fallback and the Rust entry point return the same code for every window and error
   exactly when the threshold is not 0, the value the sysctl excludes.
   */
  lemma FallbackAgreesIff(threshold: u32)
    ensures (forall w: Window, e: Err :: FallbackCode(w, e, threshold) == Code(Decide(w, e, Max(threshold, 1))))
            <==> threshold >= 1
  {
    if threshold == 0 {
      var w, e := Window(0, 0), Err(0, false);
      assert FallbackCode(w, e, threshold) == 0 && Decide(w, e, 1) == Warn;
    }
  }

  // ----- runs of errors

  function WindowAt(es: seq<Err>, n: nat): Window
    requires n <= |es|
  {
    if n == 0 then Window(0, 0) else After(WindowAt(es, n - 1), es[n - 1])
  }

  predicate Warns(es: seq<Err>, threshold: u32, k: nat)
    requires k < |es|
  {
    Decide(WindowAt(es, k), es[k], threshold) == Warn
  }

  /** Does error `k` open a new window? */
  predicate Opens(es: seq<Err>, k: nat)
    requires k < |es|
  {
    !es[k].uncorrected && Expires(WindowAt(es, k), es[k].now)
  }

  /** The index of the error that opened the window in force before error `n`. */
  function Opening(es: seq<Err>, n: nat): (b: nat)
    requires n <= |es|
    ensures b <= n && (n > 0 ==> b < n)
  {
    if n == 0 then 0 else if Opens(es, n - 1) then n - 1 else Opening(es, n - 1)
  }

  /** The number of corrected errors from `a` up to, not including, `b`. */
  function Corrected(es: seq<Err>, a: nat, b: nat): (c: nat)
    requires a <= b <= |es|
    ensures c <= b - a
    decreases b - a
  {
    if a == b then 0 else Corrected(es, a, b - 1) + (if es[b - 1].uncorrected then 0 else 1)
  }

  function WarnCount(es: seq<Err>, threshold: u32, n: nat): nat
    requires n <= |es|
  {
    if n == 0 then 0 else WarnCount(es, threshold, n - 1) + (if Warns(es, threshold, n - 1) then 1 else 0)
  }

  /** Times never go back, and no window holds 2^32 corrected errors. */
  predicate Ordered(es: seq<Err>) {
    forall i, k | 0 <= i <= k < |es| :: es[i].now <= es[k].now
  }

  predicate CountsAt(es: seq<Err>, n: nat)
    requires n < |es|
  {
    WindowAt(es, n).count + 1 < U32
  }

  predicate NoWrap(es: seq<Err>) {
    forall n | 0 <= n < |es| :: CountsAt(es, n)
  }

  /** The counter is the number of corrected errors since the window opened, all within it. */
  lemma {:induction false} WindowHolds(es: seq<Err>, n: nat)
    requires Ordered(es) && NoWrap(es) && n <= |es|
    ensures WindowAt(es, n).count == Corrected(es, Opening(es, n), n)
    ensures forall i | 0 <= i < n :: WindowAt(es, n).start <= es[i].now || i < Opening(es, n)
    ensures forall i | Opening(es, n) <= i < n && !es[i].uncorrected ::
      WindowAt(es, n).start <= es[i].now <= WindowAt(es, n).start + WINDOW_MS
    ensures n > 0 ==> WindowAt(es, n).start <= es[n - 1].now
  {
    if n == 0 {
    } else {
      WindowHolds(es, n - 1);
      assert CountsAt(es, n - 1);
    }
  }

  /** A window starts at the error that opened it, the first one at 0. */
  lemma {:induction false} WindowStart(es: seq<Err>, n: nat)
    requires n <= |es|
    ensures var b := Opening(es, n);
      && (n > 0 && Opens(es, b) ==> WindowAt(es, n).start == es[b].now)
      && (n == 0 || !Opens(es, b) ==> b == 0 && WindowAt(es, n).start == 0)
    ensures forall i | Opening(es, n) < i < n :: !Opens(es, i)
  {
    hide Expires;
    if n == 0 {
    } else {
      WindowStart(es, n - 1);
    }
  }

  /** Within one window the warning is raised by exactly the threshold-th corrected error. */
  lemma WarnsAtThreshold(es: seq<Err>, threshold: u32, k: nat)
    requires Ordered(es) && NoWrap(es) && k < |es| && threshold >= 1
    ensures Warns(es, threshold, k) <==>
            !es[k].uncorrected && Corrected(es, Opening(es, k + 1), k + 1) == threshold
  {
    WindowHolds(es, k + 1);
  }

  /** Every warning is backed by `threshold` corrected errors inside one 60-second window. */
  lemma WarningIsBacked(es: seq<Err>, threshold: u32, k: nat) returns (b: nat)
    requires Ordered(es) && NoWrap(es) && k < |es| && threshold >= 1 && Warns(es, threshold, k)
    ensures b <= k && Corrected(es, b, k + 1) == threshold
    ensures forall i, j | b <= i < j <= k && !es[i].uncorrected && !es[j].uncorrected ::
      es[j].now - es[i].now <= WINDOW_MS
  {
    b := Opening(es, k + 1);
    WindowHolds(es, k + 1);
  }

  lemma {:induction false} Split(es: seq<Err>, a: nat, b: nat, c: nat)
    requires a <= b <= c <= |es|
    ensures Corrected(es, a, c) == Corrected(es, a, b) + Corrected(es, b, c)
    decreases c
  {
    if b == c {
    } else {
      Split(es, a, b, c - 1);
    }
  }

  /** No window warns twice. */
  lemma OneWarningPerWindow(es: seq<Err>, threshold: u32, k: nat, l: nat)
    requires Ordered(es) && NoWrap(es) && k < l < |es| && threshold >= 1
    requires Warns(es, threshold, k) && Warns(es, threshold, l)
    ensures Opening(es, k + 1) != Opening(es, l + 1)
  {
    WarnsAtThreshold(es, threshold, k);
    WarnsAtThreshold(es, threshold, l);
    Split(es, Opening(es, k + 1), k + 1, l + 1);
    Split(es, k + 1, l, l + 1);
  }

  function OpenCount(es: seq<Err>, n: nat): nat
    requires n <= |es|
  {
    if n == 0 then 0 else OpenCount(es, n - 1) + (if Opens(es, n - 1) then 1 else 0)
  }

  lemma PlainAge(w: Window, now: u64)
    requires w.start <= now
    ensures Expires(w, now) <==> now - w.start > WINDOW_MS
  {
    SmallMod(now - w.start, U64);
  }

  /** Errors never come before the window in force, so its age does not wrap. */
  lemma AgeIsPlain(es: seq<Err>, n: nat)
    requires Ordered(es) && NoWrap(es) && n < |es|
    ensures WindowAt(es, n).start <= es[n].now
    ensures Expires(WindowAt(es, n), es[n].now) <==> es[n].now - WindowAt(es, n).start > WINDOW_MS
  {
    hide Expires;
    WindowHolds(es, n);
    if n > 0 {
      assert es[n - 1].now <= es[n].now;
    }
    PlainAge(WindowAt(es, n), es[n].now);
  }

  lemma {:induction false} WindowsAreSpaced(es: seq<Err>, n: nat)
    requires Ordered(es) && NoWrap(es) && n <= |es|
    ensures WindowAt(es, n).start >= (WINDOW_MS + 1) * OpenCount(es, n)
  {
    hide Expires;
    if n == 0 {
    } else {
      WindowsAreSpaced(es, n - 1);
      AgeIsPlain(es, n - 1);
    }
  }

  lemma {:induction false} WarningsPerWindow(es: seq<Err>, threshold: u32, n: nat)
    requires NoWrap(es) && n <= |es| && threshold >= 1
    ensures WarnCount(es, threshold, n) <= OpenCount(es, n) + (if WindowAt(es, n).count >= threshold then 1 else 0)
  {
    hide Expires;
    if n == 0 {
    } else {
      WarningsPerWindow(es, threshold, n - 1);
      assert CountsAt(es, n - 1);
    }
  }

  /** By time T (ms) at most 1 + T / 60001 warnings have been raised. */
  lemma WarningRate(es: seq<Err>, threshold: u32, n: nat)
    requires Ordered(es) && NoWrap(es) && 0 < n <= |es| && threshold >= 1
    ensures WarnCount(es, threshold, n) <= 1 + es[n - 1].now / (WINDOW_MS + 1)
  {
    WindowsAreSpaced(es, n);
    WarningsPerWindow(es, threshold, n);
    WindowHolds(es, n);
  }

  // ----- storms

  /** A window that has counted to the threshold has warned. */
  lemma {:induction false} CountedWindowWarned(es: seq<Err>, threshold: u32, n: nat) returns (k: nat)
    requires Ordered(es) && NoWrap(es) && n <= |es| && threshold >= 1 && WindowAt(es, n).count >= threshold
    ensures Opening(es, n) <= k < n && Warns(es, threshold, k)
  {
    WindowHolds(es, n);
    assert CountsAt(es, n - 1);
    if Warns(es, threshold, n - 1) {
      k := n - 1;
    } else {
      k := CountedWindowWarned(es, threshold, n - 1);
    }
  }

  /** Without an opening in between, the window stays the same. */
  lemma {:induction false} SameWindow(es: seq<Err>, m: nat, n: nat)
    requires m <= n <= |es| && forall i | m <= i < n :: !Opens(es, i)
    ensures Opening(es, n) == Opening(es, m) && WindowAt(es, n).start == WindowAt(es, m).start
    decreases n
  {
    if m == n {
    } else {
      SameWindow(es, m, n - 1);
    }
  }

  lemma {:induction false} StartsGrow(es: seq<Err>, m: nat, n: nat)
    requires Ordered(es) && NoWrap(es) && m <= n <= |es|
    ensures WindowAt(es, m).start <= WindowAt(es, n).start
    decreases n
  {
    if m == n {
    } else {
      StartsGrow(es, m, n - 1);
      WindowHolds(es, n - 1);
      if n > 1 {
        assert es[n - 2].now <= es[n - 1].now;
      }
    }
  }

  /** A window opened at `i` cannot be followed by another one within 60 seconds. */
  lemma OpeningsApart(es: seq<Err>, i: nat, j: nat)
    requires Ordered(es) && NoWrap(es) && i < j < |es| && Opens(es, i) && Opens(es, j)
    ensures es[j].now - es[i].now > WINDOW_MS
  {
    WindowHolds(es, j);
    StartsGrow(es, i + 1, j);
  }

  /** A span of at most 60 seconds meets at most two windows. */
  lemma SpanMeetsTwoWindows(es: seq<Err>, a: nat, b: nat, i: nat, j: nat)
    requires Ordered(es) && NoWrap(es) && a < b <= |es| && es[b - 1].now - es[a].now <= WINDOW_MS
    requires a < i < b && a < j < b && Opens(es, i) && Opens(es, j)
    ensures i == j
  {
    if i < j {
      OpeningsApart(es, i, j);
    } else if j < i {
      OpeningsApart(es, j, i);
    }
  }

  /** Enough corrected errors inside one window: it has warned. */
  lemma WindowWarned(es: seq<Err>, threshold: u32, a: nat, b: nat) returns (k: nat)
    requires Ordered(es) && NoWrap(es) && a < b <= |es| && threshold >= 1
    requires Corrected(es, a, b) >= threshold && forall i | a < i < b :: !Opens(es, i)
    ensures Opening(es, a + 1) <= k < b && Warns(es, threshold, k)
  {
    SameWindow(es, a + 1, b);
    WindowHolds(es, b);
    Split(es, Opening(es, b), a, b);
    k := CountedWindowWarned(es, threshold, b);
  }

  /**
   Any 2 * threshold - 1 corrected errors within 60 seconds raise a warning in one of the (at
   most two) windows they fall into.
   */
  lemma StormWarns(es: seq<Err>, threshold: u32, a: nat, b: nat) returns (k: nat)
    requires Ordered(es) && NoWrap(es) && a < b <= |es| && threshold >= 1
    requires es[b - 1].now - es[a].now <= WINDOW_MS && Corrected(es, a, b) >= 2 * threshold - 1
    ensures Opening(es, a + 1) <= k < b && Warns(es, threshold, k)
  {
    hide WindowAt, Opens, Warns, Corrected, NoWrap, Ordered;
    if i :| a < i < b && Opens(es, i) {
      forall j | a < j < i || i < j < b ensures !Opens(es, j) {
        if Opens(es, j) {
          SpanMeetsTwoWindows(es, a, b, i, j);
        }
      }
      Split(es, a, i, b);
      if Corrected(es, a, i) >= threshold {
        k := WindowWarned(es, threshold, a, i);
      } else {
        SameWindow(es, i + 1, b);
        WindowHolds(es, b);
        k := CountedWindowWarned(es, threshold, b);
      }
    } else {
      k := WindowWarned(es, threshold, a, b);
    }
  }

  /** `n` corrected errors on either side of the moment the first window expires. */
  function Straddling(n: nat): (es: seq<Err>)
    ensures |es| == 2 * n
  {
    seq(2 * n, i => Err(if i < n then WINDOW_MS else WINDOW_MS + 1, false))
  }

  lemma {:induction false} StraddlingWindows(n: nat, k: nat)
    requires n < U32 && k <= 2 * n
    ensures WindowAt(Straddling(n), k) == if k <= n then Window(0, k) else Window(WINDOW_MS + 1, k - n)
  {
    if k == 0 {
    } else {
      StraddlingWindows(n, k - 1);
    }
  }

  lemma {:induction false} AllCorrected(es: seq<Err>, n: nat)
    requires n <= |es| && forall i | 0 <= i < n :: !es[i].uncorrected
    ensures Corrected(es, 0, n) == n
  {
    if n == 0 {
    } else {
      AllCorrected(es, n - 1);
    }
  }

  lemma StraddlingQuiet(n: nat, k: nat)
    requires 0 < n < U32 - 1 && k < 2 * n
    ensures CountsAt(Straddling(n), k) && !Warns(Straddling(n), n + 1, k)
  {
    hide Expires, Straddling;
    var es := Straddling(n);
    StraddlingWindows(n, k);
    StraddlingWindows(n, k + 1);
    assert WindowAt(es, k + 1) == After(WindowAt(es, k), es[k]);
  }

  /** One error less need not warn: 2 * threshold - 2 corrected errors within a millisecond, unnoticed. */
  lemma StormBoundIsTight(threshold: u32) returns (es: seq<Err>)
    requires threshold >= 2
    ensures Ordered(es) && NoWrap(es) && es != [] && es[|es| - 1].now - es[0].now <= 1
    ensures Corrected(es, 0, |es|) == 2 * threshold - 2
    ensures forall k | 0 <= k < |es| :: !Warns(es, threshold, k)
  {
    hide Warns, CountsAt;
    es := Straddling(threshold - 1);
    AllCorrected(es, |es|);
    forall k | 0 <= k < |es| ensures CountsAt(es, k) && !Warns(es, threshold, k) {
      StraddlingQuiet(threshold - 1, k);
    }
  }
}
