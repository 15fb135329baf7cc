/**
 The memory sentinel on several CPUs: every atomic operation is one step, and the steps of the
 CPUs interleave freely.
 */
module SentinelCpus {
  import opened Bitwise
  import opened Sentinel

  /** Where a CPU is inside `on_error` for a corrected error at time `now`. */
  datatype Pc =
    | Idle
    | Exchange(now: u64, start: u64)
    | StoreZero(now: u64)
    | FetchAdd(now: u64)

  /**
   The two atomics and the CPUs; the rest is history: adds since the last store of 0, stores,
   successful exchanges, warnings, and warnings since the last successful exchange.
   */
  datatype Machine = Machine(
    start: u64,
    count: u32,
    pcs: seq<Pc>,
    adds: nat,
    stores: nat,
    wins: nat,
    warns: nat,
    windowWarns: nat)

  function Init(cpus: nat): Machine {
    Machine(0, 0, seq(cpus, i => Idle), 0, 0, 0, 0, 0)
  }

  /** CPU `cpu` performs its next atomic operation; an idle CPU begins a call at time `now`. */
  datatype Move = Move(cpu: nat, now: u64)

  function Next(m: Machine, v: Move, threshold: u32): (r: Machine)
    requires v.cpu < |m.pcs|
    ensures |r.pcs| == |m.pcs|
  {
    match m.pcs[v.cpu]
    case Idle =>
      // load of the window start
      var expired := (v.now - m.start) % U64 > WINDOW_MS;
      m.(pcs := m.pcs[v.cpu := if expired then Exchange(v.now, m.start) else FetchAdd(v.now)])
    case Exchange(now, start) =>
      if m.start == start then
        m.(start := now, pcs := m.pcs[v.cpu := StoreZero(now)], wins := m.wins + 1, windowWarns := 0)
      else m.(pcs := m.pcs[v.cpu := FetchAdd(now)])
    case StoreZero(now) =>
      m.(count := 0, pcs := m.pcs[v.cpu := FetchAdd(now)], adds := 0, stores := m.stores + 1)
    case FetchAdd(_) =>
      var count := (m.count + 1) % U32;
      var warn := if count == threshold then 1 else 0;
      m.(count := count, pcs := m.pcs[v.cpu := Idle], adds := m.adds + 1,
         warns := m.warns + warn, windowWarns := m.windowWarns + warn)
  }

  predicate ValidMoves(cpus: nat, moves: seq<Move>) {
    forall i | 0 <= i < |moves| :: moves[i].cpu < cpus
  }

  function Run(m: Machine, moves: seq<Move>, threshold: u32): (r: Machine)
    requires ValidMoves(|m.pcs|, moves)
    ensures |r.pcs| == |m.pcs|
  {
    if moves == [] then m else Next(Run(m, moves[..|moves| - 1], threshold), moves[|moves| - 1], threshold)
  }

  /** Fewer than 2^32 errors are added between two stores of 0. */
  predicate FewAdds(m: Machine, moves: seq<Move>, threshold: u32)
    requires ValidMoves(|m.pcs|, moves)
  {
    forall n | 0 <= n <= |moves| :: Run(m, moves[..n], threshold).adds < U32
  }

  // ----- every interleaving

  function PendingStores(pcs: seq<Pc>): nat {
    if pcs == [] then 0 else PendingStores(pcs[..|pcs| - 1]) + (if pcs[|pcs| - 1].StoreZero? then 1 else 0)
  }

  lemma {:induction false} PendingUpdate(pcs: seq<Pc>, i: nat, pc: Pc)
    requires i < |pcs|
    ensures PendingStores(pcs[i := pc]) ==
            PendingStores(pcs) - (if pcs[i].StoreZero? then 1 else 0) + (if pc.StoreZero? then 1 else 0)
  {
    var n := |pcs| - 1;
    if i == n {
      assert pcs[i := pc][..n] == pcs[..n];
    } else {
      PendingUpdate(pcs[..n], i, pc);
      assert pcs[i := pc][..n] == pcs[..n][i := pc];
    }
  }

  lemma {:induction false} NothingPending(cpus: nat)
    ensures PendingStores(seq(cpus, i => Idle)) == 0
  {
    if cpus == 0 {
    } else {
      NothingPending(cpus - 1);
      var pcs := seq(cpus, i => Idle);
      assert pcs[..cpus - 1] == seq(cpus - 1, i => Idle);
    }
  }

  predicate Inv(m: Machine, threshold: u32) {
    && m.count == m.adds < U32
    && m.warns <= m.stores + (if m.count >= threshold then 1 else 0)
    && m.stores + PendingStores(m.pcs) == m.wins
  }

  lemma NextKeepsInv(m: Machine, v: Move, threshold: u32)
    requires Inv(m, threshold) && v.cpu < |m.pcs| && threshold >= 1 && Next(m, v, threshold).adds < U32
    ensures Inv(Next(m, v, threshold), threshold)
  {
    PendingUpdate(m.pcs, v.cpu, Next(m, v, threshold).pcs[v.cpu]);
  }

  lemma FewAddsPrefix(m: Machine, moves: seq<Move>, threshold: u32)
    requires ValidMoves(|m.pcs|, moves) && FewAdds(m, moves, threshold) && moves != []
    ensures FewAdds(m, moves[..|moves| - 1], threshold)
    ensures Run(m, moves, threshold).adds < U32
  {
    var n := |moves| - 1;
    forall k | 0 <= k <= n ensures Run(m, moves[..n][..k], threshold).adds < U32 {
      assert moves[..n][..k] == moves[..k];
    }
    assert moves[..n + 1] == moves;
  }

  /**
   In every interleaving the counter is the number of adds since the last store of 0, and there
   are at most 1 + stores warnings, at most 1 + successful exchanges.
   */
  lemma {:induction false} EveryInterleaving(cpus: nat, moves: seq<Move>, threshold: u32)
    requires ValidMoves(cpus, moves) && FewAdds(Init(cpus), moves, threshold) && threshold >= 1
    ensures Inv(Run(Init(cpus), moves, threshold), threshold)
    ensures var m := Run(Init(cpus), moves, threshold); m.warns <= 1 + m.stores <= 1 + m.wins
  {
    if moves == [] {
      NothingPending(cpus);
    } else {
      var n := |moves| - 1;
      FewAddsPrefix(Init(cpus), moves, threshold);
      EveryInterleaving(cpus, moves[..n], threshold);
      assert moves[..n + 1] == moves;
      NextKeepsInv(Run(Init(cpus), moves[..n], threshold), moves[n], threshold);
    }
  }

  // ----- one warning per window: resets that no add disturbs

  /** In no prefix of the run has the window in force warned more than once. */
  predicate WarnsOnce(cpus: nat, moves: seq<Move>, threshold: u32)
    requires ValidMoves(cpus, moves)
  {
    forall n | 0 <= n <= |moves| :: Run(Init(cpus), moves[..n], threshold).windowWarns <= 1
  }

  ghost predicate AlwaysWarnsOnce(cpus: nat, threshold: u32) {
    forall moves | ValidMoves(cpus, moves) && FewAdds(Init(cpus), moves, threshold) :: WarnsOnce(cpus, moves, threshold)
  }

  /** This step is no add while some CPU is between winning the exchange and storing 0. */
  predicate Undisturbed(m: Machine, v: Move)
    requires v.cpu < |m.pcs|
  {
    m.pcs[v.cpu].FetchAdd? ==> PendingStores(m.pcs) == 0
  }

  predicate ResetsUndisturbed(cpus: nat, moves: seq<Move>, threshold: u32)
    requires ValidMoves(cpus, moves)
  {
    forall n | 0 <= n < |moves| :: Undisturbed(Run(Init(cpus), moves[..n], threshold), moves[n])
  }

  /** While a store of 0 is pending the new window has not warned; afterwards once, if it counted that far. */
  predicate CalmInv(m: Machine, threshold: u32) {
    && m.count == m.adds < U32
    && m.windowWarns <= (if PendingStores(m.pcs) > 0 then 0 else if m.count >= threshold then 1 else 0)
  }

  lemma CalmNext(m: Machine, v: Move, threshold: u32)
    requires CalmInv(m, threshold) && v.cpu < |m.pcs| && Undisturbed(m, v)
    requires threshold >= 1 && Next(m, v, threshold).adds < U32
    ensures CalmInv(Next(m, v, threshold), threshold)
  {
    PendingUpdate(m.pcs, v.cpu, Next(m, v, threshold).pcs[v.cpu]);
  }

  lemma UndisturbedPrefix(cpus: nat, moves: seq<Move>, n: nat, threshold: u32)
    requires ValidMoves(cpus, moves) && ResetsUndisturbed(cpus, moves, threshold) && n <= |moves|
    ensures ResetsUndisturbed(cpus, moves[..n], threshold)
  {
    hide Run, Undisturbed;
    forall k | 0 <= k < n ensures Undisturbed(Run(Init(cpus), moves[..n][..k], threshold), moves[..n][k]) {
      assert moves[..n][..k] == moves[..k];
    }
  }

  lemma {:induction false} CalmRun(cpus: nat, moves: seq<Move>, threshold: u32)
    requires ValidMoves(cpus, moves) && FewAdds(Init(cpus), moves, threshold) && threshold >= 1
    requires ResetsUndisturbed(cpus, moves, threshold)
    ensures CalmInv(Run(Init(cpus), moves, threshold), threshold)
  {
    hide Next, Undisturbed;
    if moves == [] {
      NothingPending(cpus);
    } else {
      var n := |moves| - 1;
      FewAddsPrefix(Init(cpus), moves, threshold);
      UndisturbedPrefix(cpus, moves, n, threshold);
      CalmRun(cpus, moves[..n], threshold);
      CalmNext(Run(Init(cpus), moves[..n], threshold), moves[n], threshold);
    }
  }

  lemma FewAddsTake(cpus: nat, moves: seq<Move>, n: nat, threshold: u32)
    requires ValidMoves(cpus, moves) && FewAdds(Init(cpus), moves, threshold) && n <= |moves|
    ensures FewAdds(Init(cpus), moves[..n], threshold)
  {
    hide Run;
    forall k | 0 <= k <= n ensures Run(Init(cpus), moves[..n][..k], threshold).adds < U32 {
      assert moves[..n][..k] == moves[..k];
    }
  }

  /**
   On any number of CPUs: if no error is added while a reset is between its exchange and its
   store of 0, no window warns twice.
   */
  lemma UndisturbedWarnsOnce(cpus: nat, moves: seq<Move>, threshold: u32)
    requires ValidMoves(cpus, moves) && FewAdds(Init(cpus), moves, threshold) && threshold >= 1
    requires ResetsUndisturbed(cpus, moves, threshold)
    ensures WarnsOnce(cpus, moves, threshold)
  {
    hide Run, FewAdds, ResetsUndisturbed;
    forall n | 0 <= n <= |moves| ensures Run(Init(cpus), moves[..n], threshold).windowWarns <= 1 {
      FewAddsTake(cpus, moves, n, threshold);
      UndisturbedPrefix(cpus, moves, n, threshold);
      CalmRun(cpus, moves[..n], threshold);
    }
  }

  /** At most one CPU is inside a call. */
  predicate OneCall(pcs: seq<Pc>) {
    forall i, k | 0 <= i < k < |pcs| :: pcs[i].Idle? || pcs[k].Idle?
  }

  predicate CallsApart(cpus: nat, moves: seq<Move>, threshold: u32)
    requires ValidMoves(cpus, moves)
  {
    forall n | 0 <= n < |moves| :: OneCall(Run(Init(cpus), moves[..n], threshold).pcs)
  }

  lemma {:induction false} NoStorePending(pcs: seq<Pc>)
    requires forall i | 0 <= i < |pcs| :: !pcs[i].StoreZero?
    ensures PendingStores(pcs) == 0
  {
    if pcs == [] {
    } else {
      NoStorePending(pcs[..|pcs| - 1]);
    }
  }

  lemma OneCallUndisturbed(m: Machine, v: Move)
    requires v.cpu < |m.pcs| && OneCall(m.pcs)
    ensures Undisturbed(m, v)
  {
    if m.pcs[v.cpu].FetchAdd? {
      forall i | 0 <= i < |m.pcs| ensures !m.pcs[i].StoreZero? {
      }
      NoStorePending(m.pcs);
    }
  }

  /** In particular, calls that do not overlap warn at most once per window. */
  lemma CallsApartWarnOnce(cpus: nat, moves: seq<Move>, threshold: u32)
    requires ValidMoves(cpus, moves) && FewAdds(Init(cpus), moves, threshold) && threshold >= 1
    requires CallsApart(cpus, moves, threshold)
    ensures WarnsOnce(cpus, moves, threshold)
  {
    hide Run, FewAdds, WarnsOnce, OneCall, Undisturbed;
    forall n | 0 <= n < |moves| ensures Undisturbed(Run(Init(cpus), moves[..n], threshold), moves[n]) {
      OneCallUndisturbed(Run(Init(cpus), moves[..n], threshold), moves[n]);
    }
    UndisturbedWarnsOnce(cpus, moves, threshold);
  }

  /** On a single CPU calls cannot overlap. */
  lemma SoloWarnsOnce(threshold: u32)
    requires threshold >= 1
    ensures AlwaysWarnsOnce(1, threshold)
  {
    hide Run, FewAdds, WarnsOnce;
    forall moves | ValidMoves(1, moves) && FewAdds(Init(1), moves, threshold)
      ensures WarnsOnce(1, moves, threshold)
    {
      CallsApartWarnOnce(1, moves, threshold);
    }
  }

  /** A time at which the initial window has expired. */
  const LATE: u64 := 60001

  /** A run and its last machine, extended by one move. */
  lemma Extend(cpus: nat, moves: seq<Move>, v: Move, threshold: u32)
    requires ValidMoves(cpus, moves) && v.cpu < cpus && FewAdds(Init(cpus), moves, threshold)
    requires Next(Run(Init(cpus), moves, threshold), v, threshold).adds < U32
    ensures ValidMoves(cpus, moves + [v]) && FewAdds(Init(cpus), moves + [v], threshold)
    ensures Run(Init(cpus), moves + [v], threshold) == Next(Run(Init(cpus), moves, threshold), v, threshold)
  {
    hide Next;
    var all := moves + [v];
    assert all[..|moves|] == moves && all[..|all|] == all;
    forall n | 0 <= n <= |all| ensures Run(Init(cpus), all[..n], threshold).adds < U32 {
      if n <= |moves| {
        assert all[..n] == moves[..n];
      }
    }
  }

  /** The machine after CPU 1 has counted `k` more errors. */
  function Counted(m: Machine, k: nat, threshold: u32): Machine
    requires m.count + k < U32
  {
    var warned := if m.count < threshold <= m.count + k then 1 else 0;
    m.(count := m.count + k, adds := m.adds + k, warns := m.warns + warned, windowWarns := m.windowWarns + warned)
  }

  /** CPU 1 handles one error inside the window that started at LATE: a load and an add. */
  lemma OneError(m: Machine, threshold: u32)
    requires |m.pcs| >= 2 && m.start == LATE && m.pcs[1] == Idle && m.count + 1 < U32
    ensures Next(m, Move(1, LATE), threshold) == m.(pcs := m.pcs[1 := FetchAdd(LATE)])
    ensures Next(Next(m, Move(1, LATE), threshold), Move(1, LATE), threshold) == Counted(m, 1, threshold)
  {
    var loaded := Next(m, Move(1, LATE), threshold);
    assert loaded == m.(pcs := m.pcs[1 := FetchAdd(LATE)]);
    assert m.pcs[1 := FetchAdd(LATE)][1 := Idle] == m.pcs;
  }

  lemma CountedTwice(m: Machine, k: nat, threshold: u32)
    requires m.count + k + 1 < U32
    ensures Counted(Counted(m, k, threshold), 1, threshold) == Counted(m, k + 1, threshold)
  {
  }

  /** CPU 1 handles `k` more errors inside the window that started at LATE. */
  lemma {:induction false} MoreErrors(cpus: nat, moves: seq<Move>, k: nat, threshold: u32) returns (all: seq<Move>)
    requires cpus >= 2 && ValidMoves(cpus, moves) && FewAdds(Init(cpus), moves, threshold)
    requires var m := Run(Init(cpus), moves, threshold);
      m.start == LATE && m.pcs[1] == Idle && m.adds <= m.count && m.count + k < U32
    ensures ValidMoves(cpus, all) && FewAdds(Init(cpus), all, threshold)
    ensures Run(Init(cpus), all, threshold) == Counted(Run(Init(cpus), moves, threshold), k, threshold)
  {
    hide Next, Run, FewAdds;
    var v := Move(1, LATE);
    if k == 0 {
      all := moves;
    } else {
      var most := MoreErrors(cpus, moves, k - 1, threshold);
      var m := Run(Init(cpus), most, threshold);
      OneError(m, threshold);
      CountedTwice(Run(Init(cpus), moves, threshold), k - 1, threshold);
      Extend(cpus, most, v, threshold);
      Extend(cpus, most + [v], v, threshold);
      all := most + [v] + [v];
    }
  }

  /** CPU 0 loads the expired window start and wins the exchange. */
  lemma WinReset(cpus: nat, threshold: u32)
    requires cpus >= 2
    ensures var m := Next(Next(Init(cpus), Move(0, LATE), threshold), Move(0, LATE), threshold);
      && Next(Init(cpus), Move(0, LATE), threshold).adds == 0
      && m.start == LATE && m.pcs[0] == StoreZero(LATE) && m.pcs[1] == Idle
      && m.adds == m.count == m.windowWarns == 0
  {
  }

  lemma StoreOver(m: Machine, threshold: u32)
    requires |m.pcs| >= 2 && m.pcs[0] == StoreZero(LATE)
    ensures var r := Next(m, Move(0, LATE), threshold);
      && r.start == m.start && r.pcs[1] == m.pcs[1] && r.adds == r.count == 0 && r.windowWarns == m.windowWarns
  {
  }

  /**
   With two CPUs: CPU 0 wins the reset, CPU 1 counts to the threshold and warns, CPU 0 stores
   its zero over those errors, and the same window counts to the threshold again.
   */
  lemma TwoWarnings(cpus: nat, threshold: u32) returns (moves: seq<Move>)
    requires cpus >= 2 && threshold >= 1
    ensures ValidMoves(cpus, moves) && FewAdds(Init(cpus), moves, threshold)
    ensures Run(Init(cpus), moves, threshold).windowWarns == 2
  {
    var v := Move(0, LATE);
    assert FewAdds(Init(cpus), [], threshold) && Run(Init(cpus), [], threshold) == Init(cpus);
    hide Next, Run, FewAdds;
    WinReset(cpus, threshold);
    Extend(cpus, [], v, threshold);
    Extend(cpus, [] + [v], v, threshold);
    var warned := MoreErrors(cpus, [] + [v] + [v], threshold, threshold);
    StoreOver(Run(Init(cpus), warned, threshold), threshold);
    Extend(cpus, warned, v, threshold);
    moves := MoreErrors(cpus, warned + [v], threshold, threshold);
  }

  /**
   Over all runs a window is guaranteed to warn at most once exactly on a single CPU: with more,
   adds can fall between the exchange and the store of 0.
   */
  lemma WarnsOnceIffSolo(cpus: nat, threshold: u32)
    requires cpus >= 1 && threshold >= 1
    ensures AlwaysWarnsOnce(cpus, threshold) <==> cpus == 1
  {
    if cpus == 1 {
      SoloWarnsOnce(threshold);
    } else {
      var moves := TwoWarnings(cpus, threshold);
      assert moves[..|moves|] == moves;
      assert !WarnsOnce(cpus, moves, threshold);
    }
  }

  // ----- the history of a run, from its moves

  /** The errors whose calls have begun, in the order in which they began. */
  function Begun(cpus: nat, moves: seq<Move>, threshold: u32): seq<Err>
    requires ValidMoves(cpus, moves)
  {
    if moves == [] then []
    else
      var n := |moves| - 1;
      var es := Begun(cpus, moves[..n], threshold);
      if Run(Init(cpus), moves[..n], threshold).pcs[moves[n].cpu].Idle? then es + [Err(moves[n].now, false)] else es
  }

  /** What a single step does to the counters of a history. */
  datatype History = History(addSteps: nat, sinceStore: nat, stores: nat, wins: nat, warns: nat, windowWarns: nat)

  function Record(h: History, m: Machine, v: Move, threshold: u32): History
    requires v.cpu < |m.pcs|
  {
    match m.pcs[v.cpu]
    case Idle => h
    case Exchange(_, start) => if m.start == start then h.(wins := h.wins + 1, windowWarns := 0) else h
    case StoreZero(_) => h.(stores := h.stores + 1, sinceStore := 0)
    case FetchAdd(_) =>
      var warn := if (m.count + 1) % U32 == threshold then 1 else 0;
      h.(addSteps := h.addSteps + 1, sinceStore := h.sinceStore + 1, warns := h.warns + warn,
         windowWarns := h.windowWarns + warn)
  }

  function HistoryOf(cpus: nat, moves: seq<Move>, threshold: u32): History
    requires ValidMoves(cpus, moves)
  {
    if moves == [] then History(0, 0, 0, 0, 0, 0)
    else
      var n := |moves| - 1;
      Record(HistoryOf(cpus, moves[..n], threshold), Run(Init(cpus), moves[..n], threshold), moves[n], threshold)
  }

  /** The number of CPUs inside a call. */
  function Busy(pcs: seq<Pc>): nat {
    if pcs == [] then 0 else Busy(pcs[..|pcs| - 1]) + (if pcs[|pcs| - 1].Idle? then 0 else 1)
  }

  lemma {:induction false} BusyUpdate(pcs: seq<Pc>, i: nat, pc: Pc)
    requires i < |pcs|
    ensures Busy(pcs[i := pc]) == Busy(pcs) - (if pcs[i].Idle? then 0 else 1) + (if pc.Idle? then 0 else 1)
  {
    var n := |pcs| - 1;
    if i == n {
      assert pcs[i := pc][..n] == pcs[..n];
    } else {
      BusyUpdate(pcs[..n], i, pc);
      assert pcs[i := pc][..n] == pcs[..n][i := pc];
    }
  }

  lemma {:induction false} NoneBusy(cpus: nat)
    ensures Busy(seq(cpus, i => Idle)) == 0
  {
    if cpus == 0 {
    } else {
      NoneBusy(cpus - 1);
      var pcs := seq(cpus, i => Idle);
      assert pcs[..cpus - 1] == seq(cpus - 1, i => Idle);
    }
  }

  lemma RecordNext(h: History, m: Machine, v: Move, threshold: u32)
    requires v.cpu < |m.pcs|
    requires m.adds == h.sinceStore && m.stores == h.stores && m.wins == h.wins
    requires m.warns == h.warns && m.windowWarns == h.windowWarns
    ensures var r, i := Next(m, v, threshold), Record(h, m, v, threshold);
      && r.adds == i.sinceStore && r.stores == i.stores && r.wins == i.wins
      && r.warns == i.warns && r.windowWarns == i.windowWarns
      && i.addSteps + Busy(r.pcs) == h.addSteps + Busy(m.pcs) + (if m.pcs[v.cpu].Idle? then 1 else 0)
  {
    hide Busy;
    BusyUpdate(m.pcs, v.cpu, Next(m, v, threshold).pcs[v.cpu]);
  }

  /**
   In every interleaving each call adds its error exactly once: the adds performed and the calls
   still under way are together the calls begun. The counters of the machine are those of its
   history.
   */
  lemma {:induction false} EveryCallAddsOnce(cpus: nat, moves: seq<Move>, threshold: u32)
    requires ValidMoves(cpus, moves)
    ensures var m, h := Run(Init(cpus), moves, threshold), HistoryOf(cpus, moves, threshold);
      && h.addSteps + Busy(m.pcs) == |Begun(cpus, moves, threshold)|
      && m.adds == h.sinceStore && m.stores == h.stores && m.wins == h.wins
      && m.warns == h.warns && m.windowWarns == h.windowWarns
  {
    hide Next, Record, Busy;
    if moves == [] {
      NoneBusy(cpus);
    } else {
      var n := |moves| - 1;
      EveryCallAddsOnce(cpus, moves[..n], threshold);
      RecordNext(HistoryOf(cpus, moves[..n], threshold), Run(Init(cpus), moves[..n], threshold), moves[n], threshold);
    }
  }

  /** Of two CPUs that found the same window expired, only the first to exchange resets it. */
  lemma OneWinner(m: Machine, a: Move, b: Move, threshold: u32)
    requires a.cpu < |m.pcs| && b.cpu < |m.pcs| && a.cpu != b.cpu
    requires m.pcs[a.cpu].Exchange? && m.pcs[b.cpu].Exchange?
    requires m.pcs[a.cpu].start == m.pcs[b.cpu].start == m.start && m.pcs[a.cpu].now != m.start
    ensures var r := Next(Next(m, a, threshold), b, threshold);
      && r.start == m.pcs[a.cpu].now && r.count == m.count && r.wins == m.wins + 1
      && r.pcs[a.cpu] == StoreZero(m.pcs[a.cpu].now) && r.pcs[b.cpu] == FetchAdd(m.pcs[b.cpu].now)
  {
  }

  // ----- calls one at a time

  /** The call under way, if any; all other CPUs are idle. */
  predicate Only(pcs: seq<Pc>, cpu: nat) {
    forall i | 0 <= i < |pcs| && i != cpu :: pcs[i].Idle?
  }

  /** A machine in the middle of the last of some calls made one at a time. */
  predicate During(m: Machine, pc: Pc, es: seq<Err>, threshold: u32) {
    match pc
    case Idle =>
      Window(m.start, m.count) == WindowAt(es, |es|) && m.warns == WarnCount(es, threshold, |es|)
    case Exchange(now, start) =>
      && es != [] && es[|es| - 1] == Err(now, false) && start == m.start && Opens(es, |es| - 1)
      && Window(m.start, m.count) == WindowAt(es, |es| - 1) && m.warns == WarnCount(es, threshold, |es| - 1)
    case StoreZero(now) =>
      && es != [] && es[|es| - 1] == Err(now, false) && Opens(es, |es| - 1)
      && m.start == now && m.warns == WarnCount(es, threshold, |es| - 1)
    case FetchAdd(now) =>
      && es != [] && es[|es| - 1] == Err(now, false)
      && Window(m.start, (m.count + 1) % U32) == WindowAt(es, |es|) && m.warns == WarnCount(es, threshold, |es| - 1)
  }

  lemma {:induction false} WindowPrefix(es: seq<Err>, e: Err, threshold: u32, n: nat)
    requires n <= |es|
    ensures WindowAt(es + [e], n) == WindowAt(es, n)
    ensures WarnCount(es + [e], threshold, n) == WarnCount(es, threshold, n)
  {
    hide Expires;
    if n == 0 {
    } else {
      WindowPrefix(es, e, threshold, n - 1);
    }
  }

  lemma BeginCall(m: Machine, v: Move, es: seq<Err>, threshold: u32)
    requires v.cpu < |m.pcs| && m.pcs[v.cpu].Idle? && During(m, Idle, es, threshold)
    ensures var r := Next(m, v, threshold);
      During(r, r.pcs[v.cpu], es + [Err(v.now, false)], threshold)
  {
    WindowPrefix(es, Err(v.now, false), threshold, |es|);
  }

  lemma LastError(es: seq<Err>, threshold: u32)
    requires es != []
    ensures var n := |es| - 1;
      && WindowAt(es, n + 1) == After(WindowAt(es, n), es[n])
      && WarnCount(es, threshold, n + 1) == WarnCount(es, threshold, n) +
         (if !es[n].uncorrected && WindowAt(es, n + 1).count == threshold then 1 else 0)
  {
    hide Expires;
  }

  lemma ContinueCall(m: Machine, v: Move, es: seq<Err>, threshold: u32)
    requires v.cpu < |m.pcs| && !m.pcs[v.cpu].Idle? && During(m, m.pcs[v.cpu], es, threshold)
    ensures var r := Next(m, v, threshold);
      During(r, r.pcs[v.cpu], es, threshold)
  {
    hide Expires, WindowAt, WarnCount;
    if m.pcs[v.cpu].FetchAdd? || m.pcs[v.cpu].StoreZero? {
      LastError(es, threshold);
    }
  }

  lemma DuringStart(cpus: nat, threshold: u32)
    requires cpus >= 1
    ensures During(Init(cpus), Idle, [], threshold)
  {
  }

  /** A call that begins while no call may overlap finds every CPU idle. */
  lemma IdleBefore(m: Machine, v: Move, last: nat, threshold: u32)
    requires v.cpu < |m.pcs| && last < |m.pcs| && m.pcs[v.cpu].Idle?
    requires OneCall(Next(m, v, threshold).pcs)
    ensures m.pcs[last].Idle?
  {
    var r := Next(m, v, threshold);
    if last != v.cpu {
      var i, k := if last < v.cpu then last else v.cpu, if last < v.cpu then v.cpu else last;
      assert r.pcs[i].Idle? || r.pcs[k].Idle?;
    }
  }

  lemma ApartPrefix(cpus: nat, moves: seq<Move>, n: nat, threshold: u32)
    requires ValidMoves(cpus, moves) && CallsApart(cpus, moves, threshold) && n < |moves|
    ensures CallsApart(cpus, moves[..n], threshold) && OneCall(Run(Init(cpus), moves[..n], threshold).pcs)
  {
    hide Run, OneCall;
    forall k | 0 <= k < n ensures OneCall(Run(Init(cpus), moves[..n][..k], threshold).pcs) {
      assert moves[..n][..k] == moves[..k];
    }
  }

  /** With calls one at a time the machine is always in the middle of the call begun last. */
  lemma {:induction false} DuringRun(cpus: nat, moves: seq<Move>, threshold: u32) returns (cpu: nat)
    requires ValidMoves(cpus, moves) && cpus >= 1 && CallsApart(cpus, moves, threshold)
    requires OneCall(Run(Init(cpus), moves, threshold).pcs)
    ensures var m, es := Run(Init(cpus), moves, threshold), Begun(cpus, moves, threshold);
      cpu < |m.pcs| && Only(m.pcs, cpu) && During(m, m.pcs[cpu], es, threshold)
  {
    hide During, WindowAt, WarnCount;
    if moves == [] {
      cpu := 0;
      DuringStart(cpus, threshold);
    } else {
      var n := |moves| - 1;
      ApartPrefix(cpus, moves, n, threshold);
      var last := DuringRun(cpus, moves[..n], threshold);
      var m, v := Run(Init(cpus), moves[..n], threshold), moves[n];
      cpu := v.cpu;
      var es := Begun(cpus, moves[..n], threshold);
      if m.pcs[v.cpu].Idle? {
        assert m.pcs[last].Idle? by {
          IdleBefore(m, v, last, threshold);
        }
        BeginCall(m, v, es, threshold);
      } else {
        assert v.cpu == last;
        ContinueCall(m, v, es, threshold);
      }
    }
  }

  lemma {:induction false} AllIdle(pcs: seq<Pc>)
    requires forall i | 0 <= i < |pcs| :: pcs[i].Idle?
    ensures Busy(pcs) == 0
  {
    if pcs == [] {
    } else {
      AllIdle(pcs[..|pcs| - 1]);
    }
  }

  lemma NoMoves(moves: seq<Move>)
    requires ValidMoves(0, moves)
    ensures moves == []
  {
    if moves != [] {
      var cpu := moves[0].cpu;
      assert false;
    }
  }

  lemma NoCpus(moves: seq<Move>, threshold: u32)
    requires ValidMoves(0, moves)
    ensures var m, es := Run(Init(0), moves, threshold), Begun(0, moves, threshold);
      Window(m.start, m.count) == WindowAt(es, |es|) && m.warns == WarnCount(es, threshold, |es|)
  {
    NoMoves(moves);
  }

  /**
   Calls that do not overlap behave as the sequential model says: when all have returned, window
   and warnings are those of the errors in order.
   */
  lemma CallsApartAreSequential(cpus: nat, moves: seq<Move>, threshold: u32)
    requires ValidMoves(cpus, moves) && CallsApart(cpus, moves, threshold)
    requires forall i | 0 <= i < cpus :: Run(Init(cpus), moves, threshold).pcs[i].Idle?
    ensures var m, es := Run(Init(cpus), moves, threshold), Begun(cpus, moves, threshold);
      && Window(m.start, m.count) == WindowAt(es, |es|)
      && m.warns == WarnCount(es, threshold, |es|)
      && HistoryOf(cpus, moves, threshold).addSteps == |es|
  {
    hide Run, Begun, WindowAt, WarnCount, HistoryOf;
    EveryCallAddsOnce(cpus, moves, threshold);
    AllIdle(Run(Init(cpus), moves, threshold).pcs);
    if cpus == 0 {
      NoCpus(moves, threshold);
    } else {
      var cpu := DuringRun(cpus, moves, threshold);
    }
  }
}
