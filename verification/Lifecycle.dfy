/** Register, seal, write, scrub: the life of the baseline over whole runs. */
module Lifecycle {
  import opened Bitwise
  import opened SoftEcc
  import opened Secded
  import opened Scrub
  import opened ScrubRuns

  /** Memory and regions, the sysctl switch, and whether the scrub work is scheduled. */
  datatype Sys = Sys(state: State, enabled: bool, armed: bool)

  datatype Event =
    | Protect(base: nat, words: nat)
    | Write(index: nat, word: u64)
    | SetEnabled(on: bool)
    | SealAll
    | Reseal(addr: nat)
    | ScrubWork

  /** Regions and writes lie inside a memory of `size` words. */
  predicate ValidEvent(size: nat, e: Event) {
    match e
    case Protect(base, words) => base + words <= size
    case Write(index, _) => index < size
    case _ => true
  }

  /** The codes that belong to the current contents of memory. */
  function SealedCodes(mem: seq<u64>, base: nat, words: nat): (codes: seq<u8>)
    requires base + words <= |mem|
    ensures |codes| == words && forall j | 0 <= j < words :: codes[j] == Encode(mem[base + j])
  {
    seq<u8>(words, j requires 0 <= j < words => Encode(mem[base + j]))
  }

  function Sealed(mem: seq<u64>, g: Region): Region
    requires Fits(mem, g)
  {
    Region(g.base, SealedCodes(mem, g.base, |g.codes|))
  }

  function SealAt(s: State, r: nat): (t: State)
    requires InBounds(s) && r < |s.regions|
    ensures InBounds(t)
  {
    s.(regions := s.regions[r := Sealed(s.mem, s.regions[r])])
  }

  /** The first `n` regions sealed. */
  function SealFirst(s: State, n: nat): (t: State)
    requires InBounds(s) && n <= |s.regions|
    ensures InBounds(t) && |t.regions| == |s.regions| && t == s.(regions := t.regions)
  {
    if n == 0 then s else SealAt(SealFirst(s, n - 1), n - 1)
  }

  lemma {:induction false} SealFirstRegion(s: State, n: nat, r: nat)
    requires InBounds(s) && n <= |s.regions| && r < |s.regions|
    ensures SealFirst(s, n).regions[r] == if r < n then Sealed(s.mem, s.regions[r]) else s.regions[r]
  {
    hide Sealed;
    if n == 0 {
    } else {
      SealFirstRegion(s, n - 1, r);
      SealFirstRegion(s, n - 1, n - 1);
    }
  }

  function FirstAtFrom(regions: seq<Region>, addr: nat, k: nat): (r: nat)
    requires k <= |regions|
    ensures k <= r <= |regions|
    ensures r < |regions| ==> regions[r].base == addr
    ensures forall q | k <= q < r :: regions[q].base != addr
    decreases |regions| - k
  {
    if k == |regions| || regions[k].base == addr then k else FirstAtFrom(regions, addr, k + 1)
  }

  /** The first registered region that starts at `addr`, or the number of regions. */
  function FirstAt(regions: seq<Region>, addr: nat): (r: nat)
    ensures r <= |regions|
    ensures r < |regions| ==> regions[r].base == addr
    ensures forall q | 0 <= q < r :: regions[q].base != addr
  {
    FirstAtFrom(regions, addr, 0)
  }

  function Step(s: Sys, e: Event): (t: Sys)
    requires InBounds(s.state) && ValidEvent(|s.state.mem|, e)
    ensures InBounds(t.state) && |t.state.mem| == |s.state.mem|
  {
    match e
    case Protect(base, words) =>
      s.(state := s.state.(regions := s.state.regions + [Region(base, SealedCodes(s.state.mem, base, words))]))
    case Write(index, word) => s.(state := s.state.(mem := s.state.mem[index := word]))
    case SetEnabled(on) => s.(enabled := on)
    case SealAll => s.(state := SealFirst(s.state, |s.state.regions|), armed := true)
    case Reseal(addr) =>
      var r := FirstAt(s.state.regions, addr);
      if r == |s.state.regions| then s
      else s.(state := SealAt(s.state, r))
    case ScrubWork => if s.armed && s.enabled then s.(state := ScrubAll(s.state)) else s
  }

  function Run(s: Sys, events: seq<Event>): (t: Sys)
    requires InBounds(s.state) && forall i | 0 <= i < |events| :: ValidEvent(|s.state.mem|, events[i])
    ensures InBounds(t.state) && |t.state.mem| == |s.state.mem|
  {
    if events == [] then s
    else
      var n := |events| - 1;
      Step(Run(s, events[..n]), events[n])
  }

  /** Memory as the writes alone would leave it. */
  function WritesOnly(mem: seq<u64>, events: seq<Event>): (m: seq<u64>)
    requires forall i | 0 <= i < |events| :: ValidEvent(|mem|, events[i])
    ensures |m| == |mem|
  {
    if events == [] then mem
    else
      var n := |events| - 1;
      assert ValidEvent(|mem|, events[n]);
      var m := WritesOnly(mem, events[..n]);
      if events[n].Write? then m[events[n].index := events[n].word] else m
  }

  /** Legitimate writes stop before the baseline is taken. */
  predicate WritesStopAtSeal(events: seq<Event>) {
    forall i, k | 0 <= i < k < |events| && events[i].SealAll? :: !events[k].Write?
  }

  // ----- clean states

  ghost predicate Intact(s: State) {
    InBounds(s) && AllClean(s)
  }

  /** Clean means: every code belongs to its word. */
  lemma CleanCodes(s: State)
    requires InBounds(s)
    ensures AllClean(s) <==> forall r | 0 <= r < |s.regions| :: s.regions[r] == Sealed(s.mem, s.regions[r])
  {
    hide Encode, VerifyUnit;
    if AllClean(s) {
      forall r | 0 <= r < |s.regions| ensures s.regions[r] == Sealed(s.mem, s.regions[r]) {
        forall j: nat | j < |s.regions[r].codes| ensures s.regions[r].codes[j] == Encode(s.mem[s.regions[r].base + j]) {
          assert IsUnit(s, r, j);
          CleanIff(UnitAt(s, r, j));
        }
        assert s.regions[r].codes == SealedCodes(s.mem, s.regions[r].base, |s.regions[r].codes|);
      }
    }
    if forall r | 0 <= r < |s.regions| :: s.regions[r] == Sealed(s.mem, s.regions[r]) {
      forall r: nat, j: nat | IsUnit(s, r, j) ensures VerifyUnit(UnitAt(s, r, j)) == Clean {
        assert s.regions[r] == Sealed(s.mem, s.regions[r]);
        CleanIff(UnitAt(s, r, j));
      }
    }
  }

  lemma SealedTwice(mem: seq<u64>, g: Region)
    requires Fits(mem, g)
    ensures Sealed(mem, Sealed(mem, g)) == Sealed(mem, g)
  {
  }

  /** No event but a write can make a clean, armed system dirty; scrubbing a clean one is a no-op. */
  lemma StepKeepsClean(s: Sys, e: Event)
    requires InBounds(s.state) && ValidEvent(|s.state.mem|, e) && !e.Write?
    requires s.armed ==> AllClean(s.state)
    ensures Step(s, e).armed ==> AllClean(Step(s, e).state)
    ensures Step(s, e).state.mem == s.state.mem
    ensures Step(s, e).state.corrected == s.state.corrected
    ensures Step(s, e).state.uncorrectable == s.state.uncorrectable
  {
    hide Encode, VerifyUnit, ScrubAll, AllClean;
    var t := Step(s, e).state;
    CleanCodes(s.state);
    CleanCodes(t);
    if e.ScrubWork? && s.armed {
      CleanIsFixed(s.state);
    } else if Step(s, e).armed {
      forall r | 0 <= r < |t.regions| ensures t.regions[r] == Sealed(t.mem, t.regions[r]) {
        if r < |s.state.regions| {
          SealedTwice(t.mem, s.state.regions[r]);
          SealFirstRegion(s.state, |s.state.regions|, r);
        } else {
          assert t.regions[r] == Region(e.base, SealedCodes(t.mem, e.base, e.words));
        }
      }
    }
  }

  /**
   Bit flips aside, if legitimate writes stop before `SealAll` then in every run from boot the
   scrubber never changes memory and never counts an event.
   */
  lemma {:induction false} SealedRunsAreQuiet(s: Sys, events: seq<Event>)
    requires s.state.regions == [] && !s.armed
    requires forall i | 0 <= i < |events| :: ValidEvent(|s.state.mem|, events[i])
    requires WritesStopAtSeal(events)
    ensures Run(s, events).state.mem == WritesOnly(s.state.mem, events)
    ensures Run(s, events).state.corrected == s.state.corrected
    ensures Run(s, events).state.uncorrectable == s.state.uncorrectable
    ensures Run(s, events).armed <==> exists i :: 0 <= i < |events| && events[i].SealAll?
    ensures Run(s, events).armed ==> AllClean(Run(s, events).state)
  {
    hide AllClean, ScrubAll, SealFirst, FirstAt;
    if events == [] {
    } else {
      var n := |events| - 1;
      SealedRunsAreQuiet(s, events[..n]);
      var t := Run(s, events[..n]);
      assert t.armed ==> !events[n].Write? by {
        if t.armed {
          var i :| 0 <= i < n && events[..n][i].SealAll?;
          assert events[i].SealAll?;
        }
      }
      if !events[n].Write? {
        StepKeepsClean(t, events[n]);
      }
      if i :| 0 <= i < n && events[i].SealAll? {
        assert events[..n][i].SealAll?;
      }
    }
  }

  lemma RunSnoc(s: Sys, events: seq<Event>, e: Event)
    requires InBounds(s.state) && forall i | 0 <= i < |events + [e]| :: ValidEvent(|s.state.mem|, (events + [e])[i])
    ensures forall i | 0 <= i < |events| :: ValidEvent(|s.state.mem|, events[i])
    ensures ValidEvent(|s.state.mem|, e)
    ensures Run(s, events + [e]) == Step(Run(s, events), e)
  {
    var all := events + [e];
    assert all[..|events|] == events;
    assert all[|events|] == e;
    forall i | 0 <= i < |events| ensures ValidEvent(|s.state.mem|, events[i]) {
      assert all[i] == events[i];
    }
  }

  lemma RunTwo(s: Sys, a: Event, b: Event)
    requires InBounds(s.state) && ValidEvent(|s.state.mem|, a) && ValidEvent(|s.state.mem|, b)
    ensures Run(s, [a, b]) == Step(Step(s, a), b)
  {
    assert [a, b] == ([] + [a]) + [b];
    RunSnoc(s, [] + [a], b);
    RunSnoc(s, [], a);
  }

  lemma FlipDataOnly(u: Unit, bit: nat)
    requires bit < 64
    ensures Flip(u, bit).code == u.code && Flip(u, bit).data != u.data
  {
    XorZero(Flip(u, bit).data, u.data);
    FlipDistance(u, bit, u);
    DistanceZero(u, u);
    DistanceZero(Flip(u, bit), u);
  }

  lemma OneStrike(s: State, h: Hit)
    requires InBounds(s) && ValidHit(s, h)
    ensures StrikeAll(s, [h]) == Strike(s, h)
  {
    assert [h][..0] == [];
  }

  /**
   With the scrubber armed over a baseline the write does not know, a legitimate one-bit write
   is always reverted by the next pass, and counted as a corrected flip.
   */
  lemma StaleWriteReverted(s: Sys, r: nat, j: nat, bit: nat)
    requires InBounds(s.state) && Disjoint(s.state) && AllClean(s.state) && s.armed && s.enabled
    requires IsUnit(s.state, r, j) && bit < 64
    ensures var k := s.state.regions[r].base + j;
      var w := Flip(UnitAt(s.state, r, j), bit).data;
      && w != s.state.mem[k]
      && Run(s, [Write(k, w), ScrubWork]).state.mem == s.state.mem
      && Run(s, [Write(k, w), ScrubWork]).state.corrected == s.state.corrected + 1
  {
    hide Flip, ScrubAll;
    var k := s.state.regions[r].base + j;
    var u := UnitAt(s.state, r, j);
    var h := Hit(Place(r, j), bit);
    var w := Flip(u, bit).data;
    FlipDataOnly(u, bit);
    RoundRestores(s.state, [h]);
    OneStrike(s.state, h);
    var g := s.state.regions[r];
    assert g.codes[j := u.code] == g.codes;
    assert s.state.regions[r := g] == s.state.regions;
    assert Step(s, Write(k, w)).state == Strike(s.state, h);
    RunTwo(s, Write(k, w), ScrubWork);
  }

  lemma RunThree(s: Sys, a: Event, b: Event, c: Event)
    requires InBounds(s.state) && ValidEvent(|s.state.mem|, a) && ValidEvent(|s.state.mem|, b)
    requires ValidEvent(|s.state.mem|, c)
    ensures Run(s, [a, b, c]) == Step(Step(Step(s, a), b), c)
  {
    hide Step, Run, ValidEvent;
    RunTwo(s, a, b);
    assert [a, b, c] == [a, b] + [c];
    RunSnoc(s, [a, b], c);
  }

  lemma OtherSealed(s: State, r: nat, j: nat, q: nat, word: u64)
    requires InBounds(s) && Disjoint(s) && IsUnit(s, r, j) && q < |s.regions| && q != r
    ensures Fits(s.mem[s.regions[r].base + j := word], s.regions[q])
    ensures Sealed(s.mem[s.regions[r].base + j := word], s.regions[q]) == Sealed(s.mem, s.regions[q])
  {
    hide Encode;
    var m := s.mem[s.regions[r].base + j := word];
    var base := s.regions[q].base;
    forall k: nat | base <= k < base + |s.regions[q].codes| ensures m[k] == s.mem[k] {
      assert IsUnit(s, q, k - base);
    }
    assert SealedCodes(m, base, |s.regions[q].codes|) == SealedCodes(s.mem, base, |s.regions[q].codes|);
  }

  /**
   Resealing recomputes the codes of the first region that starts at the address, from memory,
   and touches nothing else; without such a region it does nothing.
   */
  lemma ResealTouchesOne(s: Sys, addr: nat, r: nat)
    requires InBounds(s.state) && r <= |s.state.regions|
    requires forall q | 0 <= q < r :: s.state.regions[q].base != addr
    requires r < |s.state.regions| ==> s.state.regions[r].base == addr
    ensures r == |s.state.regions| ==> Step(s, Reseal(addr)) == s
    ensures r < |s.state.regions| ==>
      var t, g := Step(s, Reseal(addr)), s.state.regions[r];
      && t == s.(state := s.state.(regions := t.state.regions))
      && t.state.regions == s.state.regions[r := t.state.regions[r]]
      && t.state.regions[r].base == addr && |t.state.regions[r].codes| == |g.codes|
      && forall j | 0 <= j < |g.codes| :: t.state.regions[r].codes[j] == Encode(s.state.mem[addr + j])
  {
    hide Encode;
    var q := FirstAt(s.state.regions, addr);
    assert q == r;
  }

  /** Resealing the written region before the next pass keeps any write. */
  lemma ResealKeepsWrite(s: Sys, r: nat, j: nat, word: u64)
    requires InBounds(s.state) && Disjoint(s.state) && AllClean(s.state) && IsUnit(s.state, r, j)
    requires FirstAt(s.state.regions, s.state.regions[r].base) == r
    ensures var g := s.state.regions[r];
      var t := Run(s, [Write(g.base + j, word), Reseal(g.base), ScrubWork]).state;
      && t.mem == s.state.mem[g.base + j := word]
      && t.corrected == s.state.corrected && t.uncorrectable == s.state.uncorrectable && Intact(t)
  {
    hide Encode, VerifyUnit, ScrubAll, AllClean, Run;
    var g := s.state.regions[r];
    var k := g.base + j;
    var b := Step(Step(s, Write(k, word)), Reseal(g.base));
    RunThree(s, Write(k, word), Reseal(g.base), ScrubWork);
    CleanCodes(s.state);
    CleanCodes(b.state);
    forall q | 0 <= q < |b.state.regions| ensures b.state.regions[q] == Sealed(b.state.mem, b.state.regions[q]) {
      if q != r {
        OtherSealed(s.state, r, j, q, word);
      }
    }
    CleanIsFixed(b.state);
  }
}
