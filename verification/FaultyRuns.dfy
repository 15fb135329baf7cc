/**
 From boot to the field: registration, writes, sealing, resealing and passes interleaved with
 flips of stored bits.
 */
module FaultyRuns {
  import opened Bitwise
  import opened SoftEcc
  import opened Secded
  import opened Scrub
  import opened ScrubRuns
  import opened Lifecycle

  /** An event of the system, or a flip of one stored bit of one unit. */
  datatype Act = Did(event: Event) | Struck(hit: Hit)

  predicate ValidAct(size: nat, a: Act) {
    a.Did? ==> ValidEvent(size, a.event)
  }

  /** A flip that names no registered unit hits nothing. */
  function Apply(s: Sys, a: Act): (t: Sys)
    requires InBounds(s.state) && ValidAct(|s.state.mem|, a)
    ensures InBounds(t.state) && |t.state.mem| == |s.state.mem|
  {
    match a
    case Did(e) => Step(s, e)
    case Struck(h) => if ValidHit(s.state, h) then s.(state := Strike(s.state, h)) else s
  }

  function Trace(s: Sys, acts: seq<Act>): (t: Sys)
    requires InBounds(s.state) && forall i | 0 <= i < |acts| :: ValidAct(|s.state.mem|, acts[i])
    ensures InBounds(t.state) && |t.state.mem| == |s.state.mem|
  {
    if acts == [] then s else Apply(Trace(s, acts[..|acts| - 1]), acts[|acts| - 1])
  }

  predicate IsPass(s: Sys, a: Act) {
    a.Did? && a.event.ScrubWork? && s.armed && s.enabled
  }

  predicate Lands(s: Sys, a: Act) {
    a.Struck? && ValidHit(s.state, a.hit)
  }

  function NextPending(s: Sys, pending: seq<Hit>, a: Act): seq<Hit> {
    if Lands(s, a) then pending + [a.hit] else if IsPass(s, a) then [] else pending
  }

  /** The flips since the last pass. */
  function Pending(s: Sys, acts: seq<Act>): seq<Hit>
    requires InBounds(s.state) && forall i | 0 <= i < |acts| :: ValidAct(|s.state.mem|, acts[i])
  {
    if acts == [] then []
    else
      var n := |acts| - 1;
      NextPending(Trace(s, acts[..n]), Pending(s, acts[..n]), acts[n])
  }

  /** All flips so far. */
  function FlipCount(s: Sys, acts: seq<Act>): nat
    requires InBounds(s.state) && forall i | 0 <= i < |acts| :: ValidAct(|s.state.mem|, acts[i])
  {
    if acts == [] then 0
    else
      var n := |acts| - 1;
      FlipCount(s, acts[..n]) + (if Lands(Trace(s, acts[..n]), acts[n]) then 1 else 0)
  }

  /** The events of a trace, without the flips. */
  function Events(size: nat, acts: seq<Act>): (es: seq<Event>)
    requires forall i | 0 <= i < |acts| :: ValidAct(size, acts[i])
    ensures forall i | 0 <= i < |es| :: ValidEvent(size, es[i])
  {
    if acts == [] then []
    else
      var n := |acts| - 1;
      assert ValidAct(size, acts[n]);
      Events(size, acts[..n]) + (if acts[n].Did? then [acts[n].event] else [])
  }

  /**
   What the design asks for: no write once the scrubber is armed, no word in two regions, no flip
   before the baseline, no second flip of a unit before the next pass, and no new baseline over a
   flip that no pass has seen.
   */
  ghost predicate Allowed(s: Sys, pending: seq<Hit>, a: Act) {
    match a
    case Struck(h) => Lands(s, a) ==> s.armed && h.place !in Places(pending)
    case Did(Write(_, _)) => !s.armed
    case Did(Protect(base, words)) => forall k | base <= k < base + words :: !Covered(s.state, |s.state.regions|, k)
    case Did(SealAll) => pending == []
    case Did(Reseal(addr)) => forall i | 0 <= i < |pending| :: pending[i].place.region != FirstAt(s.state.regions, addr)
    case Did(_) => true
  }

  ghost predicate Careful(s: Sys, acts: seq<Act>)
    requires InBounds(s.state) && forall i | 0 <= i < |acts| :: ValidAct(|s.state.mem|, acts[i])
  {
    forall n | 0 <= n < |acts| :: Allowed(Trace(s, acts[..n]), Pending(s, acts[..n]), acts[n])
  }

  // ----- the state without its pending flips

  /** `c` is what `s` would be without the pending flips. */
  ghost predicate Shadows(c: State, s: Sys, pending: seq<Hit>) {
    && InBounds(c) && Disjoint(c) && ValidHits(c, pending) && Apart(pending)
    && s.state == StrikeAll(c, pending)
    && (s.armed ==> AllClean(c))
    && (!s.armed ==> pending == [])
  }

  lemma ShadowFlip(c: State, s: Sys, pending: seq<Hit>, a: Act)
    requires Shadows(c, s, pending) && Allowed(s, pending, a) && Lands(s, a)
    ensures InBounds(s.state) && Shadows(c, Apply(s, a), NextPending(s, pending, a))
  {
    hide Strike, Disjoint, AllClean, InBounds;
    var all := pending + [a.hit];
    assert all[..|pending|] == pending;
    ShapeUnits(c, s.state, a.hit.place.region, a.hit.place.word);
    forall i, k | 0 <= i < k < |all| ensures all[i].place != all[k].place {
      assert all[i].place in Places(pending);
    }
  }

  lemma ShadowPass(c: State, s: Sys, pending: seq<Hit>)
    requires Shadows(c, s, pending) && s.armed && s.enabled
    ensures InBounds(s.state)
    ensures Shadows(c.(corrected := c.corrected + |pending|), Step(s, ScrubWork), [])
  {
    hide ScrubAll, Disjoint, AllClean;
    RoundRestores(c, pending);
    SameContents(c, c.(corrected := c.corrected + |pending|));
  }

  lemma StrikeAppend(s: State, g: Region, h: Hit)
    requires InBounds(s) && ValidHit(s, h) && Fits(s.mem, g)
    ensures ValidHit(s.(regions := s.regions + [g]), h)
    ensures Strike(s.(regions := s.regions + [g]), h) ==
            Strike(s, h).(regions := Strike(s, h).regions + [g])
  {
    hide Flip;
    var r := h.place.region;
    var u := Flip(UnitAt(s, r, h.place.word), h.bit);
    var x := Region(s.regions[r].base, s.regions[r].codes[h.place.word := u.code]);
    assert (s.regions + [g])[r := x] == s.regions[r := x] + [g];
  }

  /** Pending flips do not reach a region that is registered after them. */
  lemma {:induction false} StrikeAllAppend(s: State, g: Region, hits: seq<Hit>)
    requires InBounds(s) && ValidHits(s, hits) && Fits(s.mem, g)
    ensures InBounds(s.(regions := s.regions + [g])) && ValidHits(s.(regions := s.regions + [g]), hits)
    ensures StrikeAll(s.(regions := s.regions + [g]), hits) ==
            StrikeAll(s, hits).(regions := StrikeAll(s, hits).regions + [g])
  {
    hide Strike;
    var d := s.(regions := s.regions + [g]);
    forall i | 0 <= i < |hits| ensures ValidHit(d, hits[i]) {
      assert ValidHit(s, hits[i]);
    }
    if hits == [] {
    } else {
      var n := |hits| - 1;
      StrikeAllAppend(s, g, hits[..n]);
      ShapeUnits(s, StrikeAll(s, hits[..n]), hits[n].place.region, hits[n].place.word);
      StrikeAppend(StrikeAll(s, hits[..n]), g, hits[n]);
    }
  }

  lemma AppendDisjoint(c: State, g: Region)
    requires InBounds(c) && Disjoint(c)
    requires forall k | g.base <= k < g.base + |g.codes| :: !Covered(c, |c.regions|, k)
    ensures Disjoint(c.(regions := c.regions + [g]))
  {
    var d := c.(regions := c.regions + [g]);
    forall q: nat, i: nat, r: nat, j: nat | IsUnit(d, q, i) && IsUnit(d, r, j) && q != r
      ensures d.regions[q].base + i != d.regions[r].base + j
    {
      if q == |c.regions| {
        assert IsUnit(c, r, j) && !Covered(c, |c.regions|, g.base + i);
      } else if r == |c.regions| {
        assert IsUnit(c, q, i) && !Covered(c, |c.regions|, g.base + j);
      } else {
        assert IsUnit(c, q, i) && IsUnit(c, r, j);
      }
    }
  }

  lemma ShapeCovered(s: State, t: State, k: nat)
    requires SameShape(s, t)
    ensures Covered(s, |s.regions|, k) <==> Covered(t, |t.regions|, k)
  {
  }

  /** A region that shares no word is registered under the same codes with and without pending flips. */
  lemma ProtectedCodes(c: State, s: State, pending: seq<Hit>, base: nat, words: nat)
    requires InBounds(c) && ValidHits(c, pending) && s == StrikeAll(c, pending) && base + words <= |c.mem|
    requires forall k | base <= k < base + words :: !Covered(s, |s.regions|, k)
    ensures forall k | base <= k < base + words :: !Covered(c, |c.regions|, k)
    ensures SealedCodes(s.mem, base, words) == SealedCodes(c.mem, base, words)
  {
    hide Encode, StrikeAll, Covered;
    forall k | base <= k < base + words ensures !Covered(c, |c.regions|, k) && s.mem[k] == c.mem[k] {
      ShapeCovered(c, s, k);
      StrikeOutside(c, pending, k);
    }
  }

  lemma ShadowProtect(c: State, s: Sys, pending: seq<Hit>, base: nat, words: nat) returns (d: State)
    requires Shadows(c, s, pending) && base + words <= |s.state.mem|
    requires Allowed(s, pending, Did(Protect(base, words)))
    ensures InBounds(s.state) && Shadows(d, Step(s, Protect(base, words)), pending)
    ensures d == c.(regions := d.regions)
  {
    hide Encode, Strike, StrikeAll, Disjoint, AllClean, Covered;
    var g := Region(base, SealedCodes(c.mem, base, words));
    d := c.(regions := c.regions + [g]);
    ProtectedCodes(c, s.state, pending, base, words);
    AppendDisjoint(c, g);
    StrikeAllAppend(c, g, pending);
    StepKeepsClean(Sys(c, s.enabled, s.armed), Protect(base, words));
  }

  lemma ShadowSealAll(c: State, s: Sys, pending: seq<Hit>) returns (d: State)
    requires Shadows(c, s, pending) && pending == []
    ensures InBounds(s.state) && Shadows(d, Step(s, SealAll), pending)
    ensures d == c.(regions := d.regions)
  {
    hide Encode, Disjoint, AllClean, SealFirst;
    d := SealFirst(c, |c.regions|);
    StepKeepsClean(s, SealAll);
    forall r | 0 <= r < |c.regions|
      ensures d.regions[r].base == c.regions[r].base && |d.regions[r].codes| == |c.regions[r].codes|
    {
      SealFirstRegion(c, |c.regions|, r);
    }
    ShapeDisjoint(c, d);
  }

  /** Resealing a region without pending flips recomputes the codes it has. */
  lemma ResealNothing(c: State, s: State, pending: seq<Hit>, r: nat)
    requires InBounds(c) && Disjoint(c) && AllClean(c) && ValidHits(c, pending) && Apart(pending)
    requires s == StrikeAll(c, pending) && r < |s.regions|
    requires forall i | 0 <= i < |pending| :: pending[i].place.region != r
    ensures InBounds(s) && SealAt(s, r) == s
  {
    hide Encode, VerifyUnit, StrikeAll, Disjoint;
    var g := s.regions[r];
    forall j: nat | j < |g.codes| ensures g.codes[j] == Encode(s.mem[g.base + j]) {
      ShapeUnits(c, s, r, j);
      assert IsUnit(s, r, j);
      StrikeUnits(c, pending, r, j);
      CleanIff(UnitAt(c, r, j));
    }
    assert g.codes == SealedCodes(s.mem, g.base, |g.codes|);
    assert s.regions[r := g] == s.regions;
  }

  lemma StrikeNothing(c: State)
    requires InBounds(c)
    ensures StrikeAll(c, []) == c
  {
  }

  lemma SealKeepsShape(c: State, r: nat)
    requires InBounds(c) && r < |c.regions|
    ensures SameShape(c, SealAt(c, r))
  {
  }

  lemma ShadowReseal(c: State, s: Sys, pending: seq<Hit>, addr: nat) returns (d: State)
    requires Shadows(c, s, pending) && Allowed(s, pending, Did(Reseal(addr)))
    ensures InBounds(s.state) && Shadows(d, Step(s, Reseal(addr)), pending)
    ensures d == c.(regions := d.regions)
  {
    hide Encode, Disjoint, AllClean, Sealed, StrikeAll, FirstAt;
    var r := FirstAt(s.state.regions, addr);
    if r == |s.state.regions| {
      d := c;
    } else if s.armed {
      ResealNothing(c, s.state, pending, r);
      d := c;
    } else {
      assert StrikeAll(c, []) == c by {
        StrikeNothing(c);
      }
      d := SealAt(c, r);
      SealKeepsShape(c, r);
      ShapeDisjoint(c, d);
      StrikeNothing(d);
    }
  }

  lemma ShadowWrite(c: State, s: Sys, pending: seq<Hit>, index: nat, word: u64)
    requires Shadows(c, s, pending) && !s.armed && index < |s.state.mem|
    ensures InBounds(s.state) && |c.mem| == |s.state.mem|
    ensures Shadows(c.(mem := c.mem[index := word]), Step(s, Write(index, word)), pending)
  {
    hide Disjoint;
    ShapeDisjoint(c, c.(mem := c.mem[index := word]));
  }

  /** The memory that an act writes on purpose. */
  function Written(mem: seq<u64>, a: Act): (m: seq<u64>)
    requires ValidAct(|mem|, a)
    ensures |m| == |mem|
  {
    if a.Did? && a.event.Write? then mem[a.event.index := a.event.word] else mem
  }

  lemma ShadowShape(c: State, s: Sys, pending: seq<Hit>)
    requires Shadows(c, s, pending)
    ensures InBounds(s.state) && |c.mem| == |s.state.mem|
  {
    hide AllClean, Disjoint;
  }

  lemma ShadowCalm(c: State, s: Sys, pending: seq<Hit>, a: Act)
    requires Shadows(c, s, pending) && Allowed(s, pending, a)
    ensures a.Did? && a.event.Write? ==> !s.armed
    ensures a.Did? && a.event.SealAll? ==> pending == []
  {
    hide AllClean, Disjoint, StrikeAll;
  }

  lemma ShadowSwitch(c: State, s: Sys, pending: seq<Hit>, on: bool)
    requires Shadows(c, s, pending) && InBounds(s.state)
    ensures Shadows(c, Step(s, SetEnabled(on)), pending)
  {
    hide AllClean, Disjoint, StrikeAll;
  }

  lemma IdleWork(s: Sys)
    requires InBounds(s.state) && !(s.armed && s.enabled)
    ensures Step(s, ScrubWork) == s
  {
  }

  lemma ShadowStep(c: State, s: Sys, pending: seq<Hit>, a: Act) returns (d: State)
    requires Shadows(c, s, pending) && ValidAct(|s.state.mem|, a) && Allowed(s, pending, a)
    ensures InBounds(s.state) && |c.mem| == |s.state.mem|
    ensures Shadows(d, Apply(s, a), NextPending(s, pending, a))
    ensures d.mem == Written(c.mem, a) && d.uncorrectable == c.uncorrectable
    ensures d.corrected + |NextPending(s, pending, a)| ==
            c.corrected + |pending| + (if Lands(s, a) then 1 else 0)
  {
    hide Shadows, Allowed, Step, StrikeAll;
    ShadowShape(c, s, pending);
    d := c;
    match a
    case Struck(h) =>
      if Lands(s, a) {
        ShadowFlip(c, s, pending, a);
      }
    case Did(Write(index, word)) =>
      ShadowCalm(c, s, pending, a);
      ShadowWrite(c, s, pending, index, word);
      d := c.(mem := c.mem[index := word]);
    case Did(Protect(base, words)) =>
      d := ShadowProtect(c, s, pending, base, words);
    case Did(SealAll) =>
      ShadowCalm(c, s, pending, a);
      d := ShadowSealAll(c, s, pending);
    case Did(Reseal(addr)) =>
      d := ShadowReseal(c, s, pending, addr);
    case Did(SetEnabled(on)) =>
      ShadowSwitch(c, s, pending, on);
    case Did(ScrubWork) =>
      if IsPass(s, a) {
        ShadowPass(c, s, pending);
        d := c.(corrected := c.corrected + |pending|);
      } else {
        IdleWork(s);
      }
  }

  // ----- whole runs

  lemma CarefulPrefix(s: Sys, acts: seq<Act>, n: nat)
    requires InBounds(s.state) && forall i | 0 <= i < |acts| :: ValidAct(|s.state.mem|, acts[i])
    requires Careful(s, acts) && n <= |acts|
    ensures Careful(s, acts[..n])
  {
    hide Allowed, Trace, Pending;
    forall k | 0 <= k < n ensures Allowed(Trace(s, acts[..n][..k]), Pending(s, acts[..n][..k]), acts[..n][k]) {
      assert acts[..n][..k] == acts[..k];
    }
  }

  lemma WritesAppend(mem: seq<u64>, es: seq<Event>, e: Event)
    requires ValidEvent(|mem|, e) && forall i | 0 <= i < |es| :: ValidEvent(|mem|, es[i])
    ensures WritesOnly(mem, es + [e]) == Written(WritesOnly(mem, es), Did(e))
  {
    hide ValidEvent;
    var all := es + [e];
    assert all[..|es|] == es;
  }

  lemma EventsSnoc(size: nat, acts: seq<Act>)
    requires acts != [] && forall i | 0 <= i < |acts| :: ValidAct(size, acts[i])
    ensures var n := |acts| - 1;
      Events(size, acts) ==
      if acts[n].Did? then Events(size, acts[..n]) + [acts[n].event] else Events(size, acts[..n])
  {
    hide ValidAct;
  }

  lemma WritesSnoc(mem: seq<u64>, acts: seq<Act>)
    requires acts != [] && forall i | 0 <= i < |acts| :: ValidAct(|mem|, acts[i])
    ensures WritesOnly(mem, Events(|mem|, acts)) ==
            Written(WritesOnly(mem, Events(|mem|, acts[..|acts| - 1])), acts[|acts| - 1])
  {
    hide WritesOnly, Events, ValidEvent;
    var n := |acts| - 1;
    assert ValidAct(|mem|, acts[n]);
    EventsSnoc(|mem|, acts);
    if acts[n].Did? {
      WritesAppend(mem, Events(|mem|, acts[..n]), acts[n].event);
    }
  }

  lemma BootShadow(s: Sys)
    requires s.state.regions == [] && !s.armed
    ensures Shadows(s.state, s, [])
  {
  }

  /** At every moment the system is a clean state with the pending flips on top. */
  lemma {:induction false} ShadowOf(s: Sys, acts: seq<Act>) returns (c: State)
    requires s.state.regions == [] && !s.armed
    requires forall i | 0 <= i < |acts| :: ValidAct(|s.state.mem|, acts[i])
    requires Careful(s, acts)
    ensures Shadows(c, Trace(s, acts), Pending(s, acts))
    ensures c.mem == WritesOnly(s.state.mem, Events(|s.state.mem|, acts))
    ensures c.uncorrectable == s.state.uncorrectable
    ensures c.corrected + |Pending(s, acts)| == s.state.corrected + FlipCount(s, acts)
  {
    hide Shadows, Allowed, Apply, NextPending, Lands, Written;
    if acts == [] {
      c := s.state;
      BootShadow(s);
    } else {
      var n := |acts| - 1;
      CarefulPrefix(s, acts, n);
      var b := ShadowOf(s, acts[..n]);
      c := ShadowStep(b, Trace(s, acts[..n]), Pending(s, acts[..n]), acts[n]);
      WritesSnoc(s.state.mem, acts);
    }
  }

  /**
   In every careful run from boot with flips: whenever a pass has just run (or no flip is pending)
   memory is exactly what the legitimate writes left, every code fits its word, and the corrected
   counter has grown by the number of flips; nothing is ever reported as uncorrectable.
   */
  lemma CarefulRunsLoseNothing(s: Sys, acts: seq<Act>)
    requires s.state.regions == [] && !s.armed
    requires forall i | 0 <= i < |acts| :: ValidAct(|s.state.mem|, acts[i])
    requires Careful(s, acts)
    ensures var t, pending := Trace(s, acts).state, Pending(s, acts);
      && t.corrected + |pending| == s.state.corrected + FlipCount(s, acts)
      && t.uncorrectable == s.state.uncorrectable
      && (pending == [] ==> t.mem == WritesOnly(s.state.mem, Events(|s.state.mem|, acts)))
      && (pending == [] && Trace(s, acts).armed ==> AllClean(t))
  {
    hide Trace, Pending, FlipCount, AllClean, Disjoint;
    var c := ShadowOf(s, acts);
    StrikeNothing(c);
  }

  /** A pass leaves no flip pending. */
  lemma PassClearsPending(s: Sys, acts: seq<Act>)
    requires InBounds(s.state) && forall i | 0 <= i < |acts| :: ValidAct(|s.state.mem|, acts[i])
    requires acts != [] && IsPass(Trace(s, acts[..|acts| - 1]), acts[|acts| - 1])
    ensures Pending(s, acts) == []
  {
  }
}
