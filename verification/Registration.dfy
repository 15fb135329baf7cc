/**
 What registration achieves over whole runs: which words are protected, when the scrubber is on,
 and that a protected word is restored.
 */
module Registration {
  import opened Bitwise
  import opened SoftEcc
  import opened Secded
  import opened Scrub
  import opened ScrubRuns
  import opened Lifecycle
  import opened FaultyRuns

  /** A range of memory words. */
  datatype Span = Span(base: nat, words: nat)

  function Spans(gs: seq<Region>): (spans: seq<Span>)
    ensures |spans| == |gs| && forall r | 0 <= r < |gs| :: spans[r] == Span(gs[r].base, |gs[r].codes|)
  {
    seq(|gs|, r requires 0 <= r < |gs| => Span(gs[r].base, |gs[r].codes|))
  }

  /** The ranges of the registrations among some events, in order. */
  function Protected(es: seq<Event>): seq<Span> {
    if es == [] then []
    else
      var e := es[|es| - 1];
      Protected(es[..|es| - 1]) + (if e.Protect? then [Span(e.base, e.words)] else [])
  }

  /** The setting of the last switch among some events. */
  function LastSwitch(on: bool, es: seq<Event>): bool {
    if es == [] then on
    else
      var e := es[|es| - 1];
      if e.SetEnabled? then e.on else LastSwitch(on, es[..|es| - 1])
  }

  lemma ShapeSpans(s: State, t: State)
    requires SameShape(s, t)
    ensures Spans(s.regions) == Spans(t.regions)
  {
  }

  lemma SealSpans(s: State)
    requires InBounds(s)
    ensures Spans(SealFirst(s, |s.regions|).regions) == Spans(s.regions)
  {
    hide Encode, SealFirst;
    forall r | 0 <= r < |s.regions|
      ensures Spans(SealFirst(s, |s.regions|).regions)[r] == Spans(s.regions)[r]
    {
      SealFirstRegion(s, |s.regions|, r);
    }
  }

  /** The regions and the switch after one event. */
  lemma StepSpans(s: Sys, e: Event)
    requires InBounds(s.state) && ValidEvent(|s.state.mem|, e)
    ensures Spans(Step(s, e).state.regions) ==
            if e.Protect? then Spans(s.state.regions) + [Span(e.base, e.words)] else Spans(s.state.regions)
    ensures Step(s, e).enabled == if e.SetEnabled? then e.on else s.enabled
  {
    hide Encode, ScrubAll, SealFirst;
    if e.SealAll? {
      SealSpans(s.state);
    } else if e.ScrubWork? {
      ShapeSpans(s.state, ScrubAll(s.state));
    }
  }

  /**
   In every run from boot the regions are exactly the registered ranges, in order, and the
   scrubber is on or off as it was last switched.
   */
  lemma {:induction false} RegionsAreTheProtected(s: Sys, events: seq<Event>)
    requires s.state.regions == [] && forall i | 0 <= i < |events| :: ValidEvent(|s.state.mem|, events[i])
    ensures Spans(Run(s, events).state.regions) == Protected(events)
    ensures Run(s, events).enabled == LastSwitch(s.enabled, events)
  {
    hide Step, Spans;
    if events == [] {
      assert Spans([]) == [];
    } else {
      var n := |events| - 1;
      RegionsAreTheProtected(s, events[..n]);
      StepSpans(Run(s, events[..n]), events[n]);
    }
  }

  lemma ProtectedSnoc(es: seq<Event>, on: bool, e: Event)
    ensures Protected(es + [e]) == Protected(es) + (if e.Protect? then [Span(e.base, e.words)] else [])
    ensures LastSwitch(on, es + [e]) == if e.SetEnabled? then e.on else LastSwitch(on, es)
  {
    assert (es + [e])[..|es|] == es;
  }

  lemma NoEvents(size: nat, on: bool)
    ensures Events(size, []) == [] && Protected([]) == [] && LastSwitch(on, []) == on && Spans([]) == []
  {
  }

  /** The same with bit flips in between. */
  lemma {:induction false} TraceRegions(s: Sys, acts: seq<Act>)
    requires s.state.regions == [] && forall i | 0 <= i < |acts| :: ValidAct(|s.state.mem|, acts[i])
    ensures Spans(Trace(s, acts).state.regions) == Protected(Events(|s.state.mem|, acts))
    ensures Trace(s, acts).enabled == LastSwitch(s.enabled, Events(|s.state.mem|, acts))
  {
    hide Step, Spans, Strike, Protected, LastSwitch, Events;
    var size := |s.state.mem|;
    if acts == [] {
      NoEvents(size, s.enabled);
    } else {
      var n := |acts| - 1;
      var t := Trace(s, acts[..n]);
      TraceRegions(s, acts[..n]);
      EventsSnoc(size, acts);
      match acts[n]
      case Did(e) =>
        StepSpans(t, e);
        ProtectedSnoc(Events(size, acts[..n]), s.enabled, e);
      case Struck(h) =>
        if ValidHit(t.state, h) {
          ShapeSpans(t.state, Strike(t.state, h));
        }
    }
  }

  predicate Separate(a: Span, b: Span) {
    a.words == 0 || b.words == 0 || a.base + a.words <= b.base || b.base + b.words <= a.base
  }

  /** No word lies in two ranges. */
  predicate SpansApart(spans: seq<Span>) {
    forall q, r | 0 <= q < |spans| && 0 <= r < |spans| && q != r :: Separate(spans[q], spans[r])
  }

  lemma ApartIsDisjoint(s: State)
    requires SpansApart(Spans(s.regions))
    ensures Disjoint(s)
  {
    forall q: nat, i: nat, r: nat, j: nat | IsUnit(s, q, i) && IsUnit(s, r, j) && q != r
      ensures s.regions[q].base + i != s.regions[r].base + j
    {
      assert Separate(Spans(s.regions)[q], Spans(s.regions)[r]);
    }
  }

  lemma {:induction false} ProtectedHas(es: seq<Event>, i: nat) returns (r: nat)
    requires i < |es| && es[i].Protect?
    ensures r < |Protected(es)| && Protected(es)[r] == Span(es[i].base, es[i].words)
  {
    var n := |es| - 1;
    if i == n {
      r := |Protected(es[..n])|;
    } else {
      r := ProtectedHas(es[..n], i);
    }
  }

  /** Every word of a registered range is a unit. */
  lemma ProtectedUnit(s: Sys, events: seq<Event>, i: nat, k: nat) returns (r: nat, j: nat)
    requires s.state.regions == [] && forall n | 0 <= n < |events| :: ValidEvent(|s.state.mem|, events[n])
    requires i < |events| && events[i].Protect? && events[i].base <= k < events[i].base + events[i].words
    ensures IsUnit(Run(s, events).state, r, j) && Run(s, events).state.regions[r].base + j == k
  {
    hide Run, Protected;
    RegionsAreTheProtected(s, events);
    r := ProtectedHas(events, i);
    j := k - events[i].base;
    assert Spans(Run(s, events).state.regions)[r] == Span(events[i].base, events[i].words);
  }

  /** A changed word as a hit on its unit. */
  lemma OneBitHit(s: State, r: nat, j: nat, word: u64) returns (h: Hit)
    requires InBounds(s) && IsUnit(s, r, j)
    requires CountOnes(Xor(s.mem[s.regions[r].base + j], word)) == 1
    ensures h.place == Place(r, j) && ValidHit(s, h)
    ensures Strike(s, h) == s.(mem := s.mem[s.regions[r].base + j := word])
  {
    hide CountOnes, Xor, Flip;
    var u := UnitAt(s, r, j);
    var v := Unit(word, u.code);
    XorSelf(u.code);
    CountZero(Xor(u.code, u.code));
    var e := Neighbour(u, v);
    h := Hit(Place(r, j), e);
    var g := s.regions[r];
    assert g.codes[j := v.code] == g.codes;
    assert s.regions[r := Region(g.base, g.codes)] == s.regions;
  }

  /**
   From boot to repair: a word of a registered range in which one bit has changed after sealing is
   restored by the next pass, and counted.
   */
  lemma ProtectedWordRestored(s: Sys, events: seq<Event>, i: nat, sealed: nat, k: nat, word: u64)
    requires s.state.regions == [] && !s.armed
    requires forall n | 0 <= n < |events| :: ValidEvent(|s.state.mem|, events[n])
    requires WritesStopAtSeal(events) && SpansApart(Protected(events)) && LastSwitch(s.enabled, events)
    requires sealed < |events| && events[sealed].SealAll?
    requires i < |events| && events[i].Protect? && events[i].base <= k < events[i].base + events[i].words
    requires k < |s.state.mem| && CountOnes(Xor(Run(s, events).state.mem[k], word)) == 1
    ensures var t := Run(s, events);
      && t.state.mem == WritesOnly(s.state.mem, events)
      && Step(t.(state := t.state.(mem := t.state.mem[k := word])), ScrubWork) ==
         t.(state := t.state.(corrected := t.state.corrected + 1))
  {
    hide Run, CountOnes, Xor, Strike, AllClean, ScrubAll, Spans, SpansApart, Protected, WritesOnly, LastSwitch;
    var t := Run(s, events);
    SealedRunsAreQuiet(s, events);
    RegionsAreTheProtected(s, events);
    ApartIsDisjoint(t.state);
    var r, j := ProtectedUnit(s, events, i, k);
    var h := OneBitHit(t.state, r, j, word);
    RoundRestores(t.state, [h]);
    OneStrike(t.state, h);
  }
}
