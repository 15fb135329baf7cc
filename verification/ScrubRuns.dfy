/** What scrub passes guarantee: for one pass, for repeated passes, and over runs with bit flips. */
module ScrubRuns {
  import opened Bitwise
  import opened SoftEcc
  import opened Secded
  import opened Scrub

  // ----- clean memory is left alone (whatever the layout)

  ghost predicate CleanRegion(s: State, r: nat)
    requires InBounds(s) && r < |s.regions|
  {
    forall j: nat | j < |s.regions[r].codes| :: VerifyUnit(UnitOf(s.mem, s.regions[r], j)) == Clean
  }

  lemma {:induction false} CleanCounts(mem: seq<u64>, g: Region, n: nat)
    requires Fits(mem, g) && n <= |g.codes|
    requires forall j: nat | j < n :: VerifyUnit(UnitOf(mem, g, j)) == Clean
    ensures CountStatus(mem, g, n, 1) == 0 && CountStatus(mem, g, n, -1) == 0
  {
    hide VerifyUnit;
    if n == 0 {
    } else {
      CleanCounts(mem, g, n - 1);
      assert Status(UnitOf(mem, g, n - 1)) == 0;
    }
  }

  lemma CleanScrubAt(s: State, r: nat)
    requires InBounds(s) && r < |s.regions| && CleanRegion(s, r)
    ensures ScrubAt(s, r) == s
  {
    hide VerifyUnit;
    var g := s.regions[r];
    CleanCounts(s.mem, g, |g.codes|);
    assert forall j: nat :: j < |g.codes| ==> ScrubUnit(UnitOf(s.mem, g, j)) == UnitOf(s.mem, g, j);
    assert ScrubbedCodes(s.mem, g) == g.codes;
    forall k: nat | k < |s.mem| ensures ScrubbedWord(s.mem, g, k) == s.mem[k] {
      if g.base <= k < g.base + |g.codes| {
        assert UnitOf(s.mem, g, k - g.base).data == s.mem[k];
      }
    }
    assert ScrubbedMem(s.mem, g) == s.mem;
    assert s.regions[r := Region(g.base, g.codes)] == s.regions;
  }

  lemma {:induction false} CleanPrefix(s: State, n: nat)
    requires InBounds(s) && n <= |s.regions|
    requires forall r: nat | r < n :: CleanRegion(s, r)
    ensures ScrubFirst(s, n) == s
  {
    hide ScrubAt, CleanRegion;
    if n == 0 {
    } else {
      CleanPrefix(s, n - 1);
      CleanScrubAt(s, n - 1);
    }
  }

  /** Memory whose units are all clean is a fixed point of the pass, counters included. */
  lemma CleanIsFixed(s: State)
    requires InBounds(s) && AllClean(s)
    ensures ScrubAll(s) == s
  {
    hide VerifyUnit;
    forall r: nat | r < |s.regions| ensures CleanRegion(s, r) {
      forall j: nat | j < |s.regions[r].codes|
        ensures VerifyUnit(UnitOf(s.mem, s.regions[r], j)) == Clean
      {
        assert IsUnit(s, r, j);
        assert VerifyUnit(UnitAt(s, r, j)) == Clean;
      }
    }
    CleanPrefix(s, |s.regions|);
  }

  // ----- one pass from any contents

  /** One pass leaves every unit clean, so a second pass changes and counts nothing. */
  lemma PassCleans(s: State)
    requires InBounds(s) && Disjoint(s)
    ensures AllClean(ScrubAll(s))
    ensures ScrubAll(ScrubAll(s)) == ScrubAll(s)
  {
    hide VerifyUnit, ScrubUnit, ScrubFirst;
    var t := ScrubAll(s);
    forall r: nat, j: nat | IsUnit(t, r, j) ensures VerifyUnit(UnitAt(t, r, j)) == Clean {
      ShapeUnits(s, t, r, j);
      ScrubFirstUnit(s, |s.regions|, r, j);
      ScrubUnitClean(UnitAt(s, r, j));
    }
    CleanIsFixed(t);
  }

  datatype Place = Place(region: nat, word: nat)

  /** The units of the first `n` regions that verify with the given status. */
  ghost function StatusSet(s: State, n: nat, status: int): set<Place>
    requires InBounds(s) && n <= |s.regions|
  {
    set r: nat, j: nat | r < n && j < |s.regions[r].codes| && Status(UnitAt(s, r, j)) == status :: Place(r, j)
  }

  ghost function RegionSet(s: State, r: nat, n: nat, status: int): set<Place>
    requires InBounds(s) && r < |s.regions| && n <= |s.regions[r].codes|
  {
    set j: nat | j < n && Status(UnitAt(s, r, j)) == status :: Place(r, j)
  }

  lemma {:induction false} CardRegion(s: State, r: nat, n: nat, status: int)
    requires InBounds(s) && r < |s.regions| && n <= |s.regions[r].codes|
    ensures |RegionSet(s, r, n, status)| == CountStatus(s.mem, s.regions[r], n, status)
  {
    hide Status;
    if n == 0 {
    } else {
      CardRegion(s, r, n - 1, status);
      var here := if Status(UnitAt(s, r, n - 1)) == status then {Place(r, n - 1)} else {};
      assert RegionSet(s, r, n, status) == RegionSet(s, r, n - 1, status) + here;
    }
  }

  /** The counted number of units is the number of units. */
  lemma {:induction false} CardFirst(s: State, n: nat, status: int)
    requires InBounds(s) && n <= |s.regions|
    ensures |StatusSet(s, n, status)| == CountFirst(s, n, status)
  {
    hide Status;
    if n == 0 {
      assert StatusSet(s, n, status) == {};
    } else {
      CardFirst(s, n - 1, status);
      var size := |s.regions[n - 1].codes|;
      CardRegion(s, n - 1, size, status);
      assert StatusSet(s, n, status) == StatusSet(s, n - 1, status) + RegionSet(s, n - 1, size, status);
    }
  }

  ghost function Units(s: State, status: int): set<Place>
    requires InBounds(s)
  {
    StatusSet(s, |s.regions|, status)
  }

  /** A pass counts every corrected and every uncorrectable unit once; the next pass counts none. */
  lemma PassReports(s: State)
    requires InBounds(s) && Disjoint(s)
    ensures ScrubAll(s).corrected == s.corrected + |Units(s, 1)|
    ensures ScrubAll(s).uncorrectable == s.uncorrectable + |Units(s, -1)|
    ensures Units(ScrubAll(s), 1) == {} && Units(ScrubAll(s), -1) == {}
  {
    hide VerifyUnit, ScrubUnit, ScrubFirst;
    ScrubFirstCounts(s, |s.regions|);
    CardFirst(s, |s.regions|, 1);
    CardFirst(s, |s.regions|, -1);
    PassCleans(s);
    var t := ScrubAll(s);
    forall r: nat, j: nat | IsUnit(t, r, j) ensures Status(UnitAt(t, r, j)) == 0 {
      assert VerifyUnit(UnitAt(t, r, j)) == Clean;
    }
  }

  /** A unit with two flipped bits keeps its word, is counted by this pass and by no later one. */
  lemma DoubleFlipReported(s: State, r: nat, j: nat, word: u64, e: nat, f: nat)
    requires InBounds(s) && Disjoint(s) && IsUnit(s, r, j) && e < 72 && f < 72 && e != f
    requires UnitAt(s, r, j) == Flip(Flip(Codeword(word), e), f)
    ensures IsUnit(ScrubAll(s), r, j) && UnitAt(ScrubAll(s), r, j) == Codeword(UnitAt(s, r, j).data)
    ensures Place(r, j) in Units(s, -1) && Place(r, j) !in Units(ScrubAll(s), -1)
    ensures ScrubAll(ScrubAll(s)) == ScrubAll(s)
  {
    hide VerifyUnit, ScrubFirst, Flip;
    DoubleFlip(word, e, f);
    ScrubFirstUnit(s, |s.regions|, r, j);
    PassCleans(s);
    PassReports(s);
  }

  // ----- runs of bit flips and passes

  /** A flip of one stored bit of one unit. */
  datatype Hit = Hit(place: Place, bit: nat)

  predicate ValidHit(s: State, h: Hit) {
    IsUnit(s, h.place.region, h.place.word) && h.bit < 72
  }

  function Strike(s: State, h: Hit): (t: State)
    requires InBounds(s) && ValidHit(s, h)
    ensures SameShape(s, t) && t.corrected == s.corrected && t.uncorrectable == s.uncorrectable
  {
    var g := s.regions[h.place.region];
    var u := Flip(UnitAt(s, h.place.region, h.place.word), h.bit);
    s.(mem := s.mem[g.base + h.place.word := u.data],
       regions := s.regions[h.place.region := Region(g.base, g.codes[h.place.word := u.code])])
  }

  predicate ValidHits(s: State, hits: seq<Hit>) {
    forall i | 0 <= i < |hits| :: ValidHit(s, hits[i])
  }

  /** No unit is hit twice. */
  predicate Apart(hits: seq<Hit>) {
    forall i, k | 0 <= i < k < |hits| :: hits[i].place != hits[k].place
  }

  function StrikeAll(s: State, hits: seq<Hit>): (t: State)
    requires InBounds(s) && ValidHits(s, hits)
    ensures SameShape(s, t) && t.corrected == s.corrected && t.uncorrectable == s.uncorrectable
  {
    if hits == [] then s
    else
      var n := |hits| - 1;
      Strike(StrikeAll(s, hits[..n]), hits[n])
  }

  lemma StrikeSelf(s: State, h: Hit)
    requires InBounds(s) && ValidHit(s, h)
    ensures UnitAt(Strike(s, h), h.place.region, h.place.word) == Flip(UnitAt(s, h.place.region, h.place.word), h.bit)
  {
    hide Flip;
  }

  lemma StrikeOther(s: State, h: Hit, r: nat, j: nat)
    requires InBounds(s) && Disjoint(s) && ValidHit(s, h) && IsUnit(s, r, j) && h.place != Place(r, j)
    ensures UnitAt(Strike(s, h), r, j) == UnitAt(s, r, j)
  {
    hide Flip;
    if r != h.place.region {
      assert IsUnit(s, h.place.region, h.place.word);
    }
  }

  /** After a list of hits on distinct units: the hit units have one flip, the others none. */
  lemma {:induction false} StrikeUnits(s: State, hits: seq<Hit>, r: nat, j: nat)
    requires InBounds(s) && Disjoint(s) && ValidHits(s, hits) && Apart(hits) && IsUnit(s, r, j)
    ensures forall i | 0 <= i < |hits| && hits[i].place == Place(r, j) ::
      UnitAt(StrikeAll(s, hits), r, j) == Flip(UnitAt(s, r, j), hits[i].bit)
    ensures (forall i | 0 <= i < |hits| :: hits[i].place != Place(r, j)) ==>
      UnitAt(StrikeAll(s, hits), r, j) == UnitAt(s, r, j)
  {
    hide Flip, Strike, UnitAt, Disjoint, InBounds;
    if hits == [] {
    } else {
      var n := |hits| - 1;
      var t, h := StrikeAll(s, hits[..n]), hits[n];
      StrikeUnits(s, hits[..n], r, j);
      ShapeUnits(s, t, r, j);
      ShapeDisjoint(s, t);
      if h.place == Place(r, j) {
        StrikeSelf(t, h);
        forall i | 0 <= i < n ensures hits[..n][i].place != Place(r, j) {
          assert hits[i].place != hits[n].place;
        }
      } else {
        StrikeOther(t, h, r, j);
        forall i | 0 <= i < |hits| && hits[i].place == Place(r, j)
          ensures UnitAt(Strike(t, h), r, j) == Flip(UnitAt(s, r, j), hits[i].bit)
        {
          assert hits[..n][i] == hits[i];
        }
      }
    }
  }

  /** Words outside every region are not reached by hits. */
  lemma {:induction false} StrikeOutside(s: State, hits: seq<Hit>, k: nat)
    requires InBounds(s) && ValidHits(s, hits) && k < |s.mem| && !Covered(s, |s.regions|, k)
    ensures StrikeAll(s, hits).mem[k] == s.mem[k]
  {
    hide Flip;
    if hits == [] {
    } else {
      var n := |hits| - 1;
      StrikeOutside(s, hits[..n], k);
      var g := s.regions[hits[n].place.region];
      assert !(g.base <= k < g.base + |g.codes|);
    }
  }

  ghost function Places(hits: seq<Hit>): set<Place> {
    set i | 0 <= i < |hits| :: hits[i].place
  }

  lemma {:induction false} PlacesCard(hits: seq<Hit>)
    requires Apart(hits)
    ensures |Places(hits)| == |hits|
  {
    if hits == [] {
    } else {
      var n := |hits| - 1;
      PlacesCard(hits[..n]);
      assert Places(hits) == Places(hits[..n]) + {hits[n].place} by {
        forall p | p in Places(hits) ensures p in Places(hits[..n]) + {hits[n].place} {
          var i :| 0 <= i < |hits| && hits[i].place == p;
          if i < n {
            assert hits[..n][i] == hits[i];
          }
        }
      }
    }
  }

  /** In a struck clean state, unit by unit: the pass restores it, and it counts iff it was hit. */
  lemma StruckUnit(s: State, hits: seq<Hit>, r: nat, j: nat)
    requires InBounds(s) && Disjoint(s) && AllClean(s) && ValidHits(s, hits) && Apart(hits) && IsUnit(s, r, j)
    ensures IsUnit(StrikeAll(s, hits), r, j)
    ensures ScrubUnit(UnitAt(StrikeAll(s, hits), r, j)) == UnitAt(s, r, j)
    ensures Status(UnitAt(StrikeAll(s, hits), r, j)) == if Place(r, j) in Places(hits) then 1 else 0
  {
    hide VerifyUnit, Flip, StrikeAll;
    var u := UnitAt(s, r, j);
    assert VerifyUnit(u) == Clean;
    CleanIff(u);
    ShapeUnits(s, StrikeAll(s, hits), r, j);
    StrikeUnits(s, hits, r, j);
    if i :| 0 <= i < |hits| && hits[i].place == Place(r, j) {
      SingleFlip(u.data, hits[i].bit);
    }
  }

  lemma RoundWord(s: State, hits: seq<Hit>, k: nat)
    requires InBounds(s) && Disjoint(s) && AllClean(s) && ValidHits(s, hits) && Apart(hits) && k < |s.mem|
    ensures ScrubAll(StrikeAll(s, hits)).mem[k] == s.mem[k]
  {
    hide ScrubFirst, StrikeAll, Status, ScrubUnit;
    var t := StrikeAll(s, hits);
    ShapeDisjoint(s, t);
    if r :| 0 <= r < |s.regions| && s.regions[r].base <= k < s.regions[r].base + |s.regions[r].codes| {
      var j := k - s.regions[r].base;
      StruckUnit(s, hits, r, j);
      ScrubFirstUnit(t, |s.regions|, r, j);
    } else {
      StrikeOutside(s, hits, k);
      ScrubFirstOutside(t, |s.regions|, k);
    }
  }

  lemma RegionsEqual(s: State, z: State)
    requires InBounds(s) && SameShape(s, z)
    requires forall r: nat, j: nat | IsUnit(s, r, j) :: UnitAt(z, r, j) == UnitAt(s, r, j)
    ensures s.regions == z.regions
  {
    forall r: nat | r < |s.regions| ensures s.regions[r] == z.regions[r] {
      forall j: nat | j < |s.regions[r].codes| ensures s.regions[r].codes[j] == z.regions[r].codes[j] {
        assert IsUnit(s, r, j);
        assert UnitAt(z, r, j) == UnitAt(s, r, j);
      }
      assert s.regions[r].codes == z.regions[r].codes;
    }
  }

  lemma RoundCounts(s: State, hits: seq<Hit>)
    requires InBounds(s) && Disjoint(s) && AllClean(s) && ValidHits(s, hits) && Apart(hits)
    ensures ScrubAll(StrikeAll(s, hits)).corrected == s.corrected + |hits|
    ensures ScrubAll(StrikeAll(s, hits)).uncorrectable == s.uncorrectable
  {
    hide ScrubFirst, StrikeAll, Status, ScrubUnit;
    var t := StrikeAll(s, hits);
    ShapeDisjoint(s, t);
    PassReports(t);
    PlacesCard(hits);
    forall r: nat, j: nat | IsUnit(t, r, j)
      ensures Status(UnitAt(t, r, j)) == if Place(r, j) in Places(hits) then 1 else 0
    {
      ShapeUnits(s, t, r, j);
      StruckUnit(s, hits, r, j);
    }
    assert Units(t, -1) == {};
    forall p | p in Places(hits) ensures p in Units(t, 1) {
      var i :| 0 <= i < |hits| && hits[i].place == p;
      assert ValidHit(s, hits[i]);
      ShapeUnits(s, t, p.region, p.word);
    }
    assert Units(t, 1) == Places(hits);
  }

  /**
   If every unit takes at most one flip between two passes, the pass restores every word and
   every code to its sealed value and the corrected counter grows by the number of flips.
   */
  lemma RoundRestores(s: State, hits: seq<Hit>)
    requires InBounds(s) && Disjoint(s) && AllClean(s) && ValidHits(s, hits) && Apart(hits)
    ensures ScrubAll(StrikeAll(s, hits)) == s.(corrected := s.corrected + |hits|)
  {
    hide ScrubFirst, StrikeAll, Status, ScrubUnit;
    var t := StrikeAll(s, hits);
    var n := |s.regions|;
    ShapeDisjoint(s, t);
    RoundCounts(s, hits);
    var z := ScrubAll(t);
    forall r: nat, j: nat | IsUnit(s, r, j) ensures UnitAt(z, r, j) == UnitAt(s, r, j) {
      StruckUnit(s, hits, r, j);
      ScrubFirstUnit(t, n, r, j);
    }
    forall k: nat | k < |s.mem| ensures z.mem[k] == s.mem[k] {
      RoundWord(s, hits, k);
    }
    assert z.mem == s.mem;
    RegionsEqual(s, z);
  }

  lemma ShapeHits(s: State, t: State, hits: seq<Hit>)
    requires SameShape(s, t) && ValidHits(s, hits)
    ensures ValidHits(t, hits)
  {
    forall i | 0 <= i < |hits| ensures ValidHit(t, hits[i]) {
      ShapeUnits(s, t, hits[i].place.region, hits[i].place.word);
    }
  }

  /** A run: rounds of hits, each round followed by a pass. */
  ghost function Rounds(s: State, rounds: seq<seq<Hit>>): (t: State)
    requires InBounds(s) && forall i | 0 <= i < |rounds| :: ValidHits(s, rounds[i])
    ensures SameShape(s, t)
  {
    if rounds == [] then s
    else
      var n := |rounds| - 1;
      var t := Rounds(s, rounds[..n]);
      ShapeHits(s, t, rounds[n]);
      ScrubAll(StrikeAll(t, rounds[n]))
  }

  function TotalHits(rounds: seq<seq<Hit>>): nat {
    if rounds == [] then 0 else TotalHits(rounds[..|rounds| - 1]) + |rounds[|rounds| - 1]|
  }

  lemma SameContents(s: State, t: State)
    requires s.mem == t.mem && s.regions == t.regions && InBounds(s) && Disjoint(s) && AllClean(s)
    ensures InBounds(t) && Disjoint(t) && AllClean(t)
  {
    hide VerifyUnit;
    forall q: nat, i: nat, r: nat, j: nat | IsUnit(t, q, i) && IsUnit(t, r, j) && q != r
      ensures t.regions[q].base + i != t.regions[r].base + j
    {
      assert IsUnit(s, q, i) && IsUnit(s, r, j);
    }
    forall r: nat, j: nat | IsUnit(t, r, j) ensures VerifyUnit(UnitAt(t, r, j)) == Clean {
      assert IsUnit(s, r, j);
      assert VerifyUnit(UnitAt(s, r, j)) == Clean;
    }
  }

  /** Over every run with at most one flip per unit between passes nothing is ever lost. */
  lemma {:induction false} RunRestores(s: State, rounds: seq<seq<Hit>>)
    requires InBounds(s) && Disjoint(s) && AllClean(s)
    requires forall i | 0 <= i < |rounds| :: ValidHits(s, rounds[i]) && Apart(rounds[i])
    ensures Rounds(s, rounds) == s.(corrected := s.corrected + TotalHits(rounds))
  {
    hide ScrubAll, StrikeAll;
    if rounds == [] {
    } else {
      var n := |rounds| - 1;
      RunRestores(s, rounds[..n]);
      var t := Rounds(s, rounds[..n]);
      SameContents(s, t);
      ShapeHits(s, t, rounds[n]);
      RoundRestores(t, rounds[n]);
    }
  }
}
