/**
 One scrub pass as a function of memory contents: which units change, what is counted, what a
 pass leaves behind.
 */
module Scrub {
  import opened Bitwise
  import opened SoftEcc
  import opened Secded

  /** A registered region: the index of its first memory word and one code per word. */
  datatype Region = Region(base: nat, codes: seq<u8>)

  /** Memory, the region list and the two event counters. */
  datatype State = State(mem: seq<u64>, regions: seq<Region>, corrected: nat, uncorrectable: nat)

  predicate Fits(mem: seq<u64>, g: Region) {
    g.base + |g.codes| <= |mem|
  }

  predicate InBounds(s: State) {
    forall r | 0 <= r < |s.regions| :: Fits(s.mem, s.regions[r])
  }

  function UnitOf(mem: seq<u64>, g: Region, j: nat): Unit
    requires Fits(mem, g) && j < |g.codes|
  {
    Unit(mem[g.base + j], g.codes[j])
  }

  predicate IsUnit(s: State, r: nat, j: nat) {
    r < |s.regions| && j < |s.regions[r].codes|
  }

  function UnitAt(s: State, r: nat, j: nat): Unit
    requires InBounds(s) && IsUnit(s, r, j)
  {
    UnitOf(s.mem, s.regions[r], j)
  }

  function Status(u: Unit): int {
    StatusCode(VerifyUnit(u))
  }

  /** What a pass does to one unit: corrections are written back, every dirty unit is resealed. */
  function ScrubUnit(u: Unit): Unit {
    match VerifyUnit(u)
    case Clean => u
    case Corrected(word) => Codeword(word)
    case Uncorrectable => Codeword(u.data)
  }

  function ScrubbedWord(mem: seq<u64>, g: Region, k: nat): u64
    requires Fits(mem, g) && k < |mem|
  {
    if g.base <= k < g.base + |g.codes| then ScrubUnit(UnitOf(mem, g, k - g.base)).data else mem[k]
  }

  function ScrubbedMem(mem: seq<u64>, g: Region): (m: seq<u64>)
    requires Fits(mem, g)
    ensures |m| == |mem|
  {
    seq(|mem|, k requires 0 <= k < |mem| => ScrubbedWord(mem, g, k))
  }

  function ScrubbedCodes(mem: seq<u64>, g: Region): (c: seq<u8>)
    requires Fits(mem, g)
    ensures |c| == |g.codes|
  {
    seq(|g.codes|, j requires 0 <= j < |g.codes| => ScrubUnit(UnitOf(mem, g, j)).code)
  }

  /** Memory and codes when the first `n` units of a region have been visited. */
  function PartMem(mem: seq<u64>, g: Region, n: nat): (m: seq<u64>)
    requires Fits(mem, g) && n <= |g.codes|
    ensures |m| == |mem| && forall k | g.base + n <= k < |mem| :: m[k] == mem[k]
  {
    seq(|mem|, k requires 0 <= k < |mem| => if k < g.base + n then ScrubbedWord(mem, g, k) else mem[k])
  }

  function PartCodes(mem: seq<u64>, g: Region, n: nat): (c: seq<u8>)
    requires Fits(mem, g) && n <= |g.codes|
    ensures |c| == |g.codes| && forall j | n <= j < |g.codes| :: c[j] == g.codes[j]
  {
    seq<u8>(|g.codes|, j requires 0 <= j < |g.codes| => if j < n then ScrubUnit(UnitOf(mem, g, j)).code else g.codes[j])
  }

  lemma PartStart(mem: seq<u64>, g: Region)
    requires Fits(mem, g)
    ensures PartMem(mem, g, 0) == mem && PartCodes(mem, g, 0) == g.codes
    ensures PartMem(mem, g, |g.codes|) == ScrubbedMem(mem, g) && PartCodes(mem, g, |g.codes|) == ScrubbedCodes(mem, g)
  {
    hide ScrubUnit;
  }

  lemma PartStep(mem: seq<u64>, g: Region, n: nat)
    requires Fits(mem, g) && n < |g.codes|
    ensures PartMem(mem, g, n + 1) == PartMem(mem, g, n)[g.base + n := ScrubUnit(UnitOf(mem, g, n)).data]
    ensures PartCodes(mem, g, n + 1) == PartCodes(mem, g, n)[n := ScrubUnit(UnitOf(mem, g, n)).code]
  {
    hide ScrubUnit;
  }

  /** How many of the first `n` units of a region verify with the given status. */
  function CountStatus(mem: seq<u64>, g: Region, n: nat, status: int): nat
    requires Fits(mem, g) && n <= |g.codes|
  {
    if n == 0 then 0
    else CountStatus(mem, g, n - 1, status) + (if Status(UnitOf(mem, g, n - 1)) == status then 1 else 0)
  }

  function CountRegion(mem: seq<u64>, g: Region, status: int): nat
    requires Fits(mem, g)
  {
    CountStatus(mem, g, |g.codes|, status)
  }

  /** The same memory size and the same regions, up to contents. */
  predicate SameShape(s: State, t: State) {
    && |s.mem| == |t.mem|
    && |s.regions| == |t.regions|
    && (forall r | 0 <= r < |s.regions| ::
          s.regions[r].base == t.regions[r].base && |s.regions[r].codes| == |t.regions[r].codes|)
    && (InBounds(s) ==> InBounds(t))
  }

  /** Region `r` scrubbed. */
  function ScrubAt(s: State, r: nat): (t: State)
    requires InBounds(s) && r < |s.regions|
    ensures SameShape(s, t)
  {
    var g := s.regions[r];
    State(ScrubbedMem(s.mem, g), s.regions[r := Region(g.base, ScrubbedCodes(s.mem, g))],
          s.corrected + CountRegion(s.mem, g, 1), s.uncorrectable + CountRegion(s.mem, g, -1))
  }

  /** The first `n` regions scrubbed, in list order. */
  function ScrubFirst(s: State, n: nat): (t: State)
    requires InBounds(s) && n <= |s.regions|
    ensures SameShape(s, t)
  {
    if n == 0 then s else ScrubAt(ScrubFirst(s, n - 1), n - 1)
  }

  function ScrubAll(s: State): (t: State)
    requires InBounds(s)
    ensures SameShape(s, t)
  {
    ScrubFirst(s, |s.regions|)
  }

  /** No memory word belongs to two regions. */
  ghost predicate Disjoint(s: State) {
    forall q: nat, i: nat, r: nat, j: nat :: IsUnit(s, q, i) && IsUnit(s, r, j) && q != r ==>
      s.regions[q].base + i != s.regions[r].base + j
  }

  ghost predicate AllClean(s: State)
    requires InBounds(s)
  {
    forall r: nat, j: nat | IsUnit(s, r, j) :: VerifyUnit(UnitAt(s, r, j)) == Clean
  }

  predicate Covered(s: State, n: nat, k: nat)
    requires n <= |s.regions|
  {
    exists r :: 0 <= r < n && s.regions[r].base <= k < s.regions[r].base + |s.regions[r].codes|
  }

  /** The number of units of the first `n` regions that verify with the given status. */
  function CountFirst(s: State, n: nat, status: int): nat
    requires InBounds(s) && n <= |s.regions|
  {
    if n == 0 then 0 else CountFirst(s, n - 1, status) + CountRegion(s.mem, s.regions[n - 1], status)
  }

  // ----- one unit

  lemma ScrubUnitClean(u: Unit)
    ensures VerifyUnit(ScrubUnit(u)) == Clean
    ensures Status(ScrubUnit(u)) == 0
  {
    CleanIff(ScrubUnit(u));
    CleanIff(u);
  }

  // ----- a whole pass over disjoint regions

  lemma {:induction false} CountSame(mem: seq<u64>, g: Region, mem': seq<u64>, g': Region, n: nat, status: int)
    requires Fits(mem, g) && Fits(mem', g') && |g.codes| == |g'.codes| && n <= |g.codes|
    requires forall j | 0 <= j < n :: UnitOf(mem, g, j) == UnitOf(mem', g', j)
    ensures CountStatus(mem, g, n, status) == CountStatus(mem', g', n, status)
  {
    if n == 0 {
    } else {
      CountSame(mem, g, mem', g', n - 1, status);
    }
  }

  lemma ShapeUnits(s: State, t: State, r: nat, j: nat)
    requires SameShape(s, t)
    ensures IsUnit(s, r, j) <==> IsUnit(t, r, j)
  {
  }

  lemma ShapeDisjoint(s: State, t: State)
    requires SameShape(s, t) && Disjoint(s)
    ensures Disjoint(t)
  {
    forall q: nat, i: nat, r: nat, j: nat | IsUnit(t, q, i) && IsUnit(t, r, j) && q != r
      ensures t.regions[q].base + i != t.regions[r].base + j
    {
      ShapeUnits(s, t, q, i);
      ShapeUnits(s, t, r, j);
    }
  }

  lemma ScrubAtSelf(s: State, q: nat, j: nat)
    requires InBounds(s) && IsUnit(s, q, j)
    ensures UnitAt(ScrubAt(s, q), q, j) == ScrubUnit(UnitAt(s, q, j))
  {
    hide ScrubUnit;
    var g := s.regions[q];
    assert ScrubbedWord(s.mem, g, g.base + j) == ScrubUnit(UnitAt(s, q, j)).data;
  }

  lemma ScrubAtOther(s: State, q: nat, r: nat, j: nat)
    requires InBounds(s) && Disjoint(s) && q < |s.regions| && IsUnit(s, r, j) && r != q
    ensures UnitAt(ScrubAt(s, q), r, j) == UnitAt(s, r, j)
  {
    var g, k := s.regions[q], s.regions[r].base + j;
    assert forall i: nat :: IsUnit(s, q, i) ==> g.base + i != k;
    assert ScrubbedWord(s.mem, g, k) == s.mem[k] by {
      if k >= g.base {
        assert !IsUnit(s, q, k - g.base);
      }
    }
  }

  /** With disjoint regions a pass scrubs every unit independently of all others. */
  lemma {:induction false} ScrubFirstUnit(s: State, n: nat, r: nat, j: nat)
    requires InBounds(s) && Disjoint(s) && n <= |s.regions| && IsUnit(s, r, j)
    ensures IsUnit(ScrubFirst(s, n), r, j)
    ensures UnitAt(ScrubFirst(s, n), r, j) == if r < n then ScrubUnit(UnitAt(s, r, j)) else UnitAt(s, r, j)
  {
    hide ScrubUnit, ScrubAt;
    if n == 0 {
    } else {
      var t := ScrubFirst(s, n - 1);
      ScrubFirstUnit(s, n - 1, r, j);
      ShapeDisjoint(s, t);
      if r == n - 1 {
        ScrubAtSelf(t, r, j);
      } else {
        ScrubAtOther(t, n - 1, r, j);
      }
    }
  }

  lemma SameRegionCount(s: State, t: State, n: nat)
    requires InBounds(s) && Disjoint(s) && n < |s.regions| && t == ScrubFirst(s, n)
    ensures forall status :: CountRegion(t.mem, t.regions[n], status) == CountRegion(s.mem, s.regions[n], status)
  {
    var g, h := t.regions[n], s.regions[n];
    forall j: nat | j < |g.codes| ensures UnitOf(t.mem, g, j) == UnitOf(s.mem, h, j) {
      ScrubFirstUnit(s, n, n, j);
    }
    forall status ensures CountRegion(t.mem, g, status) == CountRegion(s.mem, h, status) {
      CountSame(t.mem, g, s.mem, h, |g.codes|, status);
    }
  }

  /** ... and counts every unit as it was before the pass. */
  lemma {:induction false} ScrubFirstCounts(s: State, n: nat)
    requires InBounds(s) && Disjoint(s) && n <= |s.regions|
    ensures ScrubFirst(s, n).corrected == s.corrected + CountFirst(s, n, 1)
    ensures ScrubFirst(s, n).uncorrectable == s.uncorrectable + CountFirst(s, n, -1)
  {
    hide CountRegion, ScrubbedMem, ScrubbedCodes, Disjoint, InBounds;
    if n == 0 {
    } else {
      var t := ScrubFirst(s, n - 1);
      ScrubFirstCounts(s, n - 1);
      SameRegionCount(s, t, n - 1);
    }
  }

  /** Words outside every region are never written. */
  lemma {:induction false} ScrubFirstOutside(s: State, n: nat, k: nat)
    requires InBounds(s) && n <= |s.regions| && k < |s.mem| && !Covered(s, n, k)
    ensures ScrubFirst(s, n).mem[k] == s.mem[k]
  {
    if n == 0 {
    } else {
      assert !Covered(s, n - 1, k);
      ScrubFirstOutside(s, n - 1, k);
      var g := s.regions[n - 1];
      assert !(g.base <= k < g.base + |g.codes|);
    }
  }
}
