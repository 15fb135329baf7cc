/** Which region layouts the pass is correct for: exactly those without shared words. */
module Layout {
  import opened Bitwise
  import opened SoftEcc
  import opened Secded
  import opened Scrub
  import opened ScrubRuns

  /** The pass cleans every unit whatever memory and codes hold. */
  ghost predicate PassAlwaysCleans(s: State)
    requires InBounds(s)
  {
    forall t: State | SameShape(s, t) :: AllClean(ScrubAll(t))
  }

  function EvenRegion(base: nat, size: nat, word: u64): (g: Region)
    ensures g.base == base && |g.codes| == size && forall j | 0 <= j < size :: g.codes[j] == Encode(word)
  {
    Region(base, seq(size, j => Encode(word)))
  }

  function EvenRegions(s: State, word: u64): (gs: seq<Region>)
    ensures |gs| == |s.regions|
    ensures forall q | 0 <= q < |gs| :: gs[q] == EvenRegion(s.regions[q].base, |s.regions[q].codes|, word)
  {
    seq(|s.regions|, q requires 0 <= q < |s.regions| => EvenRegion(s.regions[q].base, |s.regions[q].codes|, word))
  }

  /** Memory filled with `a` under matching codes, except that code `j` of region `r` belongs to `b`. */
  function Conflict(s: State, r: nat, j: nat, a: u64, b: u64): (t: State)
    requires InBounds(s) && IsUnit(s, r, j)
  {
    var gs := EvenRegions(s, a);
    State(seq(|s.mem|, k => a), gs[r := Region(gs[r].base, gs[r].codes[j := Encode(b)])], 0, 0)
  }

  lemma ConflictShape(s: State, r: nat, j: nat, a: u64, b: u64)
    requires InBounds(s) && IsUnit(s, r, j)
    ensures SameShape(s, Conflict(s, r, j, a, b))
  {
    hide Encode;
  }

  lemma ConflictUnits(s: State, r: nat, j: nat, a: u64, b: u64, q: nat, i: nat)
    requires InBounds(s) && IsUnit(s, r, j) && IsUnit(s, q, i)
    ensures InBounds(Conflict(s, r, j, a, b)) && IsUnit(Conflict(s, r, j, a, b), q, i)
    ensures UnitAt(Conflict(s, r, j, a, b), q, i) == Unit(a, if q == r && i == j then Encode(b) else Encode(a))
  {
    hide Encode;
    ConflictShape(s, r, j, a, b);
  }

  /** A word one bit away from the word its code belongs to is corrected to that word. */
  lemma OneBitConflict(a: u64, b: u64)
    requires CountOnes(Xor(a, b)) == 1
    ensures ScrubUnit(Unit(a, Encode(b))) == Codeword(b)
    ensures Encode(a) != Encode(b)
  {
    hide Encode, VerifyUnit;
    var u := Unit(a, Encode(b));
    XorSelf(Encode(b));
    XorZero(a, b);
    CorrectedIff(u, b);
    CleanIff(u);
  }

  /** Once a region has been scrubbed its codes stay as they are for the rest of the pass. */
  lemma {:induction false} CodesStable(s: State, r: nat, m: nat, n: nat)
    requires InBounds(s) && r < m <= n <= |s.regions|
    ensures ScrubFirst(s, n).regions[r] == ScrubFirst(s, m).regions[r]
    decreases n
  {
    hide ScrubbedMem, ScrubbedCodes, CountRegion, InBounds;
    if m == n {
    } else {
      CodesStable(s, r, m, n - 1);
    }
  }

  /** The regions before the conflict are clean, so the pass reaches it unchanged. */
  lemma ConflictPrefix(s: State, r: nat, j: nat, a: u64, b: u64)
    requires InBounds(s) && IsUnit(s, r, j)
    ensures InBounds(Conflict(s, r, j, a, b)) && |Conflict(s, r, j, a, b).regions| == |s.regions|
    ensures ScrubFirst(Conflict(s, r, j, a, b), r) == Conflict(s, r, j, a, b)
  {
    hide Encode, VerifyUnit, Conflict;
    var t := Conflict(s, r, j, a, b);
    ConflictShape(s, r, j, a, b);
    forall p: nat | p < r ensures CleanRegion(t, p) {
      forall l: nat | l < |t.regions[p].codes| ensures VerifyUnit(UnitOf(t.mem, t.regions[p], l)) == Clean {
        ConflictUnits(s, r, j, a, b, p, l);
        CleanIff(UnitAt(t, p, l));
      }
    }
    CleanPrefix(t, r);
  }

  /** The codes the pass leaves on the two units that share a word. */
  lemma ConflictCodes(s: State, q: nat, i: nat, r: nat, j: nat, a: u64, b: u64)
    requires InBounds(s) && IsUnit(s, q, i) && IsUnit(s, r, j) && q < r && CountOnes(Xor(a, b)) == 1
    ensures var t := Conflict(s, r, j, a, b);
      && InBounds(t) && IsUnit(ScrubAll(t), q, i) && IsUnit(ScrubAll(t), r, j)
      && UnitAt(ScrubAll(t), q, i).code == Encode(a)
      && UnitAt(ScrubAll(t), r, j).code == Encode(b)
  {
    hide Encode, VerifyUnit, Conflict, ScrubUnit, ScrubAt;
    var t, n := Conflict(s, r, j, a, b), |s.regions|;
    ConflictShape(s, r, j, a, b);
    ConflictPrefix(s, r, j, a, b);
    ConflictUnits(s, r, j, a, b, q, i);
    ConflictUnits(s, r, j, a, b, r, j);
    OneBitConflict(a, b);
    ScrubAtSelf(t, r, j);
    assert ScrubFirst(t, r + 1) == ScrubAt(t, r);
    CodesStable(t, r, r + 1, n);
    if q + 1 < r {
      CodesStable(t, q, q + 1, r);
    }
    CodesStable(t, q, r, n);
    ShapeUnits(t, ScrubAll(t), q, i);
    ShapeUnits(t, ScrubAll(t), r, j);
  }

  /** Two regions with a common word: some contents survive the pass in a dirty state. */
  lemma OverlapStaysDirty(s: State, q: nat, i: nat, r: nat, j: nat, a: u64, b: u64)
    requires InBounds(s) && IsUnit(s, q, i) && IsUnit(s, r, j) && q < r && CountOnes(Xor(a, b)) == 1
    requires s.regions[q].base + i == s.regions[r].base + j
    ensures SameShape(s, Conflict(s, r, j, a, b)) && !AllClean(ScrubAll(Conflict(s, r, j, a, b)))
  {
    hide Encode, VerifyUnit, Conflict, ScrubAll;
    var t := Conflict(s, r, j, a, b);
    ConflictShape(s, r, j, a, b);
    var z := ScrubAll(t);
    ConflictCodes(s, q, i, r, j, a, b);
    OneBitConflict(a, b);
    if AllClean(z) {
      CleanIff(UnitAt(z, q, i));
      CleanIff(UnitAt(z, r, j));
    }
  }

  /** The pass is correct on a layout, for all contents, if and only if no word is shared. */
  lemma PassCorrectIffDisjoint(s: State)
    requires InBounds(s)
    ensures PassAlwaysCleans(s) <==> Disjoint(s)
  {
    hide ScrubAll, Conflict;
    if Disjoint(s) {
      forall t: State | SameShape(s, t) ensures AllClean(ScrubAll(t)) {
        ShapeDisjoint(s, t);
        PassCleans(t);
      }
    } else {
      var q: nat, i: nat, r: nat, j: nat :| IsUnit(s, q, i) && IsUnit(s, r, j) && q != r
        && s.regions[q].base + i == s.regions[r].base + j;
      var a, b := 0, 1;
      assert CountOnes(Xor(a, b)) == 1;
      if q < r {
        OverlapStaysDirty(s, q, i, r, j, a, b);
      } else {
        OverlapStaysDirty(s, r, j, q, i, a, b);
      }
    }
  }
}
