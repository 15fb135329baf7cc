/**
 The kernel side of soft-ECC: kernel memory, the list of registered regions with their shadow
 code arrays, the event counters and the delayed scrub work. Every method is proved to compute
 the corresponding function of `Scrub` and `Lifecycle` in place.
 */
module SoftEccKernel {
  import opened Bitwise
  import opened SoftEcc
  import opened Scrub
  import opened CodecLoops
  import opened Lifecycle

  /** `struct softecc_region`: `base` is the index of the first word in kernel memory. */
  datatype RegionRec = RegionRec(name: string, base: nat, words: nat, codes: array<u8>, readonly: bool)

  ghost function RegionView(r: RegionRec): Region
    reads r.codes
  {
    Region(r.base, r.codes[..])
  }

  ghost function CodeArrays(rs: seq<RegionRec>): set<object> {
    set k | 0 <= k < |rs| :: rs[k].codes as object
  }

  ghost function RegionViews(rs: seq<RegionRec>): (gs: seq<Region>)
    reads CodeArrays(rs)
    ensures |gs| == |rs|
    ensures forall k | 0 <= k < |rs| :: gs[k] == RegionView(rs[k])
  {
    if rs == [] then []
    else
      assert rs[|rs| - 1].codes in CodeArrays(rs);
      assert CodeArrays(rs[..|rs| - 1]) <= CodeArrays(rs);
      RegionViews(rs[..|rs| - 1]) + [RegionView(rs[|rs| - 1])]
  }

  lemma AppendView(rs: seq<RegionRec>, r: RegionRec)
    ensures RegionViews(rs + [r]) == RegionViews(rs) + [RegionView(r)]
  {
    assert (rs + [r])[..|rs|] == rs;
  }

  /** One word of a region: verify, write a correction back, reseal what was not clean. */
  method ScrubWord(mem: array<u64>, base: nat, codes: array<u8>, i: nat) returns (status: int)
    requires i < codes.Length && base + i < mem.Length && codes as object != mem
    modifies mem, codes
    ensures status == Status(old(Unit(mem[base + i], codes[i])))
    ensures mem[..] == old(mem[..])[base + i := ScrubUnit(old(Unit(mem[base + i], codes[i]))).data]
    ensures codes[..] == old(codes[..])[i := ScrubUnit(old(Unit(mem[base + i], codes[i]))).code]
  {
    var word := mem[base + i];
    var res := KernelVerify(word, codes[i]);
    status := res.status;
    if res.status == 1 {
      mem[base + i] := res.data;
      codes[i] := ComputeEncode(res.data);
    } else if res.status == -1 {
      codes[i] := ComputeEncode(word);
    }
  }

  class SoftEccScrubber {
    const mem: array<u64>
    var regions: seq<RegionRec>
    var corrected: nat
    var uncorrectable: nat
    var enabled: bool
    var armed: bool

    ghost predicate ValidRegion(r: RegionRec) {
      r.codes.Length == r.words && r.base + r.words <= mem.Length && r.codes as object != mem
    }

    /** Every region is inside memory and owns its code array. */
    ghost predicate Valid()
      reads this`regions
    {
      && (forall k | 0 <= k < |regions| :: ValidRegion(regions[k]))
      && (forall i, k | 0 <= i < k < |regions| :: regions[i].codes != regions[k].codes)
    }

    /** The contents of memory, codes and counters as a value. */
    ghost function View(): (s: State)
      reads this, mem, CodeArrays(regions)
      requires Valid()
      ensures InBounds(s)
    {
      State(mem[..], RegionViews(regions), corrected, uncorrectable)
    }

    ghost function System(): Sys
      reads this, mem, CodeArrays(regions)
      requires Valid()
    {
      Sys(View(), enabled, armed)
    }

    constructor (memory: array<u64>)
      ensures Valid() && mem == memory
      ensures System() == Sys(State(memory[..], [], 0, 0), true, false)
    {
      mem := memory;
      regions := [];
      corrected, uncorrectable := 0, 0;
      enabled, armed := true, false;
    }

    /** Scrubs one region in place and counts what it found. */
    method ScrubWords(r: RegionRec)
      requires ValidRegion(r)
      modifies this`corrected, this`uncorrectable, mem, r.codes
      ensures mem[..] == ScrubbedMem(old(mem[..]), old(RegionView(r)))
      ensures r.codes[..] == ScrubbedCodes(old(mem[..]), old(RegionView(r)))
      ensures corrected == old(corrected) + CountRegion(old(mem[..]), old(RegionView(r)), 1)
      ensures uncorrectable == old(uncorrectable) + CountRegion(old(mem[..]), old(RegionView(r)), -1)
    {
      hide ScrubUnit, Status, PartMem, PartCodes, ScrubbedMem, ScrubbedCodes;
      ghost var g, m := RegionView(r), mem[..];
      PartStart(m, g);
      var i := 0;
      while i < r.words
        invariant 0 <= i <= r.words
        invariant mem[..] == PartMem(m, g, i) && r.codes[..] == PartCodes(m, g, i)
        invariant corrected == old(corrected) + CountStatus(m, g, i, 1)
        invariant uncorrectable == old(uncorrectable) + CountStatus(m, g, i, -1)
      {
        assert Unit(mem[..][r.base + i], r.codes[..][i]) == UnitOf(m, g, i);
        var status := ScrubWord(mem, r.base, r.codes, i);
        PartStep(m, g, i);
        if status == 1 {
          corrected := corrected + 1;
        } else if status == -1 {
          uncorrectable := uncorrectable + 1;
        }
        i := i + 1;
      }
    }

    /** Only the codes of region `k` have changed: the other views are as before. */
    twostate lemma ViewsAfter(k: nat)
      requires old(Valid()) && k < |regions| && regions == old(regions)
      requires forall i | 0 <= i < |regions| && i != k :: regions[i].codes[..] == old(regions[i].codes[..])
      ensures RegionViews(regions) == old(RegionViews(regions))[k := RegionView(regions[k])]
    {
      var after, before := RegionViews(regions), old(RegionViews(regions));
      forall i | 0 <= i < |regions| ensures after[i] == before[k := RegionView(regions[k])][i] {
      }
    }

    method ScrubRegion(k: nat)
      requires Valid() && k < |regions|
      modifies this`corrected, this`uncorrectable, mem, regions[k].codes
      ensures Valid() && View() == ScrubAt(old(View()), k)
    {
      hide ScrubbedMem, ScrubbedCodes, CountRegion;
      assert forall i | 0 <= i < |regions| && i != k :: regions[i].codes != regions[k].codes;
      ScrubWords(regions[k]);
      ViewsAfter(k);
    }

    method ScrubEach()
      requires Valid()
      modifies this`corrected, this`uncorrectable, mem, CodeArrays(regions)
      ensures Valid() && View() == ScrubAll(old(View()))
    {
      hide ScrubAt, RegionViews, RegionView;
      for k := 0 to |regions|
        invariant Valid() && regions == old(regions)
        invariant View() == ScrubFirst(old(View()), k)
      {
        assert regions[k].codes in CodeArrays(regions);
        ScrubRegion(k);
      }
    }

    /** The delayed work: scrubs every region unless switched off, and stays scheduled. */
    method ScrubFn()
      requires Valid() && armed
      modifies this`corrected, this`uncorrectable, mem, CodeArrays(regions)
      ensures Valid() && System() == Step(old(System()), ScrubWork)
    {
      hide ScrubAll;
      if enabled {
        ScrubEach();
      }
    }

    /** Encodes the current contents of the region into its code array. */
    method SealCodes(base: nat, codes: array<u8>)
      requires base + codes.Length <= mem.Length && codes as object != mem
      modifies codes
      ensures codes[..] == SealedCodes(mem[..], base, codes.Length)
    {
      hide Encode;
      for i := 0 to codes.Length
        invariant forall j | 0 <= j < i :: codes[j] == Encode(mem[base + j])
      {
        codes[i] := ComputeEncode(mem[base + i]);
      }
    }

    method SealRegion(k: nat)
      requires Valid() && k < |regions|
      modifies regions[k].codes
      ensures Valid() && View() == SealAt(old(View()), k)
    {
      assert forall i | 0 <= i < |regions| && i != k :: regions[i].codes != regions[k].codes;
      SealCodes(regions[k].base, regions[k].codes);
      ViewsAfter(k);
    }

    /** Registers `size / 8` words from `base` on under the codes of their current contents. */
    method Protect(name: string, base: nat, size: nat, readonly: bool)
      requires Valid() && base + size / 8 <= mem.Length
      modifies this`regions
      ensures Valid() && System() == Step(old(System()), Event.Protect(base, size / 8))
      ensures |regions| == |old(regions)| + 1 && regions[..|old(regions)|] == old(regions)
      ensures var r := regions[|old(regions)|];
        && r.name == name && r.base == base && r.words == size / 8 && r.readonly == readonly && fresh(r.codes)
        && forall j | 0 <= j < r.words :: r.codes[j] == Encode(mem[base + j])
    {
      hide Encode, RegionViews, SealedCodes;
      ghost var before := View();
      var words := size / 8;
      var codes := new u8[words];
      assert codes !in CodeArrays(regions);
      SealCodes(base, codes);
      assert View() == before;
      var r := RegionRec(name, base, words, codes, readonly);
      AppendView(regions, r);
      regions := regions + [r];
      assert View() == before.(regions := before.regions + [RegionView(r)]);
    }

    method SealEach()
      requires Valid()
      modifies CodeArrays(regions)
      ensures Valid() && View() == SealFirst(old(View()), |regions|)
    {
      hide SealAt, RegionViews, RegionView;
      for k := 0 to |regions|
        invariant Valid() && regions == old(regions)
        invariant View() == SealFirst(old(View()), k)
      {
        assert regions[k].codes in CodeArrays(regions);
        SealRegion(k);
      }
    }

    /** Takes the baseline of every region and starts the scrubber. */
    method SealAll()
      requires Valid()
      modifies this`armed, CodeArrays(regions)
      ensures Valid() && System() == Step(old(System()), Event.SealAll)
    {
      hide SealFirst;
      SealEach();
      armed := true;
    }

    /** Recomputes the codes of the first region registered at `addr`, if any. */
    method Reseal(addr: nat)
      requires Valid()
      modifies CodeArrays(regions)
      ensures Valid() && System() == Step(old(System()), Event.Reseal(addr))
    {
      hide Encode, SealAt, RegionViews;
      var k := 0;
      while k < |regions| && regions[k].base != addr
        invariant 0 <= k <= |regions|
        invariant forall i | 0 <= i < k :: regions[i].base != addr
      {
        k := k + 1;
      }
      assert k == FirstAt(View().regions, addr);
      if k < |regions| {
        SealRegion(k);
      }
    }
  }
}
