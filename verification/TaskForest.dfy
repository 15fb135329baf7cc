/**
 The task tree as the C scheduler sees it at fork time: hub search, sampling of children and
 threads, the burst caches, and what a new task inherits. Pointers are task identifiers and the
 tree is a finite map.
 */
module TaskForest {
  import opened Bitwise
  import opened BoreMath
  import opened BoreKernel
  import opened BurstCache

  type Id = nat

  datatype Task = Task(
    bore: KCtx,
    subtree: PackedCache,
    group: PackedCache,
    parent: Id,
    children: seq<Id>,
    leader: Id,
    threads: seq<Id>,
    kthread: bool,
    eligible: bool)

  type Forest = map<Id, Task>

  const SCAN_LIMIT: nat := 126

  ghost predicate IsChild(f: Forest, t: Id, c: Id) {
    c in f && c != t && f[c].parent == t
  }

  /** One task's links: its parent is one level up (or itself), its lists name tasks. */
  ghost predicate Linked(f: Forest, depth: map<Id, nat>, t: Id)
    requires t in f && t in depth
  {
    var p := f[t].parent;
    && p in f && p in depth && f[t].leader in f
    && (if p == t then depth[t] == 0 else depth[t] == depth[p] + 1)
    && (forall i | 0 <= i < |f[t].children| :: IsChild(f, t, f[t].children[i]))
    && (forall i | 0 <= i < |f[t].threads| :: f[t].threads[i] in f)
  }

  /** A finite tree (or forest) of tasks whose roots are their own parents. */
  ghost predicate Tree(f: Forest, depth: map<Id, nat>) {
    depth.Keys == f.Keys && forall t {:trigger Linked(f, depth, t)} | t in f :: Linked(f, depth, t)
  }

  function UpTo2(n: nat): nat {
    if n < 2 then n else 2
  }

  function ChildrenUpTo2(f: Forest, t: Id): nat
    requires t in f
  {
    UpTo2(|f[t].children|)
  }

  // ----- upwards: the hub

  /** The upward walk stops here: at the root, or where there are more children than allowed. */
  predicate Stops(f: Forest, t: Id, allowed: nat)
    requires t in f
  {
    f[t].parent == t || ChildrenUpTo2(f, t) > allowed
  }

  ghost function HubFrom(f: Forest, depth: map<Id, nat>, t: Id, allowed: nat): (hub: Id)
    requires Tree(f, depth) && t in f
    ensures hub in f
    decreases depth[t]
  {
    assert Linked(f, depth, t);
    if Stops(f, t, allowed) then t else HubFrom(f, depth, f[t].parent, 1)
  }

  ghost function Hub(f: Forest, depth: map<Id, nat>, parent: Id, cloneParent: bool): (hub: Id)
    requires Tree(f, depth) && parent in f
    ensures hub in f
  {
    assert Linked(f, depth, parent);
    if cloneParent then HubFrom(f, depth, f[parent].parent, 1) else HubFrom(f, depth, parent, 0)
  }

  /** The n-th ancestor. */
  ghost function Ancestor(f: Forest, depth: map<Id, nat>, t: Id, n: nat): (a: Id)
    requires Tree(f, depth) && t in f
    ensures a in f
    decreases n
  {
    assert Linked(f, depth, t);
    if n == 0 then t else Ancestor(f, depth, f[t].parent, n - 1)
  }

  /** The walk allows its first task `allowed` children and every later one a single child. */
  function AllowedAt(allowed: nat, n: nat): nat {
    if n == 0 then allowed else 1
  }

  /**
   The hub is the first task on the way up at which the walk stops, and it is reached in at most
   as many steps as the start is deep.
   */
  lemma {:induction false} HubIsFirst(f: Forest, depth: map<Id, nat>, t: Id, allowed: nat) returns (n: nat)
    requires Tree(f, depth) && t in f
    ensures n <= depth[t] && HubFrom(f, depth, t, allowed) == Ancestor(f, depth, t, n)
    ensures Stops(f, Ancestor(f, depth, t, n), AllowedAt(allowed, n))
    ensures forall k: nat | k < n :: !Stops(f, Ancestor(f, depth, t, k), AllowedAt(allowed, k))
    decreases depth[t]
  {
    assert Linked(f, depth, t);
    if Stops(f, t, allowed) {
      n := 0;
    } else {
      var p := f[t].parent;
      var m := HubIsFirst(f, depth, p, 1);
      n := m + 1;
      forall k: nat | k < n ensures !Stops(f, Ancestor(f, depth, t, k), AllowedAt(allowed, k)) {
        if k > 0 {
          assert Ancestor(f, depth, t, k) == Ancestor(f, depth, p, k - 1);
          assert AllowedAt(1, k - 1) == 1;
        }
      }
    }
  }

  /**
   The hub of a fork, by parent pointers and child counts alone: the walk starts at the parent, or
   at the parent's parent for CLONE_PARENT; it stops at the first task that is a root or has more
   than one child, and already at the parent itself if that has any child.
   */
  lemma HubOfFork(f: Forest, depth: map<Id, nat>, parent: Id, cloneParent: bool) returns (n: nat)
    requires Tree(f, depth) && parent in f
    ensures f[parent].parent in f
    ensures var start := if cloneParent then f[parent].parent else parent;
      var hub := Ancestor(f, depth, start, n);
      && Hub(f, depth, parent, cloneParent) == hub && n <= depth[start]
      && (f[hub].parent == hub || |f[hub].children| > (if cloneParent || n > 0 then 1 else 0))
    ensures var start := if cloneParent then f[parent].parent else parent;
      forall k: nat | k < n ::
        var t := Ancestor(f, depth, start, k);
        f[t].parent != t && |f[t].children| <= (if cloneParent || k > 0 then 1 else 0)
  {
    assert Linked(f, depth, parent);
    var start := if cloneParent then f[parent].parent else parent;
    n := HubIsFirst(f, depth, start, if cloneParent then 1 else 0);
  }

  /** The depths are determined by the parent pointers, so nothing here depends on their choice. */
  lemma {:induction false} DepthUnique(f: Forest, d: map<Id, nat>, e: map<Id, nat>, t: Id)
    requires Tree(f, d) && Tree(f, e) && t in f
    ensures d[t] == e[t]
    decreases d[t]
  {
    assert Linked(f, d, t) && Linked(f, e, t);
    if f[t].parent == t {
    } else {
      DepthUnique(f, d, e, f[t].parent);
    }
  }

  // ----- downwards: the end of a sole-child chain

  ghost function MaxDepth(depth: map<Id, nat>): (d: nat)
    ensures forall t | t in depth :: depth[t] <= d
  {
    if depth == map[] then 0
    else
      var t :| t in depth;
      var rest := map k | k in depth && k != t :: depth[k];
      var d := MaxDepth(rest);
      assert forall k | k in depth :: k == t || k in rest;
      if depth[t] <= d then d else depth[t]
  }

  predicate SoleChild(f: Forest, t: Id)
    requires t in f
  {
    ChildrenUpTo2(f, t) == 1
  }

  ghost function Leaf(f: Forest, depth: map<Id, nat>, t: Id): (leaf: Id)
    requires Tree(f, depth) && t in f
    ensures leaf in f
    decreases MaxDepth(depth) - depth[t]
  {
    assert Linked(f, depth, t);
    if !SoleChild(f, t) then t
    else
      var c := f[t].children[0];
      assert IsChild(f, t, c);
      assert Linked(f, depth, c);
      Leaf(f, depth, c)
  }

  lemma {:induction false} AncestorStep(f: Forest, depth: map<Id, nat>, t: Id, n: nat)
    requires Tree(f, depth) && t in f
    ensures Ancestor(f, depth, t, n + 1) == f[Ancestor(f, depth, t, n)].parent
    decreases n
  {
    assert Linked(f, depth, t);
    if n == 0 {
    } else {
      AncestorStep(f, depth, f[t].parent, n - 1);
    }
  }

  /** The leaf is the first task on the chain of sole children that has none or several. */
  lemma {:induction false} LeafEndsChain(f: Forest, depth: map<Id, nat>, t: Id) returns (n: nat)
    requires Tree(f, depth) && t in f
    ensures Ancestor(f, depth, Leaf(f, depth, t), n) == t
    ensures |f[Leaf(f, depth, t)].children| != 1
    ensures forall k: nat | 0 < k <= n :: |f[Ancestor(f, depth, Leaf(f, depth, t), k)].children| == 1
    decreases MaxDepth(depth) - depth[t]
  {
    assert Linked(f, depth, t);
    if !SoleChild(f, t) {
      n := 0;
    } else {
      var c := f[t].children[0];
      assert IsChild(f, t, c) && Linked(f, depth, c);
      var m := LeafEndsChain(f, depth, c);
      n := m + 1;
      AncestorStep(f, depth, Leaf(f, depth, c), m);
    }
  }

  // ----- sampling

  function Take<T>(xs: seq<T>, n: nat): (ys: seq<T>)
    ensures |ys| <= n && |ys| <= |xs|
  {
    if |xs| <= n then xs else xs[..n]
  }

  /** The penalties of the eligible tasks of a list, in list order. */
  function Penalties(f: Forest, xs: seq<Id>): (ps: seq<u16>)
    requires forall i | 0 <= i < |xs| :: xs[i] in f
    ensures |ps| <= |xs|
  {
    if xs == [] then []
    else
      var n := |xs| - 1;
      Penalties(f, xs[..n]) + (if f[xs[n]].eligible then [f[xs[n]].bore.penalty] else [])
  }

  /** At most 63 samples among the first 126 tasks of a list. */
  function Samples(f: Forest, xs: seq<Id>): (ps: seq<u16>)
    requires forall i | 0 <= i < |xs| :: xs[i] in f
    ensures |ps| <= BURST_CACHE_SAMPLE_LIMIT
  {
    Take(Penalties(f, Take(xs, SCAN_LIMIT)), BURST_CACHE_SAMPLE_LIMIT)
  }

  lemma PenaltiesLast(f: Forest, xs: seq<Id>)
    requires xs != [] && forall i | 0 <= i < |xs| :: xs[i] in f
    ensures var n := |xs| - 1;
      Penalties(f, xs) ==
      if f[xs[n]].eligible then Penalties(f, xs[..n]) + [f[xs[n]].bore.penalty] else Penalties(f, xs[..n])
  {
  }

  /** Index `j` of the list supplies penalty `i`. */
  predicate Supplies(f: Forest, xs: seq<Id>, ps: seq<u16>, i: nat, j: nat) {
    j < |xs| && i < |ps| && xs[j] in f && f[xs[j]].eligible && ps[i] == f[xs[j]].bore.penalty
  }

  lemma SuppliesMore(f: Forest, xs: seq<Id>, ps: seq<u16>, more: seq<u16>, i: nat, j: nat)
    requires xs != [] && Supplies(f, xs[..|xs| - 1], ps, i, j)
    ensures j < |xs| - 1 && Supplies(f, xs, ps, i, j) && Supplies(f, xs, ps + more, i, j)
  {
  }

  lemma SuppliesLast(f: Forest, xs: seq<Id>, ps: seq<u16>)
    requires xs != [] && xs[|xs| - 1] in f && f[xs[|xs| - 1]].eligible
    ensures Supplies(f, xs, ps + [f[xs[|xs| - 1]].bore.penalty], |ps|, |xs| - 1)
  {
  }

  /** The penalties of a list are supplied by the indices `at`, in order. */
  ghost predicate SuppliedBy(f: Forest, xs: seq<Id>, ps: seq<u16>, at: seq<nat>) {
    && |at| == |ps|
    && (forall i | 0 <= i < |at| :: Supplies(f, xs, ps, i, at[i]))
    && (forall i, k | 0 <= i < k < |at| :: at[i] < at[k])
  }

  lemma SuppliedStep(f: Forest, xs: seq<Id>, ps: seq<u16>, at: seq<nat>)
    requires xs != [] && xs[|xs| - 1] in f && SuppliedBy(f, xs[..|xs| - 1], ps, at)
    ensures SuppliedBy(f, xs, ps, at)
    ensures f[xs[|xs| - 1]].eligible ==>
      SuppliedBy(f, xs, ps + [f[xs[|xs| - 1]].bore.penalty], at + [|xs| - 1])
  {
    hide Supplies;
    var n := |xs| - 1;
    forall i | 0 <= i < |at|
      ensures at[i] < n && Supplies(f, xs, ps, i, at[i]) && Supplies(f, xs, ps + [f[xs[n]].bore.penalty], i, at[i])
    {
      SuppliesMore(f, xs, ps, [f[xs[n]].bore.penalty], i, at[i]);
    }
    if f[xs[n]].eligible {
      SuppliesLast(f, xs, ps);
    }
  }

  /** Where the penalties of a list come from: its eligible tasks, all of them, in order. */
  lemma {:induction false} PenaltiesExact(f: Forest, xs: seq<Id>) returns (at: seq<nat>)
    requires forall i | 0 <= i < |xs| :: xs[i] in f
    ensures SuppliedBy(f, xs, Penalties(f, xs), at)
    ensures forall j: nat | j < |xs| && f[xs[j]].eligible :: j in at
  {
    if xs == [] {
      at := [];
    } else {
      hide Penalties, SuppliedBy;
      var n := |xs| - 1;
      var most := PenaltiesExact(f, xs[..n]);
      PenaltiesLast(f, xs);
      SuppliedStep(f, xs, Penalties(f, xs[..n]), most);
      at := if f[xs[n]].eligible then most + [n] else most;
      forall j: nat | j < |xs| && f[xs[j]].eligible ensures j in at {
        if j < n {
          assert xs[..n][j] == xs[j];
        }
      }
    }
  }

  /**
   The samples are the penalties of the eligible tasks among the first 126 of the list, in order,
   cut off after 63.
   */
  lemma SamplesExact(f: Forest, xs: seq<Id>) returns (at: seq<nat>)
    requires forall i | 0 <= i < |xs| :: xs[i] in f
    ensures |at| == |Samples(f, xs)| <= 63
    ensures forall i | 0 <= i < |at| ::
      at[i] < |xs| && at[i] < 126 && f[xs[at[i]]].eligible && Samples(f, xs)[i] == f[xs[at[i]]].bore.penalty
    ensures forall i, k | 0 <= i < k < |at| :: at[i] < at[k]
    ensures forall j: nat | j < |xs| && j < 126 && f[xs[j]].eligible && j !in at ::
      |at| == 63 && forall i | 0 <= i < |at| :: at[i] < j
  {
    hide Penalties;
    var ys := Take(xs, SCAN_LIMIT);
    var all := PenaltiesExact(f, ys);
    at := Take(all, BURST_CACHE_SAMPLE_LIMIT);
    forall i | 0 <= i < |at|
      ensures at[i] < |xs| && at[i] < 126 && f[xs[at[i]]].eligible && Samples(f, xs)[i] == f[xs[at[i]]].bore.penalty
    {
      assert Supplies(f, ys, Penalties(f, ys), i, all[i]);
    }
    forall j: nat | j < |xs| && j < 126 && f[xs[j]].eligible && j !in at
      ensures |at| == 63 && forall i | 0 <= i < |at| :: at[i] < j
    {
      assert j in all;
      var k :| 0 <= k < |all| && all[k] == j;
      assert k >= |at|;
    }
  }

  function Sum(ps: seq<u16>): nat {
    if ps == [] then 0 else Sum(ps[..|ps| - 1]) + ps[|ps| - 1]
  }

  /** The integer mean, 0 for no samples. */
  function Mean(ps: seq<u16>): nat {
    if ps == [] then 0 else Sum(ps) / |ps|
  }

  /** The tasks whose penalties are sampled: the listed ones, or the ends of their chains. */
  ghost function Picked(f: Forest, depth: map<Id, nat>, xs: seq<Id>, viaLeaf: bool): (ys: seq<Id>)
    requires Tree(f, depth) && forall i | 0 <= i < |xs| :: xs[i] in f
    ensures |ys| == |xs| && forall i | 0 <= i < |ys| :: ys[i] in f
  {
    seq(|xs|, i requires 0 <= i < |xs| => if viaLeaf then Leaf(f, depth, xs[i]) else xs[i])
  }

  lemma {:induction false} SumBound(ps: seq<u16>, m: nat)
    requires forall i | 0 <= i < |ps| :: ps[i] <= m
    ensures Sum(ps) <= |ps| * m
  {
    if ps == [] {
    } else {
      var n := |ps| - 1;
      SumBound(ps[..n], m);
      Distribute(n, 1, m);
    }
  }

  lemma QuotientAtMost(a: nat, n: nat, m: nat)
    requires n >= 1 && a <= n * m
    ensures a / n <= m
  {
    if a / n > m {
      MulBounds(m + 1, a / n, n);
      DivBounds(a, n);
      Distribute(m, 1, n);
    }
  }

  /** The mean never exceeds the largest sample. */
  lemma MeanBound(ps: seq<u16>, m: nat)
    requires forall i | 0 <= i < |ps| :: ps[i] <= m
    ensures Mean(ps) <= m
  {
    if ps != [] {
      SumBound(ps, m);
      QuotientAtMost(Sum(ps), |ps|, m);
    }
  }

  /** The reciprocal table gives exactly the mean of the samples. */
  lemma TableMean(ps: seq<u16>, lut: seq<u32>)
    requires IsLut(lut) && |ps| <= BURST_CACHE_SAMPLE_LIMIT
    ensures Sum(ps) < U32
    ensures (if |ps| == 1 then Sum(ps) else (Sum(ps) * lut[|ps|] / U32) % U32) == Mean(ps)
  {
    hide Reciprocal;
    SumBound(ps, U16 - 1);
    MulBounds(|ps|, 63, U16 - 1);
    if |ps| == 0 {
      assert lut[0] == Reciprocal(0);
      ReciprocalZero();
    } else if |ps| > 1 {
      assert lut[|ps|] == Reciprocal(|ps|);
      ReciprocalDivides(Sum(ps), |ps|);
      QuotientSmall(Sum(ps), |ps|);
    }
  }
}
