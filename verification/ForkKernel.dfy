/**
 The loops of `kernel/sched/bore.c` that run at fork: counting children on the circular list,
 climbing to the hub, descending chains, sampling, refreshing caches and `task_fork_bore`.
 */
module ForkKernel {
  import opened Bitwise
  import opened BoreMath
  import opened BoreKernel
  import opened BurstCache
  import opened TaskForest
  import opened BurstInherit

  // ----- the circular child list

  class ListHead {
    var next: ListHead

    constructor ()
      ensures next == this
    {
      next := this;
    }
  }

  ghost predicate Follows(head: ListHead, elems: seq<ListHead>, i: nat)
    requires i < |elems|
    reads elems
  {
    elems[i].next == if i + 1 < |elems| then elems[i + 1] else head
  }

  /** `elems` are linked in order from `head` and back to it. */
  ghost predicate IsRing(head: ListHead, elems: seq<ListHead>)
    reads head, elems
  {
    && head !in elems
    && (forall i, k | 0 <= i < k < |elems| :: elems[i] != elems[k])
    && head.next == (if elems == [] then head else elems[0])
    && (forall i | 0 <= i < |elems| :: Follows(head, elems, i))
  }

  /** Two pointer reads count the elements of a ring up to two. */
  method CountChildrenUpTo2(head: ListHead, ghost elems: seq<ListHead>) returns (n: nat)
    requires IsRing(head, elems)
    ensures n == Min(|elems|, 2)
  {
    var first := head.next;
    var second := first.next;
    if elems != [] {
      assert elems[0] in elems && Follows(head, elems, 0);
      assert 1 < |elems| ==> elems[1] in elems;
    }
    n := (if first != head then 1 else 0) + (if second != head then 1 else 0);
  }

  // ----- the task table updated in place

  lemma EmptySums(f: Forest)
    ensures Penalties(f, []) == [] && Sum([]) == 0
  {
  }

  lemma PenaltiesSnoc(f: Forest, xs: seq<Id>, i: nat)
    requires i < |xs| && forall k | 0 <= k < |xs| :: xs[k] in f
    ensures Penalties(f, xs[..i + 1]) ==
            if f[xs[i]].eligible then Penalties(f, xs[..i]) + [f[xs[i]].bore.penalty] else Penalties(f, xs[..i])
  {
    assert xs[..i + 1][..i] == xs[..i];
  }

  lemma SumSnoc(ps: seq<u16>, p: u16)
    ensures Sum(ps + [p]) == Sum(ps) + p
  {
    assert (ps + [p])[..|ps|] == ps;
  }

  lemma {:induction false} PenaltiesPrefix(f: Forest, xs: seq<Id>, i: nat)
    requires i <= |xs| && forall k | 0 <= k < |xs| :: xs[k] in f
    ensures |Penalties(f, xs[..i])| <= |Penalties(f, xs)|
    ensures Penalties(f, xs)[..|Penalties(f, xs[..i])|] == Penalties(f, xs[..i])
  {
    var n := |xs| - 1;
    if i == |xs| {
      assert xs[..i] == xs;
    } else {
      PenaltiesPrefix(f, xs[..n], i);
      assert xs[..n][..i] == xs[..i];
    }
  }

  /** The loop stops at the samples: by the end of the list, the scan limit or the sample limit. */
  lemma SamplesArePrefix(f: Forest, xs: seq<Id>, i: nat)
    requires i <= |xs| && i <= SCAN_LIMIT && forall k | 0 <= k < |xs| :: xs[k] in f
    requires |Penalties(f, xs[..i])| <= BURST_CACHE_SAMPLE_LIMIT
    requires i == |xs| || i == SCAN_LIMIT || |Penalties(f, xs[..i])| == BURST_CACHE_SAMPLE_LIMIT
    ensures Samples(f, xs) == Penalties(f, xs[..i])
  {
    var ys := Take(xs, SCAN_LIMIT);
    assert ys[..i] == xs[..i];
    PenaltiesPrefix(f, ys, i);
    if i == |ys| {
      assert ys[..i] == ys;
    }
  }

  class Scheduler {
    var tasks: map<Id, Task>
    ghost var depth: map<Id, nat>
    const lut: seq<u32>

    ghost predicate Valid()
      reads this
    {
      Tree(tasks, depth) && IsLut(lut)
    }

    constructor (tasks: map<Id, Task>, ghost depth: map<Id, nat>)
      requires Tree(tasks, depth)
      ensures Valid() && this.tasks == tasks && this.depth == depth
    {
      var table := BuildReciprocalLut();
      this.tasks := tasks;
      this.depth := depth;
      lut := table[..];
    }

    lemma ParentDepth(t: Id)
      requires Valid() && t in tasks && tasks[t].parent != t
      ensures tasks[t].parent in tasks && depth[tasks[t].parent] < depth[t]
    {
      assert Linked(tasks, depth, t);
    }

    lemma ChildDepth(t: Id)
      requires Valid() && t in tasks && SoleChild(tasks, t)
      ensures tasks[t].children[0] in tasks && depth[t] < depth[tasks[t].children[0]] <= MaxDepth(depth)
    {
      assert Linked(tasks, depth, t);
      assert IsChild(tasks, t, tasks[t].children[0]);
      assert Linked(tasks, depth, tasks[t].children[0]);
    }

    /** Climbs while the current task is not the root and has no more children than allowed. */
    method FindHub(parent: Id, cloneParent: bool) returns (ancestor: Id)
      requires Valid() && parent in tasks
      ensures ancestor == Hub(tasks, depth, parent, cloneParent)
    {
      hide Linked;
      ListsExist(tasks, depth, parent);
      ancestor := parent;
      var soleChildCount := 0;
      if cloneParent {
        ancestor := tasks[ancestor].parent;
        soleChildCount := 1;
      }
      var next := tasks[ancestor].parent;
      ghost var hub := HubFrom(tasks, depth, ancestor, soleChildCount);
      ListsExist(tasks, depth, ancestor);
      while next != ancestor && ChildrenUpTo2(tasks, ancestor) <= soleChildCount
        invariant ancestor in tasks && next == tasks[ancestor].parent
        invariant HubFrom(tasks, depth, ancestor, soleChildCount) == hub
        decreases depth[ancestor]
      {
        ParentDepth(ancestor);
        ancestor := next;
        soleChildCount := 1;
        next := tasks[ancestor].parent;
        ListsExist(tasks, depth, ancestor);
      }
    }

    /** Follows sole children to the end of the chain. */
    method FindLeaf(child: Id) returns (descendant: Id)
      requires Valid() && child in tasks
      ensures descendant == Leaf(tasks, depth, child)
    {
      hide Linked;
      descendant := child;
      while ChildrenUpTo2(tasks, descendant) == 1
        invariant descendant in tasks
        invariant Leaf(tasks, depth, descendant) == Leaf(tasks, depth, child)
        decreases MaxDepth(depth) - depth[descendant]
      {
        ChildDepth(descendant);
        descendant := tasks[descendant].children[0];
      }
    }

    lemma PickedIs(xs: seq<Id>, viaLeaf: bool)
      requires Valid() && forall i | 0 <= i < |xs| :: xs[i] in tasks
      ensures forall i | 0 <= i < |xs| ::
        Picked(tasks, depth, xs, viaLeaf)[i] == if viaLeaf then Leaf(tasks, depth, xs[i]) else xs[i]
    {
    }

    /** The sampling loop over a list of children or threads. */
    method SampleList(xs: seq<Id>, viaLeaf: bool) returns (count: nat, total: nat)
      requires Valid() && forall i | 0 <= i < |xs| :: xs[i] in tasks
      ensures var ps := Samples(tasks, Picked(tasks, depth, xs, viaLeaf));
        count == |ps| && total == Sum(ps)
    {
      hide Tree, Leaf, Penalties, Sum, Samples, Picked;
      PickedIs(xs, viaLeaf);
      EmptySums(tasks);
      count, total := 0, 0;
      var scanCount, i := 0, 0;
      ghost var ys := Picked(tasks, depth, xs, viaLeaf);
      while i < |xs|
        invariant 0 <= i <= |xs| && scanCount == i <= SCAN_LIMIT
        invariant count == |Penalties(tasks, ys[..i])| <= BURST_CACHE_SAMPLE_LIMIT
        invariant total == Sum(Penalties(tasks, ys[..i]))
      {
        if count >= BURST_CACHE_SAMPLE_LIMIT {
          break;
        }
        scanCount := scanCount + 1;
        if scanCount > SCAN_LIMIT {
          break;
        }
        var t := xs[i];
        if viaLeaf {
          t := FindLeaf(t);
        }
        assert t == ys[i];
        PenaltiesSnoc(tasks, ys, i);
        if tasks[t].eligible {
          SumSnoc(Penalties(tasks, ys[..i]), tasks[t].bore.penalty);
          count := count + 1;
          total := total + tasks[t].bore.penalty;
        }
        i := i + 1;
      }
      SamplesArePrefix(tasks, ys, i);
    }

    /** The average of `count` samples by the reciprocal table. */
    method TableAverage(count: nat, total: nat, ghost ps: seq<u16>) returns (average: nat)
      requires Valid()
      requires count == |ps| <= BURST_CACHE_SAMPLE_LIMIT && total == Sum(ps)
      ensures average == Mean(ps)
      ensures average == if count == 0 then 0 else total / count
    {
      hide Tree, Reciprocal, Sum;
      TableMean(ps, lut);
      if count == 0 {
        assert ps == [];
      }
      average := if count == 1 then total else ((total * lut[count]) / U32) % U32;
    }

    /** The cache word: reciprocal-table average, floor at the owner's penalty. */
    method MakeCache(owner: Id, count: nat, total: nat, now: u64, ghost ps: seq<u16>) returns (c: PackedCache)
      requires Valid() && owner in tasks
      requires count == |ps| <= BURST_CACHE_SAMPLE_LIMIT && total == Sum(ps)
      ensures c == NewCache(ps, tasks[owner].bore.penalty, now)
      ensures c.timestamp == now / 65536
      ensures c.penalty == Max(tasks[owner].bore.penalty, if count == 0 then 0 else total / count)
    {
      hide Tree, Mean, Reciprocal, Sum;
      var average := TableAverage(count, total, ps);
      MeanBound(ps, U16 - 1);
      var larger := if average < tasks[owner].bore.penalty then tasks[owner].bore.penalty else average;
      c := Cache((now / GRAIN) % U48, larger % U16);
    }

    method InheritFromParent(parent: Id, flags: CloneFlags, now: u64, lifetime: u32, viaHub: bool)
      returns (penalty: u16)
      requires Valid() && parent in tasks
      modifies this`tasks
      ensures var owner := CacheOwner(old(tasks), depth, parent, flags, viaHub);
        && tasks == RefreshSubtree(old(tasks), depth, owner, viaHub, now, lifetime)
        && penalty == tasks[owner].subtree.penalty
    {
      hide Tree, NewCache, Hub, Samples, Picked, CacheExpired;
      ListsExist(tasks, depth, parent);
      var owner := parent;
      if viaHub {
        owner := FindHub(parent, flags.parent);
      } else if flags.parent {
        owner := tasks[owner].parent;
      }
      ListsExist(tasks, depth, owner);
      if CacheExpired(tasks[owner].subtree, now, lifetime) {
        var count, total := SampleList(tasks[owner].children, viaHub);
        var c := MakeCache(owner, count, total, now, ChildSamples(tasks, depth, owner, viaHub));
        tasks := tasks[owner := tasks[owner].(subtree := c)];
      }
      penalty := tasks[owner].subtree.penalty;
    }

    method InheritFromThreadGroup(parent: Id, now: u64, lifetime: u32) returns (penalty: u16)
      requires Valid() && parent in tasks
      modifies this`tasks
      ensures old(tasks)[parent].leader in old(tasks)
      ensures tasks == RefreshGroup(old(tasks), depth, old(tasks)[parent].leader, now, lifetime)
      ensures penalty == tasks[old(tasks)[parent].leader].group.penalty
    {
      hide Tree, NewCache, Samples, Picked, CacheExpired;
      ListsExist(tasks, depth, parent);
      var leader := tasks[parent].leader;
      ListsExist(tasks, depth, leader);
      if CacheExpired(tasks[leader].group, now, lifetime) {
        var count, total := SampleList(tasks[leader].threads, false);
        var c := MakeCache(leader, count, total, now, ThreadSamples(tasks, depth, leader));
        tasks := tasks[leader := tasks[leader].(group := c)];
      }
      penalty := tasks[leader].group.penalty;
    }

    /** What a fork inherits, refreshing the cache it consults. */
    method Inherit(parent: Id, flags: CloneFlags, now: u64, cfg: Config) returns (penalty: u16)
      requires Valid() && parent in tasks
      modifies this`tasks
      ensures tasks == Refreshed(old(tasks), depth, parent, flags, now, cfg)
      ensures penalty == Inherited(old(tasks), depth, parent, flags, now, cfg)
    {
      hide Tree, RefreshSubtree, RefreshGroup, CacheOwner;
      if flags.thread {
        penalty := InheritFromThreadGroup(parent, now, cfg.lifetime);
      } else if cfg.inheritType == 1 || cfg.inheritType == 2 {
        penalty := InheritFromParent(parent, flags, now, cfg.lifetime, cfg.inheritType == 2);
      } else {
        penalty := 0;
      }
    }

    method TaskForkBore(p: Id, parent: Id, flags: CloneFlags, now: u64, cfg: Config)
      requires Valid() && parent in tasks && p in tasks
      modifies this`tasks
      ensures tasks == ForkBore(old(tasks), depth, p, parent, flags, now, cfg)
      ensures Valid()
    {
      hide Tree, Refreshed, Inherited, Penalized;
      ForkKeepsLinks(tasks, depth, p, parent, flags, now, cfg);
      LinksKeepTree(tasks, ForkBore(tasks, depth, p, parent, flags, now, cfg), depth);
      if !cfg.enabled || !tasks[p].eligible {
        return;
      }
      RefreshKeepsLinks(tasks, depth, parent, flags, now, cfg);
      var inherited := Inherit(parent, flags, now, cfg);
      var ctx := tasks[p].bore;
      if ctx.prev < inherited {
        ctx := ctx.(prev := inherited);
      }
      ctx := ctx.(curr := 0, burst := 0, stop := false);
      tasks := tasks[p := tasks[p].(bore := Penalized(ctx, tasks[p].kthread))];
    }
  }
}
