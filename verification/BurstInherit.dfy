/**
 What a fork inherits, and what no run of forks, ticks, sleeps and cache refreshes can break.
 */
module BurstInherit {
  import opened Bitwise
  import opened BoreMath
  import opened BoreTask
  import opened BoreKernel
  import opened BurstCache
  import opened TaskForest

  /** `inheritType`: 1 inherits from the parent, 2 from the ancestor hub, anything else nothing. */
  datatype Config = Config(enabled: bool, inheritType: nat, lifetime: u32)

  datatype CloneFlags = CloneFlags(thread: bool, parent: bool)

  // ----- caches

  /** The refreshed cache: the mean of the samples, but at least the owner's own penalty. */
  function NewCache(samples: seq<u16>, owner: u16, now: u64): (c: PackedCache)
  {
    MeanBound(samples, U16 - 1);
    Cache(now / GRAIN, Max(Mean(samples), owner))
  }

  predicate CacheExpired(c: PackedCache, now: u64, lifetime: u32) {
    Expired(c.timestamp * GRAIN, now, lifetime)
  }

  lemma ListsExist(f: Forest, depth: map<Id, nat>, t: Id)
    requires Tree(f, depth) && t in f
    ensures forall i | 0 <= i < |f[t].children| :: f[t].children[i] in f
    ensures forall i | 0 <= i < |f[t].threads| :: f[t].threads[i] in f
    ensures f[t].parent in f && f[t].leader in f
  {
    assert Linked(f, depth, t);
    forall i | 0 <= i < |f[t].children| ensures f[t].children[i] in f {
      assert IsChild(f, t, f[t].children[i]);
    }
  }

  ghost function ChildSamples(f: Forest, depth: map<Id, nat>, owner: Id, viaLeaf: bool): (ps: seq<u16>)
    requires Tree(f, depth) && owner in f
    ensures |ps| <= BURST_CACHE_SAMPLE_LIMIT
  {
    ListsExist(f, depth, owner);
    Samples(f, Picked(f, depth, f[owner].children, viaLeaf))
  }

  ghost function ThreadSamples(f: Forest, depth: map<Id, nat>, leader: Id): (ps: seq<u16>)
    requires Tree(f, depth) && leader in f
    ensures |ps| <= BURST_CACHE_SAMPLE_LIMIT
  {
    ListsExist(f, depth, leader);
    Samples(f, Picked(f, depth, f[leader].threads, false))
  }

  /** The subtree cache of `owner`, sampled anew if it has expired. */
  ghost function RefreshSubtree(f: Forest, depth: map<Id, nat>, owner: Id, viaLeaf: bool,
                                now: u64, lifetime: u32): Forest
    requires Tree(f, depth) && owner in f
  {
    if CacheExpired(f[owner].subtree, now, lifetime) then
      f[owner := f[owner].(subtree := NewCache(ChildSamples(f, depth, owner, viaLeaf), f[owner].bore.penalty, now))]
    else f
  }

  ghost function RefreshGroup(f: Forest, depth: map<Id, nat>, leader: Id, now: u64, lifetime: u32): Forest
    requires Tree(f, depth) && leader in f
  {
    if CacheExpired(f[leader].group, now, lifetime) then
      f[leader := f[leader].(group := NewCache(ThreadSamples(f, depth, leader), f[leader].bore.penalty, now))]
    else f
  }

  // ----- inheritance

  /** The task whose subtree cache a fork reads. */
  ghost function CacheOwner(f: Forest, depth: map<Id, nat>, parent: Id, flags: CloneFlags, viaHub: bool): (owner: Id)
    requires Tree(f, depth) && parent in f
    ensures owner in f
  {
    ListsExist(f, depth, parent);
    if viaHub then Hub(f, depth, parent, flags.parent)
    else if flags.parent then f[parent].parent else parent
  }

  /** The forest after the cache a fork consults has been brought up to date. */
  ghost function Refreshed(f: Forest, depth: map<Id, nat>, parent: Id, flags: CloneFlags, now: u64, cfg: Config): Forest
    requires Tree(f, depth) && parent in f
  {
    ListsExist(f, depth, parent);
    if flags.thread then RefreshGroup(f, depth, f[parent].leader, now, cfg.lifetime)
    else if cfg.inheritType == 1 || cfg.inheritType == 2 then
      var viaHub := cfg.inheritType == 2;
      RefreshSubtree(f, depth, CacheOwner(f, depth, parent, flags, viaHub), viaHub, now, cfg.lifetime)
    else f
  }

  /** The penalty read from that cache. */
  ghost function Inherited(f: Forest, depth: map<Id, nat>, parent: Id, flags: CloneFlags, now: u64, cfg: Config): u16
    requires Tree(f, depth) && parent in f
  {
    ListsExist(f, depth, parent);
    var g := Refreshed(f, depth, parent, flags, now, cfg);
    if flags.thread then g[f[parent].leader].group.penalty
    else if cfg.inheritType == 1 || cfg.inheritType == 2 then
      g[CacheOwner(f, depth, parent, flags, cfg.inheritType == 2)].subtree.penalty
    else 0
  }

  /** `task_fork_bore` for the new task `p`, whose context is still the copy of its creator's. */
  ghost function ForkBore(f: Forest, depth: map<Id, nat>, p: Id, parent: Id, flags: CloneFlags,
                          now: u64, cfg: Config): Forest
    requires Tree(f, depth) && parent in f && p in f
  {
    if !cfg.enabled || !f[p].eligible then f
    else
      var g := Refreshed(f, depth, parent, flags, now, cfg);
      var prev := Max(g[p].bore.prev, Inherited(f, depth, parent, flags, now, cfg));
      var ctx := KCtx(0, prev, 0, g[p].bore.penalty, false);
      g[p := g[p].(bore := Penalized(ctx, g[p].kthread))]
  }

  /** A forked task starts from the larger of its copied and its inherited penalty. */
  lemma ForkPenalty(f: Forest, depth: map<Id, nat>, p: Id, parent: Id, flags: CloneFlags, now: u64, cfg: Config)
    requires Tree(f, depth) && parent in f && p in f && cfg.enabled && f[p].eligible
    ensures var child := ForkBore(f, depth, p, parent, flags, now, cfg)[p].bore;
      && child.prev == Max(f[p].bore.prev, Inherited(f, depth, parent, flags, now, cfg))
      && child.penalty == (if f[p].kthread then 0 else child.prev)
      && child.burst == 0 && child.curr == 0 && !child.stop
    ensures forall t | t in f && t != p :: ForkBore(f, depth, p, parent, flags, now, cfg)[t].bore == f[t].bore
  {
    hide Penalized, CacheOwner, NewCache, CacheExpired;
    var g := Refreshed(f, depth, parent, flags, now, cfg);
    var prev := Max(g[p].bore.prev, Inherited(f, depth, parent, flags, now, cfg));
    PenaltyIsMax(KCtx(0, prev, 0, g[p].bore.penalty, false), g[p].kthread);
  }

  /** The same tasks with the same links: only contexts and caches may differ. */
  ghost predicate SameLinks(f: Forest, g: Forest) {
    && f.Keys == g.Keys
    && forall t | t in f ::
         g[t] == f[t].(bore := g[t].bore, subtree := g[t].subtree, group := g[t].group)
  }

  lemma LinksKeepTree(f: Forest, g: Forest, depth: map<Id, nat>)
    requires Tree(f, depth) && SameLinks(f, g)
    ensures Tree(g, depth)
  {
    forall t | t in g ensures Linked(g, depth, t) {
      assert Linked(f, depth, t);
      forall i | 0 <= i < |g[t].children| ensures IsChild(g, t, g[t].children[i]) {
        assert IsChild(f, t, f[t].children[i]);
      }
    }
  }

  lemma RefreshKeepsLinks(f: Forest, depth: map<Id, nat>, parent: Id, flags: CloneFlags, now: u64, cfg: Config)
    requires Tree(f, depth) && parent in f
    ensures SameLinks(f, Refreshed(f, depth, parent, flags, now, cfg))
  {
    hide CacheOwner, NewCache, CacheExpired, Tree, ChildSamples, ThreadSamples;
    ListsExist(f, depth, parent);
  }

  lemma ForkKeepsLinks(f: Forest, depth: map<Id, nat>, p: Id, parent: Id, flags: CloneFlags, now: u64, cfg: Config)
    requires Tree(f, depth) && parent in f && p in f
    ensures SameLinks(f, ForkBore(f, depth, p, parent, flags, now, cfg))
  {
    hide Penalized, Tree, Refreshed, Inherited;
    RefreshKeepsLinks(f, depth, parent, flags, now, cfg);
  }

  // ----- what a fork reads, spelled out

  lemma PickedListed(f: Forest, depth: map<Id, nat>, xs: seq<Id>)
    requires Tree(f, depth) && forall i | 0 <= i < |xs| :: xs[i] in f
    ensures Picked(f, depth, xs, false) == xs
  {
    hide Tree;
  }

  /** A refreshed cache holds the larger of its owner's penalty and the integer mean of the samples. */
  lemma NewCacheIs(ps: seq<u16>, owner: u16, now: u64)
    ensures NewCache(ps, owner, now).timestamp == now / 65536
    ensures NewCache(ps, owner, now).penalty == Max(owner, if ps == [] then 0 else Sum(ps) / |ps|)
  {
  }

  /** A cache refreshed at `t` is used up to t + lifetime - 65535 and never after t + lifetime. */
  lemma RefreshedLifetime(ps: seq<u16>, owner: u16, t: u64, now: u64, lifetime: u32)
    requires t <= now
    ensures CacheExpired(NewCache(ps, owner, t), now, lifetime) <==> now - t > lifetime - t % 65536
    ensures now <= t + lifetime - 65535 ==> !CacheExpired(NewCache(ps, owner, t), now, lifetime)
    ensures now > t + lifetime ==> CacheExpired(NewCache(ps, owner, t), now, lifetime)
  {
    hide Mean;
    MeanBound(ps, U16 - 1);
    assert t / 65536 * 65536 == t - t % 65536;
    SmallMod(now - t / 65536 * 65536, U64);
  }

  /** A new thread reads its leader's group cache, sampled over the leader's threads when stale. */
  lemma ThreadInherits(f: Forest, depth: map<Id, nat>, parent: Id, flags: CloneFlags, now: u64, cfg: Config)
    requires Tree(f, depth) && parent in f && flags.thread
    ensures f[parent].leader in f
    ensures var leader := f[parent].leader;
      && (forall i | 0 <= i < |f[leader].threads| :: f[leader].threads[i] in f)
      && var c, ps := f[leader].group, Samples(f, f[leader].threads);
         var g, inherited := Refreshed(f, depth, parent, flags, now, cfg), Inherited(f, depth, parent, flags, now, cfg);
         if (now - c.timestamp * 65536) % U64 <= cfg.lifetime then g == f && inherited == c.penalty
         else
           && inherited == Max(f[leader].bore.penalty, if ps == [] then 0 else Sum(ps) / |ps|)
           && g == f[leader := f[leader].(group := Cache(now / 65536, inherited))]
  {
    hide Tree, Samples, Mean;
    var leader := f[parent].leader;
    ListsExist(f, depth, parent);
    ListsExist(f, depth, leader);
    PickedListed(f, depth, f[leader].threads);
    NewCacheIs(Samples(f, f[leader].threads), f[leader].bore.penalty, now);
  }

  /**
   Inheritance type 1: the subtree cache of the parent, or for CLONE_PARENT of the parent's parent,
   sampled over that task's children when stale.
   */
  lemma ParentInherits(f: Forest, depth: map<Id, nat>, parent: Id, flags: CloneFlags, now: u64, cfg: Config)
    returns (owner: Id)
    requires Tree(f, depth) && parent in f && !flags.thread && cfg.inheritType == 1
    ensures owner in f && owner == if flags.parent then f[parent].parent else parent
    ensures forall i | 0 <= i < |f[owner].children| :: f[owner].children[i] in f
    ensures var c, ps := f[owner].subtree, Samples(f, f[owner].children);
      var g, inherited := Refreshed(f, depth, parent, flags, now, cfg), Inherited(f, depth, parent, flags, now, cfg);
      if (now - c.timestamp * 65536) % U64 <= cfg.lifetime then g == f && inherited == c.penalty
      else
        && inherited == Max(f[owner].bore.penalty, if ps == [] then 0 else Sum(ps) / |ps|)
        && g == f[owner := f[owner].(subtree := Cache(now / 65536, inherited))]
  {
    hide Tree, Samples, Mean;
    ListsExist(f, depth, parent);
    owner := if flags.parent then f[parent].parent else parent;
    ListsExist(f, depth, owner);
    PickedListed(f, depth, f[owner].children);
    NewCacheIs(Samples(f, f[owner].children), f[owner].bore.penalty, now);
  }

  /**
   Inheritance type 2: the subtree cache of the hub, sampled when stale over the ends of the
   sole-child chains below the hub's children.
   */
  lemma HubInherits(f: Forest, depth: map<Id, nat>, parent: Id, flags: CloneFlags, now: u64, cfg: Config)
    returns (hub: Id, ends: seq<Id>)
    requires Tree(f, depth) && parent in f && !flags.thread && cfg.inheritType == 2
    ensures hub in f && hub == Hub(f, depth, parent, flags.parent)
    ensures |ends| == |f[hub].children| && forall i | 0 <= i < |ends| :: ends[i] in f
    ensures forall i | 0 <= i < |ends| ::
      f[hub].children[i] in f && ends[i] == Leaf(f, depth, f[hub].children[i])
    ensures var c, ps := f[hub].subtree, Samples(f, ends);
      var g, inherited := Refreshed(f, depth, parent, flags, now, cfg), Inherited(f, depth, parent, flags, now, cfg);
      if (now - c.timestamp * 65536) % U64 <= cfg.lifetime then g == f && inherited == c.penalty
      else
        && inherited == Max(f[hub].bore.penalty, if ps == [] then 0 else Sum(ps) / |ps|)
        && g == f[hub := f[hub].(subtree := Cache(now / 65536, inherited))]
  {
    hide Tree, Samples, Mean, Hub, Leaf;
    hub := Hub(f, depth, parent, flags.parent);
    ListsExist(f, depth, parent);
    ListsExist(f, depth, hub);
    ends := Picked(f, depth, f[hub].children, true);
    NewCacheIs(Samples(f, ends), f[hub].bore.penalty, now);
  }

  /** Any other inheritance type: nothing is read and no cache touched. */
  lemma NothingInherits(f: Forest, depth: map<Id, nat>, parent: Id, flags: CloneFlags, now: u64, cfg: Config)
    requires Tree(f, depth) && parent in f && !flags.thread && cfg.inheritType != 1 && cfg.inheritType != 2
    ensures Refreshed(f, depth, parent, flags, now, cfg) == f
    ensures Inherited(f, depth, parent, flags, now, cfg) == 0
  {
    hide Tree;
  }

  /** The fork hook changes the consulted cache and the new task's context; switched off, nothing. */
  lemma ForkTouches(f: Forest, depth: map<Id, nat>, p: Id, parent: Id, flags: CloneFlags, now: u64, cfg: Config)
    requires Tree(f, depth) && parent in f && p in f
    ensures var g, r := ForkBore(f, depth, p, parent, flags, now, cfg), Refreshed(f, depth, parent, flags, now, cfg);
      if cfg.enabled && f[p].eligible then p in g && p in r && g == r[p := r[p].(bore := g[p].bore)] else g == f
  {
    hide Tree, Refreshed, Inherited, Penalized;
    RefreshKeepsLinks(f, depth, parent, flags, now, cfg);
  }

  // ----- bounds

  predicate TaskBounded(t: Task) {
    && t.bore.prev <= MAX_BURST_PENALTY && t.bore.curr <= MAX_BURST_PENALTY && t.bore.penalty <= MAX_BURST_PENALTY
    && t.subtree.penalty <= MAX_BURST_PENALTY && t.group.penalty <= MAX_BURST_PENALTY
  }

  predicate Bounded(f: Forest) {
    forall t | t in f :: TaskBounded(f[t])
  }

  lemma {:induction false} PenaltiesBounded(f: Forest, xs: seq<Id>)
    requires Bounded(f) && forall i | 0 <= i < |xs| :: xs[i] in f
    ensures forall i | 0 <= i < |Penalties(f, xs)| :: Penalties(f, xs)[i] <= MAX_BURST_PENALTY
  {
    if xs == [] {
    } else {
      var n := |xs| - 1;
      PenaltiesBounded(f, xs[..n]);
      assert TaskBounded(f[xs[n]]);
    }
  }

  /** A refreshed cache lies between the owner's penalty and the largest penalty in sight. */
  lemma CacheBetween(f: Forest, xs: seq<Id>, owner: u16, now: u64, m: nat)
    requires forall i | 0 <= i < |xs| :: xs[i] in f
    requires forall i | 0 <= i < |Penalties(f, Take(xs, SCAN_LIMIT))| :: Penalties(f, Take(xs, SCAN_LIMIT))[i] <= m
    ensures owner <= NewCache(Samples(f, xs), owner, now).penalty <= Max(m, owner)
  {
    MeanBound(Samples(f, xs), m);
  }

  lemma ListBounded(f: Forest, xs: seq<Id>, owner: u16, now: u64)
    requires Bounded(f) && owner <= MAX_BURST_PENALTY && forall i | 0 <= i < |xs| :: xs[i] in f
    ensures NewCache(Samples(f, xs), owner, now).penalty <= MAX_BURST_PENALTY
  {
    PenaltiesBounded(f, Take(xs, SCAN_LIMIT));
    CacheBetween(f, xs, owner, now, MAX_BURST_PENALTY);
  }

  lemma SamplesBounded(f: Forest, depth: map<Id, nat>, t: Id, owner: u16, now: u64)
    requires Tree(f, depth) && t in f && Bounded(f) && owner <= MAX_BURST_PENALTY
    ensures NewCache(ThreadSamples(f, depth, t), owner, now).penalty <= MAX_BURST_PENALTY
    ensures forall viaLeaf :: NewCache(ChildSamples(f, depth, t, viaLeaf), owner, now).penalty <= MAX_BURST_PENALTY
  {
    hide Tree, Picked, NewCache;
    ListsExist(f, depth, t);
    ListBounded(f, Picked(f, depth, f[t].threads, false), owner, now);
    forall viaLeaf ensures NewCache(ChildSamples(f, depth, t, viaLeaf), owner, now).penalty <= MAX_BURST_PENALTY {
      ListBounded(f, Picked(f, depth, f[t].children, viaLeaf), owner, now);
    }
  }

  lemma RefreshBounded(f: Forest, depth: map<Id, nat>, parent: Id, flags: CloneFlags, now: u64, cfg: Config)
    requires Tree(f, depth) && parent in f && Bounded(f)
    ensures Bounded(Refreshed(f, depth, parent, flags, now, cfg))
    ensures Inherited(f, depth, parent, flags, now, cfg) <= MAX_BURST_PENALTY
  {
    hide Tree, Picked, Samples, NewCache, CacheExpired, CacheOwner;
    ListsExist(f, depth, parent);
    var g := Refreshed(f, depth, parent, flags, now, cfg);
    if flags.thread {
      SamplesBounded(f, depth, f[parent].leader, f[f[parent].leader].bore.penalty, now);
      assert TaskBounded(f[f[parent].leader]);
      assert TaskBounded(g[f[parent].leader]);
    } else {
      var viaHub := cfg.inheritType == 2;
      var owner := CacheOwner(f, depth, parent, flags, viaHub);
      SamplesBounded(f, depth, owner, f[owner].bore.penalty, now);
      assert TaskBounded(f[owner]);
      assert TaskBounded(g[owner]);
    }
  }

  // ----- runs

  datatype Links = Links(parent: Id, children: seq<Id>, leader: Id, threads: seq<Id>, eligible: bool)

  /** Everything that can happen to the tasks; tunables may change between any two events. */
  datatype Event =
    | Ticked(task: Id, delta: u64, tunables: Params)
    | WentToSleep(task: Id, tunables: Params)
    | Forked(child: Id, creator: Id, flags: CloneFlags, now: u64, cfg: Config, kthread: bool, eligible: bool)
    | WasReset(task: Id)
    | Relinked(links: map<Id, Links>, depth: map<Id, nat>)

  /** The tasks and the depths that show them to be a tree. */
  datatype World = World(tasks: Forest, depth: map<Id, nat>)

  /** The copy a fork starts from: the creator's context and caches under a fresh identifier. */
  function Copied(f: Forest, child: Id, creator: Id, thread: bool, kthread: bool, eligible: bool): Forest
    requires creator in f
  {
    f[child := f[creator].(children := [], threads := [], kthread := kthread, eligible := eligible,
                           leader := if thread then f[creator].leader else child)]
  }

  /** Tasks that leave, arrive under a new parent or change class keep their accounting. */
  function Relink(f: Forest, links: map<Id, Links>): Forest
    requires links.Keys <= f.Keys
  {
    map t | t in links :: f[t].(parent := links[t].parent, children := links[t].children, leader := links[t].leader,
                                threads := links[t].threads, eligible := links[t].eligible)
  }

  ghost predicate Possible(w: World, e: Event) {
    match e
    case Ticked(t, _, _) => t in w.tasks
    case WentToSleep(t, _) => t in w.tasks
    case Forked(child, creator, _, _, _, _, _) => creator in w.tasks && child !in w.tasks
    case WasReset(t) => t in w.tasks
    case Relinked(links, depth) => links.Keys <= w.tasks.Keys && Tree(Relink(w.tasks, links), depth)
  }

  ghost function CopiedDepth(w: World, child: Id, creator: Id): map<Id, nat>
    requires Tree(w.tasks, w.depth) && creator in w.tasks
  {
    assert Linked(w.tasks, w.depth, creator);
    w.depth[child := w.depth[w.tasks[creator].parent] + 1]
  }

  lemma CopyLinked(w: World, child: Id, creator: Id, thread: bool, kthread: bool, eligible: bool)
    requires Tree(w.tasks, w.depth) && creator in w.tasks && child !in w.tasks
    ensures var g := Copied(w.tasks, child, creator, thread, kthread, eligible);
      child in g && child in CopiedDepth(w, child, creator) && Linked(g, CopiedDepth(w, child, creator), child)
  {
    assert Linked(w.tasks, w.depth, creator);
  }

  lemma OthersLinked(w: World, child: Id, creator: Id, thread: bool, kthread: bool, eligible: bool, t: Id)
    requires Tree(w.tasks, w.depth) && creator in w.tasks && child !in w.tasks && t in w.tasks
    ensures var g := Copied(w.tasks, child, creator, thread, kthread, eligible);
      t in g && t in CopiedDepth(w, child, creator) && Linked(g, CopiedDepth(w, child, creator), t)
  {
    var f := w.tasks;
    var g := Copied(f, child, creator, thread, kthread, eligible);
    assert Linked(f, w.depth, t);
    assert t != child && g[t] == f[t];
    forall i | 0 <= i < |g[t].children| ensures IsChild(g, t, g[t].children[i]) {
      assert IsChild(f, t, f[t].children[i]);
    }
  }

  lemma CopyKeepsTree(w: World, child: Id, creator: Id, thread: bool, kthread: bool, eligible: bool)
    requires Tree(w.tasks, w.depth) && creator in w.tasks && child !in w.tasks
    ensures Tree(Copied(w.tasks, child, creator, thread, kthread, eligible), CopiedDepth(w, child, creator))
  {
    hide Linked;
    var f, d := w.tasks, CopiedDepth(w, child, creator);
    var g := Copied(f, child, creator, thread, kthread, eligible);
    CopyLinked(w, child, creator, thread, kthread, eligible);
    forall t | t in g ensures Linked(g, d, t) {
      if t != child {
        OthersLinked(w, child, creator, thread, kthread, eligible, t);
      }
    }
  }

  ghost function Step(w: World, e: Event): World
    requires Tree(w.tasks, w.depth) && Possible(w, e)
  {
    match e
    case Ticked(t, delta, p) =>
      w.(tasks := w.tasks[t := w.tasks[t].(bore := KTick(w.tasks[t].bore, delta, p, w.tasks[t].kthread))])
    case WentToSleep(t, p) =>
      w.(tasks := w.tasks[t := w.tasks[t].(bore := KSleep(w.tasks[t].bore, p, w.tasks[t].kthread))])
    case Forked(child, creator, flags, now, cfg, kthread, eligible) =>
      CopyKeepsTree(w, child, creator, flags.thread, kthread, eligible);
      var depth := CopiedDepth(w, child, creator);
      var copied := Copied(w.tasks, child, creator, flags.thread, kthread, eligible);
      World(ForkBore(copied, depth, child, creator, flags, now, cfg), depth)
    case WasReset(t) =>
      w.(tasks := w.tasks[t := w.tasks[t].(bore := NEW_KCTX, subtree := Cache(0, 0), group := Cache(0, 0))])
    case Relinked(links, depth) => World(Relink(w.tasks, links), depth)
  }

  ghost predicate Good(w: World) {
    Tree(w.tasks, w.depth) && Bounded(w.tasks)
  }

  lemma TickBounded(c: KCtx, delta: u64, p: Params, kthread: bool)
    requires c.prev <= MAX_BURST_PENALTY && c.curr <= MAX_BURST_PENALTY && c.penalty <= MAX_BURST_PENALTY
    ensures var d := KTick(c, delta, p, kthread);
      d.prev <= MAX_BURST_PENALTY && d.curr <= MAX_BURST_PENALTY && d.penalty <= MAX_BURST_PENALTY
    ensures var d := KSleep(c, p, kthread);
      d.prev <= MAX_BURST_PENALTY && d.curr <= MAX_BURST_PENALTY && d.penalty <= MAX_BURST_PENALTY
  {
    hide CalcPenalty, Penalized, BinarySmooth, BinarySmoothMasked;
    var burst := (c.burst + delta) % U64;
    PenaltyMonotone(burst, burst, p);
    PenaltyIsMax(c.(burst := burst, curr := CalcPenalty(burst, p) % U16), kthread);
    SmoothBounds(c.curr, c.prev, p.smoothness);
    SmoothAgrees(c.curr, c.prev, p.smoothness);
    PenaltyIsMax(c.(prev := BinarySmoothMasked(c.curr, c.prev, p.smoothness) % U16, curr := 0, burst := 0), kthread);
  }

  lemma ForkBounded(f: Forest, depth: map<Id, nat>, p: Id, parent: Id, flags: CloneFlags, now: u64, cfg: Config)
    requires Tree(f, depth) && parent in f && p in f && Bounded(f)
    ensures Bounded(ForkBore(f, depth, p, parent, flags, now, cfg))
  {
    hide Tree, Refreshed, Inherited, Penalized;
    ForkKeepsLinks(f, depth, p, parent, flags, now, cfg);
    RefreshBounded(f, depth, parent, flags, now, cfg);
    var g := Refreshed(f, depth, parent, flags, now, cfg);
    if cfg.enabled && f[p].eligible {
      RefreshKeepsLinks(f, depth, parent, flags, now, cfg);
      assert TaskBounded(g[p]);
      var prev := Max(g[p].bore.prev, Inherited(f, depth, parent, flags, now, cfg));
      PenaltyIsMax(KCtx(0, prev, 0, g[p].bore.penalty, false), g[p].kthread);
    }
  }

  lemma CopyBounded(f: Forest, child: Id, creator: Id, thread: bool, kthread: bool, eligible: bool)
    requires Bounded(f) && creator in f
    ensures Bounded(Copied(f, child, creator, thread, kthread, eligible))
  {
    assert TaskBounded(f[creator]);
  }

  lemma LocalStep(w: World, e: Event)
    requires Good(w) && Possible(w, e) && (e.Ticked? || e.WentToSleep? || e.WasReset?)
    ensures Good(Step(w, e))
  {
    hide Linked, Tree, KTick, KSleep;
    var f, t := w.tasks, e.task;
    assert TaskBounded(f[t]);
    if e.Ticked? {
      TickBounded(f[t].bore, e.delta, e.tunables, f[t].kthread);
    } else if e.WentToSleep? {
      TickBounded(f[t].bore, 0, e.tunables, f[t].kthread);
    }
    LinksKeepTree(f, Step(w, e).tasks, w.depth);
  }

  lemma CopyHas(f: Forest, child: Id, creator: Id, thread: bool, kthread: bool, eligible: bool)
    requires creator in f
    ensures Copied(f, child, creator, thread, kthread, eligible).Keys == f.Keys + {child}
  {
  }

  lemma ForkStep(w: World, e: Event)
    requires Good(w) && Possible(w, e) && e.Forked?
    ensures Good(Step(w, e))
  {
    hide Linked, ForkBore, TaskBounded, Copied;
    CopyKeepsTree(w, e.child, e.creator, e.flags.thread, e.kthread, e.eligible);
    CopyBounded(w.tasks, e.child, e.creator, e.flags.thread, e.kthread, e.eligible);
    var f := Copied(w.tasks, e.child, e.creator, e.flags.thread, e.kthread, e.eligible);
    var depth := CopiedDepth(w, e.child, e.creator);
    CopyHas(w.tasks, e.child, e.creator, e.flags.thread, e.kthread, e.eligible);
    ForkBounded(f, depth, e.child, e.creator, e.flags, e.now, e.cfg);
    ForkKeepsLinks(f, depth, e.child, e.creator, e.flags, e.now, e.cfg);
    LinksKeepTree(f, Step(w, e).tasks, depth);
  }

  lemma RelinkBounded(f: Forest, links: map<Id, Links>, t: Id)
    requires Bounded(f) && links.Keys <= f.Keys && t in links
    ensures TaskBounded(Relink(f, links)[t])
  {
    assert TaskBounded(f[t]);
  }

  lemma RelinkStep(w: World, e: Event)
    requires Good(w) && Possible(w, e) && e.Relinked?
    ensures Good(Step(w, e))
  {
    hide Linked, TaskBounded;
    forall t | t in e.links ensures TaskBounded(Relink(w.tasks, e.links)[t]) {
      RelinkBounded(w.tasks, e.links, t);
    }
  }

  /** Every event keeps the tree a tree and every penalty and cache at most 10239. */
  lemma StepKeepsGood(w: World, e: Event)
    requires Good(w) && Possible(w, e)
    ensures Good(Step(w, e))
  {
    hide Good, Step, Possible;
    if e.Forked? {
      ForkStep(w, e);
    } else if e.Relinked? {
      RelinkStep(w, e);
    } else {
      LocalStep(w, e);
    }
  }

  /** A run: a sequence of worlds in which each follows from the one before by some event. */
  ghost predicate IsRun(ws: seq<World>, es: seq<Event>) {
    && |ws| == |es| + 1
    && Tree(ws[0].tasks, ws[0].depth)
    && forall i | 0 <= i < |es| ::
         Tree(ws[i].tasks, ws[i].depth) && Possible(ws[i], es[i]) && ws[i + 1] == Step(ws[i], es[i])
  }

  /** Over every run from a good world all penalties and caches stay within 10239. */
  lemma {:induction false} RunKeepsGood(ws: seq<World>, es: seq<Event>, n: nat)
    requires IsRun(ws, es) && Good(ws[0]) && n <= |es|
    ensures Good(ws[n])
  {
    hide Step, Good, Tree, Possible;
    if n == 0 {
    } else {
      RunKeepsGood(ws, es, n - 1);
      StepKeepsGood(ws[n - 1], es[n - 1]);
    }
  }

  // ----- every task's accounting is its own

  /** A reset clears the whole context and both caches, and nothing of any other task. */
  lemma ResetClears(w: World, t: Id)
    requires Tree(w.tasks, w.depth) && t in w.tasks
    ensures var g := Step(w, WasReset(t)).tasks;
      && t in g && g == w.tasks[t := g[t]]
      && g[t].bore == KCtx(0, 0, 0, 0, false)
      && g[t].subtree == g[t].group == Cache(0, 0)
      && g[t] == w.tasks[t].(bore := g[t].bore, subtree := g[t].subtree, group := g[t].group)
  {
    hide Tree;
  }

  /** The context of a new task, from its creator's and what it inherits. */
  lemma ForkedContext(w: World, e: Event)
    requires Tree(w.tasks, w.depth) && Possible(w, e) && e.Forked?
    ensures var f := Copied(w.tasks, e.child, e.creator, e.flags.thread, e.kthread, e.eligible);
      var depth := CopiedDepth(w, e.child, e.creator);
      && e.child in Step(w, e).tasks && e.creator in f && Tree(f, depth)
      && var was, child := w.tasks[e.creator].bore, Step(w, e).tasks[e.child].bore;
         if !(e.cfg.enabled && e.eligible) then child == was
         else
           && child.prev == Max(was.prev, Inherited(f, depth, e.creator, e.flags, e.now, e.cfg))
           && child.penalty == (if e.kthread then 0 else child.prev)
           && child.burst == 0 && child.curr == 0 && !child.stop
  {
    hide Tree, ForkBore, Inherited;
    CopyKeepsTree(w, e.child, e.creator, e.flags.thread, e.kthread, e.eligible);
    var f := Copied(w.tasks, e.child, e.creator, e.flags.thread, e.kthread, e.eligible);
    var depth := CopiedDepth(w, e.child, e.creator);
    ForkKeepsLinks(f, depth, e.child, e.creator, e.flags, e.now, e.cfg);
    ForkTouches(f, depth, e.child, e.creator, e.flags, e.now, e.cfg);
    if e.cfg.enabled && e.eligible {
      ForkPenalty(f, depth, e.child, e.creator, e.flags, e.now, e.cfg);
    }
  }

  /** The ticks and sleeps of one task among some events. */
  function OwnOps(t: Id, es: seq<Event>): seq<Op> {
    if es == [] then []
    else
      var e, ops := es[|es| - 1], OwnOps(t, es[..|es| - 1]);
      if e.Ticked? && e.task == t then ops + [Ran(e.delta)]
      else if e.WentToSleep? && e.task == t then ops + [Slept]
      else ops
  }

  /** The event is no reset of `t`, and if it is a tick or sleep of `t` the tunables are `p`. */
  predicate Steady(e: Event, t: Id, p: Params) {
    && (e.WasReset? ==> e.task != t)
    && (e.Ticked? && e.task == t ==> e.tunables == p)
    && (e.WentToSleep? && e.task == t ==> e.tunables == p)
  }

  lemma StepOwn(w: World, e: Event, t: Id, p: Params)
    requires Tree(w.tasks, w.depth) && Possible(w, e) && t in w.tasks && t in Step(w, e).tasks && Steady(e, t, p)
    ensures Step(w, e).tasks[t].kthread == w.tasks[t].kthread
    ensures Step(w, e).tasks[t].bore ==
            if e.Ticked? && e.task == t then KTick(w.tasks[t].bore, e.delta, p, w.tasks[t].kthread)
            else if e.WentToSleep? && e.task == t then KSleep(w.tasks[t].bore, p, w.tasks[t].kthread)
            else w.tasks[t].bore
  {
    hide Tree, ForkBore, KTick, KSleep;
    if e.Forked? {
      CopyKeepsTree(w, e.child, e.creator, e.flags.thread, e.kthread, e.eligible);
      var f := Copied(w.tasks, e.child, e.creator, e.flags.thread, e.kthread, e.eligible);
      var depth := CopiedDepth(w, e.child, e.creator);
      ForkKeepsLinks(f, depth, e.child, e.creator, e.flags, e.now, e.cfg);
      ForkTouches(f, depth, e.child, e.creator, e.flags, e.now, e.cfg);
      if e.cfg.enabled && e.eligible {
        ForkPenalty(f, depth, e.child, e.creator, e.flags, e.now, e.cfg);
      }
    }
  }

  lemma KRunSnoc(c: KCtx, ops: seq<Op>, op: Op, p: Params, kthread: bool)
    ensures KRun(c, ops + [op], p, kthread) == KStep(KRun(c, ops, p, kthread), op, p, kthread)
  {
    hide KStep;
    assert (ops + [op])[..|ops|] == ops;
  }

  lemma NoOps(c: KCtx, p: Params, kthread: bool)
    ensures KRun(c, [], p, kthread) == c
  {
  }

  /**
   Whatever else happens in a run, forks, cache refreshes, resets and relinking of other tasks
   included, a task's context is that of its own ticks and sleeps alone.
   */
  lemma {:induction false} OwnHistory(ws: seq<World>, es: seq<Event>, t: Id, p: Params, n: nat)
    requires IsRun(ws, es) && n <= |es|
    requires forall k | 0 <= k <= n :: t in ws[k].tasks
    requires forall k | 0 <= k < n :: Steady(es[k], t, p)
    ensures ws[n].tasks[t].kthread == ws[0].tasks[t].kthread
    ensures ws[n].tasks[t].bore == KRun(ws[0].tasks[t].bore, OwnOps(t, es[..n]), p, ws[0].tasks[t].kthread)
  {
    hide Step, Tree, Possible, KTick, KSleep, KRun, Steady;
    if n == 0 {
      NoOps(ws[0].tasks[t].bore, p, ws[0].tasks[t].kthread);
    } else {
      OwnHistory(ws, es, t, p, n - 1);
      var w, e := ws[n - 1], es[n - 1];
      assert Steady(es[n - 1], t, p);
      assert ws[n] == Step(w, e) by {
        assert ws[n - 1 + 1] == Step(ws[n - 1], es[n - 1]);
      }
      StepOwn(w, e, t, p);
      var ops := OwnOps(t, es[..n - 1]);
      assert es[..n][..n - 1] == es[..n - 1];
      if e.Ticked? && e.task == t {
        KRunSnoc(ws[0].tasks[t].bore, ops, Ran(e.delta), p, ws[0].tasks[t].kthread);
      } else if e.WentToSleep? && e.task == t {
        KRunSnoc(ws[0].tasks[t].bore, ops, Slept, p, ws[0].tasks[t].kthread);
      }
    }
  }
}
