/**
 When parallel pipelines can block each other for good (internal/pusher/pipeline.go leases the
 target first and keeps it while it waits for the upstream): when the repositories they go
 from and to form a cycle and the cache holds more than one of them. A cache of one entry
 never lets them, as the handle one pipeline waits for is then newer than the one it holds.
 */
module Deadlock {
  import opened Common
  import opened Leases
  import opened Walking
  import Lfu

  predicate InFlight(th: Thread) {
    th.phase != Idle && th.phase != Finished
  }

  /** The pipeline waits for a mutex that is locked. */
  predicate Blocked(s: State, t: Tid)
    requires t in s.threads
  {
    var th := s.threads[t];
    th.phase.Waiting? && th.phase.handle in s.handles && s.handles[th.phase.handle].owner.Some?
  }

  /** Some pipelines are in flight and every one of them is blocked. */
  ghost predicate Stuck(s: State) {
    && (exists t :: t in s.threads && InFlight(s.threads[t]))
    && (forall t :: t in s.threads && InFlight(s.threads[t]) ==> Blocked(s, t))
  }

  ghost predicate StuckAfter(s: State, labels: seq<Label>) {
    Runs(s, labels) && Stuck(After(s, labels))
  }

  /** Some interleaving ends in a standstill. */
  ghost predicate CanGetStuck(s: State) {
    exists labels :: StuckAfter(s, labels)
  }

  /** A pipeline in flight that is not blocked has an action to take. */
  lemma UnblockedCanStep(s: State, t: Tid)
    requires Inv(s) && t in s.threads && InFlight(s.threads[t])
    ensures !Blocked(s, t) <==> exists l: Label :: l.t == t && Enabled(s, l)
  {
    assert ThreadOk(s, s.threads[t]);
    match s.threads[t].phase
    case Waiting(_, h) => if s.handles[h].owner == None { assert Enabled(s, Lock(t)); }
    case Filling(_, _) => assert Enabled(s, GiveUp(t));
    case NeedsUpstream =>
      var victim := SomeVictim(s, NextKey(s.threads[t]));
      assert Enabled(s, Acquire(t, victim));
    case Working => assert Enabled(s, Work(t));
    case Unwinding => assert Enabled(s, Release(t));
  }

  /** A lookup can always go on. */
  lemma SomeVictim(s: State, key: Key) returns (victim: Option<Key>)
    requires s.capacity > 0
    ensures Evicts(s, key, victim)
  {
    if key in s.cache || |s.cache| < s.capacity {
      victim := None;
    } else {
      var stored := Stored(s.cache, key, s.nextHandle);
      assert stored.Keys == s.cache.Keys + {key};
      assert s.cache.Keys != {};
      var least := Lfu.LeastUsedOf(stored, s.cache.Keys);
      victim := Some(least);
    }
  }

  // ---------- cycles ----------

  type Edges<!T(==)> = set<(T, T)>

  /** From the target repository to the upstream repository of every pipeline that leases both. */
  ghost function EdgesOf(threads: map<Tid, Thread>): Edges<Key> {
    set t | t in threads && threads[t].job.LeasesUpstream() :: (threads[t].job.TargetKey(), threads[t].job.UpstreamKey())
  }

  ghost predicate IsPath<T>(edges: Edges<T>, p: seq<T>) {
    |p| > 0 && forall i :: 0 <= i < |p| - 1 ==> (p[i], p[i + 1]) in edges
  }

  ghost predicate IsCycle<T>(edges: Edges<T>, p: seq<T>) {
    |p| >= 2 && IsPath(edges, p) && p[0] == p[|p| - 1]
  }

  ghost predicate HasCycle<T(!new)>(edges: Edges<T>) {
    exists p :: IsCycle(edges, p)
  }

  lemma {:induction false} Pigeonhole<T(!new)>(p: seq<T>, nodes: set<T>)
    requires forall x :: x in p ==> x in nodes
    requires NoDuplicates(p)
    ensures |p| <= |nodes|
    decreases |p|
  {
    if p != [] {
      var x := p[0];
      assert x in p;
      assert forall y :: y in p[1..] ==> y in p && y != x;
      Pigeonhole(p[1..], nodes - {x});
    }
  }

  ghost predicate HasSuccessor<T(!new)>(edges: Edges<T>, nodes: set<T>, k: T) {
    exists k' :: k' in nodes && (k, k') in edges
  }

  /** Where every node has a successor among the nodes, some path comes back to where it was. */
  lemma {:induction false} PathOfLength<T(!new)>(edges: Edges<T>, nodes: set<T>, n: nat) returns (p: seq<T>)
    requires nodes != {} && forall k :: k in nodes ==> HasSuccessor(edges, nodes, k)
    ensures |p| == n + 1 && IsPath(edges, p) && forall k :: k in p ==> k in nodes
  {
    if n == 0 {
      var k :| k in nodes;
      p := [k];
    } else {
      var q := PathOfLength(edges, nodes, n - 1);
      var last := q[|q| - 1];
      assert last in q && HasSuccessor(edges, nodes, last);
      var k :| k in nodes && (last, k) in edges;
      p := q + [k];
    }
  }

  lemma LoopIsCycle<T>(edges: Edges<T>, p: seq<T>, i: nat, j: nat)
    requires IsPath(edges, p) && i < j < |p| && p[i] == p[j]
    ensures IsCycle(edges, p[i..j + 1])
  {
    var c := p[i..j + 1];
    forall x | 0 <= x < |c| - 1 ensures (c[x], c[x + 1]) in edges {
      assert (p[i + x], p[i + x + 1]) in edges;
    }
  }

  lemma SuccessorsMakeCycle<T(!new)>(edges: Edges<T>, nodes: set<T>)
    requires nodes != {} && forall k :: k in nodes ==> HasSuccessor(edges, nodes, k)
    ensures HasCycle(edges)
  {
    var p := PathOfLength(edges, nodes, |nodes|);
    if NoDuplicates(p) { Pigeonhole(p, nodes); }
    var i, j :| 0 <= i < j < |p| && p[i] == p[j];
    LoopIsCycle(edges, p, i, j);
  }

  // ---------- stuck pipelines wait in a cycle ----------

  /** A blocked pipeline's handle is held by one that waits for its upstream, holding that handle as its target. */
  lemma OwnerWaitsForUpstream(s: State, t: Tid)
    requires Inv(s) && Stuck(s) && t in s.threads && InFlight(s.threads[t])
    ensures s.threads[t].phase.Waiting? && s.threads[t].phase.handle in s.handles
    ensures var owner := s.handles[s.threads[t].phase.handle].owner;
      && owner.Some? && owner.value in s.threads
      && var u := s.threads[owner.value];
      && InFlight(u) && u.job.LeasesUpstream() && u.phase.Waiting? && u.phase.stage == Upstream
      && u.target.Some? && u.target.value.handle == s.threads[t].phase.handle
      && u.job.TargetKey() == s.threads[t].job.KeyAt(s.threads[t].phase.stage)
  {
    assert Blocked(s, t);
    assert ThreadOk(s, s.threads[t]);
    var h := s.threads[t].phase.handle;
    var o := s.handles[h].owner.value;
    assert Holds(s.threads[o], h);
    assert ThreadOk(s, s.threads[o]);
    assert InFlight(s.threads[o]);
    assert Blocked(s, o);
  }

  function Flying(s: State): map<Tid, Thread> {
    map t | t in s.threads && InFlight(s.threads[t]) :: s.threads[t]
  }

  /** t waits for its upstream. */
  predicate AwaitsUpstream(s: State, t: Tid) {
    && t in s.threads && s.threads[t].job.LeasesUpstream()
    && s.threads[t].phase.Waiting? && s.threads[t].phase.stage == Upstream
  }

  lemma WaiterHasSuccessor(s: State, t: Tid, nodes: set<Key>)
    requires Inv(s) && Stuck(s) && AwaitsUpstream(s, t)
    requires nodes == set u | u in s.threads && AwaitsUpstream(s, u) :: s.threads[u].job.TargetKey()
    ensures HasSuccessor(EdgesOf(Flying(s)), nodes, s.threads[t].job.TargetKey())
  {
    OwnerWaitsForUpstream(s, t);
    var v := s.handles[s.threads[t].phase.handle].owner.value;
    assert AwaitsUpstream(s, v);
    var next := s.threads[v].job.TargetKey();
    assert next in nodes && next == s.threads[t].job.UpstreamKey();
    assert t in Flying(s);
    assert (s.threads[t].job.TargetKey(), next) in EdgesOf(Flying(s));
  }

  /** If the target-to-upstream edges of the pipelines in flight form no cycle, one of them can take a step. */
  lemma StuckMakesCycle(s: State)
    requires Inv(s) && Stuck(s)
    ensures HasCycle(EdgesOf(Flying(s)))
  {
    var nodes := set u | u in s.threads && AwaitsUpstream(s, u) :: s.threads[u].job.TargetKey();
    var t :| t in s.threads && InFlight(s.threads[t]);
    OwnerWaitsForUpstream(s, t);
    var o := s.handles[s.threads[t].phase.handle].owner.value;
    assert AwaitsUpstream(s, o);
    assert s.threads[o].job.TargetKey() in nodes;
    forall k | k in nodes ensures HasSuccessor(EdgesOf(Flying(s)), nodes, k) {
      var u :| u in s.threads && AwaitsUpstream(s, u) && s.threads[u].job.TargetKey() == k;
      WaiterHasSuccessor(s, u, nodes);
    }
    SuccessorsMakeCycle(EdgesOf(Flying(s)), nodes);
  }

  // ---------- a cache of one entry ----------

  /** The cache has one entry at most, the newest handle. */
  ghost predicate HoldsNewest(cache: Cache, nextHandle: nat) {
    && (forall k, j :: k in cache && j in cache ==> k == j)
    && (forall k :: k in cache ==> cache[k].value + 1 == nextHandle)
  }

  /** Whoever waits for its upstream holds an older handle. */
  predicate OlderTarget(th: Thread) {
    th.phase.Waiting? && th.phase.stage == Upstream ==> th.target.Some? && th.target.value.handle < th.phase.handle
  }

  ghost predicate WaitsForNewer(s: State) {
    && s.capacity == 1 && HoldsNewest(s.cache, s.nextHandle)
    && forall t :: t in s.threads ==> OlderTarget(s.threads[t])
  }

  lemma MissHoldsNewest(s: State, key: Key, victim: Option<Key>)
    requires s.capacity == 1 && HoldsNewest(s.cache, s.nextHandle) && key !in s.cache && Evicts(s, key, victim)
    ensures HoldsNewest(LookedUp(s, key, victim), s.nextHandle + 1)
  {
    var stored := Stored(s.cache, key, s.nextHandle);
    assert stored.Keys == s.cache.Keys + {key};
    if victim.None? {
      assert s.cache == map[];
    } else {
      assert victim.value in s.cache;
    }
    assert LookedUp(s, key, victim).Keys == {key};
  }

  lemma StepHoldsNewest(s: State, l: Label)
    requires s.capacity == 1 && HoldsNewest(s.cache, s.nextHandle) && Enabled(s, l)
    ensures HoldsNewest(Apply(s, l).cache, Apply(s, l).nextHandle)
  {
    if l.Acquire? && NextKey(s.threads[l.t]) !in s.cache {
      MissHoldsNewest(s, NextKey(s.threads[l.t]), l.victim);
    }
  }

  /** The handle a pipeline finds for its upstream is newer than its target's: not older than any, and not the same. */
  lemma UpstreamIsNewer(s: State, t: Tid, victim: Option<Key>)
    requires Inv(s) && WaitsForNewer(s) && Enabled(s, Acquire(t, victim))
    ensures OlderTarget(Apply(s, Acquire(t, victim)).threads[t])
  {
    var th := s.threads[t];
    assert ThreadOk(s, th);
    CacheKeyInjective(th.job.targetRepository, th.job.upstreamRepository, th.job.upstreamBranch);
  }

  lemma MoverIsOlder(s: State, l: Label)
    requires Enabled(s, l) && !l.Acquire? && OlderTarget(s.threads[l.t])
    ensures OlderTarget(Apply(s, l).threads[l.t])
  {
  }

  lemma StepWaitsForNewer(s: State, l: Label)
    requires Inv(s) && WaitsForNewer(s) && Enabled(s, l)
    ensures WaitsForNewer(Apply(s, l))
  {
    StepHoldsNewest(s, l);
    if l.Acquire? { UpstreamIsNewer(s, l.t, l.victim); } else { MoverIsOlder(s, l); }
    var s' := Apply(s, l);
    forall t | t in s'.threads ensures OlderTarget(s'.threads[t]) {
      if t != l.t { OthersStay(s, l, t); }
    }
    StepKeepsJobs(s, l);
  }

  /** Following blocked pipelines would climb to ever newer handles. */
  lemma {:induction false} WaitingClimbs(s: State, t: Tid)
    requires Inv(s) && WaitsForNewer(s) && Stuck(s) && t in s.threads && InFlight(s.threads[t])
    requires s.threads[t].phase.Waiting?
    ensures false
    decreases s.nextHandle - s.threads[t].phase.handle
  {
    OwnerWaitsForUpstream(s, t);
    WaitingClimbs(s, s.handles[s.threads[t].phase.handle].owner.value);
  }

  lemma {:induction false} RunWaitsForNewer(s: State, labels: seq<Label>)
    requires Inv(s) && WaitsForNewer(s) && Runs(s, labels)
    ensures WaitsForNewer(After(s, labels))
    decreases |labels|
  {
    if labels != [] {
      StepWaitsForNewer(s, labels[0]);
      StepKeepsInv(s, labels[0]);
      RunWaitsForNewer(Apply(s, labels[0]), labels[1..]);
    }
  }

  /** With room for one repository, no pipelines ever come to a standstill, whatever they go from and to. */
  lemma OneEntryNeverStuck(s0: State, labels: seq<Label>)
    requires IsInitial(s0) && s0.capacity == 1 && Runs(s0, labels)
    ensures !Stuck(After(s0, labels))
  {
    InitialInv(s0);
    forall t | t in s0.threads ensures OlderTarget(s0.threads[t]) {
      assert s0.threads[t] == Thread(s0.threads[t].job, Idle, None, None);
    }
    RunKeepsInv(s0, labels);
    RunWaitsForNewer(s0, labels);
    var s := After(s0, labels);
    if Stuck(s) {
      var t :| t in s.threads && InFlight(s.threads[t]);
      assert Blocked(s, t);
      WaitingClimbs(s, t);
    }
  }

  // ---------- a cycle locks up ----------

  lemma {:induction false} RunsConcat(s: State, a: seq<Label>, b: seq<Label>)
    requires Runs(s, a) && Runs(After(s, a), b)
    ensures Runs(s, a + b) && After(s, a + b) == After(After(s, a), b)
    decreases |a|
  {
    if a == [] {
      assert a + b == b;
    } else {
      ConcatCons(a, b);
      RunsConcat(Apply(s, a[0]), a[1..], b);
    }
  }

  lemma RunsOne(s: State, l: Label)
    requires Enabled(s, l)
    ensures Runs(s, [l]) && After(s, [l]) == Apply(s, l)
  {
    assert [l][1..] == [];
  }

  /** One more step. */
  lemma Extend(s: State, labels: seq<Label>, l: Label)
    requires Runs(s, labels) && Enabled(After(s, labels), l)
    ensures Runs(s, labels + [l]) && After(s, labels + [l]) == Apply(After(s, labels), l)
  {
    RunsOne(After(s, labels), l);
    RunsConcat(s, labels, [l]);
  }

  ghost predicate IsSimpleCycle<T(!new)>(edges: Edges<T>, c: seq<T>) {
    IsCycle(edges, c) && NoDuplicates(c[..|c| - 1])
  }

  lemma {:induction false} Simplify<T(!new)>(edges: Edges<T>, c: seq<T>) returns (simple: seq<T>)
    requires IsCycle(edges, c)
    ensures IsSimpleCycle(edges, simple)
    decreases |c|
  {
    var front := c[..|c| - 1];
    if NoDuplicates(front) {
      simple := c;
    } else {
      var i, j :| 0 <= i < j < |front| && front[i] == front[j];
      LoopIsCycle(edges, c, i, j);
      simple := Simplify(edges, c[i..j + 1]);
    }
  }

  /** Pipeline ts[i] goes from repository c[i] to repository c[i + 1]. */
  ghost predicate Travels(threads: map<Tid, Thread>, ts: seq<Tid>, c: seq<Key>) {
    && |c| == |ts| + 1 && |ts| > 0 && c[0] == c[|ts|] && NoDuplicates(c[..|ts|])
    && forall i :: 0 <= i < |ts| ==> TravelsAt(threads, ts, c, i)
  }

  ghost predicate TravelsAt(threads: map<Tid, Thread>, ts: seq<Tid>, c: seq<Key>, i: nat)
    requires i < |ts| < |c|
  {
    && ts[i] in threads && threads[ts[i]].job.LeasesUpstream()
    && threads[ts[i]].job.TargetKey() == c[i] && threads[ts[i]].job.UpstreamKey() == c[i + 1]
  }

  lemma {:induction false} CycleTravellers(threads: map<Tid, Thread>, c: seq<Key>, n: nat) returns (ts: seq<Tid>)
    requires IsPath(EdgesOf(threads), c) && n < |c|
    ensures |ts| == n && forall i :: 0 <= i < n ==> TravelsAt(threads, ts, c, i)
  {
    if n == 0 {
      ts := [];
    } else {
      var before := CycleTravellers(threads, c, n - 1);
      assert (c[n - 1], c[n - 1 + 1]) in EdgesOf(threads);
      var t :| t in threads && threads[t].job.LeasesUpstream()
        && (threads[t].job.TargetKey(), threads[t].job.UpstreamKey()) == (c[n - 1], c[n]);
      ts := before + [t];
      forall i | 0 <= i < n ensures TravelsAt(threads, ts, c, i) {
        if i < n - 1 { assert TravelsAt(threads, before, c, i); }
      }
    }
  }

  lemma TravellersDistinct(threads: map<Tid, Thread>, ts: seq<Tid>, c: seq<Key>, i: nat, j: nat)
    requires Travels(threads, ts, c) && i < |ts| && j < |ts| && i != j
    ensures ts[i] != ts[j] && c[i] != c[j]
  {
    assert TravelsAt(threads, ts, c, i) && TravelsAt(threads, ts, c, j);
    assert c[..|ts|][i] != c[..|ts|][j];
  }

  /** No pipeline goes from a repository to itself, so a cycle has two travellers at least. */
  lemma TwoTravellers(threads: map<Tid, Thread>, ts: seq<Tid>, c: seq<Key>)
    requires Travels(threads, ts, c)
    ensures |ts| >= 2
  {
    assert TravelsAt(threads, ts, c, 0);
    var job := threads[ts[0]].job;
    CacheKeyInjective(job.targetRepository, job.upstreamRepository, job.upstreamBranch);
  }

  predicate NotStarted(th: Thread) {
    th == Thread(th.job, Idle, None, None)
  }

  /** t holds its target under handle h and has not asked for its upstream. */
  predicate HoldsTarget(s: State, t: Tid, h: Handle) {
    && t in s.threads && s.threads[t].phase == NeedsUpstream
    && s.threads[t].target.Some? && s.threads[t].target.value.handle == h && s.threads[t].upstream == None
  }

  /** t holds its target under handle h and waits for handle next. */
  predicate QueuesFor(s: State, t: Tid, h: Handle, next: Handle) {
    && t in s.threads && s.threads[t].phase == Waiting(Upstream, next)
    && s.threads[t].target.Some? && s.threads[t].target.value.handle == h
  }

  predicate IsCached(cache: Cache, key: Key, h: Handle) {
    key in cache && cache[key].value == h
  }

  /** Every counter is low, and either the cache holds all of the cycle or key is used as much as any. */
  ghost predicate Keeps(s: State, key: Key, length: nat, uses: nat) {
    && (forall k :: k in s.cache ==> s.cache[k].useCount <= 2)
    && (length <= s.capacity || (2 <= s.capacity && key in s.cache && s.cache[key].useCount == uses))
  }

  /** Nothing but the pipelines a and b has moved. */
  ghost predicate OnlyMoved(s: State, s': State, a: Tid, b: Tid) {
    && SameJobs(s, s')
    && forall t :: t in s.threads && t != a && t != b ==> s'.threads[t] == s.threads[t]
  }

  lemma OnlyTwoMoved(s: State, s': State, s'': State, a: Tid, b: Tid)
    requires OnlyMoved(s, s', a, b) && OnlyMoved(s', s'', a, b)
    ensures OnlyMoved(s, s'', a, b)
  {
  }

  /** The pipeline gets hold of its target: looked up, locked and cloned. */
  lemma Grab(s: State, t: Tid, victim: Option<Key>) returns (labels: seq<Label>)
    requires t in s.threads && NotStarted(s.threads[t]) && s.threads[t].job.LeasesUpstream()
    requires Evicts(s, s.threads[t].job.TargetKey(), victim)
    requires var key := s.threads[t].job.TargetKey();
      key in s.cache ==> s.cache[key].value in s.handles && s.handles[s.cache[key].value].owner == None
    ensures Runs(s, labels)
    ensures var key := s.threads[t].job.TargetKey();
      var h := if key in s.cache then s.cache[key].value else s.nextHandle;
      var s' := After(s, labels);
      OnlyMoved(s, s', t, t) && HoldsTarget(s', t, h) && s'.cache == LookedUp(s, key, victim)
  {
    labels := [];
    var s1 := Apply(s, Acquire(t, victim));
    Extend(s, labels, Acquire(t, victim));
    labels := labels + [Acquire(t, victim)];
    Extend(s, labels, Lock(t));
    labels := labels + [Lock(t)];
    Extend(s, labels, Clone(t));
    labels := labels + [Clone(t)];
    assert After(s, labels) == Apply(Apply(s1, Lock(t)), Clone(t));
  }

  /** A pipeline looks up its upstream, finds it cached and waits for it. */
  lemma Queue(s: State, t: Tid, h: Handle, next: Handle) returns (labels: seq<Label>)
    requires HoldsTarget(s, t, h) && IsCached(s.cache, s.threads[t].job.UpstreamKey(), next)
    ensures Runs(s, labels)
    ensures var s' := After(s, labels);
      OnlyMoved(s, s', t, t) && QueuesFor(s', t, h, next) && s'.cache == Lfu.Touched(s.cache, s.threads[t].job.UpstreamKey())
  {
    labels := [Acquire(t, None)];
    RunsOne(s, labels[0]);
  }

  /**
   The first n + 1 travellers and the last one hold their targets and all of them but number
   n wait for the next one's; the last target and number n's are still cached.
   */
  ghost predicate Chain(s0: State, s: State, ts: seq<Tid>, c: seq<Key>, hs: seq<Handle>, n: nat)
    requires |hs| == |ts| < |c| && n + 1 < |ts|
  {
    var last := |ts| - 1;
    && SameJobs(s0, s)
    && (forall t :: t in s.threads && t !in ts ==> !InFlight(s.threads[t]))
    && (forall i :: n < i < last ==> ts[i] in s.threads && NotStarted(s.threads[ts[i]]))
    && (forall i :: 0 <= i < n ==> QueuesFor(s, ts[i], hs[i], hs[i + 1]))
    && HoldsTarget(s, ts[n], hs[n])
    && QueuesFor(s, ts[last], hs[last], hs[0])
    && IsCached(s.cache, c[last], hs[last]) && IsCached(s.cache, c[n], hs[n])
    && OnCourse(s, c, |ts|, n)
    && Keeps(s, c[last], |ts|, 2)
  }

  /** What is cached are targets up to number n, the last one, and strays. */
  predicate OnCourse(s: State, c: seq<Key>, length: nat, n: nat)
    requires n + 1 < length < |c|
  {
    forall k :: k in s.cache ==> k == c[length - 1] || k in c[..n + 1] || IsStray(s, c, length, k)
  }

  lemma StaysOnCourse(s: State, s': State, c: seq<Key>, length: nat, n: nat)
    requires n + 2 < length < |c| && OnCourse(s, c, length, n)
    requires s'.capacity == s.capacity && s'.cache.Keys <= s.cache.Keys + {c[n + 1]}
    ensures OnCourse(s', c, length, n + 1)
  {
    assert c[..n + 2] == c[..n + 1] + [c[n + 1]];
  }

  /** An entry that has nothing to do with the cycle; there is none in a cache with room for the cycle. */
  predicate IsStray(s: State, c: seq<Key>, length: nat, k: Key) {
    k !in c && s.capacity < length
  }

  /** A miss can spare the entry kept. */
  lemma SparingVictim(s: State, keep: Key, length: nat, key: Key) returns (victim: Option<Key>)
    requires keep in s.cache && key !in s.cache && Keeps(s, keep, length, 2)
    requires length <= s.capacity ==> |s.cache| < s.capacity
    ensures Evicts(s, key, victim) && victim != Some(keep)
    ensures LookedUp(s, key, victim).Keys <= s.cache.Keys + {key}
    ensures forall k :: k in s.cache && Some(k) != victim ==> k in LookedUp(s, key, victim) && LookedUp(s, key, victim)[k] == s.cache[k]
    ensures key in LookedUp(s, key, victim) && LookedUp(s, key, victim)[key] == Lfu.Entry(s.nextHandle, 1)
  {
    if |s.cache| < s.capacity {
      victim := None;
    } else {
      OthersCached(s.cache, keep);
      var least := Lfu.LeastUsedOf(s.cache, s.cache.Keys - {keep});
      victim := Some(least);
      assert forall k :: k in s.cache ==> s.cache[least].useCount <= s.cache[k].useCount;
      assert Lfu.LeastUsed(Stored(s.cache, key, s.nextHandle), key, least);
    }
  }

  lemma OthersCached(cache: Cache, keep: Key)
    requires |cache| >= 2 && keep in cache
    ensures cache.Keys - {keep} != {}
  {
    assert |cache| == |cache.Keys|;
    assert |cache.Keys - {keep}| == |cache.Keys| - 1;
  }

  lemma {:induction false} FewKeys<T>(keys: set<T>, list: seq<T>)
    requires forall k :: k in keys ==> k in list
    ensures |keys| <= |list|
    decreases |list|
  {
    if list != [] {
      var rest := keys - {list[0]};
      FewKeys(rest, list[1..]);
      assert keys <= rest + {list[0]};
      SubsetSize(keys, rest + {list[0]});
    }
  }

  lemma {:induction false} SubsetSize<T>(a: set<T>, b: set<T>)
    requires a <= b
    ensures |a| <= |b|
    decreases |a|
  {
    if k :| k in a { SubsetSize(a - {k}, b - {k}); }
  }

  /** Only the targets up to number n and the last one are cached. */
  lemma ChainIsSmall(s0: State, s: State, ts: seq<Tid>, c: seq<Key>, hs: seq<Handle>, n: nat)
    requires |hs| == |ts| < |c| && n + 2 < |ts| && Travels(s0.threads, ts, c) && Chain(s0, s, ts, c, hs, n)
    ensures |ts| <= s.capacity ==> |s.cache| < |ts|
    ensures c[n + 1] !in s.cache
  {
    assert |s.cache| == |s.cache.Keys|;
    if |ts| <= s.capacity { FewKeys(s.cache.Keys, c[..n + 1] + [c[|ts| - 1]]); }
    forall i | i == |ts| - 1 || 0 <= i <= n ensures c[i] != c[n + 1] {
      TravellersDistinct(s0.threads, ts, c, i, n + 1);
    }
  }

  /** The travellers of a chain that has moved on by one. */
  lemma AdvancedTravellers(s0: State, s: State, s': State, ts: seq<Tid>, c: seq<Key>, hs: seq<Handle>, n: nat, h: Handle)
    requires |hs| == |ts| < |c| && n + 2 < |ts| && Travels(s0.threads, ts, c) && Chain(s0, s, ts, c, hs, n)
    requires OnlyMoved(s, s', ts[n], ts[n + 1])
    requires QueuesFor(s', ts[n], hs[n], h) && HoldsTarget(s', ts[n + 1], h)
    ensures var hs', last := hs[n + 1 := h], |ts| - 1;
      && (forall i :: n + 1 < i < last ==> ts[i] in s'.threads && NotStarted(s'.threads[ts[i]]))
      && (forall i :: 0 <= i < n + 1 ==> QueuesFor(s', ts[i], hs'[i], hs'[i + 1]))
      && HoldsTarget(s', ts[n + 1], hs'[n + 1])
      && QueuesFor(s', ts[last], hs'[last], hs'[0])
  {
    forall i | 0 <= i < |ts| && i != n && i != n + 1 ensures ts[i] != ts[n] && ts[i] != ts[n + 1] {
      TravellersDistinct(s0.threads, ts, c, i, n);
      TravellersDistinct(s0.threads, ts, c, i, n + 1);
    }
  }

  lemma AdvancedChain(s0: State, s: State, s': State, ts: seq<Tid>, c: seq<Key>, hs: seq<Handle>, n: nat, h: Handle)
    requires |hs| == |ts| < |c| && n + 2 < |ts| && Travels(s0.threads, ts, c) && Chain(s0, s, ts, c, hs, n)
    requires OnlyMoved(s, s', ts[n], ts[n + 1])
    requires QueuesFor(s', ts[n], hs[n], h) && HoldsTarget(s', ts[n + 1], h)
    requires IsCached(s'.cache, c[|ts| - 1], hs[|ts| - 1]) && IsCached(s'.cache, c[n + 1], h)
    requires s'.cache.Keys <= s.cache.Keys + {c[n + 1]} && Keeps(s', c[|ts| - 1], |ts|, 2)
    ensures Chain(s0, s', ts, c, hs[n + 1 := h], n + 1)
  {
    AdvancedTravellers(s0, s, s', ts, c, hs, n, h);
    StaysOnCourse(s, s', c, |ts|, n);
    assert ts[n] in ts && ts[n + 1] in ts;
  }

  /** The next traveller gets its target. */
  lemma GrabNext(s0: State, s: State, ts: seq<Tid>, c: seq<Key>, hs: seq<Handle>, n: nat) returns (labels: seq<Label>)
    requires |hs| == |ts| < |c| && n + 2 < |ts| && Travels(s0.threads, ts, c) && Chain(s0, s, ts, c, hs, n)
    ensures Runs(s, labels)
    ensures var s', key := After(s, labels), c[|ts| - 1];
      && OnlyMoved(s, s', ts[n + 1], ts[n + 1]) && HoldsTarget(s', ts[n + 1], s.nextHandle)
      && IsCached(s'.cache, key, hs[|ts| - 1]) && c[n + 1] in s'.cache && s'.cache[c[n + 1]] == Lfu.Entry(s.nextHandle, 1)
      && s'.cache.Keys <= s.cache.Keys + {c[n + 1]} && Keeps(s', key, |ts|, 2)
  {
    assert TravelsAt(s0.threads, ts, c, n + 1);
    TravellersDistinct(s0.threads, ts, c, |ts| - 1, n + 1);
    ChainIsSmall(s0, s, ts, c, hs, n);
    var victim := SparingVictim(s, c[|ts| - 1], |ts|, c[n + 1]);
    labels := Grab(s, ts[n + 1], victim);
  }

  /** And the one before queues for it. */
  lemma Advance(s0: State, s: State, ts: seq<Tid>, c: seq<Key>, hs: seq<Handle>, n: nat) returns (labels: seq<Label>, hs': seq<Handle>)
    requires |hs| == |ts| < |c| && n + 2 < |ts| && Travels(s0.threads, ts, c) && Chain(s0, s, ts, c, hs, n)
    ensures Runs(s, labels) && |hs'| == |ts| && Chain(s0, After(s, labels), ts, c, hs', n + 1)
  {
    assert TravelsAt(s0.threads, ts, c, n);
    TravellersDistinct(s0.threads, ts, c, n, n + 1);
    var grab := GrabNext(s0, s, ts, c, hs, n);
    var s1 := After(s, grab);
    var queue := Queue(s1, ts[n], hs[n], s.nextHandle);
    RunsConcat(s, grab, queue);
    labels, hs' := grab + queue, hs[n + 1 := s.nextHandle];
    NextQueued(s0, s, s1, After(s1, queue), ts, c, hs, n);
  }

  /** Looking the newest entry up once more keeps what is kept. */
  lemma TouchedKeeps(s: State, s': State, key: Key, newest: Key, length: nat)
    requires Keeps(s, key, length, 2) && newest in s.cache && s.cache[newest].useCount == 1 && key != newest
    requires s'.capacity == s.capacity && s'.cache == Lfu.Touched(s.cache, newest)
    ensures Keeps(s', key, length, 2) && s'.cache.Keys == s.cache.Keys
    ensures forall k :: k in s.cache ==> s'.cache[k].value == s.cache[k].value
  {
  }

  lemma NextQueued(s0: State, s: State, s1: State, s2: State, ts: seq<Tid>, c: seq<Key>, hs: seq<Handle>, n: nat)
    requires |hs| == |ts| < |c| && n + 2 < |ts| && Travels(s0.threads, ts, c) && Chain(s0, s, ts, c, hs, n)
    requires OnlyMoved(s, s1, ts[n + 1], ts[n + 1]) && HoldsTarget(s1, ts[n + 1], s.nextHandle)
    requires IsCached(s1.cache, c[|ts| - 1], hs[|ts| - 1])
    requires c[n + 1] in s1.cache && s1.cache[c[n + 1]] == Lfu.Entry(s.nextHandle, 1)
    requires s1.cache.Keys <= s.cache.Keys + {c[n + 1]} && Keeps(s1, c[|ts| - 1], |ts|, 2)
    requires OnlyMoved(s1, s2, ts[n], ts[n]) && QueuesFor(s2, ts[n], hs[n], s.nextHandle)
    requires s2.cache == Lfu.Touched(s1.cache, c[n + 1])
    ensures Chain(s0, s2, ts, c, hs[n + 1 := s.nextHandle], n + 1)
  {
    TravellersDistinct(s0.threads, ts, c, n, n + 1);
    TravellersDistinct(s0.threads, ts, c, |ts| - 1, n + 1);
    OnlyTwoMoved(s, s1, s2, ts[n], ts[n + 1]);
    TouchedKeeps(s1, s2, c[|ts| - 1], c[n + 1], |ts|);
    AdvancedChain(s0, s, s2, ts, c, hs, n, s.nextHandle);
  }

  /** Nobody has started, and nothing of the cycle but the last target can be cached, with its mutex free. */
  ghost predicate Ready(s0: State, s: State, ts: seq<Tid>, c: seq<Key>)
    requires 0 < |ts| < |c|
  {
    && SameJobs(s0, s) && AtMostCached(s, c[|ts| - 1], c, |ts|)
    && (forall t :: t in s.threads && t !in ts ==> !InFlight(s.threads[t]))
    && (forall i :: 0 <= i < |ts| ==> ts[i] in s.threads && NotStarted(s.threads[ts[i]]))
  }

  ghost predicate AtMostCached(s: State, key: Key, c: seq<Key>, length: nat) {
    && s.capacity >= 2 && Keeps(s, key, length, 1)
    && (forall k :: k in s.cache ==> (k == key || IsStray(s, c, length, k)) && s.cache[k].useCount <= 1)
    && (key in s.cache ==> s.cache[key].value in s.handles && s.handles[s.cache[key].value].owner == None)
  }

  lemma LooksUpLast(s: State, key: Key, c: seq<Key>, length: nat)
    requires AtMostCached(s, key, c, length)
    ensures Evicts(s, key, None)
    ensures var after := LookedUp(s, key, None);
      && after.Keys == s.cache.Keys + {key}
      && after[key].value == (if key in s.cache then s.cache[key].value else s.nextHandle)
      && (forall k :: k in after ==> after[k].useCount <= 2)
      && (length <= s.capacity || after[key].useCount == 2)
  {
    if key !in s.cache { assert s.cache == map[]; }
    assert LookedUp(s, key, None).Keys == s.cache.Keys + {key};
  }

  /** A pipeline that has not started gets hold of this target. */
  lemma GrabLast(s: State, t: Tid, key: Key, c: seq<Key>, length: nat) returns (labels: seq<Label>, h: Handle)
    requires AtMostCached(s, key, c, length)
    requires t in s.threads && NotStarted(s.threads[t]) && s.threads[t].job.LeasesUpstream() && s.threads[t].job.TargetKey() == key
    ensures Runs(s, labels)
    ensures var s' := After(s, labels);
      && OnlyMoved(s, s', t, t) && HoldsTarget(s', t, h)
      && s'.cache.Keys == s.cache.Keys + {key} && IsCached(s'.cache, key, h) && Keeps(s', key, length, 2)
  {
    LooksUpLast(s, key, c, length);
    labels := Grab(s, t, None);
    h := if key in s.cache then s.cache[key].value else s.nextHandle;
  }

  /** A pipeline that has not started gets hold of another target, and key stays cached. */
  lemma GrabFirst(s: State, t: Tid, key: Key, h: Handle, length: nat) returns (labels: seq<Label>)
    requires IsCached(s.cache, key, h) && Keeps(s, key, length, 2) && (length <= s.capacity ==> |s.cache| < s.capacity)
    requires t in s.threads && NotStarted(s.threads[t]) && s.threads[t].job.LeasesUpstream()
    requires s.threads[t].job.TargetKey() !in s.cache
    ensures Runs(s, labels)
    ensures var s', first := After(s, labels), s.threads[t].job.TargetKey();
      && OnlyMoved(s, s', t, t) && HoldsTarget(s', t, s.nextHandle)
      && s'.cache.Keys <= s.cache.Keys + {first} && IsCached(s'.cache, key, h)
      && first in s'.cache && s'.cache[first] == Lfu.Entry(s.nextHandle, 1)
      && Keeps(s', key, length, 2)
  {
    var victim := SparingVictim(s, key, length, s.threads[t].job.TargetKey());
    labels := Grab(s, t, victim);
  }

  lemma OneKey(cache: Cache, key: Key)
    requires cache.Keys == {key}
    ensures |cache| == 1
  {
    assert |cache| == |cache.Keys|;
  }

  /** With the last target looked up, the cache has nothing of another key of the cycle, and room if it has room for the cycle. */
  lemma RoomForFirst(s: State, after: Cache, key: Key, first: Key, c: seq<Key>, length: nat)
    requires AtMostCached(s, key, c, length) && after.Keys == s.cache.Keys + {key}
    requires first in c && first != key
    ensures first !in after
    ensures length <= s.capacity ==> |after| < s.capacity
  {
    if length <= s.capacity {
      assert after.Keys == {key};
      OneKey(after, key);
    }
  }

  /** The last traveller and then the first one get hold of their targets. */
  lemma GrabBoth(s0: State, s: State, ts: seq<Tid>, c: seq<Key>) returns (labels: seq<Label>, first: Handle, last: Handle)
    requires 1 < |ts| < |c| && Travels(s0.threads, ts, c) && Ready(s0, s, ts, c)
    ensures Runs(s, labels)
    ensures var s', n := After(s, labels), |ts| - 1;
      && OnlyMoved(s, s', ts[0], ts[n]) && HoldsTarget(s', ts[0], first) && HoldsTarget(s', ts[n], last)
      && s'.cache.Keys <= s.cache.Keys + {c[n], c[0]} && IsCached(s'.cache, c[n], last)
      && c[0] in s'.cache && s'.cache[c[0]] == Lfu.Entry(first, 1)
      && Keeps(s', c[n], |ts|, 2)
  {
    var n := |ts| - 1;
    assert TravelsAt(s0.threads, ts, c, 0) && TravelsAt(s0.threads, ts, c, n);
    TravellersDistinct(s0.threads, ts, c, 0, n);
    var grab, h := GrabLast(s, ts[n], c[n], c, |ts|);
    var s1 := After(s, grab);
    RoomForFirst(s, s1.cache, c[n], c[0], c, |ts|);
    var more := GrabFirst(s1, ts[0], c[n], h, |ts|);
    RunsConcat(s, grab, more);
    labels, first, last := grab + more, s1.nextHandle, h;
    OnlyTwoMoved(s, s1, After(s1, more), ts[0], ts[n]);
  }

  /** Then the last one queues for the first one's. */
  lemma Start(s0: State, s: State, ts: seq<Tid>, c: seq<Key>) returns (labels: seq<Label>, hs: seq<Handle>)
    requires 1 < |ts| < |c| && Travels(s0.threads, ts, c) && Ready(s0, s, ts, c)
    ensures Runs(s, labels) && |hs| == |ts| && Chain(s0, After(s, labels), ts, c, hs, 0)
  {
    var n := |ts| - 1;
    assert TravelsAt(s0.threads, ts, c, n);
    var grab, first, last := GrabBoth(s0, s, ts, c);
    var s1 := After(s, grab);
    var queue := Queue(s1, ts[n], last, first);
    RunsConcat(s, grab, queue);
    labels := grab + queue;
    hs := BothQueued(s0, s, s1, After(s1, queue), ts, c, first, last);
  }

  lemma BothQueued(s0: State, s: State, s1: State, s2: State, ts: seq<Tid>, c: seq<Key>, first: Handle, last: Handle)
    returns (hs: seq<Handle>)
    requires 1 < |ts| < |c| && Travels(s0.threads, ts, c) && Ready(s0, s, ts, c)
    requires OnlyMoved(s, s1, ts[0], ts[|ts| - 1]) && HoldsTarget(s1, ts[0], first)
    requires s1.cache.Keys <= s.cache.Keys + {c[|ts| - 1], c[0]} && IsCached(s1.cache, c[|ts| - 1], last)
    requires c[0] in s1.cache && s1.cache[c[0]] == Lfu.Entry(first, 1)
    requires Keeps(s1, c[|ts| - 1], |ts|, 2)
    requires OnlyMoved(s1, s2, ts[|ts| - 1], ts[|ts| - 1]) && QueuesFor(s2, ts[|ts| - 1], last, first)
    requires s2.cache == Lfu.Touched(s1.cache, c[0])
    ensures |hs| == |ts| && Chain(s0, s2, ts, c, hs, 0)
  {
    TravellersDistinct(s0.threads, ts, c, 0, |ts| - 1);
    hs := seq(|ts|, i requires 0 <= i < |ts| => if i == 0 then first else last);
    OnlyTwoMoved(s, s1, s2, ts[0], ts[|ts| - 1]);
    TouchedKeeps(s1, s2, c[|ts| - 1], c[0], |ts|);
    StartedChain(s0, s, s2, ts, c, hs);
  }

  lemma StartedChain(s0: State, s: State, s': State, ts: seq<Tid>, c: seq<Key>, hs: seq<Handle>)
    requires 1 < |ts| == |hs| < |c| && Travels(s0.threads, ts, c) && Ready(s0, s, ts, c)
    requires OnlyMoved(s, s', ts[0], ts[|ts| - 1])
    requires HoldsTarget(s', ts[0], hs[0]) && QueuesFor(s', ts[|ts| - 1], hs[|ts| - 1], hs[0])
    requires IsCached(s'.cache, c[|ts| - 1], hs[|ts| - 1]) && IsCached(s'.cache, c[0], hs[0])
    requires s'.cache.Keys <= s.cache.Keys + {c[|ts| - 1], c[0]} && Keeps(s', c[|ts| - 1], |ts|, 2)
    ensures Chain(s0, s', ts, c, hs, 0)
  {
    var last := |ts| - 1;
    assert ts[0] in ts && ts[last] in ts && c[..1] == [c[0]];
    forall i | 0 < i < last ensures ts[i] != ts[0] && ts[i] != ts[last] {
      TravellersDistinct(s0.threads, ts, c, i, 0);
      TravellersDistinct(s0.threads, ts, c, i, last);
    }
  }

  lemma {:induction false} ChainUpTo(s0: State, s: State, ts: seq<Tid>, c: seq<Key>, n: nat) returns (labels: seq<Label>, hs: seq<Handle>)
    requires n + 1 < |ts| < |c| && Travels(s0.threads, ts, c) && Ready(s0, s, ts, c)
    ensures Runs(s, labels) && |hs| == |ts| && Chain(s0, After(s, labels), ts, c, hs, n)
  {
    if n == 0 {
      labels, hs := Start(s0, s, ts, c);
    } else {
      var before, hs0 := ChainUpTo(s0, s, ts, c, n - 1);
      var more, hs1 := Advance(s0, After(s, before), ts, c, hs0, n - 1);
      RunsConcat(s, before, more);
      labels, hs := before + more, hs1;
    }
  }

  function Around(i: nat, n: nat): (next: nat)
    requires i < n
    ensures next < n
  {
    if i + 1 == n then 0 else i + 1
  }

  /** Every traveller waits for the next one's target, around the cycle. */
  ghost predicate AllQueued(s: State, ts: seq<Tid>, hs: seq<Handle>) {
    && 0 < |ts| == |hs|
    && (forall t :: t in s.threads && t !in ts ==> !InFlight(s.threads[t]))
    && (forall i :: 0 <= i < |ts| ==> QueuesFor(s, ts[i], hs[i], hs[Around(i, |ts|)]))
  }

  lemma TargetIsLocked(s: State, t: Tid)
    requires OwnersOk(s) && t in s.threads && s.threads[t].target.Some?
    ensures s.threads[t].target.value.handle in s.handles && s.handles[s.threads[t].target.value.handle].owner == Some(t)
  {
    assert Holds(s.threads[t], s.threads[t].target.value.handle);
  }

  lemma QueuedIsStuck(s: State, ts: seq<Tid>, hs: seq<Handle>)
    requires OwnersOk(s) && AllQueued(s, ts, hs)
    ensures Stuck(s)
  {
    assert QueuesFor(s, ts[0], hs[0], hs[Around(0, |ts|)]);
    forall t | t in s.threads && InFlight(s.threads[t]) ensures Blocked(s, t) {
      var i :| 0 <= i < |ts| && ts[i] == t;
      var next := Around(i, |ts|);
      assert QueuesFor(s, ts[i], hs[i], hs[next]) && QueuesFor(s, ts[next], hs[next], hs[Around(next, |ts|)]);
      TargetIsLocked(s, ts[next]);
    }
  }

  /** The last but one traveller closes the circle. */
  lemma CloseCircle(s0: State, s: State, ts: seq<Tid>, c: seq<Key>, hs: seq<Handle>) returns (labels: seq<Label>)
    requires 1 < |ts| == |hs| < |c| && Travels(s0.threads, ts, c) && Chain(s0, s, ts, c, hs, |ts| - 2)
    ensures Runs(s, labels) && AllQueued(After(s, labels), ts, hs)
  {
    var n := |ts| - 2;
    assert TravelsAt(s0.threads, ts, c, n);
    labels := Queue(s, ts[n], hs[n], hs[n + 1]);
    CircleClosed(s0, s, After(s, labels), ts, c, hs);
  }

  lemma CircleClosedAt(s0: State, s: State, s': State, ts: seq<Tid>, c: seq<Key>, hs: seq<Handle>, i: nat)
    requires 1 < |ts| == |hs| < |c| && Travels(s0.threads, ts, c) && Chain(s0, s, ts, c, hs, |ts| - 2)
    requires OnlyMoved(s, s', ts[|ts| - 2], ts[|ts| - 2]) && QueuesFor(s', ts[|ts| - 2], hs[|ts| - 2], hs[|ts| - 1])
    requires i < |ts|
    ensures QueuesFor(s', ts[i], hs[i], hs[Around(i, |ts|)])
  {
    if i != |ts| - 2 { TravellersDistinct(s0.threads, ts, c, i, |ts| - 2); }
  }

  lemma CircleClosed(s0: State, s: State, s': State, ts: seq<Tid>, c: seq<Key>, hs: seq<Handle>)
    requires 1 < |ts| == |hs| < |c| && Travels(s0.threads, ts, c) && Chain(s0, s, ts, c, hs, |ts| - 2)
    requires OnlyMoved(s, s', ts[|ts| - 2], ts[|ts| - 2]) && QueuesFor(s', ts[|ts| - 2], hs[|ts| - 2], hs[|ts| - 1])
    ensures AllQueued(s', ts, hs)
  {
    forall i | 0 <= i < |ts| ensures QueuesFor(s', ts[i], hs[i], hs[Around(i, |ts|)]) {
      CircleClosedAt(s0, s, s', ts, c, hs, i);
    }
    assert ts[|ts| - 2] in ts;
  }

  lemma ReadyGetsStuck(s0: State, s: State, ts: seq<Tid>, c: seq<Key>) returns (labels: seq<Label>)
    requires 0 < |ts| < |c| && Travels(s0.threads, ts, c) && Ready(s0, s, ts, c) && Inv(s)
    ensures Runs(s, labels) && Stuck(After(s, labels))
  {
    TwoTravellers(s0.threads, ts, c);
    var chain, hs := ChainUpTo(s0, s, ts, c, |ts| - 2);
    var close := CloseCircle(s0, After(s, chain), ts, c, hs);
    RunsConcat(s, chain, close);
    labels := chain + close;
    RunKeepsInv(s, labels);
    QueuedIsStuck(After(s, labels), ts, hs);
  }

  // ---------- warming an entry of the cycle up ----------

  /** t has returned, its handle h is unlocked, and nothing but it has moved. */
  ghost predicate HasReturned(s: State, s': State, t: Tid, h: Handle) {
    && OnlyMoved(s, s', t, t) && t in s'.threads && s'.threads[t].phase == Finished
    && h in s'.handles && s'.handles[h].owner == None
  }

  /** The first pipeline of all holds its target, the only entry cached. */
  lemma WarmTarget(s0: State, e: Tid) returns (labels: seq<Label>)
    requires IsInitial(s0) && s0.capacity >= 2 && e in s0.threads && s0.threads[e].job.LeasesUpstream()
    ensures Runs(s0, labels)
    ensures var s, key := After(s0, labels), s0.threads[e].job.TargetKey();
      && OnlyMoved(s0, s, e, e) && HoldsTarget(s, e, s0.nextHandle) && s.cache == map[key := Lfu.Entry(s0.nextHandle, 1)]
  {
    assert s0.threads[e] == Thread(s0.threads[e].job, Idle, None, None);
    labels := Grab(s0, e, None);
  }

  /** The clone of its upstream fails: it gives that up and returns. */
  lemma WarmReturn(s: State, e: Tid, h: Handle) returns (labels: seq<Label>)
    requires HoldsTarget(s, e, h) && h in s.handles && h < s.nextHandle && s.threads[e].job.LeasesUpstream()
    requires |s.cache| < s.capacity && s.threads[e].job.UpstreamKey() !in s.cache
    ensures Runs(s, labels)
    ensures var s' := After(s, labels);
      HasReturned(s, s', e, h) && s'.cache == s.cache
  {
    labels := [];
    var s1 := Apply(s, Acquire(e, None));
    Extend(s, labels, Acquire(e, None));
    labels := labels + [Acquire(e, None)];
    var s2 := Apply(s1, Lock(e));
    Extend(s, labels, Lock(e));
    labels := labels + [Lock(e)];
    var s3 := Apply(s2, GiveUp(e));
    Extend(s, labels, GiveUp(e));
    labels := labels + [GiveUp(e)];
    assert s3.cache == s.cache;
    var s4 := Apply(s3, Release(e));
    Extend(s, labels, Release(e));
    labels := labels + [Release(e)];
    Extend(s, labels, Release(e));
    labels := labels + [Release(e)];
  }

  /** It leases its upstream as well, works and returns. */
  lemma WarmBoth(s: State, e: Tid, h: Handle) returns (labels: seq<Label>)
    requires HoldsTarget(s, e, h) && h in s.handles && h < s.nextHandle && s.threads[e].job.LeasesUpstream()
    requires |s.cache| < s.capacity && s.threads[e].job.UpstreamKey() !in s.cache
    ensures Runs(s, labels)
    ensures var s' := After(s, labels);
      HasReturned(s, s', e, s.nextHandle) && s'.cache == LookedUp(s, s.threads[e].job.UpstreamKey(), None)
  {
    labels := [Acquire(e, None)];
    RunsOne(s, labels[0]);
    var s1 := Apply(s, Acquire(e, None));
    var s2 := Apply(s1, Lock(e));
    Extend(s, labels, Lock(e));
    labels := labels + [Lock(e)];
    var s3 := Apply(s2, Clone(e));
    Extend(s, labels, Clone(e));
    labels := labels + [Clone(e)];
    var end := WorkAndReturn(s3, e, s.nextHandle, h);
    RunsConcat(s, labels, end);
    labels := labels + end;
  }

  lemma WorkAndReturn(s: State, e: Tid, upstream: Handle, target: Handle) returns (labels: seq<Label>)
    requires e in s.threads && s.threads[e].phase == Working && upstream in s.handles && target in s.handles
    requires s.threads[e].upstream.Some? && s.threads[e].upstream.value.handle == upstream
    requires s.threads[e].target.Some? && s.threads[e].target.value.handle == target
    ensures Runs(s, labels)
    ensures HasReturned(s, After(s, labels), e, upstream) && After(s, labels).cache == s.cache
  {
    labels := [Work(e)];
    RunsOne(s, labels[0]);
    var s1 := Apply(s, Work(e));
    var s2 := Apply(s1, Release(e));
    Extend(s, labels, Release(e));
    labels := labels + [Release(e)];
    var s3 := Apply(s2, Release(e));
    Extend(s, labels, Release(e));
    labels := labels + [Release(e)];
    Extend(s, labels, Release(e));
    labels := labels + [Release(e)];
  }

  /** With its target alone leased, it works and returns. */
  lemma WorkAloneAndReturn(s: State, e: Tid, target: Handle) returns (labels: seq<Label>)
    requires e in s.threads && s.threads[e].phase == Working && target in s.handles && s.threads[e].upstream == None
    requires s.threads[e].target.Some? && s.threads[e].target.value.handle == target
    ensures Runs(s, labels)
    ensures HasReturned(s, After(s, labels), e, target) && After(s, labels).cache == s.cache
  {
    labels := [Work(e)];
    RunsOne(s, labels[0]);
    Extend(s, labels, Release(e));
    labels := labels + [Release(e)];
    Extend(s, labels, Release(e));
    labels := labels + [Release(e)];
  }

  /** The first pipeline of all leases its target only, works and returns. */
  lemma WarmAlone(s0: State, e: Tid) returns (labels: seq<Label>)
    requires IsInitial(s0) && e in s0.threads && !s0.threads[e].job.LeasesUpstream()
    ensures Runs(s0, labels)
    ensures var s, key := After(s0, labels), s0.threads[e].job.TargetKey();
      HasReturned(s0, s, e, s0.nextHandle) && s.cache == map[key := Lfu.Entry(s0.nextHandle, 1)]
  {
    assert s0.threads[e] == Thread(s0.threads[e].job, Idle, None, None);
    labels := [Acquire(e, None)];
    RunsOne(s0, labels[0]);
    Extend(s0, labels, Lock(e));
    labels := labels + [Lock(e)];
    Extend(s0, labels, Clone(e));
    labels := labels + [Clone(e)];
    var s := After(s0, labels);
    assert OnlyMoved(s0, s, e, e);
    var end := WorkAloneAndReturn(s, e, s0.nextHandle);
    RunsConcat(s0, labels, end);
    labels := labels + end;
    OnlyTwoMoved(s0, s, After(s, end), e, e);
  }

  /** Run to its end first, a pipeline that goes to key leaves it cached, and nothing else. */
  lemma WarmsTarget(s0: State, e: Tid) returns (labels: seq<Label>)
    requires IsInitial(s0) && s0.capacity >= 2 && e in s0.threads
    ensures Runs(s0, labels)
    ensures var s, key := After(s0, labels), s0.threads[e].job.TargetKey();
      HasReturned(s0, s, e, s0.nextHandle) && s.cache == map[key := Lfu.Entry(s0.nextHandle, 1)]
  {
    if !s0.threads[e].job.LeasesUpstream() {
      labels := WarmAlone(s0, e);
    } else {
      var warm := WarmTarget(s0, e);
      var s := After(s0, warm);
      WarmedTarget(s0, s, warm, e);
      var back := WarmReturn(s, e, s0.nextHandle);
      RunsConcat(s0, warm, back);
      labels := warm + back;
      OnlyTwoMoved(s0, s, After(s, back), e, e);
    }
  }

  lemma WarmedTarget(s0: State, s: State, labels: seq<Label>, e: Tid)
    requires IsInitial(s0) && s0.capacity >= 2 && Runs(s0, labels) && s == After(s0, labels)
    requires e in s0.threads && s0.threads[e].job.LeasesUpstream()
    requires OnlyMoved(s0, s, e, e) && HoldsTarget(s, e, s0.nextHandle)
    requires s.cache == map[s0.threads[e].job.TargetKey() := Lfu.Entry(s0.nextHandle, 1)]
    ensures s0.nextHandle in s.handles && s0.nextHandle < s.nextHandle
    ensures |s.cache| < s.capacity && s.threads[e].job.UpstreamKey() !in s.cache
  {
    InitialInv(s0);
    RunKeepsInv(s0, labels);
    TargetIsLocked(s, e);
    var job := s0.threads[e].job;
    CacheKeyInjective(job.targetRepository, job.upstreamRepository, job.upstreamBranch);
    assert |s.cache| == |s.cache.Keys| == 1;
  }

  /** Run to its end first, a pipeline that comes from key leaves it cached, with its own target. */
  lemma WarmsUpstream(s0: State, e: Tid) returns (labels: seq<Label>, h: Handle)
    requires IsInitial(s0) && s0.capacity >= 2 && e in s0.threads && s0.threads[e].job.LeasesUpstream()
    ensures Runs(s0, labels)
    ensures var s, job := After(s0, labels), s0.threads[e].job;
      && HasReturned(s0, s, e, h) && s.cache.Keys == {job.TargetKey(), job.UpstreamKey()}
      && IsCached(s.cache, job.UpstreamKey(), h) && forall k :: k in s.cache ==> s.cache[k].useCount == 1
  {
    var warm := WarmTarget(s0, e);
    var s := After(s0, warm);
    WarmedTarget(s0, s, warm, e);
    var back := WarmBoth(s, e, s0.nextHandle);
    RunsConcat(s0, warm, back);
    labels, h := warm + back, s.nextHandle;
    OnlyTwoMoved(s0, s, After(s, back), e, e);
  }

  lemma WarmIsReady(s0: State, s: State, e: Tid, h: Handle, ts: seq<Tid>, c: seq<Key>)
    requires IsInitial(s0) && s0.capacity >= 2 && s0.capacity < |ts| && Travels(s0.threads, ts, c) && e !in ts
    requires HasReturned(s0, s, e, h) && IsCached(s.cache, c[|ts| - 1], h) && s.cache[c[|ts| - 1]].useCount == 1
    requires forall k :: k in s.cache ==> s.cache[k].useCount <= 1 && (k == c[|ts| - 1] || k !in c)
    ensures Ready(s0, s, ts, c)
  {
    forall i | 0 <= i < |ts| ensures ts[i] in s.threads && NotStarted(s.threads[ts[i]]) {
      assert TravelsAt(s0.threads, ts, c, i);
      assert s0.threads[ts[i]] == Thread(s0.threads[ts[i]].job, Idle, None, None);
    }
    forall t | t in s.threads && t !in ts ensures !InFlight(s.threads[t]) {
      assert t != e ==> s.threads[t] == Thread(s0.threads[t].job, Idle, None, None);
    }
  }

  /** Where position i of the cycle turned by j + 1 was before. */
  function Turned(i: nat, j: nat, m: nat): nat
    requires i < m && j < m
  {
    if i + j + 1 < m then i + j + 1 else i + j + 1 - m
  }

  lemma RotatedAt(ts: seq<Tid>, c: seq<Key>, j: nat, i: nat)
    requires |c| == |ts| + 1 && c[0] == c[|ts|] && j < |ts| && i < |ts|
    ensures var m, ts', c' := |ts|, ts[j + 1..] + ts[..j + 1], c[j + 1..|ts|] + c[..j + 2];
      && |ts'| == m && |c'| == m + 1
      && ts'[i] == ts[Turned(i, j, m)] && c'[i] == c[Turned(i, j, m)] && c'[i + 1] == c[Turned(i, j, m) + 1]
  {
  }

  /** The cycle seen from another of its repositories. */
  lemma Rotate(threads: map<Tid, Thread>, ts: seq<Tid>, c: seq<Key>, j: nat) returns (ts': seq<Tid>, c': seq<Key>)
    requires Travels(threads, ts, c) && j < |ts|
    ensures Travels(threads, ts', c') && |ts'| == |ts| && c'[|ts| - 1] == c[j]
    ensures forall t :: t in ts' <==> t in ts
    ensures forall k :: k in c' <==> k in c
  {
    var m := |ts|;
    ts', c' := ts[j + 1..] + ts[..j + 1], c[j + 1..m] + c[..j + 2];
    forall i | 0 <= i < m ensures TravelsAt(threads, ts', c', i) {
      RotatedAt(ts, c, j, i);
      assert TravelsAt(threads, ts, c, Turned(i, j, m));
    }
    forall i, k | 0 <= i < k < m ensures c'[..m][i] != c'[..m][k] {
      RotatedAt(ts, c, j, i);
      RotatedAt(ts, c, j, k);
      TravellersDistinct(threads, ts, c, Turned(i, j, m), Turned(k, j, m));
    }
    RotatedAt(ts, c, j, m - 1);
    assert forall t :: t in ts <==> t in ts[j + 1..] || t in ts[..j + 1];
    RotatedKeys(c, j, m);
  }

  lemma RotatedKeys(c: seq<Key>, j: nat, m: nat)
    requires j < m && |c| == m + 1 && c[0] == c[m]
    ensures forall k :: k in c[j + 1..m] + c[..j + 2] <==> k in c
  {
    forall k | k in c ensures k in c[j + 1..m] + c[..j + 2] {
      var i :| 0 <= i < |c| && c[i] == k;
      if i == m { assert c[..j + 2][0] == k; }
      else if i > j { assert c[j + 1..m][i - j - 1] == k; }
      else { assert c[..j + 2][i] == k; }
    }
  }

  lemma InitialIsReady(s0: State, ts: seq<Tid>, c: seq<Key>)
    requires IsInitial(s0) && 0 < |ts| < |c| && Travels(s0.threads, ts, c) && |ts| <= s0.capacity
    ensures Ready(s0, s0, ts, c)
  {
    TwoTravellers(s0.threads, ts, c);
    forall i | 0 <= i < |ts| ensures ts[i] in s0.threads && NotStarted(s0.threads[ts[i]]) {
      assert TravelsAt(s0.threads, ts, c, i);
    }
  }

  /** A pipeline that is not among ts but leases a repository of the cycle. */
  predicate IsSpare(threads: map<Tid, Thread>, ts: seq<Tid>, c: seq<Key>, e: Tid)
    requires e in threads
  {
    e !in ts && (threads[e].job.TargetKey() in c || (threads[e].job.LeasesUpstream() && threads[e].job.UpstreamKey() in c))
  }

  ghost predicate HasSpare(threads: map<Tid, Thread>, ts: seq<Tid>, c: seq<Key>) {
    exists e :: e in threads && IsSpare(threads, ts, c, e)
  }

  lemma KeyOnCycle(threads: map<Tid, Thread>, ts: seq<Tid>, c: seq<Key>, k: Key) returns (j: nat)
    requires Travels(threads, ts, c) && k in c
    ensures j < |ts| && c[j] == k
  {
    var i :| 0 <= i < |c| && c[i] == k;
    j := if i == |ts| then 0 else i;
  }

  /** One more pipeline that goes to a repository of the cycle, run to its end first, leaves that one cached. */
  lemma WarmUpTarget(s0: State, e: Tid, ts: seq<Tid>, c: seq<Key>) returns (labels: seq<Label>, ts': seq<Tid>, c': seq<Key>)
    requires IsInitial(s0) && s0.capacity >= 2 && s0.capacity < |ts| && Travels(s0.threads, ts, c)
    requires e in s0.threads && e !in ts && s0.threads[e].job.TargetKey() in c
    ensures Runs(s0, labels) && Travels(s0.threads, ts', c') && Ready(s0, After(s0, labels), ts', c')
  {
    var j := KeyOnCycle(s0.threads, ts, c, s0.threads[e].job.TargetKey());
    ts', c' := Rotate(s0.threads, ts, c, j);
    labels := WarmsTarget(s0, e);
    WarmIsReady(s0, After(s0, labels), e, s0.nextHandle, ts', c');
  }

  /** So does one that comes from there. */
  lemma WarmUpUpstream(s0: State, e: Tid, ts: seq<Tid>, c: seq<Key>) returns (labels: seq<Label>, ts': seq<Tid>, c': seq<Key>)
    requires IsInitial(s0) && s0.capacity >= 2 && s0.capacity < |ts| && Travels(s0.threads, ts, c)
    requires e in s0.threads && e !in ts && s0.threads[e].job.TargetKey() !in c
    requires s0.threads[e].job.LeasesUpstream() && s0.threads[e].job.UpstreamKey() in c
    ensures Runs(s0, labels) && Travels(s0.threads, ts', c') && Ready(s0, After(s0, labels), ts', c')
  {
    var j := KeyOnCycle(s0.threads, ts, c, s0.threads[e].job.UpstreamKey());
    ts', c' := Rotate(s0.threads, ts, c, j);
    var h;
    labels, h := WarmsUpstream(s0, e);
    WarmIsReady(s0, After(s0, labels), e, h, ts', c');
  }

  /**
   The pipelines around a cycle can block each other for good in a cache that has room for
   the cycle; and in any cache of two entries or more once another pipeline has used one of
   its repositories, which keeps that one cached while the others come and go.
   */
  lemma {:induction false} CycleGetsStuck(s0: State, ts: seq<Tid>, c: seq<Key>) returns (labels: seq<Label>)
    requires IsInitial(s0) && s0.capacity >= 2 && Travels(s0.threads, ts, c)
    requires |ts| <= s0.capacity || HasSpare(s0.threads, ts, c)
    ensures StuckAfter(s0, labels)
  {
    InitialInv(s0);
    var before, ts', c' := [], ts, c;
    if |ts| <= s0.capacity {
      InitialIsReady(s0, ts, c);
    } else {
      var e :| e in s0.threads && IsSpare(s0.threads, ts, c, e);
      if s0.threads[e].job.TargetKey() in c {
        before, ts', c' := WarmUpTarget(s0, e, ts, c);
      } else {
        before, ts', c' := WarmUpUpstream(s0, e, ts, c);
      }
    }
    RunKeepsInv(s0, before);
    var more := ReadyGetsStuck(s0, After(s0, before), ts', c');
    RunsConcat(s0, before, more);
    labels := before + more;
  }

  function Targets(threads: map<Tid, Thread>): set<Key> {
    set t | t in threads :: threads[t].job.TargetKey()
  }

  /** For each pipeline with an upstream there is another one for the same job. */
  ghost predicate ComeTwice(threads: map<Tid, Thread>) {
    forall t {:trigger HasTwin(threads, t)} :: t in threads && threads[t].job.LeasesUpstream() ==> HasTwin(threads, t)
  }

  ghost predicate HasTwin(threads: map<Tid, Thread>, t: Tid)
    requires t in threads
  {
    exists u :: u in threads && SameJobAs(threads, t, u)
  }

  predicate SameJobAs(threads: map<Tid, Thread>, t: Tid, u: Tid)
    requires t in threads && u in threads
  {
    u != t && threads[u].job == threads[t].job
  }

  lemma TravellersFit(threads: map<Tid, Thread>, ts: seq<Tid>, c: seq<Key>)
    requires Travels(threads, ts, c)
    ensures |ts| <= |Targets(threads)|
  {
    forall k | k in c[..|ts|] ensures k in Targets(threads) {
      var i :| 0 <= i < |ts| && c[i] == k;
      assert TravelsAt(threads, ts, c, i);
    }
    Pigeonhole(c[..|ts|], Targets(threads));
  }

  lemma SpareTraveller(threads: map<Tid, Thread>, ts: seq<Tid>, c: seq<Key>)
    requires Travels(threads, ts, c) && ComeTwice(threads)
    ensures HasSpare(threads, ts, c)
  {
    var last := |ts| - 1;
    assert TravelsAt(threads, ts, c, last);
    assert HasTwin(threads, ts[last]);
    var e :| e in threads && SameJobAs(threads, ts[last], e);
    forall i | 0 <= i < |ts| ensures ts[i] != e {
      assert TravelsAt(threads, ts, c, i);
      if i != last { TravellersDistinct(threads, ts, c, i, last); }
    }
    assert IsSpare(threads, ts, c, e);
  }

  /**
   Pipelines can come to a standstill exactly when their target-to-upstream edges form a
   cycle and the cache has two entries or more: so for a cache with room for every target, and
   for a cache of any size when each kind of pipeline comes twice.
   */
  lemma StuckExactlyOnCycles(s0: State)
    requires IsInitial(s0)
    requires |Targets(s0.threads)| <= s0.capacity || ComeTwice(s0.threads)
    ensures CanGetStuck(s0) <==> s0.capacity >= 2 && HasCycle(EdgesOf(s0.threads))
  {
    if labels :| StuckAfter(s0, labels) {
      StuckNeedsCycle(s0, labels);
    }
    if s0.capacity >= 2 && HasCycle(EdgesOf(s0.threads)) {
      var ts, c := SimpleTravellers(s0.threads);
      TravellersFit(s0.threads, ts, c);
      if ComeTwice(s0.threads) { SpareTraveller(s0.threads, ts, c); }
      var labels := CycleGetsStuck(s0, ts, c);
      assert StuckAfter(s0, labels);
    }
  }

  lemma SimpleTravellers(threads: map<Tid, Thread>) returns (ts: seq<Tid>, c: seq<Key>)
    requires HasCycle(EdgesOf(threads))
    ensures Travels(threads, ts, c)
  {
    var c0 :| IsCycle(EdgesOf(threads), c0);
    c := Simplify(EdgesOf(threads), c0);
    ts := CycleTravellers(threads, c, |c| - 1);
  }

  /** Whatever the cache and the pipelines, a standstill takes a cycle and two entries. */
  lemma StuckNeedsCycle(s0: State, labels: seq<Label>)
    requires IsInitial(s0) && StuckAfter(s0, labels)
    ensures s0.capacity >= 2 && HasCycle(EdgesOf(s0.threads))
  {
    InitialInv(s0);
    RunKeepsInv(s0, labels);
    RunKeepsJobs(s0, labels);
    if s0.capacity == 1 { OneEntryNeverStuck(s0, labels); }
    var s := After(s0, labels);
    StuckMakesCycle(s);
    assert EdgesOf(Flying(s)) <= EdgesOf(s0.threads);
    var c :| IsCycle(EdgesOf(Flying(s)), c);
    assert IsCycle(EdgesOf(s0.threads), c);
  }
}
