/**
 Exactly which pipelines can come to a standstill with which cache: those around a cycle that
 fits in the cache, and those around any cycle of which some repository is leased by one
 pipeline more. Without that one, an entry of the cycle is looked up twice before anything can
 force it out, and by then all others have been looked up, too.
 */
module Standstill {
  import opened Common
  import opened Walking
  import opened Leases
  import opened Deadlock
  import Lfu

  // ---------- blocked pipelines wait in a circle ----------

  /** From every pipeline that waits for its upstream to the one that holds it. */
  ghost function WaitEdges(s: State): Edges<Tid> {
    set t | t in s.threads && AwaitsUpstream(s, t) && WaitsForOwned(s, t) :: (t, HolderOf(s, t))
  }

  predicate WaitsForOwned(s: State, t: Tid)
    requires t in s.threads && s.threads[t].phase.Waiting?
  {
    s.threads[t].phase.handle in s.handles && s.handles[s.threads[t].phase.handle].owner.Some?
  }

  function HolderOf(s: State, t: Tid): Tid
    requires t in s.threads && s.threads[t].phase.Waiting? && WaitsForOwned(s, t)
  {
    s.handles[s.threads[t].phase.handle].owner.value
  }

  lemma WaiterHasHolder(s: State, t: Tid)
    requires Inv(s) && Stuck(s) && AwaitsUpstream(s, t)
    ensures WaitsForOwned(s, t) && AwaitsUpstream(s, HolderOf(s, t))
    ensures (t, HolderOf(s, t)) in WaitEdges(s)
    ensures var u := s.threads[HolderOf(s, t)];
      && u.target.Some? && u.target.value.handle == s.threads[t].phase.handle
      && u.job.TargetKey() == s.threads[t].job.UpstreamKey()
  {
    OwnerWaitsForUpstream(s, t);
  }

  /** Each of ts holds its target under the handle in hs and waits for the next one's. */
  ghost predicate WaitCycle(s: State, ts: seq<Tid>, hs: seq<Handle>) {
    && 0 < |ts| == |hs| && NoDuplicates(ts)
    && forall i :: 0 <= i < |ts| ==> WaitsAt(s, ts, hs, i)
  }

  ghost predicate WaitsAt(s: State, ts: seq<Tid>, hs: seq<Handle>, i: nat)
    requires i < |ts| == |hs|
  {
    && QueuesFor(s, ts[i], hs[i], hs[Around(i, |ts|)])
    && ts[Around(i, |ts|)] in s.threads && s.threads[ts[i]].job.LeasesUpstream()
    && s.threads[ts[i]].job.UpstreamKey() == s.threads[ts[Around(i, |ts|)]].job.TargetKey()
  }

  ghost function Waiters(s: State): set<Tid> {
    set t | t in s.threads && AwaitsUpstream(s, t)
  }

  lemma SomeWaiter(s: State)
    requires Inv(s) && Stuck(s)
    ensures Waiters(s) != {}
  {
    var t :| t in s.threads && InFlight(s.threads[t]);
    OwnerWaitsForUpstream(s, t);
    assert s.handles[s.threads[t].phase.handle].owner.value in Waiters(s);
  }

  lemma StuckHasWaitCycle(s: State) returns (ts: seq<Tid>, hs: seq<Handle>)
    requires Inv(s) && Stuck(s)
    ensures WaitCycle(s, ts, hs)
  {
    SomeWaiter(s);
    forall u | u in Waiters(s) ensures HasSuccessor(WaitEdges(s), Waiters(s), u) {
      WaiterHasHolder(s, u);
      assert HolderOf(s, u) in Waiters(s);
    }
    SuccessorsMakeCycle(WaitEdges(s), Waiters(s));
    var c :| IsCycle(WaitEdges(s), c);
    var w := Simplify(WaitEdges(s), c);
    ts, hs := CycleWaits(s, w);
  }

  lemma CycleWaits(s: State, w: seq<Tid>) returns (ts: seq<Tid>, hs: seq<Handle>)
    requires Inv(s) && Stuck(s) && IsSimpleCycle(WaitEdges(s), w)
    ensures WaitCycle(s, ts, hs)
  {
    var m := |w| - 1;
    ts := w[..m];
    forall i | 0 <= i < m ensures AwaitsUpstream(s, w[i]) && WaitsForOwned(s, w[i]) && HolderOf(s, w[i]) == w[i + 1] {
      assert (w[i], w[i + 1]) in WaitEdges(s);
    }
    assert forall i :: 0 <= i < m ==> ts[i] == w[i];
    forall i | 0 <= i < m ensures AwaitsUpstream(s, ts[i]) && s.threads[ts[i]].target.Some? {
      assert ThreadOk(s, s.threads[ts[i]]);
    }
    hs := seq(m, i requires 0 <= i < m => s.threads[ts[i]].target.value.handle);
    forall i | 0 <= i < m ensures WaitsAt(s, ts, hs, i) {
      var next := Around(i, m);
      assert w[i + 1] == ts[next];
      WaiterHasHolder(s, ts[i]);
    }
  }

  // ---------- a circle that meets no repository twice, or a pipeline to spare ----------

  function KeysOf(threads: map<Tid, Thread>, ts: seq<Tid>): seq<Key>
    requires forall t :: t in ts ==> t in threads
  {
    seq(|ts|, i requires 0 <= i < |ts| => threads[ts[i]].job.TargetKey())
  }

  /** ts go around repositories, the last one's upstream being the first one's target; two of them may share one. */
  ghost predicate GoAround(threads: map<Tid, Thread>, ts: seq<Tid>) {
    && |ts| > 0 && NoDuplicates(ts) && (forall t :: t in ts ==> t in threads)
    && forall i :: 0 <= i < |ts| ==> GoesTo(threads, ts[i], ts[Around(i, |ts|)])
  }

  predicate GoesTo(threads: map<Tid, Thread>, t: Tid, u: Tid)
    requires t in threads && u in threads
  {
    threads[t].job.LeasesUpstream() && threads[t].job.UpstreamKey() == threads[u].job.TargetKey()
  }

  lemma DistinctTravel(threads: map<Tid, Thread>, ts: seq<Tid>)
    requires GoAround(threads, ts) && NoDuplicates(KeysOf(threads, ts))
    ensures Travels(threads, ts, KeysOf(threads, ts) + [KeysOf(threads, ts)[0]])
  {
    var keys := KeysOf(threads, ts);
    var c := keys + [keys[0]];
    assert c[..|ts|] == keys;
    forall i | 0 <= i < |ts| ensures TravelsAt(threads, ts, c, i) {
      assert ts[i] in ts && GoesTo(threads, ts[i], ts[Around(i, |ts|)]);
      assert c[i + 1] == keys[Around(i, |ts|)];
    }
  }

  lemma {:induction false} FirstRepeat(keys: seq<Key>, i: nat, j: nat) returns (x: nat, y: nat)
    requires i < j < |keys| && keys[i] == keys[j]
    ensures x < y < |keys| && keys[x] == keys[y] && NoDuplicates(keys[x..y])
    decreases j - i
  {
    if NoDuplicates(keys[i..j]) {
      x, y := i, j;
    } else {
      var a, b :| 0 <= a < b < |keys[i..j]| && keys[i..j][a] == keys[i..j][b];
      x, y := FirstRepeat(keys, i + a, i + b);
    }
  }

  /** Where a repository is met twice, the way between is a cycle, and the one who meets it again is to spare. */
  lemma RepeatHasSpare(threads: map<Tid, Thread>, ts: seq<Tid>, x: nat, y: nat)
    requires GoAround(threads, ts) && x < y < |ts|
    requires KeysOf(threads, ts)[x] == KeysOf(threads, ts)[y] && NoDuplicates(KeysOf(threads, ts)[x..y])
    ensures Travels(threads, ts[x..y], KeysOf(threads, ts)[x..y + 1])
    ensures HasSpare(threads, ts[x..y], KeysOf(threads, ts)[x..y + 1])
  {
    var keys := KeysOf(threads, ts);
    var us, c := ts[x..y], keys[x..y + 1];
    assert c[..|us|] == keys[x..y];
    forall i | 0 <= i < |us| ensures TravelsAt(threads, us, c, i) {
      assert us[i] == ts[x + i] && ts[x + i] in ts;
      assert Around(x + i, |ts|) == x + i + 1 && GoesTo(threads, ts[x + i], ts[Around(x + i, |ts|)]);
      assert c[i] == keys[x + i] && c[i + 1] == keys[x + i + 1];
    }
    var e := ts[y];
    assert e in ts && c[y - x] == threads[e].job.TargetKey();
    assert IsSpare(threads, us, c, e);
  }

  // ---------- lookups ----------

  /** The pipeline has looked this key up; one that has returned may not have looked its upstream up. */
  predicate Looked(th: Thread, k: Key) {
    && th.phase != Idle
    && (th.job.TargetKey() == k || (th.job.LeasesUpstream() && th.job.UpstreamKey() == k && !BeforeUpstream(th.phase)))
  }

  predicate BeforeUpstream(phase: Phase) {
    phase == Idle || phase == NeedsUpstream || ((phase.Waiting? || phase.Filling?) && phase.stage == Target)
  }

  ghost function Lookers(s: State, k: Key): set<Tid> {
    set t | t in s.threads && Looked(s.threads[t], k)
  }

  /** Each lookup counts once. */
  ghost predicate CountsOk(s: State) {
    forall k :: k in s.cache ==> s.cache[k].useCount <= |Lookers(s, k)|
  }

  lemma LookersGrow(s: State, l: Label, k: Key)
    requires Enabled(s, l) && ThreadsOk(s)
    ensures Lookers(s, k) <= Lookers(Apply(s, l), k)
  {
    StepKeepsJobs(s, l);
    forall t | t in Lookers(s, k) ensures t in Lookers(Apply(s, l), k) {
      if t != l.t { OthersStay(s, l, t); } else { MoverLooked(s, l, k); }
    }
  }

  lemma MoverLooked(s: State, l: Label, k: Key)
    requires Enabled(s, l) && Looked(s.threads[l.t], k)
    ensures Looked(Apply(s, l).threads[l.t], k)
  {
  }

  /** A pipeline looks its two keys up once each. */
  lemma NewLooker(s: State, t: Tid, victim: Option<Key>)
    requires Enabled(s, Acquire(t, victim)) && ThreadsOk(s)
    ensures t !in Lookers(s, NextKey(s.threads[t]))
    ensures t in Lookers(Apply(s, Acquire(t, victim)), NextKey(s.threads[t]))
  {
    var th := s.threads[t];
    assert ThreadOk(s, th);
    CacheKeyInjective(th.job.targetRepository, th.job.upstreamRepository, th.job.upstreamBranch);
  }

  lemma LookupCounts(s: State, key: Key, victim: Option<Key>)
    requires Evicts(s, key, victim)
    ensures var after := LookedUp(s, key, victim);
      && (forall k :: k in after && k != key ==> k in s.cache && after[k].useCount <= s.cache[k].useCount)
      && (key in after ==> after[key].useCount <= (if key in s.cache then s.cache[key].useCount else 0) + 1)
  {
  }

  lemma StepCounts(s: State, l: Label)
    requires Enabled(s, l) && ThreadsOk(s) && CountsOk(s)
    ensures CountsOk(Apply(s, l))
  {
    var s' := Apply(s, l);
    forall k | k in s'.cache ensures s'.cache[k].useCount <= |Lookers(s', k)| {
      LookersGrow(s, l, k);
      SubsetSize(Lookers(s, k), Lookers(s', k));
      if l.Acquire? {
        LookupCounts(s, NextKey(s.threads[l.t]), l.victim);
        if k == NextKey(s.threads[l.t]) {
          NewLooker(s, l.t, l.victim);
          SubsetSize(Lookers(s, k) + {l.t}, Lookers(s', k));
        }
      }
    }
  }

  /** Few pipelines never make the counters age. */
  const PIPELINES: nat := 0xffff

  ghost predicate Usual(s0: State, s: State) {
    && Inv(s) && SameJobs(s0, s) && CountsOk(s) && |s.cache| <= s.capacity && |s.threads| < PIPELINES
  }

  lemma LowCounts(s: State)
    requires CountsOk(s) && |s.threads| < PIPELINES
    ensures forall k :: k in s.cache ==> s.cache[k].useCount + 1 < Lfu.USE_COUNT_CAP
  {
    forall k | k in s.cache ensures |Lookers(s, k)| <= |s.threads| {
      SubsetSize(Lookers(s, k), s.threads.Keys);
      assert |s.threads| == |s.threads.Keys|;
    }
  }

  lemma StepSize(s: State, l: Label)
    requires Enabled(s, l) && s.capacity > 0 && |s.cache| <= s.capacity && CountsOk(s) && |s.threads| < PIPELINES
    ensures |Apply(s, l).cache| <= s.capacity
  {
    LowCounts(s);
    match l
    case Acquire(t, victim) =>
      var key := NextKey(s.threads[t]);
      LookupIsLoadOrStore(s, key, victim);
      Lfu.StepKeepsBounds(s.cache, s.capacity, Lfu.Op.LoadOrStore(key, s.nextHandle),
                          if key in s.cache then Some(s.cache[key].value) else None, LookedUp(s, key, victim));
    case GiveUp(t) =>
      assert Apply(s, l).cache.Keys <= s.cache.Keys;
      SubsetSize(Apply(s, l).cache.Keys, s.cache.Keys);
      assert |Apply(s, l).cache| == |Apply(s, l).cache.Keys| && |s.cache| == |s.cache.Keys|;
    case _ =>
  }

  lemma StepUsual(s0: State, s: State, l: Label)
    requires Usual(s0, s) && Enabled(s, l)
    ensures Usual(s0, Apply(s, l))
  {
    StepKeepsInv(s, l);
    StepKeepsJobs(s, l);
    StepCounts(s, l);
    StepSize(s, l);
    assert |Apply(s, l).threads| == |Apply(s, l).threads.Keys| && |s.threads| == |s.threads.Keys|;
  }

  lemma InitialUsual(s0: State)
    requires IsInitial(s0) && |s0.threads| < PIPELINES
    ensures Usual(s0, s0)
  {
    InitialInv(s0);
  }

  // ---------- a cycle nobody else touches ----------

  /** The handle the pipeline has found for its target. */
  function TargetHandle(th: Thread): Option<Handle> {
    if (th.phase.Waiting? || th.phase.Filling?) && th.phase.stage == Target then Some(th.phase.handle)
    else if th.target.Some? then Some(th.target.value.handle)
    else None
  }

  /** The handle the pipeline has found for its upstream, while it waits for it. */
  function UpstreamHandle(th: Thread): Option<Handle> {
    if th.phase.Waiting? && th.phase.stage == Upstream then Some(th.phase.handle) else None
  }

  /** The pipeline has got further, and will not wait for its upstream any more. */
  predicate Beyond(th: Thread) {
    (th.phase.Filling? && th.phase.stage == Upstream) || th.phase == Working || th.phase == Unwinding || th.phase == Finished
  }

  function Before(i: nat, n: nat): (prev: nat)
    requires i < n
    ensures prev < n && Around(prev, n) == i
  {
    if i == 0 then n - 1 else i - 1
  }

  /** The handles found for repository i of the cycle: by the one that goes there, and by the one that comes from there. */
  function FoundAsTarget(s: State, ts: seq<Tid>, i: nat): Option<Handle>
    requires i < |ts| && ts[i] in s.threads
  {
    TargetHandle(s.threads[ts[i]])
  }

  function FoundAsUpstream(s: State, ts: seq<Tid>, i: nat): Option<Handle>
    requires i < |ts| && ts[Before(i, |ts|)] in s.threads
  {
    UpstreamHandle(s.threads[ts[Before(i, |ts|)]])
  }

  ghost predicate AllIn(s: State, ts: seq<Tid>) {
    forall i :: 0 <= i < |ts| ==> ts[i] in s.threads
  }

  predicate CachedWith(cache: Cache, k: Key, h: Handle, uses: nat) {
    k in cache && cache[k] == Lfu.Entry(h, uses)
  }

  /** What has been looked up is cached since, with as many uses as lookups, and the two lookups found the same. */
  predicate KeyIntact(cache: Cache, k: Key, found: Option<Handle>, other: Option<Handle>) {
    match (found, other)
    case (None, None) => k !in cache
    case (Some(h), None) => CachedWith(cache, k, h, 1)
    case (None, Some(h)) => CachedWith(cache, k, h, 1)
    case (Some(h), Some(g)) => h == g && CachedWith(cache, k, h, 2)
  }

  /** Two lookups have found different handles, or the second one will. */
  predicate KeyBroken(cache: Cache, k: Key, found: Option<Handle>, other: Option<Handle>) {
    match (found, other)
    case (None, None) => false
    case (Some(h), None) => !IsCached(cache, k, h)
    case (None, Some(h)) => !IsCached(cache, k, h)
    case (Some(h), Some(g)) => h != g
  }

  ghost predicate IntactAt(s: State, ts: seq<Tid>, c: seq<Key>, i: nat)
    requires i < |ts| < |c| && AllIn(s, ts)
  {
    !Beyond(s.threads[ts[i]]) && KeyIntact(s.cache, c[i], FoundAsTarget(s, ts, i), FoundAsUpstream(s, ts, i))
  }

  ghost predicate BrokenAt(s: State, ts: seq<Tid>, c: seq<Key>, i: nat)
    requires i < |ts| < |c| && AllIn(s, ts)
  {
    Beyond(s.threads[ts[i]]) || KeyBroken(s.cache, c[i], FoundAsTarget(s, ts, i), FoundAsUpstream(s, ts, i))
  }

  ghost predicate Intact(s: State, ts: seq<Tid>, c: seq<Key>)
    requires |ts| < |c| && AllIn(s, ts)
  {
    forall i :: 0 <= i < |ts| ==> IntactAt(s, ts, c, i)
  }

  ghost predicate Broken(s: State, ts: seq<Tid>, c: seq<Key>)
    requires |ts| < |c| && AllIn(s, ts)
  {
    exists i :: 0 <= i < |ts| && BrokenAt(s, ts, c, i)
  }

  /** A cycle of pipelines, no other pipeline leasing any of its repositories. */
  ghost predicate Lonely(threads: map<Tid, Thread>, ts: seq<Tid>, c: seq<Key>) {
    Travels(threads, ts, c) && !HasSpare(threads, ts, c)
  }

  // ---------- a lookup of another key ----------

  /** A lookup changes the entry of its own key and removes its victim. */
  lemma LookupEffect(s: State, key: Key, victim: Option<Key>)
    requires Evicts(s, key, victim) && CountsOk(s) && |s.threads| < PIPELINES
    ensures var after := LookedUp(s, key, victim);
      && (forall k :: k in after && k != key ==> k in s.cache && after[k] == s.cache[k])
      && (forall k :: k in s.cache && k != key && victim != Some(k) ==> k in after)
      && (victim.Some? ==> victim.value in s.cache && victim.value != key && victim.value !in after)
      && key in after
      && after[key] == (if key in s.cache then Lfu.Entry(s.cache[key].value, s.cache[key].useCount + 1) else Lfu.Entry(s.nextHandle, 1))
  {
    LowCounts(s);
  }

  lemma VictimIsLeast(s: State, key: Key, victim: Option<Key>, k: Key)
    requires Evicts(s, key, victim) && CountsOk(s) && |s.threads| < PIPELINES && victim.Some? && k in s.cache && k != key
    ensures victim.value in s.cache && s.cache[victim.value].useCount <= s.cache[k].useCount
  {
    LowCounts(s);
    var stored := Stored(s.cache, key, s.nextHandle);
    assert stored[k] == s.cache[k] && stored[victim.value] == s.cache[victim.value];
  }

  // ---------- while anything is unknown, something is half known ----------

  /** Who waits for its upstream has found its target. */
  lemma TargetFirst(s: State, t: Tid)
    requires ThreadsOk(s) && t in s.threads && !Beyond(s.threads[t])
    ensures UpstreamHandle(s.threads[t]).Some? ==> TargetHandle(s.threads[t]).Some?
  {
    assert ThreadOk(s, s.threads[t]);
  }

  predicate Unknown(s: State, ts: seq<Tid>, i: nat)
    requires i < |ts| && ts[i] in s.threads && ts[Before(i, |ts|)] in s.threads
  {
    FoundAsTarget(s, ts, i) == None && FoundAsUpstream(s, ts, i) == None
  }

  predicate HalfKnown(s: State, ts: seq<Tid>, i: nat)
    requires i < |ts| && ts[i] in s.threads && ts[Before(i, |ts|)] in s.threads
  {
    FoundAsTarget(s, ts, i).Some? != FoundAsUpstream(s, ts, i).Some?
  }

  lemma UnknownGoesOn(s: State, ts: seq<Tid>, c: seq<Key>, i: nat)
    requires ThreadsOk(s) && AllIn(s, ts) && |ts| < |c| && Intact(s, ts, c) && i < |ts|
    requires Unknown(s, ts, i) && !HalfKnown(s, ts, Around(i, |ts|))
    ensures Unknown(s, ts, Around(i, |ts|))
  {
    assert IntactAt(s, ts, c, i);
    TargetFirst(s, ts[i]);
    assert Before(Around(i, |ts|), |ts|) == i;
  }

  lemma {:induction false} UnknownUpTo(s: State, ts: seq<Tid>, c: seq<Key>, i: nat, j: nat)
    requires ThreadsOk(s) && AllIn(s, ts) && |ts| < |c| && Intact(s, ts, c) && i <= j < |ts|
    requires Unknown(s, ts, i) && forall o :: 0 <= o < |ts| ==> !HalfKnown(s, ts, o)
    ensures Unknown(s, ts, j)
    decreases j - i
  {
    if i < j {
      UnknownGoesOn(s, ts, c, i);
      UnknownUpTo(s, ts, c, i + 1, j);
    }
  }

  /** Around the cycle, from a repository nobody has looked up to one that two have, there is one that one has. */
  lemma SomeHalfKnown(s: State, ts: seq<Tid>, c: seq<Key>, k: nat, j: nat) returns (o: nat)
    requires ThreadsOk(s) && AllIn(s, ts) && |ts| < |c| && Intact(s, ts, c) && k < |ts| && j < |ts|
    requires Unknown(s, ts, k) && !Unknown(s, ts, j)
    ensures o < |ts| && HalfKnown(s, ts, o)
  {
    if forall x :: 0 <= x < |ts| ==> !HalfKnown(s, ts, x) {
      UnknownUpTo(s, ts, c, k, |ts| - 1);
      UnknownGoesOn(s, ts, c, |ts| - 1);
      UnknownUpTo(s, ts, c, 0, j);
    }
    var x :| 0 <= x < |ts| && HalfKnown(s, ts, x);
    o := x;
  }

  /** A cache too small for the cycle leaves some repository unknown. */
  lemma SomeUnknown(s: State, threads: map<Tid, Thread>, ts: seq<Tid>, c: seq<Key>) returns (k: nat)
    requires Travels(threads, ts, c) && AllIn(s, ts) && Intact(s, ts, c)
    requires |s.cache| <= s.capacity < |ts|
    ensures k < |ts| && Unknown(s, ts, k)
  {
    assert |s.cache| == |s.cache.Keys|;
    if forall i :: 0 <= i < |ts| ==> !Unknown(s, ts, i) {
      forall x | x in c[..|ts|] ensures x in s.cache.Keys {
        var i :| 0 <= i < |ts| && c[i] == x;
        assert IntactAt(s, ts, c, i) && !Unknown(s, ts, i);
      }
      Pigeonhole(c[..|ts|], s.cache.Keys);
    }
    var x :| 0 <= x < |ts| && Unknown(s, ts, x);
    k := x;
  }

  // ---------- what a step does to the handles found ----------

  lemma StrangerKeys(threads: map<Tid, Thread>, ts: seq<Tid>, c: seq<Key>, t: Tid)
    requires Lonely(threads, ts, c) && t in threads && t !in ts
    ensures threads[t].job.TargetKey() !in c
    ensures threads[t].job.LeasesUpstream() ==> threads[t].job.UpstreamKey() !in c
  {
    assert !IsSpare(threads, ts, c, t);
  }

  /** Once found, a handle stays found until the pipeline is beyond waiting. */
  lemma MoverKeeps(s: State, l: Label)
    requires Enabled(s, l) && s.threads[l.t].job.LeasesUpstream() && ThreadOk(s, s.threads[l.t])
    ensures var th, th' := s.threads[l.t], Apply(s, l).threads[l.t];
      || Beyond(th')
      || (&& !Beyond(th)
          && (TargetHandle(th).Some? ==> TargetHandle(th') == TargetHandle(th))
          && (UpstreamHandle(th).Some? ==> UpstreamHandle(th') == UpstreamHandle(th)))
  {
  }

  /** Other actions than lookups find nothing. */
  lemma QuietMover(s: State, l: Label)
    requires Enabled(s, l) && s.threads[l.t].job.LeasesUpstream() && ThreadOk(s, s.threads[l.t]) && !l.Acquire?
    ensures var th, th' := s.threads[l.t], Apply(s, l).threads[l.t];
      Beyond(th') || (TargetHandle(th') == TargetHandle(th) && UpstreamHandle(th') == UpstreamHandle(th))
  {
  }

  /** They leave the entries of the cycle alone. */
  lemma QuietCache(s: State, l: Label, ts: seq<Tid>, c: seq<Key>, k: Key)
    requires Enabled(s, l) && !l.Acquire? && Lonely(s.threads, ts, c) && k in c && ThreadOk(s, s.threads[l.t])
    ensures l.t in ts ==> Beyond(Apply(s, l).threads[l.t]) || Apply(s, l).cache == s.cache
    ensures l.t !in ts ==> (k in Apply(s, l).cache <==> k in s.cache) && (k in s.cache ==> Apply(s, l).cache[k] == s.cache[k])
  {
    if l.t !in ts { StrangerKeys(s.threads, ts, c, l.t); }
  }

  lemma LonelyStays(s: State, l: Label, ts: seq<Tid>, c: seq<Key>)
    requires Enabled(s, l) && Lonely(s.threads, ts, c)
    ensures Lonely(Apply(s, l).threads, ts, c) && AllIn(s, ts) && AllIn(Apply(s, l), ts)
  {
    StepKeepsJobs(s, l);
    var s' := Apply(s, l);
    forall i | 0 <= i < |ts| ensures TravelsAt(s'.threads, ts, c, i) && ts[i] in s.threads { assert TravelsAt(s.threads, ts, c, i); }
    forall e | e in s'.threads ensures !IsSpare(s'.threads, ts, c, e) { assert !IsSpare(s.threads, ts, c, e); }
  }

  lemma LonelyLeases(threads: map<Tid, Thread>, ts: seq<Tid>, c: seq<Key>, i: nat)
    requires Travels(threads, ts, c) && i < |ts|
    ensures ts[i] in threads && threads[ts[i]].job.LeasesUpstream()
    ensures threads[ts[i]].job.TargetKey() == c[i] && threads[ts[i]].job.UpstreamKey() == c[Around(i, |ts|)]
    ensures c[i] in c
  {
    assert TravelsAt(threads, ts, c, i);
  }

  /** A pipeline of the cycle finds nothing, or gets beyond. */
  lemma QuietFound(s: State, l: Label, ts: seq<Tid>, c: seq<Key>, j: nat)
    requires ThreadsOk(s) && Enabled(s, l) && !l.Acquire? && Travels(s.threads, ts, c) && j < |ts|
    requires AllIn(s, ts) && AllIn(Apply(s, l), ts)
    ensures var th, th' := s.threads[ts[j]], Apply(s, l).threads[ts[j]];
      && (th' == th || Beyond(th') || (TargetHandle(th') == TargetHandle(th) && UpstreamHandle(th') == UpstreamHandle(th)))
      && (ts[j] != l.t ==> th' == th)
  {
    LonelyLeases(s.threads, ts, c, j);
    assert ThreadOk(s, s.threads[ts[j]]);
    if ts[j] == l.t { QuietMover(s, l); } else { OthersStay(s, l, ts[j]); }
  }

  lemma BeyondBreaks(s: State, ts: seq<Tid>, c: seq<Key>, t: Tid)
    requires AllIn(s, ts) && |ts| < |c| && t in ts && Beyond(s.threads[t])
    ensures Broken(s, ts, c)
  {
    var i :| 0 <= i < |ts| && ts[i] == t;
    assert BrokenAt(s, ts, c, i);
  }

  lemma QuietKeepsKey(s0: State, s: State, l: Label, ts: seq<Tid>, c: seq<Key>, i: nat)
    requires Usual(s0, s) && Enabled(s, l) && !l.Acquire? && Lonely(s.threads, ts, c) && AllIn(s, ts) && AllIn(Apply(s, l), ts)
    requires i < |ts| && IntactAt(s, ts, c, i)
    ensures IntactAt(Apply(s, l), ts, c, i) || Broken(Apply(s, l), ts, c)
  {
    var s', prev := Apply(s, l), Before(i, |ts|);
    if l.t in ts && Beyond(s'.threads[l.t]) {
      BeyondBreaks(s', ts, c, l.t);
    } else {
      assert ThreadOk(s, s.threads[l.t]);
      LonelyLeases(s.threads, ts, c, i);
      QuietCache(s, l, ts, c, c[i]);
      QuietFound(s, l, ts, c, i);
      QuietFound(s, l, ts, c, prev);
      assert ts[i] in ts && ts[prev] in ts;
      if Beyond(s'.threads[ts[i]]) { BeyondBreaks(s', ts, c, ts[i]); }
      if Beyond(s'.threads[ts[prev]]) { BeyondBreaks(s', ts, c, ts[prev]); }
    }
  }

  /** The next lookup of a pipeline of the cycle is for its target's key or for the next one's. */
  lemma OwnLookup(s: State, ts: seq<Tid>, c: seq<Key>, p: nat, victim: Option<Key>)
    requires Travels(s.threads, ts, c) && p < |ts| && ts[p] in s.threads && Enabled(s, Acquire(ts[p], victim))
    ensures NextKey(s.threads[ts[p]]) == if s.threads[ts[p]].phase == Idle then c[p] else c[Around(p, |ts|)]
  {
    LonelyLeases(s.threads, ts, c, p);
  }

  lemma AcquireElsewhere(s: State, t: Tid, victim: Option<Key>, ts: seq<Tid>, c: seq<Key>, i: nat)
    requires Enabled(s, Acquire(t, victim)) && ThreadsOk(s) && Lonely(s.threads, ts, c) && AllIn(s, ts)
    requires i < |ts| && NextKey(s.threads[t]) != c[i]
    ensures var s' := Apply(s, Acquire(t, victim));
      && AllIn(s', ts)
      && FoundAsTarget(s', ts, i) == FoundAsTarget(s, ts, i) && FoundAsUpstream(s', ts, i) == FoundAsUpstream(s, ts, i)
  {
    var l, prev := Acquire(t, victim), Before(i, |ts|);
    StepKeepsJobs(s, l);
    assert ThreadOk(s, s.threads[t]);
    if ts[i] == t { OwnLookup(s, ts, c, i, victim); } else { OthersStay(s, l, ts[i]); }
    if ts[prev] == t { OwnLookup(s, ts, c, prev, victim); } else { OthersStay(s, l, ts[prev]); }
  }

  /** What two have looked up is used more than what one has, so it is no victim while anything is unknown. */
  lemma KnownIsSpared(s0: State, s: State, t: Tid, victim: Option<Key>, ts: seq<Tid>, c: seq<Key>, i: nat)
    requires Usual(s0, s) && Enabled(s, Acquire(t, victim)) && Lonely(s.threads, ts, c) && AllIn(s, ts) && Intact(s, ts, c)
    requires s.capacity < |ts| && i < |ts| && !Unknown(s, ts, i) && !HalfKnown(s, ts, i)
    ensures victim != Some(c[i])
  {
    if victim == Some(c[i]) {
      var k := SomeUnknown(s, s.threads, ts, c);
      var o := SomeHalfKnown(s, ts, c, k, i);
      assert IntactAt(s, ts, c, i) && IntactAt(s, ts, c, o);
      VictimIsLeast(s, NextKey(s.threads[t]), victim, c[o]);
    }
  }

  lemma AcquireKeepsOtherKey(s0: State, s: State, t: Tid, victim: Option<Key>, ts: seq<Tid>, c: seq<Key>, i: nat)
    requires Usual(s0, s) && Enabled(s, Acquire(t, victim)) && Lonely(s.threads, ts, c) && AllIn(s, ts) && Intact(s, ts, c)
    requires s.capacity < |ts| && i < |ts| && NextKey(s.threads[t]) != c[i] && AllIn(Apply(s, Acquire(t, victim)), ts)
    ensures IntactAt(Apply(s, Acquire(t, victim)), ts, c, i) || BrokenAt(Apply(s, Acquire(t, victim)), ts, c, i)
  {
    AcquireElsewhere(s, t, victim, ts, c, i);
    LookupEffect(s, NextKey(s.threads[t]), victim);
    assert IntactAt(s, ts, c, i);
    if t != ts[i] { OthersStay(s, Acquire(t, victim), ts[i]); }
    if victim == Some(c[i]) && !Unknown(s, ts, i) && !HalfKnown(s, ts, i) {
      KnownIsSpared(s0, s, t, victim, ts, c, i);
    }
  }

  /** The one that goes to a repository looks it up: it finds what the other has found, or is the first. */
  lemma TargetLookup(s: State, victim: Option<Key>, ts: seq<Tid>, c: seq<Key>, i: nat)
    requires CountsOk(s) && |s.threads| < PIPELINES && ThreadsOk(s) && Travels(s.threads, ts, c) && AllIn(s, ts)
    requires i < |ts| && IntactAt(s, ts, c, i) && s.threads[ts[i]].phase == Idle && Enabled(s, Acquire(ts[i], victim))
    requires AllIn(Apply(s, Acquire(ts[i], victim)), ts)
    ensures IntactAt(Apply(s, Acquire(ts[i], victim)), ts, c, i)
  {
    var l, prev := Acquire(ts[i], victim), Before(i, |ts|);
    assert ThreadOk(s, s.threads[ts[i]]);
    OwnLookup(s, ts, c, i, victim);
    LookupEffect(s, c[i], victim);
    TwoTravellers(s.threads, ts, c);
    TravellersDistinct(s.threads, ts, c, i, prev);
    OthersStay(s, l, ts[prev]);
  }

  /** So does the one that comes from there. */
  lemma UpstreamLookup(s: State, victim: Option<Key>, ts: seq<Tid>, c: seq<Key>, i: nat)
    requires CountsOk(s) && |s.threads| < PIPELINES && ThreadsOk(s) && Travels(s.threads, ts, c) && AllIn(s, ts)
    requires i < |ts| && IntactAt(s, ts, c, i) && s.threads[ts[Before(i, |ts|)]].phase == NeedsUpstream
    requires Enabled(s, Acquire(ts[Before(i, |ts|)], victim)) && AllIn(Apply(s, Acquire(ts[Before(i, |ts|)], victim)), ts)
    ensures IntactAt(Apply(s, Acquire(ts[Before(i, |ts|)], victim)), ts, c, i)
  {
    var prev := Before(i, |ts|);
    var l := Acquire(ts[prev], victim);
    OwnLookup(s, ts, c, prev, victim);
    LookupEffect(s, c[i], victim);
    TwoTravellers(s.threads, ts, c);
    TravellersDistinct(s.threads, ts, c, i, prev);
    OthersStay(s, l, ts[i]);
  }

  lemma AcquireKeepsOwnKey(s0: State, s: State, t: Tid, victim: Option<Key>, ts: seq<Tid>, c: seq<Key>, i: nat)
    requires Usual(s0, s) && Enabled(s, Acquire(t, victim)) && Lonely(s.threads, ts, c) && AllIn(s, ts)
    requires i < |ts| && IntactAt(s, ts, c, i) && NextKey(s.threads[t]) == c[i] && AllIn(Apply(s, Acquire(t, victim)), ts)
    ensures IntactAt(Apply(s, Acquire(t, victim)), ts, c, i)
  {
    var p := OwnLooksUp(s, t, victim, ts, c, i);
    if s.threads[t].phase == Idle {
      TargetLookup(s, victim, ts, c, i);
    } else {
      UpstreamLookup(s, victim, ts, c, i);
    }
  }

  /** Who looks a key of the cycle up is one of its two pipelines. */
  lemma OwnLooksUp(s: State, t: Tid, victim: Option<Key>, ts: seq<Tid>, c: seq<Key>, i: nat) returns (p: nat)
    requires Enabled(s, Acquire(t, victim)) && ThreadsOk(s) && Lonely(s.threads, ts, c)
    requires i < |ts| && NextKey(s.threads[t]) == c[i]
    ensures p < |ts| && ts[p] == t && p == if s.threads[t].phase == Idle then i else Before(i, |ts|)
  {
    assert ThreadOk(s, s.threads[t]);
    LonelyLeases(s.threads, ts, c, i);
    if t !in ts { StrangerKeys(s.threads, ts, c, t); }
    p :| 0 <= p < |ts| && ts[p] == t;
    OwnLookup(s, ts, c, p, victim);
    WhoLooksUp(s.threads, ts, c, i, p, s.threads[t].phase == Idle);
  }

  lemma WhoLooksUp(threads: map<Tid, Thread>, ts: seq<Tid>, c: seq<Key>, i: nat, p: nat, target: bool)
    requires Travels(threads, ts, c) && i < |ts| && p < |ts| && c[i] == if target then c[p] else c[Around(p, |ts|)]
    ensures p == if target then i else Before(i, |ts|)
  {
    var q := if target then p else Around(p, |ts|);
    if q != i { TravellersDistinct(threads, ts, c, i, q); }
  }

  /** As long as nothing is broken, a step leaves all intact or breaks something. */
  lemma IntactStep(s0: State, s: State, l: Label, ts: seq<Tid>, c: seq<Key>)
    requires Usual(s0, s) && Enabled(s, l) && Lonely(s.threads, ts, c) && AllIn(s, ts) && Intact(s, ts, c) && s.capacity < |ts|
    requires AllIn(Apply(s, l), ts)
    ensures Intact(Apply(s, l), ts, c) || Broken(Apply(s, l), ts, c)
  {
    forall i | 0 <= i < |ts| ensures IntactAt(Apply(s, l), ts, c, i) || Broken(Apply(s, l), ts, c) {
      assert IntactAt(s, ts, c, i);
      if !l.Acquire? {
        QuietKeepsKey(s0, s, l, ts, c, i);
      } else if NextKey(s.threads[l.t]) == c[i] {
        AcquireKeepsOwnKey(s0, s, l.t, l.victim, ts, c, i);
      } else {
        AcquireKeepsOtherKey(s0, s, l.t, l.victim, ts, c, i);
      }
    }
  }

  // ---------- what is broken stays so ----------

  lemma FoundIsOld(s: State, t: Tid, h: Handle)
    requires ThreadsOk(s) && ReposOk(s) && t in s.threads
    requires TargetHandle(s.threads[t]) == Some(h) || UpstreamHandle(s.threads[t]) == Some(h)
    ensures h < s.nextHandle
  {
    assert ThreadOk(s, s.threads[t]);
  }

  /** A handle that is no longer cached never will be again. */
  lemma NeverCachedAgain(s: State, l: Label, k: Key, h: Handle)
    requires Enabled(s, l) && h < s.nextHandle && !IsCached(s.cache, k, h)
    ensures !IsCached(Apply(s, l).cache, k, h)
  {
  }

  /** A handle found now is another one. */
  lemma FindsAnother(s: State, t: Tid, victim: Option<Key>, h: Handle)
    requires Enabled(s, Acquire(t, victim)) && h < s.nextHandle && !IsCached(s.cache, NextKey(s.threads[t]), h)
    ensures var th := Apply(s, Acquire(t, victim)).threads[t];
      th.phase.Waiting? && th.phase.handle != h
  {
  }

  lemma BrokenTarget(s: State, l: Label, ts: seq<Tid>, c: seq<Key>, i: nat, h: Handle)
    requires ThreadsOk(s) && ReposOk(s) && Enabled(s, l) && Travels(s.threads, ts, c) && AllIn(s, ts) && AllIn(Apply(s, l), ts) && i < |ts|
    requires FoundAsTarget(s, ts, i) == None && FoundAsUpstream(s, ts, i) == Some(h) && !IsCached(s.cache, c[i], h)
    ensures var s' := Apply(s, l);
      Beyond(s'.threads[ts[i]]) || FoundAsTarget(s', ts, i) == None || FoundAsTarget(s', ts, i) != Some(h)
  {
    assert ThreadOk(s, s.threads[ts[i]]);
    FoundIsOld(s, ts[Before(i, |ts|)], h);
    LonelyLeases(s.threads, ts, c, i);
    if l.t != ts[i] {
      OthersStay(s, l, ts[i]);
    } else if l.Acquire? {
      OwnLookup(s, ts, c, i, l.victim);
      if s.threads[l.t].phase == Idle { FindsAnother(s, l.t, l.victim, h); }
    } else {
      QuietMover(s, l);
    }
  }

  lemma BrokenUpstream(s: State, l: Label, ts: seq<Tid>, c: seq<Key>, i: nat, h: Handle)
    requires ThreadsOk(s) && ReposOk(s) && Enabled(s, l) && Travels(s.threads, ts, c) && AllIn(s, ts) && AllIn(Apply(s, l), ts) && i < |ts|
    requires FoundAsTarget(s, ts, i) == Some(h) && FoundAsUpstream(s, ts, i) == None && !IsCached(s.cache, c[i], h)
    ensures var s' := Apply(s, l);
      Beyond(s'.threads[ts[Before(i, |ts|)]]) || FoundAsUpstream(s', ts, i) == None || FoundAsUpstream(s', ts, i) != Some(h)
  {
    var prev := Before(i, |ts|);
    assert ThreadOk(s, s.threads[ts[prev]]);
    FoundIsOld(s, ts[i], h);
    LonelyLeases(s.threads, ts, c, prev);
    if l.t != ts[prev] {
      OthersStay(s, l, ts[prev]);
    } else if l.Acquire? {
      OwnLookup(s, ts, c, prev, l.victim);
      if s.threads[l.t].phase != Idle { FindsAnother(s, l.t, l.victim, h); }
    } else {
      QuietMover(s, l);
    }
  }

  lemma StaysFound(s: State, l: Label, ts: seq<Tid>, c: seq<Key>, j: nat)
    requires ThreadsOk(s) && Enabled(s, l) && Travels(s.threads, ts, c) && AllIn(s, ts) && AllIn(Apply(s, l), ts) && j < |ts|
    ensures var th, th' := s.threads[ts[j]], Apply(s, l).threads[ts[j]];
      || Beyond(th')
      || (&& !Beyond(th)
          && (TargetHandle(th).Some? ==> TargetHandle(th') == TargetHandle(th))
          && (UpstreamHandle(th).Some? ==> UpstreamHandle(th') == UpstreamHandle(th)))
  {
    LonelyLeases(s.threads, ts, c, j);
    assert ThreadOk(s, s.threads[ts[j]]);
    if l.t == ts[j] { MoverKeeps(s, l); } else { OthersStay(s, l, ts[j]); }
  }

  lemma BrokenStays(s: State, l: Label, ts: seq<Tid>, c: seq<Key>, i: nat)
    requires ThreadsOk(s) && ReposOk(s) && Enabled(s, l) && Travels(s.threads, ts, c) && AllIn(s, ts) && AllIn(Apply(s, l), ts) && i < |ts|
    requires BrokenAt(s, ts, c, i)
    ensures Broken(Apply(s, l), ts, c)
  {
    var s', prev := Apply(s, l), Before(i, |ts|);
    StaysFound(s, l, ts, c, i);
    StaysFound(s, l, ts, c, prev);
    if Beyond(s'.threads[ts[i]]) {
      assert BrokenAt(s', ts, c, i);
    } else if Beyond(s'.threads[ts[prev]]) {
      assert BrokenAt(s', ts, c, prev);
    } else {
      match (FoundAsTarget(s, ts, i), FoundAsUpstream(s, ts, i))
      case (Some(h), None) =>
        FoundIsOld(s, ts[i], h);
        NeverCachedAgain(s, l, c[i], h);
        BrokenUpstream(s, l, ts, c, i, h);
        assert BrokenAt(s', ts, c, i);
      case (None, Some(h)) =>
        FoundIsOld(s, ts[prev], h);
        NeverCachedAgain(s, l, c[i], h);
        BrokenTarget(s, l, ts, c, i, h);
        assert BrokenAt(s', ts, c, i);
      case (Some(_), Some(_)) => assert BrokenAt(s', ts, c, i);
      case (None, None) =>
    }
  }

  lemma {:induction false} LonelyRun(s0: State, s: State, labels: seq<Label>, ts: seq<Tid>, c: seq<Key>)
    requires Usual(s0, s) && Runs(s, labels) && Lonely(s.threads, ts, c) && s.capacity < |ts|
    requires AllIn(s, ts) && (Intact(s, ts, c) || Broken(s, ts, c))
    ensures AllIn(After(s, labels), ts) && (Intact(After(s, labels), ts, c) || Broken(After(s, labels), ts, c))
    ensures Usual(s0, After(s, labels))
    decreases |labels|
  {
    if labels != [] {
      var l := labels[0];
      StepUsual(s0, s, l);
      LonelyStays(s, l, ts, c);
      if Intact(s, ts, c) {
        IntactStep(s0, s, l, ts, c);
      } else {
        var i :| 0 <= i < |ts| && BrokenAt(s, ts, c, i);
        BrokenStays(s, l, ts, c, i);
      }
      LonelyRun(s0, Apply(s, l), labels[1..], ts, c);
    }
  }

  /** Waiting around the cycle, each repository has been found twice, under one handle. */
  lemma WaitersAreNotBroken(s: State, ts: seq<Tid>, hs: seq<Handle>, c: seq<Key>, i: nat)
    requires AllIn(s, ts) && |ts| < |c| && WaitCycle(s, ts, hs) && i < |ts|
    ensures !BrokenAt(s, ts, c, i) && !Unknown(s, ts, i)
  {
    assert WaitsAt(s, ts, hs, i) && WaitsAt(s, ts, hs, Before(i, |ts|));
  }

  /** Pipelines that wait around a cycle nobody else touches fit in the cache. */
  lemma LonelyFits(s0: State, labels: seq<Label>, ts: seq<Tid>, hs: seq<Handle>, c: seq<Key>)
    requires IsInitial(s0) && |s0.threads| < PIPELINES && Runs(s0, labels) && Lonely(s0.threads, ts, c)
    requires WaitCycle(After(s0, labels), ts, hs)
    ensures |ts| <= s0.capacity
  {
    if s0.capacity < |ts| {
      InitialUsual(s0);
      forall i | 0 <= i < |ts| ensures ts[i] in s0.threads && s0.threads[ts[i]] == Thread(s0.threads[ts[i]].job, Idle, None, None) {
        assert TravelsAt(s0.threads, ts, c, i);
      }
      forall i | 0 <= i < |ts| ensures IntactAt(s0, ts, c, i) {}
      LonelyRun(s0, s0, labels, ts, c);
      var s := After(s0, labels);
      forall i | 0 <= i < |ts| ensures !BrokenAt(s, ts, c, i) && !Unknown(s, ts, i) {
        WaitersAreNotBroken(s, ts, hs, c, i);
      }
      RunKeepsJobs(s0, labels);
      forall i | 0 <= i < |ts| ensures TravelsAt(s.threads, ts, c, i) { assert TravelsAt(s0.threads, ts, c, i); }
      var k := SomeUnknown(s, s.threads, ts, c);
    }
  }

  // ---------- exactly ----------

  /** A cycle that fits in the cache, or of which one pipeline more leases a repository. */
  ghost predicate CanLock(s0: State, ts: seq<Tid>, c: seq<Key>) {
    Travels(s0.threads, ts, c) && (|ts| <= s0.capacity || HasSpare(s0.threads, ts, c))
  }

  lemma WaitersGoAround(s0: State, s: State, ts: seq<Tid>, hs: seq<Handle>)
    requires SameJobs(s0, s) && WaitCycle(s, ts, hs)
    ensures GoAround(s0.threads, ts)
  {
    forall i | 0 <= i < |ts| ensures ts[i] in s0.threads && ts[Around(i, |ts|)] in s0.threads && GoesTo(s0.threads, ts[i], ts[Around(i, |ts|)]) {
      assert WaitsAt(s, ts, hs, i);
    }
  }

  lemma StuckCanLock(s0: State, labels: seq<Label>) returns (ts: seq<Tid>, c: seq<Key>)
    requires IsInitial(s0) && |s0.threads| < PIPELINES && StuckAfter(s0, labels)
    ensures CanLock(s0, ts, c)
  {
    InitialInv(s0);
    RunKeepsInv(s0, labels);
    RunKeepsJobs(s0, labels);
    var s := After(s0, labels);
    var us, hs := StuckHasWaitCycle(s);
    WaitersGoAround(s0, s, us, hs);
    var keys := KeysOf(s0.threads, us);
    if NoDuplicates(keys) {
      ts, c := us, keys + [keys[0]];
      DistinctTravel(s0.threads, us);
      if !HasSpare(s0.threads, ts, c) { LonelyFits(s0, labels, ts, hs, c); }
    } else {
      var i, j :| 0 <= i < j < |keys| && keys[i] == keys[j];
      var x, y := FirstRepeat(keys, i, j);
      RepeatHasSpare(s0.threads, us, x, y);
      ts, c := us[x..y], keys[x..y + 1];
    }
  }

  /**
   Pipelines can come to a standstill if and only if the cache has two entries or more and some
   of them go around a cycle of repositories that fits in the cache, or of which some
   repository is leased by a pipeline that is not one of them.
   */
  lemma StuckExactly(s0: State)
    requires IsInitial(s0) && |s0.threads| < PIPELINES
    ensures CanGetStuck(s0) <==> s0.capacity >= 2 && exists ts, c :: CanLock(s0, ts, c)
  {
    if labels :| StuckAfter(s0, labels) {
      StuckNeedsCycle(s0, labels);
      var ts, c := StuckCanLock(s0, labels);
    }
    if s0.capacity >= 2 {
      if ts, c :| CanLock(s0, ts, c) {
        var labels := CycleGetsStuck(s0, ts, c);
        assert StuckAfter(s0, labels);
      }
    }
  }

  lemma {:induction false} SameCycleUpTo(threads: map<Tid, Thread>, ts: seq<Tid>, c: seq<Key>, us: seq<Tid>, d: seq<Key>, i: nat, j: nat)
    requires Travels(threads, ts, c) && Travels(threads, us, d) && (forall u :: u in us ==> u in ts)
    requires i <= j < |ts| && ts[i] in us
    ensures ts[j] in us
    decreases j - i
  {
    if i < j {
      NextInCycle(threads, ts, c, us, d, i);
      SameCycleUpTo(threads, ts, c, us, d, i + 1, j);
    }
  }

  lemma NextInCycle(threads: map<Tid, Thread>, ts: seq<Tid>, c: seq<Key>, us: seq<Tid>, d: seq<Key>, i: nat)
    requires Travels(threads, ts, c) && Travels(threads, us, d) && (forall u :: u in us ==> u in ts)
    requires i < |ts| && ts[i] in us
    ensures ts[Around(i, |ts|)] in us
  {
    var k :| 0 <= k < |us| && us[k] == ts[i];
    var next := us[Around(k, |us|)];
    LonelyLeases(threads, us, d, k);
    LonelyLeases(threads, us, d, Around(k, |us|));
    LonelyLeases(threads, ts, c, i);
    assert next in ts;
    var x :| 0 <= x < |ts| && ts[x] == next;
    LonelyLeases(threads, ts, c, x);
    if x != Around(i, |ts|) { TravellersDistinct(threads, ts, c, x, Around(i, |ts|)); }
  }

  /** When there are no pipelines but those of one cycle, they can if and only if the cache has room for the cycle. */
  lemma OneCycleExactly(s0: State, ts: seq<Tid>, c: seq<Key>)
    requires IsInitial(s0) && |s0.threads| < PIPELINES
    requires Travels(s0.threads, ts, c) && forall t :: t in s0.threads ==> t in ts
    ensures CanGetStuck(s0) <==> |ts| <= s0.capacity
  {
    StuckExactly(s0);
    TwoTravellers(s0.threads, ts, c);
    if |ts| <= s0.capacity { assert CanLock(s0, ts, c); }
    if us, d :| CanLock(s0, us, d) {
      forall u | u in us ensures u in ts {
        var k :| 0 <= k < |us| && us[k] == u;
        LonelyLeases(s0.threads, us, d, k);
      }
      forall j | 0 <= j < |ts| ensures ts[j] in us {
        LonelyLeases(s0.threads, us, d, 0);
        assert us[0] in us;
        var i :| 0 <= i < |ts| && ts[i] == us[0];
        SameCycleUpTo(s0.threads, ts, c, us, d, i, |ts| - 1);
        NextInCycle(s0.threads, ts, c, us, d, |ts| - 1);
        SameCycleUpTo(s0.threads, ts, c, us, d, 0, j);
      }
      forall e | e in s0.threads ensures !IsSpare(s0.threads, us, d, e) {
        var j :| 0 <= j < |ts| && ts[j] == e;
      }
      TravellersAreFew(s0.threads, ts, c, us);
    }
  }

  lemma TravellersAreFew(threads: map<Tid, Thread>, ts: seq<Tid>, c: seq<Key>, us: seq<Tid>)
    requires Travels(threads, ts, c) && forall j :: 0 <= j < |ts| ==> ts[j] in us
    ensures |ts| <= |us|
  {
    var nodes := set u | u in us;
    forall i, j | 0 <= i < j < |ts| ensures ts[i] != ts[j] { TravellersDistinct(threads, ts, c, i, j); }
    Pigeonhole(ts, nodes);
    FewKeys(nodes, us);
  }
}
