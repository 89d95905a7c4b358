/**
 Repository leases (internal/pusher/cache.go, repository.go, pipeline.go): pipelines running
 in parallel lease cached repositories, the target first and then a different upstream. Each
 label is one atomic action of one pipeline. The cache is the LFU one: looking up a key that
 is not there evicts a least-used other entry when the cache is full, leased or not.
 */
module Leases {
  import opened Common
  import Lfu

  type Handle = nat

  /** One clone in memory: the how manyth it is, and what it is a clone of. */
  datatype Repo = Repo(number: nat, repository: string, branch: string)
  type Tid = nat

  /** What a repository is cached under. */
  datatype Key = Key(text: string)

  /** The fields of a RemoteTarget that decide what a pipeline leases. */
  datatype Job = Job(targetRepository: string, upstreamRepository: string, upstreamBranch: string, mergeStrategy: string)
  {
    function TargetKey(): Key {
      CacheKey(targetRepository, upstreamBranch)
    }

    function UpstreamKey(): Key {
      CacheKey(upstreamRepository, upstreamBranch)
    }

    /** The pipeline leases its upstream separately. */
    predicate LeasesUpstream() {
      mergeStrategy != "" && upstreamRepository != targetRepository
    }

    function RepositoryAt(stage: Stage): string {
      if stage == Target then targetRepository else upstreamRepository
    }

    function KeyAt(stage: Stage): Key {
      if stage == Target then TargetKey() else UpstreamKey()
    }
  }

  function CacheKey(repository: string, branch: string): Key {
    Key(repository + "#" + branch)
  }

  lemma CacheKeyInjective(a: string, b: string, branch: string)
    ensures CacheKey(a, branch) == CacheKey(b, branch) <==> a == b
  {
    if CacheKey(a, branch) == CacheKey(b, branch) {
      var x, y := CacheKey(a, branch).text, CacheKey(b, branch).text;
      assert x[..|x| - |branch| - 1] == a && y[..|y| - |branch| - 1] == b;
    }
  }

  datatype Stage = Target | Upstream

  datatype Lease = Lease(handle: Handle, repo: Repo)

  datatype Phase =
    | Idle
    | Waiting(stage: Stage, handle: Handle)  // looked up, wants the handle's mutex
    | Filling(stage: Stage, handle: Handle)  // holds the mutex, clones or refreshes
    | NeedsUpstream                          // target leased, a different upstream still to come
    | Working                                // everything leased
    | Unwinding                              // returning: deferred releases still to run
    | Finished

  datatype Thread = Thread(job: Job, phase: Phase, target: Option<Lease>, upstream: Option<Lease>)

  /** A cached repository with its mutex. */
  datatype HandleState = HandleState(key: Key, repo: Option<Repo>, owner: Option<Tid>)

  type Cache = Lfu.Entries<Key, Handle>

  datatype State = State(capacity: nat, cache: Cache, handles: map<Handle, HandleState>, threads: map<Tid, Thread>,
                         nextHandle: nat, nextRepo: nat)

  datatype Label =
    | Acquire(t: Tid, victim: Option<Key>)  // LoadOrStore of the handle, and what it evicts
    | Lock(t: Tid)
    | Clone(t: Tid)                         // a successful clone, on a miss or after a failed refresh
    | Refresh(t: Tid)                       // a successful refresh of the cached repository
    | GiveUp(t: Tid)                        // a failed clone: discard
    | Work(t: Tid)                          // the rest of the pipeline, successful or not
    | Release(t: Tid)                       // one deferred release, or the return

  /** The stage the next lookup is for. */
  function NextStage(phase: Phase): Stage {
    if phase == NeedsUpstream then Upstream else Target
  }

  /** The key the next lookup is for. */
  function NextKey(th: Thread): Key {
    th.job.KeyAt(NextStage(th.phase))
  }

  /** The cache once a new handle is stored, before anything is evicted. */
  function Stored(cache: Cache, key: Key, h: Handle): Cache {
    Lfu.Touched(cache[key := Lfu.Entry(h, 0)], key)
  }

  /** What looking key up evicts: nothing on a hit or with room left, a least-used other entry otherwise. */
  ghost predicate Evicts(s: State, key: Key, victim: Option<Key>) {
    if key in s.cache || |s.cache| < s.capacity then victim == None
    else victim.Some? && Lfu.LeastUsed(Stored(s.cache, key, s.nextHandle), key, victim.value)
  }

  /** The cache after looking key up. */
  function LookedUp(s: State, key: Key, victim: Option<Key>): Cache {
    if key in s.cache then Lfu.Touched(s.cache, key)
    else
      var stored := Stored(s.cache, key, s.nextHandle);
      if victim.Some? then stored - {victim.value} else stored
  }

  /** A lookup is the cache's LoadOrStore of the next handle. */
  lemma LookupIsLoadOrStore(s: State, key: Key, victim: Option<Key>)
    requires Evicts(s, key, victim)
    ensures Lfu.Step(s.cache, s.capacity, Lfu.Op.LoadOrStore(key, s.nextHandle),
                     if key in s.cache then Some(s.cache[key].value) else None, LookedUp(s, key, victim))
  {
  }

  ghost predicate Enabled(s: State, l: Label) {
    match l
    case Acquire(t, victim) =>
      && t in s.threads && (s.threads[t].phase == Idle || s.threads[t].phase == NeedsUpstream)
      && Evicts(s, NextKey(s.threads[t]), victim)
    case Lock(t) =>
      && t in s.threads && s.threads[t].phase.Waiting?
      && s.threads[t].phase.handle in s.handles && s.handles[s.threads[t].phase.handle].owner == None
    case Clone(t) => t in s.threads && s.threads[t].phase.Filling? && s.threads[t].phase.handle in s.handles
    case Refresh(t) =>
      && t in s.threads && s.threads[t].phase.Filling?
      && s.threads[t].phase.handle in s.handles && s.handles[s.threads[t].phase.handle].repo.Some?
    case GiveUp(t) => t in s.threads && s.threads[t].phase.Filling? && s.threads[t].phase.handle in s.handles
    case Work(t) => t in s.threads && s.threads[t].phase == Working
    case Release(t) =>
      && t in s.threads && s.threads[t].phase == Unwinding
      && (s.threads[t].upstream.Some? ==> s.threads[t].upstream.value.handle in s.handles)
      && (s.threads[t].target.Some? ==> s.threads[t].target.value.handle in s.handles)
  }

  /** The pipeline goes on with a lease on repo in hand. */
  function Leased(th: Thread, repo: Repo): Thread
    requires th.phase.Filling?
  {
    var lease := Some(Lease(th.phase.handle, repo));
    if th.phase.stage == Target then
      th.(target := lease, phase := if th.job.LeasesUpstream() then NeedsUpstream else Working)
    else th.(upstream := lease, phase := Working)
  }

  function Unlocked(handles: map<Handle, HandleState>, h: Handle): map<Handle, HandleState>
    requires h in handles
  {
    handles[h := handles[h].(owner := None)]
  }

  function Apply(s: State, l: Label): State
    requires Enabled(s, l)
  {
    match l
    case Acquire(t, victim) =>
      var th := s.threads[t];
      var key := NextKey(th);
      var cache := LookedUp(s, key, victim);
      if key in s.cache then
        s.(cache := cache, threads := s.threads[t := th.(phase := Waiting(NextStage(th.phase), s.cache[key].value))])
      else
        State(s.capacity, cache, s.handles[s.nextHandle := HandleState(key, None, None)],
              s.threads[t := th.(phase := Waiting(NextStage(th.phase), s.nextHandle))], s.nextHandle + 1, s.nextRepo)
    case Lock(t) =>
      var th := s.threads[t];
      var h := th.phase.handle;
      s.(handles := s.handles[h := s.handles[h].(owner := Some(t))],
         threads := s.threads[t := th.(phase := Filling(th.phase.stage, h))])
    case Clone(t) =>
      var th := s.threads[t];
      var h := th.phase.handle;
      var repo := Repo(s.nextRepo, th.job.RepositoryAt(th.phase.stage), th.job.upstreamBranch);
      s.(handles := s.handles[h := s.handles[h].(repo := Some(repo))],
         threads := s.threads[t := Leased(th, repo)], nextRepo := s.nextRepo + 1)
    case Refresh(t) =>
      var th := s.threads[t];
      s.(threads := s.threads[t := Leased(th, s.handles[th.phase.handle].repo.value)])
    case GiveUp(t) =>
      var th := s.threads[t];
      var h := th.phase.handle;
      s.(cache := if s.handles[h].repo.None? then s.cache - {th.job.KeyAt(th.phase.stage)} else s.cache,
         handles := Unlocked(s.handles, h),
         threads := s.threads[t := th.(phase := Unwinding)])
    case Work(t) => s.(threads := s.threads[t := s.threads[t].(phase := Unwinding)])
    case Release(t) =>
      var th := s.threads[t];
      if th.upstream.Some? then
        s.(handles := Unlocked(s.handles, th.upstream.value.handle), threads := s.threads[t := th.(upstream := None)])
      else if th.target.Some? then
        s.(handles := Unlocked(s.handles, th.target.value.handle), threads := s.threads[t := th.(target := None)])
      else s.(threads := s.threads[t := th.(phase := Finished)])
  }

  ghost predicate IsInitial(s: State) {
    && s.capacity > 0 && s.cache == map[] && s.handles == map[]
    && forall t :: t in s.threads ==> s.threads[t] == Thread(s.threads[t].job, Idle, None, None)
  }

  // ---------- the invariant ----------

  predicate Holds(th: Thread, h: Handle) {
    || (th.phase.Filling? && th.phase.handle == h)
    || (th.target.Some? && th.target.value.handle == h)
    || (th.upstream.Some? && th.upstream.value.handle == h)
  }

  /** Which leases a pipeline has in each phase. */
  predicate PhaseOk(th: Thread) {
    match th.phase
    case Idle => th.target == None && th.upstream == None
    case Waiting(stage, _) =>
      th.upstream == None && if stage == Target then th.target == None else th.target.Some? && th.job.LeasesUpstream()
    case Filling(stage, _) =>
      th.upstream == None && if stage == Target then th.target == None else th.target.Some? && th.job.LeasesUpstream()
    case NeedsUpstream => th.target.Some? && th.upstream == None && th.job.LeasesUpstream()
    case Working => th.target.Some? && (th.upstream.Some? <==> th.job.LeasesUpstream())
    case Unwinding => (th.upstream.Some? ==> th.target.Some? && th.job.LeasesUpstream())
    case Finished => th.target == None && th.upstream == None
  }

  ghost predicate LeaseOk(s: State, lease: Option<Lease>, key: Key) {
    lease.Some? ==>
      var Lease(h, repo) := lease.value;
      h in s.handles && s.handles[h].key == key && s.handles[h].repo == Some(repo)
  }

  ghost predicate ThreadOk(s: State, th: Thread) {
    && PhaseOk(th)
    && (th.phase.Waiting? || th.phase.Filling? ==>
          th.phase.handle in s.handles && s.handles[th.phase.handle].key == th.job.KeyAt(th.phase.stage))
    && LeaseOk(s, th.target, th.job.TargetKey())
    && LeaseOk(s, th.upstream, th.job.UpstreamKey())
  }

  ghost predicate CacheOk(s: State) {
    s.capacity > 0 && forall k :: k in s.cache ==> s.cache[k].value in s.handles && s.handles[s.cache[k].value].key == k
  }

  /** Handles and repositories are numbered in the order they were created; no repository sits in two handles. */
  ghost predicate ReposOk(s: State) {
    && (forall h :: h in s.handles ==> h < s.nextHandle)
    && (forall h :: h in s.handles && s.handles[h].repo.Some? ==> s.handles[h].repo.value.number < s.nextRepo)
    && (forall h, g :: h in s.handles && g in s.handles && SameClone(s.handles[h], s.handles[g]) ==> h == g)
  }

  /** The same clone sits in both. */
  predicate SameClone(a: HandleState, b: HandleState) {
    a.repo.Some? && b.repo.Some? && a.repo.value.number == b.repo.value.number
  }

  ghost predicate ThreadsOk(s: State) {
    forall t :: t in s.threads ==> ThreadOk(s, s.threads[t])
  }

  /** A handle's mutex is locked exactly by the pipeline that holds it. */
  ghost predicate OwnersOk(s: State) {
    && (forall t, h :: t in s.threads && Holds(s.threads[t], h) ==> h in s.handles && s.handles[h].owner == Some(t))
    && (forall h :: h in s.handles && s.handles[h].owner.Some? ==>
          s.handles[h].owner.value in s.threads && Holds(s.threads[s.handles[h].owner.value], h))
  }

  ghost predicate Inv(s: State) {
    CacheOk(s) && ReposOk(s) && ThreadsOk(s) && OwnersOk(s)
  }

  lemma InitialInv(s: State)
    requires IsInitial(s)
    ensures Inv(s)
  {
    forall t | t in s.threads ensures ThreadOk(s, s.threads[t]) {
      assert s.threads[t] == Thread(s.threads[t].job, Idle, None, None);
    }
  }

  /** Every entry of the cache was there before, or is the new handle under the key looked up. */
  lemma LookedUpEntries(s: State, key: Key, victim: Option<Key>)
    ensures forall k :: k in LookedUp(s, key, victim) ==>
      if k in s.cache then LookedUp(s, key, victim)[k].value == s.cache[k].value
      else k == key && LookedUp(s, key, victim)[k].value == s.nextHandle
  {
  }

  lemma AcquireKeepsCache(s: State, t: Tid, victim: Option<Key>)
    requires CacheOk(s) && ReposOk(s) && Enabled(s, Acquire(t, victim))
    ensures CacheOk(Apply(s, Acquire(t, victim)))
  {
    LookedUpEntries(s, NextKey(s.threads[t]), victim);
  }

  lemma QuietKeepsCache(s: State, l: Label)
    requires CacheOk(s) && Enabled(s, l) && !l.Acquire?
    ensures CacheOk(Apply(s, l))
  {
  }

  lemma StepKeepsCache(s: State, l: Label)
    requires CacheOk(s) && ReposOk(s) && Enabled(s, l)
    ensures CacheOk(Apply(s, l))
  {
    if l.Acquire? { AcquireKeepsCache(s, l.t, l.victim); } else { QuietKeepsCache(s, l); }
  }

  /** Repositories come out of a clone one by one, so the newest number is in no handle yet. */
  lemma CloneKeepsRepos(s: State, t: Tid)
    requires ReposOk(s) && Enabled(s, Clone(t))
    ensures ReposOk(Apply(s, Clone(t)))
  {
  }

  lemma AcquireKeepsRepos(s: State, t: Tid, victim: Option<Key>)
    requires ReposOk(s) && Enabled(s, Acquire(t, victim))
    ensures ReposOk(Apply(s, Acquire(t, victim)))
  {
  }

  /** Any other action leaves every handle its repository. */
  lemma QuietKeepsRepos(s: State, l: Label)
    requires ReposOk(s) && Enabled(s, l) && !l.Clone? && !l.Acquire?
    ensures ReposOk(Apply(s, l))
  {
    var s' := Apply(s, l);
    assert s'.handles.Keys == s.handles.Keys;
    assert forall h :: h in s.handles ==> s'.handles[h].repo == s.handles[h].repo;
  }

  lemma StepKeepsRepos(s: State, l: Label)
    requires ReposOk(s) && Enabled(s, l)
    ensures ReposOk(Apply(s, l))
  {
    match l
    case Acquire(t, victim) => AcquireKeepsRepos(s, t, victim);
    case Clone(t) => CloneKeepsRepos(s, t);
    case _ => QuietKeepsRepos(s, l);
  }

  /** Handles keep their key, and their repository unless the pipeline that holds them clones anew. */
  lemma StepKeepsHandles(s: State, l: Label, h: Handle)
    requires Inv(s) && Enabled(s, l) && h in s.handles
    ensures var s' := Apply(s, l);
      && h in s'.handles && s'.handles[h].key == s.handles[h].key
      && (s'.handles[h].repo == s.handles[h].repo || (l.Clone? && s.handles[h].owner == Some(l.t)))
  {
    if l.Clone? { assert Holds(s.threads[l.t], s.threads[l.t].phase.handle); }
  }

  /** A step moves one pipeline. */
  lemma OthersStay(s: State, l: Label, t: Tid)
    requires Enabled(s, l) && t != l.t
    ensures t in Apply(s, l).threads <==> t in s.threads
    ensures t in s.threads ==> Apply(s, l).threads[t] == s.threads[t]
  {
  }

  /** A lease of another pipeline stays good. */
  lemma LeaseStays(s: State, l: Label, t: Tid, lease: Option<Lease>, key: Key)
    requires Inv(s) && Enabled(s, l) && t != l.t && LeaseOk(s, lease, key)
    requires lease.Some? ==> s.handles[lease.value.handle].owner == Some(t)
    ensures LeaseOk(Apply(s, l), lease, key)
  {
    if lease.Some? { StepKeepsHandles(s, l, lease.value.handle); }
  }

  lemma StepKeepsOtherThread(s: State, l: Label, t: Tid)
    requires Inv(s) && Enabled(s, l)
    requires t in s.threads && t != l.t
    ensures t in Apply(s, l).threads && Apply(s, l).threads[t] == s.threads[t]
    ensures ThreadOk(Apply(s, l), s.threads[t])
  {
    var th := s.threads[t];
    assert ThreadOk(s, th);
    OthersStay(s, l, t);
    if th.phase.Waiting? || th.phase.Filling? { StepKeepsHandles(s, l, th.phase.handle); }
    if th.target.Some? { assert Holds(th, th.target.value.handle); }
    if th.upstream.Some? { assert Holds(th, th.upstream.value.handle); }
    LeaseStays(s, l, t, th.target, th.job.TargetKey());
    LeaseStays(s, l, t, th.upstream, th.job.UpstreamKey());
  }

  lemma StepKeepsMovingThread(s: State, l: Label)
    requires Inv(s) && Enabled(s, l)
    ensures ThreadOk(Apply(s, l), Apply(s, l).threads[l.t])
  {
    var th := s.threads[l.t];
    assert ThreadOk(s, th);
    TwoHandles(s, l.t);
  }

  /** The two handles a pipeline deals with are different ones, because their keys are. */
  lemma TwoHandles(s: State, t: Tid)
    requires Inv(s) && t in s.threads
    ensures var th := s.threads[t];
      && (th.target.Some? && th.upstream.Some? ==> th.target.value.handle != th.upstream.value.handle)
      && (th.target.Some? && (th.phase.Waiting? || th.phase.Filling?) ==> th.target.value.handle != th.phase.handle)
  {
    var th := s.threads[t];
    assert ThreadOk(s, th);
    CacheKeyInjective(th.job.targetRepository, th.job.upstreamRepository, th.job.upstreamBranch);
  }

  lemma StepKeepsThreads(s: State, l: Label)
    requires Inv(s) && Enabled(s, l)
    ensures ThreadsOk(Apply(s, l))
  {
    var s' := Apply(s, l);
    forall t | t in s'.threads ensures ThreadOk(s', s'.threads[t]) {
      if t != l.t {
        StepKeepsOtherThread(s, l, t);
      } else {
        StepKeepsMovingThread(s, l);
      }
    }
  }

  /** The pipeline holds the handle exactly when the handle's mutex says so. */
  predicate Agree(s: State, t: Tid, h: Handle) {
    t in s.threads && Holds(s.threads[t], h) <==> h in s.handles && s.handles[h].owner == Some(t)
  }

  lemma OwnersAgree(s: State)
    ensures OwnersOk(s) <==> forall t, h :: Agree(s, t, h)
  {
    if forall t, h :: Agree(s, t, h) {
      forall t, h | t in s.threads && Holds(s.threads[t], h) ensures h in s.handles && s.handles[h].owner == Some(t) {
        assert Agree(s, t, h);
      }
      forall h | h in s.handles && s.handles[h].owner.Some?
        ensures s.handles[h].owner.value in s.threads && Holds(s.threads[s.handles[h].owner.value], h)
      {
        assert Agree(s, s.handles[h].owner.value, h);
      }
    }
  }

  /** A step gives and takes mutexes only of the pipeline that moves. */
  lemma StepKeepsOtherAgreement(s: State, l: Label, t: Tid, h: Handle)
    requires Enabled(s, l) && Agree(s, t, h) && ReposOk(s) && t != l.t
    requires forall g :: g in s.handles && Holds(s.threads[l.t], g) ==> s.handles[g].owner == Some(l.t)
    ensures Agree(Apply(s, l), t, h)
  {
  }

  lemma StepKeepsOwnAgreement(s: State, l: Label, h: Handle)
    requires Enabled(s, l) && Agree(s, l.t, h) && ReposOk(s)
    requires PhaseOk(s.threads[l.t])
    requires s.threads[l.t].target.Some? && s.threads[l.t].upstream.Some? ==>
      s.threads[l.t].target.value.handle != s.threads[l.t].upstream.value.handle
    requires s.threads[l.t].target.Some? && s.threads[l.t].phase.Filling? ==>
      s.threads[l.t].target.value.handle != s.threads[l.t].phase.handle
    ensures Agree(Apply(s, l), l.t, h)
  {
  }

  lemma StepKeepsOwners(s: State, l: Label)
    requires Inv(s) && Enabled(s, l)
    ensures OwnersOk(Apply(s, l))
  {
    OwnersAgree(s);
    assert ThreadOk(s, s.threads[l.t]);
    TwoHandles(s, l.t);
    forall t, h ensures Agree(Apply(s, l), t, h) {
      assert Agree(s, t, h);
      if t != l.t {
        StepKeepsOtherAgreement(s, l, t, h);
      } else {
        StepKeepsOwnAgreement(s, l, h);
      }
    }
    OwnersAgree(Apply(s, l));
  }

  lemma StepKeepsInv(s: State, l: Label)
    requires Inv(s) && Enabled(s, l)
    ensures Inv(Apply(s, l))
  {
    StepKeepsCache(s, l);
    StepKeepsRepos(s, l);
    StepKeepsThreads(s, l);
    StepKeepsOwners(s, l);
  }

  // ---------- runs ----------

  ghost predicate Runs(s: State, labels: seq<Label>)
    decreases |labels|
  {
    labels == [] || (Enabled(s, labels[0]) && Runs(Apply(s, labels[0]), labels[1..]))
  }

  function After(s: State, labels: seq<Label>): State
    requires Runs(s, labels)
    decreases |labels|
  {
    if labels == [] then s else After(Apply(s, labels[0]), labels[1..])
  }

  lemma {:induction false} RunKeepsInv(s: State, labels: seq<Label>)
    requires Inv(s) && Runs(s, labels)
    ensures Inv(After(s, labels))
    decreases |labels|
  {
    if labels != [] {
      StepKeepsInv(s, labels[0]);
      RunKeepsInv(Apply(s, labels[0]), labels[1..]);
    }
  }

  /** The pipeline may be reading or writing this repository: it leased it, or refreshes it under the handle's mutex. */
  predicate Touches(s: State, th: Thread, repo: Repo) {
    || (th.target.Some? && th.target.value.repo == repo)
    || (th.upstream.Some? && th.upstream.value.repo == repo)
    || (th.phase.Filling? && th.phase.handle in s.handles && s.handles[th.phase.handle].repo == Some(repo))
  }

  /**
   In every interleaving, for every cache size and with leased handles evicted: no two pipelines touch the same
   repository, no repository sits in two handles, and a pipeline never waits for a mutex it
   holds itself.
   */
  lemma {:induction false} LeasesAreExclusive(s0: State, labels: seq<Label>)
    requires IsInitial(s0) && Runs(s0, labels)
    ensures var s := After(s0, labels);
      && (forall t, u, repo :: t in s.threads && u in s.threads && Touches(s, s.threads[t], repo) && Touches(s, s.threads[u], repo)
            ==> t == u)
      && (forall h, g :: h in s.handles && g in s.handles && SameClone(s.handles[h], s.handles[g]) ==> h == g)
      && (forall t :: t in s.threads && s.threads[t].phase.Waiting? ==>
            s.threads[t].phase.handle in s.handles && s.handles[s.threads[t].phase.handle].owner != Some(t))
  {
    InitialInv(s0);
    RunKeepsInv(s0, labels);
    var s := After(s0, labels);
    forall t, repo: Repo | t in s.threads && Touches(s, s.threads[t], repo)
      ensures OwnsRepository(s, t, repo)
    {
      TouchedIsOwned(s, t, repo);
    }
    forall t | t in s.threads && s.threads[t].phase.Waiting?
      ensures s.threads[t].phase.handle in s.handles && s.handles[s.threads[t].phase.handle].owner != Some(t)
    {
      assert ThreadOk(s, s.threads[t]);
      TwoHandles(s, t);
    }
  }

  /** The pipeline holds the mutex of the handle the repository sits in. */
  ghost predicate OwnsRepository(s: State, t: Tid, repo: Repo) {
    exists h :: h in s.handles && s.handles[h].repo == Some(repo) && s.handles[h].owner == Some(t)
  }

  lemma TouchedIsOwned(s: State, t: Tid, repo: Repo)
    requires Inv(s) && t in s.threads && Touches(s, s.threads[t], repo)
    ensures OwnsRepository(s, t, repo)
  {
    var th := s.threads[t];
    assert ThreadOk(s, th);
    var h := if th.target.Some? && th.target.value.repo == repo then th.target.value.handle
             else if th.upstream.Some? && th.upstream.value.repo == repo then th.upstream.value.handle
             else th.phase.handle;
    assert Holds(th, h);
    assert s.handles[h].repo == Some(repo);
  }

  /** getRepository took its handle's mutex and has not returned yet. */
  predicate InGetRepository(th: Thread) {
    th.phase.Filling?
  }

  /**
   Every getRepository call that has the mutex returns either exactly one lease, on the
   repository now in the handle and with the mutex still locked, or an error with the mutex
   already unlocked and no lease; and a pipeline that has returned holds no mutex at all.
   */
  lemma {:induction false} GetRepositoryReturnsOneLease(s0: State, labels: seq<Label>, l: Label)
    requires IsInitial(s0) && Runs(s0, labels) && Enabled(After(s0, labels), l)
    requires InGetRepository(After(s0, labels).threads[l.t])
    ensures var s := After(s0, labels);
      var before, after := s.threads[l.t], Apply(s, l).threads[l.t];
      var h := before.phase.handle;
      var lease := if before.phase.stage == Target then after.target else after.upstream;
      var other := if before.phase.stage == Target then (before.upstream, after.upstream) else (before.target, after.target);
      && h in Apply(s, l).handles && other.0 == other.1
      && if lease.Some? then
           && lease.value.handle == h && Apply(s, l).handles[h].owner == Some(l.t)
           && Apply(s, l).handles[h].repo == Some(lease.value.repo)
         else after.phase == Unwinding && Apply(s, l).handles[h].owner == None
    ensures forall t :: t in After(s0, labels).threads && After(s0, labels).threads[t].phase == Finished ==>
      forall h :: h in After(s0, labels).handles ==> After(s0, labels).handles[h].owner != Some(t)
  {
    InitialInv(s0);
    RunKeepsInv(s0, labels);
    var s := After(s0, labels);
    assert ThreadOk(s, s.threads[l.t]);
    assert Holds(s.threads[l.t], s.threads[l.t].phase.handle);
    forall t, h | t in s.threads && s.threads[t].phase == Finished && h in s.handles ensures s.handles[h].owner != Some(t) {
      assert ThreadOk(s, s.threads[t]);
    }
  }

  // ---------- which repositories a pipeline leases ----------

  /** s is reached from s0: the same pipelines for the same jobs, the same capacity. */
  ghost predicate SameJobs(s0: State, s: State) {
    && s.capacity == s0.capacity && s.threads.Keys == s0.threads.Keys
    && forall t :: t in s.threads ==> s.threads[t].job == s0.threads[t].job
  }

  lemma StepKeepsJobs(s: State, l: Label)
    requires Enabled(s, l)
    ensures SameJobs(s, Apply(s, l))
  {
  }

  lemma {:induction false} RunKeepsJobs(s: State, labels: seq<Label>)
    requires Runs(s, labels)
    ensures SameJobs(s, After(s, labels))
    decreases |labels|
  {
    if labels != [] {
      StepKeepsJobs(s, labels[0]);
      RunKeepsJobs(Apply(s, labels[0]), labels[1..]);
    }
  }

  /** Every clone is of what its handle is cached for. */
  ghost predicate ClonesOk(s: State) {
    forall h :: h in s.handles && s.handles[h].repo.Some? ==>
      CacheKey(s.handles[h].repo.value.repository, s.handles[h].repo.value.branch) == s.handles[h].key
  }

  lemma StepKeepsClones(s: State, l: Label)
    requires ThreadsOk(s) && ReposOk(s) && Enabled(s, l) && ClonesOk(s)
    ensures ClonesOk(Apply(s, l))
  {
    assert ThreadOk(s, s.threads[l.t]);
  }

  lemma {:induction false} RunKeepsClones(s: State, labels: seq<Label>)
    requires Inv(s) && ClonesOk(s) && Runs(s, labels)
    ensures ClonesOk(After(s, labels))
    decreases |labels|
  {
    if labels != [] {
      StepKeepsClones(s, labels[0]);
      StepKeepsInv(s, labels[0]);
      RunKeepsClones(Apply(s, labels[0]), labels[1..]);
    }
  }

  /** A lease from a handle cached for this repository and branch, on a clone of what has the same key. */
  ghost predicate LeasesFrom(s: State, lease: Lease, repository: string, branch: string) {
    && lease.handle in s.handles
    && s.handles[lease.handle].key.text == repository + "#" + branch
    && lease.repo.repository + "#" + lease.repo.branch == repository + "#" + branch
  }

  /** The leases a pipeline has are on the repositories its target names. */
  ghost predicate LeasesAsNamed(s: State, th: Thread) {
    && (th.target.Some? ==> LeasesFrom(s, th.target.value, th.job.targetRepository, th.job.upstreamBranch))
    && (th.upstream.Some? ==> LeasesFrom(s, th.upstream.value, th.job.upstreamRepository, th.job.upstreamBranch))
    && (th.phase == Working ==>
          && th.target.Some?
          && (th.upstream.Some? <==> th.job.mergeStrategy != "" && th.job.upstreamRepository != th.job.targetRepository))
  }

  /**
   In every run a pipeline's target lease is on its target repository and its upstream lease on
   its upstream repository, both on the upstream branch; it works with an upstream lease exactly
   when it has a merge strategy and the two repositories differ.
   */
  lemma {:induction false} LeasesWhatItNames(s0: State, labels: seq<Label>, t: Tid)
    requires IsInitial(s0) && Runs(s0, labels) && t in s0.threads
    ensures t in After(s0, labels).threads && After(s0, labels).threads[t].job == s0.threads[t].job
    ensures LeasesAsNamed(After(s0, labels), After(s0, labels).threads[t])
  {
    InitialInv(s0);
    RunKeepsInv(s0, labels);
    RunKeepsClones(s0, labels);
    RunKeepsJobs(s0, labels);
    assert ThreadOk(After(s0, labels), After(s0, labels).threads[t]);
  }

  /** The first lookup of a pipeline is for its target repository, and a second one for its upstream repository. */
  lemma {:induction false} LooksUpTargetFirst(s0: State, labels: seq<Label>, t: Tid, victim: Option<Key>)
    requires IsInitial(s0) && Runs(s0, labels) && Enabled(After(s0, labels), Acquire(t, victim))
    ensures var s := After(s0, labels);
      var s' := Apply(s, Acquire(t, victim));
      var job, phase := s.threads[t].job, s'.threads[t].phase;
      && phase.Waiting? && phase.handle in s'.handles
      && (s.threads[t].target == None ==> s'.handles[phase.handle].key.text == job.targetRepository + "#" + job.upstreamBranch)
      && (s.threads[t].target != None ==> s'.handles[phase.handle].key.text == job.upstreamRepository + "#" + job.upstreamBranch)
  {
    InitialInv(s0);
    RunKeepsInv(s0, labels);
    var s := After(s0, labels);
    assert ThreadOk(s, s.threads[t]);
  }

  /** Where no branch has a "#", the clone is of exactly the repository and the branch named. */
  lemma LeasedIsNamed(s: State, lease: Lease, repository: string, branch: string)
    requires LeasesFrom(s, lease, repository, branch) && '#' !in branch && '#' !in lease.repo.branch
    ensures lease.repo.repository == repository && lease.repo.branch == branch
  {
    var x, y := lease.repo.repository, lease.repo.branch;
    var text := repository + "#" + branch;
    assert text == x + "#" + y;
    assert text[|repository|] == '#' && text[|x|] == '#';
    assert forall i :: |repository| < i < |text| ==> text[i] == branch[i - |repository| - 1] && text[i] in branch;
    assert forall i :: |x| < i < |text| ==> text[i] == y[i - |x| - 1] && text[i] in y;
    assert |x| == |repository|;
    assert text[..|x|] == x && text[..|x|] == repository;
    assert text[|x| + 1..] == y && text[|x| + 1..] == branch;
  }

  /** With a "#" in a branch two different repositories can share a key, and so a clone. */
  lemma KeysCanCollide()
    ensures CacheKey("repo", "x#main") == CacheKey("repo#x", "main")
  {
    assert "repo" + "#" + "x#main" == "repo#x" + "#" + "main";
  }

  /** A getRepository call that has the mutex may end in a clone or a failed one, and, when the handle holds a repository, in a refresh. */
  lemma {:induction false} HowFillingEnds(s0: State, labels: seq<Label>, t: Tid)
    requires IsInitial(s0) && Runs(s0, labels) && t in s0.threads
    ensures var s := After(s0, labels);
      && t in s.threads
      && (InGetRepository(s.threads[t]) ==>
            && s.threads[t].phase.handle in s.handles
            && Enabled(s, Clone(t)) && Enabled(s, GiveUp(t))
            && (Enabled(s, Refresh(t)) <==> s.handles[s.threads[t].phase.handle].repo != None))
  {
    InitialInv(s0);
    RunKeepsInv(s0, labels);
    RunKeepsJobs(s0, labels);
    assert ThreadOk(After(s0, labels), After(s0, labels).threads[t]);
  }

  /**
   A clone that succeeds leases the new clone; a refresh leases the one that is there; when the
   clone fails, a handle that never held one is dropped from the cache, so that a later lookup
   starts anew, and one that holds an old one stays.
   */
  lemma {:induction false} WhatFillingLeaves(s0: State, labels: seq<Label>, l: Label)
    requires IsInitial(s0) && Runs(s0, labels) && Enabled(After(s0, labels), l)
    requires InGetRepository(After(s0, labels).threads[l.t])
    ensures var s, s' := After(s0, labels), Apply(After(s0, labels), l);
      var th := s.threads[l.t];
      var h := th.phase.handle;
      var lease := if th.phase.stage == Target then s'.threads[l.t].target else s'.threads[l.t].upstream;
      && h in s.handles && h in s'.handles
      && (l.Clone? ==>
            && lease.Some? && lease.value.repo == s'.handles[h].repo.value && lease.value.repo.number == s.nextRepo
            && lease.value.repo.repository == (if th.phase.stage == Target then th.job.targetRepository else th.job.upstreamRepository)
            && lease.value.repo.branch == th.job.upstreamBranch)
      && (l.Refresh? ==> lease.Some? && s'.handles == s.handles)
      && (l.GiveUp? ==>
            && s'.handles[h].repo == s.handles[h].repo
            && (s.handles[h].repo == None ==> s.handles[h].key !in s'.cache)
            && (s.handles[h].repo != None ==> s'.cache == s.cache))
  {
    InitialInv(s0);
    RunKeepsInv(s0, labels);
    assert ThreadOk(After(s0, labels), After(s0, labels).threads[l.t]);
  }
}
