/**
 The references that managed bindings hold to branch targets (internal/policy/branchtarget_policy.go):
 the policy deletes a target first and drops the references to it afterwards. Any call may fail
 and end the pass.
 */
module BranchReferences {
  import opened Common
  import opened Syncers
  import opened BranchTargets
  import Bindings
  import UserTargets

  type Bound = UserTargets.Bound

  /** The bindings as one pass leaves them: no new reference, and every reference kept but those to targets it deleted. */
  ghost predicate DropsOnlyDeleted(before: Targets, bound: Bound, after: Targets, bound': Bound) {
    && (forall k, n :: k in bound' && UserTargets.References(bound'[k], n) ==> k in bound && UserTargets.References(bound[k], n))
    && (forall k, n :: k in bound && (n in after || n !in before) && UserTargets.References(bound[k], n) ==>
          k in bound' && UserTargets.References(bound'[k], n))
  }

  ghost predicate IsReferenced(bound: Bound, n: string) {
    exists k :: k in bound && UserTargets.References(bound[k], n)
  }

  /** The pass deleted this target and left references to it. */
  ghost predicate LeftBehind(before: Targets, after: Targets, bound: Bound, n: string) {
    n in before && n !in after && IsReferenced(bound, n)
  }

  /** What the deletions so far have done: nothing is left behind. */
  ghost predicate CleanSoFar(start: Targets, bound: Bound, targets: Targets, bound': Bound) {
    && targets.Keys <= start.Keys
    && DropsOnlyDeleted(start, bound, targets, bound') && forall n :: !LeftBehind(start, targets, bound', n)
  }

  /** Stopped: something may be left behind of one target. */
  ghost predicate StoppedAt(start: Targets, bound: Bound, targets: Targets, bound': Bound) {
    && targets.Keys <= start.Keys && DropsOnlyDeleted(start, bound, targets, bound')
    && forall m, n :: LeftBehind(start, targets, bound', m) && LeftBehind(start, targets, bound', n) ==> m == n
  }

  /** One more target deleted, and the references to it dropped or left in part. */
  lemma DeleteStep(start: Targets, bound: Bound, targets: Targets, before: Bound, after: Bound, n: string)
    requires n in start && CleanSoFar(start, bound, targets, before) && UserTargets.OnlyTouches(before, after, n)
    ensures StoppedAt(start, bound, targets - {n}, after)
    ensures !IsReferenced(after, n) ==> CleanSoFar(start, bound, targets - {n}, after)
  {
    TouchDropsOnlyDeleted(start, bound, targets, before, after, n);
    LeavesAtMost(start, targets, before, after, n);
  }

  lemma TouchDropsOnlyDeleted(start: Targets, bound: Bound, targets: Targets, before: Bound, after: Bound, n: string)
    requires n in start && DropsOnlyDeleted(start, bound, targets, before) && UserTargets.OnlyTouches(before, after, n)
    ensures DropsOnlyDeleted(start, bound, targets - {n}, after)
  {
    forall k, m | k in after && UserTargets.References(after[k], m) ensures k in before && UserTargets.References(before[k], m) {
      assert m != n ==> Bindings.RefsTo(after[k].binding, m) == Bindings.RefsTo(before[k].binding, m);
    }
    forall k, m | k in bound && (m in targets - {n} || m !in start) && UserTargets.References(bound[k], m)
      ensures k in after && UserTargets.References(after[k], m)
    {
      assert m != n && k in before && UserTargets.References(before[k], m);
      assert k in after ==> Bindings.RefsTo(after[k].binding, m) == Bindings.RefsTo(before[k].binding, m);
    }
  }

  class BranchStore {
    const store: TargetStore
    var bound: Bound

    constructor (store: TargetStore, bound: Bound)
      ensures this.store == store && this.bound == bound
    {
      this.store, this.bound := store, bound;
    }

    /** Deletes a target and then drops the references to it. */
    method DeleteTarget(n: string, ghost start: Targets, ghost refs: Bound) returns (ok: bool)
      requires n in start && CleanSoFar(start, refs, store.targets, bound)
      modifies this`bound, store
      ensures store.targets == old(store.targets) || store.targets == old(store.targets) - {n}
      ensures ok ==> n !in store.targets
      ensures StoppedAt(start, refs, store.targets, bound)
      ensures ok ==> CleanSoFar(start, refs, store.targets, bound)
    {
      if * {
        return false;
      }
      store.targets := store.targets - {n};
      ghost var before := bound;
      bound, ok := UserTargets.RemoveRefs(bound, n);
      DeleteStep(start, refs, old(store.targets), before, bound, n);
    }

    /** The last part of a pass: what nobody wants goes, one target after the other. */
    method DeleteOrphans(self: Syncer, desired: seq<string>, existing: map<string, string>, all: seq<Syncer>) returns (ok: bool)
      requires forall b :: b in existing ==>
        existing[b] in store.targets && Mine(store.targets[existing[b]], self) && store.targets[existing[b]].targetBranch == b
      modifies this`bound, store
      ensures forall n :: n in old(store.targets) && n !in store.targets ==> n in existing.Values
      ensures OnlyUnwantedGo(old(store.targets), store.targets, self, all, desired)
      ensures ok ==> forall b :: b in existing && existing[b] in store.targets ==> b in desired || UsedByOther(all, self, b)
      ensures StoppedAt(old(store.targets), old(bound), store.targets, bound)
      ensures ok ==> CleanSoFar(old(store.targets), old(bound), store.targets, bound)
    {
      var others := OtherSyncers(all, self);
      var todo := existing.Keys;
      while todo != {}
        invariant todo <= existing.Keys
        invariant forall n :: n in old(store.targets) && n !in store.targets ==> n in existing.Values
        invariant OnlyUnwantedGo(old(store.targets), store.targets, self, all, desired)
        invariant forall b :: b in existing && b !in todo && existing[b] in store.targets ==> b in desired || UsedByOther(all, self, b)
        invariant CleanSoFar(old(store.targets), old(bound), store.targets, bound)
        decreases |todo|
      {
        var branch :| branch in todo;
        todo := todo - {branch};
        if branch in desired {
          continue;
        }
        var used := IsBranchUsedByOtherSyncer(branch, self, others);
        assert used <==> UsedByOther(all, self, branch);
        if used {
          continue;
        }
        ok := DeleteTarget(existing[branch], old(store.targets), old(bound));
        if !ok {
          return false;
        }
      }
      return true;
    }

    /**
     One pass of the policy for self. It creates and deletes what a pass without references
     would. It drops references only to targets it deletes; finished, it leaves none to them,
     and stopped by an error, to one of them at most.
     */
    method Reconcile(self: Syncer, all: seq<Syncer>, naming: Naming) returns (ok: bool)
      modifies this`bound, store
      ensures Careful(old(store.targets), store.targets, self, all, Desired(self), naming)
      ensures ok && ProperlyNamed(old(store.targets), self, naming) ==>
        Complete(old(store.targets), store.targets, self, all, Desired(self), naming)
      ensures DropsOnlyDeleted(old(store.targets), old(bound), store.targets, bound)
      ensures ok ==> forall n :: !LeftBehind(old(store.targets), store.targets, bound, n)
      ensures forall m, n :: LeftBehind(old(store.targets), store.targets, bound, m) && LeftBehind(old(store.targets), store.targets, bound, n) ==> m == n
    {
      var desired := Desired(self);
      var existing := store.ExistingBranches(self);
      ok := store.CreateMissing(self, desired, existing, naming);
      if !ok {
        return false;
      }
      ghost var before, created := old(store.targets), store.targets;
      ok := DeleteOrphans(self, desired, existing, all);
      WholePass(before, created, old(bound), store.targets, bound, existing.Values);
      CreatedThenDeleted(before, created, store.targets, self, all, naming);
      if ok && ProperlyNamed(before, self, naming) {
        WholePassCompletes(before, created, store.targets, self, all, existing, naming);
      }
    }

    /** Cleanup after the policy of self, with the same order of calls. */
    method Cleanup(self: Syncer, all: seq<Syncer>) returns (ok: bool)
      modifies this`bound, store
      ensures OnlyUnwantedGo(old(store.targets), store.targets, self, all, [])
      ensures ok ==> forall n :: n in store.targets && Mine(store.targets[n], self) ==> UsedByOther(all, self, store.targets[n].targetBranch)
      ensures StoppedAt(old(store.targets), old(bound), store.targets, bound)
      ensures ok ==> CleanSoFar(old(store.targets), old(bound), store.targets, bound)
    {
      var others := OtherSyncers(all, self);
      var todo := store.targets.Keys;
      while todo != {}
        invariant todo <= old(store.targets).Keys
        invariant forall n :: n in todo ==> n in store.targets
        invariant OnlyUnwantedGo(old(store.targets), store.targets, self, all, [])
        invariant forall n :: n in store.targets && n !in todo && Mine(store.targets[n], self) ==>
          UsedByOther(all, self, store.targets[n].targetBranch)
        invariant CleanSoFar(old(store.targets), old(bound), store.targets, bound)
        decreases |todo|
      {
        var n :| n in todo;
        todo := todo - {n};
        if !Mine(store.targets[n], self) {
          continue;
        }
        var used := IsBranchUsedByOtherSyncer(store.targets[n].targetBranch, self, others);
        assert used <==> UsedByOther(all, self, store.targets[n].targetBranch);
        if used {
          continue;
        }
        ok := DeleteTarget(n, old(store.targets), old(bound));
        if !ok {
          return false;
        }
      }
      return true;
    }
  }

  /** Deletions of a pass: nothing else changes, and what goes no syncer wants. */
  ghost predicate OnlyUnwantedGo(before: Targets, after: Targets, self: Syncer, all: seq<Syncer>, desired: seq<string>) {
    && (forall n :: n in after ==> n in before && after[n] == before[n])
    && (forall n :: n in before && n !in after ==>
          Mine(before[n], self) && before[n].targetBranch !in desired && !UsedByOther(all, self, before[n].targetBranch))
  }

  lemma CreatedThenDeleted(before: Targets, created: Targets, after: Targets, self: Syncer, all: seq<Syncer>, naming: Naming)
    requires forall n :: n in before ==> n in created && created[n] == before[n]
    requires forall n :: n in created && n !in before ==>
      exists b :: b in Desired(self) && NameFor(naming, self, b) == Some(n) && created[n] == Build(self, b)
    requires OnlyUnwantedGo(created, after, self, all, Desired(self))
    ensures Careful(before, after, self, all, Desired(self), naming)
    ensures forall n :: n in created && n !in after ==> n in before
  {
    forall n | n in created && n !in after ensures n in before {
      assert created[n].targetBranch !in Desired(self);
    }
  }

  /** Creating targets first changes nothing about references. */
  lemma WholePass(before: Targets, created: Targets, bound: Bound, after: Targets, bound': Bound, listed: set<string>)
    requires before.Keys <= created.Keys && listed <= before.Keys && StoppedAt(created, bound, after, bound')
    requires forall n :: n in created && n !in after ==> n in listed
    ensures DropsOnlyDeleted(before, bound, after, bound')
    ensures forall n :: LeftBehind(before, after, bound', n) ==> LeftBehind(created, after, bound', n)
  {
  }

  /** Stopped after the deletion and before the references: the target is gone and its references are not. */
  lemma StoppedBetween(targets: Targets, bound: Bound, n: string)
    requires n in targets && IsReferenced(bound, n)
    ensures DropsOnlyDeleted(targets, bound, targets - {n}, bound) && LeftBehind(targets, targets - {n}, bound, n)
  {
  }

  lemma OtherStaysUnreferenced(before: Bound, after: Bound, n: string, m: string)
    requires UserTargets.OnlyTouches(before, after, n) && m != n
    ensures IsReferenced(after, m) ==> IsReferenced(before, m)
  {
    if k :| k in after && UserTargets.References(after[k], m) {
      assert Bindings.RefsTo(after[k].binding, m) == Bindings.RefsTo(before[k].binding, m);
      assert UserTargets.References(before[k], m);
    }
  }

  /** Deleting n leaves no references but to n. */
  lemma LeavesAtMost(start: Targets, targets: Targets, before: Bound, after: Bound, n: string)
    requires UserTargets.OnlyTouches(before, after, n) && forall m :: !LeftBehind(start, targets, before, m)
    ensures forall m :: m != n ==> !LeftBehind(start, targets - {n}, after, m) && !LeftBehind(start, targets, after, m)
  {
    forall m | m != n ensures !LeftBehind(start, targets - {n}, after, m) && !LeftBehind(start, targets, after, m) {
      assert !LeftBehind(start, targets, before, m);
      OtherStaysUnreferenced(before, after, n, m);
    }
  }

  // ---------- what is left behind stays ----------

  /** The targets and the bindings before and after each pass of whatever syncer. */
  datatype Snapshot = Snapshot(targets: Targets, bound: Bound)

  ghost predicate PassOf(states: seq<Snapshot>, i: nat)
    requires i + 1 < |states|
  {
    DropsOnlyDeleted(states[i].targets, states[i].bound, states[i + 1].targets, states[i + 1].bound)
  }

  /**
   A reference to a target that is gone is dropped by no later pass, finished or not, until
   there is a target of that name again: a pass drops references to targets it deletes only,
   and it deletes what it lists.
   */
  lemma {:induction false} LeftBehindStays(states: seq<Snapshot>, k: string, n: string, i: nat)
    requires i < |states| && forall j: nat :: j + 1 < |states| ==> PassOf(states, j)
    requires forall j :: 0 <= j < |states| ==> n !in states[j].targets
    requires k in states[0].bound && UserTargets.References(states[0].bound[k], n)
    ensures k in states[i].bound && UserTargets.References(states[i].bound[k], n)
  {
    if i > 0 {
      LeftBehindStays(states, k, n, i - 1);
      assert PassOf(states, i - 1);
    }
  }
}
