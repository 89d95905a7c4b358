/**
 Per-user targets and the bindings that reference them (internal/policy/userspecific_policy.go):
 a target is created before it is referenced and dereferenced everywhere before it is deleted.
 Any API call may fail and end the pass, so what holds when a method returns holds after every call.
 */
module UserTargets {
  import opened Common
  import opened Syncers
  import opened Bindings

  datatype UserTarget = UserTarget(upstreamRepository: string, upstreamBranch: string, targetRepository: string,
                                   user: string, userSpecific: bool)

  /** A managed binding: user is the value of its user label. */
  datatype ManagedBinding = ManagedBinding(binding: Binding, user: string)

  type Targets = map<string, UserTarget>
  type Bound = map<string, ManagedBinding>
  type Naming = (string, string, string, string) -> Option<string>

  const ONE_USER_ONE_FORK := "one-user-one-fork"

  predicate Mine(t: UserTarget, self: Syncer) {
    t.userSpecific && t.upstreamRepository == self.repository && t.upstreamBranch == self.branch
  }

  function TargetRepository(self: Syncer): string {
    if self.annotation == ONE_USER_ONE_FORK then "" else self.repository
  }

  function NameFor(naming: Naming, self: Syncer, user: string): Option<string> {
    naming(self.repository, self.branch, TargetRepository(self), user)
  }

  /** The target of a user: the one found when the pass began, or the one whose name is derived. */
  function TargetName(self: Syncer, existing: map<string, string>, naming: Naming, user: string): Option<string> {
    if user in existing then Some(existing[user]) else NameFor(naming, self, user)
  }

  /** A new target: on the syncer's upstream, in the same repository unless each user has a fork, under the name derived for its user. */
  predicate IsBuiltFor(t: UserTarget, n: string, self: Syncer, naming: Naming) {
    var repository := if self.annotation == "one-user-one-fork" then "" else self.repository;
    && t.upstreamRepository == self.repository && t.upstreamBranch == self.branch && t.targetRepository == repository
    && t.userSpecific && t.user != "" && naming(self.repository, self.branch, repository, t.user) == Some(n)
  }

  /** Another syncer, of either kind, has the same identity namespace and upstream and the policy's annotation. */
  ghost predicate IsSharedUpstream(all: seq<Syncer>, self: Syncer) {
    exists s :: s in all && s.annotation != ""
      && (s.Namespaced? != self.Namespaced? || s.name != self.name || (s.Namespaced? && s.namespace != self.namespace))
      && (if s.Namespaced? then s.namespace else s.identityStoreNamespace)
           == (if self.Namespaced? then self.namespace else self.identityStoreNamespace)
      && s.repository == self.repository && s.branch == self.branch
  }

  lemma SharedIsUsed(all: seq<Syncer>, self: Syncer)
    ensures IsSharedUpstream(all, self) <==> UsedByOther(all, self)
  {
  }

  ghost predicate UsedByOther(all: seq<Syncer>, self: Syncer) {
    exists s :: s in all && IsOther(s, self) && s.repository == self.repository && s.branch == self.branch
  }

  ghost predicate References(b: ManagedBinding, target: string) {
    RefsTo(b.binding, target) != []
  }

  /** The binding of a user references that user's target, which exists. */
  ghost predicate Served(targets: Targets, b: ManagedBinding, self: Syncer, existing: map<string, string>, naming: Naming) {
    && b.user != ""
    && var name := TargetName(self, existing, naming, b.user);
    && name.Some? && name.value in targets && References(b, name.value)
  }

  /** The target the pass found for a user without a binding. */
  predicate IsStale(existing: map<string, string>, active: set<string>, user: string, n: string) {
    user in existing && existing[user] == n && user !in active
  }

  /** Each reference a managed binding holds to one of these targets names an existing target. */
  ghost predicate NoDangling(targets: Targets, bound: Bound, known: set<string>) {
    forall k, n :: k in bound && n in known && References(bound[k], n) ==> n in targets
  }

  ghost predicate HasTarget(targets: Targets, self: Syncer, user: string) {
    exists n :: n in targets && Mine(targets[n], self) && targets[n].user == user
  }

  ghost predicate HasBinding(bound: Bound, user: string) {
    exists k :: k in bound && bound[k].user == user
  }

  /** n is a target of the user among these, or the one whose name is derived when there is none. */
  ghost predicate IsTargetOf(targets: Targets, self: Syncer, naming: Naming, user: string, n: string) {
    if HasTarget(targets, self, user) then n in targets && Mine(targets[n], self) && targets[n].user == user
    else NameFor(naming, self, user) == Some(n)
  }

  /** The binding references a target of its user that exists. */
  ghost predicate IsServed(before: Targets, targets: Targets, b: ManagedBinding, self: Syncer, naming: Naming) {
    exists n :: IsTargetOf(before, self, naming, b.user, n) && n in targets && References(b, n)
  }

  /** The name derived for the user belongs to a target that this pass prunes: its own user has no binding any more. */
  ghost predicate NameIsPruned(targets: Targets, bound: Bound, self: Syncer, all: seq<Syncer>, naming: Naming, user: string) {
    && !HasTarget(targets, self, user) && !UsedByOther(all, self)
    && var name := NameFor(naming, self, user);
    && name.Some? && name.value in targets && Mine(targets[name.value], self)
    && targets[name.value].user != "" && !HasBinding(bound, targets[name.value].user)
  }

  ghost predicate OneTargetPerUser(targets: Targets, self: Syncer) {
    forall m, n :: m in targets && n in targets && Mine(targets[m], self) && Mine(targets[n], self) && targets[m].user == targets[n].user
      ==> m == n
  }

  // ---------- one binding ----------

  /** One binding gets a reference to target. */
  function Referenced(bound: Bound, k: string, target: string): Bound
    requires k in bound
  {
    bound[k := bound[k].(binding := Mutated(bound[k].binding, Add(target)))]
  }

  /** One binding loses its references to target, and goes when nothing is left in it. */
  function Dereferenced(bound: Bound, k: string, target: string): Bound
    requires k in bound
  {
    var after := Mutated(bound[k].binding, Remove(target));
    if after.userRefs == [] && after.targetRefs == [] then bound - {k} else bound[k := bound[k].(binding := after)]
  }

  lemma ReferenceKeepsUsers(bound: Bound, k: string, target: string, targets: Targets, known: set<string>)
    requires k in bound && target in targets && NoDangling(targets, bound, known)
    ensures NoDangling(targets, Referenced(bound, k, target), known)
  {
    forall n { MutationEffect(bound[k].binding, Add(target), n); }
  }

  lemma ReferenceServes(bound: Bound, k: string, targets: Targets, self: Syncer, existing: map<string, string>, naming: Naming)
    requires k in bound && bound[k].user != ""
    requires var name := TargetName(self, existing, naming, bound[k].user); name.Some? && name.value in targets
    ensures var after := Referenced(bound, k, TargetName(self, existing, naming, bound[k].user).value);
      && Served(targets, after[k], self, existing, naming)
      && forall j :: j in bound && Served(targets, bound[j], self, existing, naming) ==> Served(targets, after[j], self, existing, naming)
  {
    var target := TargetName(self, existing, naming, bound[k].user).value;
    forall n { MutationEffect(bound[k].binding, Add(target), n); }
  }

  /** Bindings were only mutated on references to target, and dropped only when nothing else was left in them. */
  ghost predicate OnlyTouches(before: Bound, after: Bound, target: string) {
    && (forall k :: k in after ==>
          k in before && after[k].user == before[k].user && after[k].binding.userRefs == before[k].binding.userRefs)
    && (forall k, n :: k in after && n != target ==> RefsTo(after[k].binding, n) == RefsTo(before[k].binding, n))
    && (forall k :: k in after && References(after[k], target) ==> References(before[k], target))
    && (forall k, n :: k in before && k !in after && n != target ==> !References(before[k], n))
  }

  lemma DereferenceTouches(bound: Bound, k: string, target: string)
    requires k in bound
    ensures OnlyTouches(bound, Dereferenced(bound, k, target), target)
    ensures k in Dereferenced(bound, k, target) ==> !References(Dereferenced(bound, k, target)[k], target)
  {
    var after := Mutated(bound[k].binding, Remove(target));
    forall n { MutationEffect(bound[k].binding, Remove(target), n); }
    assert after.targetRefs == [] ==> forall n :: RefsTo(after, n) == [];
  }

  lemma OnlyTouchesTransitive(a: Bound, b: Bound, c: Bound, target: string)
    requires OnlyTouches(a, b, target) && OnlyTouches(b, c, target)
    ensures OnlyTouches(a, c, target)
  {
    forall k, n | k in a && k !in c && n != target ensures !References(a[k], n) {
      if k in b { assert !References(b[k], n); }
    }
  }

  /** Dropping references never makes one dangle. */
  lemma TouchingKeepsReferences(targets: Targets, before: Bound, after: Bound, target: string, known: set<string>)
    requires OnlyTouches(before, after, target) && NoDangling(targets, before, known)
    ensures NoDangling(targets, after, known)
  {
    forall k, n | k in after && n in known && References(after[k], n) ensures n in targets {
      assert References(before[k], n);
    }
  }

  /** What referenced another target still does. */
  ghost predicate KeepsReferences(before: Bound, after: Bound, targets: Targets) {
    forall k, n :: k in before && n in targets && References(before[k], n) ==> k in after && References(after[k], n)
  }

  lemma KeepsTransitive(a: Bound, b: Bound, c: Bound, before: Targets, after: Targets)
    requires KeepsReferences(a, b, before) && KeepsReferences(b, c, after) && after.Keys <= before.Keys
    ensures KeepsReferences(a, c, after)
  {
  }

  lemma TouchingKeepsOthers(before: Bound, after: Bound, targets: Targets, target: string)
    requires OnlyTouches(before, after, target) && target !in targets
    ensures KeepsReferences(before, after, targets)
  {
  }

  /** A binding gained nothing but a reference to the target of its own user, and lost none. */
  ghost predicate OnlyAdds(before: Bound, after: Bound, self: Syncer, existing: map<string, string>, naming: Naming) {
    after.Keys == before.Keys && forall k :: k in after ==> GainedOwn(before[k], after[k], self, existing, naming)
  }

  ghost predicate GainedOwn(before: ManagedBinding, after: ManagedBinding, self: Syncer, existing: map<string, string>, naming: Naming) {
    && after.user == before.user
    && (forall n :: References(before, n) ==> References(after, n))
    && (forall n :: References(after, n) ==>
          References(before, n) || (after.user != "" && TargetName(self, existing, naming, after.user) == Some(n)))
  }

  lemma ReferenceAdds(bound: Bound, k: string, target: string, self: Syncer, existing: map<string, string>, naming: Naming)
    requires k in bound && bound[k].user != "" && TargetName(self, existing, naming, bound[k].user) == Some(target)
    ensures OnlyAdds(bound, Referenced(bound, k, target), self, existing, naming)
  {
    OwnGained(bound[k], target, self, existing, naming);
  }

  lemma OwnGained(b: ManagedBinding, target: string, self: Syncer, existing: map<string, string>, naming: Naming)
    requires b.user != "" && TargetName(self, existing, naming, b.user) == Some(target)
    ensures GainedOwn(b, b.(binding := Mutated(b.binding, Add(target))), self, existing, naming)
  {
    var after := b.(binding := Mutated(b.binding, Add(target)));
    forall n ensures References(after, n) <==> References(b, n) || n == target {
      MutationEffect(b.binding, Add(target), n);
    }
  }

  lemma OnlyAddsTransitive(a: Bound, b: Bound, c: Bound, self: Syncer, existing: map<string, string>, naming: Naming)
    requires OnlyAdds(a, b, self, existing, naming) && OnlyAdds(b, c, self, existing, naming)
    ensures OnlyAdds(a, c, self, existing, naming)
  {
    forall k | k in c ensures GainedOwn(a[k], c[k], self, existing, naming) {
      assert GainedOwn(a[k], b[k], self, existing, naming) && GainedOwn(b[k], c[k], self, existing, naming);
    }
  }

  /** No binding and no reference that was not there. */
  ghost predicate NothingGained(before: Bound, after: Bound) {
    forall k :: k in after ==> k in before && after[k].user == before[k].user && forall n :: References(after[k], n) ==> References(before[k], n)
  }

  lemma TouchingGainsNothing(before: Bound, after: Bound, target: string)
    requires OnlyTouches(before, after, target)
    ensures NothingGained(before, after)
  {
    forall k, n | k in after && References(after[k], n) ensures References(before[k], n) {
      if n != target { assert RefsTo(after[k].binding, n) == RefsTo(before[k].binding, n); }
    }
  }

  /** What a binding references afterwards it referenced before, or it is the target of its own user. */
  ghost predicate GainsOwnTargets(before: Targets, bound: Bound, after: Bound, self: Syncer, naming: Naming) {
    && (forall k :: k in after ==> k in bound && after[k].user == bound[k].user)
    && (forall k, n :: k in after && References(after[k], n) ==>
          References(bound[k], n) || IsTargetOf(before, self, naming, bound[k].user, n))
  }

  lemma PassGainsOwnTargets(before: Targets, bound: Bound, referenced: Bound, after: Bound, self: Syncer,
                            existing: map<string, string>, naming: Naming)
    requires forall u :: u in existing ==>
      u != "" && existing[u] in before && Mine(before[existing[u]], self) && before[existing[u]].user == u
    requires forall n :: n in before && Mine(before[n], self) && before[n].user != "" ==> before[n].user in existing
    requires OnlyAdds(bound, referenced, self, existing, naming) && NothingGained(referenced, after)
    ensures GainsOwnTargets(before, bound, after, self, naming)
  {
    forall k, n | k in after && References(after[k], n)
      ensures References(bound[k], n) || IsTargetOf(before, self, naming, bound[k].user, n)
    {
      assert GainedOwn(bound[k], referenced[k], self, existing, naming);
      var user := bound[k].user;
      if user != "" && user in existing { assert HasTarget(before, self, user); }
    }
  }

  lemma AddsThenKeeps(a: Bound, b: Bound, c: Bound, self: Syncer, existing: map<string, string>, naming: Naming, targets: Targets)
    requires OnlyAdds(a, b, self, existing, naming) && KeepsReferences(b, c, targets)
    ensures KeepsReferences(a, c, targets)
  {
    forall k, n | k in a && n in targets && References(a[k], n) ensures k in c && References(c[k], n) {
      assert GainedOwn(a[k], b[k], self, existing, naming);
    }
  }

  /** A target that serves a binding is stale only if its name is. */
  lemma ServedStays(start: Targets, bound: Bound, created: Targets, b: ManagedBinding, self: Syncer, all: seq<Syncer>,
                    existing: map<string, string>, active: set<string>, naming: Naming, targets: Targets)
    requires Served(created, b, self, existing, naming) && b.user in active
    requires forall u :: u in existing ==> existing[u] in start && Mine(start[existing[u]], self) && start[existing[u]].user == u && u != ""
    requires forall n :: n in start && Mine(start[n], self) && start[n].user != "" ==> start[n].user in existing
    requires forall n :: n in start ==> n in created && created[n] == start[n]
    requires forall u :: HasBinding(bound, u) && u != "" ==> u in active
    requires forall n :: n in created && n !in targets ==>
      Mine(created[n], self) && IsStale(existing, active, created[n].user, n) && !UsedByOther(all, self)
    requires !NameIsPruned(start, bound, self, all, naming, b.user)
    ensures var n := TargetName(self, existing, naming, b.user).value;
      IsTargetOf(start, self, naming, b.user, n) && n in targets && References(b, n)
  {
    var n := TargetName(self, existing, naming, b.user).value;
    if b.user in existing {
      assert HasTarget(start, self, b.user);
    }
  }

  /** Only stale targets of an unshared upstream are missing. */
  ghost predicate OnlyPruned(self: Syncer, all: seq<Syncer>, existing: map<string, string>, active: set<string>,
                             before: Targets, after: Targets) {
    && (forall n :: n in after ==> n in before && after[n] == before[n])
    && (forall n :: n in before && n !in after ==>
          Mine(before[n], self) && IsStale(existing, active, before[n].user, n) && !UsedByOther(all, self))
  }

  lemma PruneOne(self: Syncer, all: seq<Syncer>, existing: map<string, string>, active: set<string>,
                 before: Targets, after: Targets, user: string)
    requires OnlyPruned(self, all, existing, active, before, after) && !UsedByOther(all, self)
    requires user in existing && user !in active && existing[user] in before
    requires Mine(before[existing[user]], self) && before[existing[user]].user == user
    ensures OnlyPruned(self, all, existing, active, before, after - {existing[user]})
  {
  }

  /** Every user with a binding is served, unless the name derived for it is that of a target the pass prunes. */
  ghost predicate ServedExactly(before: Targets, bound: Bound, after: Targets, bound': Bound, self: Syncer, all: seq<Syncer>, naming: Naming) {
    forall k :: k in bound && bound[k].user != "" ==> ServedAt(before, bound, after, bound', self, all, naming, k)
  }

  ghost predicate ServedAt(before: Targets, bound: Bound, after: Targets, bound': Bound, self: Syncer, all: seq<Syncer>,
                           naming: Naming, k: string)
    requires k in bound
  {
    && (!NameIsPruned(before, bound, self, all, naming, bound[k].user) ==>
          k in bound' && bound'[k].user == bound[k].user && IsServed(before, after, bound'[k], self, naming))
    && (OneTargetPerUser(before, self) && NameIsPruned(before, bound, self, all, naming, bound[k].user) ==>
          !(k in bound' && IsServed(before, after, bound'[k], self, naming)))
  }

  lemma PassServes(start: Targets, bound: Bound, created: Targets, referenced: Bound, targets: Targets, after: Bound, self: Syncer,
                   all: seq<Syncer>, existing: map<string, string>, active: set<string>, naming: Naming, k: string)
    requires forall u :: u in existing ==> existing[u] in start && Mine(start[existing[u]], self) && start[existing[u]].user == u && u != ""
    requires forall n :: n in start && Mine(start[n], self) && start[n].user != "" ==> start[n].user in existing
    requires forall n :: n in start ==> n in created && created[n] == start[n]
    requires k in bound && k in referenced && referenced[k].user == bound[k].user && bound[k].user != ""
    requires forall u :: u in active ==> HasBinding(bound, u)
    requires forall u :: HasBinding(bound, u) && u != "" ==> u in active
    requires Served(created, referenced[k], self, existing, naming)
    requires OnlyPruned(self, all, existing, active, created, targets)
    requires k in after ==> after[k].user == bound[k].user
    requires KeepsReferences(referenced, after, targets)
    requires !UsedByOther(all, self) ==> forall u :: u in existing && u !in active ==> existing[u] !in targets
    ensures ServedAt(start, bound, targets, after, self, all, naming, k)
  {
    if !NameIsPruned(start, bound, self, all, naming, bound[k].user) {
      ServedStays(start, bound, created, referenced[k], self, all, existing, active, naming, targets);
    } else if OneTargetPerUser(start, self) {
      PrunedNameIsGone(start, bound, self, all, existing, active, naming, targets, bound[k].user);
    }
  }

  /** A pruned name belongs to a target the pass found for a user without a binding, and is gone. */
  lemma PrunedNameIsGone(start: Targets, bound: Bound, self: Syncer, all: seq<Syncer>, existing: map<string, string>,
                         active: set<string>, naming: Naming, targets: Targets, user: string)
    requires forall u :: u in existing ==> existing[u] in start && Mine(start[existing[u]], self) && start[existing[u]].user == u && u != ""
    requires forall n :: n in start && Mine(start[n], self) && start[n].user != "" ==> start[n].user in existing
    requires forall u :: u in active ==> HasBinding(bound, u)
    requires !UsedByOther(all, self) ==> forall u :: u in existing && u !in active ==> existing[u] !in targets
    requires OneTargetPerUser(start, self) && NameIsPruned(start, bound, self, all, naming, user)
    ensures forall n :: IsTargetOf(start, self, naming, user, n) ==> n !in targets
  {
    var n := NameFor(naming, self, user).value;
    var other := start[n].user;
    assert other in existing && existing[other] == n && other !in active;
  }

  /** A target that goes is per user and of this upstream, which no other syncer shares, and its user has no binding. */
  ghost predicate DeletesOnlyStale(before: Targets, bound: Bound, after: Targets, self: Syncer, all: seq<Syncer>) {
    forall n :: n in before && n !in after ==>
      && before[n].userSpecific && !IsSharedUpstream(all, self) && !HasBinding(bound, before[n].user)
      && before[n].upstreamRepository == self.repository && before[n].upstreamBranch == self.branch
  }

  lemma PassDeletesOnlyStale(start: Targets, bound: Bound, created: Targets, targets: Targets, self: Syncer, all: seq<Syncer>,
                             existing: map<string, string>, active: set<string>)
    requires forall u :: u in existing ==> u != ""
    requires forall n :: n in start ==> n in created && created[n] == start[n]
    requires forall u :: HasBinding(bound, u) && u != "" ==> u in active
    requires OnlyPruned(self, all, existing, active, created, targets)
    ensures DeletesOnlyStale(start, bound, targets, self, all)
  {
    SharedIsUsed(all, self);
  }

  class UserStore {
    var targets: Targets
    var bound: Bound

    constructor (targets: Targets, bound: Bound)
      ensures this.targets == targets && this.bound == bound
    {
      this.targets, this.bound := targets, bound;
    }

    /** The targets of this upstream by the user they are labelled with. */
    method ExistingByUser(self: Syncer) returns (existing: map<string, string>)
      ensures forall u :: u in existing ==>
        u != "" && existing[u] in targets && Mine(targets[existing[u]], self) && targets[existing[u]].user == u
      ensures forall n :: n in targets && Mine(targets[n], self) && targets[n].user != "" ==> targets[n].user in existing
    {
      existing := map[];
      var todo := targets.Keys;
      while todo != {}
        invariant todo <= targets.Keys
        invariant forall u :: u in existing ==>
          u != "" && existing[u] in targets && Mine(targets[existing[u]], self) && targets[existing[u]].user == u
        invariant forall n :: n in targets && n !in todo && Mine(targets[n], self) && targets[n].user != "" ==> targets[n].user in existing
        decreases |todo|
      {
        var n :| n in todo;
        todo := todo - {n};
        if Mine(targets[n], self) && targets[n].user != "" {
          existing := existing[targets[n].user := n];
        }
      }
    }

    /** Adds a reference to target to one binding. */
    method EnsureRef(k: string, target: string) returns (ok: bool)
      modifies this`bound
      ensures ok ==> k in old(bound) && bound == Referenced(old(bound), k, target)
      ensures !ok ==> bound == old(bound)
    {
      if * {
        return false;
      }
      if k !in bound {
        return false;
      }
      bound := bound[k := bound[k].(binding := Mutated(bound[k].binding, Add(target)))];
      return true;
    }

    /** Removes the references to target from every managed binding, deleting those left empty. */
    method RemoveRefEverywhere(target: string) returns (ok: bool)
      modifies this`bound
      ensures OnlyTouches(old(bound), bound, target)
      ensures ok ==> forall j :: j in bound ==> !References(bound[j], target)
    {
      bound, ok := RemoveRefs(bound, target);
    }

    /** Makes sure the user of one binding has a target, and only then references it. */
    method ReconcileUser(k: string, self: Syncer, existing: map<string, string>, naming: Naming, ghost known: set<string>) returns (ok: bool)
      requires k in bound && bound[k].user != ""
      requires forall u :: u in existing ==> existing[u] in targets
      modifies this
      ensures NoDangling(old(targets), old(bound), known) ==> NoDangling(targets, bound, known)
      ensures forall n :: n in old(targets) ==> n in targets && targets[n] == old(targets)[n]
      ensures forall n :: n in targets && n !in old(targets) ==> IsBuiltFor(targets[n], n, self, naming)
      ensures bound.Keys == old(bound).Keys && forall j :: j in bound ==> bound[j].user == old(bound)[j].user
      ensures OnlyAdds(old(bound), bound, self, existing, naming)
      ensures ok ==> Served(targets, bound[k], self, existing, naming)
      ensures ok ==> forall j :: j in bound && Served(old(targets), old(bound)[j], self, existing, naming) ==>
        Served(targets, bound[j], self, existing, naming)
    {
      var user := bound[k].user;
      var name := TargetName(self, existing, naming, user);
      if name.None? {
        return false;
      }
      if user !in existing {
        if * {
          return false;
        }
        if name.value !in targets {
          targets := targets[name.value := UserTarget(self.repository, self.branch, TargetRepository(self), user, true)];
        }
      }
      ghost var before := bound;
      ok := EnsureRef(k, name.value);
      if ok {
        ReferenceAdds(before, k, name.value, self, existing, naming);
        ReferenceServes(before, k, targets, self, existing, naming);
        if NoDangling(targets, before, known) { ReferenceKeepsUsers(before, k, name.value, targets, known); }
      }
    }

    /** Every user with a managed binding gets a target, created first and referenced then. */
    method ReconcileUsers(self: Syncer, existing: map<string, string>, naming: Naming, ghost known: set<string>)
      returns (active: set<string>, ok: bool)
      requires forall u :: u in existing ==> existing[u] in targets
      modifies this
      ensures NoDangling(old(targets), old(bound), known) ==> NoDangling(targets, bound, known)
      ensures forall n :: n in old(targets) ==> n in targets && targets[n] == old(targets)[n]
      ensures forall n :: n in targets && n !in old(targets) ==> IsBuiltFor(targets[n], n, self, naming)
      ensures OnlyAdds(old(bound), bound, self, existing, naming)
      ensures bound.Keys == old(bound).Keys && forall j :: j in bound ==> bound[j].user == old(bound)[j].user
      ensures ok ==> forall j :: j in bound && bound[j].user != "" ==>
        bound[j].user in active && Served(targets, bound[j], self, existing, naming)
      ensures forall u :: u in active ==> HasBinding(old(bound), u)
    {
      active := {};
      var todo := bound.Keys;
      while todo != {}
        invariant todo <= old(bound).Keys
        invariant NoDangling(old(targets), old(bound), known) ==> NoDangling(targets, bound, known)
        invariant forall n :: n in old(targets) ==> n in targets && targets[n] == old(targets)[n]
        invariant forall n :: n in targets && n !in old(targets) ==> IsBuiltFor(targets[n], n, self, naming)
        invariant OnlyAdds(old(bound), bound, self, existing, naming)
        invariant bound.Keys == old(bound).Keys && forall j :: j in bound ==> bound[j].user == old(bound)[j].user
        invariant forall j :: j in bound && j !in todo && bound[j].user != "" ==>
          bound[j].user in active && Served(targets, bound[j], self, existing, naming)
        invariant forall u :: u in active ==> HasBinding(old(bound), u)
        decreases |todo|
      {
        var k :| k in todo;
        todo := todo - {k};
        if bound[k].user == "" {
          continue;
        }
        active := active + {bound[k].user};
        ghost var before := bound;
        ok := ReconcileUser(k, self, existing, naming, known);
        OnlyAddsTransitive(old(bound), before, bound, self, existing, naming);
        if !ok {
          return active, false;
        }
      }
      return active, true;
    }

    /** Drops every reference to a target and then the target. */
    method RemoveTarget(name: string, ghost known: set<string>) returns (ok: bool)
      modifies this
      ensures NoDangling(old(targets), old(bound), known) ==> NoDangling(targets, bound, known)
      ensures OnlyTouches(old(bound), bound, name)
      ensures forall j :: j in bound ==> j in old(bound) && bound[j].user == old(bound)[j].user
      ensures targets == old(targets) || targets == old(targets) - {name}
      ensures ok ==> targets == old(targets) - {name} && KeepsReferences(old(bound), bound, targets)
    {
      ok := RemoveRefEverywhere(name);
      if NoDangling(targets, old(bound), known) { TouchingKeepsReferences(targets, old(bound), bound, name, known); }
      if !ok {
        return false;
      }
      if * {
        return false;
      }
      targets := targets - {name};
      TouchingKeepsOthers(old(bound), bound, targets, name);
      return true;
    }

    /** Removes the targets of users that no longer have a binding, unless another syncer shares the upstream. */
    method PruneStale(self: Syncer, all: seq<Syncer>, existing: map<string, string>, active: set<string>, ghost known: set<string>)
      returns (ok: bool)
      requires forall u :: u in existing ==> existing[u] in targets && Mine(targets[existing[u]], self) && targets[existing[u]].user == u
      modifies this
      ensures NoDangling(old(targets), old(bound), known) ==> NoDangling(targets, bound, known)
      ensures OnlyPruned(self, all, existing, active, old(targets), targets)
      ensures ok ==> KeepsReferences(old(bound), bound, targets)
      ensures NothingGained(old(bound), bound)
      ensures forall j :: j in bound ==> j in old(bound) && bound[j].user == old(bound)[j].user
      ensures ok && !UsedByOther(all, self) ==> forall u :: u in existing && u !in active ==> existing[u] !in targets
    {
      var others := OtherSyncers(all, self);
      var todo := existing.Keys;
      while todo != {}
        invariant todo <= existing.Keys
        invariant NoDangling(old(targets), old(bound), known) ==> NoDangling(targets, bound, known)
        invariant OnlyPruned(self, all, existing, active, old(targets), targets)
        invariant KeepsReferences(old(bound), bound, targets)
        invariant NothingGained(old(bound), bound)
        invariant forall j :: j in bound ==> j in old(bound) && bound[j].user == old(bound)[j].user
        invariant !UsedByOther(all, self) ==> forall u :: u in existing && u !in todo && u !in active ==> existing[u] !in targets
        decreases |todo|
      {
        var user :| user in todo;
        todo := todo - {user};
        if user in active {
          continue;
        }
        var used := IsUsed(others, self);
        assert used <==> UsedByOther(all, self);
        if used {
          continue;
        }
        ghost var before, present := bound, targets;
        ok := RemoveTarget(existing[user], known);
        TouchingGainsNothing(before, bound, existing[user]);
        PruneOne(self, all, existing, active, old(targets), present, user);
        if !ok {
          return false;
        }
        KeepsTransitive(old(bound), before, bound, present, targets);
      }
      return true;
    }

    /**
     One pass of the policy. Whatever call fails, no reference dangles that did not before, no
     binding gains a reference but to its own user's target, and no target of a user with a
     binding or of a shared upstream is deleted. If none fails, no other reference is lost, and a
     user with a binding is served if and only if the name derived for its target is not that
     of a stale one, which the pass prunes after it has referenced it.
     */
    method Reconcile(self: Syncer, all: seq<Syncer>, naming: Naming, ghost known: set<string>) returns (ok: bool)
      modifies this
      ensures NoDangling(old(targets), old(bound), known) ==> NoDangling(targets, bound, known)
      ensures forall n :: n in old(targets) && n in targets ==> targets[n] == old(targets)[n]
      ensures DeletesOnlyStale(old(targets), old(bound), targets, self, all)
      ensures forall n :: n in targets && n !in old(targets) ==> IsBuiltFor(targets[n], n, self, naming)
      ensures GainsOwnTargets(old(targets), old(bound), bound, self, naming)
      ensures ok ==> KeepsReferences(old(bound), bound, targets)
      ensures ok ==> ServedExactly(old(targets), old(bound), targets, bound, self, all, naming)
    {
      var existing := ExistingByUser(self);
      var active;
      active, ok := ReconcileUsers(self, existing, naming, known);
      if !ok {
        PassGainsOwnTargets(old(targets), old(bound), bound, bound, self, existing, naming);
        return false;
      }
      ghost var created, referenced := targets, bound;
      ok := PruneStale(self, all, existing, active, known);
      PassGainsOwnTargets(old(targets), old(bound), referenced, bound, self, existing, naming);
      PassDeletesOnlyStale(old(targets), old(bound), created, targets, self, all, existing, active);
      if ok {
        AddsThenKeeps(old(bound), referenced, bound, self, existing, naming, targets);
        forall k | k in old(bound) && old(bound)[k].user != ""
          ensures ServedAt(old(targets), old(bound), targets, bound, self, all, naming, k)
        {
          PassServes(old(targets), old(bound), created, referenced, targets, bound, self, all, existing, active, naming, k);
        }
      }
    }

    /** Cleanup: every target of this upstream goes, references first, unless another syncer shares the upstream. */
    method Cleanup(self: Syncer, all: seq<Syncer>, ghost known: set<string>) returns (ok: bool)
      modifies this
      ensures NoDangling(old(targets), old(bound), known) ==> NoDangling(targets, bound, known)
      ensures forall n :: n in targets ==> n in old(targets) && targets[n] == old(targets)[n]
      ensures forall n :: n in old(targets) && n !in targets ==> Mine(old(targets)[n], self) && !UsedByOther(all, self)
      ensures forall n :: n in old(targets) && n !in targets ==>
        && old(targets)[n].userSpecific && !IsSharedUpstream(all, self)
        && old(targets)[n].upstreamRepository == self.repository && old(targets)[n].upstreamBranch == self.branch
      ensures ok && !IsSharedUpstream(all, self) ==> forall n :: n in targets ==>
        !(targets[n].userSpecific && targets[n].upstreamRepository == self.repository && targets[n].upstreamBranch == self.branch)
    {
      SharedIsUsed(all, self);
      var others := OtherSyncers(all, self);
      var todo := targets.Keys;
      while todo != {}
        invariant NoDangling(old(targets), old(bound), known) ==> NoDangling(targets, bound, known)
        invariant forall n :: n in targets ==> n in old(targets) && targets[n] == old(targets)[n]
        invariant forall n :: n in todo ==> n in targets
        invariant forall n :: n in old(targets) && n !in targets ==> Mine(old(targets)[n], self) && !UsedByOther(all, self)
        invariant !UsedByOther(all, self) ==> forall n :: n in targets && n !in todo ==> !Mine(targets[n], self)
        decreases |todo|
      {
        var n :| n in todo;
        todo := todo - {n};
        if !Mine(targets[n], self) {
          continue;
        }
        var used := IsUsed(others, self);
        assert used <==> UsedByOther(all, self);
        if used {
          continue;
        }
        ok := RemoveTarget(n, known);
        if !ok {
          return false;
        }
      }
      return true;
    }
  }

  /** The bindings without their references to target, those left empty deleted; any call may fail and stop it. */
  method RemoveRefs(bound: Bound, target: string) returns (after: Bound, ok: bool)
    ensures OnlyTouches(bound, after, target)
    ensures ok ==> forall j :: j in after ==> !References(after[j], target)
  {
    after := bound;
    var todo := bound.Keys;
    while todo != {}
      invariant OnlyTouches(bound, after, target)
      invariant forall j :: j in after && j !in todo ==> !References(after[j], target)
      decreases |todo|
    {
      var k :| k in todo;
      todo := todo - {k};
      if * {
        return after, false;
      }
      if k !in after {
        continue;
      }
      ghost var before := after;
      var mutated := Mutated(after[k].binding, Remove(target));
      if mutated.userRefs == [] && mutated.targetRefs == [] {
        after := after - {k};
      } else {
        after := after[k := after[k].(binding := mutated)];
      }
      DereferenceTouches(before, k, target);
      OnlyTouchesTransitive(bound, before, after, target);
    }
    return after, true;
  }

  /** Another syncer with the policy shares the upstream. */
  method IsUsed(others: seq<Syncer>, self: Syncer) returns (used: bool)
    ensures used <==> exists s :: s in others && s.repository == self.repository && s.branch == self.branch
  {
    for i := 0 to |others|
      invariant forall j :: 0 <= j < i ==> !(others[j].repository == self.repository && others[j].branch == self.branch)
    {
      if others[i].repository == self.repository && others[i].branch == self.branch {
        assert others[i] in others;
        return true;
      }
    }
    return false;
  }
}
