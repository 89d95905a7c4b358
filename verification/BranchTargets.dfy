/**
 The level-triggered reconciler of branch targets (internal/policy/branchtarget_policy.go):
 syncers of either kind that share an identity namespace and an upstream share targets.
 */
module BranchTargets {
  import opened Common
  import opened Syncers

  /** A RemoteTarget; branchManaged stands for the labels the policy lists by. */
  datatype Target = Target(upstreamRepository: string, upstreamBranch: string, targetRepository: string,
                           targetBranch: string, mergeStrategy: string, branchManaged: bool)

  /** The targets of one namespace, by object name. */
  type Targets = map<string, Target>

  /** The object name derived from upstream repository, upstream branch and target branch; None for an unparsable URL. */
  type Naming = (string, string, string) -> Option<string>

  predicate SameUpstream(t: Target, self: Syncer) {
    t.upstreamRepository == self.repository && t.upstreamBranch == self.branch
  }

  /** The policy of self lists this target and filters it in. */
  predicate Mine(t: Target, self: Syncer) {
    t.branchManaged && SameUpstream(t, self)
  }

  function Desired(s: Syncer): seq<string> {
    BranchesFromAnnotation(s.annotation)
  }

  function NameFor(naming: Naming, self: Syncer, branch: string): Option<string> {
    naming(self.repository, self.branch, branch)
  }

  const FAST_FORWARD_OR_HARD_RESET := "TryFastForwardOrHardReset"

  function Build(self: Syncer, branch: string): Target {
    Target(self.repository, self.branch, self.repository, branch,
           if self.branch == branch then "" else FAST_FORWARD_OR_HARD_RESET, true)
  }

  predicate Wants(s: Syncer, self: Syncer, branch: string) {
    s.repository == self.repository && s.branch == self.branch && branch in Desired(s)
  }

  /** Another syncer of the namespace, on the same upstream, names the branch. */
  ghost predicate UsedByOther(all: seq<Syncer>, self: Syncer, branch: string) {
    exists s :: s in all && IsOther(s, self) && Wants(s, self, branch)
  }

  /** Every target of this upstream carries the name derived from its branch. */
  ghost predicate ProperlyNamed(targets: Targets, self: Syncer, naming: Naming) {
    forall n :: n in targets && Mine(targets[n], self) ==> NameFor(naming, self, targets[n].targetBranch) == Some(n)
  }

  /** What any reconcile may do, finished or stopped by an error: create desired targets, delete unwanted ones. */
  ghost predicate Careful(before: Targets, after: Targets, self: Syncer, all: seq<Syncer>, desired: seq<string>, naming: Naming) {
    && (forall n :: n in before && n in after ==> after[n] == before[n])
    && (forall n :: n in before && n !in after ==>
          Mine(before[n], self) && before[n].targetBranch !in desired && !UsedByOther(all, self, before[n].targetBranch))
    && (forall n :: n in after && n !in before ==>
          exists b :: b in desired && NameFor(naming, self, b) == Some(n) && after[n] == Build(self, b))
  }

  /** Nothing unwanted is left, and every desired branch has its target unless another object has its name. */
  ghost predicate Complete(before: Targets, after: Targets, self: Syncer, all: seq<Syncer>, desired: seq<string>, naming: Naming) {
    && (forall n :: n in after && n in before && Mine(after[n], self) ==>
          after[n].targetBranch in desired || UsedByOther(all, self, after[n].targetBranch))
    && (forall b :: b in desired ==> Present(after, self, b) || NameTaken(before, after, self, naming, b))
  }

  ghost predicate Present(targets: Targets, self: Syncer, branch: string) {
    exists n :: n in targets && Mine(targets[n], self) && targets[n].targetBranch == branch
  }

  /** An object of the derived name stood in the way of creating the target. */
  ghost predicate NameTaken(before: Targets, after: Targets, self: Syncer, naming: Naming, branch: string) {
    && NameFor(naming, self, branch).Some?
    && (NameFor(naming, self, branch).value in before || NameFor(naming, self, branch).value in after)
  }

  method IsBranchUsedByOtherSyncer(branch: string, self: Syncer, others: seq<Syncer>) returns (used: bool)
    ensures used <==> exists s :: s in others && Wants(s, self, branch)
  {
    for i := 0 to |others|
      invariant forall j :: 0 <= j < i ==> !Wants(others[j], self, branch)
    {
      var rs := others[i];
      if rs.repository == self.repository && rs.branch == self.branch {
        if branch in Desired(rs) {
          assert rs in others && Wants(rs, self, branch);
          return true;
        }
      }
    }
    return false;
  }

  /** Another syncer, of either kind, has the same identity namespace and upstream and names the branch in its annotation. */
  ghost predicate IsNamedByOther(all: seq<Syncer>, self: Syncer, branch: string) {
    exists s :: s in all
      && (s.Namespaced? != self.Namespaced? || s.name != self.name || (s.Namespaced? && s.namespace != self.namespace))
      && (if s.Namespaced? then s.namespace else s.identityStoreNamespace)
           == (if self.Namespaced? then self.namespace else self.identityStoreNamespace)
      && s.repository == self.repository && s.branch == self.branch
      && branch in BranchesFromAnnotation(s.annotation)
  }

  lemma NamedIsUsed(all: seq<Syncer>, self: Syncer, branch: string)
    ensures IsNamedByOther(all, self, branch) <==> UsedByOther(all, self, branch)
  {
    assert BranchesFromAnnotation("") == [];
  }

  /** What a careful pass creates and deletes, field by field. */
  lemma CarefulInFields(before: Targets, after: Targets, self: Syncer, all: seq<Syncer>, desired: seq<string>, naming: Naming)
    requires Careful(before, after, self, all, desired, naming)
    ensures forall n :: n in after && n !in before ==>
      && after[n].upstreamRepository == self.repository && after[n].upstreamBranch == self.branch
      && after[n].targetRepository == self.repository && after[n].targetBranch in desired
      && naming(self.repository, self.branch, after[n].targetBranch) == Some(n)
      && after[n].mergeStrategy == (if after[n].targetBranch == self.branch then "" else "TryFastForwardOrHardReset")
      && after[n].branchManaged
    ensures forall n :: n in before && n !in after ==>
      && before[n].branchManaged && before[n].targetBranch !in desired
      && before[n].upstreamRepository == self.repository && before[n].upstreamBranch == self.branch
      && !IsNamedByOther(all, self, before[n].targetBranch)
  {
    forall n | n in before && n !in after ensures !IsNamedByOther(all, self, before[n].targetBranch) {
      NamedIsUsed(all, self, before[n].targetBranch);
    }
  }

  /** What a complete pass leaves of the targets that were there, field by field. */
  lemma CompleteInFields(before: Targets, after: Targets, self: Syncer, all: seq<Syncer>, desired: seq<string>, naming: Naming)
    requires Complete(before, after, self, all, desired, naming)
    ensures forall n :: n in before && n in after ==>
      || !after[n].branchManaged
      || after[n].upstreamRepository != self.repository || after[n].upstreamBranch != self.branch
      || after[n].targetBranch in desired || IsNamedByOther(all, self, after[n].targetBranch)
  {
    forall n | n in after ensures IsNamedByOther(all, self, after[n].targetBranch) <==> UsedByOther(all, self, after[n].targetBranch) {
      NamedIsUsed(all, self, after[n].targetBranch);
    }
  }

  /** Where every target is properly named, creating what is missing and deleting what is unwanted completes a pass. */
  lemma WholePassCompletes(before: Targets, created: Targets, after: Targets, self: Syncer, all: seq<Syncer>,
                           existing: map<string, string>, naming: Naming)
    requires ProperlyNamed(before, self, naming) && Careful(before, after, self, all, Desired(self), naming)
    requires forall b :: b in existing ==> existing[b] in before && Mine(before[existing[b]], self) && before[existing[b]].targetBranch == b
    requires forall n :: n in before && Mine(before[n], self) ==> before[n].targetBranch in existing
    requires forall b :: b in Desired(self) ==>
      b in existing || (NameFor(naming, self, b).Some? && NameFor(naming, self, b).value in created)
    requires forall n :: n in created && n !in after ==> n in before
    requires forall b :: b in existing && existing[b] in after ==> b in Desired(self) || UsedByOther(all, self, b)
    ensures Complete(before, after, self, all, Desired(self), naming)
  {
    forall b | b in Desired(self) ensures Present(after, self, b) || NameTaken(before, after, self, naming, b) {
      if b in existing {
        assert existing[b] in after;
      } else {
        var n := NameFor(naming, self, b).value;
        if n !in before { assert n in after; }
      }
    }
  }

  class TargetStore {
    var targets: Targets

    constructor (targets: Targets)
      ensures this.targets == targets
    {
      this.targets := targets;
    }

    /** The existing branches of this upstream with the name of a target for each. */
    method ExistingBranches(self: Syncer) returns (existing: map<string, string>)
      ensures forall b :: b in existing ==>
        existing[b] in targets && Mine(targets[existing[b]], self) && targets[existing[b]].targetBranch == b
      ensures forall n :: n in targets && Mine(targets[n], self) ==> targets[n].targetBranch in existing
    {
      existing := map[];
      var todo := targets.Keys;
      while todo != {}
        invariant todo <= targets.Keys
        invariant forall b :: b in existing ==>
          existing[b] in targets && Mine(targets[existing[b]], self) && targets[existing[b]].targetBranch == b
        invariant forall n :: n in targets && n !in todo && Mine(targets[n], self) ==> targets[n].targetBranch in existing
        decreases |todo|
      {
        var n :| n in todo;
        todo := todo - {n};
        if Mine(targets[n], self) {
          existing := existing[targets[n].targetBranch := n];
        }
      }
    }

    /** Creates the missing targets; any call may fail and stop the pass. */
    method CreateMissing(self: Syncer, desired: seq<string>, existing: map<string, string>, naming: Naming) returns (ok: bool)
      modifies this
      ensures forall n :: n in old(targets) ==> n in targets && targets[n] == old(targets)[n]
      ensures forall n :: n in targets && n !in old(targets) ==>
        exists b :: b in desired && NameFor(naming, self, b) == Some(n) && targets[n] == Build(self, b)
      ensures ok ==> forall b :: b in desired ==>
        b in existing || (NameFor(naming, self, b).Some? && NameFor(naming, self, b).value in targets)
    {
      for i := 0 to |desired|
        invariant forall n :: n in old(targets) ==> n in targets && targets[n] == old(targets)[n]
        invariant forall n :: n in targets && n !in old(targets) ==>
          exists b :: b in desired && NameFor(naming, self, b) == Some(n) && targets[n] == Build(self, b)
        invariant forall j :: 0 <= j < i ==>
          desired[j] in existing || (NameFor(naming, self, desired[j]).Some? && NameFor(naming, self, desired[j]).value in targets)
      {
        var branch := desired[i];
        if branch in existing {
          continue;
        }
        var name := NameFor(naming, self, branch);
        if name.None? {
          return false;
        }
        if * {
          return false;
        }
        // A name that is already taken is not an error.
        if name.value !in targets {
          targets := targets[name.value := Build(self, branch)];
        }
      }
      return true;
    }

    /** Deletes what no syncer wants among the targets that existed when the pass began. */
    method DeleteOrphans(self: Syncer, desired: seq<string>, existing: map<string, string>, all: seq<Syncer>) returns (ok: bool)
      requires forall b :: b in existing ==>
        existing[b] in targets && Mine(targets[existing[b]], self) && targets[existing[b]].targetBranch == b
      modifies this
      ensures forall n :: n in targets ==> n in old(targets) && targets[n] == old(targets)[n]
      ensures forall n :: n in old(targets) && n !in targets ==>
        && Mine(old(targets)[n], self)
        && old(targets)[n].targetBranch !in desired && !UsedByOther(all, self, old(targets)[n].targetBranch)
      ensures ok ==> forall b :: b in existing && existing[b] in targets ==> b in desired || UsedByOther(all, self, b)
    {
      var others := OtherSyncers(all, self);
      var todo := existing.Keys;
      while todo != {}
        invariant todo <= existing.Keys
        invariant forall n :: n in targets ==> n in old(targets) && targets[n] == old(targets)[n]
        invariant forall n :: n in old(targets) && n !in targets ==>
          && Mine(old(targets)[n], self)
          && old(targets)[n].targetBranch !in desired && !UsedByOther(all, self, old(targets)[n].targetBranch)
        invariant forall b :: b in existing && b !in todo && existing[b] in targets ==> b in desired || UsedByOther(all, self, b)
        decreases |todo|
      {
        var branch :| branch in todo;
        todo := todo - {branch};
        if branch !in desired {
          var used := IsBranchUsedByOtherSyncer(branch, self, others);
          assert used <==> UsedByOther(all, self, branch);
          if !used {
            if * {
              return false;
            }
            targets := targets - {existing[branch]};
          }
        }
      }
      return true;
    }

    /** One pass of the policy for self; ok is false when some call failed. */
    method Reconcile(self: Syncer, all: seq<Syncer>, naming: Naming) returns (ok: bool)
      modifies this
      ensures forall n :: n in targets && n !in old(targets) ==>
        && targets[n].upstreamRepository == self.repository && targets[n].upstreamBranch == self.branch
        && targets[n].targetRepository == self.repository && targets[n].targetBranch in BranchesFromAnnotation(self.annotation)
        && naming(self.repository, self.branch, targets[n].targetBranch) == Some(n)
        && targets[n].mergeStrategy == (if targets[n].targetBranch == self.branch then "" else "TryFastForwardOrHardReset")
        && targets[n].branchManaged
      ensures forall n :: n in old(targets) && n !in targets ==>
        && old(targets)[n].branchManaged && old(targets)[n].targetBranch !in BranchesFromAnnotation(self.annotation)
        && old(targets)[n].upstreamRepository == self.repository && old(targets)[n].upstreamBranch == self.branch
        && !IsNamedByOther(all, self, old(targets)[n].targetBranch)
      ensures Careful(old(targets), targets, self, all, Desired(self), naming)
      ensures ok && ProperlyNamed(old(targets), self, naming) ==>
        Complete(old(targets), targets, self, all, Desired(self), naming)
    {
      var desired := Desired(self);
      var existing := ExistingBranches(self);
      ghost var before := targets;
      ok := CreateMissing(self, desired, existing, naming);
      CarefulInFields(before, targets, self, all, desired, naming);
      if !ok {
        return false;
      }
      ghost var created := targets;
      ok := DeleteOrphans(self, desired, existing, all);
      forall n | n in created && n !in targets ensures n in before {
        assert created[n].targetBranch !in desired;
      }
      CarefulInFields(before, targets, self, all, desired, naming);
      if ok && ProperlyNamed(before, self, naming) {
        WholePassCompletes(before, created, targets, self, all, existing, naming);
      }
    }

    /** Cleanup after the policy of self: delete what only self wanted. */
    method Cleanup(self: Syncer, all: seq<Syncer>, naming: Naming) returns (ok: bool)
      modifies this
      ensures forall n :: n in targets ==> n in old(targets)
      ensures forall n :: n in old(targets) && n !in targets ==>
        && old(targets)[n].branchManaged
        && old(targets)[n].upstreamRepository == self.repository && old(targets)[n].upstreamBranch == self.branch
        && !IsNamedByOther(all, self, old(targets)[n].targetBranch)
      ensures ok ==> forall n :: n in targets ==>
        || !targets[n].branchManaged
        || targets[n].upstreamRepository != self.repository || targets[n].upstreamBranch != self.branch
        || IsNamedByOther(all, self, targets[n].targetBranch)
      ensures Careful(old(targets), targets, self, all, [], naming)
      ensures ok ==> Complete(old(targets), targets, self, all, [], naming)
    {
      var others := OtherSyncers(all, self);
      var todo := targets.Keys;
      while todo != {}
        invariant todo <= old(targets).Keys
        invariant forall n :: n in todo ==> n in targets
        invariant Careful(old(targets), targets, self, all, [], naming)
        invariant forall n :: n in targets ==> n in old(targets)
        invariant forall n :: n in targets && n !in todo && Mine(targets[n], self) ==> UsedByOther(all, self, targets[n].targetBranch)
        decreases |todo|
      {
        var n :| n in todo;
        todo := todo - {n};
        if Mine(targets[n], self) {
          var used := IsBranchUsedByOtherSyncer(targets[n].targetBranch, self, others);
          assert used <==> UsedByOther(all, self, targets[n].targetBranch);
          if !used {
            if * {
              CarefulInFields(old(targets), targets, self, all, [], naming);
              return false;
            }
            targets := targets - {n};
          }
        }
      }
      CarefulInFields(old(targets), targets, self, all, [], naming);
      CompleteInFields(old(targets), targets, self, all, [], naming);
      return true;
    }
  }

  // ---------- syncers that share targets ----------

  /** No two listed syncers are the same object. */
  ghost predicate Keyed(all: seq<Syncer>) {
    forall s, t :: s in all && t in all && SameSyncer(s, t) ==> s == t
  }

  /** s manages targets in the same namespace and for the same upstream as g. */
  predicate SameGroup(s: Syncer, g: Syncer) {
    s.IdentityNamespace() == g.IdentityNamespace() && s.repository == g.repository && s.branch == g.branch
  }

  ghost predicate Wanted(all: seq<Syncer>, g: Syncer, branch: string) {
    exists s :: s in all && SameGroup(s, g) && branch in Desired(s)
  }

  /** Each wanted branch has a name of its own, which no other object has. */
  ghost predicate NamesFree(targets: Targets, all: seq<Syncer>, g: Syncer, naming: Naming) {
    && (forall b :: Wanted(all, g, b) ==> NameFor(naming, g, b).Some?)
    && (forall b, c :: Wanted(all, g, b) && Wanted(all, g, c) && NameFor(naming, g, b) == NameFor(naming, g, c) ==> b == c)
    && (forall b, n :: Wanted(all, g, b) && n in targets && NameFor(naming, g, b) == Some(n) ==>
          Mine(targets[n], g) && targets[n].targetBranch == b)
  }

  ghost predicate Healthy(targets: Targets, all: seq<Syncer>, g: Syncer, naming: Naming) {
    NamesFree(targets, all, g, naming) && ProperlyNamed(targets, g, naming)
  }

  /** One successful pass of some syncer of the group. */
  ghost predicate Reconciled(before: Targets, after: Targets, s: Syncer, all: seq<Syncer>, naming: Naming) {
    Careful(before, after, s, all, Desired(s), naming) && Complete(before, after, s, all, Desired(s), naming)
  }

  lemma BlankAnnotationNamesNothing(s: Syncer)
    requires s.annotation == ""
    ensures Desired(s) == []
  {
  }

  lemma WantedIsDesiredOrUsed(all: seq<Syncer>, s: Syncer, g: Syncer, b: string)
    requires Keyed(all) && s in all && SameGroup(s, g)
    ensures Wanted(all, g, b) <==> b in Desired(s) || UsedByOther(all, s, b)
  {
    if Wanted(all, g, b) && b !in Desired(s) {
      var t :| t in all && SameGroup(t, g) && b in Desired(t);
      if t.annotation == "" { BlankAnnotationNamesNothing(t); }
      assert IsOther(t, s) && Wants(t, s, b);
    }
    if UsedByOther(all, s, b) {
      var t :| t in all && IsOther(t, s) && Wants(t, s, b);
      assert SameGroup(t, g);
    }
  }

  lemma PassKeepsNames(before: Targets, after: Targets, s: Syncer, all: seq<Syncer>, g: Syncer, naming: Naming)
    requires s in all && SameGroup(s, g) && ProperlyNamed(before, g, naming)
    requires Careful(before, after, s, all, Desired(s), naming)
    ensures ProperlyNamed(after, g, naming)
    ensures forall n :: n in after && n !in before ==> Mine(after[n], g) && Wanted(all, g, after[n].targetBranch)
    ensures forall n :: n in before && !Mine(before[n], g) ==> n in after && after[n] == before[n]
  {
    forall n | n in after && n !in before
      ensures Mine(after[n], g) && NameFor(naming, g, after[n].targetBranch) == Some(n) && Wanted(all, g, after[n].targetBranch)
    {
      var b :| b in Desired(s) && NameFor(naming, s, b) == Some(n) && after[n] == Build(s, b);
    }
  }

  lemma PassKeepsHealth(before: Targets, after: Targets, s: Syncer, all: seq<Syncer>, g: Syncer, naming: Naming)
    requires s in all && SameGroup(s, g) && Healthy(before, all, g, naming)
    requires Careful(before, after, s, all, Desired(s), naming)
    ensures Healthy(after, all, g, naming)
  {
    PassKeepsNames(before, after, s, all, g, naming);
  }

  lemma DesiredIsPresent(before: Targets, after: Targets, s: Syncer, all: seq<Syncer>, g: Syncer, naming: Naming, b: string)
    requires s in all && SameGroup(s, g) && Healthy(before, all, g, naming) && Healthy(after, all, g, naming)
    requires Reconciled(before, after, s, all, naming) && b in Desired(s)
    ensures Present(after, g, b)
  {
    assert Wanted(all, g, b);
    if NameTaken(before, after, s, naming, b) {
      var n := NameFor(naming, s, b).value;
      assert n in before ==> before[n].targetBranch == b && n in after;
      assert Mine(after[n], g) && after[n].targetBranch == b;
    } else {
      var n :| n in after && Mine(after[n], s) && after[n].targetBranch == b;
      assert Mine(after[n], g);
    }
  }

  lemma WantedIsKept(before: Targets, after: Targets, s: Syncer, all: seq<Syncer>, g: Syncer, naming: Naming, b: string)
    requires Keyed(all) && s in all && SameGroup(s, g) && Reconciled(before, after, s, all, naming)
    requires Present(before, g, b) && Wanted(all, g, b)
    ensures Present(after, g, b)
  {
    WantedIsDesiredOrUsed(all, s, g, b);
    var n :| n in before && Mine(before[n], g) && before[n].targetBranch == b;
    assert n in after;
  }

  lemma PresentHasReason(before: Targets, after: Targets, s: Syncer, all: seq<Syncer>, g: Syncer, naming: Naming, b: string)
    requires Keyed(all) && s in all && SameGroup(s, g) && Reconciled(before, after, s, all, naming)
    requires Present(after, g, b)
    ensures b in Desired(s) || (Present(before, g, b) && Wanted(all, g, b))
  {
    WantedIsDesiredOrUsed(all, s, g, b);
    var n :| n in after && Mine(after[n], g) && after[n].targetBranch == b;
    if n in before { assert Present(before, g, b); }
  }

  /** A pass of s keeps every wanted target, adds what s wants and drops what no one wants. */
  lemma PassEffect(before: Targets, after: Targets, s: Syncer, all: seq<Syncer>, g: Syncer, naming: Naming)
    requires Keyed(all) && s in all && SameGroup(s, g) && Healthy(before, all, g, naming)
    requires Reconciled(before, after, s, all, naming)
    ensures Healthy(after, all, g, naming)
    ensures forall b :: Present(after, g, b) <==> b in Desired(s) || (Present(before, g, b) && Wanted(all, g, b))
  {
    PassKeepsHealth(before, after, s, all, g, naming);
    forall b ensures Present(after, g, b) <==> b in Desired(s) || (Present(before, g, b) && Wanted(all, g, b)) {
      if b in Desired(s) { DesiredIsPresent(before, after, s, all, g, naming, b); }
      if Present(before, g, b) && Wanted(all, g, b) { WantedIsKept(before, after, s, all, g, naming, b); }
      if Present(after, g, b) { PresentHasReason(before, after, s, all, g, naming, b); }
    }
  }

  /** Pass number i, a successful one of some syncer of the group. */
  ghost predicate PassAt(states: seq<Targets>, runners: seq<Syncer>, all: seq<Syncer>, g: Syncer, naming: Naming, i: nat)
    requires |states| == |runners| + 1 && i < |runners|
  {
    runners[i] in all && SameGroup(runners[i], g) && Reconciled(states[i], states[i + 1], runners[i], all, naming)
  }

  /** Wanted targets only, and once a syncer has had a pass, all of its own. */
  lemma {:induction false} PassesAddUp(states: seq<Targets>, runners: seq<Syncer>, all: seq<Syncer>, g: Syncer, naming: Naming, n: nat)
    requires |states| == |runners| + 1 && n <= |runners|
    requires Keyed(all) && Healthy(states[0], all, g, naming)
    requires forall i :: 0 <= i < |runners| ==> PassAt(states, runners, all, g, naming, i)
    ensures Healthy(states[n], all, g, naming)
    ensures n > 0 ==> forall b :: Present(states[n], g, b) ==> Wanted(all, g, b)
    ensures forall i, b :: 0 <= i < n && b in Desired(runners[i]) ==> Present(states[n], g, b)
  {
    if n > 0 {
      PassesAddUp(states, runners, all, g, naming, n - 1);
      assert PassAt(states, runners, all, g, naming, n - 1);
      PassEffect(states[n - 1], states[n], runners[n - 1], all, g, naming);
    }
  }

  /**
   Once every syncer of the group has had one successful pass, in any order and any number of
   times, the targets are exactly the branches the group wants, and a further pass of any of
   them changes nothing at all.
   */
  lemma AnyOrderConverges(states: seq<Targets>, runners: seq<Syncer>, all: seq<Syncer>, g: Syncer, naming: Naming)
    requires |states| == |runners| + 1 && |runners| > 0
    requires Keyed(all) && Healthy(states[0], all, g, naming)
    requires forall i :: 0 <= i < |runners| ==> PassAt(states, runners, all, g, naming, i)
    requires forall s :: s in all && SameGroup(s, g) && Desired(s) != [] ==> s in runners
    ensures forall b :: Present(states[|runners|], g, b) <==> Wanted(all, g, b)
    ensures forall s, next :: s in all && SameGroup(s, g) && Reconciled(states[|runners|], next, s, all, naming) ==>
      next == states[|runners|]
  {
    var last := states[|runners|];
    PassesAddUp(states, runners, all, g, naming, |runners|);
    forall b | Wanted(all, g, b) ensures Present(last, g, b) {
      var s :| s in all && SameGroup(s, g) && b in Desired(s);
      assert s in runners;
    }
    forall s, next | s in all && SameGroup(s, g) && Reconciled(last, next, s, all, naming) ensures next == last {
      ConvergedStays(last, next, s, all, g, naming);
    }
  }

  lemma ConvergedStays(last: Targets, next: Targets, s: Syncer, all: seq<Syncer>, g: Syncer, naming: Naming)
    requires Keyed(all) && s in all && SameGroup(s, g) && Healthy(last, all, g, naming)
    requires forall b :: Present(last, g, b) <==> Wanted(all, g, b)
    requires Reconciled(last, next, s, all, naming)
    ensures next == last
  {
    forall n | n in last ensures n in next {
      if n !in next {
        var b := last[n].targetBranch;
        assert Mine(last[n], g);
        assert Present(last, g, b);
        WantedIsDesiredOrUsed(all, s, g, b);
      }
    }
    forall n | n in next ensures n in last {
      if n !in last {
        var b :| b in Desired(s) && NameFor(naming, s, b) == Some(n) && next[n] == Build(s, b);
        assert Wanted(all, g, b);
      }
    }
  }

  /** When no other syncer wants anything, a finished cleanup leaves no target. */
  lemma LastCleanupLeavesNone(before: Targets, after: Targets, s: Syncer, all: seq<Syncer>, naming: Naming)
    requires Careful(before, after, s, all, [], naming) && Complete(before, after, s, all, [], naming)
    requires forall t :: t in all && IsOther(t, s) && SameGroup(t, s) ==> Desired(t) == []
    ensures forall b :: !Present(after, s, b)
  {
    forall n | n in after && Mine(after[n], s) ensures n !in before || UsedByOther(all, s, after[n].targetBranch) {}
    forall b ensures !UsedByOther(all, s, b) {
      if UsedByOther(all, s, b) {
        var t :| t in all && IsOther(t, s) && Wants(t, s, b);
        assert SameGroup(t, s);
      }
    }
  }

  // ---------- exactly when the wanted targets come about ----------

  /** No two wanted branches share a derived name. */
  ghost predicate NamesApart(all: seq<Syncer>, g: Syncer, naming: Naming) {
    forall b, c :: Wanted(all, g, b) && Wanted(all, g, c) && NameFor(naming, g, b) == NameFor(naming, g, c) ==> b == c
  }

  /** An object that is no target of this upstream has the name of a wanted branch. */
  ghost predicate NameHeld(targets: Targets, all: seq<Syncer>, g: Syncer, naming: Naming) {
    exists b, n :: Wanted(all, g, b) && NameFor(naming, g, b) == Some(n) && n in targets && !Mine(targets[n], g)
  }

  ghost predicate Converged(targets: Targets, all: seq<Syncer>, g: Syncer) {
    forall b :: Present(targets, g, b) <==> Wanted(all, g, b)
  }

  lemma {:induction false} PassesKeepNames(states: seq<Targets>, runners: seq<Syncer>, all: seq<Syncer>, g: Syncer, naming: Naming, n: nat)
    requires |states| == |runners| + 1 && n <= |runners| && ProperlyNamed(states[0], g, naming)
    requires forall i :: 0 <= i < |runners| ==> PassAt(states, runners, all, g, naming, i)
    ensures ProperlyNamed(states[n], g, naming)
    ensures forall k :: k in states[0] && !Mine(states[0][k], g) ==> k in states[n] && states[n][k] == states[0][k]
  {
    if n > 0 {
      PassesKeepNames(states, runners, all, g, naming, n - 1);
      assert PassAt(states, runners, all, g, naming, n - 1);
      PassKeepsNames(states[n - 1], states[n], runners[n - 1], all, g, naming);
    }
  }

  /** Two branches whose derived names coincide never both have a target. */
  lemma ClashingNamesStarve(targets: Targets, g: Syncer, naming: Naming, b: string, c: string)
    requires ProperlyNamed(targets, g, naming)
    requires b != c && NameFor(naming, g, b) == NameFor(naming, g, c)
    ensures !(Present(targets, g, b) && Present(targets, g, c))
  {
  }

  /** Two branches of one name never both have a target, nor does one whose name another object holds. */
  lemma ConvergedIsFree(targets: Targets, start: Targets, all: seq<Syncer>, g: Syncer, naming: Naming)
    requires ProperlyNamed(targets, g, naming) && Converged(targets, all, g)
    requires forall k :: k in start && !Mine(start[k], g) ==> k in targets && targets[k] == start[k]
    ensures NamesApart(all, g, naming) && !NameHeld(start, all, g, naming)
  {
    forall b, c | Wanted(all, g, b) && Wanted(all, g, c) && NameFor(naming, g, b) == NameFor(naming, g, c) ensures b == c {
      assert Present(targets, g, b) && Present(targets, g, c);
      if b != c { ClashingNamesStarve(targets, g, naming, b, c); }
    }
    forall b, n | Wanted(all, g, b) && NameFor(naming, g, b) == Some(n) && n in start ensures Mine(start[n], g) {
      assert Present(targets, g, b);
    }
  }

  /** A wanted branch that some pass dealt with has a name. */
  lemma WantedHasName(states: seq<Targets>, runners: seq<Syncer>, all: seq<Syncer>, g: Syncer, naming: Naming, b: string)
    requires |states| == |runners| + 1 && ProperlyNamed(states[0], g, naming)
    requires forall i :: 0 <= i < |runners| ==> PassAt(states, runners, all, g, naming, i)
    requires forall s :: s in all && SameGroup(s, g) && Desired(s) != [] ==> s in runners
    requires Wanted(all, g, b)
    ensures NameFor(naming, g, b).Some?
  {
    var s :| s in all && SameGroup(s, g) && b in Desired(s);
    var i: nat :| i < |runners| && runners[i] == s;
    assert PassAt(states, runners, all, g, naming, i);
    PassesKeepNames(states, runners, all, g, naming, i + 1);
    if Present(states[i + 1], s, b) {
      var n :| n in states[i + 1] && Mine(states[i + 1][n], s) && states[i + 1][n].targetBranch == b;
      assert Mine(states[i + 1][n], g);
    }
  }

  /** After one pass every target of the upstream is wanted, so the names are free unless they clash or are held. */
  lemma FirstPassFreesNames(before: Targets, after: Targets, s: Syncer, all: seq<Syncer>, g: Syncer, naming: Naming)
    requires Keyed(all) && s in all && SameGroup(s, g) && ProperlyNamed(before, g, naming) && Reconciled(before, after, s, all, naming)
    requires NamesApart(all, g, naming) && !NameHeld(before, all, g, naming)
    requires forall b :: Wanted(all, g, b) ==> NameFor(naming, g, b).Some?
    ensures Healthy(after, all, g, naming)
  {
    PassKeepsNames(before, after, s, all, g, naming);
    forall b, n | Wanted(all, g, b) && n in after && NameFor(naming, g, b) == Some(n)
      ensures Mine(after[n], g) && after[n].targetBranch == b
    {
      assert n in before ==> Mine(before[n], g);
      WantedIsDesiredOrUsed(all, s, g, after[n].targetBranch);
    }
  }

  /**
   After some first pass and then one of every syncer of the group, in any order, the targets
   are the wanted branches if and only if no two wanted branches share a derived name (as two
   that differ only in case do) and no other object holds such a name.
   */
  lemma ConvergesExactly(states: seq<Targets>, runners: seq<Syncer>, all: seq<Syncer>, g: Syncer, naming: Naming)
    requires |states| == |runners| + 1 && |runners| > 1
    requires Keyed(all) && ProperlyNamed(states[0], g, naming)
    requires forall i :: 0 <= i < |runners| ==> PassAt(states, runners, all, g, naming, i)
    requires forall s :: s in all && SameGroup(s, g) && Desired(s) != [] ==> s in runners[1..]
    ensures Converged(states[|runners|], all, g) <==> NamesApart(all, g, naming) && !NameHeld(states[0], all, g, naming)
  {
    PassesKeepNames(states, runners, all, g, naming, |runners|);
    if Converged(states[|runners|], all, g) { ConvergedIsFree(states[|runners|], states[0], all, g, naming); }
    if NamesApart(all, g, naming) && !NameHeld(states[0], all, g, naming) {
      forall b | Wanted(all, g, b) ensures NameFor(naming, g, b).Some? { WantedHasName(states, runners, all, g, naming, b); }
      assert PassAt(states, runners, all, g, naming, 0);
      FirstPassFreesNames(states[0], states[1], runners[0], all, g, naming);
      forall i | 0 <= i < |runners[1..]| ensures PassAt(states[1..], runners[1..], all, g, naming, i) {
        assert PassAt(states, runners, all, g, naming, i + 1);
      }
      AnyOrderConverges(states[1..], runners[1..], all, g, naming);
    }
  }

  // ---------- names that differ only in case ----------

  function Lower(s: string): string {
    seq(|s|, i requires 0 <= i < |s| => if 'A' <= s[i] <= 'Z' then s[i] - 'A' + 'a' else s[i])
  }

  /** Object names are lower case. */
  const LOWER_CASE: Naming := (repository, upstream, branch) => Some(Lower(branch))

  function Example(annotation: string): Syncer {
    Namespaced("ns", "syncer", "repo", "main", annotation)
  }

  lemma ExampleBranches()
    ensures Desired(Example("b,B")) == ["b", "B"] && Desired(Example("B")) == ["B"]
  {
    assert RemoveSpaces("B") == "B" by { assert "B"[1..] == ""; }
    assert SplitComma("B") == ["B"] by { assert "B"[1..] == ""; }
    assert ",B"[1..] == "B" && "b,B"[1..] == ",B";
    assert RemoveSpaces(",B") == "," + RemoveSpaces("B") == ",B";
    assert RemoveSpaces("b,B") == "b" + RemoveSpaces(",B") == "b,B";
    assert SplitComma(",B") == [""] + SplitComma("B") == ["", "B"];
    assert "b" + "" == "b" && ["", "B"][1..] == ["B"];
    assert SplitComma("b,B") == ["b", "B"];
    assert BranchesFromAnnotation("b,B") == ["b", "B"];
  }

  lemma ExampleNames()
    ensures Lower("b") == "b" && Lower("B") == "b"
  {
    assert Lower("b")[0] == 'b' && Lower("B")[0] == 'b';
  }

  /** The branches b and B of one syncer: its passes are successful, create b, and never B. */
  lemma CaseClashStarves()
    ensures var g, targets: Targets := Example("b,B"), map["b" := Build(Example("b,B"), "b")];
      && Reconciled(map[], targets, g, [g], LOWER_CASE) && Reconciled(targets, targets, g, [g], LOWER_CASE)
      && Wanted([g], g, "B") && !Present(targets, g, "B")
  {
    ExampleBranches();
    ExampleNames();
    var g, targets: Targets := Example("b,B"), map["b" := Build(Example("b,B"), "b")];
    assert "b" in Desired(g) && "B" in Desired(g) && g in [g];
    assert targets["b"].targetBranch == "b";
    assert Present(targets, g, "b");
    assert NameFor(LOWER_CASE, g, "B") == Some("b");
  }

  /** One pass is not enough: the target of a branch b given up for B goes only after B was found to exist. */
  lemma OrphanHoldsName()
    ensures var g, orphan: Targets := Example("B"), map["b" := Build(Example("B"), "b")];
      && Reconciled(orphan, map[], g, [g], LOWER_CASE)
      && NamesApart([g], g, LOWER_CASE) && !NameHeld(orphan, [g], g, LOWER_CASE)
      && Wanted([g], g, "B") && !Present(map[], g, "B")
  {
    ExampleBranches();
    ExampleNames();
    var g, orphan: Targets := Example("B"), map["b" := Build(Example("B"), "b")];
    assert "B" in Desired(g) && g in [g];
    assert forall b :: Wanted([g], g, b) ==> b == "B";
    assert NameFor(LOWER_CASE, g, "B") == Some("b") && "b" in orphan;
    assert orphan["b"].targetBranch == "b" && "b" !in Desired(g);
    assert !UsedByOther([g], g, "b");
  }
}
