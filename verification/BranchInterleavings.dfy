/**
 Passes of the branch target policy that run in parallel (internal/policy/branchtarget_policy.go):
 the controllers of the two kinds of syncer reconcile at the same time, so the calls of their
 passes interleave. A pass lists the targets once and works from that list, however old it
 gets; a pass that stops at an error just never finishes.
 */
module BranchInterleavings {
  import opened Common
  import opened Syncers
  import opened BranchTargets

  type Pid = nat

  /** A pass for self: what it listed, the branches it has tried to create and the names it has deleted. */
  datatype Pass = Pass(self: Syncer, listed: Option<Targets>, tried: set<string>, deleted: set<string>, done: bool)

  datatype State = State(targets: Targets, passes: map<Pid, Pass>)

  datatype Label =
    | List(p: Pid)
    | Create(p: Pid, branch: string)
    | Delete(p: Pid, name: string)
    | Finish(p: Pid)

  /** A listed target that neither self nor another syncer wants. */
  ghost predicate IsOrphan(listed: Targets, self: Syncer, all: seq<Syncer>, n: string) {
    && n in listed && Mine(listed[n], self)
    && listed[n].targetBranch !in Desired(self) && !UsedByOther(all, self, listed[n].targetBranch)
  }

  /** Every desired branch was listed or has been tried. */
  ghost predicate HasTriedAll(ps: Pass) {
    ps.listed.Some? && forall b :: b in Desired(ps.self) ==> Present(ps.listed.value, ps.self, b) || b in ps.tried
  }

  /** Nothing is left to do. */
  ghost predicate IsThrough(ps: Pass, all: seq<Syncer>) {
    && HasTriedAll(ps)
    && (forall n :: IsOrphan(ps.listed.value, ps.self, all, n) ==> n in ps.deleted)
  }

  ghost predicate Enabled(s: State, all: seq<Syncer>, naming: Naming, l: Label) {
    && l.p in s.passes
    && var ps := s.passes[l.p];
    match l
    case List(_) => ps.listed == None
    case Create(_, b) =>
      && ps.listed.Some? && b in Desired(ps.self) && !Present(ps.listed.value, ps.self, b)
      && NameFor(naming, ps.self, b).Some? && ps.deleted == {}
    case Delete(_, n) => HasTriedAll(ps) && IsOrphan(ps.listed.value, ps.self, all, n)
    case Finish(_) => IsThrough(ps, all)
  }

  function Apply(s: State, naming: Naming, l: Label): State
    requires l.p in s.passes && (l.Create? ==> NameFor(naming, s.passes[l.p].self, l.branch).Some?)
  {
    var ps := s.passes[l.p];
    match l
    case List(p) => s.(passes := s.passes[p := ps.(listed := Some(s.targets))])
    case Create(p, b) =>
      var n := NameFor(naming, ps.self, b).value;
      State(if n in s.targets then s.targets else s.targets[n := Build(ps.self, b)],
            s.passes[p := ps.(tried := ps.tried + {b})])
    case Delete(p, n) => State(s.targets - {n}, s.passes[p := ps.(deleted := ps.deleted + {n})])
    case Finish(p) => s.(passes := s.passes[p := ps.(done := true)])
  }

  ghost predicate Runs(s: State, all: seq<Syncer>, naming: Naming, labels: seq<Label>)
    decreases |labels|
  {
    labels == [] || (Enabled(s, all, naming, labels[0]) && Runs(Apply(s, naming, labels[0]), all, naming, labels[1..]))
  }

  ghost function After(s: State, all: seq<Syncer>, naming: Naming, labels: seq<Label>): State
    requires Runs(s, all, naming, labels)
    decreases |labels|
  {
    if labels == [] then s else After(Apply(s, naming, labels[0]), all, naming, labels[1..])
  }

  /** No pass has begun, and all are for syncers of the group. */
  ghost predicate IsInitial(s: State, all: seq<Syncer>, g: Syncer) {
    forall p :: p in s.passes ==>
      s.passes[p] == Pass(s.passes[p].self, None, {}, {}, false) && s.passes[p].self in all && SameGroup(s.passes[p].self, g)
  }

  // ---------- what every interleaving keeps ----------

  /** What the targets can be: those of the start, wanted ones in addition, none but unwanted ones of the upstream missing. */
  ghost predicate Sound(start: Targets, targets: Targets, all: seq<Syncer>, g: Syncer, naming: Naming) {
    && (forall n :: n in targets ==>
          || (n in start && targets[n] == start[n])
          || (Mine(targets[n], g) && Wanted(all, g, targets[n].targetBranch)
              && NameFor(naming, g, targets[n].targetBranch) == Some(n)))
    && (forall n :: n in start && (!Mine(start[n], g) || Wanted(all, g, start[n].targetBranch)) ==>
          n in targets && targets[n] == start[n])
  }

  /** Since this listing no wanted target has gone and no unwanted one has come. */
  ghost predicate StillTrue(listed: Targets, targets: Targets, all: seq<Syncer>, g: Syncer) {
    && (forall n :: n in listed && Mine(listed[n], g) && Wanted(all, g, listed[n].targetBranch) ==>
          n in targets && targets[n] == listed[n])
    && (forall n :: n in targets && Mine(targets[n], g) && !Wanted(all, g, targets[n].targetBranch) ==>
          n in listed && listed[n] == targets[n])
  }

  /** The work a pass has done still shows. */
  ghost predicate PassOk(start: Targets, targets: Targets, ps: Pass, all: seq<Syncer>, g: Syncer, naming: Naming) {
    && ps.self in all && SameGroup(ps.self, g)
    && (ps.listed.Some? ==> Sound(start, ps.listed.value, all, g, naming) && StillTrue(ps.listed.value, targets, all, g))
    && (forall b :: b in ps.tried ==> b in Desired(ps.self) && Present(targets, g, b))
    && (forall n :: n in ps.deleted ==> n !in targets && ps.listed.Some? && IsOrphan(ps.listed.value, ps.self, all, n))
    && (ps.done ==> IsThrough(ps, all))
  }

  ghost predicate Inv(start: Targets, s: State, all: seq<Syncer>, g: Syncer, naming: Naming) {
    && Sound(start, s.targets, all, g, naming)
    && forall p :: p in s.passes ==> PassOk(start, s.targets, s.passes[p], all, g, naming)
  }

  /** What has the name of a wanted branch is its target. */
  lemma SoundNames(start: Targets, targets: Targets, all: seq<Syncer>, g: Syncer, naming: Naming, b: string)
    requires Healthy(start, all, g, naming) && Sound(start, targets, all, g, naming) && Wanted(all, g, b)
    ensures NameFor(naming, g, b).Some?
    ensures var n := NameFor(naming, g, b).value;
      n in targets ==> Mine(targets[n], g) && targets[n].targetBranch == b && Present(targets, g, b)
  {
  }

  /** An orphan of a sound listing was there from the start, and if its name is still taken it is by itself. */
  lemma OrphanIsOld(start: Targets, listed: Targets, targets: Targets, self: Syncer, all: seq<Syncer>, g: Syncer, naming: Naming, n: string)
    requires Keyed(all) && self in all && SameGroup(self, g) && Healthy(start, all, g, naming)
    requires Sound(start, listed, all, g, naming) && Sound(start, targets, all, g, naming) && IsOrphan(listed, self, all, n)
    ensures Mine(listed[n], g) && !Wanted(all, g, listed[n].targetBranch)
    ensures n in start && start[n] == listed[n] && (n in targets ==> targets[n] == start[n])
  {
    WantedIsDesiredOrUsed(all, self, g, listed[n].targetBranch);
  }

  /** The writes of a pass only add targets of wanted branches and drop unwanted ones. */
  ghost predicate Moves(before: Targets, after: Targets, all: seq<Syncer>, g: Syncer, naming: Naming) {
    && (forall n :: n in before && n in after ==> after[n] == before[n])
    && (forall n :: n in before && n !in after ==> Mine(before[n], g) && !Wanted(all, g, before[n].targetBranch))
    && (forall n :: n in after && n !in before ==>
          Mine(after[n], g) && Wanted(all, g, after[n].targetBranch) && NameFor(naming, g, after[n].targetBranch) == Some(n))
  }

  lemma CreateMoves(targets: Targets, self: Syncer, all: seq<Syncer>, g: Syncer, naming: Naming, b: string)
    requires SameGroup(self, g) && Wanted(all, g, b) && NameFor(naming, self, b).Some?
    ensures var n := NameFor(naming, self, b).value;
      Moves(targets, if n in targets then targets else targets[n := Build(self, b)], all, g, naming)
  {
  }

  lemma StepMoves(start: Targets, s: State, all: seq<Syncer>, g: Syncer, naming: Naming, l: Label)
    requires Keyed(all) && Healthy(start, all, g, naming) && Sound(start, s.targets, all, g, naming)
    requires Enabled(s, all, naming, l) && PassOk(start, s.targets, s.passes[l.p], all, g, naming)
    ensures Moves(s.targets, Apply(s, naming, l).targets, all, g, naming)
  {
    var ps := s.passes[l.p];
    match l
    case List(_) =>
    case Create(_, b) =>
      assert Wanted(all, g, b);
      CreateMoves(s.targets, ps.self, all, g, naming, b);
    case Delete(_, n) => OrphanIsOld(start, ps.listed.value, s.targets, ps.self, all, g, naming, n);
    case Finish(_) =>
  }

  lemma MovesKeepSound(start: Targets, before: Targets, after: Targets, all: seq<Syncer>, g: Syncer, naming: Naming)
    requires Sound(start, before, all, g, naming) && Moves(before, after, all, g, naming)
    ensures Sound(start, after, all, g, naming)
  {
    forall n | n in start && (!Mine(start[n], g) || Wanted(all, g, start[n].targetBranch)) ensures n in after && after[n] == start[n] {
      assert n in before && before[n] == start[n];
    }
  }

  lemma MovesKeepPresent(before: Targets, after: Targets, all: seq<Syncer>, g: Syncer, naming: Naming, b: string)
    requires Moves(before, after, all, g, naming) && Present(before, g, b) && Wanted(all, g, b)
    ensures Present(after, g, b)
  {
    var n :| n in before && Mine(before[n], g) && before[n].targetBranch == b;
    assert n in after && Mine(after[n], g) && after[n].targetBranch == b;
  }

  lemma MovesKeepListing(listed: Targets, before: Targets, after: Targets, all: seq<Syncer>, g: Syncer, naming: Naming)
    requires StillTrue(listed, before, all, g) && Moves(before, after, all, g, naming)
    ensures StillTrue(listed, after, all, g)
  {
    forall n | n in listed && Mine(listed[n], g) && Wanted(all, g, listed[n].targetBranch) ensures n in after && after[n] == listed[n] {
      assert n in before && before[n] == listed[n];
    }
  }

  /** What a pass has done survives the moves of all passes. */
  lemma MovesKeepPass(start: Targets, before: Targets, after: Targets, ps: Pass, all: seq<Syncer>, g: Syncer, naming: Naming)
    requires Keyed(all) && Healthy(start, all, g, naming) && Sound(start, before, all, g, naming) && Sound(start, after, all, g, naming)
    requires PassOk(start, before, ps, all, g, naming) && Moves(before, after, all, g, naming)
    ensures PassOk(start, after, ps, all, g, naming)
  {
    if ps.listed.Some? { MovesKeepListing(ps.listed.value, before, after, all, g, naming); }
    forall b | b in ps.tried ensures Present(after, g, b) {
      assert Wanted(all, g, b);
      MovesKeepPresent(before, after, all, g, naming, b);
    }
    forall n | n in ps.deleted ensures n !in after {
      OrphanIsOld(start, ps.listed.value, after, ps.self, all, g, naming, n);
    }
  }

  /** A step records what it did. */
  lemma StepKeepsItsPass(start: Targets, s: State, all: seq<Syncer>, g: Syncer, naming: Naming, l: Label)
    requires Healthy(start, all, g, naming) && Sound(start, s.targets, all, g, naming) && Enabled(s, all, naming, l)
    requires var s' := Apply(s, naming, l);
      Sound(start, s'.targets, all, g, naming) && PassOk(start, s'.targets, s.passes[l.p], all, g, naming)
    ensures PassOk(start, Apply(s, naming, l).targets, Apply(s, naming, l).passes[l.p], all, g, naming)
  {
    var s' := Apply(s, naming, l);
    if l.Create? {
      assert Wanted(all, g, l.branch);
      SoundNames(start, s'.targets, all, g, naming, l.branch);
    }
  }

  lemma StepKeepsInv(start: Targets, s: State, all: seq<Syncer>, g: Syncer, naming: Naming, l: Label)
    requires Keyed(all) && Healthy(start, all, g, naming) && Inv(start, s, all, g, naming) && Enabled(s, all, naming, l)
    ensures Inv(start, Apply(s, naming, l), all, g, naming)
    ensures Moves(s.targets, Apply(s, naming, l).targets, all, g, naming)
  {
    var s' := Apply(s, naming, l);
    assert PassOk(start, s.targets, s.passes[l.p], all, g, naming);
    StepMoves(start, s, all, g, naming, l);
    MovesKeepSound(start, s.targets, s'.targets, all, g, naming);
    forall p | p in s'.passes ensures PassOk(start, s'.targets, s'.passes[p], all, g, naming) {
      MovesKeepPass(start, s.targets, s'.targets, s.passes[p], all, g, naming);
      if p == l.p { StepKeepsItsPass(start, s, all, g, naming, l); }
    }
  }

  lemma {:induction false} RunKeepsInv(start: Targets, s: State, all: seq<Syncer>, g: Syncer, naming: Naming, labels: seq<Label>)
    requires Keyed(all) && Healthy(start, all, g, naming) && Inv(start, s, all, g, naming) && Runs(s, all, naming, labels)
    ensures Inv(start, After(s, all, naming, labels), all, g, naming)
    decreases |labels|
  {
    if labels != [] {
      StepKeepsInv(start, s, all, g, naming, labels[0]);
      RunKeepsInv(start, Apply(s, naming, labels[0]), all, g, naming, labels[1..]);
    }
  }

  lemma DesiredIsPresentAfter(start: Targets, targets: Targets, ps: Pass, all: seq<Syncer>, g: Syncer, naming: Naming, b: string)
    requires Healthy(start, all, g, naming) && PassOk(start, targets, ps, all, g, naming) && ps.done && b in Desired(ps.self)
    ensures Present(targets, g, b)
  {
    assert Wanted(all, g, b);
    if b !in ps.tried {
      var n :| n in ps.listed.value && Mine(ps.listed.value[n], ps.self) && ps.listed.value[n].targetBranch == b;
      assert n in targets && targets[n] == ps.listed.value[n];
    }
  }

  lemma PresentIsWantedAfter(start: Targets, targets: Targets, ps: Pass, all: seq<Syncer>, g: Syncer, naming: Naming, b: string)
    requires Keyed(all) && PassOk(start, targets, ps, all, g, naming) && ps.done && Present(targets, g, b)
    ensures Wanted(all, g, b)
  {
    var n :| n in targets && Mine(targets[n], g) && targets[n].targetBranch == b;
    var listed := ps.listed.value;
    WantedIsDesiredOrUsed(all, ps.self, g, b);
    assert !Wanted(all, g, b) ==> IsOrphan(listed, ps.self, all, n);
  }

  /**
   However the calls of the passes interleave and however old their listings get: once every
   syncer of the group that wants anything has finished a pass, and at least one has, the
   targets are exactly the wanted branches; and no step on the way removes a wanted target.
   */
  lemma {:induction false} InterleavedPassesConverge(s: State, all: seq<Syncer>, g: Syncer, naming: Naming, labels: seq<Label>)
    requires Keyed(all) && IsInitial(s, all, g) && Healthy(s.targets, all, g, naming) && Runs(s, all, naming, labels)
    requires var r := After(s, all, naming, labels);
      && (exists p :: p in r.passes && r.passes[p].done)
      && forall t :: t in all && SameGroup(t, g) && Desired(t) != [] ==> HasFinished(r, t)
    ensures Converged(After(s, all, naming, labels).targets, all, g)
  {
    RunKeepsInv(s.targets, s, all, g, naming, labels);
    var r := After(s, all, naming, labels);
    forall b | Wanted(all, g, b) ensures Present(r.targets, g, b) {
      var t :| t in all && SameGroup(t, g) && b in Desired(t);
      assert HasFinished(r, t);
      var p :| p in r.passes && r.passes[p].done && r.passes[p].self == t;
      DesiredIsPresentAfter(s.targets, r.targets, r.passes[p], all, g, naming, b);
    }
    var p :| p in r.passes && r.passes[p].done;
    forall b | Present(r.targets, g, b) ensures Wanted(all, g, b) {
      PresentIsWantedAfter(s.targets, r.targets, r.passes[p], all, g, naming, b);
    }
  }

  ghost predicate HasFinished(s: State, t: Syncer) {
    exists p :: p in s.passes && s.passes[p].done && s.passes[p].self == t
  }

  /** Whatever is listed, created or deleted next, a wanted target stays. */
  lemma WantedTargetsStay(s: State, all: seq<Syncer>, g: Syncer, naming: Naming, labels: seq<Label>, l: Label)
    requires Keyed(all) && IsInitial(s, all, g) && Healthy(s.targets, all, g, naming)
    requires Runs(s, all, naming, labels) && Enabled(After(s, all, naming, labels), all, naming, l)
    ensures var r := After(s, all, naming, labels);
      forall n :: n in r.targets && (!Mine(r.targets[n], g) || Wanted(all, g, r.targets[n].targetBranch)) ==>
        n in Apply(r, naming, l).targets && Apply(r, naming, l).targets[n] == r.targets[n]
  {
    RunKeepsInv(s.targets, s, all, g, naming, labels);
    StepKeepsInv(s.targets, After(s, all, naming, labels), all, g, naming, l);
  }

  // ---------- a pass on its own ----------

  /** What one pass that nobody disturbs has done so far. */
  ghost predicate Undisturbed(before: Targets, s: State, p: Pid, all: seq<Syncer>, naming: Naming) {
    && p in s.passes
    && var ps := s.passes[p];
    && (ps.listed == None ==> s.targets == before && ps.tried == {} && ps.deleted == {})
    && (ps.listed.Some? ==> ps.listed == Some(before))
    && (forall n :: n in before && n in s.targets ==> s.targets[n] == before[n])
    && (forall n :: n in before && n !in s.targets ==> n in ps.deleted)
    && (forall n :: n in ps.deleted ==> n !in s.targets && IsOrphan(before, ps.self, all, n))
    && (forall n :: n in s.targets && n !in before ==> IsBuilt(ps.self, naming, n, s.targets[n]))
    && (forall b :: b in ps.tried ==> NameTaken(before, s.targets, ps.self, naming, b))
    && (ps.done ==> IsThrough(ps, all))
  }

  ghost predicate IsBuilt(self: Syncer, naming: Naming, n: string, t: Target) {
    exists b :: b in Desired(self) && NameFor(naming, self, b) == Some(n) && t == Build(self, b)
  }

  lemma StepUndisturbed(before: Targets, s: State, p: Pid, all: seq<Syncer>, naming: Naming, l: Label)
    requires Undisturbed(before, s, p, all, naming) && Enabled(s, all, naming, l) && l.p == p
    ensures Undisturbed(before, Apply(s, naming, l), p, all, naming)
    ensures Apply(s, naming, l).passes[p].self == s.passes[p].self
  {
    var ps := s.passes[p];
    match l
    case List(_) =>
    case Create(_, b) => assert IsBuilt(ps.self, naming, NameFor(naming, ps.self, b).value, Build(ps.self, b));
    case Delete(_, n) =>
      forall b | b in ps.tried ensures NameTaken(before, s.targets - {n}, ps.self, naming, b) {
        assert NameTaken(before, s.targets, ps.self, naming, b);
      }
    case Finish(_) =>
  }

  lemma {:induction false} RunUndisturbed(before: Targets, s: State, p: Pid, all: seq<Syncer>, naming: Naming, labels: seq<Label>)
    requires Undisturbed(before, s, p, all, naming) && Runs(s, all, naming, labels) && forall l :: l in labels ==> l.p == p
    ensures Undisturbed(before, After(s, all, naming, labels), p, all, naming)
    ensures p in After(s, all, naming, labels).passes
    ensures After(s, all, naming, labels).passes[p].self == s.passes[p].self
    decreases |labels|
  {
    if labels != [] {
      assert labels[0] in labels;
      StepUndisturbed(before, s, p, all, naming, labels[0]);
      assert forall l :: l in labels[1..] ==> l in labels;
      RunUndisturbed(before, Apply(s, naming, labels[0]), p, all, naming, labels[1..]);
    }
  }

  /** A pass that begins and finishes with no other call in between is a successful pass of the policy. */
  lemma AlonePassReconciles(s: State, p: Pid, all: seq<Syncer>, naming: Naming, labels: seq<Label>)
    requires p in s.passes && s.passes[p] == Pass(s.passes[p].self, None, {}, {}, false)
    requires Runs(s, all, naming, labels) && (forall l :: l in labels ==> l.p == p)
    requires p in After(s, all, naming, labels).passes && After(s, all, naming, labels).passes[p].done
    ensures Reconciled(s.targets, After(s, all, naming, labels).targets, s.passes[p].self, all, naming)
  {
    RunUndisturbed(s.targets, s, p, all, naming, labels);
    var r, self := After(s, all, naming, labels), s.passes[p].self;
    forall b | b in Desired(self) ensures Present(r.targets, self, b) || NameTaken(s.targets, r.targets, self, naming, b) {
      if b !in r.passes[p].tried {
        var n :| n in s.targets && Mine(s.targets[n], self) && s.targets[n].targetBranch == b;
        assert n in r.targets;
      }
    }
  }

  // ---------- exactly when interleaved passes converge ----------

  /** Every target of the upstream is wanted. */
  ghost predicate AllWanted(targets: Targets, all: seq<Syncer>, g: Syncer) {
    forall n :: n in targets && Mine(targets[n], g) ==> Wanted(all, g, targets[n].targetBranch)
  }

  /** With nothing unwanted to start from, passes only add: wanted targets, under their names. */
  ghost predicate Grown(start: Targets, targets: Targets, all: seq<Syncer>, g: Syncer, naming: Naming) {
    && AllWanted(targets, all, g) && ProperlyNamed(targets, g, naming)
    && forall n :: n in start ==> n in targets && targets[n] == start[n]
  }

  ghost predicate PassGrows(ps: Pass, all: seq<Syncer>, g: Syncer, naming: Naming) {
    && ps.self in all && SameGroup(ps.self, g)
    && (ps.listed.Some? ==> AllWanted(ps.listed.value, all, g) && ProperlyNamed(ps.listed.value, g, naming))
    && (forall b :: b in ps.tried ==> NameFor(naming, g, b).Some?)
    && (ps.done ==> HasTriedAll(ps))
  }

  ghost predicate Grows(start: Targets, s: State, all: seq<Syncer>, g: Syncer, naming: Naming) {
    && Grown(start, s.targets, all, g, naming)
    && forall p :: p in s.passes ==> PassGrows(s.passes[p], all, g, naming)
  }

  /** Nothing listed is an orphan. */
  lemma NothingToDelete(ps: Pass, all: seq<Syncer>, g: Syncer, naming: Naming, n: string)
    requires Keyed(all) && PassGrows(ps, all, g, naming) && ps.listed.Some?
    ensures !IsOrphan(ps.listed.value, ps.self, all, n)
  {
    var listed := ps.listed.value;
    if n in listed { WantedIsDesiredOrUsed(all, ps.self, g, listed[n].targetBranch); }
  }

  lemma CreateGrows(start: Targets, targets: Targets, self: Syncer, all: seq<Syncer>, g: Syncer, naming: Naming, b: string)
    requires Grown(start, targets, all, g, naming) && SameGroup(self, g) && Wanted(all, g, b) && NameFor(naming, self, b).Some?
    ensures var n := NameFor(naming, self, b).value;
      Grown(start, if n in targets then targets else targets[n := Build(self, b)], all, g, naming)
  {
  }

  lemma StepGrowsTargets(start: Targets, s: State, all: seq<Syncer>, g: Syncer, naming: Naming, l: Label)
    requires Keyed(all) && Grown(start, s.targets, all, g, naming) && Enabled(s, all, naming, l)
    requires PassGrows(s.passes[l.p], all, g, naming)
    ensures Grown(start, Apply(s, naming, l).targets, all, g, naming)
  {
    var ps := s.passes[l.p];
    match l
    case List(_) =>
    case Create(_, b) =>
      assert Wanted(all, g, b);
      CreateGrows(start, s.targets, ps.self, all, g, naming, b);
    case Delete(_, n) => NothingToDelete(ps, all, g, naming, n);
    case Finish(_) =>
  }

  lemma StepGrowsPass(start: Targets, s: State, all: seq<Syncer>, g: Syncer, naming: Naming, l: Label)
    requires Grown(start, s.targets, all, g, naming) && Enabled(s, all, naming, l) && PassGrows(s.passes[l.p], all, g, naming)
    ensures PassGrows(Apply(s, naming, l).passes[l.p], all, g, naming)
  {
  }

  lemma StepGrows(start: Targets, s: State, all: seq<Syncer>, g: Syncer, naming: Naming, l: Label)
    requires Keyed(all) && Grows(start, s, all, g, naming) && Enabled(s, all, naming, l)
    ensures Grows(start, Apply(s, naming, l), all, g, naming)
  {
    assert PassGrows(s.passes[l.p], all, g, naming);
    StepGrowsTargets(start, s, all, g, naming, l);
    StepGrowsPass(start, s, all, g, naming, l);
  }

  lemma {:induction false} RunGrows(start: Targets, s: State, all: seq<Syncer>, g: Syncer, naming: Naming, labels: seq<Label>)
    requires Keyed(all) && Grows(start, s, all, g, naming) && Runs(s, all, naming, labels)
    ensures Grows(start, After(s, all, naming, labels), all, g, naming)
    decreases |labels|
  {
    if labels != [] {
      StepGrows(start, s, all, g, naming, labels[0]);
      RunGrows(start, Apply(s, naming, labels[0]), all, g, naming, labels[1..]);
    }
  }

  lemma FinishedHasName(ps: Pass, all: seq<Syncer>, g: Syncer, naming: Naming, b: string)
    requires PassGrows(ps, all, g, naming) && ps.done && b in Desired(ps.self)
    ensures NameFor(naming, g, b).Some?
  {
    if b !in ps.tried {
      var n :| n in ps.listed.value && Mine(ps.listed.value[n], ps.self) && ps.listed.value[n].targetBranch == b;
      assert Mine(ps.listed.value[n], g);
    }
  }

  /**
   From targets none of which is unwanted, as any pass on its own leaves them: once every
   syncer of the group has finished a pass, the calls of all interleaving, the targets are the
   wanted branches if and only if no two of their derived names coincide and no other object
   has one.
   */
  lemma InterleavedExactly(s: State, all: seq<Syncer>, g: Syncer, naming: Naming, labels: seq<Label>)
    requires Keyed(all) && IsInitial(s, all, g) && Runs(s, all, naming, labels)
    requires ProperlyNamed(s.targets, g, naming) && AllWanted(s.targets, all, g)
    requires var r := After(s, all, naming, labels);
      && (exists p :: p in r.passes && r.passes[p].done)
      && forall t :: t in all && SameGroup(t, g) && Desired(t) != [] ==> HasFinished(r, t)
    ensures Converged(After(s, all, naming, labels).targets, all, g) <==>
      NamesApart(all, g, naming) && !NameHeld(s.targets, all, g, naming)
  {
    RunGrows(s.targets, s, all, g, naming, labels);
    var r := After(s, all, naming, labels);
    if Converged(r.targets, all, g) { ConvergedIsFree(r.targets, s.targets, all, g, naming); }
    if NamesApart(all, g, naming) && !NameHeld(s.targets, all, g, naming) {
      forall b | Wanted(all, g, b) ensures NameFor(naming, g, b).Some? {
        var t :| t in all && SameGroup(t, g) && b in Desired(t);
        assert HasFinished(r, t);
        var p :| p in r.passes && r.passes[p].done && r.passes[p].self == t;
        FinishedHasName(r.passes[p], all, g, naming, b);
      }
      WantedAreHealthy(s.targets, all, g, naming);
      InterleavedPassesConverge(s, all, g, naming, labels);
    }
  }

  lemma WantedAreHealthy(targets: Targets, all: seq<Syncer>, g: Syncer, naming: Naming)
    requires ProperlyNamed(targets, g, naming) && AllWanted(targets, all, g)
    requires NamesApart(all, g, naming) && !NameHeld(targets, all, g, naming)
    requires forall b :: Wanted(all, g, b) ==> NameFor(naming, g, b).Some?
    ensures Healthy(targets, all, g, naming)
  {
    forall b, n | Wanted(all, g, b) && n in targets && NameFor(naming, g, b) == Some(n)
      ensures Mine(targets[n], g) && targets[n].targetBranch == b
    {
      assert Mine(targets[n], g);
    }
  }

  // ---------- a listing that got too old ----------

  lemma {:induction false} Extend(s: State, all: seq<Syncer>, naming: Naming, labels: seq<Label>, l: Label)
    requires Runs(s, all, naming, labels) && Enabled(After(s, all, naming, labels), all, naming, l)
    ensures Runs(s, all, naming, labels + [l])
    ensures After(s, all, naming, labels + [l]) == Apply(After(s, all, naming, labels), naming, l)
    decreases |labels|
  {
    if labels == [] {
      assert labels + [l] == [l] && [l][1..] == [];
    } else {
      ConcatCons(labels, [l]);
      Extend(Apply(s, naming, labels[0]), all, naming, labels[1..], l);
    }
  }

  /** Two syncers of one upstream that want the branch B and nothing else. */
  const FIRST: Syncer := Example("B")
  const SECOND: Syncer := ClusterWide("ns", "other", "repo", "main", "B")

  const BOTH: seq<Syncer> := [FIRST, SECOND]

  /** The target of a branch b that nobody wants any more. */
  const ORPHAN: Targets := map["b" := Build(FIRST, "b")]

  const WANTED: Targets := map["b" := Build(FIRST, "B")]

  function Fresh(self: Syncer): Pass {
    Pass(self, None, {}, {}, false)
  }

  /** Two passes of the first syncer, and in parallel one of the second. */
  const START: State := State(ORPHAN, map[0 := Fresh(FIRST), 1 := Fresh(SECOND), 2 := Fresh(FIRST)])

  lemma ExampleWants()
    ensures Desired(FIRST) == ["B"] && Desired(SECOND) == ["B"] && SameGroup(SECOND, FIRST)
    ensures NameFor(LOWER_CASE, FIRST, "B") == Some("b") && NameFor(LOWER_CASE, SECOND, "B") == Some("b")
    ensures IsOrphan(ORPHAN, FIRST, BOTH, "b") && IsOrphan(ORPHAN, SECOND, BOTH, "b")
    ensures !Present(ORPHAN, FIRST, "B") && !Present(ORPHAN, SECOND, "B")
    ensures Wanted(BOTH, FIRST, "B") && Present(WANTED, FIRST, "B")
  {
    ExampleBranches();
    ExampleNames();
    assert ORPHAN["b"].targetBranch == "b" && WANTED["b"].targetBranch == "B";
    assert FIRST in BOTH && "B" in Desired(FIRST);
    assert forall t :: t in BOTH ==> t == FIRST || t == SECOND;
    assert Mine(WANTED["b"], FIRST);
  }

  /** Both have listed the orphan; a pass of the first deletes it, and the next one creates the wanted target. */
  lemma WantedIsCreated() returns (labels: seq<Label>)
    ensures Runs(START, BOTH, LOWER_CASE, labels)
    ensures var r := After(START, BOTH, LOWER_CASE, labels);
      && r.targets == WANTED && r.passes.Keys == {0, 1, 2}
      && r.passes[2].done && r.passes[2].self == FIRST
      && r.passes[1] == Pass(SECOND, Some(ORPHAN), {}, {}, false)
  {
    ExampleWants();
    labels := [];
    Extend(START, BOTH, LOWER_CASE, labels, List(1));
    labels := labels + [List(1)];
    Extend(START, BOTH, LOWER_CASE, labels, List(0));
    labels := labels + [List(0)];
    Extend(START, BOTH, LOWER_CASE, labels, Create(0, "B"));
    labels := labels + [Create(0, "B")];
    Extend(START, BOTH, LOWER_CASE, labels, Delete(0, "b"));
    labels := labels + [Delete(0, "b")];
    var s := After(START, BOTH, LOWER_CASE, labels);
    assert s.targets == map[];
    Extend(START, BOTH, LOWER_CASE, labels, List(2));
    labels := labels + [List(2)];
    Extend(START, BOTH, LOWER_CASE, labels, Create(2, "B"));
    labels := labels + [Create(2, "B")];
    s := After(START, BOTH, LOWER_CASE, labels);
    assert s.targets == WANTED;
    assert IsThrough(s.passes[2], BOTH);
    Extend(START, BOTH, LOWER_CASE, labels, Finish(2));
    labels := labels + [Finish(2)];
  }

  /**
   The other pass, whose list is as old as the orphan, then deletes the target by its name:
   both syncers have finished a pass, one of them begun after the orphan was gone, and the
   wanted branch has no target.
   */
  lemma OldListDeletesWanted() returns (labels: seq<Label>)
    ensures Runs(START, BOTH, LOWER_CASE, labels)
    ensures var r := After(START, BOTH, LOWER_CASE, labels);
      && 1 in r.passes && 2 in r.passes && r.passes[1].done && r.passes[2].done
      && r.passes[1].self == SECOND && r.passes[2].self == FIRST
      && Wanted(BOTH, FIRST, "B") && !Present(r.targets, FIRST, "B")
    ensures NamesApart(BOTH, FIRST, LOWER_CASE) && !NameHeld(START.targets, BOTH, FIRST, LOWER_CASE)
  {
    ExampleWants();
    labels := WantedIsCreated();
    Extend(START, BOTH, LOWER_CASE, labels, Create(1, "B"));
    labels := labels + [Create(1, "B")];
    Extend(START, BOTH, LOWER_CASE, labels, Delete(1, "b"));
    labels := labels + [Delete(1, "b")];
    var s := After(START, BOTH, LOWER_CASE, labels);
    assert IsThrough(s.passes[1], BOTH);
    Extend(START, BOTH, LOWER_CASE, labels, Finish(1));
    labels := labels + [Finish(1)];
    OnlyOneWanted();
  }

  lemma OnlyOneWanted()
    ensures NamesApart(BOTH, FIRST, LOWER_CASE) && !NameHeld(ORPHAN, BOTH, FIRST, LOWER_CASE)
  {
    ExampleWants();
    forall b | Wanted(BOTH, FIRST, b) ensures b == "B" {
      var t :| t in BOTH && SameGroup(t, FIRST) && b in Desired(t);
    }
    assert Mine(ORPHAN["b"], FIRST);
  }
}
