/** The target references of managed remote user bindings (pkg/managed/remoteuserbinding.go). */
module Bindings {
  import opened Common
  import opened Versioned

  datatype Ref = Ref(name: string, namespace: string)

  datatype Binding = Binding(namespace: string, userRefs: seq<Ref>, targetRefs: seq<Ref>)

  /** A managed reference carries no namespace; an explicit one must be the binding's own. */
  predicate RefersTo(namespace: string, ref: Ref, target: string) {
    ref.name == target && (ref.namespace == "" || ref.namespace == namespace)
  }

  function RefsTo(b: Binding, target: string): seq<Ref> {
    Filter(b.namespace, b.targetRefs, target)
  }

  /** The references that designate target. */
  function Filter(namespace: string, refs: seq<Ref>, target: string): seq<Ref> {
    if refs == [] then []
    else (if RefersTo(namespace, refs[0], target) then [refs[0]] else []) + Filter(namespace, refs[1..], target)
  }

  /** The references that do not designate target, in order. */
  function Others(namespace: string, refs: seq<Ref>, target: string): seq<Ref> {
    if refs == [] then []
    else (if RefersTo(namespace, refs[0], target) then [] else [refs[0]]) + Others(namespace, refs[1..], target)
  }

  lemma OthersStep(namespace: string, refs: seq<Ref>, i: nat, target: string, kept: seq<Ref>)
    requires i < |refs|
    ensures kept + Others(namespace, refs[i..], target) ==
      (if RefersTo(namespace, refs[i], target) then kept else kept + [refs[i]]) + Others(namespace, refs[i + 1..], target)
  {
    assert refs[i..][0] == refs[i] && refs[i..][1..] == refs[i + 1..];
    ConcatAssociative(kept, [refs[i]], Others(namespace, refs[i + 1..], target));
  }

  datatype Mutation = Add(target: string) | Remove(target: string)

  function Mutated(b: Binding, m: Mutation): Binding {
    match m
    case Add(target) =>
      if exists i :: 0 <= i < |b.targetRefs| && RefersTo(b.namespace, b.targetRefs[i], target) then b
      else b.(targetRefs := b.targetRefs + [Ref(target, "")])
    case Remove(target) => b.(targetRefs := Others(b.namespace, b.targetRefs, target))
  }

  /**
   A reference designates a target by its name and by having no namespace or the binding's own.
   Removing a target takes out all that do, and one of the same name in another namespace
   stays; adding it appends one without a namespace unless some reference does already.
   Nothing else of the binding changes.
   */
  lemma MutatedInFields(b: Binding, target: string)
    ensures forall r :: r in Mutated(b, Remove(target)).targetRefs <==>
      r in b.targetRefs && (r.name != target || (r.namespace != "" && r.namespace != b.namespace))
    ensures Mutated(b, Add(target)).targetRefs ==
      if exists r :: r in b.targetRefs && r.name == target && (r.namespace == "" || r.namespace == b.namespace)
      then b.targetRefs else b.targetRefs + [Ref(target, "")]
    ensures forall m :: Mutated(b, m).namespace == b.namespace && Mutated(b, m).userRefs == b.userRefs
  {
    OthersAre(b.namespace, b.targetRefs, target);
    assert forall r :: r in b.targetRefs ==> exists i :: 0 <= i < |b.targetRefs| && b.targetRefs[i] == r;
  }

  lemma {:induction false} OthersAre(namespace: string, refs: seq<Ref>, target: string)
    ensures forall r :: r in Others(namespace, refs, target) <==> r in refs && !RefersTo(namespace, r, target)
  {
    if refs != [] {
      OthersAre(namespace, refs[1..], target);
      assert refs == [refs[0]] + refs[1..];
    }
  }

  class RemoteUserBinding {
    const namespace: string
    var userRefs: seq<Ref>
    var targetRefs: seq<Ref>

    constructor (b: Binding)
      ensures Value() == b
    {
      namespace, userRefs, targetRefs := b.namespace, b.userRefs, b.targetRefs;
    }

    function Value(): Binding
      reads this
    {
      Binding(namespace, userRefs, targetRefs)
    }

    method AddRemoteTargetRef(target: string)
      modifies this`targetRefs
      ensures Value() == Mutated(old(Value()), Add(target))
    {
      for i := 0 to |targetRefs|
        invariant forall j :: 0 <= j < i ==> !RefersTo(namespace, targetRefs[j], target)
        invariant targetRefs == old(targetRefs)
      {
        if RefersTo(namespace, targetRefs[i], target) {
          return;
        }
      }
      targetRefs := targetRefs + [Ref(target, "")];
    }

    method RemoveRemoteTargetRef(target: string)
      modifies this`targetRefs
      ensures Value() == Mutated(old(Value()), Remove(target))
    {
      var newRefs := [];
      for i := 0 to |targetRefs|
        invariant targetRefs == old(targetRefs)
        invariant newRefs + Others(namespace, targetRefs[i..], target) == Others(namespace, targetRefs, target)
      {
        OthersStep(namespace, targetRefs, i, target, newRefs);
        if !RefersTo(namespace, targetRefs[i], target) {
          newRefs := newRefs + [targetRefs[i]];
        }
      }
      assert targetRefs[|targetRefs|..] == [];
      targetRefs := newRefs;
    }
  }

  /** MutateOrDeleteRemoteUserBinding: mutate what was read, and delete a binding left without references. */
  function MutateOrDelete(m: Mutation): Call<Binding> {
    (c: Content<Binding>) =>
      match c
      case Absent => Fail
      case Present(b) =>
        var after := Mutated(b, m);
        if |after.userRefs| == 0 && |after.targetRefs| == 0 then Delete else Update(after)
  }

  ghost predicate IsMutation(call: Call<Binding>) {
    exists m :: call == MutateOrDelete(m)
  }

  /** Every writer of the run mutates the binding through MutateOrDelete. */
  ghost predicate OnlyMutations(labels: seq<Label<Binding>>) {
    forall l :: l in labels && l.Read? ==> IsMutation(l.call)
  }

  lemma MutationsOnlyUpdate(call: Call<Binding>)
    requires IsMutation(call)
    ensures OnlyUpdates(call)
  {
  }

  ghost predicate LoggedMutations(s: State<Binding>) {
    && (forall t :: t in s.attempts ==> IsMutation(s.attempts[t].call))
    && (forall e :: e in s.log ==> IsMutation(e.call))
  }

  lemma {:induction false} LogHoldsMutations(s: State<Binding>, labels: seq<Label<Binding>>)
    requires Runs(s, labels) && OnlyMutations(labels) && LoggedMutations(s)
    ensures LoggedMutations(After(s, labels))
    decreases |labels|
  {
    if labels != [] {
      assert labels[0] in labels;
      assert forall l :: l in labels[1..] ==> l in labels;
      LogHoldsMutations(Apply(s, labels[0]), labels[1..]);
    }
  }

  // ---------- references ----------

  lemma {:induction false} FilterConcat(namespace: string, a: seq<Ref>, b: seq<Ref>, target: string)
    ensures Filter(namespace, a + b, target) == Filter(namespace, a, target) + Filter(namespace, b, target)
    decreases |a|
  {
    if a == [] {
      assert a + b == b;
    } else {
      ConcatCons(a, b);
      FilterConcat(namespace, a[1..], b, target);
      ConcatAssociative(if RefersTo(namespace, a[0], target) then [a[0]] else [],
                        Filter(namespace, a[1..], target), Filter(namespace, b, target));
    }
  }

  lemma {:induction false} FilterOthers(namespace: string, refs: seq<Ref>, removed: string, target: string)
    ensures Filter(namespace, Others(namespace, refs, removed), target)
         == if removed == target then [] else Filter(namespace, refs, target)
    decreases |refs|
  {
    if refs != [] {
      FilterOthers(namespace, refs[1..], removed, target);
      FilterConcat(namespace, if RefersTo(namespace, refs[0], removed) then [] else [refs[0]],
                   Others(namespace, refs[1..], removed), target);
      assert [refs[0]][1..] == [];
    }
  }

  lemma {:induction false} FilterEmpty(namespace: string, refs: seq<Ref>, target: string)
    ensures Filter(namespace, refs, target) == [] <==>
      forall i :: 0 <= i < |refs| ==> !RefersTo(namespace, refs[i], target)
    decreases |refs|
  {
    if refs != [] {
      FilterEmpty(namespace, refs[1..], target);
      assert forall i :: 1 <= i < |refs| ==> refs[i] == refs[1..][i - 1];
    }
  }

  /** A mutation touches only the references to its own target. */
  lemma MutationEffect(b: Binding, m: Mutation, target: string)
    ensures Mutated(b, m).namespace == b.namespace && Mutated(b, m).userRefs == b.userRefs
    ensures m.target != target ==> RefsTo(Mutated(b, m), target) == RefsTo(b, target)
    ensures m == Remove(target) ==> RefsTo(Mutated(b, m), target) == []
    ensures m == Add(target) ==>
      RefsTo(Mutated(b, m), target) == if RefsTo(b, target) == [] then [Ref(target, "")] else RefsTo(b, target)
  {
    FilterEmpty(b.namespace, b.targetRefs, m.target);
    match m
    case Add(t) =>
      FilterConcat(b.namespace, b.targetRefs, [Ref(t, "")], target);
      assert [Ref(t, "")][1..] == [];
    case Remove(t) => FilterOthers(b.namespace, b.targetRefs, t, target);
  }

  /** Success number i added target, and no success after it, up to n, removed it. */
  ghost predicate AddedAndKept(log: seq<Success<Binding>>, i: nat, n: nat, target: string)
    requires n <= |log|
  {
    && i < n && log[i].call == MutateOrDelete(Add(target))
    && forall j :: i < j < n ==> log[j].call != MutateOrDelete(Remove(target))
  }

  ghost predicate ExistsThroughout(c: Content<Binding>, log: seq<Success<Binding>>, n: nat)
    requires n <= |log|
  {
    forall k :: 0 <= k <= n ==> Serial(c, log[..k]).Present?
  }

  lemma SerialStep(c: Content<Binding>, log: seq<Success<Binding>>, n: nat) returns (m: Mutation)
    requires n < |log| && IsMutation(log[n].call) && ExistsThroughout(c, log, n + 1)
    ensures log[n].call == MutateOrDelete(m)
    ensures Serial(c, log[..n]).Present? && Serial(c, log[..n + 1]) == Present(Mutated(Serial(c, log[..n]).value, m))
  {
    assert log[..n + 1][..n] == log[..n];
    assert Serial(c, log[..n]).Present? && Serial(c, log[..n + 1]).Present?;
    m :| log[n].call == MutateOrDelete(m);
  }

  /** While the binding exists, a target is never referenced twice. */
  lemma {:induction false} AtMostOneRef(c: Content<Binding>, log: seq<Success<Binding>>, n: nat, target: string)
    requires n <= |log| && (forall e :: e in log ==> IsMutation(e.call)) && ExistsThroughout(c, log, n)
    requires c.Present? && |RefsTo(c.value, target)| <= 1
    ensures Serial(c, log[..n]).Present? && |RefsTo(Serial(c, log[..n]).value, target)| <= 1
  {
    if n > 0 {
      AtMostOneRef(c, log, n - 1, target);
      assert log[n - 1] in log;
      var m := SerialStep(c, log, n - 1);
      MutationEffect(Serial(c, log[..n - 1]).value, m, target);
    }
  }

  lemma {:induction false} KeptRef(c: Content<Binding>, log: seq<Success<Binding>>, i: nat, n: nat, target: string)
    requires n <= |log| && (forall e :: e in log ==> IsMutation(e.call)) && ExistsThroughout(c, log, n)
    requires c.Present? && |RefsTo(c.value, target)| <= 1
    requires AddedAndKept(log, i, n, target)
    ensures Serial(c, log[..n]).Present? && |RefsTo(Serial(c, log[..n]).value, target)| == 1
    decreases n
  {
    assert log[n - 1] in log;
    var m := SerialStep(c, log, n - 1);
    var before := Serial(c, log[..n - 1]).value;
    if i < n - 1 {
      assert AddedAndKept(log, i, n - 1, target);
      KeptRef(c, log, i, n - 1, target);
      assert m != Remove(target);
    } else {
      AtMostOneRef(c, log, n - 1, target);
      AddsAreDistinct(m, target);
    }
    CountStep(before, m, target);
  }

  lemma CountStep(b: Binding, m: Mutation, target: string)
    requires (|RefsTo(b, target)| == 1 && m != Remove(target)) || (|RefsTo(b, target)| <= 1 && m == Add(target))
    ensures |RefsTo(Mutated(b, m), target)| == 1
  {
    MutationEffect(b, m, target);
  }

  /** A call that adds target is no other mutation. */
  lemma AddsAreDistinct(m: Mutation, target: string)
    ensures MutateOrDelete(m) == MutateOrDelete(Add(target)) ==> m.target == target && m.Add?
  {
    var b := Binding("", [Ref("", "")], [Ref(m.target, "")]);
    assert [Ref(m.target, "")][1..] == [];
    assert MutateOrDelete(m)(Present(b)) == Update(Mutated(b, m));
    assert MutateOrDelete(Add(target))(Present(b)) == Update(Mutated(b, Add(target)));
    if m.Add? && m.target != target {
      assert RefersTo("", b.targetRefs[0], m.target);
      assert Mutated(b, m) == b;
      assert |Mutated(b, Add(target)).targetRefs| == 2;
    }
    if m.Remove? {
      assert b.targetRefs[1..] == [] && RefersTo(b.namespace, b.targetRefs[0], m.target);
      assert Others(b.namespace, b.targetRefs, m.target) == Others(b.namespace, b.targetRefs[1..], m.target);
      assert |Mutated(b, Add(target)).targetRefs| >= 1;
    }
  }

  /**
   Over every run of concurrent mutations that never empties the binding, even from stale
   reads: no successful mutation is lost, and a target that was added and not removed since
   is referenced exactly once (a binding that starts with at most one reference to it).
   */
  lemma AddedRefsSurvive(s: State<Binding>, labels: seq<Label<Binding>>, target: string)
    requires IsInitial(s) && Runs(s, labels) && OnlyMutations(labels)
    requires s.history[0].Present? && |RefsTo(s.history[0].value, target)| <= 1
    requires forall i :: 0 < i < |After(s, labels).history| ==> After(s, labels).history[i] != Absent
    ensures var r := After(s, labels);
      && r.history != [] && r.history[|r.history| - 1] == Serial(s.history[0], r.log)
      && r.history[|r.history| - 1].Present?
      && forall i: nat :: AddedAndKept(r.log, i, |r.log|, target) ==> |RefsTo(r.history[|r.history| - 1].value, target)| == 1
  {
    var r := After(s, labels);
    var n := |r.log|;
    NothingIsLost(s, labels);
    LogHoldsMutations(s, labels);
    forall i: nat | AddedAndKept(r.log, i, n, target) ensures |RefsTo(Serial(s.history[0], r.log[..n]).value, target)| == 1 {
      KeptRef(s.history[0], r.log, i, n, target);
    }
  }

  lemma NothingIsLost(s: State<Binding>, labels: seq<Label<Binding>>)
    requires IsInitial(s) && Runs(s, labels) && OnlyMutations(labels)
    requires s.history[0].Present?
    requires forall i :: 0 < i < |After(s, labels).history| ==> After(s, labels).history[i] != Absent
    ensures var r := After(s, labels);
      && |r.history| == |r.log| + 1
      && ExistsThroughout(s.history[0], r.log, |r.log|)
      && r.log[..|r.log|] == r.log
      && r.history[|r.log|] == Serial(s.history[0], r.log)
  {
    forall l | l in labels && l.Read? ensures OnlyUpdates(l.call) { MutationsOnlyUpdate(l.call); }
    UpdatesAreSerial(s, labels);
    var r := After(s, labels);
    forall k: nat | k <= |r.log| ensures Serial(s.history[0], r.log[..k]).Present? {
      assert SerialAt(r.history, r.log, k);
      assert k > 0 ==> r.history[k] != Absent;
    }
    assert SerialAt(r.history, r.log, |r.log|);
  }

  /** Adding never empties the binding, so a run of additions alone loses none of them. */
  lemma AdditionsKeepBinding(s: State<Binding>, labels: seq<Label<Binding>>)
    requires |s.history| > 0 && (forall i :: 0 <= i < |s.history| ==> s.history[i].Present?)
    requires forall t :: t in s.attempts ==> exists target :: s.attempts[t].call == MutateOrDelete(Add(target))
    requires Runs(s, labels)
    requires forall l :: l in labels && l.Read? ==> exists target :: l.call == MutateOrDelete(Add(target))
    ensures forall i :: 0 <= i < |After(s, labels).history| ==> After(s, labels).history[i].Present?
    decreases |labels|
  {
    if labels != [] {
      assert labels[0] in labels;
      assert forall l :: l in labels[1..] ==> l in labels;
      AdditionsKeepBinding(Apply(s, labels[0]), labels[1..]);
    }
  }

  /** The run in which a deletion decided before another writer's addition deletes that addition. */
  function LosingRun(first: string, second: string): seq<Label<Binding>> {
    [Read(0, 0, MutateOrDelete(Remove(first)))] + [Read(1, 0, MutateOrDelete(Add(second)))] + [Write(1)] + [Write(0)]
  }

  /**
   Deletions are not checked against a version, so an addition can be lost: both calls below
   succeed, yet the binding is gone although, one after another, they leave the added target.
   */
  lemma DeletionCanLoseAddition(namespace: string, first: string, second: string)
    requires first != second
    ensures var b := Binding(namespace, [], [Ref(first, "")]);
      var s := State([Present(b)], map[], []);
      && Runs(s, LosingRun(first, second))
      && var r := After(s, LosingRun(first, second));
      && |r.log| == 2 && |r.history| == 3
      && r.history[2] == Absent
      && Serial(s.history[0], r.log) == Present(Binding(namespace, [], [Ref(second, "")]))
  {
    var b := Binding(namespace, [], [Ref(first, "")]);
    var both := Binding(namespace, [], [Ref(first, ""), Ref(second, "")]);
    var remove, add := MutateOrDelete(Remove(first)), MutateOrDelete(Add(second));
    LosingMutations(namespace, first, second);
    LosingStates(b, both, remove, add);
    var log := [Success(add, 0), Success(remove, 1)];
    assert log[..1] == [Success(add, 0)] && log[..1][..0] == [];
    assert Serial(Present(b), log[..1]) == Alone(Present(b), add) == Present(both);
  }

  lemma LosingMutations(namespace: string, first: string, second: string)
    requires first != second
    ensures var b := Binding(namespace, [], [Ref(first, "")]);
      var both := Binding(namespace, [], [Ref(first, ""), Ref(second, "")]);
      && MutateOrDelete(Remove(first))(Present(b)) == Delete
      && MutateOrDelete(Add(second))(Present(b)) == Update(both)
      && MutateOrDelete(Remove(first))(Present(both)) == Update(Binding(namespace, [], [Ref(second, "")]))
  {
    var b := Binding(namespace, [], [Ref(first, "")]);
    var both := Binding(namespace, [], [Ref(first, ""), Ref(second, "")]);
    assert b.targetRefs[1..] == [] && both.targetRefs[1..] == [Ref(second, "")] && [Ref(second, "")][1..] == [];
    assert Others(namespace, [Ref(second, "")], first) == [Ref(second, "")] + Others(namespace, [], first);
    assert Others(namespace, both.targetRefs, first) == Others(namespace, both.targetRefs[1..], first);
    assert Others(namespace, b.targetRefs, first) == Others(namespace, b.targetRefs[1..], first);
    assert b.targetRefs + [Ref(second, "")] == both.targetRefs;
    assert Mutated(b, Remove(first)) == Binding(namespace, [], []);
    assert Mutated(b, Add(second)) == both;
    assert Mutated(both, Remove(first)) == Binding(namespace, [], [Ref(second, "")]);
  }

  /** Both writers read the first version; the addition is written, then the deletion. */
  lemma LosingStates(b: Binding, both: Binding, remove: Call<Binding>, add: Call<Binding>)
    requires remove(Present(b)) == Delete && add(Present(b)) == Update(both)
    ensures var s := State([Present(b)], map[], []);
      var labels := [Read(0, 0, remove)] + [Read(1, 0, add)] + [Write(1)] + [Write(0)];
      && Runs(s, labels)
      && After(s, labels).history == [Present(b), Present(both), Absent]
      && After(s, labels).log == [Success(add, 0), Success(remove, 1)]
  {
    var s: State<Binding> := State([Present(b)], map[], []);
    var s1 := Apply(s, Read(0, 0, remove));
    var s2 := Apply(s1, Read(1, 0, add));
    var s3 := Apply(s2, Write(1));
    assert s3.history == [Present(b), Present(both)] && s3.log == [Success(add, 0)];
    assert s3.attempts[0] == Attempt(0, remove);
    RunsFour(s, Read(0, 0, remove), Read(1, 0, add), Write(1), Write(0));
  }

  lemma RunsFour(s: State<Binding>, a: Label<Binding>, b: Label<Binding>, c: Label<Binding>, d: Label<Binding>)
    requires Enabled(s, a) && Enabled(Apply(s, a), b) && Enabled(Apply(Apply(s, a), b), c)
    requires Enabled(Apply(Apply(Apply(s, a), b), c), d)
    ensures Runs(s, [a] + [b] + [c] + [d]) && After(s, [a] + [b] + [c] + [d]) == Apply(Apply(Apply(Apply(s, a), b), c), d)
  {
    RunsOne(s, a);
    RunsOne(Apply(s, a), b);
    RunsConcat(s, [a], [b]);
    RunsOne(Apply(Apply(s, a), b), c);
    RunsConcat(s, [a] + [b], [c]);
    RunsOne(Apply(Apply(Apply(s, a), b), c), d);
    RunsConcat(s, [a] + [b] + [c], [d]);
  }

  // ---------- exactly when nothing is lost ----------

  /** Each success acted on a binding, and only removals made it disappear. */
  ghost predicate OnlyRemovalsDelete(s: State<Binding>) {
    && |s.history| == |s.log| + 1
    && forall i: nat :: i < |s.log| ==> RemovedAt(s.history, s.log, i)
  }

  ghost predicate RemovedAt(history: seq<Content<Binding>>, log: seq<Success<Binding>>, i: nat)
    requires |history| == |log| + 1 && i < |log|
  {
    history[i].Present? && (history[i + 1] == Absent ==> exists t :: log[i].call == MutateOrDelete(Remove(t)))
  }

  /** A mutation that is written acted on a binding, and only a removal decides to delete. */
  lemma WrittenMutation(s: State<Binding>, t: Tid)
    requires |s.history| == |s.log| + 1 && Enabled(s, Write(t)) && Accepted(s, s.attempts[t]) && IsMutation(s.attempts[t].call)
    ensures var s' := Apply(s, Write(t));
      |s'.history| == |s'.log| + 1 && |s'.log| == |s.log| + 1 && RemovedAt(s'.history, s'.log, |s.log|)
  {
    var call := s.attempts[t].call;
    var m :| call == MutateOrDelete(m);
    if m.Remove? { assert call == MutateOrDelete(Remove(m.target)); }
  }

  lemma StepOnlyRemovals(s: State<Binding>, l: Label<Binding>)
    requires OnlyRemovalsDelete(s) && LoggedMutations(s) && Enabled(s, l) && (l.Read? ==> IsMutation(l.call))
    ensures OnlyRemovalsDelete(Apply(s, l))
  {
    var s' := Apply(s, l);
    if l.Write? && Accepted(s, s.attempts[l.t]) {
      WrittenMutation(s, l.t);
      forall i: nat | i < |s.log| ensures RemovedAt(s'.history, s'.log, i) {
        assert RemovedAt(s.history, s.log, i);
      }
    }
  }

  lemma {:induction false} RunOnlyRemovals(s: State<Binding>, labels: seq<Label<Binding>>)
    requires OnlyRemovalsDelete(s) && LoggedMutations(s) && Runs(s, labels) && OnlyMutations(labels)
    ensures OnlyRemovalsDelete(After(s, labels))
    decreases |labels|
  {
    if labels != [] {
      assert labels[0] in labels;
      assert forall l :: l in labels[1..] ==> l in labels;
      StepOnlyRemovals(s, labels[0]);
      RunOnlyRemovals(Apply(s, labels[0]), labels[1..]);
    }
  }

  /** The binding references nobody's user and no target but this one. */
  ghost predicate OnlyRefersTo(b: Binding, target: string) {
    b.userRefs == [] && forall i :: 0 <= i < |b.targetRefs| ==> RefersTo(b.namespace, b.targetRefs[i], target)
  }

  lemma {:induction false} OthersEmpty(namespace: string, refs: seq<Ref>, target: string)
    ensures Others(namespace, refs, target) == [] <==> forall i :: 0 <= i < |refs| ==> RefersTo(namespace, refs[i], target)
    decreases |refs|
  {
    if refs != [] {
      OthersEmpty(namespace, refs[1..], target);
      assert forall i :: 1 <= i < |refs| ==> refs[i] == refs[1..][i - 1];
    }
  }

  /** If success number i deleted the binding, there was nothing in it but references to its own target. */
  ghost predicate DeletionWasDue(history: seq<Content<Binding>>, log: seq<Success<Binding>>, i: nat)
    requires |history| == |log| + 1 && i < |log|
  {
    history[i + 1] == Absent ==>
      history[i].Present? && forall target :: log[i].call == MutateOrDelete(Remove(target)) ==> OnlyRefersTo(history[i].value, target)
  }

  lemma DeletionHoldsWhenDue(history: seq<Content<Binding>>, log: seq<Success<Binding>>, i: nat)
    requires |history| == |log| + 1 && i < |log| && RemovedAt(history, log, i)
    ensures DeletionHolds(history, log, i) <==> DeletionWasDue(history, log, i)
  {
    var b := history[i].value;
    forall target ensures log[i].call == MutateOrDelete(Remove(target)) ==>
      (Alone(history[i], log[i].call) == Absent <==> OnlyRefersTo(b, target))
    {
      OthersEmpty(b.namespace, b.targetRefs, target);
    }
  }

  /**
   A run of concurrent mutations equals its successes one after another, at every version, if
   and only if each removal that deleted the binding met one that held nothing but references
   to its own target.
   */
  lemma NothingIsLostExactly(s: State<Binding>, labels: seq<Label<Binding>>)
    requires IsInitial(s) && Runs(s, labels) && OnlyMutations(labels)
    ensures var r := After(s, labels);
      && |r.history| == |r.log| + 1 && r.history[0] == s.history[0]
      && ((forall n: nat :: n <= |r.log| ==> SerialAt(r.history, r.log, n))
          <==> (forall i: nat :: i < |r.log| ==> DeletionWasDue(r.history, r.log, i)))
  {
    forall l | l in labels && l.Read? ensures OnlyUpdates(l.call) { MutationsOnlyUpdate(l.call); }
    SerialExactly(s, labels);
    RunOnlyRemovals(s, labels);
    var r := After(s, labels);
    forall i: nat | i < |r.log| ensures DeletionHolds(r.history, r.log, i) <==> DeletionWasDue(r.history, r.log, i) {
      assert RemovedAt(r.history, r.log, i);
      DeletionHoldsWhenDue(r.history, r.log, i);
    }
  }
}
