/**
 The finalizer-gated lifecycle of the policies attached to an object (internal/policy/policy.go).
 Every API call may fail, a failed write may still have been applied, and the process may stop
 between two policies; annotation edits, deletion and foreign finalizers come between passes.
 */
module Finalizers {
  import opened Common

  type Annotations = map<string, string>

  datatype Policy = Policy(finalizer: string, applies: Annotations -> bool)

  /** What policy number `policy` did, and the finalizers on the object at that moment. */
  datatype Action = Reconciled(policy: nat, finalizers: seq<string>) | CleanedUp(policy: nat, succeeded: bool)

  /**
   The object as the API server holds it. external names the policies that have state outside
   the object, log what the policies have done so far.
   */
  datatype Resource = Resource(annotations: Annotations, finalizers: seq<string>, deleting: bool, gone: bool,
                           external: set<nat>, log: seq<Action>)

  /** A write that is acknowledged, refused, or applied without the caller learning of it. */
  datatype Write = Acked | Rejected | Lost

  /** How one policy's calls go: whether Reconcile or Cleanup succeeds, whether a call leaves external state, and the finalizer write. */
  datatype Fate = Fate(succeeds: bool, leaves: bool, write: Write)

  datatype PassResult = PassResult(obj: Resource, ok: bool)

  // ---------- one policy ----------

  function Without(fins: seq<string>, fin: string): seq<string> {
    if fins == [] then [] else (if fins[0] == fin then [] else [fins[0]]) + Without(fins[1..], fin)
  }

  /** The API server collects a deleted object once its last finalizer is gone. */
  function RemoveFinalizer(o: Resource, fin: string): Resource {
    var left := Without(o.finalizers, fin);
    o.(finalizers := left, gone := o.gone || (o.deleting && left == []))
  }

  function AfterReconcile(o: Resource, i: nat, fate: Fate): Resource {
    o.(external := if fate.leaves then o.external + {i} else o.external - {i},
       log := o.log + [Reconciled(i, o.finalizers)])
  }

  /** A failed cleanup may leave what was there; a successful one leaves nothing. */
  function AfterCleanup(o: Resource, i: nat, fate: Fate): Resource {
    o.(external := if fate.leaves && !fate.succeeds then o.external else o.external - {i},
       log := o.log + [CleanedUp(i, fate.succeeds)])
  }

  function WriteRemoval(o: Resource, fin: string, write: Write): Resource {
    if write == Rejected then o else RemoveFinalizer(o, fin)
  }

  /** Deletion: cleanup and finalizer removal of a policy that still holds its finalizer; ok means the pass goes on. */
  function DeleteOne(o: Resource, p: Policy, i: nat, fate: Fate): PassResult {
    if p.finalizer == "" || p.finalizer !in o.finalizers then PassResult(o, true)
    else if !fate.succeeds then PassResult(AfterCleanup(o, i, fate), false)
    else PassResult(WriteRemoval(AfterCleanup(o, i, fate), p.finalizer, fate.write), fate.write == Acked)
  }

  /** Normal operation: reconcile an applicable policy, clean up after any other. */
  function ReconcileOne(o: Resource, p: Policy, i: nat, fate: Fate): PassResult {
    if p.applies(o.annotations) then PassResult(AfterReconcile(o, i, fate), fate.succeeds)
    else if !fate.succeeds then PassResult(AfterCleanup(o, i, fate), false)
    else if p.finalizer != "" && p.finalizer in o.finalizers then
      PassResult(WriteRemoval(AfterCleanup(o, i, fate), p.finalizer, fate.write), fate.write == Acked)
    else PassResult(AfterCleanup(o, i, fate), true)
  }

  // ---------- one pass ----------

  /** Policies i, i + 1, ... on deletion; a missing fate means the process stopped there. */
  function DeleteFrom(o: Resource, ps: seq<Policy>, fates: seq<Fate>, i: nat): PassResult
    requires i <= |ps|
    decreases |ps| - i
  {
    if i == |ps| then PassResult(o, true)
    else if i >= |fates| then PassResult(o, false)
    else
      var r := DeleteOne(o, ps[i], i, fates[i]);
      if r.ok then DeleteFrom(r.obj, ps, fates, i + 1) else r
  }

  /** Policies i, i + 1, ... in normal operation; errors do not stop the pass. */
  function ReconcileFrom(o: Resource, ps: seq<Policy>, fates: seq<Fate>, i: nat): PassResult
    requires i <= |ps|
    decreases |ps| - i
  {
    if i == |ps| then PassResult(o, true)
    else if i >= |fates| then PassResult(o, false)
    else
      var r := ReconcileOne(o, ps[i], i, fates[i]);
      var rest := ReconcileFrom(r.obj, ps, fates, i + 1);
      rest.(ok := r.ok && rest.ok)
  }

  function Needed(ps: seq<Policy>, annotations: Annotations): seq<string> {
    if ps == [] then []
    else (if ps[0].finalizer != "" && ps[0].applies(annotations) then [ps[0].finalizer] else []) + Needed(ps[1..], annotations)
  }

  function AddAll(fins: seq<string>, needed: seq<string>): seq<string>
    decreases |needed|
  {
    if needed == [] then fins
    else AddAll(if needed[0] in fins then fins else fins + [needed[0]], needed[1..])
  }

  function Pass(o: Resource, ps: seq<Policy>, ensureWrite: Write, fates: seq<Fate>): PassResult {
    if o.gone then PassResult(o, true)
    else if o.deleting then DeleteFrom(o, ps, fates, 0)
    else
      var fins := AddAll(o.finalizers, Needed(ps, o.annotations));
      if fins == o.finalizers then ReconcileFrom(o, ps, fates, 0)
      else PassResult(if ensureWrite == Rejected then o else o.(finalizers := fins), ensureWrite == Acked)
  }

  class Reconciler {
    var obj: Resource

    constructor (obj: Resource)
      ensures this.obj == obj
    {
      this.obj := obj;
    }

    method RemoveFinalizerFrom(fin: string, write: Write) returns (ok: bool)
      modifies this
      ensures obj == WriteRemoval(old(obj), fin, write)
      ensures ok == (write == Acked)
    {
      if write != Rejected {
        obj := RemoveFinalizer(obj, fin);
      }
      return write == Acked;
    }

    method CollectNeeded(ps: seq<Policy>) returns (needed: seq<string>)
      ensures needed == Needed(ps, obj.annotations)
    {
      needed := [];
      for i := 0 to |ps|
        invariant needed + Needed(ps[i..], obj.annotations) == Needed(ps, obj.annotations)
      {
        ghost var before := needed;
        var own := if ps[i].finalizer != "" && ps[i].applies(obj.annotations) then [ps[i].finalizer] else [];
        assert ps[i..][0] == ps[i] && ps[i..][1..] == ps[i + 1..];
        ConcatAssociative(before, own, Needed(ps[i + 1..], obj.annotations));
        needed := needed + own;
      }
      assert ps[|ps|..] == [];
    }

    method AddMissing(needed: seq<string>) returns (fins: seq<string>, changed: bool)
      ensures fins == AddAll(obj.finalizers, needed)
      ensures changed <==> fins != obj.finalizers
    {
      fins := obj.finalizers;
      changed := false;
      for i := 0 to |needed|
        invariant AddAll(fins, needed[i..]) == AddAll(obj.finalizers, needed)
        invariant |fins| >= |obj.finalizers|
        invariant if changed then |fins| > |obj.finalizers| else fins == obj.finalizers
      {
        assert needed[i..][0] == needed[i] && needed[i..][1..] == needed[i + 1..];
        if needed[i] !in fins {
          fins := fins + [needed[i]];
          changed := true;
        }
      }
      assert needed[|needed|..] == [];
    }

    /** Adds every needed finalizer in one write; added tells the caller to stop here. */
    method EnsureFinalizers(ps: seq<Policy>, write: Write) returns (added: bool, ok: bool)
      modifies this
      ensures var fins := AddAll(old(obj).finalizers, Needed(ps, old(obj).annotations));
        && (fins == old(obj).finalizers ==> obj == old(obj) && ok && !added)
        && (fins != old(obj).finalizers ==>
              && obj == (if write == Rejected then old(obj) else old(obj).(finalizers := fins))
              && ok == (write == Acked) && (ok ==> added))
    {
      var needed := CollectNeeded(ps);
      var fins, changed := AddMissing(needed);
      if !changed {
        return false, true;
      }
      if write == Rejected {
        return false, false;
      }
      obj := obj.(finalizers := fins);
      return true, write == Acked;
    }

    method RunPolicies(ps: seq<Policy>, ensureWrite: Write, fates: seq<Fate>) returns (ok: bool)
      requires !obj.gone
      modifies this
      ensures PassResult(obj, ok) == Pass(old(obj), ps, ensureWrite, fates)
    {
      if obj.deleting {
        for i := 0 to |ps|
          invariant DeleteFrom(obj, ps, fates, i) == DeleteFrom(old(obj), ps, fates, 0)
        {
          if i >= |fates| {
            return false;
          }
          if ps[i].finalizer == "" || ps[i].finalizer !in obj.finalizers {
            continue;
          }
          obj := AfterCleanup(obj, i, fates[i]);
          if !fates[i].succeeds {
            return false;
          }
          var removed := RemoveFinalizerFrom(ps[i].finalizer, fates[i].write);
          if !removed {
            return false;
          }
        }
        return true;
      }
      var added, ensured := EnsureFinalizers(ps, ensureWrite);
      if !ensured || added {
        return ensured;
      }
      ok := true;
      for i := 0 to |ps|
        invariant var rest := ReconcileFrom(obj, ps, fates, i);
          rest.(ok := ok && rest.ok) == ReconcileFrom(old(obj), ps, fates, 0)
      {
        if i >= |fates| {
          return false;
        }
        if ps[i].applies(obj.annotations) {
          obj := AfterReconcile(obj, i, fates[i]);
          ok := ok && fates[i].succeeds;
          continue;
        }
        ghost var before := obj;
        obj := AfterCleanup(obj, i, fates[i]);
        if !fates[i].succeeds {
          ok := false;
          continue;
        }
        if ps[i].finalizer != "" && ps[i].finalizer in obj.finalizers {
          var removed := RemoveFinalizerFrom(ps[i].finalizer, fates[i].write);
          ok := ok && removed;
        }
        assert PassResult(obj, ok) == PassResult(ReconcileOne(before, ps[i], i, fates[i]).obj, ok);
      }
    }
  }

  // ---------- what every run keeps ----------

  /** Each policy that has a finalizer has one of its own. */
  predicate OwnFinalizers(ps: seq<Policy>) {
    forall i, j :: 0 <= i < j < |ps| && ps[i].finalizer != "" ==> ps[i].finalizer != ps[j].finalizer
  }

  /**
   A policy with a finalizer has external state only while its finalizer is on the object,
   and never once the object is gone; Reconcile only ever ran with the finalizer present.
   */
  ghost predicate Guarded(o: Resource, ps: seq<Policy>) {
    && (forall i :: i in o.external ==> i < |ps| && (ps[i].finalizer != "" ==> !o.gone && ps[i].finalizer in o.finalizers))
    && (forall a :: a in o.log && a.Reconciled? ==>
          a.policy < |ps| && (ps[a.policy].finalizer != "" ==> ps[a.policy].finalizer in a.finalizers))
    && (o.gone ==> o.finalizers == [])
    && (o.deleting && !o.gone ==> o.finalizers != [])
  }

  /** Every applicable policy's finalizer is on the object. */
  ghost predicate Prepared(o: Resource, ps: seq<Policy>) {
    forall i :: 0 <= i < |ps| && ps[i].finalizer != "" && ps[i].applies(o.annotations) ==> ps[i].finalizer in o.finalizers
  }

  lemma {:induction false} WithoutContains(fins: seq<string>, fin: string)
    ensures forall f :: f in Without(fins, fin) <==> f in fins && f != fin
    decreases |fins|
  {
    if fins != [] { WithoutContains(fins[1..], fin); }
  }

  lemma {:induction false} AddAllContains(fins: seq<string>, needed: seq<string>)
    ensures fins <= AddAll(fins, needed)
    ensures forall f :: f in AddAll(fins, needed) <==> f in fins || f in needed
    decreases |needed|
  {
    if needed != [] {
      var next := if needed[0] in fins then fins else fins + [needed[0]];
      AddAllContains(next, needed[1..]);
      assert forall f :: f in needed <==> f == needed[0] || f in needed[1..];
    }
  }

  /** Some applicable policy owns this finalizer. */
  ghost predicate IsNeeded(ps: seq<Policy>, annotations: Annotations, fin: string) {
    exists i :: 0 <= i < |ps| && NeedsFor(ps[i], annotations, fin)
  }

  predicate NeedsFor(p: Policy, annotations: Annotations, fin: string) {
    p.finalizer == fin && fin != "" && p.applies(annotations)
  }

  lemma {:induction false} NeededContains(ps: seq<Policy>, annotations: Annotations)
    ensures forall fin :: fin in Needed(ps, annotations) <==> IsNeeded(ps, annotations, fin)
    decreases |ps|
  {
    if ps != [] {
      NeededContains(ps[1..], annotations);
      forall fin ensures IsNeeded(ps, annotations, fin) <==> NeedsFor(ps[0], annotations, fin) || IsNeeded(ps[1..], annotations, fin) {
        IsNeededCons(ps, annotations, fin);
      }
    }
  }

  lemma IsNeededCons(ps: seq<Policy>, annotations: Annotations, fin: string)
    requires ps != []
    ensures IsNeeded(ps, annotations, fin) <==> NeedsFor(ps[0], annotations, fin) || IsNeeded(ps[1..], annotations, fin)
  {
    if IsNeeded(ps[1..], annotations, fin) {
      var i :| 0 <= i < |ps[1..]| && NeedsFor(ps[1..][i], annotations, fin);
      assert NeedsFor(ps[i + 1], annotations, fin);
    }
    if IsNeeded(ps, annotations, fin) && !NeedsFor(ps[0], annotations, fin) {
      var i :| 0 <= i < |ps| && NeedsFor(ps[i], annotations, fin);
      assert NeedsFor(ps[1..][i - 1], annotations, fin);
    }
  }

  /** A prepared object holds everything that is needed. */
  lemma PreparedNeedsNothing(o: Resource, ps: seq<Policy>)
    requires Prepared(o, ps)
    ensures AddAll(o.finalizers, Needed(ps, o.annotations)) == o.finalizers
  {
    NeededContains(ps, o.annotations);
    forall fin | fin in Needed(ps, o.annotations) ensures fin in o.finalizers {
      var i :| 0 <= i < |ps| && NeedsFor(ps[i], o.annotations, fin);
    }
    AddNothing(o.finalizers, Needed(ps, o.annotations));
  }

  lemma RemovalKeepsGuard(o: Resource, ps: seq<Policy>, i: nat)
    requires OwnFinalizers(ps) && Guarded(o, ps) && !o.gone
    requires i < |ps| && ps[i].finalizer in o.finalizers && ps[i].finalizer != "" && i !in o.external
    ensures Guarded(RemoveFinalizer(o, ps[i].finalizer), ps)
    ensures Prepared(o, ps) && !ps[i].applies(o.annotations) ==> Prepared(RemoveFinalizer(o, ps[i].finalizer), ps)
  {
    WithoutContains(o.finalizers, ps[i].finalizer);
    var left := Without(o.finalizers, ps[i].finalizer);
    forall j | j in o.external && ps[j].finalizer != "" ensures ps[j].finalizer in left {
      assert ps[j].finalizer != ps[i].finalizer;
    }
  }

  lemma DeleteOneKeepsGuard(o: Resource, ps: seq<Policy>, i: nat, fate: Fate)
    requires OwnFinalizers(ps) && Guarded(o, ps) && i < |ps| && o.deleting
    ensures var r := DeleteOne(o, ps[i], i, fate).obj;
      Guarded(r, ps) && r.deleting && r.annotations == o.annotations
  {
    var p := ps[i];
    if p.finalizer != "" && p.finalizer in o.finalizers && fate.succeeds {
      var cleaned := AfterCleanup(o, i, fate);
      assert Guarded(cleaned, ps);
      RemovalKeepsGuard(cleaned, ps, i);
    }
  }

  lemma ReconcileOneKeepsGuard(o: Resource, ps: seq<Policy>, i: nat, fate: Fate)
    requires OwnFinalizers(ps) && Guarded(o, ps) && Prepared(o, ps) && i < |ps| && !o.deleting && !o.gone
    ensures var r := ReconcileOne(o, ps[i], i, fate).obj;
      Guarded(r, ps) && Prepared(r, ps) && !r.deleting && !r.gone && r.annotations == o.annotations
  {
    var p := ps[i];
    if !p.applies(o.annotations) && fate.succeeds && p.finalizer != "" && p.finalizer in o.finalizers {
      var cleaned := AfterCleanup(o, i, fate);
      assert Guarded(cleaned, ps) && Prepared(cleaned, ps);
      RemovalKeepsGuard(cleaned, ps, i);
    }
  }

  lemma {:induction false} DeleteFromKeepsGuard(o: Resource, ps: seq<Policy>, fates: seq<Fate>, i: nat)
    requires OwnFinalizers(ps) && Guarded(o, ps) && i <= |ps| && o.deleting
    ensures Guarded(DeleteFrom(o, ps, fates, i).obj, ps)
    decreases |ps| - i
  {
    if i < |ps| && i < |fates| {
      DeleteOneKeepsGuard(o, ps, i, fates[i]);
      var r := DeleteOne(o, ps[i], i, fates[i]);
      if r.ok { DeleteFromKeepsGuard(r.obj, ps, fates, i + 1); }
    }
  }

  lemma {:induction false} ReconcileFromKeepsGuard(o: Resource, ps: seq<Policy>, fates: seq<Fate>, i: nat)
    requires OwnFinalizers(ps) && Guarded(o, ps) && Prepared(o, ps) && i <= |ps| && !o.deleting && !o.gone
    ensures var r := ReconcileFrom(o, ps, fates, i).obj;
      Guarded(r, ps) && !r.deleting && !r.gone && r.annotations == o.annotations
    decreases |ps| - i
  {
    if i < |ps| && i < |fates| {
      ReconcileOneKeepsGuard(o, ps, i, fates[i]);
      ReconcileFromKeepsGuard(ReconcileOne(o, ps[i], i, fates[i]).obj, ps, fates, i + 1);
    }
  }

  lemma EnsuredIsPrepared(o: Resource, ps: seq<Policy>)
    ensures Prepared(o.(finalizers := AddAll(o.finalizers, Needed(ps, o.annotations))), ps)
  {
    NeededContains(ps, o.annotations);
    AddAllContains(o.finalizers, Needed(ps, o.annotations));
    forall i | 0 <= i < |ps| && ps[i].finalizer != "" && ps[i].applies(o.annotations)
      ensures IsNeeded(ps, o.annotations, ps[i].finalizer)
    {
      assert NeedsFor(ps[i], o.annotations, ps[i].finalizer);
    }
  }

  lemma PassKeepsGuard(o: Resource, ps: seq<Policy>, write: Write, fates: seq<Fate>)
    requires OwnFinalizers(ps) && Guarded(o, ps)
    ensures Guarded(Pass(o, ps, write, fates).obj, ps)
  {
    if o.deleting {
      if !o.gone { DeleteFromKeepsGuard(o, ps, fates, 0); }
    } else if !o.gone {
      var fins := AddAll(o.finalizers, Needed(ps, o.annotations));
      EnsuredIsPrepared(o, ps);
      AddAllContains(o.finalizers, Needed(ps, o.annotations));
      if fins == o.finalizers {
        assert o.(finalizers := fins) == o;
        ReconcileFromKeepsGuard(o, ps, fates, 0);
      }
    }
  }

  /** What happens to the object: edits from outside, or a pass with whatever fate each policy meets. */
  datatype Event =
    | Annotate(annotations: Annotations)
    | Delete
    | AddForeign(finalizer: string)
    | RemoveForeign(finalizer: string)
    | RunPass(write: Write, fates: seq<Fate>)

  predicate Foreign(ps: seq<Policy>, fin: string) {
    forall i :: 0 <= i < |ps| ==> ps[i].finalizer != fin
  }

  /** Others only touch finalizers of their own, and none can be added once deletion has begun. */
  function Happen(o: Resource, ps: seq<Policy>, e: Event): Resource {
    if o.gone then o
    else
      match e
      case Annotate(a) => o.(annotations := a)
      case Delete => o.(deleting := true, gone := o.finalizers == [])
      case AddForeign(f) => if Foreign(ps, f) && !o.deleting then o.(finalizers := o.finalizers + [f]) else o
      case RemoveForeign(f) => if Foreign(ps, f) then RemoveFinalizer(o, f) else o
      case RunPass(write, fates) => Pass(o, ps, write, fates).obj
  }

  function HappenAll(o: Resource, ps: seq<Policy>, events: seq<Event>): Resource
    decreases |events|
  {
    if events == [] then o else HappenAll(Happen(o, ps, events[0]), ps, events[1..])
  }

  lemma EventKeepsGuard(o: Resource, ps: seq<Policy>, e: Event)
    requires OwnFinalizers(ps) && Guarded(o, ps)
    ensures Guarded(Happen(o, ps, e), ps)
  {
    match e
    case Annotate(_) =>
    case Delete =>
    case AddForeign(_) =>
    case RemoveForeign(f) => WithoutContains(o.finalizers, f);
    case RunPass(write, fates) => PassKeepsGuard(o, ps, write, fates);
  }

  /**
   In every run, from an object no policy has touched: external state is always guarded by a
   finalizer, Reconcile only ran with the finalizer present, and an object that is gone left
   no external state of any policy that has a finalizer.
   */
  lemma {:induction false} EveryRunIsGuarded(o: Resource, ps: seq<Policy>, events: seq<Event>)
    requires OwnFinalizers(ps) && Guarded(o, ps)
    ensures Guarded(HappenAll(o, ps, events), ps)
    decreases |events|
  {
    if events != [] {
      EventKeepsGuard(o, ps, events[0]);
      EveryRunIsGuarded(Happen(o, ps, events[0]), ps, events[1..]);
    }
  }

  // ---------- passes without errors ----------

  predicate ErrorFree(ps: seq<Policy>, write: Write, fates: seq<Fate>) {
    && write == Acked && |fates| == |ps|
    && forall f :: f in fates ==> f.succeeds && f.write == Acked
  }

  /** The finalizers no policy owns, in order. */
  function ForeignOf(ps: seq<Policy>, fins: seq<string>): seq<string> {
    if fins == [] then [] else (if Foreign(ps, fins[0]) then [fins[0]] else []) + ForeignOf(ps, fins[1..])
  }

  lemma {:induction false} ForeignConcat(ps: seq<Policy>, a: seq<string>, b: seq<string>)
    ensures ForeignOf(ps, a + b) == ForeignOf(ps, a) + ForeignOf(ps, b)
    decreases |a|
  {
    if a == [] {
      assert a + b == b;
    } else {
      assert (a + b)[1..] == a[1..] + b;
      ForeignConcat(ps, a[1..], b);
    }
  }

  lemma {:induction false} ForeignSurvivesRemoval(ps: seq<Policy>, fins: seq<string>, fin: string)
    requires !Foreign(ps, fin)
    ensures ForeignOf(ps, Without(fins, fin)) == ForeignOf(ps, fins)
    decreases |fins|
  {
    if fins != [] {
      ForeignSurvivesRemoval(ps, fins[1..], fin);
      ForeignConcat(ps, if fins[0] == fin then [] else [fins[0]], Without(fins[1..], fin));
    }
  }

  lemma {:induction false} ForeignSurvivesAdding(ps: seq<Policy>, fins: seq<string>, needed: seq<string>)
    requires forall f :: f in needed ==> !Foreign(ps, f)
    ensures ForeignOf(ps, AddAll(fins, needed)) == ForeignOf(ps, fins)
    decreases |needed|
  {
    if needed != [] {
      assert needed[0] in needed;
      ForeignConcat(ps, fins, [needed[0]]);
      ForeignSurvivesAdding(ps, if needed[0] in fins then fins else fins + [needed[0]], needed[1..]);
    }
  }

  lemma NeededIsOwned(ps: seq<Policy>, annotations: Annotations)
    ensures forall f :: f in Needed(ps, annotations) ==> !Foreign(ps, f)
  {
    NeededContains(ps, annotations);
    forall f | f in Needed(ps, annotations) ensures !Foreign(ps, f) {
      var i :| 0 <= i < |ps| && NeedsFor(ps[i], annotations, f);
    }
  }

  lemma {:induction false} AllForeign(ps: seq<Policy>, fins: seq<string>)
    requires forall f :: f in fins ==> Foreign(ps, f)
    ensures ForeignOf(ps, fins) == fins
    decreases |fins|
  {
    if fins != [] {
      assert fins[0] in fins;
      AllForeign(ps, fins[1..]);
    }
  }

  /** The policy holds its finalizer exactly when it applies, and has external state only then. */
  ghost predicate Settled(o: Resource, ps: seq<Policy>, i: nat)
    requires i < |ps|
  {
    && (ps[i].finalizer != "" ==> (ps[i].finalizer in o.finalizers <==> ps[i].applies(o.annotations)))
    && (!ps[i].applies(o.annotations) ==> i !in o.external)
  }

  ghost predicate SettledBelow(o: Resource, ps: seq<Policy>, n: nat)
    requires n <= |ps|
  {
    forall i :: 0 <= i < n ==> Settled(o, ps, i)
  }

  /** What dealing with policy i without error leaves of the finalizers and of external state. */
  lemma ReconcileOneShape(o: Resource, ps: seq<Policy>, i: nat, fate: Fate)
    requires i < |ps| && fate.succeeds && fate.write == Acked
    ensures var r := ReconcileOne(o, ps[i], i, fate);
      && r.ok && r.obj.annotations == o.annotations
      && (forall j :: j != i ==> (j in r.obj.external <==> j in o.external))
      && (!ps[i].applies(o.annotations) ==> i !in r.obj.external)
      && r.obj.finalizers == if ps[i].applies(o.annotations) || ps[i].finalizer == "" || ps[i].finalizer !in o.finalizers
                             then o.finalizers else Without(o.finalizers, ps[i].finalizer)
  {
  }

  lemma ReconcileOneKeepsForeign(o: Resource, ps: seq<Policy>, i: nat, fate: Fate)
    requires i < |ps| && fate.succeeds && fate.write == Acked
    ensures ForeignOf(ps, ReconcileOne(o, ps[i], i, fate).obj.finalizers) == ForeignOf(ps, o.finalizers)
  {
    ReconcileOneShape(o, ps, i, fate);
    assert !Foreign(ps, ps[i].finalizer);
    ForeignSurvivesRemoval(ps, o.finalizers, ps[i].finalizer);
  }

  lemma ReconcileOneSettlesItself(o: Resource, ps: seq<Policy>, i: nat, fate: Fate)
    requires Prepared(o, ps) && i < |ps| && fate.succeeds && fate.write == Acked
    ensures Settled(ReconcileOne(o, ps[i], i, fate).obj, ps, i)
  {
    ReconcileOneShape(o, ps, i, fate);
    WithoutContains(o.finalizers, ps[i].finalizer);
  }

  lemma ReconcileOneSettles(o: Resource, ps: seq<Policy>, i: nat, fate: Fate)
    requires OwnFinalizers(ps) && Prepared(o, ps) && i < |ps|
    requires fate.succeeds && fate.write == Acked && SettledBelow(o, ps, i)
    ensures SettledBelow(ReconcileOne(o, ps[i], i, fate).obj, ps, i + 1)
  {
    var r := ReconcileOne(o, ps[i], i, fate).obj;
    ReconcileOneSettlesItself(o, ps, i, fate);
    forall j | 0 <= j < i ensures Settled(r, ps, j) {
      assert Settled(o, ps, j);
      ReconcileOneShape(o, ps, i, fate);
      SettledKept(o, r, ps, i, j);
    }
  }

  lemma SettledKept(o: Resource, r: Resource, ps: seq<Policy>, i: nat, j: nat)
    requires OwnFinalizers(ps) && j < i < |ps| && Settled(o, ps, j)
    requires r.annotations == o.annotations && (j in r.external <==> j in o.external)
    requires r.finalizers == o.finalizers || r.finalizers == Without(o.finalizers, ps[i].finalizer)
    ensures Settled(r, ps, j)
  {
    WithoutContains(o.finalizers, ps[i].finalizer);
  }

  lemma {:induction false} ReconcileFromSettles(o: Resource, ps: seq<Policy>, fates: seq<Fate>, i: nat)
    requires OwnFinalizers(ps) && Guarded(o, ps) && Prepared(o, ps) && i <= |ps| && !o.deleting && !o.gone
    requires ErrorFree(ps, Acked, fates) && SettledBelow(o, ps, i)
    ensures var r := ReconcileFrom(o, ps, fates, i);
      r.ok && SettledBelow(r.obj, ps, |ps|) && ForeignOf(ps, r.obj.finalizers) == ForeignOf(ps, o.finalizers)
    decreases |ps| - i
  {
    if i < |ps| {
      assert fates[i] in fates;
      ReconcileOneKeepsGuard(o, ps, i, fates[i]);
      ReconcileOneShape(o, ps, i, fates[i]);
      ReconcileOneKeepsForeign(o, ps, i, fates[i]);
      ReconcileOneSettles(o, ps, i, fates[i]);
      ReconcileFromSettles(ReconcileOne(o, ps[i], i, fates[i]).obj, ps, fates, i + 1);
    }
  }

  /** Nothing is left to add, and nothing to remove: another pass keeps the finalizers as they are. */
  lemma {:induction false} SettledStays(o: Resource, ps: seq<Policy>, fates: seq<Fate>, i: nat)
    requires SettledBelow(o, ps, |ps|) && i <= |ps|
    ensures ReconcileFrom(o, ps, fates, i).obj.finalizers == o.finalizers
    decreases |ps| - i
  {
    if i < |ps| && i < |fates| {
      var r := ReconcileOne(o, ps[i], i, fates[i]).obj;
      assert Settled(o, ps, i);
      assert r.finalizers == o.finalizers && r.annotations == o.annotations;
      forall j | 0 <= j < |ps| ensures Settled(r, ps, j) { assert Settled(o, ps, j); }
      SettledStays(r, ps, fates, i + 1);
    }
  }

  lemma {:induction false} AddNothing(fins: seq<string>, needed: seq<string>)
    requires forall f :: f in needed ==> f in fins
    ensures AddAll(fins, needed) == fins
    decreases |needed|
  {
    if needed != [] {
      assert needed[0] in needed;
      AddNothing(fins, needed[1..]);
    }
  }

  /** A pass over an object whose applicable policies all hold their finalizers does the work at once. */
  lemma PreparedPassSettles(o: Resource, ps: seq<Policy>, write: Write, fates: seq<Fate>)
    requires OwnFinalizers(ps) && Guarded(o, ps) && Prepared(o, ps) && !o.deleting && !o.gone
    requires ErrorFree(ps, write, fates)
    ensures var r := Pass(o, ps, write, fates);
      && r.ok && r == ReconcileFrom(o, ps, fates, 0)
      && SettledBelow(r.obj, ps, |ps|) && ForeignOf(ps, r.obj.finalizers) == ForeignOf(ps, o.finalizers)
      && Guarded(r.obj, ps) && Prepared(r.obj, ps)
      && !r.obj.deleting && !r.obj.gone && r.obj.annotations == o.annotations
  {
    PreparedNeedsNothing(o, ps);
    ReconcileFromKeepsGuard(o, ps, fates, 0);
    ReconcileFromSettles(o, ps, fates, 0);
    var r := ReconcileFrom(o, ps, fates, 0).obj;
    forall i | 0 <= i < |ps| && ps[i].finalizer != "" && ps[i].applies(r.annotations) ensures ps[i].finalizer in r.finalizers {
      assert Settled(r, ps, i);
    }
  }

  /**
   Two passes without errors leave exactly the finalizers of the applicable policies and the
   foreign ones, the latter in their order, with nothing left of the policies that do not
   apply; whatever a further pass meets, it keeps these finalizers.
   */
  lemma {:induction false} TwoPassesSettle(o: Resource, ps: seq<Policy>, w1: Write, f1: seq<Fate>, w2: Write, f2: seq<Fate>)
    requires OwnFinalizers(ps) && Guarded(o, ps) && !o.deleting && !o.gone
    requires ErrorFree(ps, w1, f1) && ErrorFree(ps, w2, f2)
    ensures var once := Pass(o, ps, w1, f1);
      var twice := Pass(once.obj, ps, w2, f2);
      && once.ok && twice.ok
      && SettledBelow(twice.obj, ps, |ps|)
      && ForeignOf(ps, twice.obj.finalizers) == ForeignOf(ps, o.finalizers)
      && forall w3, f3 :: Pass(twice.obj, ps, w3, f3).obj.finalizers == twice.obj.finalizers
  {
    AddAllContains(o.finalizers, Needed(ps, o.annotations));
    NeededIsOwned(ps, o.annotations);
    ForeignSurvivesAdding(ps, o.finalizers, Needed(ps, o.annotations));
    EnsuredIsPrepared(o, ps);
    var once := Pass(o, ps, w1, f1);
    if AddAll(o.finalizers, Needed(ps, o.annotations)) == o.finalizers {
      assert o.(finalizers := o.finalizers) == o;
      PreparedPassSettles(o, ps, w1, f1);
    }
    PreparedPassSettles(once.obj, ps, w2, f2);
    var twice := Pass(once.obj, ps, w2, f2).obj;
    PreparedNeedsNothing(twice, ps);
    forall w3, f3 ensures Pass(twice, ps, w3, f3).obj.finalizers == twice.finalizers {
      SettledStays(twice, ps, f3, 0);
    }
  }

  lemma {:induction false} DeleteFromFinishes(o: Resource, ps: seq<Policy>, fates: seq<Fate>, i: nat)
    requires ErrorFree(ps, Acked, fates) && i <= |ps| && o.deleting
    requires forall j :: 0 <= j < i && ps[j].finalizer != "" ==> ps[j].finalizer !in o.finalizers
    ensures var r := DeleteFrom(o, ps, fates, i);
      && r.ok && r.obj.deleting
      && (forall j :: 0 <= j < |ps| && ps[j].finalizer != "" ==> ps[j].finalizer !in r.obj.finalizers)
      && ForeignOf(ps, r.obj.finalizers) == ForeignOf(ps, o.finalizers)
      && (forall f :: f in r.obj.finalizers ==> f in o.finalizers)
    decreases |ps| - i
  {
    if i < |ps| {
      assert fates[i] in fates;
      assert !Foreign(ps, ps[i].finalizer);
      WithoutContains(o.finalizers, ps[i].finalizer);
      ForeignSurvivesRemoval(ps, o.finalizers, ps[i].finalizer);
      DeleteFromFinishes(DeleteOne(o, ps[i], i, fates[i]).obj, ps, fates, i + 1);
    }
  }

  /** One pass without errors over an object being deleted removes every policy's finalizer; the object goes unless a foreign one holds it. */
  lemma {:induction false} DeletionFinishes(o: Resource, ps: seq<Policy>, write: Write, fates: seq<Fate>)
    requires OwnFinalizers(ps) && Guarded(o, ps) && o.deleting && !o.gone
    requires ErrorFree(ps, write, fates)
    requires "" !in o.finalizers
    ensures var r := Pass(o, ps, write, fates);
      && r.ok
      && (r.obj.gone <==> ForeignOf(ps, o.finalizers) == [])
      && r.obj.finalizers == ForeignOf(ps, o.finalizers)
      && forall i :: i in r.obj.external ==> i < |ps| && ps[i].finalizer == ""
  {
    DeleteFromKeepsGuard(o, ps, fates, 0);
    DeleteFromFinishes(o, ps, fates, 0);
    AllForeign(ps, Pass(o, ps, write, fates).obj.finalizers);
  }

  // ---------- what a pass does, call by call ----------

  /** The action of policy number j in normal operation. */
  predicate Acts(annotations: Annotations, p: Policy, j: nat, fate: Fate, a: Action) {
    if p.applies(annotations) then a.Reconciled? && a.policy == j else a == CleanedUp(j, fate.succeeds)
  }

  /** Reconcile or Cleanup succeeds, and so does the finalizer write where there is one to make. */
  predicate Succeeds(o: Resource, p: Policy, fate: Fate) {
    fate.succeeds && (!p.applies(o.annotations) && p.finalizer != "" && p.finalizer in o.finalizers ==> fate.write == Acked)
  }

  /** What is outside the object afterwards. */
  predicate Leaves(o: Resource, p: Policy, j: nat, fate: Fate, external: set<nat>) {
    j in external <==> fate.leaves && (p.applies(o.annotations) || (j in o.external && !fate.succeeds))
  }

  /** How many policies a pass gets to before the process stops. */
  function Reach(ps: seq<Policy>, fates: seq<Fate>): (n: nat)
    ensures n <= |ps| && n <= |fates| && (n == |ps| || n == |fates|)
  {
    if |fates| < |ps| then |fates| else |ps|
  }

  /** Dealing with policy i leaves the finalizers of the others. */
  lemma OthersKeepFinalizers(o: Resource, ps: seq<Policy>, i: nat, fate: Fate, j: nat)
    requires OwnFinalizers(ps) && i < |ps| && j < |ps| && i != j
    ensures var r := ReconcileOne(o, ps[i], i, fate).obj;
      && r.annotations == o.annotations
      && (ps[j].finalizer != "" ==> (ps[j].finalizer in r.finalizers <==> ps[j].finalizer in o.finalizers))
  {
    WithoutContains(o.finalizers, ps[i].finalizer);
  }

  lemma OneActs(o: Resource, ps: seq<Policy>, i: nat, fate: Fate)
    requires i < |ps|
    ensures var r := ReconcileOne(o, ps[i], i, fate);
      && |r.obj.log| == |o.log| + 1 && o.log <= r.obj.log && Acts(o.annotations, ps[i], i, fate, r.obj.log[|o.log|])
      && Leaves(o, ps[i], i, fate, r.obj.external)
      && (forall j :: j != i ==> (j in r.obj.external <==> j in o.external))
      && (r.ok <==> Succeeds(o, ps[i], fate))
  {
  }

  /** From policy i on: one action each, in order, whatever became of the others. */
  ghost predicate DoesFrom(o: Resource, ps: seq<Policy>, fates: seq<Fate>, i: nat, r: PassResult) {
    var n := Reach(ps, fates);
    && (i <= n ==> |r.obj.log| == |o.log| + n - i) && o.log <= r.obj.log
    && (forall j: nat :: i <= j < n && |o.log| + j - i < |r.obj.log| ==> Acts(o.annotations, ps[j], j, fates[j], r.obj.log[|o.log| + j - i]))
    && (forall j: nat :: i <= j < n ==> Leaves(o, ps[j], j, fates[j], r.obj.external))
    && (forall j: nat :: !(i <= j < n) ==> (j in r.obj.external <==> j in o.external))
    && (r.ok <==> n == |ps| && forall j: nat :: i <= j < n ==> Succeeds(o, ps[j], fates[j]))
  }

  lemma {:induction false} ReconcileFromDoes(o: Resource, ps: seq<Policy>, fates: seq<Fate>, i: nat)
    requires OwnFinalizers(ps) && i <= Reach(ps, fates)
    ensures DoesFrom(o, ps, fates, i, ReconcileFrom(o, ps, fates, i))
    decreases |ps| - i
  {
    if i < Reach(ps, fates) {
      var one := ReconcileOne(o, ps[i], i, fates[i]);
      OneActs(o, ps, i, fates[i]);
      ReconcileFromDoes(one.obj, ps, fates, i + 1);
      forall j: nat | i < j < |ps| ensures
        && one.obj.annotations == o.annotations
        && (ps[j].finalizer != "" ==> (ps[j].finalizer in one.obj.finalizers <==> ps[j].finalizer in o.finalizers))
      {
        OthersKeepFinalizers(o, ps, i, fates[i], j);
      }
      DoesOneMore(o, one, ps, fates, i, ReconcileFrom(one.obj, ps, fates, i + 1));
    }
  }

  lemma DoesOneMore(o: Resource, one: PassResult, ps: seq<Policy>, fates: seq<Fate>, i: nat, rest: PassResult)
    requires i < Reach(ps, fates) && one == ReconcileOne(o, ps[i], i, fates[i]) && DoesFrom(one.obj, ps, fates, i + 1, rest)
    requires one.obj.annotations == o.annotations
    requires forall j: nat :: i < j < |ps| && ps[j].finalizer != "" ==>
      (ps[j].finalizer in one.obj.finalizers <==> ps[j].finalizer in o.finalizers)
    ensures DoesFrom(o, ps, fates, i, rest.(ok := one.ok && rest.ok))
  {
    OneActs(o, ps, i, fates[i]);
    var n := Reach(ps, fates);
    forall j: nat | i < j < n
      ensures Succeeds(one.obj, ps[j], fates[j]) == Succeeds(o, ps[j], fates[j])
      ensures Leaves(one.obj, ps[j], j, fates[j], rest.obj.external) == Leaves(o, ps[j], j, fates[j], rest.obj.external)
    {
    }
    assert rest.obj.log[|o.log|] == one.obj.log[|o.log|];
  }

  /**
   A pass over an object whose applicable policies hold their finalizers calls every policy it
   reaches exactly once and in order, whatever became of the others: Reconcile of the
   applicable ones, Cleanup of the rest. It leaves external state as these calls do, and is
   successful if and only if it reached all of them and every call succeeded.
   */
  lemma {:induction false} PassCallsEveryPolicy(o: Resource, ps: seq<Policy>, write: Write, fates: seq<Fate>)
    requires OwnFinalizers(ps) && Prepared(o, ps) && !o.deleting && !o.gone
    ensures var r := Pass(o, ps, write, fates);
      var n := Reach(ps, fates);
      && |r.obj.log| == |o.log| + n && o.log <= r.obj.log
      && (forall j: nat :: j < n && ps[j].applies(o.annotations) ==>
            r.obj.log[|o.log| + j].Reconciled? && r.obj.log[|o.log| + j].policy == j
            && (j in r.obj.external <==> fates[j].leaves))
      && (forall j: nat :: j < n && !ps[j].applies(o.annotations) ==>
            r.obj.log[|o.log| + j] == CleanedUp(j, fates[j].succeeds)
            && (j in r.obj.external <==> j in o.external && !fates[j].succeeds && fates[j].leaves))
      && (r.ok <==> n == |ps| && forall j: nat :: j < n ==> Succeeds(o, ps[j], fates[j]))
  {
    PreparedNeedsNothing(o, ps);
    ReconcileFromDoes(o, ps, fates, 0);
    DoesInFields(o, ps, fates, Pass(o, ps, write, fates));
  }

  lemma {:induction false} DoesInFields(o: Resource, ps: seq<Policy>, fates: seq<Fate>, r: PassResult)
    requires DoesFrom(o, ps, fates, 0, r)
    ensures |r.obj.log| == |o.log| + Reach(ps, fates)
    ensures forall j: nat :: j < Reach(ps, fates) ==>
      Acts(o.annotations, ps[j], j, fates[j], r.obj.log[|o.log| + j]) && Leaves(o, ps[j], j, fates[j], r.obj.external)
  {
    forall j: nat | j < Reach(ps, fates)
      ensures Acts(o.annotations, ps[j], j, fates[j], r.obj.log[|o.log| + j]) && Leaves(o, ps[j], j, fates[j], r.obj.external)
    {
      assert |o.log| + j - 0 < |r.obj.log|;
    }
  }

  /** A pass that finds a finalizer missing adds it, and calls no policy. */
  lemma UnpreparedPassOnlyEnsures(o: Resource, ps: seq<Policy>, write: Write, fates: seq<Fate>)
    requires !Prepared(o, ps) && !o.deleting && !o.gone
    ensures var r := Pass(o, ps, write, fates);
      && r.obj.log == o.log && r.obj.external == o.external
      && (r.ok <==> write == Acked)
      && (write == Rejected ==> r.obj == o)
      && (write != Rejected ==>
            && Prepared(r.obj, ps) && o.finalizers <= r.obj.finalizers
            && (NoneTwice(o.finalizers) ==> NoneTwice(r.obj.finalizers))
            && forall f :: f in r.obj.finalizers ==> f in o.finalizers || IsNeeded(ps, o.annotations, f))
  {
    var needed := Needed(ps, o.annotations);
    EnsuredIsPrepared(o, ps);
    NeededContains(ps, o.annotations);
    AddAllContains(o.finalizers, needed);
    if NoneTwice(o.finalizers) { AddAllOnce(o.finalizers, needed); }
    assert o.(finalizers := o.finalizers) == o;
  }

  predicate NoneTwice(fins: seq<string>) {
    forall i, j :: 0 <= i < j < |fins| ==> fins[i] != fins[j]
  }

  lemma {:induction false} AddAllOnce(fins: seq<string>, needed: seq<string>)
    requires NoneTwice(fins)
    ensures NoneTwice(AddAll(fins, needed))
    decreases |needed|
  {
    if needed != [] { AddAllOnce(if needed[0] in fins then fins else fins + [needed[0]], needed[1..]); }
  }

  // ---------- deletion, call by call ----------

  predicate IsHeld(o: Resource, p: Policy) {
    p.finalizer != "" && p.finalizer in o.finalizers
  }

  predicate GoesThrough(fate: Fate) {
    fate.succeeds && fate.write == Acked
  }

  /** The pass gets to policy j: it is not stopped before, and every policy in front of it goes through. */
  predicate Reaches(o: Resource, ps: seq<Policy>, fates: seq<Fate>, i: nat, j: nat) {
    i <= j < |ps| && j < |fates| && forall k :: i <= k < j ==> IsHeld(o, ps[k]) ==> GoesThrough(fates[k])
  }

  /** The cleanup of policy j is due. */
  predicate IsDue(o: Resource, ps: seq<Policy>, fates: seq<Fate>, i: nat, j: nat) {
    Reaches(o, ps, fates, i, j) && IsHeld(o, ps[j])
  }

  /** The log behind position n: cleanups that were due, in order. */
  ghost predicate OnlyDue(o: Resource, ps: seq<Policy>, fates: seq<Fate>, i: nat, log: seq<Action>, n: nat) {
    && (forall x :: n <= x < |log| ==>
          && log[x].CleanedUp? && IsDue(o, ps, fates, i, log[x].policy)
          && log[x].succeeded == fates[log[x].policy].succeeds)
    && (forall x, y :: n <= x < y < |log| ==> log[x].policy < log[y].policy)
  }

  ghost predicate AllDue(o: Resource, ps: seq<Policy>, fates: seq<Fate>, i: nat, log: seq<Action>, n: nat) {
    forall j: nat :: IsDue(o, ps, fates, i, j) ==> exists x :: n <= x < |log| && log[x] == CleanedUp(j, fates[j].succeeds)
  }

  /** The cleanups of a deletion: those of the policies that are reached and hold their finalizer, in order. */
  ghost predicate CleansFrom(o: Resource, ps: seq<Policy>, fates: seq<Fate>, i: nat, r: PassResult) {
    && o.log <= r.obj.log
    && OnlyDue(o, ps, fates, i, r.obj.log, |o.log|) && AllDue(o, ps, fates, i, r.obj.log, |o.log|)
    && (r.ok <==> (i < |ps| ==> |ps| <= |fates|) && forall j: nat :: i <= j < |ps| && IsHeld(o, ps[j]) ==> GoesThrough(fates[j]))
  }

  lemma DeleteKeepsOthers(o: Resource, ps: seq<Policy>, i: nat, fate: Fate, j: nat)
    requires OwnFinalizers(ps) && i < j < |ps|
    ensures IsHeld(DeleteOne(o, ps[i], i, fate).obj, ps[j]) == IsHeld(o, ps[j])
  {
    WithoutContains(o.finalizers, ps[i].finalizer);
  }

  lemma {:induction false} DeleteFromCleans(o: Resource, ps: seq<Policy>, fates: seq<Fate>, i: nat)
    requires OwnFinalizers(ps) && i <= |ps|
    ensures CleansFrom(o, ps, fates, i, DeleteFrom(o, ps, fates, i))
    decreases |ps| - i
  {
    if i < |ps| && i < |fates| {
      var one := DeleteOne(o, ps[i], i, fates[i]);
      if one.ok {
        DeleteFromCleans(one.obj, ps, fates, i + 1);
        forall j: nat | i < j < |ps| ensures IsHeld(one.obj, ps[j]) == IsHeld(o, ps[j]) { DeleteKeepsOthers(o, ps, i, fates[i], j); }
        CleansOneMore(o, one, ps, fates, i, DeleteFrom(one.obj, ps, fates, i + 1));
      } else {
        StopsHere(o, one, ps, fates, i);
      }
    }
  }

  lemma DueOn(o: Resource, one: PassResult, ps: seq<Policy>, fates: seq<Fate>, i: nat, j: nat)
    requires i < |ps| && i < |fates| && one == DeleteOne(o, ps[i], i, fates[i]) && one.ok
    requires forall k: nat :: i < k < |ps| ==> IsHeld(one.obj, ps[k]) == IsHeld(o, ps[k])
    ensures IsDue(o, ps, fates, i, j) <==> IsDue(one.obj, ps, fates, i + 1, j) || (i == j && IsHeld(o, ps[i]))
  {
  }

  lemma OnlyDueOn(o: Resource, one: PassResult, ps: seq<Policy>, fates: seq<Fate>, i: nat, log: seq<Action>)
    requires i < |ps| && i < |fates| && one == DeleteOne(o, ps[i], i, fates[i]) && one.ok && one.obj.log <= log
    requires forall k: nat :: i < k < |ps| ==> IsHeld(one.obj, ps[k]) == IsHeld(o, ps[k])
    requires OnlyDue(one.obj, ps, fates, i + 1, log, |one.obj.log|)
    ensures OnlyDue(o, ps, fates, i, log, |o.log|)
  {
    if IsHeld(o, ps[i]) {
      assert one.obj.log == o.log + [CleanedUp(i, true)];
      assert log[|o.log|] == one.obj.log[|o.log|];
      DueOn(o, one, ps, fates, i, i);
    }
    forall x | |one.obj.log| <= x < |log| ensures IsDue(o, ps, fates, i, log[x].policy) {
      DueOn(o, one, ps, fates, i, log[x].policy);
    }
  }

  lemma AllDueOn(o: Resource, one: PassResult, ps: seq<Policy>, fates: seq<Fate>, i: nat, log: seq<Action>)
    requires i < |ps| && i < |fates| && one == DeleteOne(o, ps[i], i, fates[i]) && one.ok && one.obj.log <= log
    requires forall k: nat :: i < k < |ps| ==> IsHeld(one.obj, ps[k]) == IsHeld(o, ps[k])
    requires AllDue(one.obj, ps, fates, i + 1, log, |one.obj.log|)
    ensures AllDue(o, ps, fates, i, log, |o.log|)
  {
    forall j: nat | IsDue(o, ps, fates, i, j) ensures exists x :: |o.log| <= x < |log| && log[x] == CleanedUp(j, fates[j].succeeds) {
      DueOn(o, one, ps, fates, i, j);
      if j == i {
        assert one.obj.log == o.log + [CleanedUp(i, true)];
        assert log[|o.log|] == one.obj.log[|o.log|];
      } else {
        var x :| |one.obj.log| <= x < |log| && log[x] == CleanedUp(j, fates[j].succeeds);
        assert |o.log| <= x;
      }
    }
  }

  lemma CleansOneMore(o: Resource, one: PassResult, ps: seq<Policy>, fates: seq<Fate>, i: nat, rest: PassResult)
    requires i < |ps| && i < |fates| && one == DeleteOne(o, ps[i], i, fates[i]) && one.ok && CleansFrom(one.obj, ps, fates, i + 1, rest)
    requires forall k: nat :: i < k < |ps| ==> IsHeld(one.obj, ps[k]) == IsHeld(o, ps[k])
    ensures CleansFrom(o, ps, fates, i, rest)
  {
    OnlyDueOn(o, one, ps, fates, i, rest.obj.log);
    AllDueOn(o, one, ps, fates, i, rest.obj.log);
    assert o.log <= one.obj.log;
    assert IsHeld(o, ps[i]) ==> GoesThrough(fates[i]);
  }

  lemma StopsHere(o: Resource, one: PassResult, ps: seq<Policy>, fates: seq<Fate>, i: nat)
    requires i < |ps| && i < |fates| && one == DeleteOne(o, ps[i], i, fates[i]) && !one.ok
    ensures CleansFrom(o, ps, fates, i, one)
  {
    var log := one.obj.log;
    assert log == o.log + [CleanedUp(i, fates[i].succeeds)];
    assert log[|o.log|] == CleanedUp(i, fates[i].succeeds) && IsDue(o, ps, fates, i, i);
    forall j: nat | IsDue(o, ps, fates, i, j) ensures j == i {
      assert IsHeld(o, ps[i]) && !GoesThrough(fates[i]);
    }
    assert IsHeld(o, ps[i]);
  }

  /**
   A pass over an object being deleted cleans up, in order, after every policy that holds its
   finalizer, up to the first call that fails, and nothing else; it is successful if and only
   if it is not stopped and every one of these cleanups and finalizer writes succeeds.
   */
  lemma DeletionCallsEveryHolder(o: Resource, ps: seq<Policy>, write: Write, fates: seq<Fate>)
    requires OwnFinalizers(ps) && o.deleting && !o.gone
    ensures CleansFrom(o, ps, fates, 0, Pass(o, ps, write, fates))
  {
    DeleteFromCleans(o, ps, fates, 0);
  }

  // ---------- finalizers, call by call ----------

  /** The cleanup after the policy succeeds and the write without its finalizer gets through, known or not. */
  predicate IsTakenOff(fate: Fate) {
    fate.succeeds && fate.write != Rejected
  }

  /** A policy that the pass reaches and that does not apply has this finalizer taken off. */
  ghost predicate TakesOff(annotations: Annotations, ps: seq<Policy>, fates: seq<Fate>, i: nat, fin: string) {
    exists j: nat :: i <= j < Reach(ps, fates) && TakesOffAt(annotations, ps[j], fates[j], fin)
  }

  predicate TakesOffAt(annotations: Annotations, p: Policy, fate: Fate, fin: string) {
    p.finalizer == fin && fin != "" && !p.applies(annotations) && IsTakenOff(fate)
  }

  lemma {:induction false} ReconcileFromTakesOff(o: Resource, ps: seq<Policy>, fates: seq<Fate>, i: nat, fin: string)
    requires i <= |ps|
    ensures var r := ReconcileFrom(o, ps, fates, i).obj;
      && (fin in r.finalizers <==> fin in o.finalizers && !TakesOff(o.annotations, ps, fates, i, fin))
      && (!o.deleting ==> r.gone == o.gone)
    decreases |ps| - i
  {
    if i < Reach(ps, fates) {
      var one := ReconcileOne(o, ps[i], i, fates[i]).obj;
      WithoutContains(o.finalizers, ps[i].finalizer);
      assert fin in one.finalizers <==> fin in o.finalizers && !TakesOffAt(o.annotations, ps[i], fates[i], fin);
      ReconcileFromTakesOff(one, ps, fates, i + 1, fin);
      TakesOffHereOrLater(o.annotations, ps, fates, i, fin);
    }
  }

  lemma TakesOffHereOrLater(annotations: Annotations, ps: seq<Policy>, fates: seq<Fate>, i: nat, fin: string)
    requires i < Reach(ps, fates)
    ensures TakesOff(annotations, ps, fates, i, fin) <==>
      TakesOffAt(annotations, ps[i], fates[i], fin) || TakesOff(annotations, ps, fates, i + 1, fin)
  {
  }

  /** A policy whose cleanup is due has this finalizer taken off. */
  ghost predicate TakesOffDue(o: Resource, ps: seq<Policy>, fates: seq<Fate>, i: nat, fin: string) {
    exists j: nat :: IsDue(o, ps, fates, i, j) && ps[j].finalizer == fin && IsTakenOff(fates[j])
  }

  /** A cleanup of policy j is due and leaves nothing. */
  predicate ClearsDue(o: Resource, ps: seq<Policy>, fates: seq<Fate>, i: nat, j: nat) {
    IsDue(o, ps, fates, i, j) && (fates[j].succeeds || !fates[j].leaves)
  }

  lemma {:induction false} DeleteFromTakesOff(o: Resource, ps: seq<Policy>, fates: seq<Fate>, i: nat, fin: string)
    requires OwnFinalizers(ps) && i <= |ps|
    ensures var r := DeleteFrom(o, ps, fates, i).obj;
      && (fin in r.finalizers <==> fin in o.finalizers && !TakesOffDue(o, ps, fates, i, fin))
      && (forall j: nat :: j in r.external <==> j in o.external && !ClearsDue(o, ps, fates, i, j))
    decreases |ps| - i
  {
    if i < |ps| && i < |fates| {
      var one := DeleteOne(o, ps[i], i, fates[i]);
      WithoutContains(o.finalizers, ps[i].finalizer);
      if one.ok {
        forall j: nat | i < j < |ps| ensures IsHeld(one.obj, ps[j]) == IsHeld(o, ps[j]) { DeleteKeepsOthers(o, ps, i, fates[i], j); }
        forall j: nat ensures IsDue(o, ps, fates, i, j) <==> IsDue(one.obj, ps, fates, i + 1, j) || (i == j && IsHeld(o, ps[i])) {
          DueOn(o, one, ps, fates, i, j);
        }
        DeleteFromTakesOff(one.obj, ps, fates, i + 1, fin);
      } else {
        assert IsHeld(o, ps[i]) && !GoesThrough(fates[i]);
        assert IsDue(o, ps, fates, i, i);
        assert forall j: nat :: IsDue(o, ps, fates, i, j) ==> j == i;
      }
    }
  }

  /**
   The finalizers a pass leaves. In normal operation over a prepared object, and on deletion,
   a finalizer goes if and only if the pass comes to the policy that owns it, has to clean up
   after it, succeeds in that, and the write gets through; an object that is not being deleted
   stays. External state goes on deletion with the cleanup, even if the write is then refused.
   */
  lemma WhatAPassTakesOff(o: Resource, ps: seq<Policy>, write: Write, fates: seq<Fate>, fin: string)
    requires OwnFinalizers(ps) && !o.gone
    ensures var r := Pass(o, ps, write, fates).obj;
      && (!o.deleting ==> !r.gone)
      && (!o.deleting && Prepared(o, ps) ==>
            (fin in r.finalizers <==> fin in o.finalizers && !TakesOff(o.annotations, ps, fates, 0, fin)))
      && (o.deleting ==>
            && (fin in r.finalizers <==> fin in o.finalizers && !TakesOffDue(o, ps, fates, 0, fin))
            && (forall j: nat :: j in r.external <==> j in o.external && !ClearsDue(o, ps, fates, 0, j)))
  {
    if o.deleting {
      DeleteFromTakesOff(o, ps, fates, 0, fin);
    } else {
      ReconcileFromTakesOff(o, ps, fates, 0, fin);
      if Prepared(o, ps) { PreparedNeedsNothing(o, ps); }
    }
  }
}
