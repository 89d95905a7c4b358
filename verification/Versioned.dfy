/**
 Many writers on one object of the API server. A writer reads some version, decides, and
 writes; an update is refused unless it was decided on the current version, a creation is
 refused while the object exists, a deletion is not checked against any version.
 */
module Versioned {
  type Tid = nat

  datatype Content<T> = Absent | Present(value: T)

  /** What a writer does about the content it read. */
  datatype Decision<T> = Update(value: T) | Create(value: T) | Delete | Nothing | Fail

  type Call<!T> = Content<T> -> Decision<T>

  datatype Attempt<!T> = Attempt(version: nat, call: Call<T>)

  /** A call that returned without error, and the version its effect was applied to. */
  datatype Success<!T> = Success(call: Call<T>, version: nat)

  /** history holds the content of every version so far; the last one is current. */
  datatype State<!T> = State(history: seq<Content<T>>, attempts: map<Tid, Attempt<T>>, log: seq<Success<T>>)

  datatype Label<!T> =
    | Read(t: Tid, version: nat, call: Call<T>)  // Get, possibly of an old version
    | Write(t: Tid)                              // the write decided on, or the refusal of it

  predicate Enabled<T>(s: State<T>, l: Label<T>) {
    match l
    case Read(t, version, call) => version < |s.history|
    case Write(t) => t in s.attempts && s.attempts[t].version < |s.history| && s.history != []
  }

  /** Whether the API server accepts the write. */
  predicate Accepted<T>(s: State<T>, a: Attempt<T>)
    requires a.version < |s.history|
  {
    var current := |s.history| - 1;
    match a.call(s.history[a.version])
    case Update(_) => a.version == current && s.history[current].Present?
    case Create(_) => s.history[current].Absent?
    case Delete => s.history[current].Present?
    case _ => false
  }

  /** The content a decision asks for. */
  function Decided<T>(c: Content<T>, d: Decision<T>): Content<T> {
    match d
    case Update(v) => Present(v)
    case Create(v) => Present(v)
    case Delete => Absent
    case _ => c
  }

  function Apply<T>(s: State<T>, l: Label<T>): State<T>
    requires Enabled(s, l)
  {
    match l
    case Read(t, version, call) =>
      (match call(s.history[version])
       case Nothing => s.(log := s.log + [Success(call, |s.history| - 1)])
       case Fail => s
       case _ => s.(attempts := s.attempts[t := Attempt(version, call)]))
    case Write(t) =>
      var a := s.attempts[t];
      var rest := s.attempts - {t};
      if Accepted(s, a) then
        var current := s.history[|s.history| - 1];
        State(s.history + [Decided(current, a.call(s.history[a.version]))], rest, s.log + [Success(a.call, |s.history| - 1)])
      else s.(attempts := rest)
  }

  /** One call on its own, with nobody in between. */
  function Alone<T>(c: Content<T>, call: Call<T>): Content<T> {
    Decided(c, call(c))
  }

  predicate Runs<T>(s: State<T>, labels: seq<Label<T>>)
    decreases |labels|
  {
    labels == [] || (Enabled(s, labels[0]) && Runs(Apply(s, labels[0]), labels[1..]))
  }

  function After<T>(s: State<T>, labels: seq<Label<T>>): State<T>
    requires Runs(s, labels)
    decreases |labels|
  {
    if labels == [] then s else After(Apply(s, labels[0]), labels[1..])
  }

  lemma RunsOne<T>(s: State<T>, l: Label<T>)
    requires Enabled(s, l)
    ensures Runs(s, [l]) && After(s, [l]) == Apply(s, l)
  {
    assert [l][1..] == [];
  }

  lemma {:induction false} RunsConcat<T>(s: State<T>, a: seq<Label<T>>, b: seq<Label<T>>)
    requires Runs(s, a) && Runs(After(s, a), b)
    ensures Runs(s, a + b) && After(s, a + b) == After(After(s, a), b)
    decreases |a|
  {
    if a == [] {
      assert a + b == b;
    } else {
      RunsConcat(Apply(s, a[0]), a[1..], b);
      assert (a + b)[1..] == a[1..] + b;
    }
  }

  predicate IsInitial<T>(s: State<T>) {
    |s.history| == 1 && s.attempts == map[] && s.log == []
  }

  // ---------- what a write does ----------

  /** The object is there to be updated or deleted, or not there to be created. */
  predicate Fits<T>(c: Content<T>, d: Decision<T>) {
    match d
    case Update(_) => c.Present?
    case Create(_) => c.Absent?
    case Delete => c.Present?
    case _ => false
  }

  /** A write decided on the current content takes effect if it fits it, and adds one version. */
  lemma {:induction false} FreshWriteTakesEffect<T>(s: State<T>, t: Tid, call: Call<T>)
    requires s.history != []
    requires var c := s.history[|s.history| - 1]; Fits(c, call(c))
    ensures Runs(s, [Read(t, |s.history| - 1, call)] + [Write(t)])
    ensures var c := s.history[|s.history| - 1];
      var r := After(s, [Read(t, |s.history| - 1, call)] + [Write(t)]);
      && r.log == s.log + [Success(call, |s.history| - 1)] && t !in r.attempts
      && (call(c).Update? ==> r.history == s.history + [Present(call(c).value)])
      && (call(c).Create? ==> r.history == s.history + [Present(call(c).value)])
      && (call(c).Delete? ==> r.history == s.history + [Absent])
  {
    FreshWrite(s, t, call);
    RunsTwo(s, Read(t, |s.history| - 1, call), Write(t));
  }

  /** An update decided on any other version is refused, and so is a creation of an object that is there: nothing changes. */
  lemma {:induction false} StaleWriteIsRefused<T>(s: State<T>, t: Tid, version: nat, call: Call<T>)
    requires version < |s.history|
    requires var d := call(s.history[version]);
      (d.Update? && version != |s.history| - 1) || (d.Create? && s.history[|s.history| - 1].Present?)
    ensures Runs(s, [Read(t, version, call)] + [Write(t)])
    ensures var r := After(s, [Read(t, version, call)] + [Write(t)]);
      r.history == s.history && r.log == s.log && t !in r.attempts
  {
    StaleWrite(s, t, version, call);
    RunsTwo(s, Read(t, version, call), Write(t));
  }

  lemma FreshWrite<T>(s: State<T>, t: Tid, call: Call<T>)
    requires s.history != []
    requires var c := s.history[|s.history| - 1]; Fits(c, call(c))
    ensures var c := s.history[|s.history| - 1];
      var read := Apply(s, Read(t, |s.history| - 1, call));
      && Enabled(read, Write(t))
      && Apply(read, Write(t)) == State(s.history + [Decided(c, call(c))], s.attempts - {t}, s.log + [Success(call, |s.history| - 1)])
  {
    var read := Apply(s, Read(t, |s.history| - 1, call));
    assert read == s.(attempts := s.attempts[t := Attempt(|s.history| - 1, call)]);
    assert Accepted(read, read.attempts[t]);
    assert read.attempts - {t} == s.attempts - {t};
  }

  lemma StaleWrite<T>(s: State<T>, t: Tid, version: nat, call: Call<T>)
    requires version < |s.history|
    requires var d := call(s.history[version]);
      (d.Update? && version != |s.history| - 1) || (d.Create? && s.history[|s.history| - 1].Present?)
    ensures var read := Apply(s, Read(t, version, call));
      && Enabled(read, Write(t))
      && Apply(read, Write(t)) == s.(attempts := s.attempts - {t})
  {
    var read := Apply(s, Read(t, version, call));
    assert read == s.(attempts := s.attempts[t := Attempt(version, call)]);
    assert !Accepted(read, read.attempts[t]);
    assert read.attempts - {t} == s.attempts - {t};
  }

  lemma {:induction false} RunsTwo<T>(s: State<T>, a: Label<T>, b: Label<T>)
    requires Enabled(s, a) && Enabled(Apply(s, a), b)
    ensures Runs(s, [a] + [b]) && After(s, [a] + [b]) == Apply(Apply(s, a), b)
  {
    RunsOne(s, a);
    RunsOne(Apply(s, a), b);
    RunsConcat(s, [a], [b]);
  }

  /** The calls applied one after another. */
  function Serial<T>(c: Content<T>, log: seq<Success<T>>): Content<T>
    decreases |log|
  {
    if log == [] then c else Alone(Serial(c, log[..|log| - 1]), log[|log| - 1].call)
  }

  /** A call that neither creates the object nor leaves it alone. */
  ghost predicate OnlyUpdates<T(!new)>(call: Call<T>) {
    forall c: Content<T> :: !call(c).Create? && !call(c).Nothing?
  }

  // ---------- every write but a deletion acts on the current content ----------

  /** This success acted as if it had read the content it was applied to. */
  predicate ActsOnCurrent<T(==)>(history: seq<Content<T>>, e: Success<T>)
    requires e.version + 1 < |history|
  {
    history[e.version + 1] == Alone(history[e.version], e.call)
  }

  /** In a run of calls that only update or delete, success number i made version i + 1. */
  ghost predicate Tracked<T(!new)>(s: State<T>) {
    && |s.history| == |s.log| + 1
    && (forall i :: 0 <= i < |s.log| ==> s.log[i].version == i)
    && (forall i :: 0 <= i < |s.log| ==> ActsOnCurrent(s.history, s.log[i]) || s.history[i + 1] == Absent)
    && (forall t :: t in s.attempts ==> OnlyUpdates(s.attempts[t].call))
  }

  lemma StepTracked<T(!new)>(s: State<T>, l: Label<T>)
    requires Tracked(s) && Enabled(s, l) && (l.Read? ==> OnlyUpdates(l.call))
    ensures Tracked(Apply(s, l))
    ensures s.history <= Apply(s, l).history && s.log <= Apply(s, l).log
  {
    var s' := Apply(s, l);
    if l.Write? {
      var a := s.attempts[l.t];
      assert OnlyUpdates(a.call);
      forall i | 0 <= i < |s'.log| ensures s'.log[i].version == i && (ActsOnCurrent(s'.history, s'.log[i]) || s'.history[i + 1] == Absent) {
        if i < |s.log| { assert ActsOnCurrent(s.history, s.log[i]) || s.history[i + 1] == Absent; }
      }
    }
  }

  lemma {:induction false} RunTracked<T(!new)>(s: State<T>, labels: seq<Label<T>>)
    requires Tracked(s) && Runs(s, labels)
    requires forall l :: l in labels && l.Read? ==> OnlyUpdates(l.call)
    ensures Tracked(After(s, labels))
    ensures s.history <= After(s, labels).history && s.log <= After(s, labels).log
    decreases |labels|
  {
    if labels != [] {
      assert labels[0] in labels;
      StepTracked(s, labels[0]);
      assert forall l :: l in labels[1..] ==> l in labels;
      RunTracked(Apply(s, labels[0]), labels[1..]);
    }
  }

  /** Version n is what the first n successes leave, one after another. */
  predicate SerialAt<T(==)>(history: seq<Content<T>>, log: seq<Success<T>>, n: nat)
    requires |history| == |log| + 1 && n <= |log|
  {
    history[n] == Serial(history[0], log[..n])
  }

  /** Every success acted as if it had read the current content. */
  ghost predicate AllActOnCurrent<T(!new)>(history: seq<Content<T>>, log: seq<Success<T>>)
    requires |history| == |log| + 1
  {
    forall i :: 0 <= i < |log| ==> log[i].version == i && ActsOnCurrent(history, log[i])
  }

  lemma {:induction false} SerialOfTracked<T(!new)>(history: seq<Content<T>>, log: seq<Success<T>>, n: nat)
    requires n <= |log| && |history| == |log| + 1 && AllActOnCurrent(history, log)
    ensures SerialAt(history, log, n)
  {
    if n > 0 {
      SerialOfTracked(history, log, n - 1);
      SerialPrefix(history[0], log, n - 1);
      assert ActsOnCurrent(history, log[n - 1]);
    }
  }

  lemma SerialPrefix<T>(c: Content<T>, log: seq<Success<T>>, n: nat)
    requires n < |log|
    ensures Serial(c, log[..n + 1]) == Alone(Serial(c, log[..n]), log[n].call)
  {
    assert log[..n + 1][..n] == log[..n];
  }

  /**
   A run of read-modify-write calls that never makes the object disappear is the successful
   calls applied one after another, however stale the versions they read.
   */
  lemma UpdatesAreSerial<T(!new)>(s: State<T>, labels: seq<Label<T>>)
    requires IsInitial(s) && Runs(s, labels)
    requires forall l :: l in labels && l.Read? ==> OnlyUpdates(l.call)
    requires forall i :: 0 < i < |After(s, labels).history| ==> After(s, labels).history[i] != Absent
    ensures var r := After(s, labels);
      && |r.history| == |r.log| + 1 && r.history[0] == s.history[0]
      && forall n: nat :: n <= |r.log| ==> SerialAt(r.history, r.log, n)
  {
    RunTracked(s, labels);
    var r := After(s, labels);
    assert AllActOnCurrent(r.history, r.log);
    forall n: nat | n <= |r.log| ensures SerialAt(r.history, r.log, n) {
      SerialOfTracked(r.history, r.log, n);
    }
  }

  /** The deletion that made version i + 1 would also have been decided on version i. */
  predicate DeletionHolds<T(==)>(history: seq<Content<T>>, log: seq<Success<T>>, i: nat)
    requires |history| == |log| + 1 && i < |log|
  {
    history[i + 1] == Absent ==> Alone(history[i], log[i].call) == Absent
  }

  /**
   In general a run is serial at every version exactly when each deletion would also have
   been decided on the content it deleted: a deletion decided on an older version loses the
   updates made since.
   */
  lemma SerialExactly<T(!new)>(s: State<T>, labels: seq<Label<T>>)
    requires IsInitial(s) && Runs(s, labels)
    requires forall l :: l in labels && l.Read? ==> OnlyUpdates(l.call)
    ensures var r := After(s, labels);
      && |r.history| == |r.log| + 1 && r.history[0] == s.history[0]
      && ((forall n: nat :: n <= |r.log| ==> SerialAt(r.history, r.log, n))
          <==> (forall i: nat :: i < |r.log| ==> DeletionHolds(r.history, r.log, i)))
  {
    RunTracked(s, labels);
    var r := After(s, labels);
    if forall n: nat :: n <= |r.log| ==> SerialAt(r.history, r.log, n) {
      forall i: nat | i < |r.log| ensures DeletionHolds(r.history, r.log, i) {
        assert SerialAt(r.history, r.log, i) && SerialAt(r.history, r.log, i + 1);
        SerialPrefix(r.history[0], r.log, i);
      }
    }
    if forall i: nat :: i < |r.log| ==> DeletionHolds(r.history, r.log, i) {
      DeletionsHoldActOnCurrent(r);
      forall n: nat | n <= |r.log| ensures SerialAt(r.history, r.log, n) {
        SerialOfTracked(r.history, r.log, n);
      }
    }
  }

  lemma DeletionsHoldActOnCurrent<T(!new)>(r: State<T>)
    requires Tracked(r) && forall i: nat :: i < |r.log| ==> DeletionHolds(r.history, r.log, i)
    ensures AllActOnCurrent(r.history, r.log)
  {
    forall i | 0 <= i < |r.log| ensures ActsOnCurrent(r.history, r.log[i]) {
      assert DeletionHolds(r.history, r.log, i);
    }
  }

  // ---------- calls that may also create, or find nothing to do ----------

  /** The version success number n acted on, which is what the first n successes left; the current one for the end. */
  function At<T>(s: State<T>, n: nat): int
    requires n <= |s.log|
  {
    if n < |s.log| then s.log[n].version else |s.history| - 1
  }

  /** A call that creates only what is not there. */
  ghost predicate CreatesAbsent<T(!new)>(call: Call<T>) {
    forall c: Content<T> :: call(c).Create? ==> c == Absent
  }

  /** Success number i wrote the next version, as if it had read the current one unless it deleted, or none. */
  ghost predicate StepAt<T(!new)>(s: State<T>, i: nat)
    requires i < |s.log|
  {
    && 0 <= At(s, i) <= At(s, i + 1) < |s.history| && At(s, i + 1) <= At(s, i) + 1
    && (At(s, i + 1) == At(s, i) + 1 ==>
          s.history[At(s, i + 1)] == Absent || s.history[At(s, i + 1)] == Alone(s.history[At(s, i)], s.log[i].call))
  }

  ghost predicate Followed<T(!new)>(s: State<T>) {
    && s.history != [] && At(s, 0) == 0
    && (forall i: nat :: i < |s.log| ==> StepAt(s, i))
    && (forall t :: t in s.attempts ==> CreatesAbsent(s.attempts[t].call))
  }

  lemma StepFollowed<T(!new)>(s: State<T>, l: Label<T>)
    requires Followed(s) && Enabled(s, l) && (l.Read? ==> CreatesAbsent(l.call))
    ensures Followed(Apply(s, l))
    ensures Apply(s, l).history[0] == s.history[0]
  {
    var s' := Apply(s, l);
    if l.Write? { assert CreatesAbsent(s.attempts[l.t].call); }
    forall i: nat | i < |s'.log| ensures StepAt(s', i) {
      if i < |s.log| {
        assert StepAt(s, i);
        assert At(s', i) == At(s, i) && At(s', i + 1) == At(s, i + 1);
      }
    }
  }

  lemma {:induction false} RunFollowed<T(!new)>(s: State<T>, labels: seq<Label<T>>)
    requires Followed(s) && Runs(s, labels)
    requires forall l :: l in labels && l.Read? ==> CreatesAbsent(l.call)
    ensures Followed(After(s, labels)) && After(s, labels).history[0] == s.history[0]
    decreases |labels|
  {
    if labels != [] {
      assert labels[0] in labels;
      StepFollowed(s, labels[0]);
      assert forall l :: l in labels[1..] ==> l in labels;
      RunFollowed(Apply(s, labels[0]), labels[1..]);
    }
  }

  /** What there is after n successes is what they leave one after another. */
  ghost predicate SerialAfter<T(!new)>(s: State<T>, n: nat)
    requires n <= |s.log| && 0 <= At(s, n) < |s.history|
  {
    s.history[At(s, n)] == Serial(s.history[0], s.log[..n])
  }

  /** A success that found nothing to do, or deleted, would also have decided so on the content it met. */
  ghost predicate StillDecides<T(!new)>(s: State<T>, i: nat)
    requires i < |s.log| && 0 <= At(s, i) < |s.history| && 0 <= At(s, i + 1) < |s.history|
  {
    At(s, i + 1) == At(s, i) || s.history[At(s, i + 1)] == Absent ==>
      Alone(s.history[At(s, i)], s.log[i].call) == s.history[At(s, i + 1)]
  }

  ghost predicate InRange<T(!new)>(s: State<T>) {
    forall n: nat :: n <= |s.log| ==> 0 <= At(s, n) < |s.history|
  }

  lemma FollowedInRange<T(!new)>(s: State<T>)
    requires Followed(s)
    ensures InRange(s)
  {
    forall n: nat | n <= |s.log| ensures 0 <= At(s, n) < |s.history| {
      if n < |s.log| { assert StepAt(s, n); }
    }
  }

  lemma {:induction false} FollowedSerial<T(!new)>(s: State<T>, n: nat)
    requires Followed(s) && InRange(s) && n <= |s.log| && forall i: nat :: i < |s.log| ==> StillDecides(s, i)
    ensures SerialAfter(s, n)
  {
    if n > 0 {
      FollowedSerial(s, n - 1);
      SerialPrefix(s.history[0], s.log, n - 1);
      assert StepAt(s, n - 1) && StillDecides(s, n - 1);
    }
  }

  /**
   However stale the versions it reads, a run of calls that create only what is not there
   equals its successes one after another if and only if each success that found nothing to do
   or deleted would also have decided so on the content it met.
   */
  lemma StaleRunsAreSerialExactly<T(!new)>(s: State<T>, labels: seq<Label<T>>)
    requires IsInitial(s) && Runs(s, labels)
    requires forall l :: l in labels && l.Read? ==> CreatesAbsent(l.call)
    ensures var r := After(s, labels);
      && InRange(r) && r.history != [] && r.history[0] == s.history[0]
      && ((forall n: nat :: n <= |r.log| ==> SerialAfter(r, n)) <==> (forall i: nat :: i < |r.log| ==> StillDecides(r, i)))
  {
    RunFollowed(s, labels);
    var r := After(s, labels);
    FollowedInRange(r);
    if forall n: nat :: n <= |r.log| ==> SerialAfter(r, n) {
      forall i: nat | i < |r.log| ensures StillDecides(r, i) {
        assert SerialAfter(r, i) && SerialAfter(r, i + 1);
        SerialPrefix(r.history[0], r.log, i);
      }
    }
    if forall i: nat :: i < |r.log| ==> StillDecides(r, i) {
      forall n: nat | n <= |r.log| ensures SerialAfter(r, n) { FollowedSerial(r, n); }
    }
  }

  // ---------- fresh reads ----------

  /** Every read is of the version current at that moment. */
  predicate ReadsFresh<T>(s: State<T>, labels: seq<Label<T>>)
    requires Runs(s, labels)
    decreases |labels|
  {
    labels == [] ||
    (&& (labels[0].Read? ==> labels[0].version == |s.history| - 1)
     && ReadsFresh(Apply(s, labels[0]), labels[1..]))
  }

  /** A call that never deletes, and creates only what is not there. */
  ghost predicate NeverDeletes<T(!new)>(call: Call<T>) {
    forall c: Content<T> :: !call(c).Delete? && (call(c).Create? ==> c == Absent)
  }

  ghost predicate Caught<T(!new)>(s: State<T>, initial: Content<T>) {
    && s.history != [] && s.history[|s.history| - 1] == Serial(initial, s.log)
    && forall t :: t in s.attempts ==> NeverDeletes(s.attempts[t].call)
  }

  lemma SerialSnoc<T>(c: Content<T>, log: seq<Success<T>>, e: Success<T>)
    ensures Serial(c, log + [e]) == Alone(Serial(c, log), e.call)
  {
    assert (log + [e])[..|log|] == log;
  }

  lemma FreshStep<T(!new)>(s: State<T>, l: Label<T>, initial: Content<T>)
    requires Caught(s, initial) && Enabled(s, l)
    requires l.Read? ==> l.version == |s.history| - 1 && NeverDeletes(l.call)
    ensures Caught(Apply(s, l), initial)
  {
    match l
    case Read(t, version, call) => SerialSnoc(initial, s.log, Success(call, |s.history| - 1));
    case Write(t) =>
      var a := s.attempts[t];
      assert NeverDeletes(a.call);
      SerialSnoc(initial, s.log, Success(a.call, |s.history| - 1));
  }

  /** With fresh reads, calls that may also find nothing to do are still the successful calls one after another. */
  lemma {:induction false} FreshRunsAreSerial<T(!new)>(s: State<T>, labels: seq<Label<T>>, initial: Content<T>)
    requires Caught(s, initial) && Runs(s, labels) && ReadsFresh(s, labels)
    requires forall l :: l in labels && l.Read? ==> NeverDeletes(l.call)
    ensures Caught(After(s, labels), initial)
    decreases |labels|
  {
    if labels != [] {
      assert labels[0] in labels;
      FreshStep(s, labels[0], initial);
      assert forall l :: l in labels[1..] ==> l in labels;
      FreshRunsAreSerial(Apply(s, labels[0]), labels[1..], initial);
    }
  }
}
