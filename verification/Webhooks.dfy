/** The webhook configuration every syncer appends its entry to (internal/controller/dynamic_webhook.go). */
module Webhooks {
  import opened Common
  import opened Versioned

  datatype Rule = Rule(apiGroups: seq<string>, apiVersions: seq<string>, resources: seq<string>,
                       operations: seq<string>, scope: string)

  datatype Webhook = Webhook(name: string, rules: seq<Rule>, namespaceSelector: string, objectSelector: string,
                             clientConfig: string)

  /** One owner's request: its entry is to be there as given, or not at all. */
  datatype Upsert = Upsert(entry: Webhook, isDeleted: bool)

  /** The comparison of rules leaves their scope out. */
  predicate RulesAreEqual(a: Rule, b: Rule) {
    a.apiGroups == b.apiGroups && a.apiVersions == b.apiVersions && a.resources == b.resources && a.operations == b.operations
  }

  predicate EntryEqual(a: Webhook, b: Webhook) {
    && |a.rules| == |b.rules| && (forall i :: 0 <= i < |a.rules| ==> RulesAreEqual(a.rules[i], b.rules[i]))
    && a.namespaceSelector == b.namespaceSelector
    && a.objectSelector == b.objectSelector
  }

  /** The entries of other owners, in order. */
  function OthersOf(webhooks: seq<Webhook>, name: string): seq<Webhook> {
    if webhooks == [] then []
    else (if webhooks[0].name != name then [webhooks[0]] else []) + OthersOf(webhooks[1..], name)
  }

  /** The last entry of that name is already what would be written. */
  predicate UpToDate(webhooks: seq<Webhook>, entry: Webhook)
    decreases |webhooks|
  {
    if webhooks == [] then false
    else
      var last := |webhooks| - 1;
      if webhooks[last].name == entry.name then EntryEqual(webhooks[last], entry) else UpToDate(webhooks[..last], entry)
  }

  function Rebuilt(webhooks: seq<Webhook>, u: Upsert): seq<Webhook> {
    OthersOf(webhooks, u.entry.name) + (if u.isDeleted then [] else [u.entry])
  }

  /** What one attempt of upsert decides on the configuration it read. */
  function CallOf(u: Upsert): Call<seq<Webhook>> {
    (c: Content<seq<Webhook>>) =>
      match c
      case Absent => if u.isDeleted then Nothing else Create([u.entry])
      case Present(webhooks) =>
        if UpToDate(webhooks, u.entry) && !u.isDeleted then Nothing else Update(Rebuilt(webhooks, u))
  }

  lemma OthersStep(webhooks: seq<Webhook>, i: nat, name: string, kept: seq<Webhook>)
    requires i < |webhooks|
    ensures kept + OthersOf(webhooks[i..], name) ==
      (if webhooks[i].name != name then kept + [webhooks[i]] else kept) + OthersOf(webhooks[i + 1..], name)
  {
    assert webhooks[i..][0] == webhooks[i] && webhooks[i..][1..] == webhooks[i + 1..];
    ConcatAssociative(kept, [webhooks[i]], OthersOf(webhooks[i + 1..], name));
  }

  lemma UpToDateStep(webhooks: seq<Webhook>, i: nat, entry: Webhook)
    requires i < |webhooks|
    ensures UpToDate(webhooks[..i + 1], entry) ==
      if webhooks[i].name == entry.name then EntryEqual(webhooks[i], entry) else UpToDate(webhooks[..i], entry)
  {
    assert webhooks[..i + 1][..i] == webhooks[..i];
  }

  /** The list without the owner's entry, and whether the entry it would write is already there. */
  method Scan(webhooks: seq<Webhook>, entry: Webhook) returns (others: seq<Webhook>, upToDate: bool)
    ensures others == OthersOf(webhooks, entry.name)
    ensures upToDate == UpToDate(webhooks, entry)
  {
    others := [];
    upToDate := false;
    for i := 0 to |webhooks|
      invariant others + OthersOf(webhooks[i..], entry.name) == OthersOf(webhooks, entry.name)
      invariant upToDate == UpToDate(webhooks[..i], entry)
    {
      OthersStep(webhooks, i, entry.name, others);
      UpToDateStep(webhooks, i, entry);
      if webhooks[i].name != entry.name {
        others := others + [webhooks[i]];
        continue;
      }
      upToDate := EntryEqual(webhooks[i], entry);
    }
    assert webhooks[|webhooks|..] == [] && webhooks[..|webhooks|] == webhooks;
  }

  method Decide(found: Content<seq<Webhook>>, u: Upsert) returns (d: Decision<seq<Webhook>>)
    ensures d == CallOf(u)(found)
  {
    if found.Absent? {
      return if u.isDeleted then Nothing else Create([u.entry]);
    }
    var others, upToDate := Scan(found.value, u.entry);
    if upToDate && !u.isDeleted {
      return Nothing;
    }
    if !u.isDeleted {
      others := others + [u.entry];
    }
    assert others == Rebuilt(found.value, u);
    return Update(others);
  }

  // ---------- one upsert ----------

  ghost predicate DistinctNames(webhooks: seq<Webhook>) {
    forall i, j :: 0 <= i < j < |webhooks| ==> webhooks[i].name != webhooks[j].name
  }

  function Entries(c: Content<seq<Webhook>>): seq<Webhook> {
    if c.Present? then c.value else []
  }

  lemma {:induction false} OthersAre(webhooks: seq<Webhook>, name: string)
    ensures forall w :: w in OthersOf(webhooks, name) <==> w in webhooks && w.name != name
    ensures DistinctNames(webhooks) ==> DistinctNames(OthersOf(webhooks, name))
    decreases |webhooks|
  {
    if webhooks != [] {
      var rest := webhooks[1..];
      OthersAre(rest, name);
      assert forall w :: w in webhooks <==> w == webhooks[0] || w in rest;
      if DistinctNames(webhooks) {
        assert forall i :: 0 <= i < |rest| ==> rest[i].name != webhooks[0].name;
        assert forall w :: w in OthersOf(rest, name) ==> w.name != webhooks[0].name;
        if webhooks[0].name != name { ConsDistinct(webhooks[0], OthersOf(rest, name)); }
      }
    }
  }

  lemma ConsDistinct(w: Webhook, rest: seq<Webhook>)
    requires DistinctNames(rest) && forall v :: v in rest ==> v.name != w.name
    ensures DistinctNames([w] + rest)
  {
    var all := [w] + rest;
    forall i, j | 0 <= i < j < |all| ensures all[i].name != all[j].name {
      assert all[j] in rest;
    }
  }

  lemma SnocDistinct(front: seq<Webhook>, w: Webhook)
    requires DistinctNames(front) && forall v :: v in front ==> v.name != w.name
    ensures DistinctNames(front + [w])
  {
    var all := front + [w];
    forall i, j | 0 <= i < j < |all| ensures all[i].name != all[j].name {
      assert all[i] in front;
    }
  }

  lemma {:induction false} OthersConcat(a: seq<Webhook>, b: seq<Webhook>, name: string)
    ensures OthersOf(a + b, name) == OthersOf(a, name) + OthersOf(b, name)
    decreases |a|
  {
    if a == [] {
      assert a + b == b;
    } else {
      assert (a + b)[1..] == a[1..] + b;
      OthersConcat(a[1..], b, name);
    }
  }

  lemma {:induction false} OthersTwice(webhooks: seq<Webhook>, name: string)
    ensures OthersOf(OthersOf(webhooks, name), name) == OthersOf(webhooks, name)
    decreases |webhooks|
  {
    if webhooks != [] {
      OthersTwice(webhooks[1..], name);
      OthersConcat(if webhooks[0].name != name then [webhooks[0]] else [], OthersOf(webhooks[1..], name), name);
      assert [webhooks[0]][1..] == [];
    }
  }

  lemma {:induction false} UpToDateFinds(webhooks: seq<Webhook>, entry: Webhook)
    requires UpToDate(webhooks, entry)
    ensures exists w :: w in webhooks && w.name == entry.name && EntryEqual(w, entry)
    decreases |webhooks|
  {
    var last := |webhooks| - 1;
    if webhooks[last].name != entry.name {
      UpToDateFinds(webhooks[..last], entry);
    } else {
      assert webhooks[last] in webhooks;
    }
  }

  /** Exactly the requested entry, up to what EntryEqual compares, or none after a deletion. */
  ghost predicate Holds(webhooks: seq<Webhook>, u: Upsert) {
    if u.isDeleted then forall w :: w in webhooks ==> w.name != u.entry.name
    else exists w :: w in webhooks && w.name == u.entry.name && EntryEqual(w, u.entry)
  }

  ghost predicate Effect(before: seq<Webhook>, after: seq<Webhook>, u: Upsert) {
    DistinctNames(after) && Holds(after, u) && OthersOf(after, u.entry.name) == OthersOf(before, u.entry.name)
  }

  lemma RebuiltEffect(webhooks: seq<Webhook>, u: Upsert)
    requires DistinctNames(webhooks)
    ensures Effect(webhooks, Rebuilt(webhooks, u), u)
  {
    var name := u.entry.name;
    var others := OthersOf(webhooks, name);
    OthersAre(webhooks, name);
    OthersTwice(webhooks, name);
    if u.isDeleted {
      assert Rebuilt(webhooks, u) == others;
    } else {
      var after := others + [u.entry];
      OthersConcat(others, [u.entry], name);
      assert [u.entry][1..] == [];
      SnocDistinct(others, u.entry);
      assert after[|after| - 1] == u.entry && EntryEqual(u.entry, u.entry);
    }
  }

  /** One successful upsert leaves the owner's entry as asked and every other entry in place and in order. */
  lemma UpsertEffect(c: Content<seq<Webhook>>, u: Upsert)
    requires DistinctNames(Entries(c))
    ensures Effect(Entries(c), Entries(Alone(c, CallOf(u))), u)
  {
    if c.Absent? {
      RebuiltEffect([], u);
    } else if UpToDate(c.value, u.entry) && !u.isDeleted {
      UpToDateFinds(c.value, u.entry);
    } else {
      RebuiltEffect(c.value, u);
    }
  }

  // ---------- every interleaving of owners ----------

  /** The entries of names no upsert so far was about, in order. */
  function Untouched(webhooks: seq<Webhook>, ups: seq<Upsert>): seq<Webhook>
    decreases |ups|
  {
    if ups == [] then webhooks else OthersOf(Untouched(webhooks, ups[..|ups| - 1]), ups[|ups| - 1].entry.name)
  }

  /** Upsert number i is the last one of its owner. */
  ghost predicate IsLastOfOwner(ups: seq<Upsert>, i: nat) {
    i < |ups| && forall j :: i < j < |ups| ==> ups[j].entry.name != ups[i].entry.name
  }

  lemma {:induction false} OthersCommute(webhooks: seq<Webhook>, a: string, b: string)
    ensures OthersOf(OthersOf(webhooks, a), b) == OthersOf(OthersOf(webhooks, b), a)
    decreases |webhooks|
  {
    if webhooks != [] {
      var w, rest := webhooks[0], webhooks[1..];
      OthersCommute(rest, a, b);
      OthersConcat(if w.name != a then [w] else [], OthersOf(rest, a), b);
      OthersConcat(if w.name != b then [w] else [], OthersOf(rest, b), a);
      assert [w][1..] == [];
    }
  }

  lemma {:induction false} UntouchedOthers(webhooks: seq<Webhook>, ups: seq<Upsert>, name: string)
    ensures Untouched(OthersOf(webhooks, name), ups) == OthersOf(Untouched(webhooks, ups), name)
    decreases |ups|
  {
    if ups != [] {
      var before := ups[..|ups| - 1];
      UntouchedOthers(webhooks, before, name);
      OthersCommute(Untouched(webhooks, before), name, ups[|ups| - 1].entry.name);
    }
  }

  /** The names are distinct, each owner has what it asked for last, the rest is as it was at the start. */
  ghost predicate Served(start: seq<Webhook>, now: seq<Webhook>, ups: seq<Upsert>) {
    && DistinctNames(now)
    && (forall i: nat :: IsLastOfOwner(ups, i) ==> Holds(now, ups[i]))
    && Untouched(now, ups) == Untouched(start, ups)
  }

  lemma ServedStep(start: seq<Webhook>, before: seq<Webhook>, after: seq<Webhook>, ups: seq<Upsert>, u: Upsert)
    requires Served(start, before, ups) && Effect(before, after, u)
    ensures Served(start, after, ups + [u])
  {
    var all := ups + [u];
    assert all[..|all| - 1] == ups;
    forall i: nat | IsLastOfOwner(all, i) ensures Holds(after, all[i]) {
      if i < |ups| {
        assert IsLastOfOwner(ups, i) by {
          forall j | i < j < |ups| ensures ups[j].entry.name != ups[i].entry.name { assert all[j] == ups[j]; }
        }
        assert all[|ups|] == u;
        HoldsStays(before, after, u.entry.name, ups[i]);
      }
    }
    UntouchedOthers(before, ups, u.entry.name);
    UntouchedOthers(after, ups, u.entry.name);
  }

  lemma {:induction false} SerialUpserts(c: Content<seq<Webhook>>, log: seq<Success<seq<Webhook>>>, ups: seq<Upsert>)
    requires |ups| == |log| && forall i :: 0 <= i < |log| ==> log[i].call == CallOf(ups[i])
    requires DistinctNames(Entries(c))
    ensures Served(Entries(c), Entries(Serial(c, log)), ups)
    decreases |log|
  {
    if log != [] {
      var last := |log| - 1;
      SerialUpserts(c, log[..last], ups[..last]);
      var before := Serial(c, log[..last]);
      UpsertEffect(before, ups[last]);
      ServedStep(Entries(c), Entries(before), Entries(Serial(c, log)), ups[..last], ups[last]);
      assert ups == ups[..last] + [ups[last]];
    }
  }

  lemma HoldsStays(before: seq<Webhook>, after: seq<Webhook>, name: string, u: Upsert)
    requires Holds(before, u) && u.entry.name != name
    requires OthersOf(after, name) == OthersOf(before, name)
    ensures Holds(after, u)
  {
    OthersAre(before, name);
    OthersAre(after, name);
    if u.isDeleted {
      forall w | w in after && w.name != name ensures w.name != u.entry.name {
        assert w in OthersOf(before, name);
      }
    } else {
      var w :| w in before && w.name == u.entry.name && EntryEqual(w, u.entry);
      assert w in OthersOf(after, name);
    }
  }

  lemma UpsertsNeverDelete(u: Upsert)
    ensures NeverDeletes(CallOf(u))
  {
  }

  ghost predicate OnlyUpserts(labels: seq<Label<seq<Webhook>>>) {
    forall l :: l in labels && l.Read? ==> exists u :: l.call == CallOf(u)
  }

  lemma {:induction false} LogIsUpserts(s: State<seq<Webhook>>, labels: seq<Label<seq<Webhook>>>, ups: seq<Upsert>) returns (all: seq<Upsert>)
    requires Runs(s, labels) && OnlyUpserts(labels)
    requires |ups| == |s.log| && forall i :: 0 <= i < |s.log| ==> s.log[i].call == CallOf(ups[i])
    requires forall t :: t in s.attempts ==> exists u :: s.attempts[t].call == CallOf(u)
    ensures |all| == |After(s, labels).log| && forall i :: 0 <= i < |all| ==> After(s, labels).log[i].call == CallOf(all[i])
    decreases |labels|
  {
    if labels == [] {
      all := ups;
    } else {
      var s' := Apply(s, labels[0]);
      assert labels[0] in labels;
      assert forall l :: l in labels[1..] ==> l in labels;
      var more := ups;
      if |s'.log| > |s.log| {
        var u :| s'.log[|s.log|].call == CallOf(u);
        more := ups + [u];
      }
      all := LogIsUpserts(s', labels[1..], more);
    }
  }

  /**
   In every interleaving of upserts that read the current version: the configuration holds
   each name at most once, each owner's entry is what its last successful upsert left, and
   the entries nobody upserted keep their content and their order.
   */
  lemma EveryOwnerKeepsItsEntry(s: State<seq<Webhook>>, labels: seq<Label<seq<Webhook>>>) returns (ups: seq<Upsert>)
    requires IsInitial(s) && DistinctNames(Entries(s.history[0]))
    requires Runs(s, labels) && ReadsFresh(s, labels) && OnlyUpserts(labels)
    ensures var r := After(s, labels);
      && |ups| == |r.log| && (forall i :: 0 <= i < |ups| ==> r.log[i].call == CallOf(ups[i]))
      && r.history != []
      && var final := Entries(r.history[|r.history| - 1]);
      Served(Entries(s.history[0]), final, ups)
  {
    forall l | l in labels && l.Read? ensures NeverDeletes(l.call) {
      var u :| l.call == CallOf(u);
      UpsertsNeverDelete(u);
    }
    ups := LogIsUpserts(s, labels, []);
    FreshRunsAreSerial(s, labels, s.history[0]);
    SerialUpserts(s.history[0], After(s, labels).log, ups);
  }

  /** Upsert number i found nothing to do, and would find so on the configuration as it then was. */
  ghost predicate StillNothing(s: State<seq<Webhook>>, i: nat)
    requires i < |s.log| && 0 <= At(s, i) < |s.history|
  {
    At(s, i + 1) == At(s, i) ==> Alone(s.history[At(s, i)], s.log[i].call) == s.history[At(s, i)]
  }

  lemma {:induction false} UpsertsLeaveSomething(s: State<seq<Webhook>>, labels: seq<Label<seq<Webhook>>>)
    requires Runs(s, labels) && OnlyUpserts(labels)
    requires forall t :: t in s.attempts ==> exists u :: s.attempts[t].call == CallOf(u)
    requires forall i :: 0 < i < |s.history| ==> s.history[i] != Absent
    ensures forall i :: 0 < i < |After(s, labels).history| ==> After(s, labels).history[i] != Absent
    decreases |labels|
  {
    if labels != [] {
      assert labels[0] in labels;
      assert forall l :: l in labels[1..] ==> l in labels;
      UpsertsLeaveSomething(Apply(s, labels[0]), labels[1..]);
    }
  }

  /**
   Upserts that read an older configuration (from a cache, say) equal those that succeeded,
   one after another, if and only if each one that found nothing to do would also have found
   so on the configuration current at that moment.
   */
  lemma StaleUpsertsAreSerialExactly(s: State<seq<Webhook>>, labels: seq<Label<seq<Webhook>>>)
    requires IsInitial(s) && Runs(s, labels) && OnlyUpserts(labels)
    ensures var r := After(s, labels);
      && InRange(r) && r.history != [] && r.history[0] == s.history[0]
      && ((forall n: nat :: n <= |r.log| ==> SerialAfter(r, n)) <==> (forall i: nat :: i < |r.log| ==> StillNothing(r, i)))
  {
    forall l | l in labels && l.Read? ensures CreatesAbsent(l.call) {
      var u :| l.call == CallOf(u);
    }
    StaleRunsAreSerialExactly(s, labels);
    UpsertsLeaveSomething(s, labels);
    RunFollowed(s, labels);
    var r := After(s, labels);
    forall i: nat | i < |r.log| ensures StillDecides(r, i) <==> StillNothing(r, i) {
      assert StepAt(r, i);
    }
  }

  // ---------- what is taken for no change ----------

  /** An entry of the same name that compares as equal is the entry itself. */
  ghost predicate EqualMeansSame(webhooks: seq<Webhook>, entry: Webhook) {
    forall w :: w in webhooks && w.name == entry.name && EntryEqual(w, entry) ==> w == entry
  }

  lemma {:induction false} UpToDateExactly(webhooks: seq<Webhook>, entry: Webhook)
    requires DistinctNames(webhooks)
    ensures UpToDate(webhooks, entry) <==> exists w :: w in webhooks && w.name == entry.name && EntryEqual(w, entry)
    decreases |webhooks|
  {
    if webhooks != [] {
      var last := webhooks[|webhooks| - 1];
      UpToDateExactly(webhooks[..|webhooks| - 1], entry);
      assert forall w :: w in webhooks <==> w in webhooks[..|webhooks| - 1] || w == last;
    }
  }

  /**
   After a successful upsert the configuration holds the entry exactly as asked if and only if
   no entry of that name was there that the comparison takes for equal although it is not: the
   comparison leaves out the client configuration and the scope of every rule. An entry to be
   deleted is never left.
   */
  lemma WrittenExactlyUnlessTakenForEqual(c: Content<seq<Webhook>>, u: Upsert)
    requires DistinctNames(Entries(c))
    ensures !u.isDeleted ==>
      (u.entry in Entries(Alone(c, CallOf(u))) <==> EqualMeansSame(Entries(c), u.entry))
    ensures u.isDeleted ==> u.entry !in Entries(Alone(c, CallOf(u)))
  {
    var entries, e := Entries(c), u.entry;
    UpToDateExactly(entries, e);
    OthersAre(entries, e.name);
    if !u.isDeleted && c.Present? {
      if UpToDate(entries, e) {
        var w :| w in entries && w.name == e.name && EntryEqual(w, e);
        SameNameIsSame(entries, e.name);
        if e in entries { assert e == w; }
      } else {
        assert Rebuilt(entries, u)[|Rebuilt(entries, u)| - 1] == e;
      }
    }
  }

  lemma SameNameIsSame(webhooks: seq<Webhook>, name: string)
    requires DistinctNames(webhooks)
    ensures forall v, w :: v in webhooks && w in webhooks && v.name == name && w.name == name ==> v == w
  {
  }

  /** The entry without what nobody looks at: its client configuration and the scopes of its rules. */
  function Seen(w: Webhook): Webhook {
    w.(clientConfig := "", rules := seq(|w.rules|, i requires 0 <= i < |w.rules| => w.rules[i].(scope := "")))
  }

  lemma SeenInFields(a: Webhook, b: Webhook)
    ensures Seen(a) == Seen(b) <==>
      && a.name == b.name && a.namespaceSelector == b.namespaceSelector && a.objectSelector == b.objectSelector
      && |a.rules| == |b.rules|
      && forall i :: 0 <= i < |a.rules| ==>
           && a.rules[i].apiGroups == b.rules[i].apiGroups && a.rules[i].apiVersions == b.rules[i].apiVersions
           && a.rules[i].resources == b.rules[i].resources && a.rules[i].operations == b.rules[i].operations
  {
    if Seen(a) == Seen(b) {
      assert |Seen(a).rules| == |Seen(b).rules|;
      forall i | 0 <= i < |a.rules| ensures a.rules[i].(scope := "") == b.rules[i].(scope := "") {
        assert Seen(a).rules[i] == Seen(b).rules[i];
      }
    } else if |a.rules| == |b.rules| && forall i :: 0 <= i < |a.rules| ==> a.rules[i].(scope := "") == b.rules[i].(scope := "") {
      assert Seen(a).rules == Seen(b).rules;
    }
  }

  lemma EqualIsSeenEqual(a: Webhook, b: Webhook)
    ensures a.name == b.name && EntryEqual(a, b) <==> Seen(a) == Seen(b)
  {
    SeenInFields(a, b);
  }

  /**
   The entry asked for is left unwritten if and only if the one of its name that is there
   differs from it, and in nothing but the client configuration and the scopes of rules. A
   change of the number of rules, of any rule's groups, versions, resources or operations, or
   of either selector is written.
   */
  lemma UnwrittenExactly(c: Content<seq<Webhook>>, entry: Webhook)
    requires DistinctNames(Entries(c))
    ensures entry !in Entries(Alone(c, CallOf(Upsert(entry, false)))) <==>
      exists w :: w in Entries(c) && w != entry && Seen(w) == Seen(entry)
  {
    WrittenExactlyUnlessTakenForEqual(c, Upsert(entry, false));
    forall w | w in Entries(c) ensures (w.name == entry.name && EntryEqual(w, entry)) <==> Seen(w) == Seen(entry) {
      EqualIsSeenEqual(w, entry);
    }
  }

  /** A change of the callback (a renewed certificate, say) alone stays unapplied. */
  lemma CallbackChangeIsIgnored(webhooks: seq<Webhook>, entry: Webhook, callback: string)
    requires DistinctNames(webhooks) && entry in webhooks && callback != entry.clientConfig
    ensures var asked := entry.(clientConfig := callback);
      asked !in Entries(Alone(Present(webhooks), CallOf(Upsert(asked, false))))
  {
    var asked := entry.(clientConfig := callback);
    assert EntryEqual(entry, asked);
    WrittenExactlyUnlessTakenForEqual(Present(webhooks), Upsert(asked, false));
  }

  /** So does a change of the scope of a rule alone. */
  lemma ScopeChangeIsIgnored(webhooks: seq<Webhook>, entry: Webhook, i: nat, scope: string)
    requires DistinctNames(webhooks) && entry in webhooks && i < |entry.rules| && scope != entry.rules[i].scope
    ensures var asked := entry.(rules := entry.rules[i := entry.rules[i].(scope := scope)]);
      asked !in Entries(Alone(Present(webhooks), CallOf(Upsert(asked, false))))
  {
    var asked := entry.(rules := entry.rules[i := entry.rules[i].(scope := scope)]);
    assert asked.rules[i] != entry.rules[i];
    assert EntryEqual(entry, asked);
    WrittenExactlyUnlessTakenForEqual(Present(webhooks), Upsert(asked, false));
  }
}
