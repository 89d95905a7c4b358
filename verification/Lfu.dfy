/** The count-bounded least-frequently-used cache (internal/cache/lfu.go). */
module Lfu {
  import opened Common

  const USE_COUNT_CAP: nat := 0x1_0000

  datatype Entry<V> = Entry(value: V, useCount: nat)

  type Entries<K, V> = map<K, Entry<V>>

  // ---------- the two pieces of bookkeeping ----------

  /** useCount++ on one entry; when that reaches the cap, every counter is halved. */
  function Touched<K, V>(m: Entries<K, V>, key: K): Entries<K, V>
    requires key in m
  {
    var bumped := m[key := m[key].(useCount := m[key].useCount + 1)];
    if Ages(m, key) then map k | k in bumped :: bumped[k].(useCount := bumped[k].useCount / 2) else bumped
  }

  /** Touching this entry halves the counters. */
  predicate Ages<K, V>(m: Entries<K, V>, key: K)
    requires key in m
  {
    m[key].useCount + 1 >= USE_COUNT_CAP
  }

  /** victim may be evicted: it is not the entry just stored and no other candidate is used less. */
  ghost predicate LeastUsed<K, V>(m: Entries<K, V>, except: K, victim: K) {
    && victim in m && victim != except
    && forall k :: k in m && k != except ==> m[victim].useCount <= m[k].useCount
  }

  /** Some key of any selection is used least. */
  lemma {:induction false} LeastUsedOf<K(!new), V>(m: Entries<K, V>, keys: set<K>) returns (least: K)
    requires keys != {} && keys <= m.Keys
    ensures least in keys && forall k :: k in keys ==> m[least].useCount <= m[k].useCount
    decreases |keys|
  {
    least :| least in keys;
    if keys != {least} {
      var other := LeastUsedOf(m, keys - {least});
      if m[other].useCount < m[least].useCount { least := other; }
    }
  }

  /** What storing an entry that was not there may leave, whatever order the map is walked in. */
  ghost predicate Inserted<K(!new), V>(m: Entries<K, V>, max: nat, key: K, value: V, after: Entries<K, V>) {
    var stored := Touched(m[key := Entry(value, 0)], key);
    if |m| < max then after == stored
    else exists victim :: LeastUsed(stored, key, victim) && after == stored - {victim}
  }

  datatype Op<K, V> = Get(key: K) | Set(key: K, value: V) | LoadOrStore(key: K, value: V) | Delete(key: K)

  /** One operation on a cache of capacity max; reply is the value found, or None when there was none. */
  ghost predicate Step<K(!new), V>(m: Entries<K, V>, max: nat, op: Op<K, V>, reply: Option<V>, after: Entries<K, V>) {
    match op
    case Get(key) =>
      if key in m then reply == Some(m[key].value) && after == Touched(m, key) else reply == None && after == m
    case Set(key, value) =>
      && reply == None
      && if key in m then after == Touched(m[key := m[key].(value := value)], key) else Inserted(m, max, key, value, after)
    case LoadOrStore(key, value) =>
      if key in m then reply == Some(m[key].value) && after == Touched(m, key)
      else reply == None && Inserted(m, max, key, value, after)
    case Delete(key) =>
      reply == None && after == m - {key}
  }

  class LFU<K(==,!new), V> {
    const max: nat
    var entries: Entries<K, V>

    ghost predicate Valid()
      reads this
    {
      && 0 < max && |entries| <= max
      && forall k :: k in entries ==> entries[k].useCount < USE_COUNT_CAP
    }

    constructor (max: nat)
      requires 0 < max
      ensures Valid() && this.max == max && entries == map[]
    {
      this.max := max;
      entries := map[];
    }

    method Get(key: K) returns (r: Option<V>)
      requires Valid()
      modifies this
      ensures Valid()
      ensures Step(old(entries), max, Op.Get(key), r, entries)
    {
      if key !in entries {
        return None;
      }
      Touch(key);
      return Some(entries[key].value);
    }

    method Set(key: K, value: V)
      requires Valid()
      modifies this
      ensures Valid() && key in entries && entries[key].value == value
      ensures Step(old(entries), max, Op.Set(key, value), None, entries)
    {
      if key in entries {
        entries := entries[key := entries[key].(value := value)];
        Touch(key);
        return;
      }
      Insert(key, value);
    }

    method LoadOrStore(key: K, value: V) returns (r: V, loaded: bool)
      requires Valid()
      modifies this
      ensures Valid() && key in entries && entries[key].value == r
      ensures loaded == (key in old(entries)) && (!loaded ==> r == value)
      ensures Step(old(entries), max, Op.LoadOrStore(key, value), if loaded then Some(r) else None, entries)
    {
      if key in entries {
        Touch(key);
        return entries[key].value, true;
      }
      Insert(key, value);
      return value, false;
    }

    method Delete(key: K)
      requires Valid()
      modifies this
      ensures Valid()
      ensures Step(old(entries), max, Op.Delete(key), None, entries)
    {
      entries := entries - {key};
    }

    method Insert(key: K, value: V)
      requires Valid() && key !in entries
      modifies this
      ensures Valid() && key in entries && entries[key].value == value
      ensures Inserted(old(entries), max, key, value, entries)
    {
      ghost var before := entries;
      entries := entries[key := Entry(value, 0)];
      assert entries.Keys == before.Keys + {key};
      Touch(key);
      Evict(key);
    }

    /** touchLocked; the caller may hold one entry more than the capacity. */
    method Touch(key: K)
      requires key in entries
      modifies this
      ensures entries == Touched(old(entries), key)
      ensures entries.Keys == old(entries).Keys && |entries| == |old(entries)|
      ensures (forall k :: k in old(entries) ==> old(entries)[k].useCount < USE_COUNT_CAP)
          ==> forall k :: k in entries ==> entries[k].useCount < USE_COUNT_CAP
    {
      entries := entries[key := entries[key].(useCount := entries[key].useCount + 1)];
      if entries[key].useCount >= USE_COUNT_CAP {
        ghost var bumped := entries;
        var todo := entries.Keys;
        while todo != {}
          invariant todo <= bumped.Keys == entries.Keys
          invariant forall k :: k in bumped ==>
            entries[k] == if k in todo then bumped[k] else bumped[k].(useCount := bumped[k].useCount / 2)
          decreases |todo|
        {
          var other :| other in todo;
          entries := entries[other := entries[other].(useCount := entries[other].useCount / 2)];
          todo := todo - {other};
        }
        assert entries == map k | k in bumped :: bumped[k].(useCount := bumped[k].useCount / 2);
      }
      assert entries.Keys == old(entries).Keys;
      assert |entries| == |entries.Keys|;
    }

    /** evictLocked, called with at most one entry too many. */
    method Evict(except: K)
      requires 0 < max && except in entries && |entries| <= max + 1
      modifies this
      ensures |entries| <= max
      ensures |old(entries)| <= max ==> entries == old(entries)
      ensures |old(entries)| > max ==>
        exists victim :: LeastUsed(old(entries), except, victim) && entries == old(entries) - {victim}
    {
      while |entries| > max
        invariant |old(entries)| <= max ==> entries == old(entries)
        invariant |entries| > max ==> entries == old(entries)
        invariant |old(entries)| > max && |entries| <= max ==>
          exists victim :: LeastUsed(old(entries), except, victim) && entries == old(entries) - {victim}
        decreases |entries|
      {
        var victim: Option<K> := None;
        var todo := entries.Keys - {except};
        while todo != {}
          invariant todo <= entries.Keys - {except}
          invariant victim.None? ==> todo == entries.Keys - {except}
          invariant victim.Some? ==> victim.value in entries && victim.value != except
          invariant victim.Some? ==> forall k :: k in entries && k != except ==>
            k in todo || entries[victim.value].useCount <= entries[k].useCount
          decreases |todo|
        {
          var k :| k in todo;
          if victim.None? || entries[k].useCount < entries[victim.value].useCount {
            victim := Some(k);
          }
          todo := todo - {k};
        }
        if victim.None? {
          return;
        }
        assert LeastUsed(entries, except, victim.value);
        assert (entries - {victim.value}).Keys == entries.Keys - {victim.value};
        assert |entries - {victim.value}| == |entries| - 1;
        entries := entries - {victim.value};
      }
    }
  }

  // ---------- every run of operations, starting from an empty cache ----------

  ghost predicate IsRun<K(!new), V>(max: nat, ops: seq<Op<K, V>>, replies: seq<Option<V>>, states: seq<Entries<K, V>>) {
    && 0 < max
    && |replies| == |ops| && |states| == |ops| + 1
    && states[0] == map[]
    && forall i :: 0 <= i < |ops| ==> StepOf(max, ops, replies, states, i)
  }

  ghost predicate StepOf<K(!new), V>(max: nat, ops: seq<Op<K, V>>, replies: seq<Option<V>>, states: seq<Entries<K, V>>, i: int)
    requires 0 <= i < |ops| == |replies| && |states| == |ops| + 1
  {
    Step(states[i], max, ops[i], replies[i], states[i + 1])
  }

  /** The value the first n operations last stored under key and did not delete since, eviction or not. */
  function LastStored<K(==), V>(ops: seq<Op<K, V>>, replies: seq<Option<V>>, n: nat, key: K): Option<V>
    requires n <= |ops| == |replies|
  {
    if n == 0 then None
    else
      var before := LastStored(ops, replies, n - 1, key);
      match ops[n - 1]
      case Get(_) => before
      case Set(k, v) => if k == key then Some(v) else before
      case LoadOrStore(k, v) => if k == key && replies[n - 1].None? then Some(v) else before
      case Delete(k) => if k == key then None else before
  }

  /** The operation bumps a counter: every store does, and every hit. */
  predicate Touches<K, V>(m: Entries<K, V>, op: Op<K, V>) {
    op.Set? || op.LoadOrStore? || (op.Get? && op.key in m)
  }

  predicate Halves<K, V>(m: Entries<K, V>, op: Op<K, V>) {
    Touches(m, op) && op.key in m && Ages(m, op.key)
  }

  /** How many of the first n operations bumped a counter. */
  function TouchCount<K, V>(ops: seq<Op<K, V>>, states: seq<Entries<K, V>>, n: nat): nat
    requires n <= |ops| < |states|
  {
    if n == 0 then 0
    else TouchCount(ops, states, n - 1) + (if Touches(states[n - 1], ops[n - 1]) then 1 else 0)
  }

  /** How many of the first n operations halved the counters. */
  function HalvingCount<K, V>(ops: seq<Op<K, V>>, states: seq<Entries<K, V>>, n: nat): nat
    requires n <= |ops| < |states|
  {
    if n == 0 then 0
    else HalvingCount(ops, states, n - 1) + (if Halves(states[n - 1], ops[n - 1]) then 1 else 0)
  }

  ghost predicate Bounded<K(!new), V>(m: Entries<K, V>, max: nat) {
    |m| <= max && forall k :: k in m ==> m[k].useCount < USE_COUNT_CAP
  }

  lemma StepKeepsBounds<K(!new), V>(m: Entries<K, V>, max: nat, op: Op<K, V>, reply: Option<V>, after: Entries<K, V>)
    requires 0 < max && Bounded(m, max) && Step(m, max, op, reply, after)
    ensures Bounded(after, max)
  {
    match op
    case Get(key) =>
      if key in m { assert after.Keys == m.Keys; SameSize(after, m); }
    case Set(key, value) =>
      if key in m { assert after.Keys == m.Keys; SameSize(after, m); } else { InsertKeepsBounds(m, max, key, value, after); }
    case LoadOrStore(key, value) =>
      if key in m { assert after.Keys == m.Keys; SameSize(after, m); } else { InsertKeepsBounds(m, max, key, value, after); }
    case Delete(key) =>
      assert after.Keys == m.Keys - {key};
      assert |after| == |after.Keys| && |m| == |m.Keys|;
  }

  lemma SameSize<K, V, W>(a: map<K, V>, b: map<K, W>)
    requires a.Keys == b.Keys
    ensures |a| == |b|
  {
    assert |a| == |a.Keys| && |b| == |b.Keys|;
  }

  lemma OneMore<K, V>(m: map<K, V>, stored: map<K, V>, key: K)
    requires key !in m && stored.Keys == m.Keys + {key}
    ensures |stored| == |m| + 1
  {
    assert |m| == |m.Keys| && |stored| == |stored.Keys|;
  }

  lemma OneLess<K, V>(m: map<K, V>, key: K)
    requires key in m
    ensures |m - {key}| == |m| - 1
  {
    assert (m - {key}).Keys == m.Keys - {key};
    assert |m| == |m.Keys| && |m - {key}| == |(m - {key}).Keys|;
  }

  lemma TouchKeepsCounts<K, V>(m: Entries<K, V>, key: K)
    requires key in m && forall k :: k in m ==> m[k].useCount < USE_COUNT_CAP
    ensures Touched(m, key).Keys == m.Keys
    ensures forall k :: k in m ==> Touched(m, key)[k].useCount < USE_COUNT_CAP
  {
  }

  lemma InsertKeepsBounds<K(!new), V>(m: Entries<K, V>, max: nat, key: K, value: V, after: Entries<K, V>)
    requires 0 < max && Bounded(m, max) && key !in m && Inserted(m, max, key, value, after)
    ensures Bounded(after, max)
  {
    var added := m[key := Entry(value, 0)];
    TouchKeepsCounts(added, key);
    var stored := Touched(added, key);
    OneMore(m, stored, key);
    if |m| == max {
      var victim :| LeastUsed(stored, key, victim) && after == stored - {victim};
      OneLess(stored, victim);
    }
  }

  /** Counters are paid for by touches. */
  ghost predicate Paid<K(!new), V>(m: Entries<K, V>, touches: nat, halvings: nat) {
    && (forall k :: k in m ==> m[k].useCount + halvings * (USE_COUNT_CAP / 2) <= touches)
    && halvings * (USE_COUNT_CAP / 2) <= touches
    && (halvings >= 1 ==> (halvings + 1) * (USE_COUNT_CAP / 2) <= touches)
  }

  ghost predicate HoldsLastStored<K(!new), V>(ops: seq<Op<K, V>>, replies: seq<Option<V>>, n: nat, m: Entries<K, V>)
    requires n <= |ops| == |replies|
  {
    forall k :: k in m ==> LastStored(ops, replies, n, k) == Some(m[k].value)
  }

  /** Every counter and what the halvings took away is covered by the touches. */
  ghost predicate Covered<K(!new), V>(m: Entries<K, V>, touches: nat, debt: nat) {
    debt <= touches && forall k :: k in m ==> m[k].useCount + debt <= touches
  }

  lemma TouchCovers<K(!new), V>(m: Entries<K, V>, key: K, touches: nat, debt: nat)
    requires key in m && !Ages(m, key) && Covered(m, touches, debt)
    ensures Covered(Touched(m, key), touches + 1, debt)
  {
  }

  /** A halving takes 32768 from the largest counter, and leaves at most that much of any. */
  lemma AgingCovers<K(!new), V>(m: Entries<K, V>, key: K, touches: nat, debt: nat)
    requires key in m && Ages(m, key) && Covered(m, touches, debt)
    requires forall k :: k in m ==> m[k].useCount < USE_COUNT_CAP
    ensures Covered(Touched(m, key), touches + 1, debt + USE_COUNT_CAP / 2)
    ensures debt + USE_COUNT_CAP <= touches + 1
  {
    assert m[key].useCount == USE_COUNT_CAP - 1;
  }

  lemma TouchPays<K(!new), V>(m: Entries<K, V>, key: K, touches: nat, halvings: nat)
    requires key in m && Paid(m, touches, halvings) && forall k :: k in m ==> m[k].useCount < USE_COUNT_CAP
    ensures Paid(Touched(m, key), touches + 1, halvings + (if Ages(m, key) then 1 else 0))
  {
    var debt := halvings * (USE_COUNT_CAP / 2);
    assert Covered(m, touches, debt);
    if Ages(m, key) {
      AgingCovers(m, key, touches, debt);
      assert (halvings + 1) * (USE_COUNT_CAP / 2) == debt + USE_COUNT_CAP / 2;
      assert (halvings + 2) * (USE_COUNT_CAP / 2) == debt + USE_COUNT_CAP;
    } else {
      TouchCovers(m, key, touches, debt);
    }
  }

  lemma InsertPays<K(!new), V>(m: Entries<K, V>, max: nat, key: K, value: V, after: Entries<K, V>, touches: nat, halvings: nat)
    requires Bounded(m, max) && key !in m && Inserted(m, max, key, value, after) && Paid(m, touches, halvings)
    ensures Paid(after, touches + 1, halvings)
  {
    var stored := m[key := Entry(value, 0)];
    assert Paid(stored, touches, halvings);
    TouchPays(stored, key, touches, halvings);
    assert forall k :: k in after ==> k in Touched(stored, key) && after[k] == Touched(stored, key)[k];
  }

  lemma StepPays<K(!new), V>(m: Entries<K, V>, max: nat, op: Op<K, V>, reply: Option<V>, after: Entries<K, V>,
                             touches: nat, halvings: nat)
    requires 0 < max && Bounded(m, max) && Step(m, max, op, reply, after)
    requires Paid(m, touches, halvings)
    ensures Paid(after, touches + (if Touches(m, op) then 1 else 0), halvings + (if Halves(m, op) then 1 else 0))
  {
    match op
    case Get(key) => if key in m { TouchPays(m, key, touches, halvings); }
    case Set(key, value) =>
      if key in m {
        var updated := m[key := m[key].(value := value)];
        assert Paid(updated, touches, halvings);
        TouchPays(updated, key, touches, halvings);
      } else {
        InsertPays(m, max, key, value, after, touches, halvings);
      }
    case LoadOrStore(key, value) =>
      if key in m { TouchPays(m, key, touches, halvings); } else { InsertPays(m, max, key, value, after, touches, halvings); }
    case Delete(_) =>
  }

  lemma StepHoldsLastStored<K(!new), V>(ops: seq<Op<K, V>>, replies: seq<Option<V>>, n: nat,
                                        m: Entries<K, V>, max: nat, after: Entries<K, V>)
    requires n < |ops| == |replies|
    requires HoldsLastStored(ops, replies, n, m)
    requires Step(m, max, ops[n], replies[n], after)
    ensures HoldsLastStored(ops, replies, n + 1, after)
  {
    forall k | k in after ensures LastStored(ops, replies, n + 1, k) == Some(after[k].value) {
      if k in m { assert LastStored(ops, replies, n, k) == Some(m[k].value); }
    }
  }

  /** Everything the first n operations of a run establish about the cache they leave. */
  ghost predicate Good<K(!new), V>(max: nat, ops: seq<Op<K, V>>, replies: seq<Option<V>>, states: seq<Entries<K, V>>, n: nat)
    requires n <= |ops| == |replies| && |states| == |ops| + 1
  {
    && Bounded(states[n], max)
    && HoldsLastStored(ops, replies, n, states[n])
    && Paid(states[n], TouchCount(ops, states, n), HalvingCount(ops, states, n))
  }

  lemma GoodStart<K(!new), V>(max: nat, ops: seq<Op<K, V>>, replies: seq<Option<V>>, states: seq<Entries<K, V>>)
    requires |ops| == |replies| && |states| == |ops| + 1 && states[0] == map[]
    ensures Good(max, ops, replies, states, 0)
  {
  }

  lemma GoodStep<K(!new), V>(max: nat, ops: seq<Op<K, V>>, replies: seq<Option<V>>, states: seq<Entries<K, V>>, n: nat)
    requires 0 < max && n < |ops| == |replies| && |states| == |ops| + 1
    requires Good(max, ops, replies, states, n)
    requires StepOf(max, ops, replies, states, n)
    ensures Good(max, ops, replies, states, n + 1)
    ensures replies[n].Some? ==> LastStored(ops, replies, n, ops[n].key) == replies[n]
  {
    StepKeepsBounds(states[n], max, ops[n], replies[n], states[n + 1]);
    StepHoldsLastStored(ops, replies, n, states[n], max, states[n + 1]);
    StepPays(states[n], max, ops[n], replies[n], states[n + 1], TouchCount(ops, states, n), HalvingCount(ops, states, n));
  }

  lemma {:induction false} RunIsGood<K(!new), V>(max: nat, ops: seq<Op<K, V>>, replies: seq<Option<V>>,
                                                 states: seq<Entries<K, V>>, n: nat)
    requires IsRun(max, ops, replies, states) && n <= |ops|
    ensures Good(max, ops, replies, states, n)
  {
    if n == 0 {
      GoodStart(max, ops, replies, states);
    } else {
      var i := n - 1;
      RunIsGood(max, ops, replies, states, i);
      assert StepOf(max, ops, replies, states, i);
      GoodStep(max, ops, replies, states, i);
    }
  }

  /**
   In every run: the cache never exceeds its capacity, every counter stays below 65536, and
   k >= 1 halvings take at least (k + 1) * 32768 touches.
   */
  lemma EveryRunIsBounded<K(!new), V>(max: nat, ops: seq<Op<K, V>>, replies: seq<Option<V>>, states: seq<Entries<K, V>>, n: nat)
    requires IsRun(max, ops, replies, states) && n <= |ops|
    ensures |states[n]| <= max
    ensures forall k :: k in states[n] ==> states[n][k].useCount < 0x1_0000
    ensures var k := HalvingCount(ops, states, n);
      k >= 1 ==> (k + 1) * 0x8000 <= TouchCount(ops, states, n)
  {
    RunIsGood(max, ops, replies, states, n);
  }

  /** In every run, a lookup that finds something finds the value last stored and not deleted since. */
  lemma EveryHitIsLastStored<K(!new), V>(max: nat, ops: seq<Op<K, V>>, replies: seq<Option<V>>, states: seq<Entries<K, V>>, i: nat)
    requires IsRun(max, ops, replies, states) && i < |ops|
    requires replies[i].Some?
    ensures LastStored(ops, replies, i, ops[i].key) == replies[i]
  {
    RunIsGood(max, ops, replies, states, i);
    GoodStep(max, ops, replies, states, i);
  }

  /**
   Storing a new key in a full cache evicts exactly one entry: never the new one, and one
   whose counter is least among the entries that were there; all others stay as they were.
   In a cache with room nothing is evicted.
   */
  lemma FullInsertEvictsLeastUsed<K(!new), V>(m: Entries<K, V>, max: nat, key: K, value: V, after: Entries<K, V>)
    requires 0 < max && Bounded(m, max) && key !in m
    requires Step(m, max, Op.Set(key, value), None, after) || Step(m, max, Op.LoadOrStore(key, value), None, after)
    ensures |m| < max ==> after == m[key := Entry(value, 1)]
    ensures |m| == max ==>
      exists victim :: IsEvicted(m, victim) && victim !in after && after == m[key := Entry(value, 1)] - {victim}
  {
    var stored := Touched(m[key := Entry(value, 0)], key);
    assert stored == m[key := Entry(value, 1)];
    if |m| == max {
      var victim :| LeastUsed(stored, key, victim) && after == stored - {victim};
      assert forall k :: k in m ==> m[k] == stored[k];
      assert IsEvicted(m, victim);
    }
  }

  ghost predicate IsEvicted<K(!new), V>(m: Entries<K, V>, victim: K) {
    victim in m && forall k :: k in m ==> m[victim].useCount <= m[k].useCount
  }

  /** Aging never inverts the order of two counters. */
  lemma AgingKeepsOrder<K, V>(m: Entries<K, V>, key: K, a: K, b: K)
    requires key in m && Ages(m, key) && a in m && b in m
    requires m[a].useCount + (if a == key then 1 else 0) <= m[b].useCount + (if b == key then 1 else 0)
    ensures Touched(m, key)[a].useCount <= Touched(m, key)[b].useCount
  {
  }

  // ---------- what a counter counts ----------

  /**
   Touching an entry adds one to its counter and leaves the others, until that makes 65536:
   then every counter is halved, rounding down. No value changes and no entry comes or goes.
   */
  lemma TouchInFields<K, V>(m: Entries<K, V>, key: K)
    requires key in m
    ensures Touched(m, key).Keys == m.Keys
    ensures forall k :: k in m ==> Touched(m, key)[k].value == m[k].value
    ensures m[key].useCount < 65535 ==>
      forall k :: k in m ==> Touched(m, key)[k].useCount == m[k].useCount + (if k == key then 1 else 0)
    ensures m[key].useCount == 65535 ==>
      && Touched(m, key)[key].useCount == 32768
      && forall k :: k in m && k != key ==> 2 * Touched(m, key)[k].useCount <= m[k].useCount <= 2 * Touched(m, key)[k].useCount + 1
  {
  }

  /** How many of the first n operations used the entry under key since it was last not there: its storing, every later store and every hit. */
  function Uses<K(==), V>(ops: seq<Op<K, V>>, states: seq<Entries<K, V>>, n: nat, key: K): nat
    requires n <= |ops| < |states|
  {
    if n == 0 || key !in states[n] then 0
    else Uses(ops, states, n - 1, key) + (if ops[n - 1].key == key && !ops[n - 1].Delete? then 1 else 0)
  }

  /** Every counter is at most what a run used its entry for, and exactly that when nothing was halved. */
  ghost predicate Counts<K(!new), V>(m: Entries<K, V>, ops: seq<Op<K, V>>, states: seq<Entries<K, V>>, n: nat, exactly: bool)
    requires n <= |ops| < |states|
  {
    forall k :: k in m ==>
      m[k].useCount <= Uses(ops, states, n, k) && (exactly ==> m[k].useCount == Uses(ops, states, n, k))
  }

  /** One operation on one entry that is there afterwards. */
  lemma StepCounts<K(!new), V>(m: Entries<K, V>, max: nat, op: Op<K, V>, reply: Option<V>, after: Entries<K, V>, key: K)
    requires Bounded(m, max) && Step(m, max, op, reply, after) && key in after
    ensures key !in m ==> op.key == key && !op.Delete? && after[key].useCount == 1
    ensures var used := (if key in m then m[key].useCount else 0) + (if op.key == key && !op.Delete? then 1 else 0);
      after[key].useCount <= used && (!Halves(m, op) ==> after[key].useCount == used)
  {
  }

  /**
   In every run a counter is at most the number of times its entry was used since it was
   stored, and as long as the counters were never halved it is exactly that number. So what
   is evicted then is an entry that was used least.
   */
  lemma {:induction false} CounterCountsUses<K(!new), V>(max: nat, ops: seq<Op<K, V>>, replies: seq<Option<V>>,
                                                         states: seq<Entries<K, V>>, n: nat)
    requires IsRun(max, ops, replies, states) && n <= |ops|
    ensures Counts(states[n], ops, states, n, HalvingCount(ops, states, n) == 0)
  {
    if n > 0 {
      CounterCountsUses(max, ops, replies, states, n - 1);
      RunIsGood(max, ops, replies, states, n - 1);
      assert StepOf(max, ops, replies, states, n - 1);
      var exactly := HalvingCount(ops, states, n) == 0;
      forall k | k in states[n]
        ensures states[n][k].useCount <= Uses(ops, states, n, k) && (exactly ==> states[n][k].useCount == Uses(ops, states, n, k))
      {
        StepCounts(states[n - 1], max, ops[n - 1], replies[n - 1], states[n], k);
      }
    }
  }

  /** Until the first halving, what a full cache drops for a new key was used least of all it held. */
  lemma EvictsWhatWasUsedLeast<K(!new), V>(max: nat, ops: seq<Op<K, V>>, replies: seq<Option<V>>, states: seq<Entries<K, V>>,
                                          n: nat, victim: K)
    requires IsRun(max, ops, replies, states) && n < |ops| && HalvingCount(ops, states, n) == 0
    requires victim in states[n] && victim !in states[n + 1] && !ops[n].Delete?
    ensures ops[n].key !in states[n] && |states[n]| == max
    ensures forall k :: k in states[n] ==> Uses(ops, states, n, victim) <= Uses(ops, states, n, k)
  {
    CounterCountsUses(max, ops, replies, states, n);
    RunIsGood(max, ops, replies, states, n);
    assert StepOf(max, ops, replies, states, n);
    FullInsertEvictsLeastUsed(states[n], max, ops[n].key, ops[n].value, states[n + 1]);
  }
}
