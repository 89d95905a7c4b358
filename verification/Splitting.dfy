/**
 Multi-document files: a file is the concatenation of its documents with the separator
 "\n---\n" between them. Split and Join are bytes.Split and bytes.Join on that separator.
 */
module Splitting {
  import opened Common

  const SEPARATOR: Bytes := [NL, DASH, DASH, DASH, NL]

  /** The line that separates documents, without the newline before it and without the one behind it. */
  const RULE_LINE: Bytes := [DASH, DASH, DASH, NL]
  const RULE: Bytes := [NL, DASH, DASH, DASH]

  predicate SeparatorAt(s: Bytes, i: int) {
    && 0 <= i <= |s| - 5
    && s[i] == NL && s[i + 1] == DASH && s[i + 2] == DASH && s[i + 3] == DASH && s[i + 4] == NL
  }

  ghost predicate SeparatorFree(s: Bytes) {
    forall i :: !SeparatorAt(s, i)
  }

  /** s ends in "\n---": one more newline would complete a separator. */
  predicate EndsInRule(s: Bytes) {
    && |s| >= 4
    && s[|s| - 4] == NL && s[|s| - 3] == DASH && s[|s| - 2] == DASH && s[|s| - 1] == DASH
  }

  /** Bytes that stay one document whatever follows them behind a separator. */
  ghost predicate Closed(s: Bytes) {
    SeparatorFree(s) && !EndsInRule(s)
  }

  function IndexFrom(s: Bytes, from: nat): (r: Option<nat>)
    requires from <= |s|
    ensures r.None? ==> forall i :: from <= i ==> !SeparatorAt(s, i)
    ensures r.Some? ==> from <= r.value && SeparatorAt(s, r.value)
    ensures r.Some? ==> forall i :: from <= i < r.value ==> !SeparatorAt(s, i)
    decreases |s| - from
  {
    if SeparatorAt(s, from) then Some(from)
    else if from == |s| then None
    else IndexFrom(s, from + 1)
  }

  function Split(s: Bytes): (docs: seq<Bytes>)
    ensures |docs| > 0
    decreases |s|
  {
    match IndexFrom(s, 0)
    case None => [s]
    case Some(i) => [s[..i]] + Split(s[i + 5..])
  }

  function Join(docs: seq<Bytes>): Bytes {
    if |docs| == 0 then []
    else if |docs| == 1 then docs[0]
    else docs[0] + SEPARATOR + Join(docs[1..])
  }

  // ---------- splitting, then joining ----------

  lemma {:induction false} JoinSplit(s: Bytes)
    ensures Join(Split(s)) == s
    decreases |s|
  {
    match IndexFrom(s, 0)
    case None =>
    case Some(i) =>
      JoinSplit(s[i + 5..]);
      assert Split(s)[1..] == Split(s[i + 5..]);
      assert s[i..i + 5] == SEPARATOR;
      assert s == s[..i] + s[i..i + 5] + s[i + 5..];
  }

  /** The documents that Split can produce. */
  ghost predicate WellSeparated(docs: seq<Bytes>) {
    && (forall i :: 0 <= i < |docs| ==> SeparatorFree(docs[i]))
    && (forall i :: 0 <= i < |docs| - 1 ==> !EndsInRule(docs[i]))
  }

  lemma {:induction false} SplitWellSeparated(s: Bytes)
    ensures WellSeparated(Split(s))
    decreases |s|
  {
    match IndexFrom(s, 0)
    case None => assert SeparatorFree(s);
    case Some(i) =>
      SplitWellSeparated(s[i + 5..]);
      var d := s[..i];
      assert forall j :: SeparatorAt(d, j) ==> SeparatorAt(s, j);
      assert EndsInRule(d) ==> SeparatorAt(s, i - 4);
  }

  // ---------- joining, then splitting ----------

  lemma SplitOne(d: Bytes)
    ensures Split(d) == [d] <==> SeparatorFree(d)
  {
    assert SeparatorFree(d) <==> IndexFrom(d, 0).None?;
    assert IndexFrom(d, 0).Some? ==> |Split(d)| > 1;
  }

  lemma SplitFirst(d: Bytes, rest: Bytes)
    requires Closed(d)
    ensures Split(d + SEPARATOR + rest) == [d] + Split(rest)
  {
    var s := d + SEPARATOR + rest;
    assert SeparatorAt(s, |d|);
    // The separator overlaps itself only in its first and last byte.
    assert forall j :: 0 <= j < |d| && SeparatorAt(s, j) ==> SeparatorAt(d, j) || EndsInRule(d);
    assert IndexFrom(s, 0) == Some(|d|);
    assert s[..|d|] == d && s[|d| + 5..] == rest;
  }

  ghost predicate AllClosed(docs: seq<Bytes>) {
    forall i :: 0 <= i < |docs| ==> Closed(docs[i])
  }

  /** Closed documents in front of any tail are split off unchanged. */
  lemma {:induction false} SplitTail(docs: seq<Bytes>, tail: Bytes)
    requires AllClosed(docs)
    ensures Split(Join(docs + [tail])) == docs + Split(tail)
    decreases |docs|
  {
    if docs == [] {
      assert docs + [tail] == [tail];
      assert docs + Split(tail) == Split(tail);
    } else {
      var rest := docs[1..];
      assert docs == [docs[0]] + rest;
      assert AllClosed(rest);
      SplitTail(rest, tail);
      ConcatCons(docs, [tail]);
      SplitFirst(docs[0], Join(rest + [tail]));
      ConcatAssociative([docs[0]], rest, Split(tail));
    }
  }

  /**
   Joining and then splitting gives the documents back exactly when none of them holds a
   separator and none but the last would complete one together with the separator behind it.
   */
  lemma {:induction false} SplitJoin(docs: seq<Bytes>)
    requires |docs| > 0
    ensures Split(Join(docs)) == docs <==> WellSeparated(docs)
  {
    if WellSeparated(docs) {
      var last := |docs| - 1;
      SplitTail(docs[..last], docs[last]);
      assert docs[..last] + [docs[last]] == docs;
      SplitOne(docs[last]);
    } else {
      SplitWellSeparated(Join(docs));
    }
  }

  lemma {:induction false} JoinLast(docs: seq<Bytes>, last: Bytes, suffix: Bytes)
    ensures Join(docs + [last]) + suffix == Join(docs + [last + suffix])
    decreases |docs|
  {
    if docs == [] {
      assert docs + [last] == [last] && docs + [last + suffix] == [last + suffix];
    } else {
      JoinLast(docs[1..], last, suffix);
      assert (docs + [last])[1..] == docs[1..] + [last];
      assert (docs + [last + suffix])[1..] == docs[1..] + [last + suffix];
    }
  }

  /** The final newline that every rewritten file ends in. */
  function WithFinalNewline(s: Bytes): Bytes {
    if |s| > 0 && s[|s| - 1] != NL then s + [NL] else s
  }

  lemma {:induction false} JoinEnd(docs: seq<Bytes>, last: Bytes)
    ensures last != [] ==> HasSuffix(Join(docs + [last]), last)
    ensures last == [] && docs != [] ==> HasSuffix(Join(docs + [last]), SEPARATOR)
    decreases |docs|
  {
    if docs == [] {
      assert docs + [last] == [last];
    } else {
      JoinEnd(docs[1..], last);
      assert (docs + [last])[1..] == docs[1..] + [last];
      if docs[1..] == [] { assert Join([last]) == last; }
    }
  }

  /** The final newline lands on the last document, and only when that one lacks it. */
  lemma FinalNewlineOnLast(docs: seq<Bytes>, last: Bytes)
    ensures WithFinalNewline(Join(docs + [last])) == Join(docs + [WithFinalNewline(last)])
  {
    JoinEnd(docs, last);
    if last == [] {
      if docs == [] { assert docs + [last] == [last]; }
    } else {
      var j := Join(docs + [last]);
      assert j[|j| - 1] == last[|last| - 1];
      JoinLast(docs, last, [NL]);
    }
  }

  lemma FinalNewlineSplit(d: Bytes)
    requires SeparatorFree(d)
    ensures Split(WithFinalNewline(d)) == [WithFinalNewline(d)] <==> !EndsInRule(d)
    ensures !EndsInRule(d) ==> SeparatorFree(WithFinalNewline(d))
  {
    SplitOne(WithFinalNewline(d));
    var e := d + [NL];
    assert forall j :: SeparatorAt(e, j) ==> SeparatorAt(d, j) || EndsInRule(d);
    if EndsInRule(d) { assert SeparatorAt(e, |d| - 4); }
  }

  /** What stands in front of the "---" line that s ends in. */
  function BeforeRule(s: Bytes): Bytes
    requires EndsInRule(s)
  {
    s[..|s| - 4]
  }

  /** The newline completes the separator: the line becomes the end of a document with nothing behind it. */
  lemma SplitRule(d: Bytes)
    requires SeparatorFree(d) && EndsInRule(d)
    ensures Closed(BeforeRule(d))
    ensures Split(WithFinalNewline(d)) == [BeforeRule(d), []]
  {
    var head := BeforeRule(d);
    assert forall j :: SeparatorAt(head, j) ==> SeparatorAt(d, j);
    assert EndsInRule(head) ==> SeparatorAt(d, |head| - 4);
    assert WithFinalNewline(d) == head + SEPARATOR + [];
    SplitFirst(head, []);
    SplitOne([]);
  }
}
