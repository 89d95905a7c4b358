/** In-memory replacement of one document of a file (internal/walker/document.go). */
module Documents {
  import opened Common
  import opened Splitting

  /** The content transform of a syncer, such as SOPS encryption; Verbatim is Go's nil function. */
  datatype Transform = Verbatim | With(run: (Path, Option<Bytes>, Bytes) -> Result<Bytes>)
  {
    function Apply(path: Path, existing: Option<Bytes>, content: Bytes): Result<Bytes> {
      if Verbatim? || |content| == 0 then Ok(content) else run(path, existing, content)
    }
  }

  type Matcher = Bytes -> bool

  datatype Replacement = NoMatch | Rewritten(out: Bytes) | Failed(error: string)

  predicate IsFirstMatch(docs: seq<Bytes>, matches: Matcher, m: nat) {
    && m < |docs|
    && matches(docs[m])
    && forall i :: 0 <= i < m ==> !matches(docs[i])
  }

  function FirstMatch(docs: seq<Bytes>, matches: Matcher): (r: Option<nat>)
    ensures r.Some? ==> IsFirstMatch(docs, matches, r.value)
    ensures r.None? ==> forall d :: d in docs ==> !matches(d)
  {
    if docs == [] then None
    else if matches(docs[0]) then Some(0)
    else match FirstMatch(docs[1..], matches)
      case None => None
      case Some(m) => Some(m + 1)
  }

  lemma FirstMatchIs(docs: seq<Bytes>, matches: Matcher, m: nat)
    requires IsFirstMatch(docs, matches, m)
    ensures FirstMatch(docs, matches) == Some(m)
  {
    assert docs[m] in docs;
  }

  function Without(docs: seq<Bytes>, m: nat): seq<Bytes>
    requires m < |docs|
  {
    docs[..m] + docs[m + 1..]
  }

  /** A rewritten file: the documents joined, ending in a newline unless nothing is left. */
  function Merged(docs: seq<Bytes>): Bytes {
    WithFinalNewline(Join(docs))
  }

  /** What replacing (or, for an empty newDoc, dropping) the first matching document yields. */
  function Replace(content: Bytes, matches: Matcher, newDoc: Bytes, path: Path, transform: Transform): Replacement {
    var docs := Split(content);
    match FirstMatch(docs, matches)
    case None => NoMatch
    case Some(m) =>
      if newDoc == [] then Rewritten(Merged(Without(docs, m)))
      else
        match transform.Apply(path, Some(docs[m]), newDoc)
        case Err(e) => Failed(e)
        case Ok(stored) => Rewritten(Merged(docs[m := TrimNewlines(stored)]))
  }

  /** The index of the first matching document, or -1. */
  method IndexOfMatch(docs: seq<Bytes>, matches: Matcher) returns (matched: int)
    ensures -1 <= matched < |docs|
    ensures matched >= 0 ==> IsFirstMatch(docs, matches, matched) && FirstMatch(docs, matches) == Some(matched)
    ensures matched == -1 ==> FirstMatch(docs, matches) == None && forall d :: d in docs ==> !matches(d)
  {
    for i := 0 to |docs|
      invariant forall j :: 0 <= j < i ==> !matches(docs[j])
    {
      if matches(docs[i]) {
        FirstMatchIs(docs, matches, i);
        return i;
      }
    }
    return -1;
  }

  method ReplaceDocInContentFunc(content: Bytes, matches: Matcher, newDoc: Bytes, path: Path, transform: Transform)
    returns (r: Replacement)
    ensures r == Replace(content, matches, newDoc, path, transform)
    ensures r.NoMatch? <==> forall d :: d in Split(content) ==> !matches(d)
  {
    var docs := Split(content);
    var matched := IndexOfMatch(docs, matches);
    if matched == -1 {
      return NoMatch;
    }
    assert docs[matched] in docs;
    ReplaceIs(content, matches, newDoc, path, transform, matched);
    if |newDoc| == 0 {
      docs := docs[..matched] + docs[matched + 1..];
    } else {
      var transformed := transform.Apply(path, Some(docs[matched]), newDoc);
      if transformed.Err? {
        return Failed(transformed.error);
      }
      docs := docs[matched := TrimNewlines(transformed.value)];
    }
    var merged := JoinDocs(docs);
    return Rewritten(merged);
  }

  method JoinDocs(docs: seq<Bytes>) returns (merged: Bytes)
    ensures merged == Merged(docs)
  {
    merged := Join(docs);
    if |merged| > 0 && merged[|merged| - 1] != NL {
      merged := merged + [NL];
    }
  }

  // ---------- what a rewritten file splits into ----------

  /** Re-reading a rewritten file gives its documents back, only the last one touched. */
  lemma MergedSplit(docs: seq<Bytes>)
    requires |docs| > 0
    requires AllClosed(docs[..|docs| - 1])
    ensures var last := |docs| - 1;
      && Split(Merged(docs)) == docs[..last] + Split(WithFinalNewline(docs[last]))
      && Merged(docs) == Join(docs[..last] + [WithFinalNewline(docs[last])])
  {
    var last := |docs| - 1;
    assert docs == docs[..last] + [docs[last]];
    FinalNewlineOnLast(docs[..last], docs[last]);
    SplitTail(docs[..last], WithFinalNewline(docs[last]));
  }

  /** The documents of a rewritten file as they are read again. */
  function Reread(docs: seq<Bytes>): seq<Bytes>
    requires docs != []
  {
    var last := |docs| - 1;
    docs[..last] + (if EndsInRule(docs[last]) then [BeforeRule(docs[last]), []] else [WithFinalNewline(docs[last])])
  }

  /** Only a last document that ends in a "---" line is read again as something else. */
  lemma RereadIs(docs: seq<Bytes>)
    requires WellSeparated(docs) && docs != []
    ensures Split(Merged(docs)) == Reread(docs)
  {
    var last := |docs| - 1;
    MergedSplit(docs);
    if EndsInRule(docs[last]) { SplitRule(docs[last]); } else { FinalNewlineSplit(docs[last]); }
  }

  /**
   after is docs with d in the place of document m. Every other document is there byte for
   byte and in order; the last one may have gained the final newline, and is one document
   still exactly when it does not end in a "---" line that the newline completes.
   */
  ghost predicate Edited(docs: seq<Bytes>, m: nat, d: Bytes, after: seq<Bytes>)
    requires m < |docs|
  {
    var last := |docs| - 1;
    && |after| >= |docs|
    && (m == last ==> after == docs[..last] + [WithFinalNewline(d)])
    && (m < last ==>
          && docs[..last][m := d] <= after
          && (after == docs[..last][m := d] + [WithFinalNewline(docs[last])] <==> !EndsInRule(docs[last])))
  }

  lemma EditedAfterSplit(docs: seq<Bytes>, m: nat, d: Bytes)
    requires WellSeparated(docs) && m < |docs| && Closed(d)
    ensures Edited(docs, m, d, Split(Merged(docs[m := d])))
  {
    var last := |docs| - 1;
    var front := docs[..last];
    assert docs == front + [docs[last]];
    if m < last {
      ReadBackFront(front, docs[last], m, d);
      FinalNewlineSplit(docs[last]);
      SameTail(front[m := d], Split(WithFinalNewline(docs[last])), [WithFinalNewline(docs[last])]);
    } else {
      ReadBackLast(front, d);
      assert docs[m := d] == front + [d];
    }
  }

  lemma ReplaceIs(content: Bytes, matches: Matcher, newDoc: Bytes, path: Path, transform: Transform, m: nat)
    requires IsFirstMatch(Split(content), matches, m)
    ensures newDoc == [] ==> Replace(content, matches, newDoc, path, transform) == Rewritten(Merged(Without(Split(content), m)))
    ensures newDoc != [] ==>
      var stored := transform.Apply(path, Some(Split(content)[m]), newDoc);
      Replace(content, matches, newDoc, path, transform) ==
      if stored.Err? then Failed(stored.error) else Rewritten(Merged(Split(content)[m := TrimNewlines(stored.value)]))
  {
    FirstMatchIs(Split(content), matches, m);
  }

  /** Writing one closed document in the place of the first match changes no other document. */
  lemma ReplaceChangesOneDocument(content: Bytes, matches: Matcher, newDoc: Bytes, path: Path, transform: Transform,
                                  m: nat, stored: Bytes)
    requires IsFirstMatch(Split(content), matches, m)
    requires newDoc != []
    requires transform.Apply(path, Some(Split(content)[m]), newDoc) == Ok(stored)
    requires Closed(TrimNewlines(stored))
    ensures var r := Replace(content, matches, newDoc, path, transform);
      && r.Rewritten? && Edited(Split(content), m, TrimNewlines(stored), Split(r.out))
      && Split(r.out) == Reread(Split(content)[m := TrimNewlines(stored)])
  {
    ReplaceIs(content, matches, newDoc, path, transform, m);
    SplitWellSeparated(content);
    EditedAfterSplit(Split(content), m, TrimNewlines(stored));
    RereadIs(Split(content)[m := TrimNewlines(stored)]);
  }

  lemma SameTail<T>(front: seq<T>, a: seq<T>, b: seq<T>)
    ensures front + a == front + b <==> a == b
    ensures front <= front + a
  {
    assert (front + a)[|front|..] == a && (front + b)[|front|..] == b;
  }

  /** after is the documents docs, the last one with the final newline, which may make it two. */
  ghost predicate Kept(docs: seq<Bytes>, after: seq<Bytes>)
    requires docs != []
  {
    var last := |docs| - 1;
    && docs[..last] <= after
    && (after == docs[..last] + [WithFinalNewline(docs[last])] <==> !EndsInRule(docs[last]))
  }

  lemma KeptAfterSplit(docs: seq<Bytes>)
    requires WellSeparated(docs) && docs != []
    ensures Kept(docs, Split(Merged(docs)))
  {
    var last := |docs| - 1;
    MergedSplit(docs);
    FinalNewlineSplit(docs[last]);
    SameTail(docs[..last], Split(WithFinalNewline(docs[last])), [WithFinalNewline(docs[last])]);
  }

  lemma WithoutWellSeparated(docs: seq<Bytes>, m: nat)
    requires WellSeparated(docs) && m < |docs|
    ensures WellSeparated(Without(docs, m))
  {
    var left := Without(docs, m);
    forall i | 0 <= i < |left| ensures left[i] == docs[if i < m then i else i + 1] {}
  }

  /** Dropping the first match keeps every other document byte for byte and in order. */
  lemma DeleteDropsOneDocument(content: Bytes, matches: Matcher, path: Path, transform: Transform, m: nat)
    requires IsFirstMatch(Split(content), matches, m)
    ensures var docs := Without(Split(content), m);
      var r := Replace(content, matches, [], path, transform);
      && r.Rewritten?
      && if docs == [] then r.out == [] else Kept(docs, Split(r.out)) && Split(r.out) == Reread(docs)
  {
    ReplaceIs(content, matches, [], path, transform, m);
    SplitWellSeparated(content);
    WithoutWellSeparated(Split(content), m);
    if Without(Split(content), m) != [] {
      KeptAfterSplit(Without(Split(content), m));
      RereadIs(Without(Split(content), m));
    }
  }

  // ---------- the last write wins ----------

  lemma {:induction false} JoinNested(docs: seq<Bytes>, tail: Bytes)
    ensures Join(docs + Split(tail)) == Join(docs + [tail])
    decreases |docs|
  {
    if docs == [] {
      JoinSplit(tail);
      assert docs + Split(tail) == Split(tail) && docs + [tail] == [tail];
    } else {
      JoinNested(docs[1..], tail);
      assert (docs + Split(tail))[1..] == docs[1..] + Split(tail);
      assert (docs + [tail])[1..] == docs[1..] + [tail];
    }
  }

  /** Re-reading a rewritten file and writing it again changes nothing, even when its tail splits further. */
  lemma MergedAgain(front: seq<Bytes>, last: Bytes)
    ensures Merged(front + Split(WithFinalNewline(last))) == Merged(front + [last])
  {
    JoinNested(front, WithFinalNewline(last));
    FinalNewlineOnLast(front, last);
  }

  /** The document as it can be read back after d was stored in place of document m. */
  function ReadBack(docs: seq<Bytes>, m: nat, d: Bytes): Bytes {
    if m + 1 == |docs| then WithFinalNewline(d) else d
  }

  lemma UpdateInFront<T>(front: seq<T>, tail: seq<T>, m: nat, e: T)
    requires m < |front|
    ensures (front + tail)[m := e] == front[m := e] + tail
  {
  }

  lemma WithoutInFront(front: seq<Bytes>, tail: seq<Bytes>, m: nat)
    requires m < |front|
    ensures Without(front + tail, m) == Without(front, m) + tail
  {
    assert (front + tail)[..m] == front[..m];
    assert (front + tail)[m + 1..] == front[m + 1..] + tail;
  }

  /** What is read back after a document before the last was stored. */
  lemma ReadBackFront(front: seq<Bytes>, last: Bytes, m: nat, d: Bytes)
    requires AllClosed(front) && m < |front| && Closed(d)
    ensures Split(Merged((front + [last])[m := d])) == front[m := d] + Split(WithFinalNewline(last))
  {
    UpdateInFront(front, [last], m, d);
    FinalNewlineOnLast(front[m := d], last);
    SplitTail(front[m := d], WithFinalNewline(last));
  }

  /** What is read back after the last document was stored. */
  lemma ReadBackLast(front: seq<Bytes>, d: Bytes)
    requires AllClosed(front) && Closed(d)
    ensures Split(Merged(front + [d])) == front + [WithFinalNewline(d)]
  {
    FinalNewlineOnLast(front, d);
    FinalNewlineSplit(d);
    SplitTail(front, WithFinalNewline(d));
  }

  lemma SecondEditFront(front: seq<Bytes>, last: Bytes, m: nat, d: Bytes, e: Bytes)
    requires AllClosed(front) && m < |front| && Closed(d)
    ensures var after := Split(Merged((front + [last])[m := d]));
      && m < |after| && after[..m] == front[..m] && after[m] == d
      && Merged(after[m := e]) == Merged((front + [last])[m := e])
  {
    var tail := Split(WithFinalNewline(last));
    ReadBackFront(front, last, m, d);
    UpdateInFront(front[m := d], tail, m, e);
    UpdateInFront(front, [last], m, e);
    assert front[m := d][m := e] == front[m := e];
    MergedAgain(front[m := e], last);
  }

  lemma SecondEdit(docs: seq<Bytes>, m: nat, d: Bytes, e: Bytes)
    requires WellSeparated(docs) && m < |docs| && Closed(d)
    ensures var after := Split(Merged(docs[m := d]));
      && m < |after| && after[..m] == docs[..m] && after[m] == ReadBack(docs, m, d)
      && Merged(after[m := e]) == Merged(docs[m := e])
  {
    var last := |docs| - 1;
    var front := docs[..last];
    assert docs == front + [docs[last]];
    if m < last {
      SecondEditFront(front, docs[last], m, d, e);
    } else {
      ReadBackLast(front, d);
      assert docs[m := d] == front + [d];
      assert (front + [WithFinalNewline(d)])[m := e] == front + [e];
      assert docs[m := e] == front + [e];
    }
  }

  lemma EditThenDeleteFront(front: seq<Bytes>, last: Bytes, m: nat, d: Bytes)
    requires AllClosed(front) && m < |front| && Closed(d)
    ensures var after := Split(Merged((front + [last])[m := d]));
      m < |after| && Merged(Without(after, m)) == Merged(Without(front + [last], m))
  {
    var tail := Split(WithFinalNewline(last));
    ReadBackFront(front, last, m, d);
    WithoutInFront(front[m := d], tail, m);
    WithoutInFront(front, [last], m);
    assert Without(front[m := d], m) == Without(front, m);
    MergedAgain(Without(front, m), last);
  }

  lemma EditThenDelete(docs: seq<Bytes>, m: nat, d: Bytes)
    requires WellSeparated(docs) && m < |docs| && Closed(d)
    ensures var after := Split(Merged(docs[m := d]));
      m < |after| && Merged(Without(after, m)) == Merged(Without(docs, m))
  {
    var last := |docs| - 1;
    var front := docs[..last];
    assert docs == front + [docs[last]];
    if m < last {
      EditThenDeleteFront(front, docs[last], m, d);
    } else {
      ReadBackLast(front, d);
      assert docs[m := d] == front + [d];
      assert Without(front + [WithFinalNewline(d)], m) == front;
      assert Without(docs, m) == front;
    }
  }

  /**
   Replacing by a and then by b is the same as replacing by b at once, whether b is written
   or empty (a deletion), as long as a is one document that still matches once it is stored
   and the transform of b does not depend on which document it replaces.
   */
  lemma LastWriteWins(content: Bytes, matches: Matcher, a: Bytes, b: Bytes, path: Path, transform: Transform,
                      m: nat, stored: Bytes)
    requires IsFirstMatch(Split(content), matches, m)
    requires a != []
    requires transform.Apply(path, Some(Split(content)[m]), a) == Ok(stored)
    requires Closed(TrimNewlines(stored))
    requires matches(ReadBack(Split(content), m, TrimNewlines(stored)))
    requires transform.Apply(path, Some(ReadBack(Split(content), m, TrimNewlines(stored))), b)
          == transform.Apply(path, Some(Split(content)[m]), b)
    ensures var first := Replace(content, matches, a, path, transform);
      && first.Rewritten?
      && Replace(first.out, matches, b, path, transform) == Replace(content, matches, b, path, transform)
  {
    var docs, d := Split(content), TrimNewlines(stored);
    SplitWellSeparated(content);
    FirstMatchIs(docs, matches, m);
    var result := transform.Apply(path, Some(docs[m]), b);
    var e := if result.Ok? then TrimNewlines(result.value) else [];
    SecondEdit(docs, m, d, e);
    EditThenDelete(docs, m, d);
    var after := Split(Merged(docs[m := d]));
    assert forall i :: 0 <= i < m ==> after[i] == after[..m][i];
    FirstMatchIs(after, matches, m);
  }

  // ---------- appending a document ----------

  function Appended(existing: Bytes, doc: Bytes): Bytes {
    var out := TrimNewlines(existing) + SEPARATOR + doc;
    if out[|out| - 1] != NL then out + [NL] else out
  }

  lemma AppendedIs(existing: Bytes, doc: Bytes)
    ensures Appended(existing, doc) == TrimNewlines(existing) + SEPARATOR + WithFinalNewline(doc)
  {
    var out := TrimNewlines(existing) + SEPARATOR + doc;
    assert doc != [] ==> out[|out| - 1] == doc[|doc| - 1];
    assert doc == [] ==> out[|out| - 1] == NL;
    ConcatAssociative(TrimNewlines(existing) + SEPARATOR, doc, [NL]);
  }

  lemma {:induction false} JoinSnoc(docs: seq<Bytes>, last: Bytes)
    requires docs != []
    ensures Join(docs + [last]) == Join(docs) + SEPARATOR + last
    decreases |docs|
  {
    if |docs| == 1 {
      assert (docs + [last])[1..] == [last];
    } else {
      JoinSnoc(docs[1..], last);
      assert (docs + [last])[1..] == docs[1..] + [last];
    }
  }

  /**
   Appending a document keeps the documents already there, byte for byte and in order, and
   puts the new ones behind them, exactly when the file does not end in a "---" line.
   */
  lemma AppendKeepsDocuments(existing: Bytes, doc: Bytes)
    ensures var docs := Split(TrimNewlines(existing));
      Split(Appended(existing, doc)) == docs + Split(WithFinalNewline(doc)) <==> !EndsInRule(docs[|docs| - 1])
  {
    var kept := TrimNewlines(existing);
    var docs := Split(kept);
    var added := WithFinalNewline(doc);
    var out := Appended(existing, doc);
    AppendedIs(existing, doc);
    JoinSplit(kept);
    JoinSnoc(docs, added);
    SplitWellSeparated(kept);
    if !EndsInRule(docs[|docs| - 1]) {
      SplitTail(docs, added);
    } else {
      SplitWellSeparated(out);
      var both := docs + Split(added);
      assert both[|docs| - 1] == docs[|docs| - 1];
    }
  }

  // ---------- a file whose last document ends in a "---" line ----------

  const LETTER: byte := 65

  const RULED_LETTER: Bytes := [LETTER] + RULE

  /** The documents that are the letter and nothing else. */
  const LETTER_MATCHER: Matcher := d => TrimNewlines(d) == [LETTER]

  /** The letter, and behind it a document that is the letter and a "---" line. */
  const HIDING: Bytes := Join([[LETTER], RULED_LETTER])

  lemma HidingDocuments()
    ensures Split(HIDING) == [[LETTER], RULED_LETTER]
    ensures LETTER_MATCHER([LETTER]) && !LETTER_MATCHER(RULED_LETTER)
    ensures EndsInRule(RULED_LETTER) && BeforeRule(RULED_LETTER) == [LETTER]
  {
    SplitJoin([[LETTER], RULED_LETTER]);
    assert TrimNewlines([LETTER]) == [LETTER] && TrimNewlines(RULED_LETTER) == RULED_LETTER;
  }

  /** Rewritten in its first document, the file is read again as three. */
  lemma RuleBecomesSeparator(path: Path)
    ensures Split(HIDING) == [[LETTER], RULED_LETTER]
    ensures var r := Replace(HIDING, LETTER_MATCHER, [LETTER], path, Verbatim);
      r.Rewritten? && Split(r.out) == [[LETTER], [LETTER], []]
  {
    HidingDocuments();
    assert TrimNewlines([LETTER]) == [LETTER];
    ReplaceChangesOneDocument(HIDING, LETTER_MATCHER, [LETTER], path, Verbatim, 0, [LETTER]);
    assert Split(HIDING)[0 := [LETTER]] == [[LETTER], RULED_LETTER];
    assert Reread([[LETTER], RULED_LETTER]) == [[LETTER], [LETTER], []];
  }

  /** Appending to the letter with a "---" line changes the document that was there. */
  lemma AppendedBehindRule()
    ensures Split(RULED_LETTER) == [RULED_LETTER]
    ensures Split(Appended(RULED_LETTER, [LETTER])) != [RULED_LETTER] + Split(WithFinalNewline([LETTER]))
  {
    SplitOne(RULED_LETTER);
    assert TrimNewlines(RULED_LETTER) == RULED_LETTER;
    AppendKeepsDocuments(RULED_LETTER, [LETTER]);
  }
}
