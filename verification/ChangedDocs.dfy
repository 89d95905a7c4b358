/**
 Transforming only the documents that changed (TransformChangedDocs in
 internal/walker/document.go): documents carried over verbatim may already be encrypted.
 */
module ChangedDocs {
  import opened Common
  import opened Splitting
  import opened Selectors
  import opened Documents

  const BARE_MARKER: Bytes := [DASH, DASH, DASH]

  function Stripped(piece: Bytes): Bytes {
    TrimNewlines(TrimPrefix(piece, RULE_LINE))
  }

  function KeptDocs(pieces: seq<Bytes>): seq<Bytes> {
    if pieces == [] then []
    else (if IsBlank(Stripped(pieces[0])) then [] else [Stripped(pieces[0])]) + KeptDocs(pieces[1..])
  }

  /** The non-blank documents of content, without their leading marker and trailing newlines. */
  function DocsOf(content: Bytes): seq<Bytes> {
    KeptDocs(Split(content))
  }

  method SplitDocs(content: Bytes) returns (docs: seq<Bytes>)
    ensures docs == DocsOf(content)
  {
    docs := [];
    var pieces := Split(content);
    for i := 0 to |pieces|
      invariant docs + KeptDocs(pieces[i..]) == DocsOf(content)
    {
      var doc := TrimNewlines(TrimPrefix(pieces[i], RULE_LINE));
      assert pieces[i..][1..] == pieces[i + 1..];
      if !IsBlank(doc) {
        docs := docs + [doc];
      }
    }
  }

  predicate SameObject(y: Yaml, a: Bytes, b: Bytes) {
    var s, t := SelectorFromDoc(y, a), SelectorFromDoc(y, b);
    s.group == t.group && s.resource == t.resource && s.name == t.name
  }

  /** The first stored version of the object doc describes, whatever its namespace. */
  function PreviousDoc(y: Yaml, existing: seq<Bytes>, doc: Bytes): Option<Bytes> {
    match FirstMatch(existing, d => SameObject(y, d, doc))
    case None => None
    case Some(i) => Some(existing[i])
  }

  /** The document describes an object of this group, resource and name; one that is no mapping has none of them. */
  ghost predicate Identifies(y: Yaml, d: Bytes, group: Bytes, resource: Bytes, name: Bytes) {
    match y.parse(d)
    case None => group == [] && resource == [] && name == []
    case Some(h) =>
      && h.name == name && resource == (if h.kind == [] then [] else y.plural(h.kind))
      && ((group == [] && SLASH !in h.apiVersion) || IsInGroup(h.apiVersion, group))
  }

  ghost predicate IsInGroup(apiVersion: Bytes, group: Bytes) {
    SLASH !in group && exists version: Bytes :: apiVersion == group + ([SLASH] + version)
  }

  lemma IdentifiesSelected(y: Yaml, d: Bytes, group: Bytes, resource: Bytes, name: Bytes)
    ensures var s := SelectorFromDoc(y, d);
      Identifies(y, d, group, resource, name) <==> s.group == group && s.resource == resource && s.name == name
  {
    if y.parse(d).Some? {
      var a := y.parse(d).value.apiVersion;
      if IsInGroup(a, group) {
        var version: Bytes :| a == group + ([SLASH] + version);
        BeforeIs(group, [SLASH] + version, SLASH);
        assert a[|group|] == SLASH;
      } else if SLASH in a {
        BeforeIsCut(a, SLASH);
        var g := GroupOf(a);
        assert a == g + ([SLASH] + a[|g| + 1..]);
      }
    }
  }

  ghost predicate SameIdentity(y: Yaml, a: Bytes, b: Bytes) {
    exists group, resource, name :: Identifies(y, a, group, resource, name) && Identifies(y, b, group, resource, name)
  }

  lemma SameObjectIs(y: Yaml, a: Bytes, b: Bytes)
    ensures SameObject(y, a, b) <==> SameIdentity(y, a, b)
  {
    var s := SelectorFromDoc(y, a);
    IdentifiesSelected(y, a, s.group, s.resource, s.name);
    IdentifiesSelected(y, b, s.group, s.resource, s.name);
    if group, resource, name :| Identifies(y, a, group, resource, name) && Identifies(y, b, group, resource, name) {
      IdentifiesSelected(y, a, group, resource, name);
    }
  }

  ghost predicate IsFirstVersion(y: Yaml, existing: seq<Bytes>, doc: Bytes, i: nat) {
    i < |existing| && SameIdentity(y, existing[i], doc) && forall j :: 0 <= j < i ==> !SameIdentity(y, existing[j], doc)
  }

  /**
   What becomes of a document: one that is stored byte for byte stays, and any other is
   what the transform, if there is one, makes of it over the first stored document of the same
   group, resource and name.
   */
  lemma ConvertedOverPrevious(y: Yaml, path: Path, existing: seq<Bytes>, doc: Bytes, t: Transform, previous: Option<Bytes>)
    requires match previous
      case None => forall i :: 0 <= i < |existing| ==> !SameIdentity(y, existing[i], doc)
      case Some(d) => exists i: nat :: IsFirstVersion(y, existing, doc, i) && existing[i] == d
    ensures var r := Converted(y, path, existing, doc, t);
      && (doc in existing ==> r == Ok(doc))
      && (doc !in existing && (t == Verbatim || doc == []) ==> r == Ok(TrimNewlines(doc)))
      && (doc !in existing && t != Verbatim && doc != [] ==>
            var out := t.run(path, previous, doc);
            r == if out.Err? then Err(out.error) else Ok(TrimNewlines(out.value)))
  {
    forall d ensures SameObject(y, d, doc) <==> SameIdentity(y, d, doc) {
      SameObjectIs(y, d, doc);
    }
    var found := FirstMatch(existing, d => SameObject(y, d, doc));
    if previous.Some? {
      var i: nat :| IsFirstVersion(y, existing, doc, i) && existing[i] == previous.value;
      FirstMatchIs(existing, d => SameObject(y, d, doc), i);
    } else {
      assert found == None;
    }
  }

  /** What one document of the new content becomes. */
  function Converted(y: Yaml, path: Path, existing: seq<Bytes>, doc: Bytes, t: Transform): Result<Bytes> {
    if doc in existing then Ok(doc)
    else
      match t.Apply(path, PreviousDoc(y, existing, doc), doc)
      case Err(e) => Err(e)
      case Ok(out) => Ok(TrimNewlines(out))
  }

  ghost predicate AllConverted(y: Yaml, path: Path, existing: seq<Bytes>, docs: seq<Bytes>, t: Transform, out: seq<Bytes>) {
    && |out| == |docs|
    && forall i :: 0 <= i < |docs| ==> Converted(y, path, existing, docs[i], t) == Ok(out[i])
  }

  /** Document k is the first that cannot be converted. */
  ghost predicate FailsAt(y: Yaml, path: Path, existing: seq<Bytes>, docs: seq<Bytes>, t: Transform, k: nat, error: string) {
    && k < |docs|
    && Converted(y, path, existing, docs[k], t) == Err(error)
    && forall i :: 0 <= i < k ==> Converted(y, path, existing, docs[i], t).Ok?
  }

  /** The loop over the documents of the new content. */
  method ConvertAll(y: Yaml, path: Path, existing: seq<Bytes>, content: seq<Bytes>, t: Transform)
    returns (r: Result<seq<Bytes>>)
    ensures r.Ok? ==> AllConverted(y, path, existing, content, t, r.value)
    ensures r.Err? ==> exists k :: FailsAt(y, path, existing, content, t, k, r.error)
  {
    var docs := content;
    for i := 0 to |docs|
      invariant |docs| == |content|
      invariant forall j :: i <= j < |docs| ==> docs[j] == content[j]
      invariant forall j :: 0 <= j < i ==> Converted(y, path, existing, content[j], t) == Ok(docs[j])
    {
      var doc := docs[i];
      if doc in existing {
        continue;
      }
      var transformed := t.Apply(path, PreviousDoc(y, existing, doc), doc);
      if transformed.Err? {
        assert FailsAt(y, path, existing, content, t, i, transformed.error);
        return Err(transformed.error);
      }
      docs := docs[i := TrimNewlines(transformed.value)];
    }
    return Ok(docs);
  }

  /** Exactly one conversion per document, in order; the first failing one is reported. */
  method TransformChangedDocs(y: Yaml, path: Path, existing: Bytes, content: Bytes, t: Transform)
    returns (r: Result<Bytes>)
    ensures r.Ok? ==> exists out ::
      AllConverted(y, path, DocsOf(existing), DocsOf(content), t, out) && r.value == Join(out) + [NL]
    ensures r.Err? ==> exists k :: FailsAt(y, path, DocsOf(existing), DocsOf(content), t, k, r.error)
  {
    var existingDocs := SplitDocs(existing);
    var docs := SplitDocs(content);
    var converted := ConvertAll(y, path, existingDocs, docs, t);
    if converted.Err? {
      return Err(converted.error);
    }
    return Ok(Join(converted.value) + [NL]);
  }

  // ---------- documents that survive being stored and read back ----------

  /** A document as SplitDocs keeps it. */
  ghost predicate Tidy(d: Bytes) {
    && SeparatorFree(d) && !IsBlank(d) && !HasPrefix(d, RULE_LINE) && d[|d| - 1] != NL
  }

  /** d does not end in a "---" line, which a newline would turn into a marker of its own. */
  predicate EndsPlain(d: Bytes) {
    !EndsInRule(d) && d != BARE_MARKER
  }

  /** A stretch of a separator-free piece holds no separator. */
  lemma StretchSeparatorFree(piece: Bytes, start: nat, d: Bytes)
    requires SeparatorFree(piece)
    requires start + |d| <= |piece| && d == piece[start..start + |d|]
    ensures SeparatorFree(d)
    ensures EndsInRule(d) ==> start + |d| == |piece| || piece[start + |d|] != NL
  {
    forall i ensures SeparatorAt(d, i) ==> SeparatorAt(piece, start + i) {}
    assert EndsInRule(d) && start + |d| < |piece| && piece[start + |d|] == NL ==> SeparatorAt(piece, start + |d| - 4);
  }

  lemma KeptIsTidy(piece: Bytes)
    requires SeparatorFree(piece)
    requires !IsBlank(Stripped(piece))
    ensures Tidy(Stripped(piece))
    ensures EndsInRule(Stripped(piece)) ==> EndsInRule(piece)
  {
    var start := if HasPrefix(piece, RULE_LINE) then |RULE_LINE| else 0;
    var body := TrimPrefix(piece, RULE_LINE);
    var d := Stripped(piece);
    assert d == piece[start..start + |d|];
    StretchSeparatorFree(piece, start, d);
    assert |d| < |body| ==> body[|d|] == NL && piece[start + |d|] == NL;
    NoSecondMarker(piece, start, d);
  }

  lemma NoSecondMarker(piece: Bytes, start: nat, d: Bytes)
    requires SeparatorFree(piece)
    requires start == if HasPrefix(piece, RULE_LINE) then 4 else 0
    requires start + |d| <= |piece| && d == piece[start..start + |d|]
    ensures !HasPrefix(d, RULE_LINE)
  {
    MarkerPrefix(piece);
    MarkerPrefix(d);
    assert HasPrefix(d, RULE_LINE) && start == 4 ==> SeparatorAt(piece, 3);
  }

  lemma MarkerPrefix(s: Bytes)
    ensures HasPrefix(s, RULE_LINE) <==> |s| >= 4 && s[0] == DASH && s[1] == DASH && s[2] == DASH && s[3] == NL
  {
    if |s| >= 4 { assert s[..4] == [s[0], s[1], s[2], s[3]]; }
  }

  /** What is kept of well-separated pieces: only a last piece that ends in a rule can leave such a document. */
  ghost predicate TidyDocs(docs: seq<Bytes>, lastInRule: bool) {
    && WellSeparated(docs)
    && (forall i :: 0 <= i < |docs| ==> Tidy(docs[i]))
    && (docs != [] && EndsInRule(docs[|docs| - 1]) ==> lastInRule)
  }

  lemma TidyCons(d: Bytes, rest: seq<Bytes>, lastInRule: bool)
    requires Tidy(d) && TidyDocs(rest, lastInRule)
    requires EndsInRule(d) ==> rest == [] && lastInRule
    ensures TidyDocs([d] + rest, lastInRule)
  {
    var all := [d] + rest;
    forall i | 0 <= i < |all| ensures Tidy(all[i]) && (i < |all| - 1 ==> !EndsInRule(all[i])) {
      if i > 0 { assert all[i] == rest[i - 1]; }
    }
  }

  lemma {:induction false} KeptDocsAreTidy(pieces: seq<Bytes>)
    requires WellSeparated(pieces)
    ensures TidyDocs(KeptDocs(pieces), pieces != [] && EndsInRule(pieces[|pieces| - 1]))
    decreases |pieces|
  {
    if pieces != [] {
      var rest := pieces[1..];
      assert forall i :: 0 <= i < |rest| ==> rest[i] == pieces[i + 1];
      KeptDocsAreTidy(rest);
      var d := Stripped(pieces[0]);
      if IsBlank(d) {
        assert KeptDocs(pieces) == KeptDocs(rest);
      } else {
        KeptIsTidy(pieces[0]);
        assert rest == [] ==> KeptDocs(rest) == [];
        TidyCons(d, KeptDocs(rest), EndsInRule(pieces[|pieces| - 1]));
        assert KeptDocs(pieces) == [d] + KeptDocs(rest);
      }
    }
  }

  lemma DocsOfAreTidy(content: Bytes)
    ensures WellSeparated(DocsOf(content))
    ensures forall d :: d in DocsOf(content) ==> Tidy(d)
  {
    SplitWellSeparated(content);
    KeptDocsAreTidy(Split(content));
    forall d | d in DocsOf(content) ensures Tidy(d) {
      var i :| 0 <= i < |DocsOf(content)| && DocsOf(content)[i] == d;
    }
  }

  lemma {:induction false} KeptDocsConcat(a: seq<Bytes>, b: seq<Bytes>)
    ensures KeptDocs(a + b) == KeptDocs(a) + KeptDocs(b)
    decreases |a|
  {
    if a == [] {
      assert a + b == b;
    } else {
      ConcatCons(a, b);
      KeptDocsConcat(a[1..], b);
      ConcatAssociative(if IsBlank(Stripped(a[0])) then [] else [Stripped(a[0])], KeptDocs(a[1..]), KeptDocs(b));
    }
  }

  lemma TrimNewlinesFixed(d: Bytes)
    requires d != [] ==> d[|d| - 1] != NL
    ensures TrimNewlines(d) == d && TrimNewlines(d + [NL]) == d
  {
    assert (d + [NL])[..|d|] == d;
  }

  lemma {:induction false} KeptDocsOfTidy(docs: seq<Bytes>)
    requires forall d :: d in docs ==> Tidy(d)
    ensures KeptDocs(docs) == docs
    decreases |docs|
  {
    if docs != [] {
      assert docs[0] in docs;
      KeptDocsOfTidy(docs[1..]);
      TrimNewlinesFixed(docs[0]);
    }
  }

  /**
   Writing the documents back and reading them again finds the same documents, unless the
   last one ends in a "---" line: then reading finds less than was written.
   */
  lemma DocsOfStored(docs: seq<Bytes>)
    requires docs != [] && WellSeparated(docs) && forall d :: d in docs ==> Tidy(d)
    ensures var last := docs[|docs| - 1];
      && (EndsPlain(last) ==> DocsOf(Join(docs) + [NL]) == docs)
      && (!EndsPlain(last) ==> |Join(DocsOf(Join(docs) + [NL]))| < |Join(docs)|)
  {
    var n := |docs| - 1;
    var front, last := docs[..n], docs[n];
    assert docs == front + [last];
    assert forall d :: d in front ==> d in docs;
    JoinLast(front, last, [NL]);
    SplitTail(front, last + [NL]);
    KeptDocsConcat(front, Split(last + [NL]));
    KeptDocsOfTidy(front);
    assert last in docs;
    if EndsPlain(last) {
      LastPlain(last);
    } else {
      LastShrinks(last);
      ShorterTail(front, KeptDocs(Split(last + [NL])), last);
    }
  }

  lemma LastPlain(last: Bytes)
    requires Tidy(last) && EndsPlain(last)
    ensures KeptDocs(Split(last + [NL])) == [last]
  {
    FinalNewlineSplit(last);
    SplitOne(last + [NL]);
    MarkerPrefix(last);
    MarkerPrefix(last + [NL]);
    TrimNewlinesFixed(last);
    assert KeptDocs([last + [NL]]) == [last];
  }

  lemma LastShrinks(last: Bytes)
    requires Tidy(last) && !EndsPlain(last)
    ensures var docs := KeptDocs(Split(last + [NL]));
      docs == [] || (|docs| == 1 && |docs[0]| < |last|)
  {
    if last == BARE_MARKER {
      assert SeparatorFree(RULE_LINE);
      assert Split(RULE_LINE) == [RULE_LINE] by { SplitOne(RULE_LINE); }
      assert Stripped(RULE_LINE) == [];
    } else {
      var x := last[..|last| - 4];
      assert last + [NL] == x + SEPARATOR + [];
      StretchSeparatorFree(last, 0, x);
      SplitFirst(x, []);
      assert Split([]) == [[]];
      assert KeptDocs([x, []]) == KeptDocs([x]) + KeptDocs([[]]) by { KeptDocsConcat([x], [[]]); assert [x] + [[]] == [x, []]; }
      assert Stripped([]) == [];
    }
  }

  lemma {:induction false} ShorterTail(front: seq<Bytes>, tail: seq<Bytes>, last: Bytes)
    requires last != []
    requires tail == [] || (|tail| == 1 && |tail[0]| < |last|)
    ensures |Join(front + tail)| < |Join(front + [last])|
    decreases |front|
  {
    if front == [] {
      assert front + tail == tail && front + [last] == [last];
    } else {
      ShorterTail(front[1..], tail, last);
      assert (front + tail)[1..] == front[1..] + tail;
      assert (front + [last])[1..] == front[1..] + [last];
    }
  }

  /** The transform turns each document that is not stored yet into one document; only the last may end in a "---" line. */
  ghost predicate KeepsDocuments(y: Yaml, path: Path, existing: seq<Bytes>, docs: seq<Bytes>, t: Transform) {
    forall i :: 0 <= i < |docs| && docs[i] !in existing && Converted(y, path, existing, docs[i], t).Ok? ==>
      var out := Converted(y, path, existing, docs[i], t).value;
      Tidy(out) && (i < |docs| - 1 ==> !EndsInRule(out))
  }

  lemma ConvertedAreTidy(y: Yaml, path: Path, existing: seq<Bytes>, content: Bytes, t: Transform, out: seq<Bytes>)
    requires AllConverted(y, path, existing, DocsOf(content), t, out)
    requires KeepsDocuments(y, path, existing, DocsOf(content), t)
    ensures WellSeparated(out) && forall d :: d in out ==> Tidy(d)
  {
    var docs := DocsOf(content);
    DocsOfAreTidy(content);
    forall i | 0 <= i < |out|
      ensures Tidy(out[i]) && (i < |out| - 1 ==> !EndsInRule(out[i]))
    {
      assert docs[i] in docs;
    }
  }

  /**
   Running the transformation on its own output, with any transform, hands no document to
   that transform and cannot fail; it writes back the same bytes exactly when the last
   document does not end in a "---" line.
   */
  lemma {:induction false} NothingTransformedTwice(y: Yaml, path: Path, existing: Bytes, content: Bytes, t: Transform, out: seq<Bytes>,
                                again: Transform)
    requires AllConverted(y, path, DocsOf(existing), DocsOf(content), t, out)
    requires KeepsDocuments(y, path, DocsOf(existing), DocsOf(content), t)
    ensures var stored := Join(out) + [NL];
      && AllConverted(y, path, DocsOf(stored), DocsOf(stored), again, DocsOf(stored))
      && (Join(DocsOf(stored)) + [NL] == stored <==> out == [] || EndsPlain(out[|out| - 1]))
  {
    var stored := Join(out) + [NL];
    ConvertedAreTidy(y, path, DocsOf(existing), content, t, out);
    forall i | 0 <= i < |DocsOf(stored)|
      ensures Converted(y, path, DocsOf(stored), DocsOf(stored)[i], again) == Ok(DocsOf(stored)[i])
    {
      assert DocsOf(stored)[i] in DocsOf(stored);
    }
    if out == [] {
      NewlineHasNoDocs();
    } else {
      DocsOfStored(out);
    }
  }

  lemma NewlineHasNoDocs()
    ensures DocsOf([NL]) == []
  {
    SplitOne([NL]);
    assert SeparatorFree([NL]);
    MarkerPrefix([NL]);
    assert Stripped([NL]) == [];
    var pieces: seq<Bytes> := [[NL]];
    assert KeptDocs(pieces) == KeptDocs(pieces[1..]) == [];
  }

  /**
   A document stored byte for byte is never handed to the transform: two transforms that
   agree on the other documents, each with its previous version, produce the same output.
   */
  lemma StoredDocsAreNotTransformed(y: Yaml, path: Path, existing: seq<Bytes>, docs: seq<Bytes>, t: Transform, u: Transform,
                                    out: seq<Bytes>)
    requires AllConverted(y, path, existing, docs, t, out)
    requires forall d :: d in docs && d !in existing ==>
      t.Apply(path, PreviousDoc(y, existing, d), d) == u.Apply(path, PreviousDoc(y, existing, d), d)
    ensures AllConverted(y, path, existing, docs, u, out)
    ensures forall i :: 0 <= i < |docs| && docs[i] in existing ==> out[i] == docs[i]
  {
    forall i | 0 <= i < |docs|
      ensures Converted(y, path, existing, docs[i], u) == Ok(out[i])
    {
      assert docs[i] in docs;
      assert Converted(y, path, existing, docs[i], t) == Ok(out[i]);
    }
  }

  /** One document, the letter with a "---" line: written back it is read again without the line, so the bytes change. */
  lemma StoredRuleIsLost()
    ensures !EndsPlain(RULED_LETTER)
    ensures var stored := Join([RULED_LETTER]) + [NL];
      DocsOf(stored) == [[LETTER]] && Join(DocsOf(stored)) + [NL] != stored
  {
    SplitRule(RULED_LETTER);
    assert BeforeRule(RULED_LETTER) == [LETTER];
    var pieces: seq<Bytes> := [[LETTER], []];
    assert Stripped([LETTER]) == [LETTER] && !IsSpace([LETTER][0]) && Stripped([]) == [];
    assert pieces[1..] == [[]] && pieces[1..][1..] == [];
    assert KeptDocs(pieces[1..]) == KeptDocs(pieces[1..][1..]) == [];
    assert KeptDocs(pieces) == [[LETTER]] + KeptDocs(pieces[1..]);
  }
}
