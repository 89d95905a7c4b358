/** Which document of a file an object occupies (internal/walker/selector.go). */
module Selectors {
  import opened Common

  /** The fields the walker reads from a parsed YAML mapping; a missing field reads as empty. */
  datatype Header = Header(apiVersion: Bytes, kind: Bytes, name: Bytes, namespace: Bytes)

  /**
   The YAML library: parse is None for content that is not a non-empty mapping, and plural
   is the guess that turns a kind into its resource name.
   */
  datatype Yaml = Yaml(parse: Bytes -> Option<Header>, plural: Bytes -> Bytes)

  /** group and resource are the parts of the GVR that take part in matching; version does not. */
  datatype Selector = Selector(group: Bytes, resource: Bytes, name: Bytes, namespace: Bytes, commentPrefix: Bytes)

  const SLASH: byte := 47
  const HASH: byte := 35
  const DEFAULT_NAMESPACE: Bytes := [100, 101, 102, 97, 117, 108, 116]

  /** The part of apiVersion before its first slash, or nothing for the core group. */
  function GroupOf(apiVersion: Bytes): Bytes {
    if SLASH in apiVersion then Before(apiVersion, SLASH) else []
  }

  function KindToResource(y: Yaml, kind: Bytes): Bytes {
    if kind == [] then [] else y.plural(kind)
  }

  /** The namespace and name a marker value "<namespace>/<name>" (or just "<name>") carries. */
  function MarkerTarget(value: Bytes): (r: (Bytes, Bytes))
    ensures SLASH in value ==> value == r.0 + [SLASH] + r.1 && SLASH !in r.0
    ensures SLASH !in value ==> r == ([], value)
  {
    if SLASH in value then
      var ns := Before(value, SLASH);
      BeforeIsCut(value, SLASH);
      (ns, value[|ns| + 1..])
    else ([], value)
  }

  lemma BeforeIsCut(s: Bytes, b: byte)
    requires b in s
    ensures |Before(s, b)| < |s| && s[|Before(s, b)|] == b
  {
  }

  function MarkerLine(doc: Bytes): Bytes {
    TrimSpace(TrimPrefix(TrimSpace(Before(doc, NL)), [HASH]))
  }

  predicate MatchComment(doc: Bytes, sel: Selector) {
    && sel.commentPrefix != []
    && HasPrefix(MarkerLine(doc), sel.commentPrefix)
    && MarkerTarget(TrimPrefix(MarkerLine(doc), sel.commentPrefix)) == (sel.namespace, sel.name)
  }

  predicate MatchHeader(y: Yaml, h: Header, sel: Selector) {
    && (h.apiVersion != [] || h.kind != [])
    && GroupOf(h.apiVersion) == sel.group
    && KindToResource(y, h.kind) == sel.resource
    && h.name == sel.name
    && ((sel.namespace == [] && h.namespace == DEFAULT_NAMESPACE) || h.namespace == sel.namespace)
  }

  predicate MatchDoc(y: Yaml, doc: Bytes, sel: Selector) {
    || MatchComment(doc, sel)
    || (y.parse(doc).Some? && MatchHeader(y, y.parse(doc).value, sel))
  }

  function Matching(y: Yaml, sel: Selector): Bytes -> bool {
    doc => MatchDoc(y, doc, sel)
  }

  function SelectorFromDoc(y: Yaml, doc: Bytes): Selector {
    match y.parse(doc)
    case None => Selector([], [], [], [], [])
    case Some(h) => Selector(GroupOf(h.apiVersion), KindToResource(y, h.kind), h.name, h.namespace, [])
  }

  /** Parsing does not see the newlines a document ends in. */
  ghost predicate IgnoresTrailingNewlines(y: Yaml) {
    forall doc :: y.parse(TrimNewlines(doc)) == y.parse(doc)
  }

  lemma {:induction false} BeforeTrimmed(s: Bytes)
    ensures Before(TrimNewlines(s), NL) == Before(s, NL)
    decreases |s|
  {
    if |s| > 0 && s[|s| - 1] == NL {
      BeforeTrimmed(s[..|s| - 1]);
      BeforeAppend(s[..|s| - 1], NL);
      assert s == s[..|s| - 1] + [NL];
    }
  }

  lemma {:induction false} BeforeAppend(s: Bytes, b: byte)
    ensures Before(s + [b], b) == Before(s, b)
    decreases |s|
  {
    if |s| > 0 && s[0] != b {
      BeforeAppend(s[1..], b);
      assert (s + [b])[1..] == s[1..] + [b];
    }
  }

  /** Only the first line is read. */
  lemma {:induction false} BeforeStops(s: Bytes, rest: Bytes)
    requires rest != [] && rest[0] == NL
    ensures Before(s + rest, NL) == Before(s, NL)
    decreases |s|
  {
    if |s| > 0 && s[0] != NL {
      BeforeStops(s[1..], rest);
      ConcatCons(s, rest);
    } else if s == [] {
      assert s + rest == rest;
    }
  }

  /** White space carries no marker. */
  lemma BlankHasNoMarker(doc: Bytes, sel: Selector)
    requires IsBlank(doc)
    ensures !MatchComment(doc, sel)
  {
    var line := Before(doc, NL);
    assert IsBlank(line) by { assert forall i :: 0 <= i < |line| ==> line[i] == doc[i]; }
    BlankTrims(line);
  }

  lemma {:induction false} BlankTrims(s: Bytes)
    requires IsBlank(s)
    ensures TrimSpace(s) == []
    decreases |s|
  {
    if s != [] { BlankTrims(s[1..]); }
  }

  /** The newlines a document ends in never change which selectors it answers to. */
  lemma {:induction false} MatchIgnoresTrailingNewlines(y: Yaml, doc: Bytes, sel: Selector)
    requires IgnoresTrailingNewlines(y)
    ensures MatchDoc(y, TrimNewlines(doc), sel) == MatchDoc(y, doc, sel)
  {
    BeforeTrimmed(doc);
  }

  /**
   A document answers to the selector derived from it exactly when it parses to a mapping
   with an apiVersion or a kind; two documents found by each other's selectors only differ
   in version and in writing out the default namespace.
   */
  lemma SelectorFindsItsDocument(y: Yaml, doc: Bytes, other: Bytes)
    ensures MatchDoc(y, doc, SelectorFromDoc(y, doc)) <==>
      y.parse(doc).Some? && (y.parse(doc).value.apiVersion != [] || y.parse(doc).value.kind != [])
    ensures MatchDoc(y, other, SelectorFromDoc(y, doc)) && MatchDoc(y, doc, SelectorFromDoc(y, other)) ==>
      SelectorFromDoc(y, other) == SelectorFromDoc(y, doc)
  {
    var s, t := SelectorFromDoc(y, doc), SelectorFromDoc(y, other);
    assert !MatchComment(doc, s) && !MatchComment(other, s) && !MatchComment(doc, t);
  }

  // ---------- what a selector finds ----------

  /**
   A parsed document answers to a selector without a marker prefix if and only if it has an
   apiVersion or a kind, and group, resource, name and namespace agree: the group is what stands
   in front of the first slash of the apiVersion and none without a slash, the version is not
   looked at, and no namespace in the selector also stands for "default".
   */
  lemma {:induction false} MatchesIdentity(y: Yaml, doc: Bytes, h: Header, group: Bytes, version: Bytes, sel: Selector)
    requires y.parse(doc) == Some(h) && sel.commentPrefix == [] && SLASH !in group
    requires h.apiVersion == group + [SLASH] + version || (group == [] && h.apiVersion == version && SLASH !in version)
    ensures MatchDoc(y, doc, sel) <==>
      && (h.apiVersion != [] || h.kind != [])
      && group == sel.group && sel.resource == (if h.kind == [] then [] else y.plural(h.kind)) && h.name == sel.name
      && (h.namespace == sel.namespace || (sel.namespace == [] && h.namespace == [100, 101, 102, 97, 117, 108, 116]))
  {
    if h.apiVersion == group + [SLASH] + version {
      assert h.apiVersion == group + ([SLASH] + version);
      BeforeIs(group, [SLASH] + version, SLASH);
      assert h.apiVersion[|group|] == SLASH;
    }
  }

  lemma {:induction false} BeforeIs(front: Bytes, rest: Bytes, b: byte)
    requires b !in front && (rest == [] || rest[0] == b)
    ensures Before(front + rest, b) == front
  {
    if front != [] {
      ConcatCons(front, rest);
      BeforeIs(front[1..], rest, b);
    } else {
      assert front + rest == rest;
    }
  }

  /** The bytes begin and end with something that is no white space. */
  predicate IsTrimmed(s: Bytes) {
    s != [] && !IsSpace(s[0]) && !IsSpace(s[|s| - 1])
  }

  lemma {:induction false} TrimsLeft(lead: Bytes, s: Bytes)
    requires IsBlank(lead) && (s == [] || !IsSpace(s[0]))
    ensures TrimLeftSpace(lead + s) == s
  {
    if lead != [] {
      ConcatCons(lead, s);
      TrimsLeft(lead[1..], s);
    } else {
      assert lead + s == s;
    }
  }

  lemma {:induction false} TrimsRight(s: Bytes, trail: Bytes)
    requires IsBlank(trail) && (s == [] || !IsSpace(s[|s| - 1]))
    ensures TrimRightSpace(s + trail) == s
    decreases |trail|
  {
    if trail != [] {
      assert (s + trail)[..|s + trail| - 1] == s + trail[..|trail| - 1];
      TrimsRight(s, trail[..|trail| - 1]);
    } else {
      assert s + trail == s;
    }
  }

  lemma TrimsAround(lead: Bytes, s: Bytes, trail: Bytes)
    requires IsBlank(lead) && IsTrimmed(s) && IsBlank(trail)
    ensures TrimSpace(lead + (s + trail)) == s
  {
    TrimsLeft(lead, s + trail);
    TrimsRight(s, trail);
  }

  /** A first line with a marker: white space, a "#", white space, the prefix and its value, and white space. */
  predicate IsMarkerLine(line: Bytes, prefix: Bytes, value: Bytes, lead: Bytes, gap: Bytes, trail: Bytes) {
    && IsBlank(lead) && IsBlank(gap) && IsBlank(trail)
    && prefix != [] && IsTrimmed(prefix + value)
    && line == lead + (([HASH] + (gap + (prefix + value))) + trail)
  }

  lemma {:induction false} MarkerLineIs(line: Bytes, prefix: Bytes, value: Bytes, lead: Bytes, gap: Bytes, trail: Bytes)
    requires IsMarkerLine(line, prefix, value, lead, gap, trail)
    ensures TrimSpace(TrimPrefix(TrimSpace(line), [HASH])) == prefix + value
  {
    var marked, marker := [HASH] + (gap + (prefix + value)), prefix + value;
    assert marked[|marked| - 1] == marker[|marker| - 1];
    TrimsAround(lead, marked, trail);
    assert marked[1..] == gap + marker && [HASH] <= marked;
    assert marker + [] == marker;
    TrimsAround(gap, marker, []);
  }

  /**
   A document whose first line is a marker for a namespace and a name answers, by that line, to
   the selector of this namespace and name and to no other with the same prefix; a marker
   without a slash is for a name without a namespace.
   */
  lemma {:induction false} MarkerFindsItsObject(doc: Bytes, line: Bytes, rest: Bytes, namespace: Bytes, name: Bytes, sel: Selector,
                             lead: Bytes, gap: Bytes, trail: Bytes)
    requires doc == line + rest && NL !in line && (rest == [] || rest[0] == NL)
    requires SLASH !in namespace
    requires
      || IsMarkerLine(line, sel.commentPrefix, namespace + ([SLASH] + name), lead, gap, trail)
      || (namespace == [] && SLASH !in name && IsMarkerLine(line, sel.commentPrefix, name, lead, gap, trail))
    ensures MatchComment(doc, sel) <==> sel.namespace == namespace && sel.name == name
  {
    BeforeIs(line, rest, NL);
    if IsMarkerLine(line, sel.commentPrefix, namespace + ([SLASH] + name), lead, gap, trail) {
      CutAtSlash(namespace, name);
      MarkerCarries(doc, line, namespace + ([SLASH] + name), sel, lead, gap, trail);
    } else {
      MarkerCarries(doc, line, name, sel, lead, gap, trail);
    }
  }

  lemma CutAtSlash(namespace: Bytes, name: Bytes)
    requires SLASH !in namespace
    ensures MarkerTarget(namespace + ([SLASH] + name)) == (namespace, name)
  {
    BeforeIs(namespace, [SLASH] + name, SLASH);
    var value := namespace + ([SLASH] + name);
    assert value[|namespace|] == SLASH;
    assert value[|namespace| + 1..] == name;
  }

  lemma {:induction false} MarkerCarries(doc: Bytes, line: Bytes, value: Bytes, sel: Selector, lead: Bytes, gap: Bytes, trail: Bytes)
    requires Before(doc, NL) == line && IsMarkerLine(line, sel.commentPrefix, value, lead, gap, trail)
    ensures MatchComment(doc, sel) <==> MarkerTarget(value) == (sel.namespace, sel.name)
  {
    MarkerLineIs(line, sel.commentPrefix, value, lead, gap, trail);
    assert (sel.commentPrefix + value)[|sel.commentPrefix|..] == value;
  }
}
