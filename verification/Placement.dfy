/**
 Placing an artifact that carries no explicit path: in the files that hold the object when
 the resource finder is on, in the structured layout otherwise or when the finder claims
 nothing (internal/mutator/mutator.go, resource_finder.go, default.go).
 */
module Placement {
  import opened Common
  import opened Splitting
  import opened Selectors
  import opened Documents
  import opened Walking
  import opened Objects
  import opened ObjectStore

  const CLUSTER_SCOPED_SEGMENT := "_cluster"
  const INVALID_PATH := "the path is not valid"
  const INVALID_CHARACTERS: set<char> := {':', '*', '?', '"', '<', '>', '|'}

  /** What the layout path is built from; rootPath is already split into components. */
  datatype Coordinates = Coordinates(rootPath: Path, namespace: string, group: string, version: string,
                                     resource: string, name: string)

  function NonEmpty(p: Path): Path {
    if p == [] then [] else (if p[0] == "" then [] else [p[0]]) + NonEmpty(p[1..])
  }

  /** [rootPath/]namespace/group/version/resource, with empty segments cleaned away. */
  function LayoutDir(c: Coordinates): Path {
    NonEmpty(c.rootPath + [if c.namespace == "" then CLUSTER_SCOPED_SEGMENT else c.namespace, c.group, c.version, c.resource])
  }

  predicate ContainsInvalidCharacters(p: Path) {
    exists i, j :: 0 <= i < |p| && 0 <= j < |p[i]| && p[i][j] in INVALID_CHARACTERS
  }

  function LayoutPath(c: Coordinates): Result<Path> {
    if ContainsInvalidCharacters(LayoutDir(c)) then Err(INVALID_PATH) else Ok(LayoutDir(c) + [c.name + ".yaml"])
  }

  // ---------- the layout ----------

  /** The scope of an object in a layout path. */
  function ScopeOf(namespace: string): string {
    if namespace == "" then "_cluster" else namespace
  }

  predicate HasInvalidCharacter(s: string) {
    exists j :: 0 <= j < |s| && (s[j] in ":*?<>|" || s[j] == '"')
  }

  lemma {:induction false} NonEmptyConcat(p: Path, q: Path)
    ensures NonEmpty(p + q) == NonEmpty(p) + NonEmpty(q)
  {
    if p == [] {
      assert p + q == q;
    } else {
      ConcatCons(p, q);
      NonEmptyConcat(p[1..], q);
    }
  }

  lemma {:induction false} NonEmptyKeeps(p: Path)
    ensures "" !in p ==> NonEmpty(p) == p
    ensures forall s :: s in NonEmpty(p) <==> s in p && s != ""
  {
    if p != [] {
      NonEmptyKeeps(p[1..]);
      assert p == [p[0]] + p[1..];
    }
  }

  /** The segments behind the root path. */
  lemma LayoutSegments(c: Coordinates)
    requires c.version != "" && c.resource != ""
    ensures LayoutDir(c) == NonEmpty(c.rootPath) +
      (if c.group == "" then [ScopeOf(c.namespace), c.version, c.resource]
       else [ScopeOf(c.namespace), c.group, c.version, c.resource])
  {
    var segments := [ScopeOf(c.namespace), c.group, c.version, c.resource];
    NonEmptyConcat(c.rootPath, segments);
    var named := if c.group == "" then [ScopeOf(c.namespace), c.version, c.resource] else segments;
    assert segments[1..] == [c.group, c.version, c.resource];
    assert [c.group, c.version, c.resource][1..] == [c.version, c.resource];
    assert [c.version, c.resource][1..] == [c.resource] && [c.resource][1..] == [];
    assert NonEmpty([c.resource]) == [c.resource];
    assert NonEmpty([c.version, c.resource]) == [c.version, c.resource];
    assert NonEmpty(segments) == named;
  }

  /**
   Where an artifact goes, segment by segment: the root path, the namespace, the group (none
   for the core group), the version, the resource, and the name with ".yaml". Empty segments of
   the root path do not matter. There is no such path if and only if a segment in front of the
   name has one of the seven refused characters; the name is not looked at.
   */
  lemma LayoutComponents(c: Coordinates)
    requires c.version != "" && c.resource != ""
    ensures LayoutPath(c).Ok? && "" !in c.rootPath ==>
      LayoutPath(c).value == c.rootPath +
        (if c.group == "" then [ScopeOf(c.namespace), c.version, c.resource, c.name + ".yaml"]
         else [ScopeOf(c.namespace), c.group, c.version, c.resource, c.name + ".yaml"])
    ensures forall i :: 0 <= i < |c.rootPath| && c.rootPath[i] == "" ==>
      LayoutPath(c) == LayoutPath(c.(rootPath := c.rootPath[..i] + c.rootPath[i + 1..]))
    ensures LayoutPath(c).Err? <==>
      || (exists s :: s in c.rootPath && HasInvalidCharacter(s))
      || HasInvalidCharacter(c.namespace) || HasInvalidCharacter(c.group)
      || HasInvalidCharacter(c.version) || HasInvalidCharacter(c.resource)
  {
    LayoutSegments(c);
    NonEmptyKeeps(c.rootPath);
    forall i | 0 <= i < |c.rootPath| && c.rootPath[i] == ""
      ensures LayoutPath(c) == LayoutPath(c.(rootPath := c.rootPath[..i] + c.rootPath[i + 1..]))
    {
      LayoutSegments(c.(rootPath := c.rootPath[..i] + c.rootPath[i + 1..]));
      EmptySegmentSkipped(c.rootPath, i);
    }
    InvalidSegment(LayoutDir(c));
    InvalidSegments(c);
  }

  lemma {:induction false} EmptySegmentSkipped(p: Path, i: nat)
    requires i < |p| && p[i] == ""
    ensures NonEmpty(p[..i] + p[i + 1..]) == NonEmpty(p)
  {
    var front, back, rest := p[..i], p[i..], p[i + 1..];
    NonEmptyConcat(front, rest);
    NonEmptyConcat(front, back);
    assert front + back == p;
    assert back[1..] == rest;
    EmptyHead(back);
  }

  lemma EmptyHead(p: Path)
    requires p != [] && p[0] == ""
    ensures NonEmpty(p) == NonEmpty(p[1..])
  {
  }

  lemma InvalidSegment(p: Path)
    ensures ContainsInvalidCharacters(p) <==> exists s :: s in p && HasInvalidCharacter(s)
  {
    forall c: char ensures c in INVALID_CHARACTERS <==> c in ":*?<>|" || c == '"' {
      assert c in ":*?<>|" <==> c == ':' || c == '*' || c == '?' || c == '<' || c == '>' || c == '|';
    }
    if ContainsInvalidCharacters(p) {
      var i, j :| 0 <= i < |p| && 0 <= j < |p[i]| && p[i][j] in INVALID_CHARACTERS;
      assert p[i] in p && HasInvalidCharacter(p[i]);
    }
    if s :| s in p && HasInvalidCharacter(s) {
      var i :| 0 <= i < |p| && p[i] == s;
      var j :| 0 <= j < |s| && (s[j] in ":*?<>|" || s[j] == '"');
      assert p[i][j] in INVALID_CHARACTERS;
    }
  }

  lemma InvalidSegments(c: Coordinates)
    requires c.version != "" && c.resource != ""
    ensures (exists s :: s in LayoutDir(c) && HasInvalidCharacter(s)) <==>
      || (exists s :: s in c.rootPath && HasInvalidCharacter(s))
      || HasInvalidCharacter(c.namespace) || HasInvalidCharacter(c.group)
      || HasInvalidCharacter(c.version) || HasInvalidCharacter(c.resource)
  {
    LayoutSegments(c);
    NonEmptyKeeps(c.rootPath);
    assert !HasInvalidCharacter("") && !HasInvalidCharacter("_cluster");
    var dir := LayoutDir(c);
    assert c.version in dir && c.resource in dir && ScopeOf(c.namespace) in dir && (c.group != "" ==> c.group in dir);
    assert forall s :: s in c.rootPath && s != "" ==> s in dir;
    assert forall s :: s in dir ==> s in c.rootPath || s == ScopeOf(c.namespace) || s == c.group || s == c.version || s == c.resource;
  }

  /**
   Under one root path the layout gives every object a file of its own: two objects have the
   same path if and only if they agree on scope, group, version, resource and name.
   */
  lemma LayoutTellsApart(c: Coordinates, d: Coordinates)
    requires LayoutPath(c).Ok? && LayoutPath(d).Ok? && c.rootPath == d.rootPath
    requires c.version != "" && c.resource != "" && d.version != "" && d.resource != ""
    ensures LayoutPath(c) == LayoutPath(d) <==>
      && ScopeOf(c.namespace) == ScopeOf(d.namespace) && c.group == d.group && c.version == d.version
      && c.resource == d.resource && c.name == d.name
  {
    LayoutSegments(c);
    LayoutSegments(d);
    var root, file, other := NonEmpty(c.rootPath), c.name + ".yaml", d.name + ".yaml";
    var p, q := LayoutPath(c).value, LayoutPath(d).value;
    assert p[|root|..] == (if c.group == "" then [ScopeOf(c.namespace), c.version, c.resource, file]
                           else [ScopeOf(c.namespace), c.group, c.version, c.resource, file]);
    assert q[|root|..] == (if d.group == "" then [ScopeOf(d.namespace), d.version, d.resource, other]
                           else [ScopeOf(d.namespace), d.group, d.version, d.resource, other]);
    if p == q {
      var s, t := p[|root|..], q[|root|..];
      assert |s| == |t| && s[0] == t[0] && s[1] == t[1] && s[2] == t[2] && s[3] == t[3];
      assert file == s[|s| - 1] == t[|t| - 1] == other;
      assert file[..|file| - 5] == c.name && other[..|other| - 5] == d.name;
    }
  }

  /** An artifact; a deletion has no content, or nil (None) when the object was deleted. */
  datatype Artifact = Artifact(content: Option<Bytes>) {
    function Body(): Bytes {
      if content.Some? then content.value else []
    }
  }

  /** Writing the artifact at its layout path, over whatever file is there. */
  function Laid(files: Files, path: Result<Path>, a: Artifact, t: Transform): Outcome {
    match path
    case Err(e) => Outcome(files, NO_CLAIMS, Some(e))
    case Ok(p) =>
      var claims := if a.Body() == [] then Claims([], [p]) else Claims([p], []);
      if a.content.None? then Outcome(files, claims, None)
      else
        match t.Apply(p, if p in files then Some(files[p]) else None, a.Body())
        case Err(e) => Outcome(files, NO_CLAIMS, Some(e))
        case Ok(out) => Outcome(files[p := out], claims, None)
  }

  /**
   What laying an artifact leaves: an object deleted by nil content keeps its file and one with
   empty content gets an empty one, both claimed as deleted; any other is written, as the
   transform says when there is one, over the one file at its path. After an error nothing is
   written and nothing claimed.
   */
  lemma LaidInFields(files: Files, path: Result<Path>, a: Artifact, t: Transform)
    ensures var r := Laid(files, path, a, t);
      && (path.Err? ==> r == Outcome(files, Claims([], []), Some(path.error)))
      && (path.Ok? && a.content == None ==> r == Outcome(files, Claims([], [path.value]), None))
      && (path.Ok? && a.content == Some([]) ==> r == Outcome(files[path.value := []], Claims([], [path.value]), None))
      && (path.Ok? && a.content.Some? && a.content.value != [] ==>
            var p := path.value;
            var out := if t == Verbatim then Ok(a.content.value)
                       else t.run(p, if p in files then Some(files[p]) else None, a.content.value);
            r == if out.Err? then Outcome(files, Claims([], []), Some(out.error))
                 else Outcome(files[p := out.value], Claims([p], []), None))
  {
  }

  ghost function Placed(files: Files, order: seq<Path>, job: Job, remembered: Option<Path>, finder: bool,
                        path: Result<Path>, a: Artifact): Outcome {
    var found := if finder then Cached(files, order, job, remembered) else Outcome(files, NO_CLAIMS, None);
    if found.error.Some? || found.claims != NO_CLAIMS then found
    else Laid(found.files, path, a, job.transform)
  }

  method PlaceArtifact(wt: Worktree, entries: seq<DirEntry>, cache: DocCache, y: Yaml, scope: string, sel: Selector,
                       a: Artifact, transform: Transform, finder: bool, c: Coordinates)
    returns (claims: Claims, error: Option<string>)
    requires Lists(entries, wt.files)
    requires cache != null ==> cache.Valid()
    modifies wt, cache
    ensures cache != null ==> cache.Valid()
    ensures Outcome(wt.files, claims, error) ==
      Placed(old(wt.files), Visited([], entries),
             Job(Matching(y, sel), if a.content.Some? then a.content.value else [], transform),
             Remembered(old(ViewOf(cache)), CacheKey(scope, sel)), finder, LayoutPath(c), a)
  {
    claims := NO_CLAIMS;
    if finder {
      claims, error := ReplaceObject(wt, entries, cache, y, scope, sel, a.Body(), transform);
      if error.Some? {
        return NO_CLAIMS, error;
      }
    }
    if claims != NO_CLAIMS {
      return claims, None;
    }
    var path := LayoutPath(c);
    if path.Err? {
      return NO_CLAIMS, Some(path.error);
    }
    var p := path.value;
    if a.content.Some? {
      var existing := if p in wt.files then Some(wt.files[p]) else None;
      var out := transform.Apply(p, existing, a.Body());
      if out.Err? {
        return NO_CLAIMS, Some(out.error);
      }
      wt.files := wt.files[p := out.value];
    }
    return if a.Body() == [] then Claims([], [p]) else Claims([p], []), None;
  }

  // ---------- one copy ----------

  ghost predicate IsOnlyMatch(docs: seq<Bytes>, matches: Matcher, m: nat) {
    && m < |docs| && matches(docs[m])
    && forall i :: 0 <= i < |docs| && matches(docs[i]) ==> i == m
  }

  /** Exactly one document of the file matches. */
  ghost predicate HasOneMatch(content: Bytes, matches: Matcher) {
    exists m: nat :: IsOnlyMatch(Split(content), matches, m)
  }

  /** The worktree holds the object in at most one document. */
  ghost predicate AtMostOneCopy(files: Files, matches: Matcher) {
    && AtMostOneFile(files, matches)
    && forall p :: p in files && IsYaml(p) && HasMatch(files[p], matches) ==> HasOneMatch(files[p], matches)
  }

  /** The object is in file p and in no other. */
  ghost predicate OnlyHolder(files: Files, matches: Matcher, p: Path) {
    && p in files && IsYaml(p) && HasMatch(files[p], matches)
    && forall q :: q in files && IsYaml(q) && HasMatch(files[q], matches) ==> q == p
  }

  /** The worktree holds the object in exactly one document, which is in file p. */
  ghost predicate OneCopyAt(files: Files, matches: Matcher, p: Path) {
    OnlyHolder(files, matches, p) && HasOneMatch(files[p], matches)
  }

  /** Written to p in the place of e, the content becomes one document that matches. */
  ghost predicate WritesOneDocument(job: Job, p: Path, e: Option<Bytes>) {
    && job.content != []
    && var r := job.transform.Apply(p, e, job.content);
    r.Ok? && Closed(TrimNewlines(r.value)) && job.matches(TrimNewlines(r.value))
  }

  /** So it does wherever it will be placed: over the first match of the file that holds the object, or at the layout path. */
  ghost predicate PlacesOneDocument(files: Files, job: Job, layout: Path) {
    && (forall p :: p in files && IsYaml(p) && HasMatch(files[p], job.matches) ==>
          WritesOneDocument(job, p, FirstMatching(files[p], job.matches)))
    && (NoHolder(files, job.matches) ==> WritesOneDocument(job, layout, FileAt(files, layout)))
  }

  ghost predicate NoHolder(files: Files, matches: Matcher) {
    forall p :: p in files && IsYaml(p) ==> !HasMatch(files[p], matches)
  }

  function Written(job: Job, p: Path, e: Option<Bytes>): Bytes
    requires job.transform.Apply(p, e, job.content).Ok?
  {
    job.transform.Apply(p, e, job.content).value
  }

  function FileAt(files: Files, p: Path): Option<Bytes> {
    if p in files then Some(files[p]) else None
  }

  /** Every selector is such a matcher, if parsing ignores trailing newlines and finds no mapping in white space. */
  lemma SelectorsAreSensible(y: Yaml, sel: Selector)
    requires IgnoresTrailingNewlines(y) && forall d :: IsBlank(d) ==> y.parse(d).None?
    ensures Sensible(Matching(y, sel))
  {
    forall d ensures MatchDoc(y, TrimNewlines(d), sel) == MatchDoc(y, d, sel) {
      MatchIgnoresTrailingNewlines(y, d, sel);
    }
    forall d | IsBlank(d) ensures !MatchDoc(y, d, sel) {
      BlankHasNoMarker(d, sel);
    }
  }

  /**
   Rewriting this file brings another match to light: its last document does not match, but
   does once the "---" line at its end is read as a separator.
   */
  predicate HidesMatch(content: Bytes, matches: Matcher) {
    var last := LastOf(content);
    !matches(last) && EndsInRule(last) && matches(BeforeRule(last))
  }

  /** Document m alone matches in the file as it will be read again. */
  ghost predicate SeesOnly(docs: seq<Bytes>, matches: Matcher, m: nat) {
    && m < |docs| && matches(SeenAt(docs, m))
    && forall i: nat :: i < |docs| && matches(SeenAt(docs, i)) ==> i == m
  }

  /** The documents of a rewritten file that match are those that match where they are seen. */
  lemma RereadOneMatch(docs: seq<Bytes>, matches: Matcher)
    requires WellSeparated(docs) && docs != [] && Sensible(matches)
    ensures HasOneMatch(Merged(docs), matches) <==> exists m: nat :: SeesOnly(docs, matches, m)
  {
    var after := Reread(docs);
    RereadIs(docs);
    RereadAgrees(docs, matches);
    if m: nat :| SeesOnly(docs, matches, m) {
      assert IsOnlyMatch(after, matches, m);
    }
    if m: nat :| IsOnlyMatch(after, matches, m) {
      assert SeesOnly(docs, matches, m);
    }
  }

  lemma MergedOneMatch(docs: seq<Bytes>, matches: Matcher, m: nat, d: Bytes)
    requires WellSeparated(docs) && IsOnlyMatch(docs, matches, m)
    requires Sensible(matches) && matches(d) && Closed(d) && !IsBlank(d)
    ensures var last := docs[|docs| - 1];
      HasOneMatch(Merged(docs[m := d]), matches) <==> matches(last) || !EndsInRule(last) || !matches(BeforeRule(last))
  {
    var edited := docs[m := d];
    assert SeenAt(edited, m) == d;
    assert forall i: nat :: i < |docs| && i != m ==> SeenAt(edited, i) == SeenAt(docs, i);
    RereadOneMatch(edited, matches);
    var last := docs[|docs| - 1];
    if !matches(last) && EndsInRule(last) && matches(BeforeRule(last)) {
      assert matches(SeenAt(edited, |docs| - 1));
    } else {
      assert SeesOnly(edited, matches, m);
    }
  }

  lemma WrittenMatches(job: Job, p: Path, e: Option<Bytes>)
    requires WritesOneDocument(job, p, e) && Sensible(job.matches)
    ensures var w := Written(job, p, e);
      && Closed(TrimNewlines(w)) && !IsBlank(TrimNewlines(w)) && TrimNewlines(w) != []
      && job.matches(TrimNewlines(w)) && job.matches(w)
  {
    var w := Written(job, p, e);
    assert job.matches(w) == job.matches(TrimNewlines(w));
  }

  /** Replacing the first match of a file leaves a match there. */
  lemma RewriteWrites(files: Files, p: Path, job: Job)
    requires p in files && HasMatch(files[p], job.matches) && Sensible(job.matches)
    requires WritesOneDocument(job, p, FirstMatching(files[p], job.matches))
    ensures var r := Rewrite(files, p, job);
      r.Rewritten? && !IsBlank(r.out) && HasMatch(r.out, job.matches)
  {
    var docs := Split(files[p]);
    RewriteMatches(files, p, job);
    var m := FirstMatch(docs, job.matches).value;
    WrittenMatches(job, p, Some(docs[m]));
    var d := TrimNewlines(Written(job, p, Some(docs[m])));
    SensibleFinalNewline(job.matches, d);
    SplitWellSeparated(files[p]);
    StoredIsFirst(docs, m, d, job.matches);
    assert Split(Merged(docs[m := d]))[m] in Split(Merged(docs[m := d]));
  }

  lemma OnlyIsFirst(docs: seq<Bytes>, matches: Matcher)
    requires exists m: nat :: IsOnlyMatch(docs, matches, m)
    ensures FirstMatch(docs, matches).Some? && IsOnlyMatch(docs, matches, FirstMatch(docs, matches).value)
  {
    var m: nat :| IsOnlyMatch(docs, matches, m);
    FirstMatchIs(docs, matches, m);
  }

  /** Replacing the only match of a file leaves exactly one match unless the file hides another. */
  lemma ReplaceKeepsOneMatch(files: Files, p: Path, job: Job)
    requires p in files && HasOneMatch(files[p], job.matches) && Sensible(job.matches)
    requires WritesOneDocument(job, p, FirstMatching(files[p], job.matches))
    ensures var r := Rewrite(files, p, job);
      r.Rewritten? && (HasOneMatch(r.out, job.matches) <==> !HidesMatch(files[p], job.matches))
  {
    var docs := Split(files[p]);
    OnlyIsFirst(docs, job.matches);
    var m := FirstMatch(docs, job.matches).value;
    WrittenMatches(job, p, Some(docs[m]));
    SplitWellSeparated(files[p]);
    MergedOneMatch(docs, job.matches, m, TrimNewlines(Written(job, p, Some(docs[m]))));
  }

  lemma WrittenHasOneMatch(job: Job, p: Path, e: Option<Bytes>)
    requires Sensible(job.matches) && WritesOneDocument(job, p, e)
    ensures var w := Written(job, p, e);
      Split(w) == [w] && HasOneMatch(w, job.matches) && HasMatch(w, job.matches)
  {
    WrittenMatches(job, p, e);
    var w := Written(job, p, e);
    ClosedWithNewlines(w);
    SplitOne(w);
    assert IsOnlyMatch(Split(w), job.matches, 0) && Split(w)[0] in Split(w);
  }

  lemma LayoutIsYaml(c: Coordinates)
    requires LayoutPath(c).Ok?
    ensures IsYaml(LayoutPath(c).value)
  {
    var file := c.name + ".yaml";
    assert file[|file| - 5..] == ".yaml";
  }

  /** A full walk over a worktree with at most one copy rewrites that copy, or nothing. */
  lemma WalkWithOneCopy(files: Files, order: seq<Path>, job: Job, remembered: Option<Path>)
    requires Orders(order, files) && (remembered.Some? ==> IsYaml(remembered.value))
    requires AtMostOneFile(files, job.matches)
    ensures (exists p :: p in order && HasMatch(files[p], job.matches))
      || Cached(files, order, job, remembered) == Outcome(files, NO_CLAIMS, None)
    ensures forall p :: p in order && HasMatch(files[p], job.matches) && Rewrite(files, p, job).Rewritten? ==>
      Cached(files, order, job, remembered)
        == Outcome(Stored(files, p, Rewrite(files, p, job).out), ClaimsOf(job, [p]), None)
    ensures forall p :: p in order && HasMatch(files[p], job.matches) && Rewrite(files, p, job).Failed? ==>
      Cached(files, order, job, remembered) == Outcome(files, NO_CLAIMS, Some(Rewrite(files, p, job).error))
  {
    CacheMakesNoDifference(files, order, job, remembered);
    if p :| p in order && HasMatch(files[p], job.matches) {
      WalkOneMatch(files, order, job, p);
    } else {
      WalkWithoutMatch(files, order, job);
    }
  }

  /** What placing job with the resource finder on does: rewrite the one copy in p, or write p at the layout path. */
  ghost predicate PlacesAt(files: Files, order: seq<Path>, job: Job, layout: Path, outcome: Outcome, p: Path) {
    && outcome.error == None && outcome.claims == Claims([p], [])
    && if p in order && p in files && HasMatch(files[p], job.matches) then
         Rewrite(files, p, job).Rewritten? && outcome.files == files[p := Rewrite(files, p, job).out]
       else
         && p == layout && job.transform.Apply(p, FileAt(files, p), job.content).Ok?
         && outcome.files == files[p := Written(job, p, FileAt(files, p))]
         && forall q :: q in order ==> q in files && !HasMatch(files[q], job.matches)
  }

  lemma PlacesOverHolder(files: Files, order: seq<Path>, job: Job, remembered: Option<Path>, layout: Path, a: Artifact, p: Path)
    requires Orders(order, files) && (remembered.Some? ==> IsYaml(remembered.value)) && AtMostOneFile(files, job.matches)
    requires p in order && HasMatch(files[p], job.matches) && Sensible(job.matches)
    requires WritesOneDocument(job, p, FirstMatching(files[p], job.matches))
    ensures PlacesAt(files, order, job, layout, Placed(files, order, job, remembered, true, Ok(layout), a), p)
  {
    WalkWithOneCopy(files, order, job, remembered);
    RewriteWrites(files, p, job);
    assert Stored(files, p, Rewrite(files, p, job).out) == files[p := Rewrite(files, p, job).out];
  }

  lemma PlacesAtLayout(files: Files, order: seq<Path>, job: Job, remembered: Option<Path>, layout: Path, a: Artifact)
    requires Orders(order, files) && (remembered.Some? ==> IsYaml(remembered.value))
    requires NoHolder(files, job.matches) && WritesOneDocument(job, layout, FileAt(files, layout)) && a.content == Some(job.content)
    ensures PlacesAt(files, order, job, layout, Placed(files, order, job, remembered, true, Ok(layout), a), layout)
  {
    WalkWithOneCopy(files, order, job, remembered);
    assert forall q :: q in order ==> q in files && !HasMatch(files[q], job.matches);
  }

  lemma PlacesSomewhere(files: Files, order: seq<Path>, job: Job, remembered: Option<Path>, layout: Path, a: Artifact)
    returns (p: Path)
    requires Orders(order, files) && (remembered.Some? ==> IsYaml(remembered.value))
    requires AtMostOneFile(files, job.matches)
    requires Sensible(job.matches) && PlacesOneDocument(files, job, layout) && a.content == Some(job.content)
    ensures PlacesAt(files, order, job, layout, Placed(files, order, job, remembered, true, Ok(layout), a), p)
  {
    if q :| q in order && HasMatch(files[q], job.matches) {
      p := q;
      PlacesOverHolder(files, order, job, remembered, layout, a, p);
    } else {
      p := layout;
      PlacesAtLayout(files, order, job, remembered, layout, a);
    }
  }

  /** The file that holds the object, if any, hides no further copy. */
  ghost predicate NothingHidden(files: Files, matches: Matcher) {
    forall p :: p in files && IsYaml(p) && HasMatch(files[p], matches) ==> !HidesMatch(files[p], matches)
  }

  lemma PlacesInOneFile(files: Files, order: seq<Path>, job: Job, layout: Path, outcome: Outcome, p: Path)
    requires Orders(order, files) && IsYaml(layout)
    requires AtMostOneFile(files, job.matches)
    requires Sensible(job.matches) && PlacesOneDocument(files, job, layout)
    requires PlacesAt(files, order, job, layout, outcome, p)
    ensures OnlyHolder(outcome.files, job.matches, p)
  {
    if p in order && p in files && HasMatch(files[p], job.matches) {
      RewriteWrites(files, p, job);
    } else {
      WrittenHasOneMatch(job, p, FileAt(files, p));
    }
  }

  lemma PlacesOneCopy(files: Files, order: seq<Path>, job: Job, layout: Path, outcome: Outcome, p: Path)
    requires Orders(order, files) && IsYaml(layout)
    requires AtMostOneCopy(files, job.matches)
    requires Sensible(job.matches) && PlacesOneDocument(files, job, layout)
    requires PlacesAt(files, order, job, layout, outcome, p)
    ensures HasOneMatch(outcome.files[p], job.matches) <==> NothingHidden(files, job.matches)
  {
    if p in order && p in files && HasMatch(files[p], job.matches) {
      ReplaceKeepsOneMatch(files, p, job);
    } else {
      WrittenHasOneMatch(job, p, FileAt(files, p));
    }
  }

  lemma OneMatchMatches(content: Bytes, matches: Matcher)
    requires HasOneMatch(content, matches)
    ensures HasMatch(content, matches)
  {
    var m: nat :| IsOnlyMatch(Split(content), matches, m);
    assert Split(content)[m] in Split(content);
  }

  /**
   With the resource finder on, placing an object into a worktree that holds it at most once
   leaves it in the one path it claims and nowhere else, whatever the document cache holds;
   and in exactly one copy there if and only if the file that held it hid no further one.
   */
  lemma PlaceLeavesOneCopy(files: Files, order: seq<Path>, job: Job, remembered: Option<Path>, layout: Path, a: Artifact)
    requires Orders(order, files) && (remembered.Some? ==> IsYaml(remembered.value)) && IsYaml(layout)
    requires AtMostOneCopy(files, job.matches)
    requires Sensible(job.matches) && PlacesOneDocument(files, job, layout) && a.content == Some(job.content)
    ensures var after := Placed(files, order, job, remembered, true, Ok(layout), a);
      && after.error == None && |after.claims.add| == 1 && after.claims.del == []
      && OnlyHolder(after.files, job.matches, after.claims.add[0])
      && (OneCopyAt(after.files, job.matches, after.claims.add[0]) <==> NothingHidden(files, job.matches))
  {
    var p := PlacesSomewhere(files, order, job, remembered, layout, a);
    PlacesInOneFile(files, order, job, layout, Placed(files, order, job, remembered, true, Ok(layout), a), p);
    PlacesOneCopy(files, order, job, layout, Placed(files, order, job, remembered, true, Ok(layout), a), p);
  }

  /** A parser that does not see a "---" line at the end of a document leaves nothing to hide. */
  lemma BlindParsersHideNothing(y: Yaml, sel: Selector, files: Files)
    requires forall d :: EndsInRule(d) ==> y.parse(BeforeRule(d)) == y.parse(d)
    ensures NothingHidden(files, Matching(y, sel))
  {
    forall d: Bytes | EndsInRule(d) ensures MatchDoc(y, BeforeRule(d), sel) == MatchDoc(y, d, sel) {
      BeforeStops(BeforeRule(d), d[|d| - 4..]);
      assert d == BeforeRule(d) + d[|d| - 4..];
    }
  }

  lemma HidingFile()
    ensures Sensible(LETTER_MATCHER) && HasOneMatch(HIDING, LETTER_MATCHER) && HidesMatch(HIDING, LETTER_MATCHER)
    ensures !ClearsAtOnce(HIDING, LETTER_MATCHER)
  {
    HidingDocuments();
    assert IsOnlyMatch(Split(HIDING), LETTER_MATCHER, 0);
    assert SeenAt(Split(HIDING), 1) == [LETTER];
    forall d: Bytes ensures TrimNewlines(TrimNewlines(d)) == TrimNewlines(d) && (IsBlank(d) ==> TrimNewlines(d) != [LETTER]) {
      if TrimNewlines(d) == [LETTER] { assert d[0] == LETTER; }
    }
  }

  lemma HidingWorktree(p: Path)
    requires IsYaml(p)
    ensures var files: Files := map[p := HIDING];
      && Orders([p], files) && HasMatch(files[p], LETTER_MATCHER) && AtMostOneCopy(files, LETTER_MATCHER)
      && !NothingHidden(files, LETTER_MATCHER)
  {
    HidingFile();
    OneMatchMatches(HIDING, LETTER_MATCHER);
    var files: Files := map[p := HIDING];
    assert HidesMatch(files[p], LETTER_MATCHER);
  }

  lemma LetterIsOneDocument(p: Path, e: Option<Bytes>)
    ensures WritesOneDocument(Job(LETTER_MATCHER, [LETTER], Verbatim), p, e)
  {
    assert TrimNewlines([LETTER]) == [LETTER] && !IsSpace([LETTER][0]);
  }

  /** One file with one copy: writing the letter over itself leaves two. */
  lemma HiddenCopyAppears(p: Path)
    requires IsYaml(p)
    ensures var files: Files, job := map[p := HIDING], Job(LETTER_MATCHER, [LETTER], Verbatim);
      && AtMostOneCopy(files, LETTER_MATCHER) && PlacesOneDocument(files, job, p)
      && !OneCopyAt(Placed(files, [p], job, None, true, Ok(p), Artifact(Some([LETTER]))).files, LETTER_MATCHER, p)
  {
    var files: Files, job := map[p := HIDING], Job(LETTER_MATCHER, [LETTER], Verbatim);
    HidingFile();
    HidingWorktree(p);
    forall e ensures WritesOneDocument(job, p, e) { LetterIsOneDocument(p, e); }
    var at := PlacesSomewhere(files, [p], job, None, p, Artifact(Some([LETTER])));
    PlacesOneCopy(files, [p], job, p, Placed(files, [p], job, None, true, Ok(p), Artifact(Some([LETTER]))), at);
  }

  /** Deleting the letter leaves one. */
  lemma HiddenCopyStays(p: Path)
    requires IsYaml(p)
    ensures var files: Files, job := map[p := HIDING], Job(LETTER_MATCHER, [], Verbatim);
      && AtMostOneCopy(files, LETTER_MATCHER)
      && Walk(files, [p], job).error.None?
      && var after := Walk(files, [p], job).files;
      FindIn(after, Remaining([p], after), LETTER_MATCHER) != Ok(None)
  {
    var files: Files, job := map[p := HIDING], Job(LETTER_MATCHER, [], Verbatim);
    HidingFile();
    HidingWorktree(p);
    WalkOneMatch(files, [p], job, p);
    DeleteClears(files, p, job);
    assert p in [p];
    FindsNothingDeleted(files, [p], job);
  }

  // ---------- finder or layout ----------

  /** Without the finder, or when no file holds the object, an artifact is laid at its layout path and no other file changes. */
  lemma PlacedByLayout(files: Files, order: seq<Path>, job: Job, remembered: Option<Path>, finder: bool, path: Result<Path>, a: Artifact)
    requires Orders(order, files) && (remembered.Some? ==> IsYaml(remembered.value))
    requires !finder || NoHolder(files, job.matches)
    ensures var r := Placed(files, order, job, remembered, finder, path, a);
      && r == Laid(files, path, a, job.transform)
      && forall q :: path != Ok(q) ==> (q in r.files <==> q in files) && (q in files ==> r.files[q] == files[q])
  {
    if finder {
      assert forall q :: q in order ==> q in files && !HasMatch(files[q], job.matches);
      WalkWithOneCopy(files, order, job, remembered);
    }
  }

  /** With the finder, a file that holds the object settles it: the layout path plays no part. */
  lemma PlacedByFinder(files: Files, order: seq<Path>, job: Job, remembered: Option<Path>, path: Result<Path>, a: Artifact,
                       other: Result<Path>, b: Artifact, p: Path)
    requires Orders(order, files) && (remembered.Some? ==> IsYaml(remembered.value))
    requires p in files && IsYaml(p) && HasMatch(files[p], job.matches)
    ensures var r := Placed(files, order, job, remembered, true, path, a);
      && r == Placed(files, order, job, remembered, true, other, b)
      && (r.error.None? ==> r.claims.add != [] || r.claims.del != [])
  {
    if remembered.Some? && Usable(files, remembered.value, job.matches) {
      RewriteMatches(files, remembered.value, job);
    } else {
      ClaimsEveryHolder(files, order, job);
      HoldersAre(files, order, job.matches);
      assert p in Holders(files, order, job.matches);
    }
  }

  // ---------- placing again ----------

  /** Transformed in the place of d, the content is d again, up to the newlines at the end. */
  predicate GivesTheSame(job: Job, p: Path, d: Bytes) {
    var r := job.transform.Apply(p, Some(d), job.content);
    r.Ok? && TrimNewlines(r.value) == TrimNewlines(d)
  }

  lemma {:induction false} TrimBehind(front: Bytes, s: Bytes)
    requires TrimNewlines(s) != []
    ensures TrimNewlines(front + s) == front + TrimNewlines(s)
    decreases |s|
  {
    assert (front + s)[|front + s| - 1] == s[|s| - 1];
    if s[|s| - 1] == NL {
      TrimBehind(front, s[..|s| - 1]);
      assert (front + s)[..|front + s| - 1] == front + s[..|s| - 1];
    }
  }

  lemma TrimMerged(docs: seq<Bytes>)
    ensures TrimNewlines(Merged(docs)) == TrimNewlines(Join(docs))
  {
    TrimFinalNewline(Join(docs));
  }

  /** The bytes around one document of a file. */
  lemma JoinAround(front: seq<Bytes>, d: Bytes, back: seq<Bytes>)
    requires back != []
    ensures Join(front + [d] + back) == Join(front + [[]]) + (d + (SEPARATOR + Join(back)))
  {
    JoinAppend(front + [d], back);
    JoinLast(front, [], d);
    assert [] + d == d;
    ConcatAssociative(Join(front + [[]]), d, SEPARATOR + Join(back));
  }

  lemma {:induction false} JoinAppend(a: seq<Bytes>, b: seq<Bytes>)
    requires a != [] && b != []
    ensures Join(a + b) == Join(a) + (SEPARATOR + Join(b))
    decreases |a|
  {
    ConcatCons(a, b);
    if |a| == 1 {
      assert a[1..] + b == b;
      ConcatAssociative(a[0], SEPARATOR, Join(b));
    } else {
      JoinAppend(a[1..], b);
      ConcatAssociative(a[0] + SEPARATOR, Join(a[1..]), SEPARATOR + Join(b));
    }
  }

  lemma Cancel(front: Bytes, a: Bytes, b: Bytes, back: Bytes)
    ensures front + (a + back) == front + (b + back) <==> a == b
  {
    if front + (a + back) == front + (b + back) {
      SameTail(front, a + back, b + back);
      assert |a| == |b|;
      assert (a + back)[..|a|] == a && (b + back)[..|b|] == b;
    }
  }

  /** Between other documents: the file stays the same exactly when the document does. */
  lemma SameInside(front: seq<Bytes>, d: Bytes, e: Bytes, back: seq<Bytes>)
    requires back != []
    ensures TrimNewlines(Join(front + [e] + back)) == TrimNewlines(Join(front + [d] + back)) <==> e == d
  {
    JoinAround(front, d, back);
    JoinAround(front, e, back);
    var P, S := Join(front + [[]]), SEPARATOR + Join(back);
    SeparatorStays(Join(back));
    TrimBehind(P + d, S);
    TrimBehind(P + e, S);
    ConcatAssociative(P, d, S);
    ConcatAssociative(P, e, S);
    ConcatAssociative(P, d, TrimNewlines(S));
    ConcatAssociative(P, e, TrimNewlines(S));
    Cancel(P, e, d, TrimNewlines(S));
  }

  lemma SeparatorStays(s: Bytes)
    ensures TrimNewlines(SEPARATOR + s) != []
  {
    assert (SEPARATOR + s)[1] == DASH;
  }

  /** At the end of the file: exactly when it does up to its trailing newlines. */
  lemma SameAtEnd(front: seq<Bytes>, d: Bytes, e: Bytes)
    requires TrimNewlines(d) != [] && TrimNewlines(e) == e
    ensures TrimNewlines(Join(front + [e])) == TrimNewlines(Join(front + [d])) <==> e == TrimNewlines(d)
  {
    var P := Join(front + [[]]);
    JoinLast(front, [], d);
    JoinLast(front, [], e);
    assert [] + d == d && [] + e == e;
    TrimBehind(P, d);
    if e != [] {
      TrimBehind(P, e);
      SameTail(P, e, TrimNewlines(d));
    } else {
      assert P + e == P;
      assert |TrimNewlines(P)| <= |P| < |P + TrimNewlines(d)|;
    }
  }

  lemma SameFile(docs: seq<Bytes>, m: nat, e: Bytes)
    requires m < |docs| && TrimNewlines(docs[m]) != [] && TrimNewlines(e) == e
    requires m + 1 < |docs| ==> TrimNewlines(docs[m]) == docs[m]
    ensures TrimNewlines(Merged(docs[m := e])) == TrimNewlines(Join(docs)) <==> e == TrimNewlines(docs[m])
  {
    var front, back := docs[..m], docs[m + 1..];
    TrimMerged(docs[m := e]);
    if back == [] {
      assert docs == front + [docs[m]] && docs[m := e] == front + [e];
      SameAtEnd(front, docs[m], e);
    } else {
      assert docs == front + [docs[m]] + back && docs[m := e] == front + [e] + back;
      SameInside(front, docs[m], e, back);
    }
  }

  /** The document that answers first has no newlines behind it unless it is the last one. */
  predicate TidyFirst(content: Bytes, matches: Matcher) {
    match FirstMatch(Split(content), matches)
    case None => true
    case Some(m) => m + 1 < |Split(content)| ==> TrimNewlines(Split(content)[m]) == Split(content)[m]
  }

  /** Writing the content over such a document again leaves the file as it was, up to its last newlines, if and only if the document is the same again. */
  lemma RewriteAgain(files: Files, p: Path, job: Job)
    requires p in files && HasMatch(files[p], job.matches) && Sensible(job.matches) && job.content != []
    requires TidyFirst(files[p], job.matches)
    ensures FirstMatching(files[p], job.matches).Some?
    ensures var r := Rewrite(files, p, job);
      r.Rewritten? && TrimNewlines(r.out) == TrimNewlines(files[p])
      <==> GivesTheSame(job, p, FirstMatching(files[p], job.matches).value)
    ensures !IsBlank(files[p]) && !IsBlank(TrimNewlines(files[p]))
  {
    var docs := Split(files[p]);
    RewriteMatches(files, p, job);
    var m := FirstMatch(docs, job.matches).value;
    JoinSplit(files[p]);
    assert job.matches(docs[m]) == job.matches(TrimNewlines(docs[m]));
    var r := job.transform.Apply(p, Some(docs[m]), job.content);
    if r.Ok? {
      TrimTwice(r.value);
      SameFile(docs, m, TrimNewlines(r.value));
    }
    if IsBlank(files[p]) { NothingIn(files[p], job.matches); }
    BlankTrimmed(files[p]);
  }

  lemma TrimTwice(s: Bytes)
    ensures TrimNewlines(TrimNewlines(s)) == TrimNewlines(s)
  {
  }

  lemma BlankTrimmed(s: Bytes)
    ensures IsBlank(TrimNewlines(s)) ==> IsBlank(s)
  {
    var t := TrimNewlines(s);
    if IsBlank(t) {
      forall i | 0 <= i < |s| ensures IsSpace(s[i]) { assert i < |t| ==> s[i] == t[i]; }
    }
  }

  /** What was placed once is tidy. */
  lemma PlacedIsTidy(files: Files, order: seq<Path>, job: Job, layout: Path, once: Outcome, p: Path)
    requires Orders(order, files) && IsYaml(layout) && AtMostOneFile(files, job.matches)
    requires Sensible(job.matches) && PlacesOneDocument(files, job, layout)
    requires PlacesAt(files, order, job, layout, once, p)
    ensures p in once.files && TidyFirst(once.files[p], job.matches)
    ensures job.transform.Verbatim? ==> IsStored(once.files[p], job.matches, job.content)
  {
    if p in order && p in files && HasMatch(files[p], job.matches) {
      RewriteIsTidy(files, p, job);
    } else {
      WrittenHasOneMatch(job, p, FileAt(files, p));
      FirstMatchIs(Split(once.files[p]), job.matches, 0);
    }
  }

  /** The document that answers first is this one, up to the newlines at the end. */
  predicate IsStored(content: Bytes, matches: Matcher, stored: Bytes) {
    FirstMatching(content, matches).Some? && TrimNewlines(FirstMatching(content, matches).value) == TrimNewlines(stored)
  }

  lemma RewriteIsTidy(files: Files, p: Path, job: Job)
    requires p in files && HasMatch(files[p], job.matches) && Sensible(job.matches)
    requires WritesOneDocument(job, p, FirstMatching(files[p], job.matches))
    ensures var r := Rewrite(files, p, job);
      && r.Rewritten? && TidyFirst(r.out, job.matches)
      && IsStored(r.out, job.matches, Written(job, p, FirstMatching(files[p], job.matches)))
  {
    var docs := Split(files[p]);
    RewriteMatches(files, p, job);
    var m := FirstMatch(docs, job.matches).value;
    WrittenMatches(job, p, Some(docs[m]));
    var d := TrimNewlines(Written(job, p, Some(docs[m])));
    TrimTwice(Written(job, p, Some(docs[m])));
    SensibleFinalNewline(job.matches, d);
    SplitWellSeparated(files[p]);
    StoredIsFirst(docs, m, d, job.matches);
    FirstMatchIs(Split(Merged(docs[m := d])), job.matches, m);
    RereadIs(docs[m := d]);
    TrimFinalNewline(d);
    assert m + 1 == |docs| ==> |Reread(docs[m := d])| == |docs|;
  }

  /** Only the file at p differs, and only in the newlines at its end. */
  ghost predicate SameFiles(before: Files, after: Files, p: Path) {
    && after.Keys == before.Keys
    && (forall q :: q in before && q != p ==> after[q] == before[q])
    && (p in before ==> TrimNewlines(after[p]) == TrimNewlines(before[p]))
  }

  /** The same claims, and the same files but for the newlines at the end of the one claimed. */
  ghost predicate SameButNewlines(once: Outcome, twice: Outcome) {
    && twice.error == None && twice.claims == once.claims && once.claims.add != []
    && SameFiles(once.files, twice.files, once.claims.add[0])
  }

  lemma StoredSameFiles(files: Files, p: Path, out: Bytes)
    requires p in files && (IsBlank(out) ==> TrimNewlines(out) != TrimNewlines(files[p]))
    ensures SameFiles(files, Stored(files, p, out), p) <==> TrimNewlines(out) == TrimNewlines(files[p])
  {
    var after := Stored(files, p, out);
    if out == files[p] {
      assert after == files;
    } else if IsBlank(out) {
      assert p !in after;
    } else {
      assert after == files[p := out];
    }
  }

  lemma StoredSameButNewlines(once: Outcome, p: Path, out: Bytes)
    requires once.error == None && once.claims == Claims([p], []) && p in once.files && !IsBlank(TrimNewlines(once.files[p]))
    ensures SameButNewlines(once, Outcome(Stored(once.files, p, out), once.claims, None)) <==>
      TrimNewlines(out) == TrimNewlines(once.files[p])
  {
    BlankPrefix(out);
    StoredSameFiles(once.files, p, out);
  }

  lemma BlankPrefix(s: Bytes)
    ensures IsBlank(s) ==> IsBlank(TrimNewlines(s))
  {
    var t := TrimNewlines(s);
    assert forall i :: 0 <= i < |t| ==> t[i] == s[i];
  }

  /** The document of the file placed that the next placement would replace. */
  ghost function PlacedDocument(once: Outcome, matches: Matcher): Option<Bytes> {
    if once.claims.add != [] then ReplacedAt(once.files, once.claims.add[0], matches) else None
  }

  /**
   Placing the same artifact again, with any cache, changes at most the newlines at the end of
   the one file it claims, if and only if the transform, handed the document that is there
   now, gives the same document again.
   */
  lemma PlaceAgain(files: Files, order: seq<Path>, job: Job, remembered: Option<Path>, layout: Path, a: Artifact,
                   order': seq<Path>, remembered': Option<Path>)
    requires Orders(order, files) && (remembered.Some? ==> IsYaml(remembered.value)) && IsYaml(layout)
    requires AtMostOneFile(files, job.matches)
    requires Sensible(job.matches) && PlacesOneDocument(files, job, layout) && a.content == Some(job.content)
    requires Orders(order', Placed(files, order, job, remembered, true, Ok(layout), a).files)
    requires remembered'.Some? ==> IsYaml(remembered'.value)
    ensures var once := Placed(files, order, job, remembered, true, Ok(layout), a);
      && PlacedDocument(once, job.matches).Some?
      && (SameButNewlines(once, Placed(once.files, order', job, remembered', true, Ok(layout), a))
          <==> GivesTheSame(job, once.claims.add[0], PlacedDocument(once, job.matches).value))
  {
    var p := PlacesSomewhere(files, order, job, remembered, layout, a);
    var once := Placed(files, order, job, remembered, true, Ok(layout), a);
    PlacesInOneFile(files, order, job, layout, once, p);
    PlacedIsTidy(files, order, job, layout, once, p);
    SecondPlacement(once, order', job, remembered', layout, a, p);
  }

  lemma SecondPlacement(once: Outcome, order': seq<Path>, job: Job, remembered': Option<Path>, layout: Path, a: Artifact, p: Path)
    requires once.error == None && once.claims == Claims([p], []) && OnlyHolder(once.files, job.matches, p)
    requires TidyFirst(once.files[p], job.matches) && Sensible(job.matches) && job.content != []
    requires Orders(order', once.files) && (remembered'.Some? ==> IsYaml(remembered'.value))
    ensures PlacedDocument(once, job.matches).Some?
    ensures SameButNewlines(once, Placed(once.files, order', job, remembered', true, Ok(layout), a))
      <==> GivesTheSame(job, p, PlacedDocument(once, job.matches).value)
  {
    RewriteAgain(once.files, p, job);
    RewriteMatches(once.files, p, job);
    WalkWithOneCopy(once.files, order', job, remembered');
    var r := Rewrite(once.files, p, job);
    if r.Rewritten? { StoredSameButNewlines(once, p, r.out); }
  }

  /** Without a transform it always does. */
  lemma PlaceAgainVerbatim(files: Files, order: seq<Path>, job: Job, remembered: Option<Path>, layout: Path, a: Artifact,
                           order': seq<Path>, remembered': Option<Path>)
    requires Orders(order, files) && (remembered.Some? ==> IsYaml(remembered.value)) && IsYaml(layout)
    requires AtMostOneFile(files, job.matches) && job.transform.Verbatim?
    requires Sensible(job.matches) && PlacesOneDocument(files, job, layout) && a.content == Some(job.content)
    requires Orders(order', Placed(files, order, job, remembered, true, Ok(layout), a).files)
    requires remembered'.Some? ==> IsYaml(remembered'.value)
    ensures var once := Placed(files, order, job, remembered, true, Ok(layout), a);
      SameButNewlines(once, Placed(once.files, order', job, remembered', true, Ok(layout), a))
  {
    PlaceAgain(files, order, job, remembered, layout, a, order', remembered');
    var p := PlacesSomewhere(files, order, job, remembered, layout, a);
    PlacedIsTidy(files, order, job, layout, Placed(files, order, job, remembered, true, Ok(layout), a), p);
  }
}
