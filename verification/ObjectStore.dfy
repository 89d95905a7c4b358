/**
 The object-level operations on a worktree and the document path cache that lets a
 replacement skip the full walk (internal/walker/object.go, internal/walker/cache.go).
 */
module ObjectStore {
  import opened Common
  import opened Selectors
  import opened Documents
  import opened Walking
  import opened Objects
  import Lfu
  import Splitting

  datatype CacheKey = CacheKey(scope: string, sel: Selector)

  /** The file that held the document; noCache once the key has matched more than one file. */
  datatype CacheValue = CacheValue(path: Path, noCache: bool)

  type DocCache = Lfu.LFU?<CacheKey, CacheValue>

  type CacheView = map<CacheKey, CacheValue>

  ghost function View(entries: Lfu.Entries<CacheKey, CacheValue>): CacheView {
    map k | k in entries :: entries[k].value
  }

  ghost function ViewOf(cache: DocCache): CacheView
    reads cache
  {
    if cache == null then map[] else View(cache.entries)
  }

  /** Every remembered path is one a full walk visits. */
  ghost predicate FromWalks(view: CacheView) {
    forall k :: k in view && !view[k].noCache ==> IsYaml(view[k].path)
  }

  /** The path the fast path tries. */
  ghost function Remembered(view: CacheView, key: CacheKey): Option<Path> {
    if key in view && !view[key].noCache then Some(view[key].path) else None
  }

  /** What recordMatches stores for the files a walk matched. */
  function Record(matched: seq<Path>): Option<CacheValue> {
    if |matched| == 0 then None
    else if |matched| == 1 then Some(CacheValue(matched[0], false))
    else Some(CacheValue([], true))
  }

  /** The cache afterwards: the key holds what was recorded, other entries are kept or evicted. */
  ghost predicate Recorded(before: CacheView, key: CacheKey, value: Option<CacheValue>, after: CacheView) {
    && (forall k :: k in after && k != key ==> k in before && after[k] == before[k])
    && (key in after ==> value == Some(after[key]))
  }

  /**
   What a call writes to its cache key once it is done, given the path it found remembered:
   None leaves the cache alone, Some(None) forgets the key.
   */
  ghost function NoteFor(files: Files, order: seq<Path>, job: Job, hit: Option<Path>): Option<Option<CacheValue>> {
    if Cached(files, order, job, hit).error.Some? then None
    else if job.content == [] then Some(None)
    else if hit.Some? && Usable(files, hit.value, job.matches) then None
    else Some(Record(Walk(files, order, job).matched))
  }

  ghost predicate Noted(before: CacheView, key: CacheKey, note: Option<Option<CacheValue>>, after: CacheView) {
    match note
    case None => after == before
    case Some(value) => Recorded(before, key, value, after)
  }

  /** One call of ReplaceObject, on values: the outcome, and what the cache may look like afterwards. */
  ghost predicate ReplaceStep(files: Files, order: seq<Path>, view: CacheView, key: CacheKey, job: Job,
                              outcome: Outcome, after: CacheView) {
    var hit := Remembered(view, key);
    outcome == Cached(files, order, job, hit) && Noted(view, key, NoteFor(files, order, job, hit), after)
  }

  /** Notes are paths of walks, so a cache that held only such paths still does. */
  lemma NoteKeepsWalks(files: Files, order: seq<Path>, job: Job, hit: Option<Path>,
                       before: CacheView, key: CacheKey, after: CacheView)
    requires FromWalks(before) && Orders(order, files) && Noted(before, key, NoteFor(files, order, job, hit), after)
    ensures FromWalks(after)
  {
    WalkMatchesVisited(files, order, job);
    var matched := Walk(files, order, job).matched;
    assert |matched| == 1 ==> matched[0] in matched;
  }

  lemma WalkMatchesVisited(files: Files, order: seq<Path>, job: Job)
    ensures forall p :: p in Walk(files, order, job).matched ==> p in order
    decreases |order|
  {
  }

  /** What a call does with a cache of walked paths: the walk's work, if the object is in at most one file. */
  lemma StepIsUncached(files: Files, order: seq<Path>, view: CacheView, key: CacheKey, job: Job, outcome: Outcome, after: CacheView)
    requires ReplaceStep(files, order, view, key, job, outcome, after) && Orders(order, files) && FromWalks(view)
    ensures FromWalks(after)
    ensures AtMostOneFile(files, job.matches) ==> outcome == Uncached(files, order, job)
  {
    NoteKeepsWalks(files, order, job, Remembered(view, key), view, key, after);
    if AtMostOneFile(files, job.matches) { CacheMakesNoDifference(files, order, job, Remembered(view, key)); }
  }

  class Worktree {
    var files: Files

    constructor (files: Files)
      ensures this.files == files
    {
      this.files := files;
    }

    /** Rewrites one file when it holds a match; found reports whether it does. */
    method ApplyReplacement(p: Path, job: Job) returns (found: bool, error: Option<string>)
      requires p in files
      modifies this
      ensures match Rewrite(old(files), p, job)
        case NoMatch => !found && error == None && files == old(files)
        case Failed(e) => found && error == Some(e) && files == old(files)
        case Rewritten(out) => found && error == None && files == Stored(old(files), p, out)
    {
      var content := files[p];
      var r := ReplaceDocInContentFunc(content, job.matches, job.content, p, job.transform);
      match r {
        case NoMatch => return false, None;
        case Failed(e) => return true, Some(e);
        case Rewritten(out) =>
          if out != content {
            if IsBlank(out) {
              files := files - {p};
            } else {
              files := files[p := out];
            }
          }
          return true, None;
      }
    }

    /**
     Writes (or deletes) an object at an explicit path: in the place of the document it
     occupies there, behind the file's documents when there is none, or as a new file.
     */
    method WriteObjectAtPath(p: Path, matches: Matcher, content: Bytes, transform: Transform)
      returns (claims: Claims, error: Option<string>)
      modifies this
      ensures Outcome(files, claims, error) == WrittenAt(old(files), p, matches, content, transform)
    {
      if |content| == 0 {
        files := files - {p};
        return Claims([], [p]), None;
      }
      var existing := if p in files then files[p] else [];
      var r := ReplaceDocInContentFunc(existing, matches, content, p, transform);
      var out;
      match r {
        case Failed(e) => return NO_CLAIMS, Some(e);
        case Rewritten(merged) => out := merged;
        case NoMatch =>
          var transformed := transform.Apply(p, None, content);
          if transformed.Err? {
            return NO_CLAIMS, Some(transformed.error);
          }
          out := if p in files then Appended(existing, transformed.value) else transformed.value;
      }
      files := files[p := out];
      return Claims([p], []), None;
    }

    /** The recursive full walk, rewriting every matching file under base. */
    method WalkReplace(base: Path, entries: seq<DirEntry>, job: Job) returns (matched: seq<Path>, error: Option<string>)
      modifies this
      ensures Walked(files, matched, error) == Walk(old(files), Visited(base, entries), job)
      decreases entries
    {
      matched := [];
      error := None;
      assert Visited(base, entries[..0]) == [];
      for i := 0 to |entries|
        invariant error == None
        invariant Walked(files, matched, None) == Walk(old(files), Visited(base, entries[..i]), job)
      {
        ghost var before := Visited(base, entries[..i]);
        VisitedStep(base, entries, i);
        WalkConcat(old(files), before, VisitedAt(base, entries[i]), job);
        match entries[i] {
          case SubDir(name, sub) =>
            var below, e := WalkReplace(base + [name], sub, job);
            matched := matched + below;
            if e.Some? {
              WalkConcat(old(files), Visited(base, entries[..i + 1]), Visited(base, entries[i + 1..]), job);
              return matched, e;
            }
          case FileEntry(name) =>
            if IsYamlName(name) {
              var p := base + [name];
              if p !in files {
                WalkConcat(old(files), Visited(base, entries[..i + 1]), Visited(base, entries[i + 1..]), job);
                return matched, Some(READ_ERROR);
              }
              ghost var now := files;
              var found, e := ApplyReplacement(p, job);
              WalkOnePath(now, p, job);
              if e.Some? {
                WalkConcat(old(files), Visited(base, entries[..i + 1]), Visited(base, entries[i + 1..]), job);
                return matched, e;
              }
              if found {
                matched := matched + [p];
              }
            }
        }
      }
      assert entries[..|entries|] == entries;
    }
  }

  // ---------- the cache as a map from keys to paths ----------

  lemma LfuGetRecords(m: Lfu.Entries<CacheKey, CacheValue>, max: nat, key: CacheKey,
                      reply: Option<CacheValue>, after: Lfu.Entries<CacheKey, CacheValue>)
    requires Lfu.Step(m, max, Lfu.Op.Get(key), reply, after)
    ensures View(after) == View(m) && reply == if key in m then Some(View(m)[key]) else None
  {
  }

  lemma LfuSetRecords(m: Lfu.Entries<CacheKey, CacheValue>, max: nat, key: CacheKey, value: CacheValue,
                      after: Lfu.Entries<CacheKey, CacheValue>)
    requires Lfu.Step(m, max, Lfu.Op.Set(key, value), None, after)
    ensures Recorded(View(m), key, Some(value), View(after))
  {
  }

  method Lookup(cache: DocCache, key: CacheKey) returns (r: Option<CacheValue>)
    requires cache != null ==> cache.Valid()
    modifies cache
    ensures cache != null ==> cache.Valid()
    ensures ViewOf(cache) == old(ViewOf(cache))
    ensures r == if key in old(ViewOf(cache)) then Some(old(ViewOf(cache))[key]) else None
  {
    if cache == null {
      return None;
    }
    r := cache.Get(key);
    LfuGetRecords(old(cache.entries), cache.max, key, r, cache.entries);
  }

  method Forget(cache: DocCache, key: CacheKey)
    requires cache != null ==> cache.Valid()
    modifies cache
    ensures cache != null ==> cache.Valid()
    ensures Recorded(old(ViewOf(cache)), key, None, ViewOf(cache))
    ensures Remembered(ViewOf(cache), key) == None
  {
    if cache != null {
      cache.Delete(key);
    }
  }

  method RecordMatches(cache: DocCache, key: CacheKey, matched: seq<Path>)
    requires cache != null ==> cache.Valid()
    modifies cache
    ensures cache != null ==> cache.Valid()
    ensures Recorded(old(ViewOf(cache)), key, Record(matched), ViewOf(cache))
    ensures Remembered(ViewOf(cache), key) == if |matched| == 1 && cache != null then Some(matched[0]) else None
  {
    if |matched| == 0 {
      Forget(cache, key);
    } else if cache != null {
      var value := if |matched| == 1 then CacheValue(matched[0], false) else CacheValue([], true);
      cache.Set(key, value);
      LfuSetRecords(old(cache.entries), cache.max, key, value, cache.entries);
    }
  }

  /**
   Replaces (or deletes) the document sel designates and reports the paths it claims. A path is
   remembered afterwards exactly when the object was written to that one file; a deletion, no
   match at all or matches in several files leave none.
   */
  method ReplaceObject(wt: Worktree, entries: seq<DirEntry>, cache: DocCache, y: Yaml, scope: string, sel: Selector,
                       content: Bytes, transform: Transform)
    returns (claims: Claims, error: Option<string>)
    requires Lists(entries, wt.files)
    requires cache != null ==> cache.Valid()
    modifies wt, cache
    ensures cache != null ==> cache.Valid()
    ensures ReplaceStep(old(wt.files), Visited([], entries), old(ViewOf(cache)), CacheKey(scope, sel),
                        Job(Matching(y, sel), content, transform), Outcome(wt.files, claims, error), ViewOf(cache))
    ensures FromWalks(old(ViewOf(cache))) ==> FromWalks(ViewOf(cache))
    ensures FromWalks(old(ViewOf(cache))) && AtMostOneFile(old(wt.files), Matching(y, sel)) ==>
      Outcome(wt.files, claims, error) == Uncached(old(wt.files), Visited([], entries), Job(Matching(y, sel), content, transform))
    ensures if error.Some? then ViewOf(cache) == old(ViewOf(cache))
      else Remembered(ViewOf(cache), CacheKey(scope, sel)) == if |claims.add| == 1 && cache != null then Some(claims.add[0]) else None
  {
    claims, error := ReplaceWithCache(wt, entries, cache, y, scope, sel, content, transform);
    ListedOrder(entries, old(wt.files));
    if FromWalks(old(ViewOf(cache))) {
      StepIsUncached(old(wt.files), Visited([], entries), old(ViewOf(cache)), CacheKey(scope, sel),
                     Job(Matching(y, sel), content, transform), Outcome(wt.files, claims, error), ViewOf(cache));
    }
  }

  /** What a call on a usable remembered path does. */
  lemma CachedAt(files: Files, order: seq<Path>, job: Job, p: Path)
    requires Usable(files, p, job.matches)
    ensures !Rewrite(files, p, job).NoMatch?
    ensures Cached(files, order, job, Some(p)) ==
      match Rewrite(files, p, job)
      case Failed(e) => Outcome(files, NO_CLAIMS, Some(e))
      case Rewritten(out) => Outcome(Stored(files, p, out), ClaimsOf(job, [p]), None)
  {
    RewriteMatches(files, p, job);
  }

  /** The cached path: the file is rewritten if it still holds a match. */
  method ReplaceRemembered(wt: Worktree, p: Path, job: Job, ghost order: seq<Path>)
    returns (found: bool, claims: Claims, error: Option<string>)
    modifies wt
    ensures found <==> Usable(old(wt.files), p, job.matches)
    ensures !found ==> wt.files == old(wt.files)
    ensures found ==> Outcome(wt.files, claims, error) == Cached(old(wt.files), order, job, Some(p))
  {
    claims, error := NO_CLAIMS, None;
    if p !in wt.files {
      return false, claims, error;
    }
    ghost var before := wt.files;
    RewriteMatches(wt.files, p, job);
    found, error := wt.ApplyReplacement(p, job);
    if found {
      CachedAt(before, order, job, p);
      if error.None? {
        claims := if |job.content| == 0 then Claims([], [p]) else Claims([p], []);
      }
    }
  }

  /** The full walk, and what it remembers. */
  method ReplaceByWalk(wt: Worktree, entries: seq<DirEntry>, cache: DocCache, key: CacheKey, job: Job)
    returns (claims: Claims, error: Option<string>)
    requires cache != null ==> cache.Valid()
    modifies wt, cache
    ensures cache != null ==> cache.Valid()
    ensures Outcome(wt.files, claims, error) == Uncached(old(wt.files), Visited([], entries), job)
    ensures if error.Some? then ViewOf(cache) == old(ViewOf(cache))
      else Recorded(old(ViewOf(cache)), key,
                    if job.content == [] then None else Record(Walk(old(wt.files), Visited([], entries), job).matched),
                    ViewOf(cache))
    ensures error == None ==>
      Remembered(ViewOf(cache), key) == if |claims.add| == 1 && cache != null then Some(claims.add[0]) else None
  {
    var matched;
    matched, error := wt.WalkReplace([], entries, job);
    if error.Some? {
      return NO_CLAIMS, error;
    }
    if |job.content| == 0 {
      Forget(cache, key);
      return Claims([], matched), None;
    }
    RecordMatches(cache, key, matched);
    return Claims(matched, []), None;
  }

  /** The cached path first, the full walk otherwise. */
  method ReplaceWithCache(wt: Worktree, entries: seq<DirEntry>, cache: DocCache, y: Yaml, scope: string, sel: Selector,
                          content: Bytes, transform: Transform)
    returns (claims: Claims, error: Option<string>)
    requires cache != null ==> cache.Valid()
    modifies wt, cache
    ensures cache != null ==> cache.Valid()
    ensures ReplaceStep(old(wt.files), Visited([], entries), old(ViewOf(cache)), CacheKey(scope, sel),
                        Job(Matching(y, sel), content, transform), Outcome(wt.files, claims, error), ViewOf(cache))
    ensures if error.Some? then ViewOf(cache) == old(ViewOf(cache))
      else Remembered(ViewOf(cache), CacheKey(scope, sel)) == if |claims.add| == 1 && cache != null then Some(claims.add[0]) else None
  {
    var key := CacheKey(scope, sel);
    var job := Job(Matching(y, sel), content, transform);
    var v := Lookup(cache, key);
    if v.Some? && !v.value.noCache {
      var found;
      found, claims, error := ReplaceRemembered(wt, v.value.path, job, Visited([], entries));
      if found {
        if error.None? && |content| == 0 {
          Forget(cache, key);
        }
        return claims, error;
      }
    }
    claims, error := ReplaceByWalk(wt, entries, cache, key, job);
  }

  /** The first matching document of the worktree and the file that holds it. */
  method FindObject(wt: Worktree, entries: seq<DirEntry>, y: Yaml, sel: Selector) returns (r: Result<Option<(Path, Bytes)>>)
    ensures r == FindIn(wt.files, Visited([], entries), Matching(y, sel))
  {
    r := FindUnder(wt, [], entries, Matching(y, sel));
  }

  /** The recursive walk, stopped by the first match. */
  method FindUnder(wt: Worktree, base: Path, entries: seq<DirEntry>, matches: Matcher) returns (r: Result<Option<(Path, Bytes)>>)
    ensures r == FindIn(wt.files, Visited(base, entries), matches)
    decreases entries
  {
    assert Visited(base, entries[..0]) == [];
    for i := 0 to |entries|
      invariant FindIn(wt.files, Visited(base, entries[..i]), matches) == Ok(None)
    {
      VisitedStep(base, entries, i);
      FindConcat(wt.files, Visited(base, entries[..i]), VisitedAt(base, entries[i]), matches);
      FindConcat(wt.files, Visited(base, entries[..i + 1]), Visited(base, entries[i + 1..]), matches);
      match entries[i] {
        case SubDir(name, sub) =>
          r := FindUnder(wt, base + [name], sub, matches);
          if r != Ok(None) {
            return r;
          }
        case FileEntry(name) =>
          if IsYamlName(name) {
            r := FindInFile(wt, base + [name], matches);
            if r != Ok(None) {
              return r;
            }
          }
      }
    }
    assert entries[..|entries|] == entries;
    return Ok(None);
  }

  method FindInFile(wt: Worktree, p: Path, matches: Matcher) returns (r: Result<Option<(Path, Bytes)>>)
    ensures r == FindIn(wt.files, [p], matches)
  {
    assert FindIn(wt.files, [p][1..], matches) == Ok(None);
    if p !in wt.files {
      return Err(READ_ERROR);
    }
    var docs := Splitting.Split(wt.files[p]);
    for i := 0 to |docs|
      invariant forall j :: 0 <= j < i ==> !matches(docs[j])
    {
      if matches(docs[i]) {
        FirstMatchIs(docs, matches, i);
        return Ok(Some((p, docs[i])));
      }
    }
    return Ok(None);
  }

  // ---------- every interleaving of replacements on one cache ----------

  /** A replacement in a worktree of the caller's own. */
  datatype Call = Call(files: Files, order: seq<Path>, key: CacheKey, job: Job)

  /** Calls of parallel pipelines share the cache: each looks its key up first and writes its note last. */
  datatype Event = Look(call: nat) | Note(call: nat)

  ghost predicate EventStep(calls: seq<Call>, hits: seq<Option<Path>>, before: CacheView, e: Event, after: CacheView)
    requires |hits| == |calls|
  {
    && e.call < |calls|
    && var c := calls[e.call];
    match e
    case Look(_) => hits[e.call] == Remembered(before, c.key) && after == before
    case Note(_) => Noted(before, c.key, NoteFor(c.files, c.order, c.job, hits[e.call]), after)
  }

  ghost predicate EventAt(calls: seq<Call>, hits: seq<Option<Path>>, events: seq<Event>, views: seq<CacheView>, i: nat)
    requires |hits| == |calls| && i < |events| && |views| == |events| + 1
  {
    EventStep(calls, hits, views[i], events[i], views[i + 1])
  }

  /** hits[c] is the path call c found remembered, views are the cache after each event. */
  ghost predicate IsRun(calls: seq<Call>, hits: seq<Option<Path>>, events: seq<Event>, views: seq<CacheView>) {
    && |hits| == |calls| && |views| == |events| + 1
    && views[0] == map[]
    && (forall c :: 0 <= c < |calls| ==> Orders(calls[c].order, calls[c].files))
    && (forall i: nat :: i < |events| ==> EventAt(calls, hits, events, views, i))
  }

  /** Every path the cache ever remembers came from a full walk. */
  lemma {:induction false} RunRemembersWalks(calls: seq<Call>, hits: seq<Option<Path>>, events: seq<Event>, views: seq<CacheView>, n: nat)
    requires IsRun(calls, hits, events, views) && n <= |events|
    ensures FromWalks(views[n])
  {
    if n > 0 {
      var i := n - 1;
      RunRemembersWalks(calls, hits, events, views, i);
      assert EventAt(calls, hits, events, views, i);
      var c := calls[events[i].call];
      if events[i].Note? { NoteKeepsWalks(c.files, c.order, c.job, hits[events[i].call], views[i], c.key, views[n]); }
    }
  }

  /**
   However the lookups and the notes of parallel calls interleave, whatever each worktree
   looks like and whatever the cache has kept, lost or got wrong, a call whose object occupies
   at most one file does exactly what the walk without a cache does: same files, same claims,
   same error.
   */
  lemma CachedRunEqualsUncached(calls: seq<Call>, hits: seq<Option<Path>>, events: seq<Event>, views: seq<CacheView>, c: nat)
    requires IsRun(calls, hits, events, views) && c < |calls| && Look(c) in events
    requires AtMostOneFile(calls[c].files, calls[c].job.matches)
    ensures Cached(calls[c].files, calls[c].order, calls[c].job, hits[c]) == Uncached(calls[c].files, calls[c].order, calls[c].job)
  {
    var i: nat :| i < |events| && events[i] == Look(c);
    RunRemembersWalks(calls, hits, events, views, i);
    assert EventAt(calls, hits, events, views, i);
    CacheMakesNoDifference(calls[c].files, calls[c].order, calls[c].job, hits[c]);
  }

  /** The call walked, and found the object in several files. */
  ghost predicate FoundMany(c: Call, hit: Option<Path>) {
    && c.job.content != [] && !(hit.Some? && Usable(c.files, hit.value, c.job.matches))
    && Walk(c.files, c.order, c.job).error.None? && |Walk(c.files, c.order, c.job).matched| >= 2
  }

  /** Since event j nothing has been noted under the key. */
  ghost predicate QuietSince(calls: seq<Call>, events: seq<Event>, key: CacheKey, j: nat, i: nat) {
    forall k :: j < k < i && k < |events| && events[k].Note? && events[k].call < |calls| ==> calls[events[k].call].key != key
  }

  lemma {:induction false} StaysForgotten(calls: seq<Call>, hits: seq<Option<Path>>, events: seq<Event>, views: seq<CacheView>,
                                          key: CacheKey, j: nat, i: nat)
    requires IsRun(calls, hits, events, views) && j < i <= |events| && QuietSince(calls, events, key, j, i)
    requires Remembered(views[j + 1], key) == None
    ensures Remembered(views[i], key) == None
    decreases i
  {
    if j + 1 < i {
      StaysForgotten(calls, hits, events, views, key, j, i - 1);
      assert EventAt(calls, hits, events, views, i - 1);
    }
  }

  /**
   Once a walk has found the object in several files, every later call rewrites all of them,
   like the walk without a cache, with any number of holders: until another call notes
   something under the key, the fast path is not taken.
   */
  lemma ManyHoldersKeepBeingWalked(calls: seq<Call>, hits: seq<Option<Path>>, events: seq<Event>, views: seq<CacheView>,
                                   d: nat, j: nat, c: nat, i: nat)
    requires IsRun(calls, hits, events, views) && j < i < |events| && events[j] == Note(d) && events[i] == Look(c)
    requires c < |calls| && d < |calls| && calls[d].key == calls[c].key && FoundMany(calls[d], hits[d])
    requires QuietSince(calls, events, calls[c].key, j, i)
    ensures hits[c] == None
    ensures Cached(calls[c].files, calls[c].order, calls[c].job, hits[c]) == Uncached(calls[c].files, calls[c].order, calls[c].job)
  {
    assert EventAt(calls, hits, events, views, j) && EventAt(calls, hits, events, views, i);
    StaysForgotten(calls, hits, events, views, calls[c].key, j, i);
  }

  /** A call with no other in between is a lookup and a note. */
  lemma StepIsLookAndNote(c: Call, before: CacheView, outcome: Outcome, after: CacheView)
    ensures ReplaceStep(c.files, c.order, before, c.key, c.job, outcome, after) <==>
      exists hit ::
        && EventStep([c], [hit], before, Look(0), before) && EventStep([c], [hit], before, Note(0), after)
        && outcome == Cached(c.files, c.order, c.job, hit)
  {
    if ReplaceStep(c.files, c.order, before, c.key, c.job, outcome, after) {
      assert EventStep([c], [Remembered(before, c.key)], before, Look(0), before);
    }
  }

  lemma {:induction false} VisitedConcat(base: Path, a: seq<DirEntry>, b: seq<DirEntry>)
    ensures Visited(base, a + b) == Visited(base, a) + Visited(base, b)
    decreases |a|
  {
    if a == [] {
      assert a + b == b;
    } else {
      ConcatCons(a, b);
      VisitedConcat(base, a[1..], b);
      ConcatAssociative(VisitedAt(base, a[0]), Visited(base, a[1..]), Visited(base, b));
    }
  }

  lemma VisitedOne(base: Path, entry: DirEntry)
    ensures Visited(base, [entry]) == VisitedAt(base, entry)
  {
    assert [entry][1..] == [];
    assert VisitedAt(base, entry) + [] == VisitedAt(base, entry);
  }

  lemma VisitedStep(base: Path, entries: seq<DirEntry>, i: nat)
    requires i < |entries|
    ensures Visited(base, entries[..i + 1]) == Visited(base, entries[..i]) + VisitedAt(base, entries[i])
    ensures Visited(base, entries) == Visited(base, entries[..i + 1]) + Visited(base, entries[i + 1..])
  {
    assert entries[..i + 1] == entries[..i] + [entries[i]];
    VisitedOne(base, entries[i]);
    VisitedConcat(base, entries[..i], [entries[i]]);
    assert entries == entries[..i + 1] + entries[i + 1..];
    VisitedConcat(base, entries[..i + 1], entries[i + 1..]);
  }

  lemma WalkOnePath(files: Files, p: Path, job: Job)
    requires p in files
    ensures Walk(files, [p], job) ==
      match Rewrite(files, p, job)
      case NoMatch => Walked(files, [], None)
      case Failed(e) => Walked(files, [], Some(e))
      case Rewritten(out) => Walked(Stored(files, p, out), [p], None)
  {
    assert forall f: Files :: Walk(f, [p][1..], job) == Walked(f, [], None);
  }
}
