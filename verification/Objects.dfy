/** What finding and replacing an object does to the files of a worktree (internal/walker/object.go), on values. */
module Objects {
  import opened Common
  import opened Splitting
  import opened Documents
  import opened Walking

  type Files = map<Path, Bytes>

  /** One replacement request: content is empty for a deletion. */
  datatype Job = Job(matches: Matcher, content: Bytes, transform: Transform)

  datatype Claims = Claims(add: seq<Path>, del: seq<Path>)

  const NO_CLAIMS := Claims([], [])

  function ClaimsOf(job: Job, matched: seq<Path>): Claims {
    if job.content == [] then Claims([], matched) else Claims(matched, [])
  }

  ghost predicate HasMatch(content: Bytes, matches: Matcher) {
    exists d :: d in Split(content) && matches(d)
  }

  /** The listing describes exactly the files of the worktree. */
  ghost predicate Lists(entries: seq<DirEntry>, files: Files) {
    WellNamed(entries) && forall p :: HasFile([], entries, p) <==> p in files
  }

  /** order holds every YAML file of the worktree once. */
  ghost predicate Orders(order: seq<Path>, files: Files) {
    NoDuplicates(order) && forall p :: p in order <==> p in files && IsYaml(p)
  }

  lemma ListedOrder(entries: seq<DirEntry>, files: Files)
    requires Lists(entries, files)
    ensures Orders(Visited([], entries), files)
  {
    WalkIsComplete([], entries);
  }

  function Rewrite(files: Files, p: Path, job: Job): Replacement
    requires p in files
  {
    Replace(files[p], job.matches, job.content, p, job.transform)
  }

  /** Writing a rewritten file back; one that holds nothing but white space is removed. */
  function Stored(files: Files, p: Path, out: Bytes): Files
    requires p in files
  {
    if out == files[p] then files else if IsBlank(out) then files - {p} else files[p := out]
  }

  datatype Walked = Walked(files: Files, matched: seq<Path>, error: Option<string>)

  const READ_ERROR := "failed to read"

  /** The full walk: every matching file is rewritten, up to the first error. */
  function Walk(files: Files, order: seq<Path>, job: Job): Walked {
    if order == [] then Walked(files, [], None)
    else if order[0] !in files then Walked(files, [], Some(READ_ERROR))
    else
      match Rewrite(files, order[0], job)
      case NoMatch => Walk(files, order[1..], job)
      case Failed(e) => Walked(files, [], Some(e))
      case Rewritten(out) =>
        var rest := Walk(Stored(files, order[0], out), order[1..], job);
        rest.(matched := [order[0]] + rest.matched)
  }

  lemma {:induction false} WalkConcat(files: Files, a: seq<Path>, b: seq<Path>, job: Job)
    ensures var first := Walk(files, a, job);
      Walk(files, a + b, job) ==
      if first.error.Some? then first
      else
        var rest := Walk(first.files, b, job);
        rest.(matched := first.matched + rest.matched)
    decreases |a|
  {
    if a == [] {
      assert a + b == b;
    } else {
      ConcatCons(a, b);
      if a[0] in files {
        match Rewrite(files, a[0], job)
        case NoMatch => WalkConcat(files, a[1..], b, job);
        case Failed(_) =>
        case Rewritten(out) =>
          var next := Stored(files, a[0], out);
          WalkConcat(next, a[1..], b, job);
          var first := Walk(next, a[1..], job);
          ConcatAssociative([a[0]], first.matched, Walk(first.files, b, job).matched);
      }
    }
  }

  /** What a replacement leaves: the files, what it claims, and the error it reports. */
  datatype Outcome = Outcome(files: Files, claims: Claims, error: Option<string>)

  function Uncached(files: Files, order: seq<Path>, job: Job): Outcome {
    var w := Walk(files, order, job);
    if w.error.Some? then Outcome(w.files, NO_CLAIMS, w.error) else Outcome(w.files, ClaimsOf(job, w.matched), None)
  }

  /** What writing an object at an explicit path leaves. */
  function WrittenAt(files: Files, p: Path, matches: Matcher, content: Bytes, transform: Transform): Outcome {
    if content == [] then Outcome(files - {p}, Claims([], [p]), None)
    else
      match Replace(if p in files then files[p] else [], matches, content, p, transform)
      case Failed(e) => Outcome(files, NO_CLAIMS, Some(e))
      case Rewritten(out) => Outcome(files[p := out], Claims([p], []), None)
      case NoMatch =>
        (match transform.Apply(p, None, content)
         case Err(e) => Outcome(files, NO_CLAIMS, Some(e))
         case Ok(doc) =>
           Outcome(files[p := if p in files then Appended(files[p], doc) else doc], Claims([p], []), None))
  }

  // ---------- writing at an explicit path ----------

  /** A matcher does not look at the newlines a document ends in, nor finds anything in white space. */
  ghost predicate Sensible(matches: Matcher) {
    (forall d :: IsBlank(d) ==> !matches(d)) && (forall d :: matches(d) == matches(TrimNewlines(d)))
  }

  lemma SensibleFinalNewline(matches: Matcher, d: Bytes)
    requires Sensible(matches)
    ensures matches(WithFinalNewline(d)) == matches(d)
  {
    TrimFinalNewline(d);
    SameTrimmed(matches, d, WithFinalNewline(d));
  }

  lemma TrimFinalNewline(d: Bytes)
    ensures TrimNewlines(WithFinalNewline(d)) == TrimNewlines(d)
  {
    if WithFinalNewline(d) != d { assert WithFinalNewline(d)[..|d|] == d; }
  }

  /** The document an operation on this content would act on. */
  function FirstMatching(content: Bytes, matches: Matcher): Option<Bytes> {
    match FirstMatch(Split(content), matches)
    case None => None
    case Some(m) => Some(Split(content)[m])
  }

  /** The document a write at p would replace. */
  function ReplacedAt(files: Files, p: Path, matches: Matcher): Option<Bytes> {
    if p in files then FirstMatching(files[p], matches) else None
  }

  function LastOf(content: Bytes): Bytes {
    Split(content)[|Split(content)| - 1]
  }

  /** A document would be appended to a file that ends in a "---" line, which becomes a separator of its own. */
  predicate AppendsToRule(files: Files, p: Path, matches: Matcher) {
    p in files && FirstMatching(files[p], matches) == None && EndsInRule(LastOf(TrimNewlines(files[p])))
  }

  /**
   An object written at a path is found there again: the first matching document of the file
   is the content as it was stored, whether it replaced a document, was appended or is new. In
   a file that ends in a "---" line the document appended is read back with a second such line
   in front, and the document before it without its own; it is found if and only if one of
   the two matches like this.
   */
  lemma WrittenIsFound(files: Files, p: Path, matches: Matcher, content: Bytes, transform: Transform, stored: Bytes)
    requires content != [] && Sensible(matches)
    requires transform.Apply(p, ReplacedAt(files, p, matches), content) == Ok(stored)
    requires Closed(TrimNewlines(stored)) && matches(stored)
    ensures var after := WrittenAt(files, p, matches, content, transform);
      && after.error == None && after.claims == Claims([p], []) && p in after.files
      && (forall q :: q != p ==> (q in after.files <==> q in files) && (q in files ==> after.files[q] == files[q]))
      && (!AppendsToRule(files, p, matches) ==>
            FirstMatching(after.files[p], matches).Some?
            && TrimNewlines(FirstMatching(after.files[p], matches).value) == TrimNewlines(stored))
      && (AppendsToRule(files, p, matches) ==>
            var before := LastOf(TrimNewlines(files[p]));
            && Split(after.files[p]) == SplitFront(TrimNewlines(files[p])) + [BeforeRule(before)] + Split(RULE_LINE + WithFinalNewline(stored))
            && (HasMatch(after.files[p], matches) <==>
                  matches(BeforeRule(before)) || HasMatch(RULE_LINE + WithFinalNewline(stored), matches)))
  {
    var existing := if p in files then files[p] else [];
    match FirstMatch(Split(existing), matches)
    case Some(m) =>
      if p !in files { NothingIn([], matches); }
      ReplaceIs(existing, matches, content, p, transform, m);
      StoredIsFound(existing, m, stored, matches);
    case None =>
      ClosedWithNewlines(stored);
      if p !in files {
        SplitOne(stored);
        FirstMatchIs(Split(stored), matches, 0);
      } else if EndsInRule(LastOf(TrimNewlines(files[p]))) {
        AppendedToRule(files[p], stored, matches);
      } else {
        AppendedIsFound(files[p], stored, matches);
      }
  }

  function SplitFront(content: Bytes): seq<Bytes> {
    Split(content)[..|Split(content)| - 1]
  }

  lemma NothingIn(content: Bytes, matches: Matcher)
    requires IsBlank(content) && Sensible(matches)
    ensures FirstMatch(Split(content), matches) == None && !HasMatch(content, matches)
  {
    assert forall i :: SeparatorAt(content, i) ==> 0 <= i + 1 < |content| && !IsSpace(content[i + 1]);
    SplitOne(content);
    assert !matches(content);
  }

  lemma ClosedWithNewlines(w: Bytes)
    requires Closed(TrimNewlines(w))
    ensures SeparatorFree(w) && SeparatorFree(WithFinalNewline(w))
    ensures TrimNewlines(w) != [] ==> !EndsInRule(w)
  {
    var d := TrimNewlines(w);
    assert forall j :: SeparatorAt(w, j) ==> SeparatorAt(d, j) || EndsInRule(d);
    assert forall j :: SeparatorAt(WithFinalNewline(w), j) ==> SeparatorAt(d, j) || EndsInRule(d);
    assert EndsInRule(w) ==> d == w;
  }

  lemma StoredIsFound(existing: Bytes, m: nat, stored: Bytes, matches: Matcher)
    requires IsFirstMatch(Split(existing), matches, m) && Sensible(matches)
    requires Closed(TrimNewlines(stored)) && matches(stored)
    ensures var out := Merged(Split(existing)[m := TrimNewlines(stored)]);
      FirstMatching(out, matches).Some? && TrimNewlines(FirstMatching(out, matches).value) == TrimNewlines(stored)
  {
    var docs, d := Split(existing), TrimNewlines(stored);
    SplitWellSeparated(existing);
    SecondEdit(docs, m, d, []);
    SensibleFinalNewline(matches, d);
    TrimFinalNewline(d);
    var after := Split(Merged(docs[m := d]));
    assert forall i :: 0 <= i < m ==> after[i] == after[..m][i];
    assert matches(d);
    FirstMatchIs(after, matches, m);
  }

  /** Trimmed of its newlines, a file keeps its documents, except that a "---" line at its end no longer separates. */
  lemma TrimmedDocs(content: Bytes, newlines: Bytes)
    requires content == TrimNewlines(content) + newlines
    ensures Split(content) == SplitFront(TrimNewlines(content)) + Split(LastOf(TrimNewlines(content)) + newlines)
    ensures AllClosed(SplitFront(TrimNewlines(content))) && SeparatorFree(LastOf(TrimNewlines(content)))
  {
    var kept := TrimNewlines(content);
    var front, last := SplitFront(kept), LastOf(kept);
    SplitWellSeparated(kept);
    JoinSplit(kept);
    assert Split(kept) == front + [last];
    JoinLast(front, last, newlines);
    SplitTail(front, last + newlines);
  }

  lemma {:induction false} TrimAppended(s: Bytes, newlines: Bytes)
    requires forall i :: 0 <= i < |newlines| ==> newlines[i] == NL
    ensures TrimNewlines(s + newlines) == TrimNewlines(s)
    decreases |newlines|
  {
    if newlines != [] {
      var fewer := newlines[..|newlines| - 1];
      TrimAppended(s, fewer);
      assert (s + newlines)[..|s + newlines| - 1] == s + fewer;
    } else {
      assert s + newlines == s;
    }
  }

  lemma ClosedAppended(d: Bytes, newlines: Bytes)
    requires Closed(d) && forall i :: 0 <= i < |newlines| ==> newlines[i] == NL
    ensures Split(d + newlines) == [d + newlines]
  {
    assert forall j :: SeparatorAt(d + newlines, j) ==> SeparatorAt(d, j) || EndsInRule(d);
    SplitOne(d + newlines);
  }

  /** None of the documents in front of the appended one matches. */
  lemma NoneBefore(existing: Bytes, matches: Matcher)
    requires FirstMatching(existing, matches) == None && Sensible(matches)
    ensures forall d :: d in SplitFront(TrimNewlines(existing)) ==> !matches(d)
    ensures !EndsInRule(LastOf(TrimNewlines(existing))) ==> !matches(LastOf(TrimNewlines(existing)))
  {
    var kept := TrimNewlines(existing);
    var front, last, newlines := SplitFront(kept), LastOf(kept), existing[|kept|..];
    TrimmedDocs(existing, newlines);
    assert forall d :: d in front ==> d in Split(existing);
    if !EndsInRule(last) {
      ClosedAppended(last, newlines);
      assert (front + [last + newlines])[|front|] in Split(existing);
      TrimAppended(last, newlines);
      SameTrimmed(matches, last, last + newlines);
    }
  }

  lemma SameTrimmed(matches: Matcher, a: Bytes, b: Bytes)
    requires Sensible(matches) && TrimNewlines(a) == TrimNewlines(b)
    ensures matches(a) == matches(b)
  {
    assert matches(a) == matches(TrimNewlines(a)) && matches(b) == matches(TrimNewlines(b));
  }

  lemma AppendedIsFound(existing: Bytes, stored: Bytes, matches: Matcher)
    requires Sensible(matches) && matches(stored) && SeparatorFree(WithFinalNewline(stored))
    requires FirstMatching(existing, matches) == None
    requires !EndsInRule(LastOf(TrimNewlines(existing)))
    ensures var out := Appended(existing, stored);
      FirstMatching(out, matches).Some? && TrimNewlines(FirstMatching(out, matches).value) == TrimNewlines(stored)
  {
    var kept, added := Split(TrimNewlines(existing)), WithFinalNewline(stored);
    AppendKeepsDocuments(existing, stored);
    SplitOne(added);
    NoneBefore(existing, matches);
    SensibleFinalNewline(matches, stored);
    TrimFinalNewline(stored);
    assert kept == SplitFront(TrimNewlines(existing)) + [LastOf(TrimNewlines(existing))];
    forall i | 0 <= i < |kept| ensures !matches((kept + [added])[i]) { assert kept[i] in kept; }
    FirstMatchIs(kept + [added], matches, |kept|);
  }

  lemma AppendedToRule(existing: Bytes, stored: Bytes, matches: Matcher)
    requires Sensible(matches) && matches(stored)
    requires FirstMatching(existing, matches) == None
    requires EndsInRule(LastOf(TrimNewlines(existing)))
    ensures var out, before, rest := Appended(existing, stored), LastOf(TrimNewlines(existing)), RULE_LINE + WithFinalNewline(stored);
      && Split(out) == SplitFront(TrimNewlines(existing)) + [BeforeRule(before)] + Split(rest)
      && (HasMatch(out, matches) <==> matches(BeforeRule(before)) || HasMatch(rest, matches))
  {
    var kept := TrimNewlines(existing);
    var front, before, rest := SplitFront(kept), LastOf(kept), RULE_LINE + WithFinalNewline(stored);
    SplitWellSeparated(kept);
    SplitRule(before);
    RuleIsRead(existing, stored);
    assert AllClosed(front + [BeforeRule(before)]);
    SplitTail(front + [BeforeRule(before)], rest);
    NoneBefore(existing, matches);
    MatchIsIn(Appended(existing, stored), front, BeforeRule(before), rest, matches);
  }

  lemma MatchIsIn(content: Bytes, front: seq<Bytes>, d: Bytes, rest: Bytes, matches: Matcher)
    requires Split(content) == front + [d] + Split(rest) && forall e :: e in front ==> !matches(e)
    ensures HasMatch(content, matches) <==> matches(d) || HasMatch(rest, matches)
  {
    assert forall e :: e in Split(content) <==> e in front || e == d || e in Split(rest);
  }

  /** The separator behind a "---" line stands in front of the next one. */
  lemma RuleMoves(head: Bytes, added: Bytes)
    ensures (head + RULE) + (SEPARATOR + added) == head + (SEPARATOR + (RULE_LINE + added))
  {
    assert RULE + SEPARATOR == SEPARATOR + RULE_LINE;
    ConcatAssociative(RULE, SEPARATOR, added);
    ConcatAssociative(SEPARATOR, RULE_LINE, added);
    ConcatAssociative(head, RULE, SEPARATOR + added);
  }

  lemma JoinRule(front: seq<Bytes>, head: Bytes, added: Bytes)
    ensures Join(front + [head + RULE]) + SEPARATOR + added == Join(front + [head] + [RULE_LINE + added])
  {
    ConcatAssociative(Join(front + [head + RULE]), SEPARATOR, added);
    JoinLast(front, head + RULE, SEPARATOR + added);
    RuleMoves(head, added);
    JoinPair(front, head, RULE_LINE + added);
  }

  lemma {:induction false} RuleIsRead(existing: Bytes, stored: Bytes)
    requires EndsInRule(LastOf(TrimNewlines(existing)))
    ensures var kept := TrimNewlines(existing);
      Appended(existing, stored) == Join(SplitFront(kept) + [BeforeRule(LastOf(kept))] + [RULE_LINE + WithFinalNewline(stored)])
  {
    var kept := TrimNewlines(existing);
    EndsWithRule(kept);
    AppendedIs(existing, stored);
    JoinRule(SplitFront(kept), BeforeRule(LastOf(kept)), WithFinalNewline(stored));
  }

  /** A file that ends in a "---" line, as its documents. */
  lemma {:induction false} EndsWithRule(kept: Bytes)
    requires EndsInRule(LastOf(kept))
    ensures kept == Join(SplitFront(kept) + [BeforeRule(LastOf(kept)) + RULE])
  {
    JoinSplit(kept);
    assert Split(kept) == SplitFront(kept) + [LastOf(kept)];
    assert LastOf(kept) == BeforeRule(LastOf(kept)) + RULE;
  }

  lemma JoinPair(front: seq<Bytes>, d: Bytes, e: Bytes)
    ensures Join(front + [d + (SEPARATOR + e)]) == Join(front + [d] + [e])
  {
    JoinLast(front, d, SEPARATOR + e);
    JoinSnoc(front + [d], e);
    ConcatAssociative(Join(front + [d]), SEPARATOR, e);
  }

  /** The remembered file is there and holds a match. */
  ghost predicate Usable(files: Files, remembered: Path, matches: Matcher) {
    remembered in files && HasMatch(files[remembered], matches)
  }

  /** With a usable remembered path only that file is rewritten. */
  ghost function Cached(files: Files, order: seq<Path>, job: Job, remembered: Option<Path>): Outcome {
    if remembered.Some? && Usable(files, remembered.value, job.matches) then
      match Rewrite(files, remembered.value, job)
      case NoMatch => Uncached(files, order, job)
      case Failed(e) => Outcome(files, NO_CLAIMS, Some(e))
      case Rewritten(out) => Outcome(Stored(files, remembered.value, out), ClaimsOf(job, [remembered.value]), None)
    else Uncached(files, order, job)
  }

  lemma RewriteMatches(files: Files, p: Path, job: Job)
    requires p in files
    ensures Rewrite(files, p, job).NoMatch? <==> !HasMatch(files[p], job.matches)
  {
    match FirstMatch(Split(files[p]), job.matches)
    case None =>
    case Some(m) => assert Split(files[p])[m] in Split(files[p]);
  }

  ghost predicate MatchesOnlyIn(files: Files, order: seq<Path>, matches: Matcher, p: Path) {
    forall q :: q in order && q in files && HasMatch(files[q], matches) ==> q == p
  }

  /** At most one YAML file holds a matching document. */
  ghost predicate AtMostOneFile(files: Files, matches: Matcher) {
    forall p, q :: p in files && q in files && IsYaml(p) && IsYaml(q) && HasMatch(files[p], matches) && HasMatch(files[q], matches)
      ==> p == q
  }

  lemma {:induction false} WalkWithoutMatch(files: Files, order: seq<Path>, job: Job)
    requires forall q :: q in order ==> q in files && !HasMatch(files[q], job.matches)
    ensures Walk(files, order, job) == Walked(files, [], None)
    decreases |order|
  {
    if order != [] {
      assert order[0] in order;
      RewriteMatches(files, order[0], job);
      WalkWithoutMatch(files, order[1..], job);
    }
  }

  lemma {:induction false} WalkOneMatch(files: Files, order: seq<Path>, job: Job, p: Path)
    requires NoDuplicates(order) && p in order && (forall q :: q in order ==> q in files)
    requires HasMatch(files[p], job.matches) && MatchesOnlyIn(files, order, job.matches, p)
    ensures Walk(files, order, job) ==
      match Rewrite(files, p, job)
      case NoMatch => Walked(files, [], None)
      case Failed(e) => Walked(files, [], Some(e))
      case Rewritten(out) => Walked(Stored(files, p, out), [p], None)
    decreases |order|
  {
    var q, rest := order[0], order[1..];
    assert forall x :: x in rest ==> x in order && x != q;
    RewriteMatches(files, q, job);
    if q == p {
      var r := Rewrite(files, p, job);
      if r.Rewritten? { WalkWithoutMatch(Stored(files, p, r.out), rest, job); }
    } else {
      WalkOneMatch(files, rest, job, p);
    }
  }

  /**
   As long as the object occupies at most one file, a remembered path makes no difference,
   right or wrong, provided it is a path the full walk would visit.
   */
  lemma CacheMakesNoDifference(files: Files, order: seq<Path>, job: Job, remembered: Option<Path>)
    requires Orders(order, files)
    requires remembered.Some? ==> IsYaml(remembered.value)
    requires AtMostOneFile(files, job.matches)
    ensures Cached(files, order, job, remembered) == Uncached(files, order, job)
  {
    if remembered.Some? && Usable(files, remembered.value, job.matches) {
      RewriteMatches(files, remembered.value, job);
      WalkOneMatch(files, order, job, remembered.value);
    }
  }

  // ---------- what the full walk does to every file ----------

  /** The files of order that hold a match, in order. */
  ghost function Holders(files: Files, order: seq<Path>, matches: Matcher): seq<Path> {
    if order == [] then []
    else (if order[0] in files && HasMatch(files[order[0]], matches) then [order[0]] else []) + Holders(files, order[1..], matches)
  }

  lemma {:induction false} HoldersAgree(files: Files, files': Files, order: seq<Path>, matches: Matcher)
    requires forall q :: q in order ==> (q in files <==> q in files') && (q in files ==> files[q] == files'[q])
    ensures Holders(files, order, matches) == Holders(files', order, matches)
    decreases |order|
  {
    if order != [] {
      assert order[0] in order;
      HoldersAgree(files, files', order[1..], matches);
    }
  }

  lemma {:induction false} HoldersAre(files: Files, order: seq<Path>, matches: Matcher)
    ensures forall q :: q in Holders(files, order, matches) <==> q in order && q in files && HasMatch(files[q], matches)
    decreases |order|
  {
    if order != [] {
      HoldersAre(files, order[1..], matches);
    }
  }

  /** What one full walk leaves at path p. */
  ghost predicate RewrittenAt(files: Files, after: Files, p: Path, job: Job)
    requires p in files
  {
    match Rewrite(files, p, job)
    case NoMatch => p in after && after[p] == files[p]
    case Failed(_) => false
    case Rewritten(out) =>
      if out != files[p] && IsBlank(out) then p !in after else p in after && after[p] == out
  }

  /**
   A full walk that reports no error claims exactly the files that hold a match, in walk
   order, rewrites each of them from its own content, and leaves every other file alone.
   */
  lemma {:induction false} WalkRewritesEveryCopy(files: Files, order: seq<Path>, job: Job)
    requires NoDuplicates(order) && forall q :: q in order ==> q in files
    requires Walk(files, order, job).error.None?
    ensures var w := Walk(files, order, job);
      && w.matched == Holders(files, order, job.matches)
      && (forall q :: q in order ==> RewrittenAt(files, w.files, q, job))
      && (forall q :: q !in order ==> (q in w.files <==> q in files) && (q in files ==> w.files[q] == files[q]))
    decreases |order|
  {
    if order != [] {
      var p, rest := order[0], order[1..];
      RewriteMatches(files, p, job);
      assert p in order && forall x :: x in rest ==> x in order && x != p;
      var next := match Rewrite(files, p, job) case Rewritten(out) => Stored(files, p, out) case _ => files;
      WalkRewritesEveryCopy(next, rest, job);
      HoldersAgree(files, next, rest, job.matches);
      RewrittenBefore(files, next, Walk(next, rest, job).files, order, job);
    }
  }

  /**
   What a replacement without the cache claims: each file that holds a match, in walk order, as
   deleted when the content is empty and as added otherwise; after an error, nothing.
   */
  lemma ClaimsEveryHolder(files: Files, order: seq<Path>, job: Job)
    requires NoDuplicates(order) && forall q :: q in order ==> q in files
    ensures var r := Uncached(files, order, job);
      && (r.error.Some? ==> r.claims.add == [] && r.claims.del == [])
      && (r.error.None? && job.content == [] ==> r.claims.add == [] && r.claims.del == Holders(files, order, job.matches))
      && (r.error.None? && job.content != [] ==> r.claims.add == Holders(files, order, job.matches) && r.claims.del == [])
  {
    if Walk(files, order, job).error.None? { WalkRewritesEveryCopy(files, order, job); }
  }

  /** When the transform fails, writing an object at a path changes nothing and claims nothing. */
  lemma FailedWriteChangesNothing(files: Files, p: Path, matches: Matcher, content: Bytes, transform: Transform)
    requires transform.Apply(p, ReplacedAt(files, p, matches), content).Err? && Sensible(matches)
    ensures WrittenAt(files, p, matches, content, transform) ==
      Outcome(files, Claims([], []), Some(transform.Apply(p, ReplacedAt(files, p, matches), content).error))
  {
    NothingIn([], matches);
  }

  /** Writing empty content at a path removes the whole file, whatever is in it, and nothing else. */
  lemma WritingNothingRemoves(files: Files, p: Path, matches: Matcher, transform: Transform)
    ensures var r := WrittenAt(files, p, matches, [], transform);
      && r.error == None && r.claims.add == [] && r.claims.del == [p] && p !in r.files
      && forall q :: q != p ==> (q in r.files <==> q in files) && (q in files ==> r.files[q] == files[q])
  {
  }

  /** What the rest of the walk leaves at its paths is what the whole walk leaves there. */
  lemma RewrittenBefore(files: Files, next: Files, after: Files, order: seq<Path>, job: Job)
    requires order != [] && (forall q :: q in order ==> q in files)
    requires forall q :: q != order[0] ==> (q in next <==> q in files) && (q in files ==> next[q] == files[q])
    requires forall q :: q in order[1..] ==> q != order[0] && RewrittenAt(next, after, q, job)
    requires RewrittenAt(files, after, order[0], job)
    ensures forall q :: q in order ==> RewrittenAt(files, after, q, job)
  {
    forall q | q in order ensures RewrittenAt(files, after, q, job) {
      if q != order[0] {
        assert q in order[1..];
        assert RewrittenAt(next, after, q, job);
      }
    }
  }

  ghost predicate UnchangedOff(files: Files, after: Files, touched: seq<Path>) {
    forall q :: q !in touched ==> (q in after <==> q in files) && (q in files ==> after[q] == files[q])
  }

  /** The walk rewrote the first k files and failed at the next one. */
  ghost predicate StopsAt(files: Files, after: Files, order: seq<Path>, job: Job, error: string, k: nat)
    requires forall q :: q in order ==> q in files
  {
    && k < |order| && Rewrite(files, order[k], job) == Failed(error)
    && (forall q :: q in order[..k] ==> RewrittenAt(files, after, q, job))
    && UnchangedOff(files, after, order[..k])
  }

  /**
   A full walk reports an error if and only if rewriting some file fails, the error of the
   first that does: the files before it stay rewritten and the others as they were.
   */
  lemma {:induction false} WalkStopsAtFirstFailure(files: Files, order: seq<Path>, job: Job)
    requires NoDuplicates(order) && forall q :: q in order ==> q in files
    ensures var w := Walk(files, order, job);
      && (w.error.Some? <==> exists q :: q in order && Rewrite(files, q, job).Failed?)
      && (w.error.Some? ==> exists k: nat :: StopsAt(files, w.files, order, job, w.error.value, k))
    decreases |order|
  {
    if order != [] {
      var p, rest := order[0], order[1..];
      assert forall x :: x in order <==> x == p || x in rest;
      assert p !in rest;
      var w := Walk(files, order, job);
      var next := match Rewrite(files, p, job) case Rewritten(out) => Stored(files, p, out) case _ => files;
      if Rewrite(files, p, job).Failed? {
        assert order[..0] == [];
        assert StopsAt(files, w.files, order, job, w.error.value, 0);
      } else {
        WalkStopsAtFirstFailure(next, rest, job);
        assert forall q :: q in rest ==> Rewrite(next, q, job) == Rewrite(files, q, job);
        if w.error.Some? {
          var k: nat :| StopsAt(next, w.files, rest, job, w.error.value, k);
          FirstStep(files, p, job);
          StopsLater(files, next, w.files, order, job, w.error.value, k);
        }
      }
    }
  }

  /** The walk over the other files stops, and the first one is as rewritten. */
  lemma {:induction false} StopsLater(files: Files, next: Files, after: Files, order: seq<Path>, job: Job, error: string, k: nat)
    requires order != [] && (forall q :: q in order ==> q in files) && order[0] !in order[1..]
    requires forall q :: q in order[1..] ==> q in next
    requires UnchangedOff(files, next, [order[0]]) && RewrittenAt(files, next, order[0], job)
    requires StopsAt(next, after, order[1..], job, error, k)
    ensures StopsAt(files, after, order, job, error, k + 1)
  {
    var p, rest := order[0], order[1..];
    assert rest[k] == order[k + 1] && rest[k] in rest;
    assert order[..k + 1] == [p] + rest[..k];
    assert p !in rest[..k];
    forall q | q in order[..k + 1] ensures RewrittenAt(files, after, q, job) {
      if q != p {
        assert q in rest[..k] && q in rest;
        assert RewrittenAt(next, after, q, job);
      }
    }
  }

  lemma FirstStep(files: Files, p: Path, job: Job)
    requires p in files && !Rewrite(files, p, job).Failed?
    ensures var next := match Rewrite(files, p, job) case Rewritten(out) => Stored(files, p, out) case _ => files;
      UnchangedOff(files, next, [p]) && RewrittenAt(files, next, p, job)
  {
  }

  /** The replacement finds nothing in the file, or writes what is there. */
  predicate LeavesAlone(files: Files, p: Path, job: Job)
    requires p in files
  {
    Rewrite(files, p, job) == NoMatch || Rewrite(files, p, job) == Rewritten(files[p])
  }

  /** File number k is the first that the replacement would change, and there it fails. */
  predicate FailsFirstAt(files: Files, order: seq<Path>, job: Job, error: string, k: nat) {
    && k < |order| && order[k] in files && Rewrite(files, order[k], job) == Failed(error)
    && forall i :: 0 <= i < k ==> order[i] in files && LeavesAlone(files, order[i], job)
  }

  ghost predicate FailsFirst(files: Files, order: seq<Path>, job: Job, error: string) {
    exists k: nat :: FailsFirstAt(files, order, job, error, k)
  }

  lemma FailsFirstCons(files: Files, order: seq<Path>, job: Job, error: string)
    requires order != [] && order[0] in files
    ensures FailsFirst(files, order, job, error) <==>
      Rewrite(files, order[0], job) == Failed(error)
      || (LeavesAlone(files, order[0], job) && FailsFirst(files, order[1..], job, error))
  {
    if Rewrite(files, order[0], job) == Failed(error) {
      assert FailsFirstAt(files, order, job, error, 0);
    }
    if LeavesAlone(files, order[0], job) && FailsFirst(files, order[1..], job, error) {
      var k: nat :| FailsFirstAt(files, order[1..], job, error, k);
      assert FailsFirstAt(files, order, job, error, k + 1);
    }
    if k: nat :| FailsFirstAt(files, order, job, error, k) && k > 0 {
      assert FailsFirstAt(files, order[1..], job, error, k - 1);
    }
  }

  lemma {:induction false} WalkLeavesOthers(files: Files, order: seq<Path>, job: Job, q: Path)
    requires q !in order
    ensures q in Walk(files, order, job).files <==> q in files
    ensures q in files ==> Walk(files, order, job).files[q] == files[q]
    decreases |order|
  {
    if order != [] && order[0] in files {
      match Rewrite(files, order[0], job)
      case NoMatch => WalkLeavesOthers(files, order[1..], job, q);
      case Failed(_) =>
      case Rewritten(out) => WalkLeavesOthers(Stored(files, order[0], out), order[1..], job, q);
    }
  }

  /** A walk meets an error before it has changed anything exactly when the first file it would change is where it fails. */
  lemma {:induction false} WalkFailsFirst(files: Files, order: seq<Path>, job: Job, error: string)
    requires NoDuplicates(order) && forall q :: q in order ==> q in files
    ensures Walk(files, order, job).error == Some(error) && Walk(files, order, job).files == files
      <==> FailsFirst(files, order, job, error)
    decreases |order|
  {
    if order != [] {
      var p, rest := order[0], order[1..];
      assert p in order && p !in rest && forall q :: q in rest ==> q in order;
      FailsFirstCons(files, order, job, error);
      match Rewrite(files, p, job)
      case NoMatch => WalkFailsFirst(files, rest, job, error);
      case Failed(_) =>
      case Rewritten(out) =>
        if out == files[p] {
          WalkFailsFirst(files, rest, job, error);
        } else {
          WalkLeavesOthers(Stored(files, p, out), rest, job, p);
        }
    }
  }

  /**
   Taking the fast path agrees with the walk exactly when no other file holds a copy: one
   that appeared elsewhere since the path was remembered is missed. When the rewriting itself
   fails, it agrees exactly when no file on the way there is changed and none fails differently.
   */
  lemma FastPathAgreesExactly(files: Files, order: seq<Path>, job: Job, remembered: Path)
    requires Orders(order, files) && remembered in order && Usable(files, remembered, job.matches)
    ensures Cached(files, order, job, Some(remembered)) == Uncached(files, order, job) <==>
      match Rewrite(files, remembered, job)
      case Failed(e) => FailsFirst(files, order, job, e)
      case _ => MatchesOnlyIn(files, order, job.matches, remembered)
  {
    RewriteMatches(files, remembered, job);
    match Rewrite(files, remembered, job)
    case Failed(e) => WalkFailsFirst(files, order, job, e);
    case _ =>
      if MatchesOnlyIn(files, order, job.matches, remembered) {
        WalkOneMatch(files, order, job, remembered);
      } else if Walk(files, order, job).error.None? {
        WalkClaimsOthers(files, order, job, remembered);
      }
  }

  lemma WalkClaimsHolders(files: Files, order: seq<Path>, job: Job)
    requires Orders(order, files) && Walk(files, order, job).error.None?
    ensures Walk(files, order, job).matched == Holders(files, order, job.matches)
  {
    WalkRewritesEveryCopy(files, order, job);
  }

  lemma ClaimsDiffer(job: Job, matched: seq<Path>, p: Path, q: Path)
    requires q in matched && q != p
    ensures ClaimsOf(job, matched) != ClaimsOf(job, [p])
  {
    assert matched != [p];
  }

  lemma WalkClaimsOthers(files: Files, order: seq<Path>, job: Job, p: Path)
    requires Orders(order, files) && p in order && Walk(files, order, job).error.None?
    requires !MatchesOnlyIn(files, order, job.matches, p)
    ensures Uncached(files, order, job).claims != ClaimsOf(job, [p])
  {
    WalkClaimsHolders(files, order, job);
    HoldersAre(files, order, job.matches);
    var q :| q in order && q in files && HasMatch(files[q], job.matches) && q != p;
    ClaimsDiffer(job, Holders(files, order, job.matches), p, q);
  }

  /** Two files with one copy each, one of them remembered: deleting the object leaves the other. */
  lemma CopyElsewhereIsMissed(p: Path, q: Path)
    requires IsYaml(p) && IsYaml(q) && p != q
    ensures var files: Files, job := map[p := [LETTER], q := [LETTER]], Job(LETTER_MATCHER, [], Verbatim);
      && Usable(files, p, LETTER_MATCHER)
      && Cached(files, [p, q], job, Some(p)) != Uncached(files, [p, q], job)
  {
    var files: Files, job := map[p := [LETTER], q := [LETTER]], Job(LETTER_MATCHER, [], Verbatim);
    SplitOne([LETTER]);
    assert [LETTER] in Split(files[p]) && [LETTER] in Split(files[q]);
    RewriteMatches(files, p, job);
    assert q in [p, q] && HasMatch(files[q], LETTER_MATCHER);
    FastPathAgreesExactly(files, [p, q], job, p);
  }

  // ---------- finding an object ----------

  function FindIn(files: Files, order: seq<Path>, matches: Matcher): Result<Option<(Path, Bytes)>> {
    if order == [] then Ok(None)
    else if order[0] !in files then Err(READ_ERROR)
    else
      var docs := Split(files[order[0]]);
      match FirstMatch(docs, matches)
      case Some(m) => Ok(Some((order[0], docs[m])))
      case None => FindIn(files, order[1..], matches)
  }

  lemma {:induction false} FindConcat(files: Files, a: seq<Path>, b: seq<Path>, matches: Matcher)
    ensures FindIn(files, a + b, matches) ==
      if FindIn(files, a, matches) == Ok(None) then FindIn(files, b, matches) else FindIn(files, a, matches)
    decreases |a|
  {
    if a == [] {
      assert a + b == b;
    } else {
      assert (a + b)[1..] == a[1..] + b;
      FindConcat(files, a[1..], b, matches);
    }
  }

  /** FindObject reports the first file that holds a match, with the first matching document in it. */
  lemma {:induction false} FindsFirstHolder(files: Files, order: seq<Path>, matches: Matcher)
    requires forall q :: q in order ==> q in files
    ensures var holders := Holders(files, order, matches);
      && (holders == [] ==> FindIn(files, order, matches) == Ok(None))
      && (holders != [] ==>
            && holders[0] in files
            && exists m: nat ::
                 && IsFirstMatch(Split(files[holders[0]]), matches, m)
                 && FindIn(files, order, matches) == Ok(Some((holders[0], Split(files[holders[0]])[m]))))
    decreases |order|
  {
    if order != [] {
      assert order[0] in order;
      var docs := Split(files[order[0]]);
      match FirstMatch(docs, matches) {
        case None => FindsFirstHolder(files, order[1..], matches);
        case Some(m) => assert IsFirstMatch(docs, matches, m) && docs[m] in docs;
      }
    }
  }

  /**
   FindObject succeeds exactly when an uncached replacement claims a path, and finds the
   object in the first path claimed.
   */
  lemma {:induction false} FindAgreesWithReplace(files: Files, order: seq<Path>, job: Job)
    requires NoDuplicates(order) && forall q :: q in order ==> q in files
    requires Uncached(files, order, job).error.None?
    ensures var claims, found := Uncached(files, order, job).claims, FindIn(files, order, job.matches);
      && found.Ok?
      && (found.value.Some? <==> claims != NO_CLAIMS)
      && (found.value.Some? ==> found.value.value.0 == (claims.add + claims.del)[0])
  {
    WalkRewritesEveryCopy(files, order, job);
    FindsFirstHolder(files, order, job.matches);
  }

  /** The walk order once some files may have been removed. */
  function Remaining(order: seq<Path>, files: Files): seq<Path> {
    if order == [] then [] else (if order[0] in files then [order[0]] else []) + Remaining(order[1..], files)
  }

  lemma {:induction false} RemainingAre(order: seq<Path>, files: Files)
    ensures forall q :: q in Remaining(order, files) <==> q in order && q in files
    decreases |order|
  {
    if order != [] {
      RemainingAre(order[1..], files);
    }
  }

  lemma {:induction false} BlankJoin(docs: seq<Bytes>)
    requires IsBlank(Join(docs))
    ensures forall d :: d in docs ==> IsBlank(d)
    decreases |docs|
  {
    if |docs| > 1 {
      assert Join(docs)[|docs[0]| + 1] == DASH;
      assert false;
    }
  }

  lemma BlankMerged(docs: seq<Bytes>)
    requires IsBlank(Merged(docs))
    ensures forall d :: d in docs ==> IsBlank(d)
  {
    assert Join(docs) <= Merged(docs);
    assert forall i :: 0 <= i < |Join(docs)| ==> Merged(docs)[i] == Join(docs)[i];
    BlankJoin(docs);
  }

  lemma {:induction false} FindsAfterSkipping(files: Files, after: Files, order: seq<Path>, matches: Matcher, p: Path, m: nat)
    requires NoDuplicates(order) && forall q :: q in order ==> q in files
    requires Holders(files, order, matches) != [] && Holders(files, order, matches)[0] == p
    requires forall q :: q in order && !HasMatch(files[q], matches) ==> q in after && after[q] == files[q]
    requires p in after && IsFirstMatch(Split(after[p]), matches, m)
    ensures FindIn(after, Remaining(order, after), matches) == Ok(Some((p, Split(after[p])[m])))
    decreases |order|
  {
    var q := order[0];
    assert q in order;
    if HasMatch(files[q], matches) {
      FirstMatchIs(Split(after[p]), matches, m);
    } else {
      assert FirstMatch(Split(after[q]), matches).None?;
      assert forall x :: x in order[1..] ==> x in order;
      FindsAfterSkipping(files, after, order[1..], matches, p, m);
      assert Remaining(order, after)[1..] == Remaining(order[1..], after);
    }
  }

  /** After an object was replaced by content that still matches once stored, the new document is found where it was. */
  lemma FindsReplacement(files: Files, order: seq<Path>, job: Job, p: Path, m: nat, stored: Bytes)
    requires NoDuplicates(order) && forall q :: q in order ==> q in files
    requires job.content != [] && Walk(files, order, job).error.None?
    requires Holders(files, order, job.matches) != [] && Holders(files, order, job.matches)[0] == p
    requires p in files && IsFirstMatch(Split(files[p]), job.matches, m)
    requires job.transform.Apply(p, Some(Split(files[p])[m]), job.content) == Ok(stored)
    requires Closed(TrimNewlines(stored)) && !IsBlank(TrimNewlines(stored))
    requires job.matches(ReadBack(Split(files[p]), m, TrimNewlines(stored)))
    ensures var after := Walk(files, order, job).files;
      FindIn(after, Remaining(order, after), job.matches) ==
      Ok(Some((p, ReadBack(Split(files[p]), m, TrimNewlines(stored)))))
  {
    var docs, d, after := Split(files[p]), TrimNewlines(stored), Walk(files, order, job).files;
    WalkRewritesEveryCopy(files, order, job);
    HoldersAre(files, order, job.matches);
    assert p in Holders(files, order, job.matches);
    ReplaceIs(files[p], job.matches, job.content, p, job.transform, m);
    SplitWellSeparated(files[p]);
    StoredIsFirst(docs, m, d, job.matches);
    assert RewrittenAt(files, after, p, job);
    forall q | q in order && !HasMatch(files[q], job.matches) ensures q in after && after[q] == files[q] {
      RewriteMatches(files, q, job);
      assert RewrittenAt(files, after, q, job);
    }
    FindsAfterSkipping(files, after, order, job.matches, p, m);
  }

  lemma StoredIsFirst(docs: seq<Bytes>, m: nat, d: Bytes, matches: Matcher)
    requires WellSeparated(docs) && IsFirstMatch(docs, matches, m)
    requires Closed(d) && !IsBlank(d) && matches(ReadBack(docs, m, d))
    ensures var out := Merged(docs[m := d]);
      && !IsBlank(out) && IsFirstMatch(Split(out), matches, m) && Split(out)[m] == ReadBack(docs, m, d)
  {
    SecondEdit(docs, m, d, d);
    var out := Merged(docs[m := d]);
    assert docs[m := d][m] in docs[m := d];
    if IsBlank(out) { BlankMerged(docs[m := d]); }
    assert forall i :: 0 <= i < m ==> Split(out)[i] == Split(out)[..m][i];
  }

  /** Document i of a rewritten file as it is read again, up to the newline at its end. */
  function SeenAt(docs: seq<Bytes>, i: nat): Bytes
    requires i < |docs|
  {
    if i == |docs| - 1 && EndsInRule(docs[i]) then BeforeRule(docs[i]) else docs[i]
  }

  ghost predicate SeesMatch(docs: seq<Bytes>, matches: Matcher) {
    exists i: nat :: i < |docs| && matches(SeenAt(docs, i))
  }

  lemma RereadAgrees(docs: seq<Bytes>, matches: Matcher)
    requires docs != [] && Sensible(matches)
    ensures |docs| <= |Reread(docs)|
    ensures forall i: nat :: i < |docs| ==> matches(Reread(docs)[i]) == matches(SeenAt(docs, i))
    ensures forall i: nat :: |docs| <= i < |Reread(docs)| ==> !matches(Reread(docs)[i])
  {
    SensibleFinalNewline(matches, docs[|docs| - 1]);
    assert !matches([]);
  }

  lemma MergedMatches(docs: seq<Bytes>, matches: Matcher)
    requires WellSeparated(docs) && docs != [] && Sensible(matches)
    ensures HasMatch(Merged(docs), matches) <==> SeesMatch(docs, matches)
  {
    var after := Reread(docs);
    RereadIs(docs);
    RereadAgrees(docs, matches);
    if i: nat :| i < |docs| && matches(SeenAt(docs, i)) {
      assert matches(after[i]) && after[i] in after;
    }
    if i: nat :| i < |after| && matches(after[i]) {
      assert matches(SeenAt(docs, i));
    }
  }

  /** No document behind a matching one matches as it will be read again, so dropping one match leaves none. */
  ghost predicate ClearsAtOnce(content: Bytes, matches: Matcher) {
    var docs := Split(content);
    forall m: nat, i: nat :: m < i < |docs| && matches(docs[m]) ==> !matches(SeenAt(docs, i))
  }

  /** What is read behind the dropped document is what was seen there before; in front of it nothing matches. */
  lemma WithoutSeesMatch(docs: seq<Bytes>, m: nat, matches: Matcher)
    requires WellSeparated(docs) && IsFirstMatch(docs, matches, m)
    ensures SeesMatch(Without(docs, m), matches) <==> exists i: nat :: m < i < |docs| && matches(SeenAt(docs, i))
  {
    var left := Without(docs, m);
    forall i: nat | i < |left| ensures SeenAt(left, i) == if i < m then docs[i] else SeenAt(docs, i + 1) {}
    if i: nat :| m < i < |docs| && matches(SeenAt(docs, i)) {
      assert matches(SeenAt(left, i - 1));
    }
  }

  lemma DeleteClears(files: Files, p: Path, job: Job)
    requires p in files && job.content == [] && HasMatch(files[p], job.matches) && Sensible(job.matches)
    ensures var r := Rewrite(files, p, job);
      r.Rewritten? && (HasMatch(r.out, job.matches) <==> !ClearsAtOnce(files[p], job.matches))
  {
    var docs := Split(files[p]);
    RewriteMatches(files, p, job);
    var m := FirstMatch(docs, job.matches).value;
    SplitWellSeparated(files[p]);
    WithoutWellSeparated(docs, m);
    WithoutSeesMatch(docs, m, job.matches);
    ClearsBehindFirst(docs, m, job.matches);
    if Without(docs, m) == [] {
      NothingIn([], job.matches);
    } else {
      MergedMatches(Without(docs, m), job.matches);
    }
  }

  lemma ClearsBehindFirst(docs: seq<Bytes>, m: nat, matches: Matcher)
    requires IsFirstMatch(docs, matches, m)
    ensures (forall k: nat, i: nat :: k < i < |docs| && matches(docs[k]) ==> !matches(SeenAt(docs, i)))
      <==> !exists i: nat :: m < i < |docs| && matches(SeenAt(docs, i))
  {
    if k: nat, i: nat :| k < i < |docs| && matches(docs[k]) && matches(SeenAt(docs, i)) {
      assert m <= k;
    }
  }

  /**
   After a deletion the object is found nowhere if and only if no file held a second copy
   behind the first, or would show one once the "---" line at its end is read as a separator.
   */
  lemma FindsNothingDeleted(files: Files, order: seq<Path>, job: Job)
    requires NoDuplicates(order) && forall q :: q in order ==> q in files
    requires job.content == [] && Walk(files, order, job).error.None? && Sensible(job.matches)
    ensures var after := Walk(files, order, job).files;
      FindIn(after, Remaining(order, after), job.matches) == Ok(None)
      <==> forall q :: q in order ==> ClearsAtOnce(files[q], job.matches)
  {
    var after := Walk(files, order, job).files;
    WalkRewritesEveryCopy(files, order, job);
    RemainingAre(order, after);
    forall q | q in order
      ensures (q in after && HasMatch(after[q], job.matches)) <==> !ClearsAtOnce(files[q], job.matches)
    {
      assert RewrittenAt(files, after, q, job);
      DeletedFrom(files, after, q, job);
    }
    FindsNothingExactly(after, Remaining(order, after), job.matches);
  }

  lemma DeletedFrom(files: Files, after: Files, q: Path, job: Job)
    requires q in files && RewrittenAt(files, after, q, job) && job.content == [] && Sensible(job.matches)
    ensures (q in after && HasMatch(after[q], job.matches)) <==> !ClearsAtOnce(files[q], job.matches)
  {
    RewriteMatches(files, q, job);
    if HasMatch(files[q], job.matches) {
      DeleteClears(files, q, job);
      var out := Rewrite(files, q, job).out;
      if IsBlank(out) { NothingIn(out, job.matches); }
    } else {
      var docs := Split(files[q]);
      forall m: nat | m < |docs| ensures !job.matches(docs[m]) { assert docs[m] in docs; }
    }
  }

  lemma FindsNothingExactly(files: Files, order: seq<Path>, matches: Matcher)
    requires forall q :: q in order ==> q in files
    ensures FindIn(files, order, matches) == Ok(None) <==> forall q :: q in order ==> !HasMatch(files[q], matches)
  {
    FindsFirstHolder(files, order, matches);
    HoldersAre(files, order, matches);
    if Holders(files, order, matches) != [] { assert Holders(files, order, matches)[0] in Holders(files, order, matches); }
  }
}
