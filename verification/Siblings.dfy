/**
 What placing an object does to the documents of other objects: a replacement in a file keeps
 them, a write at the layout path replaces whatever file is there (writeFile in
 internal/mutator/default.go).
 */
module Siblings {
  import opened Common
  import opened Splitting
  import opened Documents
  import opened Walking
  import opened Objects
  import opened Placement

  /** The content holds this document, up to the newlines at its end. */
  ghost predicate HasDocument(content: Bytes, d: Bytes) {
    exists e :: e in Split(content) && TrimNewlines(e) == TrimNewlines(d)
  }

  /** Every document of another object is still there. */
  ghost predicate KeepsOthers(before: Bytes, after: Bytes, matches: Matcher) {
    forall d :: d in Split(before) && !matches(d) && !IsBlank(d) ==> HasDocument(after, d)
  }

  /** A document that ends in a "---" line is none of the closed ones, whatever newlines follow. */
  lemma ClosedIsNotRuled(e: Bytes, ruled: Bytes)
    requires Closed(e) && EndsInRule(ruled)
    ensures TrimNewlines(e) != ruled
  {
    assert TrimNewlines(e) == ruled && e != ruled ==> SeparatorAt(e, |ruled| - 4);
  }

  /** What is read where document m was replaced, when the last document ends in a "---" line. */
  lemma RereadIsClosed(docs: seq<Bytes>, m: nat, d: Bytes)
    requires WellSeparated(docs) && m + 1 < |docs| && Closed(d) && EndsInRule(docs[|docs| - 1])
    ensures AllClosed(Reread(docs[m := d]))
  {
    SplitRule(docs[|docs| - 1]);
  }

  lemma RewriteLosesRuled(docs: seq<Bytes>, m: nat, d: Bytes)
    requires WellSeparated(docs) && m + 1 < |docs| && Closed(d) && EndsInRule(docs[|docs| - 1])
    ensures !HasDocument(Merged(docs[m := d]), docs[|docs| - 1])
  {
    var last, after := docs[|docs| - 1], Reread(docs[m := d]);
    RereadIs(docs[m := d]);
    RereadIsClosed(docs, m, d);
    assert TrimNewlines(last) == last;
    forall e | e in after ensures TrimNewlines(e) != last {
      var i :| 0 <= i < |after| && after[i] == e;
      ClosedIsNotRuled(e, last);
    }
  }

  lemma RewriteKeeps(docs: seq<Bytes>, m: nat, d: Bytes, i: nat)
    requires WellSeparated(docs) && m < |docs| && Closed(d) && i < |docs| && i != m
    requires i + 1 == |docs| ==> !EndsInRule(docs[i])
    ensures HasDocument(Merged(docs[m := d]), docs[i])
  {
    var after := Reread(docs[m := d]);
    RereadIs(docs[m := d]);
    TrimFinalNewline(docs[i]);
    assert after[i] in after && TrimNewlines(after[i]) == TrimNewlines(docs[i]);
  }

  /** Replacing the first match keeps the documents of other objects unless the last one is such and ends in a "---" line. */
  lemma RewriteKeepsOthers(files: Files, p: Path, job: Job)
    requires p in files && HasMatch(files[p], job.matches) && Sensible(job.matches)
    requires WritesOneDocument(job, p, FirstMatching(files[p], job.matches))
    ensures var r := Rewrite(files, p, job);
      && r.Rewritten?
      && (KeepsOthers(files[p], r.out, job.matches) <==> job.matches(LastOf(files[p])) || !EndsInRule(LastOf(files[p])))
  {
    var docs := Split(files[p]);
    RewriteMatches(files, p, job);
    var m := FirstMatch(docs, job.matches).value;
    WrittenMatches(job, p, Some(docs[m]));
    var d := TrimNewlines(Written(job, p, Some(docs[m])));
    SplitWellSeparated(files[p]);
    var last := LastOf(files[p]);
    if !job.matches(last) && EndsInRule(last) {
      RewriteLosesRuled(docs, m, d);
      assert last in docs && !IsSpace(last[|last| - 1]);
    } else {
      forall e | e in docs && !job.matches(e) ensures HasDocument(Merged(docs[m := d]), e) {
        var i: nat :| i < |docs| && docs[i] == e;
        RewriteKeeps(docs, m, d, i);
      }
    }
  }

  /** Writing the object as a file of its own keeps exactly nothing else. */
  lemma FileKeepsOthers(before: Bytes, job: Job, p: Path, e: Option<Bytes>)
    requires WritesOneDocument(job, p, e) && Sensible(job.matches)
    ensures KeepsOthers(before, Written(job, p, e), job.matches) <==>
      forall d :: d in Split(before) ==> job.matches(d) || IsBlank(d)
  {
    var w := Written(job, p, e);
    WrittenHasOneMatch(job, p, e);
    WrittenMatches(job, p, e);
    forall d | HasDocument(w, d) ensures job.matches(d) {
      SameTrimmed(job.matches, w, d);
    }
  }

  /**
   Placing an object with the finder on changes no other file, and in the file it claims it
   keeps the documents of other objects if and only if: where the file held the object, its
   last document is no other object's with a "---" line at the end; where the layout put it, the
   file that was there, if any, held nothing.
   */
  lemma PlaceKeepsOthers(files: Files, order: seq<Path>, job: Job, remembered: Option<Path>, layout: Path, a: Artifact)
    requires Orders(order, files) && (remembered.Some? ==> IsYaml(remembered.value)) && IsYaml(layout)
    requires AtMostOneFile(files, job.matches)
    requires Sensible(job.matches) && PlacesOneDocument(files, job, layout) && a.content == Some(job.content)
    ensures var after := Placed(files, order, job, remembered, true, Ok(layout), a);
      && |after.claims.add| == 1
      && var p := after.claims.add[0];
      && p in after.files
      && (forall q :: q != p ==> (q in after.files <==> q in files) && (q in files ==> after.files[q] == files[q]))
      && (p in files ==>
            (KeepsOthers(files[p], after.files[p], job.matches) <==>
               if HasMatch(files[p], job.matches) then job.matches(LastOf(files[p])) || !EndsInRule(LastOf(files[p]))
               else forall d :: d in Split(files[p]) ==> IsBlank(d)))
  {
    var p := PlacesSomewhere(files, order, job, remembered, layout, a);
    if p in files {
      if HasMatch(files[p], job.matches) {
        RewriteKeepsOthers(files, p, job);
      } else {
        FileKeepsOthers(files[p], job, p, FileAt(files, p));
      }
    }
  }

  /** With the finder off the file at the layout path keeps nothing that is not the object's. */
  lemma LaidKeepsOthers(files: Files, job: Job, layout: Path, a: Artifact)
    requires WritesOneDocument(job, layout, FileAt(files, layout)) && Sensible(job.matches) && a.content == Some(job.content)
    requires layout in files
    ensures var after := Laid(files, Ok(layout), a, job.transform);
      && after.error == None && layout in after.files
      && (KeepsOthers(files[layout], after.files[layout], job.matches) <==>
            forall d :: d in Split(files[layout]) ==> job.matches(d) || IsBlank(d))
  {
    FileKeepsOthers(files[layout], job, layout, FileAt(files, layout));
  }

  const OTHER: byte := 66

  lemma OtherHolds()
    ensures Split([OTHER]) == [[OTHER]] && !HasMatch([OTHER], LETTER_MATCHER)
  {
    SplitOne([OTHER]);
    assert TrimNewlines([OTHER]) == [OTHER];
  }

  /** A file of another object at the layout path is lost. */
  lemma LayoutOverwrites(p: Path)
    requires IsYaml(p)
    ensures var files: Files, job := map[p := [OTHER]], Job(LETTER_MATCHER, [LETTER], Verbatim);
      && PlacesOneDocument(files, job, p)
      && var after := Placed(files, [p], job, None, true, Ok(p), Artifact(Some([LETTER])));
      p in after.files && after.files[p] == [LETTER]
  {
    var files: Files, job := map[p := [OTHER]], Job(LETTER_MATCHER, [LETTER], Verbatim);
    OtherHolds();
    LetterIsOneDocument(p, FileAt(files, p));
    PlacesAtLayout(files, [p], job, None, p, Artifact(Some([LETTER])));
  }
}
