# Verified model of syngit

syngit is a Kubernetes operator that intercepts objects and writes them into git. This project
models the parts of it where several operations, several writers or several runs have to fit
together, and proves what they keep:

- **Documents in files** (`Splitting`, `Documents`, `ChangedDocs`): a worktree file is a byte string
  whose documents stand between `"\n---\n"` separators. Splitting, joining, replacing, deleting,
  appending and selective transformation of documents.
- **Objects in a worktree** (`Selectors`, `Walking`, `Objects`, `ObjectStore`, `Placement`, `Siblings`):
  finding, replacing and placing an object over the recursive walk, with the path cache that skips the
  walk, and what becomes of the other documents.
- **The LFU cache** (`Lfu`) and **repository leases** on top of it (`Leases`, `Deadlock`, `Standstill`).
- **Finalizer-gated policies** (`Finalizers`) and the two reconcilers that share targets between
  syncers (`Syncers`, `BranchTargets`, `BranchInterleavings`, `BranchReferences`, `UserTargets`).
- **Many writers on one object** (`Versioned`), for the shared webhook configuration (`Webhooks`) and
  the managed bindings (`Bindings`).
- **Two tree algorithms**: excluded-field removal (`ExcludedFields`, `JsonObjects`) and the merge of
  git trees (`TreeMerge`).

Run `dafny verify dfyconfig.toml` in this directory.

## How the source is represented

- What loops over or updates state is a method, mostly of a class, proved against a function or
  relation on values; the lemmas are about those functions and relations.
- The API server, the network and git are not modelled. Where one of their calls may fail, the model
  fails there non-deterministically (`if *` in the reconcilers) or by a parameter that the theorem
  quantifies over (`Fate` and `Write` in `Finalizers`). A method that may return after every call
  makes its postcondition hold after every call.
- YAML parsing and the guess from kind to resource are function parameters (`Selectors.Yaml`); content
  transforms such as SOPS are arbitrary functions (`Documents.Transform`); target names are an
  arbitrary function of upstream and branch (`BranchTargets.Naming`).
- A directory listing is a parameter that must describe the files (`Objects.Lists`). The walk writes
  only to the file it is visiting, so the listing read at the start stays the one in use.
- Concurrency is a transition system. `Leases` has one label per atomic action of a pipeline, with the
  LFU cache and the eviction a lookup forces; `BranchInterleavings` has one per call of a pass;
  `ObjectStore.IsRun` interleaves the cache operations of parallel calls. `Versioned` lets a read
  return any version so far.

## Where an expected property is false

Each entry names the lemma that says exactly when the code does meet the property and, for most, one
at a concrete input where it does not.

- **Re-reading a rewritten file.** A last document that ends in a `---` line is read as that line's
  own separator once the final newline is added. `Documents.ReplaceChangesOneDocument`,
  `DeleteDropsOneDocument`, `AppendKeepsDocuments` and `ChangedDocs.NothingTransformedTwice` hold
  exactly when it does not; `Documents.RuleBecomesSeparator`, `AppendedBehindRule` and
  `ChangedDocs.StoredRuleIsLost` are files where it does.
- **One copy after placing, none after deleting, the stored document after writing.** The same line
  can bring another match to light, or hide the one written: `Placement.PlaceLeavesOneCopy`,
  `Objects.FindsNothingDeleted`, `Objects.WrittenIsFound`, and the files of
  `Placement.HiddenCopyAppears` and `HiddenCopyStays`. The failure needs a matcher that tells a
  document from the same one with a `---` line at its end, as that of these two files does. A parser
  that stops at the first document of a stream does not, and then nothing is hidden
  (`Placement.BlindParsersHideNothing`).
- **Placing again changes nothing** only if the transform gives the stored document again when it is
  handed it: `Placement.PlaceAgain`.
- **Placing keeps the other documents** of the file, except where the layout path is taken by a file
  that holds some, and except a last one that ends in a `---` line: `Siblings.PlaceKeepsOthers`,
  `Siblings.LayoutOverwrites`.
- **The cache fast path** misses a copy that appeared elsewhere after the path was remembered:
  `Objects.FastPathAgreesExactly`, `Objects.CopyElsewhereIsMissed`.
- **Pipelines can block each other for good**, exactly when the cache has two entries or more and some
  of them go around a cycle of repositories that fits in the cache, or of which one more pipeline
  leases a repository: `Standstill.StuckExactly`. With one entry they never do, and the pipelines of
  one cycle alone do exactly when it fits: `Deadlock.OneEntryNeverStuck`, `Standstill.OneCycleExactly`.
  The comment at internal/pusher/pipeline.go:26-31 covers the case of one pipeline only.
- **A repository is leased on a clone of its own** wherever no branch has a `#`. With one, two
  repositories can share a cache key, and the clone made for the first is refreshed for the second:
  `Leases.LeasedIsNamed`, `Leases.KeysCanCollide`.
- **Deleting an emptied binding is not version-checked**, although the comment at
  pkg/managed/remoteuserbinding.go:19-20 says concurrent changes merge: `Bindings.NothingIsLostExactly`,
  `Bindings.DeletionCanLoseAddition`.
- **A change of the callback** (say, a renewed CA) **or of the scope of a rule** counts as no change of
  a webhook entry, although the comment at internal/controller/dynamic_webhook.go:178-180 says that
  every field the syncer controls is compared: `Webhooks.WrittenExactlyUnlessTakenForEqual`,
  `CallbackChangeIsIgnored`, `ScopeChangeIsIgnored`.
- **The wanted branches do not all get a target** when two of their derived names coincide (branches
  that differ only in case) or another object has such a name: `BranchTargets.ConvergesExactly`,
  `CaseClashStarves`. One pass is not enough when the name is still taken by a target about to go:
  `BranchTargets.OrphanHoldsName`. When passes interleave, one that works from an old list can delete
  a wanted target that has come to carry a listed name: `BranchInterleavings.OldListDeletesWanted`.
- **A branch pass stopped by an error can leave references to one target it has deleted**, and no later
  pass drops them: `BranchReferences.BranchStore.Reconcile`, `BranchReferences.LeftBehindStays`.
- **Upserts decided on an old configuration** equal their successes in order exactly when those that
  found nothing to do would have found so on the current one: `Webhooks.StaleUpsertsAreSerialExactly`.
- **A user with a binding can end a pass without a target**, when the name derived for it is that of a
  target the same pass prunes: the second part of `UserTargets.UserStore.Reconcile`.

## Model

| member | source | states |
|---|---|---|
| Splitting.JoinSplit | internal/walker/document.go:44-67 | splitting any content and joining the pieces gives the content back |
| Splitting.SplitJoin | internal/walker/document.go:44-67 | joining documents and splitting gives them back if and only if none holds a separator and none but the last would complete one with the separator behind it |
| Splitting.SplitTail | internal/walker/document.go:44-67 | closed documents in front of arbitrary bytes are split off unchanged |
| Splitting.SplitWellSeparated | internal/walker/document.go:44-44 | which document lists a split can produce |
| Splitting.FinalNewlineOnLast | internal/walker/document.go:67-70 | the final newline of a rewritten file lands on the last document and only when that lacks it |
| Documents.ReplaceDocInContentFunc | internal/walker/document.go:43-72 | the loop finds the first match and the result is the replacement function's; nothing is reported found if and only if no document matches |
| Documents.ReplaceChangesOneDocument | internal/walker/document.go:43-72 | a one-document replacement changes only the first match; siblings stay byte for byte and in order, the last one up to the final newline, exactly when it does not end in a `---` line |
| Documents.DeleteDropsOneDocument | internal/walker/document.go:57-58 | a deletion drops only the first match and leaves nothing when it was the only document |
| Documents.LastWriteWins | internal/walker/document.go:43-72 | replacing by a and then by b equals replacing by b, b empty included, for any content |
| Documents.AppendKeepsDocuments | internal/walker/document.go:116-126 | appending keeps the existing documents and adds the new ones behind them, if and only if the file does not end in a `---` line |
| Documents.RereadIs | internal/walker/document.go:43-72 | which documents a rewritten file is read as: the ones written, up to the final newline, or the last one without its `---` line and an empty one |
| Documents.RuleBecomesSeparator | internal/walker/document.go:43-72 | a file of two documents that is read as three once its first one is rewritten |
| Documents.AppendedBehindRule | internal/walker/document.go:116-126 | a file whose document changes when another is appended |
| ChangedDocs.SplitDocs | internal/walker/document.go:93-102 | the loop keeps the non-blank documents without leading marker and trailing newlines |
| ChangedDocs.TransformChangedDocs | internal/walker/document.go:76-91 | one conversion per document, in order and count; an error is that of the first document that cannot be converted |
| ChangedDocs.ConvertAll | internal/walker/document.go:80-89 | documents stored byte for byte are kept, each other one is transformed with its previous version |
| ChangedDocs.ConvertedOverPrevious | internal/walker/document.go:80-114 | a stored document stays; any other goes through the transform over the first stored one of its group, resource and name, parsed or not |
| ChangedDocs.StoredDocsAreNotTransformed | internal/walker/document.go:74-91 | a stored document never reaches the transform: transforms that differ only on stored documents give the same output |
| ChangedDocs.NothingTransformedTwice | internal/walker/document.go:74-91 | a second run on its own output transforms nothing with any transform and cannot fail; it returns the same bytes exactly when the last document does not end in a `---` line |
| ChangedDocs.DocsOfStored | internal/walker/document.go:90-102 | documents written back are read again as they were, or strictly less is read when the last one ends in a `---` line |
| ChangedDocs.StoredRuleIsLost | internal/walker/document.go:90-102 | one document whose bytes change when it is written back and read again |
| ChangedDocs.KeptDocsAreTidy | internal/walker/document.go:93-102 | what splitDocs keeps holds no separator, no leading marker, no trailing newline and is not blank |
| Selectors.MarkerTarget | internal/walker/selector.go:77-82 | a marker value is cut at its first slash, or is all name when it has none |
| Selectors.MatchIgnoresTrailingNewlines | internal/walker/selector.go:32-84 | trailing newlines never change which selectors a document answers to |
| Selectors.SelectorFindsItsDocument | internal/walker/selector.go:88-111 | a document answers to its own selector exactly when it has an apiVersion or a kind; documents found by each other's selectors have the same selector |
| Selectors.MatchesIdentity | internal/walker/selector.go:42-63 | without a marker prefix a document matches exactly on group, resource, name and namespace, whatever its version; no namespace in the selector also stands for `default` |
| Selectors.MarkerFindsItsObject | internal/walker/selector.go:69-84 | a first line that is a marker for a namespace and a name, with any white space around, matches the selector of these and no other of that prefix |
| Walking.WalkIsComplete | internal/walker/walker.go:51-94 | the recursive walk visits every YAML file at any depth exactly once and nothing else |
| Walking.YamlNames | internal/walker/walker.go:76-78 | the names walked are those that end in `.yaml` or `.yml` |
| Objects.CacheMakesNoDifference | internal/walker/object.go:43-91 | with the object in at most one file, any remembered YAML path gives the same files, claims and error as the full walk |
| Objects.FastPathAgreesExactly | internal/walker/object.go:46-61 | the fast path agrees with the full walk exactly when no other file holds a copy; when its own rewriting fails, exactly when no file visited before would change and the first failure is that one |
| Objects.CopyElsewhereIsMissed | internal/walker/object.go:46-61 | two files with a copy each: the fast path leaves one |
| Objects.WalkRewritesEveryCopy | internal/walker/object.go:66-91 | an error-free walk claims exactly the files with a match, in order, rewrites each from its own content and leaves the rest alone |
| Objects.WalkStopsAtFirstFailure | internal/walker/object.go:66-83 | a walk fails exactly when rewriting some file does, with the first such error; the files before it stay rewritten and all others as they were |
| Objects.ClaimsEveryHolder | internal/walker/object.go:66-124 | every file with a match is claimed, as deleted for empty content and as added otherwise; nothing is after an error |
| Objects.WritingNothingRemoves | internal/walker/object.go:132-146 | empty content at a path removes that file and no other |
| Objects.FailedWriteChangesNothing | internal/walker/object.go:132-172 | when the transform fails nothing is written and nothing claimed |
| Objects.FindsFirstHolder | internal/walker/object.go:15-27 | FindObject returns the first matching document of the first file that has one, and nothing when no file has |
| Objects.FindAgreesWithReplace | internal/walker/object.go:15-91 | when the uncached replacement reports no error, FindObject succeeds exactly when it claims a path, and returns the first claimed one |
| Objects.FindsReplacement | internal/walker/object.go:15-91 | after a replacement that still matches, FindObject finds the new document in the same file |
| Objects.FindsNothingDeleted | internal/walker/object.go:15-91 | after an error-free deletion FindObject finds nothing if and only if no file held a second match behind the first, counting a last document as it is read without the `---` line it ends in |
| Objects.WrittenIsFound | internal/walker/object.go:132-172 | the first match of the file written is the stored content, whether replaced, appended or new, unless it is appended to a file that ends in a `---` line; what is read then, and exactly when it holds a match, is stated; no other file changes |
| ObjectStore.Worktree.ApplyReplacement | internal/walker/object.go:99-124 | writes the rewritten file, removes it when only white space is left, or leaves it |
| ObjectStore.Worktree.WalkReplace | internal/walker/object.go:66-83 | the recursive walk over a listing rewrites as the walk over the visited paths does, stopping at the first error |
| ObjectStore.Worktree.WriteObjectAtPath | internal/walker/object.go:132-172 | replaces in place, appends, creates or deletes at an explicit path |
| ObjectStore.ReplaceObject | internal/walker/object.go:43-91 | one call does what the cached replacement says; afterwards the key is remembered with the one path an error-free write claimed, if it claimed one and was not evicted, and not at all after several, none or a deletion; other entries are kept or evicted; with a cache of walked paths and the object in at most one file it does what the walk without a cache does |
| ObjectStore.RecordMatches | internal/walker/cache.go:38-48 | one match is remembered as the path to try; after several or none no path is |
| ObjectStore.FindObject | internal/walker/object.go:15-27 | the walk stops at the first match |
| ObjectStore.RunRemembersWalks | internal/walker/cache.go:38-48 | however the lookups and notes of parallel calls interleave, each remembered path is one a full walk visits |
| ObjectStore.CachedRunEqualsUncached | internal/walker/object.go:29-91 | in every interleaving of the cache operations of parallel calls, whatever the worktrees and whatever the cache holds, a call whose object is in at most one file does exactly what the cache-off version does |
| ObjectStore.ManyHoldersKeepBeingWalked | internal/walker/cache.go:38-48 | in every interleaving, once a call has claimed several files for a key and until another call notes something for it, each call for the key does what the cache-off version does, with any number of holders |
| ObjectStore.StepIsLookAndNote | internal/walker/object.go:43-91 | a call on its own is its lookup followed by its note |
| Placement.PlaceArtifact | internal/mutator/mutator.go:186-206 | the finder's replacement when it claims something, the layout otherwise |
| Placement.PlacedByLayout | internal/mutator/mutator.go:186-206 | without the finder, or when no file holds the object, the artifact is laid at its layout path and no other file changes |
| Placement.PlacedByFinder | internal/mutator/mutator.go:186-206 | with the finder and a file that holds the object the layout path plays no part, and an error-free placement claims something |
| Placement.LaidInFields | internal/mutator/default.go:117-154 | nil content leaves the file, empty content empties it, both claimed as deleted; other content is written as transformed over the file there; an error writes and claims nothing |
| Placement.LayoutComponents | internal/mutator/default.go:46-101 | the segments of a layout path in their order; there is none exactly when one in front of the name has a refused character |
| Placement.LayoutTellsApart | internal/mutator/default.go:46-101 | under one root path two objects have the same layout path exactly when they agree on scope, group, version, resource and name |
| Placement.PlaceLeavesOneCopy | internal/mutator/mutator.go:186-206 | with the finder on and at most one copy present, the object is left in the one claimed path and nowhere else, for any cache; in exactly one copy there if and only if the file that held it hid no further one behind a `---` line |
| Placement.BlindParsersHideNothing | internal/walker/selector.go:32-84 | nothing is hidden when parsing does not see a `---` line at the end of a document |
| Placement.HiddenCopyAppears | internal/mutator/mutator.go:186-206 | a file with one copy in which placing the object leaves two |
| Placement.HiddenCopyStays | internal/walker/object.go:63-91 | the same file still holds a copy after the object is deleted |
| Placement.PlaceAgain | internal/mutator/mutator.go:186-206 | with the object in at most one file, placing the same artifact again changes at most newlines at the end of the claimed file, if and only if the transform, handed the document now there, gives the same document |
| Placement.PlaceAgainVerbatim | internal/mutator/mutator.go:186-206 | without a transform placing again changes nothing else |
| Siblings.PlaceKeepsOthers | internal/mutator/default.go:117-154 | placing changes no other file, and when the documents of other objects in the claimed file are all still there |
| Siblings.LaidKeepsOthers | internal/mutator/default.go:143-154 | a write at the layout path keeps what was there exactly when all of it was the object's or blank |
| Siblings.LayoutOverwrites | internal/mutator/default.go:143-154 | a file of another object at the layout path is lost |
| Placement.LayoutIsYaml | internal/mutator/default.go:117-130 | a layout path is one the walk visits |
| Placement.SelectorsAreSensible | internal/walker/selector.go:32-84 | selectors meet the assumptions the placement lemmas make on matchers |
| Lfu.LFU.Get | internal/cache/lfu.go:45-59 | a hit returns the value and touches the entry, a miss changes nothing |
| Lfu.LFU.Set | internal/cache/lfu.go:63-78 | updates and touches, or inserts and evicts one least-used other entry when full |
| Lfu.LFU.LoadOrStore | internal/cache/lfu.go:85-100 | loads what is there, otherwise stores and evicts |
| Lfu.LFU.Delete | internal/cache/lfu.go:103-110 | removes exactly the key |
| Lfu.LFU.Touch | internal/cache/lfu.go:114-121 | bumps one counter and halves all when it reaches 65536 |
| Lfu.LFU.Evict | internal/cache/lfu.go:126-145 | the loop ends within capacity, after removing one entry that is not the new one and is used least, whatever the map order |
| Lfu.EveryRunIsBounded | internal/cache/lfu.go:8-145 | in every run the size stays within capacity, every counter below 65536, and k >= 1 halvings take at least (k+1)*32768 touches |
| Lfu.EveryHitIsLastStored | internal/cache/lfu.go:45-110 | in every run a hit returns the value last stored and not deleted since |
| Lfu.FullInsertEvictsLeastUsed | internal/cache/lfu.go:74-145 | an insert into a full cache evicts exactly one of the least used entries and never the new one; with room it evicts none |
| Lfu.AgingKeepsOrder | internal/cache/lfu.go:114-121 | halving never inverts the order of two counters |
| Lfu.TouchInFields | internal/cache/lfu.go:114-121 | a touch adds one to one counter, or halves all, rounding down, when that makes 65536; values and keys stay |
| Lfu.CounterCountsUses | internal/cache/lfu.go:45-121 | in every run a counter is at most the number of uses of its entry since it was stored, and exactly that until the first halving |
| Lfu.EvictsWhatWasUsedLeast | internal/cache/lfu.go:126-145 | until the first halving, what goes for a new key was used least of all entries, and the cache was full |
| Leases.CacheKeyInjective | internal/pusher/repository.go:25-27 | on one branch, cache keys coincide exactly for the same repository |
| Leases.LookupIsLoadOrStore | internal/pusher/cache.go:46-50 | a lookup of a handle, with the eviction it may force, is the LoadOrStore of the LFU cache |
| Leases.StepKeepsInv | internal/pusher/cache.go:46-68 | every action of every pipeline, with any eviction it forces, keeps the lease invariant |
| Leases.LeasesAreExclusive | internal/pusher/cache.go:37-68 | in every interleaving no two pipelines touch one repository, no repository sits in two handles, and no pipeline waits for a mutex it holds |
| Leases.GetRepositoryReturnsOneLease | internal/pusher/repository.go:44-76 | a getRepository call returns one lease with the mutex locked, or an error with the mutex unlocked; a finished pipeline holds nothing |
| Leases.LeasesWhatItNames | internal/pusher/repository.go:198-216 | in every run a target lease is from the handle of target repository and upstream branch, an upstream lease from that of upstream repository and upstream branch, each on a clone of that key; a pipeline works with an upstream lease exactly when it has a merge strategy and the repositories differ |
| Leases.LooksUpTargetFirst | internal/pusher/pipeline.go:17-41 | in every run the first lookup of a pipeline is for its target repository and the second for its upstream repository, both on the upstream branch |
| Leases.WhatFillingLeaves | internal/pusher/repository.go:44-76 | a clone is of the repository and branch named and is leased, a refresh leases what is there, a failed clone drops an empty handle from the cache and leaves a filled one |
| Leases.HowFillingEnds | internal/pusher/repository.go:44-76 | a call with the mutex may always clone or fail, and refresh exactly when its handle holds a repository |
| Leases.LeasedIsNamed | internal/pusher/repository.go:25-27 | without `#` in the branches the leased clone is of exactly the repository and branch named |
| Leases.KeysCanCollide | internal/pusher/repository.go:25-27 | two repositories with one cache key |
| Leases.TwoHandles | internal/pusher/pipeline.go:24-41 | the target and upstream handles of a pipeline are different |
| Deadlock.StuckMakesCycle | internal/pusher/pipeline.go:17-41 | if all pipelines in flight are blocked, their target-to-upstream edges form a cycle |
| Deadlock.OneEntryNeverStuck | internal/pusher/cache.go:46-50 | with a cache of one entry no run of any pipelines ends in a standstill |
| Deadlock.StuckNeedsCycle | internal/pusher/pipeline.go:17-41 | for any pipelines and any cache, a standstill takes a cycle of edges and two entries |
| Deadlock.CycleGetsStuck | internal/pusher/pipeline.go:17-41 | from any simple cycle of edges, a run that leaves all its pipelines blocked: in a cache with room for the cycle, or in one of two entries or more when another pipeline leases one of its repositories |
| Deadlock.StuckExactlyOnCycles | internal/pusher/pipeline.go:17-41 | a standstill is reachable if and only if the edges have a cycle and the cache has two entries or more, for a cache with room for every target and, at any size, when each kind of pipeline comes twice |
| Deadlock.UnblockedCanStep | internal/pusher/pipeline.go:17-41 | a pipeline in flight can act exactly when it does not wait for a locked mutex |
| Standstill.LonelyFits | internal/pusher/cache.go:46-50 | pipelines that wait around a cycle of which no other leases a repository, all at once, fit in the cache |
| Standstill.StuckExactly | internal/pusher/pipeline.go:17-41 | for fewer than 65535 pipelines and any cache, a standstill is reachable if and only if the cache has two entries or more and there is a cycle that fits in it or shares a repository with one more pipeline |
| Standstill.OneCycleExactly | internal/pusher/pipeline.go:17-41 | the pipelines of one cycle alone can come to a standstill if and only if the cache has room for it |
| Finalizers.Reconciler.RunPolicies | internal/policy/policy.go:42-99 | the loops do what the pass function says, for every fate of every call; what that is, call by call, is stated by the lemmas below |
| Finalizers.Reconciler.AddMissing | internal/policy/policy.go:118-133 | adds the needed finalizers that are missing, once each and in order, and reports a change exactly when there is one |
| Finalizers.Reconciler.EnsureFinalizers | internal/policy/policy.go:104-137 | adds every missing needed finalizer in one write and reports whether it did |
| Finalizers.Reconciler.RemoveFinalizerFrom | internal/policy/policy.go:140-150 | removes one finalizer, and the object when deletion waited for it |
| Finalizers.EveryRunIsGuarded | internal/policy/policy.go:42-150 | in every run with edits, deletion, failures and stops: external state only under a finalizer, Reconcile only with it present, none left of an object that is gone |
| Finalizers.TwoPassesSettle | internal/policy/policy.go:61-98 | two error-free passes leave exactly the applicable policies' finalizers and the foreign ones in order, and any further pass keeps them |
| Finalizers.DeletionFinishes | internal/policy/policy.go:45-59 | one error-free pass on a deleted object leaves only foreign finalizers; it is gone exactly when there are none |
| Finalizers.PassCallsEveryPolicy | internal/policy/policy.go:74-99 | a pass over a prepared object makes one call per policy it reaches, in order and whatever became of the others: Reconcile where the policy applies, Cleanup elsewhere; external state is as those calls leave it, and the pass is ok exactly when it reached all and every call succeeded |
| Finalizers.UnpreparedPassOnlyEnsures | internal/policy/policy.go:61-137 | a pass that finds a needed finalizer missing adds all that are missing and only needed ones, calls no policy, and is ok exactly when the write is acknowledged |
| Finalizers.DeletionCallsEveryHolder | internal/policy/policy.go:45-59 | on deletion the cleanups are those of the policies that hold their finalizer, in order, up to the first that does not go through; ok exactly when all do |
| Finalizers.WhatAPassTakesOff | internal/policy/policy.go:45-150 | a finalizer goes exactly when the pass reaches its policy, has to clean up after it, succeeds in that and the write is not refused; what external state goes on deletion |
| Syncers.OtherSyncers | internal/policy/syncers.go:19-66 | exactly the other syncers, of either kind, with a non-empty annotation and the same identity namespace |
| Syncers.AnnotationNamesBranches | pkg/managed/annotations.go:9-15 | branches written with commas between them and spaces anywhere around are read back in order |
| BranchTargets.TargetStore.Reconcile | internal/policy/branchtarget_policy.go:40-99 | finished or not, a target it creates is for a desired branch, on the syncer's upstream and in its repository, under the derived name, with a merge strategy exactly when the branch is not the syncer's own, and one it deletes is managed, of this upstream and wanted neither by it nor by another syncer; finished, leaves nothing unwanted and every desired branch unless its name was taken |
| BranchTargets.TargetStore.Cleanup | internal/policy/branchtarget_policy.go:185-213 | finished or not, deletes only what no other syncer wants; finished, leaves none of those |
| BranchTargets.CarefulInFields | internal/policy/branchtarget_policy.go:59-134 | the fields of the targets that a pass creates, and of those that it deletes |
| BranchTargets.IsBranchUsedByOtherSyncer | internal/policy/branchtarget_policy.go:171-182 | true exactly when another syncer on the upstream names the branch |
| BranchTargets.PassEffect | internal/policy/branchtarget_policy.go:40-99 | a successful pass leaves the syncer's branches and the existing wanted ones, nothing else |
| BranchTargets.AnyOrderConverges | internal/policy/branchtarget_policy.go:40-99 | one successful pass per syncer in any order reaches exactly the union of desired branches, and further passes change nothing |
| BranchTargets.LastCleanupLeavesNone | internal/policy/branchtarget_policy.go:185-213 | cleaning up the last syncer that wants anything leaves no target |
| BranchTargets.ConvergesExactly | internal/policy/branchtarget_policy.go:40-99 | after a first pass and then one per syncer, the targets are the wanted branches if and only if no two of their derived names coincide and no other object has one |
| BranchTargets.CaseClashStarves | internal/policy/branchtarget_policy.go:68-76 | a syncer of two branches that differ in case: its passes succeed and one branch never gets a target |
| BranchTargets.OrphanHoldsName | internal/policy/branchtarget_policy.go:59-95 | a successful pass that leaves a wanted branch without target because the name belonged to a target it then deleted |
| BranchInterleavings.InterleavedPassesConverge | internal/policy/branchtarget_policy.go:40-99 | the same convergence when the calls of parallel passes interleave in any way, each pass working from the list it read |
| BranchInterleavings.InterleavedExactly | internal/policy/branchtarget_policy.go:40-99 | with nothing unwanted to start from, interleaved passes reach the wanted branches if and only if no two derived names coincide and no other object has one |
| BranchInterleavings.OldListDeletesWanted | internal/policy/branchtarget_policy.go:83-95 | an interleaving in which a pass deletes a wanted target under a name it listed before |
| BranchInterleavings.WantedTargetsStay | internal/policy/branchtarget_policy.go:79-95 | in every interleaving from free names no call removes a wanted target or a foreign object |
| BranchInterleavings.AlonePassReconciles | internal/policy/branchtarget_policy.go:40-99 | a pass whose calls nothing interrupts is a successful pass as the method promises it |
| BranchReferences.BranchStore.DeleteTarget | internal/policy/branchtarget_policy.go:86-93 | the target first, its references afterwards: finished the target is gone and none is left, stopped only those to this target |
| BranchReferences.BranchStore.Reconcile | internal/policy/branchtarget_policy.go:40-99 | a pass creates and deletes targets as one without references does, and drops only references to targets it deletes; finished it leaves none of those, stopped by an error at most those to one target |
| BranchReferences.BranchStore.Cleanup | internal/policy/branchtarget_policy.go:185-213 | a cleanup deletes only what no other syncer wants and, finished, leaves none of it; none left behind when finished, of one target at most when stopped |
| BranchReferences.LeftBehindStays | internal/policy/branchtarget_policy.go:79-95 | a reference left behind is dropped by no later pass while there is no target of the name |
| UserTargets.UserStore.ReconcileUser | internal/policy/userspecific_policy.go:86-116 | create before reference: no reference dangles after any call; a new target has the fields its user and syncer say, and the binding gains a reference to its user's target and loses none |
| UserTargets.UserStore.ReconcileUsers | internal/policy/userspecific_policy.go:75-118 | finished, every binding with a user references that user's existing target |
| UserTargets.RemoveRefs | pkg/managed/remoteuserbinding.go:109-137 | touches only references to the target and drops only bindings left empty; finished, no binding references it |
| UserTargets.UserStore.PruneStale | internal/policy/userspecific_policy.go:123-150 | deletes only targets of inactive users on an unshared upstream, references first |
| UserTargets.UserStore.Reconcile | internal/policy/userspecific_policy.go:37-66 | after every call no reference dangles that did not before, no binding has gained a reference but to its own user's target, and no target of a shared upstream or of a user with a binding is deleted; a new target has the fields its user and syncer say; finished, no reference to a target still there is lost, and a user with a binding is served unless its derived name is that of a target pruned in the same pass, and with one target per user only then |
| UserTargets.UserStore.Cleanup | internal/policy/userspecific_policy.go:258-285 | references first, targets second, and none left of an unshared upstream when finished |
| Versioned.UpdatesAreSerial | pkg/managed/remoteuserbinding.go:28-41 | runs that never delete the object equal the successful calls one after another, even from stale reads |
| Versioned.SerialExactly | pkg/managed/remoteuserbinding.go:37-40 | a run of updates and deletions is serial at every version exactly when each deletion would also have been decided on the content it deleted |
| Versioned.StaleRunsAreSerialExactly | internal/controller/dynamic_webhook.go:132-175 | however stale the reads, a run of calls that create only what is absent is serial after every success exactly when each success that found nothing to do or deleted would have decided so on the content it met |
| Versioned.FreshRunsAreSerial | internal/controller/dynamic_webhook.go:132-175 | with fresh reads, calls that may also create or find nothing to do are serial |
| Versioned.FreshWriteTakesEffect | internal/controller/dynamic_webhook.go:132-175 | a write decided on the current content and fitting it adds exactly that version |
| Versioned.StaleWriteIsRefused | internal/controller/dynamic_webhook.go:132-175 | an update decided on another version, or a creation of what is there, changes nothing |
| Bindings.RemoteUserBinding.AddRemoteTargetRef | pkg/managed/remoteuserbinding.go:52-59 | appends a reference unless one designates the target already |
| Bindings.RemoteUserBinding.RemoveRemoteTargetRef | pkg/managed/remoteuserbinding.go:62-70 | keeps exactly the other references, in order |
| Bindings.MutationEffect | pkg/managed/remoteuserbinding.go:47-70 | a mutation changes only the references to its own target |
| Bindings.MutatedInFields | pkg/managed/remoteuserbinding.go:44-70 | by name and namespace, which references a removal takes out and when an addition appends one; a reference into another namespace stays |
| Bindings.AddedRefsSurvive | pkg/managed/remoteuserbinding.go:17-42 | in every concurrent run that never empties the binding no success is lost, and a target added and not removed since is referenced exactly once |
| Bindings.AdditionsKeepBinding | pkg/managed/remoteuserbinding.go:33-40 | a run of additions alone never deletes the binding |
| Bindings.NothingIsLostExactly | pkg/managed/remoteuserbinding.go:21-42 | a concurrent run is serial at every version if and only if each deletion met a binding with no user reference and none to another target |
| Bindings.DeletionCanLoseAddition | pkg/managed/remoteuserbinding.go:37-40 | the run in which an unchecked deletion loses a concurrent addition |
| Webhooks.Scan | internal/controller/dynamic_webhook.go:153-163 | the other owners' entries in order, and whether the last entry of the name is up to date |
| Webhooks.Decide | internal/controller/dynamic_webhook.go:132-175 | what one attempt creates, updates or leaves |
| Webhooks.UpsertEffect | internal/controller/dynamic_webhook.go:132-175 | the owner's entry is as asked, names stay distinct, other entries keep content and order |
| Webhooks.EveryOwnerKeepsItsEntry | internal/controller/dynamic_webhook.go:114-175 | in every interleaving with fresh reads each name occurs once, each owner has what its last success left, the rest is untouched |
| Webhooks.StaleUpsertsAreSerialExactly | internal/controller/dynamic_webhook.go:114-175 | with reads of any age, upserts are serial exactly when each that found nothing to do would have found so on the current configuration |
| Webhooks.WrittenExactlyUnlessTakenForEqual | internal/controller/dynamic_webhook.go:132-185 | a successful upsert leaves the entry exactly as asked if and only if no entry of that name was there that compares as equal and is another; a deletion never leaves it |
| Webhooks.SeenInFields | internal/controller/dynamic_webhook.go:178-185 | two entries differ at most in the client configuration and the scope of rules exactly when name, number of rules, each rule's groups, versions, resources and operations, and both selectors agree |
| Webhooks.UnwrittenExactly | internal/controller/dynamic_webhook.go:132-185 | an asked entry is left unwritten exactly when the entry of its name differs at most in the client configuration and the scope of rules |
| Webhooks.CallbackChangeIsIgnored | internal/controller/dynamic_webhook.go:165-185 | a change of the client configuration alone is not written |
| Webhooks.ScopeChangeIsIgnored | internal/controller/remotesyncer_controller.go:163-178 | a change of the scope of a rule alone is not written |
| ExcludedFields.ParsePath | pkg/render/excludedfields.go:71-105 | the character loop computes the parts |
| ExcludedFields.SpellingParses | pkg/render/excludedfields.go:71-105 | any mix of dotted and bracketed spellings with stray dots parses back to the same parts |
| ExcludedFields.RemovesExactly | pkg/render/excludedfields.go:107-134 | removal deletes exactly the subtree at the path; every other path leads where it led |
| ExcludedFields.OnlyTheSetMatters | pkg/render/yaml.go:93-96 | applying a list of paths depends only on the set of paths |
| ExcludedFields.LeafSurvives | pkg/render/yaml.go:93-96 | a non-object value survives exactly when no excluded path leads to it or to an object around it |
| ExcludedFields.RemoveExcludedFields | pkg/render/yaml.go:93-96 | the loop over the paths removes all of them |
| JsonObjects.JsonObject.Remove | pkg/render/excludedfields.go:107-134 | the deletion in place in the innermost nested map is the removal from the whole document |
| JsonObjects.RemoveExcludedField | pkg/render/excludedfields.go:71-134 | parsing and deleting in place together |
| TreeMerge.MergeTreeObjects | pkg/envtest/repository.go:347-390 | terminates on every tree and computes the merge |
| TreeMerge.MergedPaths | pkg/envtest/repository.go:344-390 | what every path of the merged tree leads to, in terms of base and overlay |
| TreeMerge.MergeSelf | pkg/envtest/repository.go:348-350 | merging a tree with itself changes nothing, which justifies the shortcut on equal hashes |
| TreeMerge.MergeTwice | pkg/envtest/repository.go:344-390 | merging the same overlay again changes nothing |

## Left out

- YAML and JSON parsing, the SOPS transform, URL parsing and name sanitizing: foreign code, represented by arbitrary functions.
- Non-ASCII white space, which `bytes.TrimSpace` also removes: `Common.IsBlank` and `Common.TrimSpace` know the ASCII characters only.
- File system errors other than a file missing during the walk; invalid UTF-8 in excluded-field paths.
- Placement of several artifacts in one call, whole-file artifacts and the providers that produce artifacts: the fallback to the layout looks at all claims together, so a statement about several artifacts would be about their mix. `.` and `..` segments in a configured root path are not cleaned.
- JsonObjects.JsonObject.Remove: descends by recursion where the source reassigns one variable in a loop; the nested maps of a decoded document are not shared, and the model requires that.
- TreeMerge.MergeTreeObjects: trees are values, so hashing tree objects, sorting their entries by plain name and the error that encoding them in that order may return are not modelled.
- Standstill.StuckExactly: 65535 pipelines or more, where the counters may age and an entry of the cycle may be evicted by a tie; the run that ends in a standstill (`Deadlock.CycleGetsStuck`) needs no such bound.
- Leases: the disabled cache (a fresh clone per call and nothing to release, so nothing to wait for) and what a refresh does inside the repository.
- Placement.PlaceArtifact: leaves out creating the layout directory and the errors of `Stat` and `MkdirAll` (internal/mutator/default.go:62-76), a layout directory that exists as a file, and one whose last segment contains `.yaml`, where the file name is taken from the path (internal/mutator/default.go:104-115).
- Finalizers: conflicts within a pass; edits come between passes, as the object is refreshed in place. Requeue delays and merged results are not modelled.
- BranchTargets: a syncer whose upstream changes is not followed, as its old targets are not listed again.
- UserTargets: other writers in the middle of a pass; the target branch, merge strategy and annotations of a user's target.
- BranchReferences: other writers of the bindings during a pass.
- Retry limits and back-off of conflicting writes: a refused write ends the attempt, and another read may start a new one.
- Controllers, watches, admission webhooks, permissions, conversions, status and the git commands themselves.
