/** The recursive walk over a worktree (internal/walker/walker.go). */
module Walking {
  import opened Common

  /** What ReadDir reports for a directory, with the subdirectories' own listings. */
  datatype DirEntry = FileEntry(name: string) | SubDir(name: string, entries: seq<DirEntry>)

  predicate IsYamlName(name: string) {
    HasSuffix(name, ".yaml") || HasSuffix(name, ".yml")
  }

  /** A name the walk looks at is anything with one of the two endings behind it. */
  lemma YamlNames(name: string)
    ensures IsYamlName(name) <==> exists stem :: name == stem + ".yaml" || name == stem + ".yml"
  {
    if HasSuffix(name, ".yaml") { assert name == name[..|name| - 5] + ".yaml"; }
    if HasSuffix(name, ".yml") { assert name == name[..|name| - 4] + ".yml"; }
  }

  predicate IsYaml(p: Path) {
    |p| > 0 && IsYamlName(p[|p| - 1])
  }

  /** The files the walk visits under base, in visiting order. */
  function Visited(base: Path, entries: seq<DirEntry>): seq<Path>
    decreases entries
  {
    if entries == [] then []
    else VisitedAt(base, entries[0]) + Visited(base, entries[1..])
  }

  function VisitedAt(base: Path, entry: DirEntry): seq<Path>
    decreases entry
  {
    match entry
    case FileEntry(name) => if IsYamlName(name) then [base + [name]] else []
    case SubDir(name, entries) => Visited(base + [name], entries)
  }

  /** p is a regular file of the tree listed under base. */
  ghost predicate HasFile(base: Path, entries: seq<DirEntry>, p: Path)
    decreases entries
  {
    exists i :: 0 <= i < |entries| && IsFileOf(base, entries[i], p)
  }

  ghost predicate IsFileOf(base: Path, entry: DirEntry, p: Path)
    decreases entry
  {
    match entry
    case FileEntry(name) => p == base + [name]
    case SubDir(name, entries) => HasFile(base + [name], entries, p)
  }

  /** No directory lists a name twice. */
  ghost predicate WellNamed(entries: seq<DirEntry>)
    decreases entries
  {
    && (forall i, j :: 0 <= i < j < |entries| ==> entries[i].name != entries[j].name)
    && (forall i :: 0 <= i < |entries| && entries[i].SubDir? ==> WellNamed(entries[i].entries))
  }

  ghost predicate NoDuplicates<T(!new)>(s: seq<T>) {
    forall i, j :: 0 <= i < j < |s| ==> s[i] != s[j]
  }

  lemma NoDuplicatesConcat<T(!new)>(a: seq<T>, b: seq<T>)
    requires NoDuplicates(a) && NoDuplicates(b) && forall x :: x in a ==> x !in b
    ensures NoDuplicates(a + b)
  {
    forall i, j | 0 <= i < j < |a + b| ensures (a + b)[i] != (a + b)[j] {
      if i < |a| <= j { assert a[i] in a && b[j - |a|] in b; }
    }
  }

  /** A visited file lies under its directory and under the entry that leads to it. */
  lemma {:induction false} VisitedUnder(base: Path, entries: seq<DirEntry>, p: Path)
    requires p in Visited(base, entries)
    ensures |p| > |base| && base <= p
    ensures exists i :: 0 <= i < |entries| && entries[i].name == p[|base|] && p in VisitedAt(base, entries[i])
    decreases entries
  {
    if p in VisitedAt(base, entries[0]) {
      VisitedAtUnder(base, entries[0], p);
    } else {
      VisitedUnder(base, entries[1..], p);
      var i :| 0 <= i < |entries[1..]| && entries[1..][i].name == p[|base|] && p in VisitedAt(base, entries[1..][i]);
      assert entries[i + 1] == entries[1..][i];
    }
  }

  lemma {:induction false} VisitedAtUnder(base: Path, entry: DirEntry, p: Path)
    requires p in VisitedAt(base, entry)
    ensures |p| > |base| && base <= p && p[|base|] == entry.name
    decreases entry
  {
    if entry.SubDir? {
      VisitedUnder(base + [entry.name], entry.entries, p);
      assert p[..|base|] == (base + [entry.name])[..|base|] == base;
      assert p[|base|] == (base + [entry.name])[|base|];
    }
  }

  /** The walk visits every YAML file of the tree, at any depth, exactly once, and nothing else. */
  lemma {:induction false} WalkIsComplete(base: Path, entries: seq<DirEntry>)
    requires WellNamed(entries)
    ensures NoDuplicates(Visited(base, entries))
    ensures forall p :: p in Visited(base, entries) <==> HasFile(base, entries, p) && IsYaml(p)
    decreases entries
  {
    if entries != [] {
      var head, rest := entries[0], entries[1..];
      WalkIsCompleteAt(base, head);
      WalkIsComplete(base, rest);
      assert forall i :: 0 <= i < |rest| ==> rest[i] == entries[i + 1] && rest[i].name != head.name;
      forall p | p in VisitedAt(base, head) ensures p !in Visited(base, rest) {
        VisitedAtUnder(base, head, p);
        if p in Visited(base, rest) {
          VisitedUnder(base, rest, p);
        }
      }
      NoDuplicatesConcat(VisitedAt(base, head), Visited(base, rest));
      forall p ensures HasFile(base, entries, p) <==> IsFileOf(base, head, p) || HasFile(base, rest, p) {
        HasFileCons(base, entries, p);
      }
    }
  }

  lemma HasFileCons(base: Path, entries: seq<DirEntry>, p: Path)
    requires entries != []
    ensures HasFile(base, entries, p) <==> IsFileOf(base, entries[0], p) || HasFile(base, entries[1..], p)
  {
    if HasFile(base, entries[1..], p) {
      var i :| 0 <= i < |entries[1..]| && IsFileOf(base, entries[1..][i], p);
      assert IsFileOf(base, entries[i + 1], p);
    }
    if HasFile(base, entries, p) && !IsFileOf(base, entries[0], p) {
      var i :| 0 <= i < |entries| && IsFileOf(base, entries[i], p);
      assert IsFileOf(base, entries[1..][i - 1], p);
    }
  }

  lemma {:induction false} WalkIsCompleteAt(base: Path, entry: DirEntry)
    requires entry.SubDir? ==> WellNamed(entry.entries)
    ensures NoDuplicates(VisitedAt(base, entry))
    ensures forall p :: p in VisitedAt(base, entry) <==> IsFileOf(base, entry, p) && IsYaml(p)
    decreases entry
  {
    match entry
    case FileEntry(name) =>
    case SubDir(name, entries) => WalkIsComplete(base + [name], entries);
  }
}
