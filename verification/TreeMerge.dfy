/** Merging two git trees, the overlay winning (pkg/envtest/repository.go). */
module TreeMerge {
  import opened Common

  /** What a tree entry leads to; blob stands for mode and content. */
  datatype Node = File(blob: string) | Dir(tree: Tree)

  /** A tree object, its entries by name. Trees of equal hash are equal. */
  datatype Tree = Tree(entries: map<string, Node>)

  /** Overlay entries override base entries; two directories of the same name are merged. */
  function Override(base: Option<Node>, overlay: Node): Node
    decreases overlay, 0
  {
    if base.Some? && base.value.Dir? && overlay.Dir? then Dir(Merge(base.value.tree, overlay.tree)) else overlay
  }

  function Entry(entries: map<string, Node>, name: string): Option<Node> {
    if name in entries then Some(entries[name]) else None
  }

  /** The entry after the overlay was gone over. */
  function PickEntry(base: map<string, Node>, overlay: map<string, Node>, name: string): Option<Node> {
    if name in overlay then Some(Override(Entry(base, name), overlay[name])) else Entry(base, name)
  }

  function Pick(base: Tree, overlay: Tree, name: string): Node
    requires name in base.entries || name in overlay.entries
    decreases overlay, 0
  {
    if name in overlay.entries then Override(Entry(base.entries, name), overlay.entries[name]) else base.entries[name]
  }

  function Merge(base: Tree, overlay: Tree): Tree
    decreases overlay, 1
  {
    Tree(map name | name in base.entries.Keys + overlay.entries.Keys :: Pick(base, overlay, name))
  }

  /** Equal hashes need no merge. */
  method MergeTreeObjects(base: Tree, overlay: Tree) returns (merged: Tree)
    ensures merged == Merge(base, overlay)
    decreases overlay, 1
  {
    if base == overlay {
      MergeSelf(base);
      return base;
    }
    var entries := MergeEntries(base.entries, overlay);
    MergedEntries(base, overlay, entries);
    return Tree(entries);
  }

  /** Starts from the base's entries and goes over the overlay's. */
  method MergeEntries(base: map<string, Node>, overlay: Tree) returns (merged: map<string, Node>)
    ensures forall name :: Entry(merged, name) == PickEntry(base, overlay.entries, name)
    decreases overlay, 0
  {
    merged := base;
    var todo := overlay.entries.Keys;
    while todo != {}
      invariant todo <= overlay.entries.Keys
      invariant forall name ::
        Entry(merged, name) == if name in todo then Entry(base, name) else PickEntry(base, overlay.entries, name)
      decreases todo
    {
      var name :| name in todo;
      var entry := MergeEntry(Entry(merged, name), overlay.entries[name]);
      todo := todo - {name};
      merged := merged[name := entry];
    }
  }

  method MergeEntry(existing: Option<Node>, e: Node) returns (entry: Node)
    ensures entry == Override(existing, e)
    decreases e, 2
  {
    if existing.Some? && existing.value.Dir? && e.Dir? {
      var sub := MergeTreeObjects(existing.value.tree, e.tree);
      return Dir(sub);
    }
    return e;
  }

  lemma MergedEntry(base: Tree, overlay: Tree, name: string)
    requires name in base.entries || name in overlay.entries
    ensures name in Merge(base, overlay).entries
    ensures Some(Merge(base, overlay).entries[name]) == PickEntry(base.entries, overlay.entries, name)
  {
    assert Merge(base, overlay).entries[name] == Pick(base, overlay, name);
  }

  lemma MergedEntries(base: Tree, overlay: Tree, entries: map<string, Node>)
    requires forall name :: Entry(entries, name) == PickEntry(base.entries, overlay.entries, name)
    ensures Tree(entries) == Merge(base, overlay)
  {
    var merged := Merge(base, overlay).entries;
    forall name ensures (name in entries <==> name in merged) && (name in merged ==> entries[name] == merged[name]) {
      assert Entry(entries, name) == PickEntry(base.entries, overlay.entries, name);
      if name in merged { MergedEntry(base, overlay, name); }
    }
    assert entries == merged;
  }

  lemma {:induction false} MergeSelf(t: Tree)
    ensures Merge(t, t) == t
    decreases t
  {
    forall name | name in t.entries ensures Pick(t, t, name) == t.entries[name] {
      if t.entries[name].Dir? { MergeSelf(t.entries[name].tree); }
    }
    assert Merge(t, t).entries == t.entries;
  }

  /** Merging the same overlay a second time changes nothing. */
  lemma {:induction false} MergeTwice(base: Tree, overlay: Tree)
    ensures Merge(Merge(base, overlay), overlay) == Merge(base, overlay)
    decreases overlay
  {
    var once := Merge(base, overlay);
    forall name | name in once.entries ensures Pick(once, overlay, name) == once.entries[name] {
      assert once.entries[name] == Pick(base, overlay, name);
      if name in overlay.entries && overlay.entries[name].Dir? {
        if name in base.entries && base.entries[name].Dir? {
          MergeTwice(base.entries[name].tree, overlay.entries[name].tree);
        } else {
          MergeSelf(overlay.entries[name].tree);
        }
      }
    }
    assert Merge(once, overlay).entries == once.entries;
  }

  /** What a path leads to. */
  function Resolve(t: Tree, p: Path): Option<Node>
    decreases |p|
  {
    if p == [] then Some(Dir(t))
    else if p[0] !in t.entries then None
    else if |p| == 1 then Some(t.entries[p[0]])
    else if t.entries[p[0]].Dir? then Resolve(t.entries[p[0]].tree, p[1..])
    else None
  }

  predicate FileAt(t: Tree, p: Path) {
    Resolve(t, p).Some? && Resolve(t, p).value.File?
  }

  /** A file of t stands where p needs a directory. */
  ghost predicate Blocks(t: Tree, p: Path) {
    exists k :: 0 < k < |p| && FileAt(t, p[..k])
  }

  lemma BlocksBelow(t: Tree, p: Path)
    requires |p| > 1 && p[0] in t.entries
    ensures t.entries[p[0]].File? ==> Blocks(t, p)
    ensures t.entries[p[0]].Dir? ==> (Blocks(t, p) <==> Blocks(t.entries[p[0]].tree, p[1..]))
  {
    if t.entries[p[0]].File? {
      assert p[..1][0] == p[0];
      assert FileAt(t, p[..1]);
    } else {
      forall k | 0 < k < |p| && FileAt(t, p[..k]) ensures Blocks(t.entries[p[0]].tree, p[1..]) {
        assert p[..k][1..] == p[1..][..k - 1];
        assert FileAt(t.entries[p[0]].tree, p[1..][..k - 1]);
      }
      forall k | 0 < k < |p[1..]| && FileAt(t.entries[p[0]].tree, p[1..][..k]) ensures Blocks(t, p) {
        assert p[..k + 1][1..] == p[1..][..k];
        assert FileAt(t, p[..k + 1]);
      }
    }
  }

  lemma NothingBlocksWhatIsAbsent(t: Tree, p: Path)
    requires p != [] && p[0] !in t.entries
    ensures !Blocks(t, p)
  {
    forall k | 0 < k < |p| ensures !FileAt(t, p[..k]) {
      assert p[..k][0] == p[0];
    }
  }

  /**
   Every path of the merged tree: the overlay's file if it has one; where both have a
   directory, their merge; the overlay's directory where only it has one; otherwise what the
   base has, unless a file of the overlay is in the way.
   */
  lemma {:induction false} MergedPaths(base: Tree, overlay: Tree, p: Path)
    requires p != []
    ensures Resolve(Merge(base, overlay), p) ==
      match Resolve(overlay, p)
      case Some(File(blob)) => Some(File(blob))
      case Some(Dir(tree)) =>
        if Resolve(base, p).Some? && Resolve(base, p).value.Dir? then Some(Dir(Merge(Resolve(base, p).value.tree, tree)))
        else Some(Dir(tree))
      case None => if Blocks(overlay, p) then None else Resolve(base, p)
    decreases |p|
  {
    var name := p[0];
    if name !in overlay.entries {
      NothingBlocksWhatIsAbsent(overlay, p);
      if name in base.entries { MergedEntry(base, overlay, name); }
    } else if |p| > 1 {
      MergedEntry(base, overlay, name);
      BlocksBelow(overlay, p);
      if overlay.entries[name].Dir? && name in base.entries && base.entries[name].Dir? {
        MergedPaths(base.entries[name].tree, overlay.entries[name].tree, p[1..]);
      }
    } else {
      MergedEntry(base, overlay, name);
    }
  }
}
