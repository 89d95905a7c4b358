/** The syncers that share policy-managed targets (internal/policy/syncers.go, pkg/managed/annotations.go). */
module Syncers {
  /** A syncer of either kind with the value of the policy annotation at hand. */
  datatype Syncer =
    | Namespaced(namespace: string, name: string, repository: string, branch: string, annotation: string)
    | ClusterWide(identityStoreNamespace: string, name: string, repository: string, branch: string, annotation: string)
  {
    /** The namespace the syncer's policy-managed targets live in. */
    function IdentityNamespace(): string {
      if Namespaced? then namespace else identityStoreNamespace
    }
  }

  /** Same kind and same object key; a cluster-wide syncer has no namespace. */
  predicate SameSyncer(a: Syncer, b: Syncer) {
    && a.Namespaced? == b.Namespaced? && a.name == b.name
    && (a.Namespaced? ==> a.namespace == b.namespace)
  }

  predicate IsOther(s: Syncer, self: Syncer) {
    && !SameSyncer(s, self) && s.annotation != ""
    && s.IdentityNamespace() == self.IdentityNamespace()
  }

  /** The other syncers, of either kind, that draw their targets from the same namespace. */
  method OtherSyncers(all: seq<Syncer>, self: Syncer) returns (others: seq<Syncer>)
    ensures forall s :: s in others <==> s in all && IsOther(s, self)
    ensures forall s :: s in others <==>
      && s in all && s.annotation != ""
      && (if s.Namespaced? then s.namespace else s.identityStoreNamespace)
           == (if self.Namespaced? then self.namespace else self.identityStoreNamespace)
      && !(s.Namespaced? == self.Namespaced? && s.name == self.name && (s.Namespaced? ==> s.namespace == self.namespace))
  {
    var namespaced, clusterWide := [], [];
    for i := 0 to |all|
      invariant forall s :: s in namespaced <==> s in all[..i] && s.Namespaced? && s.namespace == self.IdentityNamespace()
      invariant forall s :: s in clusterWide <==> s in all[..i] && s.ClusterWide?
    {
      assert all[..i + 1] == all[..i] + [all[i]];
      if all[i].ClusterWide? {
        clusterWide := clusterWide + [all[i]];
      } else if all[i].namespace == self.IdentityNamespace() {
        namespaced := namespaced + [all[i]];
      }
    }
    assert all[..|all|] == all;
    others := [];
    for i := 0 to |namespaced|
      invariant forall s :: s in others <==> s in namespaced[..i] && IsOther(s, self)
    {
      assert namespaced[..i + 1] == namespaced[..i] + [namespaced[i]];
      var rs := namespaced[i];
      if SameSyncer(rs, self) || rs.annotation == "" {
        continue;
      }
      others := others + [rs];
    }
    assert namespaced[..|namespaced|] == namespaced;
    ghost var first := others;
    for i := 0 to |clusterWide|
      invariant forall s :: s in others <==> s in first || (s in clusterWide[..i] && IsOther(s, self))
    {
      assert clusterWide[..i + 1] == clusterWide[..i] + [clusterWide[i]];
      var cwrs := clusterWide[i];
      if cwrs.identityStoreNamespace != self.IdentityNamespace() {
        continue;
      }
      if SameSyncer(cwrs, self) || cwrs.annotation == "" {
        continue;
      }
      others := others + [cwrs];
    }
    assert clusterWide[..|clusterWide|] == clusterWide;
  }

  function RemoveSpaces(s: string): string {
    if s == "" then "" else (if s[0] == ' ' then "" else [s[0]]) + RemoveSpaces(s[1..])
  }

  function SplitComma(s: string): (parts: seq<string>)
    ensures |parts| > 0
  {
    if s == "" then [""]
    else
      var rest := SplitComma(s[1..]);
      if s[0] == ',' then [""] + rest else [[s[0]] + rest[0]] + rest[1..]
  }

  /** The comma-separated branches of an annotation; a blank one names none. */
  function BranchesFromAnnotation(annotation: string): seq<string> {
    var out := SplitComma(RemoveSpaces(annotation));
    if out == [""] then [] else out
  }

  // ---------- the annotation ----------

  /** A branch as it can stand in an annotation. */
  predicate IsBranchName(b: string) {
    b != "" && ',' !in b && ' ' !in b
  }

  /** The branches with a comma behind each but the last, and any spaces around them. */
  function Annotated(branches: seq<string>, spaces: string): string
    requires branches != []
  {
    spaces + (branches[0] + (spaces + (if |branches| == 1 then "" else "," + Annotated(branches[1..], spaces))))
  }

  lemma {:induction false} SpacesSkipped(spaces: string, rest: string)
    requires forall i :: 0 <= i < |spaces| ==> spaces[i] == ' '
    ensures RemoveSpaces(spaces + rest) == RemoveSpaces(rest)
    decreases |spaces|
  {
    if spaces == "" {
      assert spaces + rest == rest;
    } else {
      SpacesSkipped(spaces[1..], rest);
      assert (spaces + rest)[0] == ' ' && (spaces + rest)[1..] == spaces[1..] + rest;
    }
  }

  lemma {:induction false} BranchKept(b: string, rest: string)
    requires ' ' !in b
    ensures RemoveSpaces(b + rest) == b + RemoveSpaces(rest)
    decreases |b|
  {
    if b == "" {
      assert b + rest == rest && b + RemoveSpaces(rest) == RemoveSpaces(rest);
    } else {
      BranchKept(b[1..], rest);
      assert (b + rest)[0] == b[0] && (b + rest)[1..] == b[1..] + rest;
      assert b + RemoveSpaces(rest) == [b[0]] + (b[1..] + RemoveSpaces(rest));
    }
  }

  lemma {:induction false} LastBranch(b: string)
    requires ',' !in b
    ensures SplitComma(b) == [b]
    decreases |b|
  {
    if b != "" {
      LastBranch(b[1..]);
      assert [b[0]] + b[1..] == b;
    }
  }

  lemma {:induction false} CommaEnds(b: string, rest: string)
    requires ',' !in b
    ensures SplitComma(b + ("," + rest)) == [b] + SplitComma(rest)
    decreases |b|
  {
    var s := b + ("," + rest);
    if b == "" {
      assert s == "," + rest && s[0] == ',' && s[1..] == rest;
    } else {
      CommaEnds(b[1..], rest);
      assert s[0] == b[0] && s[1..] == b[1..] + ("," + rest);
      assert [b[0]] + b[1..] == b;
    }
  }

  lemma {:induction false} SplitsBack(branches: seq<string>, spaces: string)
    requires branches != [] && (forall b :: b in branches ==> IsBranchName(b)) && forall i :: 0 <= i < |spaces| ==> spaces[i] == ' '
    ensures SplitComma(RemoveSpaces(Annotated(branches, spaces))) == branches
    decreases |branches|
  {
    var b := branches[0];
    assert b in branches;
    var rest := if |branches| == 1 then "" else "," + Annotated(branches[1..], spaces);
    SpacesSkipped(spaces, b + (spaces + rest));
    BranchKept(b, spaces + rest);
    SpacesSkipped(spaces, rest);
    if |branches| == 1 {
      assert b + "" == b;
      LastBranch(b);
      assert branches == [b];
    } else {
      BranchKept(",", Annotated(branches[1..], spaces));
      assert forall x :: x in branches[1..] ==> x in branches;
      SplitsBack(branches[1..], spaces);
      CommaEnds(b, RemoveSpaces(Annotated(branches[1..], spaces)));
      assert branches == [b] + branches[1..];
    }
  }

  /** An annotation names the branches written into it, in order and whatever the spaces; a blank one names none. */
  lemma AnnotationNamesBranches(branches: seq<string>, spaces: string)
    requires (forall b :: b in branches ==> IsBranchName(b)) && forall i :: 0 <= i < |spaces| ==> spaces[i] == ' '
    ensures branches != [] ==> BranchesFromAnnotation(Annotated(branches, spaces)) == branches
    ensures BranchesFromAnnotation(spaces) == []
  {
    SpacesSkipped(spaces, "");
    assert spaces + "" == spaces;
    if branches != [] {
      SplitsBack(branches, spaces);
      assert branches[0] in branches;
    }
  }
}
