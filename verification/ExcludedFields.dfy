/** Removing excluded fields from an object before it is written (pkg/render/excludedfields.go, yaml.go). */
module ExcludedFields {
  import opened Common

  // ---------- paths ----------

  function Flush(parts: seq<string>, current: string): seq<string> {
    if current == "" then parts else parts + [current]
  }

  /** The parts still to come once current has been read so far. */
  function PartsFrom(path: string, current: string, inBrackets: bool): seq<string>
    decreases |path|
  {
    if path == "" then Flush([], current)
    else if path[0] == '.' && !inBrackets then Flush([], current) + PartsFrom(path[1..], "", false)
    else if path[0] == '[' then Flush([], current) + PartsFrom(path[1..], "", true)
    else if path[0] == ']' then Flush([], current) + PartsFrom(path[1..], "", false)
    else PartsFrom(path[1..], current + [path[0]], inBrackets)
  }

  function Parts(path: string): seq<string> {
    PartsFrom(path, "", false)
  }

  /** Reading one more character. */
  lemma ReadStep(path: string, i: nat, current: string, inBrackets: bool)
    requires i < |path|
    ensures var c := path[i];
      PartsFrom(path[i..], current, inBrackets) ==
      if c == '.' && !inBrackets then Flush([], current) + PartsFrom(path[i + 1..], "", false)
      else if c == '[' then Flush([], current) + PartsFrom(path[i + 1..], "", true)
      else if c == ']' then Flush([], current) + PartsFrom(path[i + 1..], "", false)
      else PartsFrom(path[i + 1..], current + [c], inBrackets)
  {
    assert path[i..][0] == path[i] && path[i..][1..] == path[i + 1..];
  }

  lemma FlushMoves(parts: seq<string>, current: string, rest: seq<string>)
    ensures parts + (Flush([], current) + rest) == Flush(parts, current) + rest
  {
  }

  method ParsePath(path: string) returns (parts: seq<string>)
    ensures parts == Parts(path)
  {
    parts := [];
    var current := "";
    var inBrackets := false;
    for i := 0 to |path|
      invariant parts + PartsFrom(path[i..], current, inBrackets) == Parts(path)
    {
      var c := path[i];
      ReadStep(path, i, current, inBrackets);
      FlushMoves(parts, current, PartsFrom(path[i + 1..], "", c == '['));
      if c == '.' {
        if !inBrackets {
          parts := Flush(parts, current);
          current := "";
        } else {
          current := current + [c];
        }
      } else if c == '[' {
        inBrackets := true;
        parts := Flush(parts, current);
        current := "";
      } else if c == ']' {
        inBrackets := false;
        parts := Flush(parts, current);
        current := "";
      } else {
        current := current + [c];
      }
    }
    FlushMoves(parts, current, []);
    parts := Flush(parts, current);
  }

  /** One part as it may be spelled: some dots, then its text, bare or in brackets. */
  datatype Token = Token(dots: nat, bracketed: bool, text: string)

  function Dots(n: nat): string {
    if n == 0 then "" else "." + Dots(n - 1)
  }

  function SpellOne(t: Token): string {
    Dots(t.dots) + if t.bracketed then "[" + t.text + "]" else t.text
  }

  function Spell(ts: seq<Token>): string {
    if ts == [] then "" else SpellOne(ts[0]) + Spell(ts[1..])
  }

  predicate Plain(text: string, inBrackets: bool) {
    forall i :: 0 <= i < |text| ==> text[i] != '[' && text[i] != ']' && (inBrackets || text[i] != '.')
  }

  /** Bare texts hold no dot or bracket, bracketed ones no bracket, and a dot separates two bare ones. */
  ghost predicate WellSpelled(ts: seq<Token>) {
    && (forall i :: 0 <= i < |ts| ==> ts[i].text != "" && Plain(ts[i].text, ts[i].bracketed))
    && (forall i :: 0 <= i < |ts| - 1 && !ts[i].bracketed && !ts[i + 1].bracketed ==> ts[i + 1].dots > 0)
  }

  function Texts(ts: seq<Token>): seq<string> {
    if ts == [] then [] else [ts[0].text] + Texts(ts[1..])
  }

  lemma {:induction false} ReadText(text: string, rest: string, current: string, inBrackets: bool)
    requires Plain(text, inBrackets)
    ensures PartsFrom(text + rest, current, inBrackets) == PartsFrom(rest, current + text, inBrackets)
    decreases |text|
  {
    if text == "" {
      assert text + rest == rest && current + text == current;
    } else {
      assert (text + rest)[1..] == text[1..] + rest;
      ReadText(text[1..], rest, current + [text[0]], inBrackets);
      assert current + [text[0]] + text[1..] == current + text;
    }
  }

  lemma {:induction false} ReadDots(n: nat, rest: string, current: string)
    ensures PartsFrom(Dots(n) + rest, current, false)
         == if n == 0 then PartsFrom(rest, current, false) else Flush([], current) + PartsFrom(rest, "", false)
  {
    if n == 0 {
      assert Dots(n) + rest == rest;
    } else {
      assert (Dots(n) + rest)[1..] == Dots(n - 1) + rest;
      ReadDots(n - 1, rest, "");
    }
  }

  lemma ReadBracketed(text: string, rest: string, current: string)
    requires text != "" && Plain(text, true)
    ensures PartsFrom("[" + text + "]" + rest, current, false) == Flush([], current) + ([text] + PartsFrom(rest, "", false))
  {
    var inner := "[" + text + "]" + rest;
    assert inner[1..] == text + ("]" + rest);
    ReadText(text, "]" + rest, "", true);
    assert "" + text == text;
    assert ("]" + rest)[1..] == rest;
  }

  /** Reading one token, with at most an unfinished bare part before it, reads its text. */
  lemma ReadToken(t: Token, rest: string, current: string)
    requires t.text != "" && Plain(t.text, t.bracketed)
    requires current != "" && !t.bracketed ==> t.dots > 0
    ensures PartsFrom(SpellOne(t) + rest, current, false) ==
      Flush([], current) + if t.bracketed then [t.text] + PartsFrom(rest, "", false) else PartsFrom(rest, t.text, false)
  {
    if t.bracketed {
      var inner := "[" + t.text + "]" + rest;
      assert SpellOne(t) + rest == Dots(t.dots) + inner;
      ReadDots(t.dots, inner, current);
      ReadBracketed(t.text, rest, current);
      ReadBracketed(t.text, rest, "");
    } else {
      ConcatAssociative(Dots(t.dots), t.text, rest);
      ReadDots(t.dots, t.text + rest, current);
      ReadText(t.text, rest, "", false);
      assert "" + t.text == t.text;
    }
  }

  /** Any mix of dotted and bracketed spellings, with stray dots anywhere between, parses back to the same parts. */
  lemma SpellingParses(ts: seq<Token>, trailing: nat)
    requires WellSpelled(ts)
    ensures Parts(Spell(ts) + Dots(trailing)) == Texts(ts)
  {
    ReadSpelling(ts, trailing, "");
  }

  lemma WellSpelledTail(ts: seq<Token>)
    requires WellSpelled(ts) && ts != []
    ensures WellSpelled(ts[1..]) && ts[0].text != "" && Plain(ts[0].text, ts[0].bracketed)
    ensures ts[1..] != [] && !ts[0].bracketed && !ts[1..][0].bracketed ==> ts[1..][0].dots > 0
  {
    assert forall i :: 0 <= i < |ts[1..]| ==> ts[1..][i] == ts[i + 1];
  }

  lemma {:induction false} ReadSpelling(ts: seq<Token>, trailing: nat, current: string)
    requires WellSpelled(ts)
    requires current != "" && ts != [] && !ts[0].bracketed ==> ts[0].dots > 0
    ensures PartsFrom(Spell(ts) + Dots(trailing), current, false) == Flush([], current) + Texts(ts)
    decreases |ts|
  {
    if ts == [] {
      assert Spell(ts) + Dots(trailing) == Dots(trailing) + "";
      ReadDots(trailing, "", current);
    } else {
      var t, rest := ts[0], Spell(ts[1..]) + Dots(trailing);
      ConcatAssociative(SpellOne(t), Spell(ts[1..]), Dots(trailing));
      WellSpelledTail(ts);
      ReadToken(t, rest, current);
      var next := if t.bracketed then "" else t.text;
      ReadSpelling(ts[1..], trailing, next);
      ReadRest(t, ts, rest, next);
    }
  }

  /** The text of the token comes first, whether it is finished already or still being read. */
  lemma ReadRest(t: Token, ts: seq<Token>, rest: string, next: string)
    requires ts != [] && t == ts[0] && t.text != "" && next == (if t.bracketed then "" else t.text)
    requires PartsFrom(rest, next, false) == Flush([], next) + Texts(ts[1..])
    ensures (if t.bracketed then [t.text] + PartsFrom(rest, "", false) else PartsFrom(rest, t.text, false)) == Texts(ts)
  {
  }

  // ---------- removal ----------

  /** A JSON value; Other is anything that is not an object. */
  datatype Value = Object(fields: Fields) | Other(repr: string)

  type Fields = map<string, Value>

  /** Deleting what the path leads to, if it leads anywhere. */
  function Removed(data: Fields, parts: seq<string>): Fields
    decreases |parts|
  {
    if parts == [] then data
    else if |parts| == 1 then data - {parts[0]}
    else if parts[0] in data && data[parts[0]].Object? then
      data[parts[0] := Object(Removed(data[parts[0]].fields, parts[1..]))]
    else data
  }

  function Lookup(data: Fields, parts: seq<string>): Option<Value>
    decreases |parts|
  {
    if parts == [] then Some(Object(data))
    else if parts[0] !in data then None
    else if |parts| == 1 then Some(data[parts[0]])
    else if data[parts[0]].Object? then Lookup(data[parts[0]].fields, parts[1..])
    else None
  }

  /**
   Removal deletes exactly the subtree at the path: nothing is found there or below, objects
   on the way keep everything else, and every other path leads to what it led to before.
   */
  lemma {:induction false} RemovesExactly(data: Fields, p: seq<string>, q: seq<string>)
    requires p != []
    ensures Lookup(Removed(data, p), q) ==
      if p <= q then None
      else if q <= p then
        match Lookup(data, q)
        case Some(Object(fields)) => Some(Object(Removed(fields, p[|q|..])))
        case other => other
      else Lookup(data, q)
    decreases |p|
  {
    if q == [] {
      assert p[|q|..] == p;
    } else if p[0] == q[0] {
      assert p <= q <==> p[1..] <= q[1..];
      assert q <= p <==> q[1..] <= p[1..];
      if |p| > 1 && p[0] in data && data[p[0]].Object? {
        if |q| > 1 {
          RemovesExactly(data[p[0]].fields, p[1..], q[1..]);
          if q <= p { assert p[1..][|q[1..]|..] == p[|q|..]; }
        } else {
          assert p[|q|..] == p[1..];
        }
      } else if |p| == 1 {
        assert q <= p ==> q == p;
      }
    }
  }

  lemma {:induction false} RemovalsCommute(data: Fields, p: seq<string>, q: seq<string>)
    ensures Removed(Removed(data, p), q) == Removed(Removed(data, q), p)
    decreases |p|
  {
    if p != [] && q != [] && p[0] == q[0] && |p| > 1 && |q| > 1 && p[0] in data && data[p[0]].Object? {
      RemovalsCommute(data[p[0]].fields, p[1..], q[1..]);
    }
  }

  lemma {:induction false} RemovalIsIdempotent(data: Fields, p: seq<string>)
    ensures Removed(Removed(data, p), p) == Removed(data, p)
    decreases |p|
  {
    if |p| > 1 && p[0] in data && data[p[0]].Object? {
      RemovalIsIdempotent(data[p[0]].fields, p[1..]);
    }
  }

  /** All the excluded fields, one after another. */
  function RemovedAll(data: Fields, paths: seq<seq<string>>): Fields
    decreases |paths|
  {
    if paths == [] then data else Removed(RemovedAll(data, paths[..|paths| - 1]), paths[|paths| - 1])
  }

  method RemoveExcludedFields(data: Fields, paths: seq<string>) returns (r: Fields)
    ensures r == RemovedAll(data, seq(|paths|, i requires 0 <= i < |paths| => Parts(paths[i])))
  {
    ghost var all := seq(|paths|, i requires 0 <= i < |paths| => Parts(paths[i]));
    r := data;
    for i := 0 to |paths|
      invariant r == RemovedAll(data, all[..i])
    {
      var parts := ParsePath(paths[i]);
      assert all[..i + 1][..i] == all[..i];
      r := Removed(r, parts);
    }
    assert all[..|paths|] == all;
  }

  lemma {:induction false} RemoveAgain(data: Fields, paths: seq<seq<string>>, p: seq<string>)
    requires p in paths
    ensures Removed(RemovedAll(data, paths), p) == RemovedAll(data, paths)
    decreases |paths|
  {
    var front, last := paths[..|paths| - 1], paths[|paths| - 1];
    if p == last {
      RemovalIsIdempotent(RemovedAll(data, front), p);
    } else {
      assert paths == front + [last];
      RemoveAgain(data, front, p);
      RemovalsCommute(RemovedAll(data, front), last, p);
    }
  }

  /** Paths already removed add nothing. */
  lemma {:induction false} RemoveAllAgain(data: Fields, paths: seq<seq<string>>, more: seq<seq<string>>)
    requires forall p :: p in more ==> p in paths
    ensures RemovedAll(RemovedAll(data, paths), more) == RemovedAll(data, paths)
    decreases |more|
  {
    if more != [] {
      var front := more[..|more| - 1];
      assert forall p :: p in front ==> p in more;
      RemoveAllAgain(data, paths, front);
      assert more[|more| - 1] in more;
      RemoveAgain(data, paths, more[|more| - 1]);
    }
  }

  lemma {:induction false} RemoveOneCommutes(data: Fields, paths: seq<seq<string>>, p: seq<string>)
    ensures RemovedAll(Removed(data, p), paths) == Removed(RemovedAll(data, paths), p)
    decreases |paths|
  {
    if paths != [] {
      RemoveOneCommutes(data, paths[..|paths| - 1], p);
      RemovalsCommute(RemovedAll(data, paths[..|paths| - 1]), p, paths[|paths| - 1]);
    }
  }

  lemma {:induction false} RemoveAllCommutes(data: Fields, a: seq<seq<string>>, b: seq<seq<string>>)
    ensures RemovedAll(RemovedAll(data, a), b) == RemovedAll(RemovedAll(data, b), a)
    decreases |a|
  {
    if a != [] {
      RemoveAllCommutes(data, a[..|a| - 1], b);
      RemoveOneCommutes(RemovedAll(data, a[..|a| - 1]), b, a[|a| - 1]);
    }
  }

  /** The result depends only on which paths are excluded, not on their order or repetition. */
  lemma OnlyTheSetMatters(data: Fields, a: seq<seq<string>>, b: seq<seq<string>>)
    requires forall p :: p in a <==> p in b
    ensures RemovedAll(data, a) == RemovedAll(data, b)
  {
    RemoveAllAgain(data, a, b);
    RemoveAllAgain(data, b, a);
    RemoveAllCommutes(data, a, b);
  }

  /** Removing p leaves alone what q leads to. */
  predicate Spares(p: seq<string>, q: seq<string>) {
    p == [] || !(p <= q)
  }

  lemma LeafSurvivesOne(data: Fields, p: seq<string>, q: seq<string>, repr: string)
    ensures Lookup(Removed(data, p), q) == Some(Other(repr)) <==>
      Lookup(data, q) == Some(Other(repr)) && Spares(p, q)
  {
    if p != [] { RemovesExactly(data, p, q); }
  }

  /** A value that is no object survives exactly when no excluded path leads to it or to an object around it. */
  lemma {:induction false} LeafSurvives(data: Fields, paths: seq<seq<string>>, q: seq<string>, repr: string)
    ensures Lookup(RemovedAll(data, paths), q) == Some(Other(repr)) <==>
      Lookup(data, q) == Some(Other(repr)) && forall p :: p in paths ==> Spares(p, q)
    decreases |paths|
  {
    if paths != [] {
      var front, last := paths[..|paths| - 1], paths[|paths| - 1];
      assert paths == front + [last];
      assert forall p :: p in paths <==> p in front || p == last;
      LeafSurvives(data, front, q, repr);
      LeafSurvivesOne(RemovedAll(data, front), last, q, repr);
      assert RemovedAll(data, paths) == Removed(RemovedAll(data, front), last);
      assert (forall p :: p in paths ==> Spares(p, q)) <==> (forall p :: p in front ==> Spares(p, q)) && Spares(last, q);
    }
  }
}
