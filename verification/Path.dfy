/** Path lookup: how the text of a path becomes the names that are looked up, and what is found.
    The lookup never builds a list of names; before each one it scans ahead for a ".." that cancels it.
 */
module Path {
  import opened Basics

  /** A directory tree. */
  datatype Node = File(id: nat) | Directory(entries: map<string, Node>)

  datatype Found = Entry(node: Node) | NotDir | NoEnt

  /** Look the names up one after the other. */
  function Walk(node: Node, names: seq<string>): Found {
    if names == [] then Entry(node)
    else if node.File? then NotDir
    else if names[0] !in node.entries then NoEnt
    else Walk(node.entries[names[0]], names[1..])
  }

  // ----- the text of a path

  function SkipSlashes(s: string, i: nat): (j: nat)
    requires i <= |s|
    ensures i <= j <= |s| && (j < |s| ==> s[j] != '/')
    decreases |s| - i
  {
    if i < |s| && s[i] == '/' then SkipSlashes(s, i + 1) else i
  }

  function NameEnd(s: string, i: nat): (j: nat)
    requires i <= |s|
    ensures i <= j <= |s| && (i < |s| && s[i] != '/' ==> i < j)
    decreases |s| - i
  {
    if i < |s| && s[i] != '/' then NameEnd(s, i + 1) else i
  }

  /** What stands between the slashes from `i` on. */
  function Components(s: string, i: nat): seq<string>
    requires i <= |s|
    decreases |s| - i
  {
    var j := SkipSlashes(s, i);
    if j == |s| then [] else [s[j..NameEnd(s, j)]] + Components(s, NameEnd(s, j))
  }

  // ----- dots

  predicate IsDots(name: string) {
    name == "." || name == ".."
  }

  /** The ".." components that cancel nothing among `cs`. With `dots`, a "." counts as a name. */
  function Unmatched(cs: seq<string>, dots: bool): nat {
    if cs == [] then 0
    else
      var rest := Unmatched(cs[1..], dots);
      if cs[0] == ".." then rest + 1
      else if cs[0] == "." && !dots then rest
      else if rest > 0 then rest - 1 else 0
  }

  /** The names that no later ".." cancels. */
  function Kept(cs: seq<string>, dots: bool): seq<string> {
    if cs == [] then []
    else if IsDots(cs[0]) || Unmatched(cs[1..], dots) > 0 then Kept(cs[1..], dots)
    else [cs[0]] + Kept(cs[1..], dots)
  }

  /** The usual meaning of a path: "." stays, ".." goes up and stops at the root. */
  function Resolve(stack: seq<string>, cs: seq<string>): seq<string>
    decreases |cs|
  {
    if cs == [] then stack
    else if cs[0] == "." then Resolve(stack, cs[1..])
    else if cs[0] == ".." then Resolve(if stack == [] then [] else stack[..|stack| - 1], cs[1..])
    else Resolve(stack + [cs[0]], cs[1..])
  }

  function Top(stack: seq<string>, n: nat): seq<string> {
    stack[..if n <= |stack| then |stack| - n else 0]
  }

  /** Going up once takes one more from the top. */
  lemma TopUp(stack: seq<string>, n: nat)
    ensures Top(if stack == [] then [] else stack[..|stack| - 1], n) == Top(stack, n + 1)
  {
  }

  /** A name is the first that is taken away again. */
  lemma TopName(stack: seq<string>, name: string, n: nat)
    ensures Top(stack + [name], n) == if n == 0 then stack + [name] else Top(stack, n - 1)
    ensures Top(stack, 0) == stack
  {
  }

  lemma {:induction false} ResolveKept(stack: seq<string>, cs: seq<string>)
    ensures Resolve(stack, cs) == Top(stack, Unmatched(cs, false)) + Kept(cs, false)
    decreases |cs|
  {
    hide Top;
    if cs == [] {
      TopName(stack, "", 0);
      assert stack + [] == stack;
    } else {
      var rest := cs[1..];
      var n, kept := Unmatched(rest, false), Kept(rest, false);
      if cs[0] == "." {
        ResolveKept(stack, rest);
      } else if cs[0] == ".." {
        ResolveKept(if stack == [] then [] else stack[..|stack| - 1], rest);
        TopUp(stack, n);
      } else {
        ResolveKept(stack + [cs[0]], rest);
        TopName(stack, cs[0], n);
        assert stack + ([cs[0]] + kept) == (stack + [cs[0]]) + kept;
      }
    }
  }

  // ----- the scan for a cancelling ".."

  /** The index behind the component that brings `depth` to zero. */
  function Cancel(cs: seq<string>, depth: nat): Option<nat> {
    if cs == [] || depth == 0 then None
    else if cs[0] == ".." && depth == 1 then Some(1)
    else Later(Cancel(cs[1..], if cs[0] == ".." then depth - 1 else depth + 1))
  }

  lemma {:induction false} CancelIff(cs: seq<string>, depth: nat)
    requires depth > 0
    ensures Cancel(cs, depth).Some? <==> Unmatched(cs, true) >= depth
    ensures Cancel(cs, depth).Some? ==> 0 < Cancel(cs, depth).value <= |cs|
    decreases |cs|
  {
    if cs != [] && !(cs[0] == ".." && depth == 1) {
      CancelIff(cs[1..], if cs[0] == ".." then depth - 1 else depth + 1);
    }
  }

  /** Everything before the cancelling component is cancelled too. */
  lemma {:induction false} CancelSkips(cs: seq<string>, depth: nat)
    requires depth > 0 && Cancel(cs, depth).Some?
    ensures Cancel(cs, depth).value <= |cs| && Kept(cs, true) == Kept(cs[Cancel(cs, depth).value..], true)
    ensures Unmatched(cs, true) >= depth
    decreases |cs|
  {
    CancelIff(cs, depth);
    if !(cs[0] == ".." && depth == 1) {
      var d := if cs[0] == ".." then depth - 1 else depth + 1;
      CancelSkips(cs[1..], d);
      var n := Cancel(cs[1..], d).value;
      assert cs[n + 1..] == cs[1..][n..];
    }
  }

  /** Scan ahead in the text. */
  method ScanAhead(path: string, from: nat) returns (next: Option<nat>)
    requires from <= |path|
    ensures next.Some? <==> Cancel(Components(path, from), 1).Some?
    ensures next.Some? ==>
      var cs := Components(path, from);
      && from < next.value <= |path| && Cancel(cs, 1).value <= |cs|
      && Components(path, next.value) == cs[Cancel(cs, 1).value..]
  {
    hide Components, Cancel;
    var suffix, depth := from, 1;
    ghost var cs, seen := Components(path, from), 0;
    while true
      invariant from <= suffix <= |path| && 0 < depth && 0 <= seen <= |cs|
      invariant Components(path, suffix) == cs[seen..]
      invariant Cancel(cs, 1).Some? <==> Cancel(cs[seen..], depth).Some?
      invariant Cancel(cs, 1).Some? ==> Cancel(cs, 1).value == seen + Cancel(cs[seen..], depth).value
      decreases |path| - suffix
    {
      ScanStep(path, suffix, cs, seen, depth);
      suffix := SkipSlashes(path, suffix);
      var end := NameEnd(path, suffix);
      if end == suffix {
        return None;
      }
      if path[suffix..end] == ".." {
        if depth == 1 {
          return Some(end);
        }
        depth := depth - 1;
      } else {
        depth := depth + 1;
      }
      seen := seen + 1;
      suffix := end;
    }
  }

  /** One component of the scan. */
  lemma ScanStep(path: string, i: nat, cs: seq<string>, seen: nat, depth: nat)
    requires i <= |path| && seen <= |cs| && Components(path, i) == cs[seen..] && depth > 0
    ensures var j := SkipSlashes(path, i);
      var end := NameEnd(path, j);
      if end == j then Cancel(cs[seen..], depth).None?
      else
        && seen < |cs| && cs[seen] == path[j..end] && Components(path, end) == cs[seen + 1..]
        && (cs[seen] == ".." && depth == 1 ==> Cancel(cs[seen..], depth) == Some(1))
        && (!(cs[seen] == ".." && depth == 1) ==>
             Cancel(cs[seen..], depth) ==
               Later(Cancel(cs[seen + 1..], if cs[seen] == ".." then depth - 1 else depth + 1)))
  {
    if SkipSlashes(path, i) < |path| {
      ComponentsStep(path, SkipSlashes(path, i));
      assert cs[seen..][1..] == cs[seen + 1..];
    }
  }

  function Later(n: Option<nat>): Option<nat> {
    if n.None? then None else Some(n.value + 1)
  }

  lemma ComponentsStep(s: string, i: nat)
    requires i < |s| && s[i] != '/'
    ensures Components(s, i) == [s[i..NameEnd(s, i)]] + Components(s, NameEnd(s, i))
  {
  }

  lemma SkipOnce(s: string, i: nat)
    requires i <= |s|
    ensures Components(s, SkipSlashes(s, i)) == Components(s, i)
  {
  }

  lemma {:induction false} WalkMore(node: Node, names: seq<string>, more: seq<string>)
    requires Walk(node, names).Entry?
    ensures Walk(node, names + more) == Walk(Walk(node, names).node, more)
    decreases |names|
  {
    if names == [] {
      assert names + more == more;
    } else {
      assert (names + more)[1..] == names[1..] + more;
      WalkMore(node.entries[names[0]], names[1..], more);
    }
  }

  /** The parents were found, and the name at `at` is the first one that is not there. */
  ghost predicate Missing(root: Node, path: string, parents: seq<string>, at: nat, last: bool) {
    && at < |path|
    && var name := path[at..NameEnd(path, at)];
    && !IsDots(name) && Walk(root, parents).Entry? && Walk(root, parents).node.Directory?
    && name !in Walk(root, parents).node.entries
    && parents + [name] <= Kept(Components(path, 0), true)
    && (last <==> '/' !in path[at..])
    && (last ==> Kept(Components(path, 0), true) == parents + [name])
  }

  lemma NoSlash(s: string, i: nat)
    requires i <= |s|
    ensures NameEnd(s, i) == |s| <==> '/' !in s[i..]
    decreases |s| - i
  {
    if i < |s| {
      if s[i] != '/' {
        NoSlash(s, i + 1);
        assert s[i..] == [s[i]] + s[i + 1..];
      } else {
        assert s[i..][0] == '/';
      }
    }
  }

  /** lfs_dir_find over a tree. On a missing entry `at` is where its name stands in the path, and
      `last` tells whether it is the last component, so that a caller may create it there.
   */
  method Find(root: Node, path: string) returns (found: Found, at: nat, last: bool, ghost parents: seq<string>)
    ensures found == Walk(root, Kept(Components(path, 0), true))
    ensures found.NoEnt? ==> Missing(root, path, parents, at, last)
  {
    hide Kept, Components, Unmatched, Cancel, SkipSlashes, NameEnd;
    var name, node := 0, root;
    at, last, parents := 0, false, [];
    assert [] + Kept(Components(path, 0), true) == Kept(Components(path, 0), true);
    while true
      invariant name <= |path|
      invariant Kept(Components(path, 0), true) == parents + Kept(Components(path, name), true)
      invariant Walk(root, parents) == Entry(node)
      decreases |path| - name
    {
      SkipOnce(path, name);
      name := SkipSlashes(path, name);
      var end := NameEnd(path, name);
      Front(path, name);
      if IsDots(path[name..end]) {
        name := end;
        continue;
      }
      var next := ScanAhead(path, end);
      if next.Some? {
        name := next.value;
        continue;
      }
      if name == |path| {
        assert parents + [] == parents;
        return Entry(node), at, last, parents;
      }
      at, last := name, end == |path|;
      LookHere(root, path, parents, node, name);
      if node.File? {
        return NotDir, at, last, parents;
      }
      if path[name..end] !in node.entries {
        return NoEnt, at, last, parents;
      }
      node := node.entries[path[name..end]];
      parents := parents + [path[name..end]];
      name := end;
    }
  }

  /** Looking up the uncancelled name at `at` in the node reached so far. */
  lemma LookHere(root: Node, path: string, parents: seq<string>, node: Node, at: nat)
    requires at < |path| && !IsDots(path[at..NameEnd(path, at)])
    requires Kept(Components(path, at), true) ==
             [path[at..NameEnd(path, at)]] + Kept(Components(path, NameEnd(path, at)), true)
    requires NameEnd(path, at) == |path| ==> Kept(Components(path, NameEnd(path, at)), true) == []
    requires Kept(Components(path, 0), true) == parents + Kept(Components(path, at), true)
    requires Walk(root, parents) == Entry(node)
    ensures var end := NameEnd(path, at);
      var n, all, rest := path[at..end], Kept(Components(path, 0), true), Kept(Components(path, end), true);
      && (node.File? ==> Walk(root, all) == NotDir)
      && (node.Directory? && n !in node.entries ==>
            Walk(root, all) == NoEnt && Missing(root, path, parents, at, end == |path|))
      && (node.Directory? && n in node.entries ==>
            Walk(root, parents + [n]) == Entry(node.entries[n]) && all == (parents + [n]) + rest)
  {
    hide Kept, Components, NameEnd;
    var n, rest := path[at..NameEnd(path, at)], Kept(Components(path, NameEnd(path, at)), true);
    NoSlash(path, at);
    WalkMore(root, parents, [n] + rest);
    WalkMore(root, parents, [n]);
    assert parents + ([n] + rest) == (parents + [n]) + rest;
    assert [n] + [] == [n] && ([n] + rest)[1..] == rest && [n][1..] == [];
  }

  /** What the scan ahead decides about the component at `name`. */
  lemma Front(path: string, name: nat)
    requires name <= |path| && (name < |path| ==> path[name] != '/')
    ensures var end, kept := NameEnd(path, name), Kept(Components(path, name), true);
      var cs := Components(path, end);
      && (name == |path| ==> kept == [] && end == name && Cancel(cs, 1).None?)
      && (IsDots(path[name..end]) ==> name < end && kept == Kept(cs, true))
      && (!IsDots(path[name..end]) && Cancel(cs, 1).Some? ==>
           Cancel(cs, 1).value <= |cs| && kept == Kept(cs[Cancel(cs, 1).value..], true))
      && (!IsDots(path[name..end]) && Cancel(cs, 1).None? && name < |path| ==>
           kept == [path[name..end]] + Kept(cs, true))
      && (end == |path| ==> Kept(cs, true) == [])
  {
    if name < |path| {
      var cs := Components(path, NameEnd(path, name));
      ComponentsStep(path, name);
      assert Components(path, name)[1..] == cs;
      CancelIff(cs, 1);
      if Cancel(cs, 1).Some? {
        CancelSkips(cs, 1);
      }
    }
  }

  // ----- where the lookup and the usual meaning part

  lemma {:induction false} DotsCancelLess(cs: seq<string>)
    ensures Unmatched(cs, true) <= Unmatched(cs, false)
    decreases |cs|
  {
    if cs != [] {
      DotsCancelLess(cs[1..]);
    }
  }

  lemma {:induction false} DotsKeepMore(cs: seq<string>)
    ensures |Kept(cs, true)| >= |Kept(cs, false)|
    decreases |cs|
  {
    if cs != [] {
      DotsKeepMore(cs[1..]);
      DotsCancelLess(cs[1..]);
    }
  }

  /** No "." uses up the ".." that should cancel a name before it. */
  predicate DotsHarmless(cs: seq<string>) {
    forall i :: 0 <= i < |cs| && !IsDots(cs[i]) && Unmatched(cs[i + 1..], false) > 0 ==>
      Unmatched(cs[i + 1..], true) > 0
  }

  lemma HarmlessFront(cs: seq<string>)
    requires cs != []
    ensures DotsHarmless(cs) <==>
      DotsHarmless(cs[1..]) && (!IsDots(cs[0]) && Unmatched(cs[1..], false) > 0 ==> Unmatched(cs[1..], true) > 0)
  {
    var rest := cs[1..];
    assert forall i :: 0 <= i < |rest| ==> rest[i] == cs[i + 1] && rest[i + 1..] == cs[i + 2..];
    if DotsHarmless(cs) {
      forall i | 0 <= i < |rest| && !IsDots(rest[i]) && Unmatched(rest[i + 1..], false) > 0
        ensures Unmatched(rest[i + 1..], true) > 0
      {
        assert !IsDots(cs[i + 1]) && cs[(i + 1) + 1..] == rest[i + 1..];
      }
      assert !IsDots(cs[0]) && Unmatched(cs[0 + 1..], false) > 0 ==> Unmatched(cs[0 + 1..], true) > 0;
    }
    if DotsHarmless(rest) && (!IsDots(cs[0]) && Unmatched(rest, false) > 0 ==> Unmatched(rest, true) > 0) {
      forall i | 0 <= i < |cs| && !IsDots(cs[i]) && Unmatched(cs[i + 1..], false) > 0
        ensures Unmatched(cs[i + 1..], true) > 0
      {
        if i > 0 {
          assert !IsDots(rest[i - 1]) && rest[(i - 1) + 1..] == cs[i + 1..];
        }
      }
    }
  }

  lemma {:induction false} KeptIff(cs: seq<string>)
    ensures Kept(cs, true) == Kept(cs, false) <==> DotsHarmless(cs)
    decreases |cs|
  {
    if cs != [] {
      KeptIff(cs[1..]);
      HarmlessFront(cs);
      DotsCancelLess(cs[1..]);
      DotsKeepMore(cs[1..]);
      var a, b := Kept(cs[1..], true), Kept(cs[1..], false);
      assert [cs[0]] + a == [cs[0]] + b <==> a == b by {
        assert ([cs[0]] + a)[1..] == a && ([cs[0]] + b)[1..] == b;
      }
    }
  }

  /** The names looked up are those of the usual meaning exactly when no "." gets in the way. */
  lemma LooksUpResolvedIff(path: string)
    ensures Kept(Components(path, 0), true) == Resolve([], Components(path, 0)) <==> DotsHarmless(Components(path, 0))
  {
    KeptIff(Components(path, 0));
    ResolveKept([], Components(path, 0));
  }

  lemma {:induction false} NoDots(cs: seq<string>)
    requires "." !in cs
    ensures Unmatched(cs, true) == Unmatched(cs, false)
    decreases |cs|
  {
    if cs != [] {
      assert cs[0] in cs;
      assert forall c :: c in cs[1..] ==> c in cs;
      NoDots(cs[1..]);
    }
  }

  /** In particular a path without "." is looked up as it reads. */
  lemma PlainPath(path: string)
    requires "." !in Components(path, 0)
    ensures Kept(Components(path, 0), true) == Resolve([], Components(path, 0))
  {
    var cs := Components(path, 0);
    forall i | 0 <= i < |cs| && !IsDots(cs[i])
      ensures Unmatched(cs[i + 1..], true) == Unmatched(cs[i + 1..], false)
    {
      assert forall c :: c in cs[i + 1..] ==> c in cs;
      NoDots(cs[i + 1..]);
    }
    LooksUpResolvedIff(path);
  }

  /** "a/./.." is the root, but "a" is looked up. */
  lemma DotAfterName()
    ensures Components("a/./..", 0) == ["a", ".", ".."]
    ensures Resolve([], ["a", ".", ".."]) == [] && Kept(["a", ".", ".."], true) == ["a"]
  {
    var s := "a/./..";
    assert Components(s, 6) == [];
    assert NameEnd(s, 6) == 6 && NameEnd(s, 5) == 6 && NameEnd(s, 4) == 6 && s[4..6] == "..";
    assert SkipSlashes(s, 4) == 4 && SkipSlashes(s, 3) == 4;
    assert Components(s, 3) == [".."];
    assert NameEnd(s, 3) == 3 && NameEnd(s, 2) == 3 && s[2..3] == ".";
    assert SkipSlashes(s, 2) == 2 && SkipSlashes(s, 1) == 2;
    assert Components(s, 1) == [".", ".."];
    assert NameEnd(s, 1) == 1 && NameEnd(s, 0) == 1 && s[0..1] == "a" && SkipSlashes(s, 0) == 0;
    assert Unmatched([".."], true) == 1;
    assert Unmatched([".", ".."], true) == 0;
    assert ["a", ".", ".."][1..] == [".", ".."] && [".", ".."][1..] == [".."] && [".."][1..] == [];
    assert Resolve(["a"], [".", ".."]) == Resolve(["a"], [".."]) == Resolve([], []);
  }
}
