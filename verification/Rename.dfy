/** Renaming across metadata pairs: two commits, with a pending move noted in the global state in
    between, so that stopping after either leaves the old or the new directory tree.
 */
module Rename {
  import opened Basics
  import opened Tags
  import opened Replay
  import opened Compaction
  import opened GlobalState

  // ----- what can be seen after mounting

  /** A pending move out of a pair hides the entry it names. */
  function Visible(p: Pair, g: G): seq<Entry> {
    if MoveHere(g, p.addr) then RemoveAt(p.dir.entries, g.tag.id) else p.dir.entries
  }

  function ViewWith(pairs: seq<Pair>, g: G): (v: seq<seq<Entry>>)
    ensures |v| == |pairs| && forall i :: 0 <= i < |v| ==> v[i] == Visible(pairs[i], g)
  {
    seq(|pairs|, i requires 0 <= i < |pairs| => Visible(pairs[i], g))
  }

  function View(pairs: seq<Pair>): seq<seq<Entry>> {
    ViewWith(pairs, Mounted(pairs))
  }

  function Splits(pairs: seq<Pair>): (s: seq<bool>)
    ensures |s| == |pairs| && forall i :: 0 <= i < |s| ==> s[i] == pairs[i].split
  {
    seq(|pairs|, i requires 0 <= i < |pairs| => pairs[i].split)
  }

  /** The pairs gathered into directories: one that is split goes on in the pair behind it. */
  function Dirs(view: seq<seq<Entry>>, splits: seq<bool>): seq<seq<Entry>>
    requires |view| == |splits|
  {
    if view == [] then []
    else
      var rest := Dirs(view[1..], splits[1..]);
      if splits[0] && rest != [] then [view[0] + rest[0]] + rest[1..] else [view[0]] + rest
  }

  /** The directories that can be seen after mounting. */
  function Tree(pairs: seq<Pair>): seq<seq<Entry>> {
    Dirs(View(pairs), Splits(pairs))
  }

  function Concat(parts: seq<seq<Entry>>): seq<Entry> {
    if parts == [] then [] else parts[0] + Concat(parts[1..])
  }

  function Splice<T>(s: seq<T>, i: nat, parts: seq<T>): seq<T>
    requires i < |s|
  {
    s[..i] + parts + s[i + 1..]
  }

  /** All the parts but the last go on in the next one. */
  predicate Chained(flags: seq<bool>, last: bool) {
    flags != [] && flags[|flags| - 1] == last && forall j :: 0 <= j < |flags| - 1 ==> flags[j]
  }

  lemma {:induction false} DirsParts(parts: seq<seq<Entry>>, flags: seq<bool>, last: bool, view: seq<seq<Entry>>,
                                     splits: seq<bool>)
    requires |parts| == |flags| && Chained(flags, last) && |view| == |splits|
    ensures Dirs(parts + view, flags + splits) == Dirs([Concat(parts)] + view, [last] + splits)
  {
    var w, f := [Concat(parts)] + view, [last] + splits;
    assert w[1..] == view && f[1..] == splits;
    assert (parts + view)[1..] == parts[1..] + view && (flags + splits)[1..] == flags[1..] + splits;
    if |parts| == 1 {
      assert parts[1..] + view == view && flags[1..] + splits == splits;
      assert Concat(parts) == parts[0];
    } else {
      DirsParts(parts[1..], flags[1..], last, view, splits);
      var w1, f1 := [Concat(parts[1..])] + view, [last] + splits;
      assert w1[1..] == view && f1[1..] == splits;
      var rest := Dirs(view, splits);
      if last && rest != [] {
        assert Dirs(w1, f1) == [Concat(parts[1..]) + rest[0]] + rest[1..];
        assert parts[0] + (Concat(parts[1..]) + rest[0]) == Concat(parts) + rest[0];
      }
    }
  }

  /** Dividing a pair into parts that chain leaves the directories as they were. */
  lemma {:induction false} DirsSplice(view: seq<seq<Entry>>, splits: seq<bool>, i: nat, parts: seq<seq<Entry>>,
                                      flags: seq<bool>)
    requires i < |view| == |splits| && |parts| == |flags| && Chained(flags, splits[i]) && Concat(parts) == view[i]
    ensures Dirs(Splice(view, i, parts), Splice(splits, i, flags)) == Dirs(view, splits)
  {
    hide Concat, Chained;
    var v, s := Splice(view, i, parts), Splice(splits, i, flags);
    if i == 0 {
      assert v == parts + view[1..] && s == flags + splits[1..];
      assert view == [view[0]] + view[1..] && splits == [splits[0]] + splits[1..];
      DirsParts(parts, flags, splits[0], view[1..], splits[1..]);
    } else {
      assert v[1..] == Splice(view[1..], i - 1, parts) && s[1..] == Splice(splits[1..], i - 1, flags);
      DirsSplice(view[1..], splits[1..], i - 1, parts, flags);
    }
  }

  predicate Apart(pairs: seq<Pair>) {
    forall i, j :: 0 <= i < j < |pairs| ==> !SamePair(pairs[i].addr, pairs[j].addr)
  }

  // ----- the attributes a move carries along

  /** The structs and user attributes of a list. */
  function Contents(items: seq<Item>, toid: nat): seq<Item> {
    if items == [] then []
    else
      var a := items[|items| - 1];
      var r := Contents(items[..|items| - 1], toid);
      if a.tag.typ / 0x200 == 1 then r + [a.(tag := a.tag.(id := toid))] else r
  }

  /** What the traversal of the source emits for one entry: the attributes in force, renumbered. */
  function MoveItems(log: seq<Item>, fromid: nat, toid: nat): seq<Item> {
    Contents(Window(Live(log), fromid, fromid + 1), toid)
  }

  /** The items carry everything of the entry but its name. */
  ghost predicate Carries(items: seq<Item>, e: Entry, id: nat) {
    && (forall a :: a in items ==>
          IsEntryTag(a.tag) && a.tag.id == id && Key(Unique, a.tag.typ) != NAME_CLASS && !IsDelete(a.tag))
    && (forall k: nat :: Fetch(items, id, k) == if 0x200 <= k < 0x400 && k in e then Some(e[k]) else None)
  }

  lemma {:induction false} ContentsFetch(items: seq<Item>, toid: nat, k: nat)
    requires forall a :: a in items ==> IsEntryTag(a.tag) && a.tag.id == 0
    ensures Fetch(Contents(items, toid), toid, k) == if 0x200 <= k < 0x400 then Fetch(items, 0, k) else None
  {
    if items != [] {
      var n := |items| - 1;
      assert items[n] in items;
      ContentsFetch(items[..n], toid, k);
      var r, b := Contents(items[..n], toid), items[n].(tag := items[n].tag.(id := toid));
      SnocFetch(r, b, toid, k);
    }
  }

  lemma {:induction false} ContentsMember(items: seq<Item>, toid: nat, c: Item) returns (a: Item)
    requires c in Contents(items, toid)
    ensures a in items && a.tag.typ / 0x200 == 1 && c == a.(tag := a.tag.(id := toid))
  {
    var n := |items| - 1;
    if c in Contents(items[..n], toid) {
      a := ContentsMember(items[..n], toid, c);
    } else {
      a := items[n];
    }
  }

  /** A move out of a committed log carries exactly the entry's struct and user attributes. */
  lemma MoveCarries(log: seq<Item>, fromid: nat, toid: nat)
    requires WellFormed(log) && fromid < |Run(Unique, log).entries| && !EndsInRemoval(log)
    ensures Carries(MoveItems(log, fromid, toid), Run(Unique, log).entries[fromid], toid)
  {
    hide Run, Live, Window, Fetch, WellFormed, Distinct, EndsInRemoval, Contents;
    var d, items := Run(Unique, log), Window(Live(log), fromid, fromid + 1);
    var moved := MoveItems(log, fromid, toid);
    WellFormedAll(log);
    LiveRep(log);
    WindowWellFormed(Live(log), d, fromid, fromid + 1);
    forall c | c in moved
      ensures IsEntryTag(c.tag) && c.tag.id == toid && Key(Unique, c.tag.typ) != NAME_CLASS && !IsDelete(c.tag)
    {
      var a := ContentsMember(items, toid, c);
      var b := WindowMember(Live(log), fromid, fromid + 1, a);
    }
    forall k: nat
      ensures var e := d.entries[fromid];
              Fetch(moved, toid, k) == if 0x200 <= k < 0x400 && k in e then Some(e[k]) else None
    {
      ContentsFetch(items, toid, k);
      WindowFetch(Live(log), fromid, fromid + 1, 0, k);
      assert Get(d, fromid, k) == Fetch(Live(log), fromid, k);
    }
  }

  lemma WellFormedAll(log: seq<Item>)
    requires WellFormed(log)
    ensures |Run(Unique, log).entries| <= NO_ID
  {
    assert log[..|log|] == log;
  }

  // ----- the two commits

  /** An entry under a new name. */
  function Renamed(e: Entry, name: Item): Entry {
    (e - {NAME_CLASS})[NAME_CLASS := ValueOf(name)]
  }

  predicate IsName(name: Item, id: nat) {
    IsEntryTag(name.tag) && Type1(name.tag) == NAME_CLASS && name.tag.id == id && !IsDelete(name.tag)
  }

  /** The attributes committed to the new pair. */
  function Arrival(overwrite: bool, newid: nat, name: Item, moved: seq<Item>): seq<Item> {
    (if overwrite then [DeleteItem(newid)] else []) + [Item(Tag(CREATE, newid, 0), []), name] + moved
  }

  /** The entries of the new pair with the entry in its place. */
  function Placed(entries: seq<Entry>, overwrite: bool, newid: nat, e: Entry): seq<Entry>
    requires if overwrite then newid < |entries| else newid <= |entries|
  {
    entries[..newid] + [e] + entries[if overwrite then newid + 1 else newid..]
  }

  /** Entry attributes laid over an entry. */
  function Overlay(e: Entry, items: seq<Item>): Entry {
    if items == [] then e
    else
      var a := items[|items| - 1];
      SetKey(Overlay(e, items[..|items| - 1]), Key(Unique, a.tag.typ), a)
  }

  lemma {:induction false} ApplyOverlay(d: Dir, items: seq<Item>, id: nat)
    requires id < |d.entries| && forall a :: a in items ==> IsEntryTag(a.tag) && a.tag.id == id
    ensures ApplyAll(d, items).entries == d.entries[id := Overlay(d.entries[id], items)]
  {
    if items != [] {
      var n := |items| - 1;
      assert items[n] in items;
      ApplyOverlay(d, items[..n], id);
    }
  }

  lemma {:induction false} OverlayFetch(e: Entry, items: seq<Item>, id: nat, k: nat)
    requires forall a :: a in items ==> a.tag.id == id && !IsDelete(a.tag)
    ensures var o := Overlay(e, items);
            match Fetch(items, id, k)
            case Some(v) => k in o && o[k] == v
            case None => (k in o <==> k in e) && (k in e ==> o[k] == e[k])
  {
    if items != [] {
      var n := |items| - 1;
      assert items[n] in items;
      OverlayFetch(e, items[..n], id, k);
    }
  }

  lemma {:induction false} ApplyConcat(d: Dir, x: seq<Item>, y: seq<Item>)
    ensures ApplyAll(d, x + y) == ApplyAll(ApplyAll(d, x), y)
  {
    hide Apply;
    if y == [] {
      assert x + y == x;
    } else {
      assert (x + y)[..|x + y| - 1] == x + y[..|y| - 1];
      ApplyConcat(d, x, y[..|y| - 1]);
    }
  }

  /** Committing the arrival puts the renamed entry in its place and changes nothing else. */
  lemma Arrives(d: Dir, overwrite: bool, newid: nat, name: Item, moved: seq<Item>, e: Entry)
    requires if overwrite then newid < |d.entries| else newid <= |d.entries|
    requires IsName(name, newid) && Carries(moved, e, newid) && EntryKeys(e)
    ensures ApplyAll(d, Arrival(overwrite, newid, name, moved)).entries ==
            Placed(d.entries, overwrite, newid, Renamed(e, name))
  {
    hide Carries, Overlay, ApplyAll, Fetch, Key, Apply;
    var first := (if overwrite then [DeleteItem(newid)] else []) + [Item(Tag(CREATE, newid, 0), [])];
    var rest := [name] + moved;
    assert Arrival(overwrite, newid, name, moved) == first + rest;
    ApplyConcat(d, first, rest);
    Emptied(d, overwrite, newid);
    CarriedTags(name, moved, e, newid);
    ApplyOverlay(ApplyAll(d, first), rest, newid);
    RenamedOverlay(name, moved, e, newid);
  }

  lemma CarriedTags(name: Item, moved: seq<Item>, e: Entry, newid: nat)
    requires IsName(name, newid) && Carries(moved, e, newid)
    ensures forall a :: a in [name] + moved ==> IsEntryTag(a.tag) && a.tag.id == newid
  {
    hide Fetch;
  }

  predicate EntryKeys(e: Entry) {
    forall k :: k in e ==> k == NAME_CLASS || 0x200 <= k < 0x400
  }

  lemma Emptied(d: Dir, overwrite: bool, newid: nat)
    requires if overwrite then newid < |d.entries| else newid <= |d.entries|
    ensures ApplyAll(d, (if overwrite then [DeleteItem(newid)] else []) + [Item(Tag(CREATE, newid, 0), [])]).entries
            == Placed(d.entries, overwrite, newid, map[])
  {
    hide Apply;
    var del, cre := DeleteItem(newid), Item(Tag(CREATE, newid, 0), []);
    if overwrite {
      assert [del] + [cre] == [del, cre] && [del, cre][..1] == [del] && [del][..0] == [];
      var d1 := Apply(Unique, d, del);
      assert ApplyAll(d, [del]) == d1;
      TakenOut(d, newid);
      PutIn(d1, newid);
      assert d1.entries[..newid] == d.entries[..newid] && d1.entries[newid..] == d.entries[newid + 1..];
    } else {
      assert [] + [cre] == [cre] && [cre][..0] == [];
      PutIn(d, newid);
    }
  }

  lemma TakenOut(d: Dir, id: nat)
    requires id < |d.entries|
    ensures Apply(Unique, d, DeleteItem(id)).entries == d.entries[..id] + d.entries[id + 1..]
  {
  }

  lemma PutIn(d: Dir, id: nat)
    requires id <= |d.entries|
    ensures Apply(Unique, d, Item(Tag(CREATE, id, 0), [])).entries == d.entries[..id] + [map[]] + d.entries[id..]
  {
    assert Pad(d.entries, id) == d.entries;
  }

  lemma RenamedOverlay(name: Item, moved: seq<Item>, e: Entry, newid: nat)
    requires IsName(name, newid) && Carries(moved, e, newid) && EntryKeys(e)
    ensures Overlay(map[], [name] + moved) == Renamed(e, name)
  {
    hide Fetch;
    OverlayCons(name, moved);
    var e0 := map[NAME_CLASS := ValueOf(name)];
    forall k: nat
      ensures k in Overlay(e0, moved) <==> k in Renamed(e, name)
      ensures k in Renamed(e, name) ==> Overlay(e0, moved)[k] == Renamed(e, name)[k]
    {
      OverlayFetch(e0, moved, newid, k);
    }
  }

  lemma {:induction false} OverlayCons(name: Item, moved: seq<Item>)
    requires Type1(name.tag) == NAME_CLASS && !IsDelete(name.tag)
    ensures Overlay(map[], [name] + moved) == Overlay(map[NAME_CLASS := ValueOf(name)], moved)
  {
    if moved == [] {
      assert [name] + moved == [name] && [name][..0] == [];
    } else {
      var n := |moved| - 1;
      assert ([name] + moved)[..n + 1] == [name] + moved[..n];
      OverlayCons(name, moved[..n]);
    }
  }

  // ----- stopping and mounting

  lemma ViewPlain(pairs: seq<Pair>, g: G)
    requires Total(pairs) == Mask(g) && !HasMove(g)
    ensures |View(pairs)| == |pairs| && forall i :: 0 <= i < |pairs| ==> View(pairs)[i] == pairs[i].dir.entries
  {
    hide Total;
  }

  lemma ViewMoved(pairs: seq<Pair>, g: G, a: nat)
    requires Total(pairs) == Mask(g) && HasMove(g) && a < |pairs| && SamePair((g.pair0, g.pair1), pairs[a].addr)
    requires forall i :: 0 <= i < |pairs| && i != a ==> !SamePair((g.pair0, g.pair1), pairs[i].addr)
    ensures |View(pairs)| == |pairs| && forall i :: 0 <= i < |pairs| ==>
              View(pairs)[i] == if i == a then RemoveAt(pairs[i].dir.entries, g.tag.id) else pairs[i].dir.entries
  {
    hide Total;
  }

  lemma ViewLeaving(pairs: seq<Pair>, g: G, a: nat)
    requires Total(pairs) == Mask(g) && HasMove(g) && a < |pairs| && MovesOut(pairs[a], g) && Apart(pairs)
    ensures |View(pairs)| == |pairs| && View(pairs)[a] == RemoveAt(pairs[a].dir.entries, g.tag.id)
    ensures |pairs[a].dir.entries| == 1 ==> View(pairs)[a] == []
    ensures forall i :: 0 <= i < |pairs| && i != a ==> View(pairs)[i] == pairs[i].dir.entries
  {
    hide Total, View;
    ViewMoved(pairs, g, a);
  }

  // ----- what a commit does to the tree

  /** The new pairs of a commit are none of those in use. */
  predicate Spare(pairs: seq<Pair>, how: How) {
    how.Divided? ==>
      && (forall j, k :: 0 <= j < |how.cuts| && 0 <= k < |pairs| ==> !SamePair(how.cuts[j].addr, pairs[k].addr))
      && (forall j, k :: 0 <= j < k < |how.cuts| ==> !SamePair(how.cuts[j].addr, how.cuts[k].addr))
  }

  /** How many pairs a commit adds. */
  function Added(how: How): nat {
    if how.Divided? then |how.cuts| else 0
  }

  /** Where a pair is after a commit to pair i. */
  function Shifted(a: nat, i: nat, how: How): nat {
    if a > i then a + Added(how) else a
  }

  function CutParts(cuts: seq<Cut>): (parts: seq<seq<Entry>>)
    ensures |parts| == |cuts| && forall j :: 0 <= j < |cuts| ==> parts[j] == cuts[j].dir.entries
  {
    seq(|cuts|, j requires 0 <= j < |cuts| => cuts[j].dir.entries)
  }

  /** What pair i becomes: one pair with the entries, or the parts it is divided into. */
  function Parts(how: How, entries: seq<Entry>): seq<seq<Entry>> {
    if how.Divided? then [how.front.entries] + CutParts(how.cuts) else [entries]
  }

  function Flags(how: How, last: bool): (flags: seq<bool>)
    ensures |flags| == Added(how) + 1
  {
    seq(Added(how) + 1, j requires 0 <= j <= Added(how) => j < Added(how) || last)
  }

  lemma {:induction false} TailsAre(cuts: seq<Cut>, change: G, split: bool, j: nat)
    requires j < |cuts|
    ensures var t := Tails(cuts, change, split)[j];
            t.addr == cuts[j].addr && t.dir == cuts[j].dir && t.split == (j + 1 < |cuts| || split)
  {
    if j > 0 {
      TailsAre(cuts[1..], change, split, j - 1);
    }
  }

  lemma {:induction false} CutsConcat(cuts: seq<Cut>)
    ensures Concat(CutParts(cuts)) == CutEntries(cuts)
  {
    if cuts != [] {
      assert CutParts(cuts)[1..] == CutParts(cuts[1..]);
      CutsConcat(cuts[1..]);
    }
  }

  lemma PartsConcat(how: How, d: Dir, attrs: seq<Item>)
    requires HowOk(how, d, attrs)
    ensures var e := ApplyAll(d, attrs).entries;
            Concat(Parts(how, e)) == e && |Parts(how, e)| == Added(how) + 1
  {
    hide ApplyAll;
    var e := ApplyAll(d, attrs).entries;
    var parts := Parts(how, e);
    if how.Divided? {
      CutsConcat(how.cuts);
      assert parts[1..] == CutParts(how.cuts);
    } else {
      assert parts[1..] == [] && Concat([]) == [];
    }
  }

  /** The pairs other than pair i stay, and the new ones are behind it. */
  lemma CommittedAt(pairs: seq<Pair>, i: nat, attrs: seq<Item>, how: How, change: G, k: nat)
    requires i < |pairs| && k < |pairs| + Added(how)
    ensures var q := Committed(pairs, i, attrs, how, change);
            && |q| == |pairs| + Added(how)
            && if k < i then q[k] == pairs[k]
               else if k == i then
                 && q[k].addr == pairs[i].addr
                 && q[k].dir == (if how.Divided? then how.front else ApplyAll(pairs[i].dir, attrs))
                 && q[k].split == (how.Divided? || pairs[i].split)
               else if k <= i + Added(how) then
                 var c := how.cuts[k - i - 1];
                 q[k].addr == c.addr && q[k].dir == c.dir && q[k].split == (k < i + Added(how) || pairs[i].split)
               else q[k] == pairs[k - Added(how)]
  {
    hide ApplyAll, XorG;
    if i < k <= i + Added(how) {
      TailsAre(how.cuts, change, pairs[i].split, k - i - 1);
    }
  }

  lemma CommittedSplits(pairs: seq<Pair>, i: nat, attrs: seq<Item>, how: How, change: G)
    requires i < |pairs| && (how.Divided? ==> how.cuts != [])
    ensures Splits(Committed(pairs, i, attrs, how, change)) == Splice(Splits(pairs), i, Flags(how, pairs[i].split))
    ensures Chained(Flags(how, pairs[i].split), Splits(pairs)[i])
  {
    hide Committed;
    var q, s := Committed(pairs, i, attrs, how, change), Splice(Splits(pairs), i, Flags(how, pairs[i].split));
    CommittedAt(pairs, i, attrs, how, change, i);
    forall k | 0 <= k < |q| ensures q[k].split == s[k] {
      CommittedAt(pairs, i, attrs, how, change, k);
    }
  }

  lemma CommittedApart(pairs: seq<Pair>, i: nat, attrs: seq<Item>, how: How, change: G)
    requires i < |pairs| && Apart(pairs) && Spare(pairs, how)
    ensures Apart(Committed(pairs, i, attrs, how, change))
  {
    hide Committed;
    var q := Committed(pairs, i, attrs, how, change);
    CommittedAt(pairs, i, attrs, how, change, i);
    forall j, k | 0 <= j < k < |q| ensures !SamePair(q[j].addr, q[k].addr) {
      CommittedAt(pairs, i, attrs, how, change, j);
      CommittedAt(pairs, i, attrs, how, change, k);
    }
  }

  /** What can be seen of each pair once a commit to pair i has put these entries there. */
  ghost predicate Seen(w: seq<seq<Entry>>, pairs: seq<Pair>, i: nat, entries: seq<Entry>, g: G)
    requires i < |pairs|
  {
    && |w| == |pairs| && w[i] == entries && !MoveHere(g, pairs[i].addr)
    && forall k :: 0 <= k < |pairs| && k != i ==> w[k] == Visible(pairs[k], g)
  }

  lemma SeenPlain(w: seq<seq<Entry>>, pairs: seq<Pair>, i: nat, g: G)
    requires i < |pairs| == |w| && !HasMove(g)
    requires forall k :: 0 <= k < |pairs| && k != i ==> w[k] == pairs[k].dir.entries
    ensures Seen(w, pairs, i, w[i], g)
  {
  }

  predicate MoveElsewhere(how: How, g: G) {
    how.Divided? ==> forall j :: 0 <= j < |how.cuts| ==> !MoveHere(g, how.cuts[j].addr)
  }

  lemma CommittedView(pairs: seq<Pair>, i: nat, attrs: seq<Item>, how: How, change: G, g: G, w: seq<seq<Entry>>)
    requires i < |pairs| && Total(Committed(pairs, i, attrs, how, change)) == Mask(g)
    requires Seen(w, pairs, i, ApplyAll(pairs[i].dir, attrs).entries, g) && MoveElsewhere(how, g)
    ensures View(Committed(pairs, i, attrs, how, change)) == Splice(w, i, Parts(how, w[i]))
  {
    hide Committed, Total, ApplyAll, RemoveAt;
    var q, v := Committed(pairs, i, attrs, how, change), Splice(w, i, Parts(how, w[i]));
    CommittedAt(pairs, i, attrs, how, change, i);
    forall k | 0 <= k < |q| ensures View(q)[k] == v[k] {
      CommittedAt(pairs, i, attrs, how, change, k);
    }
  }

  /** However the commit was written, the same directories can be seen. */
  lemma CommittedTree(pairs: seq<Pair>, i: nat, attrs: seq<Item>, how: How, change: G, g: G, w: seq<seq<Entry>>)
    requires i < |pairs| && HowOk(how, pairs[i].dir, attrs)
    requires Total(Committed(pairs, i, attrs, how, change)) == Mask(g)
    requires Seen(w, pairs, i, ApplyAll(pairs[i].dir, attrs).entries, g) && MoveElsewhere(how, g)
    ensures Tree(Committed(pairs, i, attrs, how, change)) == Dirs(w, Splits(pairs))
  {
    hide Committed, Total, ApplyAll, Dirs, Concat, Parts, Flags, Chained, View, CutEntries, MoveElsewhere;
    CommittedView(pairs, i, attrs, how, change, g, w);
    CommittedSplits(pairs, i, attrs, how, change);
    PartsConcat(how, pairs[i].dir, attrs);
    DirsSplice(w, Splits(pairs), i, Parts(how, w[i]), Flags(how, pairs[i].split));
  }

  /** A pair with nothing to see, behind one of the same directory, can go. */
  lemma UnlinkedTree(pairs: seq<Pair>, i: nat, share: G, g: G, w: seq<seq<Entry>>)
    requires i + 1 < |pairs| == |w| && pairs[i].split && w[i + 1] == []
    requires Total(Unlinked(pairs, i, share)) == Mask(g) && !HasMove(g)
    requires forall k :: 0 <= k < |pairs| && k != i + 1 ==> w[k] == pairs[k].dir.entries
    ensures Tree(Unlinked(pairs, i, share)) == Dirs(w, Splits(pairs))
  {
    hide Total, Dirs, Concat, View, Unlinked, Splice;
    var q := Unlinked(pairs, i, share);
    ViewPlain(q, g);
    var parts, flags := [w[i], []], [true, pairs[i + 1].split];
    ConcatTwo(w[i], []);
    UnlinkedSplice(pairs, i, share, View(q), w);
    DirsSplice(View(q), Splits(q), i, parts, flags);
  }

  /** Linking the pair again gives back what was there. */
  lemma UnlinkedSplice(pairs: seq<Pair>, i: nat, share: G, v: seq<seq<Entry>>, w: seq<seq<Entry>>)
    requires i + 1 < |pairs| == |w| && pairs[i].split && w[i + 1] == []
    requires var q := Unlinked(pairs, i, share);
             |v| == |q| && forall k :: 0 <= k < |q| ==> v[k] == q[k].dir.entries
    requires forall k :: 0 <= k < |pairs| && k != i + 1 ==> w[k] == pairs[k].dir.entries
    ensures |v| == |pairs| - 1 && v[i] == w[i] && Splice(v, i, [w[i], []]) == w
    ensures var q := Unlinked(pairs, i, share);
            && Splits(q)[i] == pairs[i + 1].split
            && Splice(Splits(q), i, [true, pairs[i + 1].split]) == Splits(pairs)
  {
    hide Unlinked, Splice;
    var q := Unlinked(pairs, i, share);
    UnlinkedAt(pairs, i, share, i);
    forall k | 0 <= k < |v| ensures v[k] == w[if k <= i then k else k + 1] {
      UnlinkedAt(pairs, i, share, k);
    }
    SpliceBack(v, w, i);
    forall k | 0 <= k < |v| && k != i ensures Splits(q)[k] == Splits(pairs)[if k < i then k else k + 1] {
      UnlinkedAt(pairs, i, share, k);
    }
    SpliceBack(Splits(q), Splits(pairs), i);
  }

  lemma UnlinkedAt(pairs: seq<Pair>, i: nat, share: G, k: nat)
    requires i + 1 < |pairs| && k + 1 < |pairs|
    ensures var q := Unlinked(pairs, i, share);
            && |q| == |pairs| - 1
            && q[k].dir == pairs[if k <= i then k else k + 1].dir
            && q[k].split == pairs[if k < i then k else k + 1].split
  {
  }

  lemma SpliceBack<T>(v: seq<T>, w: seq<T>, i: nat)
    requires i + 1 < |w| == |v| + 1
    requires forall k :: 0 <= k < |v| && k != i ==> v[k] == w[if k < i then k else k + 1]
    ensures Splice(v, i, [w[i], w[i + 1]]) == w
  {
    assert v[..i] == w[..i];
    assert v[i + 1..] == w[i + 2..];
    assert w == w[..i] + [w[i], w[i + 1]] + w[i + 2..];
  }

  lemma ConcatTwo(x: seq<Entry>, y: seq<Entry>)
    ensures Concat([x, y]) == x + y
  {
    assert [x, y][1..] == [y] && [y][1..] == [];
    assert Concat([y]) == y + [];
  }

  ghost predicate Quiet(fs: FileSystem)
    reads fs
  {
    fs.Valid() && fs.gdelta == ZERO && !HasMove(fs.gdisk) && !HasMove(fs.gstate) && Apart(fs.pairs)
  }

  /** The disk can be mounted, and a pending move finished. */
  ghost predicate Recoverable(disk: seq<Pair>) {
    && AllMasked(disk) && Apart(disk)
    && (HasMove(Mounted(disk)) ==> exists i :: 0 <= i < |disk| && MovesOut(disk[i], Mounted(disk)))
  }

  /** The pending move is out of the pair; if the pair has one entry, it is the one that moves. */
  predicate MovesOut(p: Pair, g: G) {
    p.addr == (g.pair0, g.pair1) && (|p.dir.entries| == 1 ==> g.tag.id == 0)
  }

  /** The view with the entry gone from one pair and come to another. */
  function After(before: seq<seq<Entry>>, a: nat, oldid: nat, b: nat, overwrite: bool, newid: nat,
                 name: Item): seq<seq<Entry>>
    requires a < |before| && b < |before| && a != b && oldid < |before[a]|
    requires if overwrite then newid < |before[b]| else newid <= |before[b]|
  {
    before[a := RemoveAt(before[a], oldid)][b := Placed(before[b], overwrite, newid, Renamed(before[a][oldid], name))]
  }

  lemma UnlinkedApart(pairs: seq<Pair>, i: nat, share: G)
    requires i + 1 < |pairs| && Apart(pairs)
    ensures Apart(Unlinked(pairs, i, share))
  {
  }

  /** Delete the entry that a pending move hides, and end the move in the same commit. What can be seen
      does not change, whether the pair stays, is divided, or is dropped with its last entry.
   */
  method Leave(fs: FileSystem, a: nat, how: How)
    requires fs.Valid() && fs.gdelta == ZERO && fs.gstate == fs.gdisk && Apart(fs.pairs)
    requires HasMove(fs.gdisk) && a < |fs.pairs| && MovesOut(fs.pairs[a], fs.gdisk)
    requires HowOk(how, fs.pairs[a].dir, [DeleteItem(fs.gdisk.tag.id)]) && Spare(fs.pairs, how)
    modifies fs
    ensures Quiet(fs) && old(fs.trace) < fs.trace
    ensures forall k :: old(|fs.trace|) <= k < |fs.trace| ==> fs.trace[k] == fs.pairs || fs.trace[k] == old(fs.pairs)
    ensures Tree(fs.pairs) == old(Tree(fs.pairs))
  {
    hide View, Total, ApplyAll, XorG, Unlinked, Committed, Dirs, AllMasked, HowOk, Spare, Apart, Seen, RemoveAt;
    ghost var p0 := fs.pairs;
    XorGSelf(Total(p0));
    ViewLeaving(p0, fs.gdisk, a);
    var id := fs.gdisk.tag.id;
    fs.PrepMove(NO_ID, (0, 0));
    Departs(p0[a].dir, id);
    ghost var share := if a > 0 then fs.Takeover(a - 1) else ZERO;
    ghost var change := fs.Change();
    fs.Delete(a, id, how);
    if Drops(p0, a) {
      UnlinkedApart(p0, a - 1, share);
      UnlinkedTree(p0, a - 1, share, fs.gstate, View(p0));
    } else {
      CommittedApart(p0, a, [DeleteItem(id)], how, change);
      SeenPlain(View(p0), p0, a, fs.gstate);
      CommittedTree(p0, a, [DeleteItem(id)], how, change, fs.gstate, View(p0));
    }
  }

  /** What the first commit of a rename lets be seen: the entry has gone from pair a and come to pair b. */
  lemma AfterSeen(pairs: seq<Pair>, a: nat, oldid: nat, b: nat, g: G, how: How, placed: seq<Entry>)
    requires a < |pairs| && b < |pairs| && a != b && oldid < |pairs[a].dir.entries| && Apart(pairs) && Spare(pairs, how)
    requires |View(pairs)| == |pairs| && forall i :: 0 <= i < |pairs| ==> View(pairs)[i] == pairs[i].dir.entries
    requires HasMove(g) && g.tag.id == oldid && (g.pair0, g.pair1) == pairs[a].addr
    ensures Seen(View(pairs)[a := RemoveAt(View(pairs)[a], oldid)][b := placed], pairs, b, placed, g)
    ensures MoveElsewhere(how, g)
  {
    hide View, RemoveAt;
  }

  /** Rename entry `oldid` of pair a to entry `newid` of pair b. Whichever commit is the last one to
      reach the disk, mounting it shows the tree before or after the rename, and nothing in between; also
      when a commit divides its pair, or drops it.
   */
  method RenameAcross(fs: FileSystem, a: nat, oldid: nat, b: nat, overwrite: bool, newid: nat, name: Item,
                      moved: seq<Item>, how1: How, how2: How) returns (ghost done: nat)
    requires Quiet(fs) && a < |fs.pairs| && b < |fs.pairs| && a != b
    requires oldid < |fs.pairs[a].dir.entries| && oldid < NO_ID
    requires var e := fs.pairs[b].dir.entries; if overwrite then newid < |e| else newid <= |e|
    requires IsName(name, newid) && Carries(moved, fs.pairs[a].dir.entries[oldid], newid)
    requires EntryKeys(fs.pairs[a].dir.entries[oldid])
    requires HowOk(how1, fs.pairs[b].dir, Arrival(overwrite, newid, name, moved))
    requires HowOk(how2, fs.pairs[a].dir, [DeleteItem(oldid)])
    requires Spare(fs.pairs, how1) && SpareBoth(fs.pairs, how1, how2)
    modifies fs
    ensures Quiet(fs) && old(fs.trace) < fs.trace && old(|fs.trace|) <= done < |fs.trace| - 1
    ensures var before := old(View(fs.pairs));
            && before[a] == old(fs.pairs[a].dir.entries) && before[b] == old(fs.pairs[b].dir.entries)
            && (forall k :: old(|fs.trace|) - 1 <= k < done ==> Tree(fs.trace[k]) == old(Tree(fs.pairs)))
            && (forall k :: done <= k < |fs.trace| ==>
                  Tree(fs.trace[k]) == Dirs(After(before, a, oldid, b, overwrite, newid, name), old(Splits(fs.pairs))))
    ensures forall k :: old(|fs.trace|) - 1 <= k < |fs.trace| ==> Recoverable(fs.trace[k])
  {
    hide Carries, View, Total, ApplyAll, XorG, Renamed, Committed, Dirs, AllMasked, HowOk, Arrival, Placed, Apart,
      Spare, SpareBoth, Seen, MoveElsewhere, RemoveAt;
    ghost var p0 := fs.pairs;
    ghost var e := p0[a].dir.entries[oldid];
    XorGSelf(Total(p0));
    ViewPlain(p0, fs.gdisk);
    fs.PrepMove(oldid, fs.pairs[a].addr);
    Arrives(p0[b].dir, overwrite, newid, name, moved, e);
    ghost var change := fs.Change();
    ghost var attrs := Arrival(overwrite, newid, name, moved);
    fs.Commit(b, Arrival(overwrite, newid, name, moved), how1);
    done := |fs.trace| - 1;
    ghost var p1 := fs.pairs;
    ghost var w := After(View(p0), a, oldid, b, overwrite, newid, name);
    AfterSeen(p0, a, oldid, b, fs.gstate, how1, w[b]);
    CommittedTree(p0, b, attrs, how1, change, fs.gstate, w);
    CommittedApart(p0, b, attrs, how1, change);
    var a1 := Shifted(a, b, how1);
    CommittedAt(p0, b, attrs, how1, change, a1);
    SpareNext(p0, b, attrs, how1, change, how2);
    assert MovesOut(p1[a1], Mounted(p1));
    Leave(fs, a1, how2);
    XorGSelf(Total(fs.pairs));
  }

  /** The new pairs of the second commit are not those of the first. */
  predicate SpareBoth(pairs: seq<Pair>, how1: How, how2: How) {
    && Spare(pairs, how2)
    && (how1.Divided? && how2.Divided? ==>
          forall j, k :: 0 <= j < |how2.cuts| && 0 <= k < |how1.cuts| ==>
            !SamePair(how2.cuts[j].addr, how1.cuts[k].addr))
  }

  lemma SpareNext(pairs: seq<Pair>, i: nat, attrs: seq<Item>, how1: How, change: G, how2: How)
    requires i < |pairs| && SpareBoth(pairs, how1, how2)
    ensures Spare(Committed(pairs, i, attrs, how1, change), how2)
  {
    hide Committed;
    if how2.Divided? {
      var q := Committed(pairs, i, attrs, how1, change);
      CommittedAt(pairs, i, attrs, how1, change, i);
      forall j, k | 0 <= j < |how2.cuts| && 0 <= k < |q| ensures !SamePair(how2.cuts[j].addr, q[k].addr) {
        CommittedAt(pairs, i, attrs, how1, change, k);
      }
    }
  }

  lemma Departs(d: Dir, id: nat)
    ensures ApplyAll(d, [DeleteItem(id)]).entries == RemoveAt(d.entries, id)
  {
    assert [DeleteItem(id)][..0] == [];
  }

  /** The commit that ends a pending move can be written in this way. */
  ghost predicate CanEnd(pairs: seq<Pair>, g: G, how: How) {
    && Spare(pairs, how)
    && forall i :: 0 <= i < |pairs| && MovesOut(pairs[i], g) ==> HowOk(how, pairs[i].dir, [DeleteItem(g.tag.id)])
  }

  /** Finish a pending move, if there is one. What can be seen does not change. */
  method Demove(fs: FileSystem, how: How)
    requires fs.Valid() && fs.gdelta == ZERO && fs.gstate == fs.gdisk && Apart(fs.pairs)
    requires HasMove(fs.gdisk) ==> exists i :: 0 <= i < |fs.pairs| && MovesOut(fs.pairs[i], fs.gdisk)
    requires CanEnd(fs.pairs, fs.gdisk, how)
    modifies fs
    ensures Quiet(fs) && Tree(fs.pairs) == old(Tree(fs.pairs)) && old(fs.trace) <= fs.trace
    ensures forall k :: old(|fs.trace|) <= k < |fs.trace| ==> Tree(fs.trace[k]) == old(Tree(fs.pairs))
  {
    hide Tree, Total, ApplyAll, XorG, HowOk, Spare;
    XorGSelf(Total(fs.pairs));
    if !HasMove(fs.gdisk) {
      return;
    }
    var i := 0;
    while fs.pairs[i].addr != (fs.gdisk.pair0, fs.gdisk.pair1)
      invariant 0 <= i < |fs.pairs|
      invariant exists j :: i <= j < |fs.pairs| && MovesOut(fs.pairs[j], fs.gdisk)
      decreases |fs.pairs| - i
    {
      i := i + 1;
    }
    ghost var j :| i <= j < |fs.pairs| && MovesOut(fs.pairs[j], fs.gdisk);
    assert SamePair(fs.pairs[i].addr, fs.pairs[j].addr);
    Leave(fs, i, how);
  }

  /** Mounting a disk and finishing its pending move shows the same tree, now without the move. */
  method Recover(disk: seq<Pair>, how: How) returns (fs: FileSystem)
    requires Recoverable(disk) && CanEnd(disk, Mounted(disk), how)
    ensures fresh(fs) && Quiet(fs) && Tree(fs.pairs) == Tree(disk)
  {
    hide Tree, Total, XorG;
    fs := new FileSystem.Mount(disk);
    Demove(fs, how);
  }

  /** Within one pair a rename is a single commit. Its last tag deletes the entry under the old name,
      whose id grew by one if the new entry was put in before it.
   */
  lemma RenameWithin(d: Dir, oldid: nat, overwrite: bool, newid: nat, name: Item, moved: seq<Item>)
    requires oldid < |d.entries| && (if overwrite then newid < |d.entries| && newid != oldid else newid <= |d.entries|)
    requires IsName(name, newid) && Carries(moved, d.entries[oldid], newid) && EntryKeys(d.entries[oldid])
    ensures var newoldid := if !overwrite && newid <= oldid then oldid + 1 else oldid;
            var placed := Placed(d.entries, overwrite, newid, Renamed(d.entries[oldid], name));
            var attrs := Arrival(overwrite, newid, name, moved) + [DeleteItem(newoldid)];
            && newoldid < |placed| && placed[newoldid] == d.entries[oldid] && newoldid != newid
            && ApplyAll(d, attrs).entries == RemoveAt(placed, newoldid)
  {
    hide Carries, ApplyAll, Renamed;
    var newoldid := if !overwrite && newid <= oldid then oldid + 1 else oldid;
    Arrives(d, overwrite, newid, name, moved, d.entries[oldid]);
    ApplyConcat(d, Arrival(overwrite, newid, name, moved), [DeleteItem(newoldid)]);
    Departs(ApplyAll(d, Arrival(overwrite, newid, name, moved)), newoldid);
  }
}
