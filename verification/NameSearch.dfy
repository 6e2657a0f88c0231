/** Finding a name while a directory is fetched: one pass over the log keeps the best candidate for the
    name, renumbering it around creates and deletes. It ends with what the replayed directory says:
    the entry of that name, or the place where it belongs.
 */
module NameSearch {
  import opened Basics
  import opened Tags
  import opened Replay

  // ----- the order of names

  datatype Ordering = Lt | Eq | Gt

  /** The name on disk against the name looked for. Of two names one of which starts with the other,
      the longer is the lesser.
   */
  function NameCmp(disk: seq<Byte>, name: seq<Byte>): Ordering {
    if disk == [] || name == [] then
      (if |name| == |disk| then Eq else if |name| < |disk| then Lt else Gt)
    else if disk[0] != name[0] then (if disk[0] < name[0] then Lt else Gt)
    else NameCmp(disk[1..], name[1..])
  }

  /** lfs_dir_find_match: the bytes both have, and then the sizes. */
  method Match(disk: seq<Byte>, name: seq<Byte>) returns (r: Ordering)
    ensures r == NameCmp(disk, name)
  {
    var diff := if |name| < |disk| then |name| else |disk|;
    var i := 0;
    assert disk[0..] == disk && name[0..] == name;
    while i < diff
      invariant 0 <= i <= diff
      invariant NameCmp(disk, name) == NameCmp(disk[i..], name[i..])
    {
      assert disk[i..][1..] == disk[i + 1..] && name[i..][1..] == name[i + 1..];
      if disk[i] != name[i] {
        return if disk[i] < name[i] then Lt else Gt;
      }
      i := i + 1;
    }
    return if |name| == |disk| then Eq else if |name| < |disk| then Lt else Gt;
  }

  lemma {:induction false} CmpEq(a: seq<Byte>, b: seq<Byte>)
    ensures NameCmp(a, b) == Eq <==> a == b
    decreases |a|
  {
    if a != [] && b != [] {
      CmpEq(a[1..], b[1..]);
      assert a == [a[0]] + a[1..] && b == [b[0]] + b[1..];
    }
  }

  lemma {:induction false} CmpFlip(a: seq<Byte>, b: seq<Byte>)
    ensures NameCmp(a, b) == Lt <==> NameCmp(b, a) == Gt
    decreases |a|
  {
    if a != [] && b != [] {
      CmpFlip(a[1..], b[1..]);
    }
  }

  lemma {:induction false} CmpTrans(a: seq<Byte>, b: seq<Byte>, c: seq<Byte>)
    requires NameCmp(a, b) == Lt && NameCmp(b, c) == Lt
    ensures NameCmp(a, c) == Lt
    decreases |a|
  {
    if a != [] && b != [] && c != [] && a[0] == b[0] && b[0] == c[0] {
      CmpTrans(a[1..], b[1..], c[1..]);
    }
  }

  // ----- names in a directory

  const BY_CLASS := Masked(0x100)

  function Names(log: seq<Item>): seq<Entry> {
    Run(BY_CLASS, log).entries
  }

  predicate Named(e: Entry) {
    NAME_CLASS in e
  }

  /** A name that lookups see; the superblock's is not. */
  predicate Regular(typ: nat) {
    typ < 0x80
  }

  function Place(e: Entry, target: seq<Byte>): Ordering
    requires Named(e)
  {
    if Regular(e[NAME_CLASS].typ) then NameCmp(e[NAME_CLASS].data, target) else Lt
  }

  predicate Precedes(e: Entry, e': Entry)
    requires Named(e) && Named(e')
  {
    Regular(e'[NAME_CLASS].typ) && Place(e, e'[NAME_CLASS].data) == Lt
  }

  predicate Sorted(s: seq<Entry>) {
    forall i, j :: 0 <= i < j < |s| && Named(s[i]) && Named(s[j]) ==> Precedes(s[i], s[j])
  }

  predicate Full(s: seq<Entry>) {
    forall i :: 0 <= i < |s| ==> Named(s[i])
  }

  lemma PlaceBefore(e: Entry, e': Entry, target: seq<Byte>)
    requires Named(e) && Named(e') && Precedes(e, e')
    ensures Place(e', target) != Gt ==> Place(e, target) == Lt
    ensures Place(e, target) != Lt ==> Place(e', target) == Gt
  {
    var a, b := e[NAME_CLASS].data, e'[NAME_CLASS].data;
    CmpEq(a, target);
    CmpEq(b, target);
    CmpFlip(a, target);
    CmpFlip(b, target);
    CmpFlip(target, a);
    CmpFlip(target, b);
    if Regular(e[NAME_CLASS].typ) {
      if NameCmp(b, target) == Lt {
        CmpTrans(a, b, target);
      }
      if NameCmp(target, a) == Lt {
        CmpTrans(target, a, b);
      }
    }
  }

  // ----- logs as commits write them

  predicate NoSplices(log: seq<Item>) {
    forall i :: 0 <= i < |log| ==> !IsSplice(log[i].tag)
  }

  predicate IsName(t: Tag) {
    Type1(t) == NAME_CLASS
  }

  predicate JustCreated(log: seq<Item>, id: nat) {
    log != [] && log[|log| - 1].tag.typ == CREATE && log[|log| - 1].tag.id == id
  }

  /** What may follow: a compacted log in any order of its ids, and then commits that create an entry
      and name it at once, and delete entries that are there.
   */
  predicate MayFollow(log: seq<Item>, a: Item) {
    var s, t := Names(log), a.tag;
    && ItemOk(a) && !IsNoop(t)
    && (IsSplice(t) ==> Full(s) && if t.typ == CREATE then t.id <= |s| else t.id < |s|)
    && (IsEntryTag(t) && t.id >= |s| ==> NoSplices(log))
    && (IsName(t) ==>
          && !IsDelete(t)
          && (JustCreated(log, t.id) || (NoSplices(log) && (t.id < |s| ==> !Named(s[t.id])))))
  }

  /** ... and the names are in order after every tag. */
  predicate Tidy(log: seq<Item>) {
    log != [] ==>
      && Tidy(log[..|log| - 1]) && MayFollow(log[..|log| - 1], log[|log| - 1])
      && Sorted(Names(log)) && |Names(log)| <= NO_ID
  }

  // ----- the best candidate so far

  /** Nothing, the tag of the name itself, or the tag of the first greater name. */
  datatype Best = Unset | Hit(tag: Tag) | Bound(tag: Tag)

  function BestId(b: Best): nat {
    if b.Unset? then NO_ID else b.tag.id
  }

  /** What the candidate says about the entries. */
  predicate Tracks(best: Best, s: seq<Entry>, target: seq<Byte>) {
    match best
    case Unset => forall j :: 0 <= j < |s| && Named(s[j]) ==> Place(s[j], target) == Lt
    case Hit(t) =>
      t.Ok() && t.id < |s| && Named(s[t.id]) && Place(s[t.id], target) == Eq && s[t.id][NAME_CLASS].typ == t.typ
    case Bound(t) =>
      && t.Ok() && t.id <= |s| && (t.id < |s| ==> Named(s[t.id]))
      && (forall j :: 0 <= j < t.id && Named(s[j]) ==> Place(s[j], target) == Lt)
      && (forall j :: t.id <= j < |s| && Named(s[j]) ==> Place(s[j], target) == Gt)
  }

  function Spliced(best: Best, t: Tag): Best {
    if best.Unset? then best
    else if t == Tag(DELETE, best.tag.id, 0) then Bound(best.tag)
    else if t.id <= best.tag.id then
      (if best.Hit? then Hit(AddId(best.tag, Splice(t))) else Bound(AddId(best.tag, Splice(t))))
    else best
  }

  function Compared(best: Best, t: Tag, res: Ordering): Best {
    if res == Eq then Hit(t)
    else if !best.Unset? && t.typ == best.tag.typ && t.id == best.tag.id then Unset
    else if res == Gt && t.id <= BestId(best) then Bound(t)
    else best
  }

  lemma SpliceSigns(t: Tag)
    ensures t.typ == CREATE ==> Splice(t) == 1
    ensures t.typ == DELETE ==> Splice(t) == -1
  {
  }

  lemma CreateStep(s: seq<Entry>, best: Best, t: Tag, target: seq<Byte>)
    requires Tracks(best, s, target) && t.typ == CREATE && t.size == 0 && t.id <= |s| < NO_ID
    ensures Tracks(Spliced(best, t), InsertAt(s, t.id), target)
    ensures !Spliced(best, t).Unset? ==> Spliced(best, t).tag.id != t.id
  {
    hide Place, AddId;
    var s' := InsertAt(s, t.id);
    SpliceSigns(t);
    assert forall j :: 0 <= j < |s'| ==> s'[j] == if j < t.id then s[j] else if j == t.id then map[] else s[j - 1];
    if !best.Unset? {
      AddIdInRange(best.tag, 1);
    }
  }

  lemma DeleteStep(s: seq<Entry>, best: Best, t: Tag, target: seq<Byte>)
    requires Tracks(best, s, target) && t.typ == DELETE && t.size == 0 && t.id < |s| && Full(s) && Sorted(s)
    ensures Tracks(Spliced(best, t), RemoveAt(s, t.id), target)
  {
    hide Place, AddId, Precedes;
    var s' := RemoveAt(s, t.id);
    SpliceSigns(t);
    assert forall j :: 0 <= j < |s'| ==> s'[j] == if j < t.id then s[j] else s[j + 1];
    if !best.Unset? && t.id < best.tag.id {
      AddIdInRange(best.tag, -1);
    }
    if best.Hit? && t.id == best.tag.id {
      HitBounds(s, best.tag.id, target);
    }
  }

  lemma HitBounds(s: seq<Entry>, id: nat, target: seq<Byte>)
    requires id < |s| && Full(s) && Sorted(s) && Place(s[id], target) == Eq
    ensures forall j :: 0 <= j < id ==> Place(s[j], target) == Lt
    ensures forall j :: id < j < |s| ==> Place(s[j], target) == Gt
  {
    hide Place, Precedes;
    forall j | 0 <= j < id ensures Place(s[j], target) == Lt {
      PlaceBefore(s[j], s[id], target);
    }
    forall j | id < j < |s| ensures Place(s[j], target) == Gt {
      PlaceBefore(s[id], s[j], target);
    }
  }

  /** A named entry beside a new one. */
  lemma NameBeside(s: seq<Entry>, i: nat, j: nat, target: seq<Byte>)
    requires i < j < |s| && Named(s[i]) && Named(s[j]) && Sorted(s)
    ensures Place(s[j], target) != Gt ==> Place(s[i], target) == Lt
    ensures Place(s[i], target) != Lt ==> Place(s[j], target) == Gt
  {
    hide Place, Precedes;
    PlaceBefore(s[i], s[j], target);
  }

  /** The entry at `id` got its name and nothing else changed. */
  predicate GotName(s: seq<Entry>, s': seq<Entry>, id: nat) {
    && |s'| == (if id < |s| then |s| else id + 1) && Named(s'[id]) && (id < |s| ==> !Named(s[id]))
    && (forall j :: 0 <= j < |s'| && j != id ==> if j < |s| then s'[j] == s[j] else s'[j] == map[])
  }

  function Seen(best: Best, t: Tag, place: Ordering): Best {
    if Regular(t.typ) then Compared(best, t, place) else best
  }

  lemma NameStep(s: seq<Entry>, s': seq<Entry>, best: Best, t: Tag, target: seq<Byte>)
    requires Tracks(best, s, target) && GotName(s, s', t.id) && Sorted(s') && t.Ok() && t.id < NO_ID
    requires s'[t.id][NAME_CLASS].typ == t.typ && (!Regular(t.typ) ==> Place(s'[t.id], target) == Lt)
    requires !best.Unset? ==> best.tag.id != t.id
    requires best.Bound? && t.id >= |s| ==> best.tag.id < |s|
    ensures Tracks(Seen(best, t, Place(s'[t.id], target)), s', target)
  {
    hide Place, Precedes, Sorted;
    var id := t.id;
    forall j | 0 <= j < |s'| && j != id && Named(s'[j])
      ensures j < id && Place(s'[id], target) != Gt ==> Place(s'[j], target) == Lt
      ensures j < id && Place(s'[j], target) != Lt ==> Place(s'[id], target) == Gt
      ensures id < j && Place(s'[id], target) != Lt ==> Place(s'[j], target) == Gt
      ensures id < j && Place(s'[j], target) != Gt ==> Place(s'[id], target) == Lt
    {
      if j < id {
        NameBeside(s', j, id, target);
      } else {
        NameBeside(s', id, j, target);
      }
    }
    if !best.Unset? && best.tag.id < |s| {
      assert s'[best.tag.id] == s[best.tag.id] && Named(s'[best.tag.id]);
    }
    assert forall j :: 0 <= j < |s'| && j != id && Named(s'[j]) ==> j < |s| && s[j] == s'[j];
  }

  /** Names did not change. */
  predicate SameNames(s: seq<Entry>, s': seq<Entry>, target: seq<Byte>) {
    && |s| <= |s'|
    && (forall j :: 0 <= j < |s'| ==> (Named(s'[j]) <==> j < |s| && Named(s[j])))
    && (forall j :: 0 <= j < |s| && Named(s[j]) ==>
          Place(s'[j], target) == Place(s[j], target) && s'[j][NAME_CLASS].typ == s[j][NAME_CLASS].typ)
  }

  lemma OtherStep(s: seq<Entry>, s': seq<Entry>, best: Best, target: seq<Byte>)
    requires Tracks(best, s, target) && SameNames(s, s', target)
    requires best.Bound? && |s| < |s'| ==> best.tag.id < |s|
    ensures Tracks(best, s', target)
  {
    hide Place;
  }

  /** What one more tag does to the entries. */
  lemma NamesStep(log: seq<Item>, a: Item, target: seq<Byte>)
    requires MayFollow(log, a)
    ensures var s, s', t := Names(log), Names(log + [a]), a.tag;
      && (t.typ == CREATE ==> s' == InsertAt(s, t.id))
      && (t.typ == DELETE ==> s' == RemoveAt(s, t.id))
      && (IsName(t) && (t.id < |s| ==> !Named(s[t.id])) ==>
            && GotName(s, s', t.id) && s'[t.id][NAME_CLASS].typ == t.typ
            && Place(s'[t.id], target) == if Regular(t.typ) then NameCmp(a.data, target) else Lt)
      && (!IsSplice(t) && !IsName(t) ==> SameNames(s, s', target))
      && (!IsSplice(t) && |s| < |s'| ==> IsEntryTag(t) && t.id >= |s|)
  {
    hide Run, NameCmp, Full, NoSplices, JustCreated;
    RunSnoc(BY_CLASS, log, a);
    ApplyNames(Run(BY_CLASS, log), a, target);
  }

  lemma ApplyNames(d: Dir, a: Item, target: seq<Byte>)
    requires ItemOk(a) && !IsNoop(a.tag) && (IsName(a.tag) ==> !IsDelete(a.tag))
    ensures var s, s', t := d.entries, Apply(BY_CLASS, d, a).entries, a.tag;
      && (t.typ == CREATE ==> s' == InsertAt(s, t.id))
      && (t.typ == DELETE ==> s' == RemoveAt(s, t.id))
      && (IsName(t) && (t.id < |s| ==> !Named(s[t.id])) ==>
            && GotName(s, s', t.id) && s'[t.id][NAME_CLASS].typ == t.typ
            && Place(s'[t.id], target) == if Regular(t.typ) then NameCmp(a.data, target) else Lt)
      && (!IsSplice(t) && !IsName(t) ==> SameNames(s, s', target))
      && (!IsSplice(t) && |s| < |s'| ==> IsEntryTag(t) && t.id >= |s|)
  {
    hide NameCmp;
  }

  // ----- the search

  lemma TidyParts(log: seq<Item>, i: nat)
    requires Tidy(log) && i < |log|
    ensures Tidy(log[..i]) && MayFollow(log[..i], log[i]) && log[..i + 1] == log[..i] + [log[i]]
    ensures Sorted(Names(log[..i + 1])) && |Names(log[..i + 1])| <= NO_ID
  {
    hide MayFollow, Sorted, Names;
    if i + 1 < |log| {
      assert log[..|log| - 1][..i] == log[..i] && log[..|log| - 1][..i + 1] == log[..i + 1];
      TidyParts(log[..|log| - 1], i);
    } else {
      assert log[..i + 1] == log;
    }
  }

  /** What the loop keeps after the tags of `log`. */
  predicate Searched(best: Best, log: seq<Item>, target: seq<Byte>) {
    && Tracks(best, Names(log), target)
    && (NoSplices(log) && best.Bound? ==> best.tag.id < |Names(log)|)
    && (log != [] && log[|log| - 1].tag.typ == CREATE ==>
          var id := log[|log| - 1].tag.id;
          && id < |Names(log)| && !Named(Names(log)[id])
          && (!best.Unset? ==> best.tag.id != id))
  }

  lemma SearchStep(best: Best, log: seq<Item>, a: Item, target: seq<Byte>)
    requires Searched(best, log, target) && MayFollow(log, a)
    requires Sorted(Names(log)) && Sorted(Names(log + [a])) && |Names(log + [a])| <= NO_ID
    ensures Searched(Next(best, a, target), log + [a], target)
  {
    hide Place, NameCmp, Run, Names, Sorted, Spliced, Tracks;
    var s, s', t := Names(log), Names(log + [a]), a.tag;
    NamesStep(log, a, target);
    SplicesOf(log, a);
    if t.typ == CREATE {
      CreateStep(s, best, t, target);
    } else if t.typ == DELETE {
      DeleteStep(s, best, t, target);
    } else if IsName(t) {
      if !JustCreated(log, t.id) {
        Apart(best, s, t.id, target);
      }
      NameStep(s, s', best, t, target);
    } else {
      OtherStep(s, s', best, target);
    }
  }

  lemma SplicesOf(log: seq<Item>, a: Item)
    ensures NoSplices(log + [a]) ==> NoSplices(log) && !IsSplice(a.tag)
  {
    if NoSplices(log + [a]) {
      assert (log + [a])[|log|] == a;
      assert forall i :: 0 <= i < |log| ==> (log + [a])[i] == log[i];
    }
  }

  lemma Apart(best: Best, s: seq<Entry>, id: nat, target: seq<Byte>)
    requires Tracks(best, s, target) && (id < |s| ==> !Named(s[id])) && (best.Bound? ==> best.tag.id < |s|)
    ensures !best.Unset? ==> best.tag.id != id
  {
  }

  /** One round of the loop. */
  function Next(best: Best, a: Item, target: seq<Byte>): Best {
    if Type1(a.tag) == SPLICE_CLASS then Spliced(best, a.tag)
    else if a.tag.typ / 0x80 == 0 then Compared(best, a.tag, NameCmp(a.data, target))
    else best
  }

  function BestOf(log: seq<Item>, target: seq<Byte>): Best {
    if log == [] then Unset else Next(BestOf(log[..|log| - 1], target), log[|log| - 1], target)
  }

  /** The candidate over a whole log. */
  method Search(log: seq<Item>, target: seq<Byte>) returns (best: Best)
    requires Tidy(log)
    ensures best == BestOf(log, target) && Tracks(best, Names(log), target)
  {
    hide Tidy, Names, Tracks, Sorted, MayFollow, Spliced, Compared;
    best := Unset;
    SearchedNone(target);
    for i := 0 to |log|
      invariant best == BestOf(log[..i], target)
      invariant Searched(best, log[..i], target) && Sorted(Names(log[..i]))
    {
      var t := log[i].tag;
      assert log[..i + 1][..i] == log[..i];
      TidyParts(log, i);
      SearchStep(best, log[..i], log[i], target);
      if Type1(t) == SPLICE_CLASS {
        best := Spliced(best, t);
      } else if t.typ / 0x80 == 0 {
        var res := Match(log[i].data, target);
        best := Compared(best, t, res);
      }
    }
    assert log[..|log|] == log;
  }

  lemma SearchedNone(target: seq<Byte>)
    ensures Searched(Unset, [], target) && Sorted(Names([]))
  {
  }

  // ----- how many entries

  /** The count against the entries: right once the log is past its compacted part. */
  predicate Counted(d: Dir, spliced: bool) {
    && 0 <= d.count <= |d.entries|
    && (forall j :: 0 <= j < |d.entries| && Named(d.entries[j]) ==> j < d.count)
    && (spliced ==> d.count == |d.entries|)
  }

  lemma CountedStep(log: seq<Item>, a: Item)
    requires MayFollow(log, a) && Counted(Run(BY_CLASS, log), !NoSplices(log))
    ensures Counted(Run(BY_CLASS, log + [a]), !NoSplices(log + [a]))
  {
    hide Run, JustCreated;
    var d := Run(BY_CLASS, log);
    RunSnoc(BY_CLASS, log, a);
    if Full(d.entries) && d.entries != [] {
      assert Named(d.entries[|d.entries| - 1]);
    }
    if NoSplices(log) && !IsSplice(a.tag) {
      assert NoSplices(log + [a]);
    }
    CountedApply(d, a, !NoSplices(log));
  }

  lemma CountedApply(d: Dir, a: Item, spliced: bool)
    requires Counted(d, spliced) && ItemOk(a) && !IsNoop(a.tag)
    requires IsSplice(a.tag) ==>
               d.count == |d.entries| && if a.tag.typ == CREATE then a.tag.id <= d.count else a.tag.id < d.count
    requires IsEntryTag(a.tag) && a.tag.id >= |d.entries| ==> !spliced
    requires IsName(a.tag) ==> !IsDelete(a.tag)
    ensures Counted(Apply(BY_CLASS, d, a), spliced || IsSplice(a.tag))
  {
  }

  lemma {:induction false} CountedAll(log: seq<Item>)
    requires Tidy(log)
    ensures Counted(Run(BY_CLASS, log), !NoSplices(log))
    ensures Full(Names(log)) ==> Run(BY_CLASS, log).count == |Names(log)|
  {
    hide MayFollow, Sorted;
    if log != [] {
      var n := |log| - 1;
      CountedAll(log[..n]);
      CountedStep(log[..n], log[n]);
      assert log == log[..n] + [log[n]];
    }
    var s := Names(log);
    if Full(s) && s != [] {
      assert Named(s[|s| - 1]);
    }
  }

  // ----- the answer

  datatype Result = Found(tag: Tag) | NoEnt | Further

  /** No name here is the one looked for, and `id` is its place among them. */
  predicate Belongs(s: seq<Entry>, id: nat, target: seq<Byte>) {
    && id <= |s|
    && (forall j :: 0 <= j < id && Named(s[j]) ==> Place(s[j], target) == Lt)
    && (forall j :: id <= j < |s| && Named(s[j]) ==> Place(s[j], target) == Gt)
  }

  predicate AllLess(s: seq<Entry>, target: seq<Byte>) {
    forall j :: 0 <= j < |s| && Named(s[j]) ==> Place(s[j], target) == Lt
  }

  /** The tag is that of the name of an entry, which is the one looked for. */
  predicate IsEntry(s: seq<Entry>, t: Tag, target: seq<Byte>) {
    t.id < |s| && Named(s[t.id]) && Place(s[t.id], target) == Eq && s[t.id][NAME_CLASS].typ == t.typ
  }

  /** After some tag of the log there was a name here that is not less. */
  predicate OnceNotLess(log: seq<Item>, target: seq<Byte>) {
    exists i :: 0 <= i <= |log| && !AllLess(Names(log[..i]), target)
  }

  function Without(s: seq<Entry>, move: int): seq<Entry> {
    if 0 <= move < |s| then RemoveAt(s, move) else s
  }

  /** The end of a fetch: a pending move (`move`, or -1) counts as one more delete; `id` is where the
      name would be created. The search goes on in the next pair exactly if all names here are less,
      unless a move is pending and some name that is not less was ever in this log.
   */
  method FetchMatch(log: seq<Item>, target: seq<Byte>, move: int) returns (r: Result, id: nat)
    requires Tidy(log) && Full(Names(log)) && Sorted(Names(log)) && -1 <= move < |Names(log)| <= NO_ID
    ensures r.Found? ==> IsEntry(Without(Names(log), move), r.tag, target) && id == r.tag.id
    ensures !r.Found? ==>
      var s := Without(Names(log), move);
      Belongs(s, if id <= |s| then id else |s|, target) && (move < 0 ==> id <= |s|)
    ensures !r.Found? ==>
      (r.Further? <==> AllLess(Names(log), target) && !(move >= 0 && OnceNotLess(log, target)))
  {
    hide Tidy, Names, Sorted, Place, Spliced, BestOf;
    var best := Search(log, target);
    ghost var before := best;
    CountedAll(log);
    var count := Run(BY_CLASS, log).count;
    if move >= 0 {
      if move == BestId(best) {
        best := if best.Unset? then Unset else Bound(best.tag);
      } else if !best.Unset? && move < BestId(best) {
        best := if best.Hit? then Hit(AddId(best.tag, -1)) else Bound(AddId(best.tag, -1));
      }
      MoveStep(Names(log), before, move, target);
    }
    Bounds(Names(log), before, target);
    UnsetIff(log, target);
    Bounds(Without(Names(log), move), best, target);
    id := if BestId(best) < count then BestId(best) else count;
    if best.Hit? {
      return Found(best.tag), id;
    } else if BestId(best) < count {
      return NoEnt, id;
    }
    return Further, id;
  }

  lemma OnceSnoc(log: seq<Item>, target: seq<Byte>)
    requires log != []
    ensures OnceNotLess(log, target) <==> OnceNotLess(log[..|log| - 1], target) || !AllLess(Names(log), target)
  {
    hide AllLess, Names;
    var init := log[..|log| - 1];
    assert log[..|log|] == log;
    assert forall i :: 0 <= i <= |init| ==> init[..i] == log[..i];
    if OnceNotLess(init, target) {
      var i :| 0 <= i <= |init| && !AllLess(Names(init[..i]), target);
      assert !AllLess(Names(log[..i]), target);
    }
    if OnceNotLess(log, target) {
      var i :| 0 <= i <= |log| && !AllLess(Names(log[..i]), target);
      if i < |log| {
        assert !AllLess(Names(init[..i]), target);
      }
    }
  }

  /** A candidate once set is not lost again. */
  lemma StaysSet(best: Best, log: seq<Item>, a: Item, target: seq<Byte>)
    requires Searched(best, log, target) && MayFollow(log, a) && !best.Unset?
    ensures !Next(best, a, target).Unset?
  {
    hide NameCmp, Names, Tracks, AddId;
    if IsName(a.tag) && !JustCreated(log, a.tag.id) {
      Apart(best, Names(log), a.tag.id, target);
    }
  }

  /** It is set by the first name that is not less. */
  lemma FirstSet(log: seq<Item>, a: Item, target: seq<Byte>)
    requires Searched(Unset, log, target) && MayFollow(log, a) && Searched(Next(Unset, a, target), log + [a], target)
    ensures Next(Unset, a, target).Unset? <==> AllLess(Names(log + [a]), target)
  {
    hide NameCmp, Names, Place, Sorted;
    NamesStep(log, a, target);
    if Next(Unset, a, target).Bound? && IsName(a.tag) {
      assert a.tag.id < |Names(log + [a])| && Named(Names(log + [a])[a.tag.id]);
    }
  }

  /** The candidate is unset exactly if no name in the log was ever other than less. */
  lemma {:induction false} UnsetIff(log: seq<Item>, target: seq<Byte>)
    requires Tidy(log)
    ensures Searched(BestOf(log, target), log, target) && Sorted(Names(log))
    ensures BestOf(log, target).Unset? <==> !OnceNotLess(log, target)
  {
    hide Names, Sorted, MayFollow, Searched, AllLess, OnceNotLess, Next;
    if log == [] {
      SearchedNone(target);
      NoneOnce(target);
    } else {
      var init, a := log[..|log| - 1], log[|log| - 1];
      assert log == init + [a];
      UnsetIff(init, target);
      SearchStep(BestOf(init, target), init, a, target);
      OnceSnoc(log, target);
      if BestOf(init, target).Unset? {
        FirstSet(init, a, target);
      } else {
        StaysSet(BestOf(init, target), init, a, target);
      }
    }
  }

  lemma NoneOnce(target: seq<Byte>)
    ensures !OnceNotLess([], target)
  {
    assert Names([]) == [];
  }

  lemma MoveStep(s: seq<Entry>, best: Best, move: nat, target: seq<Byte>)
    requires Tracks(best, s, target) && Full(s) && Sorted(s) && move < |s| <= NO_ID
    ensures var best' := if best.Unset? then best
      else if move == best.tag.id then Bound(best.tag)
      else if move > best.tag.id then best
      else if best.Hit? then Hit(AddId(best.tag, -1)) else Bound(AddId(best.tag, -1));
      Tracks(best', RemoveAt(s, move), target)
    ensures !best.Unset? && move < best.tag.id ==> AddId(best.tag, -1).id == best.tag.id - 1
  {
    var t := Tag(DELETE, move, 0);
    SpliceSigns(t);
    DeleteStep(s, best, t, target);
    if !best.Unset? && move < best.tag.id {
      AddIdInRange(best.tag, -1);
    }
  }

  /** What the candidate means when the directory is complete. */
  lemma Bounds(s: seq<Entry>, best: Best, target: seq<Byte>)
    requires Tracks(best, s, target) && |s| <= NO_ID
    ensures best.Unset? ==> AllLess(s, target) && Belongs(s, |s|, target)
    ensures best.Bound? ==> Belongs(s, best.tag.id, target) && (best.tag.id < |s| <==> !AllLess(s, target))
    ensures best.Hit? ==> !AllLess(s, target)
  {
    hide Place;
  }

  // ----- creating the name there

  /** A name created where it belongs leaves the directory in order. */
  lemma CreatedInOrder(s: seq<Entry>, id: nat, e: Entry)
    requires Sorted(s) && Named(e) && Regular(e[NAME_CLASS].typ) && Belongs(s, id, e[NAME_CLASS].data)
    ensures Sorted(s[..id] + [e] + s[id..])
  {
    hide NameCmp;
    var r, target := s[..id] + [e] + s[id..], e[NAME_CLASS].data;
    assert forall k :: 0 <= k < |r| ==> r[k] == if k < id then s[k] else if k == id then e else s[k - 1];
    forall i, j | 0 <= i < j < |r| && Named(r[i]) && Named(r[j]) ensures Precedes(r[i], r[j]) {
      if i == id {
        assert Place(s[j - 1], target) == Gt;
        CmpFlip(target, r[j][NAME_CLASS].data);
      } else if j == id {
        assert Place(s[i], target) == Lt;
      } else {
        assert Precedes(s[if i < id then i else i - 1], s[if j < id then j else j - 1]);
      }
    }
  }

  lemma TidySnoc(log: seq<Item>, a: Item)
    requires Tidy(log) && MayFollow(log, a) && Sorted(Names(log + [a])) && |Names(log + [a])| <= NO_ID
    ensures Tidy(log + [a])
  {
    hide MayFollow, Sorted, Names;
    assert (log + [a])[..|log|] == log;
  }

  /** Creating the name at the place found keeps the log as it should be, so the next search is right. */
  lemma CreateKeepsTidy(log: seq<Item>, id: nat, a: Item)
    requires Tidy(log) && Full(Names(log)) && Sorted(Names(log)) && |Names(log)| < NO_ID
    requires ItemOk(a) && !IsNoop(a.tag) && IsName(a.tag) && Regular(a.tag.typ) && !IsDelete(a.tag) && a.tag.id == id
    requires Belongs(Names(log), id, a.data)
    ensures var log' := log + [Item(Tag(CREATE, id, 0), [])] + [a];
      && Tidy(log') && Full(Names(log')) && Sorted(Names(log'))
      && Names(log') == Names(log)[..id] + [map[NAME_CLASS := ValueOf(a)]] + Names(log)[id..]
  {
    hide NameCmp, Place, Precedes, Tidy, Belongs, Names, InsertAt, Sorted;
    var c, s := Item(Tag(CREATE, id, 0), []), Names(log);
    var mid, e: Entry := log + [c], map[NAME_CLASS := ValueOf(a)];
    BelongsWithin(s, id, a.data);
    NamesStep(log, c, a.data);
    InsertedAt(s, id);
    SortedWithGap(s, Names(mid), id);
    TidySnoc(log, c);
    NamedAt(mid, id, a);
    assert Names(mid + [a]) == s[..id] + [e] + s[id..];
    CreatedInOrder(s, id, e);
    TidySnoc(mid, a);
  }

  lemma BelongsWithin(s: seq<Entry>, id: nat, target: seq<Byte>)
    requires Belongs(s, id, target)
    ensures id <= |s|
  {
  }

  function WithGap(s: seq<Entry>, id: nat, k: nat): Entry
    requires id <= |s| && k <= |s|
  {
    if k < id then s[k] else if k == id then map[] else s[k - 1]
  }

  lemma InsertedAt(s: seq<Entry>, id: nat)
    requires id <= |s|
    ensures |InsertAt(s, id)| == |s| + 1
    ensures forall k :: 0 <= k <= |s| ==> InsertAt(s, id)[k] == WithGap(s, id, k)
  {
  }

  lemma NamedAt(log: seq<Item>, id: nat, a: Item)
    requires ItemOk(a) && !IsNoop(a.tag) && IsName(a.tag) && !IsDelete(a.tag) && a.tag.id == id
    requires id < |Names(log)| && Names(log)[id] == map[]
    ensures Names(log + [a]) == Names(log)[id := map[NAME_CLASS := ValueOf(a)]]
  {
    hide Run;
    RunSnoc(BY_CLASS, log, a);
  }

  lemma SortedWithGap(s: seq<Entry>, s1: seq<Entry>, id: nat)
    requires Sorted(s) && id <= |s| && |s1| == |s| + 1
    requires forall k :: 0 <= k <= |s| ==> s1[k] == WithGap(s, id, k)
    ensures Sorted(s1)
  {
    hide Precedes;
    assert s1[id] == WithGap(s, id, id);
    forall i, j | 0 <= i < j < |s1| && Named(s1[i]) && Named(s1[j]) ensures Precedes(s1[i], s1[j]) {
      assert i != id && j != id;
      assert Precedes(s[if i < id then i else i - 1], s[if j < id then j else j - 1]);
    }
  }

  lemma DeleteKeepsTidy(log: seq<Item>, id: nat)
    requires Tidy(log) && Full(Names(log)) && Sorted(Names(log)) && id < |Names(log)| <= NO_ID
    ensures var log' := log + [Item(Tag(DELETE, id, 0), [])];
      Tidy(log') && Full(Names(log')) && Sorted(Names(log')) && Names(log') == RemoveAt(Names(log), id)
  {
    hide NameCmp, Place, Precedes, Tidy, Run;
    var c, s := Item(Tag(DELETE, id, 0), []), Names(log);
    NamesStep(log, c, []);
    var s1 := Names(log + [c]);
    assert forall k :: 0 <= k < |s1| ==> s1[k] == if k < id then s[k] else s[k + 1];
    forall i, j | 0 <= i < j < |s1| && Named(s1[i]) && Named(s1[j]) ensures Precedes(s1[i], s1[j]) {
      assert Precedes(s[if i < id then i else i + 1], s[if j < id then j else j + 1]);
    }
    TidySnoc(log, c);
  }

  function NameItem(id: nat, c: Byte): Item {
    Item(Tag(1, id, 1), [c])
  }

  /** The names "a" and "m", then "m" deleted: if "m" has since been created in the next pair and "a" is
      to be moved away, the search for "m" stops before it gets there.
   */
  lemma StopsEarly(log: seq<Item>)
    requires log == [NameItem(0, 0x61), NameItem(1, 0x6d), Item(Tag(DELETE, 1, 0), [])]
    ensures Tidy(log) && Full(Names(log)) && |Names(log)| == 1
    ensures AllLess(Names(log), [0x6d]) && OnceNotLess(log, [0x6d])
  {
    var a, b, c := log[0], log[1], log[2];
    assert log[..2] == [a, b] && [a, b][..1] == [a] && [a][..0] == [];
    assert Run(BY_CLASS, [a]).entries == [map[0 := ValueOf(a)]];
    assert Run(BY_CLASS, [a, b]).entries == [map[0 := ValueOf(a)], map[0 := ValueOf(b)]];
    assert Names(log) == [map[0 := ValueOf(a)]];
    assert !AllLess(Names(log[..2]), [0x6d]) by {
      assert Named(Names(log[..2])[1]) && Place(Names(log[..2])[1], [0x6d]) == Eq;
    }
    assert Tidy([]) && Tidy([a]) && Tidy([a, b]);
  }
}
