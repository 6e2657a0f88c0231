/** The traversal when some pending attributes are sources: a move, which stands for the attributes of
    an entry of another log, and a list of user attributes in memory. A source is expanded when the
    traversal comes to it, and filtered as a whole; the scans ahead see it expanded.
 */
module Sources {
  import opened Basics
  import opened Tags
  import opened Replay
  import opened Compaction
  import R = Rename

  const FROM_MOVE := 0x101
  const FROM_USERATTRS := 0x102

  datatype Source = Plain(a: Item) | Move(log: seq<Item>, fromid: nat, toid: nat) | Users(id: nat, attrs: seq<Item>)

  /** The tag a source is filtered by. */
  function FromTag(s: Source): Tag {
    match s
    case Plain(a) => a.tag
    case Move(_, fromid, toid) => Tag(FROM_MOVE, toid, fromid)
    case Users(id, attrs) => Tag(FROM_USERATTRS, id, |attrs|)
  }

  /** What a source stands for, up to the id. */
  function Body(s: Source): seq<Item> {
    match s
    case Plain(a) => [a]
    case Move(log, fromid, _) => R.MoveItems(log, fromid, 0)
    case Users(_, attrs) => attrs
  }

  function Renumbered(items: seq<Item>, id: nat): (r: seq<Item>)
    ensures |r| == |items| && forall i :: 0 <= i < |r| ==> r[i] == items[i].(tag := items[i].tag.(id := id))
  {
    seq(|items|, i requires 0 <= i < |items| => items[i].(tag := items[i].tag.(id := id)))
  }

  function Expand(s: Source): seq<Item> {
    if s.Plain? then [s.a] else Renumbered(Body(s), FromTag(s).id)
  }

  function ExpandAll(ss: seq<Source>): seq<Item> {
    if ss == [] then [] else Expand(ss[0]) + ExpandAll(ss[1..])
  }

  /** A source of structs and user attributes, none of them a deletion. */
  predicate SourceOk(s: Source) {
    s.Plain? ||
    (&& FromTag(s).Ok()
     && forall i :: 0 <= i < |Body(s)| ==> Body(s)[i].tag.typ / 0x200 == 1 && !IsDelete(Body(s)[i].tag))
  }

  /** The tag of a source does not itself read as a deletion, as one of 0x3ff attributes does. */
  predicate Countable(ss: seq<Source>) {
    forall k :: 0 <= k < |ss| ==> ss[k].Plain? || !IsDelete(FromTag(ss[k]))
  }

  /** The types of sources are not used for anything on disk. */
  predicate NoSourceTypes(items: seq<Item>) {
    forall i :: 0 <= i < |items| ==> !(0x100 <= items[i].tag.typ < 0x200)
  }

  ghost predicate SourcesOk(disk: seq<Item>, ss: seq<Source>) {
    && WellFormed(disk + ExpandAll(ss)) && NoSourceTypes(disk + ExpandAll(ss))
    && forall k :: 0 <= k < |ss| ==> SourceOk(ss[k])
  }

  // ----- what the traversal computes

  /** The items left of one source, with `rest` behind it. */
  function Heads(s: Source, rest: seq<Item>): seq<Item> {
    if s.Plain? then LiveHead([s.a] + rest)
    else
      match Survivor(FromTag(s), rest)
      case None => []
      case Some(t) => Renumbered(Body(s), t.id)
  }

  function Emitted(ss: seq<Source>): seq<Item> {
    if ss == [] then [] else Heads(ss[0], ExpandAll(ss[1..])) + Emitted(ss[1..])
  }

  /** The items of `x` that are left with `y` behind them. */
  function LiveBefore(x: seq<Item>, y: seq<Item>): seq<Item> {
    if x == [] then [] else LiveHead(x + y) + LiveBefore(x[1..], y)
  }

  lemma {:induction false} LiveConcat(x: seq<Item>, y: seq<Item>)
    ensures Live(x + y) == LiveBefore(x, y) + Live(y)
  {
    hide LiveHead;
    if x == [] {
      assert x + y == y && [] + Live(y) == Live(y);
    } else {
      LiveConcat(x[1..], y);
      assert (x + y)[1..] == x[1..] + y;
      assert Live(x + y) == LiveHead(x + y) + Live(x[1..] + y);
    }
  }

  lemma {:induction false} WindowConcat(x: seq<Item>, y: seq<Item>, begin: nat, end: nat)
    ensures Window(x + y, begin, end) == Window(x, begin, end) + Window(y, begin, end)
  {
    hide Window;
    if y == [] {
      WindowNone(begin, end);
      assert x + y == x;
    } else {
      var n := |y| - 1;
      WindowConcat(x, y[..n], begin, end);
      assert x + y == x + y[..n] + [y[n]] && y == y[..n] + [y[n]];
      WindowSnoc(x + y[..n], y[n], begin, end);
      WindowSnoc(y[..n], y[n], begin, end);
    }
  }

  lemma RenumberedNone()
    ensures forall x: nat :: Renumbered([], x) == []
  {
  }

  lemma RenumberedSnoc(items: seq<Item>, a: Item, id: nat)
    ensures Renumbered(items + [a], id) == Renumbered(items, id) + [a.(tag := a.tag.(id := id))]
  {
  }

  lemma {:induction false} WindowOne(items: seq<Item>, id: nat, begin: nat, end: nat)
    requires forall i :: 0 <= i < |items| ==> items[i].tag.id == id
    ensures Window(items, begin, end) == if begin <= id < end then Renumbered(items, id - begin) else []
  {
    hide Window, Renumbered;
    if items == [] {
      WindowNone(begin, end);
      RenumberedNone();
    } else {
      var n := |items| - 1;
      WindowOne(items[..n], id, begin, end);
      assert items == items[..n] + [items[n]];
      WindowSnoc(items[..n], items[n], begin, end);
      if begin <= id < end {
        RenumberedSnoc(items[..n], items[n], id - begin);
      }
    }
  }

  lemma {:induction false} SurvivorConcat(t: Tag, x: seq<Item>, y: seq<Item>)
    ensures Survivor(t, x + y) == match Survivor(t, x) case None => None case Some(u) => Survivor(u, y)
    decreases x
  {
    if x == [] {
      assert x + y == y;
    } else {
      assert (x + y)[1..] == x[1..] + y;
      if IsNoop(x[0].tag) {
        SurvivorConcat(t, x[1..], y);
      } else if !Redundant(x[0].tag, t) {
        SurvivorConcat(Adjusted(x[0].tag, t), x[1..], y);
      }
    }
  }

  // ----- following an entry

  /** The entry at `id` keeps an id that a tag can hold. */
  predicate Bounded(rest: seq<Item>, id: nat) {
    && id < NO_ID
    && (rest != [] ==>
          match Moved(rest[0].tag, id)
          case None => true
          case Some(p) => Bounded(rest[1..], p))
  }

  /** A later tag writes the attribute of the tag, wherever its entry has moved to. */
  predicate Overwritten(rest: seq<Item>, t: Tag) {
    && rest != []
    && (Writes(rest[0].tag, t) ||
        match Moved(rest[0].tag, t.id)
        case None => false
        case Some(p) => Overwritten(rest[1..], t.(id := p)))
  }

  predicate Writes(later: Tag, t: Tag) {
    IsEntryTag(later) && later.id == t.id && Key(Unique, later.typ) == Key(Unique, t.typ)
  }

  lemma {:induction false} BoundedWithin(log: seq<Item>, j: nat, id: nat)
    requires WellFormed(log) && j <= |log| && id < |Run(Unique, log[..j]).entries|
    ensures Bounded(log[j..], id)
    decreases |log| - j
  {
    if j < |log| {
      var a, d := log[j], Run(Unique, log[..j]);
      assert log[..j + 1] == log[..j] + [a] && log[j..][1..] == log[j + 1..];
      RunSnoc(Unique, log[..j], a);
      match Moved(a.tag, id)
      case None =>
      case Some(p) =>
        MovedWithin(d, a, id);
        BoundedWithin(log, j + 1, p);
    }
  }

  lemma MovedWithin(d: Dir, a: Item, id: nat)
    requires id < |d.entries| && Moved(a.tag, id).Some?
    ensures Moved(a.tag, id).value < |Apply(Unique, d, a).entries|
  {
  }

  lemma BoundedFrom(log: seq<Item>, i: nat)
    requires WellFormed(log) && i < |log| && IsEntryTag(log[i].tag)
    ensures Bounded(log[i + 1..], log[i].tag.id)
  {
    assert log[..i + 1] == log[..i] + [log[i]];
    RunSnoc(Unique, log[..i], log[i]);
    BoundedWithin(log, i + 1, log[i].tag.id);
  }

  predicate IsFrom(t: Tag) {
    t.Ok() && (t.typ == FROM_MOVE || t.typ == FROM_USERATTRS) && !IsDelete(t)
  }

  predicate IsCargo(t: Tag) {
    t.Ok() && t.typ / 0x200 == 1 && !IsDelete(t)
  }

  lemma FromRedundant(later: Tag, u: Tag)
    requires IsFrom(u) && !(0x100 <= later.typ < 0x200)
    ensures Redundant(later, u) <==> later.typ == DELETE && later.id == u.id
  {
  }

  lemma CargoRedundant(later: Tag, v: Tag)
    requires IsCargo(v) && !IsNoop(later)
    ensures Redundant(later, v) <==> Writes(later, v) || (later.typ == DELETE && later.id == v.id)
  {
    SameAttribute(later, v);
  }

  /** The tag of a source and an item of it go the same way, but that the item may be overwritten. */
  lemma {:induction false} Lockstep(u: Tag, v: Tag, rest: seq<Item>)
    requires IsFrom(u) && IsCargo(v) && u.id == v.id && Bounded(rest, v.id) && NoSourceTypes(rest)
    requires forall i :: 0 <= i < |rest| ==> ItemOk(rest[i])
    ensures Survivor(v, rest).Some? <==> Survivor(u, rest).Some? && !Overwritten(rest, v)
    ensures Survivor(v, rest).Some? ==> Survivor(v, rest).value == v.(id := Survivor(u, rest).value.id)
    decreases rest
  {
    hide Redundant, Adjusted, Writes;
    if rest != [] {
      var r, more := rest[0].tag, rest[1..];
      assert NoSourceTypes(more);
      if IsNoop(r) {
        NoWrite(r, v);
        assert v.(id := v.id) == v;
        Lockstep(u, v, more);
      } else {
        FromRedundant(r, u);
        CargoRedundant(r, v);
        if !Redundant(r, u) {
          AdjustedIsMoved(r, u);
          if !Redundant(r, v) {
            AdjustedIsMoved(r, v);
            Lockstep(Adjusted(r, u), Adjusted(r, v), more);
          }
        }
      }
    }
  }

  lemma NoWrite(later: Tag, t: Tag)
    requires IsNoop(later)
    ensures !Writes(later, t)
  {
  }

  // ----- when expanding late is expanding early

  /** The items of the source in range are written by nothing behind them. */
  predicate Undisturbed(s: Source, rest: seq<Item>, begin: nat, end: nat) {
    s.Plain? ||
    match Survivor(FromTag(s), rest)
    case None => true
    case Some(t) =>
      begin <= t.id < end ==>
        forall j :: 0 <= j < |Body(s)| ==> !Overwritten(Expand(s)[j + 1..] + rest, Expand(s)[j].tag)
  }

  predicate AllUndisturbed(ss: seq<Source>, begin: nat, end: nat) {
    forall k :: 0 <= k < |ss| ==> Undisturbed(ss[k], ExpandAll(ss[k + 1..]), begin, end)
  }

  /** The items of a source do not bear on its tag. */
  lemma {:induction false} OwnPass(u: Tag, own: seq<Item>)
    requires IsFrom(u) && forall i :: 0 <= i < |own| ==> own[i].tag.typ / 0x200 == 1
    ensures Survivor(u, own) == Some(u)
  {
    if own != [] {
      FromRedundant(own[0].tag, u);
      OwnPass(u, own[1..]);
    }
  }

  /** A source in its place in a log. */
  ghost predicate InPlace(pre: seq<Item>, s: Source, rest: seq<Item>) {
    && WellFormed(pre + Expand(s) + rest) && NoSourceTypes(pre + Expand(s) + rest)
    && SourceOk(s) && !s.Plain? && !IsDelete(FromTag(s))
  }

  lemma ItemLeft(pre: seq<Item>, s: Source, rest: seq<Item>, j: nat)
    requires InPlace(pre, s, rest) && !s.Plain? && j < |Body(s)|
    ensures var e, later, left := Expand(s)[j], Expand(s)[j + 1..] + rest, Survivor(FromTag(s), rest);
            && IsEntryTag(e.tag)
            && (Survivor(e.tag, later).Some? <==> left.Some? && !Overwritten(later, e.tag))
            && (Survivor(e.tag, later).Some? ==> Survivor(e.tag, later).value == e.tag.(id := left.value.id))
  {
    hide Survivor, Overwritten, Bounded, WellFormed, InPlace, NoSourceTypes, Body;
    var u, x := FromTag(s), Expand(s);
    var later := x[j + 1..] + rest;
    ItemPlace(pre, s, rest, j);
    Lockstep(u, x[j].tag, later);
    OwnPass(u, x[j + 1..]);
    SurvivorConcat(u, x[j + 1..], rest);
  }

  lemma ItemPlace(pre: seq<Item>, s: Source, rest: seq<Item>, j: nat)
    requires InPlace(pre, s, rest) && !s.Plain? && j < |Body(s)|
    ensures var x := Expand(s);
            var later := x[j + 1..] + rest;
            && IsFrom(FromTag(s)) && IsCargo(x[j].tag) && x[j].tag.id == FromTag(s).id && IsEntryTag(x[j].tag)
            && Bounded(later, x[j].tag.id) && NoSourceTypes(later)
            && (forall i :: 0 <= i < |later| ==> ItemOk(later[i]))
            && (forall i :: 0 <= i < |x| ==> x[i].tag.typ / 0x200 == 1)
  {
    hide Bounded, Run, Body, ItemOk;
    var x := Expand(s);
    var log, i := pre + x + rest, |pre| + j;
    var later := x[j + 1..] + rest;
    assert log[i] == x[j] && log[i + 1..] == later;
    assert forall k :: 0 <= k < |later| ==> later[k] == log[i + 1 + k];
    CargoOk(log[i]);
    BoundedFrom(log, i);
  }

  lemma CargoOk(a: Item)
    requires ItemOk(a)
    ensures a.tag.Ok() && (a.tag.typ / 0x200 == 1 ==> IsEntryTag(a.tag))
  {
  }

  ghost predicate Spared(x: seq<Item>, rest: seq<Item>, j: nat) {
    forall i :: j <= i < |x| ==> !Overwritten(x[i + 1..] + rest, x[i].tag)
  }

  /** What is left of the items of a source from the j-th on: some of them, all under one id, and all of
      them exactly if none is overwritten.
   */
  ghost predicate LeftAre(left: seq<Item>, s: Source, rest: seq<Item>, j: nat, id: nat)
    requires !s.Plain? && j <= |Body(s)|
  {
    && |left| <= |Body(s)| - j && (forall i :: 0 <= i < |left| ==> left[i].tag.id == id)
    && (|left| == |Body(s)| - j <==> Spared(Expand(s), rest, j))
    && (|left| == |Body(s)| - j ==> left == Renumbered(Body(s)[j..], id))
  }

  lemma LeftNext(more: seq<Item>, s: Source, rest: seq<Item>, j: nat, id: nat)
    requires !s.Plain? && j < |Body(s)| && LeftAre(more, s, rest, j + 1, id)
    ensures var e := Body(s)[j].(tag := Body(s)[j].tag.(id := id));
            var gone := Overwritten(Expand(s)[j + 1..] + rest, Expand(s)[j].tag);
            LeftAre(if gone then more else [e] + more, s, rest, j, id)
  {
    hide Overwritten, Spared, Renumbered;
    SparedNext(Expand(s), rest, j);
    RenumberedFrom(Body(s), j, id);
  }

  lemma RenumberedFrom(items: seq<Item>, j: nat, id: nat)
    requires j < |items|
    ensures Renumbered(items[j..], id) == [items[j].(tag := items[j].tag.(id := id))] + Renumbered(items[j + 1..], id)
    ensures |Renumbered(items[j..], id)| == |items| - j
  {
  }

  lemma LeftNone(s: Source, rest: seq<Item>, id: nat)
    requires !s.Plain?
    ensures LeftAre([], s, rest, |Body(s)|, id)
  {
  }

  lemma {:induction false} ItemsLeft(pre: seq<Item>, s: Source, rest: seq<Item>, j: nat)
    requires InPlace(pre, s, rest) && !s.Plain? && j <= |Body(s)|
    ensures var left := LiveBefore(Expand(s)[j..], rest);
            match Survivor(FromTag(s), rest)
            case None => left == []
            case Some(t) => LeftAre(left, s, rest, j, t.id)
    decreases |Body(s)| - j
  {
    hide Survivor, Overwritten, LeftAre, InPlace, Body, LiveHead;
    var x := Expand(s);
    if j < |x| {
      ItemsLeft(pre, s, rest, j + 1);
      ItemLeft(pre, s, rest, j);
      var more := LiveBefore(x[j + 1..], rest);
      HeadOf(x, rest, j);
      if Survivor(FromTag(s), rest).Some? {
        var id := Survivor(FromTag(s), rest).value.id;
        assert x[j].(tag := x[j].tag.(id := id)) == Body(s)[j].(tag := Body(s)[j].tag.(id := id));
        assert [] + more == more;
        LeftNext(more, s, rest, j, id);
      }
    } else if Survivor(FromTag(s), rest).Some? {
      LeftNone(s, rest, Survivor(FromTag(s), rest).value.id);
    }
  }

  lemma HeadOf(x: seq<Item>, rest: seq<Item>, j: nat)
    requires j < |x| && IsEntryTag(x[j].tag)
    ensures LiveBefore(x[j..], rest) ==
            (match Survivor(x[j].tag, x[j + 1..] + rest) case None => [] case Some(t) => [x[j].(tag := t)]) +
            LiveBefore(x[j + 1..], rest)
  {
    hide Survivor;
    assert x[j..][1..] == x[j + 1..] && (x[j..] + rest)[1..] == x[j + 1..] + rest && (x[j..] + rest)[0] == x[j];
  }

  lemma SparedNext(x: seq<Item>, rest: seq<Item>, j: nat)
    requires j < |x|
    ensures Spared(x, rest, j) <==> Spared(x, rest, j + 1) && !Overwritten(x[j + 1..] + rest, x[j].tag)
  {
    hide Overwritten;
  }

  /** A list that is never longer than another one, and equal to it exactly under a condition. */
  ghost predicate Matches(x: seq<Item>, y: seq<Item>, condition: bool) {
    && |x| <= |y| && (|x| == |y| <==> condition) && (condition ==> x == y)
  }

  lemma SourceMatches(pre: seq<Item>, s: Source, rest: seq<Item>, begin: nat, end: nat)
    requires s.Plain? || InPlace(pre, s, rest)
    ensures Matches(Window(LiveBefore(Expand(s), rest), begin, end), Window(Heads(s, rest), begin, end),
                    Undisturbed(s, rest, begin, end))
  {
    hide Survivor, Overwritten, InPlace, Window;
    if s.Plain? {
      assert [s.a][1..] == [];
      assert LiveBefore([s.a], rest) == LiveHead([s.a] + rest);
      assert Heads(s, rest) == LiveBefore(Expand(s), rest);
    } else {
      ItemsLeft(pre, s, rest, 0);
      assert Expand(s)[0..] == Expand(s) && Body(s)[0..] == Body(s);
      match Survivor(FromTag(s), rest)
      case None =>
      case Some(t) =>
        WindowOne(LiveBefore(Expand(s), rest), t.id, begin, end);
        WindowOne(Renumbered(Body(s), t.id), t.id, begin, end);
    }
  }

  lemma {:induction false} AllMatch(pre: seq<Item>, ss: seq<Source>, begin: nat, end: nat)
    requires SourcesOk(pre, ss) && Countable(ss)
    ensures Matches(Window(Live(ExpandAll(ss)), begin, end), Window(Emitted(ss), begin, end),
                    AllUndisturbed(ss, begin, end))
    decreases |ss|
  {
    hide Undisturbed, Window, LiveBefore, Heads, WellFormed;
    if ss == [] {
      assert Live([]) == [];
    } else {
      var s, more := ss[0], ss[1..];
      var rest := ExpandAll(more);
      assert pre + ExpandAll(ss) == pre + Expand(s) + rest;
      assert forall k :: 0 <= k < |more| ==> more[k] == ss[k + 1];
      SourceMatches(pre, s, rest, begin, end);
      AllMatch(pre + Expand(s), more, begin, end);
      LiveConcat(Expand(s), rest);
      WindowConcat(LiveBefore(Expand(s), rest), Live(rest), begin, end);
      WindowConcat(Heads(s, rest), Emitted(more), begin, end);
      UndisturbedNext(ss, begin, end);
    }
  }

  lemma UndisturbedNext(ss: seq<Source>, begin: nat, end: nat)
    requires ss != []
    ensures AllUndisturbed(ss, begin, end) <==>
            Undisturbed(ss[0], ExpandAll(ss[1..]), begin, end) && AllUndisturbed(ss[1..], begin, end)
  {
    hide Undisturbed, ExpandAll;
    var more := ss[1..];
    assert forall k :: 0 <= k < |more| ==> more[k] == ss[k + 1] && more[k + 1..] == ss[k + 2..];
    if AllUndisturbed(more, begin, end) && Undisturbed(ss[0], ExpandAll(ss[1..]), begin, end) {
      forall k | 0 <= k < |ss| ensures Undisturbed(ss[k], ExpandAll(ss[k + 1..]), begin, end) {
        if k > 0 {
          assert Undisturbed(more[k - 1], ExpandAll(more[k - 1 + 1..]), begin, end);
        }
      }
    }
    if AllUndisturbed(ss, begin, end) {
      forall k | 0 <= k < |more| ensures Undisturbed(more[k], ExpandAll(more[k + 1..]), begin, end) {
        assert Undisturbed(ss[k + 1], ExpandAll(ss[k + 1 + 1..]), begin, end);
      }
    }
  }

  // ----- the traversal

  /** The nested traversal behind position i of the log and source k: the log, then each source expanded. */
  method ScanFrom(disk: seq<Item>, i: nat, ss: seq<Source>, k: nat, tag: Tag) returns (r: Option<Tag>)
    requires i <= |disk| && k <= |ss|
    ensures r == Survivor(tag, disk[i..] + ExpandAll(ss[k..]))
  {
    hide Survivor, Expand;
    r := Scan(disk, i, tag);
    SurvivorConcat(tag, disk[i..], ExpandAll(ss[k..]));
    var n := k;
    while n < |ss| && r.Some?
      invariant k <= n <= |ss|
      invariant Survivor(tag, disk[i..] + ExpandAll(ss[k..])) ==
                match r case None => None case Some(t) => Survivor(t, ExpandAll(ss[n..]))
    {
      assert ss[n..][1..] == ss[n + 1..];
      SurvivorConcat(r.value, Expand(ss[n]), ExpandAll(ss[n + 1..]));
      r := Scan(Expand(ss[n]), 0, r.value);
      assert Expand(ss[n])[0..] == Expand(ss[n]);
      n := n + 1;
    }
    if r.Some? {
      SurvivorNone(r.value);
    }
  }

  lemma SurvivorNone(t: Tag)
    ensures Survivor(t, []) == Some(t)
  {
  }

  /** One plain tag: filter it by type, by what is behind it and by range. */
  method VisitItem(a: Item, disk: seq<Item>, i: nat, ss: seq<Source>, k: nat, begin: nat, end: nat)
      returns (out: seq<Item>)
    requires i <= |disk| && k <= |ss|
    requires forall b :: b in LiveHead([a] + (disk[i..] + ExpandAll(ss[k..]))) ==> b.tag.Ok()
    ensures out == Window(LiveHead([a] + (disk[i..] + ExpandAll(ss[k..]))), begin, end)
  {
    hide Survivor, AddId, Window, ExpandAll;
    WindowNone(begin, end);
    ghost var rest := disk[i..] + ExpandAll(ss[k..]);
    if a.tag.typ >= 0x400 {
      return [];
    }
    assert ([a] + rest)[1..] == rest;
    var r := ScanFrom(disk, i, ss, k, a.tag);
    if r.None? || IsNoop(a.tag) {
      return [];
    }
    ghost var b := a.(tag := r.value);
    assert LiveHead([a] + rest) == [b] && b in LiveHead([a] + rest);
    WindowSnoc([], b, begin, end);
    if !(begin <= r.value.id < end) {
      return [];
    }
    AddIdInRange(r.value, 0 - begin);
    return [a.(tag := AddId(r.value, 0 - begin))];
  }

  /** One source: filter it as a whole, and hand on its items under the id it has then. */
  method VisitSource(ss: seq<Source>, k: nat, begin: nat, end: nat) returns (out: seq<Item>)
    requires k < |ss| && !ss[k].Plain?
    ensures out == Window(Heads(ss[k], ExpandAll(ss[k + 1..])), begin, end)
  {
    hide Survivor, Window, ExpandAll;
    WindowNone(begin, end);
    var s := ss[k];
    var r := ScanFrom([], 0, ss, k + 1, FromTag(s));
    assert [][0..] + ExpandAll(ss[k + 1..]) == ExpandAll(ss[k + 1..]);
    if r.None? {
      return [];
    }
    WindowOne(Renumbered(Body(s), r.value.id), r.value.id, begin, end);
    if !(begin <= r.value.id < end) {
      return [];
    }
    assert Renumbered(Renumbered(Body(s), r.value.id), r.value.id - begin) == Renumbered(Body(s), r.value.id - begin);
    return Renumbered(Body(s), r.value.id - begin);
  }

  lemma HeadOk(pre: seq<Item>, y: seq<Item>)
    requires WellFormed(pre + y) && y != []
    ensures forall b :: b in LiveHead(y) ==> b.tag.Ok()
  {
    hide LiveHead, LiveBefore, WellFormed;
    LiveRep(pre + y);
    LiveConcat(pre, y);
    assert forall b :: b in LiveHead(y) ==> b in Live(y);
    assert forall b :: b in Live(y) ==> b in Live(pre + y);
  }

  /** The log's own items, in the loop of the traversal. */
  method CollectDisk(disk: seq<Item>, ss: seq<Source>, begin: nat, end: nat) returns (out: seq<Item>)
    requires WellFormed(disk + ExpandAll(ss))
    ensures out == Window(LiveBefore(disk, ExpandAll(ss)), begin, end)
  {
    hide WellFormed, Window, LiveHead, ExpandAll;
    ghost var e := ExpandAll(ss);
    out := [];
    WindowNone(begin, end);
    ghost var seen := [];
    assert disk[0..] == disk && ss[0..] == ss;
    for i := 0 to |disk|
      invariant LiveBefore(disk, e) == seen + LiveBefore(disk[i..], e)
      invariant out == Window(seen, begin, end)
    {
      ghost var y := [disk[i]] + (disk[i + 1..] + e);
      assert disk[i..] + e == y && disk[i..][1..] == disk[i + 1..];
      assert disk + e == disk[..i] + y;
      HeadOk(disk[..i], y);
      var visited := VisitItem(disk[i], disk, i + 1, ss, 0, begin, end);
      WindowConcat(seen, LiveHead(y), begin, end);
      out := out + visited;
      seen := seen + LiveHead(y);
    }
    assert seen + [] == seen;
  }

  /** The pending attributes. */
  method CollectSources(ss: seq<Source>, begin: nat, end: nat, ghost disk: seq<Item>) returns (out: seq<Item>)
    requires WellFormed(disk + ExpandAll(ss))
    ensures out == Window(Emitted(ss), begin, end)
  {
    hide WellFormed, Window, LiveHead, Heads, Expand;
    out := [];
    WindowNone(begin, end);
    ghost var seen, pre := [], disk;
    assert ss[0..] == ss;
    for k := 0 to |ss|
      invariant Emitted(ss) == seen + Emitted(ss[k..])
      invariant out == Window(seen, begin, end)
      invariant WellFormed(pre + ExpandAll(ss[k..]))
    {
      ghost var rest := ExpandAll(ss[k + 1..]);
      assert ss[k..][1..] == ss[k + 1..];
      assert pre + ExpandAll(ss[k..]) == pre + Expand(ss[k]) + rest;
      var visited;
      if ss[k].Plain? {
        PlainHead(ss[k], rest);
        HeadOk(pre, [ss[k].a] + rest);
        assert pre + ([ss[k].a] + rest) == pre + Expand(ss[k]) + rest;
        assert [][0..] + rest == rest;
        visited := VisitItem(ss[k].a, [], 0, ss, k + 1, begin, end);
      } else {
        visited := VisitSource(ss, k, begin, end);
      }
      WindowConcat(seen, Heads(ss[k], rest), begin, end);
      out := out + visited;
      seen, pre := seen + Heads(ss[k], rest), pre + Expand(ss[k]);
    }
    assert seen + [] == seen;
  }

  lemma PlainHead(s: Source, rest: seq<Item>)
    requires s.Plain?
    ensures Expand(s) == [s.a] && Heads(s, rest) == LiveHead([s.a] + rest)
  {
  }

  /** The compacting traversal with sources. It emits what the traversal of the expanded attributes does,
      exactly if nothing behind a source writes one of its items.
   */
  method TraverseFrom(disk: seq<Item>, ss: seq<Source>, begin: nat, end: nat) returns (out: seq<Item>)
    requires SourcesOk(disk, ss) && begin <= end <= |Run(Unique, disk + ExpandAll(ss)).entries|
    ensures out == Window(LiveBefore(disk, ExpandAll(ss)) + Emitted(ss), begin, end)
    ensures Countable(ss) ==>
              (out == Window(Live(disk + ExpandAll(ss)), begin, end) <==> AllUndisturbed(ss, begin, end))
    ensures Countable(ss) && AllUndisturbed(ss, begin, end) ==> Compacts(disk + ExpandAll(ss), out, begin, end)
  {
    hide WellFormed, Window, LiveBefore, Emitted, ExpandAll, AllUndisturbed, Compacts;
    ghost var e := ExpandAll(ss);
    var first := CollectDisk(disk, ss, begin, end);
    var second := CollectSources(ss, begin, end, disk);
    out := first + second;
    WindowConcat(LiveBefore(disk, e), Emitted(ss), begin, end);
    LiveConcat(disk, e);
    WindowConcat(LiveBefore(disk, e), Live(e), begin, end);
    if Countable(ss) {
      AllMatch(disk, ss, begin, end);
    }
    WindowCompacts(disk + e, begin, end);
  }

  /** The output stands for the entries begin..end-1 of the log, with no stale tag. */
  ghost predicate Compacts(log: seq<Item>, out: seq<Item>, begin: nat, end: nat)
    requires begin <= end <= |Run(Unique, log).entries|
  {
    && WellFormed(out) && Preserved(log, out, begin, end) && NothingStale(log, out, begin)
    && OnlyEntries(out, end - begin) && (HasRemoval(out) <==> LeavesRemoval(log, begin, end))
    && (Named(log, begin, end) ==> Run(Unique, out) == Dir(end - begin, Run(Unique, log).entries[begin..end], map[]))
  }

  lemma WindowCompacts(log: seq<Item>, begin: nat, end: nat)
    requires WellFormed(log) && begin <= end <= |Run(Unique, log).entries|
    ensures Compacts(log, Window(Live(log), begin, end), begin, end)
  {
    hide WellFormed, Window, Live, Preserved, NothingStale, OnlyEntries, HasRemoval, LeavesRemoval, Run;
    WindowMeaning(log, begin, end);
    RemovalLeftIff(log, begin, end);
  }

  // ----- the attribute lists of the file system

  predicate DistinctKeys(items: seq<Item>) {
    forall i, j :: 0 <= i < j < |items| ==> Key(Unique, items[i].tag.typ) != Key(Unique, items[j].tag.typ)
  }

  lemma {:induction false} NotOverwritten(rest: seq<Item>, t: Tag)
    requires forall i :: 0 <= i < |rest| && IsEntryTag(rest[i].tag) ==>
               Key(Unique, rest[i].tag.typ) != Key(Unique, t.typ)
    ensures !Overwritten(rest, t)
    decreases rest
  {
    hide Key;
    if rest != [] && Moved(rest[0].tag, t.id).Some? {
      NotOverwritten(rest[1..], t.(id := Moved(rest[0].tag, t.id).value));
    }
  }

  predicate AllPlain(ss: seq<Source>) {
    forall k :: 0 <= k < |ss| ==> ss[k].Plain?
  }

  predicate NoEntryTags(items: seq<Item>) {
    forall i :: 0 <= i < |items| ==> !IsEntryTag(items[i].tag)
  }

  lemma SourceSpared(s: Source, rest: seq<Item>, begin: nat, end: nat)
    requires !s.Plain? && DistinctKeys(Body(s)) && NoEntryTags(rest)
    ensures Undisturbed(s, rest, begin, end)
  {
    hide Overwritten, Survivor, Key, DistinctKeys, NoEntryTags, Body;
    var x := Expand(s);
    KeysExpanded(s);
    forall j | 0 <= j < |Body(s)| ensures !Overwritten(x[j + 1..] + rest, x[j].tag) {
      SparedItem(x, rest, j);
    }
  }

  lemma KeysExpanded(s: Source)
    requires !s.Plain? && DistinctKeys(Body(s))
    ensures DistinctKeys(Expand(s))
  {
    hide Key, Body;
  }

  lemma SparedItem(x: seq<Item>, rest: seq<Item>, j: nat)
    requires j < |x| && DistinctKeys(x) && NoEntryTags(rest)
    ensures !Overwritten(x[j + 1..] + rest, x[j].tag)
  {
    hide Overwritten, Key;
    var later := x[j + 1..] + rest;
    forall i | 0 <= i < |later|
      ensures IsEntryTag(later[i].tag) ==> Key(Unique, later[i].tag.typ) != Key(Unique, x[j].tag.typ)
    {
      if i < |x| - (j + 1) {
        assert later[i] == x[j + 1 + i];
      } else {
        assert later[i] == rest[i - (|x| - (j + 1))];
      }
    }
    NotOverwritten(later, x[j].tag);
  }

  /** Nothing is disturbed where a source of different attributes is followed by creates and deletes
      only: the lists of a rename, and of writing a file's struct with its attributes.
   */
  lemma OneSource(before: seq<Source>, s: Source, after: seq<Source>, begin: nat, end: nat)
    requires AllPlain(before) && AllPlain(after) && !s.Plain? && DistinctKeys(Body(s)) && NoEntryTags(ExpandAll(after))
    ensures AllUndisturbed(before + [s] + after, begin, end)
  {
    hide ExpandAll, DistinctKeys, NoEntryTags;
    var ss := before + [s] + after;
    forall k | 0 <= k < |ss| ensures Undisturbed(ss[k], ExpandAll(ss[k + 1..]), begin, end) {
      if k == |before| {
        assert ss[k + 1..] == after;
        SourceSpared(s, ExpandAll(after), begin, end);
      } else if k < |before| {
        assert ss[k] == before[k];
      } else {
        assert ss[k] == after[k - |before| - 1];
      }
    }
  }

  lemma {:induction false} ContentsDistinct(items: seq<Item>)
    requires Distinct(items) && forall a :: a in items ==> a.tag.id == 0
    ensures Distinct(R.Contents(items, 0))
  {
    hide Key;
    if items != [] {
      var n := |items| - 1;
      ContentsDistinct(items[..n]);
      var a, r := items[n], R.Contents(items[..n], 0);
      assert a in items;
      if a.tag.typ / 0x200 == 1 {
        forall c | c in r ensures !Names(c, 0, Key(Unique, a.tag.typ)) {
          var b := R.ContentsMember(items[..n], 0, c);
          assert !Names(b, a.tag.id, Key(Unique, a.tag.typ));
        }
        assert (r + [a.(tag := a.tag.(id := 0))])[..|r|] == r;
      }
    }
  }

  lemma {:induction false} DistinctPair(items: seq<Item>, i: nat, j: nat)
    requires Distinct(items) && i < j < |items|
    ensures !Names(items[i], items[j].tag.id, Key(Unique, items[j].tag.typ))
  {
    hide Key, Names;
    var n := |items| - 1;
    if j < n {
      DistinctPair(items[..n], i, j);
    } else {
      assert items[i] in items[..n];
    }
  }

  /** A move carries no attribute twice. */
  lemma MoveDistinct(log: seq<Item>, fromid: nat)
    requires WellFormed(log)
    ensures DistinctKeys(R.MoveItems(log, fromid, 0))
  {
    hide Key, Distinct, Live, Window, WellFormed;
    var w := Window(Live(log), fromid, fromid + 1);
    LiveRep(log);
    WindowDistinct(Live(log), fromid, fromid + 1);
    forall a | a in w ensures a.tag.id == 0 {
      var b := WindowMember(Live(log), fromid, fromid + 1, a);
    }
    ContentsDistinct(w);
    var items := R.Contents(w, 0);
    forall i, j | 0 <= i < j < |items| ensures Key(Unique, items[i].tag.typ) != Key(Unique, items[j].tag.typ) {
      DistinctPair(items, i, j);
      var a := R.ContentsMember(w, 0, items[i]);
      var b := R.ContentsMember(w, 0, items[j]);
    }
  }

  /** Disturbed, a source can bring back an attribute that was deleted behind it. */
  lemma DisturbedStays()
    ensures var a := Item(Tag(0x301, 0, 0), []);
            var ss := [Users(0, [a]), Plain(Item(Tag(0x301, 0, 0x3ff), [])), Plain(Item(Tag(0x302, 0, 0), []))];
            && SourcesOk([], ss) && Countable(ss) && !AllUndisturbed(ss, 0, 1)
            && a in Emitted(ss) && Get(Run(Unique, ExpandAll(ss)), 0, 0x301) == None
  {
    hide WellFormed, NoSourceTypes, Survivor, Run, LiveHead, Overwritten;
    var a, d, b := Item(Tag(0x301, 0, 0), []), Item(Tag(0x301, 0, 0x3ff), []), Item(Tag(0x302, 0, 0), []);
    var u := Users(0, [a]);
    var ss := [u, Plain(d), Plain(b)];
    assert ss[1..] == [Plain(d), Plain(b)] && ss[1..][1..] == [Plain(b)] && [Plain(b)][1..] == [];
    assert ExpandAll([Plain(b)]) == [b] && ExpandAll(ss[1..]) == [d, b];
    assert Expand(u) == [a] && ExpandAll(ss) == [a, d, b];
    SmallLog(a, d, b);
    assert [] + [a, d, b] == [a, d, b];
    StaysOut(u, a, d, b);
    Disturbed(u, a, d, b);
    assert !Undisturbed(ss[0], ExpandAll(ss[0 + 1..]), 0, 1);
    Undone(a, d, b);
  }

  lemma Disturbed(u: Source, a: Item, d: Item, b: Item)
    requires u == Users(0, [a]) && a.tag.id == 0 && Survivor(FromTag(u), [d, b]) == Some(FromTag(u))
    requires Overwritten([d, b], a.tag)
    ensures !Undisturbed(u, [d, b], 0, 1)
  {
    hide Survivor, Overwritten;
    assert Expand(u)[0 + 1..] + [d, b] == [d, b] && Expand(u)[0].tag == a.tag && |Body(u)| == 1;
  }

  lemma StaysOut(u: Source, a: Item, d: Item, b: Item)
    requires a == Item(Tag(0x301, 0, 0), []) && d == Item(Tag(0x301, 0, 0x3ff), []) && b == Item(Tag(0x302, 0, 0), [])
    requires u == Users(0, [a])
    ensures Survivor(FromTag(u), [d, b]) == Some(FromTag(u)) && Heads(u, [d, b]) == [a] && Overwritten([d, b], a.tag)
  {
    assert [d, b][1..] == [b] && [b][1..] == [];
    assert !Redundant(d.tag, FromTag(u)) && Adjusted(d.tag, FromTag(u)) == FromTag(u);
    assert !Redundant(b.tag, FromTag(u)) && Adjusted(b.tag, FromTag(u)) == FromTag(u);
    assert Survivor(FromTag(u), [b]) == Some(FromTag(u));
  }

  lemma Undone(a: Item, d: Item, b: Item)
    requires a == Item(Tag(0x301, 0, 0), []) && d == Item(Tag(0x301, 0, 0x3ff), []) && b == Item(Tag(0x302, 0, 0), [])
    ensures Get(Run(Unique, [a, d, b]), 0, 0x301) == None
  {
    assert [a, d, b][..2] == [a, d] && [a, d][..1] == [a] && [a][..0] == [];
    assert Run(Unique, []).entries == [];
    assert Run(Unique, [a]).entries == [map[0x301 := ValueOf(a)]];
    assert Run(Unique, [a, d]).entries == [map[]];
  }

  lemma SmallLog(a: Item, d: Item, b: Item)
    requires a == Item(Tag(0x301, 0, 0), []) && d == Item(Tag(0x301, 0, 0x3ff), []) && b == Item(Tag(0x302, 0, 0), [])
    ensures WellFormed([a, d, b]) && NoSourceTypes([a, d, b])
  {
    hide Run;
    var log := [a, d, b];
    forall i | 0 <= i <= 3 ensures |Run(Unique, log[..i]).entries| <= NO_ID {
      OneEntry(log[..i]);
    }
  }

  lemma {:induction false} OneEntry(log: seq<Item>)
    requires forall i :: 0 <= i < |log| ==> IsEntryTag(log[i].tag) && log[i].tag.id == 0
    ensures |Run(Unique, log).entries| <= 1
  {
    hide Key;
    if log != [] {
      OneEntry(log[..|log| - 1]);
    }
  }

  /** A list of 0x3ff attributes is lost as a whole if any tag comes behind it. */
  lemma {:induction false} FullListLost(s: Source, rest: seq<Item>)
    requires !s.Plain? && IsDelete(FromTag(s)) && exists i :: 0 <= i < |rest| && !IsNoop(rest[i].tag)
    ensures Heads(s, rest) == []
  {
    DeletionLost(FromTag(s), rest);
  }

  lemma {:induction false} DeletionLost(t: Tag, rest: seq<Item>)
    requires IsDelete(t) && exists i :: 0 <= i < |rest| && !IsNoop(rest[i].tag)
    ensures Survivor(t, rest) == None
    decreases rest
  {
    if IsNoop(rest[0].tag) {
      var i :| 0 <= i < |rest| && !IsNoop(rest[i].tag);
      assert rest[1..][i - 1] == rest[i];
      DeletionLost(t, rest[1..]);
    }
  }
}
