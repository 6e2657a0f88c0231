/** Compaction: the filtered traversal that copies only the tags still in force, renumbered. */
module Compaction {
  import opened Basics
  import opened Tags
  import opened Replay

  // ----- the filter applied to a tag for every tag after it

  /** The later tag makes the filtered one redundant: same attribute, or the entry is deleted. A
      filtered tag that itself deletes an attribute is dropped by any later tag.
   */
  predicate Redundant(later: Tag, t: Tag) {
    var full := later.typ / 0x100 % 2 == 1;
    || ((if full then later.typ == t.typ else Type1(later) == Type1(t)) && later.id == t.id)
    || IsDelete(t)
    || (later.typ == DELETE && later.id == t.id)
  }

  /** Follow the entry of the filtered tag around a create or delete. */
  function Adjusted(later: Tag, t: Tag): Tag {
    if Type1(later) == SPLICE_CLASS && later.id <= t.id then AddId(t, Splice(later)) else t
  }

  // ----- what the traversal computes

  /** The tag as it stands after all of `rest`, if nothing in `rest` made it redundant. */
  function Survivor(t: Tag, rest: seq<Item>): Option<Tag>
    decreases rest
  {
    if rest == [] then Some(t)
    else if IsNoop(rest[0].tag) then Survivor(t, rest[1..])
    else if Redundant(rest[0].tag, t) then None
    else Survivor(Adjusted(rest[0].tag, t), rest[1..])
  }

  function LiveHead(log: seq<Item>): (r: seq<Item>)
    requires log != []
    ensures |r| <= 1
  {
    var a := log[0];
    if !IsEntryTag(a.tag) then []
    else
      match Survivor(a.tag, log[1..])
      case None => []
      case Some(t) => [a.(tag := t)]
  }

  function Live(log: seq<Item>): seq<Item> {
    if log == [] then [] else LiveHead(log) + Live(log[1..])
  }

  /** The items with an id in [begin, end), renumbered from 0. */
  function Window(items: seq<Item>, begin: nat, end: nat): seq<Item> {
    if items == [] then []
    else
      var a := items[|items| - 1];
      var w := Window(items[..|items| - 1], begin, end);
      if begin <= a.tag.id < end then w + [a.(tag := a.tag.(id := a.tag.id - begin))] else w
  }

  /** The scan over everything behind position `i`, as the traversal runs it with its filter. */
  method Scan(log: seq<Item>, i: nat, tag: Tag) returns (r: Option<Tag>)
    requires i <= |log|
    ensures r == Survivor(tag, log[i..])
  {
    var t, j := tag, i;
    while j < |log|
      invariant i <= j <= |log|
      invariant Survivor(tag, log[i..]) == Survivor(t, log[j..])
    {
      assert log[j..][1..] == log[j + 1..];
      if !IsNoop(log[j].tag) {
        if Redundant(log[j].tag, t) {
          return None;
        }
        t := Adjusted(log[j].tag, t);
      }
      j := j + 1;
    }
    return Some(t);
  }

  /** The compacting traversal over the directory's log followed by the pending attributes. The
      output replays to exactly the entries begin..end-1 of the input; the count is right when
      the last of them has a name.
   */
  method Traverse(disk: seq<Item>, attrs: seq<Item>, begin: nat, end: nat) returns (out: seq<Item>)
    requires WellFormed(disk + attrs)
    requires begin <= end <= |Run(Unique, disk + attrs).entries|
    ensures WellFormed(out)
    ensures Preserved(disk + attrs, out, begin, end)
    ensures NothingStale(disk + attrs, out, begin)
    ensures OnlyEntries(out, end - begin)
    ensures HasRemoval(out) <==> LeavesRemoval(disk + attrs, begin, end)
    ensures Named(disk + attrs, begin, end) ==>
              Run(Unique, out) == Dir(end - begin, Run(Unique, disk + attrs).entries[begin..end], map[])
  {
    out := Collect(disk + attrs, begin, end);
    WindowMeaning(disk + attrs, begin, end);
    RemovalLeftIff(disk + attrs, begin, end);
  }

  /** The loop of the traversal. */
  method Collect(log: seq<Item>, begin: nat, end: nat) returns (out: seq<Item>)
    requires WellFormed(log)
    ensures out == Window(Live(log), begin, end)
  {
    out := [];
    ghost var seen := [];
    for i := 0 to |log|
      invariant Live(log) == seen + Live(log[i..])
      invariant out == Window(seen, begin, end)
    {
      ghost var head := LiveHead(log[i..]);
      LiveSplit(log, i, seen);
      if head != [] {
        LiveTagOk(log, seen, head[0], Live(log[i + 1..]));
        WindowSnoc(seen, head[0], begin, end);
        assert head == [head[0]];
      }
      var visited := Visit(log, i, begin, end);
      out := out + visited;
      seen := seen + head;
    }
    assert seen + [] == seen;
  }

  /** One round of the loop: filter the tag by type, by the scan behind it and by range. */
  method Visit(log: seq<Item>, i: nat, begin: nat, end: nat) returns (out: seq<Item>)
    requires i < |log|
    requires forall b :: b in LiveHead(log[i..]) ==> b.tag.Ok()
    ensures out == Window(LiveHead(log[i..]), begin, end)
  {
    hide Survivor, AddId, Window;
    WindowNone(begin, end);
    var a := log[i];
    if a.tag.typ >= 0x400 {
      return [];
    }
    assert log[i..][1..] == log[i + 1..];
    var r := Scan(log, i + 1, a.tag);
    if r.None? || IsNoop(a.tag) {
      return [];
    }
    ghost var b := a.(tag := r.value);
    assert LiveHead(log[i..]) == [b] && b in LiveHead(log[i..]);
    WindowSnoc([], b, begin, end);
    if !(begin <= r.value.id < end) {
      return [];
    }
    AddIdInRange(r.value, 0 - begin);
    return [a.(tag := AddId(r.value, 0 - begin))];
  }

  lemma LiveTagOk(log: seq<Item>, x: seq<Item>, b: Item, y: seq<Item>)
    requires WellFormed(log) && Live(log) == (x + [b]) + y
    ensures b.tag.Ok()
  {
    LiveRep(log);
    assert ((x + [b]) + y)[|x|] == b;
    assert b in Live(log);
  }

  lemma LiveSplit(log: seq<Item>, i: nat, seen: seq<Item>)
    requires i < |log|
    ensures seen + Live(log[i..]) == (seen + LiveHead(log[i..])) + Live(log[i + 1..])
    ensures LiveHead(log[i..]) == [] ==> seen + LiveHead(log[i..]) == seen
  {
    assert log[i..][1..] == log[i + 1..];
  }

  lemma WindowNone(begin: nat, end: nat)
    ensures Window([], begin, end) == []
  {
  }

  lemma WindowSnoc(items: seq<Item>, a: Item, begin: nat, end: nat)
    ensures Window(items + [a], begin, end) == Window(items, begin, end) + Window([a], begin, end)
    ensures Window([a], begin, end) ==
            if begin <= a.tag.id < end then [a.(tag := a.tag.(id := a.tag.id - begin))] else []
  {
    assert (items + [a])[..|items|] == items;
    assert [a][..0] == [];
  }

  // ----- what it means

  /** An attribute of an entry, if it has it. */
  function Get(d: Dir, id: nat, k: nat): Option<Value> {
    if k in At(d, id) then Some(At(d, id)[k]) else None
  }

  predicate Names(a: Item, id: nat, k: nat) {
    a.tag.id == id && Key(Unique, a.tag.typ) == k
  }

  /** The last writer in a list without creates and deletes. */
  function Fetch(items: seq<Item>, id: nat, k: nat): Option<Value> {
    if items == [] then None
    else
      var a := items[|items| - 1];
      if !Names(a, id, k) then Fetch(items[..|items| - 1], id, k)
      else if IsDelete(a.tag) then None else Some(ValueOf(a))
  }

  ghost predicate Absent(items: seq<Item>, id: nat, k: nat) {
    forall a :: a in items ==> !Names(a, id, k)
  }

  /** No attribute of an entry is written twice. */
  ghost predicate Distinct(items: seq<Item>) {
    items != [] ==>
      var n := |items| - 1;
      && Distinct(items[..n])
      && Absent(items[..n], items[n].tag.id, Key(Unique, items[n].tag.typ))
  }

  ghost predicate Preserved(log: seq<Item>, out: seq<Item>, begin: nat, end: nat) {
    forall id: nat, k: nat ::
      Get(Run(Unique, out), id, k) == if begin + id < end then Get(Run(Unique, log), begin + id, k) else None
  }

  /** Each tag left over is the one in force, and no attribute is left twice; a tag deleting an
      attribute is left only as the last of all, and only if it ends the input.
   */
  ghost predicate NothingStale(log: seq<Item>, out: seq<Item>, begin: nat) {
    && Distinct(out)
    && (forall a :: a in out ==>
          Get(Run(Unique, log), begin + a.tag.id, Key(Unique, a.tag.typ)) ==
          if IsDelete(a.tag) then None else Some(ValueOf(a)))
    && (forall a :: a in out && IsDelete(a.tag) ==> EndsInRemoval(log) && a == out[|out| - 1])
  }

  /** Leaving no-ops aside, the last tag deletes an attribute. */
  predicate EndsInRemoval(log: seq<Item>) {
    && log != []
    && var a := log[|log| - 1];
       if IsNoop(a.tag) then EndsInRemoval(log[..|log| - 1]) else IsEntryTag(a.tag) && IsDelete(a.tag)
  }

  /** The last tag that is not a no-op. */
  function LastItem(log: seq<Item>): Option<Item> {
    if log == [] then None
    else if IsNoop(log[|log| - 1].tag) then LastItem(log[..|log| - 1])
    else Some(log[|log| - 1])
  }

  /** The input ends by deleting an attribute of an entry in range. */
  predicate LeavesRemoval(log: seq<Item>, begin: nat, end: nat) {
    match LastItem(log)
    case None => false
    case Some(a) => IsEntryTag(a.tag) && IsDelete(a.tag) && begin <= a.tag.id < end
  }

  /** Attributes of `n` entries, and no creates or deletes. */
  ghost predicate OnlyEntries(items: seq<Item>, n: int) {
    forall a :: a in items ==> IsEntryTag(a.tag) && a.tag.id < n
  }

  ghost predicate HasRemoval(items: seq<Item>) {
    exists a :: a in items && IsDelete(a.tag)
  }

  predicate Named(log: seq<Item>, begin: nat, end: nat) {
    begin < end ==> Get(Run(Unique, log), end - 1, NAME_CLASS).Some?
  }

  // ----- one more tag

  /** What one more tag does to the tags collected so far. */
  function Advance(items: seq<Item>, a: Item): seq<Item> {
    if items == [] || IsNoop(a.tag) then items
    else
      var b := items[|items| - 1];
      var r := Advance(items[..|items| - 1], a);
      if Redundant(a.tag, b.tag) then r else r + [b.(tag := Adjusted(a.tag, b.tag))]
  }

  function Own(a: Item): seq<Item> {
    if IsEntryTag(a.tag) then [a] else []
  }

  lemma {:induction false} SurvivorSnoc(t: Tag, rest: seq<Item>, a: Item)
    ensures Survivor(t, rest + [a]) ==
            match Survivor(t, rest)
            case None => None
            case Some(s) => if IsNoop(a.tag) then Some(s)
                            else if Redundant(a.tag, s) then None else Some(Adjusted(a.tag, s))
    decreases rest
  {
    if rest == [] {
      assert (rest + [a])[1..] == [];
    } else {
      assert (rest + [a])[1..] == rest[1..] + [a];
      if IsNoop(rest[0].tag) {
        SurvivorSnoc(t, rest[1..], a);
      } else if !Redundant(rest[0].tag, t) {
        SurvivorSnoc(Adjusted(rest[0].tag, t), rest[1..], a);
      }
    }
  }

  lemma {:induction false} AdvanceConcat(x: seq<Item>, y: seq<Item>, a: Item)
    ensures Advance(x + y, a) == Advance(x, a) + Advance(y, a)
  {
    if y == [] || IsNoop(a.tag) {
      assert x + [] == x;
    } else {
      var n := |y| - 1;
      assert (x + y)[..|x + y| - 1] == x + y[..n];
      AdvanceConcat(x, y[..n], a);
    }
  }

  lemma HeadSnoc(log: seq<Item>, a: Item)
    requires log != []
    ensures LiveHead(log + [a]) == Advance(LiveHead(log), a)
  {
    assert (log + [a])[1..] == log[1..] + [a];
    SurvivorSnoc(log[0].tag, log[1..], a);
    if LiveHead(log) != [] {
      assert LiveHead(log)[..0] == [];
    }
  }

  lemma {:induction false} LiveSnoc(log: seq<Item>, a: Item)
    ensures Live(log + [a]) == Advance(Live(log), a) + Own(a)
  {
    if log == [] {
      assert (log + [a])[1..] == [];
    } else {
      var head, rest := LiveHead(log), log[1..];
      HeadSnoc(log, a);
      LiveSnoc(rest, a);
      AdvanceConcat(head, Live(rest), a);
      calc {
        Live(log + [a]);
        { assert (log + [a])[1..] == rest + [a]; }
        Advance(head, a) + (Advance(Live(rest), a) + Own(a));
        (Advance(head, a) + Advance(Live(rest), a)) + Own(a);
        Advance(Live(log), a) + Own(a);
      }
    }
  }

  // ----- the collected tags stand for the replayed directory

  ghost predicate Rep(items: seq<Item>, d: Dir) {
    && (forall a :: a in items ==> ItemOk(a) && IsEntryTag(a.tag) && a.tag.id < |d.entries|)
    && Distinct(items)
    && (forall id: nat, k: nat :: Get(d, id, k) == Fetch(items, id, k))
  }

  lemma SameAttribute(later: Tag, t: Tag)
    ensures (if later.typ / 0x100 % 2 == 1 then later.typ == t.typ else Type1(later) == Type1(t))
            <==> Key(Unique, later.typ) == Key(Unique, t.typ)
  {
  }

  lemma {:induction false} AbsentFetch(items: seq<Item>, id: nat, k: nat)
    requires Absent(items, id, k)
    ensures Fetch(items, id, k) == None
  {
    if items != [] {
      var n := |items| - 1;
      assert items[n] in items;
      AbsentFetch(items[..n], id, k);
    }
  }

  /** An item that survives one more tag comes from one that was not redundant. */
  lemma {:induction false} AdvanceMember(items: seq<Item>, a: Item, c: Item) returns (b: Item)
    requires !IsNoop(a.tag) && c in Advance(items, a)
    ensures b in items && !Redundant(a.tag, b.tag) && c == b.(tag := Adjusted(a.tag, b.tag))
  {
    var n := |items| - 1;
    if c in Advance(items[..n], a) {
      b := AdvanceMember(items[..n], a, c);
    } else {
      b := items[n];
    }
  }

  /** Where an entry stands after one more tag, `None` for a deleted one. */
  function Moved(t: Tag, id: nat): Option<nat> {
    if t.typ == CREATE && t.id <= id then Some(id + 1)
    else if t.typ == DELETE && t.id == id then None
    else if t.typ == DELETE && t.id < id then Some(id - 1)
    else Some(id)
  }

  lemma AdjustedIsMoved(later: Tag, t: Tag)
    requires later.Ok() && t.Ok() && (Type1(later) == SPLICE_CLASS ==> IsSplice(later))
    requires t.id < NO_ID && !Redundant(later, t)
    ensures Moved(later, t.id).Some? && Adjusted(later, t) == t.(id := Moved(later, t.id).value)
  {
    if Type1(later) == SPLICE_CLASS && later.id <= t.id {
      AddIdInRange(t, Splice(later));
    }
  }

  lemma {:induction false} AdvanceDistinct(items: seq<Item>, a: Item)
    requires ItemOk(a) && Distinct(items) && forall b :: b in items ==> ItemOk(b) && IsEntryTag(b.tag)
    ensures Distinct(Advance(items, a))
  {
    if items != [] && !IsNoop(a.tag) {
      var n := |items| - 1;
      var b := items[n];
      var r := Advance(items[..n], a);
      AdvanceDistinct(items[..n], a);
      if !Redundant(a.tag, b.tag) {
        AdjustedIsMoved(a.tag, b.tag);
        var b' := b.(tag := Adjusted(a.tag, b.tag));
        forall c | c in r ensures !Names(c, b'.tag.id, Key(Unique, b'.tag.typ)) {
          var c0 := AdvanceMember(items[..n], a, c);
          AdjustedIsMoved(a.tag, c0.tag);
          assert !Names(c0, b.tag.id, Key(Unique, b.tag.typ));
        }
        assert (r + [b'])[..|r|] == r;
      }
    }
  }

  /** One more tag carries each attribute along with its entry, unless the tag overwrites it. */
  lemma {:induction false} AdvanceFetch(items: seq<Item>, a: Item, id: nat, k: nat)
    requires ItemOk(a) && Distinct(items) && forall b :: b in items ==> ItemOk(b) && IsEntryTag(b.tag)
    requires Moved(a.tag, id).Some?
    ensures Fetch(Advance(items, a), Moved(a.tag, id).value, k) ==
            if IsEntryTag(a.tag) && Names(a, id, k) then None else Fetch(items, id, k)
  {
    hide Moved, Adjusted, Redundant, Names, ItemOk;
    if IsNoop(a.tag) || items == [] {
      NoopStays(a.tag, id);
    } else {
      var n := |items| - 1;
      var b := items[n];
      assert b in items;
      AdvanceFetch(items[..n], a, id, k);
      if Redundant(a.tag, b.tag) {
        GoneNames(a, b, id, k);
        if Names(b, id, k) {
          AbsentNames(items, id, k);
        }
      } else {
        KeptNames(a, b, id, k);
        SnocFetch(Advance(items[..n], a), b.(tag := Adjusted(a.tag, b.tag)), Moved(a.tag, id).value, k);
      }
    }
  }

  lemma NoopStays(t: Tag, id: nat)
    ensures IsNoop(t) ==> Moved(t, id) == Some(id)
  {
  }

  /** An attribute that a tag makes redundant was a removal, or is set by the tag. */
  lemma GoneNames(a: Item, b: Item, id: nat, k: nat)
    requires ItemOk(a) && IsEntryTag(b.tag) && !IsNoop(a.tag) && Redundant(a.tag, b.tag) && Moved(a.tag, id).Some?
    ensures Names(b, id, k) ==> IsDelete(b.tag) || (IsEntryTag(a.tag) && Names(a, id, k))
  {
    SameAttribute(a.tag, b.tag);
    SameAttribute(b.tag, a.tag);
  }

  /** One that stays names the entry where it now stands. */
  lemma KeptNames(a: Item, b: Item, id: nat, k: nat)
    requires ItemOk(a) && ItemOk(b) && IsEntryTag(b.tag) && !Redundant(a.tag, b.tag) && Moved(a.tag, id).Some?
    ensures var b' := b.(tag := Adjusted(a.tag, b.tag));
            && (Names(b', Moved(a.tag, id).value, k) <==> Names(b, id, k))
            && IsDelete(b'.tag) == IsDelete(b.tag) && ValueOf(b') == ValueOf(b)
    ensures IsEntryTag(a.tag) ==> !(Names(a, id, k) && Names(b, id, k))
  {
    hide Adjusted;
    AdjustedIsMoved(a.tag, b.tag);
    SameAttribute(a.tag, b.tag);
  }

  lemma AbsentNames(items: seq<Item>, id: nat, k: nat)
    requires items != [] && Distinct(items) && Names(items[|items| - 1], id, k)
    ensures Fetch(items[..|items| - 1], id, k) == None
  {
    AbsentFetch(items[..|items| - 1], id, k);
  }

  /** A created entry starts without attributes. */
  lemma {:induction false} AdvanceCreated(items: seq<Item>, a: Item, k: nat)
    requires ItemOk(a) && a.tag.typ == CREATE && forall b :: b in items ==> ItemOk(b) && IsEntryTag(b.tag)
    ensures Fetch(Advance(items, a), a.tag.id, k) == None
  {
    forall c | c in Advance(items, a) ensures !Names(c, a.tag.id, k) {
      var b := AdvanceMember(items, a, c);
      AdjustedIsMoved(a.tag, b.tag);
    }
    AbsentFetch(Advance(items, a), a.tag.id, k);
  }

  lemma {:induction false} SnocFetch(items: seq<Item>, a: Item, id: nat, k: nat)
    ensures Fetch(items + [a], id, k) ==
            if !Names(a, id, k) then Fetch(items, id, k)
            else if IsDelete(a.tag) then None else Some(ValueOf(a))
  {
    assert (items + [a])[..|items|] == items;
  }

  /** Where the entry now at `id` stood before the tag, `None` for a created one. */
  function Before(t: Tag, id: nat): Option<nat> {
    if t.typ == CREATE && t.id == id then None
    else if t.typ == CREATE && t.id < id then Some(id - 1)
    else if t.typ == DELETE && t.id <= id then Some(id + 1)
    else Some(id)
  }

  lemma AtSplice(m: KeyMode, d: Dir, a: Item, id: nat)
    requires m.Ok() && IsSplice(a.tag)
    ensures At(Apply(m, d, a), id) ==
            match Before(a.tag, id)
            case None => map[]
            case Some(p) => At(d, p)
  {
  }

  lemma AtOther(m: KeyMode, d: Dir, a: Item, id: nat)
    requires m.Ok() && !IsSplice(a.tag)
    ensures At(Apply(m, d, a), id) ==
            if IsEntryTag(a.tag) && a.tag.id == id then SetKey(At(d, id), Key(m, a.tag.typ), a) else At(d, id)
  {
  }

  lemma RepStep(items: seq<Item>, d: Dir, a: Item)
    requires Rep(items, d) && ItemOk(a) && |Apply(Unique, d, a).entries| <= NO_ID
    ensures Rep(Advance(items, a) + Own(a), Apply(Unique, d, a))
  {
    RepStepShape(items, d, a);
    forall id: nat, k: nat ensures Get(Apply(Unique, d, a), id, k) == Fetch(Advance(items, a) + Own(a), id, k) {
      var p := match Before(a.tag, id) case None => 0 case Some(p) => p;
      FetchStep(items, a, id, p, k);
      GetStep(d, a, id, p, k);
      assert Get(d, p, k) == Fetch(items, p, k);
    }
  }

  lemma NoopAdvance(items: seq<Item>, a: Item)
    requires IsNoop(a.tag)
    ensures Advance(items, a) == items
  {
  }

  lemma DistinctSnoc(items: seq<Item>, a: Item)
    requires Distinct(items) && Absent(items, a.tag.id, Key(Unique, a.tag.typ))
    ensures Distinct(items + [a])
  {
    hide Absent;
    assert (items + [a])[..|items|] == items;
  }

  /** A tag leaves room for the entries it does not delete, and for its own. */
  lemma MovedInside(d: Dir, a: Item, id: nat)
    requires ItemOk(a)
    ensures var n := |Apply(Unique, d, a).entries|;
            && (IsEntryTag(a.tag) ==> a.tag.id < n)
            && (id < |d.entries| && Moved(a.tag, id).Some? ==> Moved(a.tag, id).value < n)
  {
  }

  lemma RepStepShape(items: seq<Item>, d: Dir, a: Item)
    requires Rep(items, d) && ItemOk(a) && |Apply(Unique, d, a).entries| <= NO_ID
    ensures var out := Advance(items, a) + Own(a);
            && Distinct(out)
            && forall c :: c in out ==> ItemOk(c) && IsEntryTag(c.tag) && c.tag.id < |Apply(Unique, d, a).entries|
  {
    hide Advance, Distinct, Absent, Adjusted, Redundant, Apply;
    var r := Advance(items, a);
    AdvanceDistinct(items, a);
    forall c | c in r ensures ItemOk(c) && IsEntryTag(c.tag) && c.tag.id < |Apply(Unique, d, a).entries| {
      if !IsNoop(a.tag) {
        var b := AdvanceMember(items, a, c);
        AdjustedIsMoved(a.tag, b.tag);
        MovedInside(d, a, b.tag.id);
      } else {
        NoopAdvance(items, a);
        MovedInside(d, a, c.tag.id);
      }
    }
    MovedInside(d, a, 0);
    if IsEntryTag(a.tag) {
      OwnAbsent(items, a);
      DistinctSnoc(r, a);
    } else {
      assert r + [] == r;
    }
  }

  /** An attribute after one more tag, in terms of the one before it. */
  function Step(a: Item, id: nat, k: nat, before: Option<Value>): Option<Value> {
    if Before(a.tag, id).None? then None
    else if !IsEntryTag(a.tag) || !Names(a, id, k) then before
    else if IsDelete(a.tag) then None else Some(ValueOf(a))
  }

  lemma FetchStep(items: seq<Item>, a: Item, id: nat, p: nat, k: nat)
    requires ItemOk(a) && Distinct(items) && forall b :: b in items ==> ItemOk(b) && IsEntryTag(b.tag)
    requires Before(a.tag, id) == Some(p) || Before(a.tag, id) == None
    ensures Fetch(Advance(items, a) + Own(a), id, k) == Step(a, id, k, Fetch(items, p, k))
  {
    hide Fetch, Advance, Distinct, Names, Key;
    var r := Advance(items, a);
    if IsEntryTag(a.tag) {
      SnocFetch(r, a, id, k);
      AdvanceFetch(items, a, p, k);
    } else {
      assert r + [] == r;
      match Before(a.tag, id)
      case None => AdvanceCreated(items, a, k);
      case Some(_) => AdvanceFetch(items, a, p, k);
    }
  }

  lemma GetStep(d: Dir, a: Item, id: nat, p: nat, k: nat)
    requires Type1(a.tag) == SPLICE_CLASS ==> IsSplice(a.tag)
    requires Before(a.tag, id) == Some(p) || Before(a.tag, id) == None
    ensures Get(Apply(Unique, d, a), id, k) == Step(a, id, k, Get(d, p, k))
  {
    if IsSplice(a.tag) {
      AtSplice(Unique, d, a, id);
    } else {
      AtOther(Unique, d, a, id);
    }
  }

  lemma OwnAbsent(items: seq<Item>, a: Item)
    requires ItemOk(a) && IsEntryTag(a.tag) && forall b :: b in items ==> ItemOk(b) && IsEntryTag(b.tag)
    ensures Absent(Advance(items, a), a.tag.id, Key(Unique, a.tag.typ))
  {
    forall c | c in Advance(items, a) ensures !Names(c, a.tag.id, Key(Unique, a.tag.typ)) {
      var b := AdvanceMember(items, a, c);
      SameAttribute(a.tag, b.tag);
    }
  }

  lemma WellFormedPrefix(log: seq<Item>, n: nat)
    requires WellFormed(log) && n <= |log|
    ensures WellFormed(log[..n])
  {
    forall i | 0 <= i <= n ensures |Run(Unique, log[..n][..i]).entries| <= NO_ID {
      assert log[..n][..i] == log[..i];
    }
  }

  /** Another tag leaves no deletion of an attribute behind. */
  lemma AdvanceKeeps(items: seq<Item>, a: Item, c: Item)
    requires ItemOk(a) && !IsNoop(a.tag) && c in Advance(items, a)
    requires forall b :: b in items ==> ItemOk(b) && IsEntryTag(b.tag)
    ensures !IsDelete(c.tag)
  {
    hide Advance;
    var b := AdvanceMember(items, a, c);
    AdjustedIsMoved(a.tag, b.tag);
  }

  lemma {:induction false} LiveMeans(log: seq<Item>)
    requires WellFormed(log)
    ensures Rep(Live(log), Run(Unique, log))
  {
    hide Rep, Live, Advance;
    if log == [] {
      EmptyRep();
    } else {
      var n := |log| - 1;
      var a := log[n];
      assert log == log[..n] + [a] && log[..|log|] == log;
      WellFormedPrefix(log, n);
      LiveMeans(log[..n]);
      LiveSnoc(log[..n], a);
      RepStep(Live(log[..n]), Run(Unique, log[..n]), a);
    }
  }

  lemma EmptyRep()
    ensures Live([]) == [] && Rep(Live([]), Run(Unique, []))
  {
  }

  lemma NoopAdvances(items: seq<Item>, a: Item)
    requires IsNoop(a.tag)
    ensures Advance(items, a) + Own(a) == items
  {
  }

  /** The live items stand for the directory. A deletion of an attribute is only left at the very end. */
  lemma {:induction false} LiveRep(log: seq<Item>)
    requires WellFormed(log)
    ensures Rep(Live(log), Run(Unique, log))
    ensures forall a :: a in Live(log) && IsDelete(a.tag) ==> EndsInRemoval(log) && a == Live(log)[|Live(log)| - 1]
  {
    hide Run, Live, Advance;
    LiveMeans(log);
    if log == [] {
      EmptyRep();
    } else {
      var n := |log| - 1;
      var a := log[n];
      assert log == log[..n] + [a];
      WellFormedPrefix(log, n);
      LiveRep(log[..n]);
      LiveSnoc(log[..n], a);
      if IsNoop(a.tag) {
        NoopAdvances(Live(log[..n]), a);
      } else {
        forall c | c in Live(log) && IsDelete(c.tag)
          ensures EndsInRemoval(log) && c == Live(log)[|Live(log)| - 1]
        {
          if c in Advance(Live(log[..n]), a) {
            AdvanceKeeps(Live(log[..n]), a, c);
          }
        }
      }
    }
  }

  lemma {:induction false} LastLive(log: seq<Item>)
    requires EndsInRemoval(log)
    ensures LastItem(log).Some? && IsEntryTag(LastItem(log).value.tag) && IsDelete(LastItem(log).value.tag)
    ensures Live(log) != [] && Live(log)[|Live(log)| - 1] == LastItem(log).value
  {
    var n := |log| - 1;
    assert log == log[..n] + [log[n]];
    LiveSnoc(log[..n], log[n]);
    if IsNoop(log[n].tag) {
      LastLive(log[..n]);
    }
  }

  lemma {:induction false} EndsIff(log: seq<Item>)
    ensures EndsInRemoval(log) <==>
            LastItem(log).Some? && IsEntryTag(LastItem(log).value.tag) && IsDelete(LastItem(log).value.tag)
  {
    if log != [] && IsNoop(log[|log| - 1].tag) {
      EndsIff(log[..|log| - 1]);
    }
  }

  /** Deletions of attributes are dropped, except one at the very end of the input. */
  lemma RemovalLeftIff(log: seq<Item>, begin: nat, end: nat)
    requires WellFormed(log)
    ensures HasRemoval(Window(Live(log), begin, end)) <==> LeavesRemoval(log, begin, end)
  {
    hide Rep, WellFormed, Live, EndsInRemoval, LastItem;
    var items, out := Live(log), Window(Live(log), begin, end);
    EndsIff(log);
    LiveRep(log);
    if HasRemoval(out) {
      var a :| a in out && IsDelete(a.tag);
      var b := WindowMember(items, begin, end, a);
      LastLive(log);
    }
    if LeavesRemoval(log, begin, end) {
      LastLive(log);
      var b := items[|items| - 1];
      assert b.(tag := b.tag.(id := b.tag.id - begin)) == out[|out| - 1];
    }
  }

  // ----- renumbering a range

  lemma {:induction false} WindowMember(items: seq<Item>, begin: nat, end: nat, c: Item) returns (b: Item)
    requires c in Window(items, begin, end)
    ensures b in items && begin <= b.tag.id < end && c == b.(tag := b.tag.(id := b.tag.id - begin))
    ensures c == Window(items, begin, end)[|Window(items, begin, end)| - 1] || b in items[..|items| - 1]
  {
    var n := |items| - 1;
    if c in Window(items[..n], begin, end) {
      b := WindowMember(items[..n], begin, end, c);
    } else {
      b := items[n];
    }
  }

  lemma {:induction false} WindowDistinct(items: seq<Item>, begin: nat, end: nat)
    requires Distinct(items)
    ensures Distinct(Window(items, begin, end))
  {
    if items != [] {
      var n := |items| - 1;
      var a := items[n];
      var w := Window(items[..n], begin, end);
      WindowDistinct(items[..n], begin, end);
      if begin <= a.tag.id < end {
        var a' := a.(tag := a.tag.(id := a.tag.id - begin));
        forall c | c in w ensures !Names(c, a'.tag.id, Key(Unique, a'.tag.typ)) {
          var b := WindowMember(items[..n], begin, end, c);
          assert !Names(b, a.tag.id, Key(Unique, a.tag.typ));
        }
        assert (w + [a'])[..|w|] == w;
      }
    }
  }

  lemma {:induction false} WindowFetch(items: seq<Item>, begin: nat, end: nat, id: nat, k: nat)
    ensures Fetch(Window(items, begin, end), id, k) ==
            if begin + id < end then Fetch(items, begin + id, k) else None
  {
    hide Key, Fetch, Window;
    if items == [] {
      WindowNone(begin, end);
      FetchNone(id, k);
      FetchNone(begin + id, k);
    } else {
      var n := |items| - 1;
      var a := items[n];
      var w := Window(items[..n], begin, end);
      WindowFetch(items[..n], begin, end, id, k);
      assert items == items[..n] + [a];
      SnocFetch(items[..n], a, begin + id, k);
      WindowSnoc(items[..n], a, begin, end);
      if begin <= a.tag.id < end {
        SnocFetch(w, a.(tag := a.tag.(id := a.tag.id - begin)), id, k);
      } else {
        assert w + [] == w;
      }
    }
  }

  lemma FetchNone(id: nat, k: nat)
    ensures Fetch([], id, k) == None
  {
  }

  /** Without creates and deletes a replay is decided by the last writers. */
  lemma {:induction false} EntryRun(items: seq<Item>, n: nat)
    requires forall a :: a in items ==> IsEntryTag(a.tag) && a.tag.id < n
    ensures var d := Run(Unique, items);
            && d.count <= n && |d.entries| <= n && d.globals == map[]
            && (forall id: nat, k: nat :: Get(d, id, k) == Fetch(items, id, k))
            && (forall a :: a in items && Type1(a.tag) == NAME_CLASS ==> a.tag.id < d.count && a.tag.id < |d.entries|)
  {
    if items != [] {
      var m := |items| - 1;
      var a := items[m];
      assert a in items;
      EntryRun(items[..m], n);
      var d := Run(Unique, items[..m]);
      forall id: nat, k: nat ensures Get(Run(Unique, items), id, k) == Fetch(items, id, k) {
        AtOther(Unique, d, a, id);
        assert Get(d, id, k) == Fetch(items[..m], id, k);
      }
    }
  }

  lemma {:induction false} FetchMember(items: seq<Item>, id: nat, k: nat) returns (a: Item)
    requires Fetch(items, id, k).Some?
    ensures a in items && Names(a, id, k)
  {
    var n := |items| - 1;
    a := items[n];
    if !Names(a, id, k) {
      a := FetchMember(items[..n], id, k);
    }
  }

  lemma {:induction false} DistinctFetch(items: seq<Item>, a: Item)
    requires Distinct(items) && a in items
    ensures Fetch(items, a.tag.id, Key(Unique, a.tag.typ)) == if IsDelete(a.tag) then None else Some(ValueOf(a))
  {
    var n := |items| - 1;
    if a != items[n] {
      assert a in items[..n];
      DistinctFetch(items[..n], a);
    }
  }

  lemma WindowWellFormed(items: seq<Item>, d: Dir, begin: nat, end: nat)
    requires Rep(items, d) && |d.entries| <= NO_ID && begin <= end <= |d.entries|
    ensures WellFormed(Window(items, begin, end))
    ensures forall a :: a in Window(items, begin, end) ==> IsEntryTag(a.tag) && a.tag.id < end - begin
  {
    var out := Window(items, begin, end);
    forall a | a in out ensures ItemOk(a) && IsEntryTag(a.tag) && a.tag.id < end - begin {
      var b := WindowMember(items, begin, end, a);
      assert ItemOk(b);
    }
    forall i | 0 <= i <= |out| ensures |Run(Unique, out[..i]).entries| <= NO_ID {
      EntryRun(out[..i], end - begin);
    }
  }

  lemma WindowStale(items: seq<Item>, d: Dir, begin: nat, end: nat, a: Item)
    requires Rep(items, d) && a in Window(items, begin, end)
    requires forall b :: b in items && IsDelete(b.tag) ==> b == items[|items| - 1]
    ensures Get(d, begin + a.tag.id, Key(Unique, a.tag.typ)) == if IsDelete(a.tag) then None else Some(ValueOf(a))
    ensures IsDelete(a.tag) ==> a == Window(items, begin, end)[|Window(items, begin, end)| - 1]
  {
    var b := WindowMember(items, begin, end, a);
    DistinctFetch(items, b);
  }

  lemma WindowMeaning(log: seq<Item>, begin: nat, end: nat)
    requires WellFormed(log) && begin <= end <= |Run(Unique, log).entries|
    ensures var out := Window(Live(log), begin, end);
            && WellFormed(out) && Preserved(log, out, begin, end) && NothingStale(log, out, begin)
            && OnlyEntries(out, end - begin)
            && (Named(log, begin, end) ==>
                  Run(Unique, out) == Dir(end - begin, Run(Unique, log).entries[begin..end], map[]))
  {
    hide Live, Window, Fetch, Distinct, Run, Key, IsEntryTag, EndsInRemoval;
    var items, d := Live(log), Run(Unique, log);
    var out := Window(items, begin, end);
    var d' := Run(Unique, out);
    assert log[..|log|] == log;
    LiveRep(log);
    WindowWellFormed(items, d, begin, end);
    WindowDistinct(items, begin, end);
    forall a | a in out
      ensures Get(d, begin + a.tag.id, Key(Unique, a.tag.typ)) == if IsDelete(a.tag) then None else Some(ValueOf(a))
      ensures IsDelete(a.tag) ==> EndsInRemoval(log) && a == out[|out| - 1]
    {
      WindowStale(items, d, begin, end, a);
      var _ := WindowMember(items, begin, end, a);
    }
    assert NothingStale(log, out, begin);
    EntryRun(out, end - begin);
    forall id: nat, k: nat ensures Get(d', id, k) == if begin + id < end then Get(d, begin + id, k) else None {
      WindowFetch(items, begin, end, id, k);
      assert Get(d', id, k) == Fetch(out, id, k);
      assert Get(d, begin + id, k) == Fetch(items, begin + id, k);
    }
    assert Preserved(log, out, begin, end);
    if Named(log, begin, end) {
      EntryCount(out);
      WindowCount(d, d', out, begin, end);
      SameEntries(d, d', begin, end);
    }
  }

  lemma WindowCount(d: Dir, d': Dir, out: seq<Item>, begin: nat, end: nat)
    requires begin < end ==> Get(d, end - 1, NAME_CLASS).Some?
    requires forall id: nat, k: nat :: Get(d', id, k) == Fetch(out, id, k)
    requires forall id: nat, k: nat :: Get(d', id, k) == if begin + id < end then Get(d, begin + id, k) else None
    requires forall a :: a in out && Type1(a.tag) == NAME_CLASS ==> a.tag.id < d'.count
    requires 0 <= d'.count <= |d'.entries| <= end - begin
    ensures d'.count == |d'.entries| == end - begin
  {
    if begin < end {
      var id := end - begin - 1;
      assert Get(d', id, NAME_CLASS) == Get(d, begin + id, NAME_CLASS);
      var a := FetchMember(out, id, NAME_CLASS);
    }
  }

  lemma {:induction false} EntryCount(items: seq<Item>)
    requires forall a :: a in items ==> IsEntryTag(a.tag)
    ensures 0 <= Run(Unique, items).count <= |Run(Unique, items).entries|
  {
    if items != [] {
      assert items[|items| - 1] in items;
      EntryCount(items[..|items| - 1]);
    }
  }

  lemma SameEntries(d: Dir, d': Dir, begin: nat, end: nat)
    requires begin <= end <= |d.entries| && |d'.entries| == end - begin
    requires forall id: nat, k: nat ::
               Get(d', id, k) == if begin + id < end then Get(d, begin + id, k) else None
    ensures d'.entries == d.entries[begin..end]
  {
    forall id | 0 <= id < |d'.entries| ensures d'.entries[id] == d.entries[begin + id] {
      forall k: nat
        ensures k in d'.entries[id] <==> k in d.entries[begin + id]
        ensures k in d'.entries[id] ==> d'.entries[id][k] == d.entries[begin + id][k]
      {
        assert Get(d', id, k) == Get(d, begin + id, k);
      }
    }
  }
}
