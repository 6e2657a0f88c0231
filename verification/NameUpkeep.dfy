/** Compaction keeps a log fit for the name search: with creates and deletes (CreateKeepsTidy,
    DeleteKeepsTidy) this covers everything that writes names.
 */
module NameUpkeep {
  import opened Basics
  import opened Tags
  import opened Replay
  import opened NameSearch
  import C = Compaction
  import L = Lookup

  /** The name of an entry, told apart by class or by the unique bit alike. */
  lemma SameNameKey(log: seq<Item>, id: nat)
    requires forall i :: 0 <= i < |log| ==> ItemOk(log[i])
    ensures C.Get(Run(BY_CLASS, log), id, NAME_CLASS) == C.Get(Run(Unique, log), id, NAME_CLASS)
  {
    L.SameKey(BY_CLASS, NAME_CLASS, Unique, NAME_CLASS, log, id);
  }

  predicate EntryTags(items: seq<Item>) {
    forall i :: 0 <= i < |items| ==> ItemOk(items[i]) && IsEntryTag(items[i].tag)
  }

  ghost predicate InForce(items: seq<Item>, log: seq<Item>, begin: nat) {
    forall a :: a in items ==>
      C.Get(Run(Unique, log), begin + a.tag.id, Key(Unique, a.tag.typ)) ==
      if IsDelete(a.tag) then None else Some(ValueOf(a))
  }

  /** Every name in the replay of a compacted log is one of the log it came from. */
  lemma NameFrom(items: seq<Item>, log: seq<Item>, begin: nat, id: nat)
    requires EntryTags(items) && C.Distinct(items) && InForce(items, log, begin)
    requires id < |Names(items)| && Named(Names(items)[id])
    ensures C.Get(Run(Unique, log), begin + id, NAME_CLASS) == Some(Names(items)[id][NAME_CLASS])
    ensures !C.Absent(items, id, NAME_CLASS)
  {
    hide Run, Key;
    SameNameKey(items, id);
    C.EntryRun(items, 0x400);
    assert C.Get(Run(BY_CLASS, items), id, NAME_CLASS) == C.Fetch(items, id, NAME_CLASS);
    var a := C.FetchMember(items, id, NAME_CLASS);
    C.DistinctFetch(items, a);
  }

  lemma NamesSorted(items: seq<Item>, log: seq<Item>, begin: nat)
    requires EntryTags(items) && C.Distinct(items) && InForce(items, log, begin)
    requires (forall i :: 0 <= i < |log| ==> ItemOk(log[i])) && Sorted(Names(log))
    ensures Sorted(Names(items))
  {
    hide Run, Precedes, C.Distinct, InForce, EntryTags, ItemOk, Names;
    var s := Names(items);
    forall i, j | 0 <= i < j < |s| && Named(s[i]) && Named(s[j]) ensures Precedes(s[i], s[j]) {
      NameOf(items, log, begin, i);
      NameOf(items, log, begin, j);
      SamePlace(s[i], s[j], Names(log)[begin + i], Names(log)[begin + j]);
    }
  }

  lemma NameOf(items: seq<Item>, log: seq<Item>, begin: nat, id: nat)
    requires EntryTags(items) && C.Distinct(items) && InForce(items, log, begin)
    requires forall i :: 0 <= i < |log| ==> ItemOk(log[i])
    requires id < |Names(items)| && Named(Names(items)[id])
    ensures begin + id < |Names(log)| && Named(Names(log)[begin + id])
    ensures Names(log)[begin + id][NAME_CLASS] == Names(items)[id][NAME_CLASS]
  {
    hide Run, C.Distinct, InForce, EntryTags, ItemOk;
    NameFrom(items, log, begin, id);
    SameNameKey(log, begin + id);
  }

  lemma SamePlace(e: Entry, f: Entry, e': Entry, f': Entry)
    requires Named(e) && Named(f) && Named(e') && Named(f') && Precedes(e', f')
    requires e[NAME_CLASS] == e'[NAME_CLASS] && f[NAME_CLASS] == f'[NAME_CLASS]
    ensures Precedes(e, f)
  {
  }

  lemma {:induction false} NoneSpliced(items: seq<Item>)
    requires EntryTags(items)
    ensures NoSplices(items)
  {
  }

  lemma NamesBounded(items: seq<Item>)
    requires EntryTags(items)
    ensures |Names(items)| <= NO_ID
    decreases |items|
  {
    if items != [] {
      NamesBounded(items[..|items| - 1]);
    }
  }

  /** What compaction writes is tidy, whatever the order of its tags. */
  lemma {:induction false} CompactedTidy(items: seq<Item>, log: seq<Item>, begin: nat)
    requires EntryTags(items) && C.Distinct(items) && InForce(items, log, begin)
    requires forall i :: 0 <= i < |items| ==> IsName(items[i].tag) ==> !IsDelete(items[i].tag)
    requires (forall i :: 0 <= i < |log| ==> ItemOk(log[i])) && Sorted(Names(log))
    ensures Tidy(items)
    decreases |items|
  {
    hide Run, Sorted, ItemOk, Names;
    if items != [] {
      var n := |items| - 1;
      var init, a := items[..n], items[n];
      CompactedTidy(init, log, begin);
      NamesSorted(items, log, begin);
      NamesBounded(items);
      NoneSpliced(init);
      if IsName(a.tag) && a.tag.id < |Names(init)| && Named(Names(init)[a.tag.id]) {
        NameFrom(init, log, begin, a.tag.id);
        NameKey(a.tag);
      }
      EntryNotSplice(a);
      assert items == init + [a];
      TidySnoc(init, a);
    }
  }

  /** ... in particular what the traversal of a log in order writes, unless it ends in a removal. */
  lemma TraversedTidy(log: seq<Item>, out: seq<Item>, begin: nat, end: nat)
    requires WellFormed(log) && Sorted(Names(log)) && WellFormed(out)
    requires C.NothingStale(log, out, begin) && C.OnlyEntries(out, end - begin) && !C.HasRemoval(out)
    ensures Tidy(out)
  {
    hide Run, Sorted, Names;
    CompactedTidy(out, log, begin);
  }

  lemma NameKey(t: Tag)
    requires IsName(t)
    ensures Key(Unique, t.typ) == NAME_CLASS
  {
  }

  lemma EntryNotSplice(a: Item)
    requires IsEntryTag(a.tag)
    ensures !IsSplice(a.tag) && !IsNoop(a.tag)
  {
  }
}
