/** Open files and directories after a commit: every handle on the pair is moved along with its entry,
    cut loose when the entry was deleted, and carried to the half that holds it after a split.
 */
module Handles {
  import opened Basics
  import opened Tags
  import opened Replay
  import opened Compaction

  const NULL: nat := 0xffff_ffff
  const NOWHERE: Addr := (NULL, NULL)

  datatype Mdir = Mdir(pair: Addr, count: nat, split: bool, tail: Addr)

  datatype View = View(m: Mdir, id: nat, pos: int)

  class Handle {
    var m: Mdir
    var id: nat
    var pos: int
    const isDir: bool

    constructor (m: Mdir, id: nat, pos: int, isDir: bool)
      ensures this.m == m && this.id == id && this.pos == pos && this.isDir == isDir
    {
      this.m, this.id, this.pos, this.isDir := m, id, pos, isDir;
    }

    function Now(): View
      reads this
    {
      View(m, id, pos)
    }

    /** Follow the entry through the tags of one commit. */
    method Follow(dir: Mdir, attrs: seq<Item>)
      modifies this
      ensures Followed(attrs, dir, isDir, old(Now()), Now())
    {
      m := dir;
      ghost var gone := false;
      for i := 0 to |attrs|
        invariant gone <==> Carried(attrs[..i], old(id)).None?
        invariant gone ==> m == dir.(pair := NOWHERE)
        invariant !gone ==> m == dir && Carried(attrs[..i], old(id)) == Some(id)
        invariant !gone ==> pos - old(pos) == if isDir then id - old(id) else 0
      {
        assert attrs[..i + 1][..i] == attrs[..i];
        var t := attrs[i].tag;
        if t.typ == DELETE && id == t.id {
          m := m.(pair := NOWHERE);
          gone := true;
        } else if t.typ == DELETE && id > t.id {
          id := id - 1;
          if isDir {
            pos := pos - 1;
          }
        } else if t.typ == CREATE && id >= t.id {
          id := id + 1;
          if isDir {
            pos := pos + 1;
          }
        }
      }
      assert attrs[..|attrs|] == attrs;
    }

    /** After a split the entry may be on a later pair of the chain. */
    method Descend(chain: seq<Mdir>)
      requires Chain(chain) && m == chain[0]
      modifies this
      ensures pos == old(pos) && Settled(chain, old(id), m, id)
    {
      var k := 0;
      while id >= m.count && m.split
        invariant 0 <= k < |chain| && m == chain[k] && pos == old(pos)
        invariant Ahead(chain, k) + id == old(id)
        decreases |chain| - k
      {
        id := id - m.count;
        k := k + 1;
        m := chain[k];  // the pair fetched at the tail of the previous one
      }
      assert SettledAt(chain, old(id), m, id, k);
    }
  }

  /** Where the entry at `id` is after the tags, if it is still there. */
  function Carried(attrs: seq<Item>, id: nat): Option<nat> {
    if attrs == [] then Some(id)
    else
      match Carried(attrs[..|attrs| - 1], id)
      case None => None
      case Some(j) => Moved(attrs[|attrs| - 1].tag, j)
  }

  predicate Followed(attrs: seq<Item>, dir: Mdir, isDir: bool, was: View, now: View) {
    match Carried(attrs, was.id)
    case None => now.m.pair == NOWHERE
    case Some(j) => now == View(dir, j, was.pos + if isDir then j - was.id else 0)
  }

  // ----- what following means for the entries

  /** The positions of the old entries after the tags, and -1 for the new ones. */
  function Labels(attrs: seq<Item>, n: nat): seq<int> {
    if attrs == [] then seq(n, i => i)
    else
      var s, t := Labels(attrs[..|attrs| - 1], n), attrs[|attrs| - 1].tag;
      if t.typ == CREATE && t.id <= |s| then Inserted(s, t.id)
      else if t.typ == DELETE && t.id < |s| then Removed(s, t.id)
      else s
  }

  /** Every splice is at an entry that is there. */
  predicate InRange(attrs: seq<Item>, n: nat) {
    forall i :: 0 <= i < |attrs| ==>
      && (attrs[i].tag.typ == CREATE ==> attrs[i].tag.id <= |Labels(attrs[..i], n)|)
      && (attrs[i].tag.typ == DELETE ==> attrs[i].tag.id < |Labels(attrs[..i], n)|)
  }

  function Inserted(s: seq<int>, i: nat): seq<int>
    requires i <= |s|
  {
    s[..i] + [-1] + s[i..]
  }

  function Removed(s: seq<int>, i: nat): seq<int>
    requires i < |s|
  {
    s[..i] + s[i + 1..]
  }

  /** Entry `id` of `n` is at `j`, or `j` is the end for the end; what was before it is before it, what
      was behind it behind, and only new entries are anywhere.
   */
  predicate StandsAt(s: seq<int>, n: nat, id: nat, j: nat) {
    && (if id < n then j < |s| && s[j] == id else j == |s|)
    && (forall k :: 0 <= k < j ==> s[k] < id)
    && (forall k :: j < k < |s| ==> s[k] == -1 || s[k] > id)
  }

  lemma StandsInserted(s: seq<int>, n: nat, id: nat, j: nat, i: nat)
    requires StandsAt(s, n, id, j) && i <= |s|
    ensures StandsAt(Inserted(s, i), n, id, if i <= j then j + 1 else j)
  {
    var r := Inserted(s, i);
    assert forall k :: 0 <= k < |r| ==> r[k] == if k < i then s[k] else if k == i then -1 else s[k - 1];
  }

  lemma StandsRemoved(s: seq<int>, n: nat, id: nat, j: nat, i: nat)
    requires StandsAt(s, n, id, j) && i < |s|
    ensures i == j ==> id < n && id !in Removed(s, i)
    ensures i != j ==> StandsAt(Removed(s, i), n, id, if i < j then j - 1 else j)
  {
    var r := Removed(s, i);
    assert forall k :: 0 <= k < |r| ==> r[k] == if k < i then s[k] else s[k + 1];
  }

  lemma GoneStays(s: seq<int>, id: nat, i: nat)
    requires id !in s
    ensures i <= |s| ==> id !in Inserted(s, i)
    ensures i < |s| ==> id !in Removed(s, i)
  {
  }

  /** A handle that is still on the pair is on its own entry, with the same entries before and behind
      it; one is cut loose exactly when its entry is gone.
   */
  lemma {:induction false} CarriedIs(attrs: seq<Item>, n: nat, id: nat)
    requires InRange(attrs, n) && id <= n
    ensures match Carried(attrs, id)
      case None => id < n && id !in Labels(attrs, n)
      case Some(j) => StandsAt(Labels(attrs, n), n, id, j)
  {
    hide StandsAt, InRange, Inserted, Removed;
    if attrs == [] {
      StandsFirst(n, id);
    } else {
      var init, t := attrs[..|attrs| - 1], attrs[|attrs| - 1].tag;
      InRangePrefix(attrs, n);
      CarriedIs(init, n, id);
      var s := Labels(init, n);
      match Carried(init, id) {
        case None =>
          GoneStays(s, id, t.id);
        case Some(j) =>
          if t.typ == CREATE {
            StandsInserted(s, n, id, j, t.id);
          } else if t.typ == DELETE {
            StandsRemoved(s, n, id, j, t.id);
          }
      }
    }
  }

  lemma StandsFirst(n: nat, id: nat)
    requires id <= n
    ensures StandsAt(seq(n, i => i), n, id, id)
  {
  }

  lemma InRangePrefix(attrs: seq<Item>, n: nat)
    requires attrs != [] && InRange(attrs, n)
    ensures InRange(attrs[..|attrs| - 1], n)
    ensures var s, t := Labels(attrs[..|attrs| - 1], n), attrs[|attrs| - 1].tag;
      (t.typ == CREATE ==> t.id <= |s|) && (t.typ == DELETE ==> t.id < |s|)
  {
    var init := attrs[..|attrs| - 1];
    assert forall i :: 0 <= i < |init| ==> init[i] == attrs[i] && init[..i] == attrs[..i];
  }

  /** The attributes of one entry after the tags that are addressed to it. */
  function Rewritten(m: KeyMode, attrs: seq<Item>, id: nat, e: Entry): Entry
    requires m.Ok()
  {
    if attrs == [] then e
    else
      var a, before := attrs[|attrs| - 1], Rewritten(m, attrs[..|attrs| - 1], id, e);
      if IsEntryTag(a.tag) && Carried(attrs[..|attrs| - 1], id) == Some(a.tag.id)
      then SetKey(before, Key(m, a.tag.typ), a) else before
  }

  /** Through the moved handle the log reads as the old entry with just its own rewrites. */
  lemma {:induction false} CarriedReads(m: KeyMode, log: seq<Item>, attrs: seq<Item>, id: nat)
    requires m.Ok() && Carried(attrs, id).Some?
    ensures At(Run(m, log + attrs), Carried(attrs, id).value) == Rewritten(m, attrs, id, At(Run(m, log), id))
  {
    if attrs == [] {
      assert log + attrs == log;
    } else {
      var init, a := attrs[..|attrs| - 1], attrs[|attrs| - 1];
      assert log + attrs == log + init + [a];
      RunSnoc(m, log + init, a);
      CarriedReads(m, log, init, id);
      AtMoved(m, Run(m, log + init), a, Carried(init, id).value);
    }
  }

  lemma AtMoved(m: KeyMode, d: Dir, a: Item, id: nat)
    requires m.Ok() && Moved(a.tag, id).Some?
    ensures At(Apply(m, d, a), Moved(a.tag, id).value) ==
            if IsEntryTag(a.tag) && a.tag.id == id then SetKey(At(d, id), Key(m, a.tag.typ), a) else At(d, id)
  {
    hide At, Apply, SetKey, Key;
    if IsSplice(a.tag) {
      AtSplice(m, d, a, Moved(a.tag, id).value);
    } else {
      AtOther(m, d, a, id);
    }
  }

  // ----- a chain of pairs

  /** The pairs of one directory joined by hard tails, the last one without. */
  predicate Chain(chain: seq<Mdir>) {
    && chain != []
    && (forall k :: 0 <= k < |chain| - 1 ==> chain[k].split && chain[k].tail == chain[k + 1].pair)
    && !chain[|chain| - 1].split
  }

  function Ahead(chain: seq<Mdir>, k: nat): nat
    requires k <= |chain|
  {
    if k == 0 then 0 else Ahead(chain, k - 1) + chain[k - 1].count
  }

  /** `m` is the pair of the chain that holds position `id`, at `within`. */
  ghost predicate Settled(chain: seq<Mdir>, id: nat, m: Mdir, within: nat) {
    exists k :: SettledAt(chain, id, m, within, k)
  }

  predicate SettledAt(chain: seq<Mdir>, id: nat, m: Mdir, within: nat, k: nat) {
    && k < |chain| && m == chain[k] && Ahead(chain, k) + within == id
    && (within < m.count || k == |chain| - 1)
  }

  function Flat(parts: seq<seq<Entry>>): seq<Entry> {
    if parts == [] then [] else Flat(parts[..|parts| - 1]) + parts[|parts| - 1]
  }

  lemma {:induction false} FlatAt(chain: seq<Mdir>, parts: seq<seq<Entry>>, k: nat, within: nat)
    requires |chain| == |parts| && (forall i :: 0 <= i < |parts| ==> |parts[i]| == chain[i].count)
    requires k < |parts| && within < |parts[k]|
    ensures |Flat(parts)| == Ahead(chain, |parts|) && Ahead(chain, k) + within < |Flat(parts)|
    ensures Flat(parts)[Ahead(chain, k) + within] == parts[k][within]
    decreases |parts|
  {
    var n := |parts| - 1;
    AheadPrefix(chain, n, n);
    AheadPrefix(chain, n, k);
    if k < n {
      FlatAt(chain[..n], parts[..n], k, within);
    } else {
      FlatSize(chain[..n], parts[..n]);
    }
  }

  lemma {:induction false} AheadPrefix(chain: seq<Mdir>, n: nat, k: nat)
    requires k <= n <= |chain|
    ensures Ahead(chain[..n], k) == Ahead(chain, k)
  {
    if k > 0 {
      AheadPrefix(chain, n, k - 1);
    }
  }

  lemma {:induction false} FlatSize(chain: seq<Mdir>, parts: seq<seq<Entry>>)
    requires |chain| == |parts| && forall i :: 0 <= i < |parts| ==> |parts[i]| == chain[i].count
    ensures |Flat(parts)| == Ahead(chain, |chain|)
    decreases |parts|
  {
    if parts != [] {
      var n := |parts| - 1;
      FlatSize(chain[..n], parts[..n]);
      AheadPrefix(chain, n, n);
    }
  }

  /** A position inside the chain settles on the part that holds its entry. */
  lemma SettledReads(chain: seq<Mdir>, parts: seq<seq<Entry>>, id: nat, m: Mdir, within: nat, k: nat)
    requires |chain| == |parts| && (forall i :: 0 <= i < |parts| ==> |parts[i]| == chain[i].count)
    requires SettledAt(chain, id, m, within, k) && id < |Flat(parts)|
    ensures within < |parts[k]| && parts[k][within] == Flat(parts)[id]
  {
    FlatSize(chain, parts);
    AheadPrefix(chain, |chain| - 1, |chain| - 1);
    FlatAt(chain, parts, k, within);
  }

  /** What a commit to the pair `old` does to one handle; `own` is the handle that made it. */
  ghost predicate Fixed(olddir: Addr, chain: seq<Mdir>, attrs: seq<Item>, own: bool, isDir: bool, was: View, now: View)
    requires chain != []
  {
    if own then now.pos == was.pos && Settled(chain, was.id, now.m, now.id)
    else if !SamePair(was.m.pair, olddir) then now == was
    else
      match Carried(attrs, was.id)
      case None => now.m.pair == NOWHERE
      case Some(j) =>
        && now.pos == was.pos + (if isDir then j - was.id else 0)
        && Settled(chain, j, now.m, now.id)
  }

  /** Fix up every open handle after a commit. */
  method FixUp(handles: seq<Handle>, own: Handle?, olddir: Addr, chain: seq<Mdir>, attrs: seq<Item>)
    requires Chain(chain) && SamePair(chain[0].pair, olddir) && olddir.0 != NULL && olddir.1 != NULL
    requires forall i, j :: 0 <= i < j < |handles| ==> handles[i] != handles[j]
    requires forall h :: h in handles && h == own ==> h.m == chain[0]
    modifies handles
    ensures forall i :: 0 <= i < |handles| ==>
      Fixed(olddir, chain, attrs, handles[i] == own, handles[i].isDir, old(handles[i].Now()), handles[i].Now())
  {
    hide Settled, Carried;
    for i := 0 to |handles|
      invariant forall j :: i <= j < |handles| ==> handles[j].Now() == old(handles[j].Now())
      invariant forall j :: 0 <= j < i ==>
        Half(olddir, chain[0], attrs, handles[j] == own, handles[j].isDir, old(handles[j].Now()), handles[j].Now())
    {
      var d := handles[i];
      if d != own && SamePair(d.m.pair, olddir) {
        d.Follow(chain[0], attrs);
      }
    }
    for i := 0 to |handles|
      invariant forall j :: i <= j < |handles| ==>
        Half(olddir, chain[0], attrs, handles[j] == own, handles[j].isDir, old(handles[j].Now()), handles[j].Now())
      invariant forall j :: 0 <= j < i ==>
        Fixed(olddir, chain, attrs, handles[j] == own, handles[j].isDir, old(handles[j].Now()), handles[j].Now())
    {
      var d := handles[i];
      if SamePair(d.m.pair, olddir) {
        d.Descend(chain);
      }
    }
  }

  /** There are at least as many entries as labels: only new names and attributes add any. */
  lemma {:induction false} LabelsFit(m: KeyMode, log: seq<Item>, attrs: seq<Item>, n: nat)
    requires m.Ok() && n <= |Run(m, log).entries| && InRange(attrs, n)
    ensures |Labels(attrs, n)| <= |Run(m, log + attrs).entries|
  {
    hide InRange, Run;
    if attrs == [] {
      assert log + attrs == log;
    } else {
      var init, a := attrs[..|attrs| - 1], attrs[|attrs| - 1];
      assert log + attrs == log + init + [a];
      InRangePrefix(attrs, n);
      LabelsFit(m, log, init, n);
      RunSnoc(m, log + init, a);
    }
  }

  /** The parts hold the entries, each as many as its pair counts. */
  predicate Holds(chain: seq<Mdir>, parts: seq<seq<Entry>>, entries: seq<Entry>) {
    && |chain| == |parts| && (forall i :: 0 <= i < |parts| ==> |parts[i]| == chain[i].count)
    && Flat(parts) == entries
  }

  /** The handle is on a part that holds `e` at its id. */
  ghost predicate On(chain: seq<Mdir>, parts: seq<seq<Entry>>, now: View, e: Entry) {
    exists k :: 0 <= k < |chain| && k < |parts| && now.m == chain[k] && now.id < |parts[k]| && parts[k][now.id] == e
  }

  /** After a commit is fixed up, a handle on one of the pair's entries is on the part that holds the
      entry, at the entry, which is the old one with just its own rewrites; or its entry is gone and
      the handle is cut loose. The handle that made the commit is on the entry it asked for.
   */
  lemma FixedReads(mode: KeyMode, log: seq<Item>, attrs: seq<Item>, olddir: Addr, chain: seq<Mdir>,
                   parts: seq<seq<Entry>>, own: bool, isDir: bool, was: View, now: View)
    requires mode.Ok() && chain != [] && Fixed(olddir, chain, attrs, own, isDir, was, now)
    requires Holds(chain, parts, Run(mode, log + attrs).entries)
    ensures own && was.id < |Flat(parts)| ==> On(chain, parts, now, Flat(parts)[was.id])
    ensures var before := Run(mode, log).entries;
            !own && SamePair(was.m.pair, olddir) && was.id < |before| && InRange(attrs, |before|) ==>
              if was.id in Labels(attrs, |before|)
              then On(chain, parts, now, Rewritten(mode, attrs, was.id, before[was.id]))
              else now.m.pair == NOWHERE
  {
    hide Run, Labels, InRange, Flat, Rewritten;
    var before := Run(mode, log).entries;
    if own {
      if was.id < |Flat(parts)| {
        SettledOn(chain, parts, was.id, now);
      }
    } else if SamePair(was.m.pair, olddir) && was.id < |before| && InRange(attrs, |before|) {
      CarriedIs(attrs, |before|, was.id);
      match Carried(attrs, was.id)
      case None =>
      case Some(j) =>
        LabelsFit(mode, log, attrs, |before|);
        CarriedReads(mode, log, attrs, was.id);
        SettledOn(chain, parts, j, now);
    }
  }

  lemma SettledOn(chain: seq<Mdir>, parts: seq<seq<Entry>>, id: nat, now: View)
    requires Settled(chain, id, now.m, now.id) && id < |Flat(parts)| && Holds(chain, parts, Flat(parts))
    ensures On(chain, parts, now, Flat(parts)[id])
  {
    hide Flat, SettledAt;
    var k: nat :| SettledAt(chain, id, now.m, now.id, k);
    SettledReads(chain, parts, id, now.m, now.id, k);
    SettledPart(chain, id, now.m, now.id, k);
  }

  lemma SettledPart(chain: seq<Mdir>, id: nat, m: Mdir, within: nat, k: nat)
    requires SettledAt(chain, id, m, within, k)
    ensures k < |chain| && m == chain[k]
  {
  }

  /** What the first of the two passes does. */
  predicate Half(olddir: Addr, dir: Mdir, attrs: seq<Item>, own: bool, isDir: bool, was: View, now: View) {
    if own then now == was && was.m == dir
    else if !SamePair(was.m.pair, olddir) then now == was
    else Followed(attrs, dir, isDir, was, now)
  }
}
