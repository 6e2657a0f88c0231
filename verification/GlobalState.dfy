/** The global state: one small record, stored as the xor of a delta in every metadata pair, so that
    a commit to any pair can change it in the same stroke.
 */
module GlobalState {
  import opened Basics
  import opened Tags
  import opened Words
  import opened Replay

  /** The tag word (the top bit says that there are orphans, the size counts them in memory, type and
      id describe a pending move) and the pair the move is out of.
   */
  datatype G = G(top: bool, tag: Tag, pair0: nat, pair1: nat)

  const ZERO := G(false, Tag(0, 0, 0), 0, 0)

  function XorG(a: G, b: G): G {
    G(a.top != b.top,
      Tag(Xor(a.tag.typ, b.tag.typ), Xor(a.tag.id, b.tag.id), Xor(a.tag.size, b.tag.size)),
      Xor(a.pair0, b.pair0), Xor(a.pair1, b.pair1))
  }

  /** Without the count of orphans, which is not stored. */
  function Mask(g: G): G {
    g.(tag := g.tag.(size := 0))
  }

  predicate HasMove(g: G) {
    Type1(g.tag) != 0
  }

  predicate MoveHere(g: G, a: Addr) {
    HasMove(g) && SamePair((g.pair0, g.pair1), a)
  }

  lemma XorGComm(a: G, b: G)
    ensures XorG(a, b) == XorG(b, a)
  {
    XorComm(a.tag.typ, b.tag.typ);
    XorComm(a.tag.id, b.tag.id);
    XorComm(a.tag.size, b.tag.size);
    XorComm(a.pair0, b.pair0);
    XorComm(a.pair1, b.pair1);
  }

  lemma XorGAssoc(a: G, b: G, c: G)
    ensures XorG(XorG(a, b), c) == XorG(a, XorG(b, c))
  {
    XorAssoc(a.tag.typ, b.tag.typ, c.tag.typ);
    XorAssoc(a.tag.id, b.tag.id, c.tag.id);
    XorAssoc(a.tag.size, b.tag.size, c.tag.size);
    XorAssoc(a.pair0, b.pair0, c.pair0);
    XorAssoc(a.pair1, b.pair1, c.pair1);
  }

  lemma XorGSelf(a: G)
    ensures XorG(a, a) == ZERO && XorG(a, ZERO) == a && XorG(ZERO, a) == a
  {
    XorSelf(a.tag.typ);
    XorSelf(a.tag.id);
    XorSelf(a.tag.size);
    XorSelf(a.pair0);
    XorSelf(a.pair1);
  }

  lemma MaskXor(a: G, b: G)
    ensures Mask(XorG(a, b)) == XorG(Mask(a), Mask(b)) && Mask(Mask(a)) == Mask(a)
  {
  }

  // ----- the pairs on disk

  /** A metadata pair: its blocks, its directory entries, its share of the global state, and whether the
      pair it links to goes on with the same directory.
   */
  datatype Pair = Pair(addr: Addr, dir: Dir, delta: G, split: bool)

  /** No share holds a count of orphans. */
  predicate AllMasked(pairs: seq<Pair>) {
    forall i :: 0 <= i < |pairs| ==> Mask(pairs[i].delta) == pairs[i].delta
  }

  function Total(pairs: seq<Pair>): G {
    if pairs == [] then ZERO else XorG(Total(pairs[..|pairs| - 1]), pairs[|pairs| - 1].delta)
  }

  /** Adding to one pair's share adds to the total. */
  lemma {:induction false} TotalAdd(pairs: seq<Pair>, i: nat, p: Pair, d: G)
    requires i < |pairs| && p.delta == XorG(pairs[i].delta, d)
    ensures Total(pairs[i := p]) == XorG(Total(pairs), d)
  {
    hide XorG;
    var n := |pairs| - 1;
    var q := pairs[i := p];
    if i == n {
      assert q[..n] == pairs[..n];
      XorGAssoc(Total(pairs[..n]), pairs[n].delta, d);
    } else {
      assert q[..n] == pairs[..n][i := p];
      TotalAdd(pairs[..n], i, p, d);
      var t, e := Total(pairs[..n]), pairs[n].delta;
      XorGAssoc(t, d, e);
      XorGComm(d, e);
      XorGAssoc(t, e, d);
    }
  }

  function Without(pairs: seq<Pair>, i: nat): seq<Pair>
    requires i < |pairs|
  {
    pairs[..i] + pairs[i + 1..]
  }

  /** The pairs after the one behind pair i was unlinked, with a new share for pair i. */
  function Unlinked(pairs: seq<Pair>, i: nat, share: G): seq<Pair>
    requires i + 1 < |pairs|
  {
    Without(pairs, i + 1)[i := pairs[i].(delta := share, split := pairs[i + 1].split)]
  }

  lemma {:induction false} TotalWithout(pairs: seq<Pair>, i: nat)
    requires i < |pairs|
    ensures XorG(Total(Without(pairs, i)), pairs[i].delta) == Total(pairs)
  {
    hide XorG;
    var n := |pairs| - 1;
    if i == n {
      assert Without(pairs, i) == pairs[..n];
    } else {
      assert Without(pairs, i)[..n - 1] == Without(pairs[..n], i);
      TotalWithout(pairs[..n], i);
      var t, e, d := Total(Without(pairs[..n], i)), pairs[n].delta, pairs[i].delta;
      XorGAssoc(t, e, d);
      XorGComm(e, d);
      XorGAssoc(t, d, e);
    }
  }

  lemma {:induction false} TotalConcat(a: seq<Pair>, b: seq<Pair>)
    ensures Total(a + b) == XorG(Total(a), Total(b))
  {
    hide XorG;
    if b == [] {
      assert a + b == a;
      XorGSelf(Total(a));
    } else {
      var n := |b| - 1;
      assert (a + b)[..|a + b| - 1] == a + b[..n];
      TotalConcat(a, b[..n]);
      XorGAssoc(Total(a), Total(b[..n]), b[n].delta);
    }
  }

  /** A part of a directory that goes to a new pair. */
  datatype Cut = Cut(addr: Addr, dir: Dir)

  /** The new pairs of a split. The last one is written first and takes the change. */
  function Tails(cuts: seq<Cut>, change: G, split: bool): (tails: seq<Pair>)
    ensures |tails| == |cuts|
  {
    if cuts == [] then []
    else
      var last := |cuts| == 1;
      [Pair(cuts[0].addr, cuts[0].dir, if last then change else ZERO, !last || split)]
      + Tails(cuts[1..], change, split)
  }

  lemma TailsFrom(cuts: seq<Cut>, j: nat, change: G, split: bool)
    requires j <= |cuts|
    ensures j == |cuts| ==> Tails(cuts[j..], change, split) == []
    ensures j < |cuts| ==> var last := j + 1 == |cuts|;
              Tails(cuts[j..], change, split) ==
              [Pair(cuts[j].addr, cuts[j].dir, if last then change else ZERO, !last || split)]
              + Tails(cuts[j + 1..], change, split)
  {
    if j < |cuts| {
      assert cuts[j..][1..] == cuts[j + 1..];
    }
  }

  lemma {:induction false} TailsTotal(cuts: seq<Cut>, change: G, split: bool)
    ensures Total(Tails(cuts, change, split)) == if cuts == [] then ZERO else change
    ensures Mask(change) == change ==> AllMasked(Tails(cuts, change, split))
  {
    hide XorG;
    if cuts != [] {
      var tails := Tails(cuts, change, split);
      TailsTotal(cuts[1..], change, split);
      assert tails == [tails[0]] + tails[1..] && [tails[0]][..0] == [];
      TotalConcat([tails[0]], tails[1..]);
      XorGSelf(tails[0].delta);
      XorGSelf(change);
    }
  }

  /** The pairs after pair i got new tails. */
  function Linked(pairs: seq<Pair>, i: nat, front: Dir, tails: seq<Pair>): seq<Pair>
    requires i < |pairs|
  {
    pairs[..i] + [pairs[i].(dir := front, split := true)] + tails + pairs[i + 1..]
  }

  lemma LinkedTotal(pairs: seq<Pair>, i: nat, front: Dir, tails: seq<Pair>)
    requires i < |pairs|
    ensures Total(Linked(pairs, i, front, tails)) == XorG(Total(pairs), Total(tails))
  {
    hide XorG, Total;
    var head, rest := pairs[i].(dir := front, split := true), pairs[i + 1..];
    var pre := pairs[..i] + [head];
    TotalConcat(pre + tails, rest);
    TotalConcat(pre, tails);
    assert pairs[i := head] == pre + rest;
    TotalConcat(pre, rest);
    XorGSelf(head.delta);
    TotalAdd(pairs, i, head, ZERO);
    XorGSelf(Total(pairs));
    var x, y, z := Total(pre), Total(tails), Total(rest);
    XorGAssoc(x, y, z);
    XorGComm(y, z);
    XorGAssoc(x, z, y);
  }

  function ApplyAll(d: Dir, attrs: seq<Item>): Dir {
    if attrs == [] then d else Apply(Unique, ApplyAll(d, attrs[..|attrs| - 1]), attrs[|attrs| - 1])
  }

  /** How a commit is written: appended to the log, by rewriting it, or by dividing the pair. */
  datatype How = Appended | Rewritten | Divided(front: Dir, cuts: seq<Cut>)

  function CutEntries(cuts: seq<Cut>): seq<Entry> {
    if cuts == [] then [] else cuts[0].dir.entries + CutEntries(cuts[1..])
  }

  /** The parts have just the entries of the directory with the attributes applied. */
  predicate HowOk(how: How, d: Dir, attrs: seq<Item>) {
    how.Divided? ==>
      && how.cuts != []
      && how.front.entries + CutEntries(how.cuts) == ApplyAll(d, attrs).entries
  }

  /** The pairs after a commit to pair i. */
  function Committed(pairs: seq<Pair>, i: nat, attrs: seq<Item>, how: How, change: G): seq<Pair>
    requires i < |pairs|
  {
    match how
    case Divided(front, cuts) => Linked(pairs, i, front, Tails(cuts, change, pairs[i].split))
    case _ => pairs[i := pairs[i].(dir := ApplyAll(pairs[i].dir, attrs), delta := XorG(pairs[i].delta, change))]
  }

  function DeleteItem(id: nat): Item {
    Item(Tag(DELETE, id, 0), [])
  }

  /** What mounting makes of the stored state: orphans are counted as one if there are any. */
  function Mounted(pairs: seq<Pair>): G {
    var g := Total(pairs);
    if g.top then g.(tag := g.tag.(size := g.tag.size + 1)) else g
  }

  class FileSystem {
    var pairs: seq<Pair>
    var gstate: G
    var gdisk: G
    var gdelta: G
    ghost var trace: seq<seq<Pair>>   // the disk after each commit

    /** Conservation: the shares on disk, and the one being carried between pairs, make up the state
        of the last commit.
     */
    ghost predicate Valid()
      reads this
    {
      && XorG(Total(pairs), gdelta) == Mask(gdisk)
      && AllMasked(pairs) && Mask(gdelta) == gdelta
      && trace != [] && trace[|trace| - 1] == pairs && forall k :: 0 <= k < |trace| ==> AllMasked(trace[k])
    }

    constructor Mount(pairs: seq<Pair>)
      requires AllMasked(pairs)
      ensures Valid() && gstate == gdisk == Mounted(pairs) && gdelta == ZERO && this.pairs == pairs
      ensures trace == [pairs] && Mask(gdisk) == Total(pairs)
    {
      this.pairs := pairs;
      gstate := Mounted(pairs);
      gdisk := Mounted(pairs);
      gdelta := ZERO;
      trace := [pairs];
      new;
      TotalMasked(pairs);
      XorGSelf(Total(pairs));
    }

    /** The share a commit has to write: what changed since the last commit, and what was taken over. */
    ghost function Change(): G
      reads this
    {
      Mask(XorG(XorG(gstate, gdisk), gdelta))
    }

    /** The share of pair i once it has the change and the share of the pair behind it. */
    ghost function Takeover(i: nat): G
      reads this
      requires i + 1 < |pairs|
    {
      XorG(Mask(XorG(XorG(gstate, gdisk), XorG(gdelta, pairs[i + 1].delta))), pairs[i].delta)
    }

    /** A commit of attributes to one pair. Appended or rewritten, it stores the same share. */
    method Commit(i: nat, attrs: seq<Item>, how: How)
      requires Valid() && i < |pairs| && HowOk(how, pairs[i].dir, attrs)
      modifies this
      ensures Valid() && gdisk == gstate == old(gstate) && gdelta == ZERO && Total(pairs) == Mask(gstate)
      ensures pairs == Committed(old(pairs), i, attrs, how, old(Change()))
      ensures old(trace) < trace && trace[|trace| - 1] == pairs
      ensures forall k :: old(|trace|) <= k < |trace| - 1 ==> trace[k] == old(pairs)
    {
      hide XorG, Total, ApplyAll, AllMasked;
      if how.Divided? {
        Split(i, how.front, how.cuts);
      } else {
        Store(i, attrs, how.Appended?);
      }
    }

    method Store(i: nat, attrs: seq<Item>, append: bool)
      requires Valid() && i < |pairs|
      modifies this
      ensures Valid() && gdisk == gstate == old(gstate) && gdelta == ZERO && Total(pairs) == Mask(gstate)
      ensures pairs == old(pairs)[i := old(pairs)[i].(dir := ApplyAll(old(pairs)[i].dir, attrs),
                                                      delta := XorG(old(pairs)[i].delta, old(Change())))]
      ensures trace == old(trace) + [pairs]
    {
      hide XorG, ApplyAll;
      var delta := Mask(XorG(XorG(gstate, gdisk), gdelta));
      var stored := pairs[i].delta;
      XorGSelf(stored);
      XorGComm(delta, stored);
      if append {
        if delta != ZERO {
          stored := XorG(delta, stored);
        }
      } else {
        stored := XorG(delta, stored);
      }
      Conserved(pairs, gstate, gdisk, gdelta);
      MaskXor(delta, pairs[i].delta);
      var now := pairs[i].(dir := ApplyAll(pairs[i].dir, attrs), delta := stored);
      TotalAdd(pairs, i, now, delta);
      pairs := pairs[i := now];
      gdisk := gstate;
      gdelta := ZERO;
      XorGSelf(Total(pairs));
      trace := trace + [pairs];
    }

    /** Drop the pair behind pair i: its share is taken over by pair i in the commit that unlinks it. */
    method Drop(i: nat)
      requires Valid() && i + 1 < |pairs|
      modifies this
      ensures Valid() && gdisk == gstate == old(gstate) && gdelta == ZERO && Total(pairs) == Mask(gstate)
      ensures pairs == old(Unlinked(pairs, i, Takeover(i)))
      ensures trace == old(trace) + [pairs]
    {
      hide XorG, Total, Without, Unlinked, AllMasked;
      ghost var share := Takeover(i);
      gdelta := XorG(gdelta, pairs[i + 1].delta);
      var delta := Mask(XorG(XorG(gstate, gdisk), gdelta));
      var stored := XorG(delta, pairs[i].delta);
      UnlinkedTotal(pairs, i, gstate, gdisk, old(gdelta));
      pairs := Unlinked(pairs, i, stored);
      gdisk := gstate;
      gdelta := ZERO;
      XorGSelf(Total(pairs));
      trace := trace + [pairs];
    }

    /** A commit that deletes entry `id` of pair i. When that leaves the pair empty and the pair before it
        belongs to the same directory, the pair is dropped first, and the tag is written where nothing
        links to any more.
     */
    method Delete(i: nat, id: nat, how: How)
      requires Valid() && i < |pairs| && HowOk(how, pairs[i].dir, [DeleteItem(id)])
      modifies this
      ensures Valid() && gdisk == gstate == old(gstate) && gdelta == ZERO && Total(pairs) == Mask(gstate)
      ensures if Drops(old(pairs), i) then pairs == old(Unlinked(pairs, i - 1, Takeover(i - 1)))
              else pairs == Committed(old(pairs), i, [DeleteItem(id)], how, old(Change()))
      ensures old(trace) < trace && trace[|trace| - 1] == pairs
      ensures forall k :: old(|trace|) <= k < |trace| ==> trace[k] == pairs || trace[k] == old(pairs)
    {
      hide XorG, Total, Unlinked, AllMasked, ApplyAll, Committed, HowOk;
      if Drops(pairs, i) {
        Drop(i - 1);
        trace := trace + [pairs];
      } else {
        Commit(i, [DeleteItem(id)], how);
      }
    }

    /** Split pair i: the new pairs behind it are written first, from the last to the first, and the one
        that comes first takes the change; then pair i is rewritten with its own share and links to them.
        While only new pairs are written, the linked pairs on disk are the old ones.
     */
    method Split(i: nat, front: Dir, cuts: seq<Cut>)
      requires Valid() && i < |pairs| && cuts != []
      modifies this
      ensures Valid() && gdisk == gstate == old(gstate) && gdelta == ZERO && Total(pairs) == Mask(gstate)
      ensures pairs == Linked(old(pairs), i, front, Tails(cuts, old(Change()), old(pairs)[i].split))
      ensures |trace| == old(|trace|) + |cuts| + 1 && old(trace) <= trace && trace[|trace| - 1] == pairs
      ensures forall k :: old(|trace|) <= k < |trace| - 1 ==> trace[k] == old(pairs)
    {
      hide XorG, Total, AllMasked, Linked, Tails, Mask;
      Conserved(pairs, gstate, gdisk, gdelta);
      ghost var change := Change();
      NothingLeft(gstate, gdisk, gdelta);
      var tails, j := [], |cuts|;
      TailsFrom(cuts, j, change, pairs[i].split);
      while j > 0
        invariant 0 <= j <= |cuts| && |trace| == old(|trace|) + |cuts| - j && old(trace) <= trace
        invariant pairs == old(pairs) && gstate == old(gstate)
        invariant if j == |cuts| then change == Change() else gdisk == gstate && gdelta == ZERO
        invariant tails == Tails(cuts[j..], change, pairs[i].split)
        invariant forall k :: 0 <= k < |trace| ==> AllMasked(trace[k])
        invariant forall k :: old(|trace|) <= k < |trace| ==> trace[k] == pairs
      {
        NothingLeft(gstate, gdisk, gdelta);
        var delta := Mask(XorG(XorG(gstate, gdisk), gdelta));
        j := j - 1;
        TailsFrom(cuts, j, change, pairs[i].split);
        tails := [Pair(cuts[j].addr, cuts[j].dir, delta, j + 1 < |cuts| || pairs[i].split)] + tails;
        gdisk := gstate;
        gdelta := ZERO;
        trace := trace + [pairs];
      }
      assert cuts[0..] == cuts;
      NothingLeft(gstate, gdisk, gdelta);
      // what is left for pair i to add to its share is nothing
      var delta := Mask(XorG(XorG(gstate, gdisk), gdelta));
      XorGSelf(pairs[i].delta);
      LinkedMasked(pairs, i, front, cuts, change);
      var own := pairs[i := pairs[i].(delta := XorG(delta, pairs[i].delta))];
      assert own == pairs;
      pairs := Linked(own, i, front, tails);
      XorGSelf(Total(pairs));
      trace := trace + [pairs];
    }

    /** Note a pending move out of a pair, in memory; id 0x3ff clears it. */
    method PrepMove(id: nat, a: Addr)
      modifies this`gstate
      ensures gstate.top == old(gstate.top) && gstate.tag.size == old(gstate.tag.size)
      ensures if id != NO_ID then gstate.tag.typ == DELETE && gstate.tag.id == id && (gstate.pair0, gstate.pair1) == a
              else gstate == G(old(gstate.top), Tag(0, 0, old(gstate.tag.size)), 0, 0)
    {
      gstate := if id != NO_ID then G(gstate.top, Tag(DELETE, id, gstate.tag.size), a.0, a.1)
                else G(gstate.top, Tag(0, 0, gstate.tag.size), 0, 0);
    }
  }

  /** Deleting an entry of pair i leaves it empty, behind a pair of the same directory. */
  predicate Drops(pairs: seq<Pair>, i: nat)
    requires i < |pairs|
  {
    i > 0 && pairs[i - 1].split && |pairs[i].dir.entries| == 1
  }

  /** The pairs after a split hold the old total and the change. */
  lemma LinkedMasked(pairs: seq<Pair>, i: nat, front: Dir, cuts: seq<Cut>, change: G)
    requires i < |pairs| && cuts != [] && AllMasked(pairs) && Mask(change) == change
    ensures var after := Linked(pairs, i, front, Tails(cuts, change, pairs[i].split));
            Total(after) == XorG(Total(pairs), change) && AllMasked(after)
  {
    hide XorG, Total, Mask;
    TailsTotal(cuts, change, pairs[i].split);
    LinkedTotal(pairs, i, front, Tails(cuts, change, pairs[i].split));
  }

  lemma NothingLeft(gstate: G, gdisk: G, gdelta: G)
    ensures Mask(Mask(XorG(XorG(gstate, gdisk), gdelta))) == Mask(XorG(XorG(gstate, gdisk), gdelta))
    ensures gdisk == gstate && gdelta == ZERO ==> Mask(XorG(XorG(gstate, gdisk), gdelta)) == ZERO
  {
    XorGSelf(gstate);
    XorGSelf(ZERO);
  }

  lemma {:induction false} TotalMasked(pairs: seq<Pair>)
    requires AllMasked(pairs)
    ensures Mask(Total(pairs)) == Total(pairs)
  {
    if pairs != [] {
      TotalMasked(pairs[..|pairs| - 1]);
      MaskXor(Total(pairs[..|pairs| - 1]), pairs[|pairs| - 1].delta);
    }
  }

  /** Adding the change to the total turns the old state into the new one. */
  lemma Conserved(pairs: seq<Pair>, gstate: G, gdisk: G, gdelta: G)
    requires XorG(Total(pairs), gdelta) == Mask(gdisk) && Mask(gdelta) == gdelta
    ensures XorG(Total(pairs), Mask(XorG(XorG(gstate, gdisk), gdelta))) == Mask(gstate)
  {
    hide XorG;
    var t, s, d := Total(pairs), Mask(gstate), Mask(gdisk);
    MaskXor(XorG(gstate, gdisk), gdelta);
    MaskXor(gstate, gdisk);
    // t = d + gdelta
    XorGAssoc(t, gdelta, gdelta);
    XorGSelf(gdelta);
    XorGSelf(t);
    // t + ((s + d) + gdelta) = (d + gdelta) + (gdelta + (d + s)) = s
    XorGComm(XorG(s, d), gdelta);
    XorGComm(s, d);
    XorGAssoc(t, gdelta, XorG(d, s));
    XorGAssoc(d, d, s);
    XorGSelf(d);
    XorGSelf(s);
  }

  /** The pair behind pair i is gone and its share came to pair i. */
  lemma UnlinkedTotal(pairs: seq<Pair>, i: nat, gstate: G, gdisk: G, gdelta: G)
    requires i + 1 < |pairs| && XorG(Total(pairs), gdelta) == Mask(gdisk) && Mask(gdelta) == gdelta && AllMasked(pairs)
    ensures var delta := Mask(XorG(XorG(gstate, gdisk), XorG(gdelta, pairs[i + 1].delta)));
            var after := Unlinked(pairs, i, XorG(delta, pairs[i].delta));
            Total(after) == Mask(gstate) && AllMasked(after)
  {
    hide XorG, Total, Mask;
    var j := i + 1;
    TotalWithout(pairs, j);
    var t, e := Total(Without(pairs, j)), pairs[j].delta;
    var delta := Mask(XorG(XorG(gstate, gdisk), XorG(gdelta, e)));
    XorGAssoc(t, e, gdelta);
    XorGComm(e, gdelta);
    MaskXor(gdelta, e);
    Conserved(Without(pairs, j), gstate, gdisk, XorG(gdelta, e));
    XorGComm(delta, pairs[i].delta);
    TotalAdd(Without(pairs, j), i, pairs[i].(delta := XorG(delta, pairs[i].delta), split := pairs[j].split), delta);
    MaskXor(XorG(XorG(gstate, gdisk), XorG(gdelta, e)), e);
    MaskXor(delta, pairs[i].delta);
  }
}
