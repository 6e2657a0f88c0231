/** The running median: a chain of the buffered values, sorted from large to small, threaded
    through the circular buffer that holds them in order of arrival. One pass over the chain takes
    the oldest value out, puts the new one in and steps the median along at half speed.
 */
module Median {

  const NULL := -1

  /** A cell holds a value and names the next cell of the chain. */
  datatype Pair = Pair(point: int, value: int)

  function Values(c: seq<Pair>, order: seq<nat>): (v: seq<int>)
    requires forall i :: 0 <= i < |order| ==> order[i] < |c|
    ensures |v| == |order| && forall i :: 0 <= i < |v| ==> v[i] == c[order[i]].value
  {
    seq(|order|, i requires 0 <= i < |order| => c[order[i]].value)
  }

  predicate Within(order: seq<nat>, n: nat) {
    forall i :: 0 <= i < |order| ==> order[i] < n
  }

  predicate Distinct(order: seq<nat>) {
    forall i, j :: 0 <= i < j < |order| ==> order[i] != order[j]
  }

  predicate Descending(v: seq<int>) {
    forall i, j :: 0 <= i < j < |v| ==> v[i] >= v[j]
  }

  predicate Above(v: seq<int>, low: int) {
    forall i :: 0 <= i < |v| ==> v[i] > low
  }

  /** Following the links visits exactly this path. */
  predicate Linked(c: seq<Pair>, path: seq<nat>) {
    forall i :: 0 <= i < |path| - 1 ==> path[i] < |c| && c[path[i]].point == path[i + 1]
  }

  // ----- the chain in the middle of a pass

  /** The chain without the cell being replaced, and how far the pass has come: `s` of the other
      cells are behind it, and the new value went in before cell `ins` of them, unless `ins` is
      negative. The cell's old place is before cell `q` of the others, unless `q` is negative.
   */
  datatype Pass = Pass(n: nat, stopper: int, x: int, d: nat, others: seq<nat>, q: int) {
    function Small(): nat { n }

    function Big(): nat { n + 1 }

    function Node(s: nat): nat {
      if s < |others| then others[s] else Small()
    }

    function Front(s: nat, ins: int): (r: seq<nat>)
      requires s <= |others| && -1 <= ins <= s
    {
      if ins < 0 then others[..s] else others[..ins] + [d] + others[ins..s]
    }

    function Path(s: nat, ins: int): seq<nat>
      requires s <= |others| && -1 <= ins <= s
    {
      [Big()] + Front(s, ins) + [Node(s)]
    }

    ghost predicate Ok() {
      && d < n && Within(others, n) && Distinct(others) && d !in others
      && stopper < x && -1 <= q <= |others|
    }

    /** What never changes during the pass. */
    ghost predicate Fixed(c: seq<Pair>) {
      && Ok() && |c| == n + 2
      && c[Small()] == Pair(NULL, stopper) && c[d].value == x
      && Descending(Values(c, others)) && Above(Values(c, others), stopper)
    }

    /** The links ahead of the pass are as before it. */
    ghost predicate Ahead(c: seq<Pair>, s: nat)
      requires Fixed(c)
    {
      forall i :: s <= i < |others| ==> c[others[i]].point == if i + 1 == q then d else Node(i + 1)
    }

    /** The links behind the pass are final, and the new value is where it belongs. */
    ghost predicate Behind(c: seq<Pair>, s: nat, ins: int)
      requires Fixed(c)
    {
      && s <= |others| && -1 <= ins <= s
      && Linked(c, Path(s, ins))
      && (forall i :: 0 <= i < (if ins < 0 then s else ins) ==> c[others[i]].value >= x)
      && (ins >= 0 ==> forall i :: ins <= i < |others| ==> c[others[i]].value < x)
    }

    /** The cell under the scan is dealt with as well. */
    ghost predicate Done(c: seq<Pair>, s: nat, ins: int)
      requires Fixed(c)
    {
      && Behind(c, s, ins) && Ahead(c, s + 1)
      && (s < |others| ==> c[others[s]].point == Node(s + 1))
      && (ins < 0 ==> s < |others| && c[others[s]].value >= x)
    }

    // ----- one cell

    /** Taking the replaced cell out, if it comes next. */
    lemma ChainOut(c: seq<Pair>, c': seq<Pair>, s: nat, ins: int)
      requires Fixed(c) && Behind(c, s, ins) && Ahead(c, s)
      requires c' == if c[Node(s)].point == d then c[Node(s) := c[Node(s)].(point := Node(q))] else c
      ensures Fixed(c') && Behind(c', s, ins) && Ahead(c', s + 1)
      ensures s < |others| ==> c'[others[s]].point == Node(s + 1)
    {
      hide Path, Linked, Descending, Above;
      assert Values(c', others) == Values(c, others);
      ChainOutLinks(c, c', s, ins);
    }

    /** The links behind the pass do not go through the cell that changes. */
    lemma ChainOutLinks(c: seq<Pair>, c': seq<Pair>, s: nat, ins: int)
      requires Ok() && |c| == n + 2 && s <= |others| && -1 <= ins <= s && Linked(c, Path(s, ins))
      requires |c'| == |c| && forall k :: 0 <= k < |c| && k != Node(s) ==> c'[k] == c[k]
      ensures Linked(c', Path(s, ins))
    {
      if s < |others| {
        FrontWithout(s, ins, others[s]);
      }
    }

    lemma FrontWithout(s: nat, ins: int, k: nat)
      requires Ok() && s < |others| && -1 <= ins <= s && k == others[s]
      ensures k !in Front(s, ins) && k != Big()
    {
    }

    /** Putting the new value in before the cell under the scan. */
    lemma ChainIn(c: seq<Pair>, c': seq<Pair>, s: nat, prev: nat)
      requires Fixed(c) && Behind(c, s, -1) && Ahead(c, s + 1)
      requires s < |others| ==> c[others[s]].point == Node(s + 1)
      requires c[Node(s)].value < x
      requires prev == ([Big()] + others[..s])[s]
      requires c' == c[d := c[d].(point := c[prev].point)][prev := c[prev].(point := d)]
      ensures Fixed(c') && Done(c', s, s)
    {
      hide Linked, Path, Fixed;
      ChainInLinks(c, c', s, prev);
      ChainInRest(c, c', s, prev);
      SmallerAfter(c, s);
    }

    lemma ChainInLinks(c: seq<Pair>, c': seq<Pair>, s: nat, prev: nat)
      requires Fixed(c) && s <= |others| && Linked(c, Path(s, -1))
      requires prev == ([Big()] + others[..s])[s]
      requires c' == c[d := c[d].(point := c[prev].point)][prev := c[prev].(point := d)]
      ensures Linked(c', Path(s, s))
    {
      hide Linked, Path;
      PathBefore(s);
      LinkedInsert(c, c', [Big()] + others[..s], d, Node(s));
    }

    lemma ChainInRest(c: seq<Pair>, c': seq<Pair>, s: nat, prev: nat)
      requires Fixed(c) && s <= |others|
      requires prev == ([Big()] + others[..s])[s]
      requires c' == c[d := c[d].(point := c[prev].point)][prev := c[prev].(point := d)]
      ensures Fixed(c')
      ensures forall i :: 0 <= i < |others| ==> c'[others[i]].value == c[others[i]].value
      ensures forall i :: s <= i < |others| ==> c'[others[i]].point == c[others[i]].point
    {
      assert Values(c', others) == Values(c, others);
    }

    lemma SmallerAfter(c: seq<Pair>, s: nat)
      requires Fixed(c) && s <= |others| && c[Node(s)].value < x
      ensures forall i :: s <= i < |others| ==> c[others[i]].value < x
    {
      assert forall i :: 0 <= i < |others| ==> Values(c, others)[i] == c[others[i]].value;
    }

    lemma PathBefore(s: nat)
      requires s <= |others|
      ensures Path(s, -1) == [Big()] + others[..s] + [Node(s)]
      ensures Path(s, s) == [Big()] + others[..s] + [d] + [Node(s)]
    {
      assert others[s..s] == [];
    }

    lemma FrontNext(s: nat, ins: int)
      requires s < |others| && -1 <= ins <= s
      ensures Front(s + 1, ins) == Front(s, ins) + [others[s]]
    {
      if ins < 0 {
        assert others[..s + 1] == others[..s] + [others[s]];
      } else {
        assert others[ins..s + 1] == others[ins..s] + [others[s]];
      }
    }

    lemma PathNext(s: nat, ins: int)
      requires s < |others| && -1 <= ins <= s
      ensures Path(s + 1, ins) == Path(s, ins) + [Node(s + 1)]
    {
      hide Front;
      FrontNext(s, ins);
    }

    lemma Bounds(c: seq<Pair>, s: nat, ins: int)
      requires Fixed(c) && Behind(c, s, ins) && Ahead(c, s)
      ensures |c| == n + 2 && d < n && Node(s) <= n && Node(s) != d && s <= |others| && -1 <= ins <= s
      ensures ([Big()] + others[..s])[s] < |c| && ([Big()] + others[..s])[s] != d
      ensures c[Node(s)].point == d ==> q >= 0 && s < |others|
    {
    }

    lemma PassedBy(c: seq<Pair>, s: nat, ins: int, datum: int)
      requires Fixed(c) && Behind(c, s, ins) && Ahead(c, s + 1)
      requires s < |others| ==> c[others[s]].point == Node(s + 1)
      requires datum == (if ins < 0 then x else stopper) && c[Node(s)].value >= datum
      ensures Done(c, s, ins)
    {
    }

    /** A cell is below the value still to go in only if the value has not gone in. */
    lemma NotYet(c: seq<Pair>, s: nat, ins: int, datum: int)
      requires Fixed(c) && s <= |others| && datum == (if ins < 0 then x else stopper) && c[Node(s)].value < datum
      ensures ins < 0
    {
      assert forall i :: 0 <= i < |others| ==> Values(c, others)[i] == c[others[i]].value;
    }

    /** Moving on to the next cell. */
    lemma StepOn(c: seq<Pair>, s: nat, ins: int)
      requires Fixed(c) && Done(c, s, ins) && s < |others|
      ensures Behind(c, s + 1, ins) && Ahead(c, s + 1)
    {
      hide Linked, Path;
      PathNext(s, ins);
      PathEnds(s, ins);
      LinkedSnoc(c, Path(s, ins), Node(s + 1));
    }

    /** Putting the value in leaves the part of the path alone where the median is. */
    lemma KeepsPlace(s: nat, ins: int, ins': int, t: nat)
      requires s <= |others| && -1 <= ins <= s && (ins' == ins || (ins < 0 && ins' == s)) && t <= s
      ensures t < |Path(s, ins)| && t < |Path(s, ins')| && Path(s, ins)[t] == Path(s, ins')[t]
    {
      if ins' != ins {
        PathBefore(s);
      }
    }

    lemma Follow(c: seq<Pair>, s: nat, ins: int, t: nat)
      requires Fixed(c) && Done(c, s, ins) && t <= s
      ensures t + 1 < |Path(s, ins)| && Path(s, ins)[t] < |c| && c[Path(s, ins)[t]].point == Path(s, ins)[t + 1]
    {
      hide Path;
      PathEnds(s, ins);
    }

    lemma Onward(c: seq<Pair>, s: nat, ins: int, t: nat)
      requires Fixed(c) && Done(c, s, ins) && Node(s) != Small() && t < |Path(s, ins)|
      ensures s < |others| && |c| == n + 2 && Node(s) < |c| && c[Node(s)].point == Node(s + 1)
      ensures Behind(c, s + 1, ins) && Ahead(c, s + 1)
      ensures t < |Path(s + 1, ins)| && Path(s + 1, ins)[t] == Path(s, ins)[t]
      ensures ([Big()] + others[..s + 1])[s + 1] == Node(s)
    {
      hide Path, Ahead;
      StepOn(c, s, ins);
      PathNext(s, ins);
    }

    lemma AtEnd(c: seq<Pair>, s: nat, ins: int)
      requires Fixed(c) && Done(c, s, ins) && Node(s) == Small()
      ensures s == |others| && 0 <= ins <= s
    {
      hide Path;
    }

    lemma PathEnds(s: nat, ins: int)
      requires s <= |others| && -1 <= ins <= s
      ensures var p := Path(s, ins);
              && |p| == s + 2 + (if ins < 0 then 0 else 1)
              && p[0] == Big() && p[|p| - 1] == Node(s)
    {
    }
  }

  lemma LinkedSnoc(c: seq<Pair>, path: seq<nat>, z: nat)
    requires Linked(c, path) && path != [] && path[|path| - 1] < |c| && c[path[|path| - 1]].point == z
    ensures Linked(c, path + [z])
  {
  }

  lemma LinkedInsert(c: seq<Pair>, c': seq<Pair>, walk: seq<nat>, d: nat, z: nat)
    requires walk != [] && Within(walk, |c|) && Distinct(walk) && d !in walk && d < |c|
    requires Linked(c, walk + [z])
    requires var prev := walk[|walk| - 1];
             c' == c[d := c[d].(point := c[prev].point)][prev := c[prev].(point := d)]
    ensures Linked(c', walk + [d] + [z])
  {
    var n := |walk| - 1;
    assert (walk + [z])[n] == walk[n] && (walk + [z])[n + 1] == z;
    forall i | 0 <= i < n ensures c'[walk[i]].point == walk[i + 1] {
      assert (walk + [z])[i] == walk[i] && (walk + [z])[i + 1] == walk[i + 1];
    }
  }

  // ----- which slots hold what

  /** The ring of slots from the oldest on. */
  function SlotAt(size: nat, first: nat, i: nat): nat
    requires first < size && i <= size
  {
    if first + i < size then first + i else first + i - size
  }

  /** How many slots after the oldest one. */
  function PosOf(size: nat, first: nat, slot: nat): nat
    requires first < size && slot < size
  {
    if slot >= first then slot - first else slot + size - first
  }

  function Last(history: seq<int>, m: nat): seq<int>
    requires m <= |history|
  {
    history[|history| - m..]
  }

  /** The slots that hold the window are the ones in the chain, each with its datum. */
  ghost predicate Ring(c: seq<Pair>, size: nat, first: nat, order: seq<nat>, window: seq<int>) {
    && first < size <= |c| && |order| == |window| <= size
    && (forall s :: 0 <= s < size ==> (s in order <==> PosOf(size, first, s) < |window|))
    && (forall s :: 0 <= s < size && PosOf(size, first, s) < |window| ==>
          c[s].value == window[PosOf(size, first, s)])
  }

  ghost predicate Chain(c: seq<Pair>, size: nat, stopper: int, order: seq<nat>) {
    && |c| == size + 2 && Within(order, size) && Distinct(order)
    && c[size] == Pair(NULL, stopper)
    && Linked(c, [size + 1] + order + [size])
    && Descending(Values(c, order)) && Above(Values(c, order), stopper)
  }

  lemma EmptyChain(c: seq<Pair>, size: nat, stopper: int)
    requires |c| == size + 2 && c[size] == Pair(NULL, stopper) && c[size + 1].point == size
    ensures Chain(c, size, stopper, []) && Values(c, []) == []
    ensures [size + 1] + [] + [size] == [size + 1, size]
  {
  }

  /** Some descending arrangement of the same values. */
  predicate Sorting(sorted: seq<int>, window: seq<int>) {
    sorted != [] && Descending(sorted) && multiset(sorted) == multiset(window)
  }

  // ----- from one chain to the next

  /** The chain without one cell. */
  predicate Without(order: seq<nat>, d: nat, others: seq<nat>, q: int) {
    && -1 <= q <= |others| && |order| == |others| + (if q >= 0 then 1 else 0)
    && (if q >= 0 then order[q] == d else d !in order)
    && (forall i :: 0 <= i < |others| ==> others[i] == order[if 0 <= q <= i then i + 1 else i])
  }

  lemma Take(order: seq<nat>, d: nat) returns (others: seq<nat>, q: int)
    ensures Without(order, d, others, q)
  {
    if d in order {
      q :| 0 <= q < |order| && order[q] == d;
      others := order[..q] + order[q + 1..];
    } else {
      others, q := order, -1;
    }
  }

  /** The j-th cell of the chain, or the stopper behind it. */
  function Cell(order: seq<nat>, n: nat, j: nat): nat {
    if j < |order| then order[j] else n
  }

  lemma ChainLinks(c: seq<Pair>, n: nat, order: seq<nat>)
    requires Linked(c, [n + 1] + order + [n])
    ensures n + 1 < |c| && c[n + 1].point == Cell(order, n, 0)
    ensures forall j :: 0 <= j < |order| ==> order[j] < |c| && c[order[j]].point == Cell(order, n, j + 1)
  {
    var path := [n + 1] + order + [n];
    assert path[0] == n + 1 && path[1] == Cell(order, n, 0);
    forall j | 0 <= j < |order| ensures order[j] < |c| && c[order[j]].point == Cell(order, n, j + 1) {
      assert path[j + 1] == order[j] && path[j + 2] == Cell(order, n, j + 1);
    }
  }

  /** The links of the old chain, seen from the other cells. */
  lemma OldLinks(c0: seq<Pair>, order: seq<nat>, p: Pass)
    requires Chain(c0, p.n, p.stopper, order) && Without(order, p.d, p.others, p.q)
    ensures p.d < |c0| && p.q >= 0 ==> c0[p.d].point == p.Node(p.q)
    ensures c0[p.n + 1].point == if p.q == 0 then p.d else p.Node(0)
    ensures forall i :: 0 <= i < |p.others| ==>
              (p.others[i] < |c0| && c0[p.others[i]].point == if i + 1 == p.q then p.d else p.Node(i + 1))
  {
    hide Linked;
    ChainLinks(c0, p.n, order);
  }

  lemma OthersOk(c0: seq<Pair>, order: seq<nat>, p: Pass, c: seq<Pair>)
    requires Chain(c0, p.n, p.stopper, order) && Without(order, p.d, p.others, p.q) && p.d < p.n && p.stopper < p.x
    requires |c| == p.n + 2 && c[p.n] == c0[p.n] && c[p.d].value == p.x
    requires forall k :: 0 <= k < p.n && k != p.d ==> c[k].value == c0[k].value
    ensures p.Fixed(c)
  {
    hide Linked;
    assert p.Ok();
    var v0 := Values(c0, order);
    forall i | 0 <= i < |p.others|
      ensures c[p.others[i]].value == v0[if 0 <= p.q <= i then i + 1 else i]
    {
    }
  }

  lemma PassStart(c0: seq<Pair>, order: seq<nat>, p: Pass, successor: int, c: seq<Pair>)
    requires Chain(c0, p.n, p.stopper, order) && p.d < p.n && p.stopper < p.x
    requires Without(order, p.d, p.others, p.q) && successor == c0[p.d].point
    requires var c1 := c0[p.d := c0[p.d].(value := p.x)];
             c == if c1[p.n + 1].point == p.d then c1[p.n + 1 := c1[p.n + 1].(point := successor)] else c1
    ensures p.Fixed(c) && p.Behind(c, 0, -1) && p.Ahead(c, 0)
    ensures c[p.n + 1].point == p.Node(0) && (p.q >= 0 ==> successor == p.Node(p.q))
    ensures forall k :: 0 <= k < p.n ==> c[k].value == if k == p.d then p.x else c0[k].value
  {
    OldLinks(c0, order, p);
    OthersOk(c0, order, p, c);
    PassStartLinks(c0, order, p, successor, c);
  }

  lemma PassStartLinks(c0: seq<Pair>, order: seq<nat>, p: Pass, successor: int, c: seq<Pair>)
    requires p.Fixed(c) && |c0| == |c| && (p.q >= 0 ==> successor == p.Node(p.q))
    requires c0[p.n + 1].point == if p.q == 0 then p.d else p.Node(0)
    requires forall i :: 0 <= i < |p.others| ==>
               c0[p.others[i]].point == if i + 1 == p.q then p.d else p.Node(i + 1)
    requires var c1 := c0[p.d := c0[p.d].(value := p.x)];
             c == if c1[p.n + 1].point == p.d then c1[p.n + 1 := c1[p.n + 1].(point := successor)] else c1
    ensures p.Behind(c, 0, -1) && p.Ahead(c, 0) && c[p.n + 1].point == p.Node(0)
  {
    hide Pass.Behind, Pass.Path;
    assert c[p.n + 1].point == p.Node(0);
    StartBehind(p, c);
    forall i | 0 <= i < |p.others| ensures c[p.others[i]].point == c0[p.others[i]].point {
    }
  }

  lemma StartBehind(p: Pass, c: seq<Pair>)
    requires p.Fixed(c) && c[p.n + 1].point == p.Node(0)
    ensures p.Behind(c, 0, -1)
  {
    assert p.Path(0, -1) == [p.Big(), p.Node(0)];
  }

  lemma ValuesInsert(c: seq<Pair>, a: seq<nat>, d: nat, b: seq<nat>)
    requires Within(a, |c|) && d < |c| && Within(b, |c|)
    ensures multiset(Values(c, a + [d] + b)) == multiset(Values(c, a + b)) + multiset{c[d].value}
  {
    assert Values(c, a + [d] + b) == Values(c, a) + [c[d].value] + Values(c, b);
    assert Values(c, a + b) == Values(c, a) + Values(c, b);
  }

  /** The chain after the pass. */
  lemma NewChain(p: Pass, c: seq<Pair>, ins: int)
    requires p.Fixed(c) && p.Done(c, |p.others|, ins) && ins >= 0
    ensures Chain(c, p.n, p.stopper, p.Front(|p.others|, ins))
  {
    hide Linked, Pass.Ahead, Pass.Path, Pass.Front, Descending, Above, Distinct, Within;
    NewChainPath(p, ins);
    NewChainSorted(p, c, p.Front(|p.others|, ins), ins);
  }

  function Spliced(p: Pass, ins: nat, i: nat): nat
    requires ins <= |p.others| && i <= |p.others|
  {
    if i < ins then p.others[i] else if i == ins then p.d else p.others[i - 1]
  }

  lemma NewChainPath(p: Pass, ins: int)
    requires 0 <= ins <= |p.others|
    ensures p.Path(|p.others|, ins) == [p.n + 1] + p.Front(|p.others|, ins) + [p.n]
    ensures var f := p.Front(|p.others|, ins);
            && |f| == |p.others| + 1
            && forall i :: 0 <= i < |f| ==> f[i] == Spliced(p, ins, i)
  {
  }

  lemma NewChainSorted(p: Pass, c: seq<Pair>, f: seq<nat>, ins: int)
    requires p.Fixed(c) && p.Behind(c, |p.others|, ins) && ins >= 0 && |f| == |p.others| + 1
    requires forall i :: 0 <= i < |f| ==> f[i] == Spliced(p, ins, i)
    ensures Within(f, p.n) && Distinct(f)
    ensures Descending(Values(c, f)) && Above(Values(c, f), p.stopper)
  {
    hide Linked, Pass.Path;
    var v := Values(c, p.others);
    assert Within(f, p.n) && Distinct(f);
    assert forall i :: 0 <= i < |f| ==> Values(c, f)[i] == c[Spliced(p, ins, i)].value;
    assert forall i :: 0 <= i < |p.others| ==> v[i] == c[p.others[i]].value;
  }

  /** The multiset of the chain changes by the old and the new value of the cell. */
  lemma NewValues(c0: seq<Pair>, order: seq<nat>, p: Pass, c: seq<Pair>, ins: int)
    requires Within(order, p.n) && |c0| == p.n + 2 == |c| && Without(order, p.d, p.others, p.q)
    requires p.Ok() && 0 <= ins <= |p.others|
    requires forall k :: 0 <= k < p.n ==> c[k].value == if k == p.d then p.x else c0[k].value
    ensures Within(p.Front(|p.others|, ins), |c|)
    ensures multiset(Values(c, p.Front(|p.others|, ins))) == multiset(Values(c0, p.others)) + multiset{p.x}
    ensures multiset(Values(c0, order)) ==
            multiset(Values(c0, p.others)) + (if p.q >= 0 then multiset{c0[p.d].value} else multiset{})
  {
    var l := |p.others|;
    assert p.others == p.others[..ins] + p.others[ins..] && p.others[ins..l] == p.others[ins..];
    ValuesInsert(c, p.others[..ins], p.d, p.others[ins..]);
    assert Values(c, p.others) == Values(c0, p.others);
    OldValues(c0, order, p);
  }

  lemma OldValues(c0: seq<Pair>, order: seq<nat>, p: Pass)
    requires Within(order, |c0|) && Within(p.others, |c0|) && p.d < |c0| && Without(order, p.d, p.others, p.q)
    ensures multiset(Values(c0, order)) ==
            multiset(Values(c0, p.others)) + (if p.q >= 0 then multiset{c0[p.d].value} else multiset{})
  {
    if p.q >= 0 {
      assert order == p.others[..p.q] + [p.d] + p.others[p.q..];
      assert p.others == p.others[..p.q] + p.others[p.q..];
      ValuesInsert(c0, p.others[..p.q], p.d, p.others[p.q..]);
    } else {
      assert order == p.others;
    }
  }

  /** The ring moves on by one slot: the new datum goes behind the newest, or replaces the oldest. */
  lemma NewRing(c0: seq<Pair>, size: nat, first: nat, order: seq<nat>, window: seq<int>, p: Pass, c: seq<Pair>,
                ins: int)
    requires Ring(c0, size, first, order, window) && p.n == size && p.d == SlotAt(size, first, |order|)
    requires Without(order, p.d, p.others, p.q) && p.Ok() && 0 <= ins <= |p.others| && |c| == |c0|
    requires forall k :: 0 <= k < size ==> c[k].value == if k == p.d then p.x else c0[k].value
    ensures p.q >= 0 <==> |window| == size
    ensures p.q >= 0 ==> c0[p.d].value == window[0]
    ensures var full := |window| == size;
            Ring(c, size, if full then SlotAt(size, first, 1) else first, p.Front(|p.others|, ins),
                 (if full then window[1..] else window) + [p.x])
  {
    var full := |window| == size;
    var f := p.Front(|p.others|, ins);
    FrontMembers(order, p, ins);
    var w := (if full then window[1..] else window) + [p.x];
    var first' := if full then SlotAt(size, first, 1) else first;
    assert p.q >= 0 <==> p.d in order;
    assert PosOf(size, first, p.d) == if full then 0 else |window|;
    assert PosOf(size, first', p.d) == |w| - 1;
    hide PosOf, SlotAt, Ring, Without, Pass.Ok, Pass.Front;
    forall s | 0 <= s < size && s != p.d
      ensures PosOf(size, first', s) == PosOf(size, first, s) - if full then 1 else 0
    {
      PosOnward(size, first, |window|, s);
    }
    forall s | 0 <= s < size && s != p.d
      ensures PosOf(size, first', s) != PosOf(size, first', p.d)
    {
      PosApart(size, first', s, p.d);
    }
    RingMoves(c0, size, first, order, window, p.d, p.x, c, f, first');
  }

  lemma RingMoves(c0: seq<Pair>, size: nat, first: nat, order: seq<nat>, window: seq<int>, d: nat, x: int,
                  c: seq<Pair>, f: seq<nat>, first': nat)
    requires Ring(c0, size, first, order, window) && d < size && first' < size && |c| == |c0|
    requires |f| == if |window| == size then |order| else |order| + 1
    requires forall s: nat :: s in f <==> s == d || s in order
    requires forall k :: 0 <= k < size ==> c[k].value == if k == d then x else c0[k].value
    requires PosOf(size, first', d) == if |window| == size then |window| - 1 else |window|
    requires |window| == size ==> PosOf(size, first, d) == 0
    requires forall s :: 0 <= s < size && s != d ==>
               PosOf(size, first', s) == PosOf(size, first, s) - if |window| == size then 1 else 0
    requires forall s :: 0 <= s < size && s != d ==> PosOf(size, first', s) != PosOf(size, first', d)
    ensures Ring(c, size, first', f, (if |window| == size then window[1..] else window) + [x])
  {
    hide PosOf;
    var w := (if |window| == size then window[1..] else window) + [x];
    forall s | 0 <= s < size && PosOf(size, first', s) < |w|
      ensures c[s].value == w[PosOf(size, first', s)]
    {
    }
  }

  lemma PosApart(size: nat, first: nat, s: nat, t: nat)
    requires first < size && s < size && t < size && s != t
    ensures PosOf(size, first, s) != PosOf(size, first, t)
  {
  }

  lemma PosOnward(size: nat, first: nat, n: nat, s: nat)
    requires first < size && n <= size && s < size && s != SlotAt(size, first, n)
    ensures n == size ==> PosOf(size, SlotAt(size, first, 1), s) == PosOf(size, first, s) - 1
  {
  }

  lemma FrontMembers(order: seq<nat>, p: Pass, ins: int)
    requires Without(order, p.d, p.others, p.q) && p.Ok() && 0 <= ins <= |p.others|
    ensures |p.Front(|p.others|, ins)| == |p.others| + 1
    ensures forall s: nat :: s in p.Front(|p.others|, ins) <==> s == p.d || s in order
    ensures p.q >= 0 <==> p.d in order
  {
    OthersMembers(order, p);
    var l := |p.others|;
    assert p.others == p.others[..ins] + p.others[ins..l];
  }

  lemma OthersMembers(order: seq<nat>, p: Pass)
    requires Without(order, p.d, p.others, p.q) && p.Ok()
    ensures forall s: nat :: s in p.others <==> s in order && s != p.d
  {
    forall s: nat | s in order && s != p.d ensures s in p.others {
      var i :| 0 <= i < |order| && order[i] == s;
      assert p.others[if 0 <= p.q < i then i - 1 else i] == s;
    }
    forall s: nat | s in p.others ensures s in order {
      var i :| 0 <= i < |p.others| && p.others[i] == s;
      assert order[if 0 <= p.q <= i then i + 1 else i] == s;
    }
  }

  lemma ChainBounds(c: seq<Pair>, size: nat, stopper: int, order: seq<nat>)
    requires Chain(c, size, stopper, order)
    ensures |c| == size + 2 && Within(order, size)
  {
  }

  lemma WindowMoves(history: seq<int>, size: nat, x: int)
    requires size >= 1
    ensures var n := |history|;
            var window := Last(history, if n < size then n else size);
            Last(history + [x], if n + 1 < size then n + 1 else size) ==
            (if |window| == size then window[1..] else window) + [x]
  {
  }

  /** Everything the pass leaves behind. */
  ghost predicate Fresh(c: seq<Pair>, size: nat, stopper: int, first: nat, order: seq<nat>, window: seq<int>) {
    && Chain(c, size, stopper, order) && Ring(c, size, first, order, window)
    && multiset(Values(c, order)) == multiset(window)
  }

  lemma PassEnd(c0: seq<Pair>, order: seq<nat>, p: Pass, c: seq<Pair>, ins: int, first: nat, window: seq<int>)
    requires Fresh(c0, p.n, p.stopper, first, order, window)
    requires p.d == SlotAt(p.n, first, |order|) && Without(order, p.d, p.others, p.q)
    requires p.Fixed(c) && p.Done(c, |p.others|, ins) && ins >= 0
    requires forall k :: 0 <= k < p.n ==> c[k].value == if k == p.d then p.x else c0[k].value
    ensures var full := |window| == p.n;
            Fresh(c, p.n, p.stopper, if full then SlotAt(p.n, first, 1) else first, p.Front(|p.others|, ins),
                  (if full then window[1..] else window) + [p.x])
  {
    hide Linked, Pass.Path, Pass.Front, Pass.Ahead, Ring, Values, Descending, Above;
    NewChain(p, c, ins);
    NewValues(c0, order, p, c, ins);
    NewRing(c0, p.n, first, order, window, p, c, ins);
    NewMultiset(multiset(Values(c0, p.others)), window, p.x, |window| == p.n);
  }

  lemma NewMultiset(rest: multiset<int>, window: seq<int>, x: int, full: bool)
    requires full ==> window != []
    requires multiset(window) == rest + if full then multiset{window[0]} else multiset{}
    ensures multiset((if full then window[1..] else window) + [x]) == rest + multiset{x}
  {
    if full {
      TailBag(window);
      assert rest == multiset(window) - multiset{window[0]};
      assert multiset(window[1..] + [x]) == multiset(window[1..]) + multiset{x};
    } else {
      assert multiset(window + [x]) == multiset(window) + multiset{x};
    }
  }

  lemma FreshParts(c: seq<Pair>, order: seq<nat>, p: Pass, first: nat, window: seq<int>)
    requires Fresh(c, p.n, p.stopper, first, order, window)
    requires p.d == SlotAt(p.n, first, |order|) && Without(order, p.d, p.others, p.q)
    ensures |c| == p.n + 2 && Chain(c, p.n, p.stopper, order)
    ensures |p.others| < p.n && |window| <= p.n && first < p.n && |order| == |window|
    ensures |p.others| + 1 == if |window| == p.n then p.n else |window| + 1
  {
    hide Chain;
    ChainBounds(c, p.n, p.stopper, order);
    assert |order| == p.n ==> p.d in order;
    assert |order| < p.n ==> p.d !in order;
  }

  lemma FreshRing(c: seq<Pair>, size: nat, stopper: int, first: nat, order: seq<nat>, window: seq<int>)
    requires Fresh(c, size, stopper, first, order, window)
    ensures first < size && |order| == |window| <= size
  {
    hide Chain;
  }

  lemma NextSlot(size: nat, first: nat, m: nat, d: nat)
    requires first < size && m <= size && d == SlotAt(size, first, m)
    ensures SlotAt(size, if m == size then SlotAt(size, first, 1) else first, if m == size then m else m + 1) ==
            if d + 1 >= size then 0 else d + 1
  {
  }

  lemma MedianValue(c: seq<Pair>, p: Pass, ins: int, median: nat, first: nat, window: seq<int>)
    requires 0 <= ins <= |p.others| && median == p.Path(|p.others|, ins)[|p.others| / 2 + 1]
    requires Fresh(c, p.n, p.stopper, first, p.Front(|p.others|, ins), window)
    ensures median < |c| && |p.Front(|p.others|, ins)| == |p.others| + 1
    ensures exists sorted :: Sorting(sorted, window) && c[median].value == sorted[(|sorted| - 1) / 2]
  {
    hide Fresh, Pass.Path, Pass.Front, Sorting;
    var f := p.Front(|p.others|, ins);
    NewChainPath(p, ins);
    assert median == f[|p.others| / 2];
    SortedChain(c, p.n, p.stopper, first, f, window);
  }

  lemma SortedChain(c: seq<Pair>, n: nat, stopper: int, first: nat, f: seq<nat>, window: seq<int>)
    requires Fresh(c, n, stopper, first, f, window) && f != []
    ensures Within(f, |c|) && Sorting(Values(c, f), window)
  {
    hide Linked, Ring;
  }

  lemma HeadIsLargest(a: seq<int>, b: seq<int>)
    requires Descending(a) && a != [] && b != [] && multiset(a) == multiset(b)
    ensures a[0] >= b[0]
  {
    assert b[0] in multiset(b);
    var i :| 0 <= i < |a| && a[i] == b[0];
  }

  lemma TailBag(a: seq<int>)
    requires a != []
    ensures multiset(a[1..]) == multiset(a) - multiset{a[0]} && |multiset(a)| == |a|
  {
    assert a == [a[0]] + a[1..];
  }

  lemma TailDescends(a: seq<int>)
    requires Descending(a) && a != []
    ensures Descending(a[1..])
  {
  }

  lemma {:induction false} OneArrangement(a: seq<int>, b: seq<int>)
    requires Descending(a) && Descending(b) && multiset(a) == multiset(b) && |a| == |b|
    ensures a == b
    decreases |a|
  {
    if a != [] {
      HeadIsLargest(a, b);
      HeadIsLargest(b, a);
      TailBag(a);
      TailBag(b);
      TailDescends(a);
      TailDescends(b);
      hide Descending;
      OneArrangement(a[1..], b[1..]);
      assert a == [a[0]] + a[1..] && b == [b[0]] + b[1..];
    }
  }

  /** There is one descending arrangement of a window, so the median is one value. */
  lemma MedianUnique(sorted: seq<int>, sorted': seq<int>, window: seq<int>)
    requires Sorting(sorted, window) && Sorting(sorted', window)
    ensures sorted == sorted'
  {
    TailBag(sorted);
    TailBag(sorted');
    OneArrangement(sorted, sorted');
  }

  class MedianFilter {
    const size: nat
    const stopper: nat
    const cells: array<Pair>
    var datpoint: nat
    ghost var order: seq<nat>
    ghost var history: seq<int>
    ghost var first: nat

    function Small(): nat { size }

    function Big(): nat { size + 1 }

    ghost function Window(): seq<int>
      reads this
    {
      Last(history, if |history| < size then |history| else size)
    }

    ghost predicate Valid()
      reads this, cells
    {
      && 1 <= size && stopper < 0xffff && datpoint < size
      && Fresh(cells[..], size, stopper, first, order, Window())
      && SlotAt(size, first, |order|) == if datpoint + 1 >= size then 0 else datpoint + 1
    }

    /** The buffer may hold anything to begin with. */
    constructor (size: nat, stopper: nat)
      requires 1 <= size && stopper < 0xffff
      ensures Valid() && history == [] && fresh(cells)
      ensures this.size == size && this.stopper == stopper
    {
      this.size := size;
      this.stopper := stopper;
      cells := new Pair[size + 2];
      datpoint := 0;
      order, history, first := [], [], if size == 1 then 0 else 1;
      new;
      cells[size] := Pair(NULL, stopper);
      cells[size + 1] := Pair(size, 0);
      EmptyChain(cells[..], size, stopper);
    }

    /** One cell of the pass: chain the replaced cell out if it is next, chain it in if the new
        value is larger than the cell's.
     */
    method Visit(scan: nat, scanold: nat, successor: int, datum: int, ghost p: Pass, ghost s: nat, ghost ins: int)
        returns (datum': int, ghost ins': int)
      requires p.n == size && p.stopper == stopper && p.d == datpoint
      requires p.Fixed(cells[..]) && p.Behind(cells[..], s, ins) && p.Ahead(cells[..], s)
      requires scan == p.Node(s) && (p.q >= 0 ==> successor == p.Node(p.q))
      requires if ins < 0 then datum == p.x && scanold == ([p.Big()] + p.others[..s])[s] else datum == stopper
      modifies cells
      ensures p.Fixed(cells[..]) && p.Done(cells[..], s, ins')
      ensures ins' == ins || (ins < 0 && ins' == s)
      ensures datum' == if ins' < 0 then p.x else stopper
      ensures forall k :: 0 <= k < cells.Length ==> cells[k].value == old(cells[k].value)
    {
      hide Pass.Fixed, Pass.Behind, Pass.Ahead, Pass.Done;
      ghost var c0 := cells[..];
      p.Bounds(c0, s, ins);
      if cells[scan].point == datpoint {
        cells[scan] := cells[scan].(point := successor);
      }
      ghost var c1 := cells[..];
      assert c1 == if c0[scan].point == datpoint then c0[scan := c0[scan].(point := successor)] else c0;
      p.ChainOut(c0, c1, s, ins);
      datum', ins' := datum, ins;
      if cells[scan].value < datum {
        p.NotYet(c1, s, ins, datum);
        assert ins == -1;
        cells[datpoint] := cells[datpoint].(point := cells[scanold].point);
        cells[scanold] := cells[scanold].(point := datpoint);
        assert cells[..] == c1[datpoint := c1[datpoint].(point := c1[scanold].point)]
                            [scanold := c1[scanold].(point := datpoint)];
        p.ChainIn(c1, cells[..], s, scanold);
        datum', ins' := stopper, s;
      } else {
        p.PassedBy(c1, s, ins, datum);
      }
    }

    /** The pass over the chain: two cells a round, one step of the median. */
    method Scan(x: int, successor: int, start: nat, ghost p: Pass) returns (median: nat, ghost ins: int)
      requires p.n == size && p.stopper == stopper && p.d == datpoint && p.x == x && |p.others| < size
      requires p.Fixed(cells[..]) && p.Behind(cells[..], 0, -1) && p.Ahead(cells[..], 0)
      requires start == p.Node(0) && (p.q >= 0 ==> successor == p.Node(p.q))
      modifies cells
      ensures p.Fixed(cells[..]) && p.Done(cells[..], |p.others|, ins) && 0 <= ins <= |p.others|
      ensures median == p.Path(|p.others|, ins)[|p.others| / 2 + 1]
      ensures forall k :: 0 <= k < cells.Length ==> cells[k].value == old(cells[k].value)
    {
      hide Pass.Fixed, Pass.Behind, Pass.Ahead, Pass.Done, Pass.Path;
      median := Big();
      var datum: int, scanold: nat, scan: nat := x, Big(), start;
      ghost var s := 0;
      ins := -1;
      p.PathEnds(0, -1);
      for i := 0 to size
        invariant s == 2 * i <= |p.others| && -1 <= ins <= s
        invariant p.Fixed(cells[..]) && p.Behind(cells[..], s, ins) && p.Ahead(cells[..], s)
        invariant scan == p.Node(s)
        invariant if ins < 0 then datum == x && scanold == ([p.Big()] + p.others[..s])[s] else datum == stopper
        invariant i < |p.Path(s, ins)| && median == p.Path(s, ins)[i]
        invariant forall k :: 0 <= k < cells.Length ==> cells[k].value == old(cells[k].value)
      {
        ghost var was := ins;
        datum, ins := Visit(scan, scanold, successor, datum, p, s, ins);
        p.KeepsPlace(s, was, ins, i);
        p.Follow(cells[..], s, ins, i);
        median := cells[median].point;
        if scan == Small() {
          p.AtEnd(cells[..], s, ins);
          return;
        }
        p.Onward(cells[..], s, ins, i + 1);
        scanold, scan := scan, cells[scan].point;
        s := s + 1;

        was := ins;
        datum, ins := Visit(scan, scanold, successor, datum, p, s, ins);
        p.KeepsPlace(s, was, ins, i + 1);
        if scan == Small() {
          p.AtEnd(cells[..], s, ins);
          return;
        }
        p.Onward(cells[..], s, ins, i + 1);
        scanold, scan := scan, cells[scan].point;
        s := s + 1;
      }
      assert false;
    }

    /** The new datum replaces the oldest one; the median of what is in the buffer is returned: with
        m values buffered, the one with (m - 1) / 2 values before it in descending order.
     */
    method Filter(input: nat) returns (r: int)
      requires Valid() && stopper <= input < 0x1_0000
      modifies this, cells
      ensures Valid()
      ensures history == old(history) + [if input == stopper then stopper + 1 else input]
      ensures exists sorted :: Sorting(sorted, Window()) && r == sorted[(|sorted| - 1) / 2]
    {
      hide Fresh, Last, SlotAt, Sorting;
      var datum := input;
      if datum == stopper {
        datum := (stopper + 1) % 0x1_0000;
      }
      datpoint := datpoint + 1;
      if datpoint >= size {
        datpoint := 0;
      }
      FreshRing(cells[..], size, stopper, first, order, Window());
      NextSlot(size, first, |order|, datpoint);
      WindowMoves(history, size, datum);
      r := Rechain(datum, Window());
      history := history + [datum];
    }

    /** The pass for one datum, with the ring and the window moved on. */
    method Rechain(datum: int, ghost window: seq<int>) returns (r: int)
      requires 1 <= size && datpoint < size && stopper < datum
      requires Fresh(cells[..], size, stopper, first, order, window) && first < size && |order| == |window| <= size
      requires SlotAt(size, first, |order|) == datpoint
      modifies this`order, this`first, cells
      ensures var window' := (if |window| == size then window[1..] else window) + [datum];
              && Fresh(cells[..], size, stopper, first, order, window')
              && first == (if |window| == size then SlotAt(size, old(first), 1) else old(first))
              && |order| == |window'|
              && exists sorted :: Sorting(sorted, window') && r == sorted[(|sorted| - 1) / 2]
    {
      hide Fresh, Pass.Fixed, Pass.Behind, Pass.Ahead, Pass.Done, Pass.Path, Pass.Front, Sorting, Without, SlotAt;
      ghost var c0, others, q := cells[..], [], -1;
      others, q := Take(order, datpoint);
      ghost var p := Pass(size, stopper, datum, datpoint, others, q);
      FreshParts(c0, order, p, first, window);
      var successor, start := Replace(datum, p);
      var median;
      ghost var ins;
      median, ins := Scan(datum, successor, start, p);
      PassEnd(c0, order, p, cells[..], ins, first, window);
      ghost var window' := (if |window| == size then window[1..] else window) + [datum];
      first := if |window| == size then SlotAt(size, first, 1) else first;
      MedianValue(cells[..], p, ins, median, first, window');
      order := p.Front(|p.others|, ins);
      r := cells[median].value;
    }

    /** The datum goes into the slot, and the slot out of the chain if it heads it. */
    method Replace(datum: int, ghost p: Pass) returns (successor: int, start: nat)
      requires p.n == size && p.stopper == stopper && p.d == datpoint < size && p.x == datum && stopper < datum
      requires Chain(cells[..], size, stopper, order) && Without(order, p.d, p.others, p.q)
      modifies cells
      ensures p.Fixed(cells[..]) && p.Behind(cells[..], 0, -1) && p.Ahead(cells[..], 0)
      ensures start == p.Node(0) && (p.q >= 0 ==> successor == p.Node(p.q))
      ensures forall k :: 0 <= k < size ==> cells[k].value == if k == p.d then p.x else old(cells[k].value)
    {
      hide Chain, Without, Pass.Fixed, Pass.Behind, Pass.Ahead;
      ghost var c0 := cells[..];
      ChainBounds(c0, size, stopper, order);
      cells[datpoint] := cells[datpoint].(value := datum);
      successor := cells[datpoint].point;
      ghost var c1 := c0[p.d := c0[p.d].(value := p.x)];
      assert cells[..] == c1;
      if cells[Big()].point == datpoint {
        cells[Big()] := cells[Big()].(point := successor);
      }
      assert cells[..] == if c1[p.n + 1].point == p.d then c1[p.n + 1 := c1[p.n + 1].(point := successor)] else c1;
      PassStart(c0, order, p, successor, cells[..]);
      start := cells[Big()].point;
    }
  }
}
