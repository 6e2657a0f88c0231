/** Attribute lookup: the backward search through a block, re-indexing around creates and deletes. */
module Lookup {
  import opened Basics
  import opened Tags
  import opened Words
  import opened TagChain
  import opened Replay
  import opened Compaction

  datatype Outcome = NoEnt | Corrupt | Found(tag: Tag, buffer: seq<Byte>)

  function ItemsOf(recs: seq<Rec>): (items: seq<Item>)
    ensures |items| == |recs|
    ensures forall i :: 0 <= i < |recs| ==> items[i] == Item(recs[i].word.tag, recs[i].data)
  {
    seq(|recs|, i requires 0 <= i < |recs| => Item(recs[i].word.tag, recs[i].data))
  }

  /** A pending move out of this pair is one more delete. */
  function Pending(move: Option<nat>): seq<Item> {
    match move
    case None => []
    case Some(id) => [Item(Tag(DELETE, id, 0), [])]
  }

  /** What the replayed directory holds for a key: in an entry, or outside all entries. */
  function Expected(d: Dir, byId: bool, id: nat, k: nat): Option<Value> {
    if byId then Get(d, id, k)
    else if k in d.globals then Some(d.globals[k]) else None
  }

  /** No tag on disk is a no-op or a source, and splices are creates and deletes. */
  predicate OnDisk(items: seq<Item>) {
    forall i :: 0 <= i < |items| ==> ItemOk(items[i]) && !IsNoop(items[i].tag)
  }

  /** Tracing the id back through the log, it always stays an id a tag can hold. */
  predicate Fits(log: seq<Item>, id: nat) {
    && id <= NO_ID
    && (log != [] ==>
          match Before(log[|log| - 1].tag, id)
          case None => true
          case Some(p) => Fits(log[..|log| - 1], p))
  }

  /** The bytes asked for, as far as the attribute has them. Reading from its start, the rest of
      the buffer is zero; reading from further in, the buffer may end with foreign bytes.
   */
  predicate Filled(buffer: seq<Byte>, data: seq<Byte>, goff: nat, gsize: nat) {
    && |buffer| == gsize
    && (forall j :: 0 <= j < gsize && goff + j < |data| ==> buffer[j] == data[goff + j])
    && (goff == 0 ==> forall j :: |data| <= j < gsize ==> buffer[j] == 0)
  }

  /** The lookup answers for the replay. A failed read is possible only behind the start of the data. */
  predicate Answers(r: Outcome, want: Option<Value>, q: Query) {
    match r
    case NoEnt => want == None
    case Corrupt => want.Some? && q.goff > 0
    case Found(t, buffer) =>
      && want.Some? && t.typ == want.value.typ && t.size == want.value.size && (q.byId ==> t.id == q.gtag.id)
      && Filled(buffer, want.value.data, q.goff, q.gsize)
  }

  // ----- one step back

  lemma StepBack(m: KeyMode, log: seq<Item>, a: Item, id: nat, k: nat)
    requires m.Ok() && m.Masked? && k < 0x400 / m.unit && ItemOk(a) && !IsNoop(a.tag)
    ensures Get(Run(m, log + [a]), id, k) ==
            match Before(a.tag, id)
            case None => None
            case Some(p) =>
              if Key(m, a.tag.typ) == k && a.tag.id == id && !IsSplice(a.tag) then
                (if IsDelete(a.tag) then None else Some(ValueOf(a)))
              else Get(Run(m, log), p, k)
  {
    hide Run, Apply, RemoveAt, InsertAt;
    RunSnoc(m, log, a);
    if IsSplice(a.tag) {
      AtSplice(m, Run(m, log), a, id);
    } else {
      AtOther(m, Run(m, log), a, id);
    }
  }

  lemma StepBackGlobal(m: KeyMode, log: seq<Item>, a: Item, k: nat)
    requires m.Ok() && m.Masked? && 0x500 / m.unit <= k && ItemOk(a) && !IsNoop(a.tag)
    ensures Expected(Run(m, log + [a]), false, 0, k) ==
            if Key(m, a.tag.typ) == k then (if IsDelete(a.tag) then None else Some(ValueOf(a)))
            else Expected(Run(m, log), false, 0, k)
  {
    hide Run, At, InsertAt, RemoveAt, SetAt, Key;
    RunSnoc(m, log, a);
    GlobalKey(m, a.tag.typ, k);
  }

  lemma GlobalKey(m: KeyMode, typ: nat, k: nat)
    requires m.Ok() && m.Masked? && 0x500 / m.unit <= k
    ensures Key(m, typ) == k ==> typ >= 0x500
  {
    if m.unit == 1 {
    } else if m.unit == 0x80 {
    } else {
    }
  }

  /** What is still to be found: `want` is what the records left hold for the id traced back to them. */
  ghost predicate Searching(m: KeyMode, left: seq<Item>, byId: bool, eff: int, k: nat, want: Option<Value>)
    requires m.Ok()
  {
    && OnDisk(left) && (byId ==> 0 <= eff <= NO_ID && Fits(left, eff))
    && Expected(Run(m, left), byId, if byId then eff else 0, k) == want
  }

  lemma SearchStart(m: KeyMode, items: seq<Item>, move: Option<nat>, byId: bool, id: nat, k: nat)
    requires m.Ok() && m.Masked? && OnDisk(items) && (move.Some? ==> move.value < NO_ID)
    requires if byId then k < 0x400 / m.unit && Fits(items + Pending(move), id) else 0x500 / m.unit <= k
    ensures var eff := if byId && move.Some? && move.value <= id then id + 1 else id;
            Searching(m, items, byId, eff, k, Expected(Run(m, items + Pending(move)), byId, id, k))
  {
    if move.Some? {
      var a := Pending(move)[0];
      assert items + Pending(move) == items + [a];
      assert (items + [a])[..|items|] == items;
      if byId {
        StepBack(m, items, a, id, k);
      } else {
        StepBackGlobal(m, items, a, k);
      }
    } else {
      assert items + Pending(move) == items;
    }
  }

  lemma SearchStep(m: KeyMode, log: seq<Item>, a: Item, byId: bool, eff: int, k: nat, want: Option<Value>)
    requires m.Ok() && m.Masked? && Searching(m, log + [a], byId, eff, k, want)
    requires if byId then k < 0x400 / m.unit else 0x500 / m.unit <= k
    ensures ItemOk(a) && !IsNoop(a.tag)
    ensures byId && Before(a.tag, eff).Some? ==> Before(a.tag, eff).value <= NO_ID
    ensures byId && Before(a.tag, eff) == None ==> want == None
    ensures byId && Before(a.tag, eff).Some? ==>
              var p := Before(a.tag, eff).value;
              if Key(m, a.tag.typ) == k && a.tag.id == p && !IsSplice(a.tag) then want == Own1(a)
              else Searching(m, log, byId, p, k, want)
    ensures !byId ==> if Key(m, a.tag.typ) == k then want == Own1(a) else Searching(m, log, byId, eff, k, want)
  {
    assert (log + [a])[|log|] == a && (log + [a])[..|log|] == log;
    assert forall i :: 0 <= i < |log| ==> (log + [a])[i] == log[i];
    if byId {
      StepBack(m, log, a, eff, k);
      assert Before(a.tag, eff).Some? ==> Fits(log, Before(a.tag, eff).value);
    } else {
      StepBackGlobal(m, log, a, k);
    }
  }

  /** What a record says about its attribute. */
  function Own1(a: Item): Option<Value> {
    if IsDelete(a.tag) then None else Some(ValueOf(a))
  }

  lemma SearchEnd(m: KeyMode, byId: bool, eff: int, k: nat, want: Option<Value>)
    requires m.Ok() && Searching(m, [], byId, eff, k, want)
    ensures want == None
  {
  }

  /** What a lookup asks for. */
  datatype Query = Query(byId: bool, unit: nat, gtag: Tag, goff: nat, gsize: nat) {
    ghost predicate Ok() {
      && gtag.Ok() && Masked(unit).Ok()
      && if byId then gtag.typ < 0x400 else gtag.typ >= 0x500
    }
  }

  /** A log and a pending move that a query can be put to. */
  ghost predicate Askable(items: seq<Item>, move: Option<nat>, q: Query) {
    && q.Ok() && OnDisk(items) && (move.Some? ==> move.value < NO_ID)
    && (q.byId ==> Fits(items + Pending(move), q.gtag.id))
  }

  /** The answer of the forward replay, with a pending move counted as one more delete. */
  ghost function Wanted(items: seq<Item>, move: Option<nat>, q: Query): Option<Value>
    requires q.Ok()
  {
    Expected(Run(Masked(q.unit), items + Pending(move)), q.byId, q.gtag.id, q.gtag.typ / q.unit)
  }

  // ----- the search over records

  /** What a round of the search makes of a tag: nothing is there, the tag answers, or on to the one before. */
  datatype Look = Gone | Hit(gdiff: int) | On(gdiff: int)

  function LookAt(tag: Tag, q: Query, gdiff: int): Look
    requires q.Ok()
  {
    var g := AddId(q.gtag, 0 - gdiff);
    var spliced := q.byId && Type1(tag) == SPLICE_CLASS && tag.id <= g.id;
    if spliced && tag == Tag(CREATE, g.id, 0) then Gone
    else
      var gdiff' := if spliced then gdiff + Splice(tag) else gdiff;
      var g' := AddId(q.gtag, 0 - gdiff');
      if tag.typ / q.unit == g'.typ / q.unit && (q.byId ==> tag.id == g'.id)
      then (if IsDelete(tag) then Gone else Hit(gdiff')) else On(gdiff')
  }

  /** The record that answers, with its id as of the end of the log. */
  function Backward(items: seq<Item>, q: Query, gdiff: int): Option<Item>
    requires q.Ok()
  {
    if items == [] then None
    else
      var a := items[|items| - 1];
      match LookAt(a.tag, q, gdiff)
      case Gone => None
      case Hit(d) => Some(a.(tag := AddId(a.tag, d)))
      case On(d) => Backward(items[..|items| - 1], q, d)
  }

  /** Where the search starts: a pending move shifts the ids behind it. */
  function StartDiff(move: Option<nat>, q: Query): int {
    if q.byId && move.Some? && move.value <= q.gtag.id then -1 else 0
  }

  /** The answer is the record, as far as it is asked for. */
  predicate Yields(r: Outcome, hit: Option<Item>, q: Query) {
    match r
    case NoEnt => hit == None
    case Corrupt => hit.Some? && q.goff > 0
    case Found(t, buffer) => hit.Some? && t == hit.value.tag && Filled(buffer, hit.value.data, q.goff, q.gsize)
  }

  ghost predicate SearchingFor(q: Query, left: seq<Item>, gdiff: int, want: Option<Value>)
    requires q.Ok()
  {
    && (if q.byId then 0 <= q.gtag.id - gdiff <= NO_ID else gdiff == 0)
    && Searching(Masked(q.unit), left, q.byId, q.gtag.id - gdiff, q.gtag.typ / q.unit, want)
  }

  /** One round, in terms of the replay. */
  lemma LookStep(q: Query, log: seq<Item>, a: Item, gdiff: int, want: Option<Value>)
    requires q.Ok() && SearchingFor(q, log + [a], gdiff, want)
    ensures match LookAt(a.tag, q, gdiff)
            case Gone => want == None
            case Hit(d) =>
              && want == Some(ValueOf(a.(tag := AddId(a.tag, d))))
              && (q.byId ==> AddId(a.tag, d).id == q.gtag.id)
            case On(d) => SearchingFor(q, log, d, want)
  {
    hide Searching, Expected, Run, AddId, OnDisk, Fits;
    KeyRange(q.unit, q.gtag.typ);
    var eff, tag := q.gtag.id - gdiff, a.tag;
    SearchStep(Masked(q.unit), log, a, q.byId, eff, q.gtag.typ / q.unit, want);
    Traced(q.byId, q.gtag, gdiff);
    if q.byId && tag == Tag(CREATE, eff, 0) {
      return;
    }
    var gdiff' := if q.byId && Type1(tag) == SPLICE_CLASS && tag.id <= eff then gdiff + Splice(tag) else gdiff;
    assert q.byId ==> Before(tag, eff) == Some(q.gtag.id - gdiff');
    Traced(q.byId, q.gtag, gdiff');
    if LookAt(tag, q, gdiff).Hit? {
      Traced(q.byId, tag, 0 - gdiff');
    }
  }

  /** As long as the id stays in its ten bits, the record found is the attribute the replay has. */
  lemma {:induction false} BackwardFinds(items: seq<Item>, q: Query, gdiff: int, want: Option<Value>)
    requires q.Ok() && SearchingFor(q, items, gdiff, want)
    ensures match Backward(items, q, gdiff)
            case None => want == None
            case Some(b) => want == Some(ValueOf(b)) && (q.byId ==> b.tag.id == q.gtag.id)
  {
    hide Searching, LookAt, AddId;
    if items == [] {
      SearchEnd(Masked(q.unit), q.byId, q.gtag.id - gdiff, q.gtag.typ / q.unit, want);
    } else {
      var n := |items| - 1;
      assert items == items[..n] + [items[n]];
      LookStep(q, items[..n], items[n], gdiff, want);
      if LookAt(items[n].tag, q, gdiff).On? {
        BackwardFinds(items[..n], q, LookAt(items[n].tag, q, gdiff).gdiff, want);
      }
    }
  }

  lemma BackwardAnswers(items: seq<Item>, move: Option<nat>, q: Query, r: Outcome)
    requires Askable(items, move, q) && Yields(r, Backward(items, q, StartDiff(move, q)), q)
    ensures Answers(r, Wanted(items, move, q), q)
  {
    hide Searching, Backward, Fits, OnDisk, Expected, Filled;
    var m, k, gdiff := Masked(q.unit), q.gtag.typ / q.unit, StartDiff(move, q);
    KeyRange(q.unit, q.gtag.typ);
    SearchStart(m, items, move, q.byId, q.gtag.id, k);
    SearchRange(m, items, q.byId, q.gtag.id - gdiff, k, Wanted(items, move, q));
    BackwardFinds(items, q, gdiff, Wanted(items, move, q));
  }

  // ----- exactly when the search is right

  /** Tracing the id back from the end of the log: the number of records before the one that takes it out
      of its ten bits, unless the search ends before, at its create or at a record that answers.
   */
  function Escape(log: seq<Item>, q: Query, id: nat): (n: Option<nat>)
    requires q.Ok()
    ensures n.Some? ==> n.value < |log|
  {
    if log == [] then None
    else
      var a, n := log[|log| - 1], |log| - 1;
      match Before(a.tag, id)
      case None => None
      case Some(p) =>
        if p > NO_ID then Some(n)
        else if Decides(a.tag, q, p) then None
        else Escape(log[..n], q, p)
  }

  /** The tag is of the attribute asked for, of the entry at `id`. */
  predicate Decides(tag: Tag, q: Query, id: nat)
    requires q.Ok()
  {
    !IsSplice(tag) && tag.typ / q.unit == q.gtag.typ / q.unit && tag.id == id
  }

  /** What is searched for from then on: the carry makes it id 0 and the next type. */
  function Carry(q: Query): Query {
    q.(gtag := Tag(q.gtag.typ + 1, 0, q.gtag.size))
  }

  /** The types that carries make are still types of entries' attributes. */
  predicate Carries(log: seq<Item>, q: Query)
    requires q.Ok() && q.byId
    decreases |log|
  {
    match Escape(log, q, q.gtag.id)
    case None => true
    case Some(n) => q.gtag.typ < 0x3ff && Carries(log[..n], Carry(q))
  }

  /** The replay has the attribute; or that of the carry has, before the id left its bits. */
  ghost predicate Sees(log: seq<Item>, q: Query)
    requires q.Ok() && q.byId
    decreases |log|
  {
    match Escape(log, q, q.gtag.id)
    case None => Get(Run(Masked(q.unit), log), q.gtag.id, q.gtag.typ / q.unit).Some?
    case Some(n) => q.gtag.typ < 0x3ff && Sees(log[..n], Carry(q))
  }

  /** The id leaves its bits, and what is searched for then is there. */
  ghost predicate Misled(log: seq<Item>, q: Query)
    requires q.Ok() && q.byId
  {
    Escape(log, q, q.gtag.id).Some? && Sees(log, q)
  }

  predicate InBits(q: Query, gdiff: int) {
    0 <= q.gtag.id - gdiff <= NO_ID
  }

  /** One round of the search for an id in its bits. */
  lemma LookCases(q: Query, a: Item, gdiff: int)
    requires q.Ok() && q.byId && InBits(q, gdiff) && ItemOk(a) && !IsNoop(a.tag)
    ensures var eff := q.gtag.id - gdiff;
            match Before(a.tag, eff)
            case None => LookAt(a.tag, q, gdiff) == Gone
            case Some(p) =>
              if p > NO_ID then q.gtag.typ < 0x3ff ==> p == NO_ID + 1 && LookAt(a.tag, q, gdiff) == On(q.gtag.id - p)
              else if Decides(a.tag, q, p) then
                LookAt(a.tag, q, gdiff) == if IsDelete(a.tag) then Gone else Hit(q.gtag.id - p)
              else LookAt(a.tag, q, gdiff) == On(q.gtag.id - p)
  {
    hide AddId;
    Traced(true, q.gtag, gdiff);
    KeyRange(q.unit, q.gtag.typ);
    match Before(a.tag, q.gtag.id - gdiff)
    case None =>
    case Some(p) =>
      if p <= NO_ID {
        Traced(true, q.gtag, q.gtag.id - p);
        SpliceKey(q, a.tag, q.gtag.typ);
      } else if q.gtag.typ < 0x3ff {
        CarriedTag(q, q.gtag.id - p);
        SpliceKey(q, a.tag, q.gtag.typ + 1);
      }
  }

  /** Creates and deletes are of no attribute. */
  lemma SpliceKey(q: Query, t: Tag, typ: nat)
    requires q.Ok() && typ < 0x400
    ensures IsSplice(t) ==> t.typ / q.unit != typ / q.unit
  {
    if q.unit == 1 {
    } else if q.unit == 0x80 {
    } else {
    }
  }

  lemma CarriedTag(q: Query, gdiff: int)
    requires q.Ok() && q.byId && q.gtag.typ < 0x3ff && q.gtag.id - gdiff == NO_ID + 1
    ensures AddId(q.gtag, 0 - gdiff) == Carry(q).gtag
    ensures Pack(q.gtag) + (0 - gdiff) * 0x400 == Pack(Carry(q).gtag)
  {
    hide Unpack;
    CarriedPack(q, gdiff);
    UnpackPack(Carry(q).gtag);
    SmallWord(Pack(Carry(q).gtag));
  }

  lemma CarriedPack(q: Query, gdiff: int)
    requires q.gtag.id - gdiff == NO_ID + 1
    ensures Pack(q.gtag) + (0 - gdiff) * 0x400 == Pack(Carry(q).gtag)
  {
  }

  /** After the carry the search is the one for id 0 and the next type. */
  lemma CarriedLook(q: Query, tag: Tag, d: int, e: int)
    requires q.Ok() && Carry(q).Ok() && q.byId && q.gtag.typ < 0x3ff && q.gtag.id - d == NO_ID + 1
    ensures match LookAt(tag, Carry(q), e)
            case Gone => LookAt(tag, q, d + e) == Gone
            case Hit(x) => LookAt(tag, q, d + e) == Hit(d + x)
            case On(x) => LookAt(tag, q, d + e) == On(d + x)
  {
    hide AddId, Pack, Query.Ok;
    CarriedSame(q, d, e);
    CarriedSame(q, d, e + Splice(tag));
  }

  lemma CarriedSame(q: Query, d: int, e: int)
    requires q.Ok() && q.byId && q.gtag.typ < 0x3ff && q.gtag.id - d == NO_ID + 1
    ensures AddId(q.gtag, 0 - (d + e)) == AddId(Carry(q).gtag, 0 - e)
  {
    hide Pack, Unpack;
    CarriedTag(q, d);
    assert (0 - (d + e)) * 0x400 == (0 - d) * 0x400 + (0 - e) * 0x400;
  }

  lemma {:induction false} CarriedBackward(items: seq<Item>, q: Query, d: int, e: int)
    requires q.Ok() && Carry(q).Ok() && q.byId && q.gtag.typ < 0x3ff && q.gtag.id - d == NO_ID + 1
    ensures Backward(items, q, d + e).Some? <==> Backward(items, Carry(q), e).Some?
  {
    hide LookAt, Query.Ok, AddId;
    if items != [] {
      var n := |items| - 1;
      CarriedLook(q, items[n].tag, d, e);
      if LookAt(items[n].tag, Carry(q), e).On? {
        CarriedBackward(items[..n], q, d, LookAt(items[n].tag, Carry(q), e).gdiff);
      }
    }
  }

  /** How many entries there are does not depend on which tags overwrite each other. */
  lemma {:induction false} RunSize(m: KeyMode, m': KeyMode, log: seq<Item>)
    requires m.Ok() && m'.Ok()
    ensures |Run(m, log).entries| == |Run(m', log).entries|
  {
    hide Key;
    if log != [] {
      RunSize(m, m', log[..|log| - 1]);
    }
  }

  /** The record found is the attribute wanted. */
  predicate Agrees(hit: Option<Item>, want: Option<Value>, q: Query) {
    match hit
    case None => want == None
    case Some(b) => want == Some(ValueOf(b)) && (q.byId ==> b.tag.id == q.gtag.id)
  }

  /** What the replay and the search have for an id in its bits, by whether and where it leaves them. */
  lemma {:induction false} BackwardExact(items: seq<Item>, q: Query, gdiff: int)
    requires q.Ok() && q.byId && InBits(q, gdiff) && OnDisk(items) && WellFormed(items)
    requires var n := Escape(items, q, q.gtag.id - gdiff);
             n.Some? ==> q.gtag.typ < 0x3ff && Carry(q).Ok() && Carries(items[..n.value], Carry(q))
    ensures var want := Get(Run(Masked(q.unit), items), q.gtag.id - gdiff, q.gtag.typ / q.unit);
            match Escape(items, q, q.gtag.id - gdiff)
            case None => Agrees(Backward(items, q, gdiff), want, q)
            case Some(n) => want == None && (Backward(items, q, gdiff).Some? <==> Sees(items[..n], Carry(q)))
    decreases |items|, 0
  {
    hide LookAt, AddId, Run, WellFormed, Sees, Carries, Query.Ok, Get, Agrees, OnDisk, ItemOk, Key, Decides, Before,
         ValueOf, IsEntryTag;
    QueryKey(q);
    if items == [] {
      NothingReplayed(q, q.gtag.id - gdiff);
    } else {
      var n, eff, m, k := |items| - 1, q.gtag.id - gdiff, Masked(q.unit), q.gtag.typ / q.unit;
      var a, log := items[n], items[..n];
      assert items == log + [a];
      WellFormedPrefix(items, n);
      OnDiskPrefix(items, n);
      StepBack(m, log, a, eff, k);
      LookCases(q, a, gdiff);
      match Before(a.tag, eff)
      case None =>
        AgreesNone(q);
      case Some(p) =>
        if p > NO_ID {
          Leaver(q, a.tag, eff, p);
          NoSuchEntry(items, n, q, p);
          CarriedBackward(log, q, q.gtag.id - p, 0);
          SeesExact(log, Carry(q));
        } else if Decides(a.tag, q, p) {
          DecidedBy(q, a, eff, p);
          AgreesNone(q);
        } else {
          DecidesNot(q, a.tag, eff, p);
          var e := Escape(log, q, p);
          assert e.Some? ==> items[..e.value] == log[..e.value];
          BackwardExact(log, q, q.gtag.id - p);
        }
    }
  }

  lemma {:induction false} SeesExact(items: seq<Item>, q: Query)
    requires q.Ok() && q.byId && OnDisk(items) && WellFormed(items) && Carries(items, q)
    ensures Backward(items, q, 0).Some? <==> Sees(items, q)
    decreases |items|, 1
  {
    hide Backward, WellFormed, OnDisk, Run, Get, Escape;
    BackwardExact(items, q, 0);
  }

  lemma NothingReplayed(q: Query, id: nat)
    requires q.Ok()
    ensures Get(Run(Masked(q.unit), []), id, q.gtag.typ / q.unit) == None && Agrees(None, None, q)
  {
  }

  lemma OnDiskPrefix(items: seq<Item>, n: nat)
    requires OnDisk(items) && n < |items|
    ensures OnDisk(items[..n]) && ItemOk(items[n]) && !IsNoop(items[n].tag)
  {
  }

  lemma QueryKey(q: Query)
    requires q.Ok() && q.byId
    ensures Masked(q.unit).Ok() && q.unit > 0 && q.gtag.typ / q.unit < 0x400 / q.unit
  {
    KeyRange(q.unit, q.gtag.typ);
  }

  lemma AgreesNone(q: Query)
    ensures Agrees(None, None, q)
  {
  }

  lemma Leaver(q: Query, tag: Tag, eff: nat, p: nat)
    requires eff <= NO_ID && Before(tag, eff) == Some(p) && p > NO_ID
    ensures p == NO_ID + 1 && IsSplice(tag)
  {
  }

  /** An id out of its bits names no entry. */
  lemma NoSuchEntry(items: seq<Item>, n: nat, q: Query, p: nat)
    requires q.Ok() && WellFormed(items) && n <= |items| && p > NO_ID
    ensures Get(Run(Masked(q.unit), items[..n]), p, q.gtag.typ / q.unit) == None
  {
    hide Run;
    RunSize(Masked(q.unit), Unique, items[..n]);
  }

  lemma DecidedBy(q: Query, a: Item, eff: nat, p: nat)
    requires q.Ok() && q.byId && ItemOk(a) && Before(a.tag, eff) == Some(p) && Decides(a.tag, q, p) && p <= NO_ID
    ensures AddId(a.tag, q.gtag.id - p) == a.tag.(id := q.gtag.id) && a.tag.id == eff && !IsSplice(a.tag)
    ensures Key(Masked(q.unit), a.tag.typ) == q.gtag.typ / q.unit
    ensures Agrees(Some(a.(tag := a.tag.(id := q.gtag.id))), Some(ValueOf(a)), q)
  {
    AddIdInRange(a.tag, q.gtag.id - p);
  }

  lemma DecidesNot(q: Query, tag: Tag, eff: nat, p: nat)
    requires q.Ok() && Before(tag, eff) == Some(p) && !Decides(tag, q, p)
    ensures !(Key(Masked(q.unit), tag.typ) == q.gtag.typ / q.unit && tag.id == eff && !IsSplice(tag))
  {
  }

  /** A log, a pending move and a query by id whose carries, if any, stay among the types of entries. */
  ghost predicate Traceable(items: seq<Item>, move: Option<nat>, q: Query) {
    && q.Ok() && q.byId && OnDisk(items) && (move.Some? ==> move.value < NO_ID)
    && WellFormed(items + Pending(move)) && Carries(items + Pending(move), q)
  }

  lemma PendingBackward(items: seq<Item>, move: Option<nat>, q: Query)
    requires Traceable(items, move, q)
    ensures OnDisk(items + Pending(move))
    ensures Backward(items + Pending(move), q, 0) == Backward(items, q, StartDiff(move, q))
  {
    hide LookAt, WellFormed, AddId;
    if move.Some? {
      var a := Pending(move)[0];
      assert items + Pending(move) == items + [a] && (items + [a])[..|items|] == items;
      LookCases(q, a, 0);
    } else {
      assert items + Pending(move) == items;
    }
  }

  /** The search agrees with the replay, a pending move counted as a delete, exactly if it is not misled. */
  lemma BackwardIff(items: seq<Item>, move: Option<nat>, q: Query)
    requires Traceable(items, move, q)
    ensures var hit, want := Backward(items, q, StartDiff(move, q)), Wanted(items, move, q);
            && (Agrees(hit, want, q) <==> !Misled(items + Pending(move), q))
            && (want == None || Agrees(hit, want, q))
  {
    hide Backward, WellFormed, OnDisk, Run, Escape, Agrees, Get;
    PendingBackward(items, move, q);
    BackwardExact(items + Pending(move), q, 0);
    AgreesOnNone(Backward(items, q, StartDiff(move, q)), q);
  }

  lemma AgreesOnNone(hit: Option<Item>, q: Query)
    ensures Agrees(hit, None, q) <==> hit == None
  {
  }

  lemma AnswersIff(r: Outcome, hit: Option<Item>, want: Option<Value>, q: Query)
    requires Yields(r, hit, q) && (want == None || Agrees(hit, want, q))
    ensures Answers(r, want, q) <==> Agrees(hit, want, q)
  {
  }

  /** An id that leaves its ten bits carries into the type. In a directory of two files, one of them
      deleted, the struct of the first is found for id 0x3ff, which names no entry.
   */
  lemma WrapsAround()
    ensures var log := [Item(Tag(CREATE, 0, 0), []), Item(Tag(0x201, 0, 0), []),
                        Item(Tag(CREATE, 1, 0), []), Item(Tag(DELETE, 1, 0), [])];
            var q := Query(true, 0x100, Tag(0x200, 0x3ff, 0), 0, 0);
            && Traceable(log, None, q) && Misled(log + Pending(None), q) && !Fits(log, 0x3ff)
            && Wanted(log, None, q) == None
            && Backward(log, q, StartDiff(None, q)) == Some(Item(Tag(0x200, 0x3ff, 0), []))
  {
    hide Run, LookAt, AddId, Query.Ok;
    var c0, s0, c1, d1 := Item(Tag(CREATE, 0, 0), []), Item(Tag(0x201, 0, 0), []),
                          Item(Tag(CREATE, 1, 0), []), Item(Tag(DELETE, 1, 0), []);
    var q := Query(true, 0x100, Tag(0x200, 0x3ff, 0), 0, 0);
    WrapLooks(q, s0, c1, d1);
    WrapWanted(c0, s0, c1, d1);
    assert [c0, s0, c1, d1][..3] == [c0, s0, c1] && [c0, s0, c1][..2] == [c0, s0];
    assert Backward([c0, s0], q, -1) == Some(Item(Tag(0x200, 0x3ff, 0), []));
    assert Backward([c0, s0, c1], q, -1) == Backward([c0, s0], q, -1);
    assert Before(d1.tag, 0x3ff) == Some(0x400);
    WrapMisled(c0, s0, c1, d1, q);
  }

  lemma {:induction false} SizeBound(log: seq<Item>, b: nat)
    requires forall i :: 0 <= i < |log| ==> log[i].tag.id < b
    ensures |Run(Unique, log).entries| <= |log| + b
  {
    hide Key;
    if log != [] {
      SizeBound(log[..|log| - 1], b);
    }
  }

  lemma WrapMisled(c0: Item, s0: Item, c1: Item, d1: Item, q: Query)
    requires c0 == Item(Tag(CREATE, 0, 0), []) && s0 == Item(Tag(0x201, 0, 0), [])
    requires c1 == Item(Tag(CREATE, 1, 0), []) && d1 == Item(Tag(DELETE, 1, 0), [])
    requires q == Query(true, 0x100, Tag(0x200, 0x3ff, 0), 0, 0)
    ensures q.Ok() && WellFormed([c0, s0, c1, d1]) && Carries([c0, s0, c1, d1], q) && Misled([c0, s0, c1, d1], q)
  {
    hide Run;
    var log := [c0, s0, c1, d1];
    forall i | 0 <= i <= 4 ensures |Run(Unique, log[..i]).entries| <= NO_ID {
      SizeBound(log[..i], 2);
    }
    assert log[..3] == [c0, s0, c1] && [c0, s0, c1][..2] == [c0, s0];
    assert Escape(log, q, 0x3ff) == Some(3);
    assert Decides(s0.tag, Carry(q), 0) && Escape([c0, s0], Carry(q), 0) == None;
    assert Escape([c0, s0, c1], Carry(q), 0) == None;
    WrapSeen(c0, s0, c1);
    assert Carry(q).Ok() && Carry(q).gtag.typ / 0x100 == 2;
    assert Sees([c0, s0, c1], Carry(q));
  }

  lemma WrapSeen(c0: Item, s0: Item, c1: Item)
    requires c0 == Item(Tag(CREATE, 0, 0), []) && s0 == Item(Tag(0x201, 0, 0), [])
    requires c1 == Item(Tag(CREATE, 1, 0), [])
    ensures Get(Run(Masked(0x100), [c0, s0, c1]), 0, 2).Some?
  {
    var m := Masked(0x100);
    assert [c0][..0] == [] && [c0, s0][..1] == [c0] && [c0, s0, c1][..2] == [c0, s0];
    assert Run(m, [c0]).entries == [map[]];
    assert Run(m, [c0, s0]).entries == [map[2 := ValueOf(s0)]];
    assert Run(m, [c0, s0, c1]).entries[0] == map[2 := ValueOf(s0)];
  }

  lemma WrapLooks(q: Query, s0: Item, c1: Item, d1: Item)
    requires q == Query(true, 0x100, Tag(0x200, 0x3ff, 0), 0, 0)
    requires s0.tag == Tag(0x201, 0, 0) && c1.tag == Tag(CREATE, 1, 0) && d1.tag == Tag(DELETE, 1, 0)
    ensures q.Ok() && AddId(s0.tag, -1) == Tag(0x200, 0x3ff, 0)
    ensures LookAt(d1.tag, q, 0) == On(-1) && LookAt(c1.tag, q, -1) == On(-1) && LookAt(s0.tag, q, -1) == Hit(-1)
  {
    assert AddId(q.gtag, 0) == q.gtag && AddId(q.gtag, 1) == Tag(0x201, 0, 0);
  }

  lemma WrapWanted(c0: Item, s0: Item, c1: Item, d1: Item)
    requires c0 == Item(Tag(CREATE, 0, 0), []) && s0 == Item(Tag(0x201, 0, 0), [])
    requires c1 == Item(Tag(CREATE, 1, 0), []) && d1 == Item(Tag(DELETE, 1, 0), [])
    ensures [c0, s0, c1, d1] + Pending(None) == [c0, s0, c1, d1]
    ensures |Run(Masked(0x100), [c0, s0, c1, d1]).entries| <= 2
  {
    var m := Masked(0x100);
    assert [c0][..0] == [] && [c0, s0][..1] == [c0];
    assert [c0, s0, c1, d1][..3] == [c0, s0, c1] && [c0, s0, c1][..2] == [c0, s0];
    assert |Run(m, [c0]).entries| == 1;
    assert |Run(m, [c0, s0]).entries| == 1;
    assert |Run(m, [c0, s0, c1]).entries| == 2;
  }

  // ----- the search over bytes

  /** The backward search over a block that holds the records `recs` is the search over the records. It
      answers as the forward replay for an id that can be traced back; and in general exactly if it is
      not misled.
   */
  method GetSlice(f: Checksum, image: seq<Byte>, off: nat, etag: Word, move: Option<nat>, q: Query,
                  ghost recs: seq<Rec>)
      returns (r: Outcome)
    requires SealedAt(f, image, recs, off, etag) && q.Ok() && OnDisk(ItemsOf(recs))
    ensures Yields(r, Backward(ItemsOf(recs), q, StartDiff(move, q)), q)
    ensures Askable(ItemsOf(recs), move, q) ==> Answers(r, Wanted(ItemsOf(recs), move, q), q)
    ensures Traceable(ItemsOf(recs), move, q) ==>
              (Answers(r, Wanted(ItemsOf(recs), move, q), q) <==> !Misled(ItemsOf(recs) + Pending(move), q))
  {
    hide Backward, Yields, Answers, Wanted, Askable, OnDisk, Traceable, Misled, Agrees;
    ghost var items := ItemsOf(recs);
    r := GetRecord(f, image, off, etag, move, q, recs);
    if Askable(items, move, q) {
      BackwardAnswers(items, move, q, r);
    }
    if Traceable(items, move, q) {
      BackwardIff(items, move, q);
      AnswersIff(r, Backward(items, q, StartDiff(move, q)), Wanted(items, move, q), q);
    }
  }

  /** The loop of the search. */
  method GetRecord(f: Checksum, image: seq<Byte>, off: nat, etag: Word, move: Option<nat>, q: Query,
                   ghost recs: seq<Rec>)
      returns (r: Outcome)
    requires SealedAt(f, image, recs, off, etag) && q.Ok() && OnDisk(ItemsOf(recs))
    ensures Yields(r, Backward(ItemsOf(recs), q, StartDiff(move, q)), q)
  {
    hide Trail, Serial, Ok, XorWord, BE, FromBE, Ended, AddId, LookAt, Yields, Query.Ok, ItemOk;
    var pos, ntag, gdiff := off, etag, 0;
    if q.byId && move.Some? && move.value <= q.gtag.id {
      gdiff := gdiff - 1;
    }
    ghost var left := recs;
    while pos >= 4 + DSize(ntag)
      invariant Holds(f, image, left) && OnDisk(ItemsOf(left))
      invariant pos == Trail(f, image[..4], left).off && ntag.tag == Trail(f, image[..4], left).ptag.tag
      invariant Backward(ItemsOf(left), q, gdiff) == Backward(ItemsOf(recs), q, StartDiff(move, q))
      decreases |left|
    {
      PositionInside(f, image, left, pos, ntag);
      ghost var rec, log := left[|left| - 1], left[..|left| - 1];
      ghost var a := Item(rec.word.tag, rec.data);
      assert left == log + [rec];
      assert ItemsOf(left)[|log|] == a && ItemsOf(left)[..|log|] == ItemsOf(log);
      BackStep(f, image, log, rec, pos, ntag);
      pos := pos - DSize(ntag);
      var tag := ntag;
      ntag := XorWord(FromBE(image[pos..pos + 4]), tag).(top := false);
      left := log;
      var found;
      found, r, gdiff := Probe(image, pos, tag.tag, q, gdiff, a);
      if found {
        return;
      }
    }
    PositionInside(f, image, left, pos, ntag);
    YieldsNoEnt(q);
    return NoEnt;
  }

  lemma YieldsNoEnt(q: Query)
    ensures Yields(NoEnt, None, q)
  {
  }

  /** One round of the search: the tag at `pos` answers the query, or it moves the id. */
  method Probe(image: seq<Byte>, pos: nat, tag: Tag, q: Query, gdiff: int, ghost a: Item)
      returns (found: bool, r: Outcome, gdiff': int)
    requires q.Ok() && a.tag == tag && ItemOk(a)
    requires pos + 4 + |a.data| <= |image| && image[pos + 4..pos + 4 + |a.data|] == a.data
    ensures match LookAt(tag, q, gdiff)
            case Gone => found && Yields(r, None, q)
            case Hit(d) => found && Yields(r, Some(a.(tag := AddId(tag, d))), q)
            case On(d) => !found && gdiff' == d
  {
    hide AddId, Filled;
    gdiff' := gdiff;
    if q.byId && Type1(tag) == SPLICE_CLASS && tag.id <= AddId(q.gtag, 0 - gdiff').id {
      if tag == Tag(CREATE, AddId(q.gtag, 0 - gdiff').id, 0) {
        return true, NoEnt, gdiff';
      }
      gdiff' := gdiff' + Splice(tag);
    }
    var g := AddId(q.gtag, 0 - gdiff');
    if tag.typ / q.unit == g.typ / q.unit && (q.byId ==> tag.id == g.id) {
      if IsDelete(tag) {
        return true, NoEnt, gdiff';
      }
      var diff := Min(tag.size, q.gsize);
      if pos + 4 + q.goff + diff > |image| {
        return true, Corrupt, gdiff';
      }
      var buffer := image[pos + 4 + q.goff..pos + 4 + q.goff + diff] + seq(q.gsize - diff, _ => 0);
      FilledFrom(image, pos + 4, a.data, q.goff, q.gsize, buffer);
      return true, Found(AddId(tag, gdiff'), buffer), gdiff';
    }
    return false, NoEnt, gdiff';
  }

  lemma SearchRange(m: KeyMode, left: seq<Item>, byId: bool, eff: int, k: nat, want: Option<Value>)
    requires m.Ok() && Searching(m, left, byId, eff, k, want)
    ensures byId ==> 0 <= eff <= NO_ID
  {
  }

  lemma Traced(byId: bool, t: Tag, d: int)
    requires t.Ok() && if byId then 0 <= t.id - d <= NO_ID else d == 0
    ensures AddId(t, 0 - d) == t.(id := t.id - d)
  {
    AddIdInRange(t, 0 - d);
  }

  lemma FilledFrom(image: seq<Byte>, at: nat, data: seq<Byte>, goff: nat, gsize: nat, buffer: seq<Byte>)
    requires at + |data| <= |image| && image[at..at + |data|] == data
    requires var diff := Min(|data|, gsize);
             at + goff + diff <= |image| && buffer == image[at + goff..at + goff + diff] + seq(gsize - diff, _ => 0)
    ensures Filled(buffer, data, goff, gsize)
  {
    forall j | 0 <= j < gsize && goff + j < |data| ensures buffer[j] == data[goff + j] {
      assert image[at..at + |data|][goff + j] == image[at + goff + j];
    }
  }

  lemma KeyRange(unit: nat, typ: nat)
    requires Masked(unit).Ok()
    ensures typ < 0x400 ==> typ / unit < 0x400 / unit
    ensures typ >= 0x500 ==> typ / unit >= 0x500 / unit
  {
  }

  lemma PositionInside(f: Checksum, image: seq<Byte>, left: seq<Rec>, pos: nat, ntag: Word)
    requires Holds(f, image, left)
    requires pos == Trail(f, image[..4], left).off && ntag.tag == Trail(f, image[..4], left).ptag.tag
    ensures pos >= 4 + DSize(ntag) <==> left != []
  {
    hide XorWord, BE, FromBE, Serial;
    if left != [] {
      var n := |left| - 1;
      assert left == left[..n] + [left[n]];
      BackStep(f, image, left[..n], left[n], pos, ntag);
    }
  }

  // ----- which ids can be looked up

  /** The log names an id past its entries only before its first delete: what compaction writes,
      then commits that stay within the directory.
   */
  predicate Orderly(log: seq<Item>) {
    log != [] ==>
      var n := |log| - 1;
      var size := |Run(Unique, log[..n]).entries|;
      && Orderly(log[..n])
      && ((IsEntryTag(log[n].tag) && log[n].tag.id >= size) || (log[n].tag.typ == CREATE && log[n].tag.id > size)
          ==> NoDeletes(log[..n]))
      && (log[n].tag.typ == DELETE ==> log[n].tag.id < size)
  }

  predicate NoDeletes(log: seq<Item>) {
    forall i :: 0 <= i < |log| ==> log[i].tag.typ != DELETE
  }

  lemma {:induction false} FitsNoDeletes(log: seq<Item>, id: nat)
    requires NoDeletes(log) && id <= NO_ID
    ensures Fits(log, id)
  {
    if log != [] {
      var n := |log| - 1;
      assert NoDeletes(log[..n]);
      match Before(log[n].tag, id)
      case None =>
      case Some(p) => FitsNoDeletes(log[..n], p);
    }
  }

  /** Every entry of the directory can be looked up. */
  lemma {:induction false} FitsInside(log: seq<Item>, id: nat)
    requires WellFormed(log) && Orderly(log) && id < |Run(Unique, log).entries|
    ensures Fits(log, id)
  {
    assert log[..|log|] == log;
    if log != [] {
      var n := |log| - 1;
      var a, d := log[n], Run(Unique, log[..n]);
      WellFormedPrefix(log, n);
      match Before(a.tag, id)
      case None =>
      case Some(p) =>
        if p < |d.entries| {
          FitsInside(log[..n], p);
        } else {
          FitsNoDeletes(log[..n], p);
        }
    }
  }

  // ----- lookups before and after compaction

  /** Two ways of telling attributes apart that agree on one attribute find the same value for it. */
  lemma {:induction false} SameKey(m: KeyMode, k: nat, m': KeyMode, k': nat, log: seq<Item>, id: nat)
    requires m.Ok() && m'.Ok() && forall i :: 0 <= i < |log| ==> ItemOk(log[i])
    requires forall typ: nat :: typ < 0x400 ==> (Key(m, typ) == k <==> Key(m', typ) == k')
    ensures Get(Run(m, log), id, k) == Get(Run(m', log), id, k')
  {
    hide Apply, Key, ItemOk;
    if log != [] {
      var n := |log| - 1;
      var a := log[n];
      assert ItemOk(a);
      KeySame(m, k, m', k', a);
      var p := match Before(a.tag, id) case None => 0 case Some(p) => p;
      SameKey(m, k, m', k', log[..n], p);
      if IsSplice(a.tag) {
        AtSplice(m, Run(m, log[..n]), a, id);
        AtSplice(m', Run(m', log[..n]), a, id);
      } else {
        AtOther(m, Run(m, log[..n]), a, id);
        AtOther(m', Run(m', log[..n]), a, id);
      }
    }
  }

  lemma KeySame(m: KeyMode, k: nat, m': KeyMode, k': nat, a: Item)
    requires m.Ok() && m'.Ok() && ItemOk(a)
    requires forall typ: nat :: typ < 0x400 ==> (Key(m, typ) == k <==> Key(m', typ) == k')
    ensures Type1(a.tag) == SPLICE_CLASS ==> IsSplice(a.tag)
    ensures IsEntryTag(a.tag) ==> (Key(m, a.tag.typ) == k <==> Key(m', a.tag.typ) == k')
  {
  }

  /** The masks the file system looks entries up with: the class for names and structs, the full
      type for user attributes.
   */
  predicate Coherent(q: Query) {
    q.byId && q.unit == if q.gtag.typ / 0x100 % 2 == 1 then 1 else 0x100
  }

  lemma CoherentKey(q: Query, log: seq<Item>, id: nat)
    requires q.Ok() && Coherent(q) && forall i :: 0 <= i < |log| ==> ItemOk(log[i])
    ensures Get(Run(Masked(q.unit), log), id, q.gtag.typ / q.unit) == Get(Run(Unique, log), id, Key(Unique, q.gtag.typ))
  {
    SameKey(Masked(q.unit), q.gtag.typ / q.unit, Unique, Key(Unique, q.gtag.typ), log, id);
  }

  /** A compacted log answers every lookup as the log it replaces. */
  lemma LookupAfterCompaction(log: seq<Item>, out: seq<Item>, begin: nat, end: nat, q: Query)
    requires WellFormed(log) && WellFormed(out) && Preserved(log, out, begin, end)
    requires q.Ok() && Coherent(q) && begin + q.gtag.id < end && (q.gtag.(id := begin + q.gtag.id)).Ok()
    ensures Wanted(out, None, q) == Wanted(log, None, q.(gtag := q.gtag.(id := begin + q.gtag.id)))
  {
    hide Run, Get, Key, ItemOk;
    var id, k := q.gtag.id, Key(Unique, q.gtag.typ);
    assert out + Pending(None) == out && log + Pending(None) == log;
    CoherentKey(q, out, id);
    CoherentKey(q, log, begin + id);
    assert Get(Run(Unique, out), id, k) == Get(Run(Unique, log), begin + id, k);
  }
}
