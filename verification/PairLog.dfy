/** A metadata pair on disk: two blocks, the one with the later revision in force. Commits are appended
    to that block; rewriting the log goes to the other one. So stopping at any point, whatever has been
    written of the next bytes, leaves the old log or the new one.
 */
module PairLog {
  import opened Basics
  import opened Tags
  import opened Words
  import opened TagChain
  import opened Commits
  import opened Replay
  import opened Compaction
  import opened Lookup
  import opened WholeLog

  /** The difference of two revisions, in 32-bit arithmetic. */
  function Scmp(a: U32, b: U32): int {
    var d := (a as int - b as int) % 0x1_0000_0000;
    if d < 0x8000_0000 then d else d - 0x1_0000_0000
  }

  function Bump(rev: U32): U32 {
    (rev + 1) % 0x1_0000_0000
  }

  /** A later revision compares greater, also across the wraparound. */
  lemma LaterIsGreater(rev: U32)
    ensures Scmp(Bump(rev), rev) > 0 && Scmp(rev, Bump(rev)) < 0
  {
  }

  predicate TwoBlocks(images: seq<seq<Byte>>) {
    |images| == 2 && 4 <= |images[0]| == |images[1]|
  }

  function RevOf(image: seq<Byte>): U32
    requires 4 <= |image|
  {
    FromLE(image[..4])
  }

  /** The block holds no complete commit, or is the one before revision `rev`. */
  ghost predicate Stale(f: Checksum, image: seq<Byte>, rev: U32)
    requires 4 <= |image|
  {
    ScansTo(f, image, []) || Bump(RevOf(image)) == rev
  }

  /** The log in force is these records of block `cur`. */
  ghost predicate InForce(f: Checksum, images: seq<seq<Byte>>, cur: nat, recs: seq<Rec>) {
    && TwoBlocks(images) && cur < 2 && recs != []
    && ScansTo(f, images[cur], recs) && Stale(f, images[1 - cur], RevOf(images[cur]))
  }

  datatype Fetched = Fetched(cur: nat, rev: U32, recs: seq<Rec>, off: nat, etag: Word, erased: bool) | Corrupt

  ghost predicate Right(f: Checksum, progSize: nat, images: seq<seq<Byte>>, cur: nat, recs: seq<Rec>, r: Fetched)
    requires 0 < progSize
  {
    && TwoBlocks(images) && cur < 2 && FieldsOk(recs) && r.Fetched?
    && r.cur == cur && r.rev == RevOf(images[cur]) && r.recs == recs
    && EndsAt(Trail(f, images[cur][..4], recs), r.off, r.etag)
    && r.etag.tag.Ok() && (r.erased <==> r.off % progSize == 0 && Blank(images[cur], r.off, r.etag))
  }

  /** Read both revisions, take the later block, and fall back on the other. */
  method Fetch(f: Checksum, progSize: nat, images: seq<seq<Byte>>) returns (r: Fetched)
    requires TwoBlocks(images) && 0 < progSize
    ensures forall cur: nat, recs :: InForce(f, images, cur, recs) ==> Right(f, progSize, images, cur, recs, r)
    ensures r.Corrupt? <==> ScansTo(f, images[0], []) && ScansTo(f, images[1], [])
  {
    hide ScansTo, Trail, Scmp, Blank;
    var later := Later(images);
    var recs, off, etag, erased := ForwardScan(f, images[later], progSize);
    if recs != [] {
      r := Fetched(later, RevOf(images[later]), recs, off, etag, erased);
      FirstRight(f, progSize, images, later, r);
      return;
    }
    var other := 1 - later;
    recs, off, etag, erased := ForwardScan(f, images[other], progSize);
    if recs != [] {
      r := Fetched(other, RevOf(images[other]), recs, off, etag, erased);
      SecondRight(f, progSize, images, other, r);
      return;
    }
    NeitherInForce(f, images);
    return Fetched.Corrupt;
  }

  /** The block with the most recent revision. */
  method Later(images: seq<seq<Byte>>) returns (later: nat)
    requires TwoBlocks(images)
    ensures later < 2 && (later == 1 <==> Scmp(RevOf(images[1]), RevOf(images[0])) > 0)
  {
    var revs: seq<U32> := [0, 0];
    later := 0;
    for i := 0 to 2
      invariant |revs| == 2 && later < 2
      invariant forall k :: 0 <= k < i ==> revs[k] == RevOf(images[k])
      invariant i < 2 ==> later == 0
      invariant i == 2 ==> (later == 1 <==> Scmp(RevOf(images[1]), RevOf(images[0])) > 0)
    {
      revs := revs[i := RevOf(images[i])];
      if Scmp(revs[i], revs[(i + 1) % 2]) > 0 {
        later := i;
      }
    }
  }

  /** A scan result belongs to one log in force only. */
  lemma Belongs(f: Checksum, images: seq<seq<Byte>>, cur: nat, recs: seq<Rec>, found: seq<Rec>)
    requires InForce(f, images, cur, recs) && ScansTo(f, images[cur], found)
    ensures recs == found
  {
    hide ScansTo;
    ScanUnique(f, images[cur], recs, found);
  }

  /** A block with a complete commit and the later revision is the one in force. */
  lemma FirstRight(f: Checksum, progSize: nat, images: seq<seq<Byte>>, later: nat, r: Fetched)
    requires TwoBlocks(images) && later < 2 && (later == 1 <==> Scmp(RevOf(images[1]), RevOf(images[0])) > 0)
    requires 0 < progSize && r.Fetched? && r.recs != [] && ScansTo(f, images[later], r.recs)
    requires Right(f, progSize, images, later, r.recs, r)
    ensures forall cur: nat, recs :: InForce(f, images, cur, recs) ==> Right(f, progSize, images, cur, recs, r)
    ensures !ScansTo(f, images[later], [])
  {
    hide ScansTo, Trail, Scmp, Right;
    LaterIsGreater(RevOf(images[0]));
    LaterIsGreater(RevOf(images[1]));
    if ScansTo(f, images[later], []) {
      ScanUnique(f, images[later], [], r.recs);
    }
    forall cur: nat, recs | InForce(f, images, cur, recs) ensures Right(f, progSize, images, cur, recs, r) {
      if cur == later {
        Belongs(f, images, cur, recs, r.recs);
      }
    }
  }

  lemma SecondRight(f: Checksum, progSize: nat, images: seq<seq<Byte>>, other: nat, r: Fetched)
    requires TwoBlocks(images) && other < 2 && ScansTo(f, images[1 - other], [])
    requires 0 < progSize && r.Fetched? && r.recs != [] && ScansTo(f, images[other], r.recs)
    requires Right(f, progSize, images, other, r.recs, r)
    ensures forall cur: nat, recs :: InForce(f, images, cur, recs) ==> Right(f, progSize, images, cur, recs, r)
    ensures !ScansTo(f, images[other], [])
  {
    hide ScansTo, Trail, Right;
    if ScansTo(f, images[other], []) {
      ScanUnique(f, images[other], [], r.recs);
    }
    forall cur: nat, recs | InForce(f, images, cur, recs) ensures Right(f, progSize, images, cur, recs, r) {
      Belongs(f, images, cur, recs, if cur == other then r.recs else []);
    }
  }

  lemma NeitherInForce(f: Checksum, images: seq<seq<Byte>>)
    requires TwoBlocks(images) && ScansTo(f, images[0], []) && ScansTo(f, images[1], [])
    ensures forall cur: nat, recs :: !InForce(f, images, cur, recs)
  {
    hide ScansTo;
    forall cur: nat, recs ensures !InForce(f, images, cur, recs) {
      if InForce(f, images, cur, recs) {
        Belongs(f, images, cur, recs, []);
      }
    }
  }

  // ----- the disk at some moment

  /** Block `at` is being written, behind the commits complete in it; the other one is left alone. `torn`
      says that the other one too has half-written bytes, from a commit that was given up.
   */
  datatype Moment = Moment(at: nat, stop: Stop, rest: Stop, torn: bool)

  /** What the blocks may hold if writing stops at that moment. */
  predicate Shows(m: Moment, images: seq<seq<Byte>>) {
    && TwoBlocks(images) && m.at < 2 && TornFrom(m.stop, images[m.at])
    && images[1 - m.at] == m.rest.image
  }

  /** No checksum matches by chance in half-written bytes. Before a block is erased or while it is, it may
      also hold commits of the revision before.
   */
  ghost predicate NoChance(f: Checksum, m: Moment, images: seq<seq<Byte>>)
    requires Shows(m, images)
  {
    && (NoneBeyond(f, images[m.at], Repadded(m.stop, images[m.at])) ||
        (m.stop.recs == [] && Bump(RevOf(images[m.at])) == RevOf(m.rest.image)))
    && (m.torn ==> NoneBeyond(f, m.rest.image, m.rest.recs))
  }

  ghost predicate Finds(f: Checksum, images: seq<seq<Byte>>, log: seq<Item>) {
    exists cur: nat, recs :: InForce(f, images, cur, recs) && Holds(f, images[cur], recs) && Payload(recs) == log
  }

  /** Unless a checksum matches by chance in what was half-written, the old log is found or the new one. */
  ghost predicate OldOrNew(f: Checksum, m: Moment, before: seq<Item>, after: seq<Item>) {
    forall images :: Shows(m, images) && NoChance(f, m, images) ==>
      Finds(f, images, before) || Finds(f, images, after)
  }

  /** In any case no complete commit is lost in the block being written. */
  ghost predicate NoneLost(f: Checksum, m: Moment) {
    forall images, found :: Shows(m, images) && ScansTo(f, images[m.at], found) ==>
      Repadded(m.stop, images[m.at]) <= found
  }

  lemma NoneLostAt(f: Checksum, m: Moment)
    requires StopOk(f, m.stop)
    ensures NoneLost(f, m)
  {
    hide StopOk, ScansTo, Repadded;
    forall images, found | Shows(m, images) && ScansTo(f, images[m.at], found)
      ensures Repadded(m.stop, images[m.at]) <= found
    {
      StopScan(f, m.stop, images[m.at], found);
    }
  }

  lemma RevKept(f: Checksum, s: Stop, image: seq<Byte>)
    requires StopOk(f, s) && s.recs != [] && TornFrom(s, image)
    ensures 4 <= |image| && RevOf(image) == RevOf(s.image)
  {
    hide Trail, Holds;
    StartKept(s.image, image, s.off);
  }

  /** After a stop exactly the complete commits are found in a block. */
  lemma StopScans(f: Checksum, s: Stop, image: seq<Byte>)
    requires StopOk(f, s) && TornFrom(s, image) && NoneBeyond(f, image, Repadded(s, image))
    ensures ScansTo(f, image, Repadded(s, image)) && Payload(Repadded(s, image)) == Payload(s.recs)
    ensures s.recs != [] ==> Repadded(s, image) != [] && Holds(f, image, Repadded(s, image))
  {
    hide Trail, Serial, TagChain.Ok, NoneBeyond;
    TornOk(f, s, image);
    PayloadRepadded(s, image);
    if s.recs == [] {
      TakenNone(f, image);
    } else {
      ScanExactly(f, image, Repadded(s, image));
    }
  }

  /** What is known of the block in force: its commits, and unless bytes behind them are half-written,
      that a scan finds just these.
   */
  ghost predicate Mine(f: Checksum, image: seq<Byte>, recs: seq<Rec>, torn: bool) {
    Holds(f, image, recs) && EndsCommit(recs) && (torn || ScansTo(f, image, recs))
  }

  /** What is known of the other block. */
  ghost predicate Theirs(f: Checksum, image: seq<Byte>, rev: U32, torn: bool) {
    4 <= |image| && (torn || Stale(f, image, rev))
  }

  lemma MineScans(f: Checksum, image: seq<Byte>, recs: seq<Rec>, torn: bool)
    requires Mine(f, image, recs, torn) && (torn ==> NoneBeyond(f, image, recs))
    ensures ScansTo(f, image, recs)
  {
    hide Holds, NoneBeyond, Taken;
    if torn {
      ScanExactly(f, image, recs);
    }
  }

  lemma TheirsStale(f: Checksum, image: seq<Byte>, rev: U32, torn: bool)
    requires Theirs(f, image, rev, torn) && (torn ==> NoneBeyond(f, image, []))
    ensures Stale(f, image, rev)
  {
    hide NoneBeyond;
    if torn {
      TakenNone(f, image);
    }
  }

  /** Stopping while a commit is appended. */
  lemma Appending(f: Checksum, m: Moment, before: seq<Item>, after: seq<Item>)
    requires StopOk(f, m.stop) && m.stop.recs != [] && (Payload(m.stop.recs) == before || Payload(m.stop.recs) == after)
    requires m.rest.recs == [] && Theirs(f, m.rest.image, RevOf(m.stop.image), m.torn)
    ensures OldOrNew(f, m, before, after)
  {
    hide StopOk, ScansTo, NoneBeyond, Payload, Theirs, Stale, Repadded, Holds;
    forall images | Shows(m, images) && NoChance(f, m, images)
      ensures Finds(f, images, before) || Finds(f, images, after)
    {
      StopScans(f, m.stop, images[m.at]);
      RevKept(f, m.stop, images[m.at]);
      TheirsStale(f, m.rest.image, RevOf(m.stop.image), m.torn);
      assert InForce(f, images, m.at, Repadded(m.stop, images[m.at]));
    }
  }

  /** Stopping while the log is rewritten: before its first checksum the other block counts. */
  lemma Rewriting(f: Checksum, m: Moment, before: seq<Item>, after: seq<Item>)
    requires StopOk(f, m.stop) && Mine(f, m.rest.image, m.rest.recs, m.torn) && Payload(m.rest.recs) == before
    requires m.stop.recs == [] ||
             (Payload(m.stop.recs) == after && RevOf(m.stop.image) == Bump(RevOf(m.rest.image)))
    ensures OldOrNew(f, m, before, after)
  {
    hide StopOk, Payload, Mine, Bump, FromLE, NoChance, Finds;
    MineSized(f, m.rest.image, m.rest.recs, m.torn);
    forall images | Shows(m, images) && NoChance(f, m, images)
      ensures Finds(f, images, before) || Finds(f, images, after)
    {
      if m.stop.recs == [] {
        RewritingOld(f, m, images);
      } else {
        RewritingNew(f, m, images);
      }
    }
  }

  lemma MineSized(f: Checksum, image: seq<Byte>, recs: seq<Rec>, torn: bool)
    requires Mine(f, image, recs, torn)
    ensures 4 <= |image|
  {
  }

  lemma RewritingOld(f: Checksum, m: Moment, images: seq<seq<Byte>>)
    requires StopOk(f, m.stop) && Mine(f, m.rest.image, m.rest.recs, m.torn) && m.stop.recs == []
    requires Shows(m, images) && NoChance(f, m, images)
    ensures Finds(f, images, Payload(m.rest.recs))
  {
    hide StopOk, ScansTo, NoneBeyond, Payload, Repadded, Bump, FromLE, Stale, Holds;
    MineScans(f, m.rest.image, m.rest.recs, m.torn);
    NothingComplete(f, m.stop, images[m.at], RevOf(m.rest.image));
    assert InForce(f, images, 1 - m.at, m.rest.recs);
  }

  lemma RewritingNew(f: Checksum, m: Moment, images: seq<seq<Byte>>)
    requires StopOk(f, m.stop) && m.stop.recs != []
    requires Shows(m, images) && NoChance(f, m, images) && RevOf(m.stop.image) == Bump(RevOf(m.rest.image))
    ensures Finds(f, images, Payload(m.stop.recs))
  {
    hide StopOk, ScansTo, NoneBeyond, Payload, Repadded, Bump, FromLE, Holds;
    StopScans(f, m.stop, images[m.at]);
    RevKept(f, m.stop, images[m.at]);
    assert InForce(f, images, m.at, Repadded(m.stop, images[m.at]));
  }

  lemma NothingComplete(f: Checksum, s: Stop, image: seq<Byte>, rev: U32)
    requires StopOk(f, s) && s.recs == [] && TornFrom(s, image)
    requires NoneBeyond(f, image, Repadded(s, image)) || Bump(RevOf(image)) == rev
    ensures Stale(f, image, rev)
  {
    hide NoneBeyond;
    if NoneBeyond(f, image, Repadded(s, image)) {
      TakenNone(f, image);
    }
  }

  /** Mounting after a stop yields exactly the old log or exactly the new one, ready to be written. */
  method FetchAfter(f: Checksum, progSize: nat, images: seq<seq<Byte>>, ghost m: Moment, ghost before: seq<Item>,
                    ghost after: seq<Item>)
      returns (r: Fetched)
    requires 0 < progSize && Shows(m, images) && OldOrNew(f, m, before, after) && NoChance(f, m, images)
    ensures r.Fetched? && (Payload(r.recs) == before || Payload(r.recs) == after)
    ensures Written(f, images, r.cur, r.recs, r.off, r.etag, r.erased, false, false)
  {
    hide Stale, NoneBeyond, Payload, ScansTo, Trail, Right, Holds, Written, NoChance;
    r := Fetch(f, progSize, images);
    ghost var log := if Finds(f, images, before) then before else after;
    ghost var cur: nat, recs :|
      InForce(f, images, cur, recs) && Holds(f, images[cur], recs) && Payload(recs) == log;
    assert Right(f, progSize, images, cur, recs, r);
    FetchedWritten(f, progSize, images, cur, recs, r);
  }

  lemma FetchedWritten(f: Checksum, progSize: nat, images: seq<seq<Byte>>, cur: nat, recs: seq<Rec>, r: Fetched)
    requires 0 < progSize && InForce(f, images, cur, recs) && Holds(f, images[cur], recs)
    requires Right(f, progSize, images, cur, recs, r)
    ensures r.Fetched? && r.recs == recs && Written(f, images, r.cur, r.recs, r.off, r.etag, r.erased, false, false)
  {
    hide Trail, Serial, TagChain.Ok, NoneBeyond, Taken;
  }

  /** A pair whose log in force was written by commits, and where to go on behind them. */
  ghost predicate Written(f: Checksum, images: seq<seq<Byte>>, cur: nat, recs: seq<Rec>, off: nat, etag: Word,
                          erased: bool, mine: bool, theirs: bool) {
    && TwoBlocks(images) && cur < 2
    && Mine(f, images[cur], recs, mine) && Theirs(f, images[1 - cur], RevOf(images[cur]), theirs)
    && EndsAt(Trail(f, images[cur][..4], recs), off, etag)
    && (erased ==> Sealed(f, images[cur], recs))
  }

  // ----- writing a pair

  /** The moments of writing block `at`, one for each stop. */
  ghost function Moments(at: nat, stops: seq<Stop>, rest: Stop, torn: bool): (ms: seq<Moment>)
    ensures |ms| == |stops|
  {
    seq(|stops|, k requires 0 <= k < |stops| => Moment(at, stops[k], rest, torn))
  }

  /** A block with these records, nothing being written. */
  ghost function Now(f: Checksum, image: seq<Byte>, recs: seq<Rec>): Stop
    requires 4 <= |image| && FieldsOk(recs)
  {
    Stop(image, recs, Checked(f, image[..4], recs))
  }

  /** Tags outside all entries: the tail and the share of the global state. */
  predicate Outside(items: seq<Item>) {
    forall i :: 0 <= i < |items| ==> items[i].tag.typ >= 0x500
  }

  lemma {:induction false} OutsideEntries(log: seq<Item>, extra: seq<Item>)
    requires Outside(extra)
    ensures Run(Unique, log + extra).entries == Run(Unique, log).entries
    decreases |extra|
  {
    hide Run, Apply;
    if extra == [] {
      assert log + extra == log;
    } else {
      var n := |extra| - 1;
      OutsideEntries(log, extra[..n]);
      assert log + extra == log + extra[..n] + [extra[n]];
      RunSnoc(Unique, log + extra[..n], extra[n]);
      OutsideOne(Run(Unique, log + extra[..n]), extra[n]);
    }
  }

  lemma OutsideOne(d: Dir, a: Item)
    requires a.tag.typ >= 0x500
    ensures Apply(Unique, d, a).entries == d.entries
  {
  }

  lemma EntriesPlain(out: seq<Item>, n: int)
    requires WellFormed(out) && OnlyEntries(out, n)
    ensures AllPlain(out)
  {
  }

  lemma PlainConcat(a: seq<Item>, b: seq<Item>)
    requires AllPlain(a) && AllPlain(b)
    ensures AllPlain(a + b)
  {
  }

  /** The limits of a block. */
  predicate Sized(images: seq<seq<Byte>>, progSize: nat, limit: nat) {
    TwoBlocks(images) && 0 < progSize && |images[0]| % progSize == 0 && 12 <= limit <= |images[0]|
  }

  /** Append a commit behind sealed ones. */
  method AppendTo(f: Checksum, progSize: nat, limit: nat, image: seq<Byte>, off: nat, etag: Word, attrs: seq<Item>,
                  ghost recs: seq<Rec>)
      returns (ok: bool, image': seq<Byte>, off': nat, etag': Word, ghost recs': seq<Rec>, ghost stops: seq<Stop>)
    requires Lawful(f) && SealedAt(f, image, recs, off, etag) && AllPlain(attrs)
    requires 0 < progSize && |image| % progSize == 0 && off + 8 <= limit <= |image|
    ensures ok == (off + Bytes(attrs) + 8 <= limit)
    ensures AllOrNothing(f, stops, 0, recs, Payload(recs) + attrs, image') && SameStart(image', image)
    ensures stops != [] && stops[0] == Now(f, image, recs) && stops[|stops| - 1].image == image'
    ensures Follows(f, stops, recs, recs')
    ensures ok ==> SealedAt(f, image', recs', off', etag') && Payload(recs') == Payload(recs) + attrs
    ensures !ok ==> |recs'| - |recs| <= |attrs| && Payload(recs') == Payload(recs) + attrs[..|recs'| - |recs|]
  {
    hide Lawful, Trail, Serial, TagChain.Ok, Holds, Payload, StopOk, StopsOk, Bytes, AllPlain, AllOrNothing, SealedAt,
         SameStart, Checked;
    SealedStop(f, image, recs, off, etag);
    var c := new Commit.Append(f, image, off, etag, limit - 8, recs);
    ok := WriteCommit(c, progSize, attrs);
    FromTheStart(f, c.stops, recs, Payload(recs) + attrs, c.image, image, off, etag);
    return ok, c.image, c.off, c.ptag, c.recs, c.stops;
  }

  lemma FromTheStart(f: Checksum, stops: seq<Stop>, recs: seq<Rec>, after: seq<Item>, image: seq<Byte>,
                     image0: seq<Byte>, off: nat, etag: Word)
    requires SealedAt(f, image0, recs, off, etag)
    requires AllOrNothing(f, stops, 1, recs, after, image) && SameStart(image, image0)
    requires stops != [] && stops[0] == Now(f, image0, recs)
    ensures AllOrNothing(f, stops, 0, recs, after, image)
  {
    hide Serial, TagChain.Ok, Payload, Trail, StopOk, Checked;
  }

  lemma SealedStop(f: Checksum, image: seq<Byte>, recs: seq<Rec>, off: nat, etag: Word)
    requires SealedAt(f, image, recs, off, etag)
    ensures 4 <= |image| && FieldsOk(recs) && recs != [] && 4 <= off <= |image|
    ensures StopOk(f, Now(f, image, recs))
  {
    hide Trail, Serial, TagChain.Ok, Checked, StopOk;
    CommitBoundary(f, image, recs);
    CheckedBefore(f, image, recs);
  }

  /** Write a log into an erased block, under a new revision. */
  method RewriteTo(f: Checksum, progSize: nat, limit: nat, blank: seq<Byte>, rev: U32, items: seq<Item>)
      returns (ok: bool, image: seq<Byte>, off: nat, etag: Word, ghost recs: seq<Rec>, ghost stops: seq<Stop>)
    requires Lawful(f) && AllPlain(items) && 0 < progSize && |blank| % progSize == 0 && 12 <= limit <= |blank|
    ensures ok == (4 + Bytes(items) + 8 <= limit)
    ensures AllOrNothing(f, stops, 0, [], items, image)
    ensures stops != [] && stops[0] == Stop(LE(rev) + blank[4..], [], 0) && stops[|stops| - 1].image == image
    ensures Follows(f, stops, [], recs)
    ensures 4 <= |image| == |blank| && RevOf(image) == rev
    ensures ok ==> SealedAt(f, image, recs, off, etag) && Payload(recs) == items
    ensures !ok ==> |recs| <= |items| && Payload(recs) == items[..|recs|]
  {
    hide Lawful, Trail, Serial, TagChain.Ok, Holds, Payload, StopOk, Bytes, AllPlain, SealedAt, FromLE, LE, Checked;
    var c := new Commit.Fresh(f, blank, LE(rev), limit - 8);
    ghost var image0 := c.image;
    FreshRev(image0, blank, rev);
    PayloadNone();
    assert [] + items == items;
    ok := WriteCommit(c, progSize, items);
    if !ok {
      assert [] + items[..|c.recs|] == items[..|c.recs|];
    }
    return ok, c.image, c.off, c.ptag, c.recs, c.stops;
  }

  lemma FreshRev(image: seq<Byte>, blank: seq<Byte>, rev: U32)
    requires 4 <= |blank| && image == LE(rev) + blank[4..]
    ensures |image| == |blank| && image[..4] == LE(rev) && FromLE(image[..4]) == rev
  {
    LERoundTrip(rev);
  }

  /** The compacted log `out` stands for the first `end` entries of `log`. */
  ghost predicate Rewrites(log: seq<Item>, out: seq<Item>, end: nat) {
    && WellFormed(out) && Preserved(log, out, 0, end) && NothingStale(log, out, 0) && OnlyEntries(out, end)
    && end <= |Run(Unique, log).entries|
    && (Named(log, 0, end) ==> Run(Unique, out) == Dir(end, Run(Unique, log).entries[..end], map[]))
  }

  /** A commit that was begun: what the log is to be after it, and whether it came through. */
  datatype Turn = Turn(target: seq<Item>, took: bool)

  /** The log after some commits, each taken as a whole or not at all. */
  function LogAfter(first: seq<Item>, turns: seq<Turn>): seq<Item> {
    if turns == [] then first
    else if turns[|turns| - 1].took then turns[|turns| - 1].target
    else LogAfter(first, turns[..|turns| - 1])
  }

  lemma LogTurn(first: seq<Item>, turns: seq<Turn>, t: Turn)
    ensures LogAfter(first, turns + [t]) == if t.took then t.target else LogAfter(first, turns)
  {
    assert (turns + [t])[..|turns|] == turns;
  }

  /** Stopping at any of these moments leaves one of the two logs. */
  ghost predicate Survives(f: Checksum, ms: seq<Moment>, before: seq<Item>, after: seq<Item>) {
    forall k :: 0 <= k < |ms| ==> OldOrNew(f, ms[k], before, after) && NoneLost(f, ms[k])
  }

  /** What a pair went through since it was mounted first: the commits begun, and the moments of the
      writes, those of the last commit from `mark` on.
   */
  datatype History = History(first: seq<Item>, turns: seq<Turn>, trace: seq<Moment>, mark: nat) {
    /** The log before the last commit that was begun, and the one it is to make. */
    function Was(): seq<Item> {
      if turns == [] then first else LogAfter(first, turns[..|turns| - 1])
    }

    function Will(): seq<Item> {
      if turns == [] then first else turns[|turns| - 1].target
    }

    function Begun(target: seq<Item>, took: bool, ms: seq<Moment>): History {
      History(first, turns + [Turn(target, took)], trace + ms, |trace|)
    }

    /** After a stop the last commit came through or not. */
    function Resumed(took: bool, m: Moment): History {
      var n := |turns| - 1;
      History(first, if turns == [] then [] else turns[..n] + [turns[n].(took := took)], trace + [m], |trace|)
    }

    /** The log is made of whole commits, and stopping now leaves the last one whole or not begun. */
    ghost predicate Kept(f: Checksum, log: seq<Item>) {
      && log == LogAfter(first, turns)
      && mark < |trace| && Survives(f, trace[mark..], Was(), Will())
    }
  }

  lemma BegunKept(f: Checksum, h: History, log: seq<Item>, target: seq<Item>, took: bool, ms: seq<Moment>)
    requires h.Kept(f, log) && ms != [] && Survives(f, ms, log, target)
    ensures h.Begun(target, took, ms).Kept(f, if took then target else log)
  {
    hide Survives;
    LogTurn(h.first, h.turns, Turn(target, took));
    assert (h.trace + ms)[|h.trace|..] == ms;
    assert (h.turns + [Turn(target, took)])[..|h.turns|] == h.turns;
  }

  lemma ResumedKept(f: Checksum, h: History, log: seq<Item>, m: Moment)
    requires log == h.Was() || log == h.Will()
    requires OldOrNew(f, m, log, log) && NoneLost(f, m)
    ensures h.Resumed(log == h.Will(), m).Kept(f, log)
  {
    hide OldOrNew, NoneLost;
    OneOrOther(f, m, log, h.Was(), h.Will());
    assert (h.trace + [m])[|h.trace|..] == [m];
    if h.turns != [] {
      var n := |h.turns| - 1;
      var t := h.turns[n].(took := log == h.Will());
      LogTurn(h.first, h.turns[..n], t);
      assert (h.turns[..n] + [t])[..n] == h.turns[..n];
    }
  }

  /** A pair that is written, and may stop and be mounted again at any moment. */
  class MetaPair {
    const f: Checksum
    const progSize: nat
    const limit: nat          // how much of a block commits may use
    var images: seq<seq<Byte>>
    var cur: nat
    var off: nat
    var etag: Word
    var erased: bool          // what follows the commits can be programmed
    ghost var recs: seq<Rec>
    ghost var mine: bool      // half-written bytes follow the commits
    ghost var theirs: bool    // half-written bytes are in the other block
    ghost var past: History

    ghost predicate Valid()
      reads this
    {
      && Lawful(f) && Sized(images, progSize, limit)
      && Written(f, images, cur, recs, off, etag, erased, mine, theirs)
      && past.Kept(f, Payload(recs))
    }

    /** A fetched pair is ready to be written. */
    constructor (f: Checksum, progSize: nat, limit: nat, images: seq<seq<Byte>>, cur: nat, off: nat, etag: Word,
                 erased: bool, ghost recs: seq<Rec>)
      requires Lawful(f) && Sized(images, progSize, limit)
      requires Written(f, images, cur, recs, off, etag, erased, false, false)
      ensures Valid() && this.recs == recs && this.images == images && past.turns == [] && past.first == Payload(recs)
    {
      this.f, this.progSize, this.limit := f, progSize, limit;
      this.images, this.cur, this.off, this.etag, this.erased := images, cur, off, etag, erased;
      this.recs, mine, theirs := recs, false, false;
      past := History(Payload(recs), [], [Idle(f, images, cur, recs, false)], 0);
      new;
      hide Lawful, Written, Payload, OldOrNew, NoneLost, Idle;
      IdleSurvives(f, images, cur, recs, off, etag, erased, false, false);
    }

    /** Append a commit to the block in force. The trace gets the block as it was, and as it is after every
        record and footer; the last of these is what is there now. If the commit does not fit, what
        follows the commits is spoilt.
     */
    method Append(attrs: seq<Item>) returns (ok: bool, ghost stops: seq<Stop>, ghost written: seq<Rec>)
      requires Valid() && erased && AllPlain(attrs)
      modifies this
      ensures Valid() && ok == (old(off) + Bytes(attrs) + 8 <= limit) && cur == old(cur) && theirs == old(theirs)
      ensures past == old(past).Begun(old(Payload(recs)) + attrs, ok,
                                      Moments(cur, stops, Stop(old(images[1 - cur]), [], 0), theirs))
      ensures AppendTrace(f, old(images), cur, old(recs), images, stops, written)
      ensures ok ==> erased && recs == written && Payload(recs) == old(Payload(recs)) + attrs
      ensures !ok ==> recs == old(recs) && |written| - |recs| <= |attrs| &&
                      Payload(written) == Payload(recs) + attrs[..|written| - |recs|]
    {
      hide Lawful, Written, Payload, Bytes, AllPlain, AppendTrace, Holds, Survives, History.Kept, Now, FieldsOk,
           History.Begun, Trail, Moments;
      WrittenFields(f, images, cur, recs, off, etag, erased, mine, theirs);
      var images', off', etag', erased';
      ghost var recs', mine';
      ok, images', off', etag', erased', recs', mine', stops, written :=
        AppendPair(f, progSize, limit, images, cur, off, etag, attrs, recs, mine, theirs);
      ghost var target, ms := Payload(recs) + attrs, Moments(cur, stops, Stop(images[1 - cur], [], 0), theirs);
      BegunKept(f, past, Payload(recs), target, ok, ms);
      images, off, etag, erased := images', off', etag', erased';
      recs, mine, past := recs', mine', past.Begun(target, ok, ms);
    }

    /** Rewrite the log with the pending attributes into the other block, which reads as `blank` after
        its erase: the next revision, the compacted tags, the tags outside the entries, and the seal. The
        trace gets the other block before and after its erase, with the revision, and after every
        record and footer.
     */
    method Compact(attrs: seq<Item>, extra: seq<Item>, end: nat, blank: seq<Byte>)
        returns (ok: bool, out: seq<Item>, ghost stops: seq<Stop>, ghost written: seq<Rec>)
      requires Valid() && |blank| == |images[0]| && AllPlain(extra) && Outside(extra)
      requires WellFormed(ItemsOf(recs) + attrs) && end <= |Run(Unique, ItemsOf(recs) + attrs).entries|
      modifies this
      ensures Valid() && Rewrites(old(ItemsOf(recs)) + attrs, out, end)
      ensures ok == (4 + Bytes(out + extra) + 8 <= limit)
      ensures past == old(past).Begun(out + extra, ok,
                                      Moments(1 - old(cur), stops, old(Now(f, images[cur], recs)), old(mine)))
      ensures RewriteTrace(f, old(images), old(cur), blank, images, stops, written)
      ensures ok ==> erased && cur == 1 - old(cur) && recs == written && Payload(recs) == out + extra
      ensures ok ==> Run(Unique, ItemsOf(recs)).entries == Run(Unique, out).entries
      ensures !ok ==> recs == old(recs) && cur == old(cur) && |written| <= |out + extra| &&
                      Payload(written) == (out + extra)[..|written|]
    {
      hide Lawful, Written, Payload, Bytes, AllPlain, RewriteTrace, Holds, Survives, History.Kept, WellFormed, Run,
           Rewrites, Outside, Trail, Now, FieldsOk, History.Begun, Moments, Sized;
      WrittenFields(f, images, cur, recs, off, etag, erased, mine, theirs);
      var images', cur', off', etag', erased';
      ghost var recs', mine', theirs';
      ok, out, images', cur', off', etag', erased', recs', mine', theirs', stops, written :=
        CompactPair(f, progSize, limit, images, cur, off, etag, erased, attrs, extra, end, blank, recs, mine, theirs);
      ghost var ms := Moments(1 - cur, stops, Now(f, images[cur], recs), mine);
      BegunKept(f, past, Payload(recs), out + extra, ok, ms);
      images, cur, off, etag, erased := images', cur', off', etag', erased';
      recs, mine, theirs, past := recs', mine', theirs', past.Begun(out + extra, ok, ms);
    }

    /** Stop at moment k of the last commit begun, with any bytes that moment allows, and mount again: the
        commit came through as a whole or not at all, and all before it are as they were. So after any
        sequence of appends, rewrites, stops and mounts the log is made of whole commits, in order.
     */
    method Restart(left: seq<seq<Byte>>, ghost k: nat)
      requires Valid() && past.mark <= k < |past.trace|
      requires Shows(past.trace[k], left) && NoChance(f, past.trace[k], left) && Sized(left, progSize, limit)
      modifies this
      ensures Valid() && images == left && !mine && !theirs
      ensures past == old(past).Resumed(Payload(recs) == old(past.Will()), Idle(f, images, cur, recs, false))
    {
      hide Lawful, Written, Payload, OldOrNew, NoneLost, LogAfter, NoChance, Shows, Idle;
      ghost var was, will := past.Was(), past.Will();
      assert past.trace[past.mark..][k - past.mark] == past.trace[k];
      var r := FetchAfter(f, progSize, left, past.trace[k], was, will);
      images, cur, off, etag, erased, recs := left, r.cur, r.off, r.etag, r.erased, r.recs;
      mine, theirs := false, false;
      IdleSurvives(f, images, cur, recs, off, etag, erased, false, false);
      ResumedKept(f, past, Payload(recs), Idle(f, images, cur, recs, false));
      past := past.Resumed(Payload(recs) == will, Idle(f, images, cur, recs, false));
    }
  }

  /** The stops of an append: the block as it was, and after every record and footer; the last is the block
      as it is. None leaves a gap to the next.
   */
  ghost predicate AppendTrace(f: Checksum, images: seq<seq<Byte>>, cur: nat, recs: seq<Rec>,
                              images': seq<seq<Byte>>, stops: seq<Stop>, written: seq<Rec>) {
    && TwoBlocks(images) && cur < 2 && FieldsOk(recs) && stops != [] && stops[0] == Now(f, images[cur], recs)
    && images' == images[cur := stops[|stops| - 1].image] && Follows(f, stops, recs, written)
  }

  /** The stops of a rewrite: the other block before and after its erase, with the new revision, and after
      every record and footer; the last is the block as it is.
   */
  ghost predicate RewriteTrace(f: Checksum, images: seq<seq<Byte>>, cur: nat, blank: seq<Byte>,
                               images': seq<seq<Byte>>, stops: seq<Stop>, written: seq<Rec>) {
    && TwoBlocks(images) && cur < 2 && |blank| == |images[0]|
    && |stops| >= 3 && stops[0] == Stop(images[1 - cur], [], 0) && stops[1] == Stop(blank, [], 0)
    && stops[2] == Stop(LE(Bump(RevOf(images[cur]))) + blank[4..], [], 0)
    && images' == images[1 - cur := stops[|stops| - 1].image] && Follows(f, stops[2..], [], written)
  }

  /** Append to the block in force, if there is room for a checksum at all. */
  method AppendPair(f: Checksum, progSize: nat, limit: nat, images: seq<seq<Byte>>, cur: nat, off: nat, etag: Word,
                    attrs: seq<Item>, ghost recs: seq<Rec>, ghost mine: bool, ghost theirs: bool)
      returns (ok: bool, images': seq<seq<Byte>>, off': nat, etag': Word, erased': bool, ghost recs': seq<Rec>,
               ghost mine': bool, ghost stops: seq<Stop>, ghost written: seq<Rec>)
    requires Lawful(f) && Sized(images, progSize, limit) && AllPlain(attrs)
    requires Written(f, images, cur, recs, off, etag, true, mine, theirs)
    ensures Sized(images', progSize, limit) && Written(f, images', cur, recs', off', etag', erased', mine', theirs)
    ensures ok == (off + Bytes(attrs) + 8 <= limit)
    ensures stops != [] && AppendTrace(f, images, cur, recs, images', stops, written)
    ensures Survives(f, Moments(cur, stops, Stop(images[1 - cur], [], 0), theirs), Payload(recs), Payload(recs) + attrs)
    ensures ok ==> erased' && recs' == written && Payload(written) == Payload(recs) + attrs
    ensures !ok ==> recs' == recs && |written| - |recs| <= |attrs| &&
                    Payload(written) == Payload(recs) + attrs[..|written| - |recs|]
  {
    hide Lawful, Written, Payload, StopOk, OldOrNew, NoneLost, Bytes, AllPlain, AllOrNothing, SealedAt, Follows,
         Holds, Checked, Theirs, Mine;
    WrittenParts(f, images, cur, recs, off, etag, true, mine, theirs);
    if off + 8 > limit {
      NoRoomLeft(f, images, cur, recs, attrs, theirs);
      return false, images, off, etag, true, recs, mine, [Now(f, images[cur], recs)], recs;
    }
    var image;
    ok, image, off', etag', written, stops := AppendTo(f, progSize, limit, images[cur], off, etag, attrs, recs);
    AppendMoments(f, images, cur, recs, stops, image, Payload(recs) + attrs, theirs);
    images' := images[cur := image];
    if ok {
      AppendDone(f, images, cur, recs, off, etag, image, written, off', etag', mine, theirs);
      erased', recs', mine' := true, written, false;
    } else {
      AppendSpoilt(f, images, cur, recs, off, etag, image, stops, written, mine, theirs);
      off', etag', erased', recs', mine' := off, etag, false, recs, true;
    }
  }

  lemma NoRoomLeft(f: Checksum, images: seq<seq<Byte>>, cur: nat, recs: seq<Rec>, attrs: seq<Item>, theirs: bool)
    requires TwoBlocks(images) && cur < 2 && recs != [] && Holds(f, images[cur], recs)
    requires FieldsOk(recs) && StopOk(f, Now(f, images[cur], recs))
    requires Theirs(f, images[1 - cur], RevOf(images[cur]), theirs)
    ensures var stops := [Now(f, images[cur], recs)];
            && Follows(f, stops, recs, recs) && images == images[cur := stops[0].image]
            && Survives(f, Moments(cur, stops, Stop(images[1 - cur], [], 0), theirs), Payload(recs),
                        Payload(recs) + attrs)
    ensures attrs[..0] == [] && Payload(recs) == Payload(recs) + []
  {
    hide Payload, StopOk, OldOrNew, NoneLost, Holds, Checked, Theirs, AllOrNothing, Follows;
    var s := Now(f, images[cur], recs);
    FollowsFirst(f, s, recs);
    NothingWritten(f, s, recs, Payload(recs) + attrs, images[cur]);
    AppendMoments(f, images, cur, recs, [s], images[cur], Payload(recs) + attrs, theirs);
  }

  /** Write a log into the other block. */
  method RewritePair(f: Checksum, progSize: nat, limit: nat, images: seq<seq<Byte>>, cur: nat, off: nat, etag: Word,
                     erased: bool, items: seq<Item>, blank: seq<Byte>, ghost recs: seq<Rec>, ghost mine: bool,
                     ghost theirs: bool)
      returns (ok: bool, images': seq<seq<Byte>>, cur': nat, off': nat, etag': Word, erased': bool,
               ghost recs': seq<Rec>, ghost mine': bool, ghost theirs': bool, ghost stops: seq<Stop>,
               ghost written: seq<Rec>)
    requires Lawful(f) && Sized(images, progSize, limit) && AllPlain(items) && |blank| == |images[0]|
    requires Written(f, images, cur, recs, off, etag, erased, mine, theirs)
    ensures Sized(images', progSize, limit)
    ensures Written(f, images', cur', recs', off', etag', erased', mine', theirs')
    ensures ok == (4 + Bytes(items) + 8 <= limit)
    ensures stops != [] && RewriteTrace(f, images, cur, blank, images', stops, written)
    ensures Survives(f, Moments(1 - cur, stops, Now(f, images[cur], recs), mine), Payload(recs), items)
    ensures ok ==> erased' && cur' == 1 - cur && recs' == written && Payload(written) == items
    ensures !ok ==> recs' == recs && cur' == cur && |written| <= |items| && Payload(written) == items[..|written|]
  {
    hide Lawful, Written, Payload, StopOk, OldOrNew, NoneLost, Bytes, AllPlain, AllOrNothing, SealedAt, Follows,
         Holds, Checked, Theirs, Mine, LE, FromLE, Bump;
    WrittenParts(f, images, cur, recs, off, etag, erased, mine, theirs);
    var image;
    ghost var later;
    ok, image, off', etag', written, later := RewriteTo(f, progSize, limit, blank, Bump(RevOf(images[cur])), items);
    stops := [Stop(images[1 - cur], [], 0), Stop(blank, [], 0)] + later;
    assert stops[2..] == later && stops[|stops| - 1] == later[|later| - 1];
    RewriteMoments(f, images, cur, recs, stops, later, image, items, mine);
    images' := images[1 - cur := image];
    if ok {
      RewriteDone(f, images, cur, recs, off, etag, erased, image, written, off', etag', mine, theirs);
      cur', erased', recs', mine', theirs' := 1 - cur, true, written, false, mine;
    } else {
      RewriteSpoilt(f, images, cur, recs, off, etag, erased, image, mine, theirs);
      cur', off', etag', erased', recs', mine', theirs' := cur, off, etag, erased, recs, mine, true;
    }
  }

  /** Nothing is being written. */
  ghost function Idle(f: Checksum, images: seq<seq<Byte>>, cur: nat, recs: seq<Rec>, theirs: bool): Moment
    requires TwoBlocks(images) && cur < 2 && FieldsOk(recs)
  {
    Moment(cur, Now(f, images[cur], recs), Stop(images[1 - cur], [], 0), theirs)
  }

  lemma IdleSurvives(f: Checksum, images: seq<seq<Byte>>, cur: nat, recs: seq<Rec>, off: nat, etag: Word,
                     erased: bool, mine: bool, theirs: bool)
    requires Written(f, images, cur, recs, off, etag, erased, mine, theirs)
    ensures TwoBlocks(images) && cur < 2 && FieldsOk(recs)
    ensures var m := Idle(f, images, cur, recs, theirs); OldOrNew(f, m, Payload(recs), Payload(recs)) && NoneLost(f, m)
  {
    hide Payload, OldOrNew, NoneLost, Holds, Theirs, Checked, StopOk, ScansTo;
    WrittenParts(f, images, cur, recs, off, etag, erased, mine, theirs);
    var m := Idle(f, images, cur, recs, theirs);
    NoneLostAt(f, m);
    Appending(f, m, Payload(recs), Payload(recs));
  }

  lemma OneOrOther(f: Checksum, m: Moment, log: seq<Item>, before: seq<Item>, after: seq<Item>)
    requires OldOrNew(f, m, log, log) && (log == before || log == after)
    ensures OldOrNew(f, m, before, after)
  {
    hide Finds, NoChance;
  }

  lemma WrittenParts(f: Checksum, images: seq<seq<Byte>>, cur: nat, recs: seq<Rec>, off: nat, etag: Word,
                     erased: bool, mine: bool, theirs: bool)
    requires Written(f, images, cur, recs, off, etag, erased, mine, theirs)
    ensures TwoBlocks(images) && cur < 2 && FieldsOk(recs) && recs != [] && Holds(f, images[cur], recs)
    ensures EndsAt(Trail(f, images[cur][..4], recs), off, etag)
    ensures StopOk(f, Now(f, images[cur], recs)) && Mine(f, images[cur], recs, mine)
    ensures Theirs(f, images[1 - cur], RevOf(images[cur]), theirs)
    ensures erased ==> SealedAt(f, images[cur], recs, off, etag)
  {
    hide ScansTo, Trail, Serial, TagChain.Ok, Stale, StopOk, Checked;
    CheckedBefore(f, images[cur], recs);
  }

  lemma WrittenFields(f: Checksum, images: seq<seq<Byte>>, cur: nat, recs: seq<Rec>, off: nat, etag: Word,
                      erased: bool, mine: bool, theirs: bool)
    requires Written(f, images, cur, recs, off, etag, erased, mine, theirs)
    ensures TwoBlocks(images) && cur < 2 && FieldsOk(recs)
    ensures Holds(f, images[cur], recs) && Trail(f, images[cur][..4], recs).off == off
  {
    hide TagChain.Ok, Serial, Trail, Theirs, ScansTo;
  }

  lemma NothingWritten(f: Checksum, s: Stop, recs: seq<Rec>, after: seq<Item>, image: seq<Byte>)
    requires StopOk(f, s) && s.recs == recs && s.image == image
    ensures AllOrNothing(f, [s], 0, recs, after, image)
  {
    hide Checked, Holds;
  }

  lemma AppendMoments(f: Checksum, images: seq<seq<Byte>>, cur: nat, recs: seq<Rec>, stops: seq<Stop>,
                      image: seq<Byte>, after: seq<Item>, theirs: bool)
    requires TwoBlocks(images) && cur < 2 && recs != [] && SameStart(image, images[cur])
    requires Theirs(f, images[1 - cur], RevOf(images[cur]), theirs) && AllOrNothing(f, stops, 0, recs, after, image)
    ensures forall k :: 0 <= k < |stops| ==>
      var m := Moment(cur, stops[k], Stop(images[1 - cur], [], 0), theirs);
      OldOrNew(f, m, Payload(recs), after) && NoneLost(f, m)
  {
    hide Payload, StopOk, OldOrNew, NoneLost, Theirs;
    forall k | 0 <= k < |stops|
      ensures var m := Moment(cur, stops[k], Stop(images[1 - cur], [], 0), theirs);
        OldOrNew(f, m, Payload(recs), after) && NoneLost(f, m)
    {
      var m := Moment(cur, stops[k], Stop(images[1 - cur], [], 0), theirs);
      NoneLostAt(f, m);
      Appending(f, m, Payload(recs), after);
    }
  }

  lemma AppendDone(f: Checksum, images: seq<seq<Byte>>, cur: nat, recs: seq<Rec>, off: nat, etag: Word,
                   image: seq<Byte>, recs': seq<Rec>, off': nat, etag': Word, mine: bool, theirs: bool)
    requires Written(f, images, cur, recs, off, etag, true, mine, theirs) && SealedAt(f, image, recs', off', etag')
    requires SameStart(image, images[cur])
    ensures Written(f, images[cur := image], cur, recs', off', etag', true, false, theirs)
  {
    hide ScansTo, Trail, Serial, TagChain.Ok, Stale;
    ScanSealed(f, image, recs');
  }

  lemma AppendSpoilt(f: Checksum, images: seq<seq<Byte>>, cur: nat, recs: seq<Rec>, off: nat, etag: Word,
                     image: seq<Byte>, stops: seq<Stop>, written: seq<Rec>, mine: bool, theirs: bool)
    requires Written(f, images, cur, recs, off, etag, true, mine, theirs) && SameStart(image, images[cur])
    requires stops != [] && Follows(f, stops, recs, written) && stops[|stops| - 1].image == image
    ensures Written(f, images[cur := image], cur, recs, off, etag, false, true, theirs)
  {
    hide ScansTo, Serial, TagChain.Ok, Trail, Holds, Stale;
    assert written[..|written|] == written;
    HoldsPrefix(f, image, written, |recs|);
    assert written[..|recs|] == recs;
  }

  lemma RewriteMoments(f: Checksum, images: seq<seq<Byte>>, cur: nat, recs: seq<Rec>, stops: seq<Stop>,
                       later: seq<Stop>, image: seq<Byte>, after: seq<Item>, mine: bool)
    requires TwoBlocks(images) && cur < 2 && FieldsOk(recs) && Mine(f, images[cur], recs, mine)
    requires AllOrNothing(f, later, 0, [], after, image) && |stops| == 2 + |later| && stops[2..] == later
    requires forall k :: 0 <= k < 2 ==> stops[k].recs == [] && stops[k].off == 0 && 4 <= |stops[k].image|
    requires 4 <= |image| && RevOf(image) == Bump(RevOf(images[cur]))
    ensures forall k :: 0 <= k < |stops| ==>
      var m := Moment(1 - cur, stops[k], Now(f, images[cur], recs), mine);
      OldOrNew(f, m, Payload(recs), after) && NoneLost(f, m)
  {
    hide Payload, StopOk, OldOrNew, NoneLost, Mine, Bump, FromLE, Checked;
    forall k | 0 <= k < |stops|
      ensures var m := Moment(1 - cur, stops[k], Now(f, images[cur], recs), mine);
        OldOrNew(f, m, Payload(recs), after) && NoneLost(f, m)
    {
      var m := Moment(1 - cur, stops[k], Now(f, images[cur], recs), mine);
      if k < 2 {
        BareStop(f, stops[k]);
      } else {
        assert stops[k] == later[k - 2];
      }
      NoneLostAt(f, m);
      Rewriting(f, m, Payload(recs), after);
    }
  }

  lemma BareStop(f: Checksum, s: Stop)
    requires s.recs == [] && s.off == 0 && 4 <= |s.image|
    ensures StopOk(f, s)
  {
  }

  lemma RewriteDone(f: Checksum, images: seq<seq<Byte>>, cur: nat, recs: seq<Rec>, off: nat, etag: Word, erased: bool,
                    image: seq<Byte>, recs': seq<Rec>, off': nat, etag': Word, mine: bool, theirs: bool)
    requires Written(f, images, cur, recs, off, etag, erased, mine, theirs) && SealedAt(f, image, recs', off', etag')
    requires |image| == |images[0]| && RevOf(image) == Bump(RevOf(images[cur]))
    ensures Written(f, images[1 - cur := image], 1 - cur, recs', off', etag', true, false, mine)
  {
    hide ScansTo, Trail, Serial, TagChain.Ok, Bump, FromLE;
    ScanSealed(f, image, recs');
  }

  lemma RewriteSpoilt(f: Checksum, images: seq<seq<Byte>>, cur: nat, recs: seq<Rec>, off: nat, etag: Word, erased: bool,
                      image: seq<Byte>, mine: bool, theirs: bool)
    requires Written(f, images, cur, recs, off, etag, erased, mine, theirs) && |image| == |images[0]|
    ensures Written(f, images[1 - cur := image], cur, recs, off, etag, erased, mine, true)
  {
    hide Trail, Serial, TagChain.Ok, ScansTo;
  }

  /** Compact the log in force into the other block. */
  method CompactPair(f: Checksum, progSize: nat, limit: nat, images: seq<seq<Byte>>, cur: nat, off: nat, etag: Word,
                     erased: bool, attrs: seq<Item>, extra: seq<Item>, end: nat, blank: seq<Byte>,
                     ghost recs: seq<Rec>, ghost mine: bool, ghost theirs: bool)
      returns (ok: bool, out: seq<Item>, images': seq<seq<Byte>>, cur': nat, off': nat, etag': Word, erased': bool,
               ghost recs': seq<Rec>, ghost mine': bool, ghost theirs': bool, ghost stops: seq<Stop>,
               ghost written: seq<Rec>)
    requires Lawful(f) && Sized(images, progSize, limit) && |blank| == |images[0]| && AllPlain(extra) && Outside(extra)
    requires WellFormed(ItemsOf(recs) + attrs) && end <= |Run(Unique, ItemsOf(recs) + attrs).entries|
    requires Written(f, images, cur, recs, off, etag, erased, mine, theirs)
    ensures Rewrites(ItemsOf(recs) + attrs, out, end) && Sized(images', progSize, limit)
    ensures Written(f, images', cur', recs', off', etag', erased', mine', theirs')
    ensures ok == (4 + Bytes(out + extra) + 8 <= limit)
    ensures stops != [] && RewriteTrace(f, images, cur, blank, images', stops, written)
    ensures Survives(f, Moments(1 - cur, stops, Now(f, images[cur], recs), mine), Payload(recs), out + extra)
    ensures ok ==> erased' && cur' == 1 - cur && recs' == written && Payload(written) == out + extra
    ensures ok ==> Run(Unique, ItemsOf(recs')).entries == Run(Unique, out).entries
    ensures !ok ==> recs' == recs && cur' == cur && |written| <= |out + extra| &&
                    Payload(written) == (out + extra)[..|written|]
  {
    hide Lawful, Written, Payload, Bytes, AllPlain, RewriteTrace, Holds, Survives, WellFormed, Run, Rewrites, Outside,
         Trail, Now, FieldsOk;
    WrittenFields(f, images, cur, recs, off, etag, erased, mine, theirs);
    out := Compacted(f, images[cur], off, attrs, extra, end, recs);
    ok, images', cur', off', etag', erased', recs', mine', theirs', stops, written :=
      RewritePair(f, progSize, limit, images, cur, off, etag, erased, out + extra, blank, recs, mine, theirs);
    if ok {
      PayloadReplays(Unique, recs');
      OutsideEntries(out, extra);
    }
  }

  /** The traversal of the block in force. */
  method Compacted(f: Checksum, image: seq<Byte>, off: nat, attrs: seq<Item>, extra: seq<Item>, end: nat,
                   ghost recs: seq<Rec>)
      returns (out: seq<Item>)
    requires Holds(f, image, recs) && Trail(f, image[..4], recs).off == off && AllPlain(extra)
    requires WellFormed(ItemsOf(recs) + attrs) && end <= |Run(Unique, ItemsOf(recs) + attrs).entries|
    ensures Rewrites(ItemsOf(recs) + attrs, out, end) && AllPlain(out + extra)
  {
    hide WellFormed, Run, Preserved, NothingStale, OnlyEntries, Named, AllPlain, Holds, Trail;
    var found := RecordsTo(f, image, off, recs);
    out := Traverse(ItemsOf(found), attrs, 0, end);
    ghost var all := Run(Unique, ItemsOf(recs) + attrs).entries;
    assert all[0..end] == all[..end];
    EntriesPlain(out, end);
    PlainConcat(out, extra);
  }
}
