/** From attributes to bytes and back: whatever commits are written into a block, a scan finds just
    them, and a lookup in the bytes answers as the replay of everything committed.
 */
module WholeLog {
  import opened Basics
  import opened Tags
  import opened Words
  import opened TagChain
  import opened Commits
  import opened Replay
  import opened Compaction
  import opened Lookup
  import opened Align

  /** An attribute that a commit may write. */
  predicate Plain(a: Item) {
    ItemOk(a) && !IsNoop(a.tag) && !IsCrcTag(Word(false, a.tag))
  }

  predicate AllPlain(items: seq<Item>) {
    forall i :: 0 <= i < |items| ==> Plain(items[i])
  }

  function Flat(commits: seq<seq<Item>>): seq<Item> {
    if commits == [] then [] else Flat(commits[..|commits| - 1]) + commits[|commits| - 1]
  }

  /** The records that are not checksums. */
  function Payload(recs: seq<Rec>): seq<Item> {
    if recs == [] then []
    else
      var r := recs[|recs| - 1];
      Payload(recs[..|recs| - 1]) + if IsCrcTag(r.word) then [] else [Item(r.word.tag, r.data)]
  }

  lemma PayloadSnoc(recs: seq<Rec>, r: Rec)
    ensures Payload(recs + [r]) == Payload(recs) + if IsCrcTag(r.word) then [] else [Item(r.word.tag, r.data)]
  {
    assert (recs + [r])[..|recs|] == recs;
  }

  lemma {:induction false} PayloadSealed(recs: seq<Rec>, recs': seq<Rec>)
    requires recs <= recs' && forall i :: |recs| <= i < |recs'| ==> IsCrcTag(recs'[i].word)
    ensures Payload(recs') == Payload(recs)
    decreases |recs'|
  {
    if recs != recs' {
      var n := |recs'| - 1;
      PayloadSealed(recs, recs'[..n]);
      assert Payload(recs'[..n]) + [] == Payload(recs'[..n]);
    }
  }

  /** The padding behind a checksum is not an attribute. */
  lemma PayloadRepadded(s: Stop, image: seq<Byte>)
    requires s.recs == [] || EndsCommit(s.recs)
    ensures Payload(Repadded(s, image)) == Payload(s.recs)
  {
    if s.recs != [] {
      var n := |s.recs| - 1;
      assert s.recs == s.recs[..n] + [s.recs[n]];
      PayloadSnoc(s.recs[..n], s.recs[n]);
      PayloadSnoc(s.recs[..n], Repadded(s, image)[n]);
    }
  }

  /** The bytes of the attributes, tags included. */
  function Bytes(items: seq<Item>): nat {
    if items == [] then 0 else Bytes(items[..|items| - 1]) + DSize(Word(false, items[|items| - 1].tag))
  }

  lemma {:induction false} BytesPrefix(items: seq<Item>, n: nat)
    requires n <= |items|
    ensures Bytes(items[..n]) <= Bytes(items)
  {
    if n < |items| {
      assert items[..|items| - 1][..n] == items[..n];
      BytesPrefix(items[..|items| - 1], n);
    } else {
      assert items[..n] == items;
    }
  }

  lemma BytesStep(items: seq<Item>, i: nat)
    ensures Bytes([]) == 0
    ensures i < |items| ==> Bytes(items[..i + 1]) == Bytes(items[..i]) + DSize(Word(false, items[i].tag))
  {
    if i < |items| {
      assert items[..i + 1][..i] == items[..i];
    }
  }

  /** Where the next commit would go, if every commit left the room for its checksum. */
  function EndOf(commits: seq<seq<Item>>, progSize: nat, size: nat): Option<nat>
    requires progSize > 0
  {
    if commits == [] then Some(4)
    else
      match EndOf(commits[..|commits| - 1], progSize, size)
      case None => None
      case Some(off) =>
        Next(off, commits[|commits| - 1], progSize, size)
  }

  /** The moments of writing a commit: its attributes are complete at once, with its first checksum. */
  ghost predicate AllOrNothing(f: Checksum, stops: seq<Stop>, from: nat, before: seq<Rec>, after: seq<Item>,
                               image: seq<Byte>)
  {
    && StopsOk(f, stops)
    && forall k :: from <= k < |stops| ==>
         && SameStart(stops[k].image, image)
         && (stops[k].recs == before || (stops[k].recs != [] && Payload(stops[k].recs) == after))
  }

  /** Write one commit. */
  method WriteCommit(c: Commit, progSize: nat, items: seq<Item>) returns (ok: bool)
    requires c.Valid() && progSize > 0 && |c.image| % progSize == 0 && c.end + 8 <= |c.image| && c.off <= c.end
    requires AllPlain(items)
    modifies c
    ensures AllOrNothing(c.f, c.stops, old(|c.stops|), old(c.done), old(Payload(c.recs)) + items, c.image)
    ensures SameStart(c.image, old(c.image))
    ensures old(c.stops) <= c.stops && c.stops[|c.stops| - 1].image == c.image
    ensures c.first == old(c.first) && Follows(c.f, c.stops, c.first, c.recs)
    ensures ok ==> c.stops[|c.stops| - 1].recs == c.recs
    ensures !ok ==> forall k :: old(|c.stops|) <= k < |c.stops| ==> c.stops[k].recs == old(c.done)
    ensures !ok ==> |c.recs| - old(|c.recs|) <= |items| &&
                    Payload(c.recs) == old(Payload(c.recs)) + items[..|c.recs| - old(|c.recs|)]
    ensures |c.image| == old(|c.image|)
    ensures ok == (old(c.off) + Bytes(items) <= c.end)
    ensures ok ==> SealedAt(c.f, c.image, c.recs, c.off, c.ptag) && Payload(c.recs) == old(Payload(c.recs)) + items
    ensures ok ==> c.off == AlignUp(old(c.off) + Bytes(items) + 8, progSize)
  {
    hide Trail, Serial, TagChain.Ok, XorWord, BE, FromBE, Lawful, Holds, Payload, SealedAt, AlignUp, Bytes, StopOk,
         Follows, SameStart, AllPlain;
    ghost var image, from := c.image, |c.stops|;
    ok := WriteAttrs(c, items);
    if !ok {
      return;
    }
    ghost var recs, past, image0, off0 := c.recs, c.stops, c.image, c.off;
    ok := c.CommitCrc(progSize);
    StartKept(c.image, image0, off0);
    PayloadSealed(recs, c.recs);
    StartOf(c.image, image0, image);
    forall k | |past| <= k < |c.stops|
      ensures c.stops[k].recs != [] && Payload(c.stops[k].recs) == Payload(recs)
    {
      PayloadSealed(recs, c.stops[k].recs);
    }
    forall k | from <= k < |past| ensures SameStart(c.stops[k].image, c.image) {
      StartOf(c.stops[k].image, image0, c.image);
    }
  }

  lemma StartOf(a: seq<Byte>, b: seq<Byte>, c: seq<Byte>)
    ensures SameStart(a, b) && (SameStart(b, c) || SameStart(c, b)) ==> SameStart(a, c)
  {
  }

  /** Write the attributes of a commit, as far as they fit. */
  method WriteAttrs(c: Commit, items: seq<Item>) returns (ok: bool)
    requires c.Valid() && c.off <= c.end && AllPlain(items)
    modifies c
    ensures c.Valid() && |c.image| == old(|c.image|) && SameStart(c.image, old(c.image)) && c.off <= c.end
    ensures ok == (old(c.off) + Bytes(items) <= c.end)
    ensures c.done == old(c.done) && c.first == old(c.first) && old(c.stops) <= c.stops
    ensures forall k :: old(|c.stops|) <= k < |c.stops| ==>
              SameStart(c.stops[k].image, c.image) && c.stops[k].recs == old(c.done)
    ensures ok ==> c.off == old(c.off) + Bytes(items) && Payload(c.recs) == old(Payload(c.recs)) + items
    ensures 0 <= |c.recs| - old(|c.recs|) <= |items|
    ensures Payload(c.recs) == old(Payload(c.recs)) + items[..|c.recs| - old(|c.recs|)]
  {
    hide Trail, Serial, TagChain.Ok, XorWord, BE, FromBE, Lawful, Holds, Payload, SealedAt, Bytes, StopOk, Follows;
    assert items[..0] == [];
    BytesStep(items, 0);
    for i := 0 to |items|
      invariant c.Valid() && |c.image| == old(|c.image|) && c.off <= c.end
      invariant Payload(c.recs) == old(Payload(c.recs)) + items[..i] && c.off == old(c.off) + Bytes(items[..i])
      invariant c.done == old(c.done) && c.first == old(c.first) && old(c.stops) <= c.stops
      invariant |c.recs| == old(|c.recs|) + i
      invariant forall k :: old(|c.stops|) <= k < |c.stops| ==>
                  SameStart(c.stops[k].image, c.image) && c.stops[k].recs == old(c.done)
      invariant SameStart(c.image, old(c.image))
    {
      ghost var image0, off0 := c.image, c.off;
      ghost var recs := c.recs;
      BytesPrefix(items, i + 1);
      BytesStep(items, i);
      ok := c.CommitAttr(Word(false, items[i].tag), items[i].data);
      if !ok {
        assert c.recs == recs;
        return;
      }
      PayloadSnoc(recs, Rec(Word(false, items[i].tag), items[i].data));
      StartKept(c.image, image0, off0);
      assert items[..i + 1] == items[..i] + [items[i]];
    }
    assert items[..|items|] == items;
    ok := true;
  }

  /** Write a series of commits into an erased block, as far as they fit. */
  method WriteLog(f: Checksum, erased: seq<Byte>, rev: seq<Byte>, progSize: nat, limit: nat, commits: seq<seq<Item>>)
      returns (ok: bool, image: seq<Byte>, off: nat, etag: Word, ghost recs: seq<Rec>)
    requires Lawful(f) && |rev| == 4 && 12 <= limit <= |erased| && progSize > 0 && |erased| % progSize == 0
    requires commits != [] && forall i :: 0 <= i < |commits| ==> AllPlain(commits[i])
    ensures ok == EndOf(commits, progSize, limit).Some?
    ensures ok ==> SealedAt(f, image, recs, off, etag) && Payload(recs) == Flat(commits)
    ensures ok ==> EndOf(commits, progSize, limit) == Some(off)
  {
    hide Lawful, SealedAt, Payload, AllPlain, EndOf, Flat, AlignUp, Bytes, Holds, Trail, TagChain.Ok, Serial;
    var end := limit - 8;
    var c := new Commit.Fresh(f, erased, rev, end);
    PayloadNone();
    Onward(commits, progSize, limit, 0);
    assert [] + commits[0] == commits[0];
    ok := WriteCommit(c, progSize, commits[0]);
    image, off, etag, recs := c.image, c.off, c.ptag, c.recs;
    for i := 1 to |commits|
      invariant |image| == |erased|
      invariant ok == EndOf(commits[..i], progSize, limit).Some?
      invariant ok ==> SealedAt(f, image, recs, off, etag) && Payload(recs) == Flat(commits[..i])
      invariant ok ==> EndOf(commits[..i], progSize, limit) == Some(off)
    {
      Onward(commits, progSize, limit, i);
      if ok && off > end {
        ok := false;
      } else if ok {
        c := new Commit.Append(f, image, off, etag, end, recs);
        ok := WriteCommit(c, progSize, commits[i]);
        image, off, etag, recs := c.image, c.off, c.ptag, c.recs;
      }
    }
    assert commits[..|commits|] == commits;
  }

  lemma PayloadNone()
    ensures Payload([]) == []
  {
  }

  /** Where a commit behind `off` would end. */
  function Next(off: nat, items: seq<Item>, progSize: nat, size: nat): Option<nat>
    requires progSize > 0
  {
    var n := off + Bytes(items) + 8;
    if n <= size then Some(AlignUp(n, progSize)) else None
  }

  lemma Onward(commits: seq<seq<Item>>, progSize: nat, size: nat, i: nat)
    requires i < |commits| && progSize > 0
    ensures Flat(commits[..i + 1]) == Flat(commits[..i]) + commits[i]
    ensures EndOf(commits[..i + 1], progSize, size) ==
      match EndOf(commits[..i], progSize, size)
      case None => None
      case Some(off) => Next(off, commits[i], progSize, size)
    ensures i == 0 ==> Flat(commits[..i]) == [] && EndOf(commits[..i], progSize, size) == Some(4)
  {
    hide AlignUp, Bytes;
    assert commits[..i + 1][..i] == commits[..i];
  }

  // ----- looking up in what was written

  lemma ApplyEntries(m: KeyMode, d: Dir, d': Dir, a: Item)
    requires m.Ok() && d.entries == d'.entries
    ensures Apply(m, d, a).entries == Apply(m, d', a).entries
    ensures Type1(a.tag) == 0x500 ==> Apply(m, d, a).entries == d.entries
  {
  }

  /** Checksums mean nothing for the entries. */
  lemma {:induction false} PayloadReplays(m: KeyMode, recs: seq<Rec>)
    requires m.Ok()
    ensures Run(m, ItemsOf(recs)).entries == Run(m, Payload(recs)).entries
  {
    hide Apply, Run;
    if recs == [] {
      assert ItemsOf(recs) == Payload(recs);
    } else {
      var n := |recs| - 1;
      var a := Item(recs[n].word.tag, recs[n].data);
      PayloadReplays(m, recs[..n]);
      assert ItemsOf(recs) == ItemsOf(recs[..n]) + [a];
      RunSnoc(m, ItemsOf(recs[..n]), a);
      RunSnoc(m, Payload(recs[..n]), a);
      ApplyEntries(m, Run(m, ItemsOf(recs[..n])), Run(m, Payload(recs[..n])), a);
      assert Payload(recs[..n]) + [] == Payload(recs[..n]);
    }
  }

  lemma {:induction false} PayloadFits(recs: seq<Rec>, id: nat)
    requires Fits(Payload(recs), id)
    ensures Fits(ItemsOf(recs), id)
  {
    hide Fits, Before, IsCrcTag;
    if recs != [] {
      var n := |recs| - 1;
      var a := Item(recs[n].word.tag, recs[n].data);
      assert recs == recs[..n] + [recs[n]];
      assert ItemsOf(recs) == ItemsOf(recs[..n]) + [a];
      PayloadSnoc(recs[..n], recs[n]);
      FitsSnoc(ItemsOf(recs[..n]), a, id);
      if IsCrcTag(recs[n].word) {
        assert Payload(recs[..n]) + [] == Payload(recs[..n]);
        CrcBefore(recs[n].word, id);
        PayloadFits(recs[..n], id);
      } else {
        FitsSnoc(Payload(recs[..n]), a, id);
        match Before(a.tag, id)
        case None =>
        case Some(p) => PayloadFits(recs[..n], p);
      }
    }
  }

  lemma CrcBefore(w: Word, id: nat)
    requires IsCrcTag(w)
    ensures Before(w.tag, id) == Some(id)
  {
  }

  lemma FitsSnoc(log: seq<Item>, a: Item, id: nat)
    ensures Fits(log + [a], id) <==> id <= NO_ID && (Before(a.tag, id).Some? ==> Fits(log, Before(a.tag, id).value))
    ensures Fits(log, id) ==> id <= NO_ID
  {
    hide Before;
    assert (log + [a])[..|log|] == log;
  }

  lemma {:induction false} PayloadOnDisk(f: Checksum, rev: seq<Byte>, recs: seq<Rec>)
    requires TagChain.Ok(f, rev, recs) && AllPlain(Payload(recs))
    ensures OnDisk(ItemsOf(recs))
  {
    hide Trail, Stored, FromLE;
    if recs != [] {
      var n := |recs| - 1;
      var a, p := Item(recs[n].word.tag, recs[n].data), Payload(recs[..n]);
      assert forall i :: 0 <= i < |p| ==> p[i] == Payload(recs)[i];
      PayloadOnDisk(f, rev, recs[..n]);
      assert ItemsOf(recs) == ItemsOf(recs[..n]) + [a];
      if !IsCrcTag(recs[n].word) {
        assert Payload(recs)[|p|] == a;
      }
    }
  }

  lemma {:induction false} FlatPlain(commits: seq<seq<Item>>)
    requires forall i :: 0 <= i < |commits| ==> AllPlain(commits[i])
    ensures AllPlain(Flat(commits))
  {
    if commits != [] {
      FlatPlain(commits[..|commits| - 1]);
    }
  }

  /** What a lookup of an entry's attribute should give, by the replay of all that was committed. */
  ghost function Committed(commits: seq<seq<Item>>, q: Query): Option<Value>
    requires q.Ok()
  {
    Get(Run(Masked(q.unit), Flat(commits)), q.gtag.id, q.gtag.typ / q.unit)
  }

  lemma CommittedIs(f: Checksum, image: seq<Byte>, recs: seq<Rec>, commits: seq<seq<Item>>, q: Query)
    requires Holds(f, image, recs) && Payload(recs) == Flat(commits)
    requires forall i :: 0 <= i < |commits| ==> AllPlain(commits[i])
    requires q.Ok() && q.byId && Fits(Flat(commits), q.gtag.id)
    ensures 4 <= |image| && OnDisk(ItemsOf(recs)) && Askable(ItemsOf(recs), None, q)
    ensures Wanted(ItemsOf(recs), None, q) == Committed(commits, q)
  {
    hide Run, TagChain.Ok, Trail, Serial, Fits, AllPlain, OnDisk, Flat, Payload;
    FlatPlain(commits);
    PayloadOnDisk(f, image[..4], recs);
    PayloadFits(recs, q.gtag.id);
    PayloadReplays(Masked(q.unit), recs);
    assert ItemsOf(recs) + Pending(None) == ItemsOf(recs);
  }

  /** Write any commits into an erased block, mount it, and look an attribute up in the bytes: the
      answer is that of the replay.
   */
  method WriteAndLookUp(f: Checksum, erased: seq<Byte>, rev: seq<Byte>, progSize: nat, limit: nat,
                        commits: seq<seq<Item>>, q: Query)
      returns (ok: bool, r: Outcome)
    requires Lawful(f) && |rev| == 4 && 12 <= limit <= |erased| && progSize > 0 && |erased| % progSize == 0
    requires commits != [] && forall i :: 0 <= i < |commits| ==> AllPlain(commits[i])
    requires q.Ok() && q.byId && Fits(Flat(commits), q.gtag.id)
    ensures ok == EndOf(commits, progSize, limit).Some?
    ensures ok ==> Answers(r, Committed(commits, q), q)
  {
    hide Lawful, Holds, Ended, Trail, ScansTo, EndOf, AllPlain, Query.Ok, Answers, Wanted, Committed, Askable, Fits,
         Flat, Payload, OnDisk, Yields, Backward;
    var image, off, etag;
    ghost var recs;
    r := NoEnt;
    ok, image, off, etag, recs := WriteLog(f, erased, rev, progSize, limit, commits);
    if ok {
      CommittedIs(f, image, recs, commits, q);
      var found, end, tag, _ := ForwardScan(f, image, progSize);
      ScanSealed(f, image, recs);
      ScanUnique(f, image, recs, found);
      r := GetSlice(f, image, end, tag, None, q, recs);
    }
  }
}
