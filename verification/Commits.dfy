/** Writing commits: records appended to a block, and the checksum footers that seal them. */
module Commits {
  import opened Basics
  import opened Words
  import opened TagChain
  import opened Align

  /** The record of a footer whose data starts at `o` ends here; the next footer starts here. */
  function FooterEnd(o: nat, end: nat): (n: nat)
    requires o + 4 <= end
    ensures o + 4 <= n <= o + 0x3fe
    ensures n == end || n + 8 <= end
  {
    var n := Min(end - o, 0x3fe) + o;
    if n < end then Min(n, end - 8) else n
  }

  /** The checksum stored at `pos` covers exactly the bytes from `start`. */
  predicate Region(f: Checksum, image: seq<Byte>, start: nat, pos: nat) {
    && start <= pos && pos + 4 <= |image|
    && FromLE(image[pos..pos + 4]) == f(CRC_INIT, image[start..pos])
  }

  /** The footers of a commit: the first covers the commit from its begin, each later one only its
      own tag; only padding lies between them.
   */
  predicate Footers(f: Checksum, image: seq<Byte>, begin: nat, foots: seq<nat>, end: nat) {
    && (forall i :: 0 <= i < |foots| ==>
          && foots[i] + 8 <= end
          && Region(f, image, if i == 0 then begin else foots[i], foots[i] + 4))
    && (forall i :: 0 < i < |foots| ==> foots[i] == FooterEnd(foots[i - 1] + 4, end))
  }

  /** The laws of a checksum that is computed byte by byte and cancels itself. */
  ghost predicate Lawful(f: Checksum) {
    && (forall c: U32 :: f(c, []) == c)
    && (forall c: U32, x: seq<Byte>, y: seq<Byte> :: f(f(c, x), y) == f(c, x + y))
    && (forall c: U32, x: seq<Byte>, s: seq<Byte> :: |s| == 4 && FromLE(s) == f(c, x) ==> f(c, x + s) == 0)
  }

  lemma Concat(f: Checksum, c: U32, x: seq<Byte>, y: seq<Byte>)
    requires Lawful(f)
    ensures f(f(c, x), y) == f(c, x + y)
  {
  }

  lemma Nothing(f: Checksum, c: U32)
    requires Lawful(f)
    ensures f(c, []) == c
  {
  }

  lemma Cancel(f: Checksum, c: U32, x: seq<Byte>, s: seq<Byte>)
    requires Lawful(f) && |s| == 4 && FromLE(s) == f(c, x)
    ensures f(c, x + s) == 0
  {
  }

  lemma CommitBoundary(f: Checksum, image: seq<Byte>, recs: seq<Rec>)
    requires Sealed(f, image, recs)
    ensures Trail(f, image[..4], recs).crc == CRC_INIT
    ensures 4 <= Trail(f, image[..4], recs).off <= |image|
  {
    hide XorWord, BE, FromBE;
    SerialLength(f, image[..4], recs);
  }

  // ----- where writing may stop

  /** Behind the checksum that the last of the records stores. */
  function Checked(f: Checksum, rev: seq<Byte>, recs: seq<Rec>): nat
    requires FieldsOk(recs)
  {
    if recs == [] then 0 else Trail(f, rev, recs[..|recs| - 1]).off + 8
  }

  /** The bytes of a block at some moment, and the commits that are complete in it. The last checksum of
      these ends at `off`; its padding may be missing.
   */
  datatype Stop = Stop(image: seq<Byte>, recs: seq<Rec>, off: nat)

  ghost predicate StopOk(f: Checksum, s: Stop) {
    && 4 <= |s.image| && FieldsOk(s.recs) && s.off == Checked(f, s.image[..4], s.recs) <= |s.image|
    && (s.recs != [] ==> Holds(f, s.image, s.recs) && EndsCommit(s.recs))
  }

  function Slice(image: seq<Byte>, at: int, n: nat): seq<Byte> {
    if 0 <= at && at + n <= |image| then image[at..at + n] else []
  }

  /** The records of a stop as they read in another image, where the padding behind the last checksum
      may differ.
   */
  function Repadded(s: Stop, image: seq<Byte>): (recs: seq<Rec>)
    ensures |recs| == |s.recs| && forall i :: 0 <= i < |recs| ==> recs[i].word == s.recs[i].word
  {
    if s.recs == [] then []
    else
      var n := |s.recs| - 1;
      s.recs[..n] + [s.recs[n].(data := Slice(image, s.off - 4, |s.recs[n].data|))]
  }

  /** Blocks of one size and with one revision. */
  predicate SameStart(a: seq<Byte>, b: seq<Byte>) {
    |a| == |b| && 4 <= |a| && a[..4] == b[..4]
  }

  lemma StartKept(a: seq<Byte>, b: seq<Byte>, off: nat)
    requires 4 <= off <= |a| == |b| && a[..off] == b[..off]
    ensures SameStart(a, b)
  {
    assert a[..4] == a[..off][..4] && b[..4] == b[..off][..4];
  }

  ghost predicate StopsOk(f: Checksum, stops: seq<Stop>) {
    forall k :: 0 <= k < |stops| ==> StopOk(f, stops[k])
  }

  /** The stops behind `past` end with `last`, and each has some records more than `before`. */
  ghost predicate SealedStops(f: Checksum, stops: seq<Stop>, past: seq<Stop>, before: seq<Rec>, last: Stop) {
    && StopsOk(f, stops) && past < stops && stops[|stops| - 1] == last
    && forall k :: |past| <= k < |stops| ==>
         before < stops[k].recs <= last.recs && SameStart(stops[k].image, last.image)
  }

  lemma SealedFirst(f: Checksum, past: seq<Stop>, before: seq<Rec>, last: Stop)
    requires StopsOk(f, past + [last]) && before < last.recs
    ensures SealedStops(f, past + [last], past, before, last)
  {
    hide Holds, Trail, EndsCommit;
    assert StopOk(f, (past + [last])[|past|]);
  }

  lemma SealedNext(f: Checksum, stops: seq<Stop>, past: seq<Stop>, before: seq<Rec>, prev: Stop, last: Stop)
    requires SealedStops(f, stops, past, before, prev) && StopsOk(f, stops + [last])
    requires prev.recs <= last.recs && SameStart(prev.image, last.image)
    ensures SealedStops(f, stops + [last], past, before, last)
  {
    hide StopOk;
  }

  /** Whatever was being written behind the complete commits. */
  predicate TornFrom(s: Stop, image: seq<Byte>) {
    |image| == |s.image| && s.off <= |image| && image[..s.off] == s.image[..s.off]
  }

  /** The last record reads the same but for its padding. */
  lemma TornRecord(f: Checksum, image0: seq<Byte>, image: seq<Byte>, pre: seq<Rec>, r: Rec, off: nat)
    requires Holds(f, image0, pre + [r]) && IsCrcTag(r.word) && FieldsOk(pre)
    requires off == Trail(f, image0[..4], pre).off + 8
    requires off <= |image| == |image0| && image[..off] == image0[..off]
    ensures image[..4] == image0[..4] && off + |r.data| <= |image| + 4
    ensures Holds(f, image, pre + [r.(data := Slice(image, off - 4, |r.data|))])
  {
    hide Trail, Serial, Ok, Holds, Stored, RecOk, IsCrcTag;
    HoldsRead(f, image0, pre, r);
    var c := Trail(f, image0[..4], pre);
    SameSlice(image, image0, off, 0, c.off);
    HoldsFrame(f, image0, image, pre, c.off);
    SameSlice(image, image0, off, c.off, c.off + 4);
    SameSlice(image, image0, off, c.off + 4, c.off + 8);
    var r' := r.(data := image[c.off + 4..c.off + DSize(r.word)]);
    FirstFour(image, c.off + 4, c.off + DSize(r.word), r'.data);
    FirstFour(image0, c.off + 4, c.off + DSize(r.word), r.data);
    RecOkFirst(f, c, r, r');
    HoldsExtend(f, image, pre, r');
  }

  /** Of a checksum record only the first four bytes of data count. */
  lemma RecOkFirst(f: Checksum, c: Cursor, r: Rec, r': Rec)
    requires c.ptag.tag.Ok() && RecOk(f, c, r) && IsCrcTag(r.word) && r'.word == r.word && |r'.data| == |r.data|
    requires |r.data| >= 4 ==> r'.data[..4] == r.data[..4]
    ensures RecOk(f, c, r') && |r.data| == DSize(r.word) - 4 && |r.data| >= 4
  {
    hide Stored, FromLE;
  }

  lemma TornOk(f: Checksum, s: Stop, image: seq<Byte>)
    requires StopOk(f, s) && TornFrom(s, image)
    ensures StopOk(f, Stop(image, Repadded(s, image), s.off))
  {
    hide Trail, Serial, Ok, Holds, Slice, RecOk;
    if s.recs != [] {
      var n := |s.recs| - 1;
      var pre, r := s.recs[..n], s.recs[n];
      assert s.recs == pre + [r];
      TornRecord(f, s.image, image, pre, r, s.off);
      assert Repadded(s, image)[..n] == pre;
      HoldsOff(f, image, Repadded(s, image));
    }
  }

  /** The images of writing records one behind the other: each shows one record more, and keeps what was
      complete in the one before.
   */
  ghost predicate Follows(f: Checksum, stops: seq<Stop>, first: seq<Rec>, recs: seq<Rec>) {
    && first <= recs && |stops| == |recs| - |first| + 1
    && (forall k :: 0 <= k < |stops| ==> Holds(f, stops[k].image, recs[..|first| + k]))
    && (forall k :: 0 < k < |stops| ==> TornFrom(stops[k - 1], stops[k].image))
  }

  lemma FollowsFirst(f: Checksum, s: Stop, recs: seq<Rec>)
    requires Holds(f, s.image, recs)
    ensures Follows(f, [s], recs, recs)
  {
    hide Holds;
    assert recs[..|recs|] == recs;
  }

  lemma FollowsNext(f: Checksum, stops: seq<Stop>, first: seq<Rec>, recs: seq<Rec>, s: Stop, more: seq<Rec>)
    requires Follows(f, stops, first, recs) && Holds(f, s.image, more)
    requires recs <= more && |more| == |recs| + 1 && TornFrom(stops[|stops| - 1], s.image)
    ensures Follows(f, stops + [s], first, more)
  {
    hide Holds, TornFrom;
    forall k | 0 <= k < |stops| + 1 ensures Holds(f, (stops + [s])[k].image, more[..|first| + k]) {
      if k < |stops| {
        assert more[..|first| + k] == recs[..|first| + k];
      } else {
        assert more[..|more|] == more;
      }
    }
  }

  /** A scan after a stop finds at least the complete commits, and exactly them unless by chance a
      checksum matches in what lies behind them.
   */
  lemma StopScan(f: Checksum, s: Stop, image: seq<Byte>, found: seq<Rec>)
    requires StopOk(f, s) && TornFrom(s, image) && ScansTo(f, image, found)
    ensures Repadded(s, image) <= found
    ensures NoneBeyond(f, image, Repadded(s, image)) ==> found == Repadded(s, image)
  {
    hide Trail, Serial, Ok, Taken, NoneBeyond, ScansTo;
    TornOk(f, s, image);
    var recs := Repadded(s, image);
    if s.recs != [] {
      ScanAtLeast(f, image, recs, found);
      if NoneBeyond(f, image, recs) {
        ScanExactly(f, image, recs);
        ScanUnique(f, image, recs, found);
      }
    } else if NoneBeyond(f, image, []) {
      NothingFound(f, image, found);
    }
  }

  lemma NothingFound(f: Checksum, image: seq<Byte>, found: seq<Rec>)
    requires 4 <= |image| && ScansTo(f, image, found) && NoneBeyond(f, image, [])
    ensures found == []
  {
    hide Taken;
  }

  /** Where a commit behind sealed ones starts. */
  lemma AppendStart(f: Checksum, image: seq<Byte>, recs: seq<Rec>, off: nat, etag: Word)
    requires Lawful(f) && SealedAt(f, image, recs, off, etag)
    ensures 4 <= off <= |image| && Holds(f, image, recs)
    ensures Trail(f, image[..4], recs) == Cursor(off, etag, CRC_INIT) && f(CRC_INIT, image[off..off]) == CRC_INIT
    ensures var s := Stop(image, recs, Checked(f, image[..4], recs));
            s.off <= off && StopOk(f, s) && Follows(f, [s], recs, recs)
  {
    hide Trail, Serial, Ok, XorWord, BE, FromBE, Lawful, Follows, StopOk;
    CommitBoundary(f, image, recs);
    CheckedBefore(f, image, recs);
    FollowsFirst(f, Stop(image, recs, Checked(f, image[..4], recs)), recs);
    Nothing(f, CRC_INIT);
    assert image[off..off] == [];
  }

  class Commit {
    const f: Checksum
    var image: seq<Byte>
    var begin: nat
    var off: nat
    var ptag: Word
    var crc: U32
    const end: nat
    ghost var recs: seq<Rec>
    ghost var first: seq<Rec>     // the records that were there before
    ghost var done: seq<Rec>      // the records up to the last checksum
    ghost var doneOff: nat
    ghost var stops: seq<Stop>    // after every record and footer

    ghost predicate Valid()
      reads this
    {
      && Lawful(f)
      && begin <= off <= |image| && 4 <= off && end <= |image|
      && Holds(f, image, recs)
      && Trail(f, image[..4], recs) == Cursor(off, ptag, crc)
      && crc == f(CRC_INIT, image[begin..off])
      && Traced()
    }

    ghost predicate Traced()
      reads this
    {
      && done <= recs && doneOff <= off && StopsOk(f, stops) && Follows(f, stops, first, recs)
      && stops != [] && stops[|stops| - 1] == Stop(image, done, doneOff)
    }

    /** A commit into a freshly erased block starts with the revision; what the erased bytes read
        as does not matter.
     */
    constructor Fresh(f: Checksum, erased: seq<Byte>, rev: seq<Byte>, end: nat)
      requires Lawful(f) && |rev| == 4 <= end <= |erased|
      ensures Valid() && recs == [] && off == 4 && begin == 0 && first == done == [] && stops == [Stop(image, [], 0)]
      ensures this.f == f && this.end == end && image == rev + erased[4..]
    {
      this.f := f;
      this.end := end;
      image := rev + erased[4..];
      begin, off, ptag, crc, recs, first := 0, 4, ONES, f(CRC_INIT, rev), [], [];
      done, doneOff, stops := [], 0, [Stop(rev + erased[4..], [], 0)];
      new;
      assert image[..4] == rev && image[0..4] == rev;
    }

    /** A commit appended behind the commits already in a block. */
    constructor Append(f: Checksum, image: seq<Byte>, off: nat, etag: Word, end: nat, ghost recs: seq<Rec>)
      requires Lawful(f) && SealedAt(f, image, recs, off, etag) && end <= |image|
      ensures Valid() && this.recs == recs && this.off == off && begin == off
      ensures first == done == recs && stops == [Stop(image, recs, Checked(f, image[..4], recs))]
      ensures this.f == f && this.end == end && this.image == image
    {
      this.f := f;
      this.end := end;
      this.image := image;
      this.begin, this.off, ptag, crc, this.recs, first := off, off, etag, CRC_INIT, recs, recs;
      done, doneOff := recs, Checked(f, image[..4], recs);
      stops := [Stop(image, recs, Checked(f, image[..4], recs))];
      new;
      hide Trail, Serial, Ok, XorWord, BE, FromBE, Lawful, Holds, Ended, StopOk, Follows, EndsCommit;
      AppendStart(f, image, recs, off, etag);
    }

    /** Append one record, if it leaves the room reserved at the end. */
    method CommitAttr(tag: Word, data: seq<Byte>) returns (ok: bool)
      requires Valid() && tag.tag.Ok() && !IsCrcTag(tag) && |data| == DSize(tag) - 4
      modifies this
      ensures Valid() && begin == old(begin) && |image| == old(|image|)
      ensures ok == (old(off) + DSize(tag) <= end)
      ensures recs == old(recs) + if ok then [Rec(tag.(top := false), data)] else []
      ensures off == old(off) + if ok then DSize(tag) else 0
      ensures image[..old(off)] == old(image[..off]) && image[off..] == old(image)[off..]
      ensures first == old(first) && done == old(done) && doneOff == old(doneOff)
      ensures stops == old(stops) + if ok then [Stop(image, done, doneOff)] else []
    {
      hide Holds, Trail, Ok, Lawful, StopOk, Follows;
      if off + DSize(tag) > end {
        return false;
      }
      ghost var image0, off0, recs0 := image, off, recs;
      AddRecord(tag, data);
      KeepStop(f, image0, image, done, doneOff, recs, off0);
      FollowsNext(f, stops, first, recs0, Stop(image, done, doneOff), recs);
      stops := stops + [Stop(image, done, doneOff)];
      ok := true;
    }

    /** The bytes of a record, and what the next tag and the checksum go on from. */
    method AddRecord(tag: Word, data: seq<Byte>)
      requires Valid() && tag.tag.Ok() && !IsCrcTag(tag) && |data| == DSize(tag) - 4 && off + DSize(tag) <= end
      modifies this`image, this`off, this`ptag, this`crc, this`recs
      ensures |image| == old(|image|) && off == old(off) + DSize(tag)
      ensures recs == old(recs) + [Rec(tag.(top := false), data)]
      ensures Holds(f, image, recs) && Trail(f, image[..4], recs) == Cursor(off, ptag, crc)
      ensures crc == f(CRC_INIT, image[begin..off])
      ensures image[..old(off)] == old(image[..off]) && image[off..] == old(image)[off..]
    {
      hide Trail, Serial, Ok, XorWord, BE, FromBE, Lawful, StopOk, Holds, Overwrite;
      ghost var r, image0 := Rec(tag.(top := false), data), image;
      ghost var c := Cursor(off, ptag, crc);
      var ntag := BE(XorWord(tag.(top := false), ptag));
      image := Overwrite(image, off, ntag + data);
      OverwriteParts(image0, off, ntag + data);
      crc := f(f(crc, ntag), data);
      off := off + DSize(tag);
      ptag := tag.(top := false);
      recs := recs + [r];
      WriteRecord(f, image0, image, c, old(recs), r, begin);
    }

    /** Seal the commit: write footers up to the next program boundary, then read the commit back. */
    method CommitCrc(progSize: nat) returns (ok: bool)
      requires Valid() && progSize > 0 && |image| % progSize == 0 && off + 8 <= |image|
      modifies this
      ensures Sealing(old(recs), old(stops)) && first == old(first) && Follows(f, stops, first, recs)
      ensures old(off) <= off <= |image| == old(|image|)
      ensures ok && SealedAt(f, image, recs, off, ptag)
      ensures off == AlignUp(old(off) + 8, progSize)
      ensures old(recs) < recs && forall i :: old(|recs|) <= i < |recs| ==>
                IsCrcTag(recs[i].word) && 4 <= recs[i].word.tag.size <= 0x3fe
      ensures image[..old(off)] == old(image[..off]) && image[off..] == old(image)[off..]
    {
      hide Trail, Serial, Ok, Holds, Sealed, StopOk, Lawful, AlignUp, Follows;
      AlignUpWithin(off + 8, progSize, |image|);
      ok := Seal(AlignUp(off + 8, progSize));
    }

    /** The stops while sealing: after each footer the records are complete. */
    ghost predicate Sealing(before: seq<Rec>, past: seq<Stop>)
      reads this
    {
      SealedStops(f, stops, past, before, Stop(image, recs, doneOff))
    }

    /** The loop over the footers. The padding behind a footer may be programmed with anything. */
    method Seal(end: nat) returns (ok: bool)
      requires Valid() && off + 8 <= end <= |image|
      modifies this
      ensures Sealing(old(recs), old(stops)) && first == old(first) && Follows(f, stops, first, recs)
      ensures off == end && |image| == old(|image|)
      ensures ok && SealedAt(f, image, recs, off, ptag)
      ensures old(recs) < recs && forall i :: old(|recs|) <= i < |recs| ==>
                IsCrcTag(recs[i].word) && 4 <= recs[i].word.tag.size <= 0x3fe
      ensures image[..old(off)] == old(image[..off]) && image[off..] == old(image)[off..]
    {
      hide Progress, Trail, Serial, Ok, FromLE, Lawful, Holds, StopsOk, SameStart, SealedStops, AllCancel, Spans,
           Footers, Follows;
      var off1, crc1 := 0, 0;
      ghost var foots := [];
      ProgressStart(f, image, recs, Cursor(off, ptag, crc), begin, end);
      while off < end
        invariant begin == old(begin) && old(off) <= off <= end <= |image| == old(|image|)
        invariant off == end || off + 8 <= end
        invariant Progress(f, image, recs, Cursor(off, ptag, crc), begin, foots, end)
        invariant foots == [] ==> off == old(off) && off1 == 0
        invariant foots != [] ==>
                    && foots[0] == old(off) && off1 == old(off) + 4 && off1 + 4 <= off
                    && crc1 == FromLE(image[off1..off1 + 4])
        invariant old(recs) <= recs && old(|recs|) + |foots| == |recs|
        invariant forall i :: old(|recs|) <= i < |recs| ==>
                    IsCrcTag(recs[i].word) && 4 <= recs[i].word.tag.size <= 0x3fe
        invariant image[..old(off)] == old(image[..off]) && image[off..] == old(image)[off..]
        invariant StopsOk(f, stops) && first == old(first) && Follows(f, stops, first, recs) && stops != []
        invariant stops[|stops| - 1].image == image && stops[|stops| - 1].off <= off
        invariant if foots == [] then stops == old(stops) else Sealing(old(recs), old(stops))
      {
        ghost var image0, stops0, recs0, prev := image, stops, recs, Stop(image, recs, doneOff);
        var off0 := off;
        var written := Finish(end, foots);
        StartKept(image0, image, off0);
        ghost var now := Stop(image, recs, doneOff);
        SameSlice(image, image0, off0, 0, stops0[|stops0| - 1].off);
        ProgressHolds(f, image, recs, Cursor(off, ptag, crc), begin, foots + [off0], end);
        FollowsNext(f, stops0, first, recs0, now, recs);
        if foots == [] {
          SealedFirst(f, stops0, old(recs), now);
        } else {
          SealedNext(f, stops0, old(stops), old(recs), prev, now);
        }
        foots := foots + [off0];
        if off1 == 0 {
          off1, crc1 := off0 + 4, written;
        } else {
          SameSlice(image0, image, off0, off1, off1 + 4);
        }
        SameSlice(image0, image, off0, 0, old(off));
        SameRest(image, image0, old(image), off0, off);
      }
      ProgressDone(f, image, recs, Cursor(off, ptag, crc), begin, foots, end);
      WrittenCancels(f, image, begin, foots, end);
      ghost var checked;
      ok, checked := ReadBack(f, image, begin, off1, crc1, end);
    }

    /** A footer, and with it the records up to it complete. */
    method Finish(end: nat, ghost foots: seq<nat>) returns (written: U32)
      requires off + 8 <= end <= |image| && StopsOk(f, stops)
      requires Progress(f, image, recs, Cursor(off, ptag, crc), begin, foots, end)
      modifies this
      ensures StopsOk(f, stops) && stops == old(stops) + [Stop(image, recs, old(off) + 8)] && first == old(first)
      ensures doneOff == old(off) + 8 <= off && done == recs
      ensures begin == old(begin) && |image| == old(|image|) && off == FooterEnd(old(off) + 4, end)
      ensures Progress(f, image, recs, Cursor(off, ptag, crc), begin, foots + [old(off)], end)
      ensures written == FromLE(image[old(off) + 4..old(off) + 8])
      ensures image[..old(off)] == old(image[..off]) && image[off..] == old(image)[off..]
      ensures |recs| == old(|recs|) + 1 && old(recs) <= recs
      ensures var t := recs[|recs| - 1].word; IsCrcTag(t) && 4 <= t.tag.size <= 0x3fe
    {
      hide Progress, StopOk, FromLE;
      ghost var o, image0, recs0, c0 := off, image, recs, Cursor(off, ptag, crc);
      written := Footer(end, foots);
      ProgressStop(f, image0, recs0, c0, foots, image, recs, Cursor(off, ptag, crc), begin, end);
      done, doneOff := recs, o + 8;
      stops := stops + [Stop(image, recs, o + 8)];
    }

    /** One footer: a checksum tag and the checksum, up to the end of its program units. */
    method Footer(end: nat, ghost foots: seq<nat>) returns (written: U32)
      requires off + 8 <= end <= |image|
      requires Progress(f, image, recs, Cursor(off, ptag, crc), begin, foots, end)
      modifies this`image, this`off, this`ptag, this`crc, this`recs
      ensures begin == old(begin) && |image| == old(|image|) && off == FooterEnd(old(off) + 4, end)
      ensures Progress(f, image, recs, Cursor(off, ptag, crc), begin, foots + [old(off)], end)
      ensures written == FromLE(image[old(off) + 4..old(off) + 8])
      ensures image[..old(off)] == old(image[..off]) && image[off..] == old(image)[off..]
      ensures |recs| == old(|recs|) + 1 && old(recs) <= recs
      ensures var t := recs[|recs| - 1].word; IsCrcTag(t) && 4 <= t.tag.size <= 0x3fe
    {
      hide Progress, Trail, Serial, Ok, XorWord, BE, FromBE, FromLE, LE, Lawful, Holds, Overwrite;
      ProgressTag(f, image, recs, Cursor(off, ptag, crc), begin, foots, end);
      var o := off + 4;
      var noff := Min(end - o, 0x3fe) + o;
      if noff < end {
        noff := Min(noff, end - 8);
      }
      // the erased state of the next program unit, all ones if it cannot be read
      var erased := if noff + 4 <= |image| then FromBE(image[noff..noff + 4]) else ONES;
      var reset := !erased.top;
      var tag := CrcTag(reset, noff - o);
      var footer := BE(XorWord(tag, ptag));
      ghost var image0, c := image, Cursor(off, ptag, crc);
      written := f(crc, footer);
      var pad := Padding(noff - (off + 8));
      image := Overwrite(image, off, footer + LE(written) + pad);
      ProgressStep(f, image0, image, recs, c, begin, foots, end, noff, reset, pad);
      recs := recs + [Rec(tag, LE(written) + pad)];
      off := off + 4 + (noff - o);
      ptag := tag.(top := reset);
      crc := CRC_INIT;
    }
  }

  /** Records written behind the complete ones leave them complete. */
  lemma KeepStop(f: Checksum, image0: seq<Byte>, image: seq<Byte>, done: seq<Rec>, doneOff: nat, recs: seq<Rec>,
                 off: nat)
    requires StopOk(f, Stop(image0, done, doneOff)) && doneOff <= off <= |image0| == |image| && 4 <= off
    requires image[..off] == image0[..off] && Holds(f, image, recs) && done <= recs
    ensures StopOk(f, Stop(image, done, doneOff)) && TornFrom(Stop(image0, done, doneOff), image)
  {
    hide Holds, Trail;
    SameSlice(image, image0, off, 0, doneOff);
    SameSlice(image, image0, off, 0, 4);
    HoldsPrefix(f, image, recs, |done|);
    assert recs[..|done|] == done;
  }

  lemma CheckedBefore(f: Checksum, image: seq<Byte>, recs: seq<Rec>)
    requires Holds(f, image, recs) && EndsCommit(recs)
    ensures StopOk(f, Stop(image, recs, Checked(f, image[..4], recs)))
    ensures Checked(f, image[..4], recs) <= Trail(f, image[..4], recs).off
  {
    hide Ok, Serial, Trail, Stored, XorWord, FromBE, BE, Step, FromLE;
    var n := |recs| - 1;
    assert recs == recs[..n] + [recs[n]];
    HoldsRead(f, image, recs[..n], recs[n]);
    StepOff(f, Trail(f, image[..4], recs[..n]), recs[n]);
  }

  lemma StepOff(f: Checksum, c: Cursor, r: Rec)
    requires c.ptag.tag.Ok() && r.word.tag.Ok()
    ensures Step(f, c, r).off == c.off + DSize(r.word)
  {
  }

  /** Bytes that nobody relies on. */
  method Padding(n: nat) returns (pad: seq<Byte>)
    ensures |pad| == n
  {
    pad := seq(n, _ => 0xff);
  }

  lemma OverwriteParts(image: seq<Byte>, off: nat, bytes: seq<Byte>)
    requires off + |bytes| <= |image|
    ensures var r := Overwrite(image, off, bytes);
            r[..off] == image[..off] && r[off + |bytes|..] == image[off + |bytes|..]
  {
  }

  function Overwrite(image: seq<Byte>, off: nat, bytes: seq<Byte>): (r: seq<Byte>)
    requires off + |bytes| <= |image|
    ensures |r| == |image|
    ensures r[..off] == image[..off] && r[off..off + |bytes|] == bytes && r[off + |bytes|..] == image[off + |bytes|..]
  {
    image[..off] + bytes + image[off + |bytes|..]
  }

  /** Writing a record behind the cursor. */
  lemma WriteRecord(f: Checksum, image0: seq<Byte>, image: seq<Byte>, c: Cursor, recs: seq<Rec>, r: Rec, begin: nat)
    requires Lawful(f) && Holds(f, image0, recs) && Trail(f, image0[..4], recs) == c
    requires r.word.tag.Ok() && !r.word.top && |r.data| == DSize(r.word) - 4 && !IsCrcTag(r.word)
    requires begin <= c.off && c.off + DSize(r.word) <= |image0|
    requires image == Overwrite(image0, c.off, Stored(c, r.word) + r.data)
    requires c.crc == f(CRC_INIT, image0[begin..c.off])
    ensures Holds(f, image, recs + [r]) && Trail(f, image[..4], recs + [r]) == Step(f, c, r)
    ensures f(f(c.crc, Stored(c, r.word)), r.data) == f(CRC_INIT, image[begin..c.off + DSize(r.word)])
  {
    hide Trail, Serial, Ok, XorWord, BE, FromBE, Lawful;
    var b, e := Stored(c, r.word), Stored(c, r.word) + r.data;
    HoldsFrame(f, image0, image, recs, c.off);
    var w := image[c.off..c.off + |e|];
    assert image[c.off..c.off + 4] == w[..4] == b;
    assert image[c.off + 4..c.off + |e|] == w[4..] == r.data;
    HoldsExtend(f, image, recs, r);
    assert image[begin..c.off + |e|] == image0[begin..c.off] + b + r.data;
    Concat(f, CRC_INIT, image0[begin..c.off], b);
    Concat(f, CRC_INIT, image0[begin..c.off] + b, r.data);
  }

  lemma WriteFooter(f: Checksum, image0: seq<Byte>, image: seq<Byte>, c: Cursor, recs: seq<Rec>,
                    start: nat, noff: nat, reset: bool, pad: seq<Byte>)
    requires Lawful(f) && Holds(f, image0, recs) && Trail(f, image0[..4], recs) == c
    requires start <= c.off && c.off + 8 <= noff <= |image0| && noff <= c.off + 4 + 0x3fe && |pad| == noff - (c.off + 8)
    requires c.crc == f(CRC_INIT, image0[start..c.off])
    requires reset == if noff + 4 <= |image0| then !FromBE(image0[noff..noff + 4]).top else false
    requires var tag := CrcTag(reset, noff - (c.off + 4));
             image == Overwrite(image0, c.off, Stored(c, tag) + LE(f(c.crc, Stored(c, tag))) + pad)
    ensures var tag := CrcTag(reset, noff - (c.off + 4));
            var r := Rec(tag, LE(f(c.crc, Stored(c, tag))) + pad);
            && Holds(f, image, recs + [r])
            && Trail(f, image[..4], recs + [r]) == Cursor(noff, tag.(top := reset), CRC_INIT)
            && Ended(image, Cursor(noff, tag.(top := reset), CRC_INIT))
            && Region(f, image, start, c.off + 4)
            && FromLE(image[c.off + 4..c.off + 8]) == f(c.crc, Stored(c, tag))
  {
    hide Trail, Serial, Ok, Lawful, BE, FromBE, FromLE, LE, Holds, Overwrite, Stored, RecOk;
    var tag := CrcTag(reset, noff - (c.off + 4));
    var b, l := Stored(c, tag), LE(f(c.crc, Stored(c, tag)));
    var r := Rec(tag, l + pad);
    FooterBytes(image0, image, c.off, b, l, pad);
    HoldsFrame(f, image0, image, recs, c.off);
    LERoundTrip(f(c.crc, b));
    FooterOk(f, c, r, l, pad);
    HoldsExtend(f, image, recs, r);
    assert image[start..c.off + 4] == image0[start..c.off] + b by {
      SameSlice(image0, image, c.off, start, c.off);
      assert image[start..c.off + 4] == image[start..c.off] + image[c.off..c.off + 4];
    }
    Concat(f, CRC_INIT, image0[start..c.off], b);
  }

  lemma FooterOk(f: Checksum, c: Cursor, r: Rec, l: seq<Byte>, pad: seq<Byte>)
    requires c.ptag.tag.Ok() && r.word.tag.Ok() && !r.word.top && IsCrcTag(r.word) && r.data == l + pad
    requires |l| == 4 && |r.data| == DSize(r.word) - 4 && FromLE(l) == f(c.crc, Stored(c, r.word))
    ensures RecOk(f, c, r)
  {
    hide FromLE, Stored;
    assert r.data[..4] == l;
  }

  lemma FooterBytes(image0: seq<Byte>, image: seq<Byte>, off: nat, b: seq<Byte>, l: seq<Byte>, pad: seq<Byte>)
    requires |b| == |l| == 4 && off + 8 + |pad| <= |image0| && image == Overwrite(image0, off, b + l + pad)
    ensures var end := off + 8 + |pad|;
            && |image| == |image0| && image[..off] == image0[..off]
            && image[off..off + 4] == b && image[off + 4..off + 8] == l && image[off + 4..end] == l + pad
            && (end + 4 <= |image| ==> image[end..end + 4] == image0[end..end + 4])
  {
    var w := image[off..off + 8 + |pad|];
    assert w == b + l + pad;
    assert image[off..off + 4] == w[..4] == b;
    assert image[off + 4..off + 8] == w[4..8] == l;
    assert image[off + 4..off + 8 + |pad|] == w[4..] == l + pad;
  }

  lemma FootersFrame(f: Checksum, image0: seq<Byte>, image: seq<Byte>, begin: nat, foots: seq<nat>, end: nat, off: nat)
    requires Footers(f, image0, begin, foots, end) && |image| == |image0| && off <= |image|
    requires image[..off] == image0[..off]
    requires foots != [] ==> off == FooterEnd(foots[|foots| - 1] + 4, end)
    ensures Footers(f, image, begin, foots, end)
  {
    hide FromLE;
    forall i | 0 <= i < |foots|
      ensures Region(f, image, if i == 0 then begin else foots[i], foots[i] + 4)
    {
      FootersApart(foots, end, i, |foots| - 1);
      RegionFrame(f, image0, image, if i == 0 then begin else foots[i], foots[i] + 4, off);
    }
  }

  lemma RegionFrame(f: Checksum, image0: seq<Byte>, image: seq<Byte>, s: nat, p: nat, off: nat)
    requires Region(f, image0, s, p) && p + 4 <= off <= |image| == |image0| && image[..off] == image0[..off]
    ensures Region(f, image, s, p)
  {
    hide FromLE;
    SameSlice(image, image0, off, p, p + 4);
    SameSlice(image, image0, off, s, p);
  }

  lemma SameRest(a: seq<Byte>, b: seq<Byte>, c: seq<Byte>, n: nat, m: nat)
    requires n <= m <= |a| == |b| == |c| && b[n..] == c[n..] && a[m..] == b[m..]
    ensures a[m..] == c[m..]
  {
    assert b[m..] == b[n..][m - n..] && c[m..] == c[n..][m - n..];
  }

  lemma SameSlice(a: seq<Byte>, b: seq<Byte>, n: nat, i: nat, j: nat)
    requires i <= j <= n <= |a| && n <= |b| && a[..n] == b[..n]
    ensures a[i..j] == b[i..j]
  {
    forall k | i <= k < j ensures a[k] == b[k] {
      assert a[..n][k] == b[..n][k];
    }
  }

  lemma {:induction false} FootersApart(foots: seq<nat>, end: nat, i: nat, j: nat)
    requires i <= j < |foots| && forall k :: 0 <= k < |foots| ==> foots[k] + 8 <= end
    requires forall k :: 0 < k < |foots| ==> foots[k] == FooterEnd(foots[k - 1] + 4, end)
    ensures i < j ==> foots[i] + 8 <= foots[j]
    decreases j - i
  {
    if i < j {
      FootersApart(foots, end, i + 1, j);
    }
  }

  // ----- the state of the sealing loop

  /** Some footers are written, the last one ends at the cursor, and nothing valid follows it. */
  ghost predicate Progress(f: Checksum, image: seq<Byte>, recs: seq<Rec>, c: Cursor, begin: nat, foots: seq<nat>,
                           end: nat) {
    && Lawful(f) && Holds(f, image, recs) && Trail(f, image[..4], recs) == c
    && begin <= c.off <= |image| && end <= |image|
    && Footers(f, image, begin, foots, end)
    && (if foots == [] then c.crc == f(CRC_INIT, image[begin..c.off])
        else
          && c.crc == CRC_INIT && c.off == FooterEnd(foots[|foots| - 1] + 4, end)
          && EndsCommit(recs) && Ended(image, c))
  }

  lemma ProgressStart(f: Checksum, image: seq<Byte>, recs: seq<Rec>, c: Cursor, begin: nat, end: nat)
    requires Lawful(f) && Holds(f, image, recs) && Trail(f, image[..4], recs) == c
    requires begin <= c.off <= |image| && end <= |image| && c.crc == f(CRC_INIT, image[begin..c.off])
    ensures Progress(f, image, recs, c, begin, [], end)
  {
    hide Lawful, Holds, Trail;
  }

  lemma ProgressTag(f: Checksum, image: seq<Byte>, recs: seq<Rec>, c: Cursor, begin: nat, foots: seq<nat>, end: nat)
    requires Progress(f, image, recs, c, begin, foots, end)
    ensures c.ptag.tag.Ok()
  {
    hide Lawful, Serial, Footers, Ended;
  }

  /** After a footer its records are complete up to its checksum. */
  lemma ProgressStop(f: Checksum, image0: seq<Byte>, recs0: seq<Rec>, c0: Cursor, foots: seq<nat>,
                     image: seq<Byte>, recs: seq<Rec>, c: Cursor, begin: nat, end: nat)
    requires Progress(f, image0, recs0, c0, begin, foots, end)
    requires Progress(f, image, recs, c, begin, foots + [c0.off], end)
    requires recs0 <= recs && |recs| == |recs0| + 1 && |image| == |image0| && image[..c0.off] == image0[..c0.off]
    ensures StopOk(f, Stop(image, recs, c0.off + 8)) && c0.off + 8 <= c.off
  {
    hide Lawful, Trail, Ok, Serial, Footers, Ended, Holds;
    HoldsOff(f, image0, recs0);
    SameSlice(image, image0, c0.off, 0, 4);
    assert recs[..|recs| - 1] == recs0;
    CheckedBefore(f, image, recs);
  }

  lemma ProgressHolds(f: Checksum, image: seq<Byte>, recs: seq<Rec>, c: Cursor, begin: nat, foots: seq<nat>, end: nat)
    requires Progress(f, image, recs, c, begin, foots, end)
    ensures Holds(f, image, recs)
  {
    hide Lawful, Trail, Holds, Footers, Ended;
  }

  lemma ProgressDone(f: Checksum, image: seq<Byte>, recs: seq<Rec>, c: Cursor, begin: nat, foots: seq<nat>, end: nat)
    requires Progress(f, image, recs, c, begin, foots, end) && foots != []
    ensures SealedAt(f, image, recs, c.off, c.ptag)
    ensures Lawful(f) && Footers(f, image, begin, foots, end) && c.off == FooterEnd(foots[|foots| - 1] + 4, end)
  {
    hide Lawful, Trail, Ok, Serial;
  }

  lemma ProgressStep(f: Checksum, image0: seq<Byte>, image: seq<Byte>, recs: seq<Rec>, c: Cursor, begin: nat,
                     foots: seq<nat>, end: nat, noff: nat, reset: bool, pad: seq<Byte>)
    requires Progress(f, image0, recs, c, begin, foots, end)
    requires c.off + 8 <= end && noff == FooterEnd(c.off + 4, end) && |pad| == noff - (c.off + 8) && c.ptag.tag.Ok()
    requires reset == if noff + 4 <= |image0| then !FromBE(image0[noff..noff + 4]).top else false
    requires var tag := CrcTag(reset, noff - (c.off + 4));
             image == Overwrite(image0, c.off, Stored(c, tag) + LE(f(c.crc, Stored(c, tag))) + pad)
    ensures var tag := CrcTag(reset, noff - (c.off + 4));
            var r := Rec(tag, LE(f(c.crc, Stored(c, tag))) + pad);
            && Progress(f, image, recs + [r], Cursor(noff, tag.(top := reset), CRC_INIT), begin, foots + [c.off], end)
            && FromLE(image[c.off + 4..c.off + 8]) == f(c.crc, Stored(c, tag))
  {
    hide Lawful, Trail, Ok, Serial, Holds, FromLE, LE, BE, FromBE, XorWord, Region, Footers, Stored, Ended;
    var start := if foots == [] then begin else c.off;
    Nothing(f, CRC_INIT);
    assert image0[c.off..c.off] == [];
    WriteFooter(f, image0, image, c, recs, start, noff, reset, pad);
    FootersFrame(f, image0, image, begin, foots, end, c.off);
    FootersSnoc(f, image, begin, foots, end, c.off);
  }

  lemma FootersSnoc(f: Checksum, image: seq<Byte>, begin: nat, foots: seq<nat>, end: nat, off: nat)
    requires Footers(f, image, begin, foots, end) && off + 8 <= end
    requires foots != [] ==> off == FooterEnd(foots[|foots| - 1] + 4, end)
    requires Region(f, image, if foots == [] then begin else off, off + 4)
    ensures Footers(f, image, begin, foots + [off], end)
  {
    hide Region;
  }

  // ----- reading the commit back

  /** The bytes from `start` through the checksum stored at `pos`. */
  datatype Span = Span(start: nat, pos: nat)

  /** The spans a read-back has to check: the commit with its first checksum, and then each later
      footer alone.
   */
  function Spans(start: nat, pos: nat, end: nat): seq<Span>
    requires start <= pos && pos + 4 <= end
    decreases end - pos
  {
    var next := FooterEnd(pos, end);
    [Span(start, pos)] + if next < end then Spans(next, next + 4, end) else []
  }

  /** A checksum run over its span and over itself gives zero. */
  predicate Cancels(f: Checksum, image: seq<Byte>, s: Span) {
    s.start <= s.pos && s.pos + 4 <= |image| && f(CRC_INIT, image[s.start..s.pos + 4]) == 0
  }

  predicate AllCancel(f: Checksum, image: seq<Byte>, spans: seq<Span>) {
    forall i :: 0 <= i < |spans| ==> Cancels(f, image, spans[i])
  }

  /** The check after the flush accepts exactly if every span cancels and the first one has the checksum
      that was written. It looks at the spans in order, and at no padding.
   */
  method ReadBack(f: Checksum, image: seq<Byte>, begin: nat, off1: nat, crc1: U32, end: nat)
      returns (ok: bool, ghost checked: seq<Span>)
    requires Lawful(f) && begin <= off1 && off1 + 4 <= end <= |image|
    ensures ok <==> f(CRC_INIT, image[begin..off1]) == crc1 && AllCancel(f, image, Spans(begin, off1, end))
    ensures checked <= Spans(begin, off1, end) && (ok ==> checked == Spans(begin, off1, end))
  {
    hide Lawful, Spans, Cancels, FooterEnd, AllCancel;
    var off, noff := begin, off1;
    ghost var all, first := Spans(begin, off1, end), f(CRC_INIT, image[begin..off1]);
    checked := all[..0];
    NoneCancels(f, image);
    SpansStep(begin, off1, end);
    assert all[0..] == all;
    while off < end
      invariant off == end || (off <= noff && noff + 4 <= end)
      invariant |checked| <= |all| && checked == all[..|checked|]
      invariant if off < end then all[|checked|..] == Spans(off, noff, end) else |checked| == |all|
      invariant if checked == [] then off == begin && noff == off1
                else off > off1 && first == crc1
      invariant AllCancel(f, image, checked)
      decreases end - off
    {
      ghost var k := |checked|;
      SpansNext(all, k, off, noff, end);
      ok := ReadSpan(f, image, off, noff, off1, crc1);
      if !ok {
        OneFails(f, image, all, k);
        return;
      }
      AllCancelSnoc(f, image, checked, all[k]);
      checked := all[..k + 1];
      off := FooterEnd(noff, end);
      noff := off + 4;
    }
    assert all[..|all|] == all;
    ok := true;
  }

  lemma SpansNext(all: seq<Span>, k: nat, off: nat, noff: nat, end: nat)
    requires off <= noff && noff + 4 <= end && k <= |all| && all[k..] == Spans(off, noff, end)
    ensures k < |all| && all[k] == Span(off, noff) && all[..k + 1] == all[..k] + [all[k]]
    ensures var next := FooterEnd(noff, end);
            && (next == end || next + 8 <= end) && noff < next
            && if next < end then all[k + 1..] == Spans(next, next + 4, end) else |all| == k + 1
  {
    hide Spans, FooterEnd;
    SpansStep(off, noff, end);
    assert all[k] == all[k..][0] && all[k + 1..] == all[k..][1..];
  }

  lemma NoneCancels(f: Checksum, image: seq<Byte>)
    ensures AllCancel(f, image, [])
  {
  }

  lemma OneFails(f: Checksum, image: seq<Byte>, spans: seq<Span>, i: nat)
    requires i < |spans|
    ensures AllCancel(f, image, spans) ==> Cancels(f, image, spans[i])
  {
  }

  lemma AllCancelSnoc(f: Checksum, image: seq<Byte>, spans: seq<Span>, s: Span)
    requires AllCancel(f, image, spans) && Cancels(f, image, s)
    ensures AllCancel(f, image, spans + [s])
  {
    hide Cancels;
  }

  /** One span, byte by byte; `off1` is where the checksum written is known. */
  method ReadSpan(f: Checksum, image: seq<Byte>, off: nat, noff: nat, off1: nat, crc1: U32) returns (ok: bool)
    requires Lawful(f) && off <= noff && noff + 4 <= |image|
    ensures ok <==> Cancels(f, image, Span(off, noff)) &&
                    (off <= off1 < noff + 4 ==> f(CRC_INIT, image[off..off1]) == crc1)
  {
    hide Lawful;
    var crc := CRC_INIT;
    Nothing(f, CRC_INIT);
    assert image[off..off] == [];
    for i := off to noff + 4
      invariant crc == f(CRC_INIT, image[off..i])
      invariant off <= off1 < i ==> f(CRC_INIT, image[off..off1]) == crc1
    {
      if i == off1 && crc != crc1 {
        return false;
      }
      Concat(f, CRC_INIT, image[off..i], [image[i]]);
      assert image[off..i] + [image[i]] == image[off..i + 1];
      crc := f(crc, [image[i]]);
    }
    return crc == 0;
  }

  /** The spans are those of the footers written. */
  lemma {:induction false} SpansOf(f: Checksum, image: seq<Byte>, begin: nat, foots: seq<nat>, end: nat, i: nat)
    requires Footers(f, image, begin, foots, end) && i < |foots| && FooterEnd(foots[|foots| - 1] + 4, end) == end
    requires begin <= foots[0]
    ensures var s := SpanAt(begin, foots, i);
      && s.start <= s.pos && s.pos + 4 <= end && |Spans(s.start, s.pos, end)| == |foots| - i
      && forall k :: i <= k < |foots| ==> Spans(s.start, s.pos, end)[k - i] == SpanAt(begin, foots, k)
    decreases |foots| - i
  {
    hide Region, FooterEnd, Spans;
    var s := SpanAt(begin, foots, i);
    SpansStep(s.start, s.pos, end);
    if i + 1 < |foots| {
      SpansOf(f, image, begin, foots, end, i + 1);
      var rest, next := Spans(s.start, s.pos, end), Spans(foots[i + 1], foots[i + 1] + 4, end);
      forall k | i <= k < |foots| ensures rest[k - i] == SpanAt(begin, foots, k) {
        if k > i {
          assert rest[k - i] == next[k - (i + 1)];
        }
      }
    }
  }

  function SpanAt(begin: nat, foots: seq<nat>, k: nat): Span
    requires k < |foots|
  {
    Span(if k == 0 then begin else foots[k], foots[k] + 4)
  }

  lemma SpansStep(start: nat, pos: nat, end: nat)
    requires start <= pos && pos + 4 <= end
    ensures var next := FooterEnd(pos, end);
      && (next == end || next + 8 <= end) && pos + 4 <= next
      && Spans(start, pos, end) == [Span(start, pos)] + if next < end then Spans(next, next + 4, end) else []
  {
  }

  /** What was written right is accepted. */
  lemma WrittenCancels(f: Checksum, image: seq<Byte>, begin: nat, foots: seq<nat>, end: nat)
    requires Lawful(f) && Footers(f, image, begin, foots, end) && foots != []
    requires FooterEnd(foots[|foots| - 1] + 4, end) == end && begin <= foots[0]
    ensures AllCancel(f, image, Spans(begin, foots[0] + 4, end))
    ensures f(CRC_INIT, image[begin..foots[0] + 4]) == FromLE(image[foots[0] + 4..foots[0] + 8])
  {
    hide Lawful, FromLE, Spans;
    SpansOf(f, image, begin, foots, end, 0);
    var spans := Spans(begin, foots[0] + 4, end);
    forall i | 0 <= i < |spans| ensures Cancels(f, image, spans[i]) {
      var s, p := SpanAt(begin, foots, i).start, foots[i] + 4;
      assert Region(f, image, s, p) && spans[i - 0] == SpanAt(begin, foots, i);
      Cancel(f, CRC_INIT, image[s..p], image[p..p + 4]);
      assert image[s..p] + image[p..p + 4] == image[s..p + 4];
    }
    assert Region(f, image, begin, foots[0] + 4);
  }
}
