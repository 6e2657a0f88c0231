/** The byte layout of a metadata block: a revision word, then records whose tags are stored xored
    with the tag before, in commits that each end in checksum records. Everything holds for every
    checksum function.
 */
module TagChain {
  import opened Basics
  import opened Tags
  import opened Words

  type Checksum = (U32, seq<Byte>) -> U32

  const CRC_INIT: U32 := 0xffff_ffff

  /** A record: its tag without the top bit, and the bytes behind it, padding included. */
  datatype Rec = Rec(word: Word, data: seq<Byte>)

  /** Where the next record goes, what its tag is xored with, and the running checksum. */
  datatype Cursor = Cursor(off: nat, ptag: Word, crc: U32)

  function Start(f: Checksum, rev: seq<Byte>): Cursor {
    Cursor(4, ONES, f(CRC_INIT, rev))
  }

  /** The bytes of the record's tag as they are stored behind the cursor. */
  function Stored(c: Cursor, w: Word): (b: seq<Byte>)
    requires c.ptag.tag.Ok() && w.tag.Ok()
    ensures |b| == 4
  {
    BE(XorWord(w, c.ptag))
  }

  function Step(f: Checksum, c: Cursor, r: Rec): (c': Cursor)
    requires c.ptag.tag.Ok() && r.word.tag.Ok()
    ensures c'.ptag.tag.Ok()
  {
    Cursor(c.off + DSize(r.word), Chain(r.word),
           if IsCrcTag(r.word) then CRC_INIT else f(f(c.crc, Stored(c, r.word)), r.data))
  }

  predicate FieldsOk(recs: seq<Rec>) {
    forall i :: 0 <= i < |recs| ==> recs[i].word.tag.Ok()
  }

  function Trail(f: Checksum, rev: seq<Byte>, recs: seq<Rec>): (c: Cursor)
    requires FieldsOk(recs)
    ensures c.ptag.tag.Ok()
  {
    if recs == [] then Start(f, rev)
    else Step(f, Trail(f, rev, recs[..|recs| - 1]), recs[|recs| - 1])
  }

  function Encode(c: Cursor, r: Rec): seq<Byte>
    requires c.ptag.tag.Ok() && r.word.tag.Ok()
  {
    Stored(c, r.word) + r.data
  }

  function Serial(f: Checksum, rev: seq<Byte>, recs: seq<Rec>): seq<Byte>
    requires FieldsOk(recs)
  {
    if recs == [] then rev
    else Serial(f, rev, recs[..|recs| - 1]) + Encode(Trail(f, rev, recs[..|recs| - 1]), recs[|recs| - 1])
  }

  predicate RecOk(f: Checksum, c: Cursor, r: Rec)
    requires c.ptag.tag.Ok()
  {
    && r.word.tag.Ok() && !r.word.top
    && |r.data| == DSize(r.word) - 4
    && (IsCrcTag(r.word) ==> |r.data| >= 4 && FromLE(r.data[..4]) == f(c.crc, Stored(c, r.word)))
  }

  predicate Ok(f: Checksum, rev: seq<Byte>, recs: seq<Rec>) {
    && |rev| == 4 && FieldsOk(recs)
    && (recs != [] ==> Ok(f, rev, recs[..|recs| - 1]) &&
                       RecOk(f, Trail(f, rev, recs[..|recs| - 1]), recs[|recs| - 1]))
  }

  predicate EndsCommit(recs: seq<Rec>) {
    recs != [] && IsCrcTag(recs[|recs| - 1].word)
  }

  /** The image begins with these records. */
  predicate Holds(f: Checksum, image: seq<Byte>, recs: seq<Rec>) {
    && 4 <= |image| && FieldsOk(recs)
    && Ok(f, image[..4], recs)
    && Serial(f, image[..4], recs) <= image
  }

  /** Nothing that could pass for a record follows. */
  predicate Ended(image: seq<Byte>, c: Cursor)
    requires c.ptag.tag.Ok()
  {
    c.off + 4 <= |image| ==> XorWord(FromBE(image[c.off..c.off + 4]), c.ptag).top
  }

  /** The image holds exactly these commits. */
  predicate Sealed(f: Checksum, image: seq<Byte>, recs: seq<Rec>) {
    Holds(f, image, recs) && EndsCommit(recs) && Ended(image, Trail(f, image[..4], recs))
  }

  /** ... and continues at this offset, behind this tag. */
  predicate SealedAt(f: Checksum, image: seq<Byte>, recs: seq<Rec>, off: nat, etag: Word) {
    Sealed(f, image, recs) && var c := Trail(f, image[..4], recs); c.off == off && c.ptag == etag
  }

  lemma {:induction false} SerialLength(f: Checksum, rev: seq<Byte>, recs: seq<Rec>)
    requires Ok(f, rev, recs)
    ensures |Serial(f, rev, recs)| == Trail(f, rev, recs).off >= 4
  {
    if recs != [] {
      SerialLength(f, rev, recs[..|recs| - 1]);
    }
  }

  lemma Snoc(f: Checksum, rev: seq<Byte>, recs: seq<Rec>, r: Rec)
    requires FieldsOk(recs) && r.word.tag.Ok()
    ensures FieldsOk(recs + [r])
    ensures Trail(f, rev, recs + [r]) == Step(f, Trail(f, rev, recs), r)
    ensures Serial(f, rev, recs + [r]) ==
            Serial(f, rev, recs) + (Stored(Trail(f, rev, recs), r.word) + r.data)
    ensures Ok(f, rev, recs + [r]) <==> Ok(f, rev, recs) && RecOk(f, Trail(f, rev, recs), r)
  {
    hide Step, Stored;
    assert (recs + [r])[..|recs|] == recs;
  }

  lemma {:induction false} HoldsPrefix(f: Checksum, image: seq<Byte>, recs: seq<Rec>, n: nat)
    requires Holds(f, image, recs) && n <= |recs|
    ensures Holds(f, image, recs[..n])
    decreases |recs|
  {
    hide Trail, Serial, Stored;
    if n < |recs| {
      var m := |recs| - 1;
      assert recs == recs[..m] + [recs[m]];
      Snoc(f, image[..4], recs[..m], recs[m]);
      HoldsPrefix(f, image, recs[..m], n);
      assert recs[..m][..n] == recs[..n];
    } else {
      assert recs[..n] == recs;
    }
  }

  /** Reading at a record's place gives the record back. */
  lemma HoldsRead(f: Checksum, image: seq<Byte>, recs: seq<Rec>, r: Rec)
    requires Holds(f, image, recs + [r])
    ensures Holds(f, image, recs)
    ensures var c := Trail(f, image[..4], recs);
            && RecOk(f, c, r)
            && 4 <= c.off && c.off + DSize(r.word) <= |image|
            && image[c.off..c.off + 4] == Stored(c, r.word)
            && XorWord(FromBE(image[c.off..c.off + 4]), c.ptag) == r.word
            && image[c.off + 4..c.off + DSize(r.word)] == r.data
            && Trail(f, image[..4], recs + [r]) == Step(f, c, r)
  {
    hide Trail, Serial, Ok, XorWord, BE, FromBE, DSize, Chain, IsCrcTag, Step;
    var all, rev := recs + [r], image[..4];
    assert all[..|recs|] == recs && all[|recs|] == r;
    HoldsPrefix(f, image, all, |recs|);
    Snoc(f, rev, recs, r);
    SerialLength(f, rev, recs);
    var c := Trail(f, rev, recs);
    Slices(image, Serial(f, rev, recs), Stored(c, r.word), r.data);
    StoredRoundTrip(c, r.word);
  }

  lemma StoredRoundTrip(c: Cursor, w: Word)
    requires c.ptag.tag.Ok() && w.tag.Ok()
    ensures XorWord(FromBE(Stored(c, w)), c.ptag) == w
  {
    hide XorWord, BE, FromBE;
    BERoundTrip(XorWord(w, c.ptag));
    XorWordCancel(w, c.ptag);
  }

  lemma Slices(image: seq<Byte>, s: seq<Byte>, a: seq<Byte>, b: seq<Byte>)
    requires s + (a + b) <= image
    ensures |s| + |a| + |b| <= |image|
    ensures image[|s|..|s| + |a|] == a
    ensures image[|s| + |a|..|s| + |a| + |b|] == b
  {
    var e := s + (a + b);
    assert image[|s|..|s| + |a|] == e[|s|..|s| + |a|];
    assert image[|s| + |a|..|s| + |a| + |b|] == e[|s| + |a|..|s| + |a| + |b|];
  }

  lemma Glue(image: seq<Byte>, s: seq<Byte>, a: seq<Byte>, b: seq<Byte>)
    requires s <= image && |s| + |a| + |b| <= |image|
    requires image[|s|..|s| + |a|] == a
    requires image[|s| + |a|..|s| + |a| + |b|] == b
    ensures s + (a + b) <= image
  {
  }

  /** Conversely, a record found at the end of the records extends them. */
  lemma HoldsExtend(f: Checksum, image: seq<Byte>, recs: seq<Rec>, r: Rec)
    requires Holds(f, image, recs) && r.word.tag.Ok()
    requires var c := Trail(f, image[..4], recs);
             && RecOk(f, c, r) && c.off + DSize(r.word) <= |image|
             && image[c.off..c.off + 4] == Stored(c, r.word)
             && image[c.off + 4..c.off + DSize(r.word)] == r.data
    ensures Holds(f, image, recs + [r])
    ensures Trail(f, image[..4], recs + [r]) == Step(f, Trail(f, image[..4], recs), r)
  {
    hide Trail, Serial, Ok, XorWord, BE, DSize, Chain, IsCrcTag, Step;
    Snoc(f, image[..4], recs, r);
    SerialLength(f, image[..4], recs);
    Glue(image, Serial(f, image[..4], recs), Stored(Trail(f, image[..4], recs), r.word), r.data);
  }

  /** Only the bytes under the records matter. */
  lemma HoldsFrame(f: Checksum, image: seq<Byte>, image': seq<Byte>, recs: seq<Rec>, n: nat)
    requires Holds(f, image, recs) && n == Trail(f, image[..4], recs).off
    requires n <= |image| && n <= |image'| && image[..n] == image'[..n]
    ensures Holds(f, image', recs) && image'[..4] == image[..4]
  {
    hide Trail, Serial, Ok;
    SerialLength(f, image[..4], recs);
    assert image[..4] == image[..n][..4] == image'[..4];
    assert Serial(f, image[..4], recs) <= image'[..n];
  }

  // ----- reading a block

  /** A record read at the cursor; a checksum record must hold the running checksum. */
  predicate TakenAt(f: Checksum, image: seq<Byte>, c: Cursor, r: Rec)
    requires c.ptag.tag.Ok()
  {
    && r.word.tag.Ok() && !r.word.top && c.off + DSize(r.word) <= |image|
    && image[c.off..c.off + 4] == Stored(c, r.word) && r.data == image[c.off + 4..c.off + DSize(r.word)]
    && (IsCrcTag(r.word) ==>
          c.off + 8 <= |image| && FromLE(image[c.off + 4..c.off + 8]) == f(c.crc, Stored(c, r.word)))
  }

  /** Records read one behind the other. */
  predicate Taken(f: Checksum, image: seq<Byte>, recs: seq<Rec>)
    requires 4 <= |image|
  {
    && FieldsOk(recs)
    && (recs != [] ==>
          && Taken(f, image, recs[..|recs| - 1])
          && TakenAt(f, image, Trail(f, image[..4], recs[..|recs| - 1]), recs[|recs| - 1]))
  }

  lemma TakenSnoc(f: Checksum, image: seq<Byte>, recs: seq<Rec>, r: Rec)
    requires 4 <= |image| && Taken(f, image, recs) && TakenAt(f, image, Trail(f, image[..4], recs), r)
    ensures FieldsOk(recs + [r]) && Taken(f, image, recs + [r])
    ensures Trail(f, image[..4], recs + [r]) == Step(f, Trail(f, image[..4], recs), r)
  {
    hide Trail, TakenAt, Step;
    assert (recs + [r])[..|recs|] == recs;
    FieldsOf(recs, r, f, image);
    Snoc(f, image[..4], recs, r);
  }

  lemma FieldsOf(recs: seq<Rec>, r: Rec, f: Checksum, image: seq<Byte>)
    requires 4 <= |image| && FieldsOk(recs) && TakenAt(f, image, Trail(f, image[..4], recs), r)
    ensures r.word.tag.Ok() && FieldsOk(recs + [r])
  {
    hide Trail;
  }

  /** Any word can be read as a tag behind the cursor. */
  lemma StoredInverse(c: Cursor, b: seq<Byte>)
    requires c.ptag.tag.Ok() && |b| == 4
    ensures Stored(c, XorWord(FromBE(b), c.ptag)) == b
  {
    hide XorWord, BE, FromBE;
    XorWordCancel(FromBE(b), c.ptag);
    BEInverse(b);
  }

  /** The record at the cursor, if there is one, is the one its word spells. */
  lemma OnlyRecord(f: Checksum, image: seq<Byte>, c: Cursor, r: Rec)
    requires c.ptag.tag.Ok() && TakenAt(f, image, c, r)
    ensures c.off + 4 <= |image| && r.word == XorWord(FromBE(image[c.off..c.off + 4]), c.ptag)
    ensures r.data == image[c.off + 4..c.off + DSize(r.word)]
  {
    hide XorWord, BE, FromBE, Stored;
    StoredRoundTrip(c, r.word);
  }

  lemma SameRecord(f: Checksum, image: seq<Byte>, c: Cursor, r: Rec, r': Rec)
    requires c.ptag.tag.Ok() && TakenAt(f, image, c, r) && TakenAt(f, image, c, r')
    ensures r == r'
  {
    hide TakenAt, XorWord, FromBE, DSize;
    OnlyRecord(f, image, c, r);
    OnlyRecord(f, image, c, r');
  }

  /** No record can be read at the cursor. */
  ghost predicate Stuck(f: Checksum, image: seq<Byte>, c: Cursor)
    requires c.ptag.tag.Ok()
  {
    forall r: Rec :: !TakenAt(f, image, c, r)
  }

  /** Records of an image can be read in one way only. */
  lemma {:induction false} TakenOneWay(f: Checksum, image: seq<Byte>, a: seq<Rec>, b: seq<Rec>)
    requires 4 <= |image| && Taken(f, image, a) && Taken(f, image, b) && |a| <= |b|
    ensures a <= b
    decreases |b|
  {
    hide Trail, TakenAt;
    if |a| < |b| {
      TakenPrefix(f, image, b, |b| - 1);
      TakenOneWay(f, image, a, b[..|b| - 1]);
    } else if a != [] {
      var n := |a| - 1;
      TakenPrefix(f, image, a, n);
      TakenPrefix(f, image, b, n);
      hide Taken;
      TakenOneWay(f, image, a[..n], b[..n]);
      SameLast(f, image, a, b, n);
    }
  }

  lemma LastTaken(f: Checksum, image: seq<Byte>, recs: seq<Rec>)
    requires 4 <= |image| && recs != [] && Taken(f, image, recs)
    ensures var init := recs[..|recs| - 1];
            FieldsOk(init) && TakenAt(f, image, Trail(f, image[..4], init), recs[|recs| - 1])
  {
    hide Trail, TakenAt;
  }

  lemma SameLast(f: Checksum, image: seq<Byte>, a: seq<Rec>, b: seq<Rec>, n: nat)
    requires 4 <= |image| && Taken(f, image, a) && Taken(f, image, b) && |a| == |b| == n + 1 && a[..n] == b[..n]
    ensures a == b
  {
    hide Trail, TakenAt, XorWord, FromBE, Taken, Step;
    LastTaken(f, image, a);
    LastTaken(f, image, b);
    SameRecord(f, image, Trail(f, image[..4], a[..n]), a[n], b[n]);
    assert a == a[..n] + [a[n]] && b == b[..n] + [b[n]];
  }

  lemma {:induction false} TakenPrefix(f: Checksum, image: seq<Byte>, recs: seq<Rec>, n: nat)
    requires 4 <= |image| && Taken(f, image, recs) && n <= |recs|
    ensures Taken(f, image, recs[..n])
  {
    hide TakenAt;
    if n < |recs| {
      TakenPrefix(f, image, recs[..|recs| - 1], n);
      assert recs[..|recs| - 1][..n] == recs[..n];
    } else {
      assert recs[..n] == recs;
    }
  }

  /** Nothing longer than records can be read that get stuck. */
  lemma StuckIsLast(f: Checksum, image: seq<Byte>, seen: seq<Rec>, more: seq<Rec>)
    requires 4 <= |image| && Taken(f, image, seen) && Taken(f, image, more)
    requires Stuck(f, image, Trail(f, image[..4], seen))
    ensures more <= seen
  {
    hide TakenAt, Trail, Taken;
    if |more| > |seen| {
      Longer(f, image, seen, more);
      assert false;
    }
    TakenOneWay(f, image, more, seen);
  }

  lemma Longer(f: Checksum, image: seq<Byte>, seen: seq<Rec>, more: seq<Rec>)
    requires 4 <= |image| && Taken(f, image, seen) && Taken(f, image, more) && |seen| < |more|
    ensures FieldsOk(seen) && TakenAt(f, image, Trail(f, image[..4], seen), more[|seen|])
  {
    hide TakenAt, Trail;
    var n := |seen|;
    TakenPrefix(f, image, more, n);
    TakenPrefix(f, image, more, n + 1);
    assert more[..n + 1][..n] == more[..n];
    TakenOneWay(f, image, seen, more[..n]);
    assert seen == more[..n];
  }

  /** What a scan has to find: the longest run of records from the start that ends in a checksum. */
  ghost predicate ScansTo(f: Checksum, image: seq<Byte>, recs: seq<Rec>)
    requires 4 <= |image|
  {
    && Taken(f, image, recs) && (recs == [] || EndsCommit(recs))
    && NoneBeyond(f, image, recs)
  }

  /** No checksum matches behind these records. */
  ghost predicate NoneBeyond(f: Checksum, image: seq<Byte>, recs: seq<Rec>)
    requires 4 <= |image|
  {
    forall more :: Taken(f, image, more) && EndsCommit(more) ==> more <= recs
  }

  lemma ScanUnique(f: Checksum, image: seq<Byte>, a: seq<Rec>, b: seq<Rec>)
    requires 4 <= |image| && ScansTo(f, image, a) && ScansTo(f, image, b)
    ensures a == b
  {
    hide Taken;
  }

  lemma ScanStops(f: Checksum, image: seq<Byte>, seen: seq<Rec>, recs: seq<Rec>)
    requires 4 <= |image| && Taken(f, image, seen) && recs <= seen && (recs == [] || EndsCommit(recs))
    requires forall i :: |recs| <= i < |seen| ==> !IsCrcTag(seen[i].word)
    requires Stuck(f, image, Trail(f, image[..4], seen))
    ensures ScansTo(f, image, recs)
  {
    hide Trail, Taken, Stuck;
    TakenPrefix(f, image, seen, |recs|);
    assert seen[..|recs|] == recs;
    forall more | Taken(f, image, more) && EndsCommit(more) ensures more <= recs {
      StuckIsLast(f, image, seen, more);
      assert more[|more| - 1] == seen[|more| - 1];
    }
  }

  /** What follows is not programmed: a word that cannot be a tag. */
  predicate Blank(image: seq<Byte>, off: nat, etag: Word)
    requires etag.tag.Ok()
  {
    off + 4 <= |image| && XorWord(FromBE(image[off..off + 4]), etag).top
  }

  /** The record at the cursor, or none; then, whether there is a word that cannot be a tag. */
  method ReadRecord(f: Checksum, image: seq<Byte>, pos: nat, ptag: Word, crc: U32)
      returns (found: bool, blank: bool, r: Rec)
    requires ptag.tag.Ok() && pos <= |image|
    ensures found ==> TakenAt(f, image, Cursor(pos, ptag, crc), r)
    ensures !found ==> Stuck(f, image, Cursor(pos, ptag, crc)) && blank == Blank(image, pos, ptag)
  {
    hide XorWord, FromBE, FromLE, BE, Stored, TakenAt, Stuck;
    ghost var c := Cursor(pos, ptag, crc);
    r := Rec(ONES, []);
    if pos + 4 > |image| {
      NoRoom(f, image, c, |image|);
      return false, false, r;
    }
    var tag := XorWord(FromBE(image[pos..pos + 4]), ptag);
    var crc' := f(crc, image[pos..pos + 4]);
    if tag.top {
      NoRoom(f, image, c, pos + DSize(tag));
      return false, true, r;
    }
    if pos + DSize(tag) > |image| {
      NoRoom(f, image, c, pos + DSize(tag));
      return false, false, r;
    }
    r := Rec(tag, image[pos + 4..pos + DSize(tag)]);
    StoredInverse(c, image[pos..pos + 4]);
    if IsCrcTag(tag) && (pos + 8 > |image| || FromLE(image[pos + 4..pos + 8]) != crc') {
      NoMatch(f, image, c, tag);
      return false, false, r;
    }
    TakenHere(f, image, c, r);
    return true, false, r;
  }

  lemma NoRoom(f: Checksum, image: seq<Byte>, c: Cursor, end: nat)
    requires c.ptag.tag.Ok()
    requires c.off + 4 <= |image| ==>
               var tag := XorWord(FromBE(image[c.off..c.off + 4]), c.ptag);
               tag.top || c.off + DSize(tag) > |image|
    ensures Stuck(f, image, c)
  {
    hide XorWord, FromBE, BE, Stored;
    forall r: Rec ensures !TakenAt(f, image, c, r) {
      if TakenAt(f, image, c, r) {
        OnlyRecord(f, image, c, r);
      }
    }
  }

  lemma NoMatch(f: Checksum, image: seq<Byte>, c: Cursor, tag: Word)
    requires c.ptag.tag.Ok() && c.off + 4 <= |image| && tag == XorWord(FromBE(image[c.off..c.off + 4]), c.ptag)
    requires IsCrcTag(tag)
    requires c.off + 8 <= |image| ==> FromLE(image[c.off + 4..c.off + 8]) != f(c.crc, image[c.off..c.off + 4])
    ensures Stuck(f, image, c)
  {
    hide XorWord, FromBE, FromLE, BE, Stored;
    forall r: Rec ensures !TakenAt(f, image, c, r) {
      if TakenAt(f, image, c, r) {
        OnlyRecord(f, image, c, r);
      }
    }
  }

  /** The forward scan of a fetch, over any bytes: it finds the complete commits, no more and no fewer,
      the place and tag to continue from, and whether a commit may be programmed there.
   */
  method ForwardScan(f: Checksum, image: seq<Byte>, progSize: nat)
      returns (recs: seq<Rec>, off: nat, etag: Word, erased: bool)
    requires 4 <= |image| && 0 < progSize
    ensures FieldsOk(recs) && ScansTo(f, image, recs) && etag.tag.Ok()
    ensures if recs == [] then off == 0 else EndsAt(Trail(f, image[..4], recs), off, etag)
    ensures erased <==> recs != [] && off % progSize == 0 && Blank(image, off, etag)
  {
    hide Trail, Taken, TakenAt, Stuck, ScansTo, Blank;
    recs, off, etag := [], 0, ONES;
    var pos, ptag, crc: U32, seen := 4, ONES, f(CRC_INIT, image[..4]), [];
    TakenNone(f, image);
    while true
      invariant pos <= |image| && ptag.tag.Ok() && etag.tag.Ok()
      invariant Taken(f, image, seen) && FieldsOk(seen) && recs <= seen && FieldsOk(recs)
      invariant Trail(f, image[..4], seen) == Cursor(pos, ptag, crc)
      invariant if recs == [] then off == 0 else EndsCommit(recs) && EndsAt(Trail(f, image[..4], recs), off, etag)
      invariant forall i :: |recs| <= i < |seen| ==> !IsCrcTag(seen[i].word)
      invariant IsCrcTag(ptag) <==> seen != [] && IsCrcTag(seen[|seen| - 1].word)
      decreases |image| - pos
    {
      var found, blank, r := ReadRecord(f, image, pos, ptag, crc);
      if !found {
        ScanStops(f, image, seen, recs);
        erased := blank && IsCrcTag(ptag) && off % progSize == 0;
        assert IsCrcTag(ptag) <==> recs != [] && recs == seen;
        if recs != seen {
          BlankStops(f, image, seen, recs);
        }
        return;
      }
      TakenSnoc(f, image, seen, r);
      TakenFits(f, image, Cursor(pos, ptag, crc), r);
      crc := if IsCrcTag(r.word) then CRC_INIT else f(f(crc, image[pos..pos + 4]), r.data);
      pos := pos + DSize(r.word);
      ptag := Chain(r.word);
      seen := seen + [r];
      if IsCrcTag(r.word) {
        recs, off, etag := seen, pos, ptag;
      }
    }
  }

  /** Records read behind others start with a word that can be a tag. */
  lemma BlankStops(f: Checksum, image: seq<Byte>, seen: seq<Rec>, recs: seq<Rec>)
    requires 4 <= |image| && Taken(f, image, seen) && recs <= seen && FieldsOk(recs)
    ensures recs != seen ==>
              var c := Trail(f, image[..4], recs);
              !Blank(image, c.off, c.ptag)
  {
    hide Trail, Taken, TakenAt, XorWord, FromBE;
    if recs != seen {
      TakenPrefix(f, image, seen, |recs|);
      assert seen[..|recs|] == recs;
      Longer(f, image, recs, seen);
      OnlyRecord(f, image, Trail(f, image[..4], recs), seen[|recs|]);
      TakenTop(f, image, Trail(f, image[..4], recs), seen[|recs|]);
    }
  }

  lemma TakenTop(f: Checksum, image: seq<Byte>, c: Cursor, r: Rec)
    requires c.ptag.tag.Ok() && TakenAt(f, image, c, r)
    ensures !r.word.top
  {
  }

  lemma TakenFits(f: Checksum, image: seq<Byte>, c: Cursor, r: Rec)
    requires c.ptag.tag.Ok() && TakenAt(f, image, c, r)
    ensures r.word.tag.Ok() && c.off + DSize(r.word) <= |image| && image[c.off..c.off + 4] == Stored(c, r.word)
  {
  }

  predicate EndsAt(c: Cursor, off: nat, etag: Word) {
    c.off == off && c.ptag == etag
  }

  lemma TakenNone(f: Checksum, image: seq<Byte>)
    requires 4 <= |image|
    ensures FieldsOk([]) && Taken(f, image, []) && Trail(f, image[..4], []) == Start(f, image[..4])
  {
  }

  lemma TakenHere(f: Checksum, image: seq<Byte>, c: Cursor, r: Rec)
    requires c.ptag.tag.Ok() && r.word.tag.Ok() && !r.word.top && c.off + DSize(r.word) <= |image|
    requires image[c.off..c.off + 4] == Stored(c, r.word) && r.data == image[c.off + 4..c.off + DSize(r.word)]
    requires IsCrcTag(r.word) ==>
               c.off + 8 <= |image| && FromLE(image[c.off + 4..c.off + 8]) == f(c.crc, image[c.off..c.off + 4])
    ensures TakenAt(f, image, c, r)
  {
  }

  // ----- what was written is found

  lemma {:induction false} HoldsTaken(f: Checksum, image: seq<Byte>, recs: seq<Rec>)
    requires Holds(f, image, recs)
    ensures Taken(f, image, recs)
  {
    hide Trail, Serial, Ok, XorWord, BE, FromBE, FromLE, Step, Stored, TakenAt;
    if recs == [] {
      TakenNone(f, image);
    } else {
      var n := |recs| - 1;
      var r, c := recs[n], Trail(f, image[..4], recs[..n]);
      assert recs == recs[..n] + [r];
      HoldsRead(f, image, recs[..n], r);
      HoldsTaken(f, image, recs[..n]);
      FirstFour(image, c.off + 4, c.off + DSize(r.word), r.data);
      TakenHere(f, image, c, r);
    }
  }

  /** Commits that are there are found, whatever follows them. */
  lemma ScanAtLeast(f: Checksum, image: seq<Byte>, good: seq<Rec>, found: seq<Rec>)
    requires Holds(f, image, good) && EndsCommit(good) && ScansTo(f, image, found)
    ensures good <= found
  {
    hide Holds, Taken;
    HoldsTaken(f, image, good);
  }

  /** ... and they alone, unless a checksum behind them matches. */
  lemma ScanExactly(f: Checksum, image: seq<Byte>, good: seq<Rec>)
    requires Holds(f, image, good) && EndsCommit(good) && NoneBeyond(f, image, good)
    ensures ScansTo(f, image, good)
  {
    hide Holds, Taken, NoneBeyond;
    HoldsTaken(f, image, good);
  }

  /** A block that holds exactly some commits is scanned to them. */
  lemma ScanSealed(f: Checksum, image: seq<Byte>, good: seq<Rec>)
    requires Sealed(f, image, good)
    ensures ScansTo(f, image, good)
  {
    hide Trail, Taken, TakenAt, Ok, Serial, XorWord, FromBE;
    HoldsTaken(f, image, good);
    NoRoom(f, image, Trail(f, image[..4], good), 0);
    ScanStops(f, image, good, good);
  }

  lemma FirstFour(image: seq<Byte>, i: nat, j: nat, data: seq<Byte>)
    requires i <= j <= |image| && image[i..j] == data
    ensures j - i >= 4 ==> image[i..i + 4] == data[..4]
  {
  }

  lemma HoldsOff(f: Checksum, image: seq<Byte>, recs: seq<Rec>)
    requires Holds(f, image, recs)
    ensures 4 <= |image| && FieldsOk(recs)
    ensures 4 <= Trail(f, image[..4], recs).off <= |image|
  {
    hide Trail, Serial, Ok;
    SerialLength(f, image[..4], recs);
  }

  lemma {:induction false} TrailGrows(f: Checksum, rev: seq<Byte>, recs: seq<Rec>, i: nat)
    requires FieldsOk(recs) && i < |recs|
    ensures FieldsOk(recs[..i]) && Trail(f, rev, recs[..i]).off < Trail(f, rev, recs).off
  {
    hide Stored;
    var n := |recs| - 1;
    if i < n {
      TrailGrows(f, rev, recs[..n], i);
      assert recs[..n][..i] == recs[..i];
    }
  }

  /** The records up to an offset known to be the end of some. */
  method RecordsTo(f: Checksum, image: seq<Byte>, off: nat, ghost recs: seq<Rec>) returns (seen: seq<Rec>)
    requires Holds(f, image, recs) && Trail(f, image[..4], recs).off == off
    ensures seen == recs
  {
    hide Holds, Trail, Taken, TakenAt, Stuck, Step;
    HoldsOff(f, image, recs);
    HoldsTaken(f, image, recs);
    TakenNone(f, image);
    TakenFields(f, image, recs);
    seen := [];
    var pos: nat, ptag, crc: U32 := 4, ONES, f(CRC_INIT, image[..4]);
    assert recs[..0] == [] && recs[..|recs|] == recs;
    while pos < off
      invariant pos <= |image| && ptag.tag.Ok() && FieldsOk(seen) && |seen| <= |recs| && seen == recs[..|seen|]
      invariant Taken(f, image, seen) && Trail(f, image[..4], seen) == Cursor(pos, ptag, crc)
      decreases |recs| - |seen|
    {
      assert seen != recs;
      Longer(f, image, seen, recs);
      var found, _, r := ReadRecord(f, image, pos, ptag, crc);
      NotStuck(f, image, Cursor(pos, ptag, crc), recs[|seen|]);
      TakenSnoc(f, image, seen, r);
      TakenPrefix(f, image, recs, |seen| + 1);
      assert recs[..|seen| + 1][..|seen|] == seen && (seen + [r])[..|seen|] == seen;
      SameLast(f, image, seen + [r], recs[..|seen| + 1], |seen|);
      TakenFits(f, image, Cursor(pos, ptag, crc), r);
      StepIs(f, Cursor(pos, ptag, crc), r, image);
      crc := if IsCrcTag(r.word) then CRC_INIT else f(f(crc, image[pos..pos + 4]), r.data);
      pos := pos + DSize(r.word);
      ptag := Chain(r.word);
      seen := seen + [r];
    }
    if seen != recs {
      TrailGrows(f, image[..4], recs, |seen|);
    }
  }

  lemma TakenFields(f: Checksum, image: seq<Byte>, recs: seq<Rec>)
    requires 4 <= |image| && Taken(f, image, recs)
    ensures FieldsOk(recs)
  {
  }

  lemma NotStuck(f: Checksum, image: seq<Byte>, c: Cursor, r: Rec)
    requires c.ptag.tag.Ok() && TakenAt(f, image, c, r)
    ensures !Stuck(f, image, c)
  {
    hide TakenAt;
  }

  lemma StepIs(f: Checksum, c: Cursor, r: Rec, image: seq<Byte>)
    requires c.ptag.tag.Ok() && r.word.tag.Ok() && c.off + 4 <= |image| && image[c.off..c.off + 4] == Stored(c, r.word)
    ensures Step(f, c, r) == Cursor(c.off + DSize(r.word), Chain(r.word),
                                    if IsCrcTag(r.word) then CRC_INIT else f(f(c.crc, image[c.off..c.off + 4]), r.data))
    ensures Chain(r.word).tag.Ok()
  {
    hide Stored;
  }

  /** One step of the backward walk: from behind a record to before it. */
  lemma BackStep(f: Checksum, image: seq<Byte>, recs: seq<Rec>, r: Rec, off: nat, ntag: Word)
    requires Holds(f, image, recs + [r])
    requires off == Trail(f, image[..4], recs + [r]).off && ntag.tag == Trail(f, image[..4], recs + [r]).ptag.tag
    ensures Holds(f, image, recs)
    ensures var c := Trail(f, image[..4], recs);
            && ntag.tag == r.word.tag
            && 4 + DSize(ntag) <= off <= |image| && off - DSize(ntag) == c.off
            && XorWord(FromBE(image[c.off..c.off + 4]), ntag).tag == c.ptag.tag
            && image[c.off + 4..off] == r.data && |r.data| == DSize(r.word) - 4
  {
    hide Trail, Serial, Ok, XorWord, BE, FromBE;
    HoldsRead(f, image, recs, r);
    var c := Trail(f, image[..4], recs);
    BackXor(c, r.word, ntag);
  }

  lemma BackXor(c: Cursor, w: Word, ntag: Word)
    requires c.ptag.tag.Ok() && w.tag.Ok() && ntag.tag == w.tag
    ensures XorWord(FromBE(Stored(c, w)), ntag).tag == c.ptag.tag
  {
    hide BE, FromBE;
    BERoundTrip(XorWord(w, c.ptag));
    XorWordCancel(w, c.ptag);
  }

  /** Walking back from the end visits the same tags in reverse. */
  method BackwardWalk(f: Checksum, image: seq<Byte>, off: nat, etag: Word, ghost recs: seq<Rec>)
      returns (tags: seq<Tag>)
    requires Holds(f, image, recs)
    requires off == Trail(f, image[..4], recs).off && etag.tag == Trail(f, image[..4], recs).ptag.tag
    ensures |tags| == |recs|
    ensures forall i :: 0 <= i < |tags| ==> tags[i] == recs[|recs| - 1 - i].word.tag
  {
    hide Serial, Ok, XorWord, BE, FromBE;
    tags := [];
    var pos, ntag := off, etag;
    ghost var left := recs;
    while pos >= 4 + DSize(ntag)
      invariant left <= recs && Holds(f, image, left) && |tags| + |left| == |recs|
      invariant pos == Trail(f, image[..4], left).off && ntag.tag == Trail(f, image[..4], left).ptag.tag
      invariant forall i :: 0 <= i < |tags| ==> tags[i] == recs[|recs| - 1 - i].word.tag
      decreases |left|
    {
      assert left != [];
      ghost var k := |left| - 1;
      assert left == left[..k] + [left[k]];
      BackStep(f, image, left[..k], left[k], pos, ntag);
      pos := pos - DSize(ntag);
      var tag := ntag;
      ntag := XorWord(FromBE(image[pos..pos + 4]), tag).(top := false);
      tags := tags + [tag.tag];
      left := left[..k];
    }
  }
}
