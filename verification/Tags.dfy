/** The 32-bit tags of the metadata log, as records of their bit fields. The top bit (valid on
    disk, "data is on disk" in a traversal) is kept apart, since no field test reads it.
 */
module Tags {
  import opened Basics

  const CREATE := 0x401
  const DELETE := 0x4ff
  const NOOP := 0x000
  const NAME_CLASS := 0x000
  const SPLICE_CLASS := 0x400
  const NO_ID := 0x3ff

  datatype Tag = Tag(typ: nat, id: nat, size: nat) {
    predicate Ok() {
      typ < 0x800 && id < 0x400 && size < 0x400
    }
  }

  /** One record of the log: a tag and the bytes behind it. */
  datatype Item = Item(tag: Tag, data: seq<Byte>)

  function Type1(t: Tag): nat {
    t.typ / 0x100 * 0x100
  }

  function Chunk(t: Tag): nat {
    t.typ % 0x100
  }

  /** The chunk field read as a signed byte. */
  function Splice(t: Tag): int {
    if Chunk(t) < 0x80 then Chunk(t) else Chunk(t) - 0x100
  }

  /** A tag whose size field is all ones deletes the attribute it names. */
  predicate IsDelete(t: Tag) {
    t.size == 0x3ff
  }

  function DataSize(t: Tag): nat {
    if IsDelete(t) then 0 else t.size
  }

  function Pack(t: Tag): nat {
    t.typ * 0x10_0000 + t.id * 0x400 + t.size
  }

  function Unpack(w: nat): Tag {
    Tag(w / 0x10_0000 % 0x800, w / 0x400 % 0x400, w % 0x400)
  }

  /** t + (d << 10) in machine arithmetic: an id that leaves its ten bits carries into the type. */
  function AddId(t: Tag, d: int): Tag {
    Unpack((Pack(t) + d * 0x400) % 0x8000_0000)
  }

  lemma AddIdInRange(t: Tag, d: int)
    requires t.Ok() && 0 <= t.id + d < 0x400
    ensures AddId(t, d) == t.(id := t.id + d)
  {
    hide Pack, Unpack;
    PackId(t, d);
    UnpackPack(t.(id := t.id + d));
    SmallWord(Pack(t.(id := t.id + d)));
  }

  lemma PackId(t: Tag, d: int)
    requires 0 <= t.id + d
    ensures Pack(t) + d * 0x400 == Pack(t.(id := t.id + d))
  {
  }

  lemma SmallWord(w: nat)
    requires w < 0x8000_0000
    ensures w % 0x8000_0000 == w
  {
  }

  lemma UnpackPack(t: Tag)
    requires t.Ok()
    ensures Unpack(Pack(t)) == t && Pack(t) < 0x8000_0000
  {
    var w, q := Pack(t), t.typ * 0x400 + t.id;
    assert w == q * 0x400 + t.size;
    Fields(q, t.size);
    Fields(t.typ, t.id);
    assert w / 0x10_0000 == w / 0x400 / 0x400;
  }

  lemma Fields(q: nat, s: nat)
    requires s < 0x400
    ensures (q * 0x400 + s) / 0x400 == q && (q * 0x400 + s) % 0x400 == s
  {
  }

  predicate IsNoop(t: Tag) {
    t.typ == NOOP
  }

  predicate IsSplice(t: Tag) {
    t.typ == CREATE || t.typ == DELETE
  }

  /** Names, structs and user attributes: the tags that belong to one directory entry. */
  predicate IsEntryTag(t: Tag) {
    t.typ != NOOP && t.typ < 0x400
  }
}
