/** The meaning of a metadata log: what is left after replaying it from the front. Every faster
    way of reading or rewriting a log is proved against this.
 */
module Replay {
  import opened Basics
  import opened Tags

  datatype Value = Value(typ: nat, size: nat, data: seq<Byte>)

  type Entry = map<nat, Value>

  /** `entries` may run past `count`: attributes can be logged before the name that raises the count. */
  datatype Dir = Dir(count: int, entries: seq<Entry>, globals: Entry)

  /** Which tags overwrite each other. A lookup masks the type to a multiple of `unit` (0x100,
      0x80 or 1); compaction uses the unique bit 0x100 to choose between class and full type.
   */
  datatype KeyMode = Masked(unit: nat) | Unique {
    predicate Ok() {
      this.Masked? ==> unit in {1, 0x80, 0x100}
    }
  }

  function Key(m: KeyMode, typ: nat): nat
    requires m.Ok()
  {
    match m
    case Masked(unit) => typ / unit
    case Unique => if typ / 0x100 % 2 == 1 then typ else typ / 0x100 * 0x100
  }

  function Pad(s: seq<Entry>, n: nat): seq<Entry> {
    if n <= |s| then s else s + seq(n - |s|, _ => map[])
  }

  function InsertAt(s: seq<Entry>, i: nat): seq<Entry> {
    Pad(s, i)[..i] + [map[]] + Pad(s, i)[i..]
  }

  function RemoveAt(s: seq<Entry>, i: nat): seq<Entry> {
    if i < |s| then s[..i] + s[i + 1..] else s
  }

  function ValueOf(a: Item): Value {
    Value(a.tag.typ, a.tag.size, a.data)
  }

  function SetKey(e: Entry, k: nat, a: Item): Entry {
    if IsDelete(a.tag) then e - {k} else e[k := ValueOf(a)]
  }

  function SetAt(s: seq<Entry>, i: nat, k: nat, a: Item): seq<Entry> {
    var p := Pad(s, i + 1);
    p[i := SetKey(p[i], k, a)]
  }

  function Apply(m: KeyMode, d: Dir, a: Item): Dir
    requires m.Ok()
  {
    var t := a.tag;
    if IsNoop(t) then d
    else if t.typ == CREATE then d.(count := d.count + 1, entries := InsertAt(d.entries, t.id))
    else if t.typ == DELETE then d.(count := d.count - 1, entries := RemoveAt(d.entries, t.id))
    else if t.typ < 0x400 then
      Dir(if Type1(t) == NAME_CLASS then Max(d.count, t.id + 1) else d.count,
          SetAt(d.entries, t.id, Key(m, t.typ), a), d.globals)
    else d.(globals := SetKey(d.globals, Key(m, t.typ), a))
  }

  function Run(m: KeyMode, log: seq<Item>): Dir
    requires m.Ok()
  {
    if log == [] then Dir(0, [], map[])
    else Apply(m, Run(m, log[..|log| - 1]), log[|log| - 1])
  }

  lemma RunSnoc(m: KeyMode, log: seq<Item>, a: Item)
    requires m.Ok()
    ensures Run(m, log + [a]) == Apply(m, Run(m, log), a)
  {
    assert (log + [a])[..|log|] == log;
  }

  /** Reading past the end gives an entry without attributes. */
  function At(d: Dir, id: nat): Entry {
    if id < |d.entries| then d.entries[id] else map[]
  }

  /** What the log may hold for its field arithmetic not to overflow. */
  predicate ItemOk(a: Item) {
    && a.tag.Ok()
    && (Type1(a.tag) == SPLICE_CLASS ==> IsSplice(a.tag) && a.tag.size == 0)
    && (a.tag.typ < 0x400 ==> a.tag.id < NO_ID)
    && |a.data| == DataSize(a.tag)
  }

  /** Every id that some prefix of the log gives a meaning to is an id a tag can hold. */
  predicate WellFormed(log: seq<Item>) {
    && (forall i :: 0 <= i < |log| ==> ItemOk(log[i]))
    && (forall i :: 0 <= i <= |log| ==> |Run(Unique, log[..i]).entries| <= NO_ID)
  }
}
