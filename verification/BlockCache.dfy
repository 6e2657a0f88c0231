/** The caching layer over the block device: a read cache and a program cache that together must
    look like a plain device.
 */
module BlockCache {
  import opened Basics
  import opened Align

  const NULL := -1
  const INLINE := -2   // a small file lives in the cache alone

  /** The geometry, with what is asserted of it when the file system is set up. */
  datatype Config = Config(readSize: nat, progSize: nat, cacheSize: nat, blockSize: nat, blockCount: nat) {
    predicate Ok() {
      && 0 < readSize && 0 < progSize && 0 < cacheSize && 0 < blockSize
      && cacheSize % readSize == 0 && cacheSize % progSize == 0 && blockSize % cacheSize == 0
    }
  }

  datatype Cache = Cache(block: int, off: nat, size: nat, buffer: seq<Byte>)

  type Disk = seq<seq<Byte>>

  predicate DiskOk(cfg: Config, disk: Disk) {
    |disk| == cfg.blockCount && forall b :: 0 <= b < |disk| ==> |disk[b]| == cfg.blockSize
  }

  /** The cache is empty, or a copy of device bytes. */
  predicate Coherent(cfg: Config, disk: Disk, c: Cache)
    requires DiskOk(cfg, disk) && cfg.readSize > 0
  {
    && |c.buffer| == cfg.cacheSize && c.size <= cfg.cacheSize
    && (c.block != NULL ==>
          && 0 <= c.block < cfg.blockCount && c.off % cfg.readSize == 0 && c.off + c.size <= cfg.blockSize
          && c.buffer[..c.size] == disk[c.block][c.off..c.off + c.size])
  }

  predicate Shaped(cfg: Config, c: Cache) {
    |c.buffer| == cfg.cacheSize && c.size <= cfg.cacheSize
  }

  /** The cache holds bytes that are to go to the device. */
  predicate Waiting(c: Cache) {
    c.block != NULL && c.block != INLINE
  }

  predicate PendingOk(cfg: Config, c: Cache)
    requires cfg.progSize > 0
  {
    && |c.buffer| == cfg.cacheSize
    && (Waiting(c) ==>
          && 0 <= c.block < cfg.blockCount && c.off % cfg.progSize == 0
          && c.size <= cfg.cacheSize && c.off + c.size <= cfg.blockSize)
    && (c.block == INLINE ==> c.size <= cfg.cacheSize)
  }

  function Patch(s: seq<Byte>, off: nat, bytes: seq<Byte>): (r: seq<Byte>)
    requires off + |bytes| <= |s|
    ensures |r| == |s|
  {
    s[..off] + bytes + s[off + |bytes|..]
  }

  /** A block as it will read: the device with the waiting bytes laid over it. */
  function Overlaid(cfg: Config, disk: Disk, p: Cache, block: nat): (r: seq<Byte>)
    requires DiskOk(cfg, disk) && cfg.progSize > 0 && PendingOk(cfg, p) && block < cfg.blockCount
    ensures |r| == cfg.blockSize
  {
    if p.block == block then Patch(disk[block], p.off, p.buffer[..p.size]) else disk[block]
  }

  lemma PatchAt(s: seq<Byte>, off: nat, bytes: seq<Byte>)
    requires off + |bytes| <= |s|
    ensures forall k :: 0 <= k < |s| ==>
              Patch(s, off, bytes)[k] == if off <= k < off + |bytes| then bytes[k - off] else s[k]
  {
  }

  // ----- choosing where to read from

  /** What one round of the read loop does. */
  datatype Action = FromPending(n: nat) | FromCache(n: nat) | Direct(n: nat) | Load

  function Choose(cfg: Config, p: Cache, r: Cache, hint: nat, block: nat, off: nat, size: nat): Action
    requires cfg.Ok() && size > 0
  {
    if p.block == block && p.off <= off < p.off + p.size then FromPending(Min(size, p.size - (off - p.off)))
    else
      var diff := if p.block == block && off < p.off + p.size then Min(size, p.off - off) else size;
      if r.block == block && r.off <= off < r.off + r.size then FromCache(Min(diff, r.size - (off - r.off)))
      else
        var diff' := if r.block == block && off < r.off + r.size then Min(diff, r.off - off) else diff;
        if size >= hint && off % cfg.readSize == 0 && size >= cfg.readSize then Direct(AlignDown(diff', cfg.readSize))
        else Load
  }

  /** The load a round makes when nothing else applies. */
  function LoadSize(cfg: Config, off: nat, hint: nat): nat
    requires cfg.Ok() && off <= cfg.blockSize
  {
    Min(Min(AlignUp(off + hint, cfg.readSize), cfg.blockSize) - AlignDown(off, cfg.readSize), cfg.cacheSize)
  }

  /** The waiting bytes start where a read can end. */
  predicate Aligned(cfg: Config, p: Cache, block: nat)
    requires cfg.readSize > 0
  {
    p.block == block ==> p.off % cfg.readSize == 0
  }

  lemma GapAligned(a: nat, b: nat, unit: nat)
    requires unit > 0 && a % unit == 0 && b % unit == 0 && a < b
    ensures AlignDown(b - a, unit) > 0
  {
    MultiplesApart(a, b, unit);
    if AlignDown(b - a, unit) == 0 {
      assert false;
    }
  }

  /** No request with this hint can get stuck before the waiting bytes. */
  predicate Moves(cfg: Config, p: Cache, hint: nat, block: nat)
    requires cfg.readSize > 0
  {
    Aligned(cfg, p, block) || cfg.blockSize < AlignDown(p.off, cfg.readSize) + Max(hint, cfg.readSize)
  }

  /** Then every round but a load moves on. */
  lemma ChooseMoves(cfg: Config, p: Cache, r: Cache, hint: nat, block: nat, off: nat, size: nat)
    requires cfg.Ok() && size > 0 && off + size <= cfg.blockSize
    requires Moves(cfg, p, hint, block) && (r.block == block ==> r.off % cfg.readSize == 0)
    ensures match Choose(cfg, p, r, hint, block, off, size)
            case FromPending(n) => 0 < n <= size
            case FromCache(n) => 0 < n <= size
            case Direct(n) => 0 < n <= size
            case Load => true
  {
    hide AlignDown;
    if off % cfg.readSize == 0 && size >= hint && size >= cfg.readSize {
      if p.block == block && off < p.off {
        GapMoves(cfg, p, hint, block, off, size);
      }
      if r.block == block && off < r.off {
        GapAligned(off, r.off, cfg.readSize);
      }
      AlignDownWhole(size, cfg.readSize);
    }
  }

  lemma GapMoves(cfg: Config, p: Cache, hint: nat, block: nat, off: nat, size: nat)
    requires cfg.Ok() && off + size <= cfg.blockSize && off % cfg.readSize == 0 && size >= hint && size >= cfg.readSize
    requires Moves(cfg, p, hint, block) && p.block == block && off < p.off
    ensures AlignDown(p.off - off, cfg.readSize) > 0
  {
    hide AlignDown;
    if Aligned(cfg, p, block) {
      GapAligned(off, p.off, cfg.readSize);
    } else {
      MultiplesApart(off, AlignDown(p.off, cfg.readSize), cfg.readSize);
      AlignDownWhole(p.off - off, cfg.readSize);
    }
  }

  lemma AlignDownWhole(n: nat, unit: nat)
    requires unit > 0
    ensures AlignDown(n, unit) <= n && (n >= unit ==> AlignDown(n, unit) > 0)
  {
  }

  /** A request that a direct read of no bytes answers, for ever. */
  predicate Stuck(cfg: Config, p: Cache, r: Cache, hint: nat, block: nat, off: nat, size: nat)
    requires cfg.Ok()
  {
    && size > 0 && off + size <= cfg.blockSize && (r.block == block ==> r.off % cfg.readSize == 0)
    && Choose(cfg, p, r, hint, block, off, size) == Direct(0)
  }

  /** With this hint no request gets stuck, exactly if the waiting bytes are aligned or the rest of the
      block from the read unit they start in is too short for a direct read.
   */
  lemma MovesIffAligned(cfg: Config, p: Cache, hint: nat, block: nat)
    requires cfg.Ok()
    ensures Moves(cfg, p, hint, block) <==>
            forall r: Cache, off: nat, size: nat :: !Stuck(cfg, p, r, hint, block, off, size)
  {
    hide Choose;
    if Moves(cfg, p, hint, block) {
      forall r: Cache, off: nat, size: nat
        ensures !Stuck(cfg, p, r, hint, block, off, size)
      {
        if size > 0 && off + size <= cfg.blockSize && (r.block == block ==> r.off % cfg.readSize == 0) {
          ChooseMoves(cfg, p, r, hint, block, off, size);
        }
      }
    } else {
      Misaligned(cfg, p, hint, block);
    }
  }

  lemma Misaligned(cfg: Config, p: Cache, hint: nat, block: nat)
    requires cfg.Ok() && !Moves(cfg, p, hint, block)
    ensures Stuck(cfg, p, Cache(NULL, 0, 0, []), hint, block, AlignDown(p.off, cfg.readSize), Max(hint, cfg.readSize))
  {
    var off := AlignDown(p.off, cfg.readSize);
    assert off < p.off;
    AlignDownNone(p.off - off, cfg.readSize);
  }

  /** A hint of 0 makes an aligned request for less than a read unit load nothing, for ever. */
  lemma HintNeeded(cfg: Config, p: Cache, r: Cache, block: nat, off: nat, size: nat)
    requires cfg.Ok() && size > 0 && off + size <= cfg.blockSize
    ensures var cached := (p.block == block && p.off <= off < p.off + p.size) ||
                          (r.block == block && r.off <= off < r.off + r.size);
            Choose(cfg, p, r, 0, block, off, size).Load? && LoadSize(cfg, off, 0) == 0
            <==> off % cfg.readSize == 0 && size < cfg.readSize && !cached
    ensures Choose(cfg, p, r, 0, block, off, size).Load? && LoadSize(cfg, off, 0) == 0 ==>
              Choose(cfg, p, Cache(block, AlignDown(off, cfg.readSize), 0, r.buffer), 0, block, off, size).Load?
  {
    BlockWhole(cfg);
    LoadNone(cfg, off);
  }

  lemma LoadNone(cfg: Config, off: nat)
    requires cfg.Ok() && off < cfg.blockSize
    ensures LoadSize(cfg, off, 0) == 0 <==> off % cfg.readSize == 0
  {
    BlockWhole(cfg);
    if off % cfg.readSize == 0 {
      if off < AlignUp(off, cfg.readSize) {
        MultiplesApart(off, AlignUp(off, cfg.readSize), cfg.readSize);
        assert false;
      }
    } else {
      assert AlignDown(off, cfg.readSize) < off;
    }
  }

  lemma AlignDownNone(n: nat, unit: nat)
    requires n < unit
    ensures AlignDown(n, unit) == 0
  {
  }

  /** Blocks are whole numbers of read and program units. */
  lemma BlockWhole(cfg: Config)
    requires cfg.Ok()
    ensures cfg.blockSize % cfg.readSize == 0 && cfg.blockSize % cfg.progSize == 0
    ensures cfg.readSize <= cfg.cacheSize && cfg.progSize <= cfg.cacheSize <= cfg.blockSize
  {
    WholeInWhole(cfg.readSize, cfg.cacheSize, cfg.blockSize);
    WholeInWhole(cfg.progSize, cfg.cacheSize, cfg.blockSize);
  }

  lemma WholeInWhole(a: nat, b: nat, c: nat)
    requires 0 < a && 0 < b && 0 < c && b % a == 0 && c % b == 0
    ensures c % a == 0 && a <= b <= c
  {
    var i, j := b / a, c / b;
    assert b == a * i && c == b * j;
    assert c == a * (i * j);
    Multiple(a, i * j);
    MultiplesApart(0, b, a);
    MultiplesApart(0, c, b);
  }

  /** A load brings the byte asked for into the cache. */
  lemma LoadMoves(cfg: Config, off: nat, hint: nat)
    requires cfg.Ok() && off < cfg.blockSize && hint > 0
    ensures off < AlignDown(off, cfg.readSize) + LoadSize(cfg, off, hint)
    ensures AlignDown(off, cfg.readSize) + LoadSize(cfg, off, hint) <= cfg.blockSize
    ensures LoadSize(cfg, off, hint) <= cfg.cacheSize
  {
    BlockWhole(cfg);
  }

  datatype Result = Ok(bytes: seq<Byte>) | Corrupt

  class Device {
    const cfg: Config
    var disk: Disk
    var rcache: Cache
    var pcache: Cache

    ghost predicate Valid()
      reads this
    {
      && cfg.Ok() && DiskOk(cfg, disk) && PendingOk(cfg, pcache)
    }

    /** Read through the caches: the device with the waiting bytes laid over it. */
    method Read(p: Cache, hint: nat, block: nat, off: nat, size: nat) returns (r: Result)
      requires Valid() && PendingOk(cfg, p) && Coherent(cfg, disk, rcache) && hint > 0 && Moves(cfg, p, hint, block)
      modifies this`rcache
      ensures Coherent(cfg, disk, rcache)
      ensures r.Corrupt? <==> block >= cfg.blockCount || off + size > cfg.blockSize
      ensures r.Ok? ==> r.bytes == Overlaid(cfg, disk, p, block)[off..off + size]
    {
      hide Choose, Overlaid, Coherent, PendingOk;
      if block >= cfg.blockCount || off + size > cfg.blockSize {
        return Corrupt;
      }
      ghost var want := Overlaid(cfg, disk, p, block);
      var data: seq<Byte>, at: nat, left: nat := [], off, size;
      while left > 0
        invariant off <= at && at + left == off + size && data == want[off..at]
        invariant Coherent(cfg, disk, rcache)
        decreases left, Choose(cfg, p, rcache, hint, block, at, if left > 0 then left else 1).Load?
      {
        var more := Round(p, hint, block, at, left);
        assert want[off..at] + want[at..at + |more|] == want[off..at + |more|];
        data := data + more;
        at, left := at + |more|, left - |more|;
      }
      return Ok(data);
    }

    /** One round of the loop: some of the bytes, or a load of the cache. */
    method Round(p: Cache, hint: nat, block: nat, at: nat, left: nat) returns (more: seq<Byte>)
      requires Valid() && PendingOk(cfg, p) && Coherent(cfg, disk, rcache) && hint > 0 && Moves(cfg, p, hint, block)
      requires block < cfg.blockCount && left > 0 && at + left <= cfg.blockSize
      modifies this`rcache
      ensures Coherent(cfg, disk, rcache) && |more| <= left
      ensures more == Overlaid(cfg, disk, p, block)[at..at + |more|]
      ensures |more| == 0 ==> old(Choose(cfg, p, rcache, hint, block, at, left)).Load? &&
                              !Choose(cfg, p, rcache, hint, block, at, left).Load?
    {
      hide Choose, Overlaid, LoadSize, AlignDown;
      ChooseMoves(cfg, p, rcache, hint, block, at, left);
      match Choose(cfg, p, rcache, hint, block, at, left) {
        case FromPending(n) =>
          TakePending(cfg, disk, p, rcache, hint, block, at, left);
          more := p.buffer[at - p.off..at - p.off + n];
        case FromCache(n) =>
          TakeCache(cfg, disk, p, rcache, hint, block, at, left);
          more := rcache.buffer[at - rcache.off..at - rcache.off + n];
        case Direct(n) =>
          TakeDirect(cfg, disk, p, rcache, hint, block, at, left);
          more := disk[block][at..at + n];
        case Load =>
          LoadMoves(cfg, at, hint);
          var o, n := AlignDown(at, cfg.readSize), LoadSize(cfg, at, hint);
          LoadedNext(cfg, p, rcache, hint, block, at, left);
          rcache := Cache(block, o, n, disk[block][o..o + n] + rcache.buffer[n..]);
          AfterLoad(cfg, p, rcache, hint, block, at, left);
          more := [];
      }
    }

    /** Compare a stretch of a block with some bytes, a few at a time. */
    method Cmp(p: Cache, hint: nat, block: nat, off: nat, bytes: seq<Byte>) returns (r: Ordering)
      requires Valid() && PendingOk(cfg, p) && Coherent(cfg, disk, rcache) && hint >= |bytes| && Aligned(cfg, p, block)
      requires block < cfg.blockCount && off + |bytes| <= cfg.blockSize
      modifies this`rcache
      ensures Coherent(cfg, disk, rcache)
      ensures r == Compare(Overlaid(cfg, disk, p, block)[off..off + |bytes|], bytes)
    {
      hide Overlaid, Coherent, PendingOk, Compare;
      ghost var want := Overlaid(cfg, disk, p, block)[off..off + |bytes|];
      var i := 0;
      while i < |bytes|
        invariant 0 <= i <= |bytes| && Coherent(cfg, disk, rcache)
        invariant Compare(want, bytes) == Compare(want[i..], bytes[i..])
      {
        var diff := Min(|bytes| - i, 8);
        var res := Read(p, hint - i, block, off + i, diff);
        CompareChunk(want[i..], bytes[i..], diff);
        assert want[i..][..diff] == res.bytes && want[i..][diff..] == want[i + diff..];
        assert bytes[i..][..diff] == bytes[i..i + diff] && bytes[i..][diff..] == bytes[i + diff..];
        r := Compare(res.bytes, bytes[i..i + diff]);
        if r != EQ {
          return;
        }
        i := i + diff;
      }
      CompareNone(want[i..], bytes[i..]);
      return EQ;
    }

    /** Write the waiting bytes out, padded to whole program units; check them if asked to. */
    method Flush(validate: bool) returns (ok: bool)
      requires Valid() && Shaped(cfg, rcache)
      modifies this
      ensures Valid() && ok && !Waiting(pcache) && Shaped(cfg, rcache)
      ensures old(Coherent(cfg, disk, rcache)) && old(rcache.block) != old(pcache.block) ==> Coherent(cfg, disk, rcache)
      ensures validate && old(Waiting(pcache)) ==> Coherent(cfg, disk, rcache)
      ensures rcache == old(rcache) || validate
      ensures !old(Waiting(pcache)) ==> disk == old(disk) && pcache == old(pcache) && rcache == old(rcache)
      ensures old(Waiting(pcache)) ==> pcache.block == NULL && Flushed(cfg, old(disk), old(pcache), disk)
    {
      hide Flushed, AlignUp, Overlaid, Compare, Patch, Coherent;
      ok := true;
      if pcache.block != NULL && pcache.block != INLINE {
        var diff := AlignUp(pcache.size, cfg.progSize);
        FlushFits(cfg, pcache);
        ghost var was := disk;
        disk := disk[pcache.block := Patch(disk[pcache.block], pcache.off, pcache.buffer[..diff])];
        FlushedBy(cfg, was, pcache, disk, diff);
        CoherentElsewhere(cfg, was, disk, rcache, pcache.block);
        CoherentShaped(cfg, disk, rcache);
        if validate {
          rcache := rcache.(block := NULL);
          var none := Cache(NULL, 0, 0, pcache.buffer);
          PatchedSlice(cfg, was, disk, pcache, none, diff);
          var res := Cmp(none, diff, pcache.block, pcache.off, pcache.buffer[..diff]);
          CompareEqual(pcache.buffer[..diff], pcache.buffer[..diff]);
          ok := res == EQ;
        }
        pcache := Cache(NULL, pcache.off, pcache.size, seq(cfg.cacheSize, _ => 0xff));
      }
    }

    /** Program bytes behind those already waiting, or from the start of a program unit. The caches
        read as if the bytes were on the device.
     */
    method Prog(validate: bool, block: nat, off: nat, data: seq<Byte>)
      requires Valid() && Shaped(cfg, rcache) && block < cfg.blockCount && off + |data| <= cfg.blockSize
      requires Ready(cfg, pcache, block, off)
      modifies this
      ensures Valid() && Shaped(cfg, rcache) && Ready(cfg, pcache, block, off + |data|)
      ensures Overlaid(cfg, disk, pcache, block) == Patch(old(Overlaid(cfg, disk, pcache, block)), off, data)
      ensures forall b :: 0 <= b < cfg.blockCount && b != block ==> disk[b] == old(disk)[b]
      ensures old(Coherent(cfg, disk, rcache)) && old(rcache.block) != block ==> Coherent(cfg, disk, rcache)
    {
      hide Overlaid, Coherent, Patch, Ready;
      ghost var was, clean := Overlaid(cfg, disk, pcache, block), Coherent(cfg, disk, rcache) && rcache.block != block;
      PatchNone(was, off);
      assert data[..0] == [];
      var at := off;
      while at < off + |data|
        invariant off <= at <= off + |data|
        invariant Valid() && Shaped(cfg, rcache) && Ready(cfg, pcache, block, at)
        invariant Overlaid(cfg, disk, pcache, block) == Patch(was, off, data[..at - off])
        invariant forall b :: 0 <= b < cfg.blockCount && b != block ==> disk[b] == old(disk)[b]
        invariant clean ==> Coherent(cfg, disk, rcache) && (validate || rcache.block != block)
        decreases off + |data| - at, pcache.block == NULL
      {
        ReadyParts(cfg, pcache, block, at);
        if block == pcache.block && at >= pcache.off && at < pcache.off + cfg.cacheSize {
          var n := FillPending(validate, block, at, data[at - off..]);
          PatchMore(was, off, data, at - off, n);
          at := at + n;
        } else {
          // the cache must have been flushed
          ReadyFresh(cfg, disk, pcache, block, at);
          pcache := Cache(block, AlignDown(at, cfg.progSize), 0, pcache.buffer);
        }
      }
      assert data[..|data|] == data;
    }

    /** Program bytes of a small file: they stay in the cache, also when it is full. */
    method ProgInline(validate: bool, off: nat, data: seq<Byte>)
      requires Valid() && Shaped(cfg, rcache) && pcache.block == INLINE
      requires pcache.off <= off && off + |data| <= pcache.off + cfg.cacheSize
      modifies this
      ensures Valid() && disk == old(disk) && rcache == old(rcache)
      ensures pcache == if data == [] then old(pcache)
                        else old(pcache).(buffer := Patch(old(pcache.buffer), off - old(pcache.off), data),
                                          size := Max(old(pcache.size), off + |data| - old(pcache.off)))
    {
      var at := off;
      while at < off + |data|
        invariant at == off || at == off + |data|
        invariant Valid() && disk == old(disk) && rcache == old(rcache) && Shaped(cfg, rcache)
        invariant pcache == if at == off then old(pcache)
                            else old(pcache).(buffer := Patch(old(pcache.buffer), off - old(pcache.off), data),
                                              size := Max(old(pcache.size), off + |data| - old(pcache.off)))
      {
        var n := Min(|data|, cfg.cacheSize - (off - pcache.off));
        assert data[..n] == data;
        pcache := pcache.(buffer := Patch(pcache.buffer, off - pcache.off, data[..n]),
                          size := Max(pcache.size, off + n - pcache.off));
        at := at + n;
        if pcache.size == cfg.cacheSize {
          var _ := Flush(validate);
        }
      }
    }

    /** Copy what fits into the waiting bytes, and write them out once the cache is full. */
    method FillPending(validate: bool, block: nat, off: nat, data: seq<Byte>) returns (n: nat)
      requires Valid() && Shaped(cfg, rcache) && block < cfg.blockCount && 0 < |data| && off + |data| <= cfg.blockSize
      requires Ready(cfg, pcache, block, off) && pcache.block == block && off < pcache.off + cfg.cacheSize
      modifies this
      ensures 0 < n <= |data|
      ensures Valid() && Shaped(cfg, rcache) && Ready(cfg, pcache, block, off + n)
      ensures Overlaid(cfg, disk, pcache, block) == Patch(old(Overlaid(cfg, disk, pcache, block)), off, data[..n])
      ensures forall b :: 0 <= b < cfg.blockCount && b != block ==> disk[b] == old(disk)[b]
      ensures old(Coherent(cfg, disk, rcache)) && old(rcache.block) != block ==> Coherent(cfg, disk, rcache)
      ensures old(Coherent(cfg, disk, rcache)) && validate ==> Coherent(cfg, disk, rcache)
      ensures rcache == old(rcache) || validate
    {
      hide Overlaid, Coherent, Flushed, Patch;
      n := Min(|data|, cfg.cacheSize - (off - pcache.off));
      ghost var p0 := pcache;
      pcache := pcache.(buffer := Patch(pcache.buffer, off - pcache.off, data[..n]),
                        size := Max(pcache.size, off + n - pcache.off));
      Filled(cfg, disk, p0, pcache, block, off, data[..n]);
      if pcache.size == cfg.cacheSize {
        ghost var d1, p1 := disk, pcache;
        var ok := Flush(validate);
        FlushedWhole(cfg, d1, p1, disk, pcache);
        SumWhole(p1.off, cfg.cacheSize, cfg.progSize);
      }
    }
  }

  /** Where a program may go on: right behind the waiting bytes, or at the start of a program unit. */
  predicate Ready(cfg: Config, p: Cache, block: nat, off: nat)
    requires cfg.progSize > 0
  {
    if p.block == NULL then off % cfg.progSize == 0
    else p.block == block && off == p.off + p.size && p.size < cfg.cacheSize
  }

  lemma ReadyParts(cfg: Config, p: Cache, block: nat, off: nat)
    requires cfg.progSize > 0 && Ready(cfg, p, block, off)
    ensures p.block == NULL ==> off % cfg.progSize == 0
    ensures p.block != NULL ==> p.block == block && p.off <= off < p.off + cfg.cacheSize
  {
  }

  lemma ReadyFresh(cfg: Config, disk: Disk, p: Cache, block: nat, at: nat)
    requires cfg.Ok() && DiskOk(cfg, disk) && PendingOk(cfg, p) && p.block == NULL
    requires block < cfg.blockCount && at < cfg.blockSize && at % cfg.progSize == 0
    ensures var p' := Cache(block, AlignDown(at, cfg.progSize), 0, p.buffer);
      PendingOk(cfg, p') && Ready(cfg, p', block, at) && Overlaid(cfg, disk, p', block) == Overlaid(cfg, disk, p, block)
  {
  }

  lemma PatchNone(s: seq<Byte>, off: nat)
    requires off <= |s|
    ensures Patch(s, off, []) == s
  {
  }

  lemma PatchMore(s: seq<Byte>, off: nat, data: seq<Byte>, i: nat, n: nat)
    requires off + |data| <= |s| && i + n <= |data|
    ensures Patch(Patch(s, off, data[..i]), off + i, data[i..][..n]) == Patch(s, off, data[..i + n])
  {
    PatchAt(s, off, data[..i]);
    PatchAt(Patch(s, off, data[..i]), off + i, data[i..][..n]);
    PatchAt(s, off, data[..i + n]);
  }

  lemma Filled(cfg: Config, disk: Disk, p: Cache, p': Cache, block: nat, off: nat, bytes: seq<Byte>)
    requires cfg.Ok() && DiskOk(cfg, disk) && PendingOk(cfg, p) && block < cfg.blockCount && p.block == block
    requires off == p.off + p.size && 0 < |bytes| && p.size + |bytes| <= cfg.cacheSize && off + |bytes| <= cfg.blockSize
    requires p' == p.(buffer := Patch(p.buffer, p.size, bytes), size := p.size + |bytes|)
    ensures PendingOk(cfg, p') && Overlaid(cfg, disk, p', block) == Patch(Overlaid(cfg, disk, p, block), off, bytes)
  {
    PatchAt(p.buffer, p.size, bytes);
    PatchAt(disk[block], p.off, p.buffer[..p.size]);
    PatchAt(disk[block], p'.off, p'.buffer[..p'.size]);
    PatchAt(Overlaid(cfg, disk, p, block), off, bytes);
  }

  /** A full cache is written out without padding. */
  lemma FlushedWhole(cfg: Config, was: Disk, p: Cache, disk: Disk, p': Cache)
    requires cfg.Ok() && DiskOk(cfg, was) && PendingOk(cfg, p) && Waiting(p) && p.size == cfg.cacheSize
    requires Flushed(cfg, was, p, disk) && PendingOk(cfg, p') && p'.block == NULL
    ensures Overlaid(cfg, disk, p', p.block) == Overlaid(cfg, was, p, p.block)
    ensures forall b :: 0 <= b < cfg.blockCount && b != p.block ==> disk[b] == was[b]
  {
    AlignUpWithin(p.size, cfg.progSize, cfg.cacheSize);
  }

  lemma SumWhole(a: nat, b: nat, unit: nat)
    requires unit > 0 && a % unit == 0 && b % unit == 0
    ensures (a + b) % unit == 0
  {
    var i, j := a / unit, b / unit;
    assert a == unit * i && b == unit * j;
    assert a + b == unit * (i + j);
    Multiple(unit, i + j);
  }

  lemma CoherentElsewhere(cfg: Config, was: Disk, disk: Disk, r: Cache, block: nat)
    requires cfg.Ok() && DiskOk(cfg, was) && block < |was| == |disk| && disk == was[block := disk[block]] &&
             |disk[block]| == cfg.blockSize
    requires Shaped(cfg, r)
    ensures DiskOk(cfg, disk) && (Coherent(cfg, was, r) && r.block != block ==> Coherent(cfg, disk, r))
    ensures Coherent(cfg, disk, r.(block := NULL))
  {
  }

  lemma CoherentShaped(cfg: Config, disk: Disk, r: Cache)
    requires cfg.readSize > 0 && DiskOk(cfg, disk)
    ensures forall c: Cache :: Coherent(cfg, disk, c) ==> Shaped(cfg, c)
  {
  }

  lemma PatchedSlice(cfg: Config, was: Disk, disk: Disk, p: Cache, none: Cache, diff: nat)
    requires cfg.Ok() && DiskOk(cfg, was) && PendingOk(cfg, p) && Waiting(p) && DiskOk(cfg, disk)
    requires diff <= |p.buffer| && p.off + diff <= cfg.blockSize
    requires disk == was[p.block := Patch(was[p.block], p.off, p.buffer[..diff])]
    requires none.block == NULL && |none.buffer| == cfg.cacheSize
    ensures Overlaid(cfg, disk, none, p.block)[p.off..p.off + diff] == p.buffer[..diff]
  {
  }

  datatype Ordering = EQ | LT | GT

  /** How two byte strings of the same length compare: by the first byte that differs. */
  function Compare(a: seq<Byte>, b: seq<Byte>): Ordering
    requires |a| == |b|
  {
    if a == [] then EQ
    else if a[0] < b[0] then LT
    else if a[0] > b[0] then GT
    else Compare(a[1..], b[1..])
  }

  lemma {:induction false} CompareChunk(a: seq<Byte>, b: seq<Byte>, n: nat)
    requires |a| == |b| && n <= |a|
    ensures Compare(a, b) == if Compare(a[..n], b[..n]) != EQ then Compare(a[..n], b[..n]) else Compare(a[n..], b[n..])
  {
    if n == 0 {
      assert a[0..] == a && b[0..] == b;
    } else {
      CompareChunk(a[1..], b[1..], n - 1);
      assert a[..n][1..] == a[1..][..n - 1] && b[..n][1..] == b[1..][..n - 1];
      assert a[1..][n - 1..] == a[n..] && b[1..][n - 1..] == b[n..];
    }
  }

  lemma CompareNone(a: seq<Byte>, b: seq<Byte>)
    requires |a| == |b| == 0
    ensures Compare(a, b) == EQ
  {
  }

  lemma {:induction false} CompareEqual(a: seq<Byte>, b: seq<Byte>)
    requires |a| == |b|
    ensures Compare(a, b) == EQ <==> a == b
  {
    if a != [] {
      CompareEqual(a[1..], b[1..]);
      assert a == [a[0]] + a[1..] && b == [b[0]] + b[1..];
    }
  }

  /** The device holds the waiting bytes; only padding up to the program unit may have changed besides. */
  ghost predicate Flushed(cfg: Config, was: Disk, p: Cache, disk: Disk)
    requires cfg.Ok() && DiskOk(cfg, was) && PendingOk(cfg, p) && Waiting(p)
  {
    && DiskOk(cfg, disk)
    && (forall b :: 0 <= b < cfg.blockCount && b != p.block ==> disk[b] == was[b])
    && var end := p.off + AlignUp(p.size, cfg.progSize);
       forall k :: 0 <= k < cfg.blockSize && !(p.off + p.size <= k < end) ==>
         disk[p.block][k] == Overlaid(cfg, was, p, p.block)[k]
  }

  lemma FlushFits(cfg: Config, p: Cache)
    requires cfg.Ok() && PendingOk(cfg, p) && Waiting(p)
    ensures AlignUp(p.size, cfg.progSize) <= |p.buffer| && p.off + AlignUp(p.size, cfg.progSize) <= cfg.blockSize
  {
    BlockWhole(cfg);
    AlignUpWithin(p.size, cfg.progSize, cfg.cacheSize);
    RestWhole(cfg.blockSize, p.off, cfg.progSize);
    AlignUpWithin(p.size, cfg.progSize, cfg.blockSize - p.off);
  }

  lemma RestWhole(a: nat, b: nat, unit: nat)
    requires unit > 0 && a % unit == 0 && b % unit == 0 && b <= a
    ensures (a - b) % unit == 0
  {
    var i, j := a / unit, b / unit;
    assert a == unit * i && b == unit * j;
    MulDistributes(unit, i, j);
    if i < j {
      MultiplesApart(a, b, unit);
    }
    Multiple(unit, i - j);
  }

  lemma FlushedBy(cfg: Config, was: Disk, p: Cache, disk: Disk, diff: nat)
    requires cfg.Ok() && DiskOk(cfg, was) && PendingOk(cfg, p) && Waiting(p)
    requires diff == AlignUp(p.size, cfg.progSize) && diff <= |p.buffer| && p.off + diff <= cfg.blockSize
    requires disk == was[p.block := Patch(was[p.block], p.off, p.buffer[..diff])]
    ensures Flushed(cfg, was, p, disk)
  {
    PatchAt(was[p.block], p.off, p.buffer[..diff]);
    PatchAt(was[p.block], p.off, p.buffer[..p.size]);
  }

  /** Where the bytes of a choice come from, they are the bytes wanted. */
  lemma TakePending(cfg: Config, disk: Disk, p: Cache, r: Cache, hint: nat, block: nat, at: nat, left: nat)
    requires cfg.Ok() && DiskOk(cfg, disk) && PendingOk(cfg, p) && block < cfg.blockCount && left > 0 &&
             at + left <= cfg.blockSize
    requires Choose(cfg, p, r, hint, block, at, left).FromPending?
    ensures var n := Choose(cfg, p, r, hint, block, at, left).n;
            && p.off <= at && at - p.off + n <= |p.buffer| && n <= left
            && p.buffer[at - p.off..at - p.off + n] == Overlaid(cfg, disk, p, block)[at..at + n]
  {
    PatchAt(disk[block], p.off, p.buffer[..p.size]);
  }

  lemma TakeCache(cfg: Config, disk: Disk, p: Cache, r: Cache, hint: nat, block: nat, at: nat, left: nat)
    requires cfg.Ok() && DiskOk(cfg, disk) && PendingOk(cfg, p) && block < cfg.blockCount && left > 0 &&
             at + left <= cfg.blockSize
    requires Coherent(cfg, disk, r) && Choose(cfg, p, r, hint, block, at, left).FromCache?
    ensures var n := Choose(cfg, p, r, hint, block, at, left).n;
            && r.off <= at && at - r.off + n <= |r.buffer| && n <= left
            && r.buffer[at - r.off..at - r.off + n] == Overlaid(cfg, disk, p, block)[at..at + n]
  {
    hide Overlaid;
    var n := Choose(cfg, p, r, hint, block, at, left).n;
    NotPending(cfg, disk, p, block, at, n);
    SubSlice(r.buffer, r.size, disk[block], r.off, at - r.off, n);
  }

  lemma SubSlice(buffer: seq<Byte>, size: nat, dev: seq<Byte>, off: nat, i: nat, n: nat)
    requires size <= |buffer| && off + size <= |dev| && buffer[..size] == dev[off..off + size] && i + n <= size
    ensures buffer[i..i + n] == dev[off + i..off + i + n]
  {
    forall k | i <= k < i + n ensures buffer[k] == dev[off + k] {
      assert buffer[..size][k] == dev[off..off + size][k];
    }
  }

  /** Outside the waiting bytes a block reads as on the device. */
  lemma NotPending(cfg: Config, disk: Disk, p: Cache, block: nat, at: nat, n: nat)
    requires cfg.Ok() && DiskOk(cfg, disk) && PendingOk(cfg, p) && block < cfg.blockCount && at + n <= cfg.blockSize
    requires p.block == block ==> at + n <= p.off || p.off + p.size <= at
    ensures Overlaid(cfg, disk, p, block)[at..at + n] == disk[block][at..at + n]
  {
    if p.block == block {
      PatchAt(disk[block], p.off, p.buffer[..p.size]);
    }
  }

  lemma TakeDirect(cfg: Config, disk: Disk, p: Cache, r: Cache, hint: nat, block: nat, at: nat, left: nat)
    requires cfg.Ok() && DiskOk(cfg, disk) && PendingOk(cfg, p) && block < cfg.blockCount && left > 0 &&
             at + left <= cfg.blockSize
    requires Choose(cfg, p, r, hint, block, at, left).Direct?
    ensures var n := Choose(cfg, p, r, hint, block, at, left).n;
            && n <= left && disk[block][at..at + n] == Overlaid(cfg, disk, p, block)[at..at + n]
  {
    hide Overlaid;
    NotPending(cfg, disk, p, block, at, Choose(cfg, p, r, hint, block, at, left).n);
  }

  lemma LoadedNext(cfg: Config, p: Cache, r: Cache, hint: nat, block: nat, at: nat, left: nat)
    requires cfg.Ok() && left > 0 && Choose(cfg, p, r, hint, block, at, left).Load?
    ensures !(p.block == block && p.off <= at < p.off + p.size)
  {
  }

  lemma AfterLoad(cfg: Config, p: Cache, r: Cache, hint: nat, block: nat, at: nat, left: nat)
    requires cfg.Ok() && left > 0 && !(p.block == block && p.off <= at < p.off + p.size)
    requires r.block == block && r.off <= at < r.off + r.size
    ensures !Choose(cfg, p, r, hint, block, at, left).Load?
  {
  }
}
