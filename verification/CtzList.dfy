/** The skip list of a file's blocks: each block points back 1, 2, 4, ... blocks, as far as its index
    has trailing zeros.
 */
module CtzList {
  import opened Basics
  import opened Words
  import M = CtzMath

  type Device = map<U32, seq<Byte>>

  const NULL: U32 := 0xffff_ffff

  /** Pointer k of a block, as stored. */
  function Pointer(dev: Device, block: U32, k: nat): U32
    requires block in dev && 4 * k + 4 <= |dev[block]|
  {
    FromLE(dev[block][4 * k..4 * k + 4])
  }

  predicate Distinct(chain: seq<U32>) {
    forall i, j :: 0 <= i < j < |chain| ==> chain[i] != chain[j]
  }

  /** Block n has its pointers: number k leads 2^k blocks back. */
  predicate PointsBack(dev: Device, bs: nat, chain: seq<U32>, n: nat)
    requires n < |chain|
  {
    && chain[n] in dev && |dev[chain[n]]| == bs
    && forall k: nat :: k < M.Pointers(n) ==>
         && 4 * k + 4 <= bs && Pow2(k) <= n
         && Pointer(dev, chain[n], k) == chain[n - Pow2(k)]
  }

  /** `chain` lists the blocks of a file, first block first. */
  predicate WellFormed(dev: Device, bs: nat, chain: seq<U32>) {
    && Distinct(chain)
    && forall n :: 0 <= n < |chain| ==> PointsBack(dev, bs, chain, n)
  }

  /** A file: its size and the last of its blocks. The list has the blocks the size calls for. */
  ghost predicate IsFile(dev: Device, bs: nat, head: U32, size: nat, chain: seq<U32>) {
    && bs >= 16 && size < M.WORD && WellFormed(dev, bs, chain)
    && (size == 0 ==> chain == [])
    && (size > 0 ==>
          && M.Roomy(bs, size - 1) && chain != [] && chain[|chain| - 1] == head
          && |chain| == M.Index(bs, size - 1).0 + 1)
  }

  // ----- trailing zeros and powers

  lemma {:induction false} CtzDivides(n: nat, k: nat)
    requires n > 0 && k <= M.Ctz(n)
    ensures Pow2(k) <= n
    ensures k < M.Ctz(n) ==> n - Pow2(k) > 0 && M.Ctz(n - Pow2(k)) == k
    ensures k == M.Ctz(n) && n > Pow2(k) ==> M.Ctz(n - Pow2(k)) > k
  {
    if k > 0 {
      CtzDivides(n / 2, k - 1);
      assert (n - Pow2(k)) / 2 == n / 2 - Pow2(k - 1);
      assert (n - Pow2(k)) % 2 == 0;
    } else if k < M.Ctz(n) {
      assert (n - 1) % 2 == 1;
    }
  }

  // ----- finding the block of an index

  /** floor(log2 d) */
  function Log2(d: nat): nat
    requires d > 0
  {
    M.BitLen(d) - 1
  }

  /** The steps still to go at most: first the trailing zeros of the index grow to the distance, then
      the distance shrinks by its leading bit.
   */
  ghost function Budget(current: nat, d: nat): nat
    requires d <= current
  {
    if d == 0 then 0
    else if M.Ctz(current) >= Log2(d) then Log2(d) + 1
    else 2 * Log2(d) + 1 - M.Ctz(current)
  }

  lemma {:induction false} Log2Mono(d: nat, d': nat)
    requires 0 < d <= d'
    ensures Log2(d) <= Log2(d')
  {
    if d > 1 {
      Log2Mono(d / 2, d' / 2);
    } else {
      assert M.BitLen(1) == 1 && M.BitLen(d') >= 1;
    }
  }

  /** Taking the leading bit off shortens a number. */
  lemma DoublePow(n: nat)
    ensures Pow2(n + 1) == 2 * Pow2(n)
  {
  }

  lemma Log2Drop(d: nat)
    requires d > 0
    ensures Pow2(Log2(d)) <= d
    ensures d > Pow2(Log2(d)) ==> Log2(d - Pow2(Log2(d))) < Log2(d)
  {
    hide Pow2, M.BitLen;
    M.BitLenBounds(d);
    DoublePow(Log2(d));
    var rest := d - Pow2(Log2(d));
    if rest > 0 {
      M.BitLenBounds(rest);
      if Log2(rest) >= Log2(d) {
        PowMono(Log2(d), Log2(rest));
        assert false;
      }
    }
  }

  lemma {:induction false} PowMono(a: nat, b: nat)
    requires a <= b
    ensures Pow2(a) <= Pow2(b)
  {
    if a < b {
      PowMono(a, b - 1);
    }
  }

  lemma FindStep(current: nat, target: nat, skip: nat)
    requires target < current
    requires skip == if Log2(current - target) < M.Ctz(current) then Log2(current - target) else M.Ctz(current)
    ensures skip < M.Pointers(current) && Pow2(skip) <= current - target
    ensures Budget(current - Pow2(skip), current - target - Pow2(skip)) < Budget(current, current - target)
  {
    hide Pow2, M.BitLen, Log2, M.Ctz;
    var d, z := current - target, M.Ctz(current);
    Log2Drop(d);
    PowMono(skip, Log2(d));
    CtzDivides(current, skip);
    var d' := d - Pow2(skip);
    if d' > 0 {
      Log2Mono(d', d);
    }
  }

  /** The walk is at block `target` of the list, which holds the position; the reads it took are bounded
      by the bits of the distance.
   */
  predicate Reached(bs: nat, chain: seq<U32>, pos: nat, block: U32, off: int, steps: nat, target: nat) {
    && chain != [] && M.Locates(bs, pos, target, off)
    && block == chain[if target < |chain| then target else |chain| - 1]
    && (target + 1 < |chain| ==> steps <= 2 * Log2(|chain| - 1 - target) + 1)
    && (target + 1 >= |chain| ==> steps == 0)
  }

  /** The walk down the skip list. It ends on the block of the target index and never reads more
      than twice the bits of the distance. For a position behind the last block it stays on that block.
   */
  method Find(dev: Device, bs: nat, head: U32, size: nat, pos: nat, ghost chain: seq<U32>)
      returns (block: U32, off: int, ghost steps: nat)
    requires IsFile(dev, bs, head, size, chain)
    requires size == 0 || pos < size || (pos < M.WORD && M.Roomy(bs, pos))
    ensures size == 0 ==> block == NULL && off == 0
    ensures size > 0 ==> exists target: nat :: Reached(bs, chain, pos, block, off, steps, target)
  {
    hide M.Index, M.Locates, M.Start, M.Roomy, WellFormed, Log2, M.Ctz, Budget, Pow2, M.Npw2, M.Pointers;
    if size == 0 {
      return NULL, 0, 0;
    }
    var current := M.Index(bs, size - 1).0;
    var (target, o) := M.Index(bs, pos);
    if pos < size {
      M.IndexBelow(bs, pos, size - 1);
    } else {
      M.IndexBelow(bs, size - 1, pos);
    }
    ghost var last := current;
    block, steps := head, 0;
    while current > target
      invariant 0 <= current <= last && block == chain[current]
      invariant if target <= last then
                  target <= current && steps + Budget(current, current - target) <= Budget(last, last - target)
                else current == last && steps == 0
      decreases current
    {
      var skip := M.Npw2(current - target + 1) - 1;
      if M.Ctz(current) < skip {
        skip := M.Ctz(current);
      }
      NpwIsLog(current - target);
      FindStep(current, target, skip);
      HasPointer(dev, bs, chain, current, skip);
      block := Pointer(dev, block, skip);
      current := current - Pow2(skip);
      steps := steps + 1;
    }
    off := o;
    if target <= last {
      BudgetBound(last, last - target);
    }
    assert Reached(bs, chain, pos, block, off, steps, target);
  }

  lemma NpwIsLog(d: nat)
    requires d > 0
    ensures M.Npw2(d + 1) - 1 == Log2(d)
  {
  }

  lemma HasPointer(dev: Device, bs: nat, chain: seq<U32>, n: nat, k: nat)
    requires WellFormed(dev, bs, chain) && n < |chain| && k < M.Pointers(n)
    ensures chain[n] in dev && |dev[chain[n]]| == bs && 4 * k + 4 <= bs && Pow2(k) <= n
    ensures Pointer(dev, chain[n], k) == chain[n - Pow2(k)]
  {
    assert PointsBack(dev, bs, chain, n);
  }

  lemma BudgetBound(current: nat, d: nat)
    requires d <= current
    ensures d > 0 ==> Budget(current, d) <= 2 * Log2(d) + 1
    ensures d == 0 ==> Budget(current, d) == 0
  {
    hide M.Ctz;
  }

  // ----- visiting every block

  /** The walk over all blocks calls back each of them once, last block first. */
  method Traverse(dev: Device, bs: nat, head: U32, size: nat, ghost chain: seq<U32>) returns (visited: seq<U32>)
    requires IsFile(dev, bs, head, size, chain)
    ensures |visited| == |chain| && forall i :: 0 <= i < |chain| ==> visited[i] == chain[|chain| - 1 - i]
  {
    hide M.Index, M.Roomy, WellFormed;
    visited := [];
    if size == 0 {
      return;
    }
    var index := M.Index(bs, size - 1).0;
    var at := head;
    while true
      invariant 0 <= index < |chain| && at == chain[index] && |visited| + index + 1 == |chain|
      invariant forall i :: 0 <= i < |visited| ==> visited[i] == chain[|chain| - 1 - i]
      decreases index
    {
      visited := visited + [at];
      if index == 0 {
        return;
      }
      var count := 2 - index % 2;
      SmallPointers(index);
      HasPointer(dev, bs, chain, index, 0);
      if count == 2 {
        HasPointer(dev, bs, chain, index, 1);
        visited := visited + [Pointer(dev, at, 0)];
      }
      at := Pointer(dev, at, count - 1);
      index := index - count;
    }
  }

  lemma SmallPointers(n: nat)
    requires n > 0
    ensures 0 < M.Pointers(n) && (n % 2 == 0 ==> 1 < M.Pointers(n))
    ensures Pow2(0) == 1 && Pow2(1) == 2
  {
  }

  // ----- appending

  /** The list after growing: a new last block, and before it blocks of the old list, untouched. */
  ghost predicate Grown(dev: Device, dev': Device, bs: nat, head: U32, size: nat, nblock: U32, off: nat,
                        chain: seq<U32>, chain': seq<U32>)
  {
    && bs > 8 && WellFormed(dev', bs, chain') && nblock in dev' && dev' - {nblock} == dev - {nblock}
    && off < bs && |dev'[nblock]| == bs
    && if size == 0 then off == 0 && chain' == [nblock]
       else if M.Index(bs, size - 1).1 + 1 == bs then
         // the last block was full: a new one behind it, starting with its pointers
         chain' == chain + [nblock] && off == 4 * M.Pointers(|chain|)
       else
         // a copy takes the place of the last block
         && chain != [] && chain' == chain[..|chain| - 1] + [nblock] && off == M.Index(bs, size - 1).1 + 1
         && head in dev && |dev[head]| == bs && dev'[nblock][..off] == dev[head][..off]
  }

  /** Grow the file by a block, into the fresh block `nblock`. */
  method Extend(dev: Device, bs: nat, head: U32, size: nat, nblock: U32, erased: seq<Byte>, ghost chain: seq<U32>)
      returns (dev': Device, off: nat, ghost chain': seq<U32>)
    requires IsFile(dev, bs, head, size, chain) && |erased| == bs && nblock !in chain
    ensures nblock in dev' && dev' - {nblock} == dev - {nblock} && off < |dev'[nblock]| == bs
    ensures Grown(dev, dev', bs, head, size, nblock, off, chain, chain')
  {
    hide M.Index, M.Roomy, M.Pointers, WellFormed, M.Ctz;
    if size == 0 {
      dev' := dev[nblock := erased];
      FirstBlock(dev', bs, nblock);
      return dev', 0, [nblock];
    }
    var (index, noff) := M.Index(bs, size - 1);
    noff := noff + 1;
    LastBlock(bs, size - 1, index, noff);
    if noff != bs {
      BlockThere(dev, bs, chain, index);
      var data := CopyBytes(dev[head], erased, noff);
      CopiedBlock(dev, data, bs, chain, nblock, noff);
      return dev[nblock := data], noff, chain[..index] + [nblock];
    }
    index := index + 1;
    var skips := M.Ctz(index) + 1;
    var data := AppendPointers(dev, bs, head, index, skips, erased, chain);
    PointersAre(index);
    AppendedBlock(dev, data, bs, chain, nblock);
    return dev[nblock := data], 4 * skips, chain + [nblock];
  }

  lemma PointersAre(n: nat)
    requires n > 0
    ensures M.Pointers(n) == M.Ctz(n) + 1
  {
  }

  /** The loop that copies the bytes of the last block. */
  method CopyBytes(from: seq<Byte>, erased: seq<Byte>, n: nat) returns (to: seq<Byte>)
    requires n <= |from| == |erased|
    ensures |to| == |erased| && to[..n] == from[..n]
  {
    to := erased;
    for i := 0 to n
      invariant |to| == |erased| && to[..i] == from[..i]
    {
      to := to[i := from[i]];
      assert to[..i + 1] == to[..i] + [from[i]];
    }
  }

  /** The loop that writes the pointers of block n, finding each by following the one before. */
  method AppendPointers(dev: Device, bs: nat, head: U32, n: nat, skips: nat, erased: seq<Byte>, ghost chain: seq<U32>)
      returns (data: seq<Byte>)
    requires n == |chain| > 0 && chain[n - 1] == head && WellFormed(dev, bs, chain) && |erased| == bs
    requires skips == M.Ctz(n) + 1 && 4 * skips <= bs
    ensures |data| == bs
    ensures forall k: nat :: k < skips ==> Pow2(k) <= n && FromLE(data[4 * k..4 * k + 4]) == chain[n - Pow2(k)]
  {
    hide WellFormed, LE, FromLE;
    data := erased;
    var nhead := head;
    SmallPointers(n);
    for i := 0 to skips
      invariant |data| == bs && (i < skips ==> Pow2(i) <= n && nhead == chain[n - Pow2(i)])
      invariant forall k: nat :: k < i ==> Pow2(k) <= n && FromLE(data[4 * k..4 * k + 4]) == chain[n - Pow2(k)]
    {
      ghost var before := data;
      data := data[..4 * i] + LE(nhead) + data[4 * i + 4..];
      LERoundTrip(nhead);
      assert data[4 * i..4 * i + 4] == LE(nhead);
      forall k: nat | k < i ensures data[4 * k..4 * k + 4] == before[4 * k..4 * k + 4] {
      }
      if i != skips - 1 {
        CtzDivides(n, i);
        CtzDivides(n, i + 1);
        assert Pow2(i + 1) == 2 * Pow2(i);
        HasPointer(dev, bs, chain, n - Pow2(i), i);
        nhead := Pointer(dev, nhead, i);
      }
    }
  }

  lemma FirstBlock(dev: Device, bs: nat, nblock: U32)
    requires nblock in dev && |dev[nblock]| == bs
    ensures WellFormed(dev, bs, [nblock])
  {
  }

  lemma BlockThere(dev: Device, bs: nat, chain: seq<U32>, n: nat)
    requires WellFormed(dev, bs, chain) && n < |chain|
    ensures chain[n] in dev && |dev[chain[n]]| == bs
  {
    assert PointsBack(dev, bs, chain, n);
  }

  lemma LastBlock(bs: nat, pos: nat, index: int, noff: int)
    requires bs >= 16 && pos < M.WORD && M.Roomy(bs, pos) && (index, noff - 1) == M.Index(bs, pos)
    ensures 0 <= index && 4 * M.Pointers(index) < noff <= bs
    ensures 4 * (M.Ctz(index + 1) + 1) < bs
  {
    hide M.Index, M.Roomy;
    M.IndexLocates(bs, pos);
    var p := M.BlockSmall(bs, pos, index, noff - 1);
    CtzAtMost(index + 1, p);
  }

  lemma {:induction false} CtzAtMost(n: nat, p: nat)
    requires 0 < n <= Pow2(p)
    ensures M.Ctz(n) <= p
  {
    if n % 2 == 0 {
      CtzAtMost(n / 2, p - 1);
    }
  }

  lemma CopiedBlock(dev: Device, data: seq<Byte>, bs: nat, chain: seq<U32>, nblock: U32, noff: nat)
    requires WellFormed(dev, bs, chain) && chain != [] && nblock !in chain && |data| == bs
    requires var n := |chain| - 1;
             4 * M.Pointers(n) <= noff <= bs && chain[n] in dev && |dev[chain[n]]| == bs &&
             data[..noff] == dev[chain[n]][..noff]
    ensures WellFormed(dev[nblock := data], bs, chain[..|chain| - 1] + [nblock])
  {
    hide M.Pointers, FromLE;
    var dev' := dev[nblock := data];
    var last := |chain| - 1;
    var chain' := chain[..last] + [nblock];
    forall n | 0 <= n < |chain'| ensures PointsBack(dev', bs, chain', n) {
      assert PointsBack(dev, bs, chain, n);
      if n == last {
        forall k: nat | k < M.Pointers(n) ensures dev'[nblock][4 * k..4 * k + 4] == dev[chain[n]][4 * k..4 * k + 4] {
          SliceOf(dev'[nblock], dev[chain[n]], noff, 4 * k);
        }
      }
    }
  }

  lemma SliceOf(a: seq<Byte>, b: seq<Byte>, n: nat, i: nat)
    requires i + 4 <= n <= |a| && n <= |b| && a[..n] == b[..n]
    ensures a[i..i + 4] == b[i..i + 4]
  {
    assert a[i..i + 4] == a[..n][i..i + 4];
    assert b[i..i + 4] == b[..n][i..i + 4];
  }

  lemma AppendedBlock(dev: Device, data: seq<Byte>, bs: nat, chain: seq<U32>, nblock: U32)
    requires WellFormed(dev, bs, chain) && chain != [] && nblock !in chain
    requires |data| == bs && 4 * M.Pointers(|chain|) <= bs
    requires forall k: nat :: k < M.Pointers(|chain|) ==>
               Pow2(k) <= |chain| && FromLE(data[4 * k..4 * k + 4]) == chain[|chain| - Pow2(k)]
    ensures WellFormed(dev[nblock := data], bs, chain + [nblock])
  {
    hide M.Pointers, FromLE;
    var dev' := dev[nblock := data];
    var chain' := chain + [nblock];
    forall n | 0 <= n < |chain'| ensures PointsBack(dev', bs, chain', n) {
      if n < |chain| {
        assert PointsBack(dev, bs, chain, n);
      }
    }
  }

  /** Writing file data behind the pointers of the last block keeps the list. */
  lemma DataKeeps(dev: Device, bs: nat, chain: seq<U32>, data: seq<Byte>)
    requires WellFormed(dev, bs, chain) && chain != [] && |data| == bs
    requires var n := |chain| - 1;
             chain[n] in dev && |dev[chain[n]]| == bs && 4 * M.Pointers(n) <= bs &&
             data[..4 * M.Pointers(n)] == dev[chain[n]][..4 * M.Pointers(n)]
    ensures WellFormed(dev[chain[|chain| - 1] := data], bs, chain)
  {
    hide M.Pointers, FromLE;
    var last := |chain| - 1;
    var dev' := dev[chain[last] := data];
    forall n | 0 <= n < |chain| ensures PointsBack(dev', bs, chain, n) {
      assert PointsBack(dev, bs, chain, n);
      if n == last {
        forall k: nat | k < M.Pointers(n) ensures data[4 * k..4 * k + 4] == dev[chain[n]][4 * k..4 * k + 4] {
          SliceOf(data, dev[chain[n]], 4 * M.Pointers(n), 4 * k);
        }
      }
    }
  }

  /** The closed form names the block that adding up the capacities finds. */
  lemma IndexUnique(bs: nat, pos: nat, i: nat, off: int)
    requires bs >= 16 && pos < M.WORD && M.Roomy(bs, pos) && M.Locates(bs, pos, i, off)
    ensures M.Index(bs, pos) == (i, off)
  {
    hide M.Index, M.Roomy, M.Locates, Pow2;
    M.IndexLocates(bs, pos);
    var (j, o) := M.Index(bs, pos);
    var p := M.BlockSmall(bs, pos, i, off);
    var p' := M.BlockSmall(bs, pos, j, o);
    if p < p' {
      PowMono(p, p');
      M.LocatesUnique(bs, pos, i, j, off, o, p');
    } else {
      PowMono(p', p);
      M.LocatesUnique(bs, pos, i, j, off, o, p);
    }
  }

  lemma StartNext(bs: nat, n: nat)
    ensures M.Start(bs, n + 1) == M.Start(bs, n) + bs - 4 * M.Pointers(n)
  {
    hide M.Pointers;
  }

  /** Where the bytes written behind a grown file come to lie. */
  lemma GrownAt(dev: Device, dev': Device, bs: nat, head: U32, size: nat, nblock: U32, off: nat,
                chain: seq<U32>, chain': seq<U32>, pos: nat)
    requires IsFile(dev, bs, head, size, chain) && Grown(dev, dev', bs, head, size, nblock, off, chain, chain')
    requires size <= pos < M.WORD && off + (pos - size) < bs && M.Roomy(bs, pos)
    ensures M.Index(bs, pos) == (|chain'| - 1, off + (pos - size))
  {
    hide M.Index, M.Roomy, WellFormed, M.Start, M.Pointers;
    var o := off + (pos - size);
    if size == 0 {
      M.InFirst(bs, pos);
      IndexUnique(bs, pos, 0, pos);
    } else {
      M.IndexLocates(bs, size - 1);
      var (i, _) := M.Index(bs, size - 1);
      var i' := |chain'| - 1;
      StartNext(bs, i);
      StartNext(bs, i');
      assert M.Locates(bs, pos, i', o);
      IndexUnique(bs, pos, i', o);
    }
  }

  /** Growing a file and then writing some bytes into the new block, as many as fit, makes the file
      with the larger size.
   */
  lemma GrownFile(dev: Device, dev': Device, bs: nat, head: U32, size: nat, nblock: U32, off: nat,
                  chain: seq<U32>, chain': seq<U32>, written: nat)
    requires IsFile(dev, bs, head, size, chain) && Grown(dev, dev', bs, head, size, nblock, off, chain, chain')
    requires 0 < written && off + written <= bs && size + written < M.WORD && M.Roomy(bs, size + written - 1)
    ensures IsFile(dev', bs, nblock, size + written, chain')
  {
    hide M.Index, M.Roomy, WellFormed;
    GrownAt(dev, dev', bs, head, size, nblock, off, chain, chain', size + written - 1);
  }

  // ----- what a file holds

  /** Byte `o` of block `i` of the list. */
  predicate ByteIs(dev: Device, chain: seq<U32>, i: int, o: int, b: Byte) {
    && 0 <= i < |chain| && chain[i] in dev && 0 <= o < |dev[chain[i]]| && dev[chain[i]][o] == b
  }

  /** The file reads as these bytes. */
  ghost predicate Contents(dev: Device, bs: nat, chain: seq<U32>, bytes: seq<Byte>)
    requires bs > 8
  {
    forall pos :: 0 <= pos < |bytes| ==> ByteIs(dev, chain, M.Index(bs, pos).0, M.Index(bs, pos).1, bytes[pos])
  }

  /** The bytes of a file are in the blocks that growing it keeps: before the last one, or below `off`. */
  lemma OldAt(dev: Device, dev': Device, bs: nat, head: U32, size: nat, nblock: U32, off: nat,
              chain: seq<U32>, chain': seq<U32>, pos: nat, b: Byte)
    requires IsFile(dev, bs, head, size, chain) && Grown(dev, dev', bs, head, size, nblock, off, chain, chain')
    requires pos < size && nblock !in chain && ByteIs(dev, chain, M.Index(bs, pos).0, M.Index(bs, pos).1, b)
    ensures ByteIs(dev', chain', M.Index(bs, pos).0, M.Index(bs, pos).1, b)
    ensures M.Index(bs, pos).0 == |chain'| - 1 ==> M.Index(bs, pos).1 < off
  {
    hide M.Index, M.Roomy, WellFormed, M.Start, M.Pointers;
    M.IndexBelow(bs, pos, size - 1);
    var (i, o) := M.Index(bs, pos);
    if i < |chain'| - 1 {
      assert chain'[i] == chain[i] != nblock;
      Elsewhere(dev, dev', nblock, chain[i]);
    } else {
      assert i == |chain| - 1 && o < off;
      assert dev'[nblock][..off][o] == dev[head][..off][o];
    }
  }

  lemma Elsewhere(dev: Device, dev': Device, nblock: U32, block: U32)
    requires dev' - {nblock} == dev - {nblock} && block != nblock && block in dev
    ensures block in dev' && dev'[block] == dev[block]
  {
    assert block in dev - {nblock} && (dev - {nblock})[block] == dev[block];
    assert block in dev' - {nblock} && (dev' - {nblock})[block] == dev'[block];
  }

  function Patched(block: seq<Byte>, off: nat, data: seq<Byte>): (r: seq<Byte>)
    requires off + |data| <= |block|
    ensures |r| == |block|
  {
    block[..off] + data + block[off + |data|..]
  }

  /** The device after data was written into the last block. */
  function Filled(dev: Device, nblock: U32, off: nat, data: seq<Byte>): Device
    requires nblock in dev && off + |data| <= |dev[nblock]|
  {
    dev[nblock := Patched(dev[nblock], off, data)]
  }

  lemma FilledOld(dev: Device, nblock: U32, off: nat, data: seq<Byte>, chain: seq<U32>, i: int, o: int, b: Byte)
    requires nblock in dev && off + |data| <= |dev[nblock]| && ByteIs(dev, chain, i, o, b)
    requires chain != [] && chain[|chain| - 1] == nblock && Distinct(chain) && (i == |chain| - 1 ==> o < off)
    ensures ByteIs(Filled(dev, nblock, off, data), chain, i, o, b)
  {
  }

  lemma FilledNew(dev: Device, nblock: U32, off: nat, data: seq<Byte>, chain: seq<U32>, k: nat)
    requires nblock in dev && off + |data| <= |dev[nblock]| && k < |data|
    requires chain != [] && chain[|chain| - 1] == nblock
    ensures ByteIs(Filled(dev, nblock, off, data), chain, |chain| - 1, off + k, data[k])
  {
  }

  lemma FilledKeeps(dev: Device, bs: nat, chain: seq<U32>, off: nat, data: seq<Byte>)
    requires WellFormed(dev, bs, chain) && chain != []
    requires var nblock := chain[|chain| - 1];
             nblock in dev && |dev[nblock]| == bs && 4 * M.Pointers(|chain| - 1) <= off && off + |data| <= bs
    ensures WellFormed(Filled(dev, chain[|chain| - 1], off, data), bs, chain)
  {
    hide M.Pointers, WellFormed;
    var block, p := dev[chain[|chain| - 1]], 4 * M.Pointers(|chain| - 1);
    assert Patched(block, off, data)[..p] == block[..p];
    DataKeeps(dev, bs, chain, Patched(block, off, data));
  }

  /** Growing goes behind the pointers of the block. */
  lemma GrownBehind(dev: Device, dev': Device, bs: nat, head: U32, size: nat, nblock: U32, off: nat,
                    chain: seq<U32>, chain': seq<U32>)
    requires IsFile(dev, bs, head, size, chain) && Grown(dev, dev', bs, head, size, nblock, off, chain, chain')
    ensures chain' != [] && chain'[|chain'| - 1] == nblock && 4 * M.Pointers(|chain'| - 1) <= off
  {
    hide M.Index, M.Roomy, WellFormed;
    if size > 0 {
      var (index, noff) := M.Index(bs, size - 1);
      LastBlock(bs, size - 1, index, noff + 1);
    }
  }

  /** Growing a file and filling the new block adds the data to what the file holds. */
  lemma GrownHolds(dev: Device, dev': Device, bs: nat, head: U32, size: nat, nblock: U32, off: nat,
                   chain: seq<U32>, chain': seq<U32>, bytes: seq<Byte>, data: seq<Byte>)
    requires IsFile(dev, bs, head, size, chain) && Grown(dev, dev', bs, head, size, nblock, off, chain, chain')
    requires nblock !in chain && |bytes| == size && Contents(dev, bs, chain, bytes)
    requires data != [] && off + |data| <= bs && size + |data| < M.WORD && M.Roomy(bs, size + |data| - 1)
    ensures var dev'' := Filled(dev', nblock, off, data);
            IsFile(dev'', bs, nblock, size + |data|, chain') && Contents(dev'', bs, chain', bytes + data)
  {
    hide M.Index, M.Roomy, WellFormed, M.Pointers, ByteIs, Filled;
    GrownBehind(dev, dev', bs, head, size, nblock, off, chain, chain');
    GrownFile(dev, dev', bs, head, size, nblock, off, chain, chain', |data|);
    FilledKeeps(dev', bs, chain', off, data);
    AllDistinct(dev', bs, chain');
    var dev'' := Filled(dev', nblock, off, data);
    forall pos | 0 <= pos < size + |data|
      ensures ByteIs(dev'', chain', M.Index(bs, pos).0, M.Index(bs, pos).1, (bytes + data)[pos])
    {
      if pos < size {
        OldAt(dev, dev', bs, head, size, nblock, off, chain, chain', pos, bytes[pos]);
        FilledOld(dev', nblock, off, data, chain', M.Index(bs, pos).0, M.Index(bs, pos).1, bytes[pos]);
      } else {
        M.RoomyBelow(bs, pos, size + |data| - 1);
        GrownAt(dev, dev', bs, head, size, nblock, off, chain, chain', pos);
        FilledNew(dev', nblock, off, data, chain', pos - size);
      }
    }
  }

  lemma AllDistinct(dev: Device, bs: nat, chain: seq<U32>)
    requires WellFormed(dev, bs, chain)
    ensures Distinct(chain)
  {
  }

  // ----- writing and reading files

  predicate Fresh(blocks: seq<U32>, chain: seq<U32>) {
    Distinct(blocks) && forall i :: 0 <= i < |blocks| ==> blocks[i] !in chain
  }

  lemma StillFresh(dev: Device, dev': Device, bs: nat, head: U32, size: nat, blocks: seq<U32>, off: nat,
                   chain: seq<U32>, chain': seq<U32>)
    requires blocks != [] && Fresh(blocks, chain)
    requires Grown(dev, dev', bs, head, size, blocks[0], off, chain, chain')
    ensures Fresh(blocks[1..], chain')
  {
    hide M.Index, WellFormed;
  }

  /** Write at the end of a file, a block at a time: the file then holds the old bytes and the data, and
      no other block of the device changed.
   */
  method Write(dev: Device, bs: nat, head: U32, size: nat, data: seq<Byte>, blocks: seq<U32>, erased: seq<Byte>,
               ghost chain: seq<U32>, ghost bytes: seq<Byte>)
      returns (dev': Device, head': U32, used: nat, ghost chain': seq<U32>)
    requires IsFile(dev, bs, head, size, chain) && |bytes| == size && Contents(dev, bs, chain, bytes)
    requires |data| <= |blocks| && Fresh(blocks, chain) && |erased| == bs
    requires size + |data| < M.WORD && (data != [] ==> M.Roomy(bs, size + |data| - 1))
    ensures used <= |data| && IsFile(dev', bs, head', size + |data|, chain')
    ensures Contents(dev', bs, chain', bytes + data) && Fresh(blocks[used..], chain')
    ensures forall b :: b in dev && b !in blocks[..used] ==> b in dev' && dev'[b] == dev[b]
  {
    hide IsFile, Grown, Contents, Fresh, M.Roomy, Filled;
    FileBlock(dev, bs, head, size, chain);
    dev', head', used, chain' := dev, head, 0, chain;
    var done := 0;
    assert data[..0] == [] && bytes + [] == bytes && blocks[0..] == blocks;
    while done < |data|
      invariant used <= done <= |data|
      invariant IsFile(dev', bs, head', size + done, chain') && Contents(dev', bs, chain', bytes + data[..done])
      invariant Fresh(blocks[used..], chain')
      invariant forall b :: b in dev && b !in blocks[..used] ==> b in dev' && dev'[b] == dev[b]
    {
      var nblock := blocks[used];
      ghost var was, past, prev := dev', chain', head';
      assert blocks[used..][0] == nblock && blocks[used..][1..] == blocks[used + 1..];
      FreshFirst(blocks[used..], past);
      var off;
      dev', off, chain' := Extend(dev', bs, head', size + done, nblock, erased, chain');
      ghost var grown := dev';
      StillFresh(was, grown, bs, prev, size + done, blocks[used..], off, past, chain');
      var n := if |data| - done < bs - off then |data| - done else bs - off;
      assert data[..done + n] == data[..done] + data[done..done + n];
      assert bytes + data[..done] + data[done..done + n] == bytes + data[..done + n];
      M.RoomyBelow(bs, size + done + n - 1, size + |data| - 1);
      GrownHolds(was, grown, bs, prev, size + done, nblock, off, past, chain', bytes + data[..done],
                 data[done..done + n]);
      FilledElsewhere(was, grown, nblock, off, data[done..done + n]);
      dev' := Filled(dev', nblock, off, data[done..done + n]);
      assert blocks[..used + 1] == blocks[..used] + [nblock];
      head', used, done := nblock, used + 1, done + n;
    }
    assert data[..|data|] == data;
  }

  lemma FileBlock(dev: Device, bs: nat, head: U32, size: nat, chain: seq<U32>)
    requires IsFile(dev, bs, head, size, chain)
    ensures bs >= 16
  {
  }

  lemma FreshFirst(blocks: seq<U32>, chain: seq<U32>)
    requires blocks != [] && Fresh(blocks, chain)
    ensures blocks[0] !in chain
  {
  }

  lemma FilledElsewhere(dev: Device, dev': Device, nblock: U32, off: nat, data: seq<Byte>)
    requires dev' - {nblock} == dev - {nblock} && nblock in dev' && off + |data| <= |dev'[nblock]|
    ensures forall b :: b in dev && b != nblock ==>
              b in Filled(dev', nblock, off, data) && Filled(dev', nblock, off, data)[b] == dev[b]
  {
    forall b | b in dev && b != nblock
      ensures b in dev' && dev'[b] == dev[b]
    {
      Elsewhere(dev, dev', nblock, b);
    }
  }

  function Joined(writes: seq<seq<Byte>>): seq<Byte> {
    if writes == [] then [] else Joined(writes[..|writes| - 1]) + writes[|writes| - 1]
  }

  lemma {:induction false} JoinedBelow(writes: seq<seq<Byte>>, n: nat)
    requires n <= |writes|
    ensures |Joined(writes[..n])| <= |Joined(writes)|
  {
    if n < |writes| {
      assert writes[..|writes| - 1][..n] == writes[..n];
      JoinedBelow(writes[..|writes| - 1], n);
    } else {
      assert writes[..n] == writes;
    }
  }

  /** Any sequence of writes, each closed and reopened, from an empty file on: the file is well formed
      and holds everything written, in order.
   */
  method WriteAll(dev: Device, bs: nat, writes: seq<seq<Byte>>, blocks: seq<U32>, erased: seq<Byte>)
      returns (dev': Device, head: U32, ghost chain: seq<U32>)
    requires bs >= 16 && |Joined(writes)| <= |blocks| && Distinct(blocks) && |erased| == bs
    requires |Joined(writes)| < M.WORD && (Joined(writes) != [] ==> M.Roomy(bs, |Joined(writes)| - 1))
    ensures IsFile(dev', bs, head, |Joined(writes)|, chain) && Contents(dev', bs, chain, Joined(writes))
    ensures forall b :: b in dev && b !in blocks ==> b in dev' && dev'[b] == dev[b]
  {
    hide IsFile, Contents, M.Roomy, Distinct, Fresh;
    dev', head, chain := dev, NULL, [];
    EmptyFile(dev, bs, head, blocks);
    var size: nat, used := 0, 0;
    assert writes[..0] == [] && blocks[0..] == blocks;
    for k := 0 to |writes|
      invariant size == |Joined(writes[..k])| && used <= size && used <= |blocks|
      invariant IsFile(dev', bs, head, size, chain) && Contents(dev', bs, chain, Joined(writes[..k]))
      invariant Fresh(blocks[used..], chain)
      invariant forall b :: b in dev && b !in blocks ==> b in dev' && dev'[b] == dev[b]
    {
      assert writes[..k + 1][..k] == writes[..k];
      JoinedBelow(writes, k + 1);
      if writes[k] != [] {
        M.RoomyBelow(bs, size + |writes[k]| - 1, |Joined(writes)| - 1);
      }
      var more;
      ghost var past := dev';
      dev', head, more, chain := Write(dev', bs, head, size, writes[k], blocks[used..], erased, chain,
                                       Joined(writes[..k]));
      assert blocks[used..][more..] == blocks[used + more..];
      forall b | b in dev && b !in blocks
        ensures b in dev' && dev'[b] == dev[b]
      {
        assert b !in blocks[used..][..more];
      }
      size, used := size + |writes[k]|, used + more;
    }
    assert writes[..|writes|] == writes;
  }

  lemma EmptyFile(dev: Device, bs: nat, head: U32, blocks: seq<U32>)
    requires bs >= 16 && Distinct(blocks)
    ensures IsFile(dev, bs, head, 0, []) && Contents(dev, bs, [], []) && Fresh(blocks, [])
  {
  }

  /** Reading a byte by way of the skip list. */
  method ReadByte(dev: Device, bs: nat, head: U32, size: nat, pos: nat, ghost chain: seq<U32>, ghost bytes: seq<Byte>)
      returns (b: Byte)
    requires IsFile(dev, bs, head, size, chain) && |bytes| == size && Contents(dev, bs, chain, bytes) && pos < size
    ensures b == bytes[pos]
  {
    hide M.Index, M.Roomy, WellFormed, M.Locates, Log2;
    var block, off;
    ghost var steps;
    block, off, steps := Find(dev, bs, head, size, pos, chain);
    ghost var target: nat :| Reached(bs, chain, pos, block, off, steps, target);
    M.RoomyBelow(bs, pos, size - 1);
    IndexUnique(bs, pos, target, off);
    assert ByteIs(dev, chain, target, off, bytes[pos]);
    b := dev[block][off];
  }
}
