/** The block allocator: a window of the block device is looked at through a bitmap of the blocks in
    use, and a counter keeps blocks handed out but not yet committed from being handed out again.
 */
module Allocator {
  import opened Basics
  import opened Align

  /** The block j places after `off` on the circular device. */
  function BlockAt(n: nat, off: nat, j: nat): (b: nat)
    requires off < n && j <= n
    ensures b < n
  {
    if off + j < n then off + j else off + j - n
  }

  /** How many places after `off` the block is. */
  function Dist(n: nat, off: nat, b: nat): (j: nat)
    requires off < n && b < n
    ensures j < n
  {
    if b >= off then b - off else b - off + n
  }

  lemma ModOnce(x: nat, n: nat)
    requires 0 < n && x < 2 * n
    ensures x % n == if x < n then x else x - n
  {
    DivModUnique(x, n, if x < n then 0 else 1, if x < n then x else x - n);
  }

  /** The wrapped difference gives the place of the block. */
  lemma PlaceOf(n: nat, off: nat, block: nat)
    requires 0 < n <= 0x8000_0000 && off < n && block < n
    ensures ((block as int - off) % 0x1_0000_0000 + n) % 0x1_0000_0000 % n == Dist(n, off, block)
    ensures forall j :: 0 <= j < n ==> (BlockAt(n, off, j) == block <==> j == Dist(n, off, block))
  {
    ModOnce(Wrapped(n, off, block), n);
  }

  function Wrapped(n: nat, off: nat, block: nat): (x: nat)
    requires off < n <= 0x8000_0000 && block < n
    ensures x == ((block as int - off) % 0x1_0000_0000 + n) % 0x1_0000_0000 == block + n - off
  {
    ((block as int - off) % 0x1_0000_0000 + n) % 0x1_0000_0000
  }

  /** The bits from place i on are set exactly for the blocks in the set. */
  ghost predicate Shows(n: nat, off: nat, i: nat, bits: seq<bool>, used: set<nat>)
    requires off < n && |bits| <= n
  {
    forall j :: i <= j < |bits| ==> (bits[j] <==> BlockAt(n, off, j) in used)
  }

  /** The next `left` blocks are the ones that were not looked at. */
  ghost predicate Covered(n: nat, next: nat, left: nat, looked: set<nat>)
    requires next < n
  {
    forall b: nat :: b < n ==> (Dist(n, next, b) < left <==> b !in looked)
  }

  /** The blocks from place i to place j. */
  ghost function Between(n: nat, off: nat, i: nat, j: nat): (blocks: set<nat>)
    requires off < n
  {
    set b: nat | b < n && i <= Dist(n, off, b) < j
  }

  lemma BetweenStep(n: nat, off: nat, i: nat, bits: seq<bool>, used: set<nat>)
    requires off < n && i < |bits| <= n && Shows(n, off, i, bits, used)
    ensures Between(n, off, i, |bits|) == {BlockAt(n, off, i)} + Between(n, off, i + 1, |bits|)
    ensures Shows(n, off, i + 1, bits, used) && (bits[i] <==> BlockAt(n, off, i) in used)
  {
    BlockAtPlace(n, off, i, i);
    forall b: nat | b < n && Dist(n, off, b) == i
      ensures b == BlockAt(n, off, i)
    {
      PlaceBlock(n, off, b);
    }
  }

  lemma BlockAtPlace(n: nat, off: nat, i: nat, j: nat)
    requires off < n && i <= j < n
    ensures Dist(n, off, BlockAt(n, off, j)) == j && Dist(n, BlockAt(n, off, i), BlockAt(n, off, j)) == j - i
  {
  }

  lemma PlaceBlock(n: nat, off: nat, b: nat)
    requires off < n && b < n
    ensures BlockAt(n, off, Dist(n, off, b)) == b
  {
  }

  /** Looking at one more block. */
  lemma CoveredStep(n: nat, off: nat, i: nat, left: nat, looked: set<nat>)
    requires off < n && i < n && 0 < left <= n && Covered(n, BlockAt(n, off, i), left, looked)
    ensures BlockAt(n, off, i) !in looked
    ensures Covered(n, BlockAt(n, off, i + 1), left - 1, looked + {BlockAt(n, off, i)})
  {
    var next := BlockAt(n, off, i);
    assert Dist(n, next, next) == 0;
    forall b: nat | b < n
      ensures Dist(n, BlockAt(n, off, i + 1), b) < left - 1 <==> b !in looked + {next}
    {
      assert Dist(n, next, b) < left <==> b !in looked;
    }
  }

  /** The rest of the window was not looked at. */
  lemma AheadUnseen(n: nat, off: nat, i: nat, size: nat, left: nat, looked: set<nat>)
    requires off < n && i <= size <= n && size - i <= left && Covered(n, BlockAt(n, off, i), left, looked)
    ensures forall j :: i <= j < size ==> BlockAt(n, off, j) !in looked
  {
    forall j | i <= j < size
      ensures BlockAt(n, off, j) !in looked
    {
      BlockAtPlace(n, off, i, j);
    }
  }

  /** When the tree changes, taking in only blocks already looked at, the window goes on showing the
      blocks that are in use or have been since it was filled.
   */
  lemma ShowsChange(n: nat, off: nat, i: nat, bits: seq<bool>, used: set<nat>, used': set<nat>, looked: set<nat>)
    requires off < n && |bits| <= n && Shows(n, off, i, bits, used) && used' <= used + looked
    requires forall j :: i <= j < |bits| ==> BlockAt(n, off, j) !in looked
    requires forall b: nat :: b in used && b < n && i <= Dist(n, off, b) < |bits| ==> b in used'
    ensures Shows(n, off, i, bits, used')
  {
    forall j | i <= j < |bits|
      ensures bits[j] <==> BlockAt(n, off, j) in used'
    {
      BlockAtPlace(n, off, j, j);
    }
  }

  datatype Outcome = Block(block: nat) | NoSpc | Failed

  /** What walking the file system finds: every block in use, in some order, or an error. */
  datatype Traversal = Blocks(blocks: seq<nat>) | Error

  class Allocator {
    const blockCount: nat
    const lookahead: nat   // bits in the lookahead buffer
    var off: nat
    var size: nat
    var i: nat
    var ack: nat
    var buffer: seq<bool>

    ghost var tree: set<nat>      // blocks in use by the file system
    ghost var pending: set<nat>   // blocks handed out since the last ack
    ghost var marked: set<nat>    // blocks passed over as used since the last ack
    ghost var freed: set<nat>     // blocks that left the tree after the window that shows them was filled

    ghost predicate Valid()
      reads this
    {
      && 0 < blockCount <= 0x8000_0000 && 0 < lookahead && |buffer| == lookahead
      && off < blockCount && i <= size <= lookahead && size <= blockCount
      && size - i <= ack <= blockCount
      && (forall b :: b in tree ==> b < blockCount)
      && (forall b :: b in pending ==> b < blockCount)
      // a bit ahead is set exactly for a block that is in use or was when the window was filled
      && Shows(blockCount, off, i, buffer[..size], tree + freed)
      // the next `ack` blocks were not looked at since the last ack, all others were
      && Covered(blockCount, Next(), ack, pending + marked)
      && marked <= tree + freed && freed <= marked + Ahead()
    }

    /** The blocks of the window that are still to be looked at. */
    ghost function Ahead(): set<nat>
      reads this
      requires off < blockCount
    {
      Between(blockCount, off, i, size)
    }

    ghost function Next(): nat
      reads this
      requires off < blockCount && i <= blockCount
    {
      BlockAt(blockCount, off, i)
    }

    /** Mounting starts somewhere, without having looked at anything. */
    constructor (blockCount: nat, lookahead: nat, seed: nat, ghost tree: set<nat>)
      requires 0 < blockCount <= 0x8000_0000 && 0 < lookahead && forall b :: b in tree ==> b < blockCount
      ensures Valid() && this.tree == tree && pending == marked == freed == {} && this.blockCount == blockCount
    {
      this.blockCount := blockCount;
      this.lookahead := lookahead;
      this.buffer := seq(lookahead, _ => false);
      this.off, this.size, this.i, this.ack := seed % blockCount, 0, 0, blockCount;
      this.tree, this.pending, this.marked, this.freed := tree, {}, {}, {};
    }

    /** What was handed out is committed, or given up. */
    method Ack()
      requires Valid()
      modifies this`ack, this`pending, this`marked, this`freed
      ensures Valid() && pending == marked == {} && freed == old(freed) * Ahead() && ack == blockCount
    {
      ack := blockCount;
      pending, marked, freed := {}, {}, freed * Ahead();
    }

    /** Forget the window, when mounting or after a failed walk. */
    method Drop()
      requires 0 < blockCount <= 0x8000_0000 && 0 < lookahead && |buffer| == lookahead && off < blockCount
      requires forall b :: b in tree ==> b < blockCount
      modifies this`size, this`i, this`ack, this`pending, this`marked, this`freed
      ensures Valid() && pending == marked == freed == {} && size == 0 && ack == blockCount
    {
      size := 0;
      i := 0;
      ack := blockCount;
      pending, marked, freed := {}, {}, {};
    }

    /** The file system changes: it can only take blocks into use that were handed out. */
    ghost method Change(tree': set<nat>)
      requires Valid() && tree' <= tree + pending
      modifies this`tree, this`freed
      ensures Valid() && tree == tree'
      ensures freed == old(freed) + (old(tree) - tree') * (marked + Ahead())
    {
      AheadUnseen(blockCount, off, i, size, ack, pending + marked);
      ghost var freed' := freed + (tree - tree') * (marked + Ahead());
      ShowsChange(blockCount, off, i, buffer[..size], tree + freed, tree' + freed', pending + marked);
      freed := freed';
      tree := tree';
    }

    /** Look at the next block of the window. */
    method Look() returns (free: bool, ghost b: nat)
      requires Valid() && i != size
      modifies this`i, this`ack, this`pending, this`marked
      ensures Valid() && i == old(i) + 1 && ack == old(ack) - 1 && b == old(Next()) && free == !buffer[old(i)]
      ensures free ==> b !in tree && b !in old(pending) && pending == old(pending) + {b}
      ensures !free ==> pending == old(pending)
    {
      hide Covered, Shows, Between;
      b := Next();
      BetweenStep(blockCount, off, i, buffer[..size], tree + freed);
      CoveredStep(blockCount, off, i, ack, pending + marked);
      ghost var looked := pending + marked;
      assert buffer[..size][i] == buffer[i];
      free := !buffer[i];
      i := i + 1;
      ack := ack - 1;
      if free {
        pending := pending + {b};
      } else {
        marked := marked + {b};
      }
      assert pending + marked == looked + {b};
    }

    /** A walk that succeeds finds just the blocks in use. */
    ghost predicate Truthful(t: Traversal)
      reads this
    {
      t.Blocks? ==> forall b :: b in t.blocks <==> b in tree
    }

    /** Move the window on and fill it from the file system; after a failed walk, forget it. What the
        new window shows is what is in use now: of the blocks that left the tree, only those passed
        before are still held back.
     */
    method LookAhead(traversal: Traversal) returns (ok: bool)
      requires Valid() && i == size && ack > 0
      requires Truthful(traversal)
      modifies this`off, this`size, this`i, this`ack, this`buffer, this`pending, this`marked, this`freed
      ensures Valid() && ok == traversal.Blocks?
      ensures if ok then i == 0 < size && ack == old(ack) && pending == old(pending) && marked == old(marked) &&
                         freed == old(freed) * marked
              else pending == marked == freed == {} && size == 0 && ack == blockCount
    {
      ghost var next := Next();
      ModOnce(off + size, blockCount);
      if traversal.Error? {
        off := (off + size) % blockCount;
        Drop();
        return false;
      }
      freed := freed * marked;
      off := (off + size) % blockCount;
      size := Min(lookahead, ack);
      i := 0;
      assert Next() == next;
      Fill(traversal.blocks);
      AheadUnseen(blockCount, off, 0, size, ack, pending + marked);
      return true;
    }

    /** The bits of the window are set exactly for the blocks found. */
    method Fill(blocks: seq<nat>)
      requires 0 < blockCount <= 0x8000_0000 && off < blockCount && size <= lookahead && size <= blockCount
      requires forall b :: b in blocks ==> b < blockCount
      modifies this`buffer
      ensures |buffer| == lookahead && Shows(blockCount, off, 0, buffer[..size], set b | b in blocks)
    {
      buffer := seq(lookahead, _ => false);
      for k := 0 to |blocks|
        invariant |buffer| == lookahead
        invariant forall j :: 0 <= j < size ==> (buffer[j] <==> BlockAt(blockCount, off, j) in blocks[..k])
      {
        assert blocks[k] in blocks;
        Mark(blocks[k]);
        assert blocks[..k + 1] == blocks[..k] + [blocks[k]];
      }
      assert blocks[..|blocks|] == blocks;
    }

    /** The callback for a block in use; subtraction wraps around as in 32-bit arithmetic. */
    method Mark(block: nat)
      requires 0 < blockCount <= 0x8000_0000 && off < blockCount && block < blockCount
      requires size <= |buffer| && size <= blockCount
      modifies this`buffer
      ensures |buffer| == old(|buffer|)
      ensures forall j :: 0 <= j < size ==> (buffer[j] <==> old(buffer)[j] || BlockAt(blockCount, off, j) == block)
    {
      var wrapped := ((block as int) - off) % 0x1_0000_0000;
      var sum := (wrapped + blockCount) % 0x1_0000_0000;
      var place := sum % blockCount;
      PlaceOf(blockCount, off, block);
      if place < size {
        buffer := buffer[place := true];
      }
    }

    /** Hand out a block. It is neither in use nor handed out since the last ack. Running out of
        space means that every block was looked at once since then, and each one was handed out, is
        in use, or had left the tree after the window that showed it in use was filled. Each window takes
        a walk of its own; the n-th walk of the call finds `walks(n)`, and the first that fails ends it.
     */
    method Alloc(walks: nat -> Traversal) returns (r: Outcome, ghost walked: nat)
      requires Valid() && forall n: nat :: Truthful(walks(n))
      modifies this`off, this`size, this`i, this`ack, this`buffer, this`pending, this`marked, this`freed
      ensures Valid()
      ensures r.Block? ==> r.block < blockCount && r.block !in tree && r.block !in old(pending) &&
                           pending == old(pending) + {r.block}
      ensures r.NoSpc? ==> ack == 0 && pending == old(pending) && freed <= old(freed) &&
                           forall b: nat :: b < blockCount ==> b in pending || b in marked * (tree + freed)
      ensures r.Failed? ==> walked > 0 && walks(walked - 1).Error? && pending == marked == freed == {}
      ensures forall n :: 0 <= n < walked && (r.Failed? ==> n < walked - 1) ==> walks(n).Blocks?
    {
      hide Allocator.Valid;
      var n := 0;
      while true
        invariant Valid() && pending == old(pending) && freed <= old(freed)
        invariant forall k :: 0 <= k < n ==> walks(k).Blocks?
        decreases ack, i == size
      {
        var found := Search();
        if found.Block? {
          return found, n;
        }
        if ack == 0 {
          Exhausted();
          return NoSpc, n;
        }
        var ok := LookAhead(walks(n));
        n := n + 1;
        if !ok {
          return Failed, n;
        }
      }
    }

    lemma Exhausted()
      requires Valid() && ack == 0
      ensures forall b: nat :: b < blockCount ==> b in pending || b in marked * (tree + freed)
    {
      forall b: nat | b < blockCount
        ensures b in pending || b in marked * (tree + freed)
      {
        assert Dist(blockCount, Next(), b) >= 0;
        assert b in pending + marked;
      }
    }

    lemma InBounds()
      requires Valid()
      ensures 0 < blockCount && off < blockCount && i <= size <= blockCount && size <= |buffer|
    {
    }

    /** Look for a free block in the rest of the window. */
    method Search() returns (r: Outcome)
      requires Valid()
      modifies this`i, this`ack, this`pending, this`marked
      ensures Valid() && (r.Block? || r.NoSpc?)
      ensures r.Block? ==> r.block < blockCount && r.block !in tree && r.block !in old(pending) &&
                           pending == old(pending) + {r.block}
      ensures r.NoSpc? ==> old(i) <= i == size && pending == old(pending) && ack == old(ack) - (size - old(i))
    {
      hide Allocator.Valid;
      InBounds();
      while i != size
        invariant Valid() && pending == old(pending) && i - old(i) == old(ack) - ack && i <= size
        decreases size - i
      {
        InBounds();
        var place := i;
        var free;
        ghost var b;
        free, b := Look();
        if free {
          ModOnce(off + place, blockCount);
          r := Block((off + place) % blockCount);
          SkipUsed();
          return;
        }
      }
      return NoSpc;
    }

    /** Eagerly move to the next free block, so that an ack can discredit the ones passed. */
    method SkipUsed()
      requires Valid()
      modifies this`i, this`ack, this`pending, this`marked
      ensures Valid() && pending == old(pending) && (i != size ==> !buffer[i])
    {
      while i != size && buffer[i]
        invariant Valid() && pending == old(pending)
        decreases size - i
      {
        var _, _ := Look();
      }
    }
  }
}
