/**
  umm_init, umm_malloc, umm_free and umm_realloc over a pool of cells.

  A pointer is a byte offset into the pool; the data of block `c` starts at byte
  8 * c + 4. The ghost fields name what the memory already determines (see
  `UmmProofs.Determined`): the block partition and the order of the free list.
 */
module UmmAllocator {
  import opened Words
  import opened UmmHeap
  import opened UmmProofs
  import opened UmmPlaces

  datatype Ptr = Null | At(addr: nat)

  /** `&UMM_DATA(c)` */
  function DataOf(c: nat): (p: Ptr)
    ensures p.At? && p.addr / 8 == c && p.addr % 8 == 4
  {
    At(8 * c + 4)
  }

  /** umm_blocks: the number of cells for `size` bytes, kept in 16 bits. */
  function UmmBlocks(size: nat): (k: U16) {
    if size <= 4 then 1 else (2 + (size - 5) / 8) % 0x10000
  }

  /** Bytes a caller may use in a block of `k` cells. */
  function Capacity(k: int): (r: int) {
    8 * k - 4
  }

  /** The 16-bit result is large enough exactly up to 8 * 65535 - 4 bytes, and up to
      there it is the least sufficient number of cells. */
  lemma BlocksSuffice(size: nat)
    ensures Capacity(UmmBlocks(size)) >= size <==> size <= 8 * 65535 - 4
    ensures 0 < size <= 8 * 65535 - 4 ==> UmmBlocks(size) >= 1 && Capacity(UmmBlocks(size) - 1) < size
    ensures UmmBlocks(size) == 0 <==> size >= 5 && ((size - 5) / 8) % 0x10000 == 0xFFFE
  {}

  /** The sizes of the free blocks, in list order. */
  ghost function FreeSizes(m: seq<Cell>, free: seq<nat>): (r: seq<int>)
    requires forall j :: 0 <= j < |free| ==> free[j] < |m|
    ensures |r| == |free|
    ensures forall j {:trigger r[j]} :: 0 <= j < |free| ==> r[j] == Size(m, free[j])
  {
    seq(|free|, j requires 0 <= j < |free| => Size(m, free[j]))
  }

  /** The links the scan follows and the sizes it meets. */
  ghost predicate Scannable(m: seq<Cell>, free: seq<nat>, sizes: seq<int>) {
    && |m| > 0 && |sizes| == |free| && m[0].nfree == Ring(free, 0)
    && (forall j {:trigger sizes[j]} :: 0 <= j < |free| ==>
          && 0 < free[j] < |m| && m[free[j]].nfree == Ring(free, j + 1)
          && 0 < Size(m, free[j]) == sizes[j] < 0x7FFF)
  }

  /** Position `i` is the one the scan picks: the earliest of the smallest
      sufficient sizes, or simply the earliest sufficient one. */
  ghost predicate Picked(sizes: seq<int>, k: nat, bestFit: bool, i: nat) {
    && i < |sizes| && sizes[i] >= k
    && (bestFit ==> forall j :: 0 <= j < |sizes| && sizes[j] >= k ==>
                      sizes[i] <= sizes[j] && (j < i ==> sizes[i] < sizes[j]))
    && (!bestFit ==> forall j :: 0 <= j < i ==> sizes[j] < k)
  }

  ghost predicate NoneFits(sizes: seq<int>, k: nat) {
    forall j :: 0 <= j < |sizes| ==> sizes[j] < k
  }

  /** The data of the `len` cells at `c` in `m` is found at `c'` in `m'`. */
  ghost predicate Moved(m: seq<Cell>, c: nat, m': seq<Cell>, c': nat, len: nat)
    requires 0 < len && c + len <= |m| && c' + len <= |m'|
  {
    && m'[c'].nfree == m[c].nfree && m'[c'].pfree == m[c].pfree
    && m'[c' + 1..c' + len] == m[c + 1..c + len]
  }

  class Pool {
    const cells: array<Cell>
    const bestFit: bool
    ghost var blocks: set<nat>
    ghost var free: seq<nat>

    ghost predicate Valid()
      reads this, cells
    {
      Inv(cells[..], blocks, free)
    }

    /** The blocks handed out to callers. */
    ghost function Used(): (r: set<nat>)
      reads this, cells
      requires Valid()
    {
      Live(cells[..], blocks)
    }

    ghost predicate Owned(p: Ptr)
      reads this, cells
      requires Valid()
    {
      p.At? ==> p.addr % 8 == 4 && p.addr / 8 in Used()
    }

    /** umm_init */
    constructor (n: nat, bestFit: bool)
      requires 3 <= n <= 0x8000
      ensures Valid() && fresh(cells) && cells.Length == n && this.bestFit == bestFit
      ensures cells[..] == InitMem(n) && blocks == {0, 1, n - 1} && free == [1] && Used() == {}
    {
      cells := new Cell[n](_ => ZERO_CELL);
      this.bestFit := bestFit;
      blocks := {0, 1, n - 1};
      free := [1];
      new;
      cells[0] := cells[0].(next := 1);
      cells[0] := cells[0].(nfree := 1);
      cells[0] := cells[0].(pfree := 1);
      cells[1] := cells[1].(next := n - 1 + 0x8000);
      cells[1] := cells[1].(nfree := 0);
      cells[1] := cells[1].(prev := 0);
      cells[1] := cells[1].(pfree := 0);
      cells[n - 1] := cells[n - 1].(next := 0);
      cells[n - 1] := cells[n - 1].(prev := 1);
      assert cells[..] == InitMem(n);
      InitInv(n);
    }

    /** umm_split_block */
    method SplitBlock(c: nat, k: nat, mark: bool)
      requires c + k < cells.Length <= 0x8000 && Nx(cells[..], c) < cells.Length
      modifies cells
      ensures cells[..] == SplitMem(old(cells[..]), c, k, mark)
    {
      cells[c + k] := cells[c + k].(next := WithMark(BlockNo(cells[c].next), mark));
      cells[c + k] := cells[c + k].(prev := c);
      cells[BlockNo(cells[c].next)] := cells[BlockNo(cells[c].next)].(prev := c + k);
      cells[c] := cells[c].(next := c + k);
    }

    /** umm_disconnect_from_free_list */
    method Disconnect(c: nat)
      requires c < cells.Length && cells[c].pfree < cells.Length && cells[c].nfree < cells.Length
      requires cells[c].pfree == c <==> cells[c].nfree == c
      modifies cells
      ensures cells[..] == UnlinkMem(old(cells[..]), c)
    {
      cells[cells[c].pfree] := cells[cells[c].pfree].(nfree := cells[c].nfree);
      cells[cells[c].nfree] := cells[cells[c].nfree].(pfree := cells[c].pfree);
      cells[c] := cells[c].(next := BlockNo(cells[c].next));
    }

    /** umm_assimilate_up */
    method AssimilateUp(c: nat)
      requires Valid() && c in Used()
      modifies this, cells
      ensures Valid() && c in Used()
      ensures Used() == old(Used())
      ensures var m := old(cells[..]);
              var n := Nx(m, c);
              && free == Removed(old(free), n)
              && blocks == (if IsFree(m, n) then old(blocks) - {n} else old(blocks))
              && Nx(cells[..], c) == (if IsFree(m, n) then Nx(m, n) else n)
              && (!IsFree(m, n) ==> cells[..] == m)
              && SameData(m, cells[..], c, n)
              && cells[c].prev == m[c].prev
      ensures !IsFree(cells[..], Nx(cells[..], c))
      ensures Frame(old(cells[..]), old(blocks), cells[..], blocks, {c})
    {
      ghost var m0 := cells[..];
      ghost var n := Nx(m0, c);
      assert n in blocks;
      if Marked(cells[cells[c].next].next) {
        assert IsFree(m0, n);
        ghost var i := IndexOf(free, n);
        Absorb(m0, blocks, free, c, i);
        Disconnect(cells[c].next);
        assert cells[..] == UnlinkMem(m0, n);
        cells[BlockNo(cells[cells[c].next].next)] := cells[BlockNo(cells[cells[c].next].next)].(prev := c);
        cells[c] := cells[c].(next := BlockNo(cells[cells[c].next].next));
        assert cells[..] == MergeUpMem(UnlinkMem(m0, n), c);
        free := Without(free, i);
        blocks := blocks - {n};
      } else {
        assert !IsFree(m0, n);
      }
    }

    /** umm_assimilate_down */
    method AssimilateDown(c: nat, mark: bool) returns (p: nat)
      requires c < cells.Length && cells[c].prev < cells.Length && cells[c].next < cells.Length && cells[c].prev != c
      modifies cells
      ensures cells[..] == MergeDownMem(old(cells[..]), c, mark)
      ensures p == old(cells[c].prev)
    {
      p := cells[c].prev;
      cells[cells[c].prev] := cells[cells[c].prev].(next := WithMark(cells[c].next, mark));
      cells[cells[c].next] := cells[cells[c].next].(prev := cells[c].prev);
    }

    /** The tail of umm_free that adds a block to the head of the free list. */
    method AddToFreeList(c: nat)
      requires 0 < c < cells.Length <= 0x8000 && cells[0].nfree < cells.Length
      modifies cells
      ensures cells[..] == PushMem(old(cells[..]), c)
    {
      cells[cells[0].nfree] := cells[cells[0].nfree].(pfree := c);
      cells[c] := cells[c].(nfree := cells[0].nfree);
      cells[c] := cells[c].(pfree := 0);
      cells[0] := cells[0].(nfree := c);
      cells[c] := cells[c].(next := WithMark(cells[c].next, true));
    }

    /** The second half of umm_free: join the previous block or the free list. */
    method AssimilateOrAdd(c: nat)
      requires Valid() && c in Used() && !IsFree(cells[..], Nx(cells[..], c))
      modifies this, cells
      ensures Valid() && Used() == old(Used()) - {c}
      ensures Frame(old(cells[..]), old(blocks), cells[..], blocks, {c})
      ensures var m := old(cells[..]);
              && m[c].prev < |m|
              && blocks == old(blocks) - (if IsFree(m, m[c].prev) then {c} else {})
              && free == (if IsFree(m, m[c].prev) then [] else [c]) + old(free)
    {
      ghost var m := cells[..];
      Sink(m, blocks, free, c);
      if Marked(cells[cells[c].prev].next) {
        assert IsFree(m, m[c].prev);
        var _ := AssimilateDown(c, true);
        blocks := blocks - {c};
      } else {
        assert CanPush(m, blocks, c);
        assert m[0].nfree == Ring(free, 0);
        assert Pushed(m, PushMem(m, c), c);
        Push(m, PushMem(m, c), blocks, free, c);
        AddToFreeList(c);
        free := [c] + free;
      }
    }

    /** umm_free */
    method Free(ptr: Ptr)
      requires Valid() && Owned(ptr)
      modifies this, cells
      ensures Valid()
      ensures ptr.Null? ==> cells[..] == old(cells[..]) && blocks == old(blocks) && free == old(free)
      ensures ptr.At? ==>
                Freed(old(cells[..]), old(blocks), old(free), ptr.addr / 8, cells[..], blocks, free)
    {
      if ptr.Null? {
        return;
      }
      var c := ptr.addr / 8;
      ghost var m0, b0, f0 := cells[..], blocks, free;
      PrevFrom(m0, b0, 0, c);
      AssimilateUp(c);
      ghost var m1, b1, f1 := cells[..], blocks, free;
      SameMarks(m0, b0, f0, m1, b1, f1, m0[c].prev, Nx(m0, c));
      AssimilateOrAdd(c);
      FrameTransitive(m0, b0, m1, b1, cells[..], blocks, {c});
    }

    /** The free-list scan of umm_malloc. On failure `cf` is 0 and `blockSize` is
        what the last block looked at happened to have. */
    method Scan(k: nat, ghost list: seq<nat>, ghost sizes: seq<int>) returns (cf: nat, blockSize: int, ghost i: nat)
      requires Scannable(cells[..], list, sizes)
      ensures blockSize >= 0
      ensures if NoneFits(sizes, k) then cf == 0 && (blockSize < k || (list == [] && blockSize == 0))
              else Picked(sizes, k, bestFit, i) && cf == list[i] && blockSize == sizes[i]
    {
      cf := cells[0].nfree;
      var bestBlock: nat, bestSize := cells[0].nfree, 0x7FFF;
      blockSize := 0;
      i := 0;
      ghost var best := 0;
      while cf != 0
        invariant i <= |list| && cf == Ring(list, i)
        invariant 0 <= blockSize == if i == 0 then 0 else sizes[i - 1]
        invariant bestSize == 0x7FFF ==> NoneFits(sizes[..i], k)
        invariant bestSize != 0x7FFF ==>
                    && bestFit && bestBlock == Ring(list, best) && Picked(sizes[..i], k, true, best)
                    && 0 <= bestSize == sizes[best]
        decreases |list| - i
      {
        ghost var size := sizes[i];
        blockSize := BlockNo(cells[cf].next) - cf;
        assert sizes[..i + 1] == sizes[..i] + [blockSize];
        if bestFit {
          if blockSize >= k && blockSize < bestSize {
            bestBlock, bestSize, best := cf, blockSize, i;
          }
        } else if blockSize >= k {
          break;
        }
        cf := cells[cf].nfree;
        i := i + 1;
      }
      assert i == |list| ==> sizes[..i] == sizes;
      assert i == |list| > 0 ==> blockSize == sizes[..i][i - 1];
      if bestSize != 0x7FFF {
        cf, blockSize, i := bestBlock, bestSize, best;
      }
    }

    /** The splitting branch of umm_malloc. */
    method CarveBlock(c: nat, k: nat)
      requires c + k < cells.Length <= 0x8000 && Nx(cells[..], c) < cells.Length
      requires cells[c].pfree < cells.Length && cells[c].nfree < cells.Length
      requires cells[c].pfree != c && cells[c].nfree != c
      modifies cells
      ensures cells[..] == CarveMem(old(cells[..]), c, k)
    {
      SplitBlock(c, k, true);
      cells[cells[c].pfree] := cells[cells[c].pfree].(nfree := c + k);
      cells[c + k] := cells[c + k].(pfree := cells[c].pfree);
      cells[cells[c].nfree] := cells[cells[c].nfree].(pfree := c + k);
      cells[c + k] := cells[c + k].(nfree := cells[c].nfree);
    }

    /** umm_malloc once a block was found. With a cell count of 0 the whole pool breaks. */
    method Take(cf: nat, blockSize: int, k: nat, ghost i: nat)
      requires Valid() && k <= blockSize
      requires i < |free| && cf == free[i] && blockSize == Size(cells[..], cf)
      modifies this, cells
      ensures k > 0 ==> Allocated(old(cells[..]), old(blocks), old(free), i, k, cells[..], blocks, free)
      ensures k == 0 ==> Broken(cells[..])
    {
      hide Allocated, Broken, UnlinkMem, CarveMem, Links, Gaps, Coalesced, FreeRing, Listed;
      TakeBlock(cells[..], blocks, free, i, k);
      if blockSize == k {
        Disconnect(cf);
        free := Without(free, i);
      } else {
        CarveBlock(cf, k);
        blocks := blocks + {cf + k};
        free := free[i := cf + k];
      }
    }

    /** umm_malloc, for every size. When the 16-bit cell count wraps to 0 the scan accepts
        any free block and the pool is destroyed, or, with no free block at all, the
        data of block 0 is handed out. */
    method Malloc(size: nat) returns (r: Ptr, ghost i: nat)
      requires Valid()
      modifies this, cells
      ensures Broken(cells[..]) <==> UmmBlocks(size) == 0 && old(free) != []
      ensures UmmBlocks(size) != 0 || old(free) == [] ==> Valid()
      ensures r.Null? || (UmmBlocks(size) == 0 && old(free) == []) ==>
                cells[..] == old(cells[..]) && blocks == old(blocks) && free == old(free)
      ensures UmmBlocks(size) == 0 ==> r.At? && (old(free) == [] ==> r == DataOf(0))
      ensures UmmBlocks(size) != 0 ==>
                (r.Null? <==> size == 0 || NoneFits(FreeSizes(old(cells[..]), old(free)), UmmBlocks(size)))
      ensures UmmBlocks(size) != 0 && r.At? ==>
                && Picked(FreeSizes(old(cells[..]), old(free)), UmmBlocks(size), bestFit, i)
                && r == DataOf(old(free)[i])
                && Allocated(old(cells[..]), old(blocks), old(free), i, UmmBlocks(size), cells[..], blocks, free)
    {
      i := 0;
      if size == 0 {
        return Null, 0;
      }
      var k := UmmBlocks(size);
      ghost var sizes := FreeSizes(cells[..], free);
      PoolScannable(cells[..], blocks, free);
      var cf, blockSize;
      cf, blockSize, i := Scan(k, free, sizes);
      assert BlockNo(cells[cf].next) != 0 by {
        assert Nx(cells[..], cf) > cf;
      }
      if BlockNo(cells[cf].next) != 0 && blockSize >= k {
        if cf == 0 {
          // only reached with k == 0 and an empty free list, where it changes nothing
          assert UnlinkMem(cells[..], 0) == cells[..];
          Disconnect(cf);
        } else {
          Take(cf, blockSize, k, i);
        }
      } else {
        return Null, i;
      }
      r := DataOf(cf);
    }

    /** memmove or memcpy of the data of `len` cells at `src` to `dst`. */
    method MoveData(dst: nat, src: nat, len: nat)
      requires 0 < len && src + len <= cells.Length && dst + len <= cells.Length
      modifies cells
      ensures cells[..] == MoveMem(old(cells[..]), dst, src, len)
    {
      var first := cells[src];
      forall j | 0 < j < len {
        cells[dst + j] := cells[src + j];
      }
      cells[dst] := cells[dst].(nfree := first.nfree, pfree := first.pfree);
    }

    /** The part of umm_realloc that grows into the free block before `c`. */
    method GrowDown(c: nat, len: nat) returns (p: nat)
      requires Valid() && c in Used() && 0 < len <= Size(cells[..], c)
      requires cells[c].prev < cells.Length && IsFree(cells[..], cells[c].prev)
      modifies this, cells
      ensures p == old(cells[c].prev)
      ensures Resized(old(cells[..]), old(blocks), c, cells[..], blocks, free, p, len)
      ensures Nx(cells[..], p) == Nx(old(cells[..]), c)
      ensures blocks == old(blocks) - {c} && free == Dropped(old(free), {p})
    {
      ghost var m := cells[..];
      ghost var i := PrevIndex(m, blocks, free, c);
      WithoutDropped(free, i);
      Descend(m, blocks, free, c, i, len);
      Disconnect(cells[c].prev);
      p := AssimilateDown(c, false);
      MoveData(p, c, len);
      free := Without(free, i);
      blocks := blocks - {c};
    }

    /** Split block `c` after `k` cells and free the rest. */
    method Trim(c: nat, k: nat)
      requires Valid() && c in Used() && 0 < k < Size(cells[..], c)
      modifies this, cells
      ensures Resized(old(cells[..]), old(blocks), c, cells[..], blocks, free, c, k)
      ensures Size(cells[..], c) == k
      ensures var n := Nx(old(cells[..]), c);
              && n < cells.Length
              && blocks == old(blocks) + {c + k} - Only(n, IsFree(old(cells[..]), n))
              && free == [c + k] + Removed(old(free), n)
    {
      ghost var m0, b0 := cells[..], blocks;
      assert c < Nx(m0, c) < |m0|;
      ghost var m1 := SplitMem(m0, c, k, false);
      Split(m0, m1, blocks, free, c, k);
      SplitBlock(c, k, false);
      blocks := blocks + {c + k};
      Free(DataOf(c + k));
      TrimResized(m0, b0, m1, b0 + {c + k}, cells[..], blocks, free, c, k);
    }

    /** Copy the data of block `c` into the larger block `t`, then free `c`. */
    method CopyAndFree(t: nat, c: nat, len: nat)
      requires Valid() && c in Used() && t in Used() && c != t
      requires len == Size(cells[..], c) <= Size(cells[..], t)
      modifies this, cells
      ensures Valid() && Used() == old(Used()) - {c}
      ensures Size(cells[..], t) == Size(old(cells[..]), t)
      ensures Moved(old(cells[..]), c, cells[..], t, len)
      ensures Frame(old(cells[..]), old(blocks), cells[..], blocks, {c, t})
      ensures var m := old(cells[..]);
              var n, p := Nx(m, c), m[c].prev;
              && n < |m| && p < |m|
              && blocks == old(blocks) - Only(n, IsFree(m, n)) - Only(c, IsFree(m, p))
              && free == (if IsFree(m, p) then [] else [c]) + Removed(old(free), n)
    {
      hide Links, Gaps, Coalesced, FreeRing, Listed, Removed, MoveMem, Reach;
      ghost var m1, b1 := cells[..], blocks;
      ReachCovers(m1, b1, free, c);
      ReachCovers(m1, b1, free, t);
      MoveData(t, c, len);
      ghost var m2 := cells[..];
      MovedWritten(m1, t, c, len);
      WrittenHeaders(m1, m2, b1, t);
      Write(m1, m2, blocks, free, t);
      Free(DataOf(c));
      CopiedData(m1, m2, b1, cells[..], blocks, t, c, len);
      FrameTransitive(m1, b1, m2, b1, cells[..], blocks, {c, t});
    }

    /** The part of umm_realloc that moves to an entirely new block, the one malloc picks. */
    method Relocate(c: nat, size: nat) returns (r: Ptr, ghost i: nat)
      requires Valid() && c in Used() && 0 < size && Reach(cells[..], c) < UmmBlocks(size)
      modifies this, cells
      ensures r.Null? <==> NoneFits(FreeSizes(old(cells[..]), old(free)), UmmBlocks(size))
      ensures r.Null? ==> Valid() && cells[..] == old(cells[..]) && blocks == old(blocks) && free == old(free)
      ensures r.At? ==>
                && Picked(FreeSizes(old(cells[..]), old(free)), UmmBlocks(size), bestFit, i)
                && r == DataOf(old(free)[i])
                && Resized(old(cells[..]), old(blocks), c, cells[..], blocks, free, r.addr / 8, Size(old(cells[..]), c))
                && Size(cells[..], r.addr / 8) == UmmBlocks(size)
                && Nx(old(cells[..]), c) < cells.Length && old(cells[c].prev) < cells.Length
                && Rehoused(old(cells[..]), old(blocks), old(free), c, i, UmmBlocks(size), blocks, free)
    {
      hide Links, Gaps, Coalesced, FreeRing, Listed, Removed, Reach, Picked, NoneFits, Moved;
      ghost var m0, b0, f0 := cells[..], blocks, free;
      ReachCovers(m0, b0, f0, c);
      var len := cells[c].next - c;
      assert len == Size(m0, c);
      r, i := Malloc(size);
      if r.At? {
        var t := r.addr / 8;
        ghost var m1, b1 := cells[..], blocks;
        OtherKept(m0, b0, f0, i, UmmBlocks(size), m1, b1, free, c);
        SameNeighbours(m0, b0, f0, c, i, UmmBlocks(size), m1, b1, free);
        CopyAndFree(t, c, len);
        Relocated(m0, b0, m1, b1, cells[..], blocks, free, c, t, len);
      }
    }

    /** The sizes umm_realloc decides by; those of the neighbours are 0 unless they are free. */
    method Measure(c: nat) returns (blockSize: nat, nextBlockSize: nat, prevBlockSize: nat)
      requires Valid() && c in Used()
      ensures blockSize == Size(cells[..], c)
      ensures nextBlockSize == NextRoom(cells[..], c) && prevBlockSize == PrevRoom(cells[..], c)
    {
      PrevFrom(cells[..], blocks, 0, c);
      assert c < Nx(cells[..], c);
      blockSize, nextBlockSize, prevBlockSize := cells[c].next - c, 0, 0;
      if Marked(cells[cells[c].next].next) {
        assert Nx(cells[..], c) < Nx(cells[..], Nx(cells[..], c));
        nextBlockSize := BlockNo(cells[cells[c].next].next) - cells[c].next;
      }
      if Marked(cells[cells[c].prev].next) {
        prevBlockSize := c - cells[c].prev;
      }
    }

    /** Strategies 1 to 4 of umm_realloc, when the block and its free neighbours have enough cells. */
    method Extend(c: nat, k: nat, blockSize: nat, nextBlockSize: nat, prevBlockSize: nat) returns (c': nat, size: nat)
      requires Valid() && c in Used() && blockSize == Size(cells[..], c)
      requires nextBlockSize == NextRoom(cells[..], c) && prevBlockSize == PrevRoom(cells[..], c)
      requires 0 < k <= prevBlockSize + blockSize + nextBlockSize
      modifies this, cells
      ensures Resized(old(cells[..]), old(blocks), c, cells[..], blocks, free, c', blockSize)
      ensures k <= size == Size(cells[..], c')
      ensures c' == Place(old(cells[..]), c, k)
      ensures Extended(old(cells[..]), old(blocks), old(free), c, k, cells[..], blocks, free)
    {
      hide Extended, Place, Room, Dropped, Removed;
      ghost var m, b0, f0 := cells[..], blocks, free;
      Neighbours(m, blocks, free, c, k);
      if blockSize >= k {
        SameBlockResized(m, blocks, free, c);
        ExtendedBy(m, b0, f0, c, k, false, false, m, b0, f0, f0);
        return c, blockSize;
      } else if blockSize + nextBlockSize >= k {
        AssimilateUp(c);
        AbsorbResized(m, b0, cells[..], blocks, free, c);
        ExtendedBy(m, b0, f0, c, k, true, false, cells[..], blocks, free, free);
        return c, blockSize + nextBlockSize;
      } else if prevBlockSize + blockSize >= k {
        c' := GrowDown(c, blockSize);
        ExtendedBy(m, b0, f0, c, k, false, true, cells[..], blocks, f0, free);
        return c', blockSize + prevBlockSize;
      } else {
        AssimilateUp(c);
        ghost var m1, b1, f1 := cells[..], blocks, free;
        AbsorbResized(m, b0, m1, b1, f1, c);
        SameMarks(m, b0, f0, m1, b1, f1, m[c].prev, Nx(m, c));
        c' := GrowDown(c, blockSize);
        ResizedTwice(m, b0, c, m1, b1, f1, c, cells[..], blocks, free, c', blockSize, blockSize);
        ExtendedBy(m, b0, f0, c, k, true, true, cells[..], blocks, f1, free);
        return c', blockSize + (prevBlockSize + nextBlockSize);
      }
    }

    /** umm_realloc, for every size. A live block is resized to exactly the cells for `size` bytes and keeps
        as much of its data as fits; on failure nothing changes. When the 16-bit cell count wraps to 0, every
        live block passed in destroys the pool. */
    method Realloc(ptr: Ptr, size: nat) returns (r: Ptr, ghost i: nat)
      requires Valid() && Owned(ptr)
      modifies this, cells
      ensures Broken(cells[..]) <==> UmmBlocks(size) == 0 && (ptr.At? || old(free) != [])
      ensures UmmBlocks(size) != 0 || (ptr.Null? && old(free) == []) ==> Valid()
      ensures UmmBlocks(size) == 0 ==> r.At? && (ptr.At? ==> r == ptr) && (ptr.Null? && old(free) == [] ==> r == DataOf(0))
      ensures UmmBlocks(size) != 0 ==> Owned(r)
      ensures r.Null? && (ptr.Null? || size > 0) ==>
                cells[..] == old(cells[..]) && blocks == old(blocks) && free == old(free)
      ensures UmmBlocks(size) != 0 ==>
                (r.Null? <==>
                   || size == 0
                   || (&& (ptr.At? ==> Reach(old(cells[..]), ptr.addr / 8) < UmmBlocks(size))
                       && NoneFits(FreeSizes(old(cells[..]), old(free)), UmmBlocks(size))))
      ensures UmmBlocks(size) != 0 && r.At? ==>
                r == DataOf(r.addr / 8) && Size(cells[..], r.addr / 8) == UmmBlocks(size)
      ensures UmmBlocks(size) != 0 && ptr.Null? && r.At? ==>
                && Picked(FreeSizes(old(cells[..]), old(free)), UmmBlocks(size), bestFit, i)
                && r == DataOf(old(free)[i])
                && Allocated(old(cells[..]), old(blocks), old(free), i, UmmBlocks(size), cells[..], blocks, free)
      ensures ptr.At? && size == 0 ==>
                Freed(old(cells[..]), old(blocks), old(free), ptr.addr / 8, cells[..], blocks, free)
      ensures UmmBlocks(size) != 0 && ptr.At? && r.At? ==>
                var c, k := ptr.addr / 8, UmmBlocks(size);
                var len := if Size(old(cells[..]), c) < k then Size(old(cells[..]), c) else k;
                && Resized(old(cells[..]), old(blocks), c, cells[..], blocks, free, r.addr / 8, len)
                && Resettled(old(cells[..]), old(blocks), old(free), c, k, bestFit, i, r, blocks, free)
    {
      if ptr.Null? {
        r, i := Malloc(size);
        assert UmmBlocks(size) != 0 && r.At? ==> r.addr / 8 in Used();
        return r, i;
      }
      if size == 0 {
        Free(ptr);
        return Null, 0;
      }
      r, i := Resize(ptr.addr / 8, size);
    }

    /** umm_realloc of a live block to a nonzero size. */
    method Resize(c: nat, size: nat) returns (r: Ptr, ghost i: nat)
      requires Valid() && c in Used() && 0 < size
      modifies this, cells
      ensures UmmBlocks(size) == 0 ==> Broken(cells[..]) && r == DataOf(c)
      ensures UmmBlocks(size) != 0 ==>
                (r.Null? <==> && Reach(old(cells[..]), c) < UmmBlocks(size)
                              && NoneFits(FreeSizes(old(cells[..]), old(free)), UmmBlocks(size)))
      ensures r.Null? ==> Valid() && cells[..] == old(cells[..]) && blocks == old(blocks) && free == old(free)
      ensures UmmBlocks(size) != 0 && r.At? ==>
                var k := UmmBlocks(size);
                var len := if Size(old(cells[..]), c) < k then Size(old(cells[..]), c) else k;
                && r == DataOf(r.addr / 8)
                && Resized(old(cells[..]), old(blocks), c, cells[..], blocks, free, r.addr / 8, len)
                && Size(cells[..], r.addr / 8) == k
      ensures UmmBlocks(size) != 0 && r.At? ==>
                Resettled(old(cells[..]), old(blocks), old(free), c, UmmBlocks(size), bestFit, i, r, blocks, free)
    {
      hide Links, Gaps, Coalesced, FreeRing, Listed, Resized, Fitted, Rehoused, Picked, NoneFits, Broken;
      i := 0;
      ReachCovers(cells[..], blocks, free, c);
      var k := UmmBlocks(size);
      var blockSize, nextBlockSize, prevBlockSize := Measure(c);
      if k == 0 {
        // the block is large enough as it is, and all of it is split off
        FreeRest(c);
        r := DataOf(c);
      } else if prevBlockSize + blockSize + nextBlockSize >= k {
        r := Refit(c, k, blockSize, nextBlockSize, prevBlockSize);
      } else {
        r, i := Relocate(c, size);
      }
    }

    /** Splitting after 0 cells and freeing the rest: the block becomes its own successor and its own predecessor,
        is merged with nothing, and is pushed on the free list. */
    method FreeRest(c: nat)
      requires Valid() && c in Used()
      modifies cells
      ensures Broken(cells[..])
    {
      SplitNothing(cells[..], blocks, free, c);
      SplitBlock(c, 0, false);
      if !Marked(cells[cells[c].next].next) && !Marked(cells[cells[c].prev].next) {
        AddToFreeList(c);
      }
    }

    /** The in-place strategies of umm_realloc followed by the final split. */
    method Refit(c: nat, k: nat, blockSize: nat, nextBlockSize: nat, prevBlockSize: nat) returns (r: Ptr)
      requires Valid() && c in Used() && blockSize == Size(cells[..], c)
      requires nextBlockSize == NextRoom(cells[..], c) && prevBlockSize == PrevRoom(cells[..], c)
      requires 0 < k <= prevBlockSize + blockSize + nextBlockSize
      modifies this, cells
      ensures r.At? && r == DataOf(r.addr / 8)
      ensures Resized(old(cells[..]), old(blocks), c, cells[..], blocks, free, r.addr / 8,
                      if blockSize < k then blockSize else k)
      ensures Size(cells[..], r.addr / 8) == k
      ensures r.addr / 8 == Place(old(cells[..]), c, k)
      ensures Nx(old(cells[..]), c) < cells.Length && Fitted(old(cells[..]), old(blocks), old(free), c, k, blocks, free)
    {
      hide Extended, Fitted, Place, Dropped, Removed;
      ghost var m, b0, f0 := cells[..], blocks, free;
      var c', size := Extend(c, k, blockSize, nextBlockSize, prevBlockSize);
      ghost var m1, b1, f1 := cells[..], blocks, free;
      if size > k {
        Trim(c', k);
        ResizedTwice(m, b0, c, m1, b1, f1, c', cells[..], blocks, free, c', blockSize, k);
      }
      TrimFits(m, b0, f0, c, k, m1, b1, f1, blocks, free);
      r := DataOf(c');
    }
  }

  lemma TrimResized(m0: seq<Cell>, b0: set<nat>, m1: seq<Cell>, b1: set<nat>,
                    m2: seq<Cell>, b2: set<nat>, f2: seq<nat>, c: nat, k: nat)
    requires Chain(m0, b0) && c in Live(m0, b0) && 0 < k < Size(m0, c)
    requires Chain(m1, b1) && |m1| == |m0| && Live(m1, b1) == Live(m0, b0) + {c + k} && Nx(m1, c) == c + k
    requires c + k !in b0 && SameData(m0, m1, c, c + k) && Frame(m0, b0, m1, b1, {c})
    requires Inv(m2, b2, f2) && |m2| == |m0| && Live(m2, b2) == Live(m1, b1) - {c + k} && Frame(m1, b1, m2, b2, {c + k})
    ensures Resized(m0, b0, c, m2, b2, f2, c, k) && Size(m2, c) == k
  {
    assert Kept(m1, m2, b2, c);
    assert m2[c + 1..c + k] == m0[c + 1..c + k];
    forall b | b in Live(m0, b0) && b != c
      ensures Kept(m0, m2, b2, b)
    {
      assert Kept(m0, m1, b1, b);
      assert b in Live(m1, b1) && b != c + k;
      assert Kept(m1, m2, b2, b);
    }
  }

  lemma CopiedData(m1: seq<Cell>, m2: seq<Cell>, b1: set<nat>, m3: seq<Cell>, b3: set<nat>, t: nat, c: nat, len: nat)
    requires Chain(m1, b1) && Chain(m2, b1) && |m1| == |m2| == |m3| && c in Live(m1, b1) && t in Live(m1, b1) && t != c
    requires t in Live(m2, b1) && Nx(m2, t) == Nx(m1, t)
    requires len == Size(m1, c) <= Size(m1, t) && m2 == MoveMem(m1, t, c, len) && Frame(m2, b1, m3, b3, {c})
    ensures Moved(m1, c, m3, t, len) && Nx(m3, t) == Nx(m1, t)
  {
    assert Kept(m2, m3, b3, t);
    var a, b := m3[t + 1..t + len], m1[c + 1..c + len];
    forall j | 0 <= j < len - 1
      ensures a[j] == b[j]
    {
      assert m3[t + 1 + j] == m2[t + 1 + j];
    }
  }

  lemma Relocated(m0: seq<Cell>, b0: set<nat>, m1: seq<Cell>, b1: set<nat>,
                  m3: seq<Cell>, b3: set<nat>, f3: seq<nat>, c: nat, t: nat, len: nat)
    requires Chain(m0, b0) && c in Live(m0, b0) && len == Size(m0, c) && |m0| == |m1| == |m3|
    requires Chain(m1, b1) && t !in Live(m0, b0) && Live(m1, b1) == Live(m0, b0) + {t}
    requires Frame(m0, b0, m1, b1, {}) && len <= Size(m1, t)
    requires Inv(m3, b3, f3) && Live(m3, b3) == Live(m1, b1) - {c} && Size(m3, t) == Size(m1, t)
    requires Moved(m1, c, m3, t, len) && Frame(m1, b1, m3, b3, {c, t})
    ensures Resized(m0, b0, c, m3, b3, f3, t, len)
  {
    assert Kept(m0, m1, b1, c);
    assert m1[c + 1..c + len] == m0[c + 1..c + len];
    FrameTransitive(m0, b0, m1, b1, m3, b3, {c, t});
  }

  function MoveMem(m: seq<Cell>, dst: nat, src: nat, len: nat): (r: seq<Cell>)
    requires 0 < len && src + len <= |m| && dst + len <= |m|
    ensures |r| == |m|
  {
    seq(|m|, x requires 0 <= x < |m| =>
      if x == dst then m[x].(nfree := m[src].nfree, pfree := m[src].pfree)
      else if dst < x < dst + len then m[src + (x - dst)]
      else m[x])
  }

  /** Which block a live block `c` became, and what became of the partition and of the free list. The block stays where
      it is if it can, alone or with the free block after it; otherwise it starts where the free block before it
      started; and only if the neighbourhood has too few cells it becomes the free block that malloc picks. */
  ghost predicate Resettled(m: seq<Cell>, blocks: set<nat>, free: seq<nat>, c: nat, k: nat, bestFit: bool, i: nat, r: Ptr,
                            blocks': set<nat>, free': seq<nat>)
    requires Inv(m, blocks, free) && c in Live(m, blocks)
  {
    && Nx(m, c) < |m| && m[c].prev < |m|
    && if k <= Size(m, c) + NextRoom(m, c) then r == DataOf(c) && Fitted(m, blocks, free, c, k, blocks', free')
       else if k <= Reach(m, c) then r == DataOf(m[c].prev) && Fitted(m, blocks, free, c, k, blocks', free')
       else && Picked(FreeSizes(m, free), k, bestFit, i) && r == DataOf(free[i])
            && Rehoused(m, blocks, free, c, i, k, blocks', free')
  }

  lemma MovedWritten(m: seq<Cell>, t: nat, c: nat, len: nat)
    requires t < |m| && 0 < len <= Size(m, t) && c + len <= |m| && Nx(m, t) <= |m|
    ensures Written(m, MoveMem(m, t, c, len), t)
  {}

  lemma ReachCovers(m: seq<Cell>, blocks: set<nat>, free: seq<nat>, c: nat)
    requires Inv(m, blocks, free) && c in Live(m, blocks)
    ensures m[c].prev < c < Nx(m, c) < |m| && Size(m, c) <= Reach(m, c)
    ensures m[c].prev in blocks && Nx(m, c) in blocks
  {
    PrevFrom(m, blocks, 0, c);
    assert c < Nx(m, c);
    var n := Nx(m, c);
    if n < |m| - 1 {
      assert n < Nx(m, n);
    }
  }

  lemma SameBlockResized(m: seq<Cell>, blocks: set<nat>, free: seq<nat>, c: nat)
    requires Inv(m, blocks, free) && c in Live(m, blocks)
    ensures Resized(m, blocks, c, m, blocks, free, c, Size(m, c))
  {}

  lemma AbsorbResized(m: seq<Cell>, blocks: set<nat>, m': seq<Cell>, blocks': set<nat>, free': seq<nat>, c: nat)
    requires Chain(m, blocks) && c in Live(m, blocks) && Inv(m', blocks', free') && |m'| == |m|
    requires Live(m', blocks') == Live(m, blocks) && Nx(m, c) <= Nx(m', c)
    requires SameData(m, m', c, Nx(m, c)) && Frame(m, blocks, m', blocks', {c})
    ensures Resized(m, blocks, c, m', blocks', free', c, Size(m, c))
  {
    assert m'[c + 1..Nx(m, c)] == m[c + 1..Nx(m, c)];
  }

  lemma ResizedTwice(m0: seq<Cell>, b0: set<nat>, c0: nat, m1: seq<Cell>, b1: set<nat>, f1: seq<nat>, c1: nat,
                     m2: seq<Cell>, b2: set<nat>, f2: seq<nat>, c2: nat, len1: nat, len2: nat)
    requires Chain(m0, b0) && c0 in Live(m0, b0) && 0 < len1 <= Size(m0, c0)
    requires Resized(m0, b0, c0, m1, b1, f1, c1, len1)
    requires 0 < len2 <= Size(m1, c1) && Resized(m1, b1, c1, m2, b2, f2, c2, len2)
    requires c1 == c0 || c2 == c1
    ensures len1 <= len2 ==> Resized(m0, b0, c0, m2, b2, f2, c2, len1)
    ensures len2 <= len1 ==> Resized(m0, b0, c0, m2, b2, f2, c2, len2)
  {
    ResizedFrame(m0, b0, c0, m1, b1, f1, c1, m2, b2, f2, c2, len1, len2);
    MovedTwice(m0, c0, m1, c1, m2, c2, len1, len2, if len1 <= len2 then len1 else len2);
  }

  lemma MovedTwice(m0: seq<Cell>, c0: nat, m1: seq<Cell>, c1: nat, m2: seq<Cell>, c2: nat, len1: nat, len2: nat, len: nat)
    requires 0 < len1 && c0 + len1 <= |m0| && c1 + len1 <= |m1| && Moved(m0, c0, m1, c1, len1)
    requires 0 < len2 && c1 + len2 <= |m1| && c2 + len2 <= |m2| && Moved(m1, c1, m2, c2, len2)
    requires 0 < len <= len1 && len <= len2
    ensures Moved(m0, c0, m2, c2, len)
  {
    assert m2[c2 + 1..c2 + len] == m2[c2 + 1..c2 + len2][..len - 1];
    assert m1[c1 + 1..c1 + len2][..len - 1] == m1[c1 + 1..c1 + len1][..len - 1];
    assert m0[c0 + 1..c0 + len] == m0[c0 + 1..c0 + len1][..len - 1];
  }

  lemma ResizedFrame(m0: seq<Cell>, b0: set<nat>, c0: nat, m1: seq<Cell>, b1: set<nat>, f1: seq<nat>, c1: nat,
                     m2: seq<Cell>, b2: set<nat>, f2: seq<nat>, c2: nat, len1: nat, len2: nat)
    requires Chain(m0, b0) && c0 in Live(m0, b0) && 0 < len1 <= Size(m0, c0)
    requires Resized(m0, b0, c0, m1, b1, f1, c1, len1)
    requires 0 < len2 <= Size(m1, c1) && Resized(m1, b1, c1, m2, b2, f2, c2, len2)
    ensures Frame(m0, b0, m2, b2, {c0})
  {
    forall b | b in Live(m0, b0) && b != c0
      ensures Kept(m0, m2, b2, b)
    {
      assert Kept(m0, m1, b1, b);
      assert b in Live(m1, b1) && b != c1;
      assert Kept(m1, m2, b2, b);
    }
  }

  /** Block `c` became block `c'`, which holds the data of the first `len` cells of `c`. */
  ghost predicate Resized(m: seq<Cell>, blocks: set<nat>, c: nat,
                          m': seq<Cell>, blocks': set<nat>, free': seq<nat>, c': nat, len: nat)
    requires Chain(m, blocks) && c in Live(m, blocks) && 0 < len <= Size(m, c)
  {
    && Inv(m', blocks', free') && |m'| == |m|
    && c' in Live(m', blocks') && len <= Size(m', c')
    && Live(m', blocks') == Live(m, blocks) - {c} + {c'}
    && (c' == c || c' !in Live(m, blocks))
    && Moved(m, c, m', c', len)
    && Frame(m, blocks, m', blocks', {c})
  }

  lemma PrevIndex(m: seq<Cell>, blocks: set<nat>, free: seq<nat>, c: nat) returns (i: nat)
    requires Inv(m, blocks, free) && c in Live(m, blocks)
    requires m[c].prev < |m| && IsFree(m, m[c].prev)
    ensures i < |free| && free[i] == m[c].prev && Nx(m, free[i]) == c && 0 < free[i] < c
  {
    PrevFrom(m, blocks, 0, c);
    i := IndexOf(free, m[c].prev);
  }

  /** Taking the free block before `c` off the free list and joining it with `c`. */
  lemma DescendJoin(m: seq<Cell>, blocks: set<nat>, free: seq<nat>, c: nat, i: nat)
    requires Inv(m, blocks, free) && c in Live(m, blocks)
    requires i < |free| && free[i] == m[c].prev && Nx(m, free[i]) == c
    ensures var p := free[i];
            && 0 < p < c < Nx(m, c) < |m| && p !in Live(m, blocks)
            && m[p].pfree < |m| && m[p].nfree < |m| && m[p].pfree != p && m[p].nfree != p
            && var m1 := UnlinkMem(m, p);
            && m1[c].prev == p && m1[c].next < |m|
            && Chain(m1, blocks) && Frame(m, blocks, m1, blocks, {}) && SameData(m, m1, c, Nx(m, c))
            && var m2 := MergeDownMem(m1, c, false);
            && Inv(m2, blocks - {c}, Without(free, i))
            && Live(m2, blocks - {c}) == Live(m, blocks) - {c} + {p}
            && Frame(m1, blocks, m2, blocks - {c}, {p, c})
            && Nx(m2, p) == Nx(m, c) && Joined(m1, m2, p, false) && Nx(m1, p) == c && Nx(m1, c) == Nx(m, c)
  {
    var p := free[i];
    assert p in free;
    Unlink(m, blocks, free, i);
    var m1 := UnlinkMem(m, p);
    assert Kept(m, m1, blocks, c);
    assert m1[c].prev == p;
    Sink(m1, blocks, Without(free, i), c);
  }

  lemma Descend(m: seq<Cell>, blocks: set<nat>, free: seq<nat>, c: nat, i: nat, len: nat)
    requires Inv(m, blocks, free) && c in Live(m, blocks) && 0 < len <= Size(m, c)
    requires i < |free| && free[i] == m[c].prev && Nx(m, free[i]) == c
    ensures var p := free[i];
            && m[p].pfree < |m| && m[p].nfree < |m| && m[p].pfree != p && m[p].nfree != p
            && var m1 := UnlinkMem(m, p);
            && m1[c].prev == p && p < c && m1[c].next < |m|
            && var m2 := MergeDownMem(m1, c, false);
            && p + len <= |m| && c + len <= |m|
            && var m3 := MoveMem(m2, p, c, len);
            && Resized(m, blocks, c, m3, blocks - {c}, Without(free, i), p, len)
            && Nx(m3, p) == Nx(m, c)
  {
    var p := free[i];
    DescendJoin(m, blocks, free, c, i);
    hide Links, Gaps, Coalesced, Listed, FreeRing, UnlinkMem, MergeDownMem;
    var m1 := UnlinkMem(m, p);
    var m2 := MergeDownMem(m1, c, false);
    var m3 := MoveMem(m2, p, c, len);
    assert Written(m2, m3, p);
    Write(m2, m3, blocks - {c}, Without(free, i), p);
    DescendMoved(m, m1, m2, m3, p, c, len);
    DescendFrame(m, m1, m2, m3, blocks, c, p);
  }

  lemma DescendMoved(m: seq<Cell>, m1: seq<Cell>, m2: seq<Cell>, m3: seq<Cell>, p: nat, c: nat, len: nat)
    requires |m| == |m1| == |m2| == |m3| && p < c && 0 < len && c + len <= |m|
    requires SameData(m, m1, c, c + len)
    requires forall x :: 0 <= x < |m| ==> m2[x].nfree == m1[x].nfree && m2[x].pfree == m1[x].pfree
    requires forall x :: c < x < c + len ==> m2[x] == m1[x]
    requires m3 == MoveMem(m2, p, c, len)
    ensures Moved(m, c, m3, p, len)
  {
    var a, b := m3[p + 1..p + len], m[c + 1..c + len];
    forall j | 0 <= j < len - 1
      ensures a[j] == b[j]
    {
      assert m3[p + 1 + j] == m2[c + 1 + j] == m1[c + 1 + j] == m[c + 1 + j];
    }
  }

  lemma DescendFrame(m: seq<Cell>, m1: seq<Cell>, m2: seq<Cell>, m3: seq<Cell>, blocks: set<nat>, c: nat, p: nat)
    requires Chain(m, blocks) && Chain(m1, blocks) && Chain(m2, blocks - {c}) && |m| == |m1| == |m2| == |m3|
    requires p !in Live(m, blocks)
    requires Frame(m, blocks, m1, blocks, {})
    requires Frame(m1, blocks, m2, blocks - {c}, {p, c})
    requires Frame(m2, blocks - {c}, m3, blocks - {c}, {p})
    ensures Frame(m, blocks, m3, blocks - {c}, {c})
  {
    FrameTransitive(m, blocks, m1, blocks, m2, blocks - {c}, {p, c});
    FrameTransitive(m, blocks, m2, blocks - {c}, m3, blocks - {c}, {p, c});
  }

  /** No block partition and no free list make sense of this memory. */
  ghost predicate Broken(m: seq<Cell>) {
    !exists blocks, free :: Inv(m, blocks, free)
  }

  /** Block `c` was given back: it was joined with its free neighbours, and what they form is
      listed where the previous block was, or else at the head of the free list. */
  ghost predicate Freed(m: seq<Cell>, blocks: set<nat>, free: seq<nat>, c: nat,
                        m': seq<Cell>, blocks': set<nat>, free': seq<nat>)
    requires Inv(m, blocks, free) && c in Live(m, blocks)
  {
    var n, p := Nx(m, c), m[c].prev;
    && Inv(m', blocks', free') && |m'| == |m|
    && Live(m', blocks') == Live(m, blocks) - {c}
    && Frame(m, blocks, m', blocks', {c})
    && p < |m|
    && blocks' == blocks - (if IsFree(m, n) then {n} else {}) - (if IsFree(m, p) then {c} else {})
    && free' == (if IsFree(m, p) then [] else [c]) + Removed(free, n)
  }

  /** Free block `free[i]` was handed out as a block of `k` cells. */
  ghost predicate Allocated(m: seq<Cell>, blocks: set<nat>, free: seq<nat>, i: nat, k: nat,
                            m': seq<Cell>, blocks': set<nat>, free': seq<nat>)
    requires Inv(m, blocks, free) && i < |free|
  {
    var c := free[i];
    && Inv(m', blocks', free') && |m'| == |m|
    && c !in Live(m, blocks) && Live(m', blocks') == Live(m, blocks) + {c}
    && Size(m', c) == k
    && Frame(m, blocks, m', blocks', {})
    && (if Size(m, c) == k then blocks' == blocks && free' == Without(free, i)
        else blocks' == blocks + {c + k} && free' == free[i := c + k])
  }

  /** A block in use before an allocation is still there, and is not the new one. */
  lemma OtherKept(m: seq<Cell>, blocks: set<nat>, free: seq<nat>, i: nat, k: nat,
                  m': seq<Cell>, blocks': set<nat>, free': seq<nat>, c: nat)
    requires Inv(m, blocks, free) && i < |free| && Allocated(m, blocks, free, i, k, m', blocks', free')
    requires c in Live(m, blocks)
    ensures free[i] in Live(m', blocks') && c in Live(m', blocks') && c != free[i]
    ensures Size(m', c) == Size(m, c) && Size(m', free[i]) == k
  {
    assert Kept(m, m', blocks', c);
  }

  lemma TakeBlock(m: seq<Cell>, blocks: set<nat>, free: seq<nat>, i: nat, k: nat)
    requires Inv(m, blocks, free) && i < |free| && k <= Size(m, free[i])
    ensures m[free[i]].pfree < |m| && m[free[i]].nfree < |m| && Nx(m, free[i]) < |m|
    ensures m[free[i]].pfree != free[i] && m[free[i]].nfree != free[i]
    ensures k == 0 ==> k < Size(m, free[i]) && Broken(CarveMem(m, free[i], k))
    ensures k == Size(m, free[i]) ==>
              Allocated(m, blocks, free, i, k, UnlinkMem(m, free[i]), blocks, Without(free, i))
    ensures 0 < k < Size(m, free[i]) ==>
              var c := free[i];
              Allocated(m, blocks, free, i, k, CarveMem(m, c, k), blocks + {c + k}, free[i := c + k])
  {
    var c := free[i];
    assert c in free;
    assert c < Nx(m, c);
    if k == 0 {
      CarveNothing(m, blocks, free, i);
    } else if k == Size(m, c) {
      Unlink(m, blocks, free, i);
    } else {
      Carve(m, blocks, free, i, k);
    }
    FreeNeighbours(m, blocks, free, i);
  }

  lemma FreeNeighbours(m: seq<Cell>, blocks: set<nat>, free: seq<nat>, i: nat)
    requires Inv(m, blocks, free) && i < |free|
    ensures m[free[i]].pfree < |m| && m[free[i]].nfree < |m| && Nx(m, free[i]) < |m|
    ensures m[free[i]].pfree != free[i] && m[free[i]].nfree != free[i]
  {
    assert free[i] in free;
    assert LinkedAt(m, free, i);
  }

  lemma PoolScannable(m: seq<Cell>, blocks: set<nat>, free: seq<nat>)
    requires Inv(m, blocks, free)
    ensures Scannable(m, free, FreeSizes(m, free))
  {
    var sizes := FreeSizes(m, free);
    forall j | 0 <= j < |free|
      ensures 0 < free[j] < |m| && m[free[j]].nfree == Ring(free, j + 1) && 0 < Size(m, free[j]) == sizes[j] < 0x7FFF
    {
      FreeBlock(m, blocks, free, j);
    }
  }

  /** What a step of the scan meets. */
  lemma FreeBlock(m: seq<Cell>, blocks: set<nat>, free: seq<nat>, i: nat)
    requires Inv(m, blocks, free) && i < |free|
    ensures 0 < free[i] < |m| && 0 < Size(m, free[i]) < 0x7FFF
    ensures m[free[i]].nfree == Ring(free, i + 1)
  {
    assert free[i] in free;
    assert LinkedAt(m, free, i);
  }

  lemma CarvedNothing(m: seq<Cell>, c: nat)
    requires c < |m| <= 0x8000 && Nx(m, c) < |m| && m[c].pfree < |m| && m[c].nfree < |m|
    requires m[c].pfree != c && m[c].nfree != c
    ensures var m' := CarveMem(m, c, 0);
            Nx(m', c) == c && forall b :: 0 <= b < |m| && b != c ==> Nx(m', b) == Nx(m, b)
  {}

  /** Carving nothing off a free block makes the block its own successor. */
  lemma CarveNothing(m: seq<Cell>, blocks: set<nat>, free: seq<nat>, i: nat)
    requires Inv(m, blocks, free) && i < |free|
    ensures m[free[i]].pfree < |m| && m[free[i]].nfree < |m|
    ensures m[free[i]].pfree != free[i] && m[free[i]].nfree != free[i]
    ensures Nx(m, free[i]) < |m|
    ensures !exists b, f :: Inv(CarveMem(m, free[i], 0), b, f)
  {
    var c := free[i];
    assert c in free;
    assert LinkedAt(m, free, i);
    assert c < Nx(m, c) < |m| && c < |m| - 1;
    hide Inv;
    var m' := CarveMem(m, c, 0);
    CarvedNothing(m, c);
    SelfLoopBreaks(m, blocks, free, m', c);
  }

  /** Splitting nothing off a live block and freeing the rest makes the block its own successor. */
  lemma SplitNothing(m: seq<Cell>, blocks: set<nat>, free: seq<nat>, c: nat)
    requires Inv(m, blocks, free) && c in Live(m, blocks)
    ensures 0 < c < |m| <= 0x8000 && Nx(m, c) < |m| && m[0].nfree < |m|
    ensures var m1 := SplitMem(m, c, 0, false);
            && m1[c].next == c && m1[c].prev == c && !Marked(m1[c].next) && m1[0].nfree < |m|
            && Broken(PushMem(m1, c))
  {
    assert c < Nx(m, c) < |m| && c < |m| - 1;
    assert m[0].nfree == Ring(free, 0) < |m|;
    var m1 := SplitMem(m, c, 0, false);
    var m' := PushMem(m1, c);
    assert Nx(m', c) == c;
    assert forall b :: b in blocks && b < c ==> Nx(m', b) == Nx(m, b);
    SelfLoopBreaks(m, blocks, free, m', c);
  }

  /** Taking `n` off the free list does not change whether another block is marked. */
  lemma SameMarks(m: seq<Cell>, blocks: set<nat>, free: seq<nat>, m': seq<Cell>, blocks': set<nat>, free': seq<nat>,
                  b: nat, n: nat)
    requires Inv(m, blocks, free) && Inv(m', blocks', free') && free' == Removed(free, n)
    requires b in blocks && b in blocks' && b != n
    ensures IsFree(m, b) == IsFree(m', b)
  {
    if n in free {
      WithoutElements(free, IndexOf(free, n));
    }
    assert IsFree(m, b) <==> b in free;
    assert IsFree(m', b) <==> b in free';
  }
}
