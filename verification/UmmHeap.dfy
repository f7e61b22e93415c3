/**
  The memory of the umm_malloc pool, as values, and its invariant.

  The pool is an array of 8-byte cells. A block is a run of cells; the first
  cell of a block holds the indices of the next and the previous block, the
  top bit of `next` marks the block free, and the second half of that cell holds
  either the free-list links (free blocks and block 0) or the first four bytes
  of user data. The cells after the first one are entirely user data, so a
  `Cell` inside a block has no meaning as a header.
 */
module UmmHeap {
  import opened Words

  datatype Cell = Cell(next: U16, prev: U16, nfree: U16, pfree: U16)

  const ZERO_CELL := Cell(0, 0, 0, 0)

  /** `word & UMM_FREELIST_MASK` is nonzero. */
  predicate Marked(word: U16) {
    word >= 0x8000
  }

  /** `word & UMM_BLOCKNO_MASK` */
  function BlockNo(word: U16): (r: U16)
    ensures r < 0x8000
  {
    if Marked(word) then word - 0x8000 else word
  }

  /** `word | UMM_FREELIST_MASK` when `mark` is set, and `word` otherwise. */
  function WithMark(word: U16, mark: bool): (r: U16) {
    if mark && !Marked(word) then word + 0x8000 else word
  }

  /** The block after `b` in the chain of all blocks. */
  function Nx(m: seq<Cell>, b: nat): (r: U16)
    requires b < |m|
  {
    BlockNo(m[b].next)
  }

  predicate IsFree(m: seq<Cell>, b: nat)
    requires b < |m|
  {
    Marked(m[b].next)
  }

  /** Number of cells of block `b`. */
  function Size(m: seq<Cell>, b: nat): (r: int)
    requires b < |m|
  {
    Nx(m, b) - b
  }

  // ---------------------------------------------------------------- invariant

  /** Every block start lies in the pool, and the two ends of the pool are block starts. */
  ghost predicate Bounds(m: seq<Cell>, blocks: set<nat>) {
    && 3 <= |m| <= 0x8000
    && 0 in blocks && |m| - 1 in blocks
    && (forall b :: b in blocks ==> b < |m|)
    && m[0].prev == 0 && m[|m| - 1].next == 0 && !IsFree(m, 0)
  }

  /** `next` leads upwards from block to block and `prev` mirrors it. */
  ghost predicate Links(m: seq<Cell>, blocks: set<nat>)
    requires Bounds(m, blocks)
  {
    forall b {:trigger Nx(m, b)} :: b in blocks && b < |m| - 1 ==>
      b < Nx(m, b) && Nx(m, b) in blocks && m[Nx(m, b)].prev == b
  }

  /** No block starts inside another one. */
  ghost predicate Gaps(m: seq<Cell>, blocks: set<nat>)
    requires Bounds(m, blocks)
  {
    forall b, x {:trigger Nx(m, b), x in blocks} :: b in blocks && x in blocks && b < x ==> Nx(m, b) <= x
  }

  /** No two neighbouring blocks are both free. */
  ghost predicate Coalesced(m: seq<Cell>, blocks: set<nat>)
    requires Bounds(m, blocks) && Links(m, blocks)
  {
    forall b {:trigger IsFree(m, Nx(m, b))} :: b in blocks && b < |m| - 1 && IsFree(m, b) ==> !IsFree(m, Nx(m, b))
  }

  /** `blocks` are the starts of all blocks of the pool. */
  ghost predicate Chain(m: seq<Cell>, blocks: set<nat>) {
    Bounds(m, blocks) && Links(m, blocks) && Gaps(m, blocks) && Coalesced(m, blocks)
  }

  /** Position `i` of the free list closed into a ring by block 0. */
  function Ring(free: seq<nat>, i: int): (r: nat) {
    if 0 <= i < |free| then free[i] else 0
  }

  ghost predicate Distinct(s: seq<nat>) {
    forall i, j :: 0 <= i < j < |s| ==> s[i] != s[j]
  }

  ghost predicate LinkedAt(m: seq<Cell>, free: seq<nat>, i: nat)
    requires i < |free| && free[i] < |m|
  {
    m[free[i]].nfree == Ring(free, i + 1) && m[free[i]].pfree == Ring(free, i - 1)
  }

  /** The links of block 0 and of the blocks in `free` form a doubly linked ring. */
  ghost predicate Linked(m: seq<Cell>, free: seq<nat>)
    requires |m| > 0
    requires forall i :: 0 <= i < |free| ==> free[i] < |m|
  {
    && m[0].nfree == Ring(free, 0)
    && m[0].pfree == Ring(free, |free| - 1)
    && (forall i {:trigger LinkedAt(m, free, i)} :: 0 <= i < |free| ==> LinkedAt(m, free, i))
  }

  /** A free list of distinct cells other than cell 0, closed into a ring by block 0. */
  ghost predicate FreeRing(m: seq<Cell>, free: seq<nat>) {
    && |m| > 0 && Distinct(free)
    && (forall i :: 0 <= i < |free| ==> 0 < free[i] < |m|)
    && Linked(m, free)
  }

  /** `free` lists the free blocks and nothing else. */
  ghost predicate Listed(m: seq<Cell>, blocks: set<nat>, free: seq<nat>)
    requires forall b :: b in blocks ==> b < |m|
  {
    && (forall b :: b in free ==> b in blocks && IsFree(m, b))
    && (forall b {:trigger IsFree(m, b)} :: b in blocks && IsFree(m, b) ==> b in free)
  }

  /** The invariant of the whole pool. */
  ghost predicate Inv(m: seq<Cell>, blocks: set<nat>, free: seq<nat>) {
    Chain(m, blocks) && FreeRing(m, free) && Listed(m, blocks, free)
  }

  /** The blocks handed out to callers. */
  ghost function Live(m: seq<Cell>, blocks: set<nat>): (r: set<nat>)
    requires forall b :: b in blocks ==> b < |m|
  {
    set b | b in blocks && 0 < b < |m| - 1 && !IsFree(m, b)
  }

  // ------------------------------------------------------------------ framing

  /** The user data of the cells `b .. e` is the same in both memories. */
  ghost predicate SameData(m: seq<Cell>, m': seq<Cell>, b: nat, e: nat)
    requires b < e <= |m| && |m| == |m'|
  {
    && m'[b].nfree == m[b].nfree && m'[b].pfree == m[b].pfree
    && (forall j :: b < j < e ==> m'[j] == m[j])
  }

  /** Block `b` is still handed out, with the same extent and the same data. */
  ghost predicate Kept(m: seq<Cell>, m': seq<Cell>, blocks': set<nat>, b: nat)
    requires b < |m| && b < Nx(m, b) <= |m| && |m| == |m'|
  {
    b in blocks' && !IsFree(m', b) && Nx(m', b) == Nx(m, b) && SameData(m, m', b, Nx(m, b))
  }

  /** Every block handed out before, except those in `touched`, is kept. */
  ghost predicate Frame(m: seq<Cell>, blocks: set<nat>, m': seq<Cell>, blocks': set<nat>, touched: set<nat>)
    requires Chain(m, blocks) && |m| == |m'|
  {
    forall b :: b in Live(m, blocks) && b !in touched ==> Kept(m, m', blocks', b)
  }

  // ------------------------------------------------------- memory transformers

  /** umm_split_block */
  function SplitMem(m: seq<Cell>, c: nat, k: nat, mark: bool): (r: seq<Cell>)
    requires c + k < |m| <= 0x8000 && Nx(m, c) < |m|
    ensures |r| == |m|
  {
    var n := Nx(m, c);
    var m1 := m[c + k := m[c + k].(next := WithMark(n, mark), prev := c)];
    var m2 := m1[n := m1[n].(prev := c + k)];
    m2[c := m2[c].(next := c + k)]
  }

  /** umm_disconnect_from_free_list */
  function UnlinkMem(m: seq<Cell>, c: nat): (r: seq<Cell>)
    requires c < |m| && m[c].pfree < |m| && m[c].nfree < |m|
    ensures |r| == |m|
  {
    var p, n := m[c].pfree, m[c].nfree;
    var m1 := m[p := m[p].(nfree := n)];
    var m2 := m1[n := m1[n].(pfree := p)];
    m2[c := m2[c].(next := BlockNo(m2[c].next))]
  }

  /** The merging half of umm_assimilate_up: block `c` swallows the block after it. */
  function MergeUpMem(m: seq<Cell>, c: nat): (r: seq<Cell>)
    requires c < |m| <= 0x8000 && m[c].next < |m| && Nx(m, m[c].next) < |m| && Nx(m, m[c].next) != c
    ensures |r| == |m|
  {
    var n := Nx(m, m[c].next);
    var m1 := m[n := m[n].(prev := c)];
    m1[c := m1[c].(next := n)]
  }

  /** umm_assimilate_down: the block before `c` swallows `c`. */
  function MergeDownMem(m: seq<Cell>, c: nat, mark: bool): (r: seq<Cell>)
    requires c < |m| && m[c].prev < |m| && m[c].next < |m| && m[c].prev != c
    ensures |r| == |m|
  {
    var p, n := m[c].prev, m[c].next;
    var m1 := m[p := m[p].(next := WithMark(n, mark))];
    m1[n := m1[n].(prev := p)]
  }

  /** The tail of umm_free: mark `c` and push it on the head of the free list. */
  function PushMem(m: seq<Cell>, c: nat): (r: seq<Cell>)
    requires 0 < c < |m| <= 0x8000 && m[0].nfree < |m|
    ensures |r| == |m|
  {
    var h := m[0].nfree;
    var m1 := m[h := m[h].(pfree := c)];
    var m2 := m1[c := m1[c].(nfree := m1[0].nfree, pfree := 0)];
    var m3 := m2[0 := m2[0].(nfree := c)];
    m3[c := m3[c].(next := WithMark(m3[c].next, true))]
  }

  /** The splitting branch of umm_malloc: the tail of free block `c` takes its
      place in the free list. */
  function CarveMem(m: seq<Cell>, c: nat, k: nat): (r: seq<Cell>)
    requires c + k < |m| <= 0x8000 && Nx(m, c) < |m|
    requires m[c].pfree < |m| && m[c].nfree < |m|
    requires m[c].pfree != c && m[c].nfree != c
    ensures |r| == |m|
  {
    var t := c + k;
    var m0 := SplitMem(m, c, k, true);
    var m1 := m0[m0[c].pfree := m0[m0[c].pfree].(nfree := t)];
    var m2 := m1[t := m1[t].(pfree := m1[c].pfree)];
    var m3 := m2[m2[c].nfree := m2[m2[c].nfree].(pfree := t)];
    m3[t := m3[t].(nfree := m3[c].nfree)]
  }

  // ------------------------------------------------------------- free-list edits

  function Without(free: seq<nat>, i: nat): (r: seq<nat>)
    requires i < |free|
  {
    free[..i] + free[i + 1..]
  }

  ghost function IndexOf(free: seq<nat>, c: nat): (i: nat)
    requires c in free
    ensures i < |free| && free[i] == c
  {
    var i :| 0 <= i < |free| && free[i] == c;
    i
  }
}
