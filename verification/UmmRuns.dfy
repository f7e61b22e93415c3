/**
  Whole runs of the allocator, seen by a client that stores bytes in the blocks it
  was given and remembers what it stored.
 */
module UmmRuns {
  import opened Words
  import opened UmmHeap
  import opened UmmProofs
  import opened UmmPlaces
  import opened UmmAllocator

  /** The largest request whose cell count fits 16 bits. */
  const MAX_SIZE := 8 * 65535 - 4

  // ----------------------------------------------------------------- bytes of cells

  function Half(word: U16, high: bool): (b: Byte) {
    if high then word / 0x100 else word % 0x100
  }

  function WithHalf(word: U16, high: bool, b: Byte): (r: U16)
    ensures Half(r, high) == b && Half(r, !high) == Half(word, !high)
  {
    if high then b * 0x100 + word % 0x100 else word / 0x100 * 0x100 + b
  }

  /** Byte `lane` of a cell in memory order; words are little-endian. */
  function CellByte(c: Cell, lane: nat): (b: Byte)
    requires lane < 8
  {
    var high := lane % 2 == 1;
    if lane < 2 then Half(c.next, high) else if lane < 4 then Half(c.prev, high)
    else if lane < 6 then Half(c.nfree, high) else Half(c.pfree, high)
  }

  function WithCellByte(c: Cell, lane: nat, b: Byte): (r: Cell)
    requires lane < 8
    ensures forall l :: 0 <= l < 8 ==> CellByte(r, l) == if l == lane then b else CellByte(c, l)
    ensures lane >= 4 ==> r.next == c.next && r.prev == c.prev
  {
    var high := lane % 2 == 1;
    if lane < 2 then c.(next := WithHalf(c.next, high, b))
    else if lane < 4 then c.(prev := WithHalf(c.prev, high, b))
    else if lane < 6 then c.(nfree := WithHalf(c.nfree, high, b))
    else c.(pfree := WithHalf(c.pfree, high, b))
  }

  /** Byte `j` of the data of block `c`. */
  function DataByte(m: seq<Cell>, c: nat, j: nat): (b: Byte)
    requires c + (4 + j) / 8 < |m|
  {
    CellByte(m[c + (4 + j) / 8], (4 + j) % 8)
  }

  lemma MovedBytes(m: seq<Cell>, c: nat, m': seq<Cell>, c': nat, len: nat, j: nat)
    requires 0 < len && c + len <= |m| && c' + len <= |m'| && Moved(m, c, m', c', len)
    requires j < Capacity(len)
    ensures DataByte(m', c', j) == DataByte(m, c, j)
  {
    var q := (4 + j) / 8;
    if q > 0 {
      assert m'[c' + 1..c' + len][q - 1] == m[c + 1..c + len][q - 1];
    }
  }

  lemma KeptBytes(m: seq<Cell>, m': seq<Cell>, blocks': set<nat>, c: nat, j: nat)
    requires c < |m| && c < Nx(m, c) <= |m| && |m'| == |m| && Kept(m, m', blocks', c)
    requires j < Capacity(Size(m, c))
    ensures DataByte(m', c, j) == DataByte(m, c, j)
  {}

  // ---------------------------------------------------------------- a client's view

  /** What a client knows of a block: the size it asked for and the bytes it stored. */
  datatype Record = Record(size: nat, stored: map<nat, Byte>)

  datatype Op =
    | Malloc(size: nat)
    | Free(block: nat)
    | Realloc(block: nat, size: nat)
    | Store(block: nat, index: nat, value: Byte)

  ghost predicate RecordHolds(m: seq<Cell>, c: nat, r: Record)
    requires c < |m| && c < Nx(m, c) <= |m|
  {
    && r.size <= Capacity(Size(m, c))
    && (forall j :: j in r.stored ==> j < r.size && DataByte(m, c, j) == r.stored[j])
  }

  /** The client's table lists exactly the live blocks, each as large as requested and
      holding every byte stored in it. */
  ghost predicate Agrees(m: seq<Cell>, blocks: set<nat>, table: map<nat, Record>)
    requires Chain(m, blocks)
  {
    && table.Keys == Live(m, blocks)
    && (forall c :: c in table ==> RecordHolds(m, c, table[c]))
  }

  lemma FrameRecord(m: seq<Cell>, m': seq<Cell>, blocks': set<nat>, c: nat, r: Record)
    requires c < |m| && c < Nx(m, c) <= |m| && |m'| == |m| && Kept(m, m', blocks', c)
    requires RecordHolds(m, c, r)
    ensures RecordHolds(m', c, r)
  {
    forall j | j in r.stored
      ensures DataByte(m', c, j) == r.stored[j]
    {
      KeptBytes(m, m', blocks', c, j);
    }
  }

  lemma FrameTable(m: seq<Cell>, blocks: set<nat>, m': seq<Cell>, blocks': set<nat>, touched: set<nat>,
                   table: map<nat, Record>)
    requires Chain(m, blocks) && Chain(m', blocks') && |m'| == |m|
    requires Agrees(m, blocks, table) && Frame(m, blocks, m', blocks', touched)
    ensures forall c :: c in table && c !in touched ==> c < Nx(m', c) <= |m| && RecordHolds(m', c, table[c])
  {
    forall c | c in table && c !in touched
      ensures c < Nx(m', c) <= |m| && RecordHolds(m', c, table[c])
    {
      assert Kept(m, m', blocks', c);
      FrameRecord(m, m', blocks', c, table[c]);
    }
  }

  /** The bytes stored below `limit`. */
  function Below(stored: map<nat, Byte>, limit: nat): (r: map<nat, Byte>) {
    map j | j in stored && j < limit :: stored[j]
  }

  lemma MovedRecord(m: seq<Cell>, c: nat, m': seq<Cell>, c': nat, len: nat, r: Record, size: nat)
    requires c < |m| && c < Nx(m, c) <= |m| && c' < |m'| && c' < Nx(m', c') <= |m'|
    requires 0 < len <= Size(m, c) && len <= Size(m', c') && Moved(m, c, m', c', len)
    requires len == Size(m, c) || len == Size(m', c')
    requires RecordHolds(m, c, r) && size <= Capacity(Size(m', c'))
    ensures RecordHolds(m', c', Record(size, Below(r.stored, size)))
  {
    forall j | j in Below(r.stored, size)
      ensures DataByte(m', c', j) == r.stored[j]
    {
      MovedBytes(m, c, m', c', len, j);
    }
  }

  // ---------------------------------------------------------------------- runs

  /** The pool and the client's table at one moment. */
  datatype Moment = Moment(m: seq<Cell>, blocks: set<nat>, free: seq<nat>, table: map<nat, Record>)

  ghost predicate Sound(s: Moment) {
    Inv(s.m, s.blocks, s.free) && Agrees(s.m, s.blocks, s.table)
  }

  ghost function Now(pool: Pool, table: map<nat, Record>): (s: Moment)
    reads pool, pool.cells
  {
    Moment(pool.cells[..], pool.blocks, pool.free, table)
  }

  /** No free block is large enough for `size` bytes. */
  ghost predicate Exhausted(s: Moment, size: nat)
    requires Sound(s)
  {
    NoneFits(FreeSizes(s.m, s.free), UmmBlocks(size))
  }

  /** How a request changes pool and table. A request that names a block the client does not own, or more than
      MAX_SIZE bytes, is not made. Malloc fails, with no effect, exactly if the size is 0 or no free block is large
      enough, and otherwise hands out the block it picks; realloc fails, with no effect, exactly if neither the
      block with its free neighbours nor any free block is large enough, and otherwise the block is found where
      `Resettled` says. */
  ghost predicate ClientStep(bestFit: bool, op: Op, s: Moment, s': Moment)
    requires Sound(s)
  {
    var t, t' := s.table, s'.table;
    match op
    case Malloc(size) =>
      if size == 0 || size > MAX_SIZE || Exhausted(s, size) then s' == s
      else exists i: nat :: && Picked(FreeSizes(s.m, s.free), UmmBlocks(size), bestFit, i)
                            && Allocated(s.m, s.blocks, s.free, i, UmmBlocks(size), s'.m, s'.blocks, s'.free)
                            && s.free[i] !in t && t' == t[s.free[i] := Record(size, map[])]
    case Free(c) => if c in t then Returned(c, s, s') else s' == s
    case Realloc(c, size) =>
      if c !in t || size > MAX_SIZE then s' == s
      else if size == 0 then Returned(c, s, s')
      else if Reach(s.m, c) < UmmBlocks(size) && Exhausted(s, size) then s' == s
      else exists i: nat, c': nat ::
             && Resettled(s.m, s.blocks, s.free, c, UmmBlocks(size), bestFit, i, DataOf(c'), s'.blocks, s'.free)
             && c' !in t - {c} && t' == (t - {c})[c' := Record(size, Below(t[c].stored, size))]
    case Store(c, j, v) =>
      if c in t && j < t[c].size then
        s'.blocks == s.blocks && s'.free == s.free && t' == t[c := t[c].(stored := t[c].stored[j := v])]
      else s' == s
  }

  ghost predicate Returned(c: nat, s: Moment, s': Moment)
    requires Sound(s) && c in s.table
  {
    Freed(s.m, s.blocks, s.free, c, s'.m, s'.blocks, s'.free) && s'.table == s.table - {c}
  }

  method StepMalloc(pool: Pool, table: map<nat, Record>, size: nat) returns (table': map<nat, Record>)
    requires pool.Valid() && Agrees(pool.cells[..], pool.blocks, table) && size <= MAX_SIZE
    modifies pool, pool.cells
    ensures pool.Valid() && Agrees(pool.cells[..], pool.blocks, table')
    ensures ClientStep(pool.bestFit, Malloc(size), old(Now(pool, table)), Now(pool, table'))
  {
    hide Links, Gaps, Coalesced, FreeRing, Listed;
    ghost var m, b, f := pool.cells[..], pool.blocks, pool.free;
    BlocksSuffice(size);
    ghost var i;
    var p;
    p, i := pool.Malloc(size);
    table' := table;
    if p.At? {
      ghost var m' := pool.cells[..];
      FrameTable(m, b, m', pool.blocks, {}, table);
      assert p.addr / 8 == f[i] && p.addr / 8 in Live(m', pool.blocks);
      table' := table[p.addr / 8 := Record(size, map[])];
    }
  }

  method StepFree(pool: Pool, table: map<nat, Record>, c: nat) returns (table': map<nat, Record>)
    requires pool.Valid() && Agrees(pool.cells[..], pool.blocks, table) && c in table
    modifies pool, pool.cells
    ensures pool.Valid() && Agrees(pool.cells[..], pool.blocks, table')
    ensures ClientStep(pool.bestFit, Free(c), old(Now(pool, table)), Now(pool, table'))
  {
    ghost var m, b := pool.cells[..], pool.blocks;
    pool.Free(DataOf(c));
    FrameTable(m, b, pool.cells[..], pool.blocks, {c}, table);
    table' := table - {c};
  }

  lemma ResizedTable(m: seq<Cell>, blocks: set<nat>, m': seq<Cell>, blocks': set<nat>, free': seq<nat>,
                     c: nat, c': nat, len: nat, size: nat, table: map<nat, Record>)
    requires Chain(m, blocks) && Agrees(m, blocks, table) && c in table && 0 < len <= Size(m, c)
    requires Resized(m, blocks, c, m', blocks', free', c', len)
    requires len == Size(m, c) || len == Size(m', c')
    requires size <= Capacity(Size(m', c'))
    ensures Agrees(m', blocks', (table - {c})[c' := Record(size, Below(table[c].stored, size))])
  {
    FrameTable(m, blocks, m', blocks', {c}, table);
    MovedRecord(m, c, m', c', len, table[c], size);
  }

  method StepRealloc(pool: Pool, table: map<nat, Record>, c: nat, size: nat) returns (table': map<nat, Record>)
    requires pool.Valid() && Agrees(pool.cells[..], pool.blocks, table) && c in table && size <= MAX_SIZE
    modifies pool, pool.cells
    ensures pool.Valid() && Agrees(pool.cells[..], pool.blocks, table')
    ensures ClientStep(pool.bestFit, Realloc(c, size), old(Now(pool, table)), Now(pool, table'))
  {
    hide Links, Gaps, Coalesced, FreeRing, Listed, Resettled, Reach, NoneFits;
    ghost var m, b := pool.cells[..], pool.blocks;
    BlocksSuffice(size);
    ghost var i;
    var p;
    p, i := pool.Realloc(DataOf(c), size);
    table' := table;
    if size == 0 {
      FrameTable(m, b, pool.cells[..], pool.blocks, {c}, table);
      table' := table - {c};
    } else if p.At? {
      var c' := p.addr / 8;
      ghost var k := UmmBlocks(size);
      ghost var len := if Size(m, c) < k then Size(m, c) else k;
      ResizedTable(m, b, pool.cells[..], pool.blocks, pool.free, c, c', len, size, table);
      table' := (table - {c})[c' := Record(size, Below(table[c].stored, size))];
    }
  }

  /** The client writes a byte of a block it owns. */
  method StepStore(pool: Pool, table: map<nat, Record>, c: nat, j: nat, v: Byte) returns (table': map<nat, Record>)
    requires pool.Valid() && Agrees(pool.cells[..], pool.blocks, table) && c in table && j < table[c].size
    modifies pool.cells
    ensures pool.Valid() && Agrees(pool.cells[..], pool.blocks, table')
    ensures ClientStep(pool.bestFit, Store(c, j, v), old(Now(pool, table)), Now(pool, table'))
  {
    ghost var m := pool.cells[..];
    StoreTable(m, pool.blocks, pool.free, c, j, v, table);
    var x, lane := c + (4 + j) / 8, (4 + j) % 8;
    pool.cells[x] := WithCellByte(pool.cells[x], lane, v);
    assert pool.cells[..] == StoreMem(m, c, j, v);
    table' := table[c := table[c].(stored := table[c].stored[j := v])];
  }

  function StoreMem(m: seq<Cell>, c: nat, j: nat, v: Byte): (r: seq<Cell>)
    requires c + (4 + j) / 8 < |m|
    ensures |r| == |m|
  {
    var x := c + (4 + j) / 8;
    m[x := WithCellByte(m[x], (4 + j) % 8, v)]
  }

  lemma StoredByte(m: seq<Cell>, c: nat, j: nat, v: Byte, i: nat)
    requires c + (4 + j) / 8 < |m| && c + (4 + i) / 8 < |m|
    ensures DataByte(StoreMem(m, c, j, v), c, i) == if i == j then v else DataByte(m, c, i)
  {
    assert i != j ==> (4 + i) / 8 != (4 + j) / 8 || (4 + i) % 8 != (4 + j) % 8;
  }

  lemma StoredRecord(m: seq<Cell>, c: nat, j: nat, v: Byte, r: Record)
    requires c < |m| && c < Nx(m, c) <= |m| && RecordHolds(m, c, r) && j < r.size
    ensures c + (4 + j) / 8 < Nx(m, c) && Written(m, StoreMem(m, c, j, v), c)
    ensures RecordHolds(StoreMem(m, c, j, v), c, r.(stored := r.stored[j := v]))
  {
    forall i | i in r.stored[j := v]
      ensures i < r.size && DataByte(StoreMem(m, c, j, v), c, i) == r.stored[j := v][i]
    {
      StoredByte(m, c, j, v, i);
    }
  }

  lemma StoreTable(m: seq<Cell>, blocks: set<nat>, free: seq<nat>, c: nat, j: nat, v: Byte, table: map<nat, Record>)
    requires Inv(m, blocks, free) && Agrees(m, blocks, table) && c in table && j < table[c].size
    ensures c + (4 + j) / 8 < |m|
    ensures var m' := StoreMem(m, c, j, v);
            Inv(m', blocks, free) && Agrees(m', blocks, table[c := table[c].(stored := table[c].stored[j := v])])
  {
    assert c < Nx(m, c) < |m|;
    StoredRecord(m, c, j, v, table[c]);
    var m' := StoreMem(m, c, j, v);
    Write(m, m', blocks, free, c);
    FrameTable(m, blocks, m', blocks, {c}, table);
  }

  /** Any run of requests and stores from a fresh pool, with the client's table after every step: the pool stays
      valid, the live blocks are those the client holds, each is as large as requested, no two overlap, and
      every stored byte can be read back. */
  method Run(n: nat, bestFit: bool, ops: seq<Op>) returns (pool: Pool, table: map<nat, Record>, ghost history: seq<Moment>)
    requires 3 <= n <= 0x8000
    ensures pool.Valid() && pool.cells.Length == n
    ensures |history| == |ops| + 1 && history[0] == Moment(InitMem(n), {0, 1, n - 1}, [1], map[])
    ensures forall i :: 0 <= i <= |ops| ==> Sound(history[i])
    ensures forall i :: 0 <= i < |ops| ==> ClientStep(bestFit, ops[i], history[i], history[i + 1])
    ensures history[|ops|] == Now(pool, table)
    ensures forall c, d :: c in table && d in table && c < d ==> 0 < c < d < n - 1 && Nx(pool.cells[..], c) <= d
  {
    hide ClientStep, Sound, Agrees, Inv;
    pool := new Pool(n, bestFit);
    table := map[];
    history := [Now(pool, table)];
    EmptyTable(pool);
    for i := 0 to |ops|
      invariant fresh(pool) && fresh(pool.cells) && pool.cells.Length == n && pool.bestFit == bestFit
      invariant |history| == i + 1 && history[0] == Moment(InitMem(n), {0, 1, n - 1}, [1], map[])
      invariant history[i] == Now(pool, table)
      invariant forall j :: 0 <= j <= i ==> Sound(history[j])
      invariant forall j :: 0 <= j < i ==> ClientStep(bestFit, ops[j], history[j], history[j + 1])
    {
      SoundNow(pool, table);
      table := Serve(pool, table, ops[i]);
      SoundNow(pool, table);
      history := history + [Now(pool, table)];
    }
    SoundNow(pool, table);
    RunDisjoint(pool, table);
  }

  lemma SoundNow(pool: Pool, table: map<nat, Record>)
    ensures Sound(Now(pool, table)) <==> pool.Valid() && Agrees(pool.cells[..], pool.blocks, table)
  {}

  lemma EmptyTable(pool: Pool)
    requires pool.Valid() && pool.Used() == {}
    ensures Agrees(pool.cells[..], pool.blocks, map[]) && Sound(Now(pool, map[]))
  {}

  lemma RunDisjoint(pool: Pool, table: map<nat, Record>)
    requires pool.Valid() && Agrees(pool.cells[..], pool.blocks, table)
    ensures forall c, d :: c in table && d in table && c < d ==>
                             0 < c < Nx(pool.cells[..], c) <= d < pool.cells.Length - 1
  {
    LiveDisjoint(pool.cells[..], pool.blocks);
  }

  method Serve(pool: Pool, table: map<nat, Record>, op: Op) returns (table': map<nat, Record>)
    requires pool.Valid() && Agrees(pool.cells[..], pool.blocks, table)
    modifies pool, pool.cells
    ensures pool.Valid() && Agrees(pool.cells[..], pool.blocks, table')
    ensures ClientStep(pool.bestFit, op, old(Now(pool, table)), Now(pool, table'))
  {
    table' := table;
    match op {
      case Malloc(size) =>
        if size <= MAX_SIZE {
          table' := StepMalloc(pool, table, size);
        }
      case Free(c) =>
        if c in table {
          table' := StepFree(pool, table, c);
        }
      case Realloc(c, size) =>
        if c in table && size <= MAX_SIZE {
          table' := StepRealloc(pool, table, c, size);
        }
      case Store(c, j, v) =>
        if c in table && j < table[c].size {
          table' := StepStore(pool, table, c, j, v);
        }
    }
  }

  /** Live blocks lie strictly between the two end cells and do not overlap. */
  lemma LiveDisjoint(m: seq<Cell>, blocks: set<nat>)
    requires Chain(m, blocks)
    ensures forall c :: c in Live(m, blocks) ==> 0 < c < Nx(m, c) <= |m| - 1
    ensures forall c, d {:trigger c in Live(m, blocks), d in Live(m, blocks)} ::
              c in Live(m, blocks) && d in Live(m, blocks) && c < d ==> Nx(m, c) <= d
  {}

  /** The neighbours of a block just handed out: the one before is in use, the one after is
      free exactly if it was split off. */
  lemma AllocatedNeighbours(m: seq<Cell>, blocks: set<nat>, free: seq<nat>, i: nat, k: nat,
                            m': seq<Cell>, blocks': set<nat>, free': seq<nat>)
    requires Inv(m, blocks, free) && i < |free| && Allocated(m, blocks, free, i, k, m', blocks', free')
    ensures m'[free[i]].prev < |m'| && !IsFree(m', m'[free[i]].prev)
    ensures Nx(m', free[i]) == free[i] + k < |m'|
    ensures IsFree(m', free[i] + k) <==> Size(m, free[i]) != k
    ensures Size(m, free[i]) != k ==> free[i] + k !in blocks
  {
    hide Frame, Linked;
    var c := free[i];
    assert c in free;
    PrevFrom(m, blocks, 0, c);
    PrevFrom(m', blocks', 0, c);
    WithoutElements(free, i);
    var p := m'[c].prev;
    assert p == m[c].prev;
    assert !IsFree(m, p);
    assert p !in free';
    assert !IsFree(m, Nx(m, c));
    assert c in Live(m', blocks');
    assert c < Nx(m', c) && Nx(m', c) in blocks';
    if Size(m, c) == k {
      assert c + k !in free';
    } else {
      assert free'[i] == c + k;
      assert c + k in free';
    }
  }

  lemma BackInList(free: seq<nat>, i: nat, n: nat, free': seq<nat>)
    requires Distinct(free) && i < |free| && n !in free
    requires free' == Without(free, i) || free' == free[i := n]
    ensures forall b :: b in [free[i]] + Removed(free', n) <==> b in free
  {
    WithoutElements(free, i);
    if free' == free[i := n] {
      ReplaceDistinct(free, i, n);
      assert free'[i] == n;
      WithoutElements(free', IndexOf(free', n));
      forall b | b in free && b != free[i]
        ensures b in free'
      {
        assert free'[IndexOf(free, b)] == b;
      }
    }
  }

  /** A successful malloc followed by free of its result restores the block partition and
      the set of free blocks. */
  method MallocThenFree(pool: Pool, size: nat) returns (p: Ptr)
    requires pool.Valid() && UmmBlocks(size) != 0
    modifies pool, pool.cells
    ensures pool.Valid() && pool.Used() == old(pool.Used())
    ensures pool.blocks == old(pool.blocks)
    ensures forall b :: b in pool.free <==> b in old(pool.free)
    ensures Frame(old(pool.cells[..]), old(pool.blocks), pool.cells[..], pool.blocks, {})
  {
    ghost var m0, b0, f0 := pool.cells[..], pool.blocks, pool.free;
    ghost var i;
    p, i := pool.Malloc(size);
    if p.At? {
      ghost var m1, b1, f1 := pool.cells[..], pool.blocks, pool.free;
      assert f0[i] in Live(m1, b1);
      pool.Free(p);
      Restored(m0, b0, f0, i, UmmBlocks(size), m1, b1, f1, pool.cells[..], pool.blocks, pool.free);
    }
  }

  lemma Restored(m0: seq<Cell>, b0: set<nat>, f0: seq<nat>, i: nat, k: nat, m1: seq<Cell>, b1: set<nat>, f1: seq<nat>,
                 m2: seq<Cell>, b2: set<nat>, f2: seq<nat>)
    requires Inv(m0, b0, f0) && i < |f0| && 0 < k <= Size(m0, f0[i])
    requires Allocated(m0, b0, f0, i, k, m1, b1, f1)
    requires Freed(m1, b1, f1, f0[i], m2, b2, f2)
    ensures b2 == b0 && Live(m2, b2) == Live(m0, b0) && Frame(m0, b0, m2, b2, {})
    ensures forall b :: b in f2 <==> b in f0
  {
    hide Links, Gaps, Coalesced, Linked, Distinct;
    AllocatedNeighbours(m0, b0, f0, i, k, m1, b1, f1);
    RestoredFrame(m0, b0, m1, b1, m2, b2, f0[i]);
    FreedAlone(m1, b1, f1, f0[i], m2, b2, f2);
    var n: nat := Nx(m1, f0[i]);
    assert f1 == Without(f0, i) || f1 == f0[i := n];
    assert f2 == [f0[i]] + Removed(f1, n);
    RestoredList(m0, b0, f0, i, n, f1, f2);
  }

  /** A block freed behind a block in use becomes the head of the free list. */
  lemma FreedAlone(m: seq<Cell>, blocks: set<nat>, free: seq<nat>, c: nat, m': seq<Cell>, blocks': set<nat>,
                   free': seq<nat>)
    requires Inv(m, blocks, free) && c in Live(m, blocks) && Freed(m, blocks, free, c, m', blocks', free')
    requires m[c].prev < |m| && !IsFree(m, m[c].prev)
    ensures free' == [c] + Removed(free, Nx(m, c))
  {}

  lemma RestoredList(m: seq<Cell>, blocks: set<nat>, free: seq<nat>, i: nat, n: nat, free': seq<nat>, free'': seq<nat>)
    requires Inv(m, blocks, free) && i < |free| && free[i] < n <= Nx(m, free[i])
    requires free' == Without(free, i) || free' == free[i := n]
    requires free'' == [free[i]] + Removed(free', n)
    ensures forall b :: b in free'' <==> b in free
  {
    AfterFree(m, blocks, free, i, n);
    BackInList(free, i, n, free');
  }

  lemma RestoredFrame(m0: seq<Cell>, b0: set<nat>, m1: seq<Cell>, b1: set<nat>, m2: seq<Cell>, b2: set<nat>, c: nat)
    requires Chain(m0, b0) && Chain(m1, b1) && |m0| == |m1| == |m2| && c !in Live(m0, b0)
    requires Frame(m0, b0, m1, b1, {}) && Frame(m1, b1, m2, b2, {c})
    ensures Frame(m0, b0, m2, b2, {})
  {
    FrameTransitive(m0, b0, m1, b1, m2, b2, {c});
  }

  /** What follows a free block, or lies inside it, is not on the free list. */
  lemma AfterFree(m: seq<Cell>, blocks: set<nat>, free: seq<nat>, i: nat, n: nat)
    requires Inv(m, blocks, free) && i < |free| && free[i] < n <= Nx(m, free[i])
    ensures n !in free
  {
    assert free[i] in free;
    assert !IsFree(m, Nx(m, free[i]));
  }
}
