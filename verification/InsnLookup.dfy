/**
  The lookup of an instruction's table entry by its identifier, through a cache that is built by
  the first call.
 */
module InsnLookup {
  import opened Words

  /** A table, given by the identifiers of its entries; the largest one is expected to be the last. */
  ghost predicate Table(ids: seq<U16>) {
    1 <= |ids| <= 0xFFFF && forall i :: 0 <= i < |ids| ==> ids[i] <= ids[|ids| - 1]
  }

  function MaxId(ids: seq<U16>): (r: int)
    requires |ids| > 0
  {
    ids[|ids| - 1]
  }

  /** The linear scan: the last entry other than entry 0 with this identifier, or 0. */
  function Scan(ids: seq<U16>, id: nat): (r: nat)
    ensures r == 0 || (0 < r < |ids| && ids[r] == id)
    ensures forall i :: r < i < |ids| && 0 < i ==> ids[i] != id
  {
    if |ids| <= 1 then 0
    else if ids[|ids| - 1] == id then |ids| - 1
    else Scan(ids[..|ids| - 1], id)
  }

  /** What a lookup yields when the memory of the cache held `memory` before it was filled. */
  function Lookup(ids: seq<U16>, memory: seq<U16>, id: nat): (r: nat)
    requires |ids| > 0 && |memory| == MaxId(ids) + 1
  {
    if id > MaxId(ids) then 0
    else if Scan(ids, id) != 0 then Scan(ids, id)
    else memory[id]
  }

  /** A client's pointer to the cache of one table. */
  class Cache {
    const ids: seq<U16>
    var entries: array?<U16>
    /** What the memory of the cache held when it was allocated. */
    ghost var memory: seq<U16>

    ghost predicate Valid()
      reads this, entries
    {
      && Table(ids)
      && (entries != null ==>
            && entries.Length == |memory| == MaxId(ids) + 1
            && forall id :: 0 <= id < entries.Length ==> entries[id] == Lookup(ids, memory, id))
    }

    constructor (ids: seq<U16>)
      requires Table(ids)
      ensures Valid() && this.ids == ids && entries == null
    {
      this.ids, entries, memory := ids, null, [];
    }

    /** make_id2insn. Entries of the allocated memory that no identifier selects stay as they are. */
    method Build() returns (cache: array<U16>, ghost found: seq<U16>)
      requires Table(ids)
      ensures fresh(cache) && cache.Length == |found| == MaxId(ids) + 1
      ensures forall id :: 0 <= id < cache.Length ==> cache[id] == Lookup(ids, found, id)
    {
      cache := new U16[MaxId(ids) + 1];
      found := cache[..];
      var i := 1;
      while i < |ids|
        invariant 1 <= i <= |ids|
        invariant forall id :: 0 <= id < cache.Length ==>
          cache[id] == if Scan(ids[..i], id) != 0 then Scan(ids[..i], id) else found[id]
      {
        assert ids[..i + 1][..i] == ids[..i];
        cache[ids[i]] := i;
        i := i + 1;
      }
      assert ids[..|ids|] == ids;
    }

    /** insn_find. */
    method Find(id: nat) returns (r: nat)
      requires Valid()
      modifies this
      ensures Valid()
      ensures if id > MaxId(ids) then r == 0 else entries != null && r == Lookup(ids, memory, id)
      ensures old(entries) != null || id > MaxId(ids) ==> entries == old(entries) && memory == old(memory)
      ensures old(entries) == null ==> entries == null || fresh(entries)
    {
      if id > MaxId(ids) {
        return 0;
      }
      if entries == null {
        entries, memory := Build();
      }
      r := entries[id];
    }
  }

  /** A lookup agrees with the linear scan for every identifier exactly when the memory was zero at every
      identifier that no entry, other than entry 0, has. */
  lemma AgreesWithScan(ids: seq<U16>, memory: seq<U16>)
    requires Table(ids) && |memory| == MaxId(ids) + 1
    ensures (forall id: nat :: Lookup(ids, memory, id) == Scan(ids, id)) <==>
            (forall id: nat :: id < |memory| && Scan(ids, id) == 0 ==> memory[id] == 0)
  {
    if forall id: nat :: Lookup(ids, memory, id) == Scan(ids, id) {
      forall id: nat | id < |memory| && Scan(ids, id) == 0
        ensures memory[id] == 0
      {
        assert Lookup(ids, memory, id) == Scan(ids, id);
      }
    }
  }

  /** With memory that is not zeroed, an identifier without an entry finds whatever was there. */
  lemma StaleMemory()
    ensures Table([0, 5]) && Scan([0, 5], 3) == 0 && Lookup([0, 5], [0, 0, 0, 9, 0, 0], 3) == 9
  {}
}
