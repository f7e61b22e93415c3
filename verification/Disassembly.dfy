/**
  The two ways of disassembling a buffer: cs_disasm, which fills a growing array, and
  cs_disasm_iter, which yields one instruction per call. The decoder of the architecture is a
  parameter.
 */
module Disassembly {
  import opened Words
  import opened ArrayGrowth

  const ADDRESSES: nat := 0x1_0000_0000_0000_0000
  /** Bytes kept in an instruction record. */
  const KEPT: nat := 16
  const FIRST_CHUNK: nat := 8

  /** A record of the output; `bytes` are the leading `size` bytes of its byte field. */
  datatype Insn = Insn(id: nat, address: nat, size: nat, bytes: seq<Byte>)

  datatype Decoded = Broken | Decoded(id: nat, size: nat)

  type Decoder = (seq<Byte>, nat) -> Decoded

  /** A decoder consumes at least one byte and no more than there are. */
  ghost predicate Decodes(decode: Decoder) {
    forall code: seq<Byte>, address: nat :: decode(code, address).Decoded? ==>
      1 <= decode(code, address).size <= |code| && decode(code, address).size < 0x1_0000
  }

  // ---------------------------------------------------------------------- the handle

  datatype Arch = Arm | Arm64 | Mips | X86 | Ppc | Sparc | SystemZ | XCore

  function SkipdataSize(arch: Arch, thumb: bool): (r: nat)
    ensures 1 <= r <= 4
  {
    match arch
    case Arm => if thumb then 2 else 4
    case Arm64 | Mips | Ppc | Sparc => 4
    case SystemZ | XCore => 2
    case X86 => 1
  }

  class Handle {
    const arch: Arch
    const decode: Decoder
    var thumb: bool
    var skipdata: bool
    var skipSize: nat

    /** Whenever data is skipped, it is skipped by 1 to 4 bytes. */
    ghost predicate Valid()
      reads this
    {
      Sound(this) && skipSize <= 4 && (skipdata ==> skipSize > 0)
    }

    constructor (arch: Arch, thumb: bool, decode: Decoder)
      requires Decodes(decode)
      ensures Valid() && this.arch == arch && this.thumb == thumb && this.decode == decode
      ensures !skipdata && skipSize == 0
    {
      this.arch, this.thumb, this.decode, skipdata, skipSize := arch, thumb, decode, false, 0;
    }

    /** The CS_OPT_SKIPDATA case of cs_option. The step is chosen once, when it is first switched on. */
    method SetSkipdata(on: bool)
      requires Valid()
      modifies this
      ensures Valid() && thumb == old(thumb) && skipdata == on
      ensures skipSize == if on && old(skipSize) == 0 then SkipdataSize(arch, thumb) else old(skipSize)
    {
      skipdata := on;
      if skipdata {
        if skipSize == 0 {
          skipSize := SkipdataSize(arch, thumb);
        }
      }
    }

    /** The number of bytes to skip at data, or 0. */
    function Skip(): (r: nat)
      reads this
    {
      if skipdata then skipSize else 0
    }
  }

  // --------------------------------------------------------------- the specification

  ghost predicate Sound(handle: Handle) {
    Decodes(handle.decode)
  }

  datatype Step = Stop | Next(insn: Insn, consumed: nat)

  /** Addresses have 64 bits. */
  function Forward(address: nat, n: nat): (r: nat)
    ensures r < ADDRESSES
  {
    (address + n) % ADDRESSES
  }

  /** The record for the beginning of `code`. */
  ghost function Record(handle: Handle, skip: nat, code: seq<Byte>, address: nat): (r: Step)
    requires Sound(handle)
    ensures r.Next? ==> 1 <= r.consumed <= |code|
    ensures r.Next? ==> r.insn.size == |r.insn.bytes| == Min(KEPT, r.consumed) || r.insn.size == |r.insn.bytes| == skip
  {
    var d := handle.decode(code, address);
    if d.Decoded? then
      var k := Min(KEPT, d.size);
      Next(Insn(d.id, address, k, code[d.size - k..d.size]), d.size)
    else if skip == 0 || skip > |code| then Stop
    else Next(Insn(0, address, skip, code[..skip]), skip)
  }

  /** All records of `code`. */
  ghost function Listing(handle: Handle, skip: nat, code: seq<Byte>, address: nat): (r: seq<Insn>)
    requires Sound(handle)
    decreases |code|
  {
    var s := Record(handle, skip, code, address);
    if s.Stop? then []
    else [s.insn] + Listing(handle, skip, code[s.consumed..], Forward(address, s.consumed))
  }

  /** The records a caller asking for `count` gets; 0 asks for all. */
  function Limited(all: seq<Insn>, count: nat): (r: seq<Insn>)
    ensures r <= all && |r| == if count == 0 then |all| else Min(count, |all|)
  {
    if count == 0 || count >= |all| then all else all[..count]
  }

  // ---------------------------------------------------------------------- one by one

  /** What cs_disasm_iter works on. */
  class Cursor {
    const handle: Handle
    var code: seq<Byte>
    var address: nat
    var insn: Insn

    constructor (handle: Handle, code: seq<Byte>, address: nat, insn: Insn)
      ensures this.handle == handle && this.code == code && this.address == address && this.insn == insn
    {
      this.handle, this.code, this.address, this.insn := handle, code, address, insn;
    }

    method Iter() returns (more: bool)
      requires handle.Valid()
      modifies this
      ensures var s := Record(handle, handle.Skip(), old(code), old(address));
              && more == s.Next?
              && (more ==> insn == s.insn && code == old(code)[s.consumed..] &&
                           address == Forward(old(address), s.consumed))
              && (!more ==> code == old(code) && address == old(address))
    {
      insn := insn.(address := address);
      var d := handle.decode(code, address);
      if d.Decoded? {
        var size := d.size;
        assert 1 <= size <= |code|;
        var copySize := Min(KEPT, size);
        insn := Insn(d.id, address, copySize, code[size - copySize..size]);
        code := code[size..];
        address := Forward(address, size);
      } else {
        if !handle.skipdata || handle.skipSize > |code| {
          return false;
        }
        var skipped := handle.skipSize;
        insn := Insn(0, address, skipped, code[..skipped]);
        code := code[skipped..];
        address := Forward(address, skipped);
      }
      more := true;
    }
  }

  /** After the first `c` of `all` come the records of `code`. */
  ghost predicate Progress(all: seq<Insn>, c: nat, handle: Handle, skip: nat, code: seq<Byte>, address: nat) {
    Sound(handle) && c <= |all| && all[c..] == Listing(handle, skip, code, address)
  }

  lemma ProgressStep(all: seq<Insn>, c: nat, handle: Handle, skip: nat, code: seq<Byte>, address: nat)
    requires Progress(all, c, handle, skip, code, address)
    ensures c <= |all|
    ensures var s := Record(handle, skip, code, address);
            && (s.Stop? <==> c == |all|)
            && (s.Next? ==> all[c] == s.insn &&
                            Progress(all, c + 1, handle, skip, code[s.consumed..], Forward(address, s.consumed)))
  {
    var s := Record(handle, skip, code, address);
    if s.Next? {
      var rest := Listing(handle, skip, code[s.consumed..], Forward(address, s.consumed));
      assert all[c..] == [s.insn] + rest;
      assert all[c] == all[c..][0] && all[c + 1..] == all[c..][1..] == rest;
    }
  }

  lemma ProgressStart(handle: Handle, skip: nat, code: seq<Byte>, address: nat)
    requires Sound(handle)
    ensures Progress(Listing(handle, skip, code, address), 0, handle, skip, code, address)
  {}

  /** Calls Iter until it has nothing more, or `count` records are there. */
  method Stepwise(handle: Handle, code: seq<Byte>, address: nat, count: nat) returns (records: seq<Insn>)
    requires handle.Valid()
    ensures records == Limited(Listing(handle, handle.Skip(), code, address), count)
  {
    hide Listing, Record, Progress, Sound, Forward;
    ghost var skip := handle.Skip();
    ghost var all := Listing(handle, skip, code, address);
    var cursor := new Cursor(handle, code, address, Insn(0, 0, 0, []));
    records := [];
    ProgressStart(handle, skip, code, address);
    while true
      invariant cursor.handle == handle && handle.Valid() && handle.Skip() == skip
      invariant |records| <= |all| && records == all[..|records|]
      invariant Progress(all, |records|, handle, skip, cursor.code, cursor.address)
      invariant count == 0 || |records| < count
      decreases |cursor.code|
    {
      ProgressStep(all, |records|, handle, skip, cursor.code, cursor.address);
      var more := cursor.Iter();
      if !more {
        return;
      }
      records := records + [cursor.insn];
      if |records| == count {
        return;
      }
    }
  }

  // ------------------------------------------------------------------ all in one call

  ghost predicate ProgressAt(all: seq<Insn>, c: nat, handle: Handle, skip: nat, code: seq<Byte>, pos: nat, address: nat) {
    pos <= |code| && Progress(all, c, handle, skip, code[pos..], address)
  }

  lemma ProgressAtStep(all: seq<Insn>, c: nat, handle: Handle, skip: nat, code: seq<Byte>, pos: nat, address: nat)
    requires ProgressAt(all, c, handle, skip, code, pos, address)
    ensures Sound(handle) && pos <= |code| && c <= |all|
    ensures var s := Record(handle, skip, code[pos..], address);
            && (s.Stop? <==> c == |all|)
            && (s.Next? ==> all[c] == s.insn && pos < pos + s.consumed <= |code|)
            && (s.Next? ==> ProgressAt(all, c + 1, handle, skip, code, pos + s.consumed, Forward(address, s.consumed)))
    ensures pos == |code| ==> c == |all|
  {
    ProgressStep(all, c, handle, skip, code[pos..], address);
    var s := Record(handle, skip, code[pos..], address);
    if s.Next? {
      assert code[pos..][s.consumed..] == code[pos + s.consumed..];
    }
  }

  lemma DecodedSize(handle: Handle, code: seq<Byte>, address: nat)
    requires Sound(handle)
    ensures var d := handle.decode(code, address); d.Decoded? ==> 1 <= d.size <= |code|
  {}

  /** Writes the record for the beginning of `code` to slot `at`; 0 means that there is none. */
  method FillSlot(handle: Handle, total: array<Insn>, at: nat, code: seq<Byte>, address: nat) returns (next: nat)
    requires handle.Valid() && at < total.Length
    modifies total
    ensures var s := Record(handle, handle.Skip(), code, address);
            if s.Stop? then next == 0 else next == s.consumed && total[at] == s.insn
    ensures forall i :: 0 <= i < total.Length && i != at ==> total[i] == old(total[i])
  {
    hide Decodes, Sound;
    DecodedSize(handle, code, address);
    total[at] := total[at].(address := address);
    var d := handle.decode(code, address);
    if d.Decoded? {
      next := d.size;
      var copySize := Min(KEPT, next);
      total[at] := Insn(d.id, address, copySize, code[next - copySize..next]);
    } else {
      if !handle.skipdata || handle.skipSize > |code| {
        return 0;
      }
      next := handle.skipSize;
      total[at] := Insn(0, address, next, code[..next]);
    }
  }

  /** realloc: the slots that fit are kept. */
  method Resize(a: array<Insn>, n: nat) returns (b: array<Insn>)
    ensures fresh(b) && b.Length == n
    ensures forall i :: 0 <= i < n && i < a.Length ==> b[i] == a[i]
  {
    b := new Insn[n];
    for i := 0 to Min(n, a.Length)
      invariant forall j :: 0 <= j < i ==> b[j] == a[j]
    {
      b[i] := a[i];
    }
  }

  /** The first `c` slots hold the first `c` of `all`, `f` of them in the last chunk, and the chunks to come
      have room for `limit` records. */
  ghost predicate Holds(slots: seq<Insn>, all: seq<Insn>, c: nat, f: nat, cacheSize: nat, limit: nat) {
    && f <= c <= limit && f <= cacheSize && |slots| == c - f + cacheSize
    && c <= |all| && slots[..c] == all[..c]
    && Roomy(cacheSize, limit - (c - f))
  }

  /** One pass of the loop of cs_disasm: slot `c` gets the next record, if there is one. */
  method Emit(handle: Handle, total: array<Insn>, c: nat, f: nat, cacheSize: nat, code: seq<Byte>, pos: nat, address: nat,
              ghost all: seq<Insn>, ghost skip: nat)
    returns (next: nat)
    requires handle.Valid() && handle.Skip() == skip
    requires c <= pos < |code| && (f < cacheSize || f == 0) && Holds(total[..], all, c, f, cacheSize, |code|)
    requires ProgressAt(all, c, handle, skip, code, pos, address)
    modifies total
    ensures next == 0 ==> c == |all| && Holds(total[..], all, c, f, cacheSize, |code|)
    ensures next > 0 ==> Holds(total[..], all, c + 1, f + 1, cacheSize, |code|) && pos + next <= |code|
    ensures next > 0 ==> ProgressAt(all, c + 1, handle, skip, code, pos + next, Forward(address, next))
  {
    hide Listing, Record, ProgressAt, Progress, Sound, Forward, Roomy;
    RoomyStep(cacheSize, |code| - (c - f));
    ProgressAtStep(all, c, handle, skip, code, pos, address);
    ghost var before := total[..];
    next := FillSlot(handle, total, c, code[pos..], address);
    assert total[..c] == before[..c];
    if next > 0 {
      assert total[..c + 1] == all[..c] + [all[c]] == all[..c + 1];
    }
  }

  /** A full chunk is followed by a larger one. */
  method NextSlot(total: array<Insn>, c: nat, f: nat, cacheSize: nat, ghost all: seq<Insn>, ghost limit: nat)
    returns (total': array<Insn>, f': nat, cacheSize': nat)
    requires f > 0 && Holds(total[..], all, c, f, cacheSize, limit)
    ensures total' == total || fresh(total')
    ensures (f' < cacheSize' || f' == 0) && Holds(total'[..], all, c, f', cacheSize', limit)
  {
    total', f', cacheSize' := total, f, cacheSize;
    RoomyStep(cacheSize, limit - (c - f));
    if f == cacheSize {
      hide Roomy, Enlarged;
      cacheSize' := Enlarged(cacheSize);
      total' := Resize(total, total.Length + cacheSize');
      f' := 0;
      assert total'[..c] == total[..c];
    }
  }

  lemma AtEnd(all: seq<Insn>, c: nat, handle: Handle, skip: nat, code: seq<Byte>, pos: nat, address: nat, count: nat)
    requires c <= |all| && (count == 0 || c <= count)
    requires c == |all| || c == count > 0 || (pos == |code| && ProgressAt(all, c, handle, skip, code, pos, address))
    ensures Limited(all, count) == all[..c]
  {
    if pos == |code| && ProgressAt(all, c, handle, skip, code, pos, address) {
      ProgressAtStep(all, c, handle, skip, code, pos, address);
    }
  }

  lemma Begin(handle: Handle, skip: nat, code: seq<Byte>, offset: nat, slots: seq<Insn>)
    requires Sound(handle) && Roomy(|slots|, |code|)
    ensures var all := Listing(handle, skip, code, offset);
            ProgressAt(all, 0, handle, skip, code, 0, offset) && Holds(slots, all, 0, 0, |slots|, |code|)
  {
    assert code[0..] == code;
  }

  /** The loop of cs_disasm: `c` records, `f` of them in the last chunk. */
  method Fill(handle: Handle, code: seq<Byte>, offset: nat, count: nat, first: nat)
    returns (total: array<Insn>, c: nat, f: nat, cacheSize: nat)
    requires handle.Valid() && 1 <= first <= 8
    ensures fresh(total)
    ensures var all := Listing(handle, handle.Skip(), code, offset);
            Holds(total[..], all, c, f, cacheSize, |code|) && Limited(all, count) == all[..c]
  {
    hide Listing, Record, ProgressAt, Progress, Sound, Forward, Roomy, Enlarged, Limited, Holds;
    ghost var skip := handle.Skip();
    ghost var all := Listing(handle, skip, code, offset);
    c, f, cacheSize := 0, 0, first;
    total := new Insn[cacheSize];
    var pos: nat, address := 0, offset;
    AlwaysRoomy(first, |code|);
    Begin(handle, skip, code, offset, total[..]);
    while pos < |code|
      invariant c <= pos <= |code| && (f < cacheSize || f == 0) && (count == 0 || c < count)
      invariant fresh(total)
      invariant Holds(total[..], all, c, f, cacheSize, |code|)
      invariant ProgressAt(all, c, handle, skip, code, pos, address)
    {
      var next := Emit(handle, total, c, f, cacheSize, code, pos, address, all, skip);
      if next == 0 {
        break;
      }
      f := f + 1;
      c := c + 1;
      if count > 0 && c == count {
        break;
      }
      total, f, cacheSize := NextSlot(total, c, f, cacheSize, all, |code|);
      pos := pos + next;
      address := Forward(address, next);
    }
    assert c <= |all| by {
      Unpack(total[..], all, c, f, cacheSize, |code|);
    }
    AtEnd(all, c, handle, skip, code, pos, address, count);
  }

  lemma Unpack(slots: seq<Insn>, all: seq<Insn>, c: nat, f: nat, cacheSize: nat, limit: nat)
    requires Holds(slots, all, c, f, cacheSize, limit)
    ensures f <= c <= |all| && f <= cacheSize && |slots| == c - f + cacheSize && slots[..c] == all[..c]
  {}

  /** Gives back the slots of the last chunk that are not used. */
  method Shrink(total: array<Insn>, c: nat, f: nat, cacheSize: nat) returns (insns: array<Insn>)
    requires f <= c && f <= cacheSize && total.Length == c - f + cacheSize
    ensures insns == total || fresh(insns)
    ensures insns.Length == c && insns[..] == old(total[..c])
  {
    insns := total;
    if f != cacheSize {
      insns := Resize(total, total.Length - (cacheSize - f));
    }
  }

  /** cs_disasm. With `sysMem` a small `count` decides the size of the first chunk. */
  method Batch(handle: Handle, code: seq<Byte>, offset: nat, count: nat, sysMem: bool) returns (c: nat, insns: array?<Insn>)
    requires handle.Valid()
    ensures c == 0 <==> insns == null
    ensures insns != null ==> fresh(insns) && insns.Length == c
    ensures (if insns == null then [] else insns[..]) == Limited(Listing(handle, handle.Skip(), code, offset), count)
  {
    var total, f, cacheSize;
    total, c, f, cacheSize :=
      Fill(handle, code, offset, count, if sysMem && 0 < count <= FIRST_CHUNK then count else FIRST_CHUNK);
    hide Listing, Limited, Roomy;
    assert total[..][..c] == total[..c];
    if c == 0 {
      return c, null;
    }
    insns := Shrink(total, c, f, cacheSize);
  }

  /** Both ways give the same records. */
  method BothWays(handle: Handle, code: seq<Byte>, offset: nat, count: nat, sysMem: bool) returns (same: bool)
    requires handle.Valid()
    ensures same
  {
    var c, insns := Batch(handle, code, offset, count, sysMem);
    var records := Stepwise(handle, code, offset, count);
    hide Listing, Limited;
    same := records == if insns == null then [] else insns[..];
  }

  // --------------------------------------------------------- what the records tell

  /** The number of bytes behind the first `i` records. */
  ghost function Consumed(handle: Handle, skip: nat, code: seq<Byte>, address: nat, i: nat): (r: nat)
    requires Sound(handle) && i <= |Listing(handle, skip, code, address)|
    ensures r <= |code|
    decreases |code|
  {
    if i == 0 then 0
    else
      var s := Record(handle, skip, code, address);
      s.consumed + Consumed(handle, skip, code[s.consumed..], Forward(address, s.consumed), i - 1)
  }

  lemma ForwardTwice(address: nat, a: nat, b: nat)
    ensures Forward(Forward(address, a), b) == Forward(address, a + b)
  {}

  lemma ListingStep(handle: Handle, skip: nat, code: seq<Byte>, address: nat, i: nat)
    requires Sound(handle) && 0 < i <= |Listing(handle, skip, code, address)|
    ensures var s := Record(handle, skip, code, address);
            && s.Next? && s.consumed <= |code|
            && var code', address' := code[s.consumed..], Forward(address, s.consumed);
            && Listing(handle, skip, code, address) == [s.insn] + Listing(handle, skip, code', address')
            && Consumed(handle, skip, code, address, i) == s.consumed + Consumed(handle, skip, code', address', i - 1)
  {}

  lemma ConsumedNothing(handle: Handle, skip: nat, code: seq<Byte>, address: nat)
    requires Sound(handle) && address < ADDRESSES
    ensures Consumed(handle, skip, code, address, 0) == 0 && code[0..] == code && Forward(address, 0) == address
  {}

  /** Going on behind the first `i` records gives the remaining ones. */
  lemma {:induction false} Resume(handle: Handle, skip: nat, code: seq<Byte>, address: nat, i: nat)
    requires Sound(handle) && address < ADDRESSES && i <= |Listing(handle, skip, code, address)|
    ensures var p := Consumed(handle, skip, code, address, i);
            Listing(handle, skip, code, address)[i..] == Listing(handle, skip, code[p..], Forward(address, p))
    decreases |code|
  {
    hide Listing, Consumed, Record, Forward, Sound;
    if i == 0 {
      ConsumedNothing(handle, skip, code, address);
    } else {
      ListingStep(handle, skip, code, address, i);
      var s := Record(handle, skip, code, address);
      var code', address' := code[s.consumed..], Forward(address, s.consumed);
      Resume(handle, skip, code', address', i - 1);
      var p := Consumed(handle, skip, code', address', i - 1);
      ForwardTwice(address, s.consumed, p);
      assert code'[p..] == code[s.consumed + p..];
    }
  }

  lemma {:induction false} ConsumedStep(handle: Handle, skip: nat, code: seq<Byte>, address: nat, i: nat)
    requires Sound(handle) && address < ADDRESSES && i < |Listing(handle, skip, code, address)|
    ensures var p := Consumed(handle, skip, code, address, i);
            var s := Record(handle, skip, code[p..], Forward(address, p));
            s.Next? && Consumed(handle, skip, code, address, i + 1) == p + s.consumed
    decreases |code|
  {
    hide Listing, Consumed, Record, Forward, Sound;
    if i == 0 {
      ConsumedNothing(handle, skip, code, address);
      ListingStep(handle, skip, code, address, 1);
      ConsumedNothing(handle, skip, code[Record(handle, skip, code, address).consumed..],
                      Forward(address, Record(handle, skip, code, address).consumed));
    } else {
      ListingStep(handle, skip, code, address, i);
      ListingStep(handle, skip, code, address, i + 1);
      var s := Record(handle, skip, code, address);
      var code', address' := code[s.consumed..], Forward(address, s.consumed);
      ConsumedStep(handle, skip, code', address', i - 1);
      var p := Consumed(handle, skip, code', address', i - 1);
      ForwardTwice(address, s.consumed, p);
      assert code'[p..] == code[s.consumed + p..];
    }
  }

  lemma RecordBytes(handle: Handle, skip: nat, code: seq<Byte>, p: nat, address: nat)
    requires Sound(handle) && p <= |code| && Record(handle, skip, code[p..], address).Next? && skip <= KEPT
    ensures var s := Record(handle, skip, code[p..], address);
            && s.insn.address == address && s.consumed <= |code| - p
            && s.insn.size == |s.insn.bytes| == Min(KEPT, s.consumed)
            && s.insn.bytes == code[p + s.consumed - s.insn.size..p + s.consumed]
            && match handle.decode(code[p..], address) {
                 case Decoded(id, size) => s.insn.id == id && s.consumed == size
                 case Broken => s.insn.id == 0 && s.consumed == skip > 0
               }
  {}

  /** Record `i` describes the bytes behind the first `i` records: its address is where they start, and its
      bytes are the last of them, 16 at most. Its id is what the decoder says of these bytes, and it covers as many
      as the decoder says; data that is skipped has id 0 and the size of one step. */
  lemma RecordAt(handle: Handle, skip: nat, code: seq<Byte>, address: nat, i: nat)
    requires Sound(handle) && skip <= KEPT && address < ADDRESSES && i < |Listing(handle, skip, code, address)|
    ensures var insn := Listing(handle, skip, code, address)[i];
            var p := Consumed(handle, skip, code, address, i);
            var q := Consumed(handle, skip, code, address, i + 1);
            && p < q <= |code| && insn.address == (address + p) % 0x1_0000_0000_0000_0000
            && insn.size == Min(16, q - p) && insn.bytes == code[q - insn.size..q]
            && match handle.decode(code[p..], insn.address) {
                 case Decoded(id, size) => insn.id == id && q - p == size
                 case Broken => insn.id == 0 && q - p == skip > 0
               }
  {
    hide Listing, Consumed, Record, Sound;
    Resume(handle, skip, code, address, i);
    ConsumedStep(handle, skip, code, address, i);
    var p := Consumed(handle, skip, code, address, i);
    ListingStep(handle, skip, code[p..], Forward(address, p), 1);
    RecordBytes(handle, skip, code, p, Forward(address, p));
    assert Listing(handle, skip, code, address)[i] == Listing(handle, skip, code, address)[i..][0];
  }

  /** The records cover the code up to the first place that can neither be decoded nor skipped; with skipping
      switched on, less than one step is left. */
  lemma Covered(handle: Handle, skip: nat, code: seq<Byte>, address: nat)
    requires Sound(handle) && address < ADDRESSES
    ensures var p := Consumed(handle, skip, code, address, |Listing(handle, skip, code, address)|);
            && handle.decode(code[p..], Forward(address, p)).Broken?
            && (skip > 0 ==> |code| - p < skip)
            && (skip == 1 ==> p == |code|)
  {
    Resume(handle, skip, code, address, |Listing(handle, skip, code, address)|);
  }

  /** The records skip data by whole instruction alignments: 4 bytes where instructions have 4 bytes, 2 where they
      can have 2, single bytes on X86. */
  ghost predicate SkipsAligned(handle: Handle, skip: nat, code: seq<Byte>, address: nat)
    requires Sound(handle)
    reads handle
  {
    var all := Listing(handle, skip, code, address);
    forall i :: 0 <= i < |all| && handle.decode(code[Consumed(handle, skip, code, address, i)..], all[i].address).Broken? ==>
      && all[i].id == 0
      && |all[i].bytes| == match handle.arch {
                             case Arm64 | Mips | Ppc | Sparc => 4
                             case Arm => if handle.thumb then 2 else 4
                             case SystemZ | XCore => 2
                             case X86 => 1
                           }
  }

  lemma StepsAligned(handle: Handle, skip: nat, code: seq<Byte>, address: nat)
    requires Sound(handle) && address < ADDRESSES && skip == SkipdataSize(handle.arch, handle.thumb)
    ensures SkipsAligned(handle, skip, code, address)
    ensures handle.arch.X86? ==>
              Consumed(handle, skip, code, address, |Listing(handle, skip, code, address)|) == |code|
  {
    hide Listing, Consumed, Forward, Sound;
    Covered(handle, skip, code, address);
    var all := Listing(handle, skip, code, address);
    forall i | 0 <= i < |all| && handle.decode(code[Consumed(handle, skip, code, address, i)..], all[i].address).Broken?
      ensures all[i].id == 0 && |all[i].bytes| == skip
    {
      RecordAt(handle, skip, code, address, i);
    }
  }

  /** A handle that skips data from the start: what it yields where the decoder refuses, and on X86 it leaves out
      nothing. */
  method SkipFresh(arch: Arch, thumb: bool, decode: Decoder, code: seq<Byte>, address: nat)
    returns (handle: Handle, records: seq<Insn>)
    requires Decodes(decode) && address < ADDRESSES
    ensures fresh(handle) && handle.Valid() && handle.arch == arch && handle.thumb == thumb && handle.decode == decode
    ensures records == Listing(handle, handle.Skip(), code, address)
    ensures SkipsAligned(handle, handle.Skip(), code, address)
    ensures arch.X86? ==> Consumed(handle, handle.Skip(), code, address, |records|) == |code|
  {
    hide Listing, Consumed, SkipsAligned;
    handle := new Handle(arch, thumb, decode);
    handle.SetSkipdata(true);
    records := Stepwise(handle, code, address, 0);
    StepsAligned(handle, handle.Skip(), code, address);
  }
}
