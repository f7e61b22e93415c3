/** The streaming SHA-256 context: a buffer of one block, a bit counter and the hash value. */
module Sha256 {
  import opened Words
  import opened Sha256Spec

  /** What can be observed of a context: the unhashed tail, the bit counter and the hash value. */
  datatype Snapshot = Snapshot(tail: seq<Byte>, bitlen: nat, hash: seq<Word>)

  /** The context after the bytes `msg`, however they were split over calls: every whole block is in
      the hash value and counted with 512 bits, and the rest waits in the buffer. */
  function After(msg: seq<Byte>): (s: Snapshot)
    ensures |s.tail| == |msg| % 64 && |s.hash| == 8
  {
    var q := |msg| / 64;
    Snapshot(msg[64 * q..], 512 * q % TWO64, Chain(msg, q))
  }

  /** One byte of sha256_update. */
  function Absorb(s: Snapshot, x: Byte): (r: Snapshot)
    requires |s.tail| < 64 && |s.hash| == 8
    ensures |r.tail| < 64 && |r.hash| == 8
  {
    if |s.tail| < 63 then s.(tail := s.tail + [x])
    else Snapshot([], (s.bitlen + 512) % TWO64, Compress(s.hash, s.tail + [x]))
  }

  lemma AfterNothing()
    ensures After([]) == Snapshot([], 0, InitialHash())
  {
    hide InitialHash, Chain;
    ChainStart([]);
  }

  lemma AbsorbShort(msg: seq<Byte>, x: Byte)
    requires |msg| % 64 < 63
    ensures Absorb(After(msg), x) == After(msg + [x])
  {
    hide Chain;
    var q := |msg| / 64;
    assert |msg + [x]| / 64 == q;
    ChainPrefix(msg, [x], q);
    assert (msg + [x])[64 * q..] == msg[64 * q..] + [x];
  }

  lemma AbsorbBlock(msg: seq<Byte>, x: Byte)
    requires |msg| % 64 == 63
    ensures Absorb(After(msg), x) == After(msg + [x])
  {
    hide Compress;
    var q := |msg| / 64;
    var msg' := msg + [x];
    assert |msg'| / 64 == q + 1;
    ChainPrefix(msg, [x], q);
    assert msg'[64 * q..64 * (q + 1)] == msg[64 * q..] + [x];
    assert msg'[64 * (q + 1)..] == [];
    WrapAdd(512 * q, 512);
  }

  lemma WrapAdd(a: nat, b: nat)
    ensures (a % TWO64 + b) % TWO64 == (a + b) % TWO64
  {}

  /** Feeding one more byte gives the context after one more byte. */
  lemma AbsorbNext(msg: seq<Byte>, x: Byte)
    ensures Absorb(After(msg), x) == After(msg + [x])
  {
    if |msg| % 64 < 63 {
      AbsorbShort(msg, x);
    } else {
      AbsorbBlock(msg, x);
    }
  }

  /** sha256_update as a function of what can be observed. */
  function AbsorbAll(s: Snapshot, input: seq<Byte>): (r: Snapshot)
    requires |s.tail| < 64 && |s.hash| == 8
    ensures |r.tail| < 64 && |r.hash| == 8
    decreases |input|
  {
    if input == [] then s else Absorb(AbsorbAll(s, input[..|input| - 1]), input[|input| - 1])
  }

  /** Updating leaves the context after the whole message. */
  lemma {:induction false} AbsorbAllAfter(msg: seq<Byte>, input: seq<Byte>)
    ensures AbsorbAll(After(msg), input) == After(msg + input)
    decreases |input|
  {
    hide After, Absorb;
    if input == [] {
      assert msg + input == msg;
    } else {
      var front, x := input[..|input| - 1], input[|input| - 1];
      AbsorbAllAfter(msg, front);
      AbsorbNext(msg + front, x);
      assert msg + front + [x] == msg + input;
    }
  }

  /** How the input is split over calls does not matter. */
  lemma UpdateSplit(msg: seq<Byte>, a: seq<Byte>, b: seq<Byte>)
    ensures AbsorbAll(AbsorbAll(After(msg), a), b) == AbsorbAll(After(msg), a + b)
  {
    hide After, AbsorbAll;
    AbsorbAllAfter(msg, a);
    AbsorbAllAfter(msg + a, b);
    AbsorbAllAfter(msg, a + b);
    assert msg + a + b == msg + (a + b);
  }

  class Context {
    const data: array<Byte>
    var datalen: nat
    var bitlen: nat
    const state: array<Word>
    /** All bytes given to `Update` so far. */
    ghost var msg: seq<Byte>

    ghost predicate Shape()
      reads this
    {
      data.Length == 64 && state.Length == 8
    }

    ghost function Observed(): (s: Snapshot)
      reads this, data, state
      requires Shape() && datalen <= 64
    {
      Snapshot(data[..datalen], bitlen, state[..])
    }

    ghost predicate Valid()
      reads this, data, state
    {
      Shape() && datalen < 64 && Observed() == After(msg)
    }

    constructor ()
      ensures Shape() && fresh(data) && fresh(state)
    {
      data := new Byte[64];
      state := new Word[8];
      datalen, bitlen, msg := 0, 0, [];
    }

    /** sha256_init */
    method Init()
      requires Shape()
      modifies this, state
      ensures Valid() && msg == []
    {
      hide InitialHash, After;
      datalen, bitlen, msg := 0, 0, [];
      SetInitialHash();
      AfterNothing();
    }

    method SetInitialHash()
      requires Shape()
      modifies state
      ensures state[..] == InitialHash()
    {
      state[0] := 0x6a09e667;
      state[1] := 0xbb67ae85;
      state[2] := 0x3c6ef372;
      state[3] := 0xa54ff53a;
      state[4] := 0x510e527f;
      state[5] := 0x9b05688c;
      state[6] := 0x1f83d9ab;
      state[7] := 0x5be0cd19;
    }

    /** The message schedule of the block in `data`. */
    method Expand() returns (m: array<Word>)
      requires Shape()
      ensures fresh(m) && m.Length == 64
      ensures forall t :: 0 <= t < 64 ==> m[t] == Schedule(data[..], t)
    {
      hide Expansion, ToWord, Schedule;
      m := new Word[64];
      ghost var block := data[..];
      var i, j := 0, 0;
      while i < 16
        invariant 0 <= i <= 16 && j == 4 * i
        invariant forall t :: 0 <= t < i ==> m[t] == Schedule(block, t)
      {
        FirstWords(block, i);
        m[i] := ToWord(data[j], data[j + 1], data[j + 2], data[j + 3]);
        i, j := i + 1, j + 4;
      }
      while i < 64
        invariant 16 <= i <= 64
        invariant forall t :: 0 <= t < i ==> m[t] == Schedule(block, t)
      {
        LaterWords(block, i);
        m[i] := Expansion(m[i - 2], m[i - 7], m[i - 15], m[i - 16]);
        i := i + 1;
      }
    }

    /** sha256_transform */
    method Transform()
      requires Shape()
      modifies state
      ensures state[..] == Compress(old(state[..]), data[..])
    {
      hide Schedule, Rounds, Feed;
      var m := Expand();
      var v := Mix(m);
      AddBack(v);
    }

    /** Add the working variables to the hash value. */
    method AddBack(v: Vars)
      requires Shape()
      modifies state
      ensures state[..] == Feed(old(state[..]), v)
    {
      hide Add, Feed;
      ghost var h := state[..];
      state[0] := Add(state[0], v.a);
      state[1] := Add(state[1], v.b);
      state[2] := Add(state[2], v.c);
      state[3] := Add(state[3], v.d);
      state[4] := Add(state[4], v.e);
      state[5] := Add(state[5], v.f);
      state[6] := Add(state[6], v.g);
      state[7] := Add(state[7], v.h);
      FeedAll(h, v, state[..]);
    }

    /** The 64 rounds over the schedule `m`. */
    method Mix(m: array<Word>) returns (v: Vars)
      requires Shape() && m.Length == 64 && forall t :: 0 <= t < 64 ==> m[t] == Schedule(data[..], t)
      ensures v == Rounds(Load(state[..]), data[..], 64)
    {
      hide Schedule, Rounds, BigSigma0, BigSigma1, Ch, Maj, Constant, Add;
      ghost var block, v0 := data[..], Load(state[..]);
      var a, b, c, d, e, f, g, h := state[0], state[1], state[2], state[3], state[4], state[5], state[6], state[7];
      NoRounds(v0, block);
      for i := 0 to 64
        invariant Vars(a, b, c, d, e, f, g, h) == Rounds(v0, block, i)
      {
        NextRound(v0, block, i);
        var t1 := Add(Add(Add(Add(h, BigSigma1(e)), Ch(e, f, g)), Constant(i)), m[i]);
        var t2 := Add(BigSigma0(a), Maj(a, b, c));
        h := g;
        g := f;
        f := e;
        e := Add(d, t1);
        d := c;
        c := b;
        b := a;
        a := Add(t1, t2);
      }
      v := Vars(a, b, c, d, e, f, g, h);
    }

    /** The body of the loop of sha256_update. */
    method Push(x: Byte)
      requires Shape() && datalen < 64
      modifies this`datalen, this`bitlen, data, state
      ensures datalen < 64 && Observed() == Absorb(old(Observed()), x)
    {
      hide Compress;
      data[datalen] := x;
      datalen := datalen + 1;
      assert data[..datalen] == old(data[..datalen]) + [x];
      if datalen == 64 {
        assert data[..] == data[..datalen];
        Transform();
        bitlen := (bitlen + 512) % TWO64;
        datalen := 0;
      }
    }

    /** sha256_update. The loop index is a 32-bit word, so the call ends only for shorter inputs. */
    method Update(input: seq<Byte>)
      requires Valid() && |input| < 0x1_0000_0000
      modifies this, data, state
      ensures Valid() && msg == old(msg) + input
    {
      hide After, Absorb;
      for i := 0 to |input|
        invariant Valid() && msg == old(msg) + input[..i]
      {
        Push(input[i]);
        AbsorbNext(msg, input[i]);
        msg := msg + [input[i]];
      }
    }

    /** Zero bytes from `from` up to `to`. */
    method FillZeros(from: nat, to: nat)
      requires Shape() && from <= to <= 64
      modifies data
      ensures data[..to] == old(data[..from]) + Zeros(to - from)
    {
      var i := from;
      while i < to
        invariant from <= i <= to
        invariant data[..from] == old(data[..from]) && forall j :: from <= j < i ==> data[j] == 0
      {
        data[i] := 0;
        i := i + 1;
      }
    }

    /** The bit counter into the last eight bytes of the buffer. */
    method WriteLength()
      requires Shape()
      modifies data
      ensures data[..] == old(data[..56]) + BigEndian(bitlen, 8)
    {
      data[63] := ToByte(bitlen);
      data[62] := ToByte(ShiftRight(bitlen, 1));
      data[61] := ToByte(ShiftRight(bitlen, 2));
      data[60] := ToByte(ShiftRight(bitlen, 3));
      data[59] := ToByte(ShiftRight(bitlen, 4));
      data[58] := ToByte(ShiftRight(bitlen, 5));
      data[57] := ToByte(ShiftRight(bitlen, 6));
      data[56] := ToByte(ShiftRight(bitlen, 7));
      LengthBytes(data[56..], bitlen);
      assert data[..] == data[..56] + data[56..];
    }

    /** The hash value as bytes, the most significant byte of each word first. */
    method WriteHash(hash: array<Byte>)
      requires Shape() && hash.Length >= 32
      modifies hash
      ensures hash[..32] == HashBytes(state[..])
    {
      hide WordByte;
      for i := 0 to 4
        invariant forall j :: 0 <= j < i ==> RowWritten(hash[..], state[..], j)
      {
        ghost var before := hash[..];
        WriteRow(hash, i);
        forall j | 0 <= j < i
          ensures RowWritten(hash[..], state[..], j)
        {
          assert RowWritten(before, state[..], j);
        }
      }
      AllRowsWritten(hash[..], state[..]);
      assert hash[..32] == hash[..][..32];
    }

    /** Byte `i` of every word. */
    method WriteRow(hash: array<Byte>, i: nat)
      requires Shape() && hash.Length >= 32 && i < 4
      modifies hash
      ensures RowWritten(hash[..], state[..], i)
      ensures forall x :: 0 <= x < hash.Length && x % 4 != i ==> hash[x] == old(hash[x])
    {
      hide WordByte;
      hash[i] := WordByte(state[0], i);
      hash[i + 4] := WordByte(state[1], i);
      hash[i + 8] := WordByte(state[2], i);
      hash[i + 12] := WordByte(state[3], i);
      hash[i + 16] := WordByte(state[4], i);
      hash[i + 20] := WordByte(state[5], i);
      hash[i + 24] := WordByte(state[6], i);
      hash[i + 28] := WordByte(state[7], i);
    }

    /** Put the one bit and the zeros into the buffer; without room for the length, compress it and
        start another block. */
    method PadBuffer()
      requires Valid()
      modifies data, state
      ensures data[..56] == LastBlock(|msg|, old(data[..datalen]))
      ensures state[..] == HashBefore(|msg|, old(data[..datalen]), old(state[..]))
    {
      hide Compress, After;
      AfterShape(msg);
      ghost var tail := data[..datalen];
      data[datalen] := 0x80;
      assert data[..datalen + 1] == tail + [0x80];
      if datalen < 56 {
        FillZeros(datalen + 1, 56);
      } else {
        FillZeros(datalen + 1, 64);
        assert data[..] == data[..64];
        Transform();
        FillZeros(0, 56);
        assert data[..56] == [] + Zeros(56);
      }
    }

    /** sha256_final */
    method Final(hash: array<Byte>)
      requires Valid() && hash.Length >= 32 && hash != data
      modifies this, data, state, hash
      ensures hash[..32] == Digest(old(msg))
    {
      hide Compress, After, Chain, HashBytes, BigEndian, Digest, LastBlock, HashBefore;
      AfterShape(msg);
      ghost var tail, h0 := data[..datalen], state[..];
      PadBuffer();
      bitlen := (bitlen + datalen * 8) % TWO64;
      FinalLength(msg);
      WriteLength();
      Transform();
      DigestBlocks(msg, tail, h0);
      WriteHash(hash);
    }
  }

  function Concat(parts: seq<seq<Byte>>): (r: seq<Byte>) {
    if parts == [] then [] else Concat(parts[..|parts| - 1]) + parts[|parts| - 1]
  }

  /** Initialise, update with any parts, and finish: the digest of the parts put together. */
  method Hash(parts: seq<seq<Byte>>, hash: array<Byte>)
    requires hash.Length >= 32 && forall i :: 0 <= i < |parts| ==> |parts[i]| < 0x1_0000_0000
    modifies hash
    ensures hash[..32] == Digest(Concat(parts))
  {
    hide Digest, After;
    var ctx := new Context();
    ctx.Init();
    for i := 0 to |parts|
      invariant fresh(ctx) && fresh(ctx.data) && fresh(ctx.state) && ctx.Valid()
      invariant ctx.msg == Concat(parts[..i])
    {
      ctx.Update(parts[i]);
      assert parts[..i + 1][..i] == parts[..i];
    }
    assert parts[..|parts|] == parts;
    ctx.Final(hash);
  }

  lemma AfterShape(msg: seq<Byte>)
    ensures var s := After(msg);
            var q := |msg| / 64;
            |s.tail| == |msg| % 64 && s.tail == msg[64 * q..] && s.hash == Chain(msg, q) && s.bitlen == 512 * q % TWO64
  {
    hide Chain;
  }

  lemma FinalLength(msg: seq<Byte>)
    ensures (512 * (|msg| / 64) % TWO64 + (|msg| % 64) * 8) % TWO64 == 8 * |msg| % TWO64
  {
    WrapAdd(512 * (|msg| / 64), (|msg| % 64) * 8);
  }

  /** The last block without its length field, after a message of `n` bytes that leaves `tail`. */
  function LastBlock(n: nat, tail: seq<Byte>): (b: seq<Byte>)
    requires |tail| == n % 64
    ensures |b| == 56
  {
    if |tail| < 56 then tail + [0x80] + Zeros(55 - |tail|) else Zeros(56)
  }

  /** The hash value before the last block. */
  function HashBefore(n: nat, tail: seq<Byte>, h: seq<Word>): (r: seq<Word>)
    requires |tail| == n % 64 && |h| == 8
    ensures |r| == 8
  {
    if |tail| < 56 then h else Compress(h, tail + [0x80] + Zeros(63 - |tail|))
  }

  /** What follows the message in its padding. */
  function Padding(n: nat): (p: seq<Byte>)
    ensures |p| == 1 + PadZeros(n) + 8
  {
    [0x80] + Zeros(PadZeros(n)) + LengthField(n)
  }

  lemma PadParts(msg: seq<Byte>)
    ensures Pad(msg) == msg + Padding(|msg|)
  {
    hide LengthField, PadZeros;
  }

  lemma ShortParts(n: nat, tail: seq<Byte>)
    requires |tail| == n % 64 && |tail| < 56
    ensures |Padding(n)| == 64 - |tail|
    ensures tail + Padding(n) == LastBlock(n, tail) + LengthField(n)
  {
    hide LengthField;
    assert PadZeros(n) == 55 - |tail|;
  }

  lemma LongParts(n: nat, tail: seq<Byte>)
    requires |tail| == n % 64 && |tail| >= 56
    ensures |Padding(n)| == 128 - |tail|
    ensures tail + Padding(n)[..64 - |tail|] == tail + [0x80] + Zeros(63 - |tail|)
    ensures Padding(n)[64 - |tail|..] == LastBlock(n, tail) + LengthField(n)
  {
    hide LengthField;
    assert PadZeros(n) == 119 - |tail|;
    assert Padding(n)[..64 - |tail|] == [0x80] + Zeros(63 - |tail|);
  }

  /** The hash value after the block in which `a` ends. */
  lemma ChainAcross(a: seq<Byte>, b: seq<Byte>, q: nat, tail: seq<Byte>)
    requires q == |a| / 64 && tail == a[64 * q..] && |b| >= 64 - |tail|
    ensures 64 * (q + 1) <= |a + b|
    ensures Chain(a + b, q + 1) == Compress(Chain(a, q), tail + b[..64 - |tail|])
  {
    hide Chain, Compress;
    ChainStep(a + b, q);
    ChainPrefix(a, b, q);
    assert (a + b)[64 * q..64 * (q + 1)] == tail + b[..64 - |tail|];
  }

  lemma SliceBeyond<T>(a: seq<T>, b: seq<T>, i: nat, j: nat)
    requires |a| <= i <= j == |a + b|
    ensures (a + b)[i..j] == b[i - |a|..]
  {}

  /** The hash value after a last block that lies beyond `a`. */
  lemma ChainBeyond(a: seq<Byte>, b: seq<Byte>, n: nat)
    requires |a| <= 64 * n && |a| + |b| == 64 * (n + 1)
    ensures Chain(a + b, n + 1) == Compress(Chain(a + b, n), b[64 * n - |a|..])
  {
    hide Chain, Compress;
    SliceBeyond(a, b, 64 * n, 64 * (n + 1));
    ChainStep(a + b, n);
  }

  lemma DigestOf(msg: seq<Byte>, whole: seq<Byte>, n: nat, h: seq<Word>)
    requires whole == Pad(msg) && |whole| == 64 * n && h == Chain(whole, n)
    ensures Digest(msg) == HashBytes(h)
  {
    hide Chain, HashBytes, Pad;
    assert |Pad(msg)| / 64 == n;
  }

  lemma ShortDigest(msg: seq<Byte>, tail: seq<Byte>)
    requires tail == msg[64 * (|msg| / 64)..] && |tail| < 56
    ensures Digest(msg) ==
              HashBytes(Compress(HashBefore(|msg|, tail, Chain(msg, |msg| / 64)), LastBlock(|msg|, tail) + LengthField(|msg|)))
  {
    hide Chain, Compress, HashBytes, LengthField, Pad, Padding, LastBlock, Digest;
    var q, p := |msg| / 64, Padding(|msg|);
    PadParts(msg);
    ShortParts(|msg|, tail);
    ChainAcross(msg, p, q, tail);
    assert p[..64 - |tail|] == p;
    DigestOf(msg, msg + p, q + 1, Compress(Chain(msg, q), LastBlock(|msg|, tail) + LengthField(|msg|)));
  }

  lemma LongDigest(msg: seq<Byte>, tail: seq<Byte>)
    requires tail == msg[64 * (|msg| / 64)..] && |tail| >= 56
    ensures Digest(msg) ==
              HashBytes(Compress(HashBefore(|msg|, tail, Chain(msg, |msg| / 64)), LastBlock(|msg|, tail) + LengthField(|msg|)))
  {
    hide Chain, Compress, HashBytes, LengthField, Pad, Padding, LastBlock, Digest, Zeros, HashBefore;
    var q, p := |msg| / 64, Padding(|msg|);
    var h, last := HashBefore(|msg|, tail, Chain(msg, q)), LastBlock(|msg|, tail) + LengthField(|msg|);
    assert |msg + p| == 64 * (q + 2) && Chain(msg + p, q + 2) == Compress(h, last) by {
      LongParts(|msg|, tail);
      LongChain(msg, tail, p, q, tail + [0x80] + Zeros(63 - |tail|));
      LongBefore(|msg|, tail, Chain(msg, q));
    }
    PadParts(msg);
    DigestOf(msg, msg + p, q + 2, Compress(h, last));
  }

  lemma LongBefore(n: nat, tail: seq<Byte>, h: seq<Word>)
    requires |tail| == n % 64 && |tail| >= 56 && |h| == 8
    ensures HashBefore(n, tail, h) == Compress(h, tail + [0x80] + Zeros(63 - |tail|))
  {
    hide Compress, Zeros;
  }

  lemma LongChain(msg: seq<Byte>, tail: seq<Byte>, p: seq<Byte>, q: nat, block: seq<Byte>)
    requires q == |msg| / 64 && tail == msg[64 * q..] && |tail| >= 56 && |p| == 128 - |tail|
    requires block == tail + p[..64 - |tail|]
    ensures |msg + p| == 64 * (q + 2)
    ensures Chain(msg + p, q + 2) == Compress(Compress(Chain(msg, q), block), p[64 - |tail|..])
  {
    hide Chain, Compress;
    ChainAcross(msg, p, q, tail);
    ChainBeyond(msg, p, q + 1);
  }

  /** The digest, block by block. */
  lemma DigestBlocks(msg: seq<Byte>, tail: seq<Byte>, h: seq<Word>)
    requires tail == msg[64 * (|msg| / 64)..] && h == Chain(msg, |msg| / 64)
    ensures Digest(msg) ==
              HashBytes(Compress(HashBefore(|msg|, tail, h), LastBlock(|msg|, tail) + LengthField(|msg|)))
  {
    hide Chain, Compress, LengthField, HashBytes, Digest, LastBlock, HashBefore;
    if |tail| < 56 {
      ShortDigest(msg, tail);
    } else {
      LongDigest(msg, tail);
    }
  }

  /** Byte `j` of each of the eight words stands in its place. */
  ghost predicate RowWritten(b: seq<Byte>, h: seq<Word>, j: nat)
    requires |b| >= 32 && |h| == 8 && j < 4
  {
    && b[j] == WordByte(h[0], j) && b[j + 4] == WordByte(h[1], j)
    && b[j + 8] == WordByte(h[2], j) && b[j + 12] == WordByte(h[3], j)
    && b[j + 16] == WordByte(h[4], j) && b[j + 20] == WordByte(h[5], j)
    && b[j + 24] == WordByte(h[6], j) && b[j + 28] == WordByte(h[7], j)
  }

  lemma AllRowsWritten(b: seq<Byte>, h: seq<Word>)
    requires |b| >= 32 && |h| == 8
    requires forall j :: 0 <= j < 4 ==> RowWritten(b, h, j)
    ensures b[..32] == HashBytes(h)
  {
    hide WordByte;
    forall x | 0 <= x < 32
      ensures b[x] == HashBytes(h)[x]
    {
      var w, j := x / 4, x % 4;
      assert RowWritten(b, h, j) && x == 4 * w + j;
      if w == 0 {} else if w == 1 {} else if w == 2 {} else if w == 3 {} else if w == 4 {} else if w == 5 {} else if w == 6 {} else {}
    }
  }

  lemma LengthBytes(b: seq<Byte>, n: nat)
    requires |b| == 8
    requires b[7] == ToByte(n) && b[6] == ToByte(ShiftRight(n, 1)) && b[5] == ToByte(ShiftRight(n, 2))
    requires b[4] == ToByte(ShiftRight(n, 3)) && b[3] == ToByte(ShiftRight(n, 4)) && b[2] == ToByte(ShiftRight(n, 5))
    requires b[1] == ToByte(ShiftRight(n, 6)) && b[0] == ToByte(ShiftRight(n, 7))
    ensures b == BigEndian(n, 8)
  {
    BigEndianByte(n, 8, 0);
    BigEndianByte(n, 8, 1);
    BigEndianByte(n, 8, 2);
    BigEndianByte(n, 8, 3);
    BigEndianByte(n, 8, 4);
    BigEndianByte(n, 8, 5);
    BigEndianByte(n, 8, 6);
    BigEndianByte(n, 8, 7);
    hide ToByte, BigEndian, ShiftRight;
    EightElements(b);
    EightElements(BigEndian(n, 8));
  }
}
