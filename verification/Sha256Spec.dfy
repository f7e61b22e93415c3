/**
  SHA-256 as sections 4.1.2, 5.1.1, 5.3.3 and 6.2.2 of FIPS 180-4 define it: the padded message
  is cut into blocks of 64 bytes, and the compression function is folded over them.
 */
module Sha256Spec {
  import opened Words

  type Word = bv32

  // ------------------------------------------------------- the operations on words

  function And(x: Word, y: Word): (r: Word) {
    x & y
  }

  function Or(x: Word, y: Word): (r: Word) {
    x | y
  }

  function Xor(x: Word, y: Word): (r: Word) {
    x ^ y
  }

  function Not(x: Word): (r: Word) {
    !x
  }

  function Right(x: Word, n: Word): (r: Word)
    requires n < 32
  {
    x >> n
  }

  function Left(x: Word, n: Word): (r: Word)
    requires n < 32
  {
    x << n
  }

  /** Addition modulo 2^32. */
  function Add(x: Word, y: Word): (r: Word) {
    x + y
  }

  function Rotr(x: Word, n: Word): (r: Word)
    requires 0 < n < 32
  {
    Or(Right(x, n), Left(x, 32 - n))
  }

  // ----------------------------------------------------------- functions and constants

  function Ch(x: Word, y: Word, z: Word): (r: Word) {
    Xor(And(x, y), And(Not(x), z))
  }

  function Maj(x: Word, y: Word, z: Word): (r: Word) {
    Xor(Xor(And(x, y), And(x, z)), And(y, z))
  }

  function BigSigma0(x: Word): (r: Word) {
    Xor(Xor(Rotr(x, 2), Rotr(x, 13)), Rotr(x, 22))
  }

  function BigSigma1(x: Word): (r: Word) {
    Xor(Xor(Rotr(x, 6), Rotr(x, 11)), Rotr(x, 25))
  }

  function SmallSigma0(x: Word): (r: Word) {
    Xor(Xor(Rotr(x, 7), Rotr(x, 18)), Right(x, 3))
  }

  function SmallSigma1(x: Word): (r: Word) {
    Xor(Xor(Rotr(x, 17), Rotr(x, 19)), Right(x, 10))
  }

  /** The round constants, in rows of eight. */
  function ConstantRow(r: nat): (row: seq<Word>)
    requires r < 8
    ensures |row| == 8
  {
    if r == 0 then [0x428a2f98, 0x71374491, 0xb5c0fbcf, 0xe9b5dba5, 0x3956c25b, 0x59f111f1, 0x923f82a4, 0xab1c5ed5]
    else if r == 1 then [0xd807aa98, 0x12835b01, 0x243185be, 0x550c7dc3, 0x72be5d74, 0x80deb1fe, 0x9bdc06a7, 0xc19bf174]
    else if r == 2 then [0xe49b69c1, 0xefbe4786, 0x0fc19dc6, 0x240ca1cc, 0x2de92c6f, 0x4a7484aa, 0x5cb0a9dc, 0x76f988da]
    else if r == 3 then [0x983e5152, 0xa831c66d, 0xb00327c8, 0xbf597fc7, 0xc6e00bf3, 0xd5a79147, 0x06ca6351, 0x14292967]
    else if r == 4 then [0x27b70a85, 0x2e1b2138, 0x4d2c6dfc, 0x53380d13, 0x650a7354, 0x766a0abb, 0x81c2c92e, 0x92722c85]
    else if r == 5 then [0xa2bfe8a1, 0xa81a664b, 0xc24b8b70, 0xc76c51a3, 0xd192e819, 0xd6990624, 0xf40e3585, 0x106aa070]
    else if r == 6 then [0x19a4c116, 0x1e376c08, 0x2748774c, 0x34b0bcb5, 0x391c0cb3, 0x4ed8aa4a, 0x5b9cca4f, 0x682e6ff3]
    else [0x748f82ee, 0x78a5636f, 0x84c87814, 0x8cc70208, 0x90befffa, 0xa4506ceb, 0xbef9a3f7, 0xc67178f2]
  }

  function Constant(t: nat): (k: Word)
    requires t < 64
  {
    ConstantRow(t / 8)[t % 8]
  }

  /** The initial hash value. */
  function InitialHash(): (h: seq<Word>)
    ensures |h| == 8
  {
    [0x6a09e667, 0xbb67ae85, 0x3c6ef372, 0xa54ff53a, 0x510e527f, 0x9b05688c, 0x1f83d9ab, 0x5be0cd19]
  }

  // ------------------------------------------------------------ words and bytes

  /** Four bytes as a big-endian word. */
  function ToWord(b0: Byte, b1: Byte, b2: Byte, b3: Byte): (w: Word) {
    ((b0 as Word) << 24) | ((b1 as Word) << 16) | ((b2 as Word) << 8) | (b3 as Word)
  }

  /** Byte `i` of a word, the most significant one first. */
  function WordByte(w: Word, i: nat): (b: Byte)
    requires i < 4
  {
    ((w >> (24 - 8 * i)) as int) % 0x100
  }

  // ---------------------------------------------------------------- compression

  /** A later word of the message schedule, from the words 2, 7, 15 and 16 places before it. */
  function Expansion(w2: Word, w7: Word, w15: Word, w16: Word): (w: Word) {
    Add(Add(Add(SmallSigma1(w2), w7), SmallSigma0(w15)), w16)
  }

  /** Word `t` of the message schedule. */
  function Schedule(block: seq<Byte>, t: nat): (w: Word)
    requires |block| == 64
  {
    if t < 16 then ToWord(block[4 * t], block[4 * t + 1], block[4 * t + 2], block[4 * t + 3])
    else
      Expansion(Schedule(block, t - 2), Schedule(block, t - 7), Schedule(block, t - 15), Schedule(block, t - 16))
  }

  lemma FirstWords(block: seq<Byte>, t: nat)
    requires |block| == 64 && t < 16
    ensures Schedule(block, t) == ToWord(block[4 * t], block[4 * t + 1], block[4 * t + 2], block[4 * t + 3])
  {
    hide ToWord;
  }

  lemma LaterWords(block: seq<Byte>, t: nat)
    requires |block| == 64 && 16 <= t
    ensures Schedule(block, t) ==
              Expansion(Schedule(block, t - 2), Schedule(block, t - 7), Schedule(block, t - 15), Schedule(block, t - 16))
  {
    hide ToWord, Expansion;
  }

  datatype Vars = Vars(a: Word, b: Word, c: Word, d: Word, e: Word, f: Word, g: Word, h: Word)

  function Round(v: Vars, k: Word, w: Word): (r: Vars) {
    var t1 := Add(Add(Add(Add(v.h, BigSigma1(v.e)), Ch(v.e, v.f, v.g)), k), w);
    var t2 := Add(BigSigma0(v.a), Maj(v.a, v.b, v.c));
    Vars(Add(t1, t2), v.a, v.b, v.c, Add(v.d, t1), v.e, v.f, v.g)
  }

  /** The working variables after `t` rounds. */
  function Rounds(v: Vars, block: seq<Byte>, t: nat): (r: Vars)
    requires |block| == 64 && t <= 64
  {
    if t == 0 then v else Round(Rounds(v, block, t - 1), Constant(t - 1), Schedule(block, t - 1))
  }

  lemma NoRounds(v: Vars, block: seq<Byte>)
    requires |block| == 64
    ensures Rounds(v, block, 0) == v
  {}

  lemma NextRound(v: Vars, block: seq<Byte>, t: nat)
    requires |block| == 64 && t < 64
    ensures Rounds(v, block, t + 1) == Round(Rounds(v, block, t), Constant(t), Schedule(block, t))
  {
    hide Round, Constant, Schedule;
  }

  function Load(h: seq<Word>): (v: Vars)
    requires |h| == 8
  {
    Vars(h[0], h[1], h[2], h[3], h[4], h[5], h[6], h[7])
  }

  function Feed(h: seq<Word>, v: Vars): (r: seq<Word>)
    requires |h| == 8
    ensures |r| == 8
  {
    [Add(h[0], v.a), Add(h[1], v.b), Add(h[2], v.c), Add(h[3], v.d),
     Add(h[4], v.e), Add(h[5], v.f), Add(h[6], v.g), Add(h[7], v.h)]
  }

  lemma FeedAll(h: seq<Word>, v: Vars, r: seq<Word>)
    requires |h| == 8 && |r| == 8
    requires r[0] == Add(h[0], v.a) && r[1] == Add(h[1], v.b) && r[2] == Add(h[2], v.c) && r[3] == Add(h[3], v.d)
    requires r[4] == Add(h[4], v.e) && r[5] == Add(h[5], v.f) && r[6] == Add(h[6], v.g) && r[7] == Add(h[7], v.h)
    ensures r == Feed(h, v)
  {
    hide Add;
    EightElements(r);
  }

  lemma EightElements<T>(s: seq<T>)
    requires |s| == 8
    ensures s == [s[0], s[1], s[2], s[3], s[4], s[5], s[6], s[7]]
  {}

  /** One block into the hash value. */
  function Compress(h: seq<Word>, block: seq<Byte>): (r: seq<Word>)
    requires |h| == 8 && |block| == 64
    ensures |r| == 8
  {
    Feed(h, Rounds(Load(h), block, 64))
  }

  /** The hash value after the first `q` blocks of `bytes`. */
  function Chain(bytes: seq<Byte>, q: nat): (h: seq<Word>)
    requires 64 * q <= |bytes|
    ensures |h| == 8
  {
    if q == 0 then InitialHash() else Compress(Chain(bytes, q - 1), bytes[64 * (q - 1)..64 * q])
  }

  // -------------------------------------------------------------------- padding

  function Zeros(n: nat): (z: seq<Byte>)
    ensures |z| == n
  {
    seq(n, _ => 0)
  }

  const TWO64: nat := 0x1_0000_0000_0000_0000

  function ToByte(n: nat): (b: Byte) {
    n % 0x100
  }

  /** The last `k` bytes of `n` in big-endian order. */
  function BigEndian(n: nat, k: nat): (b: seq<Byte>)
    ensures |b| == k
  {
    if k == 0 then [] else BigEndian(n / 0x100, k - 1) + [ToByte(n)]
  }

  /** The number of zero bytes: the least that leaves eight bytes to a multiple of 64. */
  function PadZeros(n: nat): (k: nat)
    ensures k < 64 && (n + 1 + k) % 64 == 56
  {
    (119 - n % 64) % 64
  }

  lemma PadZerosLeast(n: nat, j: nat)
    requires (n + 1 + j) % 64 == 56
    ensures PadZeros(n) <= j
  {
    assert (n + 1 + PadZeros(n)) % 64 == 56;
  }

  /** The length in bits of a message of `n` bytes, in eight bytes. */
  function LengthField(n: nat): (b: seq<Byte>)
    ensures |b| == 8
  {
    BigEndian(8 * n % TWO64, 8)
  }

  /** The message, a one bit, zeros, and the length of the message in bits. FIPS 180-4 covers
      lengths below 2^64 bits; beyond that the length field wraps as the code's does. */
  function Pad(msg: seq<Byte>): (p: seq<Byte>)
    ensures |p| == |msg| + 1 + PadZeros(|msg|) + 8
  {
    msg + [0x80] + Zeros(PadZeros(|msg|)) + LengthField(|msg|)
  }

  function HashBytes(h: seq<Word>): (d: seq<Byte>)
    requires |h| == 8
    ensures |d| == 32
  {
    seq(32, i requires 0 <= i < 32 => WordByte(h[i / 4], i % 4))
  }

  /** The message digest. */
  function Digest(msg: seq<Byte>): (d: seq<Byte>) {
    HashBytes(Chain(Pad(msg), |Pad(msg)| / 64))
  }

  lemma ChainStart(bytes: seq<Byte>)
    ensures Chain(bytes, 0) == InitialHash()
  {
    hide InitialHash;
  }

  lemma ChainStep(bytes: seq<Byte>, q: nat)
    requires 64 * (q + 1) <= |bytes|
    ensures Chain(bytes, q + 1) == Compress(Chain(bytes, q), bytes[64 * q..64 * (q + 1)])
  {
    hide Compress;
  }

  /** The hash value after some blocks does not depend on what follows them. */
  lemma {:induction false} ChainPrefix(a: seq<Byte>, b: seq<Byte>, q: nat)
    requires 64 * q <= |a|
    ensures Chain(a + b, q) == Chain(a, q)
    decreases q
  {
    hide Compress;
    if q > 0 {
      ChainPrefix(a, b, q - 1);
      assert (a + b)[64 * (q - 1)..64 * q] == a[64 * (q - 1)..64 * q];
    }
  }

  /** `n` shifted right by `k` bytes. */
  function ShiftRight(n: nat, k: nat): (r: nat)
    decreases k
  {
    if k == 0 then n else ShiftRight(n / 0x100, k - 1)
  }

  /** The bytes of a number, as shifts give them. */
  lemma {:induction false} BigEndianByte(n: nat, k: nat, j: nat)
    requires j < k
    ensures BigEndian(n, k)[k - 1 - j] == ToByte(ShiftRight(n, j))
    decreases k
  {
    hide ToByte;
    if j > 0 {
      BigEndianByte(n / 0x100, k - 1, j - 1);
    }
  }

  /** The value of a big-endian byte string. */
  function Value(b: seq<Byte>): (n: nat) {
    if b == [] then 0 else 0x100 * Value(b[..|b| - 1]) + b[|b| - 1]
  }

  function Pow256(k: nat): (r: nat)
    ensures r >= 1
  {
    if k == 0 then 1 else 0x100 * Pow256(k - 1)
  }

  /** The length field holds the length. */
  lemma {:induction false} BigEndianValue(n: nat, k: nat)
    requires n < Pow256(k)
    ensures Value(BigEndian(n, k)) == n
  {
    if k > 0 {
      BigEndianValue(n / 0x100, k - 1);
      assert BigEndian(n, k)[..k - 1] == BigEndian(n / 0x100, k - 1);
    }
  }
}
