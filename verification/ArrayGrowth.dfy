/**
  How the array of disassembled instructions grows: chunk after chunk, each 8/5 of the one before, in 32-bit
  arithmetic. No chunk is ever empty, however long the array becomes.
 */
module ArrayGrowth {

  const WORDS: nat := 0x1_0000_0000
  /** Chunk sizes after the first are at most this. */
  const LARGEST: nat := 858993459

  /** The size of the chunk that follows a full chunk of `k` records. */
  function Enlarged(k: nat): (r: nat)
    ensures k < 0x2000_0000 ==> k <= r <= 2 * k
    ensures r == 0 <==> k % 0x2000_0000 == 0
    ensures r <= LARGEST
  {
    k * 8 % WORDS / 5
  }

  /** The size of chunk `i`. */
  function Chunk(first: nat, i: nat): (k: nat) {
    if i == 0 then first else Enlarged(Chunk(first, i - 1))
  }

  /** Every size that is enlarged to 2^29 in `n` steps satisfies this. */
  predicate Ancestor(n: nat, k: nat)
    requires n <= 10
  {
    if n == 0 then k == 0x2000_0000
    else if n == 1 then k == 0x1400_0000
    else if n == 2 then k % 0x2000_0000 == 0xc80_0000
    else if n == 3 then k % 0x400_0000 == 0x3d0_0000
    else if n == 4 then k % 0x80_0000 == 0x62_0000
    else if n == 5 then k % 0x10_0000 == 0xd_4000
    else if n == 6 then k % 0x2_0000 == 0x4800
    else if n == 7 then k % 0x4000 == 0x2d00
    else if n == 8 then k % 0x800 == 0x420
    else if n == 9 then k % 0x100 == 0x94
    else k % 0x20 == 0x1d
  }

  /** What the division by 5 leaves over. */
  lemma Preimage(k: nat) returns (w: nat, r: nat)
    ensures 8 * k == WORDS * w + 5 * Enlarged(k) + r && r < 5
  {
    w := k * 8 / WORDS;
    r := k * 8 % WORDS - 5 * Enlarged(k);
  }

  lemma Divide(k: int, w: int, x: int, a: int, r: int, c: int)
    requires 8 * k == 8 * (0x2000_0000 * w) + 5 * (8 * x + a) + r && 0 <= r < 5 && 5 * a <= 8 * c < 5 * a + 5
    ensures k == 0x2000_0000 * w + 5 * x + c
  {
    assert 8 * (k - 0x2000_0000 * w - 5 * x - c) == 5 * a + r - 8 * c;
  }

  lemma AtLeast(q: nat, d: nat)
    requires d >= 1
    ensures q * d >= q
  {}

  lemma Unique(q: nat, y: int, z: int, f: nat, b: nat)
    requires f < q && b < q && q * y + f == q * z + b
    ensures f == b
  {
    assert q * (y - z) == q * y - q * z && q * (z - y) == q * z - q * y;
    if y > z {
      AtLeast(q, y - z);
    } else if y < z {
      AtLeast(q, z - y);
    }
  }

  /** One step back: the remainder of the enlarged size modulo 8 * q tells that of the size modulo q. */
  lemma BackStep(k: nat, q: nat, s: nat, t: nat, a: nat, u: nat, b: nat)
    requires q * s == 0x2000_0000 && Enlarged(k) == 8 * (q * t) + a && b < q
    requires 5 * a <= 8 * (q * u + b) < 5 * a + 5
    ensures k % q == b
  {
    hide Enlarged;
    var w, r := Preimage(k);
    Divide(k, w, q * t, a, r, q * u + b);
    Collect(q, s, w, t, u);
    Unique(q, k / q, s * w + 5 * t + u, k % q, b);
  }

  lemma Collect(q: nat, s: nat, w: nat, t: nat, u: nat)
    ensures q * (s * w + 5 * t + u) == (q * s) * w + 5 * (q * t) + q * u
  {
    assert q * (s * w) == (q * s) * w;
  }

  lemma Back0(k: nat)
    requires k <= LARGEST && Ancestor(0, Enlarged(k))
    ensures Ancestor(1, k)
  {
    var w, r := Preimage(k);
    hide Enlarged;
    Divide(k, w, 0, 0x2000_0000, r, 0x1400_0000);
  }

  lemma Back1(k: nat)
    requires Ancestor(1, Enlarged(k))
    ensures k % 0x2000_0000 == 0xc80_0000
  {
    var w, r := Preimage(k);
    hide Enlarged;
    Divide(k, w, 0, 0x1400_0000, r, 0xc80_0000);
  }

  /** A size that is 29 modulo 32 is reached from no size. */
  lemma Back10(k: nat)
    ensures !Ancestor(10, Enlarged(k))
  {
    var w, r := Preimage(k);
    hide Enlarged;
    Stuck(k, w, Enlarged(k), r);
  }

  lemma Stuck(k: nat, w: nat, e: nat, r: nat)
    requires 8 * k == WORDS * w + 5 * e + r && r < 5
    ensures e % 32 != 29
  {
    var t, f := e / 32, e % 32;
    assert 8 * (k - 0x2000_0000 * w - 20 * t) == 5 * f + r;
  }

  lemma Back(n: nat, k: nat)
    requires n < 10 && k <= LARGEST && Ancestor(n, Enlarged(k))
    ensures Ancestor(n + 1, k)
  {
    hide Enlarged;
    match n
    case 0 => Back0(k);
    case 1 => Back1(k);
    case 2 => BackStep(k, 0x400_0000, 0x8, Enlarged(k) / 0x2000_0000, 0xc80_0000, 1, 0x3d0_0000);
    case 3 => BackStep(k, 0x80_0000, 0x40, Enlarged(k) / 0x400_0000, 0x3d0_0000, 4, 0x62_0000);
    case 4 => BackStep(k, 0x10_0000, 0x200, Enlarged(k) / 0x80_0000, 0x62_0000, 3, 0xd_4000);
    case 5 => BackStep(k, 0x2_0000, 0x1000, Enlarged(k) / 0x10_0000, 0xd_4000, 4, 0x4800);
    case 6 => BackStep(k, 0x4000, 0x8000, Enlarged(k) / 0x2_0000, 0x4800, 0, 0x2d00);
    case 7 => BackStep(k, 0x800, 0x4_0000, Enlarged(k) / 0x4000, 0x2d00, 3, 0x420);
    case 8 => BackStep(k, 0x100, 0x20_0000, Enlarged(k) / 0x800, 0x420, 2, 0x94);
    case 9 => BackStep(k, 0x20, 0x100_0000, Enlarged(k) / 0x100, 0x94, 2, 0x1d);
  }

  /** No size has eleven ancestors on the way to 2^29, so no chunk with eleven chunks before it has 2^29 records. */
  lemma {:induction false} Unreached(first: nat, i: nat, n: nat)
    requires first <= LARGEST && n <= 10 && i + n >= 11
    ensures !Ancestor(n, Chunk(first, i))
    decreases 10 - n
  {
    hide Enlarged, Ancestor;
    var k := Chunk(first, i - 1);
    if n == 10 {
      Back10(k);
    } else if Ancestor(n, Chunk(first, i)) {
      Back(n, k);
      Unreached(first, i - 1, n + 1);
    }
  }

  function Pow2(i: nat): (r: nat)
    ensures r >= 1
  {
    if i == 0 then 1 else 2 * Pow2(i - 1)
  }

  lemma {:induction false} Pow2Grows(i: nat, j: nat)
    requires i <= j
    ensures Pow2(i) <= Pow2(j)
    decreases j
  {
    if i < j {
      Pow2Grows(i, j - 1);
    }
  }

  /** No chunk is more than twice as large as the one before, so the first ones are small. */
  lemma {:induction false} FirstChunks(first: nat, i: nat)
    requires first <= 8 && i <= 10
    ensures Chunk(first, i) <= 8 * Pow2(i) <= 0x2000
  {
    hide Enlarged;
    Pow2Grows(i, 10);
    assert Pow2(10) == 1024;
    if i > 0 {
      FirstChunks(first, i - 1);
    }
  }

  lemma NoMultiple(k: nat)
    requires 0 < k <= LARGEST && k != 0x2000_0000
    ensures k % 0x2000_0000 != 0
  {}

  /** No chunk has 2^29 records, and none is empty. */
  lemma {:induction false} NeverEmpty(first: nat, i: nat)
    requires 1 <= first <= 8
    ensures 0 < Chunk(first, i) <= LARGEST
    ensures Chunk(first, i) != 0x2000_0000
  {
    hide Enlarged;
    if i > 0 {
      NeverEmpty(first, i - 1);
      NoMultiple(Chunk(first, i - 1));
    }
    if i <= 10 {
      FirstChunks(first, i);
    } else {
      Unreached(first, i, 0);
    }
  }

  /** The chunks `k`, Enlarged(k), ... of an array for `need` more records are all nonempty. */
  ghost predicate Roomy(k: nat, need: nat)
    decreases need
  {
    need == 0 || (k > 0 && (need <= k || Roomy(Enlarged(k), need - k)))
  }

  lemma RoomyStep(k: nat, need: nat)
    requires Roomy(k, need)
    ensures need > 0 ==> k > 0
    ensures need >= k ==> Roomy(Enlarged(k), need - k)
  {}

  lemma {:induction false} RoomyFrom(first: nat, i: nat, need: nat)
    requires 1 <= first <= 8
    ensures Roomy(Chunk(first, i), need)
    decreases need
  {
    hide Enlarged;
    NeverEmpty(first, i);
    if need > Chunk(first, i) {
      RoomyFrom(first, i + 1, need - Chunk(first, i));
    }
  }

  /** However many records there are, every chunk has room. */
  lemma AlwaysRoomy(first: nat, need: nat)
    requires 1 <= first <= 8
    ensures Roomy(first, need)
  {
    RoomyFrom(first, 0, need);
  }
}
