/**
  Where the constants come from: the first 32 bits of the fractional parts of the cube roots of the first 64 primes, and
  of the square roots of the first eight, as sections 4.2.2 and 5.3.3 of FIPS 180-4 say.
 */
module Sha256Roots {
  import opened Words
  import opened Sha256Spec

  // --------------------------------------------------------------------- the primes

  /** The first 64 primes, in rows of eight. */
  function PrimeRow(r: nat): (row: seq<nat>)
    requires r < 8
    ensures |row| == 8
  {
    if r == 0 then [2, 3, 5, 7, 11, 13, 17, 19]
    else if r == 1 then [23, 29, 31, 37, 41, 43, 47, 53]
    else if r == 2 then [59, 61, 67, 71, 73, 79, 83, 89]
    else if r == 3 then [97, 101, 103, 107, 109, 113, 127, 131]
    else if r == 4 then [137, 139, 149, 151, 157, 163, 167, 173]
    else if r == 5 then [179, 181, 191, 193, 197, 199, 211, 223]
    else if r == 6 then [227, 229, 233, 239, 241, 251, 257, 263]
    else [269, 271, 277, 281, 283, 293, 307, 311]
  }

  function Prime(t: nat): (p: nat)
    requires t < 64
  {
    PrimeRow(t / 8)[t % 8]
  }

  ghost predicate IsPrime(p: nat) {
    p >= 2 && forall d, e :: 2 <= d && 2 <= e ==> p != d * e
  }

  /** `p` has no factor up to 17 other than itself. */
  predicate NoSmallFactor(p: nat) {
    && (p <= 2 || p % 2 != 0) && (p <= 3 || p % 3 != 0) && (p <= 5 || p % 5 != 0) && (p <= 7 || p % 7 != 0)
    && (p <= 11 || p % 11 != 0) && (p <= 13 || p % 13 != 0) && (p <= 17 || p % 17 != 0)
  }

  lemma NotTwice(p: nat, e: nat)
    requires (p <= 2 || p % 2 != 0) && 2 <= e
    ensures p != 2 * e
  {}

  lemma NotThrice(p: nat, e: nat)
    requires (p <= 3 || p % 3 != 0) && 2 <= e
    ensures p != 3 * e
  {}

  lemma NotOthers(p: nat, e: nat)
    requires (p <= 5 || p % 5 != 0) && (p <= 7 || p % 7 != 0) && (p <= 11 || p % 11 != 0) && 2 <= e
    ensures p != 5 * e && p != 7 * e && p != 11 * e
  {}

  lemma NotLarger(p: nat, e: nat)
    requires (p <= 13 || p % 13 != 0) && (p <= 17 || p % 17 != 0) && 2 <= e
    ensures p != 13 * e && p != 17 * e
  {}

  lemma NoProduct(p: nat, d: nat, e: nat)
    requires NoSmallFactor(p) && 2 <= d <= 17 && 2 <= e
    ensures p != d * e
  {
    NotTwice(p, e);
    NotTwice(p, 2 * e);
    NotTwice(p, 3 * e);
    NotTwice(p, 4 * e);
    NotTwice(p, 5 * e);
    NotTwice(p, 6 * e);
    NotTwice(p, 7 * e);
    NotTwice(p, 8 * e);
    NotThrice(p, e);
    NotThrice(p, 3 * e);
    NotThrice(p, 5 * e);
    NotOthers(p, e);
    NotLarger(p, e);
    hide NoSmallFactor;
    Products(d, e);
  }

  /** A product with a small factor, without a multiplication of two variables. */
  lemma Products(d: nat, e: nat)
    requires 2 <= d <= 17
    ensures d * e in {2 * e, 3 * e, 4 * e, 5 * e, 6 * e, 7 * e, 8 * e, 9 * e, 10 * e, 11 * e, 12 * e, 13 * e, 14 * e,
                      15 * e, 16 * e, 17 * e}
  {}

  /** Below 18 * 18 that is enough. */
  lemma NoFactor(p: nat)
    requires 2 <= p < 324 && NoSmallFactor(p)
    ensures IsPrime(p)
  {
    hide NoSmallFactor;
    forall d, e | 2 <= d && 2 <= e
      ensures p != d * e
    {
      if d <= 17 {
        NoProduct(p, d, e);
      } else if e <= 17 {
        NoProduct(p, e, d);
      } else {
        Grows(d, e);
      }
    }
  }

  lemma Grows(d: nat, e: nat)
    requires d >= 18 && e >= 18
    ensures d * e >= 18 * 18
  {
    assert (d - 18) * (e - 18) >= 0;
  }

  lemma HasFactor(n: nat)
    requires n > 0 && !NoSmallFactor(n)
    ensures !IsPrime(n)
  {
    var d := if n % 2 == 0 && n > 2 then 2 else if n % 3 == 0 && n > 3 then 3 else if n % 5 == 0 && n > 5 then 5
             else if n % 7 == 0 && n > 7 then 7 else if n % 11 == 0 && n > 11 then 11
             else if n % 13 == 0 && n > 13 then 13 else 17;
    assert n == d * (n / d) && 2 <= n / d;
  }

  lemma Row0a(n: nat)
    requires 2 <= n < 13
    ensures NoSmallFactor(n) <==> n == 2 || n == 3 || n == 5 || n == 7 || n == 11
  {
    assert n % 2 != 0 ==> n == 3 || n == 5 || n == 7 || n == 9 || n == 11;
  }

  lemma Row0b(n: nat)
    requires 13 <= n < 23
    ensures NoSmallFactor(n) <==> n == 13 || n == 17 || n == 19
  {
    assert n % 2 != 0 ==> n == 13 || n == 15 || n == 17 || n == 19 || n == 21;
  }

  lemma Row0(n: nat)
    requires 2 <= n < 23
    ensures NoSmallFactor(n) <==> n in PrimeRow(0)
  {
    hide NoSmallFactor;
    if n < 13 {
      Row0a(n);
    } else {
      Row0b(n);
    }
  }

  lemma Row1a(n: nat)
    requires 23 <= n < 37
    ensures NoSmallFactor(n) <==> n == 23 || n == 29 || n == 31
  {
    assert n % 2 != 0 ==> n == 23 || n == 25 || n == 27 || n == 29 || n == 31 || n == 33 || n == 35;
  }

  lemma Row1b(n: nat)
    requires 37 <= n < 47
    ensures NoSmallFactor(n) <==> n == 37 || n == 41 || n == 43
  {
    assert n % 2 != 0 ==> n == 37 || n == 39 || n == 41 || n == 43 || n == 45;
  }

  lemma Row1c(n: nat)
    requires 47 <= n < 59
    ensures NoSmallFactor(n) <==> n == 47 || n == 53
  {
    assert n % 2 != 0 ==> n == 47 || n == 49 || n == 51 || n == 53 || n == 55 || n == 57;
  }

  lemma Row1(n: nat)
    requires 23 <= n < 59
    ensures NoSmallFactor(n) <==> n in PrimeRow(1)
  {
    hide NoSmallFactor;
    if n < 37 {
      Row1a(n);
    } else if n < 47 {
      Row1b(n);
    } else {
      Row1c(n);
    }
  }

  lemma Row2a(n: nat)
    requires 59 <= n < 73
    ensures NoSmallFactor(n) <==> n == 59 || n == 61 || n == 67 || n == 71
  {
    assert n % 2 != 0 ==> n == 59 || n == 61 || n == 63 || n == 65 || n == 67 || n == 69 || n == 71;
  }

  lemma Row2b(n: nat)
    requires 73 <= n < 83
    ensures NoSmallFactor(n) <==> n == 73 || n == 79
  {
    assert n % 2 != 0 ==> n == 73 || n == 75 || n == 77 || n == 79 || n == 81;
  }

  lemma Row2c(n: nat)
    requires 83 <= n < 97
    ensures NoSmallFactor(n) <==> n == 83 || n == 89
  {
    assert n % 2 != 0 ==> n == 83 || n == 85 || n == 87 || n == 89 || n == 91 || n == 93 || n == 95;
  }

  lemma Row2(n: nat)
    requires 59 <= n < 97
    ensures NoSmallFactor(n) <==> n in PrimeRow(2)
  {
    hide NoSmallFactor;
    if n < 73 {
      Row2a(n);
    } else if n < 83 {
      Row2b(n);
    } else {
      Row2c(n);
    }
  }

  lemma Row3a(n: nat)
    requires 97 <= n < 109
    ensures NoSmallFactor(n) <==> n == 97 || n == 101 || n == 103 || n == 107
  {
    assert n % 2 != 0 ==> n == 97 || n == 99 || n == 101 || n == 103 || n == 105 || n == 107;
  }

  lemma Row3b(n: nat)
    requires 109 <= n < 113
    ensures NoSmallFactor(n) <==> n == 109
  {
    assert n % 2 != 0 ==> n == 109 || n == 111;
  }

  lemma Row3c(n: nat)
    requires 113 <= n < 127
    ensures NoSmallFactor(n) <==> n == 113
  {
    assert n % 2 != 0 ==> n == 113 || n == 115 || n == 117 || n == 119 || n == 121 || n == 123 || n == 125;
  }

  lemma Row3d(n: nat)
    requires 127 <= n < 137
    ensures NoSmallFactor(n) <==> n == 127 || n == 131
  {
    assert n % 2 != 0 ==> n == 127 || n == 129 || n == 131 || n == 133 || n == 135;
  }

  lemma Row3(n: nat)
    requires 97 <= n < 137
    ensures NoSmallFactor(n) <==> n in PrimeRow(3)
  {
    hide NoSmallFactor;
    if n < 109 {
      Row3a(n);
    } else if n < 113 {
      Row3b(n);
    } else if n < 127 {
      Row3c(n);
    } else {
      Row3d(n);
    }
  }

  lemma Row4a(n: nat)
    requires 137 <= n < 151
    ensures NoSmallFactor(n) <==> n == 137 || n == 139 || n == 149
  {
    assert n % 2 != 0 ==> n == 137 || n == 139 || n == 141 || n == 143 || n == 145 || n == 147 || n == 149;
  }

  lemma Row4b(n: nat)
    requires 151 <= n < 163
    ensures NoSmallFactor(n) <==> n == 151 || n == 157
  {
    assert n % 2 != 0 ==> n == 151 || n == 153 || n == 155 || n == 157 || n == 159 || n == 161;
  }

  lemma Row4c(n: nat)
    requires 163 <= n < 173
    ensures NoSmallFactor(n) <==> n == 163 || n == 167
  {
    assert n % 2 != 0 ==> n == 163 || n == 165 || n == 167 || n == 169 || n == 171;
  }

  lemma Row4d(n: nat)
    requires 173 <= n < 179
    ensures NoSmallFactor(n) <==> n == 173
  {
    assert n % 2 != 0 ==> n == 173 || n == 175 || n == 177;
  }

  lemma Row4(n: nat)
    requires 137 <= n < 179
    ensures NoSmallFactor(n) <==> n in PrimeRow(4)
  {
    hide NoSmallFactor;
    if n < 151 {
      Row4a(n);
    } else if n < 163 {
      Row4b(n);
    } else if n < 173 {
      Row4c(n);
    } else {
      Row4d(n);
    }
  }

  lemma Row5a(n: nat)
    requires 179 <= n < 193
    ensures NoSmallFactor(n) <==> n == 179 || n == 181 || n == 191
  {
    assert n % 2 != 0 ==> n == 179 || n == 181 || n == 183 || n == 185 || n == 187 || n == 189 || n == 191;
  }

  lemma Row5b(n: nat)
    requires 193 <= n < 199
    ensures NoSmallFactor(n) <==> n == 193 || n == 197
  {
    assert n % 2 != 0 ==> n == 193 || n == 195 || n == 197;
  }

  lemma Row5c(n: nat)
    requires 199 <= n < 211
    ensures NoSmallFactor(n) <==> n == 199
  {
    assert n % 2 != 0 ==> n == 199 || n == 201 || n == 203 || n == 205 || n == 207 || n == 209;
  }

  lemma Row5d(n: nat)
    requires 211 <= n < 223
    ensures NoSmallFactor(n) <==> n == 211
  {
    assert n % 2 != 0 ==> n == 211 || n == 213 || n == 215 || n == 217 || n == 219 || n == 221;
  }

  lemma Row5e(n: nat)
    requires 223 <= n < 227
    ensures NoSmallFactor(n) <==> n == 223
  {
    assert n % 2 != 0 ==> n == 223 || n == 225;
  }

  lemma Row5(n: nat)
    requires 179 <= n < 227
    ensures NoSmallFactor(n) <==> n in PrimeRow(5)
  {
    hide NoSmallFactor;
    if n < 193 {
      Row5a(n);
    } else if n < 199 {
      Row5b(n);
    } else if n < 211 {
      Row5c(n);
    } else if n < 223 {
      Row5d(n);
    } else {
      Row5e(n);
    }
  }

  lemma Row6a(n: nat)
    requires 227 <= n < 241
    ensures NoSmallFactor(n) <==> n == 227 || n == 229 || n == 233 || n == 239
  {
    assert n % 2 != 0 ==> n == 227 || n == 229 || n == 231 || n == 233 || n == 235 || n == 237 || n == 239;
  }

  lemma Row6b(n: nat)
    requires 241 <= n < 251
    ensures NoSmallFactor(n) <==> n == 241
  {
    assert n % 2 != 0 ==> n == 241 || n == 243 || n == 245 || n == 247 || n == 249;
  }

  lemma Row6c(n: nat)
    requires 251 <= n < 263
    ensures NoSmallFactor(n) <==> n == 251 || n == 257
  {
    assert n % 2 != 0 ==> n == 251 || n == 253 || n == 255 || n == 257 || n == 259 || n == 261;
  }

  lemma Row6d(n: nat)
    requires 263 <= n < 269
    ensures NoSmallFactor(n) <==> n == 263
  {
    assert n % 2 != 0 ==> n == 263 || n == 265 || n == 267;
  }

  lemma Row6(n: nat)
    requires 227 <= n < 269
    ensures NoSmallFactor(n) <==> n in PrimeRow(6)
  {
    hide NoSmallFactor;
    if n < 241 {
      Row6a(n);
    } else if n < 251 {
      Row6b(n);
    } else if n < 263 {
      Row6c(n);
    } else {
      Row6d(n);
    }
  }

  lemma Row7a(n: nat)
    requires 269 <= n < 283
    ensures NoSmallFactor(n) <==> n == 269 || n == 271 || n == 277 || n == 281
  {
    assert n % 2 != 0 ==> n == 269 || n == 271 || n == 273 || n == 275 || n == 277 || n == 279 || n == 281;
  }

  lemma Row7b(n: nat)
    requires 283 <= n < 293
    ensures NoSmallFactor(n) <==> n == 283
  {
    assert n % 2 != 0 ==> n == 283 || n == 285 || n == 287 || n == 289 || n == 291;
  }

  lemma Row7c(n: nat)
    requires 293 <= n < 307
    ensures NoSmallFactor(n) <==> n == 293
  {
    assert n % 2 != 0 ==> n == 293 || n == 295 || n == 297 || n == 299 || n == 301 || n == 303 || n == 305;
  }

  lemma Row7d(n: nat)
    requires 307 <= n < 312
    ensures NoSmallFactor(n) <==> n == 307 || n == 311
  {
    assert n % 2 != 0 ==> n == 307 || n == 309 || n == 311;
  }

  lemma Row7(n: nat)
    requires 269 <= n < 312
    ensures NoSmallFactor(n) <==> n in PrimeRow(7)
  {
    hide NoSmallFactor;
    if n < 283 {
      Row7a(n);
    } else if n < 293 {
      Row7b(n);
    } else if n < 307 {
      Row7c(n);
    } else {
      Row7d(n);
    }
  }

  lemma RowOf(n: nat) returns (r: nat)
    requires 2 <= n <= 311
    ensures r < 8 && PrimeRow(r)[0] <= n && (r < 7 ==> n < PrimeRow(r + 1)[0])
    ensures NoSmallFactor(n) <==> n in PrimeRow(r)
  {
    hide NoSmallFactor;
    if n < 23 {
      r := 0;
      Row0(n);
    } else if n < 59 {
      r := 1;
      Row1(n);
    } else if n < 97 {
      r := 2;
      Row2(n);
    } else if n < 137 {
      r := 3;
      Row3(n);
    } else if n < 179 {
      r := 4;
      Row4(n);
    } else if n < 227 {
      r := 5;
      Row5(n);
    } else if n < 269 {
      r := 6;
      Row6(n);
    } else {
      r := 7;
      Row7(n);
    }
  }

  lemma Ordered(r: nat, c: nat)
    requires r < 8 && c < 8
    ensures 2 <= PrimeRow(r)[0] <= PrimeRow(r)[c] <= 311 && (r < 7 ==> PrimeRow(r)[c] < PrimeRow(r + 1)[0])
    ensures c < 7 ==> PrimeRow(r)[c] < PrimeRow(r)[c + 1]
  {}

  lemma Members(r: nat, c: nat)
    requires r < 8 && c < 8
    ensures NoSmallFactor(PrimeRow(r)[c])
  {
    hide NoSmallFactor;
    Ordered(r, c);
    var n := PrimeRow(r)[c];
    if r == 0 {
      Row0(n);
    } else if r == 1 {
      Row1(n);
    } else if r == 2 {
      Row2(n);
    } else if r == 3 {
      Row3(n);
    } else if r == 4 {
      Row4(n);
    } else if r == 5 {
      Row5(n);
    } else if r == 6 {
      Row6(n);
    } else {
      Row7(n);
    }
  }

  lemma AtLeastTwo(n: nat)
    requires IsPrime(n)
    ensures n >= 2
  {}

  /** The list has all primes up to 311 and nothing else, */
  lemma FirstPrimes(n: nat)
    requires n <= 311
    ensures IsPrime(n) <==> exists t :: 0 <= t < 64 && Prime(t) == n
  {
    hide PrimeRow, NoSmallFactor, IsPrime;
    if IsPrime(n) {
      AtLeastTwo(n);
      var r := RowOf(n);
      if !NoSmallFactor(n) {
        HasFactor(n);
      }
      var c :| 0 <= c < 8 && PrimeRow(r)[c] == n;
      assert Prime(8 * r + c) == n;
    }
    if t :| 0 <= t < 64 && Prime(t) == n {
      Ordered(t / 8, t % 8);
      Members(t / 8, t % 8);
      NoFactor(n);
    }
  }

  /** in increasing order. */
  lemma PrimesInOrder(t: nat)
    requires t < 63
    ensures Prime(t) < Prime(t + 1)
  {
    hide PrimeRow;
    Ordered(t / 8, t % 8);
    if t % 8 == 7 {
      assert (t + 1) / 8 == t / 8 + 1 && (t + 1) % 8 == 0;
    } else {
      assert (t + 1) / 8 == t / 8 && (t + 1) % 8 == t % 8 + 1;
    }
  }

  // ---------------------------------------------------------------------- the roots

  /** `q` and `k` are the integer part and the first 32 bits of the fraction of the cube root of `p`. */
  predicate CubeRoot(p: nat, q: nat, k: nat) {
    var x := q * 0x1_0000_0000 + k;
    x * x * x <= p * 0x1_0000_0000_0000_0000_0000_0000 < (x + 1) * (x + 1) * (x + 1)
  }

  /** The same for the square root. */
  predicate SquareRoot(p: nat, q: nat, k: nat) {
    var x := q * 0x1_0000_0000 + k;
    x * x <= p * 0x1_0000_0000_0000_0000 < (x + 1) * (x + 1)
  }

  lemma CubeRow0(c: nat, k: nat)
    requires c < 8 && k == ConstantRow(0)[c] as nat
    ensures CubeRoot(PrimeRow(0)[c], CubePart(PrimeRow(0)[c]), k)
  {
    assert CubeRoot(2, 1, 0x428a2f98) && CubeRoot(3, 1, 0x71374491);
    assert CubeRoot(5, 1, 0xb5c0fbcf) && CubeRoot(7, 1, 0xe9b5dba5);
    assert CubeRoot(11, 2, 0x3956c25b) && CubeRoot(13, 2, 0x59f111f1);
    assert CubeRoot(17, 2, 0x923f82a4) && CubeRoot(19, 2, 0xab1c5ed5);
  }

  lemma CubeRow1(c: nat, k: nat)
    requires c < 8 && k == ConstantRow(1)[c] as nat
    ensures CubeRoot(PrimeRow(1)[c], CubePart(PrimeRow(1)[c]), k)
  {
    assert CubeRoot(23, 2, 0xd807aa98) && CubeRoot(29, 3, 0x12835b01);
    assert CubeRoot(31, 3, 0x243185be) && CubeRoot(37, 3, 0x550c7dc3);
    assert CubeRoot(41, 3, 0x72be5d74) && CubeRoot(43, 3, 0x80deb1fe);
    assert CubeRoot(47, 3, 0x9bdc06a7) && CubeRoot(53, 3, 0xc19bf174);
  }

  lemma CubeRow2(c: nat, k: nat)
    requires c < 8 && k == ConstantRow(2)[c] as nat
    ensures CubeRoot(PrimeRow(2)[c], CubePart(PrimeRow(2)[c]), k)
  {
    assert CubeRoot(59, 3, 0xe49b69c1) && CubeRoot(61, 3, 0xefbe4786);
    assert CubeRoot(67, 4, 0x0fc19dc6) && CubeRoot(71, 4, 0x240ca1cc);
    assert CubeRoot(73, 4, 0x2de92c6f) && CubeRoot(79, 4, 0x4a7484aa);
    assert CubeRoot(83, 4, 0x5cb0a9dc) && CubeRoot(89, 4, 0x76f988da);
  }

  lemma CubeRow3(c: nat, k: nat)
    requires c < 8 && k == ConstantRow(3)[c] as nat
    ensures CubeRoot(PrimeRow(3)[c], CubePart(PrimeRow(3)[c]), k)
  {
    assert CubeRoot(97, 4, 0x983e5152) && CubeRoot(101, 4, 0xa831c66d);
    assert CubeRoot(103, 4, 0xb00327c8) && CubeRoot(107, 4, 0xbf597fc7);
    assert CubeRoot(109, 4, 0xc6e00bf3) && CubeRoot(113, 4, 0xd5a79147);
    assert CubeRoot(127, 5, 0x06ca6351) && CubeRoot(131, 5, 0x14292967);
  }

  lemma CubeRow4(c: nat, k: nat)
    requires c < 8 && k == ConstantRow(4)[c] as nat
    ensures CubeRoot(PrimeRow(4)[c], CubePart(PrimeRow(4)[c]), k)
  {
    assert CubeRoot(137, 5, 0x27b70a85) && CubeRoot(139, 5, 0x2e1b2138);
    assert CubeRoot(149, 5, 0x4d2c6dfc) && CubeRoot(151, 5, 0x53380d13);
    assert CubeRoot(157, 5, 0x650a7354) && CubeRoot(163, 5, 0x766a0abb);
    assert CubeRoot(167, 5, 0x81c2c92e) && CubeRoot(173, 5, 0x92722c85);
  }

  lemma CubeRow5(c: nat, k: nat)
    requires c < 8 && k == ConstantRow(5)[c] as nat
    ensures CubeRoot(PrimeRow(5)[c], CubePart(PrimeRow(5)[c]), k)
  {
    assert CubeRoot(179, 5, 0xa2bfe8a1) && CubeRoot(181, 5, 0xa81a664b);
    assert CubeRoot(191, 5, 0xc24b8b70) && CubeRoot(193, 5, 0xc76c51a3);
    assert CubeRoot(197, 5, 0xd192e819) && CubeRoot(199, 5, 0xd6990624);
    assert CubeRoot(211, 5, 0xf40e3585) && CubeRoot(223, 6, 0x106aa070);
  }

  lemma CubeRow6(c: nat, k: nat)
    requires c < 8 && k == ConstantRow(6)[c] as nat
    ensures CubeRoot(PrimeRow(6)[c], CubePart(PrimeRow(6)[c]), k)
  {
    assert CubeRoot(227, 6, 0x19a4c116) && CubeRoot(229, 6, 0x1e376c08);
    assert CubeRoot(233, 6, 0x2748774c) && CubeRoot(239, 6, 0x34b0bcb5);
    assert CubeRoot(241, 6, 0x391c0cb3) && CubeRoot(251, 6, 0x4ed8aa4a);
    assert CubeRoot(257, 6, 0x5b9cca4f) && CubeRoot(263, 6, 0x682e6ff3);
  }

  lemma CubeRow7(c: nat, k: nat)
    requires c < 8 && k == ConstantRow(7)[c] as nat
    ensures CubeRoot(PrimeRow(7)[c], CubePart(PrimeRow(7)[c]), k)
  {
    assert CubeRoot(269, 6, 0x748f82ee) && CubeRoot(271, 6, 0x78a5636f);
    assert CubeRoot(277, 6, 0x84c87814) && CubeRoot(281, 6, 0x8cc70208);
    assert CubeRoot(283, 6, 0x90befffa) && CubeRoot(293, 6, 0xa4506ceb);
    assert CubeRoot(307, 6, 0xbef9a3f7) && CubeRoot(311, 6, 0xc67178f2);
  }

  /** The integer part of the square root. */
  function SquarePart(p: nat): (q: nat) {
    if p < 4 then 1 else if p < 9 then 2 else if p < 16 then 3 else 4
  }

  /** The integer part of the cube root. */
  function CubePart(p: nat): (q: nat) {
    if p < 8 then 1 else if p < 27 then 2 else if p < 64 then 3 else if p < 125 then 4 else if p < 216 then 5 else 6
  }

  /** Every round constant is the beginning of the fraction of the cube root of a prime. */
  lemma ConstantRoots(t: nat)
    requires t < 64
    ensures CubeRoot(Prime(t), CubePart(Prime(t)), Constant(t) as nat)
  {
    hide PrimeRow, ConstantRow, CubePart, CubeRoot;
    var r, c, k := t / 8, t % 8, Constant(t) as nat;
    if r == 0 {
      CubeRow0(c, k);
    } else if r == 1 {
      CubeRow1(c, k);
    } else if r == 2 {
      CubeRow2(c, k);
    } else if r == 3 {
      CubeRow3(c, k);
    } else if r == 4 {
      CubeRow4(c, k);
    } else if r == 5 {
      CubeRow5(c, k);
    } else if r == 6 {
      CubeRow6(c, k);
    } else {
      CubeRow7(c, k);
    }
  }

  /** The initial hash value begins the fractions of the square roots of the first eight primes. */
  lemma InitialRoots(i: nat)
    requires i < 8
    ensures SquareRoot(Prime(i), SquarePart(Prime(i)), InitialHash()[i] as nat)
  {
    if i == 0 {
      assert SquareRoot(2, 1, 0x6a09e667);
    } else if i == 1 {
      assert SquareRoot(3, 1, 0xbb67ae85);
    } else if i == 2 {
      assert SquareRoot(5, 2, 0x3c6ef372);
    } else if i == 3 {
      assert SquareRoot(7, 2, 0xa54ff53a);
    } else if i == 4 {
      assert SquareRoot(11, 3, 0x510e527f);
    } else if i == 5 {
      assert SquareRoot(13, 3, 0x9b05688c);
    } else if i == 6 {
      assert SquareRoot(17, 4, 0x1f83d9ab);
    } else {
      assert SquareRoot(19, 4, 0x5be0cd19);
    }
  }
}
