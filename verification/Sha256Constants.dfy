/** The constants of SHA-256 are those FIPS 180-4 defines (sections 4.2.2 and 5.3.3): the first 32 bits of the
    fractional parts of the cube roots of the first 64 primes, and of the square roots of the first eight. */
module Sha256Constants {
  import opened Hashing
  import opened Sha256Compression

  // ---- Primes below 324 ----

  ghost predicate Prime(n: nat) {
    n >= 2 && forall d :: 2 <= d < n ==> n % d != 0
  }

  /** None of the primes up to 17 divides n, unless it is n. */
  predicate NoSmallFactor(n: nat) {
    && (n % 2 != 0 || n == 2) && (n % 3 != 0 || n == 3) && (n % 5 != 0 || n == 5) && (n % 7 != 0 || n == 7)
    && (n % 11 != 0 || n == 11) && (n % 13 != 0 || n == 13) && (n % 17 != 0 || n == 17)
  }

  lemma Grows(q: int, d: int)
    requires q > 0
    ensures d >= 1 ==> q * d >= q
    ensures d <= -1 ==> q * d <= 0 - q
  {
    if d >= 1 {
      assert q * d == q + q * (d - 1);
    } else {
      assert q * d == q * (d + 1) - q;
    }
  }

  lemma MultipleOf(q: nat, x: nat)
    requires q > 0
    ensures q * x % q == 0
  {
    var d := x - q * x / q;
    assert q * d == q * x % q;
    Grows(q, d);
  }

  /** A prime that divides a number from 2 to 17. */
  function FactorOf(f: nat): (q: nat)
    requires 2 <= f <= 17
    ensures q in {2, 3, 5, 7, 11, 13, 17} && q <= f && f % q == 0
  {
    if f % 2 == 0 then 2 else if f % 3 == 0 then 3 else if f % 5 == 0 then 5 else f
  }

  lemma SmallFactorFound(n: nat, f: nat, e: nat)
    requires n == f * e && 2 <= f <= 17 && f < n
    ensures !NoSmallFactor(n)
  {
    var q := FactorOf(f);
    var r := f / q;
    assert f == q * r;
    assert n == q * (r * e) by {
      assert (q * r) * e == q * (r * e);
    }
    MultipleOf(q, r * e);
  }

  lemma Cofactor(d: nat, e: nat)
    requires d >= 18 && d < d * e < 324
    ensures 2 <= e <= 17
  {
    Grows(d, e - 18);
    assert d * e == d * (e - 18) + 18 * d;
  }

  lemma FactorIsSmall(n: nat, d: nat)
    requires 2 <= d < n < 324 && n % d == 0
    ensures !NoSmallFactor(n)
  {
    var e := n / d;
    assert n == d * e;
    if d <= 17 {
      SmallFactorFound(n, d, e);
    } else {
      Cofactor(d, e);
      SmallFactorFound(n, e, d);
    }
  }

  /** Below 18 squared a prime is a number without small factors. */
  lemma PrimeIff(n: nat)
    requires 2 <= n < 324
    ensures Prime(n) <==> NoSmallFactor(n)
  {
    forall d | 2 <= d < n && n % d == 0 ensures !NoSmallFactor(n) {
      FactorIsSmall(n, d);
    }
  }

  // ---- The first 64 primes and the constants, in rows of eight ----

  const PRIMES: seq<nat> :=
    (([2, 3, 5, 7, 11, 13, 17, 19] + [23, 29, 31, 37, 41, 43, 47, 53]) +
     ([59, 61, 67, 71, 73, 79, 83, 89] + [97, 101, 103, 107, 109, 113, 127, 131])) +
    (([137, 139, 149, 151, 157, 163, 167, 173] + [179, 181, 191, 193, 197, 199, 211, 223]) +
     ([227, 229, 233, 239, 241, 251, 257, 263] + [269, 271, 277, 281, 283, 293, 307, 311]))

  function Square(n: nat): nat { n * n }

  function Cube(n: nat): nat { n * n * n }

  /** w is the first 32 bits of the fractional part of the cube root of p, and c is its integer part. */
  predicate IsCubeRoot(p: nat, c: nat, w: nat) {
    && Cube(c) <= p < Cube(c + 1)
    && Cube(c * 0x1_0000_0000 + w) <= p * 0x1_0000_0000_0000_0000_0000_0000 < Cube(c * 0x1_0000_0000 + w + 1)
  }

  predicate IsSquareRoot(p: nat, c: nat, w: nat) {
    && Square(c) <= p < Square(c + 1)
    && Square(c * 0x1_0000_0000 + w) <= p * 0x1_0000_0000_0000_0000 < Square(c * 0x1_0000_0000 + w + 1)
  }

  ghost predicate CubeRootBits(p: nat, w: nat) {
    exists c: nat :: IsCubeRoot(p, c, w)
  }

  ghost predicate SquareRootBits(p: nat, w: nat) {
    exists c: nat :: IsSquareRoot(p, c, w)
  }

  // ---- Rows of a table, for any notion of prime and of root ----

  type NumberTest = nat -> bool
  type RootTest = (nat, nat, nat) -> bool

  /** The eight entries of the table from at on are the numbers from one bound to the other that pass, in order. */
  ghost predicate RowPasses(ok: NumberTest, table: seq<nat>, at: nat, from: nat, to: nat) {
    && at + 8 <= |table|
    && (forall i :: at <= i < at + 8 ==> from <= table[i] < to && ok(table[i]))
    && (forall i :: at < i < at + 8 ==> table[i - 1] < table[i])
    && (forall n :: from <= n < to && ok(n) ==> n in table)
  }

  lemma RowOfPrimes(ok: NumberTest, table: seq<nat>, at: nat, from: nat, to: nat, p0: nat, p1: nat, p2: nat, p3: nat,
                    p4: nat, p5: nat, p6: nat, p7: nat)
    requires at + 8 <= |table|
    requires table[at] == p0 && table[at + 1] == p1 && table[at + 2] == p2 && table[at + 3] == p3
    requires table[at + 4] == p4 && table[at + 5] == p5 && table[at + 6] == p6 && table[at + 7] == p7
    requires from <= p0 < p1 < p2 < p3 < p4 < p5 < p6 < p7 < to
    requires forall n :: from <= n < to ==> (ok(n) <==> n in [p0, p1, p2, p3, p4, p5, p6, p7])
    ensures RowPasses(ok, table, at, from, to)
  {
    forall i | at <= i < at + 8
      ensures from <= table[i] < to && ok(table[i]) && (i > at ==> table[i - 1] < table[i])
    {
      assert i == at || i == at + 1 || i == at + 2 || i == at + 3 || i == at + 4 || i == at + 5 || i == at + 6
             || i == at + 7;
    }
  }

  ghost predicate HasRoot(isRoot: RootTest, p: nat, w: nat) {
    exists c :: isRoot(p, c, w)
  }

  /** The eight constants from at on are the roots of the entries beside them. */
  ghost predicate RowRoots(isRoot: RootTest, table: seq<nat>, words: seq<bv32>, at: nat) {
    && at + 8 <= |table| == |words|
    && forall i :: at <= i < at + 8 ==> HasRoot(isRoot, table[i], words[i] as nat)
  }

  lemma RowOfRoots(isRoot: RootTest, table: seq<nat>, words: seq<bv32>, at: nat, p0: nat, p1: nat, p2: nat, p3: nat,
                   p4: nat, p5: nat, p6: nat, p7: nat, c0: nat, c1: nat, c2: nat, c3: nat, c4: nat, c5: nat, c6: nat,
                   c7: nat, k0: bv32, k1: bv32, k2: bv32, k3: bv32, k4: bv32, k5: bv32, k6: bv32, k7: bv32)
    requires at + 8 <= |table| == |words|
    requires table[at] == p0 && table[at + 1] == p1 && table[at + 2] == p2 && table[at + 3] == p3
    requires table[at + 4] == p4 && table[at + 5] == p5 && table[at + 6] == p6 && table[at + 7] == p7
    requires words[at] == k0 && words[at + 1] == k1 && words[at + 2] == k2 && words[at + 3] == k3
    requires words[at + 4] == k4 && words[at + 5] == k5 && words[at + 6] == k6 && words[at + 7] == k7
    requires isRoot(p0, c0, k0 as nat) && isRoot(p1, c1, k1 as nat)
    requires isRoot(p2, c2, k2 as nat) && isRoot(p3, c3, k3 as nat)
    requires isRoot(p4, c4, k4 as nat) && isRoot(p5, c5, k5 as nat)
    requires isRoot(p6, c6, k6 as nat) && isRoot(p7, c7, k7 as nat)
    ensures RowRoots(isRoot, table, words, at)
  {
    forall i | at <= i < at + 8 ensures HasRoot(isRoot, table[i], words[i] as nat) {
      assert i == at || i == at + 1 || i == at + 2 || i == at + 3 || i == at + 4 || i == at + 5 || i == at + 6
             || i == at + 7;
    }
  }

  lemma AllPrimes(ok: NumberTest, same: NumberTest, table: seq<nat>)
    requires RowPasses(ok, table, 0, 2, 20) && RowPasses(ok, table, 8, 20, 54) && RowPasses(ok, table, 16, 54, 90)
    requires RowPasses(ok, table, 24, 90, 132) && RowPasses(ok, table, 32, 132, 174)
    requires RowPasses(ok, table, 40, 174, 224) && RowPasses(ok, table, 48, 224, 264)
    requires RowPasses(ok, table, 56, 264, 312)
    requires forall n: nat :: 2 <= n < 324 ==> same(n) == ok(n)
    ensures |table| >= 64 && forall i :: 0 <= i < 64 ==> same(table[i])
    ensures forall i :: 0 < i < 64 ==> table[i - 1] < table[i]
    ensures forall n :: 2 <= n <= 311 && same(n) ==> n in table
  {
  }

  lemma AllRoots(isRoot: RootTest, table: seq<nat>, words: seq<bv32>, i: nat)
    requires RowRoots(isRoot, table, words, 0) && RowRoots(isRoot, table, words, 8)
    requires RowRoots(isRoot, table, words, 16) && RowRoots(isRoot, table, words, 24)
    requires RowRoots(isRoot, table, words, 32) && RowRoots(isRoot, table, words, 40)
    requires RowRoots(isRoot, table, words, 48) && RowRoots(isRoot, table, words, 56)
    requires i < 64
    ensures |table| == |words| >= 64 && HasRoot(isRoot, table[i], words[i] as nat)
  {
  }

  lemma Sieve0(n: nat)
    requires 2 <= n < 11
    ensures NoSmallFactor(n) <==> n in [2, 3, 5, 7]
  {
    assert n == 2 || n == 3 || n == 4 || n == 5 || n == 6 || n == 7 || n == 8 || n == 9 || n == 10;
  }

  lemma Sieve1(n: nat)
    requires 11 <= n < 20
    ensures NoSmallFactor(n) <==> n in [11, 13, 17, 19]
  {
    assert n == 11 || n == 12 || n == 13 || n == 14 || n == 15 || n == 16 || n == 17 || n == 18 || n == 19;
  }

  lemma Sieve2(n: nat)
    requires 20 <= n < 37
    ensures NoSmallFactor(n) <==> n in [23, 29, 31]
  {
    assert n == 20 || n == 21 || n == 22 || n == 23 || n == 24 || n == 25 || n == 26 || n == 27 || n == 28
           || n == 29 || n == 30 || n == 31 || n == 32 || n == 33 || n == 34 || n == 35 || n == 36;
  }

  lemma Sieve3(n: nat)
    requires 37 <= n < 54
    ensures NoSmallFactor(n) <==> n in [37, 41, 43, 47, 53]
  {
    assert n == 37 || n == 38 || n == 39 || n == 40 || n == 41 || n == 42 || n == 43 || n == 44 || n == 45
           || n == 46 || n == 47 || n == 48 || n == 49 || n == 50 || n == 51 || n == 52 || n == 53;
  }

  lemma Sieve4(n: nat)
    requires 54 <= n < 66
    ensures NoSmallFactor(n) <==> n in [59, 61]
  {
    assert n == 54 || n == 55 || n == 56 || n == 57 || n == 58 || n == 59 || n == 60 || n == 61 || n == 62
           || n == 63 || n == 64 || n == 65;
  }

  lemma Sieve5(n: nat)
    requires 66 <= n < 78
    ensures NoSmallFactor(n) <==> n in [67, 71, 73]
  {
    assert n == 66 || n == 67 || n == 68 || n == 69 || n == 70 || n == 71 || n == 72 || n == 73 || n == 74
           || n == 75 || n == 76 || n == 77;
  }

  lemma Sieve6(n: nat)
    requires 78 <= n < 90
    ensures NoSmallFactor(n) <==> n in [79, 83, 89]
  {
    assert n == 78 || n == 79 || n == 80 || n == 81 || n == 82 || n == 83 || n == 84 || n == 85 || n == 86
           || n == 87 || n == 88 || n == 89;
  }

  lemma Sieve7(n: nat)
    requires 90 <= n < 104
    ensures NoSmallFactor(n) <==> n in [97, 101, 103]
  {
    assert n == 90 || n == 91 || n == 92 || n == 93 || n == 94 || n == 95 || n == 96 || n == 97 || n == 98
           || n == 99 || n == 100 || n == 101 || n == 102 || n == 103;
  }

  lemma Sieve8(n: nat)
    requires 104 <= n < 118
    ensures NoSmallFactor(n) <==> n in [107, 109, 113]
  {
    assert n == 104 || n == 105 || n == 106 || n == 107 || n == 108 || n == 109 || n == 110 || n == 111 || n == 112
           || n == 113 || n == 114 || n == 115 || n == 116 || n == 117;
  }

  lemma Sieve9(n: nat)
    requires 118 <= n < 132
    ensures NoSmallFactor(n) <==> n in [127, 131]
  {
    assert n == 118 || n == 119 || n == 120 || n == 121 || n == 122 || n == 123 || n == 124 || n == 125 || n == 126
           || n == 127 || n == 128 || n == 129 || n == 130 || n == 131;
  }

  lemma Sieve10(n: nat)
    requires 132 <= n < 146
    ensures NoSmallFactor(n) <==> n in [137, 139]
  {
    assert n == 132 || n == 133 || n == 134 || n == 135 || n == 136 || n == 137 || n == 138 || n == 139 || n == 140
           || n == 141 || n == 142 || n == 143 || n == 144 || n == 145;
  }

  lemma Sieve11(n: nat)
    requires 146 <= n < 160
    ensures NoSmallFactor(n) <==> n in [149, 151, 157]
  {
    assert n == 146 || n == 147 || n == 148 || n == 149 || n == 150 || n == 151 || n == 152 || n == 153 || n == 154
           || n == 155 || n == 156 || n == 157 || n == 158 || n == 159;
  }

  lemma Sieve12(n: nat)
    requires 160 <= n < 174
    ensures NoSmallFactor(n) <==> n in [163, 167, 173]
  {
    assert n == 160 || n == 161 || n == 162 || n == 163 || n == 164 || n == 165 || n == 166 || n == 167 || n == 168
           || n == 169 || n == 170 || n == 171 || n == 172 || n == 173;
  }

  lemma Sieve13(n: nat)
    requires 174 <= n < 190
    ensures NoSmallFactor(n) <==> n in [179, 181]
  {
    assert n == 174 || n == 175 || n == 176 || n == 177 || n == 178 || n == 179 || n == 180 || n == 181 || n == 182
           || n == 183 || n == 184 || n == 185 || n == 186 || n == 187 || n == 188 || n == 189;
  }

  lemma Sieve14(n: nat)
    requires 190 <= n < 207
    ensures NoSmallFactor(n) <==> n in [191, 193, 197, 199]
  {
    assert n == 190 || n == 191 || n == 192 || n == 193 || n == 194 || n == 195 || n == 196 || n == 197 || n == 198
           || n == 199 || n == 200 || n == 201 || n == 202 || n == 203 || n == 204 || n == 205 || n == 206;
  }

  lemma Sieve15(n: nat)
    requires 207 <= n < 224
    ensures NoSmallFactor(n) <==> n in [211, 223]
  {
    assert n == 207 || n == 208 || n == 209 || n == 210 || n == 211 || n == 212 || n == 213 || n == 214 || n == 215
           || n == 216 || n == 217 || n == 218 || n == 219 || n == 220 || n == 221 || n == 222 || n == 223;
  }

  lemma Sieve16(n: nat)
    requires 224 <= n < 237
    ensures NoSmallFactor(n) <==> n in [227, 229, 233]
  {
    assert n == 224 || n == 225 || n == 226 || n == 227 || n == 228 || n == 229 || n == 230 || n == 231 || n == 232
           || n == 233 || n == 234 || n == 235 || n == 236;
  }

  lemma Sieve17(n: nat)
    requires 237 <= n < 250
    ensures NoSmallFactor(n) <==> n in [239, 241]
  {
    assert n == 237 || n == 238 || n == 239 || n == 240 || n == 241 || n == 242 || n == 243 || n == 244 || n == 245
           || n == 246 || n == 247 || n == 248 || n == 249;
  }

  lemma Sieve18(n: nat)
    requires 250 <= n < 264
    ensures NoSmallFactor(n) <==> n in [251, 257, 263]
  {
    assert n == 250 || n == 251 || n == 252 || n == 253 || n == 254 || n == 255 || n == 256 || n == 257 || n == 258
           || n == 259 || n == 260 || n == 261 || n == 262 || n == 263;
  }

  lemma Sieve19(n: nat)
    requires 264 <= n < 280
    ensures NoSmallFactor(n) <==> n in [269, 271, 277]
  {
    assert n == 264 || n == 265 || n == 266 || n == 267 || n == 268 || n == 269 || n == 270 || n == 271 || n == 272
           || n == 273 || n == 274 || n == 275 || n == 276 || n == 277 || n == 278 || n == 279;
  }

  lemma Sieve20(n: nat)
    requires 280 <= n < 296
    ensures NoSmallFactor(n) <==> n in [281, 283, 293]
  {
    assert n == 280 || n == 281 || n == 282 || n == 283 || n == 284 || n == 285 || n == 286 || n == 287 || n == 288
           || n == 289 || n == 290 || n == 291 || n == 292 || n == 293 || n == 294 || n == 295;
  }

  lemma Sieve21(n: nat)
    requires 296 <= n < 312
    ensures NoSmallFactor(n) <==> n in [307, 311]
  {
    assert n == 296 || n == 297 || n == 298 || n == 299 || n == 300 || n == 301 || n == 302 || n == 303 || n == 304
           || n == 305 || n == 306 || n == 307 || n == 308 || n == 309 || n == 310 || n == 311;
  }

  lemma Primes0()
    ensures RowPasses(NoSmallFactor, PRIMES, 0, 2, 20)
  {
    forall n | 2 <= n < 20 ensures NoSmallFactor(n) <==> n in [2, 3, 5, 7, 11, 13, 17, 19] {
      if n < 11 {
        Sieve0(n);
      } else {
        Sieve1(n);
      }
    }
    RowOfPrimes(NoSmallFactor, PRIMES, 0, 2, 20, 2, 3, 5, 7, 11, 13, 17, 19);
  }

  lemma Primes1()
    ensures RowPasses(NoSmallFactor, PRIMES, 8, 20, 54)
  {
    forall n | 20 <= n < 54 ensures NoSmallFactor(n) <==> n in [23, 29, 31, 37, 41, 43, 47, 53] {
      if n < 37 {
        Sieve2(n);
      } else {
        Sieve3(n);
      }
    }
    RowOfPrimes(NoSmallFactor, PRIMES, 8, 20, 54, 23, 29, 31, 37, 41, 43, 47, 53);
  }

  lemma Primes2()
    ensures RowPasses(NoSmallFactor, PRIMES, 16, 54, 90)
  {
    forall n | 54 <= n < 90 ensures NoSmallFactor(n) <==> n in [59, 61, 67, 71, 73, 79, 83, 89] {
      if n < 66 {
        Sieve4(n);
      } else if n < 78 {
        Sieve5(n);
      } else {
        Sieve6(n);
      }
    }
    RowOfPrimes(NoSmallFactor, PRIMES, 16, 54, 90, 59, 61, 67, 71, 73, 79, 83, 89);
  }

  lemma Primes3()
    ensures RowPasses(NoSmallFactor, PRIMES, 24, 90, 132)
  {
    forall n | 90 <= n < 132 ensures NoSmallFactor(n) <==> n in [97, 101, 103, 107, 109, 113, 127, 131] {
      if n < 104 {
        Sieve7(n);
      } else if n < 118 {
        Sieve8(n);
      } else {
        Sieve9(n);
      }
    }
    RowOfPrimes(NoSmallFactor, PRIMES, 24, 90, 132, 97, 101, 103, 107, 109, 113, 127, 131);
  }

  lemma Primes4()
    ensures RowPasses(NoSmallFactor, PRIMES, 32, 132, 174)
  {
    forall n | 132 <= n < 174 ensures NoSmallFactor(n) <==> n in [137, 139, 149, 151, 157, 163, 167, 173] {
      if n < 146 {
        Sieve10(n);
      } else if n < 160 {
        Sieve11(n);
      } else {
        Sieve12(n);
      }
    }
    RowOfPrimes(NoSmallFactor, PRIMES, 32, 132, 174, 137, 139, 149, 151, 157, 163, 167, 173);
  }

  lemma Primes5()
    ensures RowPasses(NoSmallFactor, PRIMES, 40, 174, 224)
  {
    forall n | 174 <= n < 224 ensures NoSmallFactor(n) <==> n in [179, 181, 191, 193, 197, 199, 211, 223] {
      if n < 190 {
        Sieve13(n);
      } else if n < 207 {
        Sieve14(n);
      } else {
        Sieve15(n);
      }
    }
    RowOfPrimes(NoSmallFactor, PRIMES, 40, 174, 224, 179, 181, 191, 193, 197, 199, 211, 223);
  }

  lemma Primes6()
    ensures RowPasses(NoSmallFactor, PRIMES, 48, 224, 264)
  {
    forall n | 224 <= n < 264 ensures NoSmallFactor(n) <==> n in [227, 229, 233, 239, 241, 251, 257, 263] {
      if n < 237 {
        Sieve16(n);
      } else if n < 250 {
        Sieve17(n);
      } else {
        Sieve18(n);
      }
    }
    RowOfPrimes(NoSmallFactor, PRIMES, 48, 224, 264, 227, 229, 233, 239, 241, 251, 257, 263);
  }

  lemma Primes7()
    ensures RowPasses(NoSmallFactor, PRIMES, 56, 264, 312)
  {
    forall n | 264 <= n < 312 ensures NoSmallFactor(n) <==> n in [269, 271, 277, 281, 283, 293, 307, 311] {
      if n < 280 {
        Sieve19(n);
      } else if n < 296 {
        Sieve20(n);
      } else {
        Sieve21(n);
      }
    }
    RowOfPrimes(NoSmallFactor, PRIMES, 56, 264, 312, 269, 271, 277, 281, 283, 293, 307, 311);
  }

  lemma Roots0()
    ensures RowRoots(IsCubeRoot, PRIMES, K, 0)
  {
    RowOfRoots(IsCubeRoot, PRIMES, K, 0,
               2, 3, 5, 7, 11, 13, 17, 19,
               1, 1, 1, 1, 2, 2, 2, 2,
               0x428a2f98, 0x71374491, 0xb5c0fbcf, 0xe9b5dba5, 0x3956c25b, 0x59f111f1, 0x923f82a4, 0xab1c5ed5);
  }

  lemma Roots1()
    ensures RowRoots(IsCubeRoot, PRIMES, K, 8)
  {
    RowOfRoots(IsCubeRoot, PRIMES, K, 8,
               23, 29, 31, 37, 41, 43, 47, 53,
               2, 3, 3, 3, 3, 3, 3, 3,
               0xd807aa98, 0x12835b01, 0x243185be, 0x550c7dc3, 0x72be5d74, 0x80deb1fe, 0x9bdc06a7, 0xc19bf174);
  }

  lemma Roots2()
    ensures RowRoots(IsCubeRoot, PRIMES, K, 16)
  {
    RowOfRoots(IsCubeRoot, PRIMES, K, 16,
               59, 61, 67, 71, 73, 79, 83, 89,
               3, 3, 4, 4, 4, 4, 4, 4,
               0xe49b69c1, 0xefbe4786, 0x0fc19dc6, 0x240ca1cc, 0x2de92c6f, 0x4a7484aa, 0x5cb0a9dc, 0x76f988da);
  }

  lemma Roots3()
    ensures RowRoots(IsCubeRoot, PRIMES, K, 24)
  {
    RowOfRoots(IsCubeRoot, PRIMES, K, 24,
               97, 101, 103, 107, 109, 113, 127, 131,
               4, 4, 4, 4, 4, 4, 5, 5,
               0x983e5152, 0xa831c66d, 0xb00327c8, 0xbf597fc7, 0xc6e00bf3, 0xd5a79147, 0x06ca6351, 0x14292967);
  }

  lemma Roots4()
    ensures RowRoots(IsCubeRoot, PRIMES, K, 32)
  {
    RowOfRoots(IsCubeRoot, PRIMES, K, 32,
               137, 139, 149, 151, 157, 163, 167, 173,
               5, 5, 5, 5, 5, 5, 5, 5,
               0x27b70a85, 0x2e1b2138, 0x4d2c6dfc, 0x53380d13, 0x650a7354, 0x766a0abb, 0x81c2c92e, 0x92722c85);
  }

  lemma Roots5()
    ensures RowRoots(IsCubeRoot, PRIMES, K, 40)
  {
    RowOfRoots(IsCubeRoot, PRIMES, K, 40,
               179, 181, 191, 193, 197, 199, 211, 223,
               5, 5, 5, 5, 5, 5, 5, 6,
               0xa2bfe8a1, 0xa81a664b, 0xc24b8b70, 0xc76c51a3, 0xd192e819, 0xd6990624, 0xf40e3585, 0x106aa070);
  }

  lemma Roots6()
    ensures RowRoots(IsCubeRoot, PRIMES, K, 48)
  {
    RowOfRoots(IsCubeRoot, PRIMES, K, 48,
               227, 229, 233, 239, 241, 251, 257, 263,
               6, 6, 6, 6, 6, 6, 6, 6,
               0x19a4c116, 0x1e376c08, 0x2748774c, 0x34b0bcb5, 0x391c0cb3, 0x4ed8aa4a, 0x5b9cca4f, 0x682e6ff3);
  }

  lemma Roots7()
    ensures RowRoots(IsCubeRoot, PRIMES, K, 56)
  {
    RowOfRoots(IsCubeRoot, PRIMES, K, 56,
               269, 271, 277, 281, 283, 293, 307, 311,
               6, 6, 6, 6, 6, 6, 6, 6,
               0x748f82ee, 0x78a5636f, 0x84c87814, 0x8cc70208, 0x90befffa, 0xa4506ceb, 0xbef9a3f7, 0xc67178f2);
  }

  ghost function PrimeTest(): NumberTest {
    (n: nat) => Prime(n)
  }

  /** PRIMES lists the primes up to 311, all of them, in increasing order: entry i is the i-th prime. */
  lemma FirstPrimes()
    ensures |PRIMES| == 64 && forall i :: 0 <= i < 64 ==> Prime(PRIMES[i])
    ensures forall i :: 0 < i < 64 ==> PRIMES[i - 1] < PRIMES[i]
    ensures forall n :: Prime(n) && n <= 311 ==> n in PRIMES
  {
    Primes0();
    Primes1();
    Primes2();
    Primes3();
    Primes4();
    Primes5();
    Primes6();
    Primes7();
    forall n: nat | 2 <= n < 324 ensures PrimeTest()(n) == NoSmallFactor(n) {
      PrimeIff(n);
    }
    AllPrimes(NoSmallFactor, PrimeTest(), PRIMES);
    assert forall i :: 0 <= i < 64 ==> PrimeTest()(PRIMES[i]);
    assert forall n: nat :: PrimeTest()(n) == Prime(n);
  }

  lemma RootBits(p: nat, w: nat)
    requires HasRoot(IsCubeRoot, p, w)
    ensures CubeRootBits(p, w)
  {
    var c :| IsCubeRoot(p, c, w);
  }

  /** Round constant i is the first 32 bits of the fractional part of the cube root of the i-th prime. */
  lemma RoundConstants(i: nat)
    requires i < 64
    ensures |K| == |PRIMES| == 64 && CubeRootBits(PRIMES[i], K[i] as nat)
  {
    Roots0();
    Roots1();
    Roots2();
    Roots3();
    Roots4();
    Roots5();
    Roots6();
    Roots7();
    AllRoots(IsCubeRoot, PRIMES, K, i);
    RootBits(PRIMES[i], K[i] as nat);
  }

  /** Initial hash word i is the first 32 bits of the fractional part of the square root of the i-th prime. */
  lemma InitialHash(i: nat)
    requires i < 8
    ensures |H0| == 8 && SquareRootBits(PRIMES[i], H0[i] as nat)
  {
    assert IsSquareRoot(2, 1, 0x6a09e667);
    assert IsSquareRoot(3, 1, 0xbb67ae85);
    assert IsSquareRoot(5, 2, 0x3c6ef372);
    assert IsSquareRoot(7, 2, 0xa54ff53a);
    assert IsSquareRoot(11, 3, 0x510e527f);
    assert IsSquareRoot(13, 3, 0x9b05688c);
    assert IsSquareRoot(17, 4, 0x1f83d9ab);
    assert IsSquareRoot(19, 4, 0x5be0cd19);
    assert i in {0, 1, 2, 3, 4, 5, 6, 7};
  }
}
