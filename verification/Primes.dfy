/** The first sixty-four primes. */
module Primes {
  import opened Bits

  predicate IsPrime(n: nat) {
    n >= 2 && forall d :: 2 <= d < n ==> n % d != 0
  }

  /** The primes, in rows of eight. */
  function PrimeRow(r: nat): (row: seq<nat>)
    requires r < 8
    ensures |row| == 8
  {
    if r == 0 then [2, 3, 5, 7, 11, 13, 17, 19]
    else if r == 1 then [23, 29, 31, 37, 41, 43, 47, 53]
    else if r == 2 then [59, 61, 67, 71, 73, 79, 83, 89]
    else if r == 3 then [97, 101, 103, 107, 109, 113, 127, 131]
    else if r == 4 then [137, 139, 149, 151, 157, 163, 167, 173]
    else if r == 5 then [179, 181, 191, 193, 197, 199, 211, 223]
    else if r == 6 then [227, 229, 233, 239, 241, 251, 257, 263]
    else [269, 271, 277, 281, 283, 293, 307, 311]
  }

  /** Prime t, counted from 0. */
  function Prime(t: nat): nat
    requires t < 64
  {
    PrimeRow(t / 8)[t % 8]
  }

  /** Not divisible by any prime below 19. */
  predicate NoSmallDivisor(n: nat) {
    && n % 2 != 0 && n % 3 != 0 && n % 5 != 0 && n % 7 != 0
    && n % 11 != 0 && n % 13 != 0 && n % 17 != 0
  }

  lemma Multiple(p: nat, k: nat)
    requires p > 0
    ensures p * k % p == 0
  {
    DivModUnique(p * k, p, k, 0);
  }

  lemma PrimeFactor(m: nat) returns (p: nat)
    requires 2 <= m <= 18
    ensures p in {2, 3, 5, 7, 11, 13, 17} && m % p == 0
  {
    p := if m % 2 == 0 then 2 else if m % 3 == 0 then 3 else if m % 5 == 0 then 5 else m;
  }

  /** A number below 19 has a prime factor below 19, and so has what it divides. */
  lemma SmallFactor(n: nat, m: nat, e: nat)
    requires 2 <= m <= 18 && n == m * e
    ensures !NoSmallDivisor(n)
  {
    hide NoSmallDivisor;
    var p := PrimeFactor(m);
    var q := m / p;
    assert m == p * q;
    assert p * q * e == p * (q * e);
    Multiple(p, q * e);
    Divides(n, p);
  }

  lemma Divides(n: nat, p: nat)
    requires p in {2, 3, 5, 7, 11, 13, 17} && n % p == 0
    ensures !NoSmallDivisor(n)
  {
  }

  /** Below 19 * 19 the primes below 19 decide. */
  lemma SmallDivisorsDecide(n: nat)
    requires 18 < n < 361
    ensures IsPrime(n) <==> NoSmallDivisor(n)
  {
    if NoSmallDivisor(n) {
      forall d | 2 <= d < n
        ensures n % d != 0
      {
        if n % d == 0 {
          var e := n / d;
          assert n == d * e == e * d;
          if d <= 18 {
            SmallFactor(n, d, e);
          } else {
            Cofactor(n, d, e);
            SmallFactor(n, e, d);
          }
        }
      }
    }
  }

  lemma Cofactor(n: nat, d: nat, e: nat)
    requires 18 < d < n < 361 && n == d * e
    ensures 2 <= e <= 18
  {
    assert e <= 1 ==> d * e <= d;
    assert e >= 19 ==> d * e >= 19 * e;
  }

  /** A number in a range of twenty is one of twenty. */
  lemma Among(low: nat, n: nat)
    requires low <= n < low + 20
    ensures || n == low || n == low + 1 || n == low + 2 || n == low + 3 || n == low + 4
            || n == low + 5 || n == low + 6 || n == low + 7 || n == low + 8 || n == low + 9
            || n == low + 10 || n == low + 11 || n == low + 12 || n == low + 13 || n == low + 14
            || n == low + 15 || n == low + 16 || n == low + 17 || n == low + 18 || n == low + 19
  {
  }

  // Between the ends of a row, the numbers with no small divisor are those of the row.

  lemma Row1a(n: nat) requires 23 <= n < 31 ensures NoSmallDivisor(n) <==> n in [23, 29] { Among(23, n); }
  lemma Row1b(n: nat) requires 31 <= n < 41 ensures NoSmallDivisor(n) <==> n in [31, 37] { Among(31, n); }
  lemma Row1c(n: nat) requires 41 <= n < 47 ensures NoSmallDivisor(n) <==> n in [41, 43] { Among(41, n); }
  lemma Row1d(n: nat) requires 47 <= n < 59 ensures NoSmallDivisor(n) <==> n in [47, 53] { Among(47, n); }
  lemma Row2a(n: nat) requires 59 <= n < 67 ensures NoSmallDivisor(n) <==> n in [59, 61] { Among(59, n); }
  lemma Row2b(n: nat) requires 67 <= n < 73 ensures NoSmallDivisor(n) <==> n in [67, 71] { Among(67, n); }
  lemma Row2c(n: nat) requires 73 <= n < 83 ensures NoSmallDivisor(n) <==> n in [73, 79] { Among(73, n); }
  lemma Row2d(n: nat) requires 83 <= n < 97 ensures NoSmallDivisor(n) <==> n in [83, 89] { Among(83, n); }
  lemma Row3a(n: nat) requires 97 <= n < 103 ensures NoSmallDivisor(n) <==> n in [97, 101] { Among(97, n); }
  lemma Row3b(n: nat) requires 103 <= n < 109 ensures NoSmallDivisor(n) <==> n in [103, 107] { Among(103, n); }
  lemma Row3c(n: nat) requires 109 <= n < 127 ensures NoSmallDivisor(n) <==> n in [109, 113] { Among(109, n); }
  lemma Row3d(n: nat) requires 127 <= n < 137 ensures NoSmallDivisor(n) <==> n in [127, 131] { Among(127, n); }
  lemma Row4a(n: nat) requires 137 <= n < 149 ensures NoSmallDivisor(n) <==> n in [137, 139] { Among(137, n); }
  lemma Row4b(n: nat) requires 149 <= n < 157 ensures NoSmallDivisor(n) <==> n in [149, 151] { Among(149, n); }
  lemma Row4c(n: nat) requires 157 <= n < 167 ensures NoSmallDivisor(n) <==> n in [157, 163] { Among(157, n); }
  lemma Row4d(n: nat) requires 167 <= n < 179 ensures NoSmallDivisor(n) <==> n in [167, 173] { Among(167, n); }
  lemma Row5a(n: nat) requires 179 <= n < 191 ensures NoSmallDivisor(n) <==> n in [179, 181] { Among(179, n); }
  lemma Row5b(n: nat) requires 191 <= n < 197 ensures NoSmallDivisor(n) <==> n in [191, 193] { Among(191, n); }
  lemma Row5c(n: nat) requires 197 <= n < 211 ensures NoSmallDivisor(n) <==> n in [197, 199] { Among(197, n); }
  lemma Row5d(n: nat) requires 211 <= n < 227 ensures NoSmallDivisor(n) <==> n in [211, 223] { Among(211, n); }
  lemma Row6a(n: nat) requires 227 <= n < 233 ensures NoSmallDivisor(n) <==> n in [227, 229] { Among(227, n); }
  lemma Row6b(n: nat) requires 233 <= n < 241 ensures NoSmallDivisor(n) <==> n in [233, 239] { Among(233, n); }
  lemma Row6c(n: nat) requires 241 <= n < 257 ensures NoSmallDivisor(n) <==> n in [241, 251] { Among(241, n); }
  lemma Row6d(n: nat) requires 257 <= n < 269 ensures NoSmallDivisor(n) <==> n in [257, 263] { Among(257, n); }
  lemma Row7a(n: nat) requires 269 <= n < 281 ensures NoSmallDivisor(n) <==> n in [269, 271, 277] { Among(269, n); }
  lemma Row7b(n: nat) requires 281 <= n < 293 ensures NoSmallDivisor(n) <==> n in [281, 283] { Among(281, n); }
  lemma Row7c(n: nat) requires 293 <= n < 307 ensures NoSmallDivisor(n) <==> n in [293] { Among(293, n); }
  lemma Row7d(n: nat) requires 307 <= n < 312 ensures NoSmallDivisor(n) <==> n in [307, 311] { Among(307, n); }

  lemma FirstRow(n: nat)
    requires 2 <= n < 23
    ensures IsPrime(n) <==> n in PrimeRow(0)
  {
    if n > 18 {
      SmallDivisorsDecide(n);
    } else if n !in PrimeRow(0) {
      assert n % 2 == 0 || n % 3 == 0;
    }
  }

  /** The numbers from the first prime of a row to the last one. */
  lemma PrimesOfRow(r: nat, n: nat)
    requires r < 8 && PrimeRow(r)[0] <= n < if r < 7 then PrimeRow(r + 1)[0] else 312
    ensures IsPrime(n) <==> n in PrimeRow(r)
  {
    hide IsPrime, NoSmallDivisor;
    if r == 0 {
      FirstRow(n);
    } else {
      SmallDivisorsDecide(n);
      if r == 1 {
        if n < 31 { Row1a(n); } else if n < 41 { Row1b(n); } else if n < 47 { Row1c(n); } else { Row1d(n); }
      } else if r == 2 {
        if n < 67 { Row2a(n); } else if n < 73 { Row2b(n); } else if n < 83 { Row2c(n); } else { Row2d(n); }
      } else if r == 3 {
        if n < 103 { Row3a(n); } else if n < 109 { Row3b(n); } else if n < 127 { Row3c(n); } else { Row3d(n); }
      } else if r == 4 {
        if n < 149 { Row4a(n); } else if n < 157 { Row4b(n); } else if n < 167 { Row4c(n); } else { Row4d(n); }
      } else if r == 5 {
        if n < 191 { Row5a(n); } else if n < 197 { Row5b(n); } else if n < 211 { Row5c(n); } else { Row5d(n); }
      } else if r == 6 {
        if n < 233 { Row6a(n); } else if n < 241 { Row6b(n); } else if n < 257 { Row6c(n); } else { Row6d(n); }
      } else {
        if n < 281 { Row7a(n); } else if n < 293 { Row7b(n); } else if n < 307 { Row7c(n); } else { Row7d(n); }
      }
    }
  }

  lemma RowSorted(r: nat, i: nat, j: nat)
    requires r < 8 && i < j < 8
    ensures PrimeRow(r)[i] < PrimeRow(r)[j] && PrimeRow(7)[7] == 311
    ensures r < 7 ==> PrimeRow(r)[7] < PrimeRow(r + 1)[0]
  {
  }

  /** From 2 on, the next prime after each entry is the next entry. */
  lemma PrimesExactly(t: nat, n: nat)
    requires t < 63 && Prime(t) <= n < Prime(t + 1)
    ensures IsPrime(n) <==> n == Prime(t)
  {
    hide IsPrime, PrimeRow;
    var r, j := t / 8, t % 8;
    DivModUnique(t + 1, 8, if j < 7 then r else r + 1, if j < 7 then j + 1 else 0);
    if j > 0 {
      RowSorted(r, 0, j);
    }
    if j < 7 {
      RowSorted(r, j, j + 1);
      if j < 6 {
        RowSorted(r, j + 1, 7);
      }
    }
    RowSorted(r, 0, 1);
    PrimesOfRow(r, n);
    if n in PrimeRow(r) {
      var i :| 0 <= i < 8 && PrimeRow(r)[i] == n;
      if i < j {
        RowSorted(r, i, j);
      } else if j + 1 < i {
        RowSorted(r, j + 1, i);
      }
    }
  }

  lemma FirstAndLast()
    ensures Prime(0) == 2 && Prime(63) == 311 && IsPrime(311)
  {
    PrimesOfRow(7, 311);
  }
}
