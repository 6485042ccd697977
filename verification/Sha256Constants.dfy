/** Where the SHA-256 constants come from: sections 4.2.2 and 5.3.3 of FIPS 180-4, without its tables. */
module Sha256Constants {
  import opened Primes
  import opened Sha256Spec

  function Cube(x: nat): nat { x * x * x }

  function Square(x: nat): nat { x * x }

  /** The cube root of p has the whole part `whole`, and k as its first 32 bits after the binary point. */
  predicate CubeRoot(p: nat, whole: nat, k: word) {
    var x := 0x1_0000_0000 * whole + k;
    Cube(x) <= p * 0x1_0000_0000_0000_0000_0000_0000 < Cube(x + 1)
  }

  /** The square root of p has the whole part `whole`, and k as its first 32 bits after the binary point. */
  predicate SquareRoot(p: nat, whole: nat, k: word) {
    var x := 0x1_0000_0000 * whole + k;
    Square(x) <= p * 0x1_0000_0000_0000_0000 < Square(x + 1)
  }

  predicate CubeRoots(p: seq<nat>, whole: seq<nat>, k: seq<word>)
    requires |p| == |whole| == |k| == 8
  {
    && CubeRoot(p[0], whole[0], k[0]) && CubeRoot(p[1], whole[1], k[1])
    && CubeRoot(p[2], whole[2], k[2]) && CubeRoot(p[3], whole[3], k[3])
    && CubeRoot(p[4], whole[4], k[4]) && CubeRoot(p[5], whole[5], k[5])
    && CubeRoot(p[6], whole[6], k[6]) && CubeRoot(p[7], whole[7], k[7])
  }

  lemma RootsRow0()
    ensures CubeRoot(2, 1, 0x428a2f98) && CubeRoot(3, 1, 0x71374491)
    ensures CubeRoot(5, 1, 0xb5c0fbcf) && CubeRoot(7, 1, 0xe9b5dba5)
    ensures CubeRoot(11, 2, 0x3956c25b) && CubeRoot(13, 2, 0x59f111f1)
    ensures CubeRoot(17, 2, 0x923f82a4) && CubeRoot(19, 2, 0xab1c5ed5)
  {
  }

  lemma RootsRow1()
    ensures CubeRoot(23, 2, 0xd807aa98) && CubeRoot(29, 3, 0x12835b01)
    ensures CubeRoot(31, 3, 0x243185be) && CubeRoot(37, 3, 0x550c7dc3)
    ensures CubeRoot(41, 3, 0x72be5d74) && CubeRoot(43, 3, 0x80deb1fe)
    ensures CubeRoot(47, 3, 0x9bdc06a7) && CubeRoot(53, 3, 0xc19bf174)
  {
  }

  lemma RootsRow2()
    ensures CubeRoot(59, 3, 0xe49b69c1) && CubeRoot(61, 3, 0xefbe4786)
    ensures CubeRoot(67, 4, 0x0fc19dc6) && CubeRoot(71, 4, 0x240ca1cc)
    ensures CubeRoot(73, 4, 0x2de92c6f) && CubeRoot(79, 4, 0x4a7484aa)
    ensures CubeRoot(83, 4, 0x5cb0a9dc) && CubeRoot(89, 4, 0x76f988da)
  {
  }

  lemma RootsRow3()
    ensures CubeRoot(97, 4, 0x983e5152) && CubeRoot(101, 4, 0xa831c66d)
    ensures CubeRoot(103, 4, 0xb00327c8) && CubeRoot(107, 4, 0xbf597fc7)
    ensures CubeRoot(109, 4, 0xc6e00bf3) && CubeRoot(113, 4, 0xd5a79147)
    ensures CubeRoot(127, 5, 0x06ca6351) && CubeRoot(131, 5, 0x14292967)
  {
  }

  lemma RootsRow4()
    ensures CubeRoot(137, 5, 0x27b70a85) && CubeRoot(139, 5, 0x2e1b2138)
    ensures CubeRoot(149, 5, 0x4d2c6dfc) && CubeRoot(151, 5, 0x53380d13)
    ensures CubeRoot(157, 5, 0x650a7354) && CubeRoot(163, 5, 0x766a0abb)
    ensures CubeRoot(167, 5, 0x81c2c92e) && CubeRoot(173, 5, 0x92722c85)
  {
  }

  lemma RootsRow5()
    ensures CubeRoot(179, 5, 0xa2bfe8a1) && CubeRoot(181, 5, 0xa81a664b)
    ensures CubeRoot(191, 5, 0xc24b8b70) && CubeRoot(193, 5, 0xc76c51a3)
    ensures CubeRoot(197, 5, 0xd192e819) && CubeRoot(199, 5, 0xd6990624)
    ensures CubeRoot(211, 5, 0xf40e3585) && CubeRoot(223, 6, 0x106aa070)
  {
  }

  lemma RootsRow6()
    ensures CubeRoot(227, 6, 0x19a4c116) && CubeRoot(229, 6, 0x1e376c08)
    ensures CubeRoot(233, 6, 0x2748774c) && CubeRoot(239, 6, 0x34b0bcb5)
    ensures CubeRoot(241, 6, 0x391c0cb3) && CubeRoot(251, 6, 0x4ed8aa4a)
    ensures CubeRoot(257, 6, 0x5b9cca4f) && CubeRoot(263, 6, 0x682e6ff3)
  {
  }

  lemma RootsRow7()
    ensures CubeRoot(269, 6, 0x748f82ee) && CubeRoot(271, 6, 0x78a5636f)
    ensures CubeRoot(277, 6, 0x84c87814) && CubeRoot(281, 6, 0x8cc70208)
    ensures CubeRoot(283, 6, 0x90befffa) && CubeRoot(293, 6, 0xa4506ceb)
    ensures CubeRoot(307, 6, 0xbef9a3f7) && CubeRoot(311, 6, 0xc67178f2)
  {
  }

  lemma OneOfRow(p: seq<nat>, whole: seq<nat>, k: seq<word>, j: nat)
    requires |p| == |whole| == |k| == 8 && j < 8 && CubeRoots(p, whole, k)
    ensures CubeRoot(p[j], whole[j], k[j])
  {
    hide CubeRoot;
  }

  /** The constants of a row are the fractions of the cube roots of its primes. */
  lemma ConstantsRow(r: nat) returns (whole: seq<nat>)
    requires r < 8
    ensures |whole| == 8 && CubeRoots(PrimeRow(r), whole, KRow(r))
  {
    hide CubeRoot;
    if r == 0 {
      RootsRow0();
      whole := [1, 1, 1, 1, 2, 2, 2, 2];
    } else if r == 1 {
      RootsRow1();
      whole := [2, 3, 3, 3, 3, 3, 3, 3];
    } else if r == 2 {
      RootsRow2();
      whole := [3, 3, 4, 4, 4, 4, 4, 4];
    } else if r == 3 {
      RootsRow3();
      whole := [4, 4, 4, 4, 4, 4, 5, 5];
    } else if r == 4 {
      RootsRow4();
      whole := [5, 5, 5, 5, 5, 5, 5, 5];
    } else if r == 5 {
      RootsRow5();
      whole := [5, 5, 5, 5, 5, 5, 5, 6];
    } else if r == 6 {
      RootsRow6();
      whole := [6, 6, 6, 6, 6, 6, 6, 6];
    } else {
      RootsRow7();
      whole := [6, 6, 6, 6, 6, 6, 6, 6];
    }
  }

  /** The constant of round t is the fraction of the cube root of prime t. */
  lemma RoundConstants(t: nat) returns (whole: nat)
    requires t < 64
    ensures CubeRoot(Prime(t), whole, K(t))
  {
    hide CubeRoots, CubeRoot, KRow, PrimeRow;
    var wholes := ConstantsRow(t / 8);
    OneOfRow(PrimeRow(t / 8), wholes, KRow(t / 8), t % 8);
    whole := wholes[t % 8];
  }

  /** The initial hash words are the fractions of the square roots of the first eight primes. */
  lemma InitialWords()
    ensures var v := InitialHash();
            && SquareRoot(2, 1, v.a) && SquareRoot(3, 1, v.b) && SquareRoot(5, 2, v.c) && SquareRoot(7, 2, v.d)
            && SquareRoot(11, 3, v.e) && SquareRoot(13, 3, v.f) && SquareRoot(17, 4, v.g) && SquareRoot(19, 4, v.h)
  {
    assert SquareRoot(2, 1, 0x6a09e667); assert SquareRoot(3, 1, 0xbb67ae85);
    assert SquareRoot(5, 2, 0x3c6ef372); assert SquareRoot(7, 2, 0xa54ff53a);
    assert SquareRoot(11, 3, 0x510e527f); assert SquareRoot(13, 3, 0x9b05688c);
    assert SquareRoot(17, 4, 0x1f83d9ab); assert SquareRoot(19, 4, 0x5be0cd19);
    var v := InitialHash();
    hide SquareRoot;
    assert v.a == 0x6a09e667 && v.b == 0xbb67ae85 && v.c == 0x3c6ef372 && v.d == 0xa54ff53a;
    assert v.e == 0x510e527f && v.f == 0x9b05688c && v.g == 0x1f83d9ab && v.h == 0x5be0cd19;
  }
}
