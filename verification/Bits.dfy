/** Machine words as integers: powers of two, wrap-around, shifts and bitwise operations. */
module Bits {

  /** 2 to the power k. */
  function Pow2(k: nat): (r: nat)
    ensures r > 0
  {
    if k == 0 then 1 else 2 * Pow2(k - 1)
  }

  /** Two's-complement reading of the low 32 bits: what an `int` keeps of a value. */
  function Wrap32(x: int): (r: int)
    ensures -0x8000_0000 <= r < 0x8000_0000
    ensures (r - x) % 0x1_0000_0000 == 0
  {
    var m := x % 0x1_0000_0000;
    if m < 0x8000_0000 then m else m - 0x1_0000_0000
  }

  /** Right shift by n places. */
  function Shr(x: nat, n: nat): (r: nat)
    ensures r <= x
  {
    if n == 0 then x else Shr(x / 2, n - 1)
  }

  /** Left shift by n places, nothing lost. */
  function Shl(x: nat, n: nat): (r: nat)
    ensures r >= x
  {
    if n == 0 then x else 2 * Shl(x, n - 1)
  }

  datatype Op = And | Or | Xor

  /** The operation on single bits. */
  function OnBit(op: Op, a: nat, b: nat): (r: nat)
    requires a < 2 && b < 2
    ensures r < 2
  {
    match op
    case And => if a == 1 && b == 1 then 1 else 0
    case Or => if a == 1 || b == 1 then 1 else 0
    case Xor => if a != b then 1 else 0
  }

  /** The operation on all bits of two words of any width. */
  function Bitwise(op: Op, x: nat, y: nat): nat
    decreases x + y
  {
    if x == 0 && y == 0 then 0
    else OnBit(op, x % 2, y % 2) + 2 * Bitwise(op, x / 2, y / 2)
  }

  function BitAnd(x: nat, y: nat): nat { Bitwise(And, x, y) }

  function BitOr(x: nat, y: nat): nat { Bitwise(Or, x, y) }

  function BitXor(x: nat, y: nat): nat { Bitwise(Xor, x, y) }

  /** 32-bit and 64-bit operands give 32-bit and 64-bit results. */
  lemma BitwiseFits(op: Op, x: nat, y: nat)
    ensures x < 0x1_0000_0000 && y < 0x1_0000_0000 ==> Bitwise(op, x, y) < 0x1_0000_0000
    ensures x < 0x1_0000_0000_0000_0000 && y < 0x1_0000_0000_0000_0000 ==> Bitwise(op, x, y) < 0x1_0000_0000_0000_0000
  {
    Pow2Values();
    if x < 0x1_0000_0000 && y < 0x1_0000_0000 {
      BitwiseBound(op, x, y, 32);
    }
    if x < 0x1_0000_0000_0000_0000 && y < 0x1_0000_0000_0000_0000 {
      BitwiseBound(op, x, y, 64);
    }
  }

  lemma {:induction false} Pow2Sum(a: nat, b: nat)
    ensures Pow2(a + b) == Pow2(a) * Pow2(b)
  {
    if a != 0 {
      Pow2Sum(a - 1, b);
      assert Pow2(a + b) == 2 * Pow2(a - 1 + b);
      assert 2 * (Pow2(a - 1) * Pow2(b)) == (2 * Pow2(a - 1)) * Pow2(b);
    }
  }

  lemma Pow2Values()
    ensures Pow2(3) == 8 && Pow2(8) == 0x100 && Pow2(13) == 0x2000
    ensures Pow2(16) == 0x1_0000 && Pow2(24) == 0x100_0000
    ensures Pow2(32) == 0x1_0000_0000 && Pow2(64) == 0x1_0000_0000_0000_0000
  {
    assert Pow2(3) == 8 && Pow2(5) == 32 by {
      assert Pow2(2) == 4;
    }
    hide Pow2;
    Pow2Sum(3, 5);
    Pow2Sum(8, 5);
    Pow2Sum(8, 8);
    Pow2Sum(16, 8);
    Pow2Sum(16, 16);
    Pow2Sum(32, 32);
  }

  lemma SmallPowers()
    ensures Pow2(0) == 1 && Pow2(1) == 2 && Pow2(2) == 4 && Pow2(3) == 8 && Pow2(4) == 16
    ensures Pow2(5) == 32 && Pow2(6) == 64 && Pow2(7) == 128 && Pow2(8) == 256
  {
    assert Pow2(1) == 2 * Pow2(0);
    assert Pow2(2) == 2 * Pow2(1);
    assert Pow2(3) == 2 * Pow2(2);
    assert Pow2(4) == 2 * Pow2(3);
    assert Pow2(5) == 2 * Pow2(4);
    assert Pow2(6) == 2 * Pow2(5);
    assert Pow2(7) == 2 * Pow2(6);
    assert Pow2(8) == 2 * Pow2(7);
  }

  /** The quotient and remainder are determined by the division identity. */
  lemma DivModUnique(x: int, p: int, q: int, r: int)
    requires p > 0 && 0 <= r < p && x == p * q + r
    ensures x / p == q && x % p == r
  {
    var d := x / p - q;
    assert x == p * (x / p) + x % p;
    assert p * d == p * (x / p) - p * q;
    assert d >= 1 ==> p * d >= p;
    assert d <= -1 ==> p * d <= -p;
  }

  /** Whole multiples of the modulus do not count. */
  lemma ModShift(x: int, m: int, h: int)
    requires m > 0
    ensures (m * h + x) % m == x % m
  {
    assert m * (h + x / m) == m * h + m * (x / m);
    DivModUnique(m * h + x, m, h + x / m, x % m);
  }

  /** Halving commutes with truncation. */
  lemma ModHalf(x: nat, p: nat)
    requires p > 0
    ensures x % (2 * p) / 2 == x / 2 % p && x % (2 * p) % 2 == x % 2
  {
    var q, r := x / (2 * p), x % (2 * p);
    assert x == 2 * p * q + r;
    assert 2 * p * q == 2 * (p * q);
    DivModUnique(x / 2, p, q, r / 2);
  }

  lemma TruncateStep(o: nat, z: nat, p: nat)
    requires o < 2 && p > 0
    ensures (o + 2 * z) % (2 * p) == o + 2 * (z % p)
  {
    var q := z / p;
    assert z == p * q + z % p;
    assert 2 * p * q == 2 * (p * q);
    DivModUnique(o + 2 * z, 2 * p, q, o + 2 * (z % p));
  }

  /** Truncation to k bits commutes with every bitwise operation. */
  lemma {:induction false} BitwiseLow(op: Op, x: nat, y: nat, k: nat)
    ensures Bitwise(op, x, y) % Pow2(k) == Bitwise(op, x % Pow2(k), y % Pow2(k))
  {
    if k != 0 {
      BitwiseLow(op, x / 2, y / 2, k - 1);
      BitwiseLowStep(op, x, y, Pow2(k - 1));
    }
  }

  lemma BitwiseLowStep(op: Op, x: nat, y: nat, p: nat)
    requires p > 0
    requires Bitwise(op, x / 2, y / 2) % p == Bitwise(op, x / 2 % p, y / 2 % p)
    ensures Bitwise(op, x, y) % (2 * p) == Bitwise(op, x % (2 * p), y % (2 * p))
  {
    hide Bitwise;
    ModHalf(x, p);
    ModHalf(y, p);
    var z := Bitwise(op, x / 2, y / 2);
    BitwiseJoin(op, x % (2 * p), y % (2 * p), x % 2, y % 2, x / 2 % p, y / 2 % p);
    BitwiseJoin(op, x, y, x % 2, y % 2, x / 2, y / 2);
    TruncateStep(OnBit(op, x % 2, y % 2), z, p);
  }

  lemma BitwiseJoin(op: Op, x: nat, y: nat, a: nat, b: nat, x': nat, y': nat)
    requires a < 2 && b < 2 && x == a + 2 * x' && y == b + 2 * y'
    ensures Bitwise(op, x, y) == OnBit(op, a, b) + 2 * Bitwise(op, x', y')
  {
    hide Bitwise, OnBit;
    BitwiseStep(op, x, y);
    LowBit(x, a, x');
    LowBit(y, b, y');
  }

  lemma LowBit(x: nat, a: nat, x': nat)
    requires a < 2 && x == a + 2 * x'
    ensures x % 2 == a && x / 2 == x'
  {
  }

  /** The low bit and the rest of a bitwise operation. */
  lemma BitwiseStep(op: Op, x: nat, y: nat)
    ensures Bitwise(op, x, y) == OnBit(op, x % 2, y % 2) + 2 * Bitwise(op, x / 2, y / 2)
  {
  }

  /** A bitwise operation does not widen its operands. */
  lemma {:induction false} BitwiseBound(op: Op, x: nat, y: nat, k: nat)
    requires x < Pow2(k) && y < Pow2(k)
    ensures Bitwise(op, x, y) < Pow2(k)
  {
    if k != 0 {
      BitwiseBound(op, x / 2, y / 2, k - 1);
      BitwiseStep(op, x, y);
    }
  }

  /** An `and` with k ones keeps the low k bits. */
  lemma {:induction false} MaskIsMod(x: nat, k: nat)
    ensures BitAnd(x, Pow2(k) - 1) == x % Pow2(k)
  {
    if k == 0 {
      AndZero(x);
    } else {
      var p := Pow2(k - 1);
      MaskIsMod(x / 2, k - 1);
      AndOddStep(x, p - 1);
      ModHalf(x, p);
      assert Pow2(k) == 2 * p;
    }
  }

  lemma AndOddStep(x: nat, m: nat)
    ensures BitAnd(x, 2 * m + 1) == x % 2 + 2 * BitAnd(x / 2, m)
  {
    BitwiseStep(And, x, 2 * m + 1);
  }

  lemma {:induction false} AndZero(x: nat)
    ensures BitAnd(x, 0) == 0
    decreases x
  {
    if x != 0 {
      AndZero(x / 2);
    }
  }

  lemma {:induction false} OrZero(x: nat)
    ensures BitOr(x, 0) == x
    decreases x
  {
    if x != 0 {
      OrZero(x / 2);
    }
  }

  /** Or-ing bits into places that are still clear is addition. */
  lemma {:induction false} OrDisjoint(high: nat, low: nat, k: nat)
    requires low < Pow2(k)
    ensures BitOr(Pow2(k) * high, low) == Pow2(k) * high + low
  {
    if k == 0 {
      OrZero(high);
    } else {
      var p := Pow2(k - 1);
      assert Pow2(k) * high == 2 * (p * high);
      assert p * high >= 0;
      OrDisjoint(high, low / 2, k - 1);
      BitwiseStep(Or, 2 * (p * high), low);
    }
  }
}
