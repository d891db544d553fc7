/** Unsigned machine arithmetic written over the mathematical integers. */
module Bits {

  type byte = b: int | 0 <= b < 256

  const U31 := 0x8000_0000
  const U32 := 0x1_0000_0000
  const U64 := 0x1_0000_0000_0000_0000

  /** Truncation of an integer to 64 and to 32 bits. */
  function Low64(x: int): (y: nat)
    ensures y < U64
  {
    x % 0x1_0000_0000_0000_0000
  }

  function Low32(x: int): (y: nat)
    ensures y < U32
  {
    x % 0x1_0000_0000
  }

  function Pow2(n: nat): (p: nat)
    ensures p > 0
  {
    if n == 0 then 1 else 2 * Pow2(n - 1)
  }

  /** Bitwise inclusive or, bit by bit from the least significant end. */
  function Or(a: nat, b: nat): nat
    decreases a + b
  {
    if a == 0 then b
    else if b == 0 then a
    else 2 * Or(a / 2, b / 2) + (if a % 2 == 0 && b % 2 == 0 then 0 else 1)
  }

  /** Or adds when the right operand starts above every bit of the left one. */
  lemma {:induction false} OrDisjoint(a: nat, m: nat, k: nat)
    requires a < Pow2(k)
    ensures Or(a, m * Pow2(k)) == a + m * Pow2(k)
  {
    if k > 0 && a > 0 && m > 0 {
      var h := m * Pow2(k - 1);
      assert m * Pow2(k) == 2 * h;
      OrDisjoint(a / 2, m, k - 1);
    }
  }

  lemma {:induction false} OrBound(a: nat, b: nat, k: nat)
    requires a < Pow2(k) && b < Pow2(k)
    ensures Or(a, b) < Pow2(k)
  {
    if a > 0 && b > 0 {
      OrBound(a / 2, b / 2, k - 1);
    }
  }

  lemma {:induction false} Pow2Add(a: nat, b: nat)
    ensures Pow2(a + b) == Pow2(a) * Pow2(b)
  {
    if b > 0 {
      Pow2Add(a, b - 1);
      assert Pow2(a + b) == 2 * Pow2(a + (b - 1));
    }
  }

  lemma {:induction false} Pow2Monotone(a: nat, b: nat)
    requires a <= b
    ensures Pow2(a) <= Pow2(b)
  {
    if a < b {
      Pow2Monotone(a, b - 1);
    }
  }

  /** 128^k, the weight of the k-th seven-bit group. */
  function Weight(k: nat): nat
    requires k <= 9
  {
    match k
    case 0 => 1
    case 1 => 0x80
    case 2 => 0x4000
    case 3 => 0x20_0000
    case 4 => 0x1000_0000
    case 5 => 0x8_0000_0000
    case 6 => 0x400_0000_0000
    case 7 => 0x2_0000_0000_0000
    case 8 => 0x100_0000_0000_0000
    case _ => 0x8000_0000_0000_0000
  }

  lemma {:induction false} Pow2Weight(k: nat)
    requires k <= 9
    ensures Pow2(7 * k) == Weight(k)
  {
    if k > 0 {
      Pow2Weight(k - 1);
      Pow2Group(k - 1);
    }
  }

  lemma Pow2Group(k: nat)
    ensures Pow2(7 * (k + 1)) == 128 * Pow2(7 * k)
  {
    var n := 7 * k;
    assert Pow2(n + 1) == 2 * Pow2(n);
    assert Pow2(n + 3) == 2 * Pow2(n + 2) == 4 * Pow2(n + 1);
    assert Pow2(n + 5) == 2 * Pow2(n + 4) == 4 * Pow2(n + 3);
    assert Pow2(n + 7) == 2 * Pow2(n + 6) == 4 * Pow2(n + 5);
  }

  /** 2^n from the largest group below it. */
  lemma {:induction false} Pow2Above(k: nat, n: nat)
    requires k <= 9 && 7 * k <= n <= 7 * k + 4
    ensures Pow2(n) == Weight(k) * [1, 2, 4, 8, 16][n - 7 * k]
  {
    if n == 7 * k {
      Pow2Weight(k);
    } else {
      Pow2Above(k, n - 1);
    }
  }

  /** Left shift in a 64-bit register: bits pushed past the top are lost. */
  function Shl64(x: nat, n: nat): (y: nat)
    ensures y < U64
    decreases n
  {
    if n == 0 then Low64(x) else Shl64(Low64(x * 2), n - 1)
  }

  /** Left shift in a 32-bit register. */
  function Shl32(x: nat, n: nat): (y: nat)
    ensures y < U32
    decreases n
  {
    if n == 0 then Low32(x) else Shl32(Low32(x * 2), n - 1)
  }

  /** Logical right shift. */
  function Shr(x: nat, n: nat): nat
    decreases n
  {
    if n == 0 then x else Shr(x / 2, n - 1)
  }

  /** Shifting a word of ones leaves a shorter word of ones. */
  lemma {:induction false} ShrOnes(r: nat, n: nat)
    ensures Shr(Pow2(r + n) - 1, n) == Pow2(r) - 1
    decreases n
  {
    if n > 0 {
      assert Pow2(r + n) == 2 * Pow2(r + (n - 1));
      ShrOnes(r, n - 1);
    }
  }

  lemma WrapMultiple(a: int, q: int)
    ensures Low64(a + q * 0x1_0000_0000_0000_0000) == Low64(a)
  {
  }

  lemma WrapMultiple32(a: int, q: int)
    ensures Low32(a + q * 0x1_0000_0000) == Low32(a)
  {
  }

  lemma ScaleWrapped(x: nat, y: nat, q: nat, p: nat, m: nat)
    requires x * 2 == y + q * m
    ensures x * (2 * p) == y * p + q * p * m
  {
    assert x * (2 * p) == x * 2 * p;
  }

  lemma {:induction false} Shl64IsProduct(x: nat, n: nat)
    ensures Shl64(x, n) == Low64(x * Pow2(n))
    decreases n
  {
    if n > 0 {
      var y, q := Low64(x * 2), x * 2 / 0x1_0000_0000_0000_0000;
      Shl64IsProduct(y, n - 1);
      Low64Scaled(x, y, q, Pow2(n - 1));
    }
  }

  lemma Low64Scaled(x: nat, y: nat, q: nat, p: nat)
    requires x * 2 == y + q * 0x1_0000_0000_0000_0000
    ensures Low64(x * (2 * p)) == Low64(y * p)
  {
    ScaleWrapped(x, y, q, p, 0x1_0000_0000_0000_0000);
    WrapMultiple(y * p, q * p);
  }

  lemma {:induction false} Shl32IsProduct(x: nat, n: nat)
    ensures Shl32(x, n) == Low32(x * Pow2(n))
    decreases n
  {
    if n > 0 {
      var y, q := Low32(x * 2), x * 2 / 0x1_0000_0000;
      Shl32IsProduct(y, n - 1);
      Low32Scaled(x, y, q, Pow2(n - 1));
    }
  }

  lemma Low32Scaled(x: nat, y: nat, q: nat, p: nat)
    requires x * 2 == y + q * 0x1_0000_0000
    ensures Low32(x * (2 * p)) == Low32(y * p)
  {
    ScaleWrapped(x, y, q, p, 0x1_0000_0000);
    WrapMultiple32(y * p, q * p);
  }

  lemma Shl64Exact(x: nat, n: nat)
    requires x * Pow2(n) < U64
    ensures Shl64(x, n) == x * Pow2(n)
  {
    hide Shl64, Pow2, Low64;
    Shl64IsProduct(x, n);
    ScaleBound(0, x, Pow2(n));
    Low64Below(x * Pow2(n));
  }

  lemma Low64Below(v: nat)
    requires v < U64
    ensures Low64(v) == v
  {
  }

  lemma Shl32Exact(x: nat, n: nat)
    requires x * Pow2(n) < U32
    ensures Shl32(x, n) == x * Pow2(n)
  {
    hide Shl32, Pow2, Low32;
    Shl32IsProduct(x, n);
    ScaleBound(0, x, Pow2(n));
    Low32Below(x * Pow2(n));
  }

  lemma Low32Below(v: nat)
    requires v < U32
    ensures Low32(v) == v
  {
  }

  lemma ScaleBound(a: nat, b: nat, p: nat)
    requires a <= b
    ensures a * p <= b * p
  {
  }

  /** Adding the next seven-bit group to a number read in base 128. */
  lemma Regroup(x: nat, g: nat, p: nat)
    ensures x * p + g * (128 * p) == (x + 128 * g) * p
  {
  }
}
