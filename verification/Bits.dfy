/** Machine words as integers: powers of two, the bitwise operators written out
    bit by bit, and the few facts about them that the arithmetic routines need. */
module Bits {

  import opened Arith

  const WORD32: nat := 0x1_0000_0000
  const WORD64: nat := 0x1_0000_0000_0000_0000
  const SIGN64: nat := 0x8000_0000_0000_0000

  type U32 = x: int | 0 <= x < 0x1_0000_0000
  type U64 = x: int | 0 <= x < 0x1_0000_0000_0000_0000
  type Words = seq<U32>

  /** Two to the n. */
  function Pow2(n: nat): (r: nat)
    ensures r >= 1
  {
    if n == 0 then 1 else 2 * Pow2(n - 1)
  }

  /** A one-bit field of a word, in place n. */
  function Bit(b: bool, n: nat): nat {
    if b then Pow2(n) else 0
  }

  /** x * Pow2(n), by repeated doubling. */
  function MulPow2(x: nat, n: nat): nat {
    if n == 0 then x else 2 * MulPow2(x, n - 1)
  }

  lemma {:induction false} MulPow2Is(x: nat, n: nat)
    ensures MulPow2(x, n) == x * Pow2(n)
  {
    if n > 0 {
      MulPow2Is(x, n - 1);
    }
  }

  lemma {:induction false} MulPow2Add(x: nat, m: nat, n: nat)
    ensures MulPow2(MulPow2(x, m), n) == MulPow2(x, m + n)
  {
    if n > 0 {
      MulPow2Add(x, m, n - 1);
    }
  }

  lemma {:induction false} MulPow2Zero(n: nat)
    ensures MulPow2(0, n) == 0
  {
    if n > 0 {
      MulPow2Zero(n - 1);
    }
  }

  lemma {:induction false} MulPow2AtLeast(x: nat, n: nat)
    ensures x <= MulPow2(x, n)
  {
    if n > 0 {
      MulPow2AtLeast(x, n - 1);
    }
  }

  lemma {:induction false} MulPow2Le(x: nat, y: nat, n: nat)
    requires x <= y
    ensures MulPow2(x, n) <= MulPow2(y, n)
  {
    if n > 0 {
      MulPow2Le(x, y, n - 1);
    }
  }

  lemma {:induction false} MulPow2Sum(x: nat, y: nat, n: nat)
    ensures MulPow2(x + y, n) == MulPow2(x, n) + MulPow2(y, n)
  {
    if n > 0 {
      MulPow2Sum(x, y, n - 1);
    }
  }

  lemma {:induction false} MulPow2Pow2(m: nat, n: nat)
    ensures MulPow2(Pow2(m), n) == Pow2(m + n)
  {
    if n > 0 {
      MulPow2Pow2(m, n - 1);
    }
  }

  /** x / Pow2(n), by repeated halving. */
  function DivPow2(x: nat, n: nat): (r: nat)
    ensures r <= x
  {
    if n == 0 then x else DivPow2(x / 2, n - 1)
  }

  lemma {:induction false} DivPow2Is(x: nat, n: nat)
    ensures DivPow2(x, n) == x / Pow2(n)
  {
    if n > 0 {
      DivPow2Is(x / 2, n - 1);
      DivTwice(x, Pow2(n - 1));
    }
  }

  function And(x: nat, y: nat): (r: nat)
    ensures r <= x && r <= y
  {
    if x == 0 || y == 0 then 0
    else 2 * And(x / 2, y / 2) + (if x % 2 == 1 && y % 2 == 1 then 1 else 0)
  }

  function Or(x: nat, y: nat): nat
    decreases x + y
  {
    if x == 0 && y == 0 then 0
    else 2 * Or(x / 2, y / 2) + (if x % 2 == 1 || y % 2 == 1 then 1 else 0)
  }

  function Xor(x: nat, y: nat): nat
    decreases x + y
  {
    if x == 0 && y == 0 then 0
    else 2 * Xor(x / 2, y / 2) + (if x % 2 != y % 2 then 1 else 0)
  }

  /** Logical shifts of a 64-bit word. A count outside 0..63 is undefined in C. */
  function Shl64(x: U64, n: int): U64
    requires 0 <= n < 64
  {
    MulPow2(x, n) % WORD64
  }

  function Shr64(x: U64, n: int): U64
    requires 0 <= n < 64
  {
    DivPow2(x, n)
  }

  function Shl32(x: U32, n: int): U32
    requires 0 <= n < 32
  {
    MulPow2(x, n) % WORD32
  }

  function Shr32(x: U32, n: int): U32
    requires 0 <= n < 32
  {
    DivPow2(x, n)
  }

  lemma {:induction false} Pow2Add(m: nat, n: nat)
    ensures Pow2(m + n) == Pow2(m) * Pow2(n)
  {
    if m > 0 {
      Pow2Add(m - 1, n);
      assert Pow2(m + n) == 2 * Pow2(m - 1 + n);
      assert 2 * (Pow2(m - 1) * Pow2(n)) == Pow2(m) * Pow2(n);
    }
  }

  lemma {:induction false} Pow2Monotone(m: nat, n: nat)
    requires m <= n
    ensures Pow2(m) <= Pow2(n)
  {
    if m < n {
      Pow2Monotone(m, n - 1);
    }
  }

  // ----- two's complement

  function Signed64(w: U64): (s: int)
    ensures -0x8000_0000_0000_0000 <= s < 0x8000_0000_0000_0000
  {
    if w >= SIGN64 then w - WORD64 else w
  }

  function Signed32(w: U32): (s: int)
    ensures -0x8000_0000 <= s < 0x8000_0000
  {
    if w >= 0x8000_0000 then w - WORD32 else w
  }

  /** Arithmetic shifts round down, as integer division by a positive number does. */
  function Asr64(w: U64, n: int): U64
    requires 0 <= n < 64
  {
    Signed64(w) / Pow2(n) % WORD64
  }

  function Asr32(w: U32, n: int): U32
    requires 0 <= n < 32
  {
    Signed32(w) / Pow2(n) % WORD32
  }

  // ----- masks

  lemma AndDouble(x: nat, y: nat)
    ensures And(x, 2 * y) == 2 * And(x / 2, y)
  {
    if x > 0 && y > 0 {
      assert 2 * y / 2 == y;
    }
  }

  lemma AndCons(x: nat, y: nat, b: nat, c: nat)
    requires b <= 1 && c <= 1
    ensures And(2 * x + b, 2 * y + c) == 2 * And(x, y) + if b == 1 && c == 1 then 1 else 0
  {
    assert (2 * x + b) / 2 == x && (2 * y + c) / 2 == y;
  }

  function Remainder(x: nat, d: nat): nat
    requires d > 0
  {
    x % d
  }

  lemma DoubledRemainder(x: nat, h: nat, t: nat, m: nat, p: nat)
    requires p > 0 && t < 2 && x == 2 * h + t && m == 2 * p
    ensures Remainder(x, m) == 2 * Remainder(h, p) + t
  {
    var q, r := DivMod(h, p);
    assert q * m == 2 * (q * p);
    DivUnique(x, m, q, 2 * r + t);
  }

  lemma AndOdd(x: nat, h: nat, t: nat, k: nat, m: nat)
    requires t < 2 && x == 2 * h + t && k == 2 * m + 1
    ensures And(x, k) == 2 * And(h, m) + t
  {
    AndCons(h, m, t, 1);
  }

  lemma AndLowMask(x: nat, k: nat)
    ensures And(x, Pow2(k) - 1) == x % Pow2(k)
  {
    hide And, Pow2;
    AndRemainder(x, k);
  }

  lemma AndRemainderBase(x: nat, k: nat)
    requires k == 0 || x == 0
    ensures And(x, Pow2(k) - 1) == Remainder(x, Pow2(k))
  {
    ModSmall(0, Pow2(k));
  }

  lemma Pow2Double(k: nat)
    requires k > 0
    ensures Pow2(k) == 2 * Pow2(k - 1)
  {
  }

  lemma {:induction false} AndRemainder(x: nat, k: nat)
    ensures And(x, Pow2(k) - 1) == Remainder(x, Pow2(k))
  {
    hide Pow2, And, Remainder;
    if k == 0 || x == 0 {
      AndRemainderBase(x, k);
    } else {
      var p, h, t := Pow2(k - 1), x / 2, x % 2;
      Pow2Double(k);
      AndRemainder(h, k - 1);
      AndOdd(x, h, t, Pow2(k) - 1, p - 1);
      DoubledRemainder(x, h, t, Pow2(k), p);
    }
  }

  lemma {:induction false} AndShifted(x: nat, m: nat, k: nat)
    ensures And(x, MulPow2(m, k)) == MulPow2(And(DivPow2(x, k), m), k)
  {
    if k > 0 {
      AndShifted(x / 2, m, k - 1);
      AndDouble(x, MulPow2(m, k - 1));
    }
  }

  /** Testing the top j bits of a (j+k)-bit word asks whether it reaches Pow2(k). */
  lemma AndHighMask(x: nat, j: nat, k: nat)
    requires x < Pow2(j) * Pow2(k)
    ensures And(x, MulPow2(Pow2(j) - 1, k)) == 0 <==> x < Pow2(k)
  {
    var p, t := Pow2(k), Pow2(j);
    var q := DivPow2(x, k);
    DivPow2Is(x, k);
    AndShifted(x, t - 1, k);
    AndLowMask(q, j);
    MulPow2Is(And(q, t - 1), k);
    DivLess(x, t, p);
    ModSmall(q, t);
    DivLess(x, 1, p);
    if q > 0 {
      MulLe(1, q, p);
    }
  }

  // ----- or and xor

  lemma {:induction false} OrZero(y: nat)
    ensures Or(0, y) == y == Or(y, 0)
  {
    if y > 0 {
      OrZero(y / 2);
    }
  }

  lemma {:induction false} XorZero(y: nat)
    ensures Xor(0, y) == y == Xor(y, 0)
  {
    if y > 0 {
      XorZero(y / 2);
    }
  }

  /** Joining bits that do not overlap is addition. */
  lemma {:induction false} OrDisjoint(x: nat, y: nat, k: nat)
    requires x < Pow2(k)
    ensures Or(x, MulPow2(y, k)) == x + MulPow2(y, k) == Or(MulPow2(y, k), x)
  {
    if k == 0 {
      OrZero(y);
    } else {
      OrDisjoint(x / 2, y, k - 1);
    }
  }

  lemma {:induction false} XorOnes(x: nat, k: nat)
    requires x < Pow2(k)
    ensures Xor(x, Pow2(k) - 1) == Pow2(k) - 1 - x
  {
    if k > 0 {
      XorOnes(x / 2, k - 1);
    }
  }

  /** The top bit of an exclusive or says whether the top bits differ. */
  lemma {:induction false} XorTop(x: nat, y: nat, k: nat)
    requires x < 2 * Pow2(k) && y < 2 * Pow2(k)
    ensures Xor(x, y) < 2 * Pow2(k)
    ensures Xor(x, y) >= Pow2(k) <==> ((x >= Pow2(k)) != (y >= Pow2(k)))
  {
    if k > 0 {
      XorTop(x / 2, y / 2, k - 1);
    }
  }

  lemma Pow2Small()
    ensures Pow2(0) == 1 && Pow2(1) == 2 && Pow2(2) == 4 && Pow2(4) == 16 && Pow2(8) == 256
  {
  }

  lemma Pow2Values()
    ensures Pow2(0) == 1 && Pow2(1) == 2 && Pow2(2) == 4 && Pow2(4) == 16 && Pow2(8) == 256
    ensures Pow2(16) == 0x1_0000 && Pow2(22) == 0x40_0000 && Pow2(24) == 0x100_0000 && Pow2(28) == 0x1000_0000
    ensures Pow2(30) == 0x4000_0000 && Pow2(31) == 0x8000_0000 && Pow2(32) == WORD32
    ensures Pow2(48) == 0x1_0000_0000_0000 && Pow2(56) == 0x100_0000_0000_0000
    ensures Pow2(60) == 0x1000_0000_0000_0000 && Pow2(62) == 0x4000_0000_0000_0000
    ensures Pow2(63) == SIGN64 && Pow2(64) == WORD64
  {
    hide Pow2;
    Pow2Small();
    Pow2Add(8, 8);
    Pow2Add(16, 8);
    Pow2Add(16, 4);
    Pow2Add(20, 2);
    Pow2Add(24, 4);
    Pow2Add(28, 2);
    Pow2Add(30, 1);
    Pow2Add(16, 16);
    Pow2Add(32, 16);
    Pow2Add(48, 8);
    Pow2Add(56, 4);
    Pow2Add(60, 2);
    Pow2Add(62, 1);
    Pow2Add(62, 2);
  }
}
