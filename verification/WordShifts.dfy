/** The 64-bit shifts of inuoskrnl/rt/math.c, built from the two 32-bit halves. */
module WordShifts {
  import opened Arith
  import opened Bits

  /** The union of math.c: a 64-bit word seen as its high and low halves. */
  datatype Halves = Halves(hi: U32, lo: U32) {
    function Word(): U64 {
      hi * WORD32 + lo
    }
  }

  function Split(w: U64): (h: Halves)
    ensures h.Word() == w
  {
    Halves(w / WORD32, w % WORD32)
  }

  /** The count is taken modulo 64, negative counts included. */
  lemma CountMask(b: int)
    ensures And(b % WORD32, 63) == b % 64
  {
    hide And, Pow2;
    AndLowMask(b % WORD32, 6);
    Pow2Six();
  }

  lemma Pow2Six()
    ensures Pow2(6) == 64
  {
  }

  lemma Pow2Product(s: nat)
    requires 0 < s < 32
    ensures Pow2(s) * Pow2(32 - s) == WORD32
  {
    Pow2Add(s, 32 - s);
    Pow2Values();
  }

  lemma Pow2High(s: nat)
    requires s < 32
    ensures Pow2(32 + s) == Pow2(s) * WORD32
  {
    Pow2Add(s, 32);
    Pow2Values();
  }

  // ----- the arithmetic of a shift by less than a half word, on plain numbers

  /** hi and lo cut at the boundary the shifted bits cross: p * q is a half word. */
  lemma CrossLeft(hi: nat, lo: nat, p: nat, q: nat)
    requires p > 0 && q > 0 && p * q == WORD32 && hi < WORD32 && lo < WORD32
    ensures hi * p % WORD32 == hi % q * p
    ensures lo / q < p
    ensures lo * p % WORD32 < WORD32 && hi % q * p + lo / q < WORD32
    ensures (hi * WORD32 + lo) * p % WORD64 == (hi % q * p + lo / q) * WORD32 + lo * p % WORD32
  {
    var h1, h0 := DivMod(hi, q);
    var l1, l0 := DivMod(lo, q);
    CutProduct(h1, h0, q, p);
    CutProduct(l1, l0, q, p);
    DivLess(lo, p, q);
    DivBounds(lo, q);
    MulLt(h0, q, p);
    CrossLeftSum(hi, lo, p, h1, h0 * p, l1, l0 * p);
  }

  lemma CutProduct(x1: nat, x0: nat, q: nat, p: nat)
    requires q > 0 && p > 0 && p * q == WORD32 && x0 < q
    ensures (x1 * q + x0) * p == x1 * WORD32 + x0 * p
    ensures 0 <= x0 * p < WORD32
    ensures (x1 * q + x0) * p % WORD32 == x0 * p
  {
    assert (x1 * q + x0) * p == x1 * (p * q) + x0 * p;
    MulLt(x0, q, p);
    MulLe(0, x0, p);
    DivUnique((x1 * q + x0) * p, WORD32, x1, x0 * p);
  }

  lemma CrossLeftSum(hi: nat, lo: nat, p: nat, h1: nat, hp: nat, l1: nat, lp: nat)
    requires hi * p == h1 * WORD32 + hp && lo * p == l1 * WORD32 + lp
    requires hp + l1 < WORD32 && lp < WORD32
    ensures (hi * WORD32 + lo) * p % WORD64 == (hp + l1) * WORD32 + lp
  {
    assert (hi * WORD32 + lo) * p == hi * p * WORD32 + lo * p;
    DivUnique((hi * WORD32 + lo) * p, WORD64, h1, (hp + l1) * WORD32 + lp);
  }

  /** The same boundary for a right shift; hi may be a signed half. */
  lemma CrossRight(hi: int, lo: nat, p: nat, q: nat)
    requires p > 0 && q > 0 && p * q == WORD32 && lo < WORD32
    ensures hi * q % WORD32 == hi % p * q
    ensures lo / p < q && hi % p * q + lo / p < WORD32
    ensures (hi * WORD32 + lo) / p == hi / p * WORD32 + (hi % p * q + lo / p)
  {
    var h1, h0 := DivMod(hi, p);
    var l1, l0 := DivMod(lo, p);
    assert hi * q == h1 * (p * q) + h0 * q;
    MulLt(h0, p, q);
    MulLe(0, h0, q);
    DivUnique(hi * q, WORD32, h1, h0 * q);
    DivLess(lo, q, p);
    DivBounds(lo, p);
    var top := h1 * WORD32 + (h0 * q + l1);
    assert top * p == h1 * p * WORD32 + h0 * (p * q) + l1 * p;
    DivUnique(hi * WORD32 + lo, p, top, l0);
  }

  // ----- the shifts

  lemma Shl32Is(x: U32, s: int)
    requires 0 <= s < 32
    ensures Shl32(x, s) == x * Pow2(s) % WORD32
  {
    MulPow2Is(x, s);
  }

  lemma Shr32Is(x: U32, s: int)
    requires 0 <= s < 32
    ensures Shr32(x, s) == x / Pow2(s)
  {
    DivPow2Is(x, s);
  }

  /** The bits that cross the boundary are joined by an or; they do not overlap. */
  lemma JoinHalves(low: nat, x: nat, s: nat)
    requires low < Pow2(s)
    ensures Or(low, x * Pow2(s)) == x * Pow2(s) + low == Or(x * Pow2(s), low)
  {
    MulPow2Is(x, s);
    OrDisjoint(low, x, s);
  }

  lemma LeftLong(hi: U32, lo: U32, s: int)
    requires 0 <= s < 32
    ensures Shl32(lo, s) * WORD32 == (hi * WORD32 + lo) * Pow2(32 + s) % WORD64
  {
    hide Pow2, Shl32;
    Shl32Is(lo, s);
    Pow2High(s);
    LeftLongProduct(hi, lo, Pow2(s), Pow2(32 + s));
  }

  lemma LeftLongProduct(hi: nat, lo: nat, p: nat, d: nat)
    requires d == p * WORD32
    ensures lo * p % WORD32 * WORD32 == (hi * WORD32 + lo) * d % WORD64
  {
    var y, x := hi * p, lo * p;
    var x1, x0 := DivMod(x, WORD32);
    assert (hi * WORD32 + lo) * d == y * WORD32 * WORD32 + x * WORD32;
    DivUnique((hi * WORD32 + lo) * d, WORD64, y + x1, x0 * WORD32);
  }

  lemma LeftShort(hi: U32, lo: U32, s: int)
    requires 0 < s < 32
    ensures Or(Shr32(lo, 32 - s), Shl32(hi, s)) < WORD32
    ensures Or(Shr32(lo, 32 - s), Shl32(hi, s)) * WORD32 + Shl32(lo, s)
         == (hi * WORD32 + lo) * Pow2(s) % WORD64
  {
    hide Pow2, Shl32, Shr32, Or;
    Shl32Is(lo, s);
    Shl32Is(hi, s);
    Shr32Is(lo, 32 - s);
    Pow2Product(s);
    CrossLeft(hi, lo, Pow2(s), Pow2(32 - s));
    JoinHalves(lo / Pow2(32 - s), hi % Pow2(32 - s), s);
  }

  lemma LeftNone(a: U64)
    ensures a == a * Pow2(0) % WORD64 && a == a / Pow2(0)
  {
  }

  /** Shift left: multiplication by a power of two, modulo the word. */
  method AshlDi3(a: U64, count: int) returns (r: U64)
    ensures r == a * Pow2(count % 64) % WORD64
  {
    hide Pow2, Shl32, Shr32, Or, And;
    CountMask(count);
    var b := And(count % WORD32, 63);
    var w := Split(a);
    if b >= 32 {
      LeftLong(w.hi, w.lo, b - 32);
      w := w.(hi := Shl32(w.lo, b - 32));
      w := w.(lo := 0);
    } else if b != 0 {
      LeftShort(w.hi, w.lo, b);
      w := w.(hi := Or(Shr32(w.lo, 32 - b), Shl32(w.hi, b)));
      w := w.(lo := Shl32(w.lo, b));
    } else {
      LeftNone(a);
    }
    r := w.Word();
  }

  lemma RightLong(hi: int, lo: U32, s: int)
    requires 0 <= s < 32
    ensures hi / Pow2(s) == (hi * WORD32 + lo) / Pow2(32 + s)
  {
    Pow2High(s);
    DivDiv(hi * WORD32 + lo, WORD32, Pow2(s));
    DivUnique(hi * WORD32 + lo, WORD32, hi, lo);
  }

  /** x is the signed or unsigned reading of the high half. */
  lemma RightShort(x: int, hi: U32, lo: U32, s: int)
    requires 0 < s < 32 && hi == x % WORD32
    ensures Or(Shl32(hi, 32 - s), Shr32(lo, s)) < WORD32
    ensures x / Pow2(s) * WORD32 + Or(Shl32(hi, 32 - s), Shr32(lo, s)) == (x * WORD32 + lo) / Pow2(s)
  {
    hide Pow2, Shl32, Shr32, Or;
    Shl32Is(hi, 32 - s);
    Shr32Is(lo, s);
    Pow2Product(s);
    Pow2Product(32 - s);
    var p, q := Pow2(s), Pow2(32 - s);
    CrossRight(x, lo, p, q);
    ReadEitherWay(x, hi, q);
    JoinHalves(lo / p, x % p, 32 - s);
  }

  lemma ReadEitherWay(x: int, hi: int, q: int)
    requires hi == x % WORD32
    ensures hi * q % WORD32 == x * q % WORD32
  {
    var k := x / WORD32;
    var j, r := DivMod(hi * q, WORD32);
    assert x * q == hi * q + k * q * WORD32;
    DivUnique(x * q, WORD32, j + k * q, r);
  }

  /** Logical right shift: division by a power of two. */
  method LshrDi3(a: U64, count: int) returns (r: U64)
    ensures r == a / Pow2(count % 64)
  {
    hide Pow2, Shl32, Shr32, Or, And;
    CountMask(count);
    var b := And(count % WORD32, 63);
    var w := Split(a);
    if b >= 32 {
      RightLong(w.hi, w.lo, b - 32);
      Shr32Is(w.hi, b - 32);
      w := w.(lo := Shr32(w.hi, b - 32));
      w := w.(hi := 0);
    } else if b != 0 {
      RightShort(w.hi, w.hi, w.lo, b);
      Shr32Is(w.hi, b);
      w := w.(lo := Or(Shl32(w.hi, 32 - b), Shr32(w.lo, b)));
      w := w.(hi := Shr32(w.hi, b));
    } else {
      LeftNone(a);
    }
    r := w.Word();
  }

  lemma Signed32Of(q: int)
    requires -0x8000_0000 <= q < 0x8000_0000
    ensures Signed32(q % WORD32) == q
  {
  }

  /** Dividing by a positive number rounds toward zero no further than zero. */
  lemma QuotientStays(x: int, d: int)
    requires d > 0
    ensures if x >= 0 then 0 <= x / d <= x else x <= x / d < 0
  {
    var q, r := DivMod(x, d);
    if x >= 0 {
      DivBounds(x, d);
    } else {
      NegativeQuotient(x, d, q, r);
    }
  }

  lemma Asr32Is(x: U32, s: int)
    requires 0 <= s < 32
    ensures Signed32(Asr32(x, s)) == Signed32(x) / Pow2(s)
  {
    hide Pow2, Signed32;
    QuotientStays(Signed32(x), Pow2(s));
    Signed32Of(Signed32(x) / Pow2(s));
  }

  lemma NegativeQuotient(x: int, d: int, q: int, r: int)
    requires x < 0 && d > 0 && x == q * d + r && 0 <= r < d
    ensures x <= q < 0
  {
    if q >= 0 {
      MulLe(0, q, d);
    } else {
      assert d * (-(q + 1)) == -(q * d + d);
      MulLe(1, d, -(q + 1));
    }
  }

  lemma SignFill(x: U32)
    ensures Asr32(x, 31) == if Signed32(x) < 0 then WORD32 - 1 else 0
  {
    hide Pow2;
    Pow2Values();
  }

  lemma SignedHalves(w: Halves)
    ensures Signed64(w.Word()) == Signed32(w.hi) * WORD32 + w.lo
  {
  }

  /** Arithmetic right shift: division by a power of two, rounding down. */
  method AshrDi3(a: U64, count: int) returns (r: U64)
    ensures Signed64(r) == Signed64(a) / Pow2(count % 64)
  {
    hide Pow2, Shl32, Shr32, Asr32, Or, And, Signed32, Signed64;
    CountMask(count);
    var b := And(count % WORD32, 63);
    var w := Split(a);
    SignedHalves(w);
    if b >= 32 {
      RightLong(Signed32(w.hi), w.lo, b - 32);
      Asr32Is(w.hi, b - 32);
      ShiftedSign(w.hi, b - 32);
      w := w.(lo := Asr32(w.hi, b - 32));
      w := w.(hi := Asr32(w.hi, 31));
    } else if b != 0 {
      SignedResidue(w.hi);
      RightShort(Signed32(w.hi), w.hi, w.lo, b);
      Asr32Is(w.hi, b);
      w := w.(lo := Or(Shl32(w.hi, 32 - b), Shr32(w.lo, b)));
      w := w.(hi := Asr32(w.hi, b));
      SignedHalves(w);
    } else {
      SignedNone(a);
    }
    r := w.Word();
  }

  lemma SignedNone(a: U64)
    ensures Signed64(a) / Pow2(0) == Signed64(a)
  {
  }

  lemma SignedResidue(hi: U32)
    ensures hi == Signed32(hi) % WORD32
  {
  }

  /** Filling the high half with the sign bit keeps the shifted value. */
  lemma ShiftedSign(hi: U32, s: int)
    requires 0 <= s < 32
    ensures Signed64(Halves(Asr32(hi, 31), Asr32(hi, s)).Word()) == Signed32(Asr32(hi, s))
  {
    hide Asr32, Pow2;
    SignFill(hi);
    Asr32Is(hi, s);
    QuotientStays(Signed32(hi), Pow2(s));
  }
}
