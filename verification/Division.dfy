/** The 64-bit division helpers of inuoskrnl/rt/math.c on 32-bit hardware. */
module Division {
  import opened Arith
  import opened Bits
  import opened ZeroCounts
  import opened Wrappers

  /** C leaves division by zero to the hardware exception. */
  datatype DivResult = Quotient(q: U64, r: U64) | DivideError

  function Hi(w: U64): U32 {
    w / WORD32
  }

  function Lo(w: U64): U32 {
    w % WORD32
  }

  /** The bits of a still to be consumed, moved to the top of a 64-bit word. */
  function Pending(a: U64, m: nat): nat
    requires m <= 64
  {
    MulPow2(a % Pow2(m), 64 - m)
  }

  /** A bit at the top of a word. */
  function TopBit(bit: nat): nat {
    if bit == 1 then SIGN64 else 0
  }

  lemma PendingParts(p: nat, low: nat, bit: nat, m: nat)
    requires 1 <= m <= 63 && p == Pow2(m - 1) && low < p && bit <= 1
    ensures MulPow2(if bit == 1 then p + low else low, 64 - m) == TopBit(bit) + MulPow2(low, 64 - m)
    ensures MulPow2(low, 65 - m) == 2 * MulPow2(low, 64 - m)
    ensures MulPow2(low, 64 - m) + Pow2(64 - m) <= SIGN64
  {
    hide Pow2;
    Pow2Values();
    MulPow2Sum(p, low, 64 - m);
    MulPow2Pow2(m - 1, 64 - m);
    MulPow2Le(low + 1, p, 64 - m);
    MulPow2Sum(low, 1, 64 - m);
    MulPow2Pow2(0, 64 - m);
  }

  /** The next pending bit is the top bit of the register; the rest fits below it
      with room for the quotient bits collected so far. */
  lemma PendingStep(a: U64, m: nat) returns (bit: nat, rest: nat)
    requires 1 <= m <= 63
    ensures bit <= 1 && DivPow2(a, m - 1) == 2 * DivPow2(a, m) + bit
    ensures Pending(a, m) == TopBit(bit) + rest
    ensures Pending(a, m - 1) == 2 * rest
    ensures rest + Pow2(64 - m) <= SIGN64
  {
    bit := DivPow2(a, m - 1) % 2;
    DivPow2Split(a, m - 1);
    var low := ModBounds(a, Pow2(m - 1));
    ModPow2Split(a, m - 1);
    PendingParts(Pow2(m - 1), low, bit, m);
    rest := MulPow2(low, 64 - m);
  }

  /** Shifting the numerator up drops exactly the bits moved to the remainder. */
  lemma PendingStart(a: U64, n: nat)
    requires 1 <= n <= 63
    ensures Shl64(a, 64 - n) == Pending(a, n)
  {
    Pow2Values();
    var c, d := Pow2(n), Pow2(64 - n);
    Pow2Add(n, 64 - n);
    var q, r := Arith.DivMod(a, c);
    MulPow2Is(a, 64 - n);
    MulPow2Is(r, 64 - n);
    ShiftDrops(q, c, r, d);
  }

  lemma ShiftDrops(q: int, c: int, r: int, d: int)
    requires c > 0 && d > 0 && 0 <= r < c
    ensures c * d > 0 && (q * c + r) * d % (c * d) == r * d
  {
    MulLt(r, c, d);
    MulLe(0, r, d);
    assert (q * c + r) * d == q * (c * d) + r * d;
    DivUnique((q * c + r) * d, c * d, q, r * d);
  }

  lemma ModBounds(x: int, d: int) returns (r: int)
    requires d > 0
    ensures r == x % d && 0 <= r < d
  {
    r := x % d;
  }

  lemma {:induction false} DivPow2Split(a: nat, m: nat)
    ensures DivPow2(a, m) == 2 * DivPow2(a, m + 1) + DivPow2(a, m) % 2
  {
    if m > 0 {
      DivPow2Split(a / 2, m - 1);
    }
  }

  lemma {:induction false} ModPow2Split(a: nat, m: nat)
    ensures a % Pow2(m + 1) == (if DivPow2(a, m) % 2 == 1 then Pow2(m) else 0) + a % Pow2(m)
  {
    DivTwice(a, Pow2(m));
    if m > 0 {
      ModPow2Split(a / 2, m - 1);
      DivTwice(a, Pow2(m - 1));
    } else {
      assert a % 1 == 0;
    }
  }

  lemma {:induction false} ShiftsOrdered(a: U64, b: U64, ca: nat, cb: nat)
    requires b <= a && ca > cb
    requires SIGN64 <= MulPow2(b, cb)
    ensures MulPow2(a, ca) >= WORD64
  {
    MulPow2Le(b, a, ca);
    MulPow2Add(b, cb + 1, ca - cb - 1);
    MulPow2AtLeast(MulPow2(b, cb + 1), ca - cb - 1);
  }

  lemma ShiftAtMost62(b: U64, cb: nat)
    requires 2 <= b && MulPow2(b, cb) < WORD64
    ensures cb <= 62
  {
    hide Pow2, MulPow2;
    Pow2Values();
    MulPow2Le(2, b, cb);
    MulPow2Pow2(1, cb);
    if cb > 62 {
      Pow2Monotone(64, 1 + cb);
    }
  }

  lemma TopBitUnshifted(b: U64, cb: nat)
    requires SIGN64 <= b && MulPow2(b, cb) < WORD64
    ensures cb == 0
  {
    hide Pow2, MulPow2;
    Pow2Values();
    MulPow2Le(SIGN64, b, cb);
    MulPow2Pow2(63, cb);
    if cb > 0 {
      Pow2Monotone(64, 63 + cb);
    }
  }

  /** The iteration count lies in 1..63 and the first remainder is below the
      divisor. When the divisor uses the top bit there is exactly one iteration. */
  lemma IterationCount(a: U64, b: U64, ca: nat, cb: nat)
    requires 2 <= b <= a
    requires SIGN64 <= MulPow2(a, ca) < WORD64
    requires SIGN64 <= MulPow2(b, cb) < WORD64
    ensures 1 <= cb - ca + 1 <= 63
    ensures DivPow2(a, cb - ca + 1) < b
    ensures b >= SIGN64 ==> cb - ca + 1 == 1
  {
    hide Pow2, MulPow2, DivPow2;
    ShiftAtMost62(b, cb);
    if b >= SIGN64 {
      TopBitUnshifted(b, cb);
    }
    if ca > cb {
      ShiftsOrdered(a, b, ca, cb);
    } else {
      FirstRemainder(a, b, ca, cb);
    }
  }

  lemma FirstRemainder(a: U64, b: U64, ca: nat, cb: nat)
    requires ca <= cb
    requires MulPow2(a, ca) < WORD64 && SIGN64 <= MulPow2(b, cb)
    ensures DivPow2(a, cb - ca + 1) < b
  {
    var n := cb - ca + 1;
    if DivPow2(a, n) >= b {
      DivMulPow2(a, n);
      MulPow2Le(b, DivPow2(a, n), n);
      MulPow2Le(MulPow2(b, n), a, ca);
      MulPow2Add(b, n, ca);
    }
  }

  lemma DivPow2Zero(a: nat)
    ensures DivPow2(a, 0) == a
  {
  }

  lemma {:induction false} DivMulPow2(a: nat, n: nat)
    ensures MulPow2(DivPow2(a, n), n) <= a
  {
    if n > 0 {
      DivMulPow2(a / 2, n - 1);
    }
  }

  /** Unsigned 64-bit subtraction wraps. */
  function Sub64(x: U64, y: int): U64 {
    (x - y) % WORD64
  }

  /** The comparison read off the sign bit of b - rem - 1. */
  lemma WrapIsCompare(b: U64, rem: U64)
    requires rem < 2 * b
    requires b > SIGN64 ==> rem >= b
    ensures Asr64(Sub64(b, rem + 1), 63) == if rem >= b then WORD64 - 1 else 0
  {
    Pow2Values();
    var d := Sub64(b, rem + 1);
    if rem >= b {
      assert d == b - rem - 1 + WORD64;
    } else {
      assert d == b - rem - 1;
    }
  }

  /** Masking the divisor with the comparison subtracts it only when it fits. */
  lemma ConditionalSubtract(b: U64, r: U64)
    requires r < 2 * b
    requires b > SIGN64 ==> r >= b
    ensures var wrap := Asr64(Sub64(b, r + 1), 63);
            && wrap == (if r >= b then WORD64 - 1 else 0)
            && Sub64(r, And(b, wrap)) == if r >= b then r - b else r
  {
    hide And, Pow2, Asr64;
    WrapIsCompare(b, r);
    Pow2Values();
    AndLowMask(b, 64);
    AndZero(b);
  }

  lemma AndZero(b: nat)
    ensures And(b, 0) == 0
  {
  }

  /** The bits of a above position m, divided by b so far. */
  ghost predicate Divided(a: U64, b: U64, m: nat, q: nat, rem: int) {
    0 <= rem < b && DivPow2(a, m) == q * b + rem
  }

  /** One pass of the loop on the mathematical values it carries. */
  lemma LoopStep(a: U64, b: U64, m: nat, q: nat, rem: nat, bit: nat)
    requires 1 <= m <= 63 && bit <= 1
    requires Divided(a, b, m, q, rem)
    requires DivPow2(a, m - 1) == 2 * DivPow2(a, m) + bit
    requires b >= SIGN64 ==> q == 0 && m == 1 && b <= a
    ensures rem < b && 2 * rem + bit < WORD64 && 2 * rem + bit < 2 * b
    ensures b > SIGN64 ==> 2 * rem + bit >= b
    ensures if 2 * rem + bit >= b then Divided(a, b, m - 1, 2 * q + 1, 2 * rem + bit - b)
            else Divided(a, b, m - 1, 2 * q, 2 * rem + bit)
  {
    hide DivPow2;
    assert 2 * (q * b) == 2 * q * b;
    assert (2 * q + 1) * b == 2 * q * b + b;
    MulLe(0, q, b);
    if b >= SIGN64 {
      DivPow2Zero(a);
    }
  }

  /** The comparison and subtraction of one pass. */
  lemma RemainderStep(a: U64, b: U64, m: nat, q: nat, r: U64) returns (q': nat)
    requires r < 2 * b && (b > SIGN64 ==> r >= b)
    requires if r >= b then Divided(a, b, m, 2 * q + 1, r - b) else Divided(a, b, m, 2 * q, r)
    ensures 2 * q <= q' <= 2 * q + 1
    ensures Asr64(Sub64(b, r + 1), 63) == (if q' % 2 == 1 then WORD64 - 1 else 0)
    ensures Divided(a, b, m, q', Sub64(r, And(b, Asr64(Sub64(b, r + 1), 63))))
  {
    hide Sub64, Asr64, And, Divided;
    ConditionalSubtract(b, r);
    if r >= b {
      q' := 2 * q + 1;
    } else {
      q' := 2 * q;
    }
  }

  /** One pass of the loop on the registers it updates. */
  lemma RegisterStep(a: U64, b: U64, m: nat, q: nat, rem: U64, w: U64, wrap: U64) returns (q': nat)
    requires 1 <= m <= 63 && Divided(a, b, m, q, rem) && q < Pow2(63 - m)
    requires b >= SIGN64 ==> q == 0 && m == 1 && b <= a
    requires w == Pending(a, m) + q / 2
    requires wrap == if q % 2 == 1 then WORD64 - 1 else 0
    ensures 2 * q <= q' <= 2 * q + 1
    ensures Or(Shl64(w, 1), And(wrap, 1)) == Pending(a, m - 1) + q < WORD64
    ensures q' < Pow2(64 - m)
    ensures var r := Or(Shl64(rem, 1), Shr64(w, 63));
            && r < WORD64
            && Asr64(Sub64(b, r + 1), 63) == (if q' % 2 == 1 then WORD64 - 1 else 0)
            && var r' := Sub64(r, And(b, Asr64(Sub64(b, r + 1), 63)));
            Divided(a, b, m - 1, q', r')
  {
    hide Pow2, MulPow2, DivPow2, And, Or, Pending, Shl64, Shr64, Asr64, Sub64, Divided, TopBit;
    var bit, rest := PendingStep(a, m);
    LoopStep(a, b, m, q, rem, bit);
    Shifts(m, q, rem, w, wrap, bit, rest);
    q' := RemainderStep(a, b, m - 1, q, Or(Shl64(rem, 1), Shr64(w, 63)));
  }

  lemma Shl64One(x: U64)
    requires 2 * x < WORD64
    ensures Shl64(x, 1) == 2 * x
  {
    assert MulPow2(x, 1) == 2 * MulPow2(x, 0);
  }

  lemma Shl64OneWraps(x: U64)
    ensures Shl64(x, 1) == 2 * (x % SIGN64)
  {
    assert MulPow2(x, 1) == 2 * MulPow2(x, 0);
  }

  lemma Shr64Top(x: U64)
    ensures Shr64(x, 63) == x / SIGN64
  {
    hide Pow2, DivPow2;
    Pow2Values();
    DivPow2Is(x, 63);
  }

  lemma OrLowBit(x: nat, bit: nat)
    requires bit <= 1
    ensures Or(2 * x, bit) == 2 * x + bit
  {
    OrDisjoint(bit, x, 1);
    assert MulPow2(x, 1) == 2 * MulPow2(x, 0);
  }

  lemma AndLowBit(x: nat)
    ensures And(x, 1) == x % 2
  {
    AndLowMask(x, 1);
  }

  /** The two or-expressions are the additions they stand for. */
  lemma Shifts(m: nat, q: nat, rem: U64, w: U64, wrap: U64, bit: nat, rest: nat)
    requires 1 <= m <= 63 && q < Pow2(63 - m) && bit <= 1
    requires w == TopBit(bit) + rest + q / 2 && rest + Pow2(64 - m) <= SIGN64
    requires 2 * rem + bit < WORD64
    requires wrap == if q % 2 == 1 then WORD64 - 1 else 0
    ensures Or(Shl64(rem, 1), Shr64(w, 63)) == 2 * rem + bit
    ensures Or(Shl64(w, 1), And(wrap, 1)) == 2 * rest + q < WORD64
    ensures 2 * q + 1 < Pow2(64 - m)
  {
    hide MulPow2, And, Or, Shl64, Shr64;
    assert Pow2(64 - m) == 2 * Pow2(63 - m);
    var low := rest + q / 2;
    assert 0 <= low < SIGN64;
    Shl64One(rem);
    Shr64Top(w);
    OrLowBit(rem, bit);
    Shl64OneWraps(w);
    AndLowBit(wrap);
    OrLowBit(low, q % 2);
  }

  lemma DividedStart(a: U64, b: U64, n: nat)
    requires DivPow2(a, n) < b
    ensures Divided(a, b, n, 0, DivPow2(a, n))
    ensures Pow2(0) == 1
  {
  }

  lemma DividedEnd(a: U64, b: U64, q: nat, rem: U64, w: U64, wrap: U64)
    requires Divided(a, b, 0, q, rem) && q < Pow2(63)
    requires w == Pending(a, 0) + q / 2
    requires wrap == if q % 2 == 1 then WORD64 - 1 else 0
    ensures a == q * b + rem && rem < b
    ensures Or(Shl64(w, 1), And(wrap, 1)) == q < WORD64
  {
    hide Pow2, MulPow2, And, Or, Shl64;
    Pow2Values();
    MulPow2Zero(64);
    DivPow2Zero(a);
    assert a % 1 == 0;
    Shl64One(w);
    AndLowBit(wrap);
    OrLowBit(w, q % 2);
  }

  /** The shift-subtract loop, for operands the early exits do not answer. */
  method LongDivide(a: U64, b: U64) returns (quotient: U64, rem: U64)
    requires 2 <= b <= a
    ensures a == quotient * b + rem && rem < b
  {
    hide Pow2, MulPow2, DivPow2, And, Or, Pending, Shl64, Asr64, LeadingZeros, Divided;
    var cb := ClzDi2(b);
    var ca := ClzDi2(a);
    IterationCount(a, b, ca, cb);
    var bits: int := cb - ca + 1;
    ghost var n := bits;
    rem := Shr64(a, bits);
    var w: U64 := Shl64(a, 64 - bits);
    var wrap: U64 := 0;
    ghost var q: nat := 0;
    PendingStart(a, n);
    DividedStart(a, b, n);
    while bits > 0
      invariant 0 <= bits <= n <= 63
      invariant Divided(a, b, bits, q, rem)
      invariant q < Pow2(63 - bits)
      invariant w == Pending(a, bits) + q / 2
      invariant wrap == if q % 2 == 1 then WORD64 - 1 else 0
      invariant b >= SIGN64 ==> n == 1 && (bits == 1 ==> q == 0)
    {
      ghost var q' := RegisterStep(a, b, bits, q, rem, w, wrap);
      bits := bits - 1;
      rem := Or(Shl64(rem, 1), Shr64(w, 63));
      w := Or(Shl64(w, 1), And(wrap, 1));
      wrap := Asr64(Sub64(b, rem + 1), 63);
      rem := Sub64(rem, And(b, wrap));
      q := q';
    }
    DividedEnd(a, b, q, rem, w, wrap);
    quotient := Or(Shl64(w, 1), And(wrap, 1));
  }

  method DivModDi4(a: U64, b: U64) returns (res: DivResult)
    ensures res.DivideError? <==> b == 0
    ensures b > 0 ==> a == res.q * b + res.r && res.r < b
  {
    if b > a {
      return Quotient(0, a);
    }
    if Hi(b) == 0 {
      if b == 0 {
        return DivideError;
      }
      if b == 1 {
        return Quotient(a, 0);
      }
      if Hi(a) == 0 {
        var q, r := DivMod(Lo(a), Lo(b));
        DivBounds(Lo(a), Lo(b));
        return Quotient(Lo(a) / Lo(b), Lo(a) % Lo(b));
      }
    }
    var q, r := LongDivide(a, b);
    res := Quotient(q, r);
  }

  method UDivDi3(a: U64, b: U64) returns (res: Option<U64>)
    ensures res.None? <==> b == 0
    ensures b > 0 ==> res.value == a / b
  {
    var d := DivModDi4(a, b);
    match d
    case DivideError => res := None;
    case Quotient(q, r) =>
      DivUnique(a, b, q, r);
      res := Some(q);
  }

  method UModDi3(a: U64, b: U64) returns (res: Option<U64>)
    ensures res.None? <==> b == 0
    ensures b > 0 ==> res.value == a % b
  {
    var d := DivModDi4(a, b);
    match d
    case DivideError => res := None;
    case Quotient(q, r) =>
      DivUnique(a, b, q, r);
      res := Some(r);
  }

  // ----- signed division

  type I64 = x: int | -0x8000_0000_0000_0000 <= x < 0x8000_0000_0000_0000

  const MIN64: int := -0x8000_0000_0000_0000

  function ToWord(x: I64): U64 {
    x % WORD64
  }

  /** Negate w if the sign bit of s is set, by inverting and adding one. */
  function NegIf(w: U64, s: U64): U64 {
    (Xor(w, if Signed64(s) >= 0 then 0 else WORD64 - 1) + (if Signed64(s) < 0 then 1 else 0)) % WORD64
  }

  lemma NegIfMeans(w: U64, s: U64)
    ensures NegIf(w, s) == if s < SIGN64 then w else if w == 0 then 0 else WORD64 - w
  {
    hide Xor, Pow2;
    Pow2Values();
    XorZero(w);
    XorOnes(w, 64);
  }

  /** The magnitude of the least value fits the unsigned word. */
  lemma AbsMeans(a: I64)
    ensures NegIf(ToWord(a), ToWord(a)) == Abs(a)
  {
    hide NegIf;
    NegIfMeans(ToWord(a), ToWord(a));
  }

  /** Section 6.5.5 of C99: the quotient truncates toward zero. */
  ghost predicate Truncates(a: int, b: int, q: int, r: int) {
    a == q * b + r && Abs(r) < Abs(b) && (r == 0 || (r < 0 <==> a < 0))
  }

  function TruncQuotient(a: int, b: int): int
    requires b != 0
  {
    if (a < 0) == (b < 0) then Abs(a) / Abs(b) else -(Abs(a) / Abs(b))
  }

  function TruncRemainder(a: int, b: int): int
    requires b != 0
  {
    if a < 0 then -(Abs(a) % Abs(b)) else Abs(a) % Abs(b)
  }

  lemma TruncationExists(a: int, b: int)
    requires b != 0
    ensures Truncates(a, b, TruncQuotient(a, b), TruncRemainder(a, b))
  {
    var q, r := Arith.DivMod(Abs(a), Abs(b));
    SignsOfProduct(q, b);
  }

  lemma SignsOfProduct(q: int, b: int)
    ensures (-q) * b == q * (-b) == -(q * b)
  {
  }

  lemma TruncationUnique(a: int, b: int, q: int, r: int, q': int, r': int)
    requires b != 0 && Truncates(a, b, q, r) && Truncates(a, b, q', r')
    ensures q == q' && r == r'
  {
    var d := q - q';
    Difference(q, q', b);
    if d != 0 {
      MultipleAtLeast(d, b);
    }
  }

  lemma Difference(q: int, q': int, b: int)
    ensures (q - q') * b == q * b - q' * b
  {
  }

  lemma MultipleAtLeast(d: int, b: int)
    requires d != 0 && b != 0
    ensures Abs(d * b) >= Abs(b)
  {
    MulLe(1, Abs(d), Abs(b));
    assert Abs(d * b) == Abs(d) * Abs(b);
  }

  /** What the 64-bit quotient register holds. */
  function WrappedQuotient(a: I64, b: I64): I64
    requires b != 0
  {
    if a == MIN64 && b == -1 then MIN64 else
      QuotientFits(a, b);
      TruncQuotient(a, b)
  }

  lemma QuotientFits(a: I64, b: I64)
    requires b != 0
    ensures 0 <= Abs(a) / Abs(b) <= 0x8000_0000_0000_0000
    ensures Abs(a) / Abs(b) == 0x8000_0000_0000_0000 <==> a == MIN64 && Abs(b) == 1
  {
    DivBounds(Abs(a), Abs(b));
    var q, r := Arith.DivMod(Abs(a), Abs(b));
    if Abs(b) > 1 {
      MulLe(2, Abs(b), q);
    }
  }

  /** The code meets the division identity on exactly the pairs C99 defines. */
  lemma SignedDivisionIdentity(a: I64, b: I64)
    requires b != 0
    ensures Truncates(a, b, WrappedQuotient(a, b), TruncRemainder(a, b)) <==> !(a == MIN64 && b == -1)
  {
    TruncationExists(a, b);
  }

  lemma NegIfDiffer(a: I64, b: I64, q: int)
    requires 0 <= q <= SIGN64
    ensures Xor(ToWord(a), ToWord(b)) < WORD64
    ensures Signed64(NegIf(q, Xor(ToWord(a), ToWord(b)))) ==
            if (a < 0) != (b < 0) then -q else if q == SIGN64 then MIN64 else q
  {
    hide Xor, NegIf;
    SignOfXor(ToWord(a), ToWord(b));
    NegIfMeans(q, Xor(ToWord(a), ToWord(b)));
  }

  lemma QuotientSign(a: I64, b: I64, q: U64)
    requires b != 0 && q == Abs(a) / Abs(b)
    ensures Xor(ToWord(a), ToWord(b)) < WORD64
    ensures Signed64(NegIf(q, Xor(ToWord(a), ToWord(b)))) == WrappedQuotient(a, b)
  {
    hide Xor, NegIf, ToWord, Signed64;
    QuotientFits(a, b);
    NegIfDiffer(a, b, q);
  }

  lemma RemainderSign(a: I64, b: I64, r: U64)
    requires b != 0 && r == Abs(a) % Abs(b)
    ensures Signed64(NegIf(r, ToWord(a))) == TruncRemainder(a, b)
  {
    hide Xor, NegIf;
    NegIfMeans(r, ToWord(a));
    var r' := ModBounds(Abs(a), Abs(b));
  }

  method DivDi3(a: I64, b: I64) returns (res: Option<I64>)
    ensures res.None? <==> b == 0
    ensures b != 0 ==> res.value == WrappedQuotient(a, b)
  {
    hide Xor, NegIf, WrappedQuotient, TruncRemainder, Signed64;
    var wa, wb := ToWord(a), ToWord(b);
    AbsMeans(a);
    AbsMeans(b);
    var q := UDivDi3(NegIf(wa, wa), NegIf(wb, wb));
    if q.None? {
      return None;
    }
    QuotientSign(a, b, q.value);
    res := Some(Signed64(NegIf(q.value, Xor(wa, wb))));
  }

  lemma SignOfXor(x: U64, y: U64)
    ensures Xor(x, y) < WORD64
    ensures Xor(x, y) >= SIGN64 <==> ((x >= SIGN64) != (y >= SIGN64))
  {
    hide Xor, Pow2;
    Pow2Values();
    XorTop(x, y, 63);
  }

  method ModDi3(a: I64, b: I64) returns (res: Option<I64>)
    ensures res.None? <==> b == 0
    ensures b != 0 ==> res.value == TruncRemainder(a, b)
  {
    hide Xor, NegIf, WrappedQuotient, TruncRemainder, Signed64;
    var wa, wb := ToWord(a), ToWord(b);
    AbsMeans(a);
    AbsMeans(b);
    var r := UModDi3(NegIf(wa, wa), NegIf(wb, wb));
    if r.None? {
      return None;
    }
    RemainderSign(a, b, r.value);
    res := Some(Signed64(NegIf(r.value, wa)));
  }
}
