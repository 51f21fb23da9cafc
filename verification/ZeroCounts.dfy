/** Leading and trailing zero counts of inuoskrnl/rt/math.c. */
module ZeroCounts {
  import opened Arith
  import opened Bits

  /** Zero bits above the highest set bit of a w-bit word, one bit at a time. */
  function LeadingZeros(a: nat, w: nat): nat {
    if w == 0 || a >= Pow2(w - 1) then 0 else 1 + LeadingZeros(a, w - 1)
  }

  /** Zero bits below the lowest set bit, one bit at a time. */
  function TrailingZeros(a: nat): nat
    requires a > 0
  {
    if a % 2 == 1 then 0 else 1 + TrailingZeros(a / 2)
  }

  /** The count is the one shift that moves the highest set bit to the top. */
  lemma {:induction false} NormalizingShift(a: nat, n: nat, w: nat)
    requires a > 0 && w > 0
    requires Pow2(w - 1) <= MulPow2(a, n) < Pow2(w)
    ensures n == LeadingZeros(a, w)
  {
    if n > 0 {
      MulPow2AtLeast(a, n - 1);
      NormalizingShift(a, n - 1, w - 1);
    }
  }

  lemma {:induction false} OddTimesPow2(odd: nat, n: nat)
    requires odd % 2 == 1
    ensures MulPow2(odd, n) > 0
    ensures TrailingZeros(MulPow2(odd, n)) == n
  {
    if n > 0 {
      OddTimesPow2(odd, n - 1);
    }
  }

  /** One binary-search step of a leading count on a (j+k)-bit word: the mask test
      asks whether the top j bits are clear, and shifting them away loses nothing. */
  lemma LeadingStep(a: nat, n: nat, w: nat, j: nat, k: nat)
    requires w == MulPow2(a, n) < Pow2(j + k) && j <= k
    requires a > 0 ==> w >= Pow2(k - j)
    ensures And(w, MulPow2(Pow2(j) - 1, k)) == 0 <==> w < Pow2(k)
    ensures w < Pow2(k) ==> MulPow2(w, j) == MulPow2(a, n + j) < Pow2(j + k)
    ensures w < Pow2(k) && a > 0 ==> MulPow2(w, j) >= Pow2(k)
  {
    Pow2Add(j, k);
    AndHighMask(w, j, k);
    if w < Pow2(k) {
      MulPow2Add(a, n, j);
      MulPow2Le(w + 1, Pow2(k), j);
      MulPow2Sum(w, 1, j);
      MulPow2Pow2(k, j);
      MulPow2AtLeast(1, j);
      if a > 0 {
        MulPow2Le(Pow2(k - j), w, j);
        MulPow2Pow2(k - j, j);
      }
    }
  }

  /** The mask covers the top j bits of a w-bit word, the bits worth `top` and up. */
  ghost predicate TopMask(mask: nat, j: nat, w: nat, floor: nat, top: nat) {
    0 < j <= w - j && mask == MulPow2(Pow2(j) - 1, w - j) && floor == Pow2(w - 2 * j) && top == Pow2(w - j)
  }

  lemma TopMasks64()
    ensures TopMask(0xffff_ffff_0000_0000, 32, 64, 1, WORD32)
    ensures TopMask(0xffff_0000_0000_0000, 16, 64, WORD32, 0x1_0000_0000_0000)
    ensures TopMask(0xff00_0000_0000_0000, 8, 64, 0x1_0000_0000_0000, 0x100_0000_0000_0000)
    ensures TopMask(0xf000_0000_0000_0000, 4, 64, 0x100_0000_0000_0000, 0x1000_0000_0000_0000)
    ensures TopMask(0xc000_0000_0000_0000, 2, 64, 0x1000_0000_0000_0000, 0x4000_0000_0000_0000)
    ensures TopMask(0x8000_0000_0000_0000, 1, 64, 0x4000_0000_0000_0000, SIGN64)
  {
    hide Pow2, MulPow2;
    Pow2Values();
    MulPow2Is(Pow2(32) - 1, 32);
    MulPow2Is(Pow2(16) - 1, 48);
    MulPow2Is(Pow2(8) - 1, 56);
    MulPow2Is(Pow2(4) - 1, 60);
    MulPow2Is(Pow2(2) - 1, 62);
    MulPow2Is(Pow2(1) - 1, 63);
  }

  /** Shifting a word up by as many bits as were found clear loses nothing. */
  lemma ShiftUp(a: nat, n: nat, x: nat, mask: nat, j: nat, w: nat, floor: nat, top: nat)
    requires TopMask(mask, j, w, floor, top)
    requires x == MulPow2(a, n) < Pow2(w) && (a > 0 ==> x >= floor)
    ensures And(x, mask) == 0 <==> x < top
    ensures var b := if And(x, mask) == 0 then j else 0;
            MulPow2(x, b) == MulPow2(a, n + b) < Pow2(w) && (a > 0 ==> MulPow2(x, b) >= top)
  {
    LeadingStep(a, n, x, j, w - j);
  }

  lemma MulPow2Id(a: nat)
    ensures MulPow2(a, 0) == a
  {
  }

  lemma Shl64Exact(x: U64, n: int)
    requires 0 <= n < 64 && MulPow2(x, n) < Pow2(64)
    ensures Shl64(x, n) == MulPow2(x, n)
  {
    Pow2Values();
  }

  /** One line of the 64-bit leading count: if the masked bits are clear, shift
      them out and add their number to the count. */
  method ShiftUpIfClear64(ghost a: U64, n: nat, w: U64, mask: U64, j: nat, ghost floor: nat, ghost top: nat)
      returns (n': nat, w': U64)
    requires TopMask(mask, j, 64, floor, top)
    requires w == MulPow2(a, n) && (a > 0 ==> w >= floor)
    ensures w' == MulPow2(a, n') && (a > 0 ==> w' >= top)
    ensures n' == if w < top then n + j else n
    ensures w == 0 ==> w' == 0
  {
    hide Pow2, MulPow2, And;
    Pow2Values();
    ShiftUp(a, n, w, mask, j, 64, floor, top);
    var b := if And(w, mask) == 0 then j else 0;
    Shl64Exact(w, b);
    MulPow2Zero(b);
    n' := n + b;
    w' := Shl64(w, b);
  }

  method LastLeadingBit64(ghost a: U64, n: nat, w: U64) returns (r: nat)
    requires TopMask(0x8000_0000_0000_0000, 1, 64, 0x4000_0000_0000_0000, SIGN64)
    requires w == MulPow2(a, n) && (a > 0 ==> w >= 0x4000_0000_0000_0000)
    ensures r == if w < SIGN64 then n + 1 else n
    ensures a > 0 ==> SIGN64 <= MulPow2(a, r) < WORD64 && r == LeadingZeros(a, 64)
  {
    hide Pow2, MulPow2, And, LeadingZeros, TopMask;
    Pow2Values();
    ShiftUp(a, n, w, 0x8000_0000_0000_0000, 1, 64, 0x4000_0000_0000_0000, SIGN64);
    r := n + if And(w, 0x8000_0000_0000_0000) == 0 then 1 else 0;
    if a > 0 {
      NormalizingShift(a, r, 64);
    }
  }

  method ClzDi2(a: U64) returns (r: nat)
    ensures a == 0 ==> r == 63
    ensures a > 0 ==> SIGN64 <= MulPow2(a, r) < WORD64 && r == LeadingZeros(a, 64)
  {
    hide Pow2, MulPow2, And, LeadingZeros, TopMask;
    TopMasks64();
    MulPow2Zero(0);
    MulPow2Id(a);
    var n, w := ShiftUpIfClear64(a, 0, a, 0xffff_ffff_0000_0000, 32, 1, WORD32);
    n, w := ShiftUpIfClear64(a, n, w, 0xffff_0000_0000_0000, 16, WORD32, 0x1_0000_0000_0000);
    n, w := ShiftUpIfClear64(a, n, w, 0xff00_0000_0000_0000, 8, 0x1_0000_0000_0000, 0x100_0000_0000_0000);
    n, w := ShiftUpIfClear64(a, n, w, 0xf000_0000_0000_0000, 4, 0x100_0000_0000_0000, 0x1000_0000_0000_0000);
    n, w := ShiftUpIfClear64(a, n, w, 0xc000_0000_0000_0000, 2, 0x1000_0000_0000_0000, 0x4000_0000_0000_0000);
    r := LastLeadingBit64(a, n, w);
  }

  lemma TopMasks32()
    ensures TopMask(0xffff_0000, 16, 32, 1, 0x1_0000)
    ensures TopMask(0xff00_0000, 8, 32, 0x1_0000, 0x100_0000)
    ensures TopMask(0xf000_0000, 4, 32, 0x100_0000, 0x1000_0000)
    ensures TopMask(0xc000_0000, 2, 32, 0x1000_0000, 0x4000_0000)
    ensures TopMask(0x8000_0000, 1, 32, 0x4000_0000, 0x8000_0000)
  {
    hide Pow2, MulPow2;
    Pow2Values();
    MulPow2Is(Pow2(16) - 1, 16);
    MulPow2Is(Pow2(8) - 1, 24);
    MulPow2Is(Pow2(4) - 1, 28);
    MulPow2Is(Pow2(2) - 1, 30);
    MulPow2Is(Pow2(1) - 1, 31);
  }

  lemma Shl32Exact(x: U32, n: int)
    requires 0 <= n < 32 && MulPow2(x, n) < Pow2(32)
    ensures Shl32(x, n) == MulPow2(x, n)
  {
    Pow2Values();
  }

  /** One line of the 32-bit leading count. */
  method ShiftUpIfClear32(ghost a: U32, n: nat, w: U32, mask: U32, j: nat, ghost floor: nat, ghost top: nat)
      returns (n': nat, w': U32)
    requires TopMask(mask, j, 32, floor, top)
    requires w == MulPow2(a, n) && (a > 0 ==> w >= floor)
    ensures w' == MulPow2(a, n') && (a > 0 ==> w' >= top)
    ensures n' == if w < top then n + j else n
    ensures w == 0 ==> w' == 0
  {
    hide Pow2, MulPow2, And;
    Pow2Values();
    ShiftUp(a, n, w, mask, j, 32, floor, top);
    var b := if And(w, mask) == 0 then j else 0;
    Shl32Exact(w, b);
    MulPow2Zero(b);
    n' := n + b;
    w' := Shl32(w, b);
  }

  method LastLeadingBit32(ghost a: U32, n: nat, w: U32) returns (r: nat)
    requires TopMask(0x8000_0000, 1, 32, 0x4000_0000, 0x8000_0000)
    requires w == MulPow2(a, n) && (a > 0 ==> w >= 0x4000_0000)
    ensures r == if w < 0x8000_0000 then n + 1 else n
    ensures a > 0 ==> r == LeadingZeros(a, 32)
  {
    hide Pow2, MulPow2, And, LeadingZeros, TopMask;
    Pow2Values();
    ShiftUp(a, n, w, 0x8000_0000, 1, 32, 0x4000_0000, 0x8000_0000);
    r := n + if And(w, 0x8000_0000) == 0 then 1 else 0;
    if a > 0 {
      NormalizingShift(a, r, 32);
    }
  }

  method ClzSi2(a: U32) returns (r: nat)
    ensures a == 0 ==> r == 31
    ensures a > 0 ==> r == LeadingZeros(a, 32)
  {
    hide Pow2, MulPow2, And, LeadingZeros, TopMask;
    TopMasks32();
    MulPow2Zero(0);
    MulPow2Id(a);
    var n, w := ShiftUpIfClear32(a, 0, a, 0xffff_0000, 16, 1, 0x1_0000);
    n, w := ShiftUpIfClear32(a, n, w, 0xff00_0000, 8, 0x1_0000, 0x100_0000);
    n, w := ShiftUpIfClear32(a, n, w, 0xf000_0000, 4, 0x100_0000, 0x1000_0000);
    n, w := ShiftUpIfClear32(a, n, w, 0xc000_0000, 2, 0x1000_0000, 0x4000_0000);
    r := LastLeadingBit32(a, n, w);
  }

  // ----- trailing counts

  /** The mask covers the low j bits. */
  ghost predicate LowMask(mask: nat, j: nat) {
    j > 0 && mask == Pow2(j) - 1
  }

  lemma LowMasks()
    ensures LowMask(0xffff_ffff, 32) && LowMask(0xffff, 16) && LowMask(0xff, 8)
    ensures LowMask(0xf, 4) && LowMask(3, 2) && LowMask(1, 1)
  {
    hide Pow2;
    Pow2Values();
  }

  /** x has fewer than k trailing zeros. */
  ghost predicate SomeLowBit(x: nat, k: nat) {
    x % Pow2(k) != 0
  }

  lemma {:induction false} DivPow2Exact(x: nat, j: nat)
    requires x % Pow2(j) == 0
    ensures MulPow2(DivPow2(x, j), j) == x
  {
    if j > 0 {
      DivTwice(x, Pow2(j - 1));
      DivPow2Exact(x / 2, j - 1);
    }
  }

  lemma {:induction false} LowBitBelow(x: nat, j: nat, k: nat)
    requires SomeLowBit(x, j + k) && x % Pow2(j) == 0
    ensures SomeLowBit(DivPow2(x, j), k)
  {
    if j > 0 {
      DivTwice(x, Pow2(j - 1));
      DivTwice(x, Pow2(j + k - 1));
      LowBitBelow(x / 2, j - 1, k);
    }
  }

  /** Shifting down past j clear bits keeps the value and leaves fewer than j
      trailing zeros, if there were fewer than 2 * j before. */
  lemma ShiftDown(a: nat, n: nat, x: nat, mask: nat, j: nat)
    requires LowMask(mask, j) && a == MulPow2(x, n)
    ensures And(x, mask) == 0 <==> x % Pow2(j) == 0
    ensures var b := if And(x, mask) == 0 then j else 0;
            && a == MulPow2(DivPow2(x, b), n + b)
            && (SomeLowBit(x, 2 * j) ==> SomeLowBit(DivPow2(x, b), j))
  {
    hide DivPow2, MulPow2, And;
    AndLowMask(x, j);
    DivPow2Zero(x);
    if x % Pow2(j) == 0 {
      DivPow2Exact(x, j);
      MulPow2Add(DivPow2(x, j), j, n);
      if SomeLowBit(x, 2 * j) {
        LowBitBelow(x, j, j);
      }
    }
  }

  lemma DivPow2Zero(x: nat)
    ensures DivPow2(x, 0) == x
  {
  }

  /** One line of either trailing count. */
  method ShiftDownIfClear(ghost a: U64, n: nat, w: U64, mask: U64, j: nat) returns (n': nat, w': U64)
    requires LowMask(mask, j) && j < 64
    requires a == MulPow2(w, n)
    ensures a == MulPow2(w', n') && w' <= w
    ensures SomeLowBit(w, 2 * j) ==> SomeLowBit(w', j)
    ensures w == 0 ==> w' == 0 && n' == n + j
  {
    ShiftDown(a, n, w, mask, j);
    var b := if And(w, mask) == 0 then j else 0;
    n' := n + b;
    w' := Shr64(w, b);
  }

  method LastTrailingBit(ghost a: U64, n: nat, w: U64) returns (r: nat)
    requires LowMask(1, 1) && a == MulPow2(w, n)
    ensures w == 0 ==> r == n + 1
    ensures a > 0 && SomeLowBit(w, 2) ==> r == TrailingZeros(a)
  {
    ShiftDown(a, n, w, 1, 1);
    r := n + if And(w, 1) == 0 then 1 else 0;
    if SomeLowBit(w, 2) {
      var b := if And(w, 1) == 0 then 1 else 0;
      OddTimesPow2(DivPow2(w, b), r);
    }
  }

  lemma NonzeroHasLowBit(a: nat, k: nat)
    requires 0 < a < Pow2(k)
    ensures SomeLowBit(a, k)
  {
    ModSmall(a, Pow2(k));
  }

  method CtzDi2(a: U64) returns (r: nat)
    ensures a == 0 ==> r == 63
    ensures a > 0 ==> r == TrailingZeros(a)
  {
    hide Pow2, MulPow2, And, TrailingZeros, LowMask, SomeLowBit;
    LowMasks();
    MulPow2Id(a);
    Pow2Values();
    if a > 0 {
      NonzeroHasLowBit(a, 64);
    }
    var n, w := ShiftDownIfClear(a, 0, a, 0xffff_ffff, 32);
    n, w := ShiftDownIfClear(a, n, w, 0xffff, 16);
    n, w := ShiftDownIfClear(a, n, w, 0xff, 8);
    n, w := ShiftDownIfClear(a, n, w, 0xf, 4);
    n, w := ShiftDownIfClear(a, n, w, 3, 2);
    r := LastTrailingBit(a, n, w);
  }

  method CtzSi2(a: U32) returns (r: nat)
    ensures a == 0 ==> r == 31
    ensures a > 0 ==> r == TrailingZeros(a)
  {
    hide Pow2, MulPow2, And, TrailingZeros, LowMask, SomeLowBit;
    LowMasks();
    MulPow2Id(a);
    Pow2Values();
    if a > 0 {
      NonzeroHasLowBit(a, 32);
    }
    var n, w := ShiftDownIfClear(a, 0, a, 0xffff, 16);
    n, w := ShiftDownIfClear(a, n, w, 0xff, 8);
    n, w := ShiftDownIfClear(a, n, w, 0xf, 4);
    n, w := ShiftDownIfClear(a, n, w, 3, 2);
    r := LastTrailingBit(a, n, w);
  }

  /** One-based index of the lowest set bit, zero for zero. */
  method FfsDi2(a: U64) returns (r: nat)
    ensures r == if a == 0 then 0 else TrailingZeros(a) + 1
  {
    if a == 0 {
      r := 0;
    } else {
      var c := CtzDi2(a);
      r := c + 1;
    }
  }
}
