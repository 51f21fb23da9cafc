/** The parallel bit counts of inuoskrnl/rt/math.c. */
module PopCounts {
  import Arith
  import opened Bits

  /** Set bits, one at a time. */
  function Ones(a: nat): nat {
    if a == 0 then 0 else a % 2 + Ones(a / 2)
  }

  // The masks of the three stages, on n digits: 0x55.., 0x33.. and 0x0F0F...

  function PairMask(n: nat): nat {
    if n == 0 then 0 else 4 * PairMask(n - 1) + 1
  }

  function NibbleMask(n: nat): nat {
    if n == 0 then 0 else 16 * NibbleMask(n - 1) + 3
  }

  function ByteMask(n: nat): nat {
    if n == 0 then 0 else 256 * ByteMask(n - 1) + 15
  }

  // Three stages, each on n digits of a word: pairs of bits, nibbles, bytes. Every
  // digit of a stage holds the number of set bits the word has in that place.

  function Pairs(a: nat, n: nat): nat {
    if n == 0 then 0 else 4 * Pairs(a / 4, n - 1) + Ones(a % 4)
  }

  function Nibbles(a: nat, n: nat): nat {
    if n == 0 then 0 else 16 * Nibbles(a / 16, n - 1) + Ones(a % 16)
  }

  function Bytes(a: nat, n: nat): nat {
    if n == 0 then 0 else 256 * Bytes(a / 256, n - 1) + Ones(a % 256)
  }

  lemma Split(x: nat, d: nat) returns (q: nat, r: nat)
    requires d > 0
    ensures x == d * q + r && r < d
  {
    q, r := Arith.DivMod(x, d);
  }

  lemma OnesCons(x: nat, b: nat)
    requires b <= 1
    ensures Ones(2 * x + b) == Ones(x) + b
  {
    assert (2 * x + b) / 2 == x;
  }

  lemma OnesZero()
    ensures Ones(0) == 0
  {
  }

  lemma OnesQuad(x: nat, d: nat)
    requires d < 4
    ensures Ones(4 * x + d) == Ones(x) + Ones(d) && Ones(d) <= 2
  {
    hide Ones;
    var t, p := Split(d, 2);
    OnesTwo(d, t, p);
    OnesCons(x, t);
    OnesCons(2 * x + t, p);
    assert 2 * (2 * x + t) + p == 4 * x + d;
  }

  lemma OnesTwo(d: nat, t: nat, p: nat)
    requires t <= 1 && p <= 1 && d == 2 * t + p
    ensures Ones(d) == t + p
  {
    hide Ones;
    OnesZero();
    OnesCons(0, t);
    OnesCons(t, p);
  }

  lemma OnesNibble(x: nat, d: nat)
    requires d < 16
    ensures Ones(16 * x + d) == Ones(x) + Ones(d) && Ones(d) <= 4
  {
    hide Ones;
    var t, p := Split(d, 4);
    OnesQuad(t, p);
    OnesQuad(0, t);
    OnesQuad(x, t);
    OnesQuad(4 * x + t, p);
    assert 4 * (4 * x + t) + p == 16 * x + d;
  }

  lemma OnesByte(x: nat, d: nat)
    requires d < 256
    ensures Ones(256 * x + d) == Ones(x) + Ones(d) && Ones(d) <= 8
  {
    hide Ones;
    var t, p := Split(d, 16);
    OnesNibble(t, p);
    OnesNibble(0, t);
    OnesNibble(x, t);
    OnesNibble(16 * x + t, p);
    assert 16 * (16 * x + t) + p == 256 * x + d;
  }

  lemma AndPair(x: nat, m: nat, t: nat, p: nat)
    requires t <= 1 && p <= 1
    ensures And(4 * x + 2 * t + p, 4 * m + 1) == 4 * And(x, m) + p
  {
    hide And;
    AndCons(x, m, t, 0);
    AndCons(2 * x + t, 2 * m, p, 1);
  }

  lemma AndNibble(x: nat, m: nat, t: nat, p: nat)
    requires t < 4 && p < 4
    ensures And(16 * x + 4 * t + p, 16 * m + 3) == 16 * And(x, m) + p
  {
    hide And;
    AndCons(x, m, t / 2, 0);
    AndCons(2 * x + t / 2, 2 * m, t % 2, 0);
    AndCons(4 * x + t, 4 * m, p / 2, 1);
    AndCons(8 * x + 2 * t + p / 2, 8 * m + 1, p % 2, 1);
  }

  lemma AndLow2(x: nat, m: nat, p: nat)
    requires p < 4
    ensures And(4 * x + p, 4 * m + 3) == 4 * And(x, m) + p
    ensures And(4 * x + p, 4 * m) == 4 * And(x, m)
  {
    hide And;
    AndCons(x, m, p / 2, 1);
    AndCons(2 * x + p / 2, 2 * m + 1, p % 2, 1);
    AndCons(x, m, p / 2, 0);
    AndCons(2 * x + p / 2, 2 * m, p % 2, 0);
  }

  lemma AndByte(x: nat, m: nat, t: nat, p: nat)
    requires t < 16 && p < 16
    ensures And(256 * x + 16 * t + p, 256 * m + 15) == 256 * And(x, m) + p
  {
    hide And;
    AndLow2(x, m, t / 4);
    AndLow2(4 * x + t / 4, 4 * m, t % 4);
    AndLow2(16 * x + t, 16 * m, p / 4);
    AndLow2(64 * x + 4 * t + p / 4, 64 * m + 3, p % 4);
  }

  // The recursive definitions, on a number given by its high part and low digit.

  lemma PairsCons(a: nat, b: nat, d: nat, n: nat)
    requires n > 0 && d < 4 && a == 4 * b + d
    ensures Pairs(a, n) == 4 * Pairs(b, n - 1) + Ones(d)
  {
    hide Ones;
    Arith.DivUnique(a, 4, b, d);
  }

  lemma NibblesCons(a: nat, b: nat, d: nat, n: nat)
    requires n > 0 && d < 16 && a == 16 * b + d
    ensures Nibbles(a, n) == 16 * Nibbles(b, n - 1) + Ones(d)
  {
    hide Ones;
    Arith.DivUnique(a, 16, b, d);
  }

  lemma BytesCons(a: nat, b: nat, d: nat, n: nat)
    requires n > 0 && d < 256 && a == 256 * b + d
    ensures Bytes(a, n) == 256 * Bytes(b, n - 1) + Ones(d)
  {
    hide Ones;
    Arith.DivUnique(a, 256, b, d);
  }

  lemma PairDigit(a: nat, b: nat, d: nat, k: nat, m: nat)
    requires d < 4 && a == 4 * b + d && k == 4 * m + 1
    ensures And(a / 2, k) == 4 * And(b / 2, m) + d / 2
    ensures Ones(d) == d - d / 2
  {
    hide And, Ones;
    OnesTwo(d, d / 2, d % 2);
    var h, t := Arith.DivMod(b, 2);
    AndPair(h, m, t, d / 2);
    Arith.DivUnique(a, 2, 4 * h + 2 * t + d / 2, d % 2);
  }

  lemma {:induction false} PairStage(a: nat, n: nat)
    requires a < Pow2(2 * n)
    ensures a - And(a / 2, PairMask(n)) == Pairs(a, n)
  {
    hide And, Ones, Pairs, PairMask, Pow2;
    if n == 0 {
      StagesEnd(a);
    } else {
      Pow2Double(2 * n);
      Pow2Double(2 * n - 1);
      var b, d := Split(a, 4);
      PairStage(b, n - 1);
      MaskSteps(n);
      PairDigit(a, b, d, PairMask(n), PairMask(n - 1));
      PairsCons(a, b, d, n);
    }
  }

  /** What the stages are on no digits, and the masks on one digit more. */
  lemma StagesEnd(a: nat)
    ensures a < Pow2(2 * 0) ==> a - And(a / 2, PairMask(0)) == Pairs(a, 0)
    ensures NibbleSum(Pairs(a, 2 * 0), NibbleMask(0)) == Nibbles(a, 0)
    ensures ByteSum(Nibbles(a, 2 * 0), ByteMask(0)) == Bytes(a, 0)
  {
    assert Pow2(0) == 1;
  }

  lemma MaskSteps(n: nat)
    requires n > 0
    ensures PairMask(n) == 4 * PairMask(n - 1) + 1
    ensures NibbleMask(n) == 16 * NibbleMask(n - 1) + 3
    ensures ByteMask(n) == 256 * ByteMask(n - 1) + 15
  {
  }

  /** The second line of the counts, under the mask m: neighbouring pairs added. */
  function NibbleSum(x: nat, m: nat): nat {
    And(x / 4, m) + And(x, m)
  }

  /** The third line: neighbouring nibbles added, then masked. */
  function ByteSum(x: nat, m: nat): nat {
    And(x + x / 16, m)
  }

  /** Adding neighbouring digits of one stage gives the digit of the next. */
  lemma NibbleStep(y: nat, x: nat, p1: nat, p0: nat, k: nat, m: nat)
    requires p1 < 4 && p0 < 4 && y == 16 * x + 4 * p1 + p0 && k == 16 * m + 3
    ensures NibbleSum(y, k) == 16 * NibbleSum(x, m) + p1 + p0
  {
    hide And;
    var h, t := Arith.DivMod(x, 4);
    AndNibble(x, m, p1, p0);
    AndNibble(h, m, t, p1);
    Arith.DivUnique(y, 4, 16 * h + 4 * t + p1, p0);
  }

  lemma PairsTwice(a: nat, b: nat, p1: nat, p0: nat, n: nat)
    requires n > 0 && p1 < 4 && p0 < 4 && a == 16 * b + 4 * p1 + p0
    ensures Pairs(a, 2 * n) == 16 * Pairs(b, 2 * (n - 1)) + 4 * Ones(p1) + Ones(p0)
  {
    hide Ones, Pairs;
    var c := 4 * b + p1;
    PairsCons(c, b, p1, 2 * n - 1);
    PairsCons(a, c, p0, 2 * n);
  }

  lemma PairDigits(d: nat, p1: nat, p0: nat)
    requires p1 < 4 && p0 < 4 && d == 4 * p1 + p0
    ensures Ones(d) == Ones(p1) + Ones(p0) && Ones(p1) <= 2 && Ones(p0) <= 2
  {
    hide Ones;
    OnesQuad(p1, p0);
    OnesQuad(0, p1);
    OnesQuad(0, p0);
  }

  lemma {:induction false} NibbleStage(a: nat, n: nat)
    ensures NibbleSum(Pairs(a, 2 * n), NibbleMask(n)) == Nibbles(a, n)
  {
    hide NibbleSum, Ones, Pairs, Nibbles, NibbleMask;
    if n == 0 {
      StagesEnd(a);
    } else {
      var b, d := Split(a, 16);
      var p1, p0 := Split(d, 4);
      NibbleStage(b, n - 1);
      PairDigits(d, p1, p0);
      NibblesCons(a, b, d, n);
      PairsTwice(a, b, p1, p0, n);
      MaskSteps(n);
      NibbleStep(Pairs(a, 2 * n), Pairs(b, 2 * (n - 1)), Ones(p1), Ones(p0), NibbleMask(n), NibbleMask(n - 1));
    }
  }

  predicate SmallLowDigit(x: nat) {
    x % 16 <= 4
  }

  lemma ByteStep(y: nat, x: nat, p1: nat, p0: nat, k: nat, m: nat)
    requires p1 <= 4 && p0 <= 4 && SmallLowDigit(x) && y == 256 * x + 16 * p1 + p0 && k == 256 * m + 15
    ensures ByteSum(y, k) == 256 * ByteSum(x, m) + p1 + p0
  {
    hide And;
    var h, t := Arith.DivMod(x, 16);
    AndByte(x + h, m, t + p1, p1 + p0);
    Arith.DivUnique(y, 16, 16 * x + p1, p0);
    assert y + y / 16 == 256 * (x + h) + 16 * (t + p1) + (p1 + p0);
  }

  lemma NibblesTwice(a: nat, b: nat, p1: nat, p0: nat, n: nat)
    requires n > 0 && p1 < 16 && p0 < 16 && a == 256 * b + 16 * p1 + p0
    ensures Nibbles(a, 2 * n) == 256 * Nibbles(b, 2 * (n - 1)) + 16 * Ones(p1) + Ones(p0)
  {
    hide Ones, Nibbles;
    var c := 16 * b + p1;
    NibblesCons(c, b, p1, 2 * n - 1);
    NibblesCons(a, c, p0, 2 * n);
  }

  lemma NibbleDigits(d: nat, p1: nat, p0: nat)
    requires p1 < 16 && p0 < 16 && d == 16 * p1 + p0
    ensures Ones(d) == Ones(p1) + Ones(p0) && Ones(p1) <= 4 && Ones(p0) <= 4
  {
    hide Ones;
    OnesNibble(p1, p0);
    OnesNibble(0, p1);
  }

  lemma NibblesDigit(a: nat, n: nat)
    ensures SmallLowDigit(Nibbles(a, n))
  {
    if n > 0 {
      hide Ones, Nibbles;
      var b, d := Split(a, 16);
      OnesNibble(0, d);
      NibblesCons(a, b, d, n);
      Arith.DivUnique(Nibbles(a, n), 16, Nibbles(b, n - 1), Ones(d));
    }
  }

  lemma {:induction false} ByteStage(a: nat, n: nat)
    ensures ByteSum(Nibbles(a, 2 * n), ByteMask(n)) == Bytes(a, n)
  {
    hide SmallLowDigit, ByteSum, Ones, Nibbles, Bytes, ByteMask;
    if n == 0 {
      StagesEnd(a);
    } else {
      var b, d := Split(a, 256);
      var p1, p0 := Split(d, 16);
      var y, x, m := Nibbles(a, 2 * n), Nibbles(b, 2 * (n - 1)), ByteMask(n - 1);
      ByteStage(b, n - 1);
      NibbleDigits(d, p1, p0);
      BytesCons(a, b, d, n);
      NibblesTwice(a, b, p1, p0, n);
      NibblesDigit(b, 2 * (n - 1));
      MaskSteps(n);
      ByteStep(y, x, Ones(p1), Ones(p0), ByteMask(n), m);
    }
  }

  /** The largest values the stages can hold; no addition overflows. */
  lemma {:induction false} PairBounds(a: nat, n: nat)
    ensures Pairs(a, n) <= 2 * PairMask(n)
  {
    if n > 0 {
      hide Ones;
      PairBounds(a / 4, n - 1);
      OnesQuad(0, a % 4);
    }
  }

  lemma {:induction false} NibbleBounds(a: nat, n: nat)
    ensures 3 * Nibbles(a, n) <= 4 * NibbleMask(n)
  {
    if n > 0 {
      hide Ones;
      NibbleBounds(a / 16, n - 1);
      OnesNibble(0, a % 16);
    }
  }

  lemma {:induction false} ByteBounds(a: nat, n: nat)
    ensures 15 * Bytes(a, n) <= 8 * ByteMask(n)
  {
    if n > 0 {
      hide Ones;
      ByteBounds(a / 256, n - 1);
      OnesByte(0, a % 256);
    }
  }

  /** One fold: x has low part l below the base, and l + h stays below it too. */
  lemma Fold(x: nat, l: nat, h: nat, base: nat)
    requires x == l + base * h && l < base
    ensures x / base == h
  {
    Arith.DivUnique(x, base, h, l);
  }

  /** Folding a word twice adds four byte counts into the low byte. */
  lemma FoldFour(x: nat, z: nat, c0: nat, c1: nat, c2: nat, c3: nat, k: nat)
    requires c0 <= 16 && c1 <= 16 && c2 <= 16 && c3 <= 16
    requires x == c0 + 0x100 * c1 + 0x1_0000 * (c2 + 0x100 * c3 + 0x1_0000 * k)
    requires z == x + x / 0x1_0000
    ensures (z + z / 0x100) % 128 == c0 + c1 + c2 + c3
  {
    var h := c2 + 0x100 * c3 + 0x1_0000 * k;
    Fold(x, c0 + 0x100 * c1, h, 0x1_0000);
    var t0, t1, j := c0 + c2, c1 + c3, h + k;
    assert z == t0 + 0x100 * (t1 + 0x100 * j);
    Fold(z, t0, t1 + 0x100 * j, 0x100);
    Arith.DivUnique(z + z / 0x100, 128, 2 * (t1 + 0x100 * j) + 2 * j, t0 + t1);
  }

  lemma BytesUnfold(a: nat, n: nat)
    requires n > 0
    ensures Bytes(a, n) == Ones(a % 256) + 256 * Bytes(a / 256, n - 1)
    ensures Ones(a) == Ones(a % 256) + Ones(a / 256)
    ensures Ones(a % 256) <= 8
  {
    hide Ones;
    OnesByte(a / 256, a % 256);
    OnesByte(0, a % 256);
  }

  /** Four byte digits of the third stage and the count they make up. */
  lemma FourBytes(a: nat, n: nat) returns (b0: nat, b1: nat, b2: nat, b3: nat, rest: nat)
    requires n >= 4
    ensures b0 <= 8 && b1 <= 8 && b2 <= 8 && b3 <= 8
    ensures Bytes(a, n) == b0 + 0x100 * b1 + 0x1_0000 * (b2 + 0x100 * b3) + WORD32 * Bytes(rest, n - 4)
    ensures Ones(a) == b0 + b1 + b2 + b3 + Ones(rest)
    ensures rest == a / 256 / 256 / 256 / 256
  {
    hide Ones, Bytes;
    BytesUnfold(a, n);
    BytesUnfold(a / 256, n - 1);
    BytesUnfold(a / 256 / 256, n - 2);
    BytesUnfold(a / 256 / 256 / 256, n - 3);
    b0, b1, b2, b3 := Ones(a % 256), Ones(a / 256 % 256), Ones(a / 256 / 256 % 256), Ones(a / 256 / 256 / 256 % 256);
    rest := a / 256 / 256 / 256 / 256;
  }

  lemma BytesEnd(a: nat)
    requires a == 0
    ensures Bytes(a, 0) == 0 && Ones(a) == 0
  {
  }

  /** Eight byte counts in a word, the upper four of them as a word of their own. */
  ghost predicate EightBytes(x: nat, h: nat, b: seq<nat>)
    requires |b| == 8
  {
    && h == b[4] + 0x100 * b[5] + 0x1_0000 * (b[6] + 0x100 * b[7])
    && x == b[0] + 0x100 * b[1] + 0x1_0000 * (b[2] + 0x100 * b[3]) + WORD32 * h
    && forall i :: 0 <= i < 8 ==> b[i] <= 8
  }

  /** The first of three folds adds the upper four counts to the lower. */
  lemma FoldUpper(x: nat, h: nat, b: seq<nat>)
    requires |b| == 8 && EightBytes(x, h, b)
    ensures x / WORD32 == h && forall i :: 0 <= i < 4 ==> b[i] + b[i + 4] <= 16
    ensures x + h == b[0] + b[4] + 0x100 * (b[1] + b[5])
                     + 0x1_0000 * (b[2] + b[6] + 0x100 * (b[3] + b[7]) + 0x1_0000 * h)
  {
    Fold(x, b[0] + 0x100 * b[1] + 0x1_0000 * (b[2] + 0x100 * b[3]), h, WORD32);
  }

  lemma FourDown(a: nat, m: nat)
    requires a < WORD32 * m
    ensures a / 256 / 256 / 256 / 256 < m
  {
    assert a / 256 < 0x100_0000 * m;
    assert a / 256 / 256 < 0x1_0000 * m;
    assert a / 256 / 256 / 256 < 0x100 * m;
  }

  lemma EightCounts(a: U64) returns (h: nat, b: seq<nat>)
    ensures |b| == 8 && EightBytes(Bytes(a, 8), h, b)
    ensures Ones(a) == b[0] + b[4] + (b[1] + b[5]) + (b[2] + b[6]) + (b[3] + b[7])
  {
    hide Ones, Bytes;
    var b0, b1, b2, b3, rest := FourBytes(a, 8);
    var b4, b5, b6, b7, rest' := FourBytes(rest, 4);
    FourDown(a, WORD32);
    FourDown(rest, 1);
    BytesEnd(rest');
    h, b := Bytes(rest, 4), [b0, b1, b2, b3, b4, b5, b6, b7];
  }

  lemma FoldEight(a: U64, x: U64, y: nat, z: nat, r: nat)
    requires x == Bytes(a, 8) && y == x + x / WORD32 && z == y + y / 0x1_0000 && r == z + z / 0x100
    ensures r % 128 == Ones(a)
  {
    hide Ones, Bytes, EightBytes;
    var h, b := EightCounts(a);
    FoldUpper(x, h, b);
    FoldFour(y, z, b[0] + b[4], b[1] + b[5], b[2] + b[6], b[3] + b[7], h);
  }

  lemma HalfModulus(r: nat, c: nat)
    requires r % 128 == c && c < 64
    ensures r % 64 == c
  {
    var q, m := Arith.DivMod(r, 128);
    Arith.DivUnique(r, 64, 2 * q, c);
  }

  lemma FoldQuarter(a: U32, x: U32, y: nat, r: nat)
    requires x == Bytes(a, 4) && y == x + x / 0x1_0000 && r == y + y / 0x100
    ensures r % 64 == Ones(a)
  {
    hide Ones, Bytes;
    var b0, b1, b2, b3, rest := FourBytes(a, 4);
    BytesEnd(rest);
    FoldFour(x, y, b0, b1, b2, b3, 0);
    HalfModulus(r, b0 + b1 + b2 + b3);
  }

  // ----- the two counts

  lemma {:induction false} MaskValues(n: nat)
    ensures 3 * PairMask(n) == Pow2(2 * n) - 1
    ensures 5 * NibbleMask(n) == Pow2(4 * n) - 1
    ensures 17 * ByteMask(n) == Pow2(8 * n) - 1
  {
    hide Pow2;
    Pow2Small();
    if n > 0 {
      MaskValues(n - 1);
      Pow2Add(2 * n - 2, 2);
      Pow2Add(4 * n - 4, 4);
      Pow2Add(8 * n - 8, 8);
    }
  }

  lemma Masks64()
    ensures PairMask(32) == 0x5555_5555_5555_5555
    ensures NibbleMask(16) == 0x3333_3333_3333_3333
    ensures ByteMask(8) == 0x0F0F_0F0F_0F0F_0F0F
  {
    hide PairMask, NibbleMask, ByteMask, Pow2;
    MaskValues(32);
    MaskValues(16);
    MaskValues(8);
    Pow2Values();
  }

  lemma Masks32()
    ensures PairMask(16) == 0x5555_5555
    ensures NibbleMask(8) == 0x3333_3333
    ensures ByteMask(4) == 0x0F0F_0F0F
  {
    hide PairMask, NibbleMask, ByteMask, Pow2;
    MaskValues(16);
    MaskValues(8);
    MaskValues(4);
    Pow2Values();
  }

  lemma Shr64Is(x: U64, k: int, d: nat)
    requires 0 <= k < 64 && d == Pow2(k)
    ensures Shr64(x, k) == x / d
  {
    DivPow2Is(x, k);
  }

  lemma Shr32Is(x: U32, k: int, d: nat)
    requires 0 <= k < 32 && d == Pow2(k)
    ensures Shr32(x, k) == x / d
  {
    DivPow2Is(x, k);
  }

  // Each line of the two counts, on the stage it computes.

  lemma Bounds64(a: U64)
    ensures Pairs(a, 32) < WORD64 && Nibbles(a, 16) <= 0x4444_4444_4444_4444 && Bytes(a, 8) <= 0x0808_0808_0808_0808
  {
    hide Pairs, Nibbles, Bytes, PairMask, NibbleMask, ByteMask;
    Masks64();
    PairBounds(a, 32);
    NibbleBounds(a, 16);
    ByteBounds(a, 8);
  }

  lemma Bounds32(a: U32)
    ensures Pairs(a, 16) < WORD32 && Nibbles(a, 8) <= 0x4444_4444 && Bytes(a, 4) <= 0x0808_0808
  {
    hide Pairs, Nibbles, Bytes, PairMask, NibbleMask, ByteMask;
    Masks32();
    PairBounds(a, 16);
    NibbleBounds(a, 8);
    ByteBounds(a, 4);
  }

  lemma PairShift64(a: U64)
    ensures Shr64(a, 1) == a / 2
  {
    hide Pow2, Shr64;
    Pow2Small();
    Shr64Is(a, 1, 2);
  }

  lemma PairLine64(a: U64)
    ensures (a - And(Shr64(a, 1), 0x5555_5555_5555_5555)) % WORD64 == Pairs(a, 32)
  {
    hide And, Pairs, Shr64, PairMask, Pow2;
    Masks64();
    Bounds64(a);
    PairShift64(a);
    assert a < Pow2(2 * 32) by { Pow2Values(); }
    PairStage(a, 32);
    Arith.ModSmall(Pairs(a, 32), WORD64);
  }

  lemma NibbleLine64(a: U64, w: U64)
    requires w == Pairs(a, 32)
    ensures (And(Shr64(w, 2), 0x3333_3333_3333_3333) + And(w, 0x3333_3333_3333_3333)) % WORD64 == Nibbles(a, 16)
  {
    hide And, Pairs, Nibbles, Pow2, Shr64, NibbleMask;
    Masks64();
    Pow2Small();
    Bounds64(a);
    Shr64Is(w, 2, 4);
    NibbleStage(a, 16);
  }

  lemma ByteLine64(a: U64, w: U64)
    requires w == Nibbles(a, 16)
    ensures And((w + Shr64(w, 4)) % WORD64, 0x0F0F_0F0F_0F0F_0F0F) == Bytes(a, 8)
  {
    hide And, Nibbles, Bytes, Pow2, Shr64, ByteMask;
    Masks64();
    Pow2Small();
    Bounds64(a);
    Shr64Is(w, 4, 16);
    Arith.ModSmall(w + w / 16, WORD64);
    ByteStage(a, 8);
  }

  /** No fold of a small word wraps. */
  lemma FoldLine64(w: U64, k: int, d: nat) returns (y: U64)
    requires w <= 0x1000_0000_0000_0000 && 0 < k < 64 && d >= 0x100
    requires (k == 32 && d == WORD32) || (k == 16 && d == 0x1_0000) || (k == 8 && d == 0x100)
    ensures y == Folded64(w, k) == w + w / d
    ensures 0x100 * (y - w) <= w
  {
    hide Shr64, Pow2;
    Pow2Values();
    Shr64Is(w, k, d);
    y := w + w / d;
  }

  function Folded64(w: U64, k: nat): U64
    requires k < 64
  {
    (w + Shr64(w, k)) % WORD64
  }

  lemma FoldLines64(a: U64, w: U64)
    requires w == Bytes(a, 8)
    ensures And(Folded64(Folded64(Folded64(w, 32), 16), 8), 127) == Ones(a)
  {
    hide And, Ones, Bytes, Pow2, Folded64;
    Bounds64(a);
    var y := FoldLine64(w, 32, WORD32);
    var z := FoldLine64(y, 16, 0x1_0000);
    var r := FoldLine64(z, 8, 0x100);
    FoldEight(a, w, y, z, r);
    LowSeven(r);
  }

  lemma LowSeven(x: nat)
    ensures And(x, 127) == x % 128
  {
    hide And, Pow2;
    Pow2Six();
    LowBits(x, 7, 128);
  }

  lemma LowBits(x: nat, k: nat, d: nat)
    requires d == Pow2(k)
    ensures And(x, d - 1) == x % d
  {
    AndLowMask(x, k);
  }

  method PopCountDi2(a: U64) returns (r: nat)
    ensures r == Ones(a)
  {
    hide And, Ones, Pairs, Nibbles, Bytes, Shr64;
    var w: U64 := a;
    PairLine64(w);
    w := (w - And(Shr64(w, 1), 0x5555_5555_5555_5555)) % WORD64;
    NibbleLine64(a, w);
    w := (And(Shr64(w, 2), 0x3333_3333_3333_3333) + And(w, 0x3333_3333_3333_3333)) % WORD64;
    ByteLine64(a, w);
    w := And((w + Shr64(w, 4)) % WORD64, 0x0F0F_0F0F_0F0F_0F0F);
    FoldLines64(a, w);
    w := (w + Shr64(w, 32)) % WORD64;
    w := (w + Shr64(w, 16)) % WORD64;
    r := And((w + Shr64(w, 8)) % WORD64, 127);
  }

  lemma PairLine32(a: U32)
    ensures (a - And(Shr32(a, 1), 0x5555_5555)) % WORD32 == Pairs(a, 16)
  {
    hide And, Pairs, Pow2, Shr32, PairMask, Nibbles, Bytes;
    assert a < Pow2(32) && Pow2(1) == 2 by { Pow2Values(); }
    Masks32();
    Bounds32(a);
    Shr32Is(a, 1, 2);
    PairStage(a, 16);
    Arith.ModSmall(Pairs(a, 16), WORD32);
  }

  lemma NibbleLine32(a: U32, w: U32)
    requires w == Pairs(a, 16)
    ensures (And(Shr32(w, 2), 0x3333_3333) + And(w, 0x3333_3333)) % WORD32 == Nibbles(a, 8)
  {
    hide And, Pairs, Nibbles, Pow2, Shr32, NibbleMask;
    Masks32();
    Pow2Small();
    Bounds32(a);
    Shr32Is(w, 2, 4);
    NibbleStage(a, 8);
  }

  lemma ByteLine32(a: U32, w: U32)
    requires w == Nibbles(a, 8)
    ensures And((w + Shr32(w, 4)) % WORD32, 0x0F0F_0F0F) == Bytes(a, 4)
  {
    hide And, Nibbles, Bytes, Pow2, Shr32, ByteMask;
    Masks32();
    Pow2Small();
    Bounds32(a);
    Shr32Is(w, 4, 16);
    ByteStage(a, 4);
  }

  lemma FoldLine32(w: U32, k: int, d: nat) returns (y: U32)
    requires w <= 0x1000_0000
    requires (k == 16 && d == 0x1_0000) || (k == 8 && d == 0x100)
    ensures y == (w + Shr32(w, k)) % WORD32 == w + w / d
    ensures 0x100 * (y - w) <= w
  {
    hide Shr32, Pow2;
    Pow2Values();
    Shr32Is(w, k, d);
    y := w + w / d;
  }

  lemma FoldLines32(a: U32, w: U32)
    requires w == Bytes(a, 4)
    ensures var y := (w + Shr32(w, 16)) % WORD32;
            And((y + Shr32(y, 8)) % WORD32, 63) == Ones(a)
  {
    hide And, Ones, Bytes, Pow2, Shr32;
    Bounds32(a);
    var y := FoldLine32(w, 16, 0x1_0000);
    var r := FoldLine32(y, 8, 0x100);
    FoldQuarter(a, w, y, r);
    Pow2Six();
    LowBits(r, 6, 64);
  }

  lemma Pow2Six()
    ensures Pow2(6) == 64 && Pow2(7) == 128
  {
  }

  method PopCountSi2(a: U32) returns (r: nat)
    ensures r == Ones(a)
  {
    hide And, Ones, Pairs, Nibbles, Bytes, Shr32;
    var w: U32 := a;
    PairLine32(w);
    w := (w - And(Shr32(w, 1), 0x5555_5555)) % WORD32;
    NibbleLine32(a, w);
    w := (And(Shr32(w, 2), 0x3333_3333) + And(w, 0x3333_3333)) % WORD32;
    ByteLine32(a, w);
    w := And((w + Shr32(w, 4)) % WORD32, 0x0F0F_0F0F);
    FoldLines32(a, w);
    w := (w + Shr32(w, 16)) % WORD32;
    r := And((w + Shr32(w, 8)) % WORD32, 63);
  }
}
