/** The single-bit helpers of inuoskrnl/rt/base.c and the bitmaps built from them. */
module BitBytes {
  import opened Arith
  import opened Bits

  type Byte = x: int | 0 <= x < 256

  /** The n-th bit of a word. */
  predicate BitOf(x: nat, n: nat) {
    DivPow2(x, n) % 2 == 1
  }

  function SetBit(number: U32, n: nat): nat {
    Or(number, Pow2(n))
  }

  function ClearBit(n: U32, pos: nat): nat
    requires pos < 32
  {
    Pow2Monotone(pos, 31);
    Pow2Values();
    And(n, WORD32 - 1 - Pow2(pos))
  }

  /** Bit zero is the remainder, the others are those of the half. */
  lemma BitDown(x: nat, m: nat)
    ensures BitOf(x, m) <==> if m == 0 then x % 2 == 1 else BitOf(x / 2, m - 1)
  {
  }

  lemma OrHalves(x: nat, y: nat)
    ensures Or(x, y) / 2 == Or(x / 2, y / 2)
    ensures Or(x, y) % 2 == 1 <==> x % 2 == 1 || y % 2 == 1
  {
    DivUnique(Or(x, y), 2, Or(x / 2, y / 2), if x % 2 == 1 || y % 2 == 1 then 1 else 0);
  }

  lemma {:induction false} OrBits(x: nat, y: nat, m: nat)
    ensures BitOf(Or(x, y), m) <==> BitOf(x, m) || BitOf(y, m)
  {
    hide Or, BitOf;
    OrHalves(x, y);
    BitDown(x, m);
    BitDown(y, m);
    BitDown(Or(x, y), m);
    if m > 0 {
      OrBits(x / 2, y / 2, m - 1);
    }
  }

  lemma {:induction false} AndBits(x: nat, y: nat, m: nat)
    ensures BitOf(And(x, y), m) <==> BitOf(x, m) && BitOf(y, m)
  {
    if x == 0 || y == 0 {
      ZeroBits(m);
    } else if m > 0 {
      AndBits(x / 2, y / 2, m - 1);
    }
  }

  lemma {:induction false} ZeroBits(m: nat)
    ensures !BitOf(0, m)
  {
    if m > 0 {
      ZeroBits(m - 1);
    }
  }

  lemma {:induction false} Pow2Bits(n: nat, m: nat)
    ensures BitOf(Pow2(n), m) <==> m == n
  {
    if m == 0 {
    } else if n == 0 {
      ZeroBits(m - 1);
    } else {
      Pow2Bits(n - 1, m - 1);
    }
  }

  lemma {:induction false} ComplementBits(x: nat, w: nat, m: nat)
    requires x < Pow2(w) && m < w
    ensures BitOf(Pow2(w) - 1 - x, m) <==> !BitOf(x, m)
  {
    var p, h, t := Pow2(w - 1), x / 2, x % 2;
    assert Pow2(w) == 2 * p;
    hide Pow2, BitOf;
    var c := Pow2(w) - 1 - x;
    DivUnique(c, 2, p - 1 - h, 1 - t);
    BitDown(x, m);
    BitDown(c, m);
    if m > 0 {
      ComplementBits(h, w - 1, m - 1);
    }
  }

  lemma {:induction false} OrBound(x: nat, y: nat, w: nat)
    requires x < Pow2(w) && y < Pow2(w)
    ensures Or(x, y) < Pow2(w)
  {
    if w > 0 {
      OrBound(x / 2, y / 2, w - 1);
    }
  }

  /** setbit sets its bit and no other; a word stays a word and a byte a byte. */
  lemma SetBitMeans(w: U32, n: nat, m: nat)
    requires n < 32
    ensures SetBit(w, n) < WORD32 && (w < 256 && n < 8 ==> SetBit(w, n) < 256)
    ensures BitOf(SetBit(w, n), m) <==> m == n || BitOf(w, m)
  {
    hide Or, Pow2, BitOf;
    OrBits(w, Pow2(n), m);
    Pow2Bits(n, m);
    Pow2Values();
    Pow2Strict(n, 32);
    OrBound(w, Pow2(n), 32);
    if w < 256 && n < 8 {
      Pow2Strict(n, 8);
      OrBound(w, Pow2(n), 8);
    }
  }

  lemma Pow2Strict(m: nat, n: nat)
    requires m < n
    ensures Pow2(m) < Pow2(n)
  {
    Pow2Monotone(m, n - 1);
  }

  /** clrbit clears its bit and no other. */
  lemma ClearBitMeans(w: U32, n: nat, m: nat)
    requires n < 32 && m < 32
    ensures ClearBit(w, n) <= w
    ensures BitOf(ClearBit(w, n), m) <==> m != n && BitOf(w, m)
  {
    hide And, Pow2, BitOf;
    Pow2Values();
    Pow2Strict(n, 32);
    AndBits(w, WORD32 - 1 - Pow2(n), m);
    ComplementBits(Pow2(n), 32, m);
    Pow2Bits(n, m);
  }

  /** GA_READBIT and chkbit. */
  predicate ReadBit(b: Byte, n: nat) {
    DivPow2(b, n) % 2 == 1
  }

  // ----- bitmaps

  /** Cell i of a bitmap is bit i % 8 of byte i / 8. */
  predicate Cell(bitmap: seq<Byte>, i: nat)
    requires i / 8 < |bitmap|
  {
    BitOf(bitmap[i / 8], i % 8)
  }

  function Cells(bitmap: seq<Byte>, n: nat): (s: seq<bool>)
    requires n <= 8 * |bitmap|
    ensures |s| == n && forall i :: 0 <= i < n ==> s[i] == Cell(bitmap, i)
  {
    seq(n, i requires 0 <= i < n => Cell(bitmap, i))
  }

  lemma MarkCell(bitmap: seq<Byte>, n: nat, i: nat)
    requires n <= 8 * |bitmap| && i < n
    ensures SetBit(bitmap[i / 8], i % 8) < 256
    ensures Cells(bitmap[i / 8 := SetBit(bitmap[i / 8], i % 8)], n) == Cells(bitmap, n)[i := true]
  {
    hide BitOf, SetBit;
    SetBitMeans(bitmap[i / 8], i % 8, 0);
    var b' := bitmap[i / 8 := SetBit(bitmap[i / 8], i % 8)];
    forall j | 0 <= j < n
      ensures Cell(b', j) == Cells(bitmap, n)[i := true][j]
    {
      SetBitMeans(bitmap[i / 8], i % 8, j % 8);
    }
  }

  lemma ClearCell(bitmap: seq<Byte>, n: nat, i: nat)
    requires n <= 8 * |bitmap| && i < n
    ensures ClearBit(bitmap[i / 8], i % 8) < 256
    ensures Cells(bitmap[i / 8 := ClearBit(bitmap[i / 8], i % 8)], n) == Cells(bitmap, n)[i := false]
  {
    hide BitOf, ClearBit;
    ClearBitMeans(bitmap[i / 8], i % 8, 0);
    var b' := bitmap[i / 8 := ClearBit(bitmap[i / 8], i % 8)];
    forall j | 0 <= j < n
      ensures Cell(b', j) == Cells(bitmap, n)[i := false][j]
    {
      ClearBitMeans(bitmap[i / 8], i % 8, j % 8);
    }
  }

  lemma ZeroCells(bitmap: seq<Byte>, n: nat)
    requires n <= 8 * |bitmap| && forall i :: 0 <= i < |bitmap| ==> bitmap[i] == 0
    ensures forall i :: 0 <= i < n ==> !Cells(bitmap, n)[i]
  {
    forall i | 0 <= i < n
      ensures !Cell(bitmap, i)
    {
      ZeroBits(i % 8);
    }
  }
}
