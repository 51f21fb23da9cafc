/** Small facts about products, quotients and remainders. Each is stated on plain
    variables so that proofs elsewhere never mix nonlinear terms. */
module Arith {

  function Abs(x: int): nat {
    if x < 0 then -x else x
  }

  lemma MulLe(a: int, b: int, c: int)
    requires a <= b && c >= 0
    ensures a * c <= b * c
  {
  }

  lemma MulLt(a: int, b: int, c: int)
    requires a < b && c >= 0
    ensures a * c + c <= b * c
  {
    MulLe(a + 1, b, c);
  }

  lemma DivMod(x: int, d: int) returns (q: int, r: int)
    requires d > 0
    ensures q == x / d && r == x % d && x == q * d + r && 0 <= r < d
  {
    q, r := x / d, x % d;
  }

  lemma QuotientUnique(d: int, q: int, r: int, q': int, r': int)
    requires 0 <= r < d && 0 <= r' < d && q * d + r == q' * d + r'
    ensures q == q' && r == r'
  {
    if q < q' {
      MulLt(q, q', d);
    } else if q' < q {
      MulLt(q', q, d);
    }
  }

  /** A quotient and remainder found by hand are the ones / and % return. */
  lemma DivUnique(x: int, d: int, q: int, r: int)
    requires d > 0 && x == q * d + r && 0 <= r < d
    ensures x / d == q && x % d == r
  {
    var q', r' := DivMod(x, d);
    QuotientUnique(d, q, r, q', r');
  }

  lemma DivBounds(x: int, d: int)
    requires d > 0 && x >= 0
    ensures 0 <= x / d <= x
  {
    var q, r := DivMod(x, d);
    if q < 0 {
      MulLe(q, -1, d);
    }
    if q > x {
      MulLe(x + 1, q, d);
      MulLe(1, d, x + 1);
    }
  }

  /** The quotient stays below c exactly when the dividend stays below c * d. */
  lemma DivLess(x: int, c: int, d: int)
    requires d > 0
    ensures x / d < c <==> x < c * d
  {
    var q, r := DivMod(x, d);
    if q < c {
      MulLt(q, c, d);
    } else {
      MulLe(c, q, d);
    }
  }

  lemma DivTwice(x: nat, d: nat)
    requires d > 0
    ensures x / (2 * d) == x / 2 / d
    ensures x % (2 * d) == 2 * (x / 2 % d) + x % 2
  {
    var q, r := DivMod(x / 2, d);
    var b := x % 2;
    assert q * (2 * d) == 2 * (q * d);
    DivUnique(x, 2 * d, q, 2 * r + b);
  }

  lemma DivDiv(x: int, c: int, d: int)
    requires c > 0 && d > 0
    ensures c * d > 0 && x / (c * d) == x / c / d
  {
    var y, s := DivMod(x, c);
    var q, r := DivMod(y, d);
    assert y * c == (q * d + r) * c == q * (c * d) + r * c;
    MulLt(r, d, c);
    MulLe(0, r, c);
    DivUnique(x, c * d, q, r * c + s);
  }

  lemma ModSmall(x: int, d: int)
    requires 0 <= x < d
    ensures x % d == x && x / d == 0
  {
    DivUnique(x, d, 0, x);
  }
}
