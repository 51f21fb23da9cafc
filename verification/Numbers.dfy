/** Printing numbers: itoa and ultoa of inuoskrnl/rt/base.c. */
module Numbers {
  import opened Arith
  import Bits
  import opened Strings

  /** A C string held in a buffer: the text and the terminator behind it. */
  predicate Holds(buffer: seq<char>, text: string) {
    |text| < |buffer| && buffer[..|text|] == text && buffer[|text|] == '\0'
  }

  // ----- digits

  function DigitChar(d: nat, upper: bool): char
    requires d < 36
  {
    if d < 10 then '0' + d as char else if upper then 'A' + (d - 10) as char else 'a' + (d - 10) as char
  }

  function DigitValue(c: char): nat {
    if '0' <= c <= '9' then (c - '0') as nat
    else if 'a' <= c <= 'z' then (c - 'a') as nat + 10
    else if 'A' <= c <= 'Z' then (c - 'A') as nat + 10
    else 36
  }

  lemma DigitRoundTrip(d: nat, upper: bool)
    requires d < 36
    ensures DigitValue(DigitChar(d, upper)) == d
    ensures DigitChar(d, upper) == '0' <==> d == 0
  {
  }

  predicate IsBase(b: int) {
    2 <= b <= 36
  }

  /** The digits of n in base b, most significant first. */
  function Digits(n: nat, b: int, upper: bool): (s: string)
    requires IsBase(b)
    ensures |s| > 0
    decreases n
  {
    Smaller(n, b);
    if n < b then [DigitChar(n, upper)] else Digits(n / b, b, upper) + [DigitChar(n % b, upper)]
  }

  lemma Smaller(n: nat, b: int)
    requires IsBase(b)
    ensures 0 <= n / b && (n >= b ==> n / b < n) && 0 <= n % b < b
    ensures n < b ==> n / b == 0 && n % b == n
  {
    var q, r := DivMod(n, b);
    DivBounds(n, b);
    if n < b {
      ModSmall(n, b);
    } else if q >= n {
      MulLe(2, b, q);
    }
  }

  function Decode(s: string, b: int): int {
    if s == [] then 0 else Decode(s[..|s| - 1], b) * b + DigitValue(s[|s| - 1])
  }

  /** The digits decode to the number they were made from. */
  lemma {:induction false} DigitsDecode(n: nat, b: int, upper: bool)
    requires IsBase(b)
    ensures Decode(Digits(n, b, upper), b) == n
    decreases n
  {
    hide DigitChar, DigitValue;
    Smaller(n, b);
    DigitRoundTrip(n % b, upper);
    var s := Digits(n, b, upper);
    if n < b {
      assert s[..|s| - 1] == [];
    } else {
      DigitsDecode(n / b, b, upper);
      assert s[..|s| - 1] == Digits(n / b, b, upper);
      var q, r := DivMod(n, b);
    }
  }

  /** Digits are decimal digits and letters of one case, each below the base. */
  lemma {:induction false} DigitsAlphabet(n: nat, b: int, upper: bool)
    requires IsBase(b)
    ensures forall i :: 0 <= i < |Digits(n, b, upper)| ==>
              var c := Digits(n, b, upper)[i];
              && DigitValue(c) < b
              && ('0' <= c <= '9' || if upper then 'A' <= c <= 'Z' else 'a' <= c <= 'z')
    decreases n
  {
    Smaller(n, b);
    DigitRoundTrip(n % b, upper);
    if n >= b {
      DigitsAlphabet(n / b, b, upper);
    }
  }

  /** Only zero itself starts with a zero. */
  lemma {:induction false} NoLeadingZero(n: nat, b: int, upper: bool)
    requires IsBase(b)
    ensures Digits(n, b, upper)[0] == '0' <==> n == 0
    ensures n == 0 ==> Digits(n, b, upper) == "0"
    decreases n
  {
    Smaller(n, b);
    if n < b {
      DigitRoundTrip(n, upper);
    } else {
      NoLeadingZero(n / b, b, upper);
      QuotientPositive(n, b);
    }
  }

  lemma QuotientPositive(n: nat, b: int)
    requires IsBase(b) && n >= b
    ensures n / b > 0
  {
    var q, r := DivMod(n, b);
    if q <= 0 {
      MulLe(q, 0, b);
    }
  }

  /** Halving at least once per digit bounds the length. */
  lemma {:induction false} DigitsLength(n: nat, b: int, upper: bool, bits: nat)
    requires IsBase(b) && n < Bits.Pow2(bits)
    ensures |Digits(n, b, upper)| <= if bits == 0 then 1 else bits
    decreases n
  {
    Smaller(n, b);
    if n >= b {
      var q, r := DivMod(n, b);
      MulLe(2, b, q);
      DigitsLength(n / b, b, upper, bits - 1);
      QuotientPositive(n, b);
    }
  }

  // ----- itoa

  /** C division and remainder truncate toward zero. */
  function CDiv(a: int, b: int): int
    requires b > 0
  {
    if a < 0 then -((-a) / b) else a / b
  }

  function CRem(a: int, b: int): int
    requires b > 0
  {
    if a < 0 then -((-a) % b) else a % b
  }

  /** The digit table, zero in the middle. */
  const TABLE: string :=
    "zyxwvutsrqponmlkjihgfedcba" + "987654321" + "0123456789" + "abcdefghijklmnopqrstuvwxyz"

  /** What itoa leaves in the buffer: a minus sign for base ten only. */
  function ItoaText(value: int, base: int): string {
    if !IsBase(base) then ""
    else (if value < 0 && base == 10 then "-" else "") + Digits(Abs(value), base, false)
  }

  lemma TableNumerals(d: nat)
    requires d < 10
    ensures |TABLE| == 71 && TABLE[35 + d] == '0' + d as char
  {
  }

  lemma TableLetters(d: nat)
    requires d < 26
    ensures |TABLE| == 71 && TABLE[45 + d] == 'a' + d as char
  {
  }

  lemma TableNumeralsBack(d: nat)
    requires d < 10
    ensures |TABLE| == 71 && TABLE[35 - d] == '0' + d as char
  {
  }

  lemma TableLettersBack(d: nat)
    requires d < 26
    ensures |TABLE| == 71 && TABLE[25 - d] == 'a' + d as char
  {
  }

  /** The table is read forwards from its middle for positive remainders and
      backwards for negative ones. */
  lemma TableDigit(d: int)
    requires -36 < d < 36
    ensures |TABLE| == 71 && TABLE[35 + d] == DigitChar(Abs(d), false)
  {
    if 0 <= d < 10 {
      TableNumerals(d);
    } else if d >= 10 {
      TableLetters(d - 10);
    } else if -10 < d {
      TableNumeralsBack(-d);
    } else {
      TableLettersBack(-d - 10);
    }
  }

  function Reverse(s: string): (r: string)
    ensures |r| == |s| && forall i :: 0 <= i < |s| ==> r[i] == s[|s| - 1 - i]
  {
    if s == [] then [] else Reverse(s[1..]) + [s[0]]
  }

  /** The digits still to come, then those already written, last one first. */
  ghost predicate Written(n: nat, v: nat, written: string, base: int)
    requires IsBase(base)
  {
    Digits(n, base, false) == Digits(v, base, false) + Reverse(written)
  }

  /** Writing one more digit: the last of what was still to come. */
  lemma WriteDigit(n: nat, v: int, written: string, base: int)
    requires IsBase(base) && Written(n, Abs(v), written, base)
    ensures |TABLE| == 71 && -36 < CRem(v, base) < 36
    ensures Abs(CDiv(v, base)) == Abs(v) / base
    ensures CDiv(v, base) != 0 ==> Abs(CDiv(v, base)) < Abs(v)
    ensures var c := TABLE[35 + CRem(v, base)];
            if CDiv(v, base) == 0 then Digits(n, base, false) == Reverse(written + [c])
            else Written(n, Abs(CDiv(v, base)), written + [c], base)
  {
    hide Digits, DigitChar, TABLE, Written;
    CQuotient(v, base);
    TableDigit(CRem(v, base));
    Smaller(Abs(v), base);
    WriteLast(n, Abs(v), Abs(v) / base, Abs(v) % base, written, base);
  }

  lemma CQuotient(v: int, base: int)
    requires IsBase(base)
    ensures Abs(CDiv(v, base)) == Abs(v) / base && Abs(CRem(v, base)) == Abs(v) % base < base
    ensures Abs(v) / base != 0 ==> Abs(v) / base < Abs(v)
  {
    Smaller(Abs(v), base);
  }

  lemma WriteLast(n: nat, v: nat, q: nat, r: nat, written: string, base: int)
    requires IsBase(base) && q == v / base && r == v % base && r < base && Written(n, v, written, base)
    ensures if q == 0 then Digits(n, base, false) == Reverse(written + [DigitChar(r, false)])
            else Written(n, q, written + [DigitChar(r, false)], base)
  {
    hide DigitChar, Reverse;
    var c := DigitChar(r, false);
    ReverseAppend(written, c);
    if q == 0 {
      Smaller(v, base);
      assert Digits(v, base, false) == [c];
    } else {
      QuotientAtLeast(v, base);
      assert Digits(v, base, false) == Digits(q, base, false) + [c];
      assert Digits(q, base, false) + [c] + Reverse(written) == Digits(q, base, false) + ([c] + Reverse(written));
    }
  }

  lemma QuotientAtLeast(n: nat, b: int)
    requires IsBase(b) && n / b != 0
    ensures n >= b
  {
    Smaller(n, b);
  }

  lemma ReverseAppend(s: string, c: char)
    ensures Reverse(s + [c]) == [c] + Reverse(s)
  {
  }

  lemma ReversedAt(now: string, was: string)
    requires |now| == |was| && forall i :: 0 <= i < |now| ==> now[i] == was[|was| - 1 - i]
    ensures now == Reverse(was)
  {
  }

  /** Two ends that have met leave everything between low and high reversed. */
  lemma ReversedBetween(now: string, was: string, low: nat, high: nat, l: int, p: int)
    requires low <= high <= |now| == |was| && low <= l && p <= l && l + p == low + high - 1
    requires forall i :: low <= i < l && i < high ==> now[i] == was[low + high - 1 - i]
    requires forall i :: low <= i && p < i < high ==> now[i] == was[low + high - 1 - i]
    requires forall i :: low <= i < high && l <= i <= p ==> now[i] == was[i]
    ensures now[low..high] == Reverse(was[low..high])
  {
    hide Reverse;
    var part, whole := now[low..high], was[low..high];
    forall i | 0 <= i < |part|
      ensures part[i] == whole[|whole| - 1 - i]
    {
      var x, y := low + i, high - 1 - i;
      assert low + high - 1 - x == y;
      assert now[x] == was[y] by { assert x < l || x > p || x == y; }
    }
    ReversedAt(part, whole);
  }

  /** The second loop of itoa: the characters from low up to high change places. */
  method ReverseInPlace(str: array<char>, low: nat, high: nat)
    requires low <= high <= str.Length
    modifies str
    ensures str[low..high] == Reverse(old(str[low..high]))
    ensures forall i :: 0 <= i < str.Length && !(low <= i < high) ==> str[i] == old(str[i])
  {
    hide Reverse;
    var l, p := low, high - 1;
    while l < p
      invariant low <= l <= p + 2 && l + p == low + high - 1
      invariant forall i :: low <= i < l ==> str[i] == old(str[low + high - 1 - i])
      invariant forall i :: p < i < high ==> str[i] == old(str[low + high - 1 - i])
      invariant forall i :: 0 <= i < str.Length && (i < low || l <= i <= p || i >= high) ==> str[i] == old(str[i])
    {
      var tmp := str[l];
      str[l] := str[p];
      str[p] := tmp;
      l := l + 1;
      p := p - 1;
    }
    ReversedBetween(str[..], old(str[..]), low, high, l, p);
  }

  /** The number as text in the buffer, which must have room for it. */
  method Itoa(value: int, str: array<char>, base: int)
    requires |ItoaText(value, base)| < str.Length
    modifies str
    ensures Holds(str[..], ItoaText(value, base))
  {
    hide Digits, Reverse;
    if !IsBase(base) {
      str[0] := '\0';
      return;
    }
    var low := 0;
    if value < 0 && base == 10 {
      str[low] := '-';
      low := low + 1;
    }
    var ptr := ItoaDigits(value, str, low, base);
    ReverseLength(str[low..ptr]);
    str[ptr] := '\0';
    ReverseInPlace(str, low, ptr);
    assert str[..ptr] == str[..low] + str[low..ptr];
    if low == 1 {
      assert str[..low] == "-";
    }
  }

  /** The first loop of itoa: the digits from low on, last one first. */
  method ItoaDigits(value: int, str: array<char>, low: nat, base: int) returns (ptr: nat)
    requires IsBase(base) && low + |Digits(Abs(value), base, false)| < str.Length
    modifies str
    ensures low <= ptr < str.Length
    ensures Digits(Abs(value), base, false) == Reverse(str[low..ptr])
    ensures forall i :: 0 <= i < low ==> str[i] == old(str[i])
  {
    hide Digits, CDiv, CRem, Reverse, Written;
    ptr := low;
    var v := value;
    WrittenNone(Abs(value), base);
    assert str[low..ptr] == [];
    while true
      invariant low <= ptr < low + |Digits(Abs(value), base, false)|
      invariant Written(Abs(value), Abs(v), str[low..ptr], base)
      invariant forall i :: 0 <= i < low ==> str[i] == old(str[i])
      decreases Abs(v)
    {
      WriteDigit(Abs(value), v, str[low..ptr], base);
      ghost var written := str[low..ptr];
      var c := TABLE[35 + CRem(v, base)];
      str[ptr] := c;
      ptr := ptr + 1;
      assert str[low..ptr] == written + [c];
      v := CDiv(v, base);
      if v == 0 {
        break;
      }
      WrittenLess(Abs(value), Abs(v), str[low..ptr], base);
    }
    ReverseLength(str[low..ptr]);
  }

  lemma WrittenNone(n: nat, base: int)
    requires IsBase(base)
    ensures Written(n, n, [], base) && |Digits(n, base, false)| > 0
  {
  }

  lemma WrittenLess(n: nat, v: nat, written: string, base: int)
    requires IsBase(base) && Written(n, v, written, base)
    ensures |written| < |Digits(n, base, false)|
  {
  }

  lemma ReverseLength(s: string)
    ensures |Reverse(s)| == |s|
  {
  }

  // ----- ultoa

  /** A 64-bit number as uppercase digits; the local buffer has 32 characters. */
  method Ultoa(value: Bits.U64, str: array<char>, radix: int)
    requires IsBase(radix) && |Digits(value, radix, true)| <= 32
    requires |Digits(value, radix, true)| < str.Length
    modifies str
    ensures Holds(str[..], Digits(value, radix, true))
  {
    hide Digits;
    var buffer := new char[32](_ => '\0');
    var index := 32;
    var v: nat := value;
    while true
      invariant 0 < index <= 32
      invariant Digits(value, radix, true) == Digits(v, radix, true) + buffer[index..]
      invariant |Digits(v, radix, true)| > 0
      decreases v
    {
      UnsignedDigit(v, radix);
      Smaller(v, radix);
      index := index - 1;
      ghost var rest := buffer[index + 1..];
      var r := v % radix;
      buffer[index] := if r < 10 then '0' + r as char else '0' + r as char + ('A' - ':');
      assert buffer[index..] == [DigitChar(r, true)] + rest;
      v := v / radix;
      if v == 0 {
        break;
      }
      UnsignedLeft(v, radix, buffer[index..], Digits(value, radix, true));
    }
    var n := 0;
    ghost var from := index;
    while index < 32
      invariant from <= index <= 32 && n == index - from
      invariant buffer[from..] == Digits(value, radix, true)
      invariant str[..n] == buffer[from..index]
    {
      str[n] := buffer[index];
      n := n + 1;
      index := index + 1;
    }
    str[n] := '\0';
  }

  lemma UnsignedDigit(v: nat, radix: int)
    requires IsBase(radix)
    ensures Digits(v, radix, true)
      == (if v / radix == 0 then [] else Digits(v / radix, radix, true)) + [DigitChar(v % radix, true)]
  {
    Smaller(v, radix);
    if v >= radix {
      QuotientPositive(v, radix);
    }
  }

  lemma UnsignedLeft(v: nat, radix: int, rest: string, all: string)
    requires IsBase(radix) && all == Digits(v, radix, true) + rest && |all| <= 32
    ensures |rest| < 32
  {
  }

  // ----- what the texts mean

  /** A 32-bit number never needs more than 33 characters. */
  lemma ItoaLength(value: int, base: int)
    requires -0x8000_0000 <= value < 0x8000_0000
    ensures |ItoaText(value, base)| <= 33
  {
    if IsBase(base) {
      hide Digits, Bits.Pow2;
      Bits.Pow2Values();
      DigitsLength(Abs(value), base, false, 32);
    }
  }

  lemma {:induction false} HexLength(n: nat, digits: nat)
    requires n < Bits.Pow2(4 * digits)
    ensures |Digits(n, 16, true)| <= if digits == 0 then 1 else digits
    decreases n
  {
    if n >= 16 {
      assert digits > 0;
      Bits.Pow2Add(4, 4 * digits - 4);
      HexLength(n / 16, digits - 1);
    }
  }

  /** A 64-bit number has at most sixteen hexadecimal digits. */
  lemma HexLength64(n: Bits.U64)
    ensures |Digits(n, 16, true)| <= 16
  {
    hide Digits, Bits.Pow2;
    Bits.Pow2Values();
    HexLength(n, 16);
  }

  function DecodeSigned(s: string): int {
    if s != [] && s[0] == '-' then -Decode(s[1..], 10) else Decode(s, 10)
  }

  /** In any other base the text is the magnitude's, without a sign. */
  lemma ItoaMagnitude(value: int, base: int)
    requires IsBase(base) && base != 10
    ensures Decode(ItoaText(value, base), base) == if value < 0 then -value else value
  {
    hide Digits, Decode;
    DigitsDecode(Abs(value), base, false);
    assert ItoaText(value, base) == Digits(Abs(value), base, false);
  }

  lemma {:induction false} FirstDigit(n: nat, b: int)
    requires IsBase(b)
    ensures Digits(n, b, false)[0] != '-'
    decreases n
  {
    Smaller(n, b);
    if n >= b {
      FirstDigit(n / b, b);
    }
  }

  /** Decimal text reads back as the number, the least one included. */
  lemma ItoaReadsBack(value: int)
    ensures DecodeSigned(ItoaText(value, 10)) == value
  {
    hide Digits, Decode;
    DigitsDecode(Abs(value), 10, false);
    FirstDigit(Abs(value), 10);
    var s := ItoaText(value, 10);
    if value < 0 {
      assert s[1..] == Digits(Abs(value), 10, false);
    } else {
      assert s == Digits(Abs(value), 10, false);
    }
  }

  /** Different numbers print differently. */
  lemma ItoaInjective(a: int, b: int)
    requires ItoaText(a, 10) == ItoaText(b, 10)
    ensures a == b
  {
    ItoaReadsBack(a);
    ItoaReadsBack(b);
  }

  /** A 32-bit integer, wrapped. */
  function Wrapped32(x: int): int {
    (x + 0x8000_0000) % 0x1_0000_0000 - 0x8000_0000
  }

  /** What atoi sums up, whatever the characters are. */
  function Summed(s: string): int {
    if s == [] then 0 else Summed(s[..|s| - 1]) * 10 + (SignedChar(s[|s| - 1]) - '0' as int)
  }

  lemma WrapStep(x: int, d: int)
    ensures Wrapped32(Wrapped32(x) * 10 + d) == Wrapped32(x * 10 + d)
  {
    var q, r := DivMod(x + 0x8000_0000, 0x1_0000_0000);
    var p, t := DivMod(x * 10 + d + 0x8000_0000, 0x1_0000_0000);
    DivUnique(Wrapped32(x) * 10 + d + 0x8000_0000, 0x1_0000_0000, p - 10 * q, t);
  }

  /** On digits that is the number they stand for. */
  lemma {:induction false} SummedNumeral(s: string)
    requires Numeral(s)
    ensures Summed(s) == Decode(s, 10)
  {
    if s != [] {
      SummedNumeral(s[..|s| - 1]);
    }
  }

  /** Wrapping shows exactly in numbers beyond 32 bits. */
  lemma WrapsExactly(x: int)
    ensures -0x8000_0000 <= Wrapped32(x) < 0x8000_0000 && (Wrapped32(x) - x) % 0x1_0000_0000 == 0
    ensures Wrapped32(x) == x <==> -0x8000_0000 <= x < 0x8000_0000
  {
    var q, r := DivMod(x + 0x8000_0000, 0x1_0000_0000);
    DivUnique(Wrapped32(x) - x, 0x1_0000_0000, -q, 0);
  }

  predicate Numeral(s: string) {
    forall i :: 0 <= i < |s| ==> '0' <= s[i] <= '9'
  }

  lemma {:induction false} DigitsAreNumeral(n: nat)
    ensures Numeral(Digits(n, 10, false))
    decreases n
  {
    if n >= 10 {
      DigitsAreNumeral(n / 10);
    }
  }

  /** atoi: the sum in 32 bits, on digits the number itself where it fits. */
  method Atoi(str: string) returns (res: int)
    ensures res == Wrapped32(Summed(str))
    ensures Numeral(str) ==> res == Wrapped32(Decode(str, 10))
    ensures Numeral(str) && Decode(str, 10) < 0x8000_0000 ==> res == Decode(str, 10)
  {
    hide Summed, Decode, Wrapped32;
    res := 0;
    SummedStart(str);
    for i := 0 to |str|
      invariant res == Wrapped32(Summed(str[..i]))
    {
      SummedStep(str, i);
      WrapStep(Summed(str[..i]), SignedChar(str[i]) - '0' as int);
      res := Wrapped32(res * 10 + (SignedChar(str[i]) - '0' as int));
    }
    assert str[..|str|] == str;
    if Numeral(str) {
      SummedNumeral(str);
      DecodeNumeral(str);
      WrapsExactly(Decode(str, 10));
    }
  }

  lemma SummedStart(s: string)
    ensures Summed(s[..0]) == 0 == Wrapped32(Summed(s[..0]))
  {
  }

  lemma SummedStep(s: string, i: nat)
    requires i < |s|
    ensures Summed(s[..i + 1]) == Summed(s[..i]) * 10 + (SignedChar(s[i]) - '0' as int)
  {
    assert s[..i + 1][..i] == s[..i];
  }

  lemma {:induction false} DecodeNumeral(s: string)
    requires Numeral(s)
    ensures Decode(s, 10) >= 0
  {
    if s != [] {
      DecodeNumeral(s[..|s| - 1]);
    }
  }

  // ----- itoa and atoi

  function Pow10(n: nat): nat {
    if n == 0 then 1 else 10 * Pow10(n - 1)
  }

  /** The length of a decimal text gives the number's magnitude. */
  lemma {:induction false} DigitsMagnitude(n: nat)
    requires n > 0
    ensures Pow10(|Digits(n, 10, false)| - 1) <= n < Pow10(|Digits(n, 10, false)|)
    decreases n
  {
    if n >= 10 {
      DigitsMagnitude(n / 10);
    }
  }

  /** A minus sign counts as a digit worth three less than zero. */
  lemma {:induction false} SummedMinus(s: string)
    ensures Summed("-" + s) == Summed(s) - 3 * Pow10(|s|)
  {
    var t := "-" + s;
    if s == [] {
      assert t[..0] == [];
    } else {
      assert t[..|t| - 1] == "-" + s[..|s| - 1];
      SummedMinus(s[..|s| - 1]);
    }
  }

  lemma WrappedTo(x: int, v: int)
    requires -0x8000_0000 <= v < 0x8000_0000
    ensures Wrapped32(x) == v <==> (x - v) % 0x1_0000_0000 == 0
  {
    var q, r := DivMod(x + 0x8000_0000, 0x1_0000_0000);
    DivUnique(x - v, 0x1_0000_0000, if r >= v + 0x8000_0000 then q else q - 1,
      if r >= v + 0x8000_0000 then r - (v + 0x8000_0000) else r - (v + 0x8000_0000) + 0x1_0000_0000);
  }

  lemma Pow10Values()
    ensures Pow10(0) == 1 && Pow10(9) == 1_000_000_000 && Pow10(10) == 10_000_000_000
  {
    assert Pow10(5) == 100_000;
  }

  lemma {:induction false} Pow10Grows(m: nat, n: nat)
    requires m <= n
    ensures Pow10(m) <= Pow10(n)
  {
    if m < n {
      Pow10Grows(m, n - 1);
    }
  }

  /** With p the power of ten above m, only one m makes 3p - 2m a multiple of 2^32. */
  lemma OneCoincidence(m: nat, p: nat)
    requires p > 0 && p <= 10 * m && m < p && m <= 0x8000_0000
    requires p <= 1_000_000_000 || p == 10_000_000_000
    ensures (2 * m - 3 * p) % 0x1_0000_0000 == 0 <==> m == 2_115_098_112
  {
  }

  lemma MinusMagnitude(m: nat)
    requires 0 < m <= 0x8000_0000
    ensures var p := Pow10(|Digits(m, 10, false)|);
            p <= 10 * m && m < p && (p <= 1_000_000_000 || p == 10_000_000_000)
  {
    hide Digits, Pow10;
    var k := |Digits(m, 10, false)|;
    DigitsMagnitude(m);
    Pow10Step(k);
    Pow10Values();
    if k > 10 {
      Pow10Grows(10, k - 1);
    } else if k <= 9 {
      Pow10Grows(k, 9);
    }
  }

  lemma Pow10Step(k: nat)
    requires k > 0
    ensures Pow10(k) == 10 * Pow10(k - 1)
  {
  }

  /** atoi reads the decimal text of a 32-bit number back exactly when the number is not
      negative, but for one negative number where the wrapped sum happens to meet it. */
  lemma AtoiReadsBack(v: int)
    requires -0x8000_0000 <= v < 0x8000_0000
    ensures Wrapped32(Summed(ItoaText(v, 10))) == v <==> v >= 0 || v == -2_115_098_112
  {
    hide Digits, Decode, Summed, Wrapped32, Pow10;
    var m := Abs(v);
    var s := Digits(m, 10, false);
    DigitsAreNumeral(m);
    SummedNumeral(s);
    DigitsDecode(m, 10, false);
    if v >= 0 {
      assert ItoaText(v, 10) == s;
      WrapsExactly(v);
    } else {
      SummedMinus(s);
      WrappedTo(m - 3 * Pow10(|s|), v);
      MinusMagnitude(m);
      OneCoincidence(m, Pow10(|s|));
    }
  }
}
