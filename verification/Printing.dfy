/** FwDebugPrint (inufw/platform/pc/base.c): formatted output to the screen. */
module Printing {
  import Arith
  import opened Bits
  import opened Numbers
  import opened Strings

  const INT_MAX: nat := 0x7fff_ffff
  const PREFIX: string := "[DEBUG] "

  type I32 = x: int | -0x8000_0000 <= x < 0x8000_0000

  datatype Arg = Int(i: I32) | Str(s: string)

  predicate IsSpecifier(c: char) {
    c == 'c' || c == 's' || c == 'i' || c == 'x'
  }

  /** The argument has the type its specifier reads. */
  predicate Fits(c: char, a: Arg) {
    IsSpecifier(c) && if c == 's' then a.Str? && '\0' !in a.s else a.Int?
  }

  /** A number printed in hexadecimal is first extended to 64 bits with its sign. */
  function ArgText(c: char, a: Arg): string
    requires Fits(c, a)
  {
    if c == 'c' then [(a.i % 256) as char]
    else if c == 's' then a.s
    else if c == 'i' then ItoaText(a.i, 10)
    else Digits(a.i % WORD64, 16, true)
  }

  predicate StartsSpecifier(format: string) {
    |format| >= 2 && format[0] == '%' && IsSpecifier(format[1])
  }

  predicate StartsPercents(format: string) {
    |format| >= 2 && format[0] == '%' && format[1] == '%'
  }

  /** The arguments passed are those the format reads; C checks nothing here. */
  predicate WellTyped(format: string, args: seq<Arg>) {
    if format == [] then true
    else if format[0] != '%' then WellTyped(format[1..], args)
    else if StartsPercents(format) then WellTyped(format[2..], args)
    else if StartsSpecifier(format) then args != [] && Fits(format[1], args[0]) && WellTyped(format[2..], args[1..])
    else true
  }

  /** The text a format stands for, one character or directive at a time. From an
      unknown directive on, the rest of the format is printed as it is. */
  function Expand(format: string, args: seq<Arg>): string
    requires WellTyped(format, args)
  {
    if format == [] then []
    else if format[0] != '%' then [format[0]] + Expand(format[1..], args)
    else if StartsPercents(format) then "%" + Expand(format[2..], args)
    else if StartsSpecifier(format) then ArgText(format[1], args[0]) + Expand(format[2..], args[1..])
    else format
  }

  lemma {:induction false} ExpandLiteral(format: string, args: seq<Arg>, n: nat)
    requires WellTyped(format, args) && n <= |format| && forall i :: 0 <= i < n ==> format[i] != '%'
    ensures WellTyped(format[n..], args)
    ensures Expand(format, args) == format[..n] + Expand(format[n..], args)
  {
    hide ArgText, Fits, StartsPercents, StartsSpecifier;
    if n == 0 {
      assert format[0..] == format;
    } else {
      var c, rest := format[0], format[1..];
      assert WellTyped(rest, args) && Expand(format, args) == [c] + Expand(rest, args);
      ExpandLiteral(rest, args, n - 1);
      assert rest[n - 1..] == format[n..];
      assert format[..n] == [c] + rest[..n - 1];
    }
  }

  class Console {
    var output: string

    constructor ()
      ensures output == []
    {
      output := [];
    }

    /** print: putchar never reports a failure. */
    method Print(data: string)
      modifies this
      ensures output == old(output) + data
    {
      for i := 0 to |data|
        invariant output == old(output) + data[..i]
      {
        output := output + [data[i]];
      }
      assert data[..|data|] == data;
    }
  }

  /** Where the scan is: p characters and k arguments read, the text so far emitted. */
  ghost predicate Progress(format: string, args: seq<Arg>, p: nat, k: nat, emitted: string) {
    && p <= |format| && k <= |args|
    && WellTyped(format, args) && WellTyped(format[p..], args[k..])
    && Expand(format, args) == emitted + Expand(format[p..], args[k..])
  }

  /** The text the next turn of the loop prints, and how far it gets. */
  datatype Piece = Piece(text: string, p: nat, k: nat)

  /** The number of characters up to the next percent sign or the end. */
  method LiteralLength(format: string, p: nat) returns (amount: nat)
    requires p < |format|
    ensures 1 <= amount && p + amount <= |format|
    ensures forall i :: p < i < p + amount ==> format[i] != '%'
    ensures p + amount < |format| ==> format[p + amount] == '%'
  {
    amount := 1;
    while p + amount < |format| && format[p + amount] != '%'
      invariant 1 <= amount && p + amount <= |format|
      invariant forall i :: p < i < p + amount ==> format[i] != '%'
    {
      amount := amount + 1;
    }
  }

  lemma ProgressLiteral(format: string, args: seq<Arg>, p: nat, k: nat, emitted: string, amount: nat)
    requires Progress(format, args, p, k, emitted) && p + amount <= |format|
    requires forall i :: p <= i < p + amount ==> format[i] != '%'
    ensures Progress(format, args, p + amount, k, emitted + format[p..p + amount])
  {
    hide WellTyped, Expand;
    ExpandLiteral(format[p..], args[k..], amount);
    assert format[p..][amount..] == format[p + amount..];
    assert format[p..][..amount] == format[p..p + amount];
    Regroup(emitted, format[p..p + amount], Expand(format[p + amount..], args[k..]));
  }

  lemma Regroup(a: string, b: string, c: string)
    ensures a + (b + c) == a + b + c
  {
  }

  /** Two percent signs print one, together with the literal text behind them. */
  lemma ProgressPercents(format: string, args: seq<Arg>, p: nat, k: nat, emitted: string, amount: nat)
    requires Progress(format, args, p, k, emitted)
    requires p + 1 < |format| && format[p] == format[p + 1] == '%' && 1 <= amount && p + 1 + amount <= |format|
    requires forall i :: p + 1 < i < p + 1 + amount ==> format[i] != '%'
    ensures Progress(format, args, p + 1 + amount, k, emitted + format[p + 1..p + 1 + amount])
  {
    var rest := format[p..];
    assert StartsPercents(rest);
    assert rest[2..] == format[p + 2..];
    Regroup(emitted, "%", Expand(format[p + 2..], args[k..]));
    assert Progress(format, args, p + 2, k, emitted + "%");
    ProgressLiteral(format, args, p + 2, k, emitted + "%", amount - 1);
    assert format[p + 1..p + 1 + amount] == "%" + format[p + 2..p + 1 + amount];
    Regroup(emitted, "%", format[p + 2..p + 1 + amount]);
  }

  lemma ProgressArg(format: string, args: seq<Arg>, p: nat, k: nat, emitted: string)
    requires Progress(format, args, p, k, emitted) && p < |format| && StartsSpecifier(format[p..])
    ensures k < |args| && Fits(format[p + 1], args[k])
    ensures Progress(format, args, p + 2, k + 1, emitted + ArgText(format[p + 1], args[k]))
  {
    hide ArgText;
    var rest := format[p..];
    assert rest[2..] == format[p + 2..] && args[k..][1..] == args[k + 1..];
    Regroup(emitted, ArgText(format[p + 1], args[k]), Expand(format[p + 2..], args[k + 1..]));
  }

  lemma ProgressUnknown(format: string, args: seq<Arg>, p: nat, k: nat, emitted: string)
    requires Progress(format, args, p, k, emitted) && p < |format| && format[p] == '%'
    requires !StartsSpecifier(format[p..]) && !StartsPercents(format[p..])
    ensures Progress(format, args, |format|, k, emitted + format[p..])
  {
    assert format[|format|..] == [];
  }

  /** The text of one argument, built in a local buffer where that is needed. */
  method Render(c: char, a: Arg) returns (text: string)
    requires Fits(c, a)
    ensures text == ArgText(c, a)
  {
    hide Digits;
    if c == 'c' {
      text := [(a.i % 256) as char];
    } else if c == 's' {
      text := a.s;
    } else if c == 'i' {
      var buff := new char[100](_ => '\0');
      ItoaLength(a.i, 10);
      NoTerminator(Arith.Abs(a.i), 10, false);
      Itoa(a.i, buff, 10);
      CStrOf(buff[..], ItoaText(a.i, 10));
      text := CStr(buff[..]);
    } else {
      var buff := new char[100](_ => '\0');
      var value: U64 := a.i % WORD64;
      HexLength64(value);
      NoTerminator(value, 16, true);
      Ultoa(value, buff, 16);
      CStrOf(buff[..], Digits(value, 16, true));
      text := CStr(buff[..]);
    }
  }

  lemma {:induction false} NoTerminator(n: nat, b: int, upper: bool)
    requires IsBase(b)
    ensures '\0' !in Digits(n, b, upper)
    decreases n
  {
    Smaller(n, b);
    if n >= b {
      NoTerminator(n / b, b, upper);
    }
  }

  /** Prints the prefix and the expansion, and returns the expansion's length; or -1,
      with only a part of the expansion printed, when the length exceeds INT_MAX. */
  method DebugPrint(console: Console, format: string, args: seq<Arg>) returns (result: int)
    requires WellTyped(format, args) && '\0' !in format
    modifies console
    ensures result == if |Expand(format, args)| < 0x8000_0000 then |Expand(format, args)| else -1
    ensures var start := old(console.output) + "[DEBUG] ";
            && start <= console.output <= start + Expand(format, args)
            && (result >= 0 ==> console.output == start + Expand(format, args))
  {
    hide WellTyped, Expand, Progress, ArgText;
    console.Print(PREFIX);
    ghost var start, emitted := console.output, "";
    var p: nat, k: nat, written: nat := 0, 0, 0;
    ProgressStart(format, args);
    while p < |format|
      invariant Progress(format, args, p, k, emitted) && p <= |format| && k <= |args|
      invariant console.output == start + emitted && written == |emitted| <= INT_MAX
      decreases |format| - p
    {
      ghost var before := emitted;
      var maxrem := INT_MAX - written;
      var piece := NextPiece(format, args, p, k, emitted);
      ProgressPrefix(format, args, piece.p, piece.k, emitted + piece.text);
      if maxrem < |piece.text| {
        ProgressPrefix(format, args, p, k, emitted);
        return -1;
      }
      console.Print(piece.text);
      Regroup(start, emitted, piece.text);
      emitted := emitted + piece.text;
      p, k, written := piece.p, piece.k, written + |piece.text|;
    }
    ProgressEnd(format, args, p, k, emitted);
    result := written;
  }

  /** One turn of the loop: a literal stretch, a directive, or the rest. */
  method NextPiece(format: string, args: seq<Arg>, p: nat, k: nat, ghost emitted: string) returns (piece: Piece)
    requires Progress(format, args, p, k, emitted) && p < |format|
    ensures p < piece.p <= |format| && piece.k <= |args|
    ensures Progress(format, args, piece.p, piece.k, emitted + piece.text)
  {
    hide WellTyped, Expand, Progress, ArgText;
    if format[p] != '%' || (p + 1 < |format| && format[p + 1] == '%') {
      var q := p;
      if format[q] == '%' {
        q := q + 1;
      }
      var amount := LiteralLength(format, q);
      if q == p {
        ProgressLiteral(format, args, p, k, emitted, amount);
      } else {
        ProgressPercents(format, args, p, k, emitted, amount);
      }
      ProgressBounds(format, args, q + amount, k, emitted + format[q..q + amount]);
      return Piece(format[q..q + amount], q + amount, k);
    }
    if p + 1 < |format| && IsSpecifier(format[p + 1]) {
      ProgressArg(format, args, p, k, emitted);
      var text := Render(format[p + 1], args[k]);
      return Piece(text, p + 2, k + 1);
    }
    ProgressUnknown(format, args, p, k, emitted);
    ProgressBounds(format, args, |format|, k, emitted + format[p..]);
    piece := Piece(format[p..], |format|, k);
  }

  lemma ProgressBounds(format: string, args: seq<Arg>, p: nat, k: nat, emitted: string)
    requires Progress(format, args, p, k, emitted)
    ensures p <= |format| && k <= |args|
  {
  }

  lemma ProgressStart(format: string, args: seq<Arg>)
    requires WellTyped(format, args)
    ensures Progress(format, args, 0, 0, "")
  {
    assert format[0..] == format && args[0..] == args;
  }

  lemma ProgressPrefix(format: string, args: seq<Arg>, p: nat, k: nat, emitted: string)
    requires Progress(format, args, p, k, emitted)
    ensures WellTyped(format, args) && emitted <= Expand(format, args)
  {
  }

  lemma ProgressEnd(format: string, args: seq<Arg>, p: nat, k: nat, emitted: string)
    requires Progress(format, args, p, k, emitted) && p == |format|
    ensures WellTyped(format, args) && emitted == Expand(format, args)
  {
    assert format[p..] == [];
  }
}
