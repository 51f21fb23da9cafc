/** What the formats of FwDebugPrint (inufw/platform/pc/base.c) print, directive by
    directive, in terms of the arguments alone. */
module Formats {
  import Arith
  import opened Bits
  import opened Numbers
  import opened Printing

  predicate Literal(s: string) {
    '%' !in s
  }

  /** A text of decimal digits, with a sign before those of a negative number, and without
      needless zeros. */
  predicate DecimalOf(t: string, v: int) {
    && DecodeSigned(t) == v
    && var digits := if v < 0 && t != [] then t[1..] else t;
       && (v < 0 ==> t != [] && t[0] == '-')
       && digits != [] && (digits[0] == '0' ==> t == "0") && forall i :: 0 <= i < |digits| ==> '0' <= digits[i] <= '9'
  }

  /** At most sixteen hexadecimal digits, in capitals and without needless zeros. */
  predicate HexOf(t: string, n: nat) {
    && Decode(t, 16) == n && 0 < |t| <= 16 && (t[0] == '0' ==> t == "0")
    && forall i :: 0 <= i < |t| ==> '0' <= t[i] <= '9' || 'A' <= t[i] <= 'F'
  }

  lemma DecimalText(v: I32)
    ensures DecimalOf(ArgText('i', Int(v)), v)
  {
    hide Digits, Decode;
    var n := Arith.Abs(v);
    ItoaReadsBack(v);
    NoLeadingZero(n, 10, false);
    DigitsAlphabet(n, 10, false);
    var digits := Digits(n, 10, false);
    assert v < 0 ==> ItoaText(v, 10)[1..] == digits;
    assert v >= 0 ==> ItoaText(v, 10) == digits;
  }

  /** Negative numbers appear with their sign extended to 64 bits. */
  lemma HexText(v: I32)
    ensures HexOf(ArgText('x', Int(v)), if v < 0 then v + WORD64 else v)
  {
    hide Digits, Decode;
    var n: U64 := v % WORD64;
    assert n == if v < 0 then v + WORD64 else v;
    DigitsDecode(n, 16, true);
    HexLength64(n);
    NoLeadingZero(n, 16, true);
    DigitsAlphabet(n, 16, true);
  }

  // ----- one directive behind literal text

  lemma Parts(literal: string, directive: string, rest: string)
    ensures var format := literal + directive + rest;
            && format[..|literal|] == literal && format[|literal|..] == directive + rest
            && (directive + rest)[|directive|..] == rest
  {
  }

  lemma ExpandDirective(literal: string, c: char, a: Arg, rest: string, args: seq<Arg>)
    requires Literal(literal) && Fits(c, a) && WellTyped(rest, args)
    ensures WellTyped(literal + ['%', c] + rest, [a] + args)
    ensures Expand(literal + ['%', c] + rest, [a] + args) == literal + ArgText(c, a) + Expand(rest, args)
  {
    hide ArgText;
    var format, all := literal + ['%', c] + rest, [a] + args;
    Parts(literal, ['%', c], rest);
    var behind := ['%', c] + rest;
    assert all[1..] == args && behind[2..] == rest;
    assert StartsSpecifier(behind) && !StartsPercents(behind);
    assert WellTyped(behind, all) && Expand(behind, all) == ArgText(c, a) + Expand(rest, args);
    TypedLiteral(literal, behind, all);
    assert format == literal + behind;
    Regroup(literal, ArgText(c, a), Expand(rest, args));
  }

  lemma {:induction false} TypedLiteral(literal: string, rest: string, args: seq<Arg>)
    requires Literal(literal) && WellTyped(rest, args)
    ensures WellTyped(literal + rest, args)
    ensures Expand(literal + rest, args) == literal + Expand(rest, args)
  {
    hide WellTyped, Expand;
    if literal == [] {
      assert literal + rest == rest;
    } else {
      assert (literal + rest)[1..] == literal[1..] + rest;
      TypedLiteral(literal[1..], rest, args);
      CharacterStep(literal + rest, args);
      assert literal == [literal[0]] + literal[1..];
      Regroup([literal[0]], literal[1..], Expand(rest, args));
    }
  }

  lemma CharacterStep(format: string, args: seq<Arg>)
    requires format != [] && format[0] != '%' && WellTyped(format[1..], args)
    ensures WellTyped(format, args) && Expand(format, args) == [format[0]] + Expand(format[1..], args)
  {
  }

  /** %i prints the number in decimal. */
  lemma ExpandInt(literal: string, v: I32, rest: string, args: seq<Arg>) returns (t: string)
    requires Literal(literal) && WellTyped(rest, args)
    ensures WellTyped(literal + "%i" + rest, [Int(v)] + args) && DecimalOf(t, v)
    ensures Expand(literal + "%i" + rest, [Int(v)] + args) == literal + t + Expand(rest, args)
  {
    hide WellTyped, Expand, DecimalOf, ArgText;
    t := ArgText('i', Int(v));
    DecimalText(v);
    ExpandDirective(literal, 'i', Int(v), rest, args);
    assert ['%', 'i'] == "%i";
  }

  /** %x prints it in hexadecimal. */
  lemma ExpandHex(literal: string, v: I32, rest: string, args: seq<Arg>) returns (t: string)
    requires Literal(literal) && WellTyped(rest, args)
    ensures WellTyped(literal + "%x" + rest, [Int(v)] + args) && HexOf(t, if v < 0 then v + WORD64 else v)
    ensures Expand(literal + "%x" + rest, [Int(v)] + args) == literal + t + Expand(rest, args)
  {
    hide WellTyped, Expand, HexOf, ArgText;
    t := ArgText('x', Int(v));
    HexText(v);
    ExpandDirective(literal, 'x', Int(v), rest, args);
    assert ['%', 'x'] == "%x";
  }

  /** %c prints the character with the number's low eight bits. */
  lemma ExpandChar(literal: string, v: I32, rest: string, args: seq<Arg>)
    requires Literal(literal) && WellTyped(rest, args)
    ensures WellTyped(literal + "%c" + rest, [Int(v)] + args)
    ensures Expand(literal + "%c" + rest, [Int(v)] + args) == literal + [(v % 256) as char] + Expand(rest, args)
  {
    hide WellTyped, Expand;
    ExpandDirective(literal, 'c', Int(v), rest, args);
    assert ['%', 'c'] == "%c";
  }

  /** %s prints the text itself, percent signs and all. */
  lemma ExpandString(literal: string, s: string, rest: string, args: seq<Arg>)
    requires Literal(literal) && WellTyped(rest, args) && '\0' !in s
    ensures WellTyped(literal + "%s" + rest, [Str(s)] + args)
    ensures Expand(literal + "%s" + rest, [Str(s)] + args) == literal + s + Expand(rest, args)
  {
    hide WellTyped, Expand;
    ExpandDirective(literal, 's', Str(s), rest, args);
    assert ['%', 's'] == "%s";
  }

  /** Two percent signs print one. */
  lemma ExpandPercents(literal: string, rest: string, args: seq<Arg>)
    requires Literal(literal) && WellTyped(rest, args)
    ensures WellTyped(literal + "%%" + rest, args)
    ensures Expand(literal + "%%" + rest, args) == literal + "%" + Expand(rest, args)
  {
    var behind := "%%" + rest;
    assert behind[2..] == rest && StartsPercents(behind);
    TypedLiteral(literal, behind, args);
    assert literal + "%%" + rest == literal + behind;
    Regroup(literal, "%", Expand(rest, args));
  }

  /** An unknown directive, or a percent sign at the end, prints the rest as it is. */
  lemma ExpandUnknown(literal: string, rest: string, args: seq<Arg>)
    requires Literal(literal) && (rest == [] || rest[0] !in {'c', 's', 'i', 'x', '%'})
    ensures WellTyped(literal + "%" + rest, args)
    ensures Expand(literal + "%" + rest, args) == literal + "%" + rest
  {
    var behind := "%" + rest;
    TypedLiteral(literal, behind, args);
    assert literal + "%" + rest == literal + behind;
  }

  /** The timer's message (inufw/platform/pc/module/pit/base.c). */
  lemma TimerExample()
    ensures WellTyped("System timer frequency is %i hertz \r\n", [Int(60)])
    ensures Expand("System timer frequency is %i hertz \r\n", [Int(60)]) == "System timer frequency is 60 hertz \r\n"
  {
    hide WellTyped, Expand, ArgText;
    var literal, rest := "System timer frequency is ", " hertz \r\n";
    TypedEnd(rest);
    ExpandDirective(literal, 'i', Int(60), rest, []);
    assert literal + ['%', 'i'] + rest == "System timer frequency is %i hertz \r\n";
    assert [Int(60)] + [] == [Int(60)];
    Sixty();
    assert literal + "60" + rest == "System timer frequency is 60 hertz \r\n";
  }

  lemma Sixty()
    ensures ArgText('i', Int(60)) == "60"
  {
    assert Digits(60, 10, false) == Digits(6, 10, false) + "0" == "60";
  }

  lemma TypedEnd(literal: string)
    requires Literal(literal)
    ensures WellTyped(literal, []) && Expand(literal, []) == literal
  {
    TypedLiteral(literal, "", []);
    assert literal + "" == literal;
  }
}
