/** C strings: strlen and strstr of inuoskrnl/rt/base.c. */
module Strings {
  import opened Wrappers

  /** A char as the processor computes with it: a signed byte. */
  function SignedChar(c: char): int {
    if c as int % 256 < 128 then c as int % 256 else c as int % 256 - 256
  }

  /** The one value of a signed byte with the character's low eight bits. */
  lemma SignedCharMeans(c: char)
    ensures -128 <= SignedChar(c) < 128 && (c as int - SignedChar(c)) % 256 == 0
    ensures SignedChar('9') == 57 && SignedChar(200 as char) == -56
  {
  }

  /** The text in a buffer, up to its terminator. */
  function CStr(buffer: seq<char>): (s: string)
    ensures '\0' !in s
    ensures |s| <= |buffer| && s == buffer[..|s|]
    ensures '\0' in buffer ==> |s| < |buffer| && buffer[|s|] == '\0'
  {
    if buffer == [] || buffer[0] == '\0' then [] else [buffer[0]] + CStr(buffer[1..])
  }

  lemma {:induction false} CStrOf(buffer: seq<char>, text: string)
    requires |text| < |buffer| && buffer[..|text|] == text && buffer[|text|] == '\0' && '\0' !in text
    ensures CStr(buffer) == text
  {
    if text != [] {
      assert buffer[0] == text[0];
      CStrOf(buffer[1..], text[1..]);
    }
  }

  lemma BeforeEnd(buffer: seq<char>)
    ensures forall i :: 0 <= i < |CStr(buffer)| ==> buffer[i] != '\0'
  {
    forall i | 0 <= i < |CStr(buffer)|
      ensures buffer[i] != '\0'
    {
      assert CStr(buffer)[i] == buffer[i];
    }
  }

  method StrLen(string_: seq<char>) returns (length: nat)
    requires '\0' in string_
    ensures length == |CStr(string_)|
  {
    length := 0;
    BeforeEnd(string_);
    ghost var n := |CStr(string_)|;
    while string_[length] != '\0'
      invariant length <= n
      decreases n - length
    {
      length := length + 1;
    }
  }

  predicate OccursAt(s: string, needle: string, i: nat) {
    i + |needle| <= |s| && s[i..i + |needle|] == needle
  }

  ghost predicate Contains(s: string, needle: string) {
    exists i: nat :: OccursAt(s, needle, i)
  }

  /** The first occurrence. Unlike the C library's, a search for the empty text finds
      the last character, and nothing in an empty text. */
  method StrStr(first: seq<char>, second: seq<char>) returns (entry: Option<nat>)
    requires '\0' in first && '\0' in second
    ensures var s, needle := CStr(first), CStr(second);
            && (needle != [] ==> (entry.None? <==> !Contains(s, needle)))
            && (needle != [] && entry.Some? ==>
                  OccursAt(s, needle, entry.value) && forall i: nat :: i < entry.value ==> !OccursAt(s, needle, i))
            && (needle == [] ==> entry == if s == [] then None else Some(|s| - 1))
  {
    hide CStr;
    ghost var s, needle := CStr(first), CStr(second);
    var firstLength := StrLen(first);
    var secondLength := StrLen(second);
    var parsedSymbols := 0;
    entry := None;
    for i := 0 to firstLength
      invariant parsedSymbols == 0
      invariant needle != [] ==> entry == None && forall k: nat :: k < i ==> !OccursAt(s, needle, k)
      invariant needle == [] ==> entry == if i == 0 then None else Some(i - 1)
    {
      var index := i;
      entry := Some(index);
      var j := 0;
      while j < secondLength
        invariant j <= secondLength && parsedSymbols == j && index == i + j <= firstLength
        invariant s[i..index] == needle[..j]
        invariant entry == Some(i)
        invariant needle != [] ==> j < secondLength
      {
        if first[index] != second[j] {
          assert second[j] == needle[j];
          MismatchAt(s, needle, i, j);
          entry := None;
          parsedSymbols := 0;
          break;
        } else {
          assert second[j] == needle[j];
          parsedSymbols := parsedSymbols + 1;
          assert index < firstLength;
          assert s[i..index + 1] == s[i..index] + [s[index]];
          assert needle[..j + 1] == needle[..j] + [needle[j]];
          if parsedSymbols == secondLength {
            assert needle[..j + 1] == needle;
            assert OccursAt(s, needle, i);
            return;
          }
        }
        index := index + 1;
        j := j + 1;
      }
    }
  }

  lemma MismatchAt(s: string, needle: string, i: nat, j: nat)
    requires j < |needle| && i + j <= |s|
    requires i + j == |s| || s[i + j] != needle[j]
    ensures !OccursAt(s, needle, i)
  {
    if i + |needle| <= |s| {
      assert s[i..i + |needle|][j] == s[i + j];
    }
  }
}
