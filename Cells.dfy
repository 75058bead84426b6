/** Cells of the in-memory order table and the ASCII case mapping that the
    pandas `.str.lower()` and `.str.title()` accessors apply to them. */
module Cells {

  /** One cell of the table: a missing value (pandas NaN/None), a text value,
      or a number produced by numeric coercion. Numbers are exact rationals. */
  datatype Cell = Null | Text(s: string) | Number(v: real)

  predicate IsAscii(s: string) {
    forall i :: 0 <= i < |s| ==> s[i] as int < 128
  }

  predicate IsUpperChar(c: char) { 'A' <= c <= 'Z' }
  predicate IsLowerChar(c: char) { 'a' <= c <= 'z' }

  /** A cased character, in Python's sense, restricted to ASCII. */
  predicate IsLetter(c: char) { IsUpperChar(c) || IsLowerChar(c) }

  function LowerChar(c: char): char {
    if IsUpperChar(c) then (c as int + 32) as char else c
  }

  function UpperChar(c: char): char {
    if IsLowerChar(c) then (c as int - 32) as char else c
  }

  /** `str.lower()`: every upper-case letter becomes lower-case. */
  function Lower(s: string): string {
    seq(|s|, i requires 0 <= i < |s| => LowerChar(s[i]))
  }

  /** `str.title()`: a letter that starts the string or follows a non-letter
      is upper-cased, every other letter is lower-cased; non-letters stay. */
  function Title(s: string): string {
    seq(|s|, i requires 0 <= i < |s| => CaseAfter(i > 0 && IsLetter(s[i - 1]), s[i]))
  }

  /** The case `str.title()` gives a character, knowing whether the character
      before it is a letter. */
  function CaseAfter(afterLetter: bool, c: char): char {
    if afterLetter then LowerChar(c) else UpperChar(c)
  }

  /** A string is lower-case when lower-casing leaves it alone. */
  predicate IsLowerCase(s: string) { Lower(s) == s }

  /** A string is title-cased when title-casing leaves it alone. */
  predicate IsTitleCase(s: string) { Title(s) == s }

  lemma CaseMappingKeepsLetters(c: char)
    ensures IsLetter(LowerChar(c)) == IsLetter(c)
    ensures IsLetter(UpperChar(c)) == IsLetter(c)
    ensures LowerChar(UpperChar(c)) == LowerChar(c)
    ensures UpperChar(LowerChar(c)) == UpperChar(c)
    ensures IsLetter(c) ==> !IsLowerChar(UpperChar(c)) && !IsUpperChar(LowerChar(c))
  {
  }

  /** Title-casing depends on a string's letters only up to case: it gives
      the same text for a string and its lower-case form. */
  lemma TitleOfLower(s: string)
    ensures Title(Lower(s)) == Title(s)
  {
    var l := Lower(s);
    forall i | 0 <= i < |s|
      ensures Title(l)[i] == Title(s)[i]
    {
      CaseMappingKeepsLetters(s[i]);
      if i > 0 {
        CaseMappingKeepsLetters(s[i - 1]);
        assert IsLetter(l[i - 1]) == IsLetter(s[i - 1]);
      }
      assert CaseAfter(i > 0 && IsLetter(l[i - 1]), l[i]) == CaseAfter(i > 0 && IsLetter(s[i - 1]), s[i]);
    }
  }

  /** Title-casing changes only the case of letters, so lower-casing
      afterwards undoes it. */
  lemma LowerOfTitle(s: string)
    ensures Lower(Title(s)) == Lower(s)
  {
    forall i | 0 <= i < |s|
      ensures Lower(Title(s))[i] == Lower(s)[i]
    {
      CaseMappingKeepsLetters(s[i]);
    }
  }

  /** `str.title()` is idempotent. */
  lemma TitleIdempotent(s: string)
    ensures IsTitleCase(Title(s))
  {
    var t := Title(s);
    forall i | 0 <= i < |s|
      ensures Title(t)[i] == t[i]
    {
      CaseMappingKeepsLetters(s[i]);
      if i > 0 {
        CaseMappingKeepsLetters(s[i - 1]);
        assert IsLetter(t[i - 1]) == IsLetter(s[i - 1]);
      }
      assert CaseAfter(i > 0 && IsLetter(t[i - 1]), t[i]) == CaseAfter(i > 0 && IsLetter(s[i - 1]), s[i]);
    }
  }

  /** `str.lower()` is idempotent. */
  lemma LowerIdempotent(s: string)
    ensures IsLowerCase(Lower(s))
  {
    forall i | 0 <= i < |s|
      ensures Lower(Lower(s))[i] == Lower(s)[i]
    {
      CaseMappingKeepsLetters(s[i]);
    }
  }

  /** A title-cased string never begins with a lower-case letter. */
  lemma TitleStartsUnlowered(s: string)
    requires |s| > 0
    ensures !IsLowerChar(Title(s)[0])
  {
    CaseMappingKeepsLetters(s[0]);
  }

  /** Two strings that agree up to case title-case to the same text. */
  lemma TitleIgnoresCase(s: string, t: string)
    requires Lower(s) == Lower(t)
    ensures Title(s) == Title(t)
  {
    TitleOfLower(s);
    TitleOfLower(t);
  }
}
