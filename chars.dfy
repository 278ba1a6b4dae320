/**
 Character classes of the C locale, restricted to ASCII: the `isalpha`,
 `ispunct`, `isspace` and `tolower` that the search engine relies on.
 Characters outside ASCII are neither letters, punctuation nor white space.
 */
module Chars {

  /** `isupper` in the C locale. */
  predicate IsUpper(c: char)
  {
    'A' <= c <= 'Z'
  }

  /** `isalpha` in the C locale: the 52 ASCII letters. */
  predicate IsAlpha(c: char)
  {
    'A' <= c <= 'Z' || 'a' <= c <= 'z'
  }

  /** `ispunct` in the C locale: printable, not alphanumeric, not a space. */
  predicate IsPunct(c: char)
  {
    ('!' <= c <= '/') || (':' <= c <= '@') || ('[' <= c <= '`') || ('{' <= c <= '~')
  }

  /** `isspace` in the C locale: space, tab, newline, vertical tab, form feed, carriage return. */
  predicate IsSpace(c: char)
  {
    c == ' ' || '\t' <= c <= '\r'
  }

  /** `tolower` in the C locale: upper-case letters map to lower case, everything else is kept. */
  function ToLower(c: char): (r: char)
    ensures !IsUpper(r)
    ensures IsAlpha(r) == IsAlpha(c) && IsPunct(r) == IsPunct(c) && IsSpace(r) == IsSpace(c)
    ensures !IsUpper(c) ==> r == c
  {
    if IsUpper(c) then (c as int + 32) as char else c
  }

  /** Every character lowered, position by position. */
  function Lower(s: string): (r: string)
  {
    seq(|s|, i requires 0 <= i < |s| => ToLower(s[i]))
  }

  /** The string holds at least one letter. */
  predicate HasLetter(s: string)
  {
    exists i :: 0 <= i < |s| && IsAlpha(s[i])
  }

  /** No character of the string is an upper-case letter. */
  predicate IsLowerCase(s: string)
  {
    forall i :: 0 <= i < |s| ==> !IsUpper(s[i])
  }

  lemma LowerKeepsLetters(s: string)
    requires HasLetter(s)
    ensures HasLetter(Lower(s))
  {
    var i :| 0 <= i < |s| && IsAlpha(s[i]);
    assert IsAlpha(Lower(s)[i]);
  }

  lemma LowerOfLowerCase(s: string)
    requires IsLowerCase(s)
    ensures Lower(s) == s
  {
  }
}
