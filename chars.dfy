/** ASCII character classes used by the screener's regular expressions.
    Python's `re` works on Unicode; this model restricts `\w`, `\s`, `\d`
    and case folding to ASCII. */
module Chars {

  predicate IsUpper(c: char) { 'A' <= c <= 'Z' }

  predicate IsLower(c: char) { 'a' <= c <= 'z' }

  /** `[a-zA-Z]` */
  predicate IsLetter(c: char) { IsUpper(c) || IsLower(c) }

  /** `\d` */
  predicate IsDigit(c: char) { '0' <= c <= '9' }

  /** `\w` */
  predicate IsWordChar(c: char) { IsLetter(c) || IsDigit(c) || c == '_' }

  /** `\s` on the ASCII range: space, tab, line feed, vertical tab, form
      feed, carriage return, and the file, group, record and unit
      separators, which Python also counts as whitespace. */
  predicate IsSpace(c: char) { c == ' ' || '\t' <= c <= '\r' || '\U{1C}' <= c <= '\U{1F}' }

  /** The case folding `re.IGNORECASE` applies (ASCII only). */
  function ToLower(c: char): (r: char)
    ensures !IsUpper(r)
    ensures !IsUpper(c) ==> r == c
    ensures IsLetter(r) == IsLetter(c) && IsWordChar(r) == IsWordChar(c)
    ensures !IsLetter(c) ==> r == c
    ensures IsUpper(c) ==> IsLower(r) && r as int - 'a' as int == c as int - 'A' as int
  {
    if IsUpper(c) then (c as int + 32) as char else c
  }

  /** Two characters fold to the same one exactly when they are equal or are
      the upper- and lower-case forms of one letter, 32 code points apart. */
  lemma ToLowerSameIff(a: char, b: char)
    ensures ToLower(a) == ToLower(b) <==>
      a == b || (IsLetter(a) && IsLetter(b) && (a as int - b as int == 32 || b as int - a as int == 32))
  {
  }

  /** Two strings that differ at most in the case of their letters. */
  predicate SameIgnoringCase(a: string, b: string) {
    |a| == |b| && forall i :: 0 <= i < |a| ==> ToLower(a[i]) == ToLower(b[i])
  }
}
