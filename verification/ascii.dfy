/** The character classes the program takes from `<ctype.h>`, restricted to
    ASCII (no locale). */
module Ascii {

  /** `tolower` on ASCII: upper-case letters map to lower case, every other
      character to itself. */
  function Lower(c: char): char
  {
    if 'A' <= c <= 'Z' then (c as int - 'A' as int + 'a' as int) as char else c
  }

  /** `isalpha(c) || isdigit(c) || c == '_'`: a character that may continue
      an option name. */
  predicate IsWordChar(c: char)
  {
    ('A' <= c <= 'Z') || ('a' <= c <= 'z') || ('0' <= c <= '9') || c == '_'
  }

  /** `_tcsicmp(a, b) == 0`: same length, same characters up to case. */
  predicate EqualsIgnoreCase(a: string, b: string)
  {
    |a| == |b| && forall i :: 0 <= i < |a| ==> Lower(a[i]) == Lower(b[i])
  }
}
