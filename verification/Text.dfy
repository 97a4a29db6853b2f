/** Characters and strings as the regular-expression engine sees them: 8-bit characters in the
    C locale, and `char*` views of strings that end at the first NUL. */
module Text {

  /** `String::At`: reading outside the string yields NUL. */
  function At(s: string, i: int): char {
    if 0 <= i < |s| then s[i] else '\0'
  }

  /** `String::SubString`: a start before the string is moved to its beginning, and the length cut to what
      is there. */
  function SubString(s: string, from: int, len: nat): string {
    if from >= |s| then ""
    else
      var start := if from < 0 then 0 else from;
      if start + len > |s| then s[start..] else s[start..start + len]
  }

  predicate IsDigit(c: char) { '0' <= c <= '9' }

  predicate IsOctal(c: char) { '0' <= c <= '7' }

  predicate IsAlnum(c: char) { IsDigit(c) || 'a' <= c <= 'z' || 'A' <= c <= 'Z' }

  function ToLower(c: char): char {
    if 'A' <= c <= 'Z' then (c as int + 32) as char else c
  }

  function Fold(s: string): string {
    seq(|s|, i requires 0 <= i < |s| => ToLower(s[i]))
  }

  /** What survives a conversion to `const char*` and back. */
  function CStr(s: string): string {
    if s == "" || s[0] == '\0' then "" else [s[0]] + CStr(s[1..])
  }

  predicate NulFree(s: string) { '\0' !in s }

  /** Equality of two texts, either exact or after folding case. */
  predicate SameText(icase: bool, a: string, b: string) {
    if icase then Fold(a) == Fold(b) else a == b
  }

  lemma {:induction false} CStrOfNulFree(s: string)
    requires NulFree(s)
    ensures CStr(s) == s
  {
    if s != "" {
      CStrOfNulFree(s[1..]);
    }
  }

  lemma FoldConcat(a: string, b: string)
    ensures Fold(a + b) == Fold(a) + Fold(b)
  {
  }
}
