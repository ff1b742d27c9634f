/** What several cores share: optional values and C's view of strings and integers. */
module Basics {

  datatype Option<+T> = None | Some(value: T)

  const INT_MAX: nat := 0x7fff_ffff

  const NUL: char := '\0'

  type CString = s: string | NUL !in s

  /** isspace */
  predicate IsSpace(c: char) { c == ' ' || '\t' <= c <= '\r' }

  /** Reading a C string: a NUL follows the last character. */
  function At(s: string, i: nat): char
    requires i <= |s|
  {
    if i < |s| then s[i] else NUL
  }

  lemma SeqAssoc<T>(a: seq<T>, b: seq<T>, c: seq<T>)
    ensures a + b + c == a + (b + c)
  {
  }
}
