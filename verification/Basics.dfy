/** Values shared by every component. */
module Basics {

  datatype Option<+T> = None | Some(value: T)

  datatype Result<+T, +E> = Success(value: T) | Failure(error: E)

  const NUL := '\0'

  /** A SID in string form: a C string, so without an embedded NUL. */
  type Sid = s: string | NUL !in s

  function UpperChar(c: char): char {
    if 'a' <= c <= 'z' then 'A' + (c - 'a') else c
  }

  /** Upper-casing as towupper and _wcsicmp do it in the "C" locale. */
  function Fold(s: string): (t: string)
    ensures |t| == |s|
  {
    seq(|s|, i requires 0 <= i < |s| => UpperChar(s[i]))
  }

  /** Equality ignoring case, the program's _wcsicmp(...) == 0. */
  predicate SameText(s: string, t: string) {
    Fold(s) == Fold(t)
  }
}
