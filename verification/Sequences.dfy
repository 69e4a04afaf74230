/** Sequences without repeated elements, and characters of zero-terminated strings. */
module Sequences {

  ghost predicate Distinct<T(!new)>(s: seq<T>) {
    forall i, j :: 0 <= i < j < |s| ==> s[i] != s[j]
  }

  // The character at i; the terminator behind the end.
  function CharAt(s: string, i: nat): char {
    if i < |s| then s[i] else '\0'
  }
}
