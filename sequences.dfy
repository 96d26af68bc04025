/** Small facts about sequences shared by both queue variants. */
module Sequences {

  /** No element occurs twice in `s`. */
  ghost predicate NoDuplicates<T>(s: seq<T>) {
    forall i, j :: 0 <= i < j < |s| ==> s[i] != s[j]
  }

  /** The set of elements of `s`. */
  ghost function Elems<T>(s: seq<T>): set<T> {
    set x | x in s
  }

  /** `suffix` is what is left of `s` after dropping some leading elements. */
  ghost predicate IsSuffix<T>(suffix: seq<T>, s: seq<T>) {
    |suffix| <= |s| && suffix == s[|s| - |suffix|..]
  }
}
