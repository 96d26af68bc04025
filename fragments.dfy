/**
 * Fragment stripping of URLs, as both queues do it with `item.split("#")[0]`:
 * the text before the first `#`, the fragment delimiter of section 3.5 of RFC 3986.
 */
module Fragments {

  const FRAGMENT_DELIMITER: char := '#'

  /**
   * Python's `str.split(sep)` for a one-character separator: the pieces between
   * occurrences of `sep`, in order, with an empty piece at either end when `s`
   * starts or ends with `sep` (so `"".split(sep) == [""]`).
   */
  function Split(s: string, sep: char): (parts: seq<string>)
    ensures |parts| >= 1
    ensures forall i :: 0 <= i < |parts| ==> sep !in parts[i]
    ensures parts[0] <= s
    ensures sep in s ==> |parts[0]| < |s| && s[|parts[0]|] == sep
    ensures sep !in s ==> parts == [s]
    decreases |s|
  {
    if s == [] then [[]]
    else
      var rest := Split(s[1..], sep);
      if s[0] == sep then [[]] + rest
      else
        assert s == [s[0]] + s[1..];
        [[s[0]] + rest[0]] + rest[1..]
  }

  /** The inverse of `Split`: the pieces glued back together with `sep` between them. */
  function Join(parts: seq<string>, sep: char): string
    requires |parts| >= 1
    decreases |parts|
  {
    if |parts| == 1 then parts[0] else parts[0] + [sep] + Join(parts[1..], sep)
  }

  /** Splitting loses nothing: joining the pieces gives back the string. */
  lemma {:induction false} JoinSplit(s: string, sep: char)
    ensures Join(Split(s, sep), sep) == s
    decreases |s|
  {
    if s != [] {
      var rest := Split(s[1..], sep);
      JoinSplit(s[1..], sep);
      if s[0] == sep {
        assert Split(s, sep)[1..] == rest;
      } else if |rest| > 1 {
        assert Split(s, sep)[1..] == rest[1..];
        assert Join(rest, sep) == rest[0] + [sep] + Join(rest[1..], sep);
      }
    }
  }

  /** The URL with its fragment removed: `item.split("#")[0]`. */
  function StripFragment(s: string): (r: string)
    ensures FRAGMENT_DELIMITER !in r
    ensures r <= s
  {
    Split(s, FRAGMENT_DELIMITER)[0]
  }

  /** A URL with no fragment delimiter, the form every URL takes once stripped. */
  predicate Unfragmented(s: string) {
    FRAGMENT_DELIMITER !in s
  }

  /**
   * StripFragment keeps exactly the longest prefix without a `#`: the result is
   * the whole string when it holds no `#`, and otherwise stops at the first `#`.
   * Conversely, these three facts determine the result.
   */
  lemma StripFragmentCharacterised(s: string, r: string)
    ensures r == StripFragment(s) <==>
              r <= s && FRAGMENT_DELIMITER !in r && (r == s || s[|r|] == FRAGMENT_DELIMITER)
  {
    var p := StripFragment(s);
    if r <= s && FRAGMENT_DELIMITER !in r && (r == s || s[|r|] == FRAGMENT_DELIMITER) {
      FirstDelimiterUnique(s, |r|, |p|);
      assert r == s[..|r|] && p == s[..|p|];
    }
  }

  /** At most one position is "the first delimiter, or the end when there is none". */
  lemma FirstDelimiterUnique(s: string, m: nat, n: nat)
    requires m <= |s| && n <= |s|
    requires forall k :: 0 <= k < m ==> s[k] != FRAGMENT_DELIMITER
    requires forall k :: 0 <= k < n ==> s[k] != FRAGMENT_DELIMITER
    requires m == |s| || s[m] == FRAGMENT_DELIMITER
    requires n == |s| || s[n] == FRAGMENT_DELIMITER
    ensures m == n
  {
  }

  /** Stripping twice is stripping once. */
  lemma StripFragmentIdempotent(s: string)
    ensures StripFragment(StripFragment(s)) == StripFragment(s)
  {
  }

  /** A URL without a fragment is kept as it is. */
  lemma StripUnfragmented(s: string)
    requires Unfragmented(s)
    ensures StripFragment(s) == s
  {
  }

  /** Whatever follows the first `#` is dropped, later `#`s included. */
  lemma StripAtDelimiter(base: string, fragment: string)
    requires Unfragmented(base)
    ensures StripFragment(base + [FRAGMENT_DELIMITER] + fragment) == base
  {
    var s := base + [FRAGMENT_DELIMITER] + fragment;
    StripFragmentCharacterised(s, base);
  }
}
