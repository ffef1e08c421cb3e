/**
 * The pieces of Python `re` semantics the extractors rely on: the `\b` assertion, greedy runs
 * of one character class, and the left-to-right scan of `re.search`, which reports the match
 * starting at the smallest index where the pattern matches at all.
 */
module Regex {
  import opened Wrappers
  import opened Text

  /** `\b` at position `p`: exactly one of the characters around `p` is a word character. */
  predicate WordBoundary(s: string, p: nat) {
    p <= |s| && ((p > 0 && IsWordChar(s[p - 1])) != (p < |s| && IsWordChar(s[p])))
  }

  /** Every character of `s[p..q]` is in the class `P`. */
  predicate AllIn(s: string, p: nat, q: nat, P: char -> bool)
    requires p <= q <= |s|
  {
    forall i :: p <= i < q ==> P(s[i])
  }

  /** The length of the longest run of class-`P` characters starting at `p` (a greedy `[...]*`). */
  function RunLength(s: string, p: nat, P: char -> bool): (n: nat)
    requires p <= |s|
    ensures p + n <= |s|
    ensures AllIn(s, p, p + n, P)
    ensures p + n == |s| || !P(s[p + n])
    decreases |s| - p
  {
    if p < |s| && P(s[p]) then 1 + RunLength(s, p + 1, P) else 0
  }

  /** A run that starts at `p` and is followed by a character outside the class ends where the greedy run ends. */
  lemma RunEnd(s: string, p: nat, q: nat, P: char -> bool)
    requires p <= q <= |s|
    requires AllIn(s, p, q, P)
    requires q == |s| || !P(s[q])
    ensures q == p + RunLength(s, p, P)
  {
  }

  /** A run of class-`P` characters from `p` to `q` lies inside the greedy run from `p`. */
  lemma {:induction false} RunCovers(s: string, p: nat, q: nat, P: char -> bool)
    requires p <= q <= |s|
    requires AllIn(s, p, q, P)
    ensures q <= p + RunLength(s, p, P)
    decreases q - p
  {
    if p < q {
      RunCovers(s, p + 1, q, P);
    }
  }

  /**
   * The scan of `re.search` from index `j` on: `at(k)` is the end of the match the pattern makes
   * when tried at index `k`, if any. The result is the first index at which `at` succeeds.
   */
  function FirstMatch(n: nat, at: nat -> Option<nat>, j: nat): (r: Option<nat>)
    ensures r.Some? ==> j <= r.value <= n && at(r.value).Some?
    ensures r.Some? ==> forall k :: j <= k < r.value ==> at(k).None?
    ensures r.None? ==> forall k :: j <= k <= n ==> at(k).None?
    decreases n + 1 - j
  {
    if j > n then None
    else if at(j).Some? then Some(j)
    else FirstMatch(n, at, j + 1)
  }

  /** `re.search(pattern, s)`: the leftmost start at which the pattern matches, with the end of that match. */
  function Search(s: string, at: nat -> Option<nat>): (r: Option<(nat, nat)>)
    ensures r.Some? ==> r.value.0 <= |s| && at(r.value.0) == Some(r.value.1)
    ensures r.Some? ==> forall k :: 0 <= k < r.value.0 ==> at(k).None?
    ensures r.None? ==> forall k :: 0 <= k <= |s| ==> at(k).None?
  {
    match FirstMatch(|s|, at, 0)
    case None => None
    case Some(i) => Some((i, at(i).value))
  }

  /** The search reports index `i` when the engine matches there and at no earlier index. */
  lemma SearchFinds(s: string, at: nat -> Option<nat>, i: nat, e: nat)
    requires i <= |s| && at(i) == Some(e)
    requires forall k :: 0 <= k < i ==> at(k).None?
    ensures Search(s, at) == Some((i, e))
  {
  }

  /** `at` only reports non-empty matches that end inside the text. */
  ghost predicate Advances(n: nat, at: nat -> Option<nat>) {
    forall k: nat :: at(k).Some? ==> k < at(k).value <= n
  }

  /**
   * The scan of `re.findall` from index `j` on, as (start, end) pairs: it tries each index in
   * turn and resumes after each match.
   */
  function Scan(n: nat, at: nat -> Option<nat>, j: nat): (r: seq<(nat, nat)>)
    requires Advances(n, at)
    ensures forall i :: 0 <= i < |r| ==> j <= r[i].0 < r[i].1 <= n && at(r[i].0) == Some(r[i].1)
    ensures forall i :: 0 <= i < |r| - 1 ==> r[i].1 <= r[i + 1].0
    decreases n + 1 - j
  {
    if j > n then []
    else
      match at(j)
      case None => Scan(n, at, j + 1)
      case Some(e) => [(j, e)] + Scan(n, at, e)
  }

  /** The scan passes over an index where `at` fails. */
  lemma ScanSkip(n: nat, at: nat -> Option<nat>, j: nat)
    requires Advances(n, at)
    requires j <= n && at(j).None?
    ensures Scan(n, at, j) == Scan(n, at, j + 1)
  {
  }

  /** The scan reports the match at an index where `at` succeeds and resumes at its end. */
  lemma ScanStep(n: nat, at: nat -> Option<nat>, j: nat, e: nat)
    requires Advances(n, at)
    requires j <= n && at(j) == Some(e)
    ensures Scan(n, at, j) == [(j, e)] + Scan(n, at, e)
  {
  }

  /** The scan misses no match: every index from `j` on at which `at` succeeds lies inside a reported match. */
  lemma {:induction false} ScanCovers(n: nat, at: nat -> Option<nat>, j: nat, k: nat) returns (i: nat)
    requires Advances(n, at)
    requires j <= k <= n && at(k).Some?
    ensures i < |Scan(n, at, j)| && Scan(n, at, j)[i].0 <= k < Scan(n, at, j)[i].1
    decreases n + 1 - j
  {
    var r := Scan(n, at, j);
    if at(j).None? {
      i := ScanCovers(n, at, j + 1, k);
    } else {
      var e := at(j).value;
      assert r == [(j, e)] + Scan(n, at, e);
      if k < e {
        i := 0;
      } else {
        var i' := ScanCovers(n, at, e, k);
        i := i' + 1;
        assert r[i] == Scan(n, at, e)[i'];
      }
    }
  }
}
