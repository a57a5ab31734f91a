/**
 * What the three searches of lab 11 return: the start positions of every
 * occurrence of the pattern in the text, overlapping ones included, in
 * ascending order, and none for an empty pattern.
 */
module Occurrences {

  /** pattern occurs in text starting at position p. */
  predicate MatchAt(text: string, pattern: string, p: int) {
    0 <= p && p + |pattern| <= |text| && forall t :: 0 <= t < |pattern| ==> text[p + t] == pattern[t]
  }

  /** Strictly ascending positions. */
  predicate Increasing(r: seq<int>) {
    forall i, j :: 0 <= i < j < |r| ==> r[i] < r[j]
  }

  /** The occurrences that start below k, in ascending order. */
  function MatchesBelow(text: string, pattern: string, k: int): (r: seq<int>)
    decreases k
  {
    if k <= 0 then [] else MatchesBelow(text, pattern, k - 1) + (if MatchAt(text, pattern, k - 1) then [k - 1] else [])
  }

  /** The list below k is ascending and holds exactly the occurrences that start below k. */
  lemma {:induction false} MatchesBelowSpec(text: string, pattern: string, k: int)
    ensures Increasing(MatchesBelow(text, pattern, k))
    ensures forall p :: p in MatchesBelow(text, pattern, k) <==> 0 <= p < k && MatchAt(text, pattern, p)
    decreases k
  {
    if k > 0 {
      MatchesBelowSpec(text, pattern, k - 1);
      var r := MatchesBelow(text, pattern, k - 1);
      if MatchAt(text, pattern, k - 1) {
        var s := r + [k - 1];
        assert MatchesBelow(text, pattern, k) == s;
        forall i, j | 0 <= i < j < |s| ensures s[i] < s[j] {
          assert s[i] == r[i] && r[i] in r;
        }
      } else {
        assert MatchesBelow(text, pattern, k) == r;
      }
    }
  }

  /** All occurrences, ascending; none for an empty pattern. */
  function Matches(text: string, pattern: string): (r: seq<int>)
    ensures Increasing(r)
    ensures forall p :: p in r <==> |pattern| > 0 && MatchAt(text, pattern, p)
  {
    if pattern == [] then []
    else
      MatchesBelowSpec(text, pattern, |text| - |pattern| + 1);
      MatchesBelow(text, pattern, |text| - |pattern| + 1)
  }

  /** An ascending list is fixed by its elements. */
  lemma {:induction false} IncreasingUnique(a: seq<int>, b: seq<int>)
    requires Increasing(a) && Increasing(b) && forall x :: x in a <==> x in b
    ensures a == b
    decreases |a|
  {
    if a != [] {
      assert a[0] in a;
    }
    if b != [] {
      assert b[0] in b;
    }
    if a != [] && b != [] {
      assert a[0] == b[0] by {
        assert a[0] in b && b[0] in a;
      }
      forall x
        ensures x in a[1..] <==> x in b[1..]
      {
        if x in a[1..] {
          assert x in b && x != b[0];
        }
        if x in b[1..] {
          assert x in a && x != a[0];
        }
      }
      IncreasingUnique(a[1..], b[1..]);
      assert a == [a[0]] + a[1..] && b == [b[0]] + b[1..];
    }
  }
}
