/**
 * Values shared by the labs: the exceptions the Python code raises, an
 * optional value, ordering predicates, sums, and a stable insertion sort that
 * stands for Python's built-in `sorted` / `list.sort` (both are stable, so any
 * stable sort by the same key yields the same list).
 */
module Common {

  /** The Python exceptions raised on purpose or by indexing. */
  datatype Error = ValueError | IndexError | KeyError | ZeroDivisionError

  /** The outcome of a call that either returns a value or raises. */
  datatype Result<T> = Ok(value: T) | Err(error: Error)

  /** Python's `None`-or-value results. */
  datatype Option<T> = None | Some(value: T)

  /** Non-decreasing order. */
  predicate Sorted(s: seq<int>) {
    forall i, j :: 0 <= i < j < |s| ==> s[i] <= s[j]
  }

  /** Non-decreasing order of `key` along `s`. */
  predicate SortedBy<T>(s: seq<T>, key: T -> int) {
    forall i, j :: 0 <= i < j < |s| ==> key(s[i]) <= key(s[j])
  }

  function Sum(s: seq<int>): (total: int) {
    if s == [] then 0 else Sum(s[..|s| - 1]) + s[|s| - 1]
  }

  lemma {:induction false} SumAppend(s: seq<int>, t: seq<int>)
    ensures Sum(s + t) == Sum(s) + Sum(t)
  {
    if t != [] {
      assert (s + t)[..|s + t| - 1] == s + t[..|t| - 1];
      SumAppend(s, t[..|t| - 1]);
    } else {
      assert s + t == s;
    }
  }

  lemma AppendAssoc<T>(a: seq<T>, b: seq<T>, c: seq<T>)
    ensures a + b + c == a + (b + c)
  {
  }

  /** A list is its part before m, its element at m and its part after m. */
  lemma SplitAt<T>(h: seq<T>, m: int)
    requires 0 <= m < |h|
    ensures h == h[..m] + [h[m]] + h[m + 1..]
  {
  }

  /** Regrouping a four-part concatenation. */
  lemma ConcatAssoc<T>(a: seq<T>, b: seq<T>, c: seq<T>, d: seq<T>)
    ensures a + (b + c + d) == a + b + c + d
  {
  }

  function Identity(x: int): int { x }

  function Negate(x: int): int { -x }

  /** Puts `x` in front of the first element whose key is not smaller. */
  function InsertByKey<T>(x: T, t: seq<T>, key: T -> int): (r: seq<T>)
    ensures |r| == |t| + 1
    ensures multiset(r) == multiset(t) + multiset{x}
  {
    if t == [] then [x]
    else if key(x) <= key(t[0]) then [x] + t
    else
      assert t == [t[0]] + t[1..];
      [t[0]] + InsertByKey(x, t[1..], key)
  }

  /** Stable insertion sort by `key`. */
  function SortByKey<T>(s: seq<T>, key: T -> int): (r: seq<T>)
    ensures |r| == |s| && multiset(r) == multiset(s)
  {
    if s == [] then []
    else
      assert s == [s[0]] + s[1..];
      InsertByKey(s[0], SortByKey(s[1..], key), key)
  }

  lemma {:induction false} InsertByKeySorted<T>(x: T, t: seq<T>, key: T -> int)
    requires SortedBy(t, key)
    ensures SortedBy(InsertByKey(x, t, key), key)
  {
    if t != [] && key(x) > key(t[0]) {
      InsertByKeySorted(x, t[1..], key);
      var rest := InsertByKey(x, t[1..], key);
      forall y | y in rest ensures key(t[0]) <= key(y) {
        assert y in multiset(rest);
        if y != x {
          assert y in multiset(t[1..]);
        }
      }
    }
  }

  lemma {:induction false} SortByKeySorted<T>(s: seq<T>, key: T -> int)
    ensures SortedBy(SortByKey(s, key), key)
  {
    if s != [] {
      SortByKeySorted(s[1..], key);
      InsertByKeySorted(s[0], SortByKey(s[1..], key), key);
    }
  }

  /** Writes s over the array, as the in-place `list.sort` leaves it. */
  method Overwrite<T>(a: array<T>, s: seq<T>)
    requires |s| == a.Length
    modifies a
    ensures a[..] == s
  {
    forall k | 0 <= k < a.Length {
      a[k] := s[k];
    }
  }

  /** No two positions hold the same value. */
  predicate Distinct<T(==)>(s: seq<T>) {
    forall i, j :: 0 <= i < j < |s| ==> s[i] != s[j]
  }

  /** Two equal entries make their value occur at least twice. */
  lemma TwiceCounted<T>(s: seq<T>, i: int, j: int)
    requires 0 <= i < j < |s|
    ensures s[i] == s[j] ==> multiset(s)[s[i]] >= 2
  {
    assert s == s[..j] + s[j..];
    assert s[i] in s[..j] && s[j] in s[j..];
  }

  /** In a list without repeats every value occurs at most once. */
  lemma {:induction false} CountedOnce<T>(s: seq<T>, x: T)
    requires Distinct(s)
    ensures multiset(s)[x] <= 1
  {
    if s != [] {
      assert s == [s[0]] + s[1..];
      CountedOnce(s[1..], x);
      assert s[0] !in s[1..];
    }
  }

  /** Being free of repeats depends only on the multiset. */
  lemma DistinctPerm<T>(a: seq<T>, b: seq<T>)
    requires Distinct(a) && multiset(a) == multiset(b)
    ensures Distinct(b)
  {
    forall i, j | 0 <= i < j < |a| ensures a[i] != a[j] {
      assert (a + b)[i] == a[i] && (a + b)[j] == a[j];
    }
    forall i, j | 0 <= i < j < |b| ensures b[i] != b[j] {
      TwiceCounted(b, i, j);
      CountedOnce(a, b[i]);
    }
  }

  /** Python's `sorted(xs)` on integers. */
  function SortInts(s: seq<int>): (r: seq<int>)
    ensures Sorted(r) && |r| == |s| && multiset(r) == multiset(s)
  {
    SortByKeySorted(s, Identity);
    SortByKey(s, Identity)
  }

  /** Python's `sorted(xs, reverse=True)` on integers. */
  function SortIntsDescending(s: seq<int>): (r: seq<int>)
    ensures forall i, j :: 0 <= i < j < |r| ==> r[i] >= r[j]
    ensures |r| == |s| && multiset(r) == multiset(s)
  {
    SortByKeySorted(s, Negate);
    SortByKey(s, Negate)
  }

  function Reverse<T>(s: seq<T>): (r: seq<T>)
    ensures |r| == |s|
  {
    if s == [] then [] else [s[|s| - 1]] + Reverse(s[..|s| - 1])
  }

  lemma {:induction false} ReverseIndex<T>(s: seq<T>, k: int)
    requires 0 <= k < |s|
    ensures Reverse(s)[k] == s[|s| - 1 - k]
  {
    if k > 0 {
      ReverseIndex(s[..|s| - 1], k - 1);
    }
  }

  /** Reading `s` backwards gives `s` again. */
  predicate IsPalindrome<T(==)>(s: seq<T>) {
    forall k :: 0 <= k < |s| ==> s[k] == s[|s| - 1 - k]
  }

  lemma PalindromeIffReverse<T>(s: seq<T>)
    ensures IsPalindrome(s) <==> s == Reverse(s)
  {
    forall k | 0 <= k < |s| ensures Reverse(s)[k] == s[|s| - 1 - k] {
      ReverseIndex(s, k);
    }
  }

  function Max(a: int, b: int): int { if a >= b then a else b }

  function Pow2(n: nat): nat {
    if n == 0 then 1 else 2 * Pow2(n - 1)
  }

  lemma {:induction false} Pow2Monotone(a: nat, b: nat)
    requires a <= b
    ensures Pow2(a) <= Pow2(b)
  {
    if a < b {
      Pow2Monotone(a, b - 1);
    }
  }

  function Abs(x: int): nat { if x < 0 then -x else x }

  /** Python's `a // b`: the quotient rounded toward minus infinity. */
  function FloorDiv(a: int, b: int): int
    requires b != 0
  {
    if b > 0 then a / b else (-a) / (-b)
  }

  /** Python's `a % b`: the remainder takes the sign of the divisor. */
  function PyMod(a: int, b: int): (r: int)
    requires b != 0
    ensures a == b * FloorDiv(a, b) + r
    ensures b > 0 ==> 0 <= r < b
    ensures b < 0 ==> b < r <= 0
  {
    a - b * FloorDiv(a, b)
  }

  /** Any quotient and remainder in the divisor's range give Python's remainder. */
  lemma PyModUnique(a: int, b: int, q: int, r: int)
    requires b != 0 && a == b * q + r
    requires b > 0 ==> 0 <= r < b
    requires b < 0 ==> b < r <= 0
    ensures r == PyMod(a, b)
  {
    var q', r' := FloorDiv(a, b), PyMod(a, b);
    assert b * (q - q') == r' - r;
    if q - q' >= 1 {
      MulAtLeast(if b > 0 then b else -b, q - q');
    } else if q' - q >= 1 {
      MulAtLeast(if b > 0 then b else -b, q' - q);
    }
  }

  /** Adding a multiple of the divisor does not change Python's remainder. */
  lemma PyModShift(a: int, b: int, k: int)
    requires b != 0
    ensures PyMod(a + b * k, b) == PyMod(a, b)
  {
    assert a + b * k == b * (FloorDiv(a, b) + k) + PyMod(a, b);
    PyModUnique(a + b * k, b, FloorDiv(a, b) + k, PyMod(a, b));
  }

  lemma MulAtLeast(x: int, k: int)
    requires x > 0 && k >= 1
    ensures x * k >= x
  {
    assert x * k == x + x * (k - 1);
  }

  /** A subset is no larger than its superset. */
  lemma {:induction false} SubsetCard<T>(a: set<T>, b: set<T>)
    requires a <= b
    ensures |a| <= |b|
    decreases |a|
  {
    if a != {} {
      var x :| x in a;
      SubsetCard(a - {x}, b - {x});
    }
  }

  /** A list without repeats stays so when a new value is appended. */
  lemma DistinctSnoc<T>(a: seq<T>, x: T)
    requires Distinct(a) && x !in a
    ensures Distinct(a + [x])
  {
  }

  /** Both halves of a list without repeats are free of repeats and share no value. */
  lemma DistinctSplit<T>(a: seq<T>, b: seq<T>)
    requires Distinct(a + b)
    ensures Distinct(a) && Distinct(b) && forall x :: x in a ==> x !in b
  {
    forall i, j | 0 <= i < |a| && 0 <= j < |b| ensures a[i] != b[j] {
      assert (a + b)[i] == a[i] && (a + b)[|a| + j] == b[j];
    }
    forall i, j | 0 <= i < j < |a| ensures a[i] != a[j] {
      assert (a + b)[i] == a[i] && (a + b)[j] == a[j];
    }
    forall i, j | 0 <= i < j < |b| ensures b[i] != b[j] {
      assert (a + b)[|a| + i] == b[i] && (a + b)[|a| + j] == b[j];
    }
  }
}
