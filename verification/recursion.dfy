/**
 * Recursive algorithms of lab03 and their iterative twins: factorial,
 * Fibonacci, binary search and Euclid's greatest common divisor.
 */
module Recursion {
  import opened Common

  // ---------------------------------------------------------------- factorial

  /** ValueError for negative n; 1 for 0 and 1; n * (n-1)! otherwise. */
  function FactorialRecursive(n: int): (r: Result<nat>)
    ensures r.Err? <==> n < 0
    ensures r.Err? ==> r.error == ValueError
    ensures r.Ok? ==> r.value >= 1
    decreases if n < 0 then 0 else n
  {
    if n < 0 then Err(ValueError)
    else if n == 0 || n == 1 then Ok(1)
    else Ok(n * FactorialRecursive(n - 1).value)
  }

  /** Every k in 1..n divides n!. */
  lemma {:induction false} FactorialMultiple(n: int, k: int)
    requires 1 <= k <= n
    ensures FactorialRecursive(n).value % k == 0
  {
    if k == n {
      if n > 1 {
        var f := FactorialRecursive(n - 1).value;
        assert FactorialRecursive(n).value == k * f;
        MultipleMod(k, f);
      }
    } else {
      FactorialMultiple(n - 1, k);
      var f := FactorialRecursive(n - 1).value;
      assert FactorialRecursive(n).value == f * n;
      ModOfMultiple(f, k, n);
    }
  }

  lemma MultipleMod(k: int, m: int)
    requires k > 0
    ensures (k * m) % k == 0
  {
    var q, r := (k * m) / k, (k * m) % k;
    assert k * m == k * q + r && 0 <= r < k;
    assert k * (m - q) == r;
    if m - q >= 1 {
      MulAtLeast(k, m - q);
    } else if m - q <= -1 {
      MulAtLeast(k, q - m);
    }
  }

  lemma ModOfMultiple(f: int, k: int, m: int)
    requires k > 0 && f % k == 0
    ensures (f * m) % k == 0
  {
    var q := f / k;
    assert f == k * q;
    assert f * m == k * (q * m);
    MultipleMod(k, q * m);
  }

  method FactorialIterative(n: int) returns (r: Result<nat>)
    ensures r == FactorialRecursive(n)
  {
    if n < 0 {
      return Err(ValueError);
    }
    var result: nat := 1;
    var i := 2;
    while i <= n
      invariant 2 <= i <= if n < 2 then 2 else n + 1
      invariant FactorialRecursive(i - 1) == Ok(result)
    {
      FactorialStep(i);
      result := result * i;
      i := i + 1;
    }
    return Ok(result);
  }

  lemma FactorialStep(i: int)
    requires i >= 2
    ensures FactorialRecursive(i) == Ok(FactorialRecursive(i - 1).value * i)
  {
  }

  // ---------------------------------------------------------------- Fibonacci

  /** ValueError for negative n; F(0) = 0, F(1) = 1, F(n) = F(n-1) + F(n-2). */
  function FibonacciRecursive(n: int): (r: Result<nat>)
    ensures r.Err? <==> n < 0
    ensures r.Err? ==> r.error == ValueError
    ensures r.Ok? && n >= 1 ==> r.value >= 1
    decreases if n < 0 then 0 else n
  {
    if n < 0 then Err(ValueError)
    else if n == 0 then Ok(0)
    else if n == 1 then Ok(1)
    else Ok(FibonacciRecursive(n - 1).value + FibonacciRecursive(n - 2).value)
  }

  /** Keeps (a, b) = (F(k-1), F(k)) while k runs up to n. */
  method FibonacciIterative(n: int) returns (r: Result<nat>)
    ensures r == FibonacciRecursive(n)
  {
    if n < 0 {
      return Err(ValueError);
    }
    if n == 0 {
      return Ok(0);
    }
    if n == 1 {
      return Ok(1);
    }
    var a: nat, b: nat := 0, 1;
    var k := 2;
    while k <= n
      invariant 2 <= k <= n + 1
      invariant FibonacciRecursive(k - 2) == Ok(a) && FibonacciRecursive(k - 1) == Ok(b)
    {
      a, b := b, a + b;
      k := k + 1;
    }
    return Ok(b);
  }

  // ------------------------------------------------------------ binary search

  /**
   * The recursive search of arr[left..right] (inclusive bounds). A hit is an
   * index inside the window holding `target`; on sorted input a miss means
   * `target` is nowhere in the window.
   */
  function BinarySearchBetween(arr: seq<int>, target: int, left: int, right: int): (r: Option<nat>)
    requires 0 <= left && right < |arr|
    ensures r.Some? ==> left <= r.value <= right && arr[r.value] == target
    ensures r.None? && Sorted(arr) ==> forall i :: left <= i <= right ==> arr[i] != target
    decreases right - left + 1
  {
    if left > right then None
    else
      var mid := (left + right) / 2;
      if arr[mid] == target then Some(mid)
      else if arr[mid] > target then BinarySearchBetween(arr, target, left, mid - 1)
      else BinarySearchBetween(arr, target, mid + 1, right)
  }

  /** The call with the default bounds: left = 0 and right = len(arr) - 1. */
  function BinarySearchRecursive(arr: seq<int>, target: int): (r: Option<nat>)
    ensures r.Some? ==> r.value < |arr| && arr[r.value] == target
    ensures Sorted(arr) ==> (r.None? <==> target !in arr)
  {
    BinarySearchBetween(arr, target, 0, |arr| - 1)
  }

  /** Same midpoint rule as the recursive version, hence the same answer. */
  method BinarySearchIterative(arr: seq<int>, target: int) returns (r: Option<nat>)
    ensures r == BinarySearchRecursive(arr, target)
  {
    var left, right := 0, |arr| - 1;
    while left <= right
      invariant 0 <= left && right < |arr|
      invariant BinarySearchBetween(arr, target, left, right) == BinarySearchRecursive(arr, target)
      decreases right - left
    {
      var mid := (left + right) / 2;
      if arr[mid] == target {
        return Some(mid);
      } else if arr[mid] > target {
        right := mid - 1;
      } else {
        left := mid + 1;
      }
    }
    return None;
  }

  // ---------------------------------------------------------------------- GCD

  predicate DividesWith(d: int, x: int, k: int) { x == d * k }

  /** d divides x. */
  ghost predicate Divides(d: int, x: int) { exists k :: DividesWith(d, x, k) }

  /** g is the non-negative greatest common divisor of a and b. */
  ghost predicate IsGcd(g: int, a: int, b: int) {
    && g >= 0 && Divides(g, a) && Divides(g, b)
    && forall d :: Divides(d, a) && Divides(d, b) ==> Divides(d, g)
  }

  /** |a| when b is 0, otherwise gcd(b, a % b) with Python's remainder. */
  function GcdRecursive(a: int, b: int): (r: nat)
    ensures IsGcd(r, a, b)
    decreases Abs(b)
  {
    if b == 0 then
      AbsIsGcd(a);
      Abs(a)
    else
      var g := GcdRecursive(b, PyMod(a, b));
      EuclidStep(g, a, b);
      g
  }

  lemma AbsIsGcd(a: int)
    ensures IsGcd(Abs(a), a, 0)
  {
    assert DividesWith(Abs(a), a, if a < 0 then -1 else 1);
    assert DividesWith(Abs(a), 0, 0);
    forall d | Divides(d, a) && Divides(d, 0) ensures Divides(d, Abs(a)) {
      var k :| DividesWith(d, a, k);
      assert DividesWith(d, Abs(a), if a < 0 then -k else k);
    }
  }

  /** a and b have the same common divisors as b and a % b. */
  lemma EuclidStep(g: int, a: int, b: int)
    requires b != 0 && IsGcd(g, b, PyMod(a, b))
    ensures IsGcd(g, a, b)
  {
    var q, m := FloorDiv(a, b), PyMod(a, b);
    assert a == m + b * q;
    DividesCombination(g, b, m, q);
    forall d | Divides(d, a) && Divides(d, b) ensures Divides(d, g) {
      DividesCombination(d, b, a, q);
    }
  }

  /** A common divisor of x and y divides y plus or minus any multiple of x. */
  lemma DividesCombination(d: int, x: int, y: int, q: int)
    requires Divides(d, x) && Divides(d, y)
    ensures Divides(d, y + x * q) && Divides(d, y - x * q)
  {
    var kx :| DividesWith(d, x, kx);
    var ky :| DividesWith(d, y, ky);
    assert x * q == d * (kx * q) by {
      assert x * q == (d * kx) * q;
    }
    assert DividesWith(d, y + x * q, ky + kx * q);
    assert DividesWith(d, y - x * q, ky - kx * q);
  }

  /** Two non-negative greatest common divisors of the same pair are equal. */
  lemma GcdUnique(g1: int, g2: int, a: int, b: int)
    requires IsGcd(g1, a, b) && IsGcd(g2, a, b)
    ensures g1 == g2
  {
    var k :| DividesWith(g2, g1, k);
    var m :| DividesWith(g1, g2, m);
    if g1 > 0 && g2 > 0 {
      assert k >= 1 && m >= 1;
      MulAtLeast(g2, k);
      MulAtLeast(g1, m);
    }
  }

  /** Python's `abs` on both arguments first, then the remainder loop. */
  method GcdIterative(a: int, b: int) returns (r: nat)
    ensures r == GcdRecursive(a, b)
  {
    var x: int, y: int := Abs(a), Abs(b);
    while y != 0
      invariant x >= 0 && y >= 0
      invariant GcdRecursive(x, y) == GcdRecursive(Abs(a), Abs(b))
      decreases y
    {
      x, y := y, PyMod(x, y);
    }
    r := x;
    GcdOfAbs(a, b);
  }

  lemma GcdOfAbs(a: int, b: int)
    ensures GcdRecursive(Abs(a), Abs(b)) == GcdRecursive(a, b)
  {
    var g := GcdRecursive(a, b);
    DividesAbs(g, a);
    DividesAbs(g, b);
    forall d | Divides(d, Abs(a)) && Divides(d, Abs(b)) ensures Divides(d, g) {
      DividesAbs(d, a);
      DividesAbs(d, b);
    }
    GcdUnique(g, GcdRecursive(Abs(a), Abs(b)), Abs(a), Abs(b));
  }

  /** The divisors of x are those of |x|. */
  lemma DividesAbs(d: int, x: int)
    ensures Divides(d, x) <==> Divides(d, Abs(x))
  {
    if k :| DividesWith(d, x, k) {
      assert DividesWith(d, Abs(x), if x < 0 then -k else k);
    }
    if k :| DividesWith(d, Abs(x), k) {
      assert DividesWith(d, x, if x < 0 then -k else k);
    }
  }
}
