/**
 * The three string hash functions of lab05. Python integers do not overflow,
 * so the running values are unbounded here too; `%` is Python's remainder,
 * which takes the sign of the table size.
 */
module HashFunctions {
  import opened Common

  /** Python's `ord`: the code point of a character. */
  function Ord(c: char): nat { c as nat }

  /** The sum of the character codes of `key`. */
  function CodeSum(key: string): (total: nat) {
    if key == [] then 0 else Ord(key[0]) + CodeSum(key[1..])
  }

  /** The code sum reduced modulo the table size; ZeroDivisionError for size 0. */
  function SimpleHash(key: string, tableSize: int): (r: Result<int>)
    ensures r.Err? <==> tableSize == 0
    ensures r.Err? ==> r.error == ZeroDivisionError
    ensures r.Ok? && tableSize > 0 ==> 0 <= r.value < tableSize
    ensures r.Ok? && tableSize < 0 ==> tableSize < r.value <= 0
  {
    if tableSize == 0 then Err(ZeroDivisionError) else Ok(PyMod(CodeSum(key), tableSize))
  }

  /** Removing one character from a key lowers its code sum by that character's code. */
  lemma {:induction false} CodeSumRemove(s: string, i: int)
    requires 0 <= i < |s|
    ensures CodeSum(s) == Ord(s[i]) + CodeSum(s[..i] + s[i + 1..])
  {
    if i > 0 {
      CodeSumRemove(s[1..], i - 1);
      assert s[1..][..i - 1] + s[1..][i..] == (s[..i] + s[i + 1..])[1..];
    } else {
      assert s[..i] + s[i + 1..] == s[1..];
    }
  }

  /** The code sum only depends on which characters occur, not on their order. */
  lemma {:induction false} CodeSumPermutation(a: string, b: string)
    requires multiset(a) == multiset(b)
    ensures CodeSum(a) == CodeSum(b)
    decreases |a|
  {
    if a != [] {
      assert a[0] in multiset(b);
      var i :| 0 <= i < |b| && b[i] == a[0];
      var rest := b[..i] + b[i + 1..];
      MultisetRemove(b, i);
      MultisetTail(a);
      CodeSumPermutation(a[1..], rest);
      CodeSumRemove(b, i);
    } else {
      assert |b| == |multiset(b)| == 0;
    }
  }

  lemma MultisetRemove(s: string, i: int)
    requires 0 <= i < |s|
    ensures multiset(s[..i] + s[i + 1..]) == multiset(s) - multiset{s[i]}
  {
    assert s == s[..i] + [s[i]] + s[i + 1..];
  }

  lemma MultisetTail(s: string)
    requires s != []
    ensures multiset(s[1..]) == multiset(s) - multiset{s[0]}
  {
    assert s == [s[0]] + s[1..];
  }

  /** Anagrams always collide under the simple hash. */
  lemma AnagramsCollide(a: string, b: string, tableSize: int)
    requires multiset(a) == multiset(b)
    ensures SimpleHash(a, tableSize) == SimpleHash(b, tableSize)
  {
    CodeSumPermutation(a, b);
  }

  /** The polynomial value of `key` in `base`, most significant character first. */
  function Horner(key: string, base: int): (v: int) {
    if key == [] then 0 else Horner(key[..|key| - 1], base) * base + Ord(key[|key| - 1])
  }

  /**
   * Reduces modulo the table size after every character; the result is the
   * full polynomial value reduced once. A table size of 0 raises
   * ZeroDivisionError at the first character, so the empty key still gives 0.
   */
  method PolynomialHash(key: string, tableSize: int, base: int := 31) returns (r: Result<int>)
    ensures tableSize != 0 ==> r == Ok(PyMod(Horner(key, base), tableSize))
    ensures tableSize == 0 && key == [] ==> r == Ok(0)
    ensures tableSize == 0 && key != [] ==> r == Err(ZeroDivisionError)
  {
    var hashValue := 0;
    for i := 0 to |key|
      invariant tableSize == 0 ==> i == 0 && hashValue == 0
      invariant tableSize != 0 ==> hashValue == PyMod(Horner(key[..i], base), tableSize)
    {
      if tableSize == 0 {
        return Err(ZeroDivisionError);
      }
      assert key[..i + 1][..i] == key[..i];
      var h := Horner(key[..i], base);
      ReduceStep(h, base, Ord(key[i]), tableSize);
      hashValue := PyMod(hashValue * base + Ord(key[i]), tableSize);
    }
    assert key[..|key|] == key;
    r := Ok(hashValue);
  }

  /** Reducing the running value first does not change the next remainder. */
  lemma ReduceStep(h: int, base: int, c: int, m: int)
    requires m != 0
    ensures PyMod(PyMod(h, m) * base + c, m) == PyMod(h * base + c, m)
  {
    var q := FloorDiv(h, m);
    assert h * base + c == (PyMod(h, m) * base + c) + m * (q * base);
    PyModShift(PyMod(h, m) * base + c, m, q * base);
  }

  /** The unreduced DJB2 value: start at 5381 and map h to 33 * h + ord(c). */
  function Djb2Value(key: string): int {
    if key == [] then 5381 else Djb2Value(key[..|key| - 1]) * 33 + Ord(key[|key| - 1])
  }

  function Power(b: int, e: nat): int {
    if e == 0 then 1 else Power(b, e - 1) * b
  }

  /** DJB2 is the polynomial hash in base 33 offset by 5381 * 33^len. */
  lemma {:induction false} Djb2IsPolynomial(key: string)
    ensures Djb2Value(key) == 5381 * Power(33, |key|) + Horner(key, 33)
  {
    if key != [] {
      Djb2IsPolynomial(key[..|key| - 1]);
    }
  }

  /**
   * `(h << 5) + h + ord(c)` on unbounded integers, then one reduction at the
   * end, which raises ZeroDivisionError for table size 0.
   */
  method Djb2Hash(key: string, tableSize: int) returns (r: Result<int>)
    ensures r.Err? <==> tableSize == 0
    ensures r.Err? ==> r.error == ZeroDivisionError
    ensures r.Ok? ==> r.value == PyMod(Djb2Value(key), tableSize)
    ensures r.Ok? && tableSize > 0 ==> 0 <= r.value < tableSize
  {
    var hashValue := 5381;
    for i := 0 to |key|
      invariant hashValue == Djb2Value(key[..i])
    {
      assert key[..i + 1][..i] == key[..i];
      hashValue := (hashValue * 32 + hashValue) + Ord(key[i]);
    }
    assert key[..|key|] == key;
    if tableSize == 0 {
      return Err(ZeroDivisionError);
    }
    r := Ok(PyMod(hashValue, tableSize));
  }
}
