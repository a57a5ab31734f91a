/**
 * Rabin-Karp search (lab 11): compare the hash of every window of the
 * text with the hash of the pattern, and the characters only when the
 * hashes agree. Hashes are Horner values in `base` reduced modulo
 * `prime`; the window hash is rolled from one position to the next.
 */
module RabinKarp {
  import opened Common
  import opened HashFunctions
  import opened Occurrences

  /** base raised to the power e. */
  function Pow(base: int, e: nat): int {
    if e == 0 then 1 else Pow(base, e - 1) * base
  }

  /** Reducing twice is reducing once. */
  lemma PyModTwice(a: int, prime: int)
    requires prime > 0
    ensures PyMod(PyMod(a, prime), prime) == PyMod(a, prime)
  {
    PyModUnique(PyMod(a, prime), prime, 0, PyMod(a, prime));
  }

  /**
   * The first loop: h starts at 1 and is multiplied by base modulo prime
   * m - 1 times, so it is base^(m - 1) modulo prime; it stays 1 when m <= 1.
   */
  method HashPower(base: int, m: int, prime: int) returns (h: int)
    requires prime > 0
    ensures m <= 1 ==> h == 1
    ensures m >= 2 ==> h == PyMod(Pow(base, m - 1), prime)
    ensures m >= 1 ==> PyMod(h, prime) == PyMod(Pow(base, m - 1), prime)
  {
    h := 1;
    var k := 0;
    while k < m - 1
      invariant 0 <= k && (m >= 1 ==> k <= m - 1) && (m < 1 ==> k == 0)
      invariant k == 0 ==> h == 1
      invariant k >= 1 ==> h == PyMod(Pow(base, k), prime)
    {
      if k >= 1 {
        ReduceStep(Pow(base, k), base, 0, prime);
      }
      h := PyMod(h * base, prime);
      k := k + 1;
    }
    if m >= 2 {
      PyModTwice(Pow(base, m - 1), prime);
    }
  }

  /** The second loop: the hashes of the pattern and of the first |pattern| characters of the text. */
  method InitialHashes(text: string, pattern: string, base: int, prime: int) returns (patternHash: int, textHash: int)
    requires prime > 0 && |pattern| <= |text|
    ensures patternHash == PyMod(Horner(pattern, base), prime)
    ensures textHash == PyMod(Horner(text[..|pattern|], base), prime)
  {
    patternHash, textHash := 0, 0;
    PyModUnique(0, prime, 0, 0);
    for i := 0 to |pattern|
      invariant patternHash == PyMod(Horner(pattern[..i], base), prime)
      invariant textHash == PyMod(Horner(text[..i], base), prime)
    {
      assert pattern[..i + 1][..i] == pattern[..i];
      assert text[..i + 1][..i] == text[..i];
      ReduceStep(Horner(pattern[..i], base), base, Ord(pattern[i]), prime);
      ReduceStep(Horner(text[..i], base), base, Ord(text[i]), prime);
      patternHash := PyMod(base * patternHash + Ord(pattern[i]), prime);
      textHash := PyMod(base * textHash + Ord(text[i]), prime);
    }
    assert pattern[..|pattern|] == pattern;
  }

  /** Horner's value with its leading character split off. */
  lemma {:induction false} HornerFront(w: string, base: int)
    requires |w| >= 1
    ensures Horner(w, base) == Ord(w[0]) * Pow(base, |w| - 1) + Horner(w[1..], base)
    decreases |w|
  {
    if |w| == 1 {
      assert w[..0] == [] && w[1..] == [];
    } else {
      var u := w[..|w| - 1];
      HornerFront(u, base);
      assert u[0] == w[0] && u[1..] == w[1..][..|w| - 2];
      var a, p, r := Ord(w[0]), Pow(base, |w| - 2), Horner(u[1..], base);
      assert Horner(w, base) == (a * p + r) * base + Ord(w[|w| - 1]);
      assert (a * p + r) * base == a * (p * base) + r * base;
    }
  }

  /** Sliding the window one place: drop the leading character's term, shift, and add the new character. */
  lemma Roll(text: string, i: int, m: int, base: int)
    requires 1 <= m && 0 <= i && i + m < |text|
    ensures Horner(text[i + 1..i + m + 1], base) ==
      base * (Horner(text[i..i + m], base) - Ord(text[i]) * Pow(base, m - 1)) + Ord(text[i + m])
  {
    var w := text[i..i + m];
    HornerFront(w, base);
    var v := text[i + 1..i + m + 1];
    assert v[..m - 1] == w[1..] && v[m - 1] == text[i + m];
  }

  /** The update computed on reduced values agrees, modulo prime, with the update on exact values. */
  lemma RollMod(x: int, hx: int, o: int, h: int, pw: int, c: int, base: int, prime: int)
    requires prime > 0 && hx == PyMod(x, prime) && PyMod(h, prime) == PyMod(pw, prime)
    ensures PyMod(base * (hx - o * h) + c, prime) == PyMod(base * (x - o * pw) + c, prime)
  {
    var qx, qh, qp := FloorDiv(x, prime), FloorDiv(h, prime), FloorDiv(pw, prime);
    assert hx == x - prime * qx;
    assert h == pw + prime * (qh - qp);
    var k := base * (o * (qp - qh) - qx);
    assert base * (hx - o * h) == base * (x - o * pw) + prime * k;
    PyModShift(base * (x - o * pw) + c, prime, k);
  }

  /** Comparing the slice is comparing position by position. */
  lemma SliceMatch(text: string, pattern: string, i: int)
    requires 0 <= i && i + |pattern| <= |text|
    ensures text[i..i + |pattern|] == pattern <==> MatchAt(text, pattern, i)
  {
    if MatchAt(text, pattern, i) {
      assert forall t :: 0 <= t < |pattern| ==> text[i..i + |pattern|][t] == pattern[t];
    }
  }

  /**
   * What the sliding loop has reported before position i: for a non-empty
   * pattern exactly the occurrences below i; for the empty pattern some
   * ascending positions below i, starting with 0 once 0 has been examined.
   */
  predicate Found(text: string, pattern: string, i: int, result: seq<int>) {
    if |pattern| >= 1 then result == MatchesBelow(text, pattern, i)
    else
      Increasing(result) && (forall k :: 0 <= k < |result| ==> 0 <= result[k] < i) &&
      (i >= 1 ==> |result| >= 1 && result[0] == 0)
  }

  /** One more position examined: report it when `hit`, which must hold only at an occurrence and at every occurrence the hashes can see. */
  lemma FoundStep(text: string, pattern: string, i: int, result: seq<int>, hit: bool)
    requires 0 <= i && Found(text, pattern, i, result)
    requires hit ==> MatchAt(text, pattern, i)
    requires (|pattern| >= 1 || i == 0) && MatchAt(text, pattern, i) ==> hit
    ensures Found(text, pattern, i + 1, result + (if hit then [i] else []))
  {
  }

  /** Equal windows have equal hashes. */
  lemma HashAgrees(text: string, pattern: string, i: int, patternHash: int, textHash: int, base: int, prime: int)
    requires prime > 0 && 0 <= i && i + |pattern| <= |text| && MatchAt(text, pattern, i)
    requires patternHash == PyMod(Horner(pattern, base), prime)
    requires textHash == PyMod(Horner(text[i..i + |pattern|], base), prime)
    ensures patternHash == textHash
  {
    SliceMatch(text, pattern, i);
  }

  /** Lines 37-40: on equal hashes, compare the characters and report position i if they agree. */
  method Check(text: string, pattern: string, i: int, patternHash: int, textHash: int, result: seq<int>, ghost base: int, ghost prime: int)
    returns (found: seq<int>)
    requires prime > 0 && 0 <= i && i + |pattern| <= |text| && Found(text, pattern, i, result)
    requires patternHash == PyMod(Horner(pattern, base), prime)
    requires |pattern| >= 1 || i == 0 ==> textHash == PyMod(Horner(text[i..i + |pattern|], base), prime)
    ensures Found(text, pattern, i + 1, found)
  {
    SliceMatch(text, pattern, i);
    if (|pattern| >= 1 || i == 0) && MatchAt(text, pattern, i) {
      HashAgrees(text, pattern, i, patternHash, textHash, base, prime);
    }
    var hit := patternHash == textHash && text[i..i + |pattern|] == pattern;
    FoundStep(text, pattern, i, result, hit);
    found := result;
    if patternHash == textHash {
      if text[i..i + |pattern|] == pattern {
        found := found + [i];
      }
    }
  }

  /** Lines 43-48: roll the window hash from position i to i + 1. */
  method Slide(text: string, i: int, m: int, h: int, textHash: int, base: int, prime: int) returns (next: int)
    requires prime > 0 && 0 <= m && 0 <= i && i + m < |text|
    requires m >= 1 ==> PyMod(h, prime) == PyMod(Pow(base, m - 1), prime)
    requires m >= 1 ==> textHash == PyMod(Horner(text[i..i + m], base), prime)
    ensures m >= 1 ==> next == PyMod(Horner(text[i + 1..i + m + 1], base), prime)
  {
    if m >= 1 {
      Roll(text, i, m, base);
      RollMod(Horner(text[i..i + m], base), textHash, Ord(text[i]), h, Pow(base, m - 1), Ord(text[i + m]), base, prime);
    }
    next := PyMod(base * (textHash - Ord(text[i]) * h) + Ord(text[i + m]), prime);
    if next < 0 {
      next := next + prime;
    }
  }

  /** Once every window has been examined, Found says what the search promises. */
  lemma FoundAll(text: string, pattern: string, result: seq<int>)
    requires |pattern| <= |text| && Found(text, pattern, |text| - |pattern| + 1, result)
    ensures Increasing(result) && forall p :: p in result ==> MatchAt(text, pattern, p)
    ensures |pattern| >= 1 ==> result == Matches(text, pattern)
    ensures |pattern| == 0 ==> |result| >= 1 && result[0] == 0
  {
    if |pattern| == 0 {
      forall p | p in result
        ensures MatchAt(text, pattern, p)
      {
        var k :| 0 <= k < |result| && result[k] == p;
      }
    } else {
      MatchesBelowSpec(text, pattern, |text| - |pattern| + 1);
    }
  }

  /** The hash the loop keeps for the window at position i: known only while a window there exists and either the pattern is non-empty or i is 0. */
  predicate WindowHash(text: string, m: int, i: int, textHash: int, base: int, prime: int)
    requires prime > 0 && 0 <= m <= |text| && 0 <= i
  {
    (m >= 1 || i == 0) && i <= |text| - m ==> textHash == PyMod(Horner(text[i..i + m], base), prime)
  }

  /** The state of the sliding loop at position i. */
  predicate Inv(text: string, pattern: string, i: int, textHash: int, result: seq<int>, base: int, prime: int)
    requires prime > 0 && 0 <= |pattern| <= |text| && 0 <= i
  {
    WindowHash(text, |pattern|, i, textHash, base, prime) && Found(text, pattern, i, result)
  }

  /** One iteration of the search loop: check position i, then roll the window hash to i + 1 when a window remains there. */
  method ScanStep(text: string, pattern: string, i: int, h: int, patternHash: int, textHash: int, result: seq<int>, base: int, prime: int)
    returns (found: seq<int>, next: int)
    requires prime > 0 && 0 <= i <= |text| - |pattern|
    requires |pattern| >= 1 ==> PyMod(h, prime) == PyMod(Pow(base, |pattern| - 1), prime)
    requires patternHash == PyMod(Horner(pattern, base), prime)
    requires Inv(text, pattern, i, textHash, result, base, prime)
    ensures Inv(text, pattern, i + 1, next, found, base, prime)
  {
    found := Check(text, pattern, i, patternHash, textHash, result, base, prime);
    next := textHash;
    if i < |text| - |pattern| {
      next := Slide(text, i, |pattern|, h, textHash, base, prime);
    }
  }

  /** Lines 35-48: slide the window over the text, checking and rolling. */
  method Scan(text: string, pattern: string, h: int, patternHash: int, textHash0: int, base: int, prime: int)
    returns (result: seq<int>)
    requires prime > 0 && |pattern| <= |text|
    requires |pattern| >= 1 ==> PyMod(h, prime) == PyMod(Pow(base, |pattern| - 1), prime)
    requires patternHash == PyMod(Horner(pattern, base), prime)
    requires textHash0 == PyMod(Horner(text[..|pattern|], base), prime)
    ensures Found(text, pattern, |text| - |pattern| + 1, result)
  {
    result := [];
    var textHash := textHash0;
    assert text[0..|pattern|] == text[..|pattern|];
    for i := 0 to |text| - |pattern| + 1
      invariant Inv(text, pattern, i, textHash, result, base, prime)
    {
      result, textHash := ScanStep(text, pattern, i, h, patternHash, textHash, result, base, prime);
    }
  }

  /**
   * `rabin_karp_search` as written. A pattern longer than the text gives
   * []; every reported position is an occurrence; for a non-empty pattern
   * every occurrence is reported, in ascending order. There is no guard for
   * the empty pattern: position 0 is then always reported.
   */
  method RabinKarpSearch(text: string, pattern: string, base: int := 256, prime: int := 101) returns (result: seq<int>)
    requires prime > 0
    ensures |text| < |pattern| ==> result == []
    ensures Increasing(result) && forall p :: p in result ==> MatchAt(text, pattern, p)
    ensures |pattern| >= 1 ==> result == Matches(text, pattern)
    ensures |pattern| == 0 ==> |result| >= 1 && result[0] == 0
  {
    if |text| < |pattern| {
      return [];
    }
    var h := HashPower(base, |pattern|, prime);
    var patternHash, textHash := InitialHashes(text, pattern, base, prime);
    result := Scan(text, pattern, h, patternHash, textHash, base, prime);
    FoundAll(text, pattern, result);
  }

  /**
   * The search with the guard the other two searches have: an empty
   * pattern gives []. For every text and pattern the result is the
   * ascending list of all occurrences.
   */
  method RabinKarpGuarded(text: string, pattern: string, base: int := 256, prime: int := 101) returns (result: seq<int>)
    requires prime > 0
    ensures result == Matches(text, pattern)
  {
    if |pattern| == 0 {
      return [];
    }
    result := RabinKarpSearch(text, pattern, base, prime);
  }
}
