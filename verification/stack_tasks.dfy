/**
 * The lab02 exercises built on a stack and a deque: the bracket balance
 * checker and the two-ended palindrome check.
 */
module StackTasks {
  import opened Common

  predicate IsOpener(c: char) { c == '(' || c == '[' || c == '{' }

  predicate IsCloser(c: char) { c == ')' || c == ']' || c == '}' }

  /** The opener a closer must match. */
  function Partner(c: char): char
    requires IsCloser(c)
  {
    if c == ')' then '(' else if c == ']' then '[' else '{'
  }

  predicate IsBracket(c: char) { IsOpener(c) || IsCloser(c) }

  /** The bracket characters of `s`, in order. */
  function Brackets(s: string): (r: string)
    ensures forall i :: 0 <= i < |r| ==> IsBracket(r[i])
  {
    if s == [] then []
    else if IsBracket(s[0]) then [s[0]] + Brackets(s[1..])
    else Brackets(s[1..])
  }

  /**
   * Properly nested brackets: empty, or an opener, a nested balanced string,
   * the matching closer, and a balanced rest.
   */
  ghost predicate Balanced(t: string)
    decreases |t|, 1
  {
    t == [] || exists k :: SplitsAt(t, k)
  }

  /** `t[0]` and `t[k]` are a matching pair around a balanced string, followed by a balanced rest. */
  ghost predicate SplitsAt(t: string, k: int)
    decreases |t|, 0
  {
    && 1 <= k < |t| && IsOpener(t[0]) && IsCloser(t[k]) && Partner(t[k]) == t[0]
    && Balanced(t[1..k]) && Balanced(t[k + 1..])
  }

  /** One character's effect on the stack; `None` when the checker returns False. */
  function Step(stack: string, c: char): Option<string> {
    if IsOpener(c) then Some(stack + [c])
    else if IsCloser(c) then
      if stack == [] || stack[|stack| - 1] != Partner(c) then None
      else Some(stack[..|stack| - 1])
    else Some(stack)
  }

  /** The stack after scanning all of `s`, or `None` if the scan stops early. */
  function Run(s: string, stack: string): Option<string> {
    if s == [] then Some(stack)
    else match Step(stack, s[0])
      case None => None
      case Some(next) => Run(s[1..], next)
  }

  method CheckBrackets(expression: string) returns (r: bool)
    ensures r <==> Balanced(Brackets(expression))
  {
    var stack: string := [];
    var i := 0;
    while i < |expression|
      invariant 0 <= i <= |expression|
      invariant Run(expression, []) == Run(expression[i..], stack)
    {
      var c := expression[i];
      if IsOpener(c) {
        stack := stack + [c];
      } else if IsCloser(c) {
        if stack == [] || stack[|stack| - 1] != Partner(c) {
          assert expression[i..][0] == c;
          CheckerIsBalance(expression);
          return false;
        }
        stack := stack[..|stack| - 1];
      }
      i := i + 1;
    }
    r := stack == [];
    CheckerIsBalance(expression);
  }

  /** The checker accepts exactly the strings whose brackets are balanced. */
  lemma CheckerIsBalance(s: string)
    ensures Run(s, []) == Some([]) <==> Balanced(Brackets(s))
  {
    RunIgnoresOthers(s, []);
    if Balanced(Brackets(s)) {
      BalancedRuns(Brackets(s), []);
    }
    if Run(Brackets(s), []) == Some([]) {
      RunReachesPartial(Brackets(s), []);
    }
  }

  lemma {:induction false} RunIgnoresOthers(s: string, stack: string)
    ensures Run(s, stack) == Run(Brackets(s), stack)
  {
    if s != [] {
      if IsBracket(s[0]) {
        assert Brackets(s) == [s[0]] + Brackets(s[1..]);
        assert ([s[0]] + Brackets(s[1..]))[1..] == Brackets(s[1..]);
        match Step(stack, s[0])
        case None =>
        case Some(next) => RunIgnoresOthers(s[1..], next);
      } else {
        RunIgnoresOthers(s[1..], stack);
      }
    }
  }

  lemma {:induction false} RunAppend(x: string, y: string, stack: string)
    ensures Run(x + y, stack) == match Run(x, stack) case None => None case Some(st) => Run(y, st)
  {
    if x == [] {
      assert x + y == y;
    } else {
      assert (x + y)[0] == x[0] && (x + y)[1..] == x[1..] + y;
      match Step(stack, x[0])
      case None =>
      case Some(next) => RunAppend(x[1..], y, next);
    }
  }

  /** A balanced string leaves any stack as it found it. */
  lemma {:induction false} BalancedRuns(t: string, stack: string)
    requires Balanced(t)
    ensures Run(t, stack) == Some(stack)
    decreases |t|
  {
    if t != [] {
      var k :| SplitsAt(t, k);
      var inner, rest := t[1..k], t[k + 1..];
      assert t[1..] == inner + ([t[k]] + rest);
      BalancedRuns(inner, stack + [t[0]]);
      RunAppend(inner, [t[k]] + rest, stack + [t[0]]);
      assert ([t[k]] + rest)[1..] == rest;
      assert (stack + [t[0]])[..|stack|] == stack;
      BalancedRuns(rest, stack);
    }
  }

  lemma {:induction false} BalancedConcat(x: string, y: string)
    requires Balanced(x) && Balanced(y)
    ensures Balanced(x + y)
    decreases |x|
  {
    if x == [] {
      assert x + y == y;
    } else {
      var k :| SplitsAt(x, k);
      BalancedConcat(x[k + 1..], y);
      var xy := x + y;
      assert xy[1..k] == x[1..k] && xy[k + 1..] == x[k + 1..] + y;
      assert xy[0] == x[0] && xy[k] == x[k];
      assert SplitsAt(xy, k);
    }
  }

  /**
   * `t` is a balanced string with the openers of `stack` left unmatched
   * inside it, in order.
   */
  ghost predicate Partial(t: string, stack: string)
    decreases |stack|, 1
  {
    if stack == [] then Balanced(t) else exists k :: OpenAt(t, stack, k)
  }

  /** The last unmatched opener of `stack` sits at `t[k]`. */
  ghost predicate OpenAt(t: string, stack: string, k: int)
    decreases |stack|, 0
  {
    && stack != [] && 0 <= k < |t| && t[k] == stack[|stack| - 1]
    && Partial(t[..k], stack[..|stack| - 1]) && Balanced(t[k + 1..])
  }

  lemma {:induction false} PartialExtend(a: string, stack: string, d: string)
    requires Partial(a, stack) && Balanced(d)
    ensures Partial(a + d, stack)
  {
    if stack == [] {
      BalancedConcat(a, d);
    } else {
      var k :| OpenAt(a, stack, k);
      BalancedConcat(a[k + 1..], d);
      var ad := a + d;
      assert ad[k] == a[k] && ad[..k] == a[..k] && ad[k + 1..] == a[k + 1..] + d;
      assert OpenAt(ad, stack, k);
    }
  }

  lemma {:induction false} RunReachesPartial(t: string, stack: string)
    requires forall i :: 0 <= i < |t| ==> IsBracket(t[i])
    requires Run(t, []) == Some(stack)
    ensures Partial(t, stack)
    decreases |t|
  {
    if t == [] {
      assert Balanced(t);
    } else {
      var prefix, c := t[..|t| - 1], t[|t| - 1];
      assert t == prefix + [c];
      RunAppend(prefix, [c], []);
      var before := Run(prefix, []);
      assert before.Some?;
      RunReachesPartial(prefix, before.value);
      assert Run([c], before.value) == Step(before.value, c);
      if IsOpener(c) {
        PushOpener(prefix, before.value, c);
      } else {
        PopCloser(prefix, before.value, c);
      }
    }
  }

  /** Reading an opener pushes it, and it is the last unmatched one. */
  lemma PushOpener(prefix: string, st: string, c: char)
    requires IsOpener(c) && Partial(prefix, st)
    ensures Partial(prefix + [c], st + [c])
  {
    var t, stack := prefix + [c], st + [c];
    assert t[..|prefix|] == prefix && t[|prefix| + 1..] == [];
    assert stack[..|stack| - 1] == st;
    assert Balanced(t[|prefix| + 1..]);
    assert OpenAt(t, stack, |prefix|);
  }

  /** Reading the partner of the last unmatched opener closes it. */
  lemma PopCloser(prefix: string, st: string, c: char)
    requires IsCloser(c) && st != [] && st[|st| - 1] == Partner(c) && Partial(prefix, st)
    ensures Partial(prefix + [c], st[..|st| - 1])
  {
    var k :| OpenAt(prefix, st, k);
    var d := [prefix[k]] + prefix[k + 1..] + [c];
    assert d[1..|d| - 1] == prefix[k + 1..] && d[|d|..] == [];
    assert Balanced(d[|d|..]);
    assert SplitsAt(d, |d| - 1);
    PartialExtend(prefix[..k], st[..|st| - 1], d);
    assert prefix[..k] + d == prefix + [c];
  }

  /** Pops one character from each end of a deque until at most one is left. */
  method IsPalindromeDeque(sequence: string) returns (r: bool)
    ensures r <==> sequence == Reverse(sequence)
  {
    var n := |sequence|;
    var dq := sequence;
    var i := 0;
    while |dq| > 1
      invariant 0 <= i && 2 * i <= n
      invariant dq == sequence[i..n - i]
      invariant forall k :: 0 <= k < i ==> sequence[k] == sequence[n - 1 - k]
      decreases |dq|
    {
      var left, right := dq[0], dq[|dq| - 1];
      assert left == sequence[i] && right == sequence[n - 1 - i];
      InnerSlice(sequence, i, n - i);
      dq := dq[1..|dq| - 1];
      if left != right {
        PalindromeIffReverse(sequence);
        return false;
      }
      i := i + 1;
    }
    PalindromeIffReverse(sequence);
    return true;
  }

  /** Dropping both ends of a slice narrows it by one on each side. */
  lemma InnerSlice(s: string, lo: int, hi: int)
    requires 0 <= lo && lo + 2 <= hi <= |s|
    ensures s[lo..hi][1..hi - lo - 1] == s[lo + 1..hi - 1]
  {
    var inner := s[lo..hi][1..hi - lo - 1];
    assert |inner| == hi - lo - 2;
    forall k | 0 <= k < |inner| ensures inner[k] == s[lo + 1 + k] {
      assert inner[k] == s[lo..hi][k + 1];
    }
  }
}
