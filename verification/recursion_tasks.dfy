/**
 * The lab03 recursion exercises: the Towers of Hanoi and the recursive and
 * iterative case-insensitive palindrome checks. (The tree folds of the same
 * file are in module BinaryTree.)
 */
module RecursionTasks {
  import opened Common

  // ------------------------------------------------------------------- Hanoi

  /** One move of the puzzle: which disk, from which peg, to which peg. */
  datatype Move = Move(disk: nat, from: string, to: string)

  /**
   * The moves of the recursive solution for n >= 1 disks: n-1 disks to the
   * spare peg, disk n to the target, n-1 disks on top of it. Disk n moves
   * exactly once, in the middle; every other move is of a smaller disk.
   */
  function HanoiMoves(n: nat, src: string, dest: string, aux: string): seq<Move>
    requires n >= 1
  {
    if n == 1 then [Move(1, src, dest)]
    else HanoiMoves(n - 1, src, aux, dest) + [Move(n, src, dest)] + HanoiMoves(n - 1, aux, dest, src)
  }

  /** There are 2^n - 1 moves, and the middle one carries disk n from src to dest. */
  lemma {:induction false} HanoiLength(n: nat, src: string, dest: string, aux: string)
    requires n >= 1
    ensures var r := HanoiMoves(n, src, dest, aux);
      |r| == Pow2(n) - 1 && r[|r| / 2] == Move(n, src, dest)
  {
    if n > 1 {
      HanoiLength(n - 1, src, aux, dest);
      HanoiLength(n - 1, aux, dest, src);
      var a := HanoiMoves(n - 1, src, aux, dest);
      var r := HanoiMoves(n, src, dest, aux);
      assert Pow2(n) == 2 * Pow2(n - 1);
      assert |r| == 2 * |a| + 1;
      assert r[|a|] == Move(n, src, dest);
    }
  }

  /** Every move is of a disk 1..n, and no move but the middle one touches disk n. */
  lemma {:induction false} HanoiDisks(n: nat, src: string, dest: string, aux: string)
    requires n >= 1
    ensures var r := HanoiMoves(n, src, dest, aux);
      && (forall i :: 0 <= i < |r| ==> 1 <= r[i].disk <= n)
      && (forall i :: 0 <= i < |r| && i != |r| / 2 ==> r[i].disk < n)
  {
    if n > 1 {
      HanoiDisks(n - 1, src, aux, dest);
      HanoiDisks(n - 1, aux, dest, src);
      HanoiLength(n - 1, src, aux, dest);
      HanoiLength(n - 1, aux, dest, src);
      var a, b := HanoiMoves(n - 1, src, aux, dest), HanoiMoves(n - 1, aux, dest, src);
      var r := HanoiMoves(n, src, dest, aux);
      assert r == a + [Move(n, src, dest)] + b;
      assert |r| / 2 == |a| by {
        assert |r| == 2 * |a| + 1;
      }
      assert forall i :: 0 <= i < |a| ==> r[i] == a[i];
      assert forall i :: |a| < i < |r| ==> r[i] == b[i - |a| - 1];
    }
  }

  /** The inner helper, appending its moves to the shared list. */
  method HanoiRecursive(nDisks: int, src: string, dest: string, aux: string, moves: seq<Move>)
    returns (out: seq<Move>)
    requires nDisks >= 1
    ensures out == moves + HanoiMoves(nDisks, src, dest, aux)
    decreases nDisks
  {
    if nDisks == 1 {
      out := moves + [Move(1, src, dest)];
    } else {
      out := HanoiRecursive(nDisks - 1, src, aux, dest, moves);
      out := out + [Move(nDisks, src, dest)];
      out := HanoiRecursive(nDisks - 1, aux, dest, src, out);
      ConcatAssoc(moves, HanoiMoves(nDisks - 1, src, aux, dest), [Move(nDisks, src, dest)], HanoiMoves(nDisks - 1, aux, dest, src));
    }
  }

  /** No moves for n <= 0; otherwise the 2^n - 1 moves of the recursion. */
  method HanoiTowers(n: int, source: string, destination: string, auxiliary: string)
    returns (moves: seq<Move>)
    ensures n <= 0 ==> moves == []
    ensures n >= 1 ==> moves == HanoiMoves(n, source, destination, auxiliary) && |moves| == Pow2(n) - 1
  {
    moves := [];
    if n > 0 {
      moves := HanoiRecursive(n, source, destination, auxiliary, moves);
      HanoiLength(n, source, destination, auxiliary);
    }
  }

  /** Each peg holds its disks from bottom to top. */
  type Pegs = map<string, seq<nat>>

  /** Disks n, n-1, ..., 1 from bottom to top. */
  function Tower(n: nat): seq<nat> {
    if n == 0 then [] else [n] + Tower(n - 1)
  }

  predicate AllAbove(p: seq<nat>, n: nat) {
    forall i :: 0 <= i < |p| ==> p[i] > n
  }

  /**
   * A legal move takes the top disk of `from` and puts it on `to`, which is
   * empty or has a larger disk on top; anything else is `None`.
   */
  function ApplyMove(p: Pegs, m: Move): Option<Pegs> {
    if m.from !in p || m.to !in p || p[m.from] == [] || p[m.from][|p[m.from]| - 1] != m.disk then None
    else if p[m.to] != [] && p[m.to][|p[m.to]| - 1] < m.disk then None
    else
      var lifted := p[m.from := p[m.from][..|p[m.from]| - 1]];
      Some(lifted[m.to := lifted[m.to] + [m.disk]])
  }

  function Play(p: Pegs, moves: seq<Move>): Option<Pegs> {
    if moves == [] then Some(p)
    else match ApplyMove(p, moves[0])
      case None => None
      case Some(q) => Play(q, moves[1..])
  }

  lemma {:induction false} PlayAppend(p: Pegs, x: seq<Move>, y: seq<Move>)
    ensures Play(p, x + y) == match Play(p, x) case None => None case Some(q) => Play(q, y)
  {
    if x == [] {
      assert x + y == y;
    } else {
      assert (x + y)[0] == x[0] && (x + y)[1..] == x[1..] + y;
      match ApplyMove(p, x[0])
      case None =>
      case Some(q) => PlayAppend(q, x[1..], y);
    }
  }

  /**
   * Every move of the solution is legal, and it carries the top n disks of
   * `src` onto `dest`, provided the disks already on the three pegs are all
   * larger than n.
   */
  lemma {:induction false} HanoiIsLegal(n: nat, src: string, dest: string, aux: string, p: Pegs, base: seq<nat>)
    requires n >= 1
    requires src != dest && dest != aux && src != aux
    requires src in p && dest in p && aux in p
    requires p[src] == base + Tower(n)
    requires AllAbove(base, n) && AllAbove(p[dest], n) && AllAbove(p[aux], n)
    ensures Play(p, HanoiMoves(n, src, dest, aux)) == Some(p[src := base][dest := p[dest] + Tower(n)])
  {
    var mid := Move(n, src, dest);
    if n == 1 {
      assert Tower(1) == [1] + Tower(0) == [1];
      assert HanoiMoves(n, src, dest, aux) == [mid];
      assert p[src][..|p[src]| - 1] == base;
      var q := p[src := base][dest := p[dest] + [1]];
      assert ApplyMove(p, mid) == Some(q);
      assert Play(q, []) == Some(q);
    } else {
      var first, second := HanoiMoves(n - 1, src, aux, dest), HanoiMoves(n - 1, aux, dest, src);
      var p1 := p[src := base + [n]][aux := p[aux] + Tower(n - 1)];
      var p2 := p1[src := base][dest := p[dest] + [n]];
      var p3 := p2[aux := p[aux]][dest := p2[dest] + Tower(n - 1)];
      assert Play(p, first) == Some(p1) by {
        assert p[src] == (base + [n]) + Tower(n - 1);
        assert AllAbove(base + [n], n - 1);
        HanoiIsLegal(n - 1, src, aux, dest, p, base + [n]);
      }
      assert ApplyMove(p1, mid) == Some(p2) by {
        MoveLargest(n, src, dest, aux, p, base, p1, p2);
      }
      assert Play(p2, second) == Some(p3) by {
        MoveLargest(n, src, dest, aux, p, base, p1, p2);
        assert AllAbove(p2[dest], n - 1) && AllAbove(p2[src], n - 1);
        HanoiIsLegal(n - 1, aux, dest, src, p2, p[aux]);
      }
      assert HanoiMoves(n, src, dest, aux) == first + [mid] + second;
      PlayThree(p, first, mid, second, p1, p2, p3);
      SameAfterLargest(n, src, dest, aux, p, base, p2, p3);
    }
  }

  lemma SameAfterLargest(n: nat, src: string, dest: string, aux: string, p: Pegs, base: seq<nat>, p2: Pegs, p3: Pegs)
    requires n >= 1
    requires src != dest && dest != aux && src != aux
    requires src in p && dest in p && aux in p
    requires p2 == p[src := base + [n]][aux := p[aux] + Tower(n - 1)][src := base][dest := p[dest] + [n]]
    requires p3 == p2[aux := p[aux]][dest := p2[dest] + Tower(n - 1)]
    ensures p3 == p[src := base][dest := p[dest] + Tower(n)]
  {
    assert p[dest] + [n] + Tower(n - 1) == p[dest] + Tower(n);
  }

  /** The middle move of the solution is legal. */
  lemma MoveLargest(n: nat, src: string, dest: string, aux: string, p: Pegs, base: seq<nat>, p1: Pegs, p2: Pegs)
    requires n >= 1
    requires src != dest && dest != aux && src != aux
    requires src in p && dest in p && aux in p
    requires AllAbove(p[dest], n)
    requires p1 == p[src := base + [n]][aux := p[aux] + Tower(n - 1)]
    requires p2 == p1[src := base][dest := p[dest] + [n]]
    ensures ApplyMove(p1, Move(n, src, dest)) == Some(p2) && p2[aux] == p[aux] + Tower(n - 1)
  {
    assert p1[src][..|p1[src]| - 1] == base;
  }

  lemma PlayThree(p: Pegs, x: seq<Move>, m: Move, y: seq<Move>, p1: Pegs, p2: Pegs, p3: Pegs)
    requires Play(p, x) == Some(p1) && ApplyMove(p1, m) == Some(p2) && Play(p2, y) == Some(p3)
    ensures Play(p, x + [m] + y) == Some(p3)
  {
    PlayAppend(p, x + [m], y);
    PlayAppend(p, x, [m]);
    assert Play(p1, [m]) == Some(p2);
  }

  /** From all disks on `source`, the moves end with all disks on `destination`. */
  lemma HanoiSolves(n: nat, source: string, destination: string, auxiliary: string)
    requires n >= 1
    requires source != destination && destination != auxiliary && source != auxiliary
    ensures Play(map[source := Tower(n), destination := [], auxiliary := []],
                 HanoiMoves(n, source, destination, auxiliary))
            == Some(map[source := [], destination := Tower(n), auxiliary := []])
  {
    var p := map[source := Tower(n), destination := [], auxiliary := []];
    assert p[source] == [] + Tower(n);
    HanoiIsLegal(n, source, destination, auxiliary, p, []);
    assert p[source := []][destination := p[destination] + Tower(n)]
        == map[source := [], destination := Tower(n), auxiliary := []];
  }

  // ------------------------------------------------------------- palindromes

  /** Lower-casing of one character, over the ASCII letters. */
  function Lower(c: char): char {
    if 'A' <= c <= 'Z' then (c as int + 32) as char else c
  }

  function LowerString(s: string): string {
    seq(|s|, i requires 0 <= i < |s| => Lower(s[i]))
  }

  /** Compares the ends of s[left..right], lower-cased, then recurses inward. */
  function PalindromeBetween(s: string, left: int, right: int): (r: bool)
    requires 0 <= left && right < |s|
    ensures r <==> forall k :: left <= k <= right ==> Lower(s[k]) == Lower(s[left + right - k])
    decreases right - left
  {
    if left >= right then true
    else if Lower(s[left]) != Lower(s[right]) then false
    else PalindromeBetween(s, left + 1, right - 1)
  }

  /** The call with the default bounds, left = 0 and right = len(s) - 1. */
  function IsPalindromeRecursive(s: string): (r: bool)
    ensures r <==> IsPalindrome(LowerString(s))
  {
    assert forall k :: 0 <= k < |s| ==> LowerString(s)[k] == Lower(s[k]);
    PalindromeBetween(s, 0, |s| - 1)
  }

  /** Lower-cases the whole string, then closes two indices toward the middle. */
  method IsPalindromeIterative(s: string) returns (r: bool)
    ensures r == IsPalindromeRecursive(s)
  {
    var t := LowerString(s);
    var left, right := 0, |t| - 1;
    while left < right
      invariant 0 <= left && 2 * left <= |t| && right == |t| - 1 - left
      invariant forall k :: 0 <= k < left ==> t[k] == t[|t| - 1 - k]
    {
      if t[left] != t[right] {
        return false;
      }
      left, right := left + 1, right - 1;
    }
    assert IsPalindrome(t);
    return true;
  }
}
