/**
 * Huffman coding from lab08 (the same algorithm appears in the greedy
 * algorithms file and in the visualisation script): leaves for every symbol
 * go on a min-heap keyed by frequency, the two least frequent trees are
 * merged until one is left, and the code of a symbol is its path from the
 * root, '0' for a left and '1' for a right step.
 */
module Huffman {
  import opened Common

  /** A HuffmanNode: a leaf carries its symbol; a merged node has two children and no symbol. */
  datatype HTree = Leaf(symbol: string, freq: int) | Node(freq: int, left: HTree, right: HTree)

  /** A heap entry (freq, node). */
  type Entry = (int, HTree)

  /** The symbols at the leaves, left to right. */
  function Leaves(t: HTree): (r: seq<string>)
    ensures |r| >= 1
  {
    match t
    case Leaf(s, _) => [s]
    case Node(_, l, r) => Leaves(l) + Leaves(r)
  }

  /** Every merged node's frequency is the sum of its children's. */
  ghost predicate SumsUp(t: HTree) {
    match t
    case Leaf(_, _) => true
    case Node(f, l, r) => f == l.freq + r.freq && SumsUp(l) && SumsUp(r)
  }

  /** The entry's key is its node's frequency, and the node's frequencies add up. */
  ghost predicate GoodEntry(e: Entry) {
    e.0 == e.1.freq && SumsUp(e.1)
  }

  /** The symbols of the frequency table, in its order. */
  function Symbols(frequencies: seq<(string, int)>): (r: seq<string>)
    ensures |r| == |frequencies| && forall i :: 0 <= i < |r| ==> r[i] == frequencies[i].0
  {
    seq(|frequencies|, i requires 0 <= i < |frequencies| => frequencies[i].0)
  }

  /** All leaf symbols of all entries on the heap, counted with multiplicity. */
  function LeafBag(h: seq<Entry>): multiset<string> {
    if h == [] then multiset{} else LeafBag(h[..|h| - 1]) + multiset(Leaves(h[|h| - 1].1))
  }

  lemma {:induction false} LeafBagConcat(a: seq<Entry>, b: seq<Entry>)
    ensures LeafBag(a + b) == LeafBag(a) + LeafBag(b)
    decreases |b|
  {
    if b != [] {
      assert (a + b)[..|a + b| - 1] == a + b[..|b| - 1];
      LeafBagConcat(a, b[..|b| - 1]);
    } else {
      assert a + b == a;
    }
  }

  /** Taking out the entry at m takes its leaves out of the bag. */
  lemma LeafBagRemove(h: seq<Entry>, m: int)
    requires 0 <= m < |h|
    ensures LeafBag(h) == LeafBag(h[..m] + h[m + 1..]) + multiset(Leaves(h[m].1))
  {
    var front, x, back := h[..m], h[m], h[m + 1..];
    SplitAt(h, m);
    LeafBagConcat(front + [x], back);
    LeafBagConcat(front, [x]);
    LeafBagConcat(front, back);
    LeafBagSingle(x);
  }

  lemma LeafBagSingle(x: Entry)
    ensures LeafBag([x]) == multiset(Leaves(x.1))
  {
    assert [x][..0] == [];
  }

  /** `heapq.heappop`: takes out an entry of least frequency (the first one, here). */
  method HeapPop(heap: seq<Entry>) returns (e: Entry, rest: seq<Entry>, ghost m: nat)
    requires heap != []
    ensures m < |heap| && e == heap[m] && rest == heap[..m] + heap[m + 1..]
    ensures forall k :: 0 <= k < |heap| ==> e.0 <= heap[k].0
  {
    m := 0;
    var best := 0;
    for i := 1 to |heap|
      invariant 0 <= best < |heap| && forall k :: 0 <= k < i ==> heap[best].0 <= heap[k].0
    {
      if heap[i].0 < heap[best].0 {
        best := i;
      }
    }
    m := best;
    e, rest := heap[best], heap[..best] + heap[best + 1..];
  }

  /** What merging keeps: well-formed entries holding every symbol once, and one tree while there were symbols. */
  ghost predicate Merging(frequencies: seq<(string, int)>, heap: seq<Entry>) {
    (forall e :: e in heap ==> GoodEntry(e)) &&
    LeafBag(heap) == multiset(Symbols(frequencies)) &&
    (heap == [] <==> frequencies == [])
  }

  /** Entries left after taking out the one at m were on the heap before. */
  lemma RemoveKeeps(h: seq<Entry>, m: int)
    requires 0 <= m < |h|
    ensures forall e :: e in h[..m] + h[m + 1..] ==> e in h
  {
    forall e | e in h[..m] + h[m + 1..] ensures e in h {
      if e in h[..m] {
        var k :| 0 <= k < m && h[..m][k] == e;
        assert h[k] == e;
      } else {
        var k :| 0 <= k < |h| - m - 1 && h[m + 1..][k] == e;
        assert h[m + 1 + k] == e;
      }
    }
  }

  /** Pushing the leaf of the next table entry keeps Merging for the longer table. */
  lemma PushLeaf(frequencies: seq<(string, int)>, i: int, heap: seq<Entry>)
    requires 0 <= i < |frequencies| && Merging(frequencies[..i], heap)
    ensures Merging(frequencies[..i + 1], heap + [(frequencies[i].1, Leaf(frequencies[i].0, frequencies[i].1))])
  {
    var x := (frequencies[i].1, Leaf(frequencies[i].0, frequencies[i].1));
    assert Symbols(frequencies[..i + 1]) == Symbols(frequencies[..i]) + [frequencies[i].0];
    LeafBagConcat(heap, [x]);
    LeafBagSingle(x);
  }

  /** One merge: pop two entries, push the node over both with their summed frequency. */
  lemma MergeStep(frequencies: seq<(string, int)>, heap: seq<Entry>, e1: Entry, m1: int, rest1: seq<Entry>, e2: Entry, m2: int, rest2: seq<Entry>)
    requires Merging(frequencies, heap) && 0 <= m1 < |heap| && e1 == heap[m1] && rest1 == heap[..m1] + heap[m1 + 1..]
    requires 0 <= m2 < |rest1| && e2 == rest1[m2] && rest2 == rest1[..m2] + rest1[m2 + 1..]
    ensures Merging(frequencies, rest2 + [(e1.0 + e2.0, Node(e1.0 + e2.0, e1.1, e2.1))])
  {
    MergeGood(heap, m1, rest1, m2, rest2);
    MergeBag(heap, m1, rest1, m2, rest2);
  }

  lemma MergeGood(heap: seq<Entry>, m1: int, rest1: seq<Entry>, m2: int, rest2: seq<Entry>)
    requires (forall e :: e in heap ==> GoodEntry(e)) && 0 <= m1 < |heap| && rest1 == heap[..m1] + heap[m1 + 1..]
    requires 0 <= m2 < |rest1| && rest2 == rest1[..m2] + rest1[m2 + 1..]
    ensures forall e :: e in rest2 + [(heap[m1].0 + rest1[m2].0, Node(heap[m1].0 + rest1[m2].0, heap[m1].1, rest1[m2].1))] ==> GoodEntry(e)
  {
    RemoveKeeps(heap, m1);
    RemoveKeeps(rest1, m2);
    assert GoodEntry(heap[m1]) && GoodEntry(rest1[m2]);
  }

  lemma MergeBag(heap: seq<Entry>, m1: int, rest1: seq<Entry>, m2: int, rest2: seq<Entry>)
    requires 0 <= m1 < |heap| && rest1 == heap[..m1] + heap[m1 + 1..]
    requires 0 <= m2 < |rest1| && rest2 == rest1[..m2] + rest1[m2 + 1..]
    ensures LeafBag(rest2 + [(heap[m1].0 + rest1[m2].0, Node(heap[m1].0 + rest1[m2].0, heap[m1].1, rest1[m2].1))]) == LeafBag(heap)
  {
    var x := (heap[m1].0 + rest1[m2].0, Node(heap[m1].0 + rest1[m2].0, heap[m1].1, rest1[m2].1));
    LeafBagRemove(heap, m1);
    LeafBagRemove(rest1, m2);
    LeafBagConcat(rest2, [x]);
    LeafBagSingle(x);
  }

  // ------------------------------------------------------------- code tables

  /** Only the characters '0' and '1'. */
  predicate Binary(s: string) {
    forall i :: 0 <= i < |s| ==> s[i] == '0' || s[i] == '1'
  }

  /** No symbol's code is a prefix of another symbol's code. */
  ghost predicate PrefixFree(codes: map<string, string>) {
    forall a, b :: a in codes && b in codes && a != b ==> !(codes[a] <= codes[b])
  }

  /** The codes generate_codes records below a node reached by the path `code`. */
  function CodeTable(t: HTree, code: string): (r: map<string, string>) {
    match t
    case Leaf(s, _) => map[s := code]
    case Node(_, l, rt) => CodeTable(l, code + "0") + CodeTable(rt, code + "1")
  }

  /** The table has a code exactly for the leaf symbols, each extending the path by 0s and 1s. */
  lemma {:induction false} CodeTableShape(t: HTree, code: string)
    ensures forall s :: s in CodeTable(t, code) <==> s in Leaves(t)
    ensures forall s :: s in CodeTable(t, code) ==> code <= CodeTable(t, code)[s] && Binary(CodeTable(t, code)[s][|code|..])
  {
    match t
    case Leaf(_, _) =>
    case Node(_, l, r) =>
      CodeTableShape(l, code + "0");
      CodeTableShape(r, code + "1");
      forall s | s in CodeTable(t, code)
        ensures code <= CodeTable(t, code)[s] && Binary(CodeTable(t, code)[s][|code|..])
      {
        var c := CodeTable(t, code)[s];
        var d := if s in CodeTable(r, code + "1") then code + "1" else code + "0";
        assert d <= c && Binary(c[|d|..]);
        assert c[|code|..] == [d[|code|]] + c[|d|..];
      }
  }

  /** A repeat-free list splits into repeat-free halves with nothing in common. */
  lemma DistinctConcat<T>(a: seq<T>, b: seq<T>)
    requires Distinct(a + b)
    ensures Distinct(a) && Distinct(b) && forall x :: x in a ==> x !in b
  {
    assert forall i :: 0 <= i < |b| ==> (a + b)[|a| + i] == b[i];
    assert forall i :: 0 <= i < |a| ==> (a + b)[i] == a[i];
    forall i, j | 0 <= i < j < |b| ensures b[i] != b[j] {
      assert (a + b)[|a| + i] != (a + b)[|a| + j];
    }
    forall x | x in a ensures x !in b {
      var i :| 0 <= i < |a| && a[i] == x;
      forall j | 0 <= j < |b| ensures b[j] != x {
        assert (a + b)[i] != (a + b)[|a| + j];
      }
    }
  }

  /** With distinct leaf symbols the code table is prefix-free. */
  lemma {:induction false} CodeTablePrefixFree(t: HTree, code: string)
    requires Distinct(Leaves(t))
    ensures PrefixFree(CodeTable(t, code))
  {
    match t
    case Leaf(_, _) =>
    case Node(_, l, r) =>
      DistinctConcat(Leaves(l), Leaves(r));
      CodeTablePrefixFree(l, code + "0");
      CodeTablePrefixFree(r, code + "1");
      CodeTableShape(l, code + "0");
      CodeTableShape(r, code + "1");
      var left, right := CodeTable(l, code + "0"), CodeTable(r, code + "1");
      forall a, b | a in left && b in right ensures !(left[a] <= right[b]) && !(right[b] <= left[a]) {
        assert (code + "0") <= left[a] && (code + "1") <= right[b];
        assert left[a][|code|] == '0' && right[b][|code|] == '1';
      }
  }

  /**
   * `generate_codes`: records the code of every leaf below node, writing the
   * left subtree's codes before the right subtree's into the shared table.
   */
  method GenerateCodes(node: HTree, code: string, codes: map<string, string>) returns (r: map<string, string>)
    ensures r == codes + CodeTable(node, code)
  {
    match node
    case Leaf(s, _) =>
      r := codes[s := code];
    case Node(_, left, right) =>
      var afterLeft := GenerateCodes(left, code + "0", codes);
      r := GenerateCodes(right, code + "1", afterLeft);
      assert r == codes + (CodeTable(left, code + "0") + CodeTable(right, code + "1"));
  }

  /** The first loop of huffman_coding: one leaf entry per table entry, in table order. */
  method PushLeaves(frequencies: seq<(string, int)>) returns (heap: seq<Entry>)
    ensures |heap| == |frequencies|
    ensures forall k :: 0 <= k < |heap| ==> heap[k] == (frequencies[k].1, Leaf(frequencies[k].0, frequencies[k].1))
    ensures Merging(frequencies, heap)
  {
    heap := [];
    for i := 0 to |frequencies|
      invariant |heap| == i && forall k :: 0 <= k < i ==> heap[k] == (frequencies[k].1, Leaf(frequencies[k].0, frequencies[k].1))
      invariant Merging(frequencies[..i], heap)
    {
      PushLeaf(frequencies, i, heap);
      heap := heap + [(frequencies[i].1, Leaf(frequencies[i].0, frequencies[i].1))];
    }
    assert frequencies[..|frequencies|] == frequencies;
  }

  /**
   * `huffman_coding`: a code for exactly the symbols of the table, prefix-free
   * and over {0, 1}; a lone symbol gets the empty code, no symbols give {}.
   */
  method HuffmanCoding(frequencies: seq<(string, int)>) returns (codes: map<string, string>)
    requires Distinct(Symbols(frequencies))
    ensures forall s :: s in codes <==> s in Symbols(frequencies)
    ensures PrefixFree(codes) && forall s :: s in codes ==> Binary(codes[s])
    ensures |frequencies| == 1 ==> codes == map[frequencies[0].0 := ""]
  {
    var heap := PushLeaves(frequencies);
    ghost var leaves := heap;
    while |heap| > 1
      invariant Merging(frequencies, heap)
      invariant |frequencies| == 1 ==> heap == leaves
      decreases |heap|
    {
      var e1, rest1, m1 := HeapPop(heap);
      var e2, rest2, m2 := HeapPop(rest1);
      MergeStep(frequencies, heap, e1, m1, rest1, e2, m2, rest2);
      heap := rest2 + [(e1.0 + e2.0, Node(e1.0 + e2.0, e1.1, e2.1))];
    }
    codes := map[];
    if |heap| > 0 {
      assert heap == [heap[0]];
      codes := GenerateCodes(heap[0].1, "", codes);
      TableFacts(frequencies, heap[0]);
    }
  }

  /** The code table of the final tree, whose leaves are the symbols once each. */
  lemma TableFacts(frequencies: seq<(string, int)>, e: Entry)
    requires Distinct(Symbols(frequencies)) && LeafBag([e]) == multiset(Symbols(frequencies))
    ensures forall s :: s in CodeTable(e.1, "") <==> s in Symbols(frequencies)
    ensures PrefixFree(CodeTable(e.1, "")) && forall s :: s in CodeTable(e.1, "") ==> Binary(CodeTable(e.1, "")[s])
  {
    var t := e.1;
    assert [e][..0] == [];
    assert multiset(Leaves(t)) == multiset(Symbols(frequencies));
    DistinctPerm(Symbols(frequencies), Leaves(t));
    CodeTableShape(t, "");
    CodeTablePrefixFree(t, "");
    forall s ensures s in Leaves(t) <==> s in Symbols(frequencies) {
      assert s in Leaves(t) <==> s in multiset(Leaves(t));
    }
  }
}
