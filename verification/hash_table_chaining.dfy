/**
 * The lab05 hash table with separate chaining: a list of buckets, each a list
 * of (key, value) pairs, indexed by the DJB2 hash of the key. The table
 * doubles before an insertion that finds count / size above the load factor.
 */
module HashTableChaining {
  import opened Common
  import opened HashFunctions

  /** The bucket of `key` in a table of `size` buckets. */
  function BucketOf(key: string, size: int): (r: int)
    requires size >= 1
    ensures 0 <= r < size
  {
    PyMod(Djb2Value(key), size)
  }

  /** The keys of a bucket, in order. */
  function Keys<V>(bucket: seq<(string, V)>): (r: seq<string>)
    ensures |r| == |bucket| && forall i :: 0 <= i < |r| ==> r[i] == bucket[i].0
  {
    seq(|bucket|, i requires 0 <= i < |bucket| => bucket[i].0)
  }

  /** No key occurs twice in a bucket. */
  ghost predicate NoDupKeys<V>(bucket: seq<(string, V)>) {
    forall i, j :: 0 <= i < j < |bucket| ==> bucket[i].0 != bucket[j].0
  }

  /** The value of the first pair with this key, scanning from the front. */
  function Lookup<V>(bucket: seq<(string, V)>, key: string): (r: Option<V>)
    ensures r.None? <==> key !in Keys(bucket)
    ensures NoDupKeys(bucket) ==> forall i :: 0 <= i < |bucket| && bucket[i].0 == key ==> r == Some(bucket[i].1)
  {
    if bucket == [] then None
    else if bucket[0].0 == key then Some(bucket[0].1)
    else
      assert Keys(bucket) == [bucket[0].0] + Keys(bucket[1..]);
      Lookup(bucket[1..], key)
  }

  function Get<V>(m: map<string, V>, key: string): Option<V> {
    if key in m then Some(m[key]) else None
  }

  lemma {:induction false} LookupAppend<V>(bucket: seq<(string, V)>, e: (string, V), key: string)
    ensures Lookup(bucket + [e], key)
            == if key in Keys(bucket) then Lookup(bucket, key) else if e.0 == key then Some(e.1) else None
  {
    if bucket != [] {
      assert (bucket + [e])[1..] == bucket[1..] + [e];
      assert Keys(bucket) == [bucket[0].0] + Keys(bucket[1..]);
      LookupAppend(bucket[1..], e, key);
    }
  }

  lemma {:induction false} LookupReplace<V>(bucket: seq<(string, V)>, i: int, e: (string, V), key: string)
    requires 0 <= i < |bucket| && bucket[i].0 == e.0 != key
    ensures Lookup(bucket[i := e], key) == Lookup(bucket, key)
  {
    if i > 0 {
      assert bucket[i := e][1..] == bucket[1..][i - 1 := e];
      LookupReplace(bucket[1..], i - 1, e, key);
    }
  }

  lemma {:induction false} LookupRemove<V>(bucket: seq<(string, V)>, i: int, key: string)
    requires 0 <= i < |bucket| && bucket[i].0 != key
    ensures Lookup(bucket[..i] + bucket[i + 1..], key) == Lookup(bucket, key)
  {
    if i > 0 {
      assert (bucket[..i] + bucket[i + 1..])[1..] == bucket[1..][..i - 1] + bucket[1..][i..];
      LookupRemove(bucket[1..], i - 1, key);
    } else {
      assert bucket[..i] + bucket[i + 1..] == bucket[1..];
    }
  }

  /** The number of pairs over all buckets. */
  function TotalEntries<V>(t: seq<seq<(string, V)>>): nat {
    if t == [] then 0 else TotalEntries(t[..|t| - 1]) + |t[|t| - 1]|
  }

  lemma {:induction false} TotalUpdate<V>(t: seq<seq<(string, V)>>, b: int, nb: seq<(string, V)>)
    requires 0 <= b < |t|
    ensures TotalEntries(t[b := nb]) == TotalEntries(t) - |t[b]| + |nb|
  {
    if b < |t| - 1 {
      assert t[b := nb][..|t| - 1] == t[..|t| - 1][b := nb];
      TotalUpdate(t[..|t| - 1], b, nb);
    } else {
      assert t[b := nb][..|t| - 1] == t[..|t| - 1];
    }
  }

  /** Every pair sits in the bucket of its key. */
  ghost predicate Placed<V>(t: seq<seq<(string, V)>>, size: int) {
    size >= 1 && |t| == size
    && forall b, i :: 0 <= b < |t| && 0 <= i < |t[b]| ==> BucketOf(t[b][i].0, size) == b
  }

  ghost predicate Distinct<V>(t: seq<seq<(string, V)>>) {
    forall b :: 0 <= b < |t| ==> NoDupKeys(t[b])
  }

  /** Looking a key up in its bucket gives its value in `contents`, or nothing. */
  ghost predicate Represents<V>(t: seq<seq<(string, V)>>, size: int, contents: map<string, V>)
    requires Placed(t, size)
  {
    forall k :: Lookup(t[BucketOf(k, size)], k) == Get(contents, k)
  }

  ghost predicate ValidTable<V>(t: seq<seq<(string, V)>>, size: int, contents: map<string, V>) {
    Placed(t, size) && Distinct(t) && Represents(t, size, contents)
  }

  /** During a resize: the keys already moved are those of the first b buckets and of t[b][..j]. */
  ghost predicate Moved<V>(t: seq<seq<(string, V)>>, size: int, b: int, j: int, k: string)
    requires size >= 1 && |t| == size && 0 <= b < |t| && 0 <= j <= |t[b]|
  {
    BucketOf(k, size) < b || (BucketOf(k, size) == b && k in Keys(t[b][..j]))
  }

  ghost predicate Rebuilt<V>(nt: seq<seq<(string, V)>>, newSize: int, t: seq<seq<(string, V)>>, size: int,
                              contents: map<string, V>, b: int, j: int)
    requires size >= 1 && |t| == size && 0 <= b < |t| && 0 <= j <= |t[b]|
  {
    && Placed(nt, newSize) && Distinct(nt)
    && (forall k :: Lookup(nt[BucketOf(k, newSize)], k) == if Moved(t, size, b, j, k) then Get(contents, k) else None)
    && TotalEntries(nt) == TotalEntries(t[..b]) + j
  }

  /** Appending the pair t[b][j] to its new bucket moves one more key. */
  lemma MoveOne<V>(nt: seq<seq<(string, V)>>, newSize: int, t: seq<seq<(string, V)>>, size: int,
                   contents: map<string, V>, b: int, j: int)
    requires ValidTable(t, size, contents) && 0 <= b < |t| && 0 <= j < |t[b]|
    requires Rebuilt(nt, newSize, t, size, contents, b, j)
    ensures var e := t[b][j]; var idx := BucketOf(e.0, newSize);
      Rebuilt(nt[idx := nt[idx] + [e]], newSize, t, size, contents, b, j + 1)
  {
    var e := t[b][j];
    var idx := BucketOf(e.0, newSize);
    var nt' := nt[idx := nt[idx] + [e]];
    MoveOneFresh(nt, newSize, t, size, contents, b, j);
    assert Placed(nt', newSize) && Distinct(nt') by {
      MoveOneShape(nt, newSize, e);
    }
    MoveOneLookup(nt, newSize, t, size, contents, b, j);
    assert TotalEntries(nt') == TotalEntries(t[..b]) + j + 1 by {
      TotalUpdate(nt, idx, nt[idx] + [e]);
    }
  }

  /** The pair being moved has not been moved yet, and is the key's entry. */
  lemma MoveOneFresh<V>(nt: seq<seq<(string, V)>>, newSize: int, t: seq<seq<(string, V)>>, size: int,
                        contents: map<string, V>, b: int, j: int)
    requires ValidTable(t, size, contents) && 0 <= b < |t| && 0 <= j < |t[b]|
    requires Rebuilt(nt, newSize, t, size, contents, b, j)
    ensures !Moved(t, size, b, j, t[b][j].0) && Get(contents, t[b][j].0) == Some(t[b][j].1)
    ensures t[b][j].0 !in Keys(nt[BucketOf(t[b][j].0, newSize)])
  {
    var e := t[b][j];
    assert NoDupKeys(t[b]);
    assert e.0 !in Keys(t[b][..j]);
    assert Lookup(t[b], e.0) == Some(e.1);
    assert Lookup(nt[BucketOf(e.0, newSize)], e.0).None?;
  }

  lemma MoveOneShape<V>(nt: seq<seq<(string, V)>>, newSize: int, e: (string, V))
    requires Placed(nt, newSize) && Distinct(nt) && e.0 !in Keys(nt[BucketOf(e.0, newSize)])
    ensures var idx := BucketOf(e.0, newSize);
      Placed(nt[idx := nt[idx] + [e]], newSize) && Distinct(nt[idx := nt[idx] + [e]])
  {
  }

  lemma MoveOneLookup<V>(nt: seq<seq<(string, V)>>, newSize: int, t: seq<seq<(string, V)>>, size: int,
                         contents: map<string, V>, b: int, j: int)
    requires ValidTable(t, size, contents) && 0 <= b < |t| && 0 <= j < |t[b]|
    requires Rebuilt(nt, newSize, t, size, contents, b, j)
    requires !Moved(t, size, b, j, t[b][j].0) && Get(contents, t[b][j].0) == Some(t[b][j].1)
    ensures var e := t[b][j]; var idx := BucketOf(e.0, newSize); var nt' := nt[idx := nt[idx] + [e]];
      forall k :: Lookup(nt'[BucketOf(k, newSize)], k) == if Moved(t, size, b, j + 1, k) then Get(contents, k) else None
  {
    var e := t[b][j];
    var idx := BucketOf(e.0, newSize);
    var nt' := nt[idx := nt[idx] + [e]];
    assert Keys(t[b][..j + 1]) == Keys(t[b][..j]) + [e.0];
    forall k ensures Lookup(nt'[BucketOf(k, newSize)], k) == if Moved(t, size, b, j + 1, k) then Get(contents, k) else None {
      assert Moved(t, size, b, j + 1, k) <==> Moved(t, size, b, j, k) || k == e.0;
      if BucketOf(k, newSize) == idx {
        LookupAppend(nt[idx], e, k);
      }
    }
  }

  /** A key of bucket b that is not among its pairs has no value. */
  lemma FinishedBucket<V>(t: seq<seq<(string, V)>>, size: int, contents: map<string, V>, b: int, k: string)
    requires ValidTable(t, size, contents) && 0 <= b < |t|
    ensures (if Moved(t, size, b, |t[b]|, k) then Get(contents, k) else None)
            == (if BucketOf(k, size) <= b then Get(contents, k) else None)
  {
    assert t[b][..|t[b]|] == t[b];
    if BucketOf(k, size) == b && k !in Keys(t[b]) {
      assert Lookup(t[b], k).None?;
    }
  }

  /** After the last pair of bucket b, the moved keys are those of the first b + 1 buckets. */
  lemma NextBucket<V>(nt: seq<seq<(string, V)>>, newSize: int, t: seq<seq<(string, V)>>, size: int,
                      contents: map<string, V>, b: int)
    requires ValidTable(t, size, contents) && 0 <= b < |t|
    requires Rebuilt(nt, newSize, t, size, contents, b, |t[b]|)
    ensures b + 1 < |t| ==> Rebuilt(nt, newSize, t, size, contents, b + 1, 0)
    ensures b + 1 == |t| ==> Represents(nt, newSize, contents) && TotalEntries(nt) == TotalEntries(t)
  {
    assert t[..b + 1][..b] == t[..b];
    assert TotalEntries(t[..b + 1]) == TotalEntries(t[..b]) + |t[b]|;
    forall k ensures Lookup(nt[BucketOf(k, newSize)], k) == if BucketOf(k, size) <= b then Get(contents, k) else None {
      FinishedBucket(t, size, contents, b, k);
    }
    if b + 1 < |t| {
      forall k ensures Moved(t, size, b + 1, 0, k) <==> BucketOf(k, size) <= b {
        assert t[b + 1][..0] == [];
      }
    } else {
      assert t[..|t|] == t;
    }
  }

  /** The resize loop: every pair of every old bucket, appended to its bucket in a table twice as large. */
  method Rehash<V>(t: seq<seq<(string, V)>>, size: int, ghost contents: map<string, V>)
    returns (nt: seq<seq<(string, V)>>)
    requires ValidTable(t, size, contents)
    ensures ValidTable(nt, 2 * size, contents) && TotalEntries(nt) == TotalEntries(t)
  {
    var newSize := size * 2;
    nt := seq(newSize, _ => []);
    EmptyTotal(nt);
    for b := 0 to |t|
      invariant b < |t| ==> Rebuilt(nt, newSize, t, size, contents, b, 0)
      invariant b == |t| ==> ValidTable(nt, newSize, contents) && TotalEntries(nt) == TotalEntries(t)
    {
      nt := RehashBucket(nt, t, size, contents, b);
      NextBucket(nt, newSize, t, size, contents, b);
    }
  }

  /** The inner loop of the resize, over the pairs of old bucket b. */
  method RehashBucket<V>(nt0: seq<seq<(string, V)>>, t: seq<seq<(string, V)>>, size: int,
                         ghost contents: map<string, V>, b: int)
    returns (nt: seq<seq<(string, V)>>)
    requires ValidTable(t, size, contents) && 0 <= b < |t|
    requires Rebuilt(nt0, 2 * size, t, size, contents, b, 0)
    ensures Rebuilt(nt, 2 * size, t, size, contents, b, |t[b]|)
  {
    nt := nt0;
    for j := 0 to |t[b]|
      invariant Rebuilt(nt, 2 * size, t, size, contents, b, j)
    {
      var h := Djb2Hash(t[b][j].0, 2 * size);
      var index := h.value;
      MoveOne(nt, 2 * size, t, size, contents, b, j);
      nt := nt[index := nt[index] + [t[b][j]]];
    }
  }

  /** The `enumerate` loop over a bucket: the index of the first pair with this key. */
  method FindInBucket<V>(bucket: seq<(string, V)>, key: string) returns (r: Option<nat>)
    ensures r.None? <==> key !in Keys(bucket)
    ensures r.Some? ==> r.value < |bucket| && bucket[r.value].0 == key && key !in Keys(bucket[..r.value])
  {
    for i := 0 to |bucket|
      invariant key !in Keys(bucket[..i])
    {
      if bucket[i].0 == key {
        return Some(i);
      }
      assert Keys(bucket[..i + 1]) == Keys(bucket[..i]) + [bucket[i].0];
    }
    assert bucket[..|bucket|] == bucket;
    return None;
  }

  /** Every pair of the bucket hashes to index idx. */
  ghost predicate InBucket<V>(b: seq<(string, V)>, idx: int, size: int)
    requires size >= 1
  {
    forall m :: 0 <= m < |b| ==> BucketOf(b[m].0, size) == idx
  }

  /**
   * Replacing one bucket by another whose pairs belong there, with no key
   * twice, that looks keys up as `contents'` does, keeps the table valid.
   */
  lemma UpdateBucket<V>(t: seq<seq<(string, V)>>, size: int, contents: map<string, V>, idx: int,
                        nb: seq<(string, V)>, contents': map<string, V>)
    requires ValidTable(t, size, contents) && 0 <= idx < |t|
    requires InBucket(nb, idx, size) && NoDupKeys(nb)
    requires forall k :: BucketOf(k, size) == idx ==> Lookup(nb, k) == Get(contents', k)
    requires forall k :: BucketOf(k, size) != idx ==> Get(contents', k) == Get(contents, k)
    ensures ValidTable(t[idx := nb], size, contents')
    ensures TotalEntries(t[idx := nb]) == TotalEntries(t) - |t[idx]| + |nb|
  {
    var t' := t[idx := nb];
    assert Placed(t', size);
    assert Distinct(t');
    forall k ensures Lookup(t'[BucketOf(k, size)], k) == Get(contents', k) {
      if BucketOf(k, size) != idx {
        assert t'[BucketOf(k, size)] == t[BucketOf(k, size)];
      }
    }
    TotalUpdate(t, idx, nb);
  }

  /**
   * What every operation of a table without buckets raises: the division
   * count / size (insert) or hash % size (search, delete) by size 0, or the
   * lookup of a bucket in the empty list when the size is negative.
   */
  function SizeError(size: int): (e: Error)
    requires size <= 0
    ensures e == ZeroDivisionError <==> size == 0
    ensures e == IndexError <==> size < 0
  {
    if size == 0 then ZeroDivisionError else IndexError
  }

  class HashTableChaining<V> {
    var size: int
    /** The load factor, as the fraction loadNum / loadDen. */
    var loadNum: nat
    var loadDen: nat
    var count: int
    var table: seq<seq<(string, V)>>
    /** The key-to-value map the table stands for. */
    ghost var contents: map<string, V>

    ghost predicate Valid()
      reads this
    {
      loadDen > 0 && ValidTable(table, size, contents) && count == TotalEntries(table)
    }

    /** A table built with an initial size of 0 or less: no buckets, and nothing can be stored. */
    ghost predicate Unusable()
      reads this
    {
      loadDen > 0 && size <= 0 && table == [] && count == 0 && contents == map[]
    }

    /**
     * An empty table of `initialSize` buckets (16 by default, load factor 3/4);
     * a size of 0 or less gives an empty bucket list.
     */
    constructor(initialSize: int, loadNum: nat, loadDen: nat)
      requires loadDen > 0
      ensures initialSize >= 1 ==> Valid()
      ensures initialSize <= 0 ==> Unusable()
      ensures contents == map[] && size == initialSize && count == 0
    {
      size := initialSize;
      this.loadNum := loadNum;
      this.loadDen := loadDen;
      count := 0;
      table := if initialSize >= 1 then seq(initialSize, _ => []) else [];
      contents := map[];
      new;
      if initialSize >= 1 {
        EmptyTotal(table);
      }
    }

    /** Doubles the number of buckets and rehashes every pair into the new table. */
    method Resize()
      requires Valid()
      modifies this
      ensures Valid() && size == 2 * old(size) && contents == old(contents) && count == old(count)
      ensures loadNum == old(loadNum) && loadDen == old(loadDen)
    {
      var newTable := Rehash(table, size, contents);
      table := newTable;
      size := 2 * size;
    }

    /**
     * Raises on a table without buckets; otherwise resizes first when
     * count / size exceeds the load factor and stores the pair.
     */
    method Insert(key: string, value: V) returns (r: Result<()>)
      requires Valid() || Unusable()
      modifies this
      ensures old(Unusable()) ==> r == Err(SizeError(old(size))) && unchanged(this)
      ensures old(Valid()) ==> r == Ok(()) && Valid() && contents == old(contents)[key := value]
      ensures old(Valid()) ==> count == old(count) + (if key in old(contents) then 0 else 1)
      ensures old(Valid()) ==> size == if old(count * loadDen > loadNum * size) then 2 * old(size) else old(size)
    {
      if size <= 0 {
        return Err(SizeError(size));
      }
      Store(key, value);
      r := Ok(());
    }

    /**
     * The insertion into a table with buckets: the resize test, then the
     * value of a present key is replaced, or a new pair appended and counted.
     */
    method Store(key: string, value: V)
      requires Valid()
      modifies this
      ensures Valid() && contents == old(contents)[key := value]
      ensures count == old(count) + (if key in old(contents) then 0 else 1)
      ensures size == if old(count * loadDen > loadNum * size) then 2 * old(size) else old(size)
    {
      if count * loadDen > loadNum * size {
        Resize();
      }
      Put(key, value);
    }

    /** Replaces the value of a present key in its bucket, or appends a new pair and counts it. */
    method Put(key: string, value: V)
      requires Valid()
      modifies this
      ensures Valid() && contents == old(contents)[key := value] && size == old(size)
      ensures count == old(count) + (if key in old(contents) then 0 else 1)
      ensures loadNum == old(loadNum) && loadDen == old(loadDen)
    {
      var h := Djb2Hash(key, size);
      var index := h.value;
      assert index == BucketOf(key, size);
      var bucket := table[index];
      var found := FindInBucket(bucket, key);
      if found.Some? {
        var i := found.value;
        ReplaceKeepsValid(i, key, value);
        table := table[index := bucket[i := (key, value)]];
        contents := contents[key := value];
        return;
      }
      AppendKeepsValid(key, value);
      table := table[index := bucket + [(key, value)]];
      contents := contents[key := value];
      count := count + 1;
    }

    lemma ReplaceKeepsValid(i: int, key: string, value: V)
      requires Valid()
      requires 0 <= i < |table[BucketOf(key, size)]| && table[BucketOf(key, size)][i].0 == key
      ensures var idx := BucketOf(key, size);
        ValidTable(table[idx := table[idx][i := (key, value)]], size, contents[key := value])
        && TotalEntries(table[idx := table[idx][i := (key, value)]]) == TotalEntries(table)
        && key in contents
    {
      ReplaceValid(table, size, contents, i, key, value);
    }

    lemma AppendKeepsValid(key: string, value: V)
      requires Valid() && key !in Keys(table[BucketOf(key, size)])
      ensures var idx := BucketOf(key, size);
        ValidTable(table[idx := table[idx] + [(key, value)]], size, contents[key := value])
        && TotalEntries(table[idx := table[idx] + [(key, value)]]) == TotalEntries(table) + 1
        && key !in contents
    {
      AppendValid(table, size, contents, key, value);
    }

    /** Scans only the key's bucket. */
    method Search(key: string) returns (r: Result<Option<V>>)
      requires Valid() || Unusable()
      ensures Unusable() ==> r == Err(SizeError(size))
      ensures Valid() ==> r == Ok(Get(contents, key))
    {
      if size <= 0 {
        return Err(SizeError(size));
      }
      var h := Djb2Hash(key, size);
      var index := h.value;
      var bucket := table[index];
      var found := FindInBucket(bucket, key);
      if found.Some? {
        assert Lookup(bucket, key) == Some(bucket[found.value].1);
        return Ok(Some(bucket[found.value].1));
      }
      return Ok(None);
    }

    /** Removes a present key and uncounts it; reports whether it was present. */
    method Delete(key: string) returns (r: Result<bool>)
      requires Valid() || Unusable()
      modifies this
      ensures old(Unusable()) ==> r == Err(SizeError(old(size))) && unchanged(this)
      ensures old(Valid()) ==> Valid() && r == Ok(key in old(contents))
      ensures old(Valid()) ==> contents == old(contents) - {key}
      ensures old(Valid()) ==> count == old(count) - (if key in old(contents) then 1 else 0)
      ensures old(Valid()) ==> size == old(size)
    {
      if size <= 0 {
        return Err(SizeError(size));
      }
      var h := Djb2Hash(key, size);
      var index := h.value;
      var bucket := table[index];
      var found := FindInBucket(bucket, key);
      if found.Some? {
        var i := found.value;
        RemoveKeepsValid(i, key);
        table := table[index := bucket[..i] + bucket[i + 1..]];
        contents := contents - {key};
        count := count - 1;
        return Ok(true);
      }
      AbsentKey(table, size, contents, key);
      assert contents - {key} == contents;
      return Ok(false);
    }

    lemma RemoveKeepsValid(i: int, key: string)
      requires Valid()
      requires 0 <= i < |table[BucketOf(key, size)]| && table[BucketOf(key, size)][i].0 == key
      ensures var idx := BucketOf(key, size); var b := table[idx];
        ValidTable(table[idx := b[..i] + b[i + 1..]], size, contents - {key})
        && TotalEntries(table[idx := b[..i] + b[i + 1..]]) == TotalEntries(table) - 1
        && key in contents
    {
      RemoveValid(table, size, contents, i, key);
    }
  }

  lemma RemoveValid<V>(table: seq<seq<(string, V)>>, size: int, contents: map<string, V>, i: int, key: string)
    requires ValidTable(table, size, contents)
    requires 0 <= i < |table[BucketOf(key, size)]| && table[BucketOf(key, size)][i].0 == key
    ensures var idx := BucketOf(key, size); var b := table[idx];
      ValidTable(table[idx := b[..i] + b[i + 1..]], size, contents - {key})
      && TotalEntries(table[idx := b[..i] + b[i + 1..]]) == TotalEntries(table) - 1
      && key in contents
  {
    var idx := BucketOf(key, size);
    var b := table[idx];
    var nb := b[..i] + b[i + 1..];
    assert NoDupKeys(b) && InBucket(b, idx, size);
    assert Lookup(b, key) == Get(contents, key);
    RemoveShape(b, i, idx, size);
    forall k | BucketOf(k, size) == idx ensures Lookup(nb, k) == Get(contents - {key}, k) {
      if k != key {
        LookupRemove(b, i, k);
        assert Lookup(b, k) == Get(contents, k);
      } else {
        RemovedAbsent(b, i);
      }
    }
    UpdateBucket(table, size, contents, idx, nb, contents - {key});
  }

  /** A key missing from its bucket is not in the table. */
  lemma AbsentKey<V>(table: seq<seq<(string, V)>>, size: int, contents: map<string, V>, key: string)
    requires ValidTable(table, size, contents) && key !in Keys(table[BucketOf(key, size)])
    ensures key !in contents
  {
    assert Lookup(table[BucketOf(key, size)], key) == Get(contents, key);
  }

  lemma RemoveShape<V>(b: seq<(string, V)>, i: int, idx: int, size: int)
    requires size >= 1 && NoDupKeys(b) && InBucket(b, idx, size) && 0 <= i < |b|
    ensures NoDupKeys(b[..i] + b[i + 1..]) && InBucket(b[..i] + b[i + 1..], idx, size)
  {
    var nb := b[..i] + b[i + 1..];
    assert forall m :: 0 <= m < |nb| ==> nb[m] == (if m < i then b[m] else b[m + 1]);
  }

  lemma ReplaceValid<V>(table: seq<seq<(string, V)>>, size: int, contents: map<string, V>, i: int, key: string, value: V)
    requires ValidTable(table, size, contents)
    requires 0 <= i < |table[BucketOf(key, size)]| && table[BucketOf(key, size)][i].0 == key
    ensures var idx := BucketOf(key, size);
      ValidTable(table[idx := table[idx][i := (key, value)]], size, contents[key := value])
      && TotalEntries(table[idx := table[idx][i := (key, value)]]) == TotalEntries(table)
      && key in contents
  {
    var idx := BucketOf(key, size);
    var b := table[idx];
    var nb := b[i := (key, value)];
    assert NoDupKeys(b) && InBucket(b, idx, size);
    assert Lookup(b, key) == Get(contents, key);
    ReplaceShape(b, i, (key, value), idx, size);
    forall k | BucketOf(k, size) == idx ensures Lookup(nb, k) == Get(contents[key := value], k) {
      if k != key {
        LookupReplace(b, i, (key, value), k);
        assert Lookup(b, k) == Get(contents, k);
      }
    }
    UpdateBucket(table, size, contents, idx, nb, contents[key := value]);
  }

  lemma ReplaceShape<V>(b: seq<(string, V)>, i: int, e: (string, V), idx: int, size: int)
    requires size >= 1 && NoDupKeys(b) && InBucket(b, idx, size) && 0 <= i < |b| && b[i].0 == e.0
    ensures NoDupKeys(b[i := e]) && InBucket(b[i := e], idx, size) && Keys(b[i := e]) == Keys(b)
  {
  }

  lemma AppendValid<V>(table: seq<seq<(string, V)>>, size: int, contents: map<string, V>, key: string, value: V)
    requires ValidTable(table, size, contents) && key !in Keys(table[BucketOf(key, size)])
    ensures var idx := BucketOf(key, size);
      ValidTable(table[idx := table[idx] + [(key, value)]], size, contents[key := value])
      && TotalEntries(table[idx := table[idx] + [(key, value)]]) == TotalEntries(table) + 1
      && key !in contents
  {
    var idx := BucketOf(key, size);
    var b := table[idx];
    var nb := b + [(key, value)];
    assert NoDupKeys(b) && InBucket(b, idx, size);
    assert Lookup(b, key) == Get(contents, key);
    forall k | BucketOf(k, size) == idx ensures Lookup(nb, k) == Get(contents[key := value], k) {
      LookupAppend(b, (key, value), k);
      assert Lookup(b, k) == Get(contents, k);
    }
    UpdateBucket(table, size, contents, idx, nb, contents[key := value]);
  }

  /** Removing the one pair with a key leaves no pair with that key. */
  lemma RemovedAbsent<V>(b: seq<(string, V)>, i: int)
    requires NoDupKeys(b) && 0 <= i < |b|
    ensures Lookup(b[..i] + b[i + 1..], b[i].0).None?
  {
    var nb := b[..i] + b[i + 1..];
    forall m | 0 <= m < |nb| ensures nb[m].0 != b[i].0 {
      if m < i { assert nb[m] == b[m]; } else { assert nb[m] == b[m + 1]; }
    }
    assert b[i].0 !in Keys(nb);
  }

  lemma {:induction false} EmptyTotal<V>(t: seq<seq<(string, V)>>)
    requires forall b :: 0 <= b < |t| ==> t[b] == []
    ensures TotalEntries(t) == 0
  {
    if t != [] {
      EmptyTotal(t[..|t| - 1]);
    }
  }
}
