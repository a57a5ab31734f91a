/**
 * The lab05 hash table with open addressing: a list of slots, each empty or
 * holding one (key, value) pair. A key's slots are tried in the order of its
 * probe sequence, linear or double hashing. Insert, search and delete all
 * stop at the first probed slot that is empty or holds the key.
 */
module HashTableOpenAddressing {
  import opened Common
  import opened HashFunctions

  /** The probing methods the constructor knows by name. */
  predicate KnownMethod(pm: string) {
    pm == "linear" || pm == "double"
  }

  /**
   * The i-th probed slot: (h1 + i) mod size for linear probing and
   * (h1 + i * h2) mod size for double hashing, where h1 is the DJB2 hash and
   * h2 the polynomial hash; any other method name raises ValueError, and a
   * known method raises ZeroDivisionError on size 0.
   */
  function ProbeIndex(pm: string, key: string, size: int, i: int): (r: Result<int>)
    ensures r.Ok? && size > 0 ==> 0 <= r.value < size
    ensures r.Err? <==> !KnownMethod(pm) || size == 0
    ensures r.Err? && !KnownMethod(pm) ==> r.error == ValueError
    ensures r.Err? && KnownMethod(pm) ==> r.error == ZeroDivisionError
  {
    if !KnownMethod(pm) then Err(ValueError)
    else if size == 0 then Err(ZeroDivisionError)
    else
      var h1 := PyMod(Djb2Value(key), size);
      if pm == "linear" then Ok(PyMod(h1 + i, size))
      else Ok(PyMod(h1 + i * PyMod(Horner(key, 31), size), size))
  }

  /** A slot where insertion of `key` stops: empty, or already holding `key`. */
  predicate StopsAt<V>(slot: Option<(string, V)>, key: string) {
    slot.None? || slot.value.0 == key
  }

  /**
   * The scan shared by insert, search and delete, from probe i on: the first
   * probed slot that is empty or holds `key`; `None` after `size` probes.
   */
  function FirstFree<V>(t: seq<Option<(string, V)>>, pm: string, key: string, i: nat): (r: Result<Option<int>>)
    ensures r.Ok? && r.value.Some? ==> 0 <= r.value.value < |t| && StopsAt(t[r.value.value], key)
    ensures r.Err? <==> !KnownMethod(pm) && i < |t|
    decreases |t| - i
  {
    if i >= |t| then Ok(None)
    else match ProbeIndex(pm, key, |t|, i)
      case Err(e) => Err(e)
      case Ok(idx) => if StopsAt(t[idx], key) then Ok(Some(idx)) else FirstFree(t, pm, key, i + 1)
  }

  /** The value search returns: the pair at the stopping slot, if there is one. */
  function SearchResult<V>(t: seq<Option<(string, V)>>, pm: string, key: string): Result<Option<V>> {
    match FirstFree(t, pm, key, 0)
    case Err(e) => Err(e)
    case Ok(None) => Ok(None)
    case Ok(Some(idx)) => if t[idx].None? then Ok(None) else Ok(Some(t[idx].value.1))
  }

  /** Search finds `key` in a slot of its own. */
  predicate Findable<V>(t: seq<Option<(string, V)>>, pm: string, key: string) {
    var r := FirstFree(t, pm, key, 0);
    r.Ok? && r.value.Some? && t[r.value.value].Some?
  }

  /** Some slot of the table holds this key. */
  ghost predicate Stored<V>(t: seq<Option<(string, V)>>, key: string) {
    exists s :: 0 <= s < |t| && t[s].Some? && t[s].value.0 == key
  }

  /** A findable key is stored in the slot where the scan stops. */
  lemma FindableIsStored<V>(t: seq<Option<(string, V)>>, pm: string, key: string)
    requires |t| >= 1 && Findable(t, pm, key)
    ensures Stored(t, key)
    ensures SearchResult(t, pm, key).Ok? && SearchResult(t, pm, key).value.Some?
  {
    var s := FirstFree(t, pm, key, 0).value.value;
    assert t[s].Some? && t[s].value.0 == key;
  }

  /**
   * Writing a slot that stops the scan for `key` into the slot where the scan
   * stopped leaves the scan stopping there: no earlier probe reaches it.
   */
  lemma {:induction false} WriteAtStop<V>(t: seq<Option<(string, V)>>, pm: string, key: string, i: nat,
                                          x: Option<(string, V)>)
    requires |t| >= 1 && FirstFree(t, pm, key, i).Ok? && FirstFree(t, pm, key, i).value.Some?
    requires StopsAt(x, key)
    ensures var s := FirstFree(t, pm, key, i).value.value;
      FirstFree(t[s := x], pm, key, i) == Ok(Some(s))
    decreases |t| - i
  {
    var s := FirstFree(t, pm, key, i).value.value;
    var idx := ProbeIndex(pm, key, |t|, i).value;
    if idx != s {
      WriteAtStop(t, pm, key, i + 1, x);
    }
  }

  /**
   * Writing a pair of another key into an empty slot or over a pair of
   * another key keeps a findable key findable, in the same slot.
   */
  lemma {:induction false} WriteKeepsOther<V>(t: seq<Option<(string, V)>>, pm: string, key: string, i: nat,
                                              s2: int, x: Option<(string, V)>)
    requires |t| >= 1 && 0 <= s2 < |t|
    requires FirstFree(t, pm, key, i).Ok? && FirstFree(t, pm, key, i).value.Some?
    requires t[FirstFree(t, pm, key, i).value.value].Some?
    requires x.Some? && x.value.0 != key
    requires t[s2].None? || t[s2].value.0 != key
    ensures FirstFree(t[s2 := x], pm, key, i) == FirstFree(t, pm, key, i)
    decreases |t| - i
  {
    var idx := ProbeIndex(pm, key, |t|, i).value;
    if !StopsAt(t[idx], key) {
      WriteKeepsOther(t, pm, key, i + 1, s2, x);
    }
  }

  /** An `Ok(None)` scan from probe i met only pairs of other keys. */
  lemma {:induction false} ExhaustedScan<V>(t: seq<Option<(string, V)>>, pm: string, key: string, i: nat, j: nat)
    requires |t| >= 1 && FirstFree(t, pm, key, i) == Ok(None) && i <= j < |t|
    ensures KnownMethod(pm)
    ensures var idx := ProbeIndex(pm, key, |t|, j).value; t[idx].Some? && t[idx].value.0 != key
    decreases j - i
  {
    if i < j {
      ExhaustedScan(t, pm, key, i + 1, j);
    }
  }

  /** Linear probing tries every slot within `size` probes. */
  lemma LinearProbeReaches(key: string, size: int, s: int)
    requires size >= 1 && 0 <= s < size
    ensures var j := PyMod(s - PyMod(Djb2Value(key), size), size);
      0 <= j < size && ProbeIndex("linear", key, size, j) == Ok(s)
  {
    var h := PyMod(Djb2Value(key), size);
    var j := PyMod(s - h, size);
    if s >= h {
      PyModUnique(s - h, size, 0, s - h);
      PyModUnique(h + j, size, 0, s);
    } else {
      PyModUnique(s - h, size, -1, s - h + size);
      PyModUnique(h + j, size, 1, s);
    }
  }

  /**
   * With linear probing, insertion only runs out of probes when every slot
   * holds a pair of another key.
   */
  lemma LinearFullTable<V>(t: seq<Option<(string, V)>>, key: string)
    requires |t| >= 1 && FirstFree(t, "linear", key, 0) == Ok(None)
    ensures forall s :: 0 <= s < |t| ==> t[s].Some? && t[s].value.0 != key
  {
    forall s | 0 <= s < |t| ensures t[s].Some? && t[s].value.0 != key {
      LinearProbeReaches(key, |t|, s);
      ExhaustedScan(t, "linear", key, 0, PyMod(s - PyMod(Djb2Value(key), |t|), |t|));
    }
  }

  /** Inserting, then searching for the same key, gives the inserted value. */
  lemma InsertThenSearch<V>(t: seq<Option<(string, V)>>, pm: string, key: string, value: V)
    requires |t| >= 1 && FirstFree(t, pm, key, 0).Ok? && FirstFree(t, pm, key, 0).value.Some?
    ensures var s := FirstFree(t, pm, key, 0).value.value;
      SearchResult(t[s := Some((key, value))], pm, key) == Ok(Some(value))
  {
    WriteAtStop(t, pm, key, 0, Some((key, value)));
  }

  /** Deleting, then searching for the same key, finds nothing. */
  lemma DeleteThenSearch<V>(t: seq<Option<(string, V)>>, pm: string, key: string)
    requires |t| >= 1 && FirstFree(t, pm, key, 0).Ok? && FirstFree(t, pm, key, 0).value.Some?
    ensures var s := FirstFree(t, pm, key, 0).value.value;
      SearchResult(t[s := None], pm, key) == Ok(None)
  {
    WriteAtStop(t, pm, key, 0, None);
  }

  /** The value of the last slot holding `key`, scanning the slots in order. */
  ghost function LastValue<V>(t: seq<Option<(string, V)>>, key: string): (r: Option<V>)
    ensures r.Some? <==> Stored(t, key)
  {
    if t == [] then None
    else if t[|t| - 1].Some? && t[|t| - 1].value.0 == key then Some(t[|t| - 1].value.1)
    else
      assert Stored(t, key) ==> Stored(t[..|t| - 1], key) by {
        if Stored(t, key) {
          var s :| 0 <= s < |t| && t[s].Some? && t[s].value.0 == key;
          assert t[..|t| - 1][s] == t[s];
        }
      }
      LastValue(t[..|t| - 1], key)
  }

  /**
   * A table written by insertions alone: every pair sits in the slot where
   * the scan for its key stops, so no key is stored twice.
   */
  ghost predicate Clean<V>(t: seq<Option<(string, V)>>, pm: string) {
    forall s :: 0 <= s < |t| && t[s].Some? ==> FirstFree(t, pm, t[s].value.0, 0) == Ok(Some(s))
  }

  /** With a known probing method, a key stored nowhere is not found. */
  lemma NotStoredSearch<V>(t: seq<Option<(string, V)>>, pm: string, key: string)
    requires KnownMethod(pm) && !Stored(t, key)
    ensures SearchResult(t, pm, key) == Ok(None)
  {
    var r := FirstFree(t, pm, key, 0);
    if r.Ok? && r.value.Some? {
      assert StopsAt(t[r.value.value], key);
    }
  }

  /** When one slot alone holds `key`, that slot's value is the last one. */
  lemma {:induction false} LastValueAt<V>(t: seq<Option<(string, V)>>, key: string, s: int)
    requires 0 <= s < |t| && t[s].Some? && t[s].value.0 == key
    requires forall s' :: 0 <= s' < |t| && t[s'].Some? && t[s'].value.0 == key ==> s' == s
    ensures LastValue(t, key) == Some(t[s].value.1)
  {
    if s < |t| - 1 {
      var u := t[..|t| - 1];
      forall s' | 0 <= s' < |u| && u[s'].Some? && u[s'].value.0 == key ensures s' == s {
        assert u[s'] == t[s'];
      }
      LastValueAt(u, key, s);
    }
  }

  /** In a clean table, search returns the last value stored for the key. */
  lemma CleanSearch<V>(t: seq<Option<(string, V)>>, pm: string, key: string)
    requires KnownMethod(pm) && Clean(t, pm)
    ensures SearchResult(t, pm, key) == Ok(LastValue(t, key))
  {
    if Stored(t, key) {
      var s :| 0 <= s < |t| && t[s].Some? && t[s].value.0 == key;
      assert FirstFree(t, pm, key, 0) == Ok(Some(s));
      forall s' | 0 <= s' < |t| && t[s'].Some? && t[s'].value.0 == key ensures s' == s {
        assert FirstFree(t, pm, key, 0) == Ok(Some(s'));
      }
      LastValueAt(t, key, s);
    } else {
      NotStoredSearch(t, pm, key);
    }
  }

  /** Writing a pair into the slot where the scan for its key stops keeps a clean table clean. */
  lemma WriteKeepsClean<V>(t: seq<Option<(string, V)>>, pm: string, key: string, value: V)
    requires Clean(t, pm)
    requires FirstFree(t, pm, key, 0).Ok? && FirstFree(t, pm, key, 0).value.Some?
    ensures Clean(t[FirstFree(t, pm, key, 0).value.value := Some((key, value))], pm)
  {
    var s := FirstFree(t, pm, key, 0).value.value;
    var x := Some((key, value));
    var t' := t[s := x];
    forall s' | 0 <= s' < |t'| && t'[s'].Some? ensures FirstFree(t', pm, t'[s'].value.0, 0) == Ok(Some(s')) {
      if s' == s {
        WriteAtStop(t, pm, key, 0, x);
      } else {
        var k' := t[s'].value.0;
        assert FirstFree(t, pm, k', 0) == Ok(Some(s'));
        WriteKeepsOther(t, pm, k', 0, s, x);
      }
    }
  }

  /**
   * In a clean table, writing a pair into the slot where the scan for its key
   * stops leaves the search result of every other key as it was.
   */
  lemma WriteKeepsOthers<V>(t: seq<Option<(string, V)>>, pm: string, key: string, value: V)
    requires KnownMethod(pm) && Clean(t, pm)
    requires FirstFree(t, pm, key, 0).Ok? && FirstFree(t, pm, key, 0).value.Some?
    ensures var t' := t[FirstFree(t, pm, key, 0).value.value := Some((key, value))];
      forall k :: k != key ==> SearchResult(t', pm, k) == SearchResult(t, pm, k)
  {
    var s := FirstFree(t, pm, key, 0).value.value;
    forall k | k != key ensures SearchResult(t[s := Some((key, value))], pm, k) == SearchResult(t, pm, k) {
      OtherKept(t, pm, s, Some((key, value)), k);
    }
  }

  /** Writing another key's pair into a slot that holds no pair of k keeps k's search result in a clean table. */
  lemma OtherKept<V>(t: seq<Option<(string, V)>>, pm: string, s: int, x: Option<(string, V)>, k: string)
    requires KnownMethod(pm) && Clean(t, pm) && 0 <= s < |t|
    requires x.Some? && x.value.0 != k && (t[s].None? || t[s].value.0 != k)
    ensures SearchResult(t[s := x], pm, k) == SearchResult(t, pm, k)
  {
    if Stored(t, k) {
      var s2 :| 0 <= s2 < |t| && t[s2].Some? && t[s2].value.0 == k;
      assert FirstFree(t, pm, k, 0) == Ok(Some(s2));
      WriteKeepsOther(t, pm, k, 0, s, x);
    } else {
      NotStoredSearch(t, pm, k);
      NotStoredSearch(t[s := x], pm, k);
    }
  }

  /** An empty table is clean and finds nothing. */
  lemma EmptyClean<V>(t: seq<Option<(string, V)>>, pm: string)
    requires KnownMethod(pm) && forall s :: 0 <= s < |t| ==> t[s].None?
    ensures Clean(t, pm) && forall k :: SearchResult(t, pm, k) == Ok(LastValue([], k))
  {
    forall k ensures SearchResult(t, pm, k) == Ok(None) {
      NotStoredSearch(t, pm, k);
    }
  }

  /**
   * A rebuilt table that returns the last values of a clean table returns
   * exactly what the clean table did.
   */
  lemma RebuiltAgrees<V>(t: seq<Option<(string, V)>>, t': seq<Option<(string, V)>>, pm: string)
    requires KnownMethod(pm) && Clean(t, pm)
    requires forall k :: SearchResult(t', pm, k) == Ok(LastValue(t, k))
    ensures forall k :: SearchResult(t', pm, k) == SearchResult(t, pm, k)
  {
    forall k ensures SearchResult(t', pm, k) == SearchResult(t, pm, k) {
      CleanSearch(t, pm, k);
    }
  }

  /**
   * During a resize, after the old slots `done` were re-inserted in order:
   * their keys are findable, and with a known method the table is clean and
   * search returns, for every key, the value of the last of those slots that held it.
   */
  ghost predicate Reinserted<V>(t: seq<Option<(string, V)>>, pm: string, done: seq<Option<(string, V)>>) {
    (forall s :: 0 <= s < |done| && done[s].Some? ==> Findable(t, pm, done[s].value.0))
    && (KnownMethod(pm) ==> Clean(t, pm) && forall k :: SearchResult(t, pm, k) == Ok(LastValue(done, k)))
  }

  /** Re-inserting one more stored pair, with what insertion promises, extends the resize invariant. */
  lemma ReinsertStep<V>(before: seq<Option<(string, V)>>, t: seq<Option<(string, V)>>, pm: string,
                        done: seq<Option<(string, V)>>, key: string, value: V)
    requires Reinserted(before, pm, done) && KnownMethod(pm)
    requires forall k :: Findable(before, pm, k) ==> Findable(t, pm, k)
    requires SearchResult(t, pm, key) == Ok(Some(value))
    requires Clean(before, pm) ==> Clean(t, pm) && forall k :: k != key ==> SearchResult(t, pm, k) == SearchResult(before, pm, k)
    ensures Reinserted(t, pm, done + [Some((key, value))])
  {
    var d := done + [Some((key, value))];
    assert d[..|done|] == done;
    forall s | 0 <= s < |d| && d[s].Some? ensures Findable(t, pm, d[s].value.0) {
      if s < |done| {
        assert d[s] == done[s];
        assert Findable(before, pm, done[s].value.0);
      }
    }
  }

  /** An empty old slot adds nothing to the resize invariant. */
  lemma SkipEmpty<V>(t: seq<Option<(string, V)>>, pm: string, done: seq<Option<(string, V)>>)
    requires Reinserted(t, pm, done)
    ensures Reinserted(t, pm, done + [None])
  {
    var d := done + [None];
    assert d[..|done|] == done;
    forall s | 0 <= s < |d| && d[s].Some? ensures Findable(t, pm, d[s].value.0) {
      assert d[s] == done[s];
    }
  }

  /** How an insertion ended. */
  datatype Outcome = Stored | Raised(error: Error) | OutOfFuel

  class HashTableOpenAddressing<V> {
    var size: int
    /** The load factor, as the fraction loadNum / loadDen. */
    var loadNum: int
    var loadDen: int
    var count: int
    var table: seq<Option<(string, V)>>
    var probingMethod: string

    /** One slot per unit of size; a size of 0 or less has no slots. */
    ghost predicate Valid()
      reads this
    {
      loadDen > 0 && (size >= 1 ==> |table| == size) && (size <= 0 ==> table == [])
    }

    /**
     * An empty table of `initialSize` slots (16 by default, load factor 3/4,
     * linear probing); a size of 0 or less gives an empty slot list.
     */
    constructor(initialSize: int, loadNum: int, loadDen: int, probingMethod: string)
      requires loadDen > 0
      ensures Valid() && size == initialSize && count == 0 && this.probingMethod == probingMethod
      ensures initialSize >= 1 ==> table == seq(initialSize, _ => None)
      ensures initialSize <= 0 ==> table == []
    {
      size := initialSize;
      this.loadNum := loadNum;
      this.loadDen := loadDen;
      count := 0;
      table := if initialSize >= 1 then seq(initialSize, _ => None) else [];
      this.probingMethod := probingMethod;
    }

    /** The i-th probed slot of `key`, computed with the hash methods. */
    method ProbeSequence(key: string, i: int) returns (r: Result<int>)
      ensures r == ProbeIndex(probingMethod, key, size, i)
    {
      if probingMethod == "linear" {
        var h1 := Djb2Hash(key, size);
        if h1.Err? {
          return Err(h1.error);
        }
        return Ok(PyMod(h1.value + i, size));
      } else if probingMethod == "double" {
        var h1 := Djb2Hash(key, size);
        if h1.Err? {
          return Err(h1.error);
        }
        var h2 := PolynomialHash(key, size);
        return Ok(PyMod(h1.value + i * h2.value, size));
      } else {
        return Err(ValueError);
      }
    }

    /** The scan of insert, search and delete, as a loop over the probes. */
    method Scan(key: string) returns (r: Result<Option<int>>)
      requires Valid()
      ensures r == FirstFree(table, probingMethod, key, 0)
    {
      var i := 0;
      while i < size
        invariant 0 <= i <= |table|
        invariant FirstFree(table, probingMethod, key, 0) == FirstFree(table, probingMethod, key, i)
      {
        var index := ProbeSequence(key, i);
        if index.Err? {
          return Err(index.error);
        }
        if StopsAt(table[index.value], key) {
          return Ok(Some(index.value));
        }
        i := i + 1;
      }
      return Ok(None);
    }

    /**
     * Doubles the table, zeroes `count` and re-inserts every stored pair in
     * slot order; each of their keys is then findable, with the value of the
     * last slot that held it, and the new table is clean.
     */
    method Resize(fuel: nat) returns (r: Outcome)
      requires Valid() && size >= 1
      modifies this
      decreases fuel, 1
      ensures Valid() && probingMethod == old(probingMethod)
      ensures loadNum == old(loadNum) && loadDen == old(loadDen)
      ensures size >= 2 * old(size) && count == 0
      ensures r == Stored ==> Reinserted(table, probingMethod, old(table))
      ensures r.Raised? ==> r.error == ValueError && !KnownMethod(probingMethod)
    {
      var newSize := size * 2;
      var oldTable := table;
      table := seq(newSize, _ => None);
      size := newSize;
      count := 0;
      if KnownMethod(probingMethod) {
        EmptyClean(table, probingMethod);
      }
      for s := 0 to |oldTable|
        invariant Valid() && size >= 1 && probingMethod == old(probingMethod)
        invariant loadNum == old(loadNum) && loadDen == old(loadDen)
        invariant size >= 2 * old(size) && count == 0
        invariant Reinserted(table, probingMethod, oldTable[..s])
      {
        assert oldTable[..s + 1] == oldTable[..s] + [oldTable[s]];
        r := Reinsert(oldTable[..s], oldTable[s], fuel);
        if r != Stored {
          return r;
        }
      }
      assert oldTable[..|oldTable|] == oldTable;
      return Stored;
    }

    /** Re-inserts the pair of one old slot, if it holds one, during a resize. */
    method Reinsert(ghost done: seq<Option<(string, V)>>, slot: Option<(string, V)>, fuel: nat) returns (r: Outcome)
      requires Valid() && size >= 1 && count == 0
      requires Reinserted(table, probingMethod, done)
      modifies this
      decreases fuel, 0
      ensures Valid() && size >= old(size) && count == 0 && probingMethod == old(probingMethod)
      ensures loadNum == old(loadNum) && loadDen == old(loadDen)
      ensures r == Stored ==> Reinserted(table, probingMethod, done + [slot])
      ensures r.Raised? ==> r.error == ValueError && !KnownMethod(probingMethod)
    {
      if slot.None? {
        SkipEmpty(table, probingMethod, done);
        return Stored;
      }
      if fuel == 0 {
        return OutOfFuel;
      }
      var (key, value) := slot.value;
      ghost var before := table;
      r := Place(key, value, fuel - 1);
      if r == Stored {
        ReinsertStep(before, table, probingMethod, done, key, value);
      }
    }

    /**
     * Resizes first when count / size exceeds the load factor, then writes
     * the pair into the first probed slot that is empty or holds the key.
     * Size 0 raises ZeroDivisionError at the division. With a negative size
     * the probe loop never runs and each resize doubles the size further
     * below 0, so the code resizes and re-inserts without end until Python
     * stops it with RecursionError; the model answers OutOfFuel at once and
     * leaves the table as it is.
     */
    method Insert(key: string, value: V, fuel: nat) returns (r: Outcome)
      requires Valid()
      modifies this
      ensures Valid() && probingMethod == old(probingMethod)
      ensures old(size) == 0 ==> r == Raised(ZeroDivisionError) && unchanged(this)
      ensures old(size) < 0 ==> r == OutOfFuel && unchanged(this)
      ensures loadNum == old(loadNum) && loadDen == old(loadDen)
      ensures size >= old(size)
      ensures size == old(size) ==> count == old(count)
      ensures size > old(size) ==> count == 0
      ensures old(size >= 1 && count * loadDen > loadNum * size) && r != OutOfFuel ==> size > old(size)
      ensures r == Stored ==> SearchResult(table, probingMethod, key) == Ok(Some(value))
      ensures r == Stored ==> forall k :: Findable(old(table), probingMethod, k) ==> Findable(table, probingMethod, k)
      ensures r == Stored && old(Clean(table, probingMethod)) ==> Clean(table, probingMethod)
      ensures r == Stored && old(Clean(table, probingMethod)) ==>
                forall k :: k != key ==> SearchResult(table, probingMethod, k) == old(SearchResult(table, probingMethod, k))
      ensures r == Stored && size == old(size) ==>
                var f := old(FirstFree(table, probingMethod, key, 0));
                f.Ok? && f.value.Some? && table == old(table)[f.value.value := Some((key, value))]
      ensures r.Raised? && old(size) >= 1 ==> r.error == ValueError && !KnownMethod(probingMethod)
    {
      if size == 0 {
        return Raised(ZeroDivisionError);
      }
      if size < 0 {
        return OutOfFuel;
      }
      r := Place(key, value, fuel);
    }

    /** Insertion into a table with slots: the resize test, the probe loop, and the retry after running out of probes. */
    method Place(key: string, value: V, fuel: nat) returns (r: Outcome)
      requires Valid() && size >= 1
      modifies this
      ensures Valid() && size >= 1 && probingMethod == old(probingMethod)
      ensures loadNum == old(loadNum) && loadDen == old(loadDen)
      ensures size >= old(size)
      ensures size == old(size) ==> count == old(count)
      ensures size > old(size) ==> count == 0
      ensures old(count * loadDen > loadNum * size) && r != OutOfFuel ==> size > old(size)
      ensures r == Stored ==> KnownMethod(probingMethod)
      ensures r == Stored ==> SearchResult(table, probingMethod, key) == Ok(Some(value))
      ensures r == Stored ==> forall k :: Findable(old(table), probingMethod, k) ==> Findable(table, probingMethod, k)
      ensures r == Stored && old(Clean(table, probingMethod)) ==> Clean(table, probingMethod)
      ensures r == Stored && old(Clean(table, probingMethod)) ==>
                forall k :: k != key ==> SearchResult(table, probingMethod, k) == old(SearchResult(table, probingMethod, k))
      ensures r == Stored && size == old(size) ==>
                var f := old(FirstFree(table, probingMethod, key, 0));
                f.Ok? && f.value.Some? && table == old(table)[f.value.value := Some((key, value))]
      ensures r.Raised? ==> r.error == ValueError && !KnownMethod(probingMethod)
      decreases fuel, 2
    {
      ghost var start := table;
      if count * loadDen > loadNum * size {
        r := Resize(fuel);
        if r != Stored {
          return r;
        }
        Carried(start);
      }
      ghost var mid := table;
      var found := Scan(key);
      if found.Err? {
        return Raised(found.error);
      }
      if found.value.Some? {
        var index := found.value.value;
        WriteFacts(key, value);
        table := table[index := Some((key, value))];
        return Stored;
      }
      if fuel == 0 {
        return OutOfFuel;
      }
      r := Resize(fuel - 1);
      if r != Stored {
        return r;
      }
      Carried(mid);
      r := Place(key, value, fuel - 1);
    }

    /** What a successful resize keeps of the table `t` it started from. */
    lemma Carried(t: seq<Option<(string, V)>>)
      requires Valid() && size >= 1 && Reinserted(table, probingMethod, t)
      ensures forall k :: Findable(t, probingMethod, k) ==> Findable(table, probingMethod, k)
      ensures KnownMethod(probingMethod) && Clean(t, probingMethod) ==>
                Clean(table, probingMethod) && forall k :: SearchResult(table, probingMethod, k) == SearchResult(t, probingMethod, k)
    {
      forall k | Findable(t, probingMethod, k) ensures Findable(table, probingMethod, k) {
        FindableIsStored(t, probingMethod, k);
      }
      if KnownMethod(probingMethod) && Clean(t, probingMethod) {
        RebuiltAgrees(t, table, probingMethod);
      }
    }

    /** What writing the pair into the slot where its scan stops does to searches. */
    lemma WriteFacts(key: string, value: V)
      requires Valid() && size >= 1
      requires FirstFree(table, probingMethod, key, 0).Ok? && FirstFree(table, probingMethod, key, 0).value.Some?
      ensures KnownMethod(probingMethod)
      ensures var t' := table[FirstFree(table, probingMethod, key, 0).value.value := Some((key, value))];
        SearchResult(t', probingMethod, key) == Ok(Some(value))
        && (forall k :: Findable(table, probingMethod, k) ==> Findable(t', probingMethod, k))
        && (Clean(table, probingMethod) ==>
              Clean(t', probingMethod) && forall k :: k != key ==> SearchResult(t', probingMethod, k) == SearchResult(table, probingMethod, k))
    {
      var index := FirstFree(table, probingMethod, key, 0).value.value;
      var t' := table[index := Some((key, value))];
      InsertThenSearch(table, probingMethod, key, value);
      forall k | Findable(table, probingMethod, k) ensures Findable(t', probingMethod, k) {
        if k != key {
          WriteKeepsOther(table, probingMethod, k, 0, index, Some((key, value)));
        } else {
          WriteAtStop(table, probingMethod, key, 0, Some((key, value)));
        }
      }
      if Clean(table, probingMethod) {
        WriteKeepsClean(table, probingMethod, key, value);
        WriteKeepsOthers(table, probingMethod, key, value);
      }
    }

    /** The value in the slot where the scan stops, if that slot holds the key. */
    method Search(key: string) returns (r: Result<Option<V>>)
      requires Valid()
      ensures r == SearchResult(table, probingMethod, key)
    {
      var found := Scan(key);
      if found.Err? {
        return Err(found.error);
      }
      if found.value.None? || table[found.value.value].None? {
        return Ok(None);
      }
      return Ok(Some(table[found.value.value].value.1));
    }

    /**
     * Empties the slot where the scan stops if it holds the key, decrements
     * `count` and reports True; reports False when the scan ends on an empty
     * slot or runs out of probes, as it does at once on a table without slots.
     */
    method Delete(key: string) returns (r: Result<bool>)
      requires Valid()
      modifies this
      ensures Valid() && size == old(size) && probingMethod == old(probingMethod)
      ensures loadNum == old(loadNum) && loadDen == old(loadDen)
      ensures r == Ok(true) <==> old(Findable(table, probingMethod, key))
      ensures r.Err? <==> !KnownMethod(probingMethod) && size >= 1
      ensures r == Ok(true) ==> table == old(table)[old(FirstFree(table, probingMethod, key, 0)).value.value := None]
                                && count == old(count) - 1
                                && SearchResult(table, probingMethod, key) == Ok(None)
      ensures r != Ok(true) ==> table == old(table) && count == old(count)
    {
      var found := Scan(key);
      if found.Err? {
        return Err(found.error);
      }
      if found.value.None? || table[found.value.value].None? {
        return Ok(false);
      }
      DeleteThenSearch(table, probingMethod, key);
      table := table[found.value.value := None];
      count := count - 1;
      return Ok(true);
    }
  }
}
