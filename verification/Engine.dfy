/** The in-memory engine's cursor: a position in the in-order traversal of an ordered map. */
module Engine {
  import opened Keys

  ghost predicate Below(keys: seq<Bytes>, i: nat, k: Bytes) {
    i < |keys| && Less(keys[i], k)
  }

  ghost predicate NotBelow(keys: seq<Bytes>, i: nat, k: Bytes) {
    i < |keys| && Leq(k, keys[i])
  }

  /** keys[..p] sort below k and keys[p..] do not. */
  ghost predicate LowerBound(keys: seq<Bytes>, k: Bytes, p: nat) {
    && p <= |keys|
    && (forall i: nat {:trigger Below(keys, i, k)} :: i < p ==> Below(keys, i, k))
    && (forall i: nat {:trigger NotBelow(keys, i, k)} :: p <= i < |keys| ==> NotBelow(keys, i, k))
  }

  /** The first key that is not below k splits the keys. */
  lemma SplitsAt(keys: seq<Bytes>, k: Bytes, p: nat)
    requires Ascending(keys) && p <= |keys|
    requires forall i: nat {:trigger Below(keys, i, k)} :: i < p ==> Below(keys, i, k)
    requires p < |keys| ==> !Less(keys[p], k)
    ensures LowerBound(keys, k, p)
  {
    forall i: nat | p <= i < |keys|
      ensures NotBelow(keys, i, k)
    {
      LessTotal(keys[p], k);
      assert InOrder(keys, p, i);
      if i != p && k != keys[p] { LessTransitive(k, keys[p], keys[i]); }
    }
  }

  lemma {:induction false} LowerBoundExists(keys: seq<Bytes>, k: Bytes, from: nat) returns (p: nat)
    requires Ascending(keys) && from <= |keys|
    requires forall i: nat {:trigger Below(keys, i, k)} :: i < from ==> Below(keys, i, k)
    ensures LowerBound(keys, k, p)
    decreases |keys| - from
  {
    if from < |keys| && Less(keys[from], k) {
      p := LowerBoundExists(keys, k, from + 1);
    } else {
      p := from;
      SplitsAt(keys, k, from);
    }
  }

  /** keys is the in-order traversal of the map's keys. */
  ghost predicate Traversal<V>(keys: seq<Bytes>, m: map<Bytes, V>) {
    Ascending(keys) && forall k :: k in keys <==> k in m
  }

  class MemCursor<V> {
    const table: map<Bytes, V>
    const keys: seq<Bytes>
    // |keys| is the end position
    var pos: nat

    constructor (table: map<Bytes, V>)
      ensures this.table == table && Traversal(keys, table) && pos == |keys|
    {
      this.table := table;
      this.keys := Sorted(table.Keys);
      this.pos := |Sorted(table.Keys)|;
    }

    /** Position at the first key that is not below k. */
    method Seek(k: Bytes) returns (ok: bool)
      requires Ascending(keys)
      modifies this
      ensures LowerBound(keys, k, pos) && (ok <==> pos < |keys|)
    {
      pos := 0;
      while pos < |keys| && Less(keys[pos], k)
        invariant pos <= |keys|
        invariant forall i: nat {:trigger Below(keys, i, k)} :: i < pos ==> Below(keys, i, k)
      {
        pos := pos + 1;
      }
      ok := pos < |keys|;
      SplitsAt(keys, k, pos);
    }

    method First() returns (ok: bool)
      modifies this
      ensures pos == 0 && (ok <==> pos < |keys|)
    {
      pos := 0;
      ok := pos < |keys|;
    }

    method Last() returns (ok: bool)
      modifies this
      ensures ok <==> keys != []
      ensures pos == if ok then |keys| - 1 else |keys|
    {
      ok := keys != [];
      pos := if ok then |keys| - 1 else |keys|;
    }

    method Next() returns (ok: bool)
      requires pos <= |keys|
      modifies this
      ensures pos == (if old(pos) < |keys| then old(pos) + 1 else |keys|) && (ok <==> pos < |keys|)
    {
      if pos < |keys| { pos := pos + 1; }
      ok := pos < |keys|;
    }

    /** Stepping back from the first key (or in an empty map) ends the iteration. */
    method Prev() returns (ok: bool)
      requires pos <= |keys|
      modifies this
      ensures ok <==> old(pos) != 0
      ensures pos == if ok then old(pos) - 1 else |keys|
    {
      ok := pos != 0;
      pos := if ok then pos - 1 else |keys|;
    }

    function Key(): Bytes
      requires pos < |keys|
      reads this
    {
      keys[pos]
    }

    function Val(): V
      requires pos < |keys| && keys[pos] in table
      reads this
    {
      table[keys[pos]]
    }
  }

  // ---- prefix scans ----

  /**
   A scan that starts at the first key not below the prefix and stops at the end or at the first key
   without the prefix has seen every key with it.
   */
  lemma ScanComplete(keys: seq<Bytes>, pfx: Bytes, start: nat, stop: nat, k: Bytes) returns (i: nat)
    requires Ascending(keys) && LowerBound(keys, pfx, start) && start <= stop <= |keys|
    requires stop < |keys| ==> !(pfx <= keys[stop])
    requires k in keys && pfx <= k
    ensures start <= i < stop && keys[i] == k
  {
    i :| 0 <= i < |keys| && keys[i] == k;
    var s := k[|pfx|..];
    assert k == pfx + s;
    PrefixLeq(pfx, s);
    if i < start {
      assert Below(keys, i, pfx);
      LessAsymmetric(keys[i], pfx);
    }
    if stop <= i {
      assert InOrder(keys, stop, i) && NotBelow(keys, stop, pfx);
      PrefixConvex(pfx, keys[stop], s);
    }
  }
}
