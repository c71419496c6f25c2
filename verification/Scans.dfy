/** What a cursor walking one key prefix collects, and what re-keying the collection amounts to. */
module Scans {
  import opened Keys
  import opened Options
  import opened FileSystem
  import opened Observations
  import opened VersionedDb
  import opened VersionedOps
  import opened Engine
  import opened TableKeys
  import opened Handles

  // ---- what the prefix scans return ----

  ghost predicate ListsDown(t: map<DnKey, nat>, dir: nat, ver: nat, es: seq<Entry>) {
    && EntriesAscend(es)
    && (forall x :: x in es ==> Get(t, DnKey(dir, ver, x.name)) == Some(x.child))
    && (forall n :: DnKey(dir, ver, n) in t ==> Entry(n, t[DnKey(dir, ver, n)]) in es)
  }

  /** es decodes the entries from start on, all of which carry the prefix. */
  ghost predicate ScannedDown(m: map<Bytes, nat>, keys: seq<Bytes>, pfx: Bytes, start: nat, es: seq<Entry>) {
    && start + |es| <= |keys|
    && (forall i: nat :: EntryOk(m, keys, pfx, start, es, i))
  }

  ghost predicate EntryOk(m: map<Bytes, nat>, keys: seq<Bytes>, pfx: Bytes, start: nat, es: seq<Entry>, i: nat) {
    i < |es| && start + i < |keys| ==> keys[start + i] == pfx + es[i].name && Get(m, keys[start + i]) == Some(es[i].child)
  }

  lemma ScannedDownAscends(m: map<Bytes, nat>, keys: seq<Bytes>, pfx: Bytes, start: nat, es: seq<Entry>)
    requires Ascending(keys) && ScannedDown(m, keys, pfx, start, es)
    ensures EntriesAscend(es)
  {
    forall i, j | 0 <= i < j < |es|
      ensures Less(es[i].name, es[j].name)
    {
      assert InOrder(keys, start + i, start + j);
      assert EntryOk(m, keys, pfx, start, es, i) && EntryOk(m, keys, pfx, start, es, j);
      LessIrreflexive(pfx);
      LessConcat(pfx, pfx, es[i].name, es[j].name);
    }
  }

  lemma ScannedDownSound(m: map<Bytes, nat>, t: map<DnKey, nat>, dir: nat, ver: nat, keys: seq<Bytes>, start: nat, es: seq<Entry>, x: Entry)
    requires EncodesDown(m, t) && dir < TWO64 && ver < TWO64
    requires ScannedDown(m, keys, Be(dir) + Be(ver), start, es) && x in es
    ensures Get(t, DnKey(dir, ver, x.name)) == Some(x.child)
  {
    var i :| 0 <= i < |es| && es[i] == x;
    assert EntryOk(m, keys, Be(dir) + Be(ver), start, es, i);
    assert keys[start + i] == DnBytes(dir, ver, x.name);
    DownGet(m, t, dir, ver, x.name);
  }

  lemma ScannedDownComplete(m: map<Bytes, nat>, t: map<DnKey, nat>, dir: nat, ver: nat, keys: seq<Bytes>, start: nat, es: seq<Entry>, n: Name)
    requires EncodesDown(m, t) && dir < TWO64 && ver < TWO64 && Traversal(keys, m)
    requires LowerBound(keys, Be(dir) + Be(ver), start) && ScannedDown(m, keys, Be(dir) + Be(ver), start, es)
    requires start + |es| < |keys| ==> !(Be(dir) + Be(ver) <= keys[start + |es|])
    requires DnKey(dir, ver, n) in t
    ensures Entry(n, t[DnKey(dir, ver, n)]) in es
  {
    assert DownStored(m, t, DnKey(dir, ver, n));
    var pfx, k := Be(dir) + Be(ver), DnBytes(dir, ver, n);
    var j := ScanComplete(keys, pfx, start, start + |es|, k);
    var x := es[j - start];
    assert EntryOk(m, keys, pfx, start, es, j - start);
    CancelPrefix(pfx, x.name, n);
    assert x == Entry(n, t[DnKey(dir, ver, n)]);
  }

  lemma ScannedDownLists(m: map<Bytes, nat>, t: map<DnKey, nat>, dir: nat, ver: nat, keys: seq<Bytes>, start: nat, es: seq<Entry>)
    requires EncodesDown(m, t) && dir < TWO64 && ver < TWO64 && Traversal(keys, m)
    requires LowerBound(keys, Be(dir) + Be(ver), start) && ScannedDown(m, keys, Be(dir) + Be(ver), start, es)
    requires start + |es| < |keys| ==> !(Be(dir) + Be(ver) <= keys[start + |es|])
    ensures ListsDown(t, dir, ver, es)
  {
    ScannedDownAscends(m, keys, Be(dir) + Be(ver), start, es);
    forall x | x in es
      ensures Get(t, DnKey(dir, ver, x.name)) == Some(x.child)
    {
      ScannedDownSound(m, t, dir, ver, keys, start, es, x);
    }
    forall n | DnKey(dir, ver, n) in t
      ensures Entry(n, t[DnKey(dir, ver, n)]) in es
    {
      ScannedDownComplete(m, t, dir, ver, keys, start, es, n);
    }
  }

  ghost predicate SuffixOf(t: set<UpKey>, node: nat, ver: nat, s: Bytes) {
    |s| >= 8 && UpKey(node, ver, First8(s), s[8..]) in t
  }

  ghost predicate HasSuffix(ss: seq<Bytes>, d: nat, n: Name) {
    d < TWO64 && Be(d) + n in ss
  }

  /** What a scan started at position i still collects. */
  ghost function ScanFrom(m: map<Bytes, nat>, keys: seq<Bytes>, pfx: Bytes, i: nat): seq<Entry>
    requires forall k :: k in keys ==> k in m
    decreases |keys| - i
  {
    if i >= |keys| || !(pfx <= keys[i]) then []
    else [Entry(keys[i][|pfx|..], m[keys[i]])] + ScanFrom(m, keys, pfx, i + 1)
  }

  lemma {:induction false} ScanFromScanned(m: map<Bytes, nat>, keys: seq<Bytes>, pfx: Bytes, i: nat)
    requires i <= |keys| && forall k :: k in keys ==> k in m
    ensures var es := ScanFrom(m, keys, pfx, i);
      ScannedDown(m, keys, pfx, i, es) && (i + |es| < |keys| ==> !(pfx <= keys[i + |es|]))
    decreases |keys| - i
  {
    if i < |keys| && pfx <= keys[i] {
      ScanFromScanned(m, keys, pfx, i + 1);
      var es, rest := ScanFrom(m, keys, pfx, i), ScanFrom(m, keys, pfx, i + 1);
      assert keys[i] == pfx + keys[i][|pfx|..];
      forall j: nat
        ensures EntryOk(m, keys, pfx, i, es, j)
      {
        if 0 < j < |es| { assert EntryOk(m, keys, pfx, i + 1, rest, j - 1); }
      }
    }
  }

  lemma ScanStep(m: map<Bytes, nat>, keys: seq<Bytes>, pfx: Bytes, i: nat, es: seq<Entry>, all: seq<Entry>)
    requires (forall k :: k in keys ==> k in m) && i < |keys| && pfx <= keys[i]
    requires es + ScanFrom(m, keys, pfx, i) == all
    ensures (es + [Entry(keys[i][|pfx|..], m[keys[i]])]) + ScanFrom(m, keys, pfx, i + 1) == all
  {
    var x, rest := Entry(keys[i][|pfx|..], m[keys[i]]), ScanFrom(m, keys, pfx, i + 1);
    assert (es + [x]) + rest == es + ([x] + rest);
  }

  /** A whole prefix scan lists the link set. */
  lemma ScanFromLists(m: map<Bytes, nat>, t: map<DnKey, nat>, dir: nat, ver: nat, keys: seq<Bytes>, start: nat)
    requires EncodesDown(m, t) && dir < TWO64 && ver < TWO64 && Traversal(keys, m)
    requires LowerBound(keys, Be(dir) + Be(ver), start)
    ensures ListsDown(t, dir, ver, ScanFrom(m, keys, Be(dir) + Be(ver), start))
  {
    var pfx := Be(dir) + Be(ver);
    ScanFromScanned(m, keys, pfx, start);
    ScannedDownLists(m, t, dir, ver, keys, start, ScanFrom(m, keys, pfx, start));
  }

  /** Starting the scan at the cursor skips only names the cursor has passed. */
  lemma {:induction false} SeekSkips(m: map<Bytes, nat>, keys: seq<Bytes>, pfx: Bytes, after: Name, i: nat, start: nat)
    requires Ascending(keys) && (forall k :: k in keys ==> k in m)
    requires LowerBound(keys, pfx + after, start) && i <= start
    requires forall j: nat {:trigger NotBelow(keys, j, pfx)} :: i <= j < |keys| ==> NotBelow(keys, j, pfx)
    ensures After(ScanFrom(m, keys, pfx, i), after) == After(ScanFrom(m, keys, pfx, start), after)
    decreases start - i
  {
    if i < start {
      assert NotBelow(keys, i, pfx) && Below(keys, i, pfx + after);
      PrefixConvex(pfx, keys[i], after);
      var n := keys[i][|pfx|..];
      assert keys[i] == pfx + n;
      LessIrreflexive(pfx);
      LessConcat(pfx, pfx, n, after);
      LessAsymmetric(n, after);
      SeekSkips(m, keys, pfx, after, i + 1, start);
      var es := ScanFrom(m, keys, pfx, i);
      assert es[1..] == ScanFrom(m, keys, pfx, i + 1);
    }
  }

  lemma PassedBy(after: Name, name: Name)
    ensures Leq(name, after) <==> !Less(after, name)
  {
    LessTotal(name, after);
    if Less(after, name) { LessAsymmetric(after, name); }
  }

  /** The test every scan makes on a key, and the name it cuts off. */
  method StripPrefix(k: Bytes, pfx: Bytes, ghost expected: Bytes) returns (rest: Option<Bytes>)
    requires |pfx| == 16
    ensures rest.Some? <==> pfx <= k
    ensures rest.Some? ==> k == pfx + rest.value && rest.value == k[16..]
    ensures k == pfx + expected ==> rest == Some(expected)
  {
    if |k| < 16 || k[..16] != pfx { return None; }
    assert k == pfx + k[16..];
    return Some(k[16..]);
  }

  lemma EntryAt(m: map<Bytes, nat>, keys: seq<Bytes>, pfx: Bytes, start: nat, vs: seq<Entry>, i: nat)
    requires ScannedDown(m, keys, pfx, start, vs) && start + i < |keys| && i <= |vs|
    requires start + |vs| < |keys| ==> !(pfx <= keys[start + |vs|])
    ensures i < |vs| <==> pfx <= keys[start + i]
    ensures i < |vs| ==> keys[start + i] == pfx + vs[i].name && Get(m, keys[start + i]) == Some(vs[i].child)
  {
    assert EntryOk(m, keys, pfx, start, vs, i);
  }

  /** vs is what a scan from start collects; the cursor has passed its first off entries. */
  ghost predicate PageOf(m: map<Bytes, nat>, keys: seq<Bytes>, pfx: Bytes, after: Name, start: nat, vs: seq<Entry>, off: nat) {
    && ScannedDown(m, keys, pfx, start, vs) && off <= |vs|
    && (start + |vs| < |keys| ==> !(pfx <= keys[start + |vs|]))
    && (forall i: nat :: PassedOk(vs, after, off, i))
  }

  ghost predicate PassedOk(vs: seq<Entry>, after: Name, off: nat, i: nat) {
    i < |vs| ==> (Leq(vs[i].name, after) <==> i < off)
  }

  /** A scan from the cursor on meets at most one entry, the first, that the cursor has passed. */
  lemma PageShape(m: map<Bytes, nat>, keys: seq<Bytes>, pfx: Bytes, after: Name, start: nat) returns (vs: seq<Entry>, off: nat)
    requires Ascending(keys) && (forall k :: k in keys ==> k in m) && LowerBound(keys, pfx + after, start)
    ensures PageOf(m, keys, pfx, after, start, vs, off)
  {
    vs := ScanFrom(m, keys, pfx, start);
    ScanFromScanned(m, keys, pfx, start);
    ScannedDownAscends(m, keys, pfx, start, vs);
    off := if vs != [] && vs[0].name == after then 1 else 0;
    if vs != [] {
      assert EntryOk(m, keys, pfx, start, vs, 0) && NotBelow(keys, start, pfx + after);
      LessIrreflexive(pfx);
      LessConcat(pfx, pfx, after, vs[0].name);
      if vs[0].name != after { CancelPrefixNot(pfx, after, vs[0].name); }
    }
    forall i: nat
      ensures PassedOk(vs, after, off, i)
    {
      if i < |vs| {
        PassedBy(after, vs[i].name);
        if i != 0 && vs[0].name != after { LessTransitive(after, vs[0].name, vs[i].name); }
        LessIrreflexive(after);
      }
    }
  }

  lemma {:induction false} AfterDrops(vs: seq<Entry>, after: Name, off: nat)
    requires off <= |vs| && forall i: nat :: PassedOk(vs, after, off, i)
    ensures vs[off..] == After(vs, after)
  {
    if vs != [] {
      PassedBy(after, vs[0].name);
      assert PassedOk(vs, after, off, 0);
    }
    if off != 0 {
      var tail, less := vs[1..], off - 1;
      forall i: nat
        ensures PassedOk(tail, after, less, i)
      {
        assert PassedOk(vs, after, off, i + 1);
      }
      AfterDrops(tail, after, less);
    }
  }

  lemma {:induction false} ScannedIsScan(m: map<Bytes, nat>, keys: seq<Bytes>, pfx: Bytes, start: nat, vs: seq<Entry>)
    requires ScannedDown(m, keys, pfx, start, vs) && (forall k :: k in keys ==> k in m)
    requires start + |vs| < |keys| ==> !(pfx <= keys[start + |vs|])
    ensures vs == ScanFrom(m, keys, pfx, start)
    decreases |vs|
  {
    if vs != [] {
      assert EntryOk(m, keys, pfx, start, vs, 0);
      assert (pfx + vs[0].name)[|pfx|..] == vs[0].name;
      var next, tail := start + 1, vs[1..];
      forall j: nat
        ensures EntryOk(m, keys, pfx, next, tail, j)
      {
        assert EntryOk(m, keys, pfx, start, vs, j + 1);
      }
      ScannedIsScan(m, keys, pfx, next, tail);
    }
  }

  ghost predicate CopiedAt(es: seq<Entry>, vs: seq<Entry>, off: nat, j: nat) {
    j < |es| ==> off + j < |vs| && es[j] == vs[off + j]
  }

  /** es is a stretch of vs, from position off. */
  ghost predicate Copied(es: seq<Entry>, vs: seq<Entry>, off: nat) {
    forall j: nat :: CopiedAt(es, vs, off, j)
  }

  lemma CopiedStep(es: seq<Entry>, vs: seq<Entry>, off: nat, i: nat, x: Entry)
    requires Copied(es, vs, off) && i == off + |es| && i < |vs| && x == vs[i]
    ensures Copied(es + [x], vs, off)
  {
    forall j: nat
      ensures CopiedAt(es + [x], vs, off, j)
    {
      assert CopiedAt(es, vs, off, j);
    }
  }

  lemma CopiedSlice(es: seq<Entry>, vs: seq<Entry>, off: nat)
    requires Copied(es, vs, off) && off + |es| <= |vs|
    ensures es == vs[off..][..|es|]
  {
    forall j: nat | j < |es|
      ensures es[j] == vs[off..][j]
    {
      assert CopiedAt(es, vs, off, j);
    }
  }

  /** What the page walk returns, read off the shape. */
  lemma PageMeaning(m: map<Bytes, nat>, keys: seq<Bytes>, pfx: Bytes, after: Name, start: nat, vs: seq<Entry>, off: nat)
    requires PageOf(m, keys, pfx, after, start, vs, off) && (forall k :: k in keys ==> k in m)
    ensures After(ScanFrom(m, keys, pfx, start), after) == vs[off..]
  {
    ScannedIsScan(m, keys, pfx, start, vs);
    AfterDrops(vs, after, off);
  }

  lemma CancelPrefixNot(p: Bytes, a: Bytes, b: Bytes)
    requires a != b
    ensures p + a != p + b
  {
    if p + a == p + b { CancelPrefix(p, a, b); }
  }

  /** The suffixes container ‖ name of a node's up-link set, in order. */
  ghost predicate ListsUps(t: set<UpKey>, node: nat, ver: nat, ss: seq<Bytes>) {
    && Ascending(ss)
    && (forall s :: s in ss ==> SuffixOf(t, node, ver, s))
    && (forall d: nat, n: Name {:trigger HasSuffix(ss, d, n)} :: UpKey(node, ver, d, n) in t ==> HasSuffix(ss, d, n))
  }

  ghost predicate ScannedUps(keys: seq<Bytes>, pfx: Bytes, start: nat, ss: seq<Bytes>) {
    && start + |ss| <= |keys|
    && forall i :: 0 <= i < |ss| ==> keys[start + i] == pfx + ss[i]
  }

  lemma ScannedUpsAscends(keys: seq<Bytes>, pfx: Bytes, start: nat, ss: seq<Bytes>)
    requires Ascending(keys) && ScannedUps(keys, pfx, start, ss)
    ensures Ascending(ss)
  {
    forall i: nat, j: nat
      ensures InOrder(ss, i, j)
    {
      if i < j < |ss| {
        assert InOrder(keys, start + i, start + j);
        LessIrreflexive(pfx);
        LessConcat(pfx, pfx, ss[i], ss[j]);
      }
    }
  }

  lemma ScannedUpsSound(m: map<Bytes, ()>, t: set<UpKey>, node: nat, ver: nat, keys: seq<Bytes>, start: nat, ss: seq<Bytes>, s: Bytes)
    requires EncodesUps(m, t) && node < TWO64 && ver < TWO64 && (forall k :: k in keys ==> k in m)
    requires ScannedUps(keys, Be(node) + Be(ver), start, ss) && s in ss
    ensures SuffixOf(t, node, ver, s)
  {
    var i :| 0 <= i < |ss| && ss[i] == s;
    var b := keys[start + i];
    assert b in keys && b == Be(node) + Be(ver) + s;
    assert UpListed(m, t, b);
    PairDecodes(node, ver, s);
    assert b[16..24] == s[..8] && b[24..] == s[8..];
  }

  lemma ScannedUpsComplete(m: map<Bytes, ()>, t: set<UpKey>, node: nat, ver: nat, keys: seq<Bytes>, start: nat, ss: seq<Bytes>, d: nat, n: Name)
    requires EncodesUps(m, t) && node < TWO64 && ver < TWO64 && Traversal(keys, m)
    requires LowerBound(keys, Be(node) + Be(ver), start) && ScannedUps(keys, Be(node) + Be(ver), start, ss)
    requires start + |ss| < |keys| ==> !(Be(node) + Be(ver) <= keys[start + |ss|])
    requires UpKey(node, ver, d, n) in t
    ensures HasSuffix(ss, d, n)
  {
    assert UpStored(m, t, UpKey(node, ver, d, n));
    var pfx := Be(node) + Be(ver);
    var k := pfx + (Be(d) + n);
    assert k == UpBytes(node, ver, d, n);
    var j := ScanComplete(keys, pfx, start, start + |ss|, k);
    assert keys[start + (j - start)] == pfx + ss[j - start];
    CancelPrefix(pfx, ss[j - start], Be(d) + n);
  }

  lemma ScannedUpsLists(m: map<Bytes, ()>, t: set<UpKey>, node: nat, ver: nat, keys: seq<Bytes>, start: nat, ss: seq<Bytes>)
    requires EncodesUps(m, t) && node < TWO64 && ver < TWO64 && Traversal(keys, m)
    requires LowerBound(keys, Be(node) + Be(ver), start) && ScannedUps(keys, Be(node) + Be(ver), start, ss)
    requires start + |ss| < |keys| ==> !(Be(node) + Be(ver) <= keys[start + |ss|])
    ensures ListsUps(t, node, ver, ss)
  {
    ScannedUpsAscends(keys, Be(node) + Be(ver), start, ss);
    forall s | s in ss
      ensures SuffixOf(t, node, ver, s)
    {
      ScannedUpsSound(m, t, node, ver, keys, start, ss, s);
    }
    forall d: nat, n: Name | UpKey(node, ver, d, n) in t
      ensures HasSuffix(ss, d, n)
    {
      ScannedUpsComplete(m, t, node, ver, keys, start, ss, d, n);
    }
  }

  // ---- copying a scanned link set ----

  function PutAllDown(t: map<DnKey, nat>, dir: nat, ver: nat, es: seq<Entry>): map<DnKey, nat> {
    if es == [] then t
    else
      var x := es[|es| - 1];
      PutAllDown(t, dir, ver, es[..|es| - 1])[DnKey(dir, ver, x.name) := x.child]
  }

  /** The child of the last entry with the name. */
  function ChildNamed(es: seq<Entry>, n: Name): Option<nat> {
    if es == [] then None
    else if es[|es| - 1].name == n then Some(es[|es| - 1].child)
    else ChildNamed(es[..|es| - 1], n)
  }

  lemma {:induction false} PutAllDownHas(t: map<DnKey, nat>, dir: nat, ver: nat, es: seq<Entry>, k: DnKey)
    ensures Get(PutAllDown(t, dir, ver, es), k) ==
      if k.dir == dir && k.ver == ver && ChildNamed(es, k.name).Some? then ChildNamed(es, k.name) else Get(t, k)
  {
    if es != [] { PutAllDownHas(t, dir, ver, es[..|es| - 1], k); }
  }

  lemma {:induction false} ChildNamedIs(es: seq<Entry>, x: Entry)
    requires EntriesAscend(es) && x in es
    ensures ChildNamed(es, x.name) == Some(x.child)
  {
    var n := |es| - 1;
    if es[n] != x {
      var i :| 0 <= i < |es| && es[i] == x;
      LessAsymmetric(es[i].name, es[n].name);
      assert es[..n][i] == x;
      ChildNamedIs(es[..n], x);
    }
  }

  lemma {:induction false} ChildNamedIn(es: seq<Entry>, n: Name)
    ensures ChildNamed(es, n).Some? ==> Entry(n, ChildNamed(es, n).value) in es
  {
    if es != [] { ChildNamedIn(es[..|es| - 1], n); }
  }

  /** Re-keying what a scan listed is the copy of the whole link set. */
  lemma PutAllDownCopies(db: Db, dir: nat, ver: nat, es: seq<Entry>)
    requires ListsDown(db.down, dir, ver, es) && ver != db.cur
    ensures PutAllDown(db.down, dir, db.cur, es) == db.down + CopiedDown(db, dir, ver)
  {
    var a, b := PutAllDown(db.down, dir, db.cur, es), db.down + CopiedDown(db, dir, ver);
    forall k
      ensures Get(a, k) == Get(b, k)
      ensures k in a <==> k in b
      ensures k in a ==> a[k] == b[k]
    {
      PutAllDownHas(db.down, dir, db.cur, es, k);
      CopiedDownHas(db, dir, ver, k);
      ChildNamedIn(es, k.name);
      var o := DnKey(dir, ver, k.name);
      if o in db.down { ChildNamedIs(es, Entry(k.name, db.down[o])); }
    }
  }

  function PutAllUps(t: set<UpKey>, node: nat, ver: nat, ss: seq<Bytes>): set<UpKey>
    requires forall s :: s in ss ==> |s| >= 8
  {
    if ss == [] then t
    else
      var s := ss[|ss| - 1];
      assert s in ss;
      PutAllUps(t, node, ver, ss[..|ss| - 1]) + {UpKey(node, ver, First8(s), s[8..])}
  }

  lemma PutAllUpsStep(t: set<UpKey>, node: nat, ver: nat, ss: seq<Bytes>, i: nat)
    requires i < |ss| && forall s :: s in ss ==> |s| >= 8
    ensures |ss[i]| >= 8
    ensures (forall s :: s in ss[..i] ==> |s| >= 8) && (forall s :: s in ss[..i + 1] ==> |s| >= 8)
    ensures PutAllUps(t, node, ver, ss[..i + 1]) == PutAllUps(t, node, ver, ss[..i]) + {UpKey(node, ver, First8(ss[i]), ss[i][8..])}
  {
    assert ss[i] in ss;
    assert ss[..i + 1][..i] == ss[..i];
  }

  /** Copying one suffix under the node's new version. */
  lemma PutUpSuffix(m: map<Bytes, ()>, t: set<UpKey>, node: nat, ver: nat, s: Bytes)
    requires EncodesUps(m, t) && node < TWO64 && ver < TWO64 && |s| >= 8
    ensures EncodesUps(m[Be(node) + Be(ver) + s := ()], t + {UpKey(node, ver, First8(s), s[8..])})
  {
    RdbeRoundTrip(s[..8]);
    assert s == s[..8] + s[8..];
    assert Be(node) + Be(ver) + s == UpBytes(node, ver, First8(s), s[8..]);
    EncodeUpPut(m, t, node, ver, First8(s), s[8..]);
  }

  lemma {:induction false} PutAllUpsHas(t: set<UpKey>, node: nat, ver: nat, ss: seq<Bytes>, k: UpKey)
    requires forall s :: s in ss ==> |s| >= 8
    ensures k in PutAllUps(t, node, ver, ss) <==> k in t || exists s :: s in ss && k == UpKey(node, ver, First8(s), s[8..])
  {
    if ss != [] {
      var n := |ss| - 1;
      PutAllUpsHas(t, node, ver, ss[..n], k);
      assert ss == ss[..n] + [ss[n]];
    }
  }

  lemma PutAllUpsCopies(db: Db, node: nat, ver: nat, ss: seq<Bytes>)
    requires ListsUps(db.ups, node, ver, ss)
    ensures PutAllUps(db.ups, node, db.cur, ss) == db.ups + CopiedUps(db, node, ver)
  {
    var a, b := PutAllUps(db.ups, node, db.cur, ss), db.ups + CopiedUps(db, node, ver);
    forall k
      ensures k in a <==> k in b
    {
      PutAllUpsHas(db.ups, node, db.cur, ss, k);
      CopiedUpsHas(db, node, ver, k);
      if k in CopiedUps(db, node, ver) {
        assert UpKey(node, ver, k.dir, k.name) in db.ups && HasSuffix(ss, k.dir, k.name);
        BeRoundTrip(k.dir);
        var s := Be(k.dir) + k.name;
        assert s[..8] == Be(k.dir) && s[8..] == k.name;
      }
    }
  }
}
