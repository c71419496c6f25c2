/** How the tables' keys are laid out as bytes: big-endian integers first, the name last. */
module TableKeys {
  import opened Keys
  import opened Options
  import Engine
  import opened FileSystem
  import opened VersionedDb

  function NodeBytes(id: nat, snap: nat): (b: Bytes)
    requires id < TWO64 && snap < TWO64
    ensures |b| == 16
  {
    Be(id) + Be(snap)
  }

  function DnBytes(dir: nat, ver: nat, name: Name): (b: Bytes)
    requires dir < TWO64 && ver < TWO64
    ensures |b| == 16 + |name|
  {
    Be(dir) + Be(ver) + name
  }

  function UpBytes(node: nat, ver: nat, dir: nat, name: Name): (b: Bytes)
    requires node < TWO64 && ver < TWO64 && dir < TWO64
    ensures |b| == 24 + |name|
  {
    Be(node) + Be(ver) + Be(dir) + name
  }

  function First8(b: Bytes): nat
    requires |b| >= 8
  {
    Rdbe(b[..8])
  }

  function Second8(b: Bytes): nat
    requires |b| >= 16
  {
    Rdbe(b[8..16])
  }

  function Third8(b: Bytes): nat
    requires |b| >= 24
  {
    Rdbe(b[16..24])
  }

  /** Two leading integers followed by anything: decoding inverts encoding, in both directions. */
  lemma PairDecodes(x: nat, y: nat, rest: Bytes)
    requires x < TWO64 && y < TWO64
    ensures var b := Be(x) + Be(y) + rest; First8(b) == x && Second8(b) == y && b[16..] == rest
  {
    var b := Be(x) + Be(y) + rest;
    BeRoundTrip(x);
    BeRoundTrip(y);
    assert b[..8] == Be(x) && b[8..16] == Be(y);
  }

  lemma PairEncodes(b: Bytes)
    requires |b| >= 16
    ensures b == Be(First8(b)) + Be(Second8(b)) + b[16..]
  {
    RdbeRoundTrip(b[..8]);
    RdbeRoundTrip(b[8..16]);
    assert b == b[..8] + b[8..16] + b[16..];
  }

  lemma TripleDecodes(x: nat, y: nat, z: nat, rest: Bytes)
    requires x < TWO64 && y < TWO64 && z < TWO64
    ensures var b := Be(x) + Be(y) + Be(z) + rest;
      First8(b) == x && Second8(b) == y && Third8(b) == z && b[24..] == rest && b[16..] == Be(z) + rest
  {
    var b := Be(x) + Be(y) + Be(z) + rest;
    BeRoundTrip(z);
    assert b == Be(x) + Be(y) + (Be(z) + rest);
    PairDecodes(x, y, Be(z) + rest);
    assert b[16..24] == Be(z);
  }

  lemma TripleEncodes(b: Bytes)
    requires |b| >= 24
    ensures b == Be(First8(b)) + Be(Second8(b)) + Be(Third8(b)) + b[24..]
    ensures b[16..] == Be(Third8(b)) + b[24..]
  {
    PairEncodes(b);
    RdbeRoundTrip(b[16..24]);
    assert b[16..] == b[16..24] + b[24..];
  }

  /** Byte order of pairs is numeric order, first component first. */
  lemma PairOrder(x: nat, y: nat, x': nat, y': nat)
    requires x < TWO64 && y < TWO64 && x' < TWO64 && y' < TWO64
    ensures Less(Be(x) + Be(y), Be(x') + Be(y')) <==> x < x' || (x == x' && y < y')
    ensures Be(x) + Be(y) == Be(x') + Be(y') <==> x == x' && y == y'
  {
    BeConcatOrder(x, x', Be(y), Be(y'));
    BeOrder(y, y');
    PairDecodes(x, y, []);
    PairDecodes(x', y', []);
    assert Be(x) + Be(y) + [] == Be(x) + Be(y) && Be(x') + Be(y') + [] == Be(x') + Be(y');
  }

  // ---- the engine's maps hold exactly the typed tables ----

  ghost predicate NodeStored(m: map<Bytes, Rec>, t: map<NodeKey, Rec>, k: NodeKey) {
    k in t ==> k.id < TWO64 && k.snap < TWO64 && NodeBytes(k.id, k.snap) in m && m[NodeBytes(k.id, k.snap)] == t[k]
  }

  ghost predicate NodeListed(m: map<Bytes, Rec>, t: map<NodeKey, Rec>, b: Bytes) {
    b in m ==> |b| == 16 && NodeKey(First8(b), Second8(b)) in t
  }

  ghost predicate EncodesNodes(m: map<Bytes, Rec>, t: map<NodeKey, Rec>) {
    (forall k :: NodeStored(m, t, k)) && (forall b :: NodeListed(m, t, b))
  }

  ghost predicate DownStored(m: map<Bytes, nat>, t: map<DnKey, nat>, k: DnKey) {
    k in t ==> k.dir < TWO64 && k.ver < TWO64 && DnBytes(k.dir, k.ver, k.name) in m && m[DnBytes(k.dir, k.ver, k.name)] == t[k]
  }

  ghost predicate DownListed(m: map<Bytes, nat>, t: map<DnKey, nat>, b: Bytes) {
    b in m ==> |b| >= 16 && DnKey(First8(b), Second8(b), b[16..]) in t
  }

  ghost predicate EncodesDown(m: map<Bytes, nat>, t: map<DnKey, nat>) {
    (forall k :: DownStored(m, t, k)) && (forall b :: DownListed(m, t, b))
  }

  ghost predicate UpStored(m: map<Bytes, ()>, t: set<UpKey>, k: UpKey) {
    k in t ==> k.node < TWO64 && k.ver < TWO64 && k.dir < TWO64 && UpBytes(k.node, k.ver, k.dir, k.name) in m
  }

  ghost predicate UpListed(m: map<Bytes, ()>, t: set<UpKey>, b: Bytes) {
    b in m ==> |b| >= 24 && UpKey(First8(b), Second8(b), Third8(b), b[24..]) in t
  }

  ghost predicate EncodesUps(m: map<Bytes, ()>, t: set<UpKey>) {
    (forall k :: UpStored(m, t, k)) && (forall b :: UpListed(m, t, b))
  }

  ghost predicate ChangeStored(m: map<Bytes, ()>, t: set<ChangeKey>, k: ChangeKey) {
    k in t ==> k.snap < TWO64 && k.id < TWO64 && NodeBytes(k.snap, k.id) in m
  }

  ghost predicate ChangeListed(m: map<Bytes, ()>, t: set<ChangeKey>, b: Bytes) {
    b in m ==> |b| == 16 && ChangeKey(First8(b), Second8(b)) in t
  }

  ghost predicate EncodesChanges(m: map<Bytes, ()>, t: set<ChangeKey>) {
    (forall k :: ChangeStored(m, t, k)) && (forall b :: ChangeListed(m, t, b))
  }

  lemma NodeBytesDecode(id: nat, snap: nat)
    requires id < TWO64 && snap < TWO64
    ensures First8(NodeBytes(id, snap)) == id && Second8(NodeBytes(id, snap)) == snap
  {
    PairDecodes(id, snap, []);
    assert NodeBytes(id, snap) + [] == NodeBytes(id, snap);
  }

  lemma NodeBytesEncode(b: Bytes)
    requires |b| == 16
    ensures NodeBytes(First8(b), Second8(b)) == b
  {
    PairEncodes(b);
    assert b[16..] == [];
  }

  lemma DnBytesEncode(b: Bytes)
    requires |b| >= 16
    ensures DnBytes(First8(b), Second8(b), b[16..]) == b
  {
    PairEncodes(b);
  }

  lemma EncodeNodePut(m: map<Bytes, Rec>, t: map<NodeKey, Rec>, id: nat, snap: nat, r: Rec)
    requires EncodesNodes(m, t) && id < TWO64 && snap < TWO64
    ensures EncodesNodes(m[NodeBytes(id, snap) := r], t[NodeKey(id, snap) := r])
  {
    var m', t' := m[NodeBytes(id, snap) := r], t[NodeKey(id, snap) := r];
    NodeBytesDecode(id, snap);
    forall k
      ensures NodeStored(m', t', k)
    {
      assert NodeStored(m, t, k);
      if k in t { NodeBytesDecode(k.id, k.snap); }
    }
    forall b
      ensures NodeListed(m', t', b)
    {
      assert NodeListed(m, t, b);
    }
  }

  lemma EncodeChangePut(m: map<Bytes, ()>, t: set<ChangeKey>, snap: nat, id: nat)
    requires EncodesChanges(m, t) && id < TWO64 && snap < TWO64
    ensures EncodesChanges(m[NodeBytes(snap, id) := ()], t + {ChangeKey(snap, id)})
  {
    var m', t' := m[NodeBytes(snap, id) := ()], t + {ChangeKey(snap, id)};
    NodeBytesDecode(snap, id);
    forall k
      ensures ChangeStored(m', t', k)
    {
      assert ChangeStored(m, t, k);
    }
    forall b
      ensures ChangeListed(m', t', b)
    {
      assert ChangeListed(m, t, b);
    }
  }

  lemma EncodeDownPut(m: map<Bytes, nat>, t: map<DnKey, nat>, dir: nat, ver: nat, name: Name, c: nat)
    requires EncodesDown(m, t) && dir < TWO64 && ver < TWO64
    ensures EncodesDown(m[DnBytes(dir, ver, name) := c], t[DnKey(dir, ver, name) := c])
  {
    var m', t' := m[DnBytes(dir, ver, name) := c], t[DnKey(dir, ver, name) := c];
    PairDecodes(dir, ver, name);
    forall k
      ensures DownStored(m', t', k)
    {
      assert DownStored(m, t, k);
      if k in t { PairDecodes(k.dir, k.ver, k.name); }
    }
    forall b
      ensures DownListed(m', t', b)
    {
      assert DownListed(m, t, b);
    }
  }

  lemma EncodeDownDel(m: map<Bytes, nat>, t: map<DnKey, nat>, dir: nat, ver: nat, name: Name)
    requires EncodesDown(m, t) && dir < TWO64 && ver < TWO64
    ensures EncodesDown(m - {DnBytes(dir, ver, name)}, t - {DnKey(dir, ver, name)})
  {
    var m', t' := m - {DnBytes(dir, ver, name)}, t - {DnKey(dir, ver, name)};
    PairDecodes(dir, ver, name);
    forall k
      ensures DownStored(m', t', k)
    {
      assert DownStored(m, t, k);
      if k in t { PairDecodes(k.dir, k.ver, k.name); }
    }
    forall b
      ensures DownListed(m', t', b)
    {
      assert DownListed(m, t, b);
      if b in m { DnBytesEncode(b); }
    }
  }

  lemma EncodeUpPut(m: map<Bytes, ()>, t: set<UpKey>, node: nat, ver: nat, dir: nat, name: Name)
    requires EncodesUps(m, t) && node < TWO64 && ver < TWO64 && dir < TWO64
    ensures EncodesUps(m[UpBytes(node, ver, dir, name) := ()], t + {UpKey(node, ver, dir, name)})
  {
    var m', t' := m[UpBytes(node, ver, dir, name) := ()], t + {UpKey(node, ver, dir, name)};
    TripleDecodes(node, ver, dir, name);
    forall k
      ensures UpStored(m', t', k)
    {
      assert UpStored(m, t, k);
    }
    forall b
      ensures UpListed(m', t', b)
    {
      assert UpListed(m, t, b);
    }
  }

  lemma EncodeUpDel(m: map<Bytes, ()>, t: set<UpKey>, node: nat, ver: nat, dir: nat, name: Name)
    requires EncodesUps(m, t) && node < TWO64 && ver < TWO64 && dir < TWO64
    ensures EncodesUps(m - {UpBytes(node, ver, dir, name)}, t - {UpKey(node, ver, dir, name)})
  {
    var m', t' := m - {UpBytes(node, ver, dir, name)}, t - {UpKey(node, ver, dir, name)};
    TripleDecodes(node, ver, dir, name);
    forall k
      ensures UpStored(m', t', k)
    {
      assert UpStored(m, t, k);
      if k in t { TripleDecodes(k.node, k.ver, k.dir, k.name); }
    }
    forall b
      ensures UpListed(m', t', b)
    {
      assert UpListed(m, t, b);
      if b in m { TripleEncodes(b); }
    }
  }

  lemma DownGet(m: map<Bytes, nat>, t: map<DnKey, nat>, dir: nat, ver: nat, name: Name)
    requires EncodesDown(m, t) && dir < TWO64 && ver < TWO64
    ensures DnBytes(dir, ver, name) in m <==> DnKey(dir, ver, name) in t
    ensures DnBytes(dir, ver, name) in m ==> m[DnBytes(dir, ver, name)] == t[DnKey(dir, ver, name)]
  {
    PairDecodes(dir, ver, name);
    assert DownStored(m, t, DnKey(dir, ver, name)) && DownListed(m, t, DnBytes(dir, ver, name));
  }

  lemma NodeGet(m: map<Bytes, Rec>, t: map<NodeKey, Rec>, id: nat, snap: nat)
    requires EncodesNodes(m, t) && id < TWO64 && snap < TWO64
    ensures NodeBytes(id, snap) in m <==> NodeKey(id, snap) in t
    ensures NodeBytes(id, snap) in m ==> m[NodeBytes(id, snap)] == t[NodeKey(id, snap)]
  {
    NodeBytesDecode(id, snap);
    assert NodeStored(m, t, NodeKey(id, snap)) && NodeListed(m, t, NodeBytes(id, snap));
  }

  // ---- the floor search on bytes ----

  /** The entry just below the search key decides: it is the floor record, or there is none. */
  lemma FloorBelow(m: map<Bytes, Rec>, t: map<NodeKey, Rec>, keys: seq<Bytes>, id: nat, g: nat, p: nat)
    requires EncodesNodes(m, t) && id < TWO64 && g < TWO64
    requires Ascending(keys) && (forall b :: b in keys <==> b in m)
    requires Engine.LowerBound(keys, NodeBytes(id, g), p) && (p < |keys| ==> keys[p] != NodeBytes(id, g))
    requires p != 0 ==> |keys[p - 1]| == 16
    ensures p != 0 && First8(keys[p - 1]) == id && Second8(keys[p - 1]) <= g ==>
      keys[p - 1] in m && Load(t, id, g) == Some(m[keys[p - 1]])
    ensures !(p != 0 && First8(keys[p - 1]) == id && Second8(keys[p - 1]) <= g) ==> Load(t, id, g) == None
  {
    forall s: nat | s <= g && NodeKey(id, s) in t
      ensures p != 0 && First8(keys[p - 1]) == id && s <= Second8(keys[p - 1]) <= g
    {
      FloorAbove(m, t, keys, id, g, p, s);
    }
    if p != 0 && First8(keys[p - 1]) == id && Second8(keys[p - 1]) <= g {
      var s := Second8(keys[p - 1]);
      assert keys[p - 1] in keys;
      assert NodeListed(m, t, keys[p - 1]);
      NodeBytesEncode(keys[p - 1]);
      NodeGet(m, t, id, s);
      assert Newest(t, id, g, s);
      LoadAt(t, id, s, g);
    } else {
      LoadNothing(t, id, g);
    }
  }

  /** Any record of id at or below g sits at or below the entry before the search position. */
  lemma FloorAbove(m: map<Bytes, Rec>, t: map<NodeKey, Rec>, keys: seq<Bytes>, id: nat, g: nat, p: nat, s: nat)
    requires EncodesNodes(m, t) && id < TWO64 && g < TWO64
    requires Ascending(keys) && (forall b :: b in keys <==> b in m)
    requires Engine.LowerBound(keys, NodeBytes(id, g), p) && (p < |keys| ==> keys[p] != NodeBytes(id, g))
    requires p != 0 ==> |keys[p - 1]| == 16
    requires s <= g && NodeKey(id, s) in t
    ensures p != 0 && First8(keys[p - 1]) == id && s <= Second8(keys[p - 1]) <= g
  {
    NodeGet(m, t, id, s);
    var key := NodeBytes(id, g);
    var i :| 0 <= i < |keys| && keys[i] == NodeBytes(id, s);
    PairOrder(id, s, id, g);
    if p <= i {
      assert Engine.NotBelow(keys, p, key) && InOrder(keys, p, i);
      LessIrreflexive(key);
      if p < i && keys[p] != key { LessTransitive(key, keys[p], keys[i]); }
      LessAsymmetric(key, keys[i]);
      assert false;
    }
    var b := keys[p - 1];
    NodeBytesEncode(b);
    assert Engine.Below(keys, p - 1, key) && InOrder(keys, i, p - 1);
    assert Less(b, key) && Leq(keys[i], b);
    PairOrder(First8(b), Second8(b), id, g);
    PairOrder(id, s, First8(b), Second8(b));
  }
}
