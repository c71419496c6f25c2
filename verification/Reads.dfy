/** What the store's read paths rest on: parents, the change index, and the one-pass walk over node records. */
module Reads {
  import opened Keys
  import opened Options
  import opened FileSystem
  import opened Observations
  import opened Handles
  import opened VersionedDb
  import opened VersionedOps
  import opened Engine
  import opened TableKeys
  import opened Scans
  import Numbers

  lemma NodeView(db: Db, fs: Fs, x: nat, g: nat)
    requires Inv(db) && Rel(db, fs)
    ensures NodeAt(db, x, g) == Get(fs.At(g).nodes, x)
    ensures Load(db.nodes, x, g).Some? ==> Load(db.nodes, x, g).value.dn <= db.cur && Load(db.nodes, x, g).value.up <= db.cur
  {
    assert NodeAt(db, x, g) == Get(fs.At(g).nodes, x);
    if Load(db.nodes, x, g).Some? { LoadBounds(db, x, g); }
  }

  lemma NoNodeNoLinks(db: Db, fs: Fs, x: nat, g: nat)
    requires Inv(db) && Rel(db, fs) && Load(db.nodes, x, g).None?
    ensures Listing(fs.At(g), x) == [] && Containers(fs.At(g), x) == {}
  {
    var v := fs.At(g);
    forall n: Name
      ensures Edge(x, n) !in v.links
    {
      assert LinkAt(db, x, n, g) == Get(v.links, Edge(x, n));
    }
    ListingUnique(v, x, []);
    forall e | e in v.links
      ensures v.links[e] != x
    {
      assert UpAt(db, x, e.dir, e.name, g) <==> Get(v.links, Edge(e.dir, e.name)) == Some(x);
    }
  }

  // ---- parents ----

  lemma SuffixContainer(t: set<UpKey>, node: nat, ver: nat, ss: seq<Bytes>, i: nat, j: nat)
    requires ListsUps(t, node, ver, ss) && i <= j < |ss|
    ensures |ss[i]| >= 8 && |ss[j]| >= 8 && First8(ss[i]) <= First8(ss[j])
  {
    assert ss[i] in ss && ss[j] in ss;
    assert SuffixOf(t, node, ver, ss[i]) && SuffixOf(t, node, ver, ss[j]);
    assert InOrder(ss, i, j);
    var a, b := ss[i], ss[j];
    RdbeRoundTrip(a[..8]);
    RdbeRoundTrip(b[..8]);
    assert a == Be(First8(a)) + a[8..] && b == Be(First8(b)) + b[8..];
    BeConcatOrder(First8(a), First8(b), a[8..], b[8..]);
  }

  /** The containers named by a view's up-link set are the view's containers. */
  lemma ContainersListed(db: Db, fs: Fs, c: nat, g: nat, ss: seq<Bytes>, d: nat)
    requires Inv(db) && Rel(db, fs) && Load(db.nodes, c, g).Some?
    requires ListsUps(db.ups, c, Load(db.nodes, c, g).value.up, ss)
    ensures d in Containers(fs.At(g), c) <==> exists i :: 0 <= i < |ss| && |ss[i]| >= 8 && First8(ss[i]) == d
  {
    var v, up := fs.At(g), Load(db.nodes, c, g).value.up;
    if d in Containers(v, c) {
      var e :| e in v.links && v.links[e] == c && e.dir == d;
      assert UpAt(db, c, e.dir, e.name, g) <==> Get(v.links, Edge(e.dir, e.name)) == Some(c);
      assert UpKey(c, up, d, e.name) in db.ups;
      assert HasSuffix(ss, d, e.name);
      BeRoundTrip(d);
      var s := Be(d) + e.name;
      assert s[..8] == Be(d);
      var i :| 0 <= i < |ss| && ss[i] == s;
    }
    if i :| 0 <= i < |ss| && |ss[i]| >= 8 && First8(ss[i]) == d {
      assert ss[i] in ss;
      assert SuffixOf(db.ups, c, up, ss[i]);
      var n := ss[i][8..];
      assert UpAt(db, c, d, n, g) <==> Get(v.links, Edge(d, n)) == Some(c);
      assert Edge(d, n) in v.links && v.links[Edge(d, n)] == c;
      assert Edge(d, n).dir in Containers(v, c);
    }
  }

  // ---- the change index ----

  /** The candidates cover every node that differs between two views. */
  lemma CandidatesCover(db: Db, fs: Fs, a: nat, b: nat)
    requires Inv(db) && Rel(db, fs) && a <= b
    ensures Collect(fs.At(a), fs.At(b), Numbers.Sorted(Candidates(db, a, b))) == DiffNodes(fs.At(a), fs.At(b))
  {
    var v, w, cand := fs.At(a), fs.At(b), Candidates(db, a, b);
    var all := v.nodes.Keys + w.nodes.Keys;
    forall id | id !in cand
      ensures ClassifyIn(v, w, id) == None
    {
      NonCandidateUnchanged(db, a, b, id);
      NodeView(db, fs, id, a);
      NodeView(db, fs, id, b);
    }
    CollectSets(v, w, cand, all + cand);
    CollectSets(v, w, all, all + cand);
  }

  /** A directory outside the candidates holds the same links in both views. */
  lemma NonCandidateSameLinks(db: Db, fs: Fs, a: nat, b: nat, d: nat, n: Name)
    requires Inv(db) && Rel(db, fs) && a <= b && d !in Candidates(db, a, b)
    ensures Get(fs.At(a).links, Edge(d, n)) == Get(fs.At(b).links, Edge(d, n))
  {
    NonCandidateUnchanged(db, a, b, d);
    assert LinkAt(db, d, n, a) == Get(fs.At(a).links, Edge(d, n));
    assert LinkAt(db, d, n, b) == Get(fs.At(b).links, Edge(d, n));
  }

  lemma CandidateBounds(db: Db, a: nat, b: nat, cand: set<nat>)
    requires Inv(db) && cand == Candidates(db, a, b)
    ensures forall id :: id in cand ==> id < db.next
    ensures a > b ==> cand == {}
  {
    forall id | id in cand
      ensures id < db.next && a <= b
    {
      var k :| k in db.changes && a < k.snap <= b && k.id == id;
      assert NodeKey(k.id, k.snap) in db.nodes;
    }
  }

  /** No directory whose names changed is outside the candidates. */
  lemma CandidatesCoverNames(db: Db, fs: Fs, a: nat, b: nat, cand: set<nat>)
    requires Inv(db) && Rel(db, fs) && a <= b && cand == Candidates(db, a, b)
    ensures forall p :: NameDiff(fs.At(a), fs.At(b), p) ==> p.parent in cand
  {
    forall p | NameDiff(fs.At(a), fs.At(b), p)
      ensures p.parent in cand
    {
      if p.parent !in cand { NonCandidateSameLinks(db, fs, a, b, p.parent, p.name); }
    }
  }

  function KeySnap(keys: seq<Bytes>, i: nat): nat {
    if i < |keys| && |keys[i]| == 16 then First8(keys[i]) else 0
  }

  function KeyId(keys: seq<Bytes>, i: nat): nat {
    if i < |keys| && |keys[i]| == 16 then Second8(keys[i]) else 0
  }

  /** The ids met by a walk over the change index from start to stop. */
  ghost function IdsBetween(keys: seq<Bytes>, start: nat, stop: nat): set<nat>
    decreases stop
  {
    if stop <= start then {} else IdsBetween(keys, start, stop - 1) + {KeyId(keys, stop - 1)}
  }

  lemma {:induction false} IdsBetweenHas(keys: seq<Bytes>, start: nat, stop: nat, x: nat)
    ensures x in IdsBetween(keys, start, stop) ==> exists i: nat :: start <= i < stop && KeyId(keys, i) == x
    ensures forall i: nat :: start <= i < stop && KeyId(keys, i) == x ==> x in IdsBetween(keys, start, stop)
    decreases stop
  {
    if stop > start {
      IdsBetweenHas(keys, start, stop - 1, x);
      if x == KeyId(keys, stop - 1) { assert start <= stop - 1 < stop; }
    }
  }

  lemma KeySnapOrder(keys: seq<Bytes>, i: nat, j: nat)
    requires Ascending(keys) && i <= j < |keys| && |keys[i]| == 16 && |keys[j]| == 16
    ensures KeySnap(keys, i) <= KeySnap(keys, j)
  {
    assert InOrder(keys, i, j);
    NodeBytesEncode(keys[i]);
    NodeBytesEncode(keys[j]);
    PairOrder(First8(keys[i]), Second8(keys[i]), First8(keys[j]), Second8(keys[j]));
  }

  /** Against an eight-byte search key, only the snapshot part of a change key counts. */
  lemma SeekSnap(x: nat, snap: nat, id: nat)
    requires x < TWO64 && snap < TWO64 && id < TWO64
    ensures Less(NodeBytes(snap, id), Be(x)) <==> snap < x
    ensures Leq(Be(x), NodeBytes(snap, id)) <==> x <= snap
  {
    assert Be(x) + [] == Be(x);
    BeConcatOrder(snap, x, Be(id), []);
    BeConcatOrder(x, snap, [], Be(id));
    PrefixLeq([], Be(id));
    assert [] + Be(id) == Be(id) && !Less(Be(id), []);
    assert |NodeBytes(snap, id)| != |Be(x)|;
  }

  /** Every key of an encoded change index decodes to a change, and back. */
  lemma ChangeKeyAt(m: map<Bytes, ()>, t: set<ChangeKey>, keys: seq<Bytes>, i: nat)
    requires EncodesChanges(m, t) && (forall k :: k in keys ==> k in m) && i < |keys|
    ensures |keys[i]| == 16 && keys[i] == NodeBytes(KeySnap(keys, i), KeyId(keys, i))
    ensures ChangeKey(KeySnap(keys, i), KeyId(keys, i)) in t
  {
    assert keys[i] in keys && ChangeListed(m, t, keys[i]);
    NodeBytesEncode(keys[i]);
  }

  lemma WalkedIsCandidate(m: map<Bytes, ()>, db: Db, keys: seq<Bytes>, a: nat, b: nat, start: nat, stop: nat, x: nat)
    requires EncodesChanges(m, db.changes) && Ascending(keys) && (forall k :: k in keys <==> k in m)
    requires a + 1 < TWO64 && LowerBound(keys, Be(a + 1), start) && start < stop <= |keys|
    requires KeySnap(keys, stop - 1) <= b && x in IdsBetween(keys, start, stop)
    ensures x in Candidates(db, a, b)
  {
    IdsBetweenHas(keys, start, stop, x);
    var i: nat :| start <= i < stop && KeyId(keys, i) == x;
    ChangeKeyAt(m, db.changes, keys, i);
    ChangeKeyAt(m, db.changes, keys, stop - 1);
    KeySnapOrder(keys, i, stop - 1);
    assert NotBelow(keys, i, Be(a + 1));
    SeekSnap(a + 1, KeySnap(keys, i), x);
    assert ChangeKey(KeySnap(keys, i), x).id in Candidates(db, a, b);
  }

  lemma CandidateIsWalked(m: map<Bytes, ()>, db: Db, keys: seq<Bytes>, a: nat, b: nat, start: nat, stop: nat, x: nat)
    requires EncodesChanges(m, db.changes) && Ascending(keys) && (forall k :: k in keys <==> k in m)
    requires a + 1 < TWO64 && LowerBound(keys, Be(a + 1), start) && start <= stop <= |keys|
    requires stop < |keys| ==> KeySnap(keys, stop) > b
    requires x in Candidates(db, a, b)
    ensures x in IdsBetween(keys, start, stop)
  {
    var k :| k in db.changes && a < k.snap <= b && k.id == x;
    assert ChangeStored(m, db.changes, k);
    var i :| 0 <= i < |keys| && keys[i] == NodeBytes(k.snap, k.id);
    NodeBytesDecode(k.snap, k.id);
    SeekSnap(a + 1, k.snap, k.id);
    LessAsymmetricIf(keys[i], Be(a + 1));
    assert i < start ==> Below(keys, i, Be(a + 1));
    if stop <= i {
      ChangeKeyAt(m, db.changes, keys, stop);
      KeySnapOrder(keys, stop, i);
    }
    IdsBetweenHas(keys, start, stop, x);
    assert KeyId(keys, i) == x;
  }

  lemma LessAsymmetricIf(a: Bytes, b: Bytes)
    ensures Less(a, b) ==> !Leq(b, a)
  {
    if Less(a, b) { LessAsymmetric(a, b); }
  }

  /** Between its bounds, the walk meets exactly the nodes written in (a, b]. */
  lemma WalkedAreCandidates(m: map<Bytes, ()>, db: Db, keys: seq<Bytes>, a: nat, b: nat, start: nat, stop: nat)
    requires EncodesChanges(m, db.changes) && Ascending(keys) && (forall k :: k in keys <==> k in m)
    requires a + 1 < TWO64 && LowerBound(keys, Be(a + 1), start) && start <= stop <= |keys|
    requires stop > start ==> KeySnap(keys, stop - 1) <= b
    requires stop < |keys| ==> KeySnap(keys, stop) > b
    ensures IdsBetween(keys, start, stop) == Candidates(db, a, b)
  {
    forall x
      ensures x in IdsBetween(keys, start, stop) <==> x in Candidates(db, a, b)
    {
      if x in IdsBetween(keys, start, stop) { WalkedIsCandidate(m, db, keys, a, b, start, stop, x); }
      if x in Candidates(db, a, b) { CandidateIsWalked(m, db, keys, a, b, start, stop, x); }
    }
  }

  // ---- the walk over node records ----

  datatype Eff = Eff(id: nat, rec: Rec)

  ghost predicate EffsAscend(es: seq<Eff>) {
    forall i, j :: 0 <= i < j < |es| ==> es[i].id < es[j].id
  }

  /** es lists, in order of id, the floor record at g of every id below bound that has one. */
  ghost predicate Effective(t: map<NodeKey, Rec>, g: nat, es: seq<Eff>, bound: nat) {
    && EffsAscend(es)
    && (forall e :: e in es ==> e.id < bound && Load(t, e.id, g) == Some(e.rec))
    && (forall id: nat {:trigger Load(t, id, g)} :: id < bound && Load(t, id, g).Some? ==> Eff(id, Load(t, id, g).value) in es)
  }

  /** One more record, the newest of its id so far. */
  lemma {:induction false} LoadInsert(t: map<NodeKey, Rec>, id: nat, s: nat, r: Rec, x: nat, g: nat)
    requires forall k :: k in t && k.id == id ==> k.snap < s
    ensures Load(t[NodeKey(id, s) := r], x, g) == if x == id && s <= g then Some(r) else Load(t, x, g)
    decreases g
  {
    var t' := t[NodeKey(id, s) := r];
    if x == id && s < g {
      assert NodeKey(id, g) !in t;
      LoadInsert(t, id, s, r, x, g - 1);
    } else if NodeKey(x, g) !in t' && g != 0 {
      LoadInsert(t, id, s, r, x, g - 1);
    }
  }

  /** Records of one id do not show at another. */
  lemma LoadOther(t: map<NodeKey, Rec>, id: nat, g: nat)
    requires forall k :: k in t ==> k.id < id
    ensures Load(t, id, g) == None
  {
    LoadNothing(t, id, g);
  }

  /** Closing the current id adds its record, if it has one at g. */
  lemma EffectiveCloses(t: map<NodeKey, Rec>, g: nat, es: seq<Eff>, id: nat, bound: nat)
    requires Effective(t, g, es, id) && id < bound && forall k :: k in t ==> k.id <= id
    ensures Effective(t, g, es + (if Load(t, id, g).Some? then [Eff(id, Load(t, id, g).value)] else []), bound)
  {
    var own := if Load(t, id, g).Some? then [Eff(id, Load(t, id, g).value)] else [];
    EffsSnoc(es, own, id);
    forall x: nat | x < bound && Load(t, x, g).Some?
      ensures Eff(x, Load(t, x, g).value) in es + own
    {
      if x > id { LoadNothing(t, x, g); }
    }
  }

  lemma EffsSnoc(es: seq<Eff>, own: seq<Eff>, id: nat)
    requires EffsAscend(es) && (forall e :: e in es ==> e.id < id) && |own| <= 1 && forall e :: e in own ==> e.id == id
    ensures EffsAscend(es + own)
  {
    forall i, j | 0 <= i < j < |es + own|
      ensures (es + own)[i].id < (es + own)[j].id
    {
      assert es[i] in es;
      if j >= |es| { assert own[j - |es|] in own; }
    }
  }

  /** A record of a later id leaves the settled ones alone. */
  lemma EffectiveInsert(t: map<NodeKey, Rec>, g: nat, es: seq<Eff>, id: nat, s: nat, r: Rec)
    requires Effective(t, g, es, id) && forall k :: k in t && k.id == id ==> k.snap < s
    ensures Effective(t[NodeKey(id, s) := r], g, es, id)
  {
    var t' := t[NodeKey(id, s) := r];
    forall x: nat | x < id
      ensures Load(t', x, g) == Load(t, x, g)
    {
      LoadInsert(t, id, s, r, x, g);
    }
    forall e | e in es
      ensures e.id < id && Load(t', e.id, g) == Some(e.rec)
    {
      LoadInsert(t, id, s, r, e.id, g);
    }
  }

  /** The records a walk over the first p keys has read. */
  ghost function Walked(m: map<Bytes, Rec>, keys: seq<Bytes>, p: nat): map<NodeKey, Rec>
    requires p <= |keys| && forall k :: k in keys ==> k in m && |k| == 16
  {
    if p == 0 then map[]
    else Walked(m, keys, p - 1)[NodeKey(KeyId16(keys[p - 1]), KeySnap16(keys[p - 1])) := m[keys[p - 1]]]
  }

  function KeyId16(k: Bytes): nat
    requires |k| == 16
  {
    First8(k)
  }

  function KeySnap16(k: Bytes): nat
    requires |k| == 16
  {
    Second8(k)
  }

  lemma {:induction false} WalkedHas(m: map<Bytes, Rec>, keys: seq<Bytes>, p: nat, k: NodeKey)
    requires p <= |keys| && Ascending(keys) && forall x :: x in keys ==> x in m && |x| == 16
    ensures k in Walked(m, keys, p) ==> exists i :: 0 <= i < p && k == NodeKey(KeyId16(keys[i]), KeySnap16(keys[i])) && Walked(m, keys, p)[k] == m[keys[i]]
    ensures forall i :: 0 <= i < p && k == NodeKey(KeyId16(keys[i]), KeySnap16(keys[i])) ==> k in Walked(m, keys, p)
  {
    if p != 0 { WalkedHas(m, keys, p - 1, k); }
  }

  /** The next key sorts above everything read so far. */
  lemma WalkedBefore(m: map<Bytes, Rec>, keys: seq<Bytes>, p: nat, k: NodeKey)
    requires p < |keys| && Ascending(keys) && forall x :: x in keys ==> x in m && |x| == 16
    requires k in Walked(m, keys, p)
    ensures k.id < KeyId16(keys[p]) || (k.id == KeyId16(keys[p]) && k.snap < KeySnap16(keys[p]))
  {
    WalkedHas(m, keys, p, k);
    var i :| 0 <= i < p && k == NodeKey(KeyId16(keys[i]), KeySnap16(keys[i]));
    assert InOrder(keys, i, p);
    NodeBytesEncode(keys[i]);
    NodeBytesEncode(keys[p]);
    PairOrder(k.id, k.snap, KeyId16(keys[p]), KeySnap16(keys[p]));
  }

  lemma WalkedAll(m: map<Bytes, Rec>, t: map<NodeKey, Rec>, keys: seq<Bytes>)
    requires EncodesNodes(m, t) && Ascending(keys) && (forall k :: k in keys <==> k in m) && (forall x :: x in keys ==> |x| == 16)
    ensures Walked(m, keys, |keys|) == t
  {
    var w := Walked(m, keys, |keys|);
    forall k
      ensures k in w <==> k in t
      ensures k in w && k in t ==> w[k] == t[k]
    {
      if k in w { WalkedStored(m, t, keys, k); }
      if k in t { StoredWalked(m, t, keys, k); }
    }
  }

  lemma WalkedStored(m: map<Bytes, Rec>, t: map<NodeKey, Rec>, keys: seq<Bytes>, k: NodeKey)
    requires EncodesNodes(m, t) && Ascending(keys) && (forall k :: k in keys <==> k in m) && (forall x :: x in keys ==> |x| == 16)
    requires k in Walked(m, keys, |keys|)
    ensures k in t && Walked(m, keys, |keys|)[k] == t[k]
  {
    WalkedHas(m, keys, |keys|, k);
    var i :| 0 <= i < |keys| && k == NodeKey(KeyId16(keys[i]), KeySnap16(keys[i])) && Walked(m, keys, |keys|)[k] == m[keys[i]];
    assert keys[i] in keys && NodeListed(m, t, keys[i]);
    NodeBytesEncode(keys[i]);
    NodeGet(m, t, k.id, k.snap);
  }

  lemma StoredWalked(m: map<Bytes, Rec>, t: map<NodeKey, Rec>, keys: seq<Bytes>, k: NodeKey)
    requires EncodesNodes(m, t) && Ascending(keys) && (forall k :: k in keys <==> k in m) && (forall x :: x in keys ==> |x| == 16)
    requires k in t
    ensures k in Walked(m, keys, |keys|)
  {
    assert NodeStored(m, t, k);
    var i :| 0 <= i < |keys| && keys[i] == NodeBytes(k.id, k.snap);
    NodeBytesDecode(k.id, k.snap);
    WalkedHas(m, keys, |keys|, k);
  }

  /** The walk's current id is one it has read, or it has read nothing. */
  ghost predicate CurrentRead(t: map<NodeKey, Rec>, id: nat) {
    (t == map[] && id == 0) || exists s: nat :: NodeKey(id, s) in t
  }

  /** The pass after p keys: what was read, the nodes closed so far, and the floor record of the current one. */
  ghost predicate ReadTo(m: map<Bytes, Rec>, keys: seq<Bytes>, p: nat, t: map<NodeKey, Rec>, g: nat, es: seq<Eff>,
                         curId: nat, chosen: Option<Rec>) {
    && p <= |keys| && (forall k :: k in keys ==> k in m && |k| == 16)
    && t == Walked(m, keys, p) && (forall k :: k in t ==> k.id <= curId)
    && Effective(t, g, es, curId) && chosen == Load(t, curId, g) && CurrentRead(t, curId)
  }

  lemma ReadNothing(m: map<Bytes, Rec>, keys: seq<Bytes>, g: nat)
    requires forall k :: k in keys ==> k in m && |k| == 16
    ensures ReadTo(m, keys, 0, map[], g, [], 0, None)
  {
    LoadNothing(map[], 0, g);
  }

  /** Every node that exists at g, once, in order of id, with the record the floor search gives. */
  ghost predicate EffectiveAll(t: map<NodeKey, Rec>, g: nat, es: seq<Eff>) {
    && EffsAscend(es)
    && (forall e :: e in es ==> Load(t, e.id, g) == Some(e.rec))
    && (forall id: nat {:trigger Load(t, id, g)} :: Load(t, id, g).Some? ==> Eff(id, Load(t, id, g).value) in es)
  }

  lemma EffectiveDone(t: map<NodeKey, Rec>, g: nat, es: seq<Eff>, bound: nat)
    requires Effective(t, g, es, bound) && forall k :: k in t ==> k.id < bound
    ensures EffectiveAll(t, g, es)
  {
    forall id: nat | Load(t, id, g).Some?
      ensures Eff(id, Load(t, id, g).value) in es
    {
      if id >= bound { LoadNothing(t, id, g); }
    }
  }

  /** The end of the pass: close the last id, and nothing is missing. */
  lemma EffectiveEnds(m: map<Bytes, Rec>, t: map<NodeKey, Rec>, keys: seq<Bytes>, read: map<NodeKey, Rec>, g: nat,
                      es: seq<Eff>, id: nat, chosen: Option<Rec>)
    requires EncodesNodes(m, t) && Ascending(keys) && (forall k :: k in keys <==> k in m) && (forall x :: x in keys ==> |x| == 16)
    requires ReadTo(m, keys, |keys|, read, g, es, id, chosen)
    ensures EffectiveAll(t, g, es + (if chosen.Some? then [Eff(id, chosen.value)] else []))
  {
    WalkedAll(m, t, keys);
    EffectiveCloses(read, g, es, id, id + 1);
    EffectiveDone(read, g, es + (if chosen.Some? then [Eff(id, chosen.value)] else []), id + 1);
  }

  lemma KeysAreNodeKeys(m: map<Bytes, Rec>, t: map<NodeKey, Rec>, keys: seq<Bytes>)
    requires EncodesNodes(m, t) && forall k :: k in keys ==> k in m
    ensures forall k :: k in keys ==> k in m && |k| == 16
  {
    forall k | k in keys
      ensures |k| == 16
    {
      assert NodeListed(m, t, k);
    }
  }

  // ---- link sets as maps ----

  function MapOf(es: seq<Entry>): map<Name, nat> {
    if es == [] then map[] else MapOf(es[..|es| - 1])[es[|es| - 1].name := es[|es| - 1].child]
  }

  lemma {:induction false} MapOfHas(es: seq<Entry>, n: Name)
    requires EntriesAscend(es)
    ensures n in MapOf(es) <==> exists x :: x in es && x.name == n
    ensures forall x :: x in es && x.name == n ==> Get(MapOf(es), n) == Some(x.child)
  {
    if es != [] {
      var k := |es| - 1;
      MapOfHas(es[..k], n);
      assert es == es[..k] + [es[k]];
      forall x | x in es[..k]
        ensures x.name != es[k].name
      {
        var i :| 0 <= i < k && es[i] == x;
        LessAsymmetric(es[i].name, es[k].name);
      }
    }
  }

  lemma MapOfListing(v: View, dir: nat, es: seq<Entry>, n: Name)
    requires EntriesOf(v, dir, es) && EntriesAscend(es)
    ensures Get(MapOf(es), n) == Get(v.links, Edge(dir, n))
  {
    MapOfHas(es, n);
    if Edge(dir, n) in v.links { assert Entry(n, v.links[Edge(dir, n)]) in es; }
  }

  /** What comparing two link sets of one directory reports. */
  ghost predicate NamesReport(dir: nat, sa: map<Name, nat>, sb: map<Name, nat>, p: PathDiff) {
    p.parent == dir &&
    match p.change
    case ADDED => p.name !in sa && Get(sb, p.name) == Some(p.child)
    case DROPPED => p.name !in sb && Get(sa, p.name) == Some(p.child)
  }

  method CompareNames(dir: nat, sa: map<Name, nat>, sb: map<Name, nat>) returns (ps: seq<PathDiff>)
    ensures forall p :: p in ps <==> NamesReport(dir, sa, sb, p)
    ensures InStoreOrder(ps)
  {
    var added := Missing(dir, sb, sa, ADDED);
    var dropped := Missing(dir, sa, sb, DROPPED);
    StoreOrderJoins(added, dropped);
    ps := added + dropped;
  }

  /** The bindings of one link set whose name the other lacks, in name order. */
  method Missing(dir: nat, here: map<Name, nat>, there: map<Name, nat>, change: PathChange) returns (ps: seq<PathDiff>)
    ensures InStoreOrder(ps)
    ensures forall p :: p in ps <==> p.parent == dir && p.change == change && p.name !in there && Get(here, p.name) == Some(p.child)
  {
    var names := Sorted(here.Keys);
    ps := [];
    var i := 0;
    while i < |names|
      invariant 0 <= i <= |names| && InStoreOrder(ps)
      invariant forall p :: p in ps <==>
        p.parent == dir && p.change == change && p.name in names[..i] && p.name !in there && Get(here, p.name) == Some(p.child)
    {
      assert names[i] in names;
      assert names[..i + 1] == names[..i] + [names[i]];
      if names[i] !in there {
        var next := PathDiff(change, dir, names[i], here[names[i]]);
        NameLast(names, i, dir, change, ps, next);
        ps := ps + [next];
      }
      i := i + 1;
    }
    assert names[..i] == names;
  }

  lemma NameLast(names: seq<Name>, i: nat, dir: nat, change: PathChange, ps: seq<PathDiff>, next: PathDiff)
    requires Ascending(names) && i < |names| && next.parent == dir && next.change == change && next.name == names[i]
    requires InStoreOrder(ps) && forall p :: p in ps ==> p.parent == dir && p.change == change && p.name in names[..i]
    ensures InStoreOrder(ps + [next])
  {
    forall p | p in ps
      ensures StoreBefore(p, next)
    {
      var j :| 0 <= j < i && names[..i][j] == p.name;
      assert InOrder(names, j, i);
    }
    StoreOrderJoins(ps, [next]);
  }

  lemma NamedDiff(v: View, w: View, dir: nat, sa: map<Name, nat>, sb: map<Name, nat>, p: PathDiff)
    requires forall n :: Get(sa, n) == Get(v.links, Edge(dir, n))
    requires forall n :: Get(sb, n) == Get(w.links, Edge(dir, n))
    ensures NamesReport(dir, sa, sb, p) <==> p.parent == dir && NameDiff(v, w, p)
  {
    assert Get(sa, p.name) == Get(v.links, Edge(dir, p.name)) && Get(sb, p.name) == Get(w.links, Edge(dir, p.name));
  }

  // ---- statistics ----

  ghost function IdsOf(es: seq<Eff>, i: nat): set<nat>
    requires i <= |es|
  {
    set j | 0 <= j < i :: es[j].id
  }

  ghost function LinksAmong(v: View, ids: set<nat>): set<Edge> {
    set e | e in v.links && e.dir in ids
  }

  lemma IdsOfNext(es: seq<Eff>, i: nat)
    requires EffsAscend(es) && i < |es|
    ensures IdsOf(es, i + 1) == IdsOf(es, i) + {es[i].id} && es[i].id !in IdsOf(es, i)
  {
    assert es[i].id in IdsOf(es, i + 1);
  }

  lemma LinksNext(v: View, ids: set<nat>, id: nat)
    requires id !in ids
    ensures |LinksAmong(v, ids + {id})| == |LinksAmong(v, ids)| + |Listing(v, id)|
  {
    var own := set e | e in v.links && e.dir == id;
    var a := LinksAmong(v, ids);
    assert LinksAmong(v, ids + {id}) == a + own;
    assert a !! own;
    var names := Names(v, id);
    EdgesPerName(own, names, id);
  }

  lemma {:induction false} EdgesPerName(own: set<Edge>, names: set<Name>, id: nat)
    requires forall e :: e in own ==> e.dir == id
    requires names == set e | e in own :: e.name
    ensures |own| == |names|
    decreases |own|
  {
    if own == {} {
      assert names == {};
    } else {
      var e :| e in own;
      var rest := own - {e};
      var names' := set f | f in rest :: f.name;
      EdgesPerName(rest, names', id);
      assert e.name !in names' by {
        forall f | f in rest
          ensures f.name != e.name
        {
          assert f.dir == e.dir && f != e;
        }
      }
      assert names == names' + {e.name};
    }
  }

  lemma AllIds(db: Db, fs: Fs, g: nat, es: seq<Eff>)
    requires Inv(db) && Rel(db, fs) && EffectiveAll(db.nodes, g, es)
    ensures IdsOf(es, |es|) == fs.At(g).nodes.Keys
  {
    var ids, v := IdsOf(es, |es|), fs.At(g);
    forall id: nat
      ensures id in ids <==> id in v.nodes
    {
      NodeView(db, fs, id, g);
      if id in ids {
        var j :| 0 <= j < |es| && es[j].id == id;
        assert es[j] in es;
      }
      if id in v.nodes {
        var j :| 0 <= j < |es| && es[j] == Eff(id, Load(db.nodes, id, g).value);
        assert es[j].id in ids;
      }
    }
  }

  /** In every view of a healthy file system, links leave directories only. */
  lemma LinksLeaveDirs(fs: Fs, g: nat, e: Edge)
    requires Healthy(fs) && e in fs.At(g).links
    ensures IsDir(fs.At(g), e.dir)
  {
    var h := if g <= fs.Cur() then g else fs.Cur();
    assert fs.At(g) == fs.At(h);
    assert SoundAt(fs, h);
    assert LinkSound(fs.At(h), e);
  }

  lemma NoLinksOfFile(fs: Fs, g: nat, id: nat)
    requires Healthy(fs) && !IsDir(fs.At(g), id)
    ensures Listing(fs.At(g), id) == []
  {
    forall n
      ensures Edge(id, n) !in fs.At(g).links
    {
      if Edge(id, n) in fs.At(g).links { LinksLeaveDirs(fs, g, Edge(id, n)); }
    }
    ListingUnique(fs.At(g), id, []);
  }

  lemma AllLinks(fs: Fs, g: nat)
    requires Healthy(fs)
    ensures LinksAmong(fs.At(g), fs.At(g).nodes.Keys) == fs.At(g).links.Keys
    ensures |fs.At(g).links.Keys| == |fs.At(g).links|
  {
    forall e | e in fs.At(g).links
      ensures e.dir in fs.At(g).nodes
    {
      LinksLeaveDirs(fs, g, e);
    }
  }

  /** The walk's records are the nodes of the view. */
  lemma EffViews(db: Db, fs: Fs, g: nat, es: seq<Eff>)
    requires Inv(db) && Rel(db, fs) && EffectiveAll(db.nodes, g, es)
    ensures IdsOf(es, |es|) == fs.At(g).nodes.Keys
    ensures forall e :: e in es ==> Get(fs.At(g).nodes, e.id) == Some(e.rec.attr) && e.id < db.next
  {
    AllIds(db, fs, g, es);
    forall e | e in es
      ensures Get(fs.At(g).nodes, e.id) == Some(e.rec.attr) && e.id < db.next
    {
      NodeView(db, fs, e.id, g);
      LoadBounds(db, e.id, g);
    }
  }

  /** The lengths of the first i listings, added up. */
  ghost function ListedBy(v: View, es: seq<Eff>, i: nat): nat
    requires i <= |es|
  {
    if i == 0 then 0 else ListedBy(v, es, i - 1) + |Listing(v, es[i - 1].id)|
  }

  lemma {:induction false} LinksTallied(v: View, es: seq<Eff>, i: nat)
    requires EffsAscend(es) && i <= |es|
    ensures |LinksAmong(v, IdsOf(es, i))| == ListedBy(v, es, i)
    decreases i
  {
    if i == 0 {
      assert LinksAmong(v, IdsOf(es, i)) == {};
    } else {
      LinksTallied(v, es, i - 1);
      IdsOfNext(es, i - 1);
      LinksNext(v, IdsOf(es, i - 1), es[i - 1].id);
    }
  }

  lemma LinksTotal(fs: Fs, g: nat, es: seq<Eff>)
    requires Healthy(fs) && EffsAscend(es) && IdsOf(es, |es|) == fs.At(g).nodes.Keys
    ensures ListedBy(fs.At(g), es, |es|) == |fs.At(g).links|
  {
    LinksTallied(fs.At(g), es, |es|);
    AllLinks(fs, g);
  }
}
