/**
 The versioned store as typed tables: node records keyed (id, snap) and read by floor, link sets
 keyed by a link-set version and copied on the first write after a snapshot, their inverse, and the
 change index. Each operation is a function from tables to tables, and each is shown to do to every
 view exactly what FileSystem says.
 */
module VersionedDb {
  import opened Options
  import opened FileSystem

  datatype Rec = Rec(attr: Attr, dn: nat, up: nat)

  datatype NodeKey = NodeKey(id: nat, snap: nat)
  datatype DnKey = DnKey(dir: nat, ver: nat, name: Name)
  datatype UpKey = UpKey(node: nat, ver: nat, dir: nat, name: Name)
  datatype ChangeKey = ChangeKey(snap: nat, id: nat)

  datatype Db = Db(nodes: map<NodeKey, Rec>, down: map<DnKey, nat>, ups: set<UpKey>,
                   changes: set<ChangeKey>, cur: nat, next: nat, clock: nat)

  /** Floor search: the newest record of id at or below g. */
  function Load(nodes: map<NodeKey, Rec>, id: nat, g: nat): Option<Rec>
    decreases g
  {
    if NodeKey(id, g) in nodes then Some(nodes[NodeKey(id, g)])
    else if g == 0 then None
    else Load(nodes, id, g - 1)
  }

  // ---- what each view shows ----

  function NodeAt(db: Db, id: nat, g: nat): Option<Attr> {
    match Load(db.nodes, id, g)
    case Some(r) => Some(r.attr)
    case None => None
  }

  function LinkAt(db: Db, dir: nat, name: Name, g: nat): Option<nat> {
    match Load(db.nodes, dir, g)
    case Some(r) => Get(db.down, DnKey(dir, r.dn, name))
    case None => None
  }

  predicate UpAt(db: Db, c: nat, dir: nat, name: Name, g: nat) {
    match Load(db.nodes, c, g)
    case Some(r) => UpKey(c, r.up, dir, name) in db.ups
    case None => false
  }

  // ---- representation invariant ----

  ghost predicate NodeKeyOk(db: Db, k: NodeKey)
    requires k in db.nodes
  {
    ROOT <= k.id < db.next && 1 <= k.snap <= db.cur && db.nodes[k].dn <= k.snap && db.nodes[k].up <= k.snap
  }

  /** Only a directory already copied in this snapshot has links at the current version. */
  ghost predicate DnKeyOk(db: Db, k: DnKey) {
    k.ver <= db.cur && (k.ver == db.cur ==> NodeKey(k.dir, db.cur) in db.nodes && db.nodes[NodeKey(k.dir, db.cur)].dn == db.cur)
  }

  ghost predicate UpKeyOk(db: Db, k: UpKey) {
    k.ver <= db.cur && (k.ver == db.cur ==> NodeKey(k.node, db.cur) in db.nodes && db.nodes[NodeKey(k.node, db.cur)].up == db.cur)
  }

  ghost predicate Inv(db: Db) {
    && db.cur >= 1 && db.next > ROOT
    && (forall k {:trigger k in db.nodes} :: k in db.nodes ==> NodeKeyOk(db, k))
    && (forall k {:trigger k in db.down} :: k in db.down ==> DnKeyOk(db, k))
    && (forall k {:trigger k in db.ups} :: k in db.ups ==> UpKeyOk(db, k))
    && (forall k {:trigger k in db.changes} :: k in db.changes ==> NodeKey(k.id, k.snap) in db.nodes)
    && (forall k {:trigger k in db.nodes} :: k in db.nodes ==> ChangeKey(k.snap, k.id) in db.changes)
  }

  /** db shows, at every snapshot, the view fs keeps in full, and its up-links are the mirror of its links. */
  ghost predicate Rel(db: Db, fs: Fs) {
    && db.cur == fs.Cur() && db.next == fs.next && db.clock == fs.clock
    && (forall id: nat, g: nat :: NodeAt(db, id, g) == Get(fs.At(g).nodes, id))
    && (forall d: nat, n: Name, g: nat :: LinkAt(db, d, n, g) == Get(fs.At(g).links, Edge(d, n)))
    && (forall c: nat, d: nat, n: Name, g: nat :: UpAt(db, c, d, n, g) <==> Get(fs.At(g).links, Edge(d, n)) == Some(c))
  }

  // ---- floor search ----

  ghost predicate Newest(nodes: map<NodeKey, Rec>, id: nat, g: nat, s: nat) {
    s <= g && NodeKey(id, s) in nodes && forall t: nat :: s < t <= g ==> NodeKey(id, t) !in nodes
  }

  ghost predicate NewestIs(nodes: map<NodeKey, Rec>, id: nat, g: nat, s: nat, r: Rec) {
    Newest(nodes, id, g, s) && nodes[NodeKey(id, s)] == r
  }

  /** The floor search finds the newest record at or below g, and fails only when there is none. */
  lemma {:induction false} LoadMeaning(nodes: map<NodeKey, Rec>, id: nat, g: nat)
    ensures Load(nodes, id, g).None? ==> forall s: nat :: s <= g ==> NodeKey(id, s) !in nodes
    ensures Load(nodes, id, g).Some? ==> exists s :: NewestIs(nodes, id, g, s, Load(nodes, id, g).value)
    decreases g
  {
    if NodeKey(id, g) in nodes {
      assert NewestIs(nodes, id, g, g, Load(nodes, id, g).value);
    } else if g != 0 {
      LoadMeaning(nodes, id, g - 1);
      assert Load(nodes, id, g) == Load(nodes, id, g - 1);
      if Load(nodes, id, g).Some? {
        var s :| NewestIs(nodes, id, g - 1, s, Load(nodes, id, g).value);
        assert NewestIs(nodes, id, g, s, Load(nodes, id, g).value);
      }
    }
  }

  /** Only a record at the floor itself decides. */
  lemma {:induction false} LoadAt(nodes: map<NodeKey, Rec>, id: nat, s: nat, g: nat)
    requires Newest(nodes, id, g, s)
    ensures Load(nodes, id, g) == Some(nodes[NodeKey(id, s)])
    decreases g
  {
    if s < g { LoadAt(nodes, id, s, g - 1); }
  }

  lemma {:induction false} LoadNothing(nodes: map<NodeKey, Rec>, id: nat, g: nat)
    requires forall s: nat :: s <= g ==> NodeKey(id, s) !in nodes
    ensures Load(nodes, id, g) == None
    decreases g
  {
    if g != 0 { LoadNothing(nodes, id, g - 1); }
  }

  /** No record was written in (a, b], so both views read the same one. */
  lemma {:induction false} LoadUnwritten(nodes: map<NodeKey, Rec>, id: nat, a: nat, b: nat)
    requires a <= b && forall s: nat :: a < s <= b ==> NodeKey(id, s) !in nodes
    ensures Load(nodes, id, b) == Load(nodes, id, a)
    decreases b
  {
    if a < b { LoadUnwritten(nodes, id, a, b - 1); }
  }

  lemma {:induction false} LoadBounds(db: Db, id: nat, g: nat)
    requires Inv(db) && Load(db.nodes, id, g).Some?
    ensures var r := Load(db.nodes, id, g).value;
      ROOT <= id < db.next && r.dn <= g && r.up <= g && r.dn <= db.cur && r.up <= db.cur && g >= 1
    decreases g
  {
    if NodeKey(id, g) !in db.nodes { LoadBounds(db, id, g - 1); }
  }

  /** Beyond the current snapshot there is nothing newer to find. */
  lemma LoadBeyond(db: Db, id: nat, g: nat)
    requires Inv(db) && g >= db.cur
    ensures Load(db.nodes, id, g) == Load(db.nodes, id, db.cur)
  {
    LoadUnwritten(db.nodes, id, db.cur, g);
  }

  // ---- writing a record ----

  /** storeNode: the record and its entry in the change index. */
  function Store(db: Db, id: nat, r: Rec): Db {
    db.(nodes := db.nodes[NodeKey(id, db.cur) := r], changes := db.changes + {ChangeKey(db.cur, id)})
  }

  lemma {:induction false} LoadStore(db: Db, id: nat, r: Rec, x: nat, g: nat)
    requires Inv(db)
    ensures Load(Store(db, id, r).nodes, x, g) == if x == id && g >= db.cur then Some(r) else Load(db.nodes, x, g)
    decreases g
  {
    if NodeKey(x, g) !in Store(db, id, r).nodes && g != 0 { LoadStore(db, id, r, x, g - 1); }
  }

  lemma StoreInv(db: Db, id: nat, r: Rec)
    requires Inv(db) && ROOT <= id < db.next && r.dn <= db.cur && r.up <= db.cur
    requires Load(db.nodes, id, db.cur).Some? ==>
      var o := Load(db.nodes, id, db.cur).value; (o.dn == db.cur ==> r.dn == db.cur) && (o.up == db.cur ==> r.up == db.cur)
    ensures Inv(Store(db, id, r))
  {
  }

  /** Storing with unchanged link versions changes one node in the live view and nothing else. */
  lemma StoreViews(db: Db, id: nat, a: Attr)
    requires Inv(db) && Load(db.nodes, id, db.cur).Some?
    ensures var db' := Store(db, id, Load(db.nodes, id, db.cur).value.(attr := a));
      && Inv(db')
      && (forall x: nat, g: nat :: NodeAt(db', x, g) == if x == id && g >= db.cur then Some(a) else NodeAt(db, x, g))
      && (forall d: nat, n: Name, g: nat :: LinkAt(db', d, n, g) == LinkAt(db, d, n, g))
      && (forall c: nat, d: nat, n: Name, g: nat :: UpAt(db', c, d, n, g) == UpAt(db, c, d, n, g))
  {
    var r := Load(db.nodes, id, db.cur).value.(attr := a);
    LoadBounds(db, id, db.cur);
    StoreInv(db, id, r);
    forall x: nat, g: nat
      ensures Load(Store(db, id, r).nodes, x, g) == if x == id && g >= db.cur then Some(r) else Load(db.nodes, x, g)
      ensures x == id && g >= db.cur ==> Load(db.nodes, x, g) == Load(db.nodes, id, db.cur)
    {
      LoadStore(db, id, r, x, g);
      if g >= db.cur { LoadBeyond(db, x, g); }
    }
  }

  // ---- copy on write ----

  ghost predicate SameViews(db: Db, db': Db) {
    && db'.cur == db.cur && db'.next == db.next && db'.clock == db.clock
    && (forall id: nat, g: nat :: NodeAt(db', id, g) == NodeAt(db, id, g))
    && (forall d: nat, n: Name, g: nat :: LinkAt(db', d, n, g) == LinkAt(db, d, n, g))
    && (forall c: nat, d: nat, n: Name, g: nat :: UpAt(db', c, d, n, g) == UpAt(db, c, d, n, g))
  }

  function DownOf(db: Db, dir: nat, ver: nat): set<DnKey> {
    set k | k in db.down && k.dir == dir && k.ver == ver
  }

  /** The link set of dir at version ver, re-keyed to the current version. */
  function CopiedDown(db: Db, dir: nat, ver: nat): map<DnKey, nat> {
    map k | k in (set o | o in DownOf(db, dir, ver) :: o.(ver := db.cur)) && k.(ver := ver) in db.down :: db.down[k.(ver := ver)]
  }

  function UpsOf(db: Db, node: nat, ver: nat): set<UpKey> {
    set k | k in db.ups && k.node == node && k.ver == ver
  }

  function CopiedUps(db: Db, node: nat, ver: nat): set<UpKey> {
    set o | o in UpsOf(db, node, ver) :: o.(ver := db.cur)
  }

  /** ensureWritableDnLinks. */
  function WritableDn(db: Db, dir: nat): Db {
    match Load(db.nodes, dir, db.cur)
    case None => db
    case Some(r) =>
      if r.dn == db.cur then db
      else Store(db.(down := db.down + CopiedDown(db, dir, r.dn)), dir, r.(dn := db.cur))
  }

  /** ensureWritableUpLinks. */
  function WritableUp(db: Db, node: nat): Db {
    match Load(db.nodes, node, db.cur)
    case None => db
    case Some(r) =>
      if r.up == db.cur then db
      else Store(db.(ups := db.ups + CopiedUps(db, node, r.up)), node, r.(up := db.cur))
  }

  lemma CopiedDownHas(db: Db, dir: nat, ver: nat, k: DnKey)
    ensures k in CopiedDown(db, dir, ver) <==> k.dir == dir && k.ver == db.cur && DnKey(dir, ver, k.name) in db.down
    ensures k in CopiedDown(db, dir, ver) ==> CopiedDown(db, dir, ver)[k] == db.down[DnKey(dir, ver, k.name)]
  {
    var o := DnKey(dir, ver, k.name);
    if k.dir == dir && k.ver == db.cur && o in db.down {
      assert o in DownOf(db, dir, ver) && o.(ver := db.cur) == k && k.(ver := ver) == o;
    }
  }

  lemma CopiedUpsHas(db: Db, node: nat, ver: nat, k: UpKey)
    ensures k in CopiedUps(db, node, ver) <==> k.node == node && k.ver == db.cur && k.(ver := ver) in db.ups
  {
    var o := k.(ver := ver);
    if k.node == node && k.ver == db.cur && o in db.ups {
      assert o in UpsOf(db, node, ver) && o.(ver := db.cur) == k;
    }
  }

  lemma LoadAtCurrent(db: Db, id: nat)
    ensures NodeKey(id, db.cur) in db.nodes ==> Load(db.nodes, id, db.cur) == Some(db.nodes[NodeKey(id, db.cur)])
  {
  }

  lemma FreshVersionEmpty(db: Db, dir: nat, n: Name)
    requires Inv(db) && Load(db.nodes, dir, db.cur).Some? && Load(db.nodes, dir, db.cur).value.dn != db.cur
    ensures DnKey(dir, db.cur, n) !in db.down
  {
    LoadAtCurrent(db, dir);
    assert DnKey(dir, db.cur, n) in db.down ==> DnKeyOk(db, DnKey(dir, db.cur, n));
  }

  lemma FreshUpVersionEmpty(db: Db, k: UpKey)
    requires Inv(db) && Load(db.nodes, k.node, db.cur).Some? && Load(db.nodes, k.node, db.cur).value.up != db.cur
    ensures k.ver == db.cur ==> k !in db.ups
  {
    LoadAtCurrent(db, k.node);
    assert k in db.ups ==> UpKeyOk(db, k);
  }

  /** One link of one directory, seen from one view, before and after the copy. */
  lemma WritableDnLink(db: Db, dir: nat, d: nat, n: Name, g: nat)
    requires Inv(db) && Load(db.nodes, dir, db.cur).Some?
    ensures LinkAt(WritableDn(db, dir), d, n, g) == LinkAt(db, d, n, g)
  {
    var r := Load(db.nodes, dir, db.cur).value;
    if r.dn != db.cur {
      var copied := CopiedDown(db, dir, r.dn);
      var mid := db.(down := db.down + copied);
      FreshVersionEmpty(db, dir, n);
      LoadStored(db, mid, dir, r.(dn := db.cur), d, g);
      CopiedDownHas(db, dir, r.dn, DnKey(dir, db.cur, n));
      if d == dir && g >= db.cur {
        LoadBeyond(db, d, g);
      } else if Load(db.nodes, d, g).Some? {
        LoadBounds(db, d, g);
        CopiedDownHas(db, dir, r.dn, DnKey(d, Load(db.nodes, d, g).value.dn, n));
      }
    }
  }

  /** LoadStore through a step that leaves the node table alone. */
  lemma LoadStored(db: Db, mid: Db, id: nat, r: Rec, x: nat, g: nat)
    requires Inv(db) && mid.nodes == db.nodes && mid.cur == db.cur
    ensures Load(Store(mid, id, r).nodes, x, g) == if x == id && g >= db.cur then Some(r) else Load(db.nodes, x, g)
  {
    LoadStore(db, id, r, x, g);
    assert Store(mid, id, r).nodes == Store(db, id, r).nodes;
  }

  lemma WritableDnInv(db: Db, dir: nat)
    requires Inv(db) && Load(db.nodes, dir, db.cur).Some?
    ensures Inv(WritableDn(db, dir))
    ensures NodeKey(dir, db.cur) in WritableDn(db, dir).nodes && WritableDn(db, dir).nodes[NodeKey(dir, db.cur)].dn == db.cur
  {
    var r := Load(db.nodes, dir, db.cur).value;
    LoadBounds(db, dir, db.cur);
    LoadCurrent(db, dir);
    var db' := WritableDn(db, dir);
    if r.dn != db.cur {
      forall k | k in db'.down
        ensures DnKeyOk(db', k)
      {
        CopiedDownHas(db, dir, r.dn, k);
        if k in db.down { assert DnKeyOk(db, k); }
      }
    }
  }

  /** A record whose link version is current was written at the current snapshot. */
  lemma LoadCurrent(db: Db, id: nat)
    requires Inv(db) && Load(db.nodes, id, db.cur).Some?
    ensures var r := Load(db.nodes, id, db.cur).value;
      r.dn == db.cur || r.up == db.cur ==> NodeKey(id, db.cur) in db.nodes && db.nodes[NodeKey(id, db.cur)] == r
  {
    if NodeKey(id, db.cur) !in db.nodes { LoadBounds(db, id, db.cur - 1); }
  }

  /** Copying a directory's link set to the current version is invisible in every view. */
  lemma WritableDnInvisible(db: Db, dir: nat)
    requires Inv(db) && Load(db.nodes, dir, db.cur).Some?
    ensures SameViews(db, WritableDn(db, dir))
  {
    var db' := WritableDn(db, dir);
    var r := Load(db.nodes, dir, db.cur).value;
    if r.dn != db.cur {
      var mid := db.(down := db.down + CopiedDown(db, dir, r.dn));
      forall x: nat, g: nat
        ensures NodeAt(db', x, g) == NodeAt(db, x, g)
      {
        LoadStored(db, mid, dir, r.(dn := db.cur), x, g);
        if g >= db.cur { LoadBeyond(db, x, g); }
      }
      forall c: nat, d: nat, n: Name, g: nat
        ensures UpAt(db', c, d, n, g) == UpAt(db, c, d, n, g)
      {
        LoadStored(db, mid, dir, r.(dn := db.cur), c, g);
        if g >= db.cur { LoadBeyond(db, c, g); }
      }
      forall d: nat, n: Name, g: nat
        ensures LinkAt(db', d, n, g) == LinkAt(db, d, n, g)
      {
        WritableDnLink(db, dir, d, n, g);
      }
    }
  }

  lemma WritableUpLink(db: Db, node: nat, c: nat, d: nat, n: Name, g: nat)
    requires Inv(db) && Load(db.nodes, node, db.cur).Some?
    ensures UpAt(WritableUp(db, node), c, d, n, g) == UpAt(db, c, d, n, g)
  {
    var r := Load(db.nodes, node, db.cur).value;
    if r.up != db.cur {
      var mid := db.(ups := db.ups + CopiedUps(db, node, r.up));
      FreshUpVersionEmpty(db, UpKey(node, db.cur, d, n));
      LoadStored(db, mid, node, r.(up := db.cur), c, g);
      CopiedUpsHas(db, node, r.up, UpKey(node, db.cur, d, n));
      if c == node && g >= db.cur {
        LoadBeyond(db, c, g);
      } else if Load(db.nodes, c, g).Some? {
        LoadBounds(db, c, g);
        CopiedUpsHas(db, node, r.up, UpKey(c, Load(db.nodes, c, g).value.up, d, n));
      }
    }
  }

  lemma WritableUpInv(db: Db, node: nat)
    requires Inv(db) && Load(db.nodes, node, db.cur).Some?
    ensures Inv(WritableUp(db, node))
    ensures NodeKey(node, db.cur) in WritableUp(db, node).nodes && WritableUp(db, node).nodes[NodeKey(node, db.cur)].up == db.cur
    ensures forall x: nat :: NodeKey(x, db.cur) in db.nodes && db.nodes[NodeKey(x, db.cur)].dn == db.cur ==>
      NodeKey(x, db.cur) in WritableUp(db, node).nodes && WritableUp(db, node).nodes[NodeKey(x, db.cur)].dn == db.cur
  {
    var r := Load(db.nodes, node, db.cur).value;
    LoadBounds(db, node, db.cur);
    LoadCurrent(db, node);
    var db' := WritableUp(db, node);
    if r.up != db.cur {
      forall k | k in db'.ups
        ensures UpKeyOk(db', k)
      {
        CopiedUpsHas(db, node, r.up, k);
        if k in db.ups { assert UpKeyOk(db, k); }
      }
    }
  }

  /** Copying a node's up-link set to the current version is invisible in every view. */
  lemma WritableUpInvisible(db: Db, node: nat)
    requires Inv(db) && Load(db.nodes, node, db.cur).Some?
    ensures SameViews(db, WritableUp(db, node))
  {
    var db' := WritableUp(db, node);
    var r := Load(db.nodes, node, db.cur).value;
    if r.up != db.cur {
      var mid := db.(ups := db.ups + CopiedUps(db, node, r.up));
      forall x: nat, g: nat
        ensures NodeAt(db', x, g) == NodeAt(db, x, g)
      {
        LoadStored(db, mid, node, r.(up := db.cur), x, g);
        if g >= db.cur { LoadBeyond(db, x, g); }
      }
      forall d: nat, n: Name, g: nat
        ensures LinkAt(db', d, n, g) == LinkAt(db, d, n, g)
      {
        LoadStored(db, mid, node, r.(up := db.cur), d, g);
        if g >= db.cur { LoadBeyond(db, d, g); }
      }
      forall c: nat, d: nat, n: Name, g: nat
        ensures UpAt(db', c, d, n, g) == UpAt(db, c, d, n, g)
      {
        WritableUpLink(db, node, c, d, n, g);
      }
    }
  }
}
