/** The store's operations on its tables, and the proof that each one simulates the plain file system. */
module VersionedOps {
  import opened Options
  import opened FileSystem
  import opened VersionedDb

  function NewDb(clock: nat): Db {
    Store(Db(map[], map[], {}, {}, 1, 2, clock), ROOT, Rec(NewAttr(DIR, [], 0, clock).(nlink := 1), 1, 1))
  }

  function CreateDb(db: Db, t: Type, blob: FileSystem.Name, spec: nat): Db {
    Store(db.(next := db.next + 1), db.next, Rec(NewAttr(t, blob, spec, db.clock), db.cur, db.cur))
  }

  /** Both directions of one link, at the current link-set versions. */
  function PutLink(db: Db, dir: nat, name: Name, child: nat): Db {
    db.(down := db.down[DnKey(dir, db.cur, name) := child], ups := db.ups + {UpKey(child, db.cur, dir, name)})
  }

  function CutLink(db: Db, dir: nat, name: Name, child: nat): Db {
    db.(down := db.down - {DnKey(dir, db.cur, name)}, ups := db.ups - {UpKey(child, db.cur, dir, name)})
  }

  /** Rewrite the attributes of an existing node in the live view. */
  function Rewrite(db: Db, id: nat, a: Attr): Db {
    match Load(db.nodes, id, db.cur)
    case None => db
    case Some(r) => Store(db, id, r.(attr := a))
  }

  function Counted(a: Attr): Attr {
    a.(nlink := a.nlink + 1)
  }

  /** Both link sets made writable before the link is touched. */
  function Prepared(db: Db, dir: nat, child: nat): Db {
    WritableUp(WritableDn(db, dir), child)
  }

  /** linkT; cyclic is the verdict of the reachability search for a directory child. */
  function LinkDb(db: Db, dir: nat, name: Name, child: nat, cyclic: bool): (Error, Db) {
    if name == SNAPSHOT_NAME then (INVAL, db) else
    match NodeAt(db, dir, db.cur)
    case None => (NOENT, db)
    case Some(dr) =>
      if dr.typ != DIR then (NOTDIR, db) else
      match NodeAt(db, child, db.cur)
      case None => (NOENT, db)
      case Some(cr) =>
        if cr.typ == DIR && cyclic then (INVAL, db)
        else if LinkAt(db, dir, name, db.cur).Some? then (EXIST, db)
        else
          (OK, Rewrite(PutLink(Prepared(db, dir, child), dir, name, child), child, Counted(cr)))
  }

  /** unlinkT. */
  function UnlinkDb(db: Db, dir: nat, name: Name): (Error, Db) {
    match LinkAt(db, dir, name, db.cur)
    case None => (NOENT, db)
    case Some(c) =>
      var cut := CutLink(Prepared(db, dir, c), dir, name, c);
      (OK, match NodeAt(db, c, db.cur) case None => cut case Some(cr) => Rewrite(cut, c, Released(cr)))
  }

  function MoveDb(db: Db, sdir: nat, sn: Name, ddir: nat, dn: Name, cyclic: bool): (Error, Db) {
    match LinkAt(db, sdir, sn, db.cur)
    case None => (NOENT, db)
    case Some(c) =>
      var l := LinkDb(db, ddir, dn, c, cyclic);
      if l.0 != OK then l else UnlinkDb(l.1, sdir, sn)
  }

  function AttrDb(db: Db, id: nat, c: Change): Db {
    match NodeAt(db, id, db.cur)
    case None => db
    case Some(a) => Rewrite(db, id, Changed(a, c))
  }

  function PayloadDb(db: Db, id: nat, p: Payload): (Error, Db) {
    match NodeAt(db, id, db.cur)
    case None => (NOENT, db)
    case Some(a) => if !Accepts(a.typ, p) then (INVAL, db) else (OK, Rewrite(db, id, Loaded(a, p)))
  }

  function SnapshotDb(db: Db): Db {
    db.(cur := db.cur + 1)
  }

  /** The directory that a link or move would make a child, and its new container. */
  ghost function CycleVerdict(fs: Fs, op: Op): bool {
    match op
    case Link(d, _, c) => Reaches(fs.live, c, d)
    case Move(sd, sn, dd, _) => Edge(sd, sn) in fs.live.links && Reaches(fs.live, fs.live.links[Edge(sd, sn)], dd)
    case _ => false
  }

  function StepDb(db: Db, op: Op, cyclic: bool): (Db, Outcome) {
    match op
    case Create(t, b, s) => (CreateDb(db, t, b, s), Outcome(OK, db.next))
    case Link(d, n, c) => var l := LinkDb(db, d, n, c, cyclic); (l.1, Outcome(l.0, 0))
    case Unlink(d, n) => var l := UnlinkDb(db, d, n); (l.1, Outcome(l.0, 0))
    case Move(sd, sn, dd, dn) => var l := MoveDb(db, sd, sn, dd, dn, cyclic); (l.1, Outcome(l.0, 0))
    case SetAttr(id, c) => (AttrDb(db, id, c), Outcome(OK, 0))
    case SetPayload(id, p) => var l := PayloadDb(db, id, p); (l.1, Outcome(l.0, 0))
    case Snapshot => (SnapshotDb(db), Outcome(OK, db.cur))
    case SetTime(t) => (db.(clock := t), Outcome(OK, 0))
  }

  // ---- simulation ----

  lemma PreparedOk(db: Db, dir: nat, child: nat)
    requires Inv(db) && Load(db.nodes, dir, db.cur).Some? && Load(db.nodes, child, db.cur).Some?
    ensures var p := Prepared(db, dir, child);
      && Inv(p) && SameViews(db, p)
      && NodeKey(dir, p.cur) in p.nodes && p.nodes[NodeKey(dir, p.cur)].dn == p.cur
      && NodeKey(child, p.cur) in p.nodes && p.nodes[NodeKey(child, p.cur)].up == p.cur
  {
    var m := WritableDn(db, dir);
    WritableDnInv(db, dir);
    WritableDnInvisible(db, dir);
    assert NodeAt(m, child, db.cur) == NodeAt(db, child, db.cur);
    WritableUpInv(m, child);
    WritableUpInvisible(m, child);
    var p := Prepared(db, dir, child);
    forall x: nat, g: nat
      ensures NodeAt(p, x, g) == NodeAt(db, x, g)
    {
      assert NodeAt(m, x, g) == NodeAt(db, x, g);
    }
    forall d: nat, n: Name, g: nat
      ensures LinkAt(p, d, n, g) == LinkAt(db, d, n, g)
    {
      assert LinkAt(m, d, n, g) == LinkAt(db, d, n, g);
    }
    forall c: nat, d: nat, n: Name, g: nat
      ensures UpAt(p, c, d, n, g) == UpAt(db, c, d, n, g)
    {
      assert UpAt(m, c, d, n, g) == UpAt(db, c, d, n, g);
    }
  }

  /** The link versions of dir and child are current: a write at them shows from the live view on. */
  ghost predicate Writable(db: Db, dir: nat, child: nat) {
    && NodeKey(dir, db.cur) in db.nodes && db.nodes[NodeKey(dir, db.cur)].dn == db.cur
    && NodeKey(child, db.cur) in db.nodes && db.nodes[NodeKey(child, db.cur)].up == db.cur
  }

  lemma CurrentVersionIsLive(db: Db, id: nat, g: nat)
    requires Inv(db) && NodeKey(id, db.cur) in db.nodes && Load(db.nodes, id, g).Some?
    ensures g >= db.cur ==> Load(db.nodes, id, g).value == db.nodes[NodeKey(id, db.cur)]
    ensures g < db.cur ==> Load(db.nodes, id, g).value.dn != db.cur && Load(db.nodes, id, g).value.up != db.cur
  {
    LoadBounds(db, id, g);
    if g >= db.cur { LoadBeyond(db, id, g); }
  }

  lemma LiveLoads(db: Db, id: nat, g: nat)
    requires Inv(db) && NodeKey(id, db.cur) in db.nodes && g >= db.cur
    ensures Load(db.nodes, id, g) == Some(db.nodes[NodeKey(id, db.cur)])
  {
    LoadBeyond(db, id, g);
  }

  lemma PutLinkDown(db: Db, dir: nat, name: Name, child: nat, d: nat, n: Name, g: nat)
    requires Inv(db) && Writable(db, dir, child)
    ensures LinkAt(PutLink(db, dir, name, child), d, n, g) ==
      if d == dir && n == name && g >= db.cur then Some(child) else LinkAt(db, d, n, g)
  {
    if d == dir {
      if g >= db.cur { LiveLoads(db, d, g); }
      else if Load(db.nodes, d, g).Some? { CurrentVersionIsLive(db, d, g); }
    }
  }

  lemma PutLinkUp(db: Db, dir: nat, name: Name, child: nat, c: nat, d: nat, n: Name, g: nat)
    requires Inv(db) && Writable(db, dir, child)
    ensures UpAt(PutLink(db, dir, name, child), c, d, n, g) <==>
      (c == child && d == dir && n == name && g >= db.cur) || UpAt(db, c, d, n, g)
  {
    if c == child {
      if g >= db.cur { LiveLoads(db, c, g); }
      else if Load(db.nodes, c, g).Some? { CurrentVersionIsLive(db, c, g); }
    }
  }

  lemma CutLinkDown(db: Db, dir: nat, name: Name, child: nat, d: nat, n: Name, g: nat)
    requires Inv(db) && Writable(db, dir, child)
    ensures LinkAt(CutLink(db, dir, name, child), d, n, g) ==
      if d == dir && n == name && g >= db.cur then None else LinkAt(db, d, n, g)
  {
    if d == dir {
      if g >= db.cur { LiveLoads(db, d, g); }
      else if Load(db.nodes, d, g).Some? { CurrentVersionIsLive(db, d, g); }
    }
  }

  lemma CutLinkUp(db: Db, dir: nat, name: Name, child: nat, c: nat, d: nat, n: Name, g: nat)
    requires Inv(db) && Writable(db, dir, child)
    ensures UpAt(CutLink(db, dir, name, child), c, d, n, g) <==>
      !(c == child && d == dir && n == name && g >= db.cur) && UpAt(db, c, d, n, g)
  {
    if c == child {
      if g >= db.cur { LiveLoads(db, c, g); }
      else if Load(db.nodes, c, g).Some? { CurrentVersionIsLive(db, c, g); }
    }
  }

  lemma PutLinkInv(db: Db, dir: nat, name: Name, child: nat)
    requires Inv(db) && Writable(db, dir, child)
    ensures Inv(PutLink(db, dir, name, child)) && Inv(CutLink(db, dir, name, child))
  {
    var q, r := PutLink(db, dir, name, child), CutLink(db, dir, name, child);
    forall k | k in q.down
      ensures DnKeyOk(q, k)
    {
      if k in db.down { assert DnKeyOk(db, k); }
    }
    forall k | k in q.ups
      ensures UpKeyOk(q, k)
    {
      if k in db.ups { assert UpKeyOk(db, k); }
    }
    forall k | k in r.down
      ensures DnKeyOk(r, k)
    {
      assert DnKeyOk(db, k);
    }
    forall k | k in r.ups
      ensures UpKeyOk(r, k)
    {
      assert UpKeyOk(db, k);
    }
    assert forall k :: k in db.nodes ==> NodeKeyOk(db, k) && NodeKeyOk(q, k) && NodeKeyOk(r, k);
  }

  /** The effect of one operation on what every view shows: at most one link and one node, from the live view on. */
  ghost predicate Effect(db: Db, db': Db, dir: nat, name: Name, link: Option<nat>, id: nat, a: Attr) {
    && db'.cur == db.cur && db'.next == db.next && db'.clock == db.clock
    && (forall x: nat, g: nat :: NodeAt(db', x, g) == if x == id && g >= db.cur then Some(a) else NodeAt(db, x, g))
    && (forall d: nat, n: Name, g: nat :: LinkAt(db', d, n, g) ==
          if d == dir && n == name && g >= db.cur then link else LinkAt(db, d, n, g))
    && (forall c: nat, d: nat, n: Name, g: nat :: UpAt(db', c, d, n, g) <==>
          if c == id && d == dir && n == name && g >= db.cur then link == Some(c) else UpAt(db, c, d, n, g))
  }

  function Relinked(db: Db, dir: nat, name: Name, child: nat, add: bool): Db {
    if add then PutLink(db, dir, name, child) else CutLink(db, dir, name, child)
  }

  lemma RelinkedEffect(db: Db, p: Db, dir: nat, name: Name, child: nat, add: bool)
    requires Inv(p) && SameViews(db, p) && Writable(p, dir, child)
    ensures var q := Relinked(p, dir, name, child, add);
      && Inv(q) && q.nodes == p.nodes
      && (forall d: nat, n: Name, g: nat :: LinkAt(q, d, n, g) ==
            if d == dir && n == name && g >= db.cur then (if add then Some(child) else None) else LinkAt(db, d, n, g))
      && (forall c: nat, d: nat, n: Name, g: nat :: UpAt(q, c, d, n, g) <==>
            if c == child && d == dir && n == name && g >= db.cur then add else UpAt(db, c, d, n, g))
  {
    PutLinkInv(p, dir, name, child);
    var q := Relinked(p, dir, name, child, add);
    forall d: nat, n: Name, g: nat
      ensures LinkAt(q, d, n, g) ==
        if d == dir && n == name && g >= db.cur then (if add then Some(child) else None) else LinkAt(db, d, n, g)
    {
      if add { PutLinkDown(p, dir, name, child, d, n, g); } else { CutLinkDown(p, dir, name, child, d, n, g); }
    }
    forall c: nat, d: nat, n: Name, g: nat
      ensures UpAt(q, c, d, n, g) <==>
        if c == child && d == dir && n == name && g >= db.cur then add else UpAt(db, c, d, n, g)
    {
      if add { PutLinkUp(p, dir, name, child, c, d, n, g); } else { CutLinkUp(p, dir, name, child, c, d, n, g); }
    }
  }

  /** Writing or cutting a link in prepared tables, then rewriting the child. */
  lemma LinkEffect(db: Db, dir: nat, name: Name, child: nat, a: Attr, add: bool)
    requires Inv(db) && Load(db.nodes, dir, db.cur).Some? && Load(db.nodes, child, db.cur).Some?
    ensures var r := Rewrite(Relinked(Prepared(db, dir, child), dir, name, child, add), child, a);
      Inv(r) && Effect(db, r, dir, name, if add then Some(child) else None, child, a)
  {
    var p := Prepared(db, dir, child);
    PreparedOk(db, dir, child);
    RelinkedEffect(db, p, dir, name, child, add);
    var q := Relinked(p, dir, name, child, add);
    StoreViews(q, child, a);
    var r := Rewrite(q, child, a);
    forall x: nat, g: nat
      ensures NodeAt(r, x, g) == if x == child && g >= db.cur then Some(a) else NodeAt(db, x, g)
    {
      assert NodeAt(q, x, g) == NodeAt(p, x, g) == NodeAt(db, x, g);
    }
  }

  /** A change to one link and its child, seen in the tables and in the plain view, keeps them related. */
  lemma EffectRel(db: Db, db': Db, fs: Fs, w: View, dir: nat, name: Name, link: Option<nat>, child: nat, a: Attr)
    requires Rel(db, fs) && Effect(db, db', dir, name, link, child, a)
    requires Edge(dir, name) in fs.live.links ==> fs.live.links[Edge(dir, name)] == child
    requires link == None || link == Some(child)
    requires w.nodes == fs.live.nodes[child := a]
    requires link == None ==> w.links == fs.live.links - {Edge(dir, name)}
    requires link == Some(child) ==> w.links == fs.live.links[Edge(dir, name) := child]
    ensures Rel(db', fs.(live := w))
  {
    var fs' := fs.(live := w);
    forall x: nat, g: nat
      ensures NodeAt(db', x, g) == Get(fs'.At(g).nodes, x)
    {
      assert NodeAt(db, x, g) == Get(fs.At(g).nodes, x);
    }
    forall d: nat, n: Name, g: nat
      ensures LinkAt(db', d, n, g) == Get(fs'.At(g).links, Edge(d, n))
    {
      assert LinkAt(db, d, n, g) == Get(fs.At(g).links, Edge(d, n));
    }
    forall c: nat, d: nat, n: Name, g: nat
      ensures UpAt(db', c, d, n, g) <==> Get(fs'.At(g).links, Edge(d, n)) == Some(c)
    {
      assert UpAt(db, c, d, n, g) <==> Get(fs.At(g).links, Edge(d, n)) == Some(c);
      assert LinkAt(db', d, n, g) == Get(fs'.At(g).links, Edge(d, n));
    }
  }

  lemma RelLive(db: Db, fs: Fs)
    requires Rel(db, fs)
    ensures fs.At(db.cur) == fs.live
    ensures forall x: nat :: NodeAt(db, x, db.cur) == Get(fs.live.nodes, x)
    ensures forall d: nat, n: Name :: LinkAt(db, d, n, db.cur) == Get(fs.live.links, Edge(d, n))
    ensures forall d: nat, n: Name :: Edge(d, n) in fs.live.links ==> d in fs.live.nodes && fs.live.links[Edge(d, n)] in fs.live.nodes
  {
    assert fs.At(db.cur) == fs.live;
    forall d: nat, n: Name | Edge(d, n) in fs.live.links
      ensures d in fs.live.nodes && fs.live.links[Edge(d, n)] in fs.live.nodes
    {
      var c := fs.live.links[Edge(d, n)];
      assert LinkAt(db, d, n, db.cur) == Some(c);
      assert UpAt(db, c, d, n, db.cur);
      assert NodeAt(db, d, db.cur) == Get(fs.live.nodes, d) && NodeAt(db, c, db.cur) == Get(fs.live.nodes, c);
    }
  }

  lemma LinkSimOk(db: Db, fs: Fs, dir: nat, name: Name, child: nat, db': Db, fs': Fs)
    requires Inv(db) && Rel(db, fs)
    requires dir in fs.live.nodes && child in fs.live.nodes && Edge(dir, name) !in fs.live.links
    requires db' == Rewrite(PutLink(Prepared(db, dir, child), dir, name, child), child, Counted(fs.live.nodes[child]))
    requires fs' == fs.(live := AddLink(fs.live, dir, name, child))
    ensures Inv(db') && Rel(db', fs')
  {
    assert fs.At(db.cur) == fs.live;
    assert NodeAt(db, dir, db.cur) == Get(fs.live.nodes, dir);
    assert NodeAt(db, child, db.cur) == Get(fs.live.nodes, child);
    LinkEffect(db, dir, name, child, Counted(fs.live.nodes[child]), true);
    EffectRel(db, db', fs, fs'.live, dir, name, Some(child), child, Counted(fs.live.nodes[child]));
  }

  lemma LinkVerdict(db: Db, fs: Fs, dir: nat, name: Name, child: nat, l: (Error, Db), s: (Error, View))
    requires Rel(db, fs)
    requires l == LinkDb(db, dir, name, child, Reaches(fs.live, child, dir))
    requires s == Linked(fs.live, dir, name, child)
    ensures l.0 == s.0
    ensures l.0 != OK ==> l.1 == db && s.1 == fs.live
    ensures l.0 == OK ==>
      && dir in fs.live.nodes && child in fs.live.nodes && Edge(dir, name) !in fs.live.links
      && s.1 == AddLink(fs.live, dir, name, child)
      && l.1 == Rewrite(PutLink(Prepared(db, dir, child), dir, name, child), child, Counted(fs.live.nodes[child]))
  {
    assert fs.At(db.cur) == fs.live;
    assert NodeAt(db, dir, db.cur) == Get(fs.live.nodes, dir);
    assert NodeAt(db, child, db.cur) == Get(fs.live.nodes, child);
    assert LinkAt(db, dir, name, db.cur) == Get(fs.live.links, Edge(dir, name));
  }

  /** A link in the tables is the link in the plain file system: same verdict, same views after. */
  lemma LinkSim(db: Db, fs: Fs, dir: nat, name: Name, child: nat, l: (Error, Db), s: (Error, View))
    requires Inv(db) && Rel(db, fs)
    requires l == LinkDb(db, dir, name, child, Reaches(fs.live, child, dir))
    requires s == Linked(fs.live, dir, name, child)
    ensures l.0 == s.0 && Inv(l.1) && Rel(l.1, fs.(live := s.1))
    ensures l.0 != OK ==> l.1 == db
  {
    LinkVerdict(db, fs, dir, name, child, l, s);
    if l.0 == OK {
      LinkSimOk(db, fs, dir, name, child, l.1, fs.(live := s.1));
    } else {
      assert fs.(live := s.1) == fs;
    }
  }

  lemma UnlinkSim(db: Db, fs: Fs, dir: nat, name: Name)
    requires Inv(db) && Rel(db, fs)
    ensures var l, s := UnlinkDb(db, dir, name), Unlinked(fs.live, dir, name);
      l.0 == s.0 && Inv(l.1) && Rel(l.1, fs.(live := s.1))
    ensures UnlinkDb(db, dir, name).0 != OK ==> UnlinkDb(db, dir, name).1 == db
  {
    RelLive(db, fs);
    var l, s := UnlinkDb(db, dir, name), Unlinked(fs.live, dir, name);
    assert LinkAt(db, dir, name, db.cur) == Get(fs.live.links, Edge(dir, name));
    if Edge(dir, name) in fs.live.links {
      var c := fs.live.links[Edge(dir, name)];
      var a := Released(fs.live.nodes[c]);
      assert NodeAt(db, dir, db.cur) == Get(fs.live.nodes, dir) && NodeAt(db, c, db.cur) == Get(fs.live.nodes, c);
      LinkEffect(db, dir, name, c, a, false);
      EffectRel(db, l.1, fs, s.1, dir, name, None, c, a);
    } else {
      assert l == (NOENT, db) && s == (NOENT, fs.live) && fs.(live := s.1) == fs;
    }
  }

  lemma MoveSim(db: Db, fs: Fs, sdir: nat, sn: Name, ddir: nat, dn: Name, cyclic: bool)
    requires Inv(db) && Rel(db, fs)
    requires Edge(sdir, sn) in fs.live.links ==> cyclic == Reaches(fs.live, fs.live.links[Edge(sdir, sn)], ddir)
    ensures var l, s := MoveDb(db, sdir, sn, ddir, dn, cyclic), Moved(fs.live, sdir, sn, ddir, dn);
      l.0 == s.0 && Inv(l.1) && Rel(l.1, fs.(live := s.1))
    ensures MoveDb(db, sdir, sn, ddir, dn, cyclic).0 != OK ==> MoveDb(db, sdir, sn, ddir, dn, cyclic).1 == db
  {
    RelLive(db, fs);
    MovedCases(fs.live, sdir, sn, ddir, dn);
    var v := fs.live;
    assert LinkAt(db, sdir, sn, db.cur) == Get(v.links, Edge(sdir, sn));
    if Edge(sdir, sn) in v.links {
      var c := v.links[Edge(sdir, sn)];
      var l, s := LinkDb(db, ddir, dn, c, cyclic), Linked(v, ddir, dn, c);
      LinkSim(db, fs, ddir, dn, c, l, s);
      if s.0 == OK {
        UnlinkSim(l.1, fs.(live := s.1), sdir, sn);
        assert fs.(live := s.1).(live := Unlinked(s.1, sdir, sn).1) == fs.(live := Unlinked(s.1, sdir, sn).1);
      }
    } else {
      assert fs.(live := v) == fs;
    }
  }

  lemma RewriteSim(db: Db, fs: Fs, id: nat, a: Attr)
    requires Inv(db) && Rel(db, fs) && id in fs.live.nodes
    ensures Inv(Rewrite(db, id, a)) && Rel(Rewrite(db, id, a), fs.(live := Put(fs.live, id, a)))
  {
    RelLive(db, fs);
    assert NodeAt(db, id, db.cur) == Get(fs.live.nodes, id);
    StoreViews(db, id, a);
    var db', fs' := Rewrite(db, id, a), fs.(live := Put(fs.live, id, a));
    forall x: nat, g: nat
      ensures NodeAt(db', x, g) == Get(fs'.At(g).nodes, x)
    {
      assert NodeAt(db, x, g) == Get(fs.At(g).nodes, x);
    }
    forall d: nat, n: Name, g: nat
      ensures LinkAt(db', d, n, g) == Get(fs'.At(g).links, Edge(d, n))
      ensures forall c: nat :: UpAt(db', c, d, n, g) <==> Get(fs'.At(g).links, Edge(d, n)) == Some(c)
    {
      assert LinkAt(db, d, n, g) == Get(fs.At(g).links, Edge(d, n));
      assert forall c: nat :: UpAt(db, c, d, n, g) <==> Get(fs.At(g).links, Edge(d, n)) == Some(c);
    }
  }

  lemma NewIdUnused(db: Db, g: nat)
    requires Inv(db)
    ensures Load(db.nodes, db.next, g) == None
    ensures forall n: Name :: DnKey(db.next, db.cur, n) !in db.down
    ensures forall d: nat, n: Name :: UpKey(db.next, db.cur, d, n) !in db.ups
  {
    if Load(db.nodes, db.next, g).Some? { LoadBounds(db, db.next, g); }
    assert NodeKey(db.next, db.cur) !in db.nodes;
    assert forall n: Name :: DnKey(db.next, db.cur, n) in db.down ==> DnKeyOk(db, DnKey(db.next, db.cur, n));
    assert forall d: nat, n: Name :: UpKey(db.next, db.cur, d, n) in db.ups ==> UpKeyOk(db, UpKey(db.next, db.cur, d, n));
  }

  lemma CreateInv(db: Db, t: Type, blob: Name, spec: nat)
    requires Inv(db)
    ensures Inv(CreateDb(db, t, blob, spec))
  {
    NewIdUnused(db, db.cur);
    var wide := db.(next := db.next + 1);
    assert forall k :: k in db.nodes ==> NodeKeyOk(db, k) && NodeKeyOk(wide, k);
    assert forall k :: k in db.down ==> DnKeyOk(db, k) && DnKeyOk(wide, k);
    assert forall k :: k in db.ups ==> UpKeyOk(db, k) && UpKeyOk(wide, k);
    StoreInv(wide, db.next, Rec(NewAttr(t, blob, spec, db.clock), db.cur, db.cur));
  }

  lemma CreateSim(db: Db, fs: Fs, t: Type, blob: Name, spec: nat, fs': Fs)
    requires Inv(db) && Rel(db, fs)
    requires fs' == fs.(live := Put(fs.live, fs.next, NewAttr(t, blob, spec, fs.clock)), next := fs.next + 1)
    ensures Inv(CreateDb(db, t, blob, spec)) && Rel(CreateDb(db, t, blob, spec), fs')
  {
    var db' := CreateDb(db, t, blob, spec);
    var r := Rec(NewAttr(t, blob, spec, db.clock), db.cur, db.cur);
    CreateInv(db, t, blob, spec);
    assert db'.nodes == Store(db, db.next, r).nodes;
    forall x: nat, g: nat
      ensures NodeAt(db', x, g) == Get(fs'.At(g).nodes, x)
    {
      LoadStore(db, db.next, r, x, g);
      assert NodeAt(db, x, g) == Get(fs.At(g).nodes, x);
    }
    forall d: nat, n: Name, g: nat
      ensures LinkAt(db', d, n, g) == Get(fs'.At(g).links, Edge(d, n))
    {
      LoadStore(db, db.next, r, d, g);
      NewIdUnused(db, g);
      assert LinkAt(db, d, n, g) == Get(fs.At(g).links, Edge(d, n));
    }
    forall c: nat, d: nat, n: Name, g: nat
      ensures UpAt(db', c, d, n, g) <==> Get(fs'.At(g).links, Edge(d, n)) == Some(c)
    {
      LoadStore(db, db.next, r, c, g);
      NewIdUnused(db, g);
      assert UpAt(db, c, d, n, g) <==> Get(fs.At(g).links, Edge(d, n)) == Some(c);
    }
  }

  /** Moving the snapshot counter or the clock touches no table. */
  lemma FrameSim(db: Db, fs: Fs, db': Db, fs': Fs)
    requires Inv(db) && Rel(db, fs)
    requires db'.nodes == db.nodes && db'.down == db.down && db'.ups == db.ups && db'.changes == db.changes
    requires db'.cur == fs'.Cur() && db'.next == fs'.next == db.next && db'.clock == fs'.clock && db.cur <= db'.cur
    requires forall g: nat :: fs'.At(g) == fs.At(g)
    ensures Inv(db') && Rel(db', fs')
  {
    assert forall k :: k in db.nodes ==> NodeKeyOk(db, k) && NodeKeyOk(db', k);
    assert forall k :: k in db.down ==> DnKeyOk(db, k) && DnKeyOk(db', k);
    assert forall k :: k in db.ups ==> UpKeyOk(db, k) && UpKeyOk(db', k);
    forall x: nat, g: nat
      ensures NodeAt(db', x, g) == Get(fs'.At(g).nodes, x)
    {
      assert NodeAt(db, x, g) == Get(fs.At(g).nodes, x);
    }
    forall d: nat, n: Name, g: nat
      ensures LinkAt(db', d, n, g) == Get(fs'.At(g).links, Edge(d, n))
    {
      assert LinkAt(db, d, n, g) == Get(fs.At(g).links, Edge(d, n));
    }
    forall c: nat, d: nat, n: Name, g: nat
      ensures UpAt(db', c, d, n, g) <==> Get(fs'.At(g).links, Edge(d, n)) == Some(c)
    {
      assert UpAt(db, c, d, n, g) <==> Get(fs.At(g).links, Edge(d, n)) == Some(c);
    }
  }

  /** Sealing shows the live view again as a frozen one, and leaves every view as it was. */
  lemma SnapshotSim(db: Db, fs: Fs)
    requires Inv(db) && Rel(db, fs)
    ensures Inv(SnapshotDb(db)) && Rel(SnapshotDb(db), Step(fs, Snapshot).0)
    ensures forall g: nat :: Step(fs, Snapshot).0.At(g) == fs.At(g)
    ensures Step(fs, Snapshot).0.At(db.cur) == fs.live
  {
    FrameSim(db, fs, SnapshotDb(db), Step(fs, Snapshot).0);
  }

  lemma AttrSim(db: Db, fs: Fs, id: nat, c: Change, fs': Fs)
    requires Inv(db) && Rel(db, fs) && fs' == Step(fs, SetAttr(id, c)).0
    ensures Inv(AttrDb(db, id, c)) && Rel(AttrDb(db, id, c), fs')
  {
    assert fs.At(db.cur) == fs.live;
    assert NodeAt(db, id, db.cur) == Get(fs.live.nodes, id);
    if id in fs.live.nodes { RewriteSim(db, fs, id, Changed(fs.live.nodes[id], c)); }
  }

  lemma PayloadSim(db: Db, fs: Fs, id: nat, p: Payload, l: (Error, Db), s: (Fs, Outcome))
    requires Inv(db) && Rel(db, fs) && s == Step(fs, SetPayload(id, p)) && l == PayloadDb(db, id, p)
    ensures l.0 == s.1.err && Inv(l.1) && Rel(l.1, s.0)
    ensures l.0 != OK ==> l.1 == db
  {
    assert fs.At(db.cur) == fs.live;
    assert NodeAt(db, id, db.cur) == Get(fs.live.nodes, id);
    if id in fs.live.nodes && Accepts(fs.live.nodes[id].typ, p) { RewriteSim(db, fs, id, Loaded(fs.live.nodes[id], p)); }
  }

  /** Forward simulation: one operation on the tables is the same operation on the plain file system. */
  lemma StepSim(db: Db, fs: Fs, op: Op, db': Db, out: Outcome, fs': Fs)
    requires Inv(db) && Rel(db, fs)
    requires (db', out) == StepDb(db, op, CycleVerdict(fs, op)) && fs' == Step(fs, op).0
    ensures Inv(db') && Rel(db', fs') && out == Step(fs, op).1
    ensures out.err != OK ==> db' == db
  {
    var cyclic := CycleVerdict(fs, op);
    match op
    case Create(t, b, s) => CreateSim(db, fs, t, b, s, fs');
    case Link(d, n, c) => LinkSim(db, fs, d, n, c, LinkDb(db, d, n, c, cyclic), Linked(fs.live, d, n, c));
    case Unlink(d, n) => UnlinkSim(db, fs, d, n);
    case Move(sd, sn, dd, dn) => MoveSim(db, fs, sd, sn, dd, dn, cyclic);
    case SetAttr(id, c) => AttrSim(db, fs, id, c, fs');
    case SetPayload(id, p) => PayloadSim(db, fs, id, p, PayloadDb(db, id, p), Step(fs, op));
    case Snapshot => SnapshotSim(db, fs);
    case SetTime(t) => FrameSim(db, fs, db', fs');
  }

  lemma NewDbSim(clock: nat)
    ensures Inv(NewDb(clock)) && Rel(NewDb(clock), Init(clock))
  {
    var db, fs := NewDb(clock), Init(clock);
    forall x: nat, g: nat
      ensures Load(db.nodes, x, g) == if x == ROOT && g >= 1 then Some(db.nodes[NodeKey(ROOT, 1)]) else None
    {
      if x == ROOT && g >= 1 {
        assert Newest(db.nodes, x, g, 1);
        LoadAt(db.nodes, x, 1, g);
      } else {
        LoadNothing(db.nodes, x, g);
      }
    }
    assert forall x: nat, g: nat :: NodeAt(db, x, g) == Get(fs.At(g).nodes, x);
    assert forall d: nat, n: Name, g: nat :: LinkAt(db, d, n, g) == Get(fs.At(g).links, Edge(d, n));
  }

  /** The tables after a run, each link judged by the graph it is applied to. */
  ghost function RunDb(db: Db, fs: Fs, ops: seq<Op>): Db
    decreases |ops|
  {
    if ops == [] then db
    else RunDb(StepDb(db, ops[0], CycleVerdict(fs, ops[0])).0, Step(fs, ops[0]).0, ops[1..])
  }

  /** After any run, the tables show at every snapshot exactly the plain file system's view. */
  lemma {:induction false} RunSim(db: Db, fs: Fs, ops: seq<Op>)
    requires Inv(db) && Rel(db, fs)
    ensures Inv(RunDb(db, fs, ops)) && Rel(RunDb(db, fs, ops), Run(fs, ops))
    decreases |ops|
  {
    if ops != [] {
      var r := StepDb(db, ops[0], CycleVerdict(fs, ops[0]));
      StepSim(db, fs, ops[0], r.0, r.1, Step(fs, ops[0]).0);
      RunSim(r.0, Step(fs, ops[0]).0, ops[1..]);
    }
  }

  /** Snapshot isolation in the tables: what a sealed view shows survives every later run. */
  lemma TablesIsolated(db: Db, fs: Fs, ops: seq<Op>, g: nat)
    requires Inv(db) && Rel(db, fs) && g < db.cur
    ensures var db' := RunDb(db, fs, ops);
      && (forall x: nat :: NodeAt(db', x, g) == NodeAt(db, x, g))
      && (forall d: nat, n: Name :: LinkAt(db', d, n, g) == LinkAt(db, d, n, g))
      && (forall c: nat, d: nat, n: Name :: UpAt(db', c, d, n, g) == UpAt(db, c, d, n, g))
  {
    RunSim(db, fs, ops);
    SealedViewsNeverChange(fs, ops, g);
    var db', fs' := RunDb(db, fs, ops), Run(fs, ops);
    assert fs'.At(g) == fs.At(g);
    forall x: nat
      ensures NodeAt(db', x, g) == NodeAt(db, x, g)
    {
      assert NodeAt(db, x, g) == Get(fs.At(g).nodes, x) && NodeAt(db', x, g) == Get(fs'.At(g).nodes, x);
    }
    forall d: nat, n: Name
      ensures LinkAt(db', d, n, g) == LinkAt(db, d, n, g)
    {
      assert LinkAt(db, d, n, g) == Get(fs.At(g).links, Edge(d, n)) && LinkAt(db', d, n, g) == Get(fs'.At(g).links, Edge(d, n));
    }
    forall c: nat, d: nat, n: Name
      ensures UpAt(db', c, d, n, g) == UpAt(db, c, d, n, g)
    {
      assert UpAt(db, c, d, n, g) <==> Get(fs.At(g).links, Edge(d, n)) == Some(c);
      assert UpAt(db', c, d, n, g) <==> Get(fs'.At(g).links, Edge(d, n)) == Some(c);
    }
  }

  // ---- the change index ----

  /** The nodes written in (a, b], read off the change index. */
  function Candidates(db: Db, a: nat, b: nat): set<nat> {
    set k | k in db.changes && a < k.snap <= b :: k.id
  }

  /** A node outside the candidates has the same record in both views. */
  lemma NonCandidateUnchanged(db: Db, a: nat, b: nat, id: nat)
    requires Inv(db) && a <= b && id !in Candidates(db, a, b)
    ensures Load(db.nodes, id, b) == Load(db.nodes, id, a)
  {
    forall s: nat | a < s <= b
      ensures NodeKey(id, s) !in db.nodes
    {
      assert NodeKey(id, s) in db.nodes ==> ChangeKey(s, id) in db.changes;
      assert ChangeKey(s, id) in db.changes ==> ChangeKey(s, id).id in Candidates(db, a, b);
    }
    LoadUnwritten(db.nodes, id, a, b);
  }
}
