/**
 The versioned store over the engine's ordered byte maps. Every method works on the maps as the
 source does, cursor by cursor; the ghost fields say which tables the maps hold (db) and which plain
 file system they show (fs).
 */
module PrfsStore {
  import opened Keys
  import opened Options
  import opened FileSystem
  import opened Observations
  import opened VersionedDb
  import opened VersionedOps
  import opened Engine
  import opened TableKeys
  import opened Scans
  import opened Handles
  import opened Reads
  import opened Tallies
  import Numbers

  class PrfsStore {
    // the engine's sub-stores
    var nodes: map<Bytes, Rec>
    var down: map<Bytes, nat>
    var ups: map<Bytes, ()>
    var changes: map<Bytes, ()>

    var next: nat
    var cur: nat
    var clock: nat

    ghost var db: Db
    ghost var fs: Fs

    /** The byte maps hold exactly the tables of db. */
    ghost predicate Tables()
      reads this
    {
      && EncodesNodes(nodes, db.nodes) && EncodesDown(down, db.down)
      && EncodesUps(ups, db.ups) && EncodesChanges(changes, db.changes)
      && cur == db.cur && next == db.next && clock == db.clock
      && cur < LATEST && next <= TWO63
    }

    /** The tables are well formed and show fs, every view of which is sound. */
    ghost predicate Valid()
      reads this
    {
      Tables() && Inv(db) && Rel(db, fs) && Healthy(fs)
    }

    constructor (clock: nat)
      ensures Valid() && fs == Init(clock)
    {
      nodes := map[NodeBytes(ROOT, 1) := Rec(NewAttr(DIR, [], 0, clock).(nlink := 1), 1, 1)];
      changes := map[NodeBytes(1, ROOT) := ()];
      down, ups := map[], map[];
      next, cur, this.clock := 2, 1, clock;
      db, fs := NewDb(clock), Init(clock);
      new;
      var r := Rec(NewAttr(DIR, [], 0, clock).(nlink := 1), 1, 1);
      EncodeNodePut(map[], map[], ROOT, 1, r);
      EncodeChangePut(map[], {}, 1, ROOT);
      NewDbSim(clock);
      InitHealthy(clock);
      assert db.nodes == map[][NodeKey(ROOT, 1) := r] && db.changes == {} + {ChangeKey(1, ROOT)};
    }

    // ---- node records ----

    /** The cursor dance of a range-back read is the floor search. */
    method LoadNode(id: nat, g: nat) returns (r: Option<Rec>)
      requires EncodesNodes(nodes, db.nodes) && id < TWO64 && g < TWO64
      ensures r == Load(db.nodes, id, g)
    {
      var c := new MemCursor(nodes);
      var key := NodeBytes(id, g);
      NodeBytesDecode(id, g);
      NodeGet(nodes, db.nodes, id, g);
      var ok := c.Seek(key);
      ghost var p := c.pos;
      if ok {
        var k := c.Key();
        assert k in c.keys && NodeListed(nodes, db.nodes, k);
        NodeBytesEncode(k);
        if !(|k| == 16 && First8(k) == id && Second8(k) == g) { ok := c.Prev(); }
      } else {
        ok := c.Last();
      }
      assert p != 0 ==> c.keys[p - 1] in c.keys && NodeListed(nodes, db.nodes, c.keys[p - 1]);
      if p < |c.keys| && c.keys[p] == key {
        LoadAtKey(db.nodes, id, g);
      } else {
        if key in c.keys { ExactAtBound(c.keys, key, p); }
        FloorBelow(nodes, db.nodes, c.keys, id, g, p);
      }
      if ok {
        var k := c.Key();
        if |k| == 16 && First8(k) == id && Second8(k) <= g { return Some(c.Val()); }
      }
      return None;
    }

    method StoreNode(id: nat, r: Rec)
      requires Tables() && id < TWO64
      modifies this`nodes, this`changes, this`db
      ensures Tables() && db == Store(old(db), id, r)
    {
      EncodeNodePut(nodes, db.nodes, id, cur, r);
      EncodeChangePut(changes, db.changes, cur, id);
      nodes := nodes[NodeBytes(id, cur) := r];
      changes := changes[NodeBytes(cur, id) := ()];
      db := Store(db, id, r);
    }

    // ---- link sets ----

    method ScanDownlinks(dir: nat, ver: nat) returns (es: seq<Entry>)
      requires EncodesDown(down, db.down) && dir < TWO64 && ver < TWO64
      ensures ListsDown(db.down, dir, ver, es)
    {
      ghost var keys, start;
      es, keys, start := WalkLinks(down, Be(dir) + Be(ver));
      ScanFromLists(down, db.down, dir, ver, keys, start);
    }

    /** One page of a link set: the entries above the cursor, up to max, and whether any are left. */
    method ScanPage(dir: nat, ver: nat, after: Name, max: nat) returns (es: seq<Entry>, eof: bool, ghost all: seq<Entry>)
      requires EncodesDown(down, db.down) && dir < TWO64 && ver < TWO64
      ensures ListsDown(db.down, dir, ver, all)
      ensures eof <==> |After(all, after)| <= max
      ensures es == if eof then After(all, after) else After(all, after)[..max]
    {
      var pfx := Be(dir) + Be(ver);
      var c := new MemCursor(down);
      var _ := c.Seek(pfx + after);
      ghost var first := LowerBoundExists(c.keys, pfx, 0);
      ghost var start := c.pos;
      ghost var vs, off := PageShape(down, c.keys, pfx, after, start);
      es, eof := WalkPage(c, pfx, after, max, vs, off);
      all := ScanFrom(down, c.keys, pfx, first);
      ScanFromLists(down, db.down, dir, ver, c.keys, first);
      SeekStart(down, c.keys, pfx, after, first, start);
      PageMeaning(down, c.keys, pfx, after, start, vs, off);
      CopiedSlice(es, vs, off);
    }

    method ScanUplinks(node: nat, ver: nat) returns (ss: seq<Bytes>)
      requires EncodesUps(ups, db.ups) && node < TWO64 && ver < TWO64
      ensures ListsUps(db.ups, node, ver, ss)
    {
      ghost var keys, start;
      ss, keys, start := WalkSuffixes(ups, Be(node) + Be(ver));
      ScannedUpsLists(ups, db.ups, node, ver, keys, start, ss);
    }

    /** Copy the directory's whole link set to the current version, unless that was done already. */
    method EnsureWritableDnLinks(dir: nat)
      requires Tables() && dir < TWO64 && Load(db.nodes, dir, cur).Some? && Load(db.nodes, dir, cur).value.dn < TWO64
      modifies this`nodes, this`changes, this`down, this`db
      ensures Tables() && db == WritableDn(old(db), dir)
    {
      var r := LoadNode(dir, cur);
      if r.value.dn == cur { return; }
      var copies := ScanDownlinks(dir, r.value.dn);
      PutAllDownCopies(db, dir, r.value.dn, copies);
      CopyDown(dir, copies);
      StoreNode(dir, r.value.(dn := cur));
    }

    method CopyDown(dir: nat, copies: seq<Entry>)
      requires Tables() && dir < TWO64
      modifies this`down, this`db
      ensures Tables() && db == old(db).(down := PutAllDown(old(db).down, dir, cur, copies))
    {
      var i := 0;
      while i < |copies|
        invariant 0 <= i <= |copies| && EncodesDown(down, db.down)
        invariant db == old(db).(down := PutAllDown(old(db).down, dir, cur, copies[..i]))
      {
        assert copies[..i + 1][..i] == copies[..i];
        EncodeDownPut(down, db.down, dir, cur, copies[i].name, copies[i].child);
        down := down[DnBytes(dir, cur, copies[i].name) := copies[i].child];
        db := db.(down := db.down[DnKey(dir, cur, copies[i].name) := copies[i].child]);
        i := i + 1;
      }
      assert copies[..i] == copies;
    }

    method EnsureWritableUpLinks(node: nat)
      requires Tables() && node < TWO64 && Load(db.nodes, node, cur).Some? && Load(db.nodes, node, cur).value.up < TWO64
      modifies this`nodes, this`changes, this`ups, this`db
      ensures Tables() && db == WritableUp(old(db), node)
    {
      var r := LoadNode(node, cur);
      if r.value.up == cur { return; }
      var copies := ScanUplinks(node, r.value.up);
      assert forall s :: s in copies ==> |s| >= 8;
      PutAllUpsCopies(db, node, r.value.up, copies);
      CopyUp(node, copies);
      StoreNode(node, r.value.(up := cur));
    }

    method CopyUp(node: nat, copies: seq<Bytes>)
      requires Tables() && node < TWO64 && forall s :: s in copies ==> |s| >= 8
      modifies this`ups, this`db
      ensures Tables() && db == old(db).(ups := PutAllUps(old(db).ups, node, cur, copies))
    {
      var i := 0;
      assert copies[..0] == [];
      while i < |copies|
        invariant 0 <= i <= |copies| && EncodesUps(ups, db.ups)
        invariant forall s :: s in copies[..i] ==> |s| >= 8
        invariant db == old(db).(ups := PutAllUps(old(db).ups, node, cur, copies[..i]))
      {
        PutAllUpsStep(old(db).ups, node, cur, copies, i);
        PutUpSuffix(ups, db.ups, node, cur, copies[i]);
        ups := ups[Be(node) + Be(cur) + copies[i] := ()];
        db := db.(ups := db.ups + {UpKey(node, cur, First8(copies[i]), copies[i][8..])});
        i := i + 1;
      }
      assert copies[..i] == copies;
    }

    // ---- reachability ----

    /** Worklist search over live directory links. */
    method Reachable(from: nat, to: nat) returns (yes: bool)
      requires Valid() && from < TWO64
      ensures yes <==> Reaches(fs.live, from, to)
    {
      ghost var v := fs.live;
      ghost var universe := v.nodes.Keys + {from};
      var st, seen: set<nat> := [from], {};
      ReachesSelf(v, from);
      while st != []
        invariant forall x :: x in st ==> x in universe && Reaches(v, from, x)
        invariant from in seen || from in st
        invariant to !in seen && seen <= universe
        invariant forall x :: x in seen ==> ChildrenWithin(v, x, seen, st)
        decreases universe - seen, |st|
      {
        var n := st[|st| - 1];
        ghost var whole := st;
        assert n in st;
        st := st[..|st| - 1];
        assert whole == st + [n];
        if n == to { return true; }
        if n in seen { continue; }
        seen := seen + {n};
        LiveNode(db, fs, n);
        var r := LoadNode(n, cur);
        if r.None? || r.value.attr.typ != DIR { continue; }
        var ds := DirChildren(n, r.value.dn);
        forall x | x in ds
          ensures x in universe && Reaches(v, from, x)
        {
          ReachesExtend(v, from, n, x);
        }
        st := st + ds;
      }
      ClosedUnreachable(v, seen, from, to);
      return false;
    }

    /** The directories among a live directory's children, in name order. */
    method DirChildren(n: nat, ver: nat) returns (ds: seq<nat>)
      requires EncodesNodes(nodes, db.nodes) && EncodesDown(down, db.down)
      requires cur == db.cur && Inv(db) && Rel(db, fs) && cur < TWO64 && next <= TWO64 && next == db.next
      requires n < TWO64 && IsDir(fs.live, n)
      requires Load(db.nodes, n, cur).Some? && Load(db.nodes, n, cur).value.dn == ver
      ensures forall y :: y in ds <==> Child(fs.live, n, y)
    {
      LiveNode(db, fs, n);
      var es := ScanDownlinks(n, ver);
      ScanIsListing(db, fs, n, cur, es);
      ds := [];
      var i := 0;
      while i < |es|
        invariant 0 <= i <= |es|
        invariant forall y :: y in ds <==> IsDir(fs.live, y) && ListedBefore(es, i, y)
      {
        forall y { ListedNext(es, i, y); }
        assert es[i] in es;
        LiveNode(db, fs, es[i].child);
        var cr := LoadNode(es[i].child, cur);
        if cr.Some? && cr.value.attr.typ == DIR { ds := ds + [es[i].child]; }
        i := i + 1;
      }
      forall y
        ensures y in ds <==> Child(fs.live, n, y)
      {
        ChildIffListed(fs.live, n, es, y);
      }
    }

    // ---- namespace ----

    /** No byte of the engine's state differs from before. */
    twostate predicate Untouched()
      reads this
    {
      nodes == old(nodes) && down == old(down) && ups == old(ups) && changes == old(changes)
      && next == old(next) && cur == old(cur) && clock == old(clock)
    }

    /** linkT after its checks: copy both link sets, write both directions, count the link. */
    method AttachLink(dir: nat, name: Name, child: nat)
      requires Tables() && LinkReady(db, dir, child) && dir < TWO64 && child < TWO64
      modifies this`nodes, this`changes, this`down, this`ups, this`db
      ensures Tables()
      ensures db == Rewrite(PutLink(Prepared(old(db), dir, child), dir, name, child), child,
                            Counted(NodeAt(old(db), child, cur).value))
    {
      EnsureWritableDnLinks(dir);
      EnsureWritableUpLinks(child);
      EncodeDownPut(down, db.down, dir, cur, name, child);
      EncodeUpPut(ups, db.ups, child, cur, dir, name);
      down := down[DnBytes(dir, cur, name) := child];
      ups := ups[UpBytes(child, cur, dir, name) := ()];
      db := PutLink(db, dir, name, child);
      var r := LoadNode(child, cur);
      StoreNode(child, r.value.(attr := Counted(r.value.attr)));
    }

    method DetachLink(dir: nat, name: Name, child: nat)
      requires Tables() && LinkReady(db, dir, child) && dir < TWO64 && child < TWO64
      modifies this`nodes, this`changes, this`down, this`ups, this`db
      ensures Tables()
      ensures db == Rewrite(CutLink(Prepared(old(db), dir, child), dir, name, child), child,
                            Released(NodeAt(old(db), child, cur).value))
    {
      EnsureWritableDnLinks(dir);
      EnsureWritableUpLinks(child);
      EncodeDownDel(down, db.down, dir, cur, name);
      EncodeUpDel(ups, db.ups, child, cur, dir, name);
      down := down - {DnBytes(dir, cur, name)};
      ups := ups - {UpBytes(child, cur, dir, name)};
      db := CutLink(db, dir, name, child);
      var r := LoadNode(child, cur);
      var a := r.value.attr;
      if a.nlink != 0 { a := a.(nlink := a.nlink - 1); }
      StoreNode(child, r.value.(attr := a));
    }

    /** linkT: every check comes before the first write. */
    method LinkT(dir: nat, name: Name, child: nat) returns (e: Error)
      requires Valid() && dir < TWO64 && child < TWO64
      modifies this
      ensures Tables() && fs == old(fs)
      ensures (e, db) == LinkDb(old(db), dir, name, child, Reaches(old(fs).live, child, dir))
      ensures e != OK ==> Untouched()
    {
      if name == SNAPSHOT_NAME { return INVAL; }
      var dr := LoadNode(dir, cur);
      if dr.None? { return NOENT; }
      if dr.value.attr.typ != DIR { return NOTDIR; }
      var cr := LoadNode(child, cur);
      if cr.None? { return NOENT; }
      if cr.value.attr.typ == DIR {
        var cyclic := Reachable(child, dir);
        if cyclic { return INVAL; }
      }
      LoadBounds(db, dir, cur);
      DownGet(down, db.down, dir, dr.value.dn, name);
      if DnBytes(dir, dr.value.dn, name) in down { return EXIST; }
      PreparedBounds(db, dir, child);
      AttachLink(dir, name, child);
      return OK;
    }

    method UnlinkT(dir: nat, name: Name) returns (e: Error)
      requires Valid() && dir < TWO64
      modifies this
      ensures Tables() && fs == old(fs)
      ensures (e, db) == UnlinkDb(old(db), dir, name)
      ensures e != OK ==> Untouched()
    {
      var dr := LoadNode(dir, cur);
      if dr.None? { return NOENT; }
      LoadBounds(db, dir, cur);
      DownGet(down, db.down, dir, dr.value.dn, name);
      if DnBytes(dir, dr.value.dn, name) !in down { return NOENT; }
      var c := down[DnBytes(dir, dr.value.dn, name)];
      LinkedNodesLoad(db, fs, dir, name);
      PreparedBounds(db, dir, c);
      DetachLink(dir, name, c);
      return OK;
    }

    method Link(dir: Handle, name: Name, child: Handle) returns (e: Error)
      requires Valid() && dir.id < TWO64 && child.id < TWO64
      modifies this
      ensures Valid() && (fs, Outcome(e, 0)) == Step(old(fs), FileSystem.Link(dir.id, name, child.id))
      ensures e != OK ==> Untouched()
    {
      ghost var op := FileSystem.Link(dir.id, name, child.id);
      e := LinkT(dir.id, name, child.id);
      OpSim(old(db), fs, op, db, Outcome(e, 0), Step(fs, op));
      fs := Step(fs, op).0;
    }

    method Unlink(dir: Handle, name: Name) returns (e: Error)
      requires Valid() && dir.id < TWO64
      modifies this
      ensures Valid() && (fs, Outcome(e, 0)) == Step(old(fs), FileSystem.Unlink(dir.id, name))
      ensures e != OK ==> Untouched()
    {
      ghost var op := FileSystem.Unlink(dir.id, name);
      e := UnlinkT(dir.id, name);
      OpSim(old(db), fs, op, db, Outcome(e, 0), Step(fs, op));
      fs := Step(fs, op).0;
    }

    /** Link first, unlink second; the unlink cannot fail, so nothing is ever rolled back. */
    method Move(sdir: Handle, sn: Name, ddir: Handle, dn: Name) returns (e: Error)
      requires Valid() && sdir.id < TWO64 && ddir.id < TWO64
      modifies this
      ensures Valid() && (fs, Outcome(e, 0)) == Step(old(fs), FileSystem.Move(sdir.id, sn, ddir.id, dn))
      ensures e != OK ==> Untouched()
    {
      var c := FindLink(sdir.id, sn);
      MovedCases(fs.live, sdir.id, sn, ddir.id, dn);
      if c.None? { return NOENT; }
      e := Link(ddir, dn, Handle(c.value, LATEST));
      if e != OK { return; }
      e := Unlink(sdir, sn);
    }

    /** The child a live directory binds a name to. */
    method FindLink(dir: nat, name: Name) returns (c: Option<nat>)
      requires Valid() && dir < TWO64
      ensures c == Get(fs.live.links, Edge(dir, name))
      ensures c.Some? ==> dir in fs.live.nodes && c.value < next
    {
      LinkView(db, fs, dir, name, cur);
      var r := LoadNode(dir, cur);
      if r.None? { return None; }
      LiveNode(db, fs, dir);
      DownGet(down, db.down, dir, r.value.dn, name);
      if DnBytes(dir, r.value.dn, name) !in down { return None; }
      return Some(down[DnBytes(dir, r.value.dn, name)]);
    }

    // ---- creation, attributes, snapshots ----

    method Create(t: Type, blob: Bytes, spec: nat) returns (h: Handle)
      requires Valid() && next < TWO63
      modifies this
      ensures Valid() && (fs, Outcome(OK, h.id)) == Step(old(fs), FileSystem.Create(t, blob, spec)) && h.snap == LATEST
    {
      ghost var op := FileSystem.Create(t, blob, spec);
      var id := next;
      next := next + 1;
      db := db.(next := next);
      StoreNode(id, Rec(NewAttr(t, blob, spec, clock), cur, cur));
      OpSim(old(db), fs, op, db, Outcome(OK, id), Step(fs, op));
      fs := Step(fs, op).0;
      return Handle(id, LATEST);
    }

    /** Every attribute setter; the handle's own view plays no part. */
    method SetAttr(h: Handle, c: Change)
      requires Valid() && h.id < TWO64
      modifies this
      ensures Valid() && fs == Step(old(fs), FileSystem.SetAttr(h.id, c)).0
    {
      ghost var op := FileSystem.SetAttr(h.id, c);
      var r := LoadNode(h.id, cur);
      if r.Some? { StoreNode(h.id, r.value.(attr := Changed(r.value.attr, c))); }
      OpSim(old(db), fs, op, db, Outcome(OK, 0), Step(fs, op));
      fs := Step(fs, op).0;
    }

    /** setContent, setTarget, setRdev and setContentSeed. */
    method SetPayload(h: Handle, p: Payload) returns (e: Error)
      requires Valid() && h.id < TWO64
      modifies this
      ensures Valid() && (fs, Outcome(e, 0)) == Step(old(fs), FileSystem.SetPayload(h.id, p))
      ensures e != OK ==> Untouched()
    {
      ghost var op := FileSystem.SetPayload(h.id, p);
      var r := LoadNode(h.id, cur);
      if r.None? {
        e := NOENT;
      } else if !Accepts(r.value.attr.typ, p) {
        e := INVAL;
      } else {
        StoreNode(h.id, r.value.(attr := Loaded(r.value.attr, p)));
        e := OK;
      }
      OpSim(old(db), fs, op, db, Outcome(e, 0), Step(fs, op));
      fs := Step(fs, op).0;
    }

    method Snapshot() returns (v: nat)
      requires Valid() && cur + 1 < LATEST
      modifies this
      ensures Valid() && (fs, Outcome(OK, v)) == Step(old(fs), FileSystem.Snapshot)
      ensures old(fs.Cur()) <= v < fs.Cur() && fs.live == old(fs.live)
      ensures forall ops :: v < Run(fs, ops).Cur() && Run(fs, ops).At(v) == old(fs.live)
    {
      forall ops { SealedViewsNeverChange(Step(fs, FileSystem.Snapshot).0, ops, fs.Cur()); }
      v := cur;
      cur := cur + 1;
      db := SnapshotDb(db);
      OpSim(old(db), fs, FileSystem.Snapshot, db, Outcome(OK, v), Step(fs, FileSystem.Snapshot));
      fs := Step(fs, FileSystem.Snapshot).0;
    }

    method SetTime(t: nat)
      requires Valid()
      modifies this
      ensures Valid() && fs == Step(old(fs), FileSystem.SetTime(t)).0
    {
      clock := t;
      db := db.(clock := t);
      OpSim(old(db), fs, FileSystem.SetTime(t), db, Outcome(OK, 0), Step(fs, FileSystem.SetTime(t)));
      fs := Step(fs, FileSystem.SetTime(t)).0;
    }

    // ---- reads ----

    function ResolveSnap(g: nat): nat
      reads this
    {
      if g == LATEST then cur else g
    }

    method ExistedAt(id: nat, g: nat) returns (yes: bool)
      requires Valid() && id < TWO64 && g < TWO64
      ensures yes <==> id in fs.At(g).nodes
    {
      NodeView(db, fs, id, g);
      var r := LoadNode(id, g);
      return r.Some?;
    }

    method NodeById(id: nat, snap: nat) returns (h: Option<Handle>)
      requires Valid() && id < TWO64 && snap < TWO64
      ensures h == Handles.NodeById(fs, id, snap)
    {
      var base := if IsSnapDir(id) then SnapBase(id) else id;
      var yes := ExistedAt(base, ResolveSnap(snap));
      return if yes then Some(Handle(id, snap)) else None;
    }

    /** The attributes a handle reads. */
    method ReadNode(h: Handle) returns (a: Attr)
      requires Valid() && h.id < TWO64 && h.snap < TWO64
      ensures a == AttrSeen(fs, h)
      decreases h.id
    {
      if IsSnapDir(h.id) {
        var base := ReadNode(Handle(SnapBase(h.id), h.snap));
        return SnapDirAttr(base);
      }
      NodeView(db, fs, h.id, ResolveSnap(h.snap));
      var r := LoadNode(h.id, ResolveSnap(h.snap));
      return if r.Some? then r.value.attr else NO_ATTR;
    }

    method Lookup(dir: Handle, name: Name) returns (h: Option<Handle>)
      requires Valid() && dir.id < TWO64 && dir.snap < TWO64
      ensures h == Handles.Lookup(fs, dir, name)
    {
      if IsSnapDir(dir.id) {
        var n := ParseSnap(name);
        if n.None? || n.value < 1 || n.value >= cur { return None; }
        var yes := ExistedAt(SnapBase(dir.id), n.value);
        return if yes then Some(Handle(SnapBase(dir.id), n.value)) else None;
      }
      var g := ResolveSnap(dir.snap);
      NodeView(db, fs, dir.id, g);
      LinkView(db, fs, dir.id, name, g);
      LiveNode(db, fs, dir.id);
      var r := LoadNode(dir.id, g);
      if r.None? { return None; }
      if name == SNAPSHOT_NAME && dir.snap == LATEST && r.value.attr.typ == DIR {
        return Some(Handle(dir.id + TWO63, LATEST));
      }
      DownGet(down, db.down, dir.id, r.value.dn, name);
      if DnBytes(dir.id, r.value.dn, name) !in down { return None; }
      return Some(Handle(down[DnBytes(dir.id, r.value.dn, name)], dir.snap));
    }

    method Readdir(dir: Handle) returns (ds: seq<DirEntry>)
      requires Valid() && dir.id < TWO64 && dir.snap < TWO64
      ensures ds == Handles.Readdir(fs, dir)
    {
      if IsSnapDir(dir.id) {
        var p := PageSnapDir(SnapBase(dir.id), 1, cur);
        SnapsBelowCount(fs, SnapBase(dir.id), 1, cur);
        return p.entries;
      }
      var g := ResolveSnap(dir.snap);
      NodeView(db, fs, dir.id, g);
      var r := LoadNode(dir.id, g);
      if r.None? {
        NoNodeNoLinks(db, fs, dir.id, g);
        return [];
      }
      var es := ScanDownlinks(dir.id, r.value.dn);
      ScanIsListing(db, fs, dir.id, g, es);
      return WithView(es, dir.snap);
    }

    /** One entry per snapshot the base existed at, from a first one on, max to the page. */
    method PageSnapDir(base: nat, from: nat, max: nat) returns (p: DirPage)
      requires Valid() && base < TWO63
      ensures p == Paged(SnapEntries(base, SnapsBelow(fs, base, from, cur)), max)
    {
      var ns, eof := WalkSnaps(base, from, max);
      SnapsArePaged(base, ns, SnapsBelow(fs, base, from, cur), max, eof);
      return PageOfSnaps(base, ns, eof);
    }

    method WalkSnaps(base: nat, from: nat, max: nat) returns (ns: seq<nat>, eof: bool)
      requires Valid() && base < TWO63
      ensures var all := SnapsBelow(fs, base, from, cur);
        (eof <==> |all| <= max) && ns == if eof then all else all[..max]
    {
      ns, eof := [], true;
      var n := from;
      while n < cur
        invariant ns == SnapsBelow(fs, base, from, n) && |ns| <= max && (n <= cur || n == from) && eof
      {
        var yes := ExistedAt(base, n);
        if yes && |ns| == max {
          FullSnapPage(fs, base, from, n, max);
          eof := false;
          break;
        }
        if yes { ns := ns + [n]; }
        n := n + 1;
      }
    }

    method ReaddirPage(dir: Handle, after: Name, max: nat) returns (p: DirPage)
      requires Valid() && dir.id < TWO64 && dir.snap < TWO64
      ensures p == Handles.ReaddirPage(fs, dir, after, max)
    {
      if IsSnapDir(dir.id) {
        var from := 1;
        if after != [] && ParseSnap(after).Some? { from := (ParseSnap(after).value + 1) % TWO64; }
        p := PageSnapDir(SnapBase(dir.id), from, max);
        return;
      }
      var g := ResolveSnap(dir.snap);
      NodeView(db, fs, dir.id, g);
      var r := LoadNode(dir.id, g);
      if r.None? {
        NoNodeNoLinks(db, fs, dir.id, g);
        return DirPage([], [], true);
      }
      var es, eof;
      ghost var all;
      es, eof, all := ScanPage(dir.id, r.value.dn, after, max);
      ScanIsListing(db, fs, dir.id, g, all);
      PageIsPaged(es, After(all, after), dir.snap, max, eof);
      return PageOfEntries(es, dir.snap, eof);
    }

    /** The distinct containers of a node, off its up-link set. */
    method Parents(h: Handle) returns (ps: seq<Handle>)
      requires Valid() && h.id < TWO64 && h.snap < TWO64
      ensures ps == ParentHandles(fs, h)
    {
      var g := ResolveSnap(h.snap);
      NodeView(db, fs, h.id, g);
      var r := LoadNode(h.id, g);
      if r.None? {
        NoNodeNoLinks(db, fs, h.id, g);
        return [];
      }
      var ss := ScanUplinks(h.id, r.value.up);
      ghost var up := r.value.up;
      var ids := DistinctContainers(db.ups, h.id, up, ss);
      forall d
        ensures d in ids <==> d in Containers(fs.At(g), h.id)
      {
        ContainersListed(db, fs, h.id, g, ss, d);
      }
      Numbers.SortedUnique(ids, Containers(fs.At(g), h.id));
      ps := seq(|ids|, i requires 0 <= i < |ids| => Handle(ids[i], h.snap));
    }

    // ---- differences ----

    /** candidates: the change index between two snapshots. */
    method CandidateIds(ra: nat, rb: nat) returns (ids: set<nat>)
      requires EncodesChanges(changes, db.changes) && ra + 1 < TWO64
      ensures ids == Candidates(db, ra, rb)
    {
      var c := new MemCursor(changes);
      ids := {};
      var ok := c.Seek(Be(ra + 1));
      ghost var start := c.pos;
      while ok
        invariant start <= c.pos && (ok <==> c.pos < |c.keys|)
        invariant c.pos <= |c.keys| && ids == IdsBetween(c.keys, start, c.pos)
        invariant c.pos > start ==> KeySnap(c.keys, c.pos - 1) <= rb
        decreases |c.keys| - c.pos
      {
        var k := c.Key();
        ChangeKeyAt(changes, db.changes, c.keys, c.pos);
        if First8(k) > rb { break; }
        ids := ids + {Second8(k)};
        ok := c.Next();
      }
      WalkedAreCandidates(changes, db, c.keys, ra, rb, start, c.pos);
    }

    /** Compare the states of the candidates only; for a <= b that is the comparison of all nodes. */
    method DiffNodes(a: nat, b: nat) returns (ds: seq<NodeDiff>)
      requires Valid() && a < TWO64 && b < TWO64
      ensures var ra, rb := Resolve(fs, a), Resolve(fs, b);
        ds == if ra <= rb then Observations.DiffNodes(fs.At(ra), fs.At(rb)) else []
    {
      var ra, rb := ResolveSnap(a), ResolveSnap(b);
      var cand := CandidateIds(ra, rb);
      CandidateBounds(db, ra, rb, cand);
      ds := CompareAll(Numbers.Sorted(cand), ra, rb);
      if ra <= rb { CandidatesCover(db, fs, ra, rb); }
    }

    method CompareAll(ids: seq<nat>, ra: nat, rb: nat) returns (ds: seq<NodeDiff>)
      requires Valid() && ra < TWO64 && rb < TWO64 && forall id :: id in ids ==> id < TWO64
      ensures ds == Collect(fs.At(ra), fs.At(rb), ids)
    {
      ghost var v, w := fs.At(ra), fs.At(rb);
      ds := [];
      var i := 0;
      while i < |ids|
        invariant 0 <= i <= |ids| && ds == Collect(v, w, ids[..i])
      {
        assert ids[i] in ids;
        var d := CompareNode(ids[i], ra, rb);
        assert ids[..i + 1][..i] == ids[..i];
        ds := ds + d;
        i := i + 1;
      }
      assert ids[..i] == ids;
    }

    method CompareNode(id: nat, ra: nat, rb: nat) returns (d: seq<NodeDiff>)
      requires Valid() && id < TWO64 && ra < TWO64 && rb < TWO64
      ensures d == Report(fs.At(ra), fs.At(rb), id)
    {
      NodeView(db, fs, id, ra);
      NodeView(db, fs, id, rb);
      var va := LoadNode(id, ra);
      var vb := LoadNode(id, rb);
      d := CompareStates(id, if va.Some? then Some(va.value.attr) else None, if vb.Some? then Some(vb.value.attr) else None);
    }

    /** The link set of a directory at a snapshot; empty for anything else. */
    method LinkSet(dir: nat, g: nat) returns (m: map<Name, nat>)
      requires Valid() && dir < TWO64 && g < TWO64
      ensures forall n :: Get(m, n) == Get(fs.At(g).links, Edge(dir, n))
    {
      NodeView(db, fs, dir, g);
      var r := LoadNode(dir, g);
      m := map[];
      if r.None? || r.value.attr.typ != DIR {
        forall n
          ensures Edge(dir, n) !in fs.At(g).links
        {
          if Edge(dir, n) in fs.At(g).links { LinksLeaveDirs(fs, g, Edge(dir, n)); }
        }
        return;
      }
      var es := ScanDownlinks(dir, r.value.dn);
      ScanIsListing(db, fs, dir, g, es);
      m := MapOf(es);
      forall n
        ensures Get(m, n) == Get(fs.At(g).links, Edge(dir, n))
      {
        MapOfListing(fs.At(g), dir, es, n);
      }
    }

    /** Names gained and lost, over the candidate directories. */
    method DiffPaths(a: nat, b: nat) returns (ps: seq<PathDiff>)
      requires Valid() && a < TWO64 && b < TWO64
      ensures var ra, rb := Resolve(fs, a), Resolve(fs, b);
        if ra <= rb then forall p :: p in ps <==> NameDiff(fs.At(ra), fs.At(rb), p) else ps == []
      ensures InStoreOrder(ps)
    {
      var ra, rb := ResolveSnap(a), ResolveSnap(b);
      var cand := CandidateIds(ra, rb);
      CandidateBounds(db, ra, rb, cand);
      ps := CompareLinkSets(Numbers.Sorted(cand), ra, rb);
      if ra <= rb { CandidatesCoverNames(db, fs, ra, rb, cand); }
    }

    method CompareLinkSets(ids: seq<nat>, ra: nat, rb: nat) returns (ps: seq<PathDiff>)
      requires Valid() && ra < TWO64 && rb < TWO64 && Numbers.Ascending(ids) && forall id :: id in ids ==> id < TWO64
      ensures InStoreOrder(ps)
      ensures forall p :: p in ps <==> p.parent in ids && NameDiff(fs.At(ra), fs.At(rb), p)
      ensures ids == [] ==> ps == []
    {
      ps := [];
      var i := 0;
      while i < |ids|
        invariant 0 <= i <= |ids|
        invariant forall p :: p in ps <==> p.parent in ids[..i] && NameDiff(fs.At(ra), fs.At(rb), p)
        invariant (i == 0 ==> ps == []) && InStoreOrder(ps)
      {
        assert ids[i] in ids;
        var more := CompareDir(ids[i], ra, rb);
        assert ids[..i + 1] == ids[..i] + [ids[i]];
        StoreOrderJoins(ps, more);
        ps := ps + more;
        i := i + 1;
      }
      assert ids[..i] == ids;
    }

    method CompareDir(dir: nat, ra: nat, rb: nat) returns (ps: seq<PathDiff>)
      requires Valid() && dir < TWO64 && ra < TWO64 && rb < TWO64
      ensures forall p :: p in ps <==> p.parent == dir && NameDiff(fs.At(ra), fs.At(rb), p)
      ensures InStoreOrder(ps)
    {
      var sa := LinkSet(dir, ra);
      var sb := LinkSet(dir, rb);
      ps := CompareNames(dir, sa, sb);
      forall p
        ensures p in ps <==> p.parent == dir && NameDiff(fs.At(ra), fs.At(rb), p)
      {
        NamedDiff(fs.At(ra), fs.At(rb), dir, sa, sb, p);
      }
    }

    // ---- statistics ----

    /** One pass over the node records: each existing node once, with its floor record. */
    method EachEffNode(g: nat) returns (es: seq<Eff>)
      requires EncodesNodes(nodes, db.nodes)
      ensures EffectiveAll(db.nodes, g, es)
    {
      var c := new MemCursor(nodes);
      var curId: nat, chosen: Option<Rec> := 0, None;
      es := [];
      ghost var t: map<NodeKey, Rec> := map[];
      KeysAreNodeKeys(nodes, db.nodes, c.keys);
      ReadNothing(nodes, c.keys, g);
      var ok := c.First();
      while ok
        invariant (ok <==> c.pos < |c.keys|) && c.pos <= |c.keys|
        invariant ReadTo(nodes, c.keys, c.pos, t, g, es, curId, chosen)
        decreases |c.keys| - c.pos
      {
        var k := c.Key();
        assert k in c.keys;
        var id, snap := First8(k), Second8(k);
        es, curId, chosen, t := NextRecord(t, g, es, curId, chosen, c, id, snap);
        ok := c.Next();
      }
      EffectiveEnds(nodes, db.nodes, c.keys, t, g, es, curId, chosen);
      if chosen.Some? { es := es + [Eff(curId, chosen.value)]; }
    }

    method Stats(g: nat) returns (s: Observations.Stats)
      requires Valid() && g < TWO64
      ensures s == StatsOf(fs.At(Resolve(fs, g)))
    {
      var rg := ResolveSnap(g);
      ghost var v := fs.At(rg);
      var es := EachEffNode(rg);
      EffViews(db, fs, rg, es);
      var counts, total := CountNodes(es, v);
      es := EachEffNode(rg);
      EffViews(db, fs, rg, es);
      var links := CountLinks(es, rg);
      LinksTotal(fs, rg, es);
      s := Observations.Stats.Stats(counts, links, total);
      StatsMeaning(v, counts, links, total);
    }

    /** The second pass of stats: every link of every directory, reachable or not. */
    method CountLinks(es: seq<Eff>, g: nat) returns (links: nat)
      requires Valid() && g < TWO64 && forall e :: e in es ==> e.id < next && Load(db.nodes, e.id, g) == Some(e.rec)
      ensures links == ListedBy(fs.At(g), es, |es|)
    {
      links := 0;
      var i := 0;
      while i < |es|
        invariant 0 <= i <= |es| && links == ListedBy(fs.At(g), es, i)
      {
        assert es[i] in es;
        var own := CountDirLinks(es[i], g);
        links := links + own;
        i := i + 1;
      }
    }

    method CountDirLinks(e: Eff, g: nat) returns (own: nat)
      requires Valid() && g < TWO64 && e.id < next && Load(db.nodes, e.id, g) == Some(e.rec)
      ensures own == |Listing(fs.At(g), e.id)|
    {
      NodeView(db, fs, e.id, g);
      if e.rec.attr.typ == DIR {
        var ls := ScanDownlinks(e.id, e.rec.dn);
        ScanIsListing(db, fs, e.id, g, ls);
        return |ls|;
      }
      NoLinksOfFile(fs, g, e.id);
      return 0;
    }

    /** The body of the pass: close the previous id if this one is new, then keep the record if it is old enough. */
    method NextRecord(ghost t: map<NodeKey, Rec>, g: nat, es: seq<Eff>, curId: nat, chosen: Option<Rec>,
                      c: MemCursor<Rec>, id: nat, snap: nat)
        returns (es': seq<Eff>, curId': nat, chosen': Option<Rec>, ghost t': map<NodeKey, Rec>)
      requires c.pos < |c.keys| && Traversal(c.keys, nodes) && c.table == nodes && forall x :: x in c.keys ==> |x| == 16
      requires ReadTo(nodes, c.keys, c.pos, t, g, es, curId, chosen)
      requires id == KeyId16(c.keys[c.pos]) && snap == KeySnap16(c.keys[c.pos])
      ensures ReadTo(nodes, c.keys, c.pos + 1, t', g, es', curId', chosen')
    {
      es', curId', chosen' := es, curId, chosen;
      forall k | k in t
        ensures k.id < id || (k.id == id && k.snap < snap)
      {
        WalkedBefore(nodes, c.keys, c.pos, k);
      }
      if id != curId {
        EffectiveCloses(t, g, es, curId, id);
        if chosen.Some? { es' := es' + [Eff(curId, chosen.value)]; }
        curId', chosen' := id, None;
        LoadOther(t, id, g);
      }
      assert c.keys[c.pos] in c.keys;
      var r := c.Val();
      EffectiveInsert(t, g, es', id, snap, r);
      LoadInsert(t, id, snap, r, id, g);
      if snap <= g { chosen' := Some(r); }
      t' := t[NodeKey(id, snap) := r];
      assert NodeKey(id, snap) in t';
    }
  }

  /** The first pass of stats: living nodes by type, and the size of the living files. */
  method CountNodes(es: seq<Eff>, ghost v: View) returns (counts: map<Type, nat>, total: nat)
    requires EffsAscend(es) && forall e :: e in es ==> Get(v.nodes, e.id) == Some(e.rec.attr)
    ensures Tallied(v, IdsOf(es, |es|), counts, total)
  {
    counts := map[REG := 0, DIR := 0, LNK := 0, BLK := 0, CHR := 0, FIFO := 0, SOCK := 0];
    total := 0;
    var i := 0;
    NothingTallied(v, IdsOf(es, 0), counts);
    while i < |es|
      invariant 0 <= i <= |es| && TalliedTo(v, es, i, counts, total)
    {
      assert es[i] in es;
      counts, total := CountEff(es, i, v, counts, total);
      i := i + 1;
    }
  }

  ghost predicate TalliedTo(v: View, es: seq<Eff>, i: nat, counts: map<Type, nat>, total: nat) {
    i <= |es| && Tallied(v, IdsOf(es, i), counts, total)
  }

  method CountEff(es: seq<Eff>, i: nat, ghost v: View, counts: map<Type, nat>, total: nat)
      returns (counts': map<Type, nat>, total': nat)
    requires EffsAscend(es) && i < |es| && Get(v.nodes, es[i].id) == Some(es[i].rec.attr)
    requires TalliedTo(v, es, i, counts, total)
    ensures TalliedTo(v, es, i + 1, counts', total')
  {
    ghost var ids := IdsOf(es, i);
    IdsOfNext(es, i);
    counts' := CountNode(v, ids, counts, es[i].id, Some(es[i].rec.attr));
    total' := AddSize(v, ids, total, es[i].id, Some(es[i].rec.attr));
  }

  method DistinctContainers(ghost t: set<UpKey>, ghost node: nat, ghost ver: nat, ss: seq<Bytes>) returns (ids: seq<nat>)
    requires ListsUps(t, node, ver, ss)
    ensures Numbers.Ascending(ids)
    ensures forall d :: d in ids <==> exists i :: 0 <= i < |ss| && |ss[i]| >= 8 && First8(ss[i]) == d
  {
    ids := [];
    var seen: set<nat> := {};
    var i := 0;
    while i < |ss|
      invariant 0 <= i <= |ss| && Numbers.Ascending(ids)
      invariant forall d :: d in ids <==> d in seen
      invariant forall d :: d in seen ==> NamedBefore(ss, i, d) && (i < |ss| ==> |ss[i]| >= 8 && d <= First8(ss[i]))
      invariant forall j :: 0 <= j < i ==> |ss[j]| >= 8 && First8(ss[j]) in seen
    {
      SuffixContainer(t, node, ver, ss, i, i);
      var d := First8(ss[i]);
      if d !in seen {
        Numbers.AscendingSnoc(ids, d);
        seen := seen + {d};
        ids := ids + [d];
      }
      i := i + 1;
      if i < |ss| { SuffixContainer(t, node, ver, ss, i - 1, i); }
    }
  }

  ghost predicate NamedBefore(ss: seq<Bytes>, n: nat, d: nat) {
    exists i :: 0 <= i < n && i < |ss| && |ss[i]| >= 8 && First8(ss[i]) == d
  }

  /** One operation on the tables carries the whole object invariant over. */
  lemma OpSim(db: Db, fs: Fs, op: Op, db': Db, out: Outcome, s: (Fs, Outcome))
    requires Inv(db) && Rel(db, fs) && Healthy(fs) && s == Step(fs, op)
    requires (db', out) == StepDb(db, op, CycleVerdict(fs, op))
    ensures Inv(db') && Rel(db', s.0) && Healthy(s.0) && out == s.1
  {
    StepSim(db, fs, op, db', out, s.0);
    StepHealthy(fs, op);
  }

  /** Both copies can be made, and the child keeps its attributes through them. */
  ghost predicate LinkReady(db: Db, dir: nat, child: nat) {
    var m, p := WritableDn(db, dir), Prepared(db, dir, child);
    && Load(db.nodes, dir, db.cur).Some? && Load(db.nodes, dir, db.cur).value.dn <= db.cur
    && m.cur == db.cur && Load(m.nodes, child, db.cur).Some? && Load(m.nodes, child, db.cur).value.up <= db.cur
    && p.cur == db.cur && Load(p.nodes, child, db.cur).Some?
    && Some(Load(p.nodes, child, db.cur).value.attr) == NodeAt(db, child, db.cur)
  }

  lemma PreparedBounds(db: Db, dir: nat, child: nat)
    requires Inv(db) && Load(db.nodes, dir, db.cur).Some? && Load(db.nodes, child, db.cur).Some?
    ensures LinkReady(db, dir, child)
  {
    LoadBounds(db, dir, db.cur);
    var m := WritableDn(db, dir);
    WritableDnInv(db, dir);
    WritableDnInvisible(db, dir);
    assert NodeAt(m, child, db.cur) == NodeAt(db, child, db.cur);
    LoadBounds(m, child, db.cur);
    PreparedOk(db, dir, child);
    var p := Prepared(db, dir, child);
    assert NodeAt(p, child, db.cur) == NodeAt(db, child, db.cur);
  }

  lemma LinkView(db: Db, fs: Fs, dir: nat, name: Name, g: nat)
    requires Inv(db) && Rel(db, fs)
    ensures LinkAt(db, dir, name, g) == Get(fs.At(g).links, Edge(dir, name))
    ensures LinkAt(db, dir, name, g).Some? ==>
      dir in fs.At(g).nodes && LinkAt(db, dir, name, g).value in fs.At(g).nodes && LinkAt(db, dir, name, g).value < db.next
  {
    assert LinkAt(db, dir, name, g) == Get(fs.At(g).links, Edge(dir, name));
    if LinkAt(db, dir, name, g).Some? {
      var c := LinkAt(db, dir, name, g).value;
      assert UpAt(db, c, dir, name, g);
      LoadBounds(db, c, g);
      assert NodeAt(db, dir, g) == Get(fs.At(g).nodes, dir) && NodeAt(db, c, g) == Get(fs.At(g).nodes, c);
    }
  }

  lemma LinkedNodesLoad(db: Db, fs: Fs, dir: nat, name: Name)
    requires Inv(db) && Rel(db, fs) && LinkAt(db, dir, name, db.cur).Some?
    ensures var c := LinkAt(db, dir, name, db.cur).value;
      c < db.next && Load(db.nodes, dir, db.cur).Some? && Load(db.nodes, c, db.cur).Some?
  {
    var c := LinkAt(db, dir, name, db.cur).value;
    assert LinkAt(db, dir, name, db.cur) == Get(fs.At(db.cur).links, Edge(dir, name));
    assert UpAt(db, c, dir, name, db.cur);
    LoadBounds(db, c, db.cur);
  }

  // ---- cursor walks over one key prefix ----

  method WalkLinks(m: map<Bytes, nat>, pfx: Bytes) returns (es: seq<Entry>, ghost keys: seq<Bytes>, ghost start: nat)
    requires |pfx| == 16
    ensures Traversal(keys, m) && LowerBound(keys, pfx, start) && es == ScanFrom(m, keys, pfx, start)
  {
    var c := new MemCursor(m);
    keys := c.keys;
    es := [];
    var ok := c.Seek(pfx);
    start := c.pos;
    ghost var all := ScanFrom(m, c.keys, pfx, start);
    while ok
      invariant ok <==> c.pos < |c.keys|
      invariant es + ScanFrom(m, c.keys, pfx, c.pos) == all
      decreases |c.keys| - c.pos
    {
      var k := c.Key();
      var name := StripPrefix(k, pfx, []);
      if name.None? { break; }
      ScanStep(m, c.keys, pfx, c.pos, es, all);
      es := es + [Entry(name.value, c.Val())];
      ok := c.Next();
    }
    assert ScanFrom(m, c.keys, pfx, c.pos) == [];
  }

  /** From a cursor at or above the page's start, collect up to max entries above the cursor name. */
  method WalkPage(c: MemCursor<nat>, pfx: Bytes, after: Name, max: nat, ghost vs: seq<Entry>, ghost off: nat)
      returns (es: seq<Entry>, eof: bool)
    requires |pfx| == 16
    requires PageOf(c.table, c.keys, pfx, after, c.pos, vs, off)
    modifies c
    ensures eof <==> |vs| - off <= max
    ensures |es| == (if eof then |vs| - off else max) && Copied(es, vs, off)
  {
    es, eof := [], true;
    var ok := c.pos < |c.keys|;
    ghost var start, i := c.pos, 0;
    while ok
      invariant ok <==> c.pos < |c.keys|
      invariant 0 <= i <= |vs| && c.pos == start + i && eof
      invariant |es| == (if i <= off then 0 else i - off) <= max && Copied(es, vs, off)
      decreases |c.keys| - c.pos
    {
      var k := c.Key();
      EntryAt(c.table, c.keys, pfx, start, vs, i);
      var name := StripPrefix(k, pfx, if i < |vs| then vs[i].name else []);
      if name.None? { break; }
      var x := Entry(name.value, c.Val());
      assert PassedOk(vs, after, off, i);
      if !Leq(x.name, after) {
        if |es| == max {
          eof := false;
          break;
        }
        assert i == off + |es|;
        CopiedStep(es, vs, off, i, x);
        es := es + [x];
      }
      ok := c.Next();
      i := i + 1;
    }
  }

  method WalkSuffixes(m: map<Bytes, ()>, pfx: Bytes) returns (ss: seq<Bytes>, ghost keys: seq<Bytes>, ghost start: nat)
    requires |pfx| == 16
    ensures Traversal(keys, m) && LowerBound(keys, pfx, start)
    ensures ScannedUps(keys, pfx, start, ss) && (start + |ss| < |keys| ==> !(pfx <= keys[start + |ss|]))
  {
    var c := new MemCursor(m);
    keys := c.keys;
    ss := [];
    var ok := c.Seek(pfx);
    start := c.pos;
    while ok
      invariant ok <==> c.pos < |c.keys|
      invariant c.pos == start + |ss| && ScannedUps(c.keys, pfx, start, ss)
      decreases |c.keys| - c.pos
    {
      var k := c.Key();
      var rest := StripPrefix(k, pfx, []);
      if rest.None? { break; }
      ss := ss + [rest.value];
      ok := c.Next();
    }
  }

  lemma SeekStart(m: map<Bytes, nat>, keys: seq<Bytes>, pfx: Bytes, after: Name, first: nat, start: nat)
    requires Ascending(keys) && (forall k :: k in keys ==> k in m)
    requires LowerBound(keys, pfx, first) && LowerBound(keys, pfx + after, start)
    ensures After(ScanFrom(m, keys, pfx, first), after) == After(ScanFrom(m, keys, pfx, start), after)
  {
    PrefixLeq(pfx, after);
    if start < first {
      assert Below(keys, start, pfx) && NotBelow(keys, start, pfx + after);
      if keys[start] != pfx + after && pfx != pfx + after { LessTransitive(pfx, pfx + after, keys[start]); }
      LessAsymmetric(keys[start], pfx);
      assert false;
    }
    SeekSkips(m, keys, pfx, after, first, start);
  }

  /** Under the simulation, a live node's record is the plain file system's node. */
  lemma LiveNode(db: Db, fs: Fs, x: nat)
    requires Inv(db) && Rel(db, fs)
    ensures NodeAt(db, x, db.cur) == Get(fs.live.nodes, x)
    ensures x in fs.live.nodes ==> ROOT <= x < db.next
    ensures Load(db.nodes, x, db.cur).Some? ==>
      Load(db.nodes, x, db.cur).value.dn <= db.cur && Load(db.nodes, x, db.cur).value.up <= db.cur
  {
    assert fs.At(db.cur) == fs.live;
    assert NodeAt(db, x, db.cur) == Get(fs.live.nodes, x);
    if Load(db.nodes, x, db.cur).Some? { LoadBounds(db, x, db.cur); }
  }

  /** Scanning the version a view's record names lists that view's directory. */
  lemma ScanIsListing(db: Db, fs: Fs, dir: nat, g: nat, es: seq<Entry>)
    requires Inv(db) && Rel(db, fs) && Load(db.nodes, dir, g).Some?
    requires ListsDown(db.down, dir, Load(db.nodes, dir, g).value.dn, es)
    ensures EntriesOf(fs.At(g), dir, es) && es == Listing(fs.At(g), dir)
    ensures forall x :: x in es ==> x.child < db.next
  {
    var v := fs.At(g);
    forall x | x in es
      ensures Edge(dir, x.name) in v.links && v.links[Edge(dir, x.name)] == x.child && x.child < db.next
    {
      assert LinkAt(db, dir, x.name, g) == Get(v.links, Edge(dir, x.name));
      assert UpAt(db, x.child, dir, x.name, g);
      LoadBounds(db, x.child, g);
    }
    forall n | Edge(dir, n) in v.links
      ensures Entry(n, v.links[Edge(dir, n)]) in es
    {
      assert LinkAt(db, dir, n, g) == Get(v.links, Edge(dir, n));
    }
    ListingUnique(v, dir, es);
  }

  lemma LoadAtKey(t: map<NodeKey, Rec>, id: nat, g: nat)
    ensures NodeKey(id, g) in t ==> Load(t, id, g) == Some(t[NodeKey(id, g)])
  {
  }

  /** A key that is present sits exactly at its lower bound. */
  lemma ExactAtBound(keys: seq<Bytes>, key: Bytes, p: nat)
    requires Ascending(keys) && LowerBound(keys, key, p) && key in keys
    ensures p < |keys| && keys[p] == key
  {
    var i :| 0 <= i < |keys| && keys[i] == key;
    LessIrreflexive(key);
    assert i < p ==> Below(keys, i, key);
    if p < i {
      assert InOrder(keys, p, i) && NotBelow(keys, p, key);
      LessAsymmetric(keys[p], key);
    }
  }
}
