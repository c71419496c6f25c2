/**
 What single calls do, as callers see it: each law relates one call to what can be read, looked up or listed
 before and after it, and says nothing of how the file system keeps it.
 */
module Laws {
  import opened Keys
  import opened Options
  import opened FileSystem
  import opened Observations
  import opened Handles
  import opened Cursors
  import Numbers

  // ---- snapshots ----

  /** The number a snapshot answers was no sealed one before, is sealed from then on, and shows for ever what was live
      when it was taken. */
  lemma SnapshotFreezes(fs: Fs, ops: seq<Op>)
    ensures
      var s := Step(fs, Snapshot);
      var v, later := s.1.id, Run(s.0, ops);
      && s.1.err == OK && v >= 1 && v >= fs.Cur() && v < s.0.Cur() <= later.Cur()
      && s.0.At(v) == fs.live && later.At(v) == fs.live && s.0.live == fs.live
  {
    var s := Step(fs, Snapshot);
    SealedViewsNeverChange(s.0, ops, s.1.id);
  }

  /** The same entries, as a frozen view hands them out. */
  function Frozen(ds: seq<DirEntry>, v: nat): seq<DirEntry> {
    seq(|ds|, i requires 0 <= i < |ds| => DirEntry(ds[i].name, Handle(ds[i].node.id, v)))
  }

  function InView(d: Option<Handle>, v: nat): Option<Handle> {
    if d.None? then None else Some(Handle(d.value.id, v))
  }

  /** Through the number a snapshot answers, everything reads for ever as it read in the live view when it was taken:
      attributes, listings, names and parents, with handles into the frozen view. */
  lemma FrozenReads(fs: Fs, ops: seq<Op>, id: nat, n: Name, v: nat, later: Fs)
    requires v == Step(fs, Snapshot).1.id && later == Run(Step(fs, Snapshot).0, ops) && later.Cur() < LATEST && !IsSnapDir(id)
    ensures AttrSeen(later, Handle(id, v)) == AttrSeen(fs, Handle(id, LATEST))
    ensures Readdir(later, Handle(id, v)) == Frozen(Readdir(fs, Handle(id, LATEST)), v)
    ensures n != SNAPSHOT_NAME ==>
      Lookup(later, Handle(id, v), n) == InView(Lookup(fs, Handle(id, LATEST), n), v)
    ensures forall p :: p in ParentHandles(later, Handle(id, v)) <==> p.snap == v && Handle(p.id, LATEST) in ParentHandles(fs, Handle(id, LATEST))
  {
    SnapshotFreezes(fs, ops);
    var h, g := Handle(id, v), Handle(id, LATEST);
    assert Seen(later, h) == fs.live == Seen(fs, g);
    forall p
      ensures p in ParentHandles(later, h) <==> p.snap == v && Handle(p.id, LATEST) in ParentHandles(fs, g)
    {
      ParentsMeaning(later, h, p, ParentHandles(later, h));
      ParentsMeaning(fs, g, Handle(p.id, LATEST), ParentHandles(fs, g));
    }
  }

  /** Nothing but a snapshot moves the numbering, and it moves by one. */
  lemma NumberingMoves(fs: Fs, op: Op)
    ensures Step(fs, op).0.Cur() == fs.Cur() + (if op.Snapshot? then 1 else 0)
  {
  }

  // ---- lookup ----

  /** An ordinary lookup finds exactly what readdir lists, in the same view. */
  lemma LookupIsListed(fs: Fs, h: Handle, n: Name, d: Handle)
    requires !IsSnapDir(h.id) && !(n == SNAPSHOT_NAME && h.snap == LATEST && IsDir(fs.live, h.id))
    ensures Lookup(fs, h, n) == Some(d) <==> DirEntry(n, d) in Readdir(fs, h)
    ensures Lookup(fs, h, n) == Some(d) ==> d.snap == h.snap
  {
    ReaddirMeaning(fs, h, DirEntry(n, d));
  }

  /** In a snapshot directory every entry is found by its name, and what is found is an entry. */
  lemma SnapLookupIsListed(fs: Fs, h: Handle, d: DirEntry, n: Name)
    requires IsSnapDir(h.id) && fs.Cur() < LATEST
    ensures d in Readdir(fs, h) ==> Lookup(fs, h, d.name) == Some(d.node)
    ensures Lookup(fs, h, n).Some? ==>
      var x := Lookup(fs, h, n).value; DirEntry(Decimal(x.snap), x) in Readdir(fs, h)
  {
    ReaddirMeaning(fs, h, d);
    if d in Readdir(fs, h) { ParsePrinted(d.node.snap); }
    if Lookup(fs, h, n).Some? {
      var x := Lookup(fs, h, n).value;
      ReaddirMeaning(fs, h, DirEntry(Decimal(x.snap), x));
    }
  }

  lemma NeverBound(v: View, dir: nat)
    requires Sound(v)
    ensures Edge(dir, SNAPSHOT_NAME) !in v.links
  {
    assert Edge(dir, SNAPSHOT_NAME) in v.links ==> LinkSound(v, Edge(dir, SNAPSHOT_NAME));
  }

  /** Any way of writing a number finds the same snapshot. */
  lemma SnapLookupByValue(fs: Fs, h: Handle, n: Name)
    requires IsSnapDir(h.id) && Lookup(fs, h, n).Some?
    ensures ParseSnap(n) == Some(Lookup(fs, h, n).value.snap) && Lookup(fs, h, n).value.id == SnapBase(h.id)
  {
  }

  /** The reserved name is found exactly in a live directory; no sound view binds it. */
  lemma ReservedNameIff(fs: Fs, h: Handle)
    requires Healthy(fs) && !IsSnapDir(h.id)
    ensures Lookup(fs, h, SNAPSHOT_NAME).Some? <==> h.snap == LATEST && IsDir(fs.live, h.id)
    ensures Lookup(fs, h, SNAPSHOT_NAME).Some? ==>
      var x := Lookup(fs, h, SNAPSHOT_NAME).value; IsSnapDir(x.id) && SnapBase(x.id) == h.id && x.snap == LATEST
  {
    var g := Resolve(fs, h.snap);
    var k := if g <= fs.Cur() then g else fs.Cur();
    assert fs.At(g) == fs.At(k) && SoundAt(fs, k);
    if k >= 1 { NeverBound(fs.At(k), h.id); }
  }

  // ---- handles ----

  /** A node, once there, is found by its id in its view and in the live one, whatever happens. */
  lemma {:induction false} FoundStays(fs: Fs, ops: seq<Op>, id: nat, snap: nat)
    requires Healthy(fs) && (snap < fs.Cur() || snap == LATEST) && fs.Cur() < LATEST && Run(fs, ops).Cur() < LATEST
    requires NodeById(fs, id, snap) == Some(Handle(id, snap))
    ensures NodeById(Run(fs, ops), id, snap) == Some(Handle(id, snap))
    ensures NodeById(Run(fs, ops), id, LATEST) == Some(Handle(id, LATEST))
  {
    var later := Run(fs, ops);
    RunHealthy(fs, ops);
    if snap == LATEST {
      NodesStay(fs, ops, BaseOf(id));
    } else {
      SealedViewsNeverChange(fs, ops, snap);
      assert KeptBetween(later, snap, later.Cur());
    }
  }

  lemma {:induction false} NodesStay(fs: Fs, ops: seq<Op>, id: nat)
    requires Healthy(fs) && id in fs.live.nodes
    ensures id in Run(fs, ops).live.nodes && Run(fs, ops).live.nodes[id].typ == fs.live.nodes[id].typ
    decreases |ops|
  {
    if ops != [] {
      StepHealthy(fs, ops[0]);
      StepKeepsNode(fs, ops[0], id);
      NodesStay(Step(fs, ops[0]).0, ops[1..], id);
    }
  }

  lemma StepKeepsNode(fs: Fs, op: Op, id: nat)
    requires Healthy(fs) && id in fs.live.nodes
    ensures id in Step(fs, op).0.live.nodes && Step(fs, op).0.live.nodes[id].typ == fs.live.nodes[id].typ
  {
    assert fs.At(fs.Cur()) == fs.live && SoundAt(fs, fs.Cur());
    StepLive(fs, op, Step(fs, op).0.live);
  }

  /** What lookup finds is found by its id too. */
  lemma LookupFinds(fs: Fs, h: Handle, n: Name)
    requires Healthy(fs) && fs.next <= TWO63 && Lookup(fs, h, n).Some?
    ensures var d := Lookup(fs, h, n).value; NodeById(fs, d.id, d.snap) == Some(d)
  {
    if !IsSnapDir(h.id) {
      var g := Resolve(fs, h.snap);
      var k := if g <= fs.Cur() then g else fs.Cur();
      assert fs.At(g) == fs.At(k) && SoundAt(fs, k) && fs.At(fs.Cur()) == fs.live && KeptBetween(fs, k, fs.Cur());
      var e := Edge(h.id, n);
      if e in fs.At(k).links { LinkLeadsIn(fs.At(k), e); }
    } else {
      var m := ParseSnap(n).value;
      assert KeptBetween(fs, m, fs.Cur()) && fs.At(fs.Cur()) == fs.live;
    }
  }

  lemma LinkLeadsIn(v: View, e: Edge)
    requires Sound(v) && e in v.links
    ensures v.links[e] in v.nodes && IsDir(v, e.dir)
  {
    assert LinkSound(v, e);
  }

  // ---- attributes ----

  /** A node as it reads now. */
  function Now(fs: Fs, id: nat): Attr {
    AttrSeen(fs, Handle(id, LATEST))
  }

  /** A setter reads back field by field: the one it names as given, all others as they were, a server-side time
      clearing its nanoseconds. */
  lemma SetterReads(fs: Fs, id: nat, c: Change)
    requires id in fs.live.nodes && !IsSnapDir(id)
    ensures
      var a, b := Now(fs, id), Now(Step(fs, SetAttr(id, c)).0, id);
      && b.mode == (if c.Mode? then c.x else a.mode) && b.uid == (if c.Uid? then c.x else a.uid)
      && b.gid == (if c.Gid? then c.x else a.gid) && b.size == (if c.Size? then c.x else a.size)
      && b.atime == (if c.Atime? then c.x else a.atime) && b.mtime == (if c.Mtime? then c.x else a.mtime)
      && b.ctime == (if c.Ctime? then c.x else a.ctime)
      && b.atimeNs == (if c.AtimeNs? then c.x else if c.Atime? then 0 else a.atimeNs)
      && b.mtimeNs == (if c.MtimeNs? then c.x else if c.Mtime? then 0 else a.mtimeNs)
      && b.typ == a.typ && b.nlink == a.nlink && b.spec == a.spec && b.blob == a.blob
  {
  }

  /** The guarded setters: refused for any other type, else content and target read back as the blob, device numbers
      and seed as the spec, and nothing else moves. */
  lemma PayloadReads(fs: Fs, id: nat, p: Payload)
    requires id in fs.live.nodes && !IsSnapDir(id)
    ensures
      var s := Step(fs, SetPayload(id, p));
      var a, b := Now(fs, id), Now(s.0, id);
      var wanted := match p
        case Content(_) => a.typ == REG
        case Target(_) => a.typ == LNK
        case Rdev(_) => a.typ == BLK || a.typ == CHR
        case Seed(_) => a.typ == REG;
      if !wanted then s.1.err == INVAL && s.0 == fs else
        && s.1.err == OK
        && b.blob == (if p.Content? || p.Target? then p.blob else a.blob)
        && b.spec == (if p.Rdev? || p.Seed? then p.spec else a.spec)
        && b.(blob := a.blob, spec := a.spec) == a
  {
  }

  /** Of an id without a node, an attribute setter is ignored and a guarded setter refused. */
  lemma SettersMiss(fs: Fs, id: nat, c: Change, p: Payload)
    ensures Step(fs, SetAttr(id, c)).1.err == OK
    ensures id !in fs.live.nodes ==> Step(fs, SetAttr(id, c)).0 == fs && Step(fs, SetPayload(id, p)) == (fs, Outcome(NOENT, 0))
  {
  }

  /** Setters touch one node of the live view: any other node, and any frozen view, reads as before. */
  lemma SettersTouchOne(fs: Fs, op: Op, id: nat, h: Handle)
    requires (op.SetAttr? || op.SetPayload?) && op.id == id
    requires BaseOf(h.id) != id || (h.snap != LATEST && h.snap < fs.Cur())
    requires h.id < TWO64
    ensures AttrSeen(Step(fs, op).0, h) == AttrSeen(fs, h)
    ensures Step(fs, op).0.live.links == fs.live.links
  {
    if IsSnapDir(h.id) { assert BaseOf(SnapBase(h.id)) == SnapBase(h.id); }
  }

  /** A new node reads what it was given, under an id no view knew; it is linked nowhere, and nothing else moves. */
  lemma CreateReads(fs: Fs, t: Type, blob: Bytes, spec: nat, g: nat)
    requires Healthy(fs) && fs.next < TWO63
    ensures
      var s := Step(fs, Create(t, blob, spec));
      var id := s.1.id;
      var a := Now(s.0, id);
      && s.1.err == OK && id !in fs.At(g).nodes && NodeById(s.0, id, LATEST) == Some(Handle(id, LATEST))
      && a.typ == t && a.blob == blob && a.spec == spec && a.size == 0 && a.nlink == 0 && a.uid == 0 && a.gid == 0
      && a.atime == a.mtime == a.ctime == fs.clock && a.atimeNs == a.mtimeNs == 0
      && a.mode == (if t == DIR then Octal(7, 5, 5) else if t == LNK then Octal(7, 7, 7) else Octal(6, 4, 4))
      && s.0.live.links == fs.live.links && s.0.live.nodes - {id} == fs.live.nodes && s.0.sealed == fs.sealed
  {
    var k := if g <= fs.Cur() then g else fs.Cur();
    assert fs.At(g) == fs.At(k) && KeptBetween(fs, k, fs.Cur()) && fs.At(fs.Cur()) == fs.live;
  }

  function Octal(u: nat, g: nat, o: nat): nat {
    (u * 8 + g) * 8 + o
  }

  /** Two creations never answer the same id, whatever comes between. */
  lemma {:induction false} IdsRise(fs: Fs, ops: seq<Op>)
    ensures fs.next <= Run(fs, ops).next
    decreases |ops|
  {
    if ops != [] { IdsRise(Step(fs, ops[0]).0, ops[1..]); }
  }

  lemma NewIdsDiffer(fs: Fs, op: Op, ops: seq<Op>, op': Op)
    requires op.Create? && op'.Create?
    ensures Step(fs, op).1.id < Step(Run(Step(fs, op).0, ops), op').1.id
  {
    IdsRise(Step(fs, op).0, ops);
  }

  /** The clock is what was last set, and creation reads it. */
  lemma ClockRead(fs: Fs, t: nat, op: Op)
    requires !op.SetTime?
    ensures Step(fs, SetTime(t)).0.clock == t && Step(fs, op).0.clock == fs.clock
    ensures Step(fs, SetTime(t)).0.live == fs.live && Step(fs, SetTime(t)).0.sealed == fs.sealed
    ensures Step(fs, SetTime(t)).0.next == fs.next
  {
  }

  /** A fresh file system: an empty root directory with one link of its own, and no snapshot. */
  lemma FreshRoot(clock: nat, n: Name)
    ensures
      var fs := Init(clock);
      var a := Now(fs, ROOT);
      && a.typ == DIR && a.mode == Octal(7, 5, 5) && a.nlink == 1 && a.uid == a.gid == a.size == 0
      && a.atime == a.mtime == a.ctime == clock && a.atimeNs == a.mtimeNs == 0 && a.blob == []
      && (n != SNAPSHOT_NAME ==> Lookup(fs, Handle(ROOT, LATEST), n) == None)
      && (forall id, snap :: NodeById(fs, id, snap).Some? && snap >= 1 ==> BaseOf(id) == ROOT)
      && fs.Cur() == 1
  {
  }

  /** A snapshot directory reads as a directory nobody may write, with the times of its node in the same view. */
  lemma SnapDirReads(fs: Fs, id: nat, snap: nat)
    requires id < TWO63
    ensures
      var a, b := AttrSeen(fs, Handle(id + TWO63, snap)), AttrSeen(fs, Handle(id, snap));
      && a.typ == DIR && a.mode == Octal(5, 5, 5) && a.nlink == 1 && a.size == a.uid == a.gid == a.spec == 0 && a.blob == []
      && a.atime == b.atime && a.mtime == b.mtime && a.ctime == b.ctime && a.atimeNs == a.mtimeNs == 0
  {
  }

  // ---- links ----

  /** link's answer, case by case and in their order; under a free name a child is refused exactly when the link would
      close a cycle, and a taken name is refused in any case. */
  lemma LinkAnswers(v: View, d: nat, n: Name, c: nat)
    requires Sound(v)
    ensures
      var e := Linked(v, d, n, c).0;
      var bound := v.links[Edge(d, n) := c];
      if n == SNAPSHOT_NAME then e == INVAL
      else if d !in v.nodes then e == NOENT
      else if v.nodes[d].typ != DIR then e == NOTDIR
      else if c !in v.nodes then e == NOENT
      else if Edge(d, n) in v.links then e == if IsDir(v, c) && Reaches(v, c, d) then INVAL else EXIST
      else if Acyclic(v.(links := bound)) then e == OK else e == INVAL
  {
    if n != SNAPSHOT_NAME && IsDir(v, d) && c in v.nodes && Edge(d, n) !in v.links { CycleIff(v, d, n, c); }
  }

  /** One more link keeps a graph acyclic exactly when it leads to no directory above. */
  lemma CycleIff(v: View, d: nat, n: Name, c: nat)
    requires Sound(v) && IsDir(v, d) && c in v.nodes && Edge(d, n) !in v.links
    ensures Acyclic(v.(links := v.links[Edge(d, n) := c])) <==> !(IsDir(v, c) && Reaches(v, c, d))
  {
    var w, grown := v.(links := v.links[Edge(d, n) := c]), AddLink(v, d, n, c);
    forall x, y
      ensures Child(w, x, y) <==> Child(grown, x, y)
    {
    }
    if IsDir(v, c) && Reaches(v, c, d) {
      forall x, y | Child(v, x, y)
        ensures Child(w, x, y)
      {
        var m :| Edge(x, m) in v.links && v.links[Edge(x, m)] == y;
        assert Edge(x, m) in w.links && w.links[Edge(x, m)] == y;
      }
      ReachesMonotone(v, w, c, d);
      assert w.links[Edge(d, n)] == c && Child(w, d, c);
    } else {
      AddLinkAcyclic(v, d, n, c);
      AcyclicShrinks(w, grown);
    }
  }

  /** A link that succeeds binds one name, counts one link, and leaves every other node, name and view alone. */
  lemma LinkEffect(fs: Fs, d: nat, n: Name, c: nat)
    requires Step(fs, Link(d, n, c)).1.err == OK
    ensures
      var v, w := fs.live, Step(fs, Link(d, n, c)).0.live;
      && w.links == v.links[Edge(d, n) := c] && Edge(d, n) !in v.links
      && w.nodes.Keys == v.nodes.Keys && (forall id :: id in v.nodes && id != c ==> w.nodes[id] == v.nodes[id])
      && w.nodes[c].nlink == v.nodes[c].nlink + 1 && w.nodes[c].(nlink := v.nodes[c].nlink) == v.nodes[c]
      && Step(fs, Link(d, n, c)).0.(live := v) == fs
  {
  }

  /** unlink succeeds exactly on a bound name. */
  lemma UnlinkAnswers(fs: Fs, d: nat, n: Name)
    requires Healthy(fs)
    ensures Step(fs, Unlink(d, n)).1.err == if Edge(d, n) in fs.live.links then OK else NOENT
  {
    assert fs.At(fs.Cur()) == fs.live && SoundAt(fs, fs.Cur());
    if Edge(d, n) in fs.live.links { LinkLeadsIn(fs.live, Edge(d, n)); }
  }

  /** And then takes that name and one link of its node, nothing more. */
  lemma UnlinkEffect(fs: Fs, d: nat, n: Name)
    requires Healthy(fs) && Edge(d, n) in fs.live.links
    ensures
      var v, w := fs.live, Step(fs, Unlink(d, n)).0.live;
      var c := v.links[Edge(d, n)];
      && w.links == v.links - {Edge(d, n)} && c in v.nodes
      && w.nodes.Keys == v.nodes.Keys && (forall id :: id in v.nodes && id != c ==> w.nodes[id] == v.nodes[id])
      && w.nodes[c].nlink + 1 == v.nodes[c].nlink && w.nodes[c].(nlink := v.nodes[c].nlink) == v.nodes[c]
      && Step(fs, Unlink(d, n)).0.(live := v) == fs
  {
    var v := fs.live;
    assert fs.At(fs.Cur()) == v && SoundAt(fs, fs.Cur());
    LinkLeadsIn(v, Edge(d, n));
    var c := v.links[Edge(d, n)];
    assert CountsLinks(v, c) && Edge(d, n) in Incoming(v, c);
  }

  /** Unlinking what was just linked restores the view; until then the name is taken, and afterwards it is free. */
  lemma LinkUnlinkRestores(fs: Fs, d: nat, n: Name, c: nat)
    requires Healthy(fs) && Step(fs, Link(d, n, c)).1.err == OK
    ensures
      var mid := Step(fs, Link(d, n, c)).0;
      var end := Step(mid, Unlink(d, n));
      && Step(mid, Link(d, n, c)).1.err == EXIST
      && end.1.err == OK && end.0 == fs && Step(end.0, Link(d, n, c)).1.err == OK
  {
    var mid := Step(fs, Link(d, n, c)).0;
    var w := mid.live;
    StepHealthy(fs, Link(d, n, c));
    assert mid.At(mid.Cur()) == w && SoundAt(mid, mid.Cur());
    if IsDir(w, c) { assert w.links[Edge(d, n)] == c && Child(w, d, c); }
    assert DropLink(w, d, n).links == fs.live.links;
    assert DropLink(w, d, n).nodes == fs.live.nodes;
  }

  /** A move that succeeds changes no node: the name goes and the other comes, bound to the same node. */
  lemma MoveEffect(fs: Fs, sd: nat, sn: Name, dd: nat, dn: Name)
    requires Healthy(fs) && Step(fs, Move(sd, sn, dd, dn)).1.err == OK
    ensures
      var v, w := fs.live, Step(fs, Move(sd, sn, dd, dn)).0.live;
      && Edge(sd, sn) in v.links && Edge(dd, dn) !in v.links
      && w.links == v.links[Edge(dd, dn) := v.links[Edge(sd, sn)]] - {Edge(sd, sn)} && w.nodes == v.nodes
      && Step(fs, Move(sd, sn, dd, dn)).0.(live := v) == fs
  {
    MovedCases(fs.live, sd, sn, dd, dn);
    var v := fs.live;
    var c := v.links[Edge(sd, sn)];
    var mid := Linked(v, dd, dn, c).1;
    assert mid.nodes[c].nlink == v.nodes[c].nlink + 1 && mid.links[Edge(sd, sn)] == c;
    assert Step(fs, Move(sd, sn, dd, dn)).0.live.nodes == v.nodes;
  }

  /** move's answer: NOENT for a name not bound, else what linking its node at the destination would answer. */
  lemma MoveAnswers(fs: Fs, sd: nat, sn: Name, dd: nat, dn: Name)
    requires Healthy(fs)
    ensures Step(fs, Move(sd, sn, dd, dn)).1.err ==
      if Edge(sd, sn) !in fs.live.links then NOENT else Step(fs, Link(dd, dn, fs.live.links[Edge(sd, sn)])).1.err
  {
    MovedCases(fs.live, sd, sn, dd, dn);
    assert fs.At(fs.Cur()) == fs.live && SoundAt(fs, fs.Cur());
    if Edge(sd, sn) in fs.live.links { LinkLeadsIn(fs.live, Edge(sd, sn)); }
  }

  // ---- path differences ----

  /** Across one link the only report is that name gained; across one unlink, that name lost. */
  lemma OneLinkReported(fs: Fs, d: nat, n: Name, c: nat, p: PathDiff)
    requires Step(fs, Link(d, n, c)).1.err == OK
    ensures
      var v, w := fs.live, Step(fs, Link(d, n, c)).0.live;
      && (NameDiff(v, w, p) <==> p == PathDiff(ADDED, d, n, c)) && (BindingDiff(v, w, p) <==> p == PathDiff(ADDED, d, n, c))
      && (NameDiff(w, v, p) <==> p == PathDiff(DROPPED, d, n, c)) && (BindingDiff(w, v, p) <==> p == PathDiff(DROPPED, d, n, c))
  {
  }

  // ---- parents ----

  /** parents lists, in ascending order, the directories that bind some name to the node, in the handle's view. */
  lemma ParentsMeaning(fs: Fs, h: Handle, p: Handle, ps: seq<Handle>)
    requires ps == ParentHandles(fs, h)
    ensures p in ps <==> p.snap == h.snap && exists n :: Get(Seen(fs, h).links, Edge(p.id, n)) == Some(h.id)
    ensures forall i, j :: 0 <= i < j < |ps| ==> ps[i].id < ps[j].id
  {
    var v := Seen(fs, h);
    var ids := Parents(v, h.id);
    if p in ps {
      var i :| 0 <= i < |ps| && ps[i] == p;
      assert ids[i] in ids;
      var e :| e in v.links && v.links[e] == h.id && e.dir == p.id;
      assert Get(v.links, Edge(p.id, e.name)) == Some(h.id);
    }
    if p.snap == h.snap && exists n :: Get(v.links, Edge(p.id, n)) == Some(h.id) {
      var n :| Get(v.links, Edge(p.id, n)) == Some(h.id);
      assert Edge(p.id, n) in v.links && Edge(p.id, n).dir in Containers(v, h.id);
      var i :| 0 <= i < |ids| && ids[i] == p.id;
      assert ps[i] == p;
    }
  }
}
