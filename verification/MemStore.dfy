/**
 The in-memory reference engine: per-node version lists and link lifetime intervals, edited in place.
 It is proved against the same plain file system as the versioned store.
 */
module MemStore {
  import opened Keys
  import opened Options
  import opened FileSystem
  import opened Observations
  import opened Handles
  import opened Intervals
  import opened Listings
  import opened Tallies
  import Numbers

  class MemStore {
    var nodes: Versions
    var links: Lifetimes
    var names: map<nat, set<Name>>
    var changes: map<nat, set<nat>>

    var next: nat
    var cur: nat
    var clock: nat

    ghost var fs: Fs

    ghost predicate Valid()
      reads this
    {
      && cur == fs.Cur() && next == fs.next && clock == fs.clock && cur < LATEST && next <= TWO63
      && NodesShow(nodes, cur, fs) && LinksShow(links, cur, fs)
      && NamesCover(names, links) && ChangesCover(changes, nodes) && Healthy(fs)
    }

    constructor (clock: nat)
      ensures Valid() && fs == Init(clock)
    {
      var a := Attr(DIR, 0x1ED, 0, 0, 1, 0, clock, clock, clock, 0, 0, 0, []);
      nodes := map[ROOT := [NodeVer(1, a)]];
      changes := map[1 := {ROOT}];
      links, names := map[], map[];
      next, cur, this.clock := 2, 1, clock;
      fs := Init(clock);
      new;
      InitHealthy(clock);
      forall x: nat, g: nat
        ensures NodeShown(nodes, fs, x, g)
      {
        FirstVersion(1, a, g);
      }
      assert forall i: nat :: VersionCovered(changes, nodes, ROOT, i);
    }

    // ---- versions and intervals ----

    function ResolveSnap(g: nat): nat
      reads this
    {
      if g == LATEST then cur else g
    }

    /** The effective version: the last one in the list not newer than g. */
    method EffVersion(id: nat, g: nat) returns (a: Option<Attr>)
      requires Ordered(nodes, cur)
      ensures a == EffAt(nodes, id, g)
    {
      if id !in nodes { return None; }
      var vs := nodes[id];
      a := None;
      var i := 0;
      while i < |vs| && vs[i].snap <= g
        invariant 0 <= i <= |vs| && a == Eff(vs[..i], g)
      {
        assert vs[..i + 1][..i] == vs[..i];
        a := Some(vs[i].attr);
        i := i + 1;
      }
      EffFound(vs, cur, i, g);
    }

    /** What it shows: the node of the view, and nothing alive under a snapshot directory's id. */
    method EffR(id: nat, g: nat) returns (a: Option<Attr>)
      requires NodesShow(nodes, cur, fs) && cur >= 1
      ensures if IsSnapDir(id) then !Living(a) else a == Get(fs.At(g).nodes, id)
    {
      assert NodeShown(nodes, fs, id, g);
      a := EffVersion(id, g);
    }

    method LinkLiveAt(e: Edge, g: nat) returns (c: Option<nat>)
      requires LinksShow(links, cur, fs) && cur == fs.Cur()
      ensures c == Get(Seen(fs, Handle(e.dir, g)).links, e)
    {
      assert LinkShown(links, fs, e, Resolve(fs, g));
      if e !in links { return None; }
      c := LiveChild(links[e], ResolveSnap(g));
    }

    /** liveVer: the node's version of the current snapshot, copied from the newest one on first write; a node
        never seen gets a first version. */
    method LiveVer(id: nat) returns (a: Attr)
      modifies this`nodes
      ensures a == LastAttr(VersOf(old(nodes), id))
      ensures nodes == old(nodes)[id := Stamp(VersOf(old(nodes), id), cur, a)]
    {
      var vs := VersOf(nodes, id);
      a := LastAttr(vs);
      if vs == [] || vs[|vs| - 1].snap != cur {
        nodes := nodes[id := vs + [NodeVer(cur, a)]];
      } else {
        assert vs == Stamp(vs, cur, a);
      }
    }

    /** liveVer, then an assignment to the version it hands out. */
    method Rewrite(id: nat, f: Attr -> Attr)
      modifies this`nodes
      ensures nodes == Rewritten(old(nodes), id, cur, f)
    {
      var a := LiveVer(id);
      StampTwice(VersOf(old(nodes), id), cur, a, f(a));
      var vs := nodes[id];
      nodes := nodes[id := vs[..|vs| - 1] + [NodeVer(cur, f(a))]];
    }

    method Touch(id: nat)
      modifies this`changes
      ensures changes == Touched(old(changes), cur, id)
    {
      changes := changes[cur := (if cur in changes then changes[cur] else {}) + {id}];
    }

    // ---- reachability ----

    /** Worklist search over the live intervals of every name ever used in a directory. */
    method Reachable(from: nat, to: nat) returns (yes: bool)
      requires Valid()
      ensures yes <==> Reaches(fs.live, from, to)
    {
      ghost var v := fs.live;
      ghost var universe := v.nodes.Keys + {from};
      var st, seen: set<nat> := [from], {};
      ReachesSelf(v, from);
      while st != []
        invariant forall x :: x in st ==> x in universe && Reaches(v, from, x)
        invariant from in seen || from in st
        invariant to !in seen && seen <= universe
        invariant forall x :: x in seen ==> ChildrenWithin(v, x, seen, st)
        decreases universe - seen, |st|
      {
        var n := st[|st| - 1];
        ghost var whole := st;
        assert n in st;
        st := st[..|st| - 1];
        assert whole == st + [n];
        if n == to { return true; }
        if n in seen { continue; }
        seen := seen + {n};
        var ds := DirChildren(n);
        forall x | x in ds
          ensures x in universe && Reaches(v, from, x)
        {
          ReachesExtend(v, from, n, x);
        }
        st := st + ds;
      }
      ClosedUnreachable(v, seen, from, to);
      return false;
    }

    method DirChildren(n: nat) returns (ds: seq<nat>)
      requires Valid()
      ensures forall y :: y in ds <==> Child(fs.live, n, y)
    {
      var es := LiveEntries(n, LATEST);
      assert Seen(fs, Handle(n, LATEST)) == fs.live;
      ListingMeaning(fs.live, n);
      ds := [];
      var i := 0;
      while i < |es|
        invariant 0 <= i <= |es|
        invariant forall y :: y in ds <==> IsDir(fs.live, y) && ListedBefore(es, i, y)
      {
        forall y { ListedNext(es, i, y); }
        assert es[i] in es;
        LinkEnds(fs, Edge(n, es[i].name));
        var a := EffR(es[i].child, cur);
        assert fs.At(cur) == fs.live;
        if a.Some? && a.value.typ == DIR { ds := ds + [es[i].child]; }
        i := i + 1;
      }
      forall y
        ensures y in ds <==> Child(fs.live, n, y)
      {
        DirChildListed(fs, n, es, y);
      }
    }

    /** The live links of a directory, found by trying every name it ever held. */
    method LiveEntries(dir: nat, g: nat) returns (es: seq<Entry>)
      requires LinksShow(links, cur, fs) && NamesCover(names, links) && cur == fs.Cur()
      ensures es == Listing(Seen(fs, Handle(dir, g)), dir)
    {
      ghost var v := Seen(fs, Handle(dir, g));
      NamesListed(names, links, cur, fs, dir, Resolve(fs, g));
      if dir !in names {
        NothingListed(v, dir);
        return [];
      }
      var ns := Sorted(names[dir]);
      var eof;
      es, eof := FilterPage(ns, dir, g, None, |ns|);
      FoundIsListing(v, dir, ns);
    }

    /** From an ordered list of names, the live ones beyond the cursor, up to max of them. */
    method FilterPage(ns: seq<Name>, dir: nat, g: nat, after: Option<Name>, max: nat) returns (es: seq<Entry>, eof: bool)
      requires LinksShow(links, cur, fs) && cur == fs.Cur()
      ensures var all := Found(Seen(fs, Handle(dir, g)), dir, after, ns);
        (eof <==> |all| <= max) && es == if eof then all else all[..max]
    {
      ghost var v := Seen(fs, Handle(dir, g));
      es, eof := [], true;
      var i := 0;
      while i < |ns|
        invariant 0 <= i <= |ns| && eof
        invariant es == Found(v, dir, after, ns[..i]) && |es| <= max
      {
        assert ns[..i + 1][..i] == ns[..i];
        if after.None? || !Leq(ns[i], after.value) {
          if after.Some? { BeyondCursor(ns[i], after.value); }
          var c := LinkLiveAt(Edge(dir, ns[i]), g);
          if c.Some? {
            if |es| == max {
              FullPage(v, dir, after, ns, i);
              eof := false;
              break;
            }
            es := es + [Entry(ns[i], c.value)];
          }
        } else {
          BeyondCursor(ns[i], after.value);
        }
        i := i + 1;
      }
      if eof { assert ns[..i] == ns; }
    }

    // ---- namespace ----

    twostate predicate Untouched()
      reads this
    {
      nodes == old(nodes) && links == old(links) && names == old(names) && changes == old(changes)
      && next == old(next) && cur == old(cur) && clock == old(clock) && fs == old(fs)
    }

    /** The type a handle reads. */
    method TypeOf(h: Handle) returns (t: Type)
      requires Valid() && h.id < TWO64 && h.snap < TWO64
      ensures t == AttrSeen(fs, h).typ
    {
      var a := EffAttr(h);
      return a.typ;
    }

    method EffAttr(h: Handle) returns (a: Attr)
      requires Valid() && h.id < TWO64 && h.snap < TWO64
      ensures a == AttrSeen(fs, h)
      decreases h.id
    {
      if IsSnapDir(h.id) {
        var base := EffAttr(Handle(SnapBase(h.id), h.snap));
        return SnapDirAttr(base);
      }
      var r := EffR(h.id, ResolveSnap(h.snap));
      return if r.Some? then r.value else NO_ATTR;
    }

    /** link's checks, on the types the two handles read. */
    method CheckLink(dir: Handle, name: Name, child: Handle) returns (e: Error)
      requires Valid() && dir.id < TWO64 && dir.snap < TWO64 && child.id < TWO64 && child.snap < TWO64
      ensures e == LinkVerdict(fs, dir, name, child)
    {
      if name == SNAPSHOT_NAME { return INVAL; }
      var dt := TypeOf(dir);
      if dt != DIR { return NOTDIR; }
      var ct := TypeOf(child);
      if ct == DIR {
        var cyclic := Reachable(child.id, dir.id);
        if cyclic { return INVAL; }
      }
      var dummy := LinkLiveAt(Edge(dir.id, name), LATEST);
      assert Seen(fs, Handle(dir.id, LATEST)) == fs.live;
      return if dummy.Some? then EXIST else OK;
    }

    /** On any two handles: the verdict from the types they read, and the plain file system's outcome and views
        exactly when the verdicts agree. */
    method Link(dir: Handle, name: Name, child: Handle) returns (e: Error)
      requires Valid() && Wide(dir) && Wide(child)
      modifies this
      ensures e == LinkVerdict(old(fs), dir, name, child) && (e != OK ==> Untouched())
      ensures e == OK ==> Opened(Edge(dir.id, name), child.id)
      ensures LinkAgrees(old(fs), dir, name, child) ==>
        Valid() && (fs, Outcome(e, 0)) == Step(old(fs), FileSystem.Link(dir.id, name, child.id))
    {
      ghost var s := Step(fs, FileSystem.Link(dir.id, name, child.id));
      ghost var agrees := LinkAgrees(fs, dir, name, child);
      if agrees { VerdictsAgree(fs, dir, name, child, s); }
      e := CheckLink(dir, name, child);
      if e != OK { return; }
      Attach(Edge(dir.id, name), child.id, agrees, s.0);
    }

    /** The tables after a link, whether or not its ends exist. */
    twostate predicate Opened(k: Edge, child: nat)
      reads this
    {
      && links == Born(old(links), k, old(cur), child) && names == Listed(old(names), k)
      && nodes == Rewritten(old(nodes), child, old(cur), Incremented)
      && changes == Touched(Touched(old(changes), old(cur), k.dir), old(cur), child)
      && cur == old(cur) && next == old(next) && clock == old(clock)
    }

    /** A link that has passed its checks: open an interval, list the name, count the link. */
    method Attach(k: Edge, child: nat, ghost agrees: bool, ghost fs': Fs)
      requires Valid() && (agrees ==> Attached(fs, k, child, fs'))
      modifies this
      ensures Opened(k, child)
      ensures agrees ==> Valid() && fs == fs'
    {
      Open(k, child);
      Rewrite(child, Incremented);
      Touch(k.dir);
      Touch(child);
      if agrees {
        KnownNode(old(nodes), cur, fs, child);
        LinkCarries(old(nodes), nodes, old(links), links, old(names), names, fs, k, child, fs');
        TouchTwice(old(nodes), nodes, old(changes), cur, k.dir, child, Incremented(fs.live.nodes[child]));
        fs := fs';
      }
    }

    method Open(k: Edge, child: nat)
      modifies this`links, this`names
      ensures links == Born(old(links), k, cur, child) && names == Listed(old(names), k)
    {
      links := links[k := (if k in links then links[k] else []) + [LinkIv(cur, 0, child)]];
      names := names[k.dir := (if k.dir in names then names[k.dir] else {}) + {k.name}];
    }

    method Unlink(dir: Handle, name: Name) returns (e: Error)
      requires Valid() && Wide(dir)
      modifies this
      ensures Valid() && (fs, Outcome(e, 0)) == Step(old(fs), FileSystem.Unlink(dir.id, name))
      ensures e != OK ==> Untouched()
    {
      ghost var s := Step(fs, FileSystem.Unlink(dir.id, name));
      ghost var k := Edge(dir.id, name);
      LinkEnds(fs, k);
      assert LinkShown(links, fs, k, cur);
      ghost var i;
      e, i := Detach(Edge(dir.id, name));
      if e == OK {
        EndCarries(old(nodes), nodes, old(links), links, names, old(changes), changes, fs, k, i, s);
        fs := s.0;
      }
    }

    /** End the live interval, if there is one, and the count of it. */
    method Detach(k: Edge) returns (e: Error, ghost i: nat)
      modifies this`links, this`nodes, this`changes
      ensures e == if ChildOf(old(links), k, cur).Some? then OK else NOENT
      ensures e != OK ==> links == old(links) && nodes == old(nodes) && changes == old(changes)
      ensures e == OK ==> EndsAt(old(nodes), nodes, old(links), links, old(changes), changes, k, i, cur)
    {
      i := 0;
      if k !in links { return NOENT, 0; }
      var iv := LiveIv(links[k], cur);
      if iv.None? { return NOENT, 0; }
      i := iv.value;
      FirstLive(links[k], cur, i);
      var child := links[k][iv.value].child;
      links := links[k := Ended(links[k], iv.value, cur)];
      Rewrite(child, Decremented);
      Touch(k.dir);
      Touch(child);
      return OK, i;
    }

    /** Link at the destination, then unlink the source; as for link, the handles decide whether this is the move
        of the plain file system. */
    method Move(sdir: Handle, sn: Name, ddir: Handle, dn: Name) returns (e: Error)
      requires Valid() && Wide(sdir) && Wide(ddir)
      modifies this
      ensures e == MoveVerdict(old(fs), sdir, sn, ddir, dn) && (e != OK ==> Untouched())
      ensures MoveAgrees(old(fs), sdir, sn, ddir, dn) ==>
        Valid() && (fs, Outcome(e, 0)) == Step(old(fs), FileSystem.Move(sdir.id, sn, ddir.id, dn))
    {
      ghost var k := Edge(sdir.id, sn);
      var c := LinkLiveAt(Edge(sdir.id, sn), LATEST);
      assert Seen(fs, Handle(sdir.id, LATEST)) == fs.live;
      LinkEnds(fs, k);
      if c.None? { return NOENT; }
      ghost var agrees := MoveAgrees(fs, sdir, sn, ddir, dn);
      LiveIsWide(fs, c.value);
      e := Link(ddir, dn, Handle(c.value, LATEST));
      MovedCases(old(fs).live, sdir.id, sn, ddir.id, dn);
      if e != OK { return; }
      SourceStays(old(links), links, old(fs), k, Edge(ddir.id, dn), c.value);
      e := Remove(Edge(sdir.id, sn), agrees);
    }

    /** Unlink a name known to be linked. */
    method Remove(k: Edge, ghost agrees: bool) returns (e: Error)
      requires ChildOf(links, k, cur).Some? && (agrees ==> Valid())
      modifies this
      ensures e == OK
      ensures agrees ==> Valid() && (fs, Outcome(OK, 0)) == Step(old(fs), FileSystem.Unlink(k.dir, k.name))
    {
      ghost var i;
      e, i := Detach(k);
      if agrees {
        ghost var s := Step(fs, FileSystem.Unlink(k.dir, k.name));
        EndCarries(old(nodes), nodes, old(links), links, names, old(changes), changes, fs, k, i, s);
        fs := s.0;
      }
    }

    // ---- creation, attributes, snapshots ----

    method Create(t: Type, blob: Bytes, spec: nat) returns (h: Handle)
      requires Valid() && next < TWO63
      modifies this
      ensures Valid() && (fs, Outcome(OK, h.id)) == Step(old(fs), FileSystem.Create(t, blob, spec)) && h.snap == LATEST
    {
      ghost var op := FileSystem.Create(t, blob, spec);
      ghost var fs' := Step(fs, op).0;
      var id := next;
      next := next + 1;
      var a := NO_ATTR.(typ := t, mode := DefaultMode(t), spec := spec, atime := clock, mtime := clock, ctime := clock, blob := blob);
      nodes := nodes[id := [NodeVer(cur, a)]];
      MintedShows(old(nodes), fs, fs', a);
      TouchCovers(changes, old(nodes), cur, id, a);
      assert Stamp([], cur, a) == [NodeVer(cur, a)];
      Touch(id);
      LinksKept(links, fs, fs');
      StepHealthy(fs, op);
      fs := fs';
      return Handle(id, LATEST);
    }

    /** Every attribute setter. On a snapshot directory it writes a version that nothing ever reads. */
    method SetAttr(h: Handle, c: Change)
      requires Valid() && Wide(h)
      modifies this
      ensures nodes == Rewritten(old(nodes), h.id, old(cur), a => Changed(a, c)) && Ordered(nodes, cur) && cur == old(cur)
      ensures h.id in old(fs).live.nodes || IsSnapDir(h.id) ==>
        Valid() && fs == Step(old(fs), FileSystem.SetAttr(h.id, c)).0
    {
      ghost var agrees := h.id in fs.live.nodes || IsSnapDir(h.id);
      Overwrite(h.id, a => Changed(a, c), agrees, FileSystem.SetAttr(h.id, c));
    }

    /** liveVer, an assignment and a touch; where the engines agree, the operation of the plain file system. */
    method Overwrite(id: nat, f: Attr -> Attr, ghost agrees: bool, ghost op: Op)
      requires Valid() && (agrees ==> Overwrites(fs, id, f, op))
      modifies this
      ensures nodes == Rewritten(old(nodes), id, old(cur), f) && Ordered(nodes, cur) && cur == old(cur)
      ensures agrees ==> Valid() && fs == Step(old(fs), op).0
    {
      Rewrite(id, f);
      Touch(id);
      StampedOrdered(old(nodes), cur, id, f(LastAttr(VersOf(old(nodes), id))));
      if agrees {
        OverwriteCarries(old(nodes), nodes, links, old(changes), fs, id, f, op);
        fs := Step(fs, op).0;
      }
    }

    method SetPayload(h: Handle, p: Payload) returns (e: Error)
      requires Valid() && Wide(h)
      modifies this
      ensures e == PayloadVerdict(old(fs), h, p) && (e != OK ==> Untouched())
      ensures e == OK ==> nodes == Rewritten(old(nodes), h.id, old(cur), a => Loaded(a, p))
      ensures PayloadAgrees(old(fs), h, p) ==>
        Valid() && (fs, Outcome(e, 0)) == Step(old(fs), FileSystem.SetPayload(h.id, p))
    {
      PayloadIff(fs, h, p);
      var t := TypeOf(h);
      if !Accepts(t, p) { return INVAL; }
      Overwrite(h.id, a => Loaded(a, p), PayloadAgrees(fs, h, p), FileSystem.SetPayload(h.id, p));
      return OK;
    }

    method Snapshot() returns (v: nat)
      requires Valid() && cur + 1 < LATEST
      modifies this
      ensures Valid() && (fs, Outcome(OK, v)) == Step(old(fs), FileSystem.Snapshot)
      ensures old(fs.Cur()) <= v < fs.Cur() && fs.live == old(fs.live)
      ensures forall ops :: v < Run(fs, ops).Cur() && Run(fs, ops).At(v) == old(fs.live)
    {
      forall ops { SealedViewsNeverChange(Step(fs, FileSystem.Snapshot).0, ops, fs.Cur()); }
      ghost var fs' := Step(fs, FileSystem.Snapshot).0;
      v := cur;
      cur := cur + 1;
      SealedShows(nodes, links, fs, fs');
      StepHealthy(fs, FileSystem.Snapshot);
      fs := fs';
    }

    method SetTime(t: nat)
      requires Valid()
      modifies this
      ensures Valid() && fs == Step(old(fs), FileSystem.SetTime(t)).0
    {
      ghost var fs' := Step(fs, FileSystem.SetTime(t)).0;
      clock := t;
      NodesKept(nodes, fs, fs');
      LinksKept(links, fs, fs');
      StepHealthy(fs, FileSystem.SetTime(t));
      fs := fs';
    }

    // ---- reads ----

    method NodeById(id: nat, snap: nat) returns (h: Option<Handle>)
      requires Ordered(nodes, cur) && id < TWO64 && snap < TWO64
      ensures h == if EffAt(nodes, BaseOf(id), ResolveSnap(snap)).Some? then Some(Handle(id, snap)) else None
      ensures Valid() ==> h == Handles.NodeById(fs, id, snap)
    {
      var a := EffVersion(BaseOf(id), ResolveSnap(snap));
      assert Valid() ==> NodeShown(nodes, fs, BaseOf(id), Resolve(fs, snap));
      return if a.Some? then Some(Handle(id, snap)) else None;
    }

    method ReadNode(h: Handle) returns (a: Attr)
      requires Valid() && h.id < TWO64 && h.snap < TWO64
      ensures a == AttrSeen(fs, h)
    {
      a := EffAttr(h);
    }

    method Lookup(dir: Handle, name: Name) returns (h: Option<Handle>)
      requires Valid() && dir.id < TWO64 && dir.snap < TWO64
      ensures h == Handles.Lookup(fs, dir, name)
    {
      if IsSnapDir(dir.id) {
        var n := ParseSnap(name);
        if n.None? || n.value < 1 || n.value >= cur { return None; }
        var a := EffR(SnapBase(dir.id), n.value);
        return if a.Some? then Some(Handle(SnapBase(dir.id), n.value)) else None;
      }
      if name == SNAPSHOT_NAME && dir.snap == LATEST {
        var t := TypeOf(dir);
        assert Seen(fs, dir) == fs.live;
        if t == DIR { return Some(Handle(dir.id + TWO63, LATEST)); }
      }
      var c := LinkLiveAt(Edge(dir.id, name), dir.snap);
      assert Seen(fs, Handle(dir.id, dir.snap)) == Seen(fs, dir);
      return if c.Some? then Some(Handle(c.value, dir.snap)) else None;
    }

    method Readdir(dir: Handle) returns (ds: seq<DirEntry>)
      requires Valid() && dir.id < TWO64 && dir.snap < TWO64
      ensures ds == Handles.Readdir(fs, dir)
    {
      if IsSnapDir(dir.id) {
        var ns, eof := WalkSnaps(SnapBase(dir.id), 1, cur);
        SnapsBelowCount(fs, SnapBase(dir.id), 1, cur);
        return SnapEntries(SnapBase(dir.id), ns);
      }
      var es := LiveEntries(dir.id, dir.snap);
      assert Seen(fs, Handle(dir.id, dir.snap)) == Seen(fs, dir);
      return WithView(es, dir.snap);
    }

    /** The sealed snapshots at which base existed, from a first one on, at most max of them. */
    method WalkSnaps(base: nat, from: nat, max: nat) returns (ns: seq<nat>, eof: bool)
      requires Valid() && base < TWO63
      ensures var all := SnapsBelow(fs, base, from, cur);
        (eof <==> |all| <= max) && ns == if eof then all else all[..max]
    {
      ns, eof := [], true;
      var n := from;
      while n < cur
        invariant ns == SnapsBelow(fs, base, from, n) && |ns| <= max && (n <= cur || n == from) && eof
      {
        var a := EffR(base, n);
        if a.Some? && |ns| == max {
          FullSnapPage(fs, base, from, n, max);
          eof := false;
          break;
        }
        if a.Some? { ns := ns + [n]; }
        n := n + 1;
      }
    }

    method ReaddirPage(dir: Handle, after: Name, max: nat) returns (p: DirPage)
      requires Valid() && dir.id < TWO64 && dir.snap < TWO64
      ensures p == Handles.ReaddirPage(fs, dir, after, max)
    {
      if IsSnapDir(dir.id) {
        var from := 1;
        if after != [] && ParseSnap(after).Some? { from := (ParseSnap(after).value + 1) % TWO64; }
        var ns, eof := WalkSnaps(SnapBase(dir.id), from, max);
        SnapsArePaged(SnapBase(dir.id), ns, SnapsBelow(fs, SnapBase(dir.id), from, cur), max, eof);
        return PageOfSnaps(SnapBase(dir.id), ns, eof);
      }
      var es, eof := LivePage(dir, after, max);
      PageIsPaged(es, After(Listing(Seen(fs, dir), dir.id), after), dir.snap, max, eof);
      return PageOfEntries(es, dir.snap, eof);
    }

    method LivePage(dir: Handle, after: Name, max: nat) returns (es: seq<Entry>, eof: bool)
      requires LinksShow(links, cur, fs) && NamesCover(names, links) && cur == fs.Cur()
      ensures var rest := After(Listing(Seen(fs, dir), dir.id), after);
        (eof <==> |rest| <= max) && es == if eof then rest else rest[..max]
    {
      var v := Seen(fs, dir);
      NamesListed(names, links, cur, fs, dir.id, Resolve(fs, dir.snap));
      if dir.id !in names {
        NothingListed(v, dir.id);
        return [], true;
      }
      var ns := Sorted(names[dir.id]);
      es, eof := FilterPage(ns, dir.id, dir.snap, Some(after), max);
      FoundIsListing(v, dir.id, ns);
    }

    /** The distinct containers of a node, by looking at every interval of every link. */
    method Parents(h: Handle) returns (ps: seq<Handle>)
      requires Valid() && h.id < TWO64 && h.snap < TWO64
      ensures ps == ParentHandles(fs, h)
    {
      LinkDirs(links, cur, fs);
      var order := InKeyOrder(links.Keys);
      KeyOrderMeaning(links.Keys, order);
      ghost var g := Resolve(fs, h.snap);
      var ids := Containing(order, h.id, ResolveSnap(h.snap));
      forall d
        ensures d in ids <==> d in Containers(fs.At(g), h.id)
      {
        ContainedIn(links, cur, fs, g, order, h.id, d);
      }
      Numbers.SortedUnique(ids, Containers(fs.At(g), h.id));
      ps := seq(|ids|, i requires 0 <= i < |ids| => Handle(ids[i], h.snap));
    }

    /** The directories of the links, in order, that bind a name to the node at g. */
    method Containing(order: seq<Edge>, id: nat, g: nat) returns (ids: seq<nat>)
      requires forall e :: e in order ==> e in links
      requires forall i, j :: EdgeBefore(order, i, j)
      ensures Numbers.Ascending(ids)
      ensures forall d :: d in ids <==> BoundBefore(links, order, |order|, id, g, d)
    {
      ids := [];
      var seen: set<nat> := {};
      var i := 0;
      while i < |order|
        invariant 0 <= i <= |order| && Numbers.Ascending(ids)
        invariant forall d :: d in ids <==> d in seen
        invariant forall d :: d in seen ==> i == 0 || d <= order[i - 1].dir
        invariant forall d :: d in seen <==> BoundBefore(links, order, i, id, g, d)
      {
        assert order[i] in order && EdgeBefore(order, i - 1, i);
        forall d { BoundNext(links, order, i, id, g, d); }
        var c := LiveChild(links[order[i]], g);
        if c == Some(id) && order[i].dir !in seen {
          Numbers.AscendingSnoc(ids, order[i].dir);
          seen := seen + {order[i].dir};
          ids := ids + [order[i].dir];
        }
        i := i + 1;
      }
    }

    // ---- differences ----

    /** The ids touched in the snapshots after ra, up to rb. */
    method CandidateIds(ra: nat, rb: nat) returns (ids: set<nat>)
      ensures forall id :: id in ids <==> exists s :: ra < s <= rb && VersionTouched(changes, id, s)
    {
      var order: seq<nat> := Numbers.Sorted(changes.Keys);
      ids := {};
      var i := 0;
      while i < |order|
        invariant 0 <= i <= |order|
        invariant forall id :: id in ids <==> TouchedAmong(changes, order, i, id, ra, rb)
      {
        assert order[i] in order;
        forall id { TouchedNext(changes, order, i, id, ra, rb); }
        if order[i] > ra && order[i] <= rb { ids := ids + changes[order[i]]; }
        i := i + 1;
      }
      forall id
        ensures id in ids <==> exists s :: ra < s <= rb && VersionTouched(changes, id, s)
      {
        TouchedAll(changes, order, id, ra, rb);
      }
    }

    method DiffNodes(a: nat, b: nat) returns (ds: seq<NodeDiff>)
      requires Valid() && a < TWO64 && b < TWO64
      ensures var ra, rb := Resolve(fs, a), Resolve(fs, b);
        ds == if ra <= rb then Observations.DiffNodes(fs.At(ra), fs.At(rb)) else []
    {
      var ra, rb := ResolveSnap(a), ResolveSnap(b);
      var cand := CandidateIds(ra, rb);
      ds := CompareAll(Numbers.Sorted(cand), ra, rb);
      if ra <= rb { TouchedCover(nodes, changes, cur, fs, ra, rb, cand); }
    }

    method CompareAll(ids: seq<nat>, ra: nat, rb: nat) returns (ds: seq<NodeDiff>)
      requires NodesShow(nodes, cur, fs) && cur >= 1 && Healthy(fs) && fs.next <= TWO63
      ensures ds == Collect(fs.At(ra), fs.At(rb), ids)
    {
      ds := [];
      var i := 0;
      while i < |ids|
        invariant 0 <= i <= |ids| && ds == Collect(fs.At(ra), fs.At(rb), ids[..i])
      {
        var va := EffR(ids[i], ra);
        var vb := EffR(ids[i], rb);
        var d := CompareStates(ids[i], va, vb);
        NoSnapNode(fs, ra, ids[i]);
        NoSnapNode(fs, rb, ids[i]);
        assert ids[..i + 1][..i] == ids[..i];
        ds := ds + d;
        i := i + 1;
      }
      assert ids[..i] == ids;
    }

    /** Bindings gained and lost, link by link; unlike the store, in either direction of time. */
    method DiffPaths(a: nat, b: nat) returns (ps: seq<PathDiff>)
      requires Valid() && a < TWO64 && b < TWO64
      ensures forall p :: p in ps <==> BindingDiff(fs.At(Resolve(fs, a)), fs.At(Resolve(fs, b)), p)
      ensures InOracleOrder(ps)
    {
      LinkDirs(links, cur, fs);
      ghost var v, w := fs.At(Resolve(fs, a)), fs.At(Resolve(fs, b));
      var order := InKeyOrder(links.Keys);
      KeyOrderMeaning(links.Keys, order);
      ps := CompareLinks(order, ResolveSnap(a), ResolveSnap(b));
      forall p | BindingDiff(v, w, p)
        ensures Edge(p.parent, p.name) in links
      {
        assert LinkShown(links, fs, Edge(p.parent, p.name), Resolve(fs, a));
        assert LinkShown(links, fs, Edge(p.parent, p.name), Resolve(fs, b));
      }
    }

    method CompareLinks(order: seq<Edge>, ra: nat, rb: nat) returns (ps: seq<PathDiff>)
      requires LinksShow(links, cur, fs) && (forall e :: e in order ==> e in links) && forall i, j :: EdgeBefore(order, i, j)
      ensures InOracleOrder(ps)
      ensures forall p :: p in ps <==> Edge(p.parent, p.name) in order && BindingDiff(fs.At(ra), fs.At(rb), p)
    {
      ps := [];
      var i := 0;
      while i < |order|
        invariant 0 <= i <= |order| && InOracleOrder(ps)
        invariant forall p :: p in ps <==> Edge(p.parent, p.name) in order[..i] && BindingDiff(fs.At(ra), fs.At(rb), p)
      {
        var e := order[i];
        assert e in order && order[..i + 1] == order[..i] + [e];
        assert LinkShown(links, fs, e, ra) && LinkShown(links, fs, e, rb);
        var ca := LiveChild(links[e], ra);
        var cb := LiveChild(links[e], rb);
        var more := CompareBinding(e, ca, cb);
        LinkLast(order, i, ps, more);
        ps := ps + more;
        i := i + 1;
      }
      assert order[..i] == order;
    }

    // ---- statistics ----

    method Stats(g: nat) returns (s: Observations.Stats)
      requires Valid() && g < TWO64
      ensures s == StatsOf(fs.At(Resolve(fs, g)))
    {
      var rg := ResolveSnap(g);
      ghost var v := fs.At(rg);
      var ids := Numbers.Sorted(nodes.Keys);
      var counts, total := CountVersions(ids, rg);
      LinkDirs(links, cur, fs);
      var order := InKeyOrder(links.Keys);
      KeyOrderMeaning(links.Keys, order);
      var n := CountIntervals(order, rg);
      AllCounted(nodes, links, cur, fs, rg, ids, order);
      s := Observations.Stats.Stats(counts, n, total);
      StatsMeaning(v, counts, n, total);
    }

    method CountVersions(ids: seq<nat>, g: nat) returns (counts: map<Type, nat>, total: nat)
      requires NodesShow(nodes, cur, fs) && cur >= 1 && Numbers.Ascending(ids) && Healthy(fs) && fs.next <= TWO63
      ensures CountsAlive(fs.At(g), IdsIn(ids, |ids|), counts)
      ensures total == SizeAmong(fs.At(g), IdsIn(ids, |ids|))
    {
      ghost var v := fs.At(g);
      counts := map[REG := 0, DIR := 0, LNK := 0, BLK := 0, CHR := 0, FIFO := 0, SOCK := 0];
      total := 0;
      var i := 0;
      ghost var done := IdsIn(ids, 0);
      NothingTallied(v, done, counts);
      while i < |ids|
        invariant 0 <= i <= |ids| && done == IdsIn(ids, i)
        invariant CountsAlive(v, done, counts)
        invariant total == SizeAmong(v, done)
      {
        IdsInNext(ids, i);
        var a := EffR(ids[i], g);
        NoSnapNode(fs, g, ids[i]);
        counts := CountNode(v, done, counts, ids[i], a);
        total := AddSize(v, done, total, ids[i], a);
        done := done + {ids[i]};
        i := i + 1;
      }
    }

    method CountIntervals(order: seq<Edge>, g: nat) returns (n: nat)
      requires LinksShow(links, cur, fs) && forall e :: e in order ==> e in links
      requires forall i, j :: EdgeBefore(order, i, j)
      ensures n == |BoundIn(fs.At(g), order, |order|)|
    {
      n := 0;
      var i := 0;
      while i < |order|
        invariant 0 <= i <= |order| && n == |BoundIn(fs.At(g), order, i)|
      {
        assert order[i] in order && LinkShown(links, fs, order[i], g);
        BoundInNext(fs.At(g), order, i);
        var k := CountLive(links[order[i]], cur, g);
        n := n + k;
        i := i + 1;
      }
    }
  }

  method LiveChild(ivs: seq<LinkIv>, g: nat) returns (c: Option<nat>)
    ensures c == ChildIn(ivs, g)
  {
    var i := 0;
    while i < |ivs|
      invariant 0 <= i <= |ivs| && ChildIn(ivs, g) == ChildIn(ivs[i..], g)
    {
      if ivs[i].born <= g && (ivs[i].dead == 0 || ivs[i].dead > g) { return Some(ivs[i].child); }
      assert ivs[i..][1..] == ivs[i + 1..];
      i := i + 1;
    }
    return None;
  }

  /** The index of the first interval live at g. */
  method LiveIv(ivs: seq<LinkIv>, g: nat) returns (k: Option<nat>)
    ensures match k
      case None => ChildIn(ivs, g) == None
      case Some(i) => i < |ivs| && LiveAt(ivs[i], g) && forall j :: 0 <= j < i ==> !LiveAt(ivs[j], g)
  {
    var i := 0;
    while i < |ivs|
      invariant 0 <= i <= |ivs| && ChildIn(ivs, g) == ChildIn(ivs[i..], g)
      invariant forall j :: 0 <= j < i ==> !LiveAt(ivs[j], g)
    {
      if LiveAt(ivs[i], g) { return Some(i); }
      assert ivs[i..][1..] == ivs[i + 1..];
      i := i + 1;
    }
    return None;
  }

  function Incremented(a: Attr): Attr {
    a.(nlink := a.nlink + 1)
  }

  /** nlink-- on a 32-bit counter. */
  function Decremented(a: Attr): Attr {
    a.(nlink := if a.nlink == 0 then 0xFFFF_FFFF else a.nlink - 1)
  }

  function VersOf(nodes: Versions, id: nat): seq<NodeVer> {
    if id in nodes then nodes[id] else []
  }

  function LastAttr(vs: seq<NodeVer>): Attr {
    if vs == [] then NO_ATTR else vs[|vs| - 1].attr
  }

  function Rewritten(nodes: Versions, id: nat, cur: nat, f: Attr -> Attr): Versions {
    nodes[id := Stamp(VersOf(nodes, id), cur, f(LastAttr(VersOf(nodes, id))))]
  }

  lemma KnownNode(nodes: Versions, cur: nat, fs: Fs, id: nat)
    requires NodesShow(nodes, cur, fs) && cur == fs.Cur() && id in fs.live.nodes && !IsSnapDir(id)
    ensures id in nodes && LastAttr(VersOf(nodes, id)) == fs.live.nodes[id]
  {
    assert NodeShown(nodes, fs, id, cur) && fs.At(cur) == fs.live;
    EffLast(nodes[id], cur, cur);
  }

  /** Rewriting the live node is the operation; so, for a snapshot directory, is writing a version that shows nothing. */
  ghost predicate Overwrites(fs: Fs, id: nat, f: Attr -> Attr, op: Op) {
    if IsSnapDir(id) then Step(fs, op).0 == fs && forall a :: f(a).nlink == a.nlink
    else id in fs.live.nodes && Step(fs, op).0 == fs.(live := Put(fs.live, id, f(fs.live.nodes[id])))
  }

  lemma OverwriteShows(nodes: Versions, nodes': Versions, fs: Fs, id: nat, f: Attr -> Attr, op: Op)
    requires NodesShow(nodes, fs.Cur(), fs) && Overwrites(fs, id, f, op)
    requires nodes' == Rewritten(nodes, id, fs.Cur(), f)
    ensures NodesShow(nodes', fs.Cur(), Step(fs, op).0)
  {
    var cur, a := fs.Cur(), f(LastAttr(VersOf(nodes, id)));
    if IsSnapDir(id) {
      assert NodeShown(nodes, fs, id, cur);
      if id in nodes { EffLast(nodes[id], cur, cur); }
      ShadowShows(nodes, nodes', fs, id, a);
    } else {
      KnownNode(nodes, cur, fs, id);
      StampedShows(nodes, nodes', fs, Step(fs, op).0, id, a);
    }
  }

  lemma OverwriteCarries(nodes: Versions, nodes': Versions, links: Lifetimes, changes: map<nat, set<nat>>, fs: Fs,
                         id: nat, f: Attr -> Attr, op: Op)
    requires NodesShow(nodes, fs.Cur(), fs) && LinksShow(links, fs.Cur(), fs) && ChangesCover(changes, nodes) && Healthy(fs)
    requires nodes' == Rewritten(nodes, id, fs.Cur(), f) && Overwrites(fs, id, f, op)
    ensures var fs' := Step(fs, op).0;
      && NodesShow(nodes', fs.Cur(), fs') && LinksShow(links, fs.Cur(), fs') && Healthy(fs')
      && ChangesCover(Touched(changes, fs.Cur(), id), nodes')
      && fs'.sealed == fs.sealed && fs'.next == fs.next && fs'.clock == fs.clock
  {
    TouchCovers(changes, nodes, fs.Cur(), id, f(LastAttr(VersOf(nodes, id))));
    OverwriteShows(nodes, nodes', fs, id, f, op);
    LinksKept(links, fs, Step(fs, op).0);
    StepHealthy(fs, op);
  }

  /** fs' is fs with one more link, counted. */
  ghost predicate Attached(fs: Fs, k: Edge, child: nat, fs': Fs) {
    && child in fs.live.nodes && !IsSnapDir(child) && k.dir < fs.next && k !in fs.live.links
    && fs'.sealed == fs.sealed && fs'.next == fs.next && fs'.clock == fs.clock && Healthy(fs')
    && fs'.live.nodes == fs.live.nodes[child := Incremented(fs.live.nodes[child])]
    && fs'.live.links == fs.live.links[k := child]
  }

  /** A link made in the tables is the link made in the plain file system. */
  lemma LinkCarries(nodes: Versions, nodes': Versions, links: Lifetimes, links': Lifetimes,
                    names: map<nat, set<Name>>, names': map<nat, set<Name>>, fs: Fs, k: Edge, child: nat, fs': Fs)
    requires NodesShow(nodes, fs.Cur(), fs) && LinksShow(links, fs.Cur(), fs) && NamesCover(names, links)
    requires Attached(fs, k, child, fs') && child in nodes
    requires nodes' == nodes[child := Stamp(nodes[child], fs.Cur(), Incremented(fs.live.nodes[child]))]
    requires links' == Born(links, k, fs.Cur(), child) && names' == Listed(names, k)
    ensures NodesShow(nodes', fs.Cur(), fs') && LinksShow(links', fs.Cur(), fs') && NamesCover(names', links')
  {
    NameAdded(names, links, k, links'[k]);
    BornShows(links, fs, fs', k, child);
    StampedShows(nodes, nodes', fs, fs', child, Incremented(fs.live.nodes[child]));
  }

  lemma UnlinkCarries(nodes: Versions, nodes': Versions, links: Lifetimes, links': Lifetimes, names: map<nat, set<Name>>,
                      fs: Fs, k: Edge, i: nat, child: nat, s: (Fs, Outcome))
    requires NodesShow(nodes, fs.Cur(), fs) && LinksShow(links, fs.Cur(), fs) && NamesCover(names, links) && Healthy(fs)
    requires s == Step(fs, Unlink(k.dir, k.name)) && Get(fs.live.links, k) == Some(child) && child in nodes
    requires k in links && i < |links[k]| && LiveAt(links[k][i], fs.Cur()) && child in fs.live.nodes && !IsSnapDir(child)
    requires nodes' == nodes[child := Stamp(nodes[child], fs.Cur(), Decremented(fs.live.nodes[child]))]
    requires links' == links[k := Ended(links[k], i, fs.Cur())]
    ensures NodesShow(nodes', fs.Cur(), s.0) && LinksShow(links', fs.Cur(), s.0) && NamesCover(names, links') && Healthy(s.0)
    ensures s.1 == Outcome(OK, 0)
  {
    LinkEnds(fs, k);
    NameKept(names, links, k, links'[k]);
    EndedShows(links, fs, s.0, k, i);
    StampedShows(nodes, nodes', fs, s.0, child, Decremented(fs.live.nodes[child]));
    StepHealthy(fs, Unlink(k.dir, k.name));
  }

  /** The tables once the i-th interval of a link is ended. */
  ghost predicate EndsAt(nodes: Versions, nodes': Versions, links: Lifetimes, links': Lifetimes,
                         changes: map<nat, set<nat>>, changes': map<nat, set<nat>>, k: Edge, i: nat, cur: nat) {
    && k in links && i < |links[k]| && LiveAt(links[k][i], cur) && ChildIn(links[k], cur) == Some(links[k][i].child)
    && links' == links[k := Ended(links[k], i, cur)]
    && nodes' == Rewritten(nodes, links[k][i].child, cur, Decremented)
    && changes' == Touched(Touched(changes, cur, k.dir), cur, links[k][i].child)
  }

  lemma {:induction false} FirstLive(ivs: seq<LinkIv>, g: nat, i: nat)
    requires i < |ivs| && LiveAt(ivs[i], g) && forall j :: 0 <= j < i ==> !LiveAt(ivs[j], g)
    ensures ChildIn(ivs, g) == Some(ivs[i].child)
    decreases i
  {
    if i != 0 {
      forall j | 0 <= j < i - 1
        ensures !LiveAt(ivs[1..][j], g)
      {
        assert ivs[1..][j] == ivs[j + 1];
      }
      FirstLive(ivs[1..], g, i - 1);
    }
  }

  /** Ending the live interval is the unlink of the plain file system. */
  lemma EndCarries(nodes: Versions, nodes': Versions, links: Lifetimes, links': Lifetimes, names: map<nat, set<Name>>,
                   changes: map<nat, set<nat>>, changes': map<nat, set<nat>>, fs: Fs, k: Edge, i: nat, s: (Fs, Outcome))
    requires NodesShow(nodes, fs.Cur(), fs) && LinksShow(links, fs.Cur(), fs) && NamesCover(names, links)
    requires ChangesCover(changes, nodes) && Healthy(fs) && fs.next <= TWO63 && s == Step(fs, Unlink(k.dir, k.name))
    requires EndsAt(nodes, nodes', links, links', changes, changes', k, i, fs.Cur())
    ensures NodesShow(nodes', fs.Cur(), s.0) && LinksShow(links', fs.Cur(), s.0) && NamesCover(names, links')
    ensures ChangesCover(changes', nodes') && Healthy(s.0) && s.1 == Outcome(OK, 0)
  {
    var child := links[k][i].child;
    assert LinkShown(links, fs, k, fs.Cur()) && fs.At(fs.Cur()) == fs.live;
    LinkEnds(fs, k);
    KnownNode(nodes, fs.Cur(), fs, child);
    UnlinkCarries(nodes, nodes', links, links', names, fs, k, i, child, s);
    TouchTwice(nodes, nodes', changes, fs.Cur(), k.dir, child, Decremented(fs.live.nodes[child]));
  }

  /** Linking elsewhere leaves the link to be moved where it is. */
  lemma SourceStays(links: Lifetimes, links': Lifetimes, fs: Fs, k: Edge, d: Edge, child: nat)
    requires LinksShow(links, fs.Cur(), fs) && Get(fs.live.links, k) == Some(child)
    requires links' == Born(links, d, fs.Cur(), child) && d !in fs.live.links
    ensures ChildOf(links', k, fs.Cur()) == Some(child)
  {
    assert LinkShown(links, fs, k, fs.Cur()) && fs.At(fs.Cur()) == fs.live;
  }

  lemma TouchTwice(nodes: Versions, nodes': Versions, changes: map<nat, set<nat>>, cur: nat, dir: nat, id: nat, a: Attr)
    requires ChangesCover(changes, nodes) && id in nodes && nodes' == nodes[id := Stamp(nodes[id], cur, a)]
    ensures ChangesCover(Touched(Touched(changes, cur, dir), cur, id), nodes')
  {
    TouchKeeps(changes, nodes, cur, dir);
    TouchCovers(Touched(changes, cur, dir), nodes, cur, id, a);
  }

  lemma StampTwice(vs: seq<NodeVer>, cur: nat, a: Attr, b: Attr)
    ensures var s := Stamp(vs, cur, a); s[..|s| - 1] + [NodeVer(cur, b)] == Stamp(vs, cur, b)
  {
  }

  /** link's answer from the types its handles read; a handle that resolves to nothing reads as a file. */
  ghost function LinkVerdict(fs: Fs, dir: Handle, name: Name, child: Handle): Error {
    if name == SNAPSHOT_NAME then INVAL
    else if AttrSeen(fs, dir).typ != DIR then NOTDIR
    else if AttrSeen(fs, child).typ == DIR && Reaches(fs.live, child.id, dir.id) then INVAL
    else if Edge(dir.id, name) in fs.live.links then EXIST
    else OK
  }

  /** A handle of any view that resolves names a live node, of the type the handle reads. */
  lemma ResolvedIsLive(fs: Fs, h: Handle)
    requires Healthy(fs) && Resolves(fs, h) && fs.next <= TWO63
    ensures h.id in fs.live.nodes && h.id < fs.next && !IsSnapDir(h.id)
    ensures AttrSeen(fs, h).typ == fs.live.nodes[h.id].typ
  {
    var g := Resolve(fs, h.snap);
    var k := if g <= fs.Cur() then g else fs.Cur();
    assert fs.At(g) == fs.At(k) && fs.At(fs.Cur()) == fs.live;
    assert KeptBetween(fs, k, fs.Cur());
  }

  /** When link's two verdicts agree. The oracle reads both types through the handles and never misses a node:
      the directory must exist and, if it is one, be one in its handle's view too; so must the child, unless the
      oracle's skipped cycle check would have passed. */
  ghost predicate LinkAgrees(fs: Fs, dir: Handle, name: Name, child: Handle) {
    name == SNAPSHOT_NAME
    || (dir.id in fs.live.nodes && (IsDir(fs.live, dir.id) ==> Resolves(fs, dir) && ChildAgrees(fs, dir, child)))
  }

  ghost predicate ChildAgrees(fs: Fs, dir: Handle, child: Handle) {
    child.id in fs.live.nodes
    && (Resolves(fs, child) || !(IsDir(fs.live, child.id) && Reaches(fs.live, child.id, dir.id)))
  }

  lemma LinkVerdictsIff(fs: Fs, dir: Handle, name: Name, child: Handle)
    requires Healthy(fs) && fs.next <= TWO63
    ensures LinkVerdict(fs, dir, name, child) == Linked(fs.live, dir.id, name, child.id).0 <==> LinkAgrees(fs, dir, name, child)
  {
    TypeRead(fs, dir);
    TypeRead(fs, child);
  }

  /** The type a handle reads: the node's when it resolves, else that of a file, or of a snapshot directory. */
  lemma TypeRead(fs: Fs, h: Handle)
    requires Healthy(fs) && fs.next <= TWO63
    ensures h.id in fs.live.nodes ==> h.id < fs.next && !IsSnapDir(h.id)
    ensures h.id in fs.live.nodes && Resolves(fs, h) ==> AttrSeen(fs, h).typ == fs.live.nodes[h.id].typ
    ensures h.id in fs.live.nodes && !Resolves(fs, h) ==> AttrSeen(fs, h).typ == REG
  {
    if Resolves(fs, h) { ResolvedIsLive(fs, h); }
  }

  lemma LiveIsWide(fs: Fs, id: nat)
    requires Healthy(fs) && fs.next <= TWO63 && id in fs.live.nodes
    ensures Wide(Handle(id, LATEST)) && Resolves(fs, Handle(id, LATEST))
  {
  }

  /** move's answer: the source is looked up live, the rest is link's. */
  ghost function MoveVerdict(fs: Fs, sdir: Handle, sn: Name, ddir: Handle, dn: Name): Error {
    match Get(fs.live.links, Edge(sdir.id, sn))
    case None => NOENT
    case Some(c) => LinkVerdict(fs, ddir, dn, Handle(c, LATEST))
  }

  /** When move's two verdicts agree: nothing to move, or a destination link would be judged alike. */
  ghost predicate MoveAgrees(fs: Fs, sdir: Handle, sn: Name, ddir: Handle, dn: Name) {
    Edge(sdir.id, sn) in fs.live.links && dn != SNAPSHOT_NAME ==>
      ddir.id in fs.live.nodes && (IsDir(fs.live, ddir.id) ==> Resolves(fs, ddir))
  }

  lemma MoveVerdictsIff(fs: Fs, sdir: Handle, sn: Name, ddir: Handle, dn: Name)
    requires Healthy(fs) && fs.next <= TWO63
    ensures MoveVerdict(fs, sdir, sn, ddir, dn) == Moved(fs.live, sdir.id, sn, ddir.id, dn).0 <==> MoveAgrees(fs, sdir, sn, ddir, dn)
    ensures Edge(sdir.id, sn) in fs.live.links ==>
      (MoveAgrees(fs, sdir, sn, ddir, dn) <==> LinkAgrees(fs, ddir, dn, Handle(fs.live.links[Edge(sdir.id, sn)], LATEST)))
  {
    LinkEnds(fs, Edge(sdir.id, sn));
    MovedCases(fs.live, sdir.id, sn, ddir.id, dn);
    if Edge(sdir.id, sn) in fs.live.links {
      var c := fs.live.links[Edge(sdir.id, sn)];
      LiveIsWide(fs, c);
      LinkVerdictsIff(fs, ddir, dn, Handle(c, LATEST));
    }
  }

  /** The guarded setters' answer, from the type the handle reads. */
  ghost function PayloadVerdict(fs: Fs, h: Handle, p: Payload): Error {
    if Accepts(AttrSeen(fs, h).typ, p) then OK else INVAL
  }

  /** When a guarded setter's two verdicts agree: the node exists, and what its handle reads, a file when it does
      not resolve, is as acceptable as the node itself. */
  ghost predicate PayloadAgrees(fs: Fs, h: Handle, p: Payload) {
    h.id in fs.live.nodes && (Resolves(fs, h) || (Accepts(REG, p) <==> Accepts(fs.live.nodes[h.id].typ, p)))
  }

  lemma PayloadIff(fs: Fs, h: Handle, p: Payload)
    requires Healthy(fs) && fs.next <= TWO63
    ensures PayloadVerdict(fs, h, p) == Step(fs, SetPayload(h.id, p)).1.err <==> PayloadAgrees(fs, h, p)
  {
    TypeRead(fs, h);
  }

  lemma VerdictsAgree(fs: Fs, dir: Handle, name: Name, child: Handle, s: (Fs, Outcome))
    requires Healthy(fs) && LinkAgrees(fs, dir, name, child) && fs.next <= TWO63
    requires s == Step(fs, Link(dir.id, name, child.id))
    ensures LinkVerdict(fs, dir, name, child) == s.1.err && s.1.id == 0 && (s.1.err != OK ==> s.0 == fs)
    ensures s.1.err == OK ==> Attached(fs, Edge(dir.id, name), child.id, s.0)
  {
    LinkVerdictsIff(fs, dir, name, child);
    StepHealthy(fs, Link(dir.id, name, child.id));
  }

  /** A live link leaves a live directory for a live node that counts it. */
  lemma LinkEnds(fs: Fs, e: Edge)
    requires Healthy(fs)
    ensures e in fs.live.links ==>
      var c := fs.live.links[e];
      e.dir in fs.live.nodes && c in fs.live.nodes && fs.live.nodes[c].nlink > 0
  {
    var v := fs.live;
    assert fs.At(fs.Cur()) == v && SoundAt(fs, fs.Cur());
    if e in v.links {
      assert LinkSound(v, e);
      var c := v.links[e];
      assert CountsLinks(v, c) && e in Incoming(v, c);
    }
  }

  lemma DirChildListed(fs: Fs, n: nat, es: seq<Entry>, y: nat)
    requires Healthy(fs) && EntriesOf(fs.live, n, es)
    ensures Child(fs.live, n, y) <==> IsDir(fs.live, y) && ListedBefore(es, |es|, y)
  {
    var v := fs.live;
    assert fs.At(fs.Cur()) == v && SoundAt(fs, fs.Cur());
    if es != [] {
      assert es[0] in es;
      assert LinkSound(v, Edge(n, es[0].name));
    }
    if IsDir(v, n) { ChildIffListed(v, n, es, y); }
  }

  lemma NamesListed(names: map<nat, set<Name>>, links: Lifetimes, cur: nat, fs: Fs, dir: nat, g: nat)
    requires LinksShow(links, cur, fs) && NamesCover(names, links)
    ensures forall n :: Edge(dir, n) in fs.At(g).links ==> dir in names && n in names[dir]
  {
    forall n | Edge(dir, n) in fs.At(g).links
      ensures dir in names && n in names[dir]
    {
      assert LinkShown(links, fs, Edge(dir, n), g);
      assert NameListed(names, Edge(dir, n));
    }
  }

  lemma LinkDirs(links: Lifetimes, cur: nat, fs: Fs)
    requires LinksShow(links, cur, fs) && fs.next <= TWO63
    ensures forall e :: e in links.Keys ==> e.dir < TWO64
  {
  }

  // ---- containers ----

  ghost predicate BoundBefore(links: Lifetimes, order: seq<Edge>, n: nat, id: nat, g: nat, d: nat) {
    exists i :: 0 <= i < n && i < |order| && BoundAt(links, order[i], id, g, d)
  }

  ghost predicate BoundAt(links: Lifetimes, e: Edge, id: nat, g: nat, d: nat) {
    e.dir == d && ChildOf(links, e, g) == Some(id)
  }

  lemma BoundNext(links: Lifetimes, order: seq<Edge>, i: nat, id: nat, g: nat, d: nat)
    requires i < |order|
    ensures BoundBefore(links, order, i + 1, id, g, d) <==>
      BoundBefore(links, order, i, id, g, d) || BoundAt(links, order[i], id, g, d)
  {
  }

  lemma ContainedIn(links: Lifetimes, cur: nat, fs: Fs, g: nat, order: seq<Edge>, id: nat, d: nat)
    requires LinksShow(links, cur, fs) && forall e :: e in order <==> e in links
    ensures BoundBefore(links, order, |order|, id, g, d) <==> d in Containers(fs.At(g), id)
  {
    var v := fs.At(g);
    if BoundBefore(links, order, |order|, id, g, d) {
      var i :| 0 <= i < |order| && BoundAt(links, order[i], id, g, d);
      assert LinkShown(links, fs, order[i], g);
      assert order[i].dir in Containers(v, id);
    }
    if d in Containers(v, id) {
      var e :| e in v.links && v.links[e] == id && e.dir == d;
      assert LinkShown(links, fs, e, g);
      var i :| 0 <= i < |order| && order[i] == e;
      assert BoundAt(links, order[i], id, g, d);
    }
  }

  /** No view holds a node under a snapshot directory's id. */
  lemma NoSnapNode(fs: Fs, g: nat, id: nat)
    requires Healthy(fs) && fs.next <= TWO63
    ensures IsSnapDir(id) ==> id !in fs.At(g).nodes
  {
    var k := if g <= fs.Cur() then g else fs.Cur();
    assert fs.At(g) == fs.At(k) && fs.At(fs.Cur()) == fs.live;
    assert KeptBetween(fs, k, fs.Cur());
  }

  // ---- candidates ----

  ghost predicate TouchedAmong(changes: map<nat, set<nat>>, order: seq<nat>, n: nat, id: nat, ra: nat, rb: nat) {
    exists i :: 0 <= i < n && i < |order| && TouchedWithin(changes, order[i], id, ra, rb)
  }

  ghost predicate TouchedWithin(changes: map<nat, set<nat>>, s: nat, id: nat, ra: nat, rb: nat) {
    ra < s <= rb && VersionTouched(changes, id, s)
  }

  lemma TouchedNext(changes: map<nat, set<nat>>, order: seq<nat>, i: nat, id: nat, ra: nat, rb: nat)
    requires i < |order|
    ensures TouchedAmong(changes, order, i + 1, id, ra, rb) <==>
      TouchedAmong(changes, order, i, id, ra, rb) || TouchedWithin(changes, order[i], id, ra, rb)
  {
  }

  lemma TouchedAll(changes: map<nat, set<nat>>, order: seq<nat>, id: nat, ra: nat, rb: nat)
    requires forall s :: s in order <==> s in changes
    ensures TouchedAmong(changes, order, |order|, id, ra, rb) <==> exists s :: ra < s <= rb && VersionTouched(changes, id, s)
  {
    if s :| ra < s <= rb && VersionTouched(changes, id, s) {
      var i :| 0 <= i < |order| && order[i] == s;
      assert TouchedWithin(changes, order[i], id, ra, rb);
    }
  }

  /** Without a version in (a, b], both views read the same one. */
  lemma {:induction false} EffUnwritten(vs: seq<NodeVer>, a: nat, b: nat)
    requires a <= b && forall i :: 0 <= i < |vs| ==> !(a < vs[i].snap <= b)
    ensures Eff(vs, a) == Eff(vs, b)
  {
    if vs != [] { EffUnwritten(vs[..|vs| - 1], a, b); }
  }

  /** The touched ids cover every node that differs between two views. */
  lemma TouchedCover(nodes: Versions, changes: map<nat, set<nat>>, cur: nat, fs: Fs, a: nat, b: nat, cand: set<nat>)
    requires NodesShow(nodes, cur, fs) && ChangesCover(changes, nodes) && a <= b && Healthy(fs) && fs.next <= TWO63
    requires forall id :: id in cand <==> exists s :: a < s <= b && VersionTouched(changes, id, s)
    ensures Collect(fs.At(a), fs.At(b), Numbers.Sorted(cand)) == Observations.DiffNodes(fs.At(a), fs.At(b))
  {
    var v, w := fs.At(a), fs.At(b);
    var all := v.nodes.Keys + w.nodes.Keys;
    forall id | id !in cand
      ensures ClassifyIn(v, w, id) == None
    {
      assert NodeShown(nodes, fs, id, a) && NodeShown(nodes, fs, id, b);
      NoSnapNode(fs, a, id);
      NoSnapNode(fs, b, id);
      if id in nodes {
        forall i: nat | i < |nodes[id]|
          ensures !(a < nodes[id][i].snap <= b)
        {
          assert VersionCovered(changes, nodes, id, i);
        }
        EffUnwritten(nodes[id], a, b);
      }
    }
    CollectSets(v, w, cand, all + cand);
    CollectSets(v, w, all, all + cand);
  }

  predicate Rebound(e: Edge, ca: Option<nat>, cb: Option<nat>, p: PathDiff) {
    Edge(p.parent, p.name) == e &&
    match p.change
    case ADDED => cb == Some(p.child) && ca != Some(p.child)
    case DROPPED => ca == Some(p.child) && cb != Some(p.child)
  }

  /** The reports of one link come after those of the links before it. */
  lemma LinkLast(order: seq<Edge>, i: nat, ps: seq<PathDiff>, more: seq<PathDiff>)
    requires i < |order| && forall j, k :: EdgeBefore(order, j, k)
    requires InOracleOrder(ps) && InOracleOrder(more)
    requires forall p :: p in ps ==> Edge(p.parent, p.name) in order[..i]
    requires forall p :: p in more ==> Edge(p.parent, p.name) == order[i]
    ensures InOracleOrder(ps + more)
  {
    forall p, q | p in ps && q in more
      ensures OracleBefore(p, q)
    {
      var j :| 0 <= j < i && order[..i][j] == Edge(p.parent, p.name);
      assert EdgeBefore(order, j, i);
      LessIrreflexive(p.name);
    }
    OracleOrderJoins(ps, more);
  }

  method CompareBinding(e: Edge, ca: Option<nat>, cb: Option<nat>) returns (ps: seq<PathDiff>)
    ensures (forall p :: p in ps <==> Rebound(e, ca, cb, p)) && InOracleOrder(ps)
  {
    if ca.None? && cb.Some? { return [PathDiff(ADDED, e.dir, e.name, cb.value)]; }
    if ca.Some? && cb.None? { return [PathDiff(DROPPED, e.dir, e.name, ca.value)]; }
    if ca.Some? && cb.Some? && ca != cb {
      return [PathDiff(DROPPED, e.dir, e.name, ca.value), PathDiff(ADDED, e.dir, e.name, cb.value)];
    }
    return [];
  }

  // ---- statistics ----

  ghost function IdsIn(ids: seq<nat>, n: nat): set<nat>
    requires n <= |ids|
  {
    set i | 0 <= i < n :: ids[i]
  }

  lemma IdsInNext(ids: seq<nat>, i: nat)
    requires Numbers.Ascending(ids) && i < |ids|
    ensures IdsIn(ids, i + 1) == IdsIn(ids, i) + {ids[i]} && ids[i] !in IdsIn(ids, i)
  {
    assert ids[i] in IdsIn(ids, i + 1);
  }

  ghost function BoundIn(v: View, order: seq<Edge>, n: nat): set<Edge>
    requires n <= |order|
  {
    set i | 0 <= i < n && order[i] in v.links :: order[i]
  }

  lemma BoundInNext(v: View, order: seq<Edge>, i: nat)
    requires i < |order| && forall j, k :: EdgeBefore(order, j, k)
    ensures |BoundIn(v, order, i + 1)| == |BoundIn(v, order, i)| + (if order[i] in v.links then 1 else 0)
  {
    forall j | 0 <= j < i
      ensures order[j] != order[i]
    {
      assert EdgeBefore(order, j, i);
      LessIrreflexive(order[i].name);
    }
    if order[i] in v.links {
      assert BoundIn(v, order, i + 1) == BoundIn(v, order, i) + {order[i]};
    } else {
      assert BoundIn(v, order, i + 1) == BoundIn(v, order, i);
    }
  }

  /** Every interval live at g; there is at most one. */
  method CountLive(ivs: seq<LinkIv>, ghost cur: nat, g: nat) returns (n: nat)
    requires IvsOk(ivs, cur)
    ensures n == if ChildIn(ivs, g).Some? then 1 else 0
  {
    n := 0;
    var i := 0;
    while i < |ivs|
      invariant 0 <= i <= |ivs|
      invariant n == 0 ==> forall j :: 0 <= j < i ==> !LiveAt(ivs[j], g)
      invariant n != 0 ==> n == 1 && exists j :: 0 <= j < i && LiveAt(ivs[j], g)
    {
      if LiveAt(ivs[i], g) {
        ChildWhenLive(ivs, cur, g, i);
        n := n + 1;
      }
      i := i + 1;
    }
    if n == 0 {
      ChildWhenDead(ivs, g);
    } else {
      var j :| 0 <= j < |ivs| && LiveAt(ivs[j], g);
      ChildWhenLive(ivs, cur, g, j);
    }
  }

  lemma AllCounted(nodes: Versions, links: Lifetimes, cur: nat, fs: Fs, g: nat, ids: seq<nat>, order: seq<Edge>)
    requires NodesShow(nodes, cur, fs) && LinksShow(links, cur, fs) && Healthy(fs) && fs.next <= TWO63
    requires forall id :: id in ids <==> id in nodes
    requires forall e :: e in order <==> e in links
    ensures BoundIn(fs.At(g), order, |order|) == fs.At(g).links.Keys && |fs.At(g).links.Keys| == |fs.At(g).links|
    ensures forall t: Type :: AliveAmong(fs.At(g), IdsIn(ids, |ids|), t) == AliveAmong(fs.At(g), fs.At(g).nodes.Keys, t)
  {
    var v := fs.At(g);
    forall e | e in v.links
      ensures e in BoundIn(v, order, |order|)
    {
      assert LinkShown(links, fs, e, g);
      var i :| 0 <= i < |order| && order[i] == e;
    }
    forall id | id in v.nodes
      ensures id in IdsIn(ids, |ids|)
    {
      assert NodeShown(nodes, fs, id, g);
      NoSnapNode(fs, g, id);
      var i :| 0 <= i < |ids| && ids[i] == id;
    }
  }
}
