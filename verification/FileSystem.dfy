/**
 The file system both engines present to their callers: a graph of nodes and named links, with one
 full copy of it per sealed snapshot. Nothing here is versioned, shared or indexed; the two engines
 are shown to be observably this.
 */
module FileSystem {
  import opened Keys
  import opened Options
  import Numbers

  type Name = Bytes

  // ".snapshot": reserved for the synthesized snapshot directory.
  const SNAPSHOT_NAME: Name := [46, 115, 110, 97, 112, 115, 104, 111, 116]

  // A handle's view that follows the live file system.
  const LATEST: nat := TWO64 - 1

  const ROOT: nat := 1

  datatype Type = REG | DIR | LNK | BLK | CHR | FIFO | SOCK

  const TYPES: set<Type> := {REG, DIR, LNK, BLK, CHR, FIFO, SOCK}

  datatype Error = OK | NOENT | EXIST | NOTDIR | INVAL

  datatype Attr = Attr(typ: Type, mode: nat, uid: nat, gid: nat, nlink: nat, size: nat,
                       atime: nat, mtime: nat, ctime: nat, atimeNs: nat, mtimeNs: nat,
                       spec: nat, blob: Bytes)

  function DefaultMode(t: Type): nat {
    match t
    case DIR => 0x1ED  // 0755
    case LNK => 0x1FF  // 0777
    case _ => 0x1A4    // 0644
  }

  function NewAttr(t: Type, blob: Bytes, spec: nat, now: nat): Attr {
    Attr(t, DefaultMode(t), 0, 0, 0, 0, now, now, now, 0, 0, spec, blob)
  }

  // ---- attribute setters ----

  datatype Change =
    | Mode(x: nat) | Uid(x: nat) | Gid(x: nat) | Size(x: nat)
    | Atime(x: nat) | Mtime(x: nat) | Ctime(x: nat) | AtimeNs(x: nat) | MtimeNs(x: nat)

  function Changed(a: Attr, c: Change): Attr {
    match c
    case Mode(x) => a.(mode := x)
    case Uid(x) => a.(uid := x)
    case Gid(x) => a.(gid := x)
    case Size(x) => a.(size := x)
    case Atime(x) => a.(atime := x, atimeNs := 0)
    case Mtime(x) => a.(mtime := x, mtimeNs := 0)
    case Ctime(x) => a.(ctime := x)
    case AtimeNs(x) => a.(atimeNs := x)
    case MtimeNs(x) => a.(mtimeNs := x)
  }

  // The type-guarded setters: setContent, setTarget, setRdev, setContentSeed.
  datatype Payload = Content(blob: Bytes) | Target(blob: Bytes) | Rdev(spec: nat) | Seed(spec: nat)

  predicate Accepts(t: Type, p: Payload) {
    match p
    case Content(_) => t == REG
    case Target(_) => t == LNK
    case Rdev(_) => t == BLK || t == CHR
    case Seed(_) => t == REG
  }

  function Loaded(a: Attr, p: Payload): Attr {
    match p
    case Content(b) => a.(blob := b)
    case Target(b) => a.(blob := b)
    case Rdev(s) => a.(spec := s)
    case Seed(s) => a.(spec := s)
  }

  // ---- one view ----

  datatype Edge = Edge(dir: nat, name: Name)

  datatype View = View(nodes: map<nat, Attr>, links: map<Edge, nat>)

  const EMPTY: View := View(map[], map[])

  predicate IsDir(v: View, x: nat) {
    x in v.nodes && v.nodes[x].typ == DIR
  }

  /** b is a directory linked, under any name, from directory a. */
  ghost predicate Child(v: View, a: nat, b: nat) {
    IsDir(v, a) && IsDir(v, b) && exists n :: Edge(a, n) in v.links && v.links[Edge(a, n)] == b
  }

  ghost predicate Walk(v: View, p: seq<nat>) {
    forall i :: 0 <= i < |p| - 1 ==> Child(v, p[i], p[i + 1])
  }

  ghost predicate WalkFromTo(v: View, p: seq<nat>, a: nat, b: nat) {
    |p| > 0 && p[0] == a && p[|p| - 1] == b && Walk(v, p)
  }

  /** A possibly empty chain of directory links leads from a to b. */
  ghost predicate Reaches(v: View, a: nat, b: nat) {
    exists p :: WalkFromTo(v, p, a, b)
  }

  ghost predicate Acyclic(v: View) {
    forall a, b :: Child(v, a, b) ==> !Reaches(v, b, a)
  }

  function Incoming(v: View, c: nat): set<Edge> {
    set e | e in v.links && v.links[e] == c
  }

  ghost predicate CountsLinks(v: View, c: nat)
    requires c in v.nodes
  {
    v.nodes[c].nlink == |Incoming(v, c)| + (if c == ROOT then 1 else 0)
  }

  ghost predicate LinkSound(v: View, e: Edge)
    requires e in v.links
  {
    IsDir(v, e.dir) && v.links[e] in v.nodes && e.name != SNAPSHOT_NAME
  }

  /** What every reachable view satisfies. */
  ghost predicate Sound(v: View) {
    && IsDir(v, ROOT)
    && (forall e :: e in v.links ==> LinkSound(v, e))
    && (forall c {:trigger CountsLinks(v, c)} :: c in v.nodes ==> CountsLinks(v, c))
    && Acyclic(v)
  }

  // ---- namespace operations on the live view ----

  ghost function Linked(v: View, dir: nat, name: Name, child: nat): (r: (Error, View)) {
    if name == SNAPSHOT_NAME then (INVAL, v)
    else if dir !in v.nodes then (NOENT, v)
    else if v.nodes[dir].typ != DIR then (NOTDIR, v)
    else if child !in v.nodes then (NOENT, v)
    else if v.nodes[child].typ == DIR && Reaches(v, child, dir) then (INVAL, v)
    else if Edge(dir, name) in v.links then (EXIST, v)
    else (OK, AddLink(v, dir, name, child))
  }

  function AddLink(v: View, dir: nat, name: Name, child: nat): View
    requires child in v.nodes
  {
    View(v.nodes[child := v.nodes[child].(nlink := v.nodes[child].nlink + 1)],
         v.links[Edge(dir, name) := child])
  }

  function Unlinked(v: View, dir: nat, name: Name): (r: (Error, View)) {
    if dir !in v.nodes || Edge(dir, name) !in v.links then (NOENT, v)
    else (OK, DropLink(v, dir, name))
  }

  function DropLink(v: View, dir: nat, name: Name): View
    requires Edge(dir, name) in v.links
  {
    var c := v.links[Edge(dir, name)];
    View(if c in v.nodes then v.nodes[c := Released(v.nodes[c])] else v.nodes, v.links - {Edge(dir, name)})
  }

  function Released(a: Attr): Attr {
    if a.nlink == 0 then a else a.(nlink := a.nlink - 1)
  }

  /** Link at the destination first, then unlink the source. */
  ghost function Moved(v: View, sdir: nat, sn: Name, ddir: nat, dn: Name): (r: (Error, View)) {
    if sdir !in v.nodes || Edge(sdir, sn) !in v.links then (NOENT, v)
    else
      var l := Linked(v, ddir, dn, v.links[Edge(sdir, sn)]);
      if l.0 != OK then l else Unlinked(l.1, sdir, sn)
  }

  function Put(v: View, id: nat, a: Attr): View {
    v.(nodes := v.nodes[id := a])
  }

  // ---- the whole file system: sealed copies plus the live view ----

  datatype Fs = Fs(sealed: seq<View>, live: View, next: nat, clock: nat) {
    function Cur(): nat { |sealed| + 1 }

    /** The view at snapshot g; every g from Cur() on shows the live one. */
    function At(g: nat): View {
      if g == 0 then EMPTY else if g <= |sealed| then sealed[g - 1] else live
    }
  }

  function Init(clock: nat): Fs {
    Fs([], View(map[ROOT := NewAttr(DIR, [], 0, clock).(nlink := 1)], map[]), 2, clock)
  }

  datatype Op =
    | Create(typ: Type, blob: Bytes, spec: nat)
    | Link(dir: nat, name: Name, child: nat)
    | Unlink(dir: nat, name: Name)
    | Move(sdir: nat, sn: Name, ddir: nat, dn: Name)
    | SetAttr(id: nat, change: Change)
    | SetPayload(id: nat, payload: Payload)
    | Snapshot
    | SetTime(t: nat)

  // The error code, and the id minted by a create or a snapshot.
  datatype Outcome = Outcome(err: Error, id: nat)

  ghost function Step(fs: Fs, op: Op): (r: (Fs, Outcome)) {
    match op
    case Create(t, b, s) =>
      (fs.(live := Put(fs.live, fs.next, NewAttr(t, b, s, fs.clock)), next := fs.next + 1), Outcome(OK, fs.next))
    case Link(d, n, c) =>
      var l := Linked(fs.live, d, n, c);
      (fs.(live := l.1), Outcome(l.0, 0))
    case Unlink(d, n) =>
      var l := Unlinked(fs.live, d, n);
      (fs.(live := l.1), Outcome(l.0, 0))
    case Move(sd, sn, dd, dn) =>
      var l := Moved(fs.live, sd, sn, dd, dn);
      (fs.(live := l.1), Outcome(l.0, 0))
    case SetAttr(id, c) =>
      if id !in fs.live.nodes then (fs, Outcome(OK, 0))
      else (fs.(live := Put(fs.live, id, Changed(fs.live.nodes[id], c))), Outcome(OK, 0))
    case SetPayload(id, p) =>
      if id !in fs.live.nodes then (fs, Outcome(NOENT, 0))
      else if !Accepts(fs.live.nodes[id].typ, p) then (fs, Outcome(INVAL, 0))
      else (fs.(live := Put(fs.live, id, Loaded(fs.live.nodes[id], p))), Outcome(OK, 0))
    case Snapshot =>
      (fs.(sealed := fs.sealed + [fs.live]), Outcome(OK, fs.Cur()))
    case SetTime(t) =>
      (fs.(clock := t), Outcome(OK, 0))
  }

  ghost function Run(fs: Fs, ops: seq<Op>): Fs
    decreases |ops|
  {
    if ops == [] then fs else Run(Step(fs, ops[0]).0, ops[1..])
  }

  /** Later views keep every node of earlier ones, with its type. */
  ghost predicate Persists(v: View, w: View) {
    forall id :: id in v.nodes ==> id in w.nodes && w.nodes[id].typ == v.nodes[id].typ
  }

  ghost predicate SoundAt(fs: Fs, g: nat) {
    1 <= g <= fs.Cur() ==> Sound(fs.At(g))
  }

  ghost predicate KeptBetween(fs: Fs, g: nat, h: nat) {
    g <= h <= fs.Cur() ==> Persists(fs.At(g), fs.At(h))
  }

  /** Every view, sealed or live, is sound, and nodes neither vanish nor change type from one to the next. */
  ghost predicate Healthy(fs: Fs) {
    && fs.next > ROOT
    && (forall g: nat {:trigger SoundAt(fs, g)} :: SoundAt(fs, g))
    && (forall g: nat, h: nat {:trigger KeptBetween(fs, g, h)} :: KeptBetween(fs, g, h))
    && (forall id :: id in fs.live.nodes ==> ROOT <= id < fs.next)
  }

  // ---- reachability ----

  lemma ReachesSelf(v: View, a: nat)
    ensures Reaches(v, a, a)
  {
    assert WalkFromTo(v, [a], a, a);
  }

  lemma ReachesStep(v: View, a: nat, b: nat, c: nat)
    requires Child(v, a, b) && Reaches(v, b, c)
    ensures Reaches(v, a, c)
  {
    var p :| WalkFromTo(v, p, b, c);
    assert WalkFromTo(v, [a] + p, a, c);
  }

  lemma {:induction false} WalkJoins(v: View, p: seq<nat>, a: nat, b: nat, c: nat)
    requires WalkFromTo(v, p, a, b) && Reaches(v, b, c)
    ensures Reaches(v, a, c)
    decreases |p|
  {
    if |p| > 1 {
      assert WalkFromTo(v, p[1..], p[1], b);
      WalkJoins(v, p[1..], p[1], b, c);
      assert Child(v, p[0], p[1]);
      ReachesStep(v, a, p[1], c);
    }
  }

  lemma ReachesTransitive(v: View, a: nat, b: nat, c: nat)
    requires Reaches(v, a, b) && Reaches(v, b, c)
    ensures Reaches(v, a, c)
  {
    var p :| WalkFromTo(v, p, a, b);
    WalkJoins(v, p, a, b, c);
  }

  lemma ReachesExtend(v: View, a: nat, b: nat, c: nat)
    requires Reaches(v, a, b) && Child(v, b, c)
    ensures Reaches(v, a, c)
  {
    ReachesSelf(v, c);
    ReachesStep(v, b, c, c);
    ReachesTransitive(v, a, b, c);
  }

  ghost predicate ChildrenWithin(v: View, x: nat, seen: set<nat>, st: seq<nat>) {
    forall y :: Child(v, x, y) ==> y in seen || y in st
  }

  /** Reachability grows with the child relation. */
  lemma ReachesMonotone(v: View, w: View, a: nat, c: nat)
    requires Reaches(v, a, c)
    requires forall x, y :: Child(v, x, y) ==> Child(w, x, y)
    ensures Reaches(w, a, c)
  {
    var p :| WalkFromTo(v, p, a, c);
    assert WalkFromTo(w, p, a, c);
  }

  lemma AcyclicShrinks(v: View, w: View)
    requires Acyclic(w)
    requires forall x, y :: Child(v, x, y) ==> Child(w, x, y)
    ensures Acyclic(v)
  {
    forall a, b | Child(v, a, b)
      ensures !Reaches(v, b, a)
    {
      if Reaches(v, b, a) { ReachesMonotone(v, w, b, a); }
    }
  }

  /** A chain in the graph with one more edge d -> c either avoids the edge or splits at its first use. */
  lemma {:induction false} ChainSplits(v: View, w: View, d: nat, c: nat, p: seq<nat>, a: nat, b: nat)
    requires forall x, y :: Child(w, x, y) ==> Child(v, x, y) || (x == d && y == c)
    requires WalkFromTo(w, p, a, b)
    ensures Reaches(v, a, b) || (Reaches(v, a, d) && Reaches(v, c, b))
    decreases |p|
  {
    if |p| == 1 {
      ReachesSelf(v, a);
    } else {
      assert Child(w, p[0], p[1]);
      assert WalkFromTo(w, p[1..], p[1], b);
      ChainSplits(v, w, d, c, p[1..], p[1], b);
      ReachesSelf(v, d);
      if Child(v, a, p[1]) {
        if Reaches(v, p[1], b) { ReachesStep(v, a, p[1], b); } else { ReachesStep(v, a, p[1], d); }
      }
    }
  }

  /** Adding d -> c keeps the graph acyclic when c does not already reach d. */
  lemma AcyclicGrows(v: View, w: View, d: nat, c: nat)
    requires Acyclic(v) && !Reaches(v, c, d)
    requires forall x, y :: Child(w, x, y) ==> Child(v, x, y) || (x == d && y == c)
    ensures Acyclic(w)
  {
    forall a, b | Child(w, a, b)
      ensures !Reaches(w, b, a)
    {
      if Reaches(w, b, a) {
        var p :| WalkFromTo(w, p, b, a);
        ChainSplits(v, w, d, c, p, b, a);
        if Child(v, a, b) {
          assert Reaches(v, b, d) && Reaches(v, c, a);
          ReachesStep(v, a, b, d);
          ReachesTransitive(v, c, a, d);
        }
        assert false;
      }
    }
  }

  /** A set closed under directory links that holds a and not c shows that a does not reach c. */
  lemma {:induction false} ClosedWalk(v: View, closed: set<nat>, p: seq<nat>)
    requires Walk(v, p) && p != [] && p[0] in closed
    requires forall x, y :: x in closed && Child(v, x, y) ==> y in closed
    ensures p[|p| - 1] in closed
    decreases |p|
  {
    if |p| > 1 {
      assert Child(v, p[0], p[1]);
      ClosedWalk(v, closed, p[1..]);
    }
  }

  lemma ClosedUnreachable(v: View, closed: set<nat>, a: nat, c: nat)
    requires a in closed && c !in closed
    requires forall x, y :: x in closed && Child(v, x, y) ==> y in closed
    ensures !Reaches(v, a, c)
  {
    if Reaches(v, a, c) {
      var p :| WalkFromTo(v, p, a, c);
      ClosedWalk(v, closed, p);
    }
  }

  // ---- each operation keeps a view sound ----

  /** The nodes of w are those of v, with their types, and perhaps one just minted. */
  ghost predicate Extends(v: View, w: View, minted: nat) {
    Persists(v, w) && forall id :: id in w.nodes ==> id in v.nodes || id == minted
  }

  lemma AddLinkCounts(v: View, dir: nat, name: Name, child: nat, c: nat)
    requires c in v.nodes && CountsLinks(v, c)
    requires child in v.nodes && Edge(dir, name) !in v.links
    ensures CountsLinks(AddLink(v, dir, name, child), c)
  {
    var w := AddLink(v, dir, name, child);
    var added := if c == child then {Edge(dir, name)} else {};
    assert Incoming(w, c) == Incoming(v, c) + added;
  }

  lemma AddLinkAcyclic(v: View, dir: nat, name: Name, child: nat)
    requires Acyclic(v) && child in v.nodes && Edge(dir, name) !in v.links
    requires IsDir(v, child) ==> !Reaches(v, child, dir)
    ensures Acyclic(AddLink(v, dir, name, child))
  {
    var w := AddLink(v, dir, name, child);
    forall x, y | Child(w, x, y)
      ensures IsDir(v, y) && (Child(v, x, y) || (x == dir && y == child))
    {
      var n :| Edge(x, n) in w.links && w.links[Edge(x, n)] == y;
      if Edge(x, n) != Edge(dir, name) { assert Edge(x, n) in v.links; }
    }
    if IsDir(v, child) {
      AcyclicGrows(v, w, dir, child);
    } else {
      AcyclicShrinks(w, v);
    }
  }

  lemma AddLinkSound(v: View, dir: nat, name: Name, child: nat)
    requires Sound(v) && Linked(v, dir, name, child).0 == OK
    ensures Sound(AddLink(v, dir, name, child))
  {
    var w := AddLink(v, dir, name, child);
    forall c | c in w.nodes
      ensures CountsLinks(w, c)
    {
      AddLinkCounts(v, dir, name, child, c);
    }
    AddLinkAcyclic(v, dir, name, child);
    forall f | f in w.links
      ensures LinkSound(w, f)
    {
      if f != Edge(dir, name) { assert LinkSound(v, f); }
    }
  }

  lemma DropLinkSound(v: View, dir: nat, name: Name)
    requires Sound(v) && Edge(dir, name) in v.links
    ensures Sound(DropLink(v, dir, name))
  {
    var w := DropLink(v, dir, name);
    var e := Edge(dir, name);
    assert LinkSound(v, e);
    forall c | c in w.nodes
      ensures CountsLinks(w, c)
    {
      assert CountsLinks(v, c);
      assert Incoming(w, c) == Incoming(v, c) - {e};
      if c == v.links[e] { assert e in Incoming(v, c); }
    }
    forall x, y | Child(w, x, y)
      ensures Child(v, x, y)
    {
      var n :| Edge(x, n) in w.links && w.links[Edge(x, n)] == y;
      assert Edge(x, n) in v.links;
    }
    AcyclicShrinks(w, v);
    forall f | f in w.links
      ensures LinkSound(w, f)
    {
      assert LinkSound(v, f);
    }
  }

  lemma LinkedSound(v: View, dir: nat, name: Name, child: nat)
    requires Sound(v)
    ensures Sound(Linked(v, dir, name, child).1)
    ensures Extends(v, Linked(v, dir, name, child).1, ROOT)
  {
    var l := Linked(v, dir, name, child);
    if l.0 == OK {
      AddLinkSound(v, dir, name, child);
      assert l.1 == AddLink(v, dir, name, child);
    } else {
      assert l.1 == v;
    }
  }

  lemma UnlinkedSound(v: View, dir: nat, name: Name)
    requires Sound(v)
    ensures Sound(Unlinked(v, dir, name).1)
    ensures Extends(v, Unlinked(v, dir, name).1, ROOT)
  {
    if Edge(dir, name) in v.links { DropLinkSound(v, dir, name); }
  }

  /** A move either fails and changes nothing, or is a link that succeeds followed by an unlink that does. */
  lemma MovedCases(v: View, sdir: nat, sn: Name, ddir: nat, dn: Name)
    ensures var m := Moved(v, sdir, sn, ddir, dn);
      if m.0 != OK then m.1 == v else
        && sdir in v.nodes && Edge(sdir, sn) in v.links
        && var l := Linked(v, ddir, dn, v.links[Edge(sdir, sn)]);
        l.0 == OK && m == Unlinked(l.1, sdir, sn) && m.0 == OK
  {
    if sdir in v.nodes && Edge(sdir, sn) in v.links {
      var l := Linked(v, ddir, dn, v.links[Edge(sdir, sn)]);
      if l.0 == OK { assert Edge(sdir, sn) in l.1.links && sdir in l.1.nodes; }
    }
  }

  lemma MovedSound(v: View, sdir: nat, sn: Name, ddir: nat, dn: Name)
    requires Sound(v)
    ensures Sound(Moved(v, sdir, sn, ddir, dn).1)
    ensures Extends(v, Moved(v, sdir, sn, ddir, dn).1, ROOT)
  {
    var m := Moved(v, sdir, sn, ddir, dn);
    MovedCases(v, sdir, sn, ddir, dn);
    if m.0 == OK {
      var l := Linked(v, ddir, dn, v.links[Edge(sdir, sn)]);
      LinkedSound(v, ddir, dn, v.links[Edge(sdir, sn)]);
      UnlinkedSound(l.1, sdir, sn);
    } else {
      assert m.1 == v;
    }
  }

  /** Changing or adding a node without links to it, keeping type and link count. */
  lemma PutSound(v: View, id: nat, a: Attr)
    requires Sound(v)
    requires id in v.nodes ==> v.nodes[id].typ == a.typ && v.nodes[id].nlink == a.nlink
    requires id !in v.nodes ==> a.nlink == 0 && id != ROOT
    ensures Sound(Put(v, id, a))
  {
    var w := Put(v, id, a);
    forall c | c in w.nodes
      ensures CountsLinks(w, c)
    {
      if c in v.nodes { assert CountsLinks(v, c); }
      assert Incoming(w, c) == Incoming(v, c);
      if c !in v.nodes {
        forall e | e in v.links
          ensures v.links[e] != c
        {
          assert LinkSound(v, e);
        }
        assert Incoming(v, c) == {};
      }
    }
    forall x, y | Child(w, x, y)
      ensures Child(v, x, y)
    {
      var n :| Edge(x, n) in w.links && w.links[Edge(x, n)] == y;
      assert LinkSound(v, Edge(x, n));
    }
    AcyclicShrinks(w, v);
    forall f | f in w.links
      ensures LinkSound(w, f)
    {
      assert LinkSound(v, f);
    }
  }

  lemma StepLiveLinks(fs: Fs, op: Op)
    requires Sound(fs.live) && (op.Link? || op.Unlink? || op.Move?)
    ensures Sound(Step(fs, op).0.live)
    ensures Extends(fs.live, Step(fs, op).0.live, ROOT)
  {
    match op
    case Link(d, n, c) => LinkedSound(fs.live, d, n, c);
    case Unlink(d, n) => UnlinkedSound(fs.live, d, n);
    case Move(sd, sn, dd, dn) => MovedSound(fs.live, sd, sn, dd, dn);
  }

  lemma StepLivePut(fs: Fs, id: nat, a: Attr, w: View)
    requires Sound(fs.live) && fs.next > ROOT && w == Put(fs.live, id, a)
    requires forall x :: x in fs.live.nodes ==> x < fs.next
    requires id in fs.live.nodes ==> fs.live.nodes[id].typ == a.typ && fs.live.nodes[id].nlink == a.nlink
    requires id !in fs.live.nodes ==> a.nlink == 0 && id == fs.next
    ensures Sound(w) && Extends(fs.live, w, id)
  {
    PutSound(fs.live, id, a);
  }

  /** What one operation does to the live view. */
  lemma StepLive(fs: Fs, op: Op, w: View)
    requires Sound(fs.live) && fs.next > ROOT && w == Step(fs, op).0.live
    requires forall x :: x in fs.live.nodes ==> x < fs.next
    ensures Sound(w) && Extends(fs.live, w, if op.Create? then fs.next else ROOT)
  {
    var v := fs.live;
    if op.Link? || op.Unlink? || op.Move? {
      StepLiveLinks(fs, op);
    } else if w != v {
      match op
      case Create(t, b, s) => StepLivePut(fs, fs.next, NewAttr(t, b, s, fs.clock), w);
      case SetAttr(id, c) => StepLivePut(fs, id, Changed(v.nodes[id], c), w);
      case SetPayload(id, p) => StepLivePut(fs, id, Loaded(v.nodes[id], p), w);
      case Snapshot =>
      case SetTime(_) =>
    }
  }

  lemma StepPersists(fs: Fs, fs': Fs, g: nat, h: nat)
    requires Healthy(fs) && g <= h <= fs'.Cur()
    requires Persists(fs.live, fs'.live)
    requires fs'.sealed == fs.sealed || fs'.sealed == fs.sealed + [fs.live]
    ensures Persists(fs'.At(g), fs'.At(h))
  {
    if g <= |fs.sealed| {
      assert fs'.At(g) == fs.At(g);
      assert KeptBetween(fs, g, fs.Cur());
      if h <= |fs.sealed| { assert fs'.At(h) == fs.At(h) && KeptBetween(fs, g, h); }
    }
  }

  lemma StepHealthy(fs: Fs, op: Op)
    requires Healthy(fs)
    ensures Healthy(Step(fs, op).0)
  {
    var fs' := Step(fs, op).0;
    assert fs.At(fs.Cur()) == fs.live && SoundAt(fs, fs.Cur());
    StepLive(fs, op, fs'.live);
    assert fs'.next >= fs.next && (fs'.sealed == fs.sealed || fs'.sealed == fs.sealed + [fs.live]);
    forall g: nat
      ensures SoundAt(fs', g)
    {
      assert SoundAt(fs, g);
      assert g <= |fs.sealed| ==> fs'.At(g) == fs.At(g);
    }
    forall g: nat, h: nat
      ensures KeptBetween(fs', g, h)
    {
      if g <= h <= fs'.Cur() { StepPersists(fs, fs', g, h); }
    }
  }

  lemma InitHealthy(clock: nat)
    ensures Healthy(Init(clock))
  {
    var v := Init(clock).live;
    assert Incoming(v, ROOT) == {};
    assert forall a, b :: !Child(v, a, b);
    assert Sound(v);
  }

  /** Every run keeps every view, sealed or live, acyclic with exact link counts. */
  lemma {:induction false} RunHealthy(fs: Fs, ops: seq<Op>)
    requires Healthy(fs)
    ensures Healthy(Run(fs, ops))
    decreases |ops|
  {
    if ops != [] {
      StepHealthy(fs, ops[0]);
      RunHealthy(Step(fs, ops[0]).0, ops[1..]);
    }
  }

  /** Snapshot isolation: no later run changes a view that is already sealed. */
  lemma {:induction false} SealedViewsNeverChange(fs: Fs, ops: seq<Op>, g: nat)
    requires g < fs.Cur()
    ensures fs.Cur() <= Run(fs, ops).Cur()
    ensures Run(fs, ops).At(g) == fs.At(g)
    decreases |ops|
  {
    if ops != [] {
      SealedViewsNeverChange(Step(fs, ops[0]).0, ops[1..], g);
    }
  }

  /** A failed operation changes nothing. */
  lemma FailedStepIsNoOp(fs: Fs, op: Op)
    requires Healthy(fs) && Step(fs, op).1.err != OK
    ensures Step(fs, op).0 == fs
  {
    assert SoundAt(fs, fs.Cur());
    if op.Move? { MovedCases(fs.live, op.sdir, op.sn, op.ddir, op.dn); }
  }
}
