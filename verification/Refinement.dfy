/**
 The differential argument: the versioned store and the reference engine, driven by the same calls,
 return the same outcomes and then answer every query alike, at every view. Where the two sources do
 differ, the exact condition is stated.
 */
module Refinement {
  import opened Keys
  import opened Options
  import opened FileSystem
  import opened Observations
  import opened Handles
  import opened Intervals
  import opened VersionedDb
  import MemStore
  import PrfsStore

  // ---- calls, as the interface takes them: on handles ----

  datatype Call =
    | Create(typ: Type, blob: Bytes, spec: nat)
    | Link(dir: Handle, name: Name, child: Handle)
    | Unlink(dir: Handle, name: Name)
    | Move(sdir: Handle, sn: Name, ddir: Handle, dn: Name)
    | SetAttr(h: Handle, change: Change)
    | SetPayload(h: Handle, payload: Payload)
    | Snapshot
    | SetTime(t: nat)

  function OpOf(c: Call): Op {
    match c
    case Create(t, b, s) => Op.Create(t, b, s)
    case Link(d, n, x) => Op.Link(d.id, n, x.id)
    case Unlink(d, n) => Op.Unlink(d.id, n)
    case Move(sd, sn, dd, dn) => Op.Move(sd.id, sn, dd.id, dn)
    case SetAttr(h, x) => Op.SetAttr(h.id, x)
    case SetPayload(h, p) => Op.SetPayload(h.id, p)
    case Snapshot => Op.Snapshot
    case SetTime(t) => Op.SetTime(t)
  }

  /** Ids and snapshots of 64 bits, and counters short of their width. */
  predicate Sized(fs: Fs, c: Call) {
    match c
    case Create(_, _, _) => fs.next < TWO63
    case Link(d, _, x) => Wide(d) && Wide(x)
    case Unlink(d, _) => Wide(d)
    case Move(sd, _, dd, _) => Wide(sd) && Wide(dd)
    case SetAttr(h, _) => Wide(h)
    case SetPayload(h, _) => Wide(h)
    case Snapshot => fs.Cur() + 1 < LATEST
    case SetTime(_) => true
  }

  /** The calls after which the engines cannot be told apart: exactly these, as TellApart shows. A setter must find its
      node, or a snapshot directory, which it does not change. */
  ghost predicate Agrees(fs: Fs, c: Call) {
    match c
    case Link(d, n, x) => MemStore.LinkAgrees(fs, d, n, x)
    case Move(sd, sn, dd, dn) => MemStore.MoveAgrees(fs, sd, sn, dd, dn)
    case SetAttr(h, _) => h.id in fs.live.nodes || IsSnapDir(h.id)
    case SetPayload(h, p) => MemStore.PayloadAgrees(fs, h, p)
    case _ => true
  }

  ghost predicate Legal(fs: Fs, c: Call) {
    Sized(fs, c) && Agrees(fs, c)
  }

  ghost predicate AllLegal(fs: Fs, cs: seq<Call>)
    decreases |cs|
  {
    cs == [] || (Legal(fs, cs[0]) && AllLegal(Step(fs, OpOf(cs[0])).0, cs[1..]))
  }

  ghost function Driven(fs: Fs, cs: seq<Call>): (Fs, seq<Outcome>)
    decreases |cs|
  {
    if cs == [] then (fs, [])
    else
      var s := Step(fs, OpOf(cs[0]));
      var rest := Driven(s.0, cs[1..]);
      (rest.0, [s.1] + rest.1)
  }

  /** The reference engine's answer to a call. */
  ghost function OracleError(fs: Fs, c: Call): Error {
    match c
    case Link(d, n, x) => MemStore.LinkVerdict(fs, d, n, x)
    case Unlink(d, n) => if Edge(d.id, n) in fs.live.links then OK else NOENT
    case Move(sd, sn, dd, dn) => MemStore.MoveVerdict(fs, sd, sn, dd, dn)
    case SetPayload(h, p) => MemStore.PayloadVerdict(fs, h, p)
    case _ => OK
  }

  method DriveStore(store: PrfsStore.PrfsStore, c: Call) returns (out: Outcome)
    requires store.Valid() && Sized(store.fs, c)
    modifies store
    ensures store.Valid() && (store.fs, out) == Step(old(store.fs), OpOf(c))
  {
    match c
    case Create(t, b, s) =>
      var h := store.Create(t, b, s);
      return Outcome(OK, h.id);
    case Link(d, n, x) =>
      var e := store.Link(d, n, x);
      return Outcome(e, 0);
    case Unlink(d, n) =>
      var e := store.Unlink(d, n);
      return Outcome(e, 0);
    case Move(sd, sn, dd, dn) =>
      var e := store.Move(sd, sn, dd, dn);
      return Outcome(e, 0);
    case SetAttr(h, x) =>
      store.SetAttr(h, x);
      return Outcome(OK, 0);
    case SetPayload(h, p) =>
      var e := store.SetPayload(h, p);
      return Outcome(e, 0);
    case Snapshot =>
      var v := store.Snapshot();
      return Outcome(OK, v);
    case SetTime(t) =>
      store.SetTime(t);
      return Outcome(OK, 0);
  }

  method DriveOracle(oracle: MemStore.MemStore, c: Call) returns (out: Outcome)
    requires oracle.Valid() && Sized(oracle.fs, c)
    modifies oracle
    ensures out.err == OracleError(old(oracle.fs), c)
    ensures c.SetAttr? ==> Ordered(oracle.nodes, oracle.cur) && oracle.cur == old(oracle.cur)
    ensures c.SetAttr? ==>
      oracle.nodes == MemStore.Rewritten(old(oracle.nodes), c.h.id, old(oracle.cur), a => Changed(a, c.change))
    ensures Agrees(old(oracle.fs), c) ==> oracle.Valid() && (oracle.fs, out) == Step(old(oracle.fs), OpOf(c))
  {
    match c
    case Create(t, b, s) =>
      var h := oracle.Create(t, b, s);
      return Outcome(OK, h.id);
    case Link(d, n, x) =>
      var e := oracle.Link(d, n, x);
      return Outcome(e, 0);
    case Unlink(d, n) =>
      MemStore.LinkEnds(oracle.fs, Edge(d.id, n));
      var e := oracle.Unlink(d, n);
      return Outcome(e, 0);
    case Move(sd, sn, dd, dn) =>
      var e := oracle.Move(sd, sn, dd, dn);
      return Outcome(e, 0);
    case SetAttr(h, x) =>
      oracle.SetAttr(h, x);
      return Outcome(OK, 0);
    case SetPayload(h, p) =>
      var e := oracle.SetPayload(h, p);
      return Outcome(e, 0);
    case Snapshot =>
      var v := oracle.Snapshot();
      return Outcome(OK, v);
    case SetTime(t) =>
      oracle.SetTime(t);
      return Outcome(OK, 0);
  }

  method DriveBoth(store: PrfsStore.PrfsStore, oracle: MemStore.MemStore, c: Call) returns (out: Outcome, out': Outcome)
    requires store.Valid() && oracle.Valid() && store.fs == oracle.fs && Legal(store.fs, c)
    modifies store, oracle
    ensures store.Valid() && oracle.Valid() && store.fs == oracle.fs && out == out'
    ensures (store.fs, out) == Step(old(store.fs), OpOf(c))
  {
    out := DriveStore(store, c);
    out' := DriveOracle(oracle, c);
  }

  // ---- queries ----

  datatype Query =
    | ById(id: nat, snap: nat)
    | Read(h: Handle)
    | Lookup(h: Handle, name: Name)
    | Readdir(h: Handle)
    | ReaddirPage(h: Handle, after: Name, max: nat)
    | Parents(h: Handle)
    | DiffNodes(a: nat, b: nat)
    | Stats(g: nat)

  datatype Answer =
    | Node(h: Option<Handle>)
    | Attrs(a: Attr)
    | Entries(ds: seq<DirEntry>)
    | Page(p: DirPage)
    | Nodes(hs: seq<Handle>)
    | Diffs(ds': seq<NodeDiff>)
    | Totals(s: Observations.Stats)

  predicate InRange(q: Query) {
    match q
    case ById(id, snap) => id < TWO64 && snap < TWO64
    case Read(h) => Wide(h)
    case Lookup(h, _) => Wide(h)
    case Readdir(h) => Wide(h)
    case ReaddirPage(h, _, _) => Wide(h)
    case Parents(h) => Wide(h)
    case DiffNodes(a, b) => a < TWO64 && b < TWO64
    case Stats(g) => g < TWO64
  }

  ghost function AnswerOf(fs: Fs, q: Query): Answer {
    match q
    case ById(id, snap) => Node(Handles.NodeById(fs, id, snap))
    case Read(h) => Attrs(AttrSeen(fs, h))
    case Lookup(h, n) => Node(Handles.Lookup(fs, h, n))
    case Readdir(h) => Entries(Handles.Readdir(fs, h))
    case ReaddirPage(h, after, max) => Page(Handles.ReaddirPage(fs, h, after, max))
    case Parents(h) => Nodes(ParentHandles(fs, h))
    case DiffNodes(a, b) =>
      var ra, rb := Resolve(fs, a), Resolve(fs, b);
      Diffs(if ra <= rb then Observations.DiffNodes(fs.At(ra), fs.At(rb)) else [])
    case Stats(g) => Totals(StatsOf(fs.At(Resolve(fs, g))))
  }

  method AskStore(store: PrfsStore.PrfsStore, q: Query) returns (a: Answer)
    requires store.Valid() && InRange(q)
    ensures a == AnswerOf(store.fs, q)
  {
    match q
    case ById(id, snap) =>
      var h := store.NodeById(id, snap);
      return Node(h);
    case Read(h) =>
      var x := store.ReadNode(h);
      return Attrs(x);
    case Lookup(h, n) =>
      var x := store.Lookup(h, n);
      return Node(x);
    case Readdir(h) =>
      var ds := store.Readdir(h);
      return Entries(ds);
    case ReaddirPage(h, after, max) =>
      var p := store.ReaddirPage(h, after, max);
      return Page(p);
    case Parents(h) =>
      var ps := store.Parents(h);
      return Nodes(ps);
    case DiffNodes(x, y) =>
      var ds := store.DiffNodes(x, y);
      return Diffs(ds);
    case Stats(g) =>
      var s := store.Stats(g);
      return Totals(s);
  }

  method AskOracle(oracle: MemStore.MemStore, q: Query) returns (a: Answer)
    requires oracle.Valid() && InRange(q)
    ensures a == AnswerOf(oracle.fs, q)
  {
    match q
    case ById(id, snap) =>
      var h := oracle.NodeById(id, snap);
      return Node(h);
    case Read(h) =>
      var x := oracle.ReadNode(h);
      return Attrs(x);
    case Lookup(h, n) =>
      var x := oracle.Lookup(h, n);
      return Node(x);
    case Readdir(h) =>
      var ds := oracle.Readdir(h);
      return Entries(ds);
    case ReaddirPage(h, after, max) =>
      var p := oracle.ReaddirPage(h, after, max);
      return Page(p);
    case Parents(h) =>
      var ps := oracle.Parents(h);
      return Nodes(ps);
    case DiffNodes(x, y) =>
      var ds := oracle.DiffNodes(x, y);
      return Diffs(ds);
    case Stats(g) =>
      var s := oracle.Stats(g);
      return Totals(s);
  }

  // ---- the theorem ----

  lemma {:induction false} DrivenSnoc(fs: Fs, cs: seq<Call>, i: nat)
    requires i < |cs| && AllLegal(fs, cs)
    ensures Legal(Driven(fs, cs[..i]).0, cs[i])
    ensures var a, s := Driven(fs, cs[..i]), Step(Driven(fs, cs[..i]).0, OpOf(cs[i]));
      Driven(fs, cs[..i + 1]) == (s.0, a.1 + [s.1])
    decreases i
  {
    if i == 0 {
      var s := Step(fs, OpOf(cs[0]));
      assert cs[..0] == [] && cs[..1][1..] == [] && cs[..1][0] == cs[0];
      assert Driven(fs, cs[..0]) == (fs, []) && Driven(s.0, cs[..1][1..]) == (s.0, []);
      assert Driven(fs, cs[..1]) == (s.0, [s.1] + []);
      assert [s.1] + [] == [] + [s.1];
    } else {
      var next := Step(fs, OpOf(cs[0]));
      DrivenSnoc(next.0, cs[1..], i - 1);
      assert cs[1..][..i - 1] == cs[..i][1..] && cs[1..][..i] == cs[..i + 1][1..] && cs[1..][i - 1] == cs[i];
      var a, b := Driven(next.0, cs[1..][..i - 1]), Driven(next.0, cs[1..][..i]);
      assert Driven(fs, cs[..i]) == (a.0, [next.1] + a.1);
      assert Driven(fs, cs[..i + 1]) == (b.0, [next.1] + b.1);
      var s := Step(a.0, OpOf(cs[i]));
      assert b == (s.0, a.1 + [s.1]);
      assert [next.1] + (a.1 + [s.1]) == ([next.1] + a.1) + [s.1];
    }
  }

  /** Both engines through the same calls. */
  method DriveAll(store: PrfsStore.PrfsStore, oracle: MemStore.MemStore, cs: seq<Call>)
      returns (outs: seq<Outcome>, outs': seq<Outcome>)
    requires store.Valid() && oracle.Valid() && store.fs == oracle.fs && AllLegal(store.fs, cs)
    modifies store, oracle
    ensures store.Valid() && oracle.Valid()
    ensures store.fs == oracle.fs == Driven(old(store.fs), cs).0 && outs == outs' == Driven(old(store.fs), cs).1
  {
    ghost var fs := store.fs;
    outs, outs' := [], [];
    var i := 0;
    while i < |cs|
      invariant 0 <= i <= |cs| && store.Valid() && oracle.Valid()
      invariant store.fs == oracle.fs == Driven(fs, cs[..i]).0
      invariant outs == outs' == Driven(fs, cs[..i]).1
    {
      DrivenSnoc(fs, cs, i);
      var x, x' := DriveBoth(store, oracle, cs[i]);
      outs, outs' := outs + [x], outs' + [x'];
      i := i + 1;
    }
    assert cs[..i] == cs;
  }

  /** Both engines, fresh, through the same calls: the same outcome each time, and the same answer to any query. */
  method Differential(clock: nat, cs: seq<Call>, q: Query)
      returns (outs: seq<Outcome>, outs': seq<Outcome>, a: Answer, a': Answer)
    requires AllLegal(Init(clock), cs) && InRange(q)
    ensures outs == outs' == Driven(Init(clock), cs).1
    ensures a == a' == AnswerOf(Driven(Init(clock), cs).0, q)
  {
    var store := new PrfsStore.PrfsStore(clock);
    var oracle := new MemStore.MemStore(clock);
    outs, outs' := DriveAll(store, oracle, cs);
    a := AskStore(store, q);
    a' := AskOracle(oracle, q);
  }

  /** Path differences: forward in time, the same set of reports exactly when no name was rebound in between;
      backward, where the store reports nothing, exactly when no link differs. */
  method DifferentialPaths(store: PrfsStore.PrfsStore, oracle: MemStore.MemStore, a: nat, b: nat)
      returns (ps: seq<PathDiff>, ps': seq<PathDiff>)
    requires store.Valid() && oracle.Valid() && store.fs == oracle.fs && a < TWO64 && b < TWO64
    ensures
      var ra, rb := Resolve(store.fs, a), Resolve(store.fs, b);
      var v, w := store.fs.At(ra), store.fs.At(rb);
      (forall p :: p in ps <==> p in ps') <==> if ra <= rb then NoRebinding(v, w) else v.links == w.links
  {
    ps := store.DiffPaths(a, b);
    ps' := oracle.DiffPaths(a, b);
    PathDiffsAgreeIff(store.fs.At(Resolve(store.fs, a)), store.fs.At(Resolve(store.fs, b)));
    NoBindingDiffIff(store.fs.At(Resolve(store.fs, a)), store.fs.At(Resolve(store.fs, b)));
  }

  /** The two representations, read side by side: the floor record is the effective version, and the link set a
      record's version names holds exactly the links whose lifetime contains the snapshot, mirrored by the up-links. */
  lemma RepresentationsAgree(db: Db, nodes: Versions, links: Lifetimes, fs: Fs, id: nat, e: Edge, g: nat)
    requires Rel(db, fs) && NodesShow(nodes, fs.Cur(), fs) && LinksShow(links, fs.Cur(), fs)
    ensures if IsSnapDir(id) then !Living(EffAt(nodes, id, g)) else NodeAt(db, id, g) == EffAt(nodes, id, g)
    ensures LinkAt(db, e.dir, e.name, g) == ChildOf(links, e, g)
    ensures UpAt(db, id, e.dir, e.name, g) <==> ChildOf(links, e, g) == Some(id)
  {
    assert NodeShown(nodes, fs, id, g) && LinkShown(links, fs, e, g);
    assert NodeAt(db, id, g) == Get(fs.At(g).nodes, id);
    assert LinkAt(db, e.dir, e.name, g) == Get(fs.At(g).links, Edge(e.dir, e.name));
    assert UpAt(db, id, e.dir, e.name, g) <==> Get(fs.At(g).links, Edge(e.dir, e.name)) == Some(id);
  }

  // ---- where the engines differ ----

  /** What asking for the node by id finds after a setter: in the store, and in the reference engine. */
  ghost function StoreFinds(fs: Fs, c: Call): Option<Handle> {
    if c.SetAttr? then Handles.NodeById(Step(fs, OpOf(c)).0, c.h.id, LATEST) else None
  }

  ghost function OracleFinds(fs: Fs, c: Call): Option<Handle> {
    if c.SetAttr? && (!IsSnapDir(c.h.id) || SnapBase(c.h.id) in fs.live.nodes) then Some(Handle(c.h.id, LATEST)) else None
  }

  /** On handles of any view, resolving or not: the answers and, after a setter, what is found are the same exactly on
      the calls that agree. */
  lemma CallsAgreeIff(fs: Fs, c: Call)
    requires Healthy(fs) && fs.next <= TWO63
    ensures OracleError(fs, c) == Step(fs, OpOf(c)).1.err && OracleFinds(fs, c) == StoreFinds(fs, c) <==> Agrees(fs, c)
  {
    match c
    case Link(d, n, x) => MemStore.LinkVerdictsIff(fs, d, n, x);
    case Unlink(d, n) => MemStore.LinkEnds(fs, Edge(d.id, n));
    case Move(sd, sn, dd, dn) => MemStore.MoveVerdictsIff(fs, sd, sn, dd, dn);
    case SetPayload(h, p) => MemStore.PayloadIff(fs, h, p);
    case SetAttr(h, x) => MemStore.NoSnapNode(fs, fs.Cur(), h.id);
    case _ =>
  }

  /** An attribute setter carries the reference engine's tables along exactly when the node exists or is a snapshot
      directory, and exactly then the node is found where it was: on any other id it makes one out of nothing. */
  lemma SettersAgreeIff(nodes: Versions, nodes': Versions, fs: Fs, id: nat, c: Change)
    requires NodesShow(nodes, fs.Cur(), fs) && Healthy(fs) && fs.next <= TWO63 && id < TWO64
    requires nodes' == MemStore.Rewritten(nodes, id, fs.Cur(), a => Changed(a, c))
    ensures NodesShow(nodes', fs.Cur(), Step(fs, Op.SetAttr(id, c)).0) <==> id in fs.live.nodes || IsSnapDir(id)
    ensures (EffAt(nodes', BaseOf(id), fs.Cur()).Some? <==> BaseOf(id) in fs.live.nodes) <==> id in fs.live.nodes || IsSnapDir(id)
    ensures !IsSnapDir(id) ==> EffAt(nodes', id, fs.Cur()).Some?
  {
    var cur, f := fs.Cur(), (a: Attr) => Changed(a, c);
    var op, vs := Op.SetAttr(id, c), MemStore.VersOf(nodes, id);
    assert NodeShown(nodes, fs, BaseOf(id), cur) && fs.At(cur) == fs.live;
    StampedOrdered(nodes, cur, id, f(MemStore.LastAttr(vs)));
    EffLast(nodes'[id], cur, cur);
    MemStore.NoSnapNode(fs, cur, id);
    if id in fs.live.nodes || IsSnapDir(id) {
      MemStore.OverwriteShows(nodes, nodes', fs, id, f, op);
    } else {
      assert !NodeShown(nodes', Step(fs, op).0, id, cur);
    }
  }

  /** Any one call on both engines, and a look for the node by id after a setter: the outcomes and findings are the
      same exactly on the calls that agree, after which DriveBoth leaves the engines alike in everything. */
  method TellApart(store: PrfsStore.PrfsStore, oracle: MemStore.MemStore, c: Call)
      returns (out: Outcome, out': Outcome, found: Option<Handle>, found': Option<Handle>)
    requires store.Valid() && oracle.Valid() && store.fs == oracle.fs && Sized(store.fs, c)
    modifies store, oracle
    ensures out == out' && found == found' <==> Agrees(old(store.fs), c)
    ensures found == StoreFinds(old(store.fs), c) && found' == OracleFinds(old(store.fs), c)
    ensures Agrees(old(store.fs), c) ==> store.Valid() && oracle.Valid() && store.fs == oracle.fs
  {
    ghost var fs, nodes := store.fs, oracle.nodes;
    CallsAgreeIff(fs, c);
    out := DriveStore(store, c);
    out' := DriveOracle(oracle, c);
    found, found' := None, None;
    if c.SetAttr? {
      SettersAgreeIff(nodes, oracle.nodes, fs, c.h.id, c.change);
      found := store.NodeById(c.h.id, LATEST);
      found' := oracle.NodeById(c.h.id, LATEST);
    }
  }
}
