/** What the differences and the statistics of views report, from the fields of the nodes and from single calls. */
module Reports {
  import opened Options
  import opened FileSystem
  import opened Observations
  import opened Laws
  import Numbers

  // ---- node differences ----

  predicate Linked(v: View, id: nat) {
    id in v.nodes && v.nodes[id].nlink > 0
  }

  predicate SameContent(a: Attr, b: Attr) {
    a.blob == b.blob && a.spec == b.spec && a.size == b.size
  }

  predicate SameAttrs(a: Attr, b: Attr) {
    a.mode == b.mode && a.uid == b.uid && a.gid == b.gid && a.mtime == b.mtime
  }

  /** Which report a node gets: of its links first, then of its content, then of its attributes. */
  lemma ReportedAs(v: View, w: View, id: nat, ds: seq<NodeDiff>)
    requires ds == DiffNodes(v, w)
    ensures NodeDiff(id, CREATED) in ds <==> !Linked(v, id) && Linked(w, id)
    ensures NodeDiff(id, REMOVED) in ds <==> Linked(v, id) && !Linked(w, id)
    ensures NodeDiff(id, MODIFIED_CONTENT) in ds <==>
      Linked(v, id) && Linked(w, id) && !SameContent(v.nodes[id], w.nodes[id])
    ensures NodeDiff(id, MODIFIED_ATTRS) in ds <==>
      Linked(v, id) && Linked(w, id) && SameContent(v.nodes[id], w.nodes[id]) && !SameAttrs(v.nodes[id], w.nodes[id])
  {
    DiffNodesMeaning(v, w, NodeDiff(id, CREATED));
    DiffNodesMeaning(v, w, NodeDiff(id, REMOVED));
    DiffNodesMeaning(v, w, NodeDiff(id, MODIFIED_CONTENT));
    DiffNodesMeaning(v, w, NodeDiff(id, MODIFIED_ATTRS));
  }

  lemma ReportOf(v: View, w: View, d: NodeDiff, ds: seq<NodeDiff>)
    requires ds == DiffNodes(v, w)
    ensures d in ds <==> KindIs(v, w, d.id, Some(d.change))
  {
    ReportedAs(v, w, d.id, ds);
    match d.change
    case CREATED => assert d == NodeDiff(d.id, CREATED);
    case REMOVED => assert d == NodeDiff(d.id, REMOVED);
    case MODIFIED_CONTENT => assert d == NodeDiff(d.id, MODIFIED_CONTENT);
    case MODIFIED_ATTRS => assert d == NodeDiff(d.id, MODIFIED_ATTRS);
  }

  /** The report a node gets, or that it gets none. */
  predicate KindIs(v: View, w: View, id: nat, k: Option<NodeChange>) {
    if !Linked(v, id) then k == if Linked(w, id) then Some(CREATED) else None
    else if !Linked(w, id) then k == Some(REMOVED)
    else if !SameContent(v.nodes[id], w.nodes[id]) then k == Some(MODIFIED_CONTENT)
    else k == if SameAttrs(v.nodes[id], w.nodes[id]) then None else Some(MODIFIED_ATTRS)
  }

  /** A linked node without a report has kept its blob, spec, size, mode, owner, group and modification time. */
  lemma SilenceMeans(v: View, w: View, id: nat, ds: seq<NodeDiff>)
    requires ds == DiffNodes(v, w) && Linked(v, id) && Linked(w, id)
    ensures (forall d :: d in ds ==> d.id != id) <==>
      SameContent(v.nodes[id], w.nodes[id]) && SameAttrs(v.nodes[id], w.nodes[id])
  {
    ReportedAs(v, w, id, ds);
    forall d | d in ds && d.id == id
      ensures KindIs(v, w, id, Some(d.change))
    {
      ReportOf(v, w, d, ds);
    }
  }

  /** One node reported at most, in the given way. */
  ghost predicate Only(ds: seq<NodeDiff>, id: nat, k: Option<NodeChange>) {
    forall d :: d in ds <==> d.id == id && k == Some(d.change)
  }

  ghost predicate DifferOnlyAt(v: View, w: View, id: nat) {
    forall x :: x != id ==> Get(v.nodes, x) == Get(w.nodes, x)
  }

  /** Two views that differ in one node report at most that one. */
  lemma OneNodeReported(v: View, w: View, id: nat, k: Option<NodeChange>, ds: seq<NodeDiff>)
    requires ds == DiffNodes(v, w) && DifferOnlyAt(v, w, id) && KindIs(v, w, id, k)
    ensures Only(ds, id, k)
  {
    forall d
      ensures d in ds <==> d.id == id && k == Some(d.change)
    {
      ReportOf(v, w, d, ds);
      OneKind(v, w, id, k, d);
    }
  }

  lemma OneKind(v: View, w: View, id: nat, k: Option<NodeChange>, d: NodeDiff)
    requires DifferOnlyAt(v, w, id) && KindIs(v, w, id, k)
    ensures KindIs(v, w, d.id, Some(d.change)) <==> d.id == id && k == Some(d.change)
  {
    if d.id != id { assert Get(v.nodes, d.id) == Get(w.nodes, d.id); }
  }

  /** How a setter is reported: a new size as content, a new mode, owner, group or modification time as attributes;
      the same value, access and change times and nanoseconds not at all. */
  function SetterKind(a: Attr, c: Change): Option<NodeChange> {
    match c
    case Size(x) => if x != a.size then Some(MODIFIED_CONTENT) else None
    case Mode(x) => if x != a.mode then Some(MODIFIED_ATTRS) else None
    case Uid(x) => if x != a.uid then Some(MODIFIED_ATTRS) else None
    case Gid(x) => if x != a.gid then Some(MODIFIED_ATTRS) else None
    case Mtime(x) => if x != a.mtime then Some(MODIFIED_ATTRS) else None
    case _ => None
  }

  /** What the difference across an attribute setter on a linked node reports. */
  lemma SetterReported(fs: Fs, id: nat, c: Change, w: View, ds: seq<NodeDiff>)
    requires Linked(fs.live, id) && w == Step(fs, SetAttr(id, c)).0.live && ds == DiffNodes(fs.live, w)
    ensures Only(ds, id, SetterKind(fs.live.nodes[id], c))
  {
    SetterKindIs(fs, id, c, w);
    OneNodeReported(fs.live, w, id, SetterKind(fs.live.nodes[id], c), ds);
  }

  lemma SetterKindIs(fs: Fs, id: nat, c: Change, w: View)
    requires Linked(fs.live, id) && w == Step(fs, SetAttr(id, c)).0.live
    ensures DifferOnlyAt(fs.live, w, id) && KindIs(fs.live, w, id, SetterKind(fs.live.nodes[id], c))
  {
  }

  /** A guarded setter is reported as content, when the blob or the spec is a new one. */
  function PayloadKind(a: Attr, p: Payload): Option<NodeChange> {
    if (if p.Content? || p.Target? then p.blob != a.blob else p.spec != a.spec) then Some(MODIFIED_CONTENT) else None
  }

  lemma PayloadReported(fs: Fs, id: nat, p: Payload, w: View, ds: seq<NodeDiff>)
    requires Linked(fs.live, id) && Step(fs, SetPayload(id, p)).1.err == OK
    requires w == Step(fs, SetPayload(id, p)).0.live && ds == DiffNodes(fs.live, w)
    ensures Only(ds, id, PayloadKind(fs.live.nodes[id], p))
  {
    PayloadKindIs(fs, id, p, w);
    OneNodeReported(fs.live, w, id, PayloadKind(fs.live.nodes[id], p), ds);
  }

  lemma PayloadKindIs(fs: Fs, id: nat, p: Payload, w: View)
    requires Linked(fs.live, id) && Step(fs, SetPayload(id, p)).1.err == OK && w == Step(fs, SetPayload(id, p)).0.live
    ensures DifferOnlyAt(fs.live, w, id) && KindIs(fs.live, w, id, PayloadKind(fs.live.nodes[id], p))
  {
  }

  /** Linking a node that had no link creates it; another link to it is no difference. */
  lemma LinkReported(fs: Fs, d: nat, n: Name, c: nat, w: View, ds: seq<NodeDiff>)
    requires Step(fs, Link(d, n, c)).1.err == OK && w == Step(fs, Link(d, n, c)).0.live && ds == DiffNodes(fs.live, w)
    ensures c in fs.live.nodes && Only(ds, c, if fs.live.nodes[c].nlink == 0 then Some(CREATED) else None)
  {
    LinkKindIs(fs, d, n, c, w);
    OneNodeReported(fs.live, w, c, if fs.live.nodes[c].nlink == 0 then Some(CREATED) else None, ds);
  }

  lemma LinkKindIs(fs: Fs, d: nat, n: Name, c: nat, w: View)
    requires Step(fs, Link(d, n, c)).1.err == OK && w == Step(fs, Link(d, n, c)).0.live
    ensures DifferOnlyAt(fs.live, w, c) && c in fs.live.nodes
    ensures KindIs(fs.live, w, c, if fs.live.nodes[c].nlink == 0 then Some(CREATED) else None)
  {
  }

  /** Taking a node's last link removes it; taking another is no difference. */
  lemma UnlinkReported(fs: Fs, d: nat, n: Name, c: nat, w: View, ds: seq<NodeDiff>)
    requires Healthy(fs) && Get(fs.live.links, Edge(d, n)) == Some(c)
    requires w == Step(fs, Unlink(d, n)).0.live && ds == DiffNodes(fs.live, w)
    ensures c in fs.live.nodes && Only(ds, c, if fs.live.nodes[c].nlink == 1 then Some(REMOVED) else None)
  {
    UnlinkKindIs(fs, d, n, c, w);
    OneNodeReported(fs.live, w, c, if fs.live.nodes[c].nlink == 1 then Some(REMOVED) else None, ds);
  }

  lemma UnlinkKindIs(fs: Fs, d: nat, n: Name, c: nat, w: View)
    requires Healthy(fs) && Get(fs.live.links, Edge(d, n)) == Some(c) && w == Step(fs, Unlink(d, n)).0.live
    ensures c in fs.live.nodes && DifferOnlyAt(fs.live, w, c)
    ensures KindIs(fs.live, w, c, if fs.live.nodes[c].nlink == 1 then Some(REMOVED) else None)
  {
    UnlinkEffect(fs, d, n);
  }

  /** Creating, moving, sealing and setting the clock are no difference. */
  lemma SilentCalls(fs: Fs, op: Op, w: View, ds: seq<NodeDiff>)
    requires Healthy(fs) && (op.Create? || op.Move? || op.Snapshot? || op.SetTime?)
    requires w == Step(fs, op).0.live && ds == DiffNodes(fs.live, w)
    ensures forall d :: d !in ds
  {
    SilentKinds(fs, op, w);
    OneNodeReported(fs.live, w, fs.next, None, ds);
  }

  lemma SilentKinds(fs: Fs, op: Op, w: View)
    requires Healthy(fs) && (op.Create? || op.Move? || op.Snapshot? || op.SetTime?) && w == Step(fs, op).0.live
    ensures DifferOnlyAt(fs.live, w, fs.next) && KindIs(fs.live, w, fs.next, None)
  {
    if op.Move? {
      if Step(fs, op).1.err == OK { MoveEffect(fs, op.sdir, op.sn, op.ddir, op.dn); } else { FailedStepIsNoOp(fs, op); }
    }
  }

  // ---- statistics ----

  /** What a node adds to the statistics: one of its type, and its size if it is a file, as long as it is linked. */
  function CountOf(v: View, id: nat, t: Type): nat {
    if Linked(v, id) && v.nodes[id].typ == t then 1 else 0
  }

  function BytesOf(v: View, id: nat): nat {
    if Linked(v, id) && v.nodes[id].typ == REG then v.nodes[id].size else 0
  }

  /** Views that differ in one node differ in the statistics by what that node adds. */
  lemma StatsMove(v: View, w: View, id: nat, t: Type, s: Stats, s': Stats)
    requires DifferOnlyAt(v, w, id) && s == StatsOf(v) && s' == StatsOf(w)
    ensures t in s.nodes && t in s'.nodes && s'.nodes[t] + CountOf(v, id, t) == s.nodes[t] + CountOf(w, id, t)
    ensures s'.totalSize + BytesOf(v, id) == s.totalSize + BytesOf(w, id)
    ensures s.links == |v.links| && s'.links == |w.links|
  {
    EveryType(t);
    CountsMove(v, w, id, t);
    BytesMove(v, w, id);
  }

  lemma CountsMove(v: View, w: View, id: nat, t: Type)
    requires DifferOnlyAt(v, w, id)
    ensures |Alive(w, t)| + CountOf(v, id, t) == |Alive(v, t)| + CountOf(w, id, t)
  {
    AliveElsewhere(v, w, id, t);
    AliveCount(v, t, id, Alive(v, t) - {id});
    AliveCount(w, t, id, Alive(w, t) - {id});
  }

  lemma AliveElsewhere(v: View, w: View, id: nat, t: Type)
    requires DifferOnlyAt(v, w, id)
    ensures Alive(w, t) - {id} == Alive(v, t) - {id}
  {
    forall x | x != id
      ensures x in Alive(w, t) <==> x in Alive(v, t)
    {
      assert Get(v.nodes, x) == Get(w.nodes, x);
    }
  }

  lemma BytesMove(v: View, w: View, id: nat)
    requires DifferOnlyAt(v, w, id)
    ensures Numbers.Sum(Alive(w, REG), SizeOf(w)) + BytesOf(v, id) == Numbers.Sum(Alive(v, REG), SizeOf(v)) + BytesOf(w, id)
  {
    var files := Alive(v, REG) - {id};
    AliveElsewhere(v, w, id, REG);
    AliveBytes(v, id, files);
    AliveBytes(w, id, files);
    forall x | x in files
      ensures SizeOf(v)(x) == SizeOf(w)(x)
    {
      assert Get(v.nodes, x) == Get(w.nodes, x);
    }
    Numbers.SumCongruent(files, SizeOf(v), SizeOf(w));
  }

  lemma EveryType(t: Type)
    ensures t in TYPES
  {
    match t
    case REG =>
    case _ =>
  }

  lemma AliveCount(v: View, t: Type, id: nat, rest: set<nat>)
    requires rest == Alive(v, t) - {id}
    ensures |Alive(v, t)| == |rest| + CountOf(v, id, t)
  {
    if id in Alive(v, t) { assert Alive(v, t) == rest + {id}; } else { assert Alive(v, t) == rest; }
  }

  lemma AliveBytes(v: View, id: nat, rest: set<nat>)
    requires rest == Alive(v, REG) - {id}
    ensures Numbers.Sum(Alive(v, REG), SizeOf(v)) == Numbers.Sum(rest, SizeOf(v)) + BytesOf(v, id)
  {
    if id in Alive(v, REG) {
      assert Alive(v, REG) == rest + {id};
      Numbers.SumInsert(rest, SizeOf(v), id);
    } else {
      assert Alive(v, REG) == rest;
    }
  }

  /** The statistics of a fresh file system: the root. */
  lemma FreshStats(clock: nat, t: Type)
    ensures
      var s := StatsOf(Init(clock).live);
      t in s.nodes && s.nodes[t] == (if t == DIR then 1 else 0) && s.links == 0 && s.totalSize == 0
  {
    var v := Init(clock).live;
    StatsMove(v, EMPTY, ROOT, t, StatsOf(v), StatsOf(EMPTY));
    NothingCounted(t);
  }

  lemma NothingCounted(t: Type)
    ensures t in StatsOf(EMPTY).nodes && StatsOf(EMPTY).nodes[t] == 0 && StatsOf(EMPTY).totalSize == 0
  {
    EveryType(t);
    assert Alive(EMPTY, t) == {} && Alive(EMPTY, REG) == {};
  }
}
