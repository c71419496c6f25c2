/** What a caller can see of one view, or of two: listings, parents, statistics and differences. */
module Observations {
  import opened Keys
  import opened Options
  import opened FileSystem
  import Numbers

  // ---- directory listings ----

  datatype Entry = Entry(name: Name, child: nat)

  function Names(v: View, dir: nat): set<Name> {
    set e | e in v.links && e.dir == dir :: e.name
  }

  lemma NamesHas(v: View, dir: nat, n: Name)
    ensures n in Names(v, dir) <==> Edge(dir, n) in v.links
  {
    if Edge(dir, n) in v.links { assert Edge(dir, n).name in Names(v, dir); }
  }

  /** Pairs each name of a directory with its child. */
  function Entries(v: View, dir: nat, names: seq<Name>): (es: seq<Entry>)
    requires forall n :: n in names ==> Edge(dir, n) in v.links
    ensures |es| == |names|
  {
    seq(|names|, i requires 0 <= i < |names| => Entry(names[i], v.links[Edge(dir, names[i])]))
  }

  /** The directory in name order. */
  function Listing(v: View, dir: nat): seq<Entry> {
    var names := Sorted(Names(v, dir));
    assert forall n | n in names :: Edge(dir, n) in v.links by {
      forall n | n in names
        ensures Edge(dir, n) in v.links
      {
        NamesHas(v, dir, n);
      }
    }
    Entries(v, dir, names)
  }

  ghost predicate EntriesAscend(es: seq<Entry>) {
    forall i, j :: 0 <= i < j < |es| ==> Less(es[i].name, es[j].name)
  }

  ghost predicate EntriesOf(v: View, dir: nat, es: seq<Entry>) {
    && (forall x :: x in es ==> Edge(dir, x.name) in v.links && v.links[Edge(dir, x.name)] == x.child)
    && (forall n :: Edge(dir, n) in v.links ==> Entry(n, v.links[Edge(dir, n)]) in es)
  }

  /** Listing, without reference to how it is computed: every link once, in name order. */
  lemma ListingMeaning(v: View, dir: nat)
    ensures EntriesAscend(Listing(v, dir)) && EntriesOf(v, dir, Listing(v, dir))
  {
    var names := Sorted(Names(v, dir));
    var es := Listing(v, dir);
    forall i, j | 0 <= i < j < |es|
      ensures Less(es[i].name, es[j].name)
    {
      assert InOrder(names, i, j);
    }
    forall n | Edge(dir, n) in v.links
      ensures Entry(n, v.links[Edge(dir, n)]) in es
    {
      NamesHas(v, dir, n);
      var i :| 0 <= i < |names| && names[i] == n;
      assert es[i] == Entry(n, v.links[Edge(dir, n)]);
    }
    forall x | x in es
      ensures Edge(dir, x.name) in v.links && v.links[Edge(dir, x.name)] == x.child
    {
      var i :| 0 <= i < |es| && es[i] == x;
      assert names[i] in names;
      NamesHas(v, dir, names[i]);
    }
  }

  function NamesOf(es: seq<Entry>): (s: seq<Name>)
    ensures |s| == |es|
  {
    seq(|es|, i requires 0 <= i < |es| => es[i].name)
  }

  lemma NamesAscend(es: seq<Entry>)
    requires EntriesAscend(es)
    ensures Ascending(NamesOf(es))
  {
    forall i: nat, j: nat
      ensures InOrder(NamesOf(es), i, j)
    {
    }
  }

  lemma NamesOfEntries(v: View, dir: nat, es: seq<Entry>, n: Name)
    requires EntriesOf(v, dir, es)
    ensures n in NamesOf(es) <==> Edge(dir, n) in v.links
  {
    if n in NamesOf(es) {
      var i :| 0 <= i < |es| && NamesOf(es)[i] == n;
      assert es[i] in es;
    }
    if Edge(dir, n) in v.links {
      var k :| 0 <= k < |es| && es[k] == Entry(n, v.links[Edge(dir, n)]);
      assert NamesOf(es)[k] == n;
    }
  }

  /** Only one sequence lists a directory once and in order. */
  lemma ListingUnique(v: View, dir: nat, es: seq<Entry>)
    requires EntriesAscend(es) && EntriesOf(v, dir, es)
    ensures es == Listing(v, dir)
  {
    ListingMeaning(v, dir);
    var ls := Listing(v, dir);
    forall n
      ensures n in NamesOf(es) <==> n in NamesOf(ls)
    {
      NamesOfEntries(v, dir, es, n);
      NamesOfEntries(v, dir, ls, n);
    }
    NamesAscend(es);
    NamesAscend(ls);
    AscendingUnique(NamesOf(es), NamesOf(ls));
    assert |NamesOf(es)| == |NamesOf(ls)|;
    forall i | 0 <= i < |es|
      ensures es[i] == ls[i]
    {
      assert NamesOf(es)[i] == NamesOf(ls)[i] && es[i] in es && ls[i] in ls;
    }
  }

  ghost predicate ListedBefore(es: seq<Entry>, i: nat, y: nat) {
    i <= |es| && exists j :: 0 <= j < i && es[j].child == y
  }

  lemma ListedNext(es: seq<Entry>, i: nat, y: nat)
    requires i < |es|
    ensures ListedBefore(es, i + 1, y) <==> ListedBefore(es, i, y) || es[i].child == y
  {
    if es[i].child == y { assert ListedBefore(es, i + 1, y); }
  }

  lemma ChildIffListed(v: View, dir: nat, es: seq<Entry>, y: nat)
    requires EntriesOf(v, dir, es) && IsDir(v, dir)
    ensures Child(v, dir, y) <==> IsDir(v, y) && ListedBefore(es, |es|, y)
  {
    if Child(v, dir, y) {
      var n :| Edge(dir, n) in v.links && v.links[Edge(dir, n)] == y;
      var i :| 0 <= i < |es| && es[i] == Entry(n, y);
    }
    if i :| 0 <= i < |es| && es[i].child == y {
      assert es[i] in es;
    }
  }

  // ---- parents ----

  function Containers(v: View, c: nat): set<nat> {
    set e | e in v.links && v.links[e] == c :: e.dir
  }

  /** The distinct directories holding a link to c, in ascending order. */
  function Parents(v: View, c: nat): seq<nat> {
    Numbers.Sorted(Containers(v, c))
  }

  /** No directory links to c under two names. */
  ghost predicate SingleNamed(v: View, c: nat) {
    forall e, f :: e in Incoming(v, c) && f in Incoming(v, c) && e.dir == f.dir ==> e == f
  }

  lemma {:induction false} ImageCard(es: set<Edge>, ds: set<nat>)
    requires ds == set e | e in es :: e.dir
    ensures |ds| <= |es|
    ensures |ds| == |es| <==> forall e, f :: e in es && f in es && e.dir == f.dir ==> e == f
    decreases |es|
  {
    if es == {} {
      assert ds == {};
    } else {
      var e :| e in es;
      var rest := es - {e};
      var ds' := set f | f in rest :: f.dir;
      ImageCard(rest, ds');
      if e.dir in ds' {
        assert ds == ds';
        var f :| f in rest && f.dir == e.dir;
        assert f in es && e in es && f != e;
      } else {
        assert ds == ds' + {e.dir};
        assert forall f :: f in rest ==> f.dir in ds';
      }
    }
  }

  /** parents() counts containers, nlink counts links: they agree exactly for a singly named node. */
  lemma ParentsVersusNlink(v: View, c: nat)
    requires Sound(v) && c in v.nodes && c != ROOT
    ensures |Parents(v, c)| <= v.nodes[c].nlink
    ensures |Parents(v, c)| == v.nodes[c].nlink <==> SingleNamed(v, c)
  {
    assert CountsLinks(v, c);
    assert Containers(v, c) == set e | e in Incoming(v, c) :: e.dir;
    ImageCard(Incoming(v, c), Containers(v, c));
  }

  /** A hard link made twice in one directory has one parent and two links. */
  lemma ParentsBelowNlink()
    ensures exists fs, c :: Healthy(fs) && c in fs.live.nodes && c != ROOT && |Parents(fs.live, c)| < fs.live.nodes[c].nlink
  {
    var f0 := Init(0);
    var f1 := Step(f0, Create(REG, [], 0)).0;
    var f2 := Step(f1, Link(ROOT, [97], 2)).0;
    var f3 := Step(f2, Link(ROOT, [98], 2)).0;
    InitHealthy(0);
    StepHealthy(f0, Create(REG, [], 0));
    StepHealthy(f1, Link(ROOT, [97], 2));
    StepHealthy(f2, Link(ROOT, [98], 2));
    var v := f3.live;
    assert v.links == map[Edge(ROOT, [97]) := 2, Edge(ROOT, [98]) := 2];
    assert Edge(ROOT, [97]) in Incoming(v, 2) && Edge(ROOT, [98]) in Incoming(v, 2);
    assert f3.At(f3.Cur()) == v && SoundAt(f3, f3.Cur());
    ParentsVersusNlink(v, 2);
    assert !SingleNamed(v, 2);
  }

  // ---- conservation of links ----

  ghost function NlinkOf(v: View): nat -> nat {
    c => if c in v.nodes then v.nodes[c].nlink else 0
  }

  function IncomingTo(v: View, ids: set<nat>): set<Edge> {
    set e | e in v.links && v.links[e] in ids
  }

  lemma IncomingSplits(v: View, ids: set<nat>, c: nat)
    requires c in ids
    ensures |IncomingTo(v, ids)| == |IncomingTo(v, ids - {c})| + |Incoming(v, c)|
  {
    var a, b := IncomingTo(v, ids - {c}), Incoming(v, c);
    assert IncomingTo(v, ids) == a + b;
    assert a !! b;
  }

  lemma {:induction false} NlinkSum(v: View, ids: set<nat>)
    requires ids <= v.nodes.Keys
    requires forall c {:trigger CountsLinks(v, c)} :: c in v.nodes ==> CountsLinks(v, c)
    ensures Numbers.Sum(ids, NlinkOf(v)) == |IncomingTo(v, ids)| + (if ROOT in ids then 1 else 0)
    decreases |ids|
  {
    if ids == {} {
      assert IncomingTo(v, ids) == {};
    } else {
      var c := Numbers.Least(ids);
      NlinkSum(v, ids - {c});
      assert CountsLinks(v, c);
      IncomingSplits(v, ids, c);
    }
  }

  lemma AllIncoming(v: View)
    requires forall e :: e in v.links ==> LinkSound(v, e)
    ensures IncomingTo(v, v.nodes.Keys) == v.links.Keys
  {
    forall e
      ensures e in IncomingTo(v, v.nodes.Keys) <==> e in v.links.Keys
    {
      if e in v.links { assert LinkSound(v, e); }
    }
  }

  /** The link counts of all nodes add up to the number of links, plus the root's own. */
  lemma LinksConserved(v: View)
    requires Sound(v)
    ensures Numbers.Sum(v.nodes.Keys, NlinkOf(v)) == |v.links| + 1
  {
    NlinkSum(v, v.nodes.Keys);
    AllIncoming(v);
    assert |v.links.Keys| == |v.links|;
  }

  // ---- statistics ----

  datatype Stats = Stats(nodes: map<Type, nat>, links: nat, totalSize: nat)

  function Alive(v: View, t: Type): set<nat> {
    set id | id in v.nodes && v.nodes[id].nlink > 0 && v.nodes[id].typ == t
  }

  ghost function SizeOf(v: View): nat -> nat {
    id => if id in v.nodes then v.nodes[id].size else 0
  }

  ghost function StatsOf(v: View): Stats {
    Stats(map t: Type | t in TYPES :: |Alive(v, t)|,
          |v.links|, Numbers.Sum(Alive(v, REG), SizeOf(v)))
  }

  // ---- node differences ----

  datatype NodeChange = CREATED | REMOVED | MODIFIED_CONTENT | MODIFIED_ATTRS

  datatype NodeDiff = NodeDiff(id: nat, change: NodeChange)

  predicate Living(a: Option<Attr>) {
    a.Some? && a.value.nlink > 0
  }

  /** How a node differs between two views, by its state in each. */
  function Classify(a: Option<Attr>, b: Option<Attr>): Option<NodeChange> {
    if !Living(a) && !Living(b) then None
    else if !Living(a) then Some(CREATED)
    else if !Living(b) then Some(REMOVED)
    else
      var x, y := a.value, b.value;
      if x.blob != y.blob || x.spec != y.spec || x.size != y.size then Some(MODIFIED_CONTENT)
      else if x.mode != y.mode || x.uid != y.uid || x.gid != y.gid || x.mtime != y.mtime then Some(MODIFIED_ATTRS)
      else None
  }

  /** The comparison as both engines make it. */
  method CompareStates(id: nat, a: Option<Attr>, b: Option<Attr>) returns (d: seq<NodeDiff>)
    ensures d == match Classify(a, b)
      case None => []
      case Some(c) => [NodeDiff(id, c)]
  {
    var eA := a.Some? && a.value.nlink > 0;
    var eB := b.Some? && b.value.nlink > 0;
    if !eA && !eB { return []; }
    if !eA { return [NodeDiff(id, CREATED)]; }
    if !eB { return [NodeDiff(id, REMOVED)]; }
    var x, y := a.value, b.value;
    var content := x.blob != y.blob || x.spec != y.spec || x.size != y.size;
    var attrs := x.mode != y.mode || x.uid != y.uid || x.gid != y.gid || x.mtime != y.mtime;
    return if content then [NodeDiff(id, MODIFIED_CONTENT)] else if attrs then [NodeDiff(id, MODIFIED_ATTRS)] else [];
  }

  function ClassifyIn(v: View, w: View, id: nat): Option<NodeChange> {
    Classify(Get(v.nodes, id), Get(w.nodes, id))
  }

  function Report(v: View, w: View, id: nat): seq<NodeDiff> {
    match ClassifyIn(v, w, id)
    case None => []
    case Some(c) => [NodeDiff(id, c)]
  }

  function Collect(v: View, w: View, ids: seq<nat>): seq<NodeDiff> {
    if ids == [] then [] else Collect(v, w, ids[..|ids| - 1]) + Report(v, w, ids[|ids| - 1])
  }

  /** The comparison of two views over all their nodes, in ascending order of id. */
  function DiffNodes(v: View, w: View): seq<NodeDiff> {
    Collect(v, w, Numbers.Sorted(v.nodes.Keys + w.nodes.Keys))
  }

  ghost predicate OrderedById(ds: seq<NodeDiff>) {
    forall i, j :: 0 <= i < j < |ds| ==> ds[i].id < ds[j].id
  }

  lemma {:induction false} CollectHas(v: View, w: View, ids: seq<nat>, d: NodeDiff)
    ensures d in Collect(v, w, ids) <==> d.id in ids && ClassifyIn(v, w, d.id) == Some(d.change)
  {
    if ids != [] {
      var n := |ids| - 1;
      CollectHas(v, w, ids[..n], d);
      assert ids == ids[..n] + [ids[n]];
    }
  }

  lemma {:induction false} CollectOrdered(v: View, w: View, ids: seq<nat>)
    requires Numbers.Ascending(ids)
    ensures OrderedById(Collect(v, w, ids))
  {
    if ids != [] {
      var n := |ids| - 1;
      CollectOrdered(v, w, ids[..n]);
      forall d | d in Collect(v, w, ids[..n])
        ensures d.id < ids[n]
      {
        CollectHas(v, w, ids[..n], d);
      }
    }
  }

  /** Each differing node is reported once, in ascending order, with its classification. */
  lemma DiffNodesMeaning(v: View, w: View, d: NodeDiff)
    ensures d in DiffNodes(v, w) <==> ClassifyIn(v, w, d.id) == Some(d.change)
    ensures OrderedById(DiffNodes(v, w))
  {
    var ids := Numbers.Sorted(v.nodes.Keys + w.nodes.Keys);
    CollectHas(v, w, ids, d);
    CollectOrdered(v, w, ids);
    if d.id !in v.nodes && d.id !in w.nodes {
      assert ClassifyIn(v, w, d.id) == None;
    } else {
      assert d.id in ids;
    }
  }

  function Mirrored(c: NodeChange): NodeChange {
    match c
    case CREATED => REMOVED
    case REMOVED => CREATED
    case _ => c
  }

  lemma ClassifyMirrored(a: Option<Attr>, b: Option<Attr>, c: NodeChange)
    ensures Classify(a, b) == Some(c) <==> Classify(b, a) == Some(Mirrored(c))
  {
  }

  /** Read backward in time, a difference is the same one with creations and removals exchanged. */
  lemma DiffMirrored(v: View, w: View, d: NodeDiff, ds: seq<NodeDiff>, back: seq<NodeDiff>)
    requires ds == DiffNodes(v, w) && back == DiffNodes(w, v)
    ensures d in ds <==> NodeDiff(d.id, Mirrored(d.change)) in back
  {
    DiffNodesMeaning(v, w, d);
    DiffNodesMeaning(w, v, NodeDiff(d.id, Mirrored(d.change)));
    ClassifyMirrored(Get(v.nodes, d.id), Get(w.nodes, d.id), d.change);
  }

  lemma CollectLast(v: View, w: View, ids: seq<nat>)
    requires ids != []
    requires ClassifyIn(v, w, ids[|ids| - 1]) == None
    ensures Collect(v, w, ids) == Collect(v, w, ids[..|ids| - 1])
  {
  }

  lemma AscendingInit(ids: seq<nat>, id: nat)
    requires Numbers.Ascending(ids) && ids != []
    ensures Numbers.Ascending(ids[..|ids| - 1])
    ensures id in ids[..|ids| - 1] <==> id in ids && id != ids[|ids| - 1]
    ensures id in ids ==> id <= ids[|ids| - 1]
  {
    assert ids == ids[..|ids| - 1] + [ids[|ids| - 1]];
  }

  /** some leaves out only ids with nothing to report. */
  ghost predicate Covers(v: View, w: View, some: seq<nat>, all: seq<nat>) {
    && (forall id :: id in some ==> id in all)
    && (forall id :: id in all && id !in some ==> ClassifyIn(v, w, id) == None)
  }

  /** Ids with nothing to report may be left out of the scan. */
  lemma {:induction false} CollectSkips(v: View, w: View, some: seq<nat>, all: seq<nat>)
    requires Numbers.Ascending(some) && Numbers.Ascending(all) && Covers(v, w, some, all)
    ensures Collect(v, w, some) == Collect(v, w, all)
    decreases |all|
  {
    if some != [] { assert some[0] in some && some[|some| - 1] in some; }
    if all != [] {
      var last := all[|all| - 1];
      var some', all' := if last in some then some[..|some| - 1] else some, all[..|all| - 1];
      if last in some {
        AscendingInit(some, last);
        AscendingInit(all, some[|some| - 1]);
      } else {
        assert last in all;
        CollectLast(v, w, all);
      }
      forall id | id in some'
        ensures id in all'
      {
        AscendingInit(all, id);
        if last in some { AscendingInit(some, id); }
      }
      forall id | id in all' && id !in some'
        ensures ClassifyIn(v, w, id) == None
      {
        AscendingInit(all, id);
        if last in some { AscendingInit(some, id); }
      }
      AscendingInit(all, last);
      CollectSkips(v, w, some', all');
    }
  }

  lemma CollectSets(v: View, w: View, some: set<nat>, all: set<nat>)
    requires some <= all && forall id :: id !in some ==> ClassifyIn(v, w, id) == None
    ensures Collect(v, w, Numbers.Sorted(some)) == Collect(v, w, Numbers.Sorted(all))
  {
    var a, b := Numbers.Sorted(some), Numbers.Sorted(all);
    assert Covers(v, w, a, b);
    CollectSkips(v, w, a, b);
  }

  lemma ClassifyTriangle(a: Option<Attr>, b: Option<Attr>, c: Option<Attr>)
    requires Classify(a, b) == None && Classify(b, c) == None
    ensures Classify(a, c) == None
  {
  }

  /** A change across two intervals shows in one of them. */
  lemma DiffTriangle(u: View, v: View, w: View, d: NodeDiff)
    requires d in DiffNodes(u, w)
    ensures exists x: NodeDiff :: x.id == d.id && (x in DiffNodes(u, v) || x in DiffNodes(v, w))
  {
    DiffNodesMeaning(u, w, d);
    var before, after := ClassifyIn(u, v, d.id), ClassifyIn(v, w, d.id);
    if before.Some? {
      DiffNodesMeaning(u, v, NodeDiff(d.id, before.value));
    } else if after.Some? {
      DiffNodesMeaning(v, w, NodeDiff(d.id, after.value));
    } else {
      ClassifyTriangle(Get(u.nodes, d.id), Get(v.nodes, d.id), Get(w.nodes, d.id));
    }
  }

  // ---- path differences ----

  datatype PathChange = ADDED | DROPPED

  datatype PathDiff = PathDiff(change: PathChange, parent: nat, name: Name, child: nat)

  /** Names gained and lost, directory by directory. */
  ghost predicate NameDiff(v: View, w: View, p: PathDiff) {
    var e := Edge(p.parent, p.name);
    match p.change
    case ADDED => e in w.links && e !in v.links && w.links[e] == p.child
    case DROPPED => e in v.links && e !in w.links && v.links[e] == p.child
  }

  /** Bindings gained and lost: a name bound to another child counts as both. */
  ghost predicate BindingDiff(v: View, w: View, p: PathDiff) {
    var e := Edge(p.parent, p.name);
    match p.change
    case ADDED => Get(w.links, e) == Some(p.child) && Get(v.links, e) != Some(p.child)
    case DROPPED => Get(v.links, e) == Some(p.child) && Get(w.links, e) != Some(p.child)
  }

  /** The store reports directory by directory, names gained before names lost, each in name order. */
  ghost predicate StoreBefore(p: PathDiff, q: PathDiff) {
    p.parent < q.parent
    || (p.parent == q.parent && if p.change == q.change then Less(p.name, q.name) else p.change == ADDED)
  }

  /** The oracle reports link by link, the old binding before the new one. */
  ghost predicate OracleBefore(p: PathDiff, q: PathDiff) {
    p.parent < q.parent
    || (p.parent == q.parent && if p.name == q.name then p.change == DROPPED && q.change == ADDED else Less(p.name, q.name))
  }

  ghost predicate InStoreOrder(ps: seq<PathDiff>) {
    forall i, j :: 0 <= i < j < |ps| ==> StoreBefore(ps[i], ps[j])
  }

  ghost predicate InOracleOrder(ps: seq<PathDiff>) {
    forall i, j :: 0 <= i < j < |ps| ==> OracleBefore(ps[i], ps[j])
  }

  lemma StoreOrderJoins(ps: seq<PathDiff>, qs: seq<PathDiff>)
    requires InStoreOrder(ps) && InStoreOrder(qs) && forall p, q :: p in ps && q in qs ==> StoreBefore(p, q)
    ensures InStoreOrder(ps + qs)
  {
    forall i, j | 0 <= i < j < |ps + qs|
      ensures StoreBefore((ps + qs)[i], (ps + qs)[j])
    {
      if i < |ps| <= j { assert ps[i] in ps && qs[j - |ps|] in qs; }
    }
  }

  lemma OracleOrderJoins(ps: seq<PathDiff>, qs: seq<PathDiff>)
    requires InOracleOrder(ps) && InOracleOrder(qs) && forall p, q :: p in ps && q in qs ==> OracleBefore(p, q)
    ensures InOracleOrder(ps + qs)
  {
    forall i, j | 0 <= i < j < |ps + qs|
      ensures OracleBefore((ps + qs)[i], (ps + qs)[j])
    {
      if i < |ps| <= j { assert ps[i] in ps && qs[j - |ps|] in qs; }
    }
  }

  /** In either order no report comes twice. */
  lemma ReportedOnce(ps: seq<PathDiff>, i: nat, j: nat)
    requires (InStoreOrder(ps) || InOracleOrder(ps)) && i < j < |ps|
    ensures ps[i] != ps[j]
  {
    LessIrreflexive(ps[i].name);
  }

  ghost predicate NoRebinding(v: View, w: View) {
    forall e :: e in v.links && e in w.links ==> v.links[e] == w.links[e]
  }

  /** The store reports names, the oracle reports bindings; they agree exactly when no name is rebound. */
  lemma PathDiffsAgreeIff(v: View, w: View)
    ensures (forall p :: NameDiff(v, w, p) <==> BindingDiff(v, w, p)) <==> NoRebinding(v, w)
  {
    if !NoRebinding(v, w) {
      var e :| e in v.links && e in w.links && v.links[e] != w.links[e];
      var p := PathDiff(ADDED, e.dir, e.name, w.links[e]);
      assert BindingDiff(v, w, p) && !NameDiff(v, w, p);
    }
  }

  /** Bindings differ nowhere exactly when the links are the same. */
  lemma NoBindingDiffIff(v: View, w: View)
    ensures (forall p :: !BindingDiff(v, w, p)) <==> v.links == w.links
  {
    if v.links != w.links {
      if e :| e in v.links && Get(w.links, e) != Some(v.links[e]) {
        assert BindingDiff(v, w, PathDiff(DROPPED, e.dir, e.name, v.links[e]));
      } else {
        var e :| e in w.links && e !in v.links;
        assert BindingDiff(v, w, PathDiff(ADDED, e.dir, e.name, w.links[e]));
      }
    }
  }
}
