/**
 The oracle's representation: a list of versions per node, and a list of lifetime intervals per link.
 An interval is live at g from the snapshot it was born in up to, and not including, the one it died in.
 */
module Intervals {
  import opened Options
  import opened FileSystem
  import opened Handles
  import opened Observations

  datatype NodeVer = NodeVer(snap: nat, attr: Attr)

  // dead == 0 means still live
  datatype LinkIv = LinkIv(born: nat, dead: nat, child: nat)

  type Versions = map<nat, seq<NodeVer>>
  type Lifetimes = map<Edge, seq<LinkIv>>

  // ---- versions of one node ----

  /** The newest version at or below g. */
  function Eff(vs: seq<NodeVer>, g: nat): Option<Attr> {
    if vs == [] then None
    else if vs[|vs| - 1].snap <= g then Some(vs[|vs| - 1].attr)
    else Eff(vs[..|vs| - 1], g)
  }

  function EffAt(nodes: Versions, id: nat, g: nat): Option<Attr> {
    if id in nodes then Eff(nodes[id], g) else None
  }

  ghost predicate Newer(vs: seq<NodeVer>, i: int, j: int) {
    0 <= i < j < |vs| ==> vs[i].snap < vs[j].snap
  }

  ghost predicate VersOk(vs: seq<NodeVer>, cur: nat) {
    && vs != [] && 1 <= vs[0].snap && vs[|vs| - 1].snap <= cur
    && forall i, j :: Newer(vs, i, j)
  }

  /** The versions from i on are too new to matter. */
  lemma {:induction false} EffSkips(vs: seq<NodeVer>, i: nat, g: nat)
    requires i <= |vs| && forall j :: i <= j < |vs| ==> vs[j].snap > g
    ensures Eff(vs, g) == Eff(vs[..i], g)
    decreases |vs|
  {
    if i < |vs| {
      EffSkips(vs[..|vs| - 1], i, g);
      assert vs[..|vs| - 1][..i] == vs[..i];
    } else {
      assert vs[..i] == vs;
    }
  }

  lemma EffFound(vs: seq<NodeVer>, cur: nat, i: nat, g: nat)
    requires VersOk(vs, cur) && i <= |vs| && (i < |vs| ==> vs[i].snap > g)
    ensures Eff(vs, g) == Eff(vs[..i], g)
  {
    forall j | i <= j < |vs|
      ensures vs[j].snap > g
    {
      assert Newer(vs, i, j);
    }
    EffSkips(vs, i, g);
  }

  /** liveVer followed by an assignment: the version of the current snapshot now holds a. */
  function Stamp(vs: seq<NodeVer>, cur: nat, a: Attr): seq<NodeVer> {
    (if vs != [] && vs[|vs| - 1].snap == cur then vs[..|vs| - 1] else vs) + [NodeVer(cur, a)]
  }

  lemma StampOk(vs: seq<NodeVer>, cur: nat, a: Attr)
    requires VersOk(vs, cur)
    ensures VersOk(Stamp(vs, cur, a), cur)
  {
    var s := Stamp(vs, cur, a);
    assert Newer(vs, 0, |vs| - 1);
    forall i, j
      ensures Newer(s, i, j)
    {
      assert Newer(vs, i, j) && Newer(vs, i, |vs| - 1);
    }
  }

  lemma StampShows(vs: seq<NodeVer>, cur: nat, a: Attr, g: nat)
    requires VersOk(vs, cur)
    ensures Eff(Stamp(vs, cur, a), g) == if g >= cur then Some(a) else Eff(vs, g)
  {
    var s := Stamp(vs, cur, a);
    assert s[..|s| - 1] == if vs[|vs| - 1].snap == cur then vs[..|vs| - 1] else vs;
  }

  lemma FirstVersion(cur: nat, a: Attr, g: nat)
    ensures Eff([NodeVer(cur, a)], g) == if g >= cur then Some(a) else None
  {
    assert [NodeVer(cur, a)][..0] == [];
  }

  lemma EffLast(vs: seq<NodeVer>, cur: nat, g: nat)
    requires VersOk(vs, cur) && g >= cur
    ensures Eff(vs, g) == Some(vs[|vs| - 1].attr)
  {
  }

  // ---- lifetimes of one link ----

  predicate LiveAt(iv: LinkIv, g: nat) {
    iv.born <= g && (iv.dead == 0 || iv.dead > g)
  }

  /** The child of the first interval live at g. */
  function ChildIn(ivs: seq<LinkIv>, g: nat): Option<nat> {
    if ivs == [] then None
    else if LiveAt(ivs[0], g) then Some(ivs[0].child)
    else ChildIn(ivs[1..], g)
  }

  function ChildOf(links: Lifetimes, e: Edge, g: nat): Option<nat> {
    if e in links then ChildIn(links[e], g) else None
  }

  ghost predicate IvOk(iv: LinkIv, cur: nat) {
    1 <= iv.born <= cur && (iv.dead == 0 || iv.born < iv.dead <= cur)
  }

  ghost predicate Precedes(ivs: seq<LinkIv>, i: int, j: int) {
    0 <= i < j < |ivs| ==> ivs[i].dead != 0 && ivs[i].dead <= ivs[j].born
  }

  /** Intervals follow one another without overlap; only the last may be live. */
  ghost predicate IvsOk(ivs: seq<LinkIv>, cur: nat) {
    && (forall i :: 0 <= i < |ivs| ==> IvOk(ivs[i], cur))
    && (forall i, j :: Precedes(ivs, i, j))
  }

  /** At most one interval is live at any snapshot, so first is as good as any. */
  lemma {:induction false} ChildWhenLive(ivs: seq<LinkIv>, cur: nat, g: nat, i: nat)
    requires IvsOk(ivs, cur) && i < |ivs| && LiveAt(ivs[i], g)
    ensures ChildIn(ivs, g) == Some(ivs[i].child)
    ensures forall j :: 0 <= j < |ivs| && LiveAt(ivs[j], g) ==> j == i
    decreases i
  {
    forall j | 0 <= j < |ivs| && LiveAt(ivs[j], g)
      ensures j == i
    {
      assert Precedes(ivs, i, j) && Precedes(ivs, j, i);
    }
    if i != 0 {
      assert !LiveAt(ivs[0], g);
      forall j, k
        ensures Precedes(ivs[1..], j, k)
      {
        assert Precedes(ivs, j + 1, k + 1);
      }
      ChildWhenLive(ivs[1..], cur, g, i - 1);
    }
  }

  lemma {:induction false} ChildWhenDead(ivs: seq<LinkIv>, g: nat)
    requires forall i :: 0 <= i < |ivs| ==> !LiveAt(ivs[i], g)
    ensures ChildIn(ivs, g) == None
  {
    if ivs != [] { ChildWhenDead(ivs[1..], g); }
  }

  lemma {:induction false} ChildAppend(ivs: seq<LinkIv>, iv: LinkIv, g: nat)
    ensures ChildIn(ivs + [iv], g) ==
      if ChildIn(ivs, g).Some? then ChildIn(ivs, g) else if LiveAt(iv, g) then Some(iv.child) else None
  {
    if ivs == [] {
      assert (ivs + [iv])[1..] == [];
    } else {
      ChildAppend(ivs[1..], iv, g);
      assert (ivs + [iv])[1..] == ivs[1..] + [iv];
    }
  }

  /** Intervals that have all ended show nothing from now on. */
  lemma AllEnded(ivs: seq<LinkIv>, cur: nat, g: nat)
    requires IvsOk(ivs, cur) && g >= cur && forall i :: 0 <= i < |ivs| ==> ivs[i].dead != 0
    ensures ChildIn(ivs, g) == None
  {
    forall i | 0 <= i < |ivs|
      ensures !LiveAt(ivs[i], g)
    {
      assert IvOk(ivs[i], cur);
    }
    ChildWhenDead(ivs, g);
  }

  lemma IvsAppend(ivs: seq<LinkIv>, iv: LinkIv, cur: nat)
    requires IvsOk(ivs, cur) && IvOk(iv, cur) && forall i :: 0 <= i < |ivs| ==> ivs[i].dead != 0 && ivs[i].dead <= iv.born
    ensures IvsOk(ivs + [iv], cur)
  {
    forall i, j
      ensures Precedes(ivs + [iv], i, j)
    {
      assert Precedes(ivs, i, j);
    }
  }

  /** A link made now shows from now on. */
  lemma BirthShows(ivs: seq<LinkIv>, cur: nat, child: nat, g: nat)
    requires cur >= 1 && IvsOk(ivs, cur) && ChildIn(ivs, cur).None?
    ensures var ivs' := ivs + [LinkIv(cur, 0, child)];
      IvsOk(ivs', cur) && ChildIn(ivs', g) == if g >= cur then Some(child) else ChildIn(ivs, g)
  {
    forall i | 0 <= i < |ivs|
      ensures ivs[i].dead != 0 && ivs[i].dead <= cur
    {
      assert IvOk(ivs[i], cur);
      if ivs[i].dead == 0 { ChildWhenLive(ivs, cur, cur, i); }
    }
    IvsAppend(ivs, LinkIv(cur, 0, child), cur);
    ChildAppend(ivs, LinkIv(cur, 0, child), g);
    if g >= cur { AllEnded(ivs, cur, g); }
  }

  /** Ending a link: an interval born in this snapshot vanishes, an older one dies now. */
  function Ended(ivs: seq<LinkIv>, i: nat, cur: nat): seq<LinkIv>
    requires i < |ivs|
  {
    if ivs[i].born == cur then ivs[..i] + ivs[i + 1..] else ivs[i := ivs[i].(dead := cur)]
  }

  /** The interval live now is the last one. */
  lemma LiveIsLast(ivs: seq<LinkIv>, cur: nat, i: nat)
    requires IvsOk(ivs, cur) && i < |ivs| && LiveAt(ivs[i], cur)
    ensures i == |ivs| - 1 && ivs[i].dead == 0
  {
    assert Precedes(ivs, i, |ivs| - 1);
  }

  lemma EndShows(ivs: seq<LinkIv>, cur: nat, i: nat, g: nat)
    requires IvsOk(ivs, cur) && i < |ivs| && LiveAt(ivs[i], cur)
    ensures IvsOk(Ended(ivs, i, cur), cur)
    ensures ChildIn(Ended(ivs, i, cur), g) == if g >= cur then None else ChildIn(ivs, g)
  {
    LiveIsLast(ivs, cur, i);
    var init, last := ivs[..i], ivs[i];
    assert IvOk(last, cur) && ivs == init + [last];
    forall j | 0 <= j < |init|
      ensures init[j].dead != 0 && init[j].dead <= last.born
    {
      assert Precedes(ivs, j, i);
    }
    forall j, k
      ensures Precedes(init, j, k)
    {
      assert Precedes(ivs, j, k);
    }
    ChildAppend(init, last, g);
    if last.born != cur {
      IvsAppend(init, last.(dead := cur), cur);
      ChildAppend(init, last.(dead := cur), g);
    }
    assert Ended(ivs, i, cur) == if last.born == cur then init else init + [last.(dead := cur)];
    if g >= cur { AllEnded(init, cur, g); }
  }

  // ---- the tables against the plain file system ----

  /** Versions show the nodes; under a snapshot directory's id nothing alive may be kept. */
  ghost predicate NodeShown(nodes: Versions, fs: Fs, id: nat, g: nat) {
    if IsSnapDir(id) then !Living(EffAt(nodes, id, g)) else EffAt(nodes, id, g) == Get(fs.At(g).nodes, id)
  }

  ghost predicate LinkShown(links: Lifetimes, fs: Fs, e: Edge, g: nat) {
    ChildOf(links, e, g) == Get(fs.At(g).links, e)
  }

  /** Every list of versions is in order. */
  ghost predicate Ordered(nodes: Versions, cur: nat) {
    cur >= 1 && forall id :: id in nodes ==> VersOk(nodes[id], cur)
  }

  lemma StampedOrdered(nodes: Versions, cur: nat, id: nat, a: Attr)
    requires Ordered(nodes, cur)
    ensures Ordered(nodes[id := Stamp(if id in nodes then nodes[id] else [], cur, a)], cur)
  {
    if id in nodes { StampOk(nodes[id], cur, a); }
  }

  ghost predicate NodesShow(nodes: Versions, cur: nat, fs: Fs) {
    && (forall id :: id in nodes ==> VersOk(nodes[id], cur) && (id < fs.next || IsSnapDir(id)))
    && (forall id: nat, g: nat {:trigger NodeShown(nodes, fs, id, g)} :: NodeShown(nodes, fs, id, g))
  }

  ghost predicate LinksShow(links: Lifetimes, cur: nat, fs: Fs) {
    && (forall e :: e in links ==> IvsOk(links[e], cur) && e.dir < fs.next)
    && (forall e: Edge, g: nat {:trigger LinkShown(links, fs, e, g)} :: LinkShown(links, fs, e, g))
  }

  ghost predicate NameListed(names: map<nat, set<Name>>, e: Edge) {
    e.dir in names && e.name in names[e.dir]
  }

  /** Every name that was ever linked is still listed. */
  ghost predicate NamesCover(names: map<nat, set<Name>>, links: Lifetimes) {
    forall e {:trigger NameListed(names, e)} :: e in links ==> NameListed(names, e)
  }

  ghost predicate VersionTouched(changes: map<nat, set<nat>>, id: nat, s: nat) {
    s in changes && id in changes[s]
  }

  function Listed(names: map<nat, set<Name>>, e: Edge): map<nat, set<Name>> {
    names[e.dir := (if e.dir in names then names[e.dir] else {}) + {e.name}]
  }

  function Born(links: Lifetimes, e: Edge, cur: nat, child: nat): Lifetimes {
    links[e := (if e in links then links[e] else []) + [LinkIv(cur, 0, child)]]
  }

  lemma NameAdded(names: map<nat, set<Name>>, links: Lifetimes, e: Edge, ivs: seq<LinkIv>)
    requires NamesCover(names, links)
    ensures NamesCover(Listed(names, e), links[e := ivs])
  {
    var names' := Listed(names, e);
    forall f | f in links[e := ivs]
      ensures NameListed(names', f)
    {
      assert f in links ==> NameListed(names, f);
    }
  }

  lemma NameKept(names: map<nat, set<Name>>, links: Lifetimes, e: Edge, ivs: seq<LinkIv>)
    requires NamesCover(names, links) && e in links
    ensures NamesCover(names, links[e := ivs])
  {
  }

  ghost predicate VersionCovered(changes: map<nat, set<nat>>, nodes: Versions, id: nat, i: nat) {
    id in nodes && i < |nodes[id]| ==> VersionTouched(changes, id, nodes[id][i].snap)
  }

  /** Every version has its entry in the change index. */
  ghost predicate ChangesCover(changes: map<nat, set<nat>>, nodes: Versions) {
    forall id: nat, i: nat {:trigger VersionCovered(changes, nodes, id, i)} :: VersionCovered(changes, nodes, id, i)
  }

  function Touched(changes: map<nat, set<nat>>, cur: nat, id: nat): map<nat, set<nat>> {
    changes[cur := (if cur in changes then changes[cur] else {}) + {id}]
  }

  lemma TouchKeeps(changes: map<nat, set<nat>>, nodes: Versions, cur: nat, id: nat)
    requires ChangesCover(changes, nodes)
    ensures ChangesCover(Touched(changes, cur, id), nodes)
  {
    forall x: nat, i: nat
      ensures VersionCovered(Touched(changes, cur, id), nodes, x, i)
    {
      assert VersionCovered(changes, nodes, x, i);
    }
  }

  lemma TouchCovers(changes: map<nat, set<nat>>, nodes: Versions, cur: nat, id: nat, a: Attr)
    requires ChangesCover(changes, nodes)
    ensures ChangesCover(Touched(changes, cur, id), nodes[id := Stamp(if id in nodes then nodes[id] else [], cur, a)])
  {
    var vs: seq<NodeVer> := if id in nodes then nodes[id] else [];
    var nodes': Versions := nodes[id := Stamp(vs, cur, a)];
    forall x: nat, i: nat
      ensures VersionCovered(Touched(changes, cur, id), nodes', x, i)
    {
      assert VersionCovered(changes, nodes, x, i);
      assert x == id && i < |nodes'[id]| - 1 ==> nodes'[id][i] == vs[i];
    }
  }

  // ---- one step of the plain file system, shown ----

  ghost predicate SameSealed(fs: Fs, fs': Fs) {
    fs'.sealed == fs.sealed && fs'.next >= fs.next
  }

  lemma StampedShows(nodes: Versions, nodes': Versions, fs: Fs, fs': Fs, id: nat, a: Attr)
    requires NodesShow(nodes, fs.Cur(), fs) && SameSealed(fs, fs') && id in nodes && !IsSnapDir(id)
    requires fs'.live.nodes == fs.live.nodes[id := a]
    requires nodes' == nodes[id := Stamp(nodes[id], fs.Cur(), a)]
    ensures NodesShow(nodes', fs.Cur(), fs')
  {
    var cur := fs.Cur();
    forall x: nat, g: nat
      ensures NodeShown(nodes', fs', x, g)
    {
      StampedView(nodes, fs, fs', id, a, x, g);
    }
    StampOk(nodes[id], cur, a);
  }

  lemma StampedView(nodes: Versions, fs: Fs, fs': Fs, id: nat, a: Attr, x: nat, g: nat)
    requires NodesShow(nodes, fs.Cur(), fs) && SameSealed(fs, fs') && id in nodes && !IsSnapDir(id)
    requires fs'.live.nodes == fs.live.nodes[id := a]
    ensures NodeShown(nodes[id := Stamp(nodes[id], fs.Cur(), a)], fs', x, g)
  {
    assert NodeShown(nodes, fs, x, g);
    StampShows(nodes[id], fs.Cur(), a, g);
  }

  /** A version stamped under a snapshot directory's id shows nowhere. */
  lemma ShadowShows(nodes: Versions, nodes': Versions, fs: Fs, id: nat, a: Attr)
    requires NodesShow(nodes, fs.Cur(), fs) && IsSnapDir(id) && a.nlink == 0
    requires nodes' == nodes[id := Stamp(if id in nodes then nodes[id] else [], fs.Cur(), a)]
    ensures NodesShow(nodes', fs.Cur(), fs)
  {
    var cur := fs.Cur();
    forall x: nat, g: nat
      ensures NodeShown(nodes', fs, x, g)
    {
      assert NodeShown(nodes, fs, x, g);
      if id in nodes { StampShows(nodes[id], cur, a, g); } else { FirstVersion(cur, a, g); }
    }
    if id in nodes { StampOk(nodes[id], cur, a); }
  }

  lemma MintedShows(nodes: Versions, fs: Fs, fs': Fs, a: Attr)
    requires NodesShow(nodes, fs.Cur(), fs) && fs'.sealed == fs.sealed && fs'.next == fs.next + 1 && !IsSnapDir(fs.next)
    requires fs'.live.nodes == fs.live.nodes[fs.next := a]
    ensures NodesShow(nodes[fs.next := [NodeVer(fs.Cur(), a)]], fs.Cur(), fs')
  {
    var cur := fs.Cur();
    var nodes' := nodes[fs.next := [NodeVer(cur, a)]];
    forall x: nat, g: nat
      ensures NodeShown(nodes', fs', x, g)
    {
      assert NodeShown(nodes, fs, x, g);
      FirstVersion(cur, a, g);
    }
  }

  lemma NodesKept(nodes: Versions, fs: Fs, fs': Fs)
    requires NodesShow(nodes, fs.Cur(), fs) && SameSealed(fs, fs') && fs'.live.nodes == fs.live.nodes
    ensures NodesShow(nodes, fs.Cur(), fs')
  {
    forall x: nat, g: nat
      ensures NodeShown(nodes, fs', x, g)
    {
      assert NodeShown(nodes, fs, x, g);
    }
  }

  lemma LinksKept(links: Lifetimes, fs: Fs, fs': Fs)
    requires LinksShow(links, fs.Cur(), fs) && SameSealed(fs, fs') && fs'.live.links == fs.live.links
    ensures LinksShow(links, fs.Cur(), fs')
  {
    forall e: Edge, g: nat
      ensures LinkShown(links, fs', e, g)
    {
      assert LinkShown(links, fs, e, g);
    }
  }

  lemma BornShows(links: Lifetimes, fs: Fs, fs': Fs, e: Edge, child: nat)
    requires LinksShow(links, fs.Cur(), fs) && SameSealed(fs, fs') && e !in fs.live.links && e.dir < fs.next
    requires fs'.live.links == fs.live.links[e := child]
    ensures LinksShow(Born(links, e, fs.Cur(), child), fs.Cur(), fs')
  {
    var cur := fs.Cur();
    var ivs := if e in links then links[e] else [];
    var links' := links[e := ivs + [LinkIv(cur, 0, child)]];
    assert LinkShown(links, fs, e, cur);
    forall f: Edge, g: nat
      ensures LinkShown(links', fs', f, g)
    {
      assert LinkShown(links, fs, f, g);
      BirthShows(ivs, cur, child, g);
    }
    BirthShows(ivs, cur, child, cur);
  }

  lemma EndedShows(links: Lifetimes, fs: Fs, fs': Fs, e: Edge, i: nat)
    requires LinksShow(links, fs.Cur(), fs) && SameSealed(fs, fs')
    requires e in links && i < |links[e]| && LiveAt(links[e][i], fs.Cur())
    requires fs'.live.links == fs.live.links - {e}
    ensures LinksShow(links[e := Ended(links[e], i, fs.Cur())], fs.Cur(), fs')
  {
    var cur := fs.Cur();
    var links' := links[e := Ended(links[e], i, cur)];
    forall f: Edge, g: nat
      ensures LinkShown(links', fs', f, g)
    {
      assert LinkShown(links, fs, f, g);
      EndShows(links[e], cur, i, g);
    }
    EndShows(links[e], cur, i, cur);
  }

  /** Sealing the live view changes no view. */
  lemma SealedShows(nodes: Versions, links: Lifetimes, fs: Fs, fs': Fs)
    requires NodesShow(nodes, fs.Cur(), fs) && LinksShow(links, fs.Cur(), fs)
    requires fs'.sealed == fs.sealed + [fs.live] && fs'.live == fs.live && fs'.next == fs.next
    ensures NodesShow(nodes, fs'.Cur(), fs') && LinksShow(links, fs'.Cur(), fs')
  {
    forall g: nat
      ensures fs'.At(g) == fs.At(g)
    {
    }
    forall x: nat, g: nat
      ensures NodeShown(nodes, fs', x, g)
    {
      assert NodeShown(nodes, fs, x, g);
    }
    forall e: Edge, g: nat
      ensures LinkShown(links, fs', e, g)
    {
      assert LinkShown(links, fs, e, g);
    }
  }
}
