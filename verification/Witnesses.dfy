/**
 Short runs from a fresh start on which the engines differ, or a promise of the interface fails: each lies
 outside the exact condition proved elsewhere, and each is reachable.
 */
module Witnesses {
  import opened Keys
  import opened Options
  import opened FileSystem
  import opened Observations
  import opened Handles
  import opened Cursors
  import opened Paging
  import MemStore
  import PrfsStore
  import Refinement

  /** A node, bound once. */
  function NameNode(t: Type, name: Name): seq<Op> {
    [Create(t, [], 0), Link(ROOT, name, 2)]
  }

  lemma NodeNamed(clock: nat, t: Type, name: Name, fs: Fs)
    requires name != SNAPSHOT_NAME && fs == Run(Init(clock), NameNode(t, name))
    ensures fs.sealed == [] && fs.live.links == map[Edge(ROOT, name) := 2]
    ensures 2 in fs.live.nodes && fs.live.nodes[2].typ == t && IsDir(fs.live, ROOT) && 3 !in fs.live.nodes
    ensures Healthy(fs) && fs.next == 3
  {
    var f0 := Init(clock);
    var f1 := Step(f0, Create(t, [], 0)).0;
    forall x, y
      ensures !Child(f1.live, x, y)
    {
    }
    ClosedUnreachable(f1.live, {2}, 2, ROOT);
    var f2 := Step(f1, Link(ROOT, name, 2)).0;
    var ops := NameNode(t, name);
    assert ops[1..] == [Link(ROOT, name, 2)] && ops[1..][1..] == [];
    assert Run(f1, ops[1..]) == Run(f2, []) == f2;
    InitHealthy(clock);
    RunHealthy(f0, ops);
  }

  /** A file of the empty name: readdir lists it, one page of any positive size finishes the scan without it, and so
      does every other finished scan. */
  lemma EmptyNameNeverPaged(clock: nat, fs: Fs, max: nat, fss: seq<Fs>, maxs: seq<nat>)
    requires fs == Run(Init(clock), NameNode(REG, [])) && max >= 1
    requires |fss| == |maxs| && AllPositive(maxs) && Counted(fss) && Unchanging(fss, fs, Handle(ROOT, LATEST))
    ensures var h := Handle(ROOT, LATEST);
      && HasName(Readdir(fs, h), [])
      && Finished(Scan([fs], h, [], [max])) && Gathered(Scan([fs], h, [], [max])) == []
      && (Finished(Scan(fss, h, [], maxs)) ==> !Returned(Scan(fss, h, [], maxs), []))
  {
    NodeNamed(clock, REG, [], fs);
    var h := Handle(ROOT, LATEST);
    var d := DirEntry([], Handle(2, LATEST));
    ReaddirMeaning(fs, h, d);
    NothingAhead(fs, h, Rest(fs, h, []));
    UnchangedScanFinishes([fs], fs, h, [], [max]);
    UnchangedScan([fs], fs, h, [], [max]);
    if Finished(Scan(fss, h, [], maxs)) {
      forall i | 0 <= i < |fss|
        ensures HasName(Readdir(fss[i], h), [])
      {
        ReaddirMeaning(fss[i], h, d);
      }
      StableNamesReturned(fss, h, maxs, [], Gathered(Scan(fss, h, [], maxs)));
    }
  }

  lemma NothingAhead(fs: Fs, h: Handle, rest: seq<DirEntry>)
    requires fs.Cur() < LATEST && !IsSnapDir(h.id) && rest == Rest(fs, h, [])
    requires forall e :: e in Seen(fs, h).links ==> e.name == []
    ensures rest == []
  {
    if rest != [] {
      assert rest[0] in rest;
      RestMember(fs, h, [], rest[0]);
      ReaddirMeaning(fs, h, rest[0]);
      AboveIrreflexive(h, []);
      assert false;
    }
  }

  // ---- a name rebound across a snapshot ----

  function Rebind(name: Name): seq<Op> {
    [Create(REG, [], 0), Link(ROOT, name, 2), Snapshot, Create(REG, [], 0), Unlink(ROOT, name), Link(ROOT, name, 3)]
  }

  lemma {:induction false} RunSplits(fs: Fs, a: seq<Op>, b: seq<Op>)
    ensures Run(fs, a + b) == Run(Run(fs, a), b)
    decreases |a|
  {
    if a == [] {
      assert a + b == b;
    } else {
      RunSplits(Step(fs, a[0]).0, a[1..], b);
      assert (a + b)[1..] == a[1..] + b;
    }
  }

  lemma ReboundViews(clock: nat, name: Name, fs: Fs)
    requires name != SNAPSHOT_NAME && fs == Run(Init(clock), Rebind(name))
    ensures fs.Cur() == 2
    ensures fs.At(1).links == map[Edge(ROOT, name) := 2] && fs.At(2).links == map[Edge(ROOT, name) := 3]
  {
    var f2 := Run(Init(clock), NameNode(REG, name));
    NodeNamed(clock, REG, name, f2);
    var more := [Snapshot, Create(REG, [], 0), Unlink(ROOT, name), Link(ROOT, name, 3)];
    assert Rebind(name) == NameNode(REG, name) + more;
    RunSplits(Init(clock), NameNode(REG, name), more);
    var f3 := Step(f2, Snapshot).0;
    var f4 := Step(f3, Create(REG, [], 0)).0;
    var f5 := Step(f4, Unlink(ROOT, name)).0;
    var f6 := Step(f5, Link(ROOT, name, 3)).0;
    assert f4.live.links == f2.live.links && f5.live.links == map[];
    assert more[1..] == [Create(REG, [], 0), Unlink(ROOT, name), Link(ROOT, name, 3)];
    assert more[1..][1..] == [Unlink(ROOT, name), Link(ROOT, name, 3)];
    assert more[1..][1..][1..] == [Link(ROOT, name, 3)] && more[1..][1..][1..][1..] == [];
    assert Run(f2, more) == Run(f3, more[1..]) == Run(f4, more[1..][1..]) == Run(f5, more[1..][1..][1..]) == f6;
  }

  /** Between the snapshot and now the binding changed: the oracle reports it, the store reports no path at all. */
  lemma RebindingUnseen(clock: nat, name: Name, fs: Fs)
    requires name != SNAPSHOT_NAME && fs == Run(Init(clock), Rebind(name))
    ensures !NoRebinding(fs.At(1), fs.At(2))
    ensures forall p :: !NameDiff(fs.At(1), fs.At(2), p)
    ensures BindingDiff(fs.At(1), fs.At(2), PathDiff(ADDED, ROOT, name, 3))
    ensures BindingDiff(fs.At(1), fs.At(2), PathDiff(DROPPED, ROOT, name, 2))
  {
    ReboundViews(clock, name, fs);
    assert Edge(ROOT, name) in fs.At(1).links && Edge(ROOT, name) in fs.At(2).links;
  }

  // ---- handles that resolve to nothing ----

  /** A setter on an id that was never minted: nothing to find in the store, a node in the oracle. */
  method NodeMadeUp(clock: nat, c: Change) returns (found: Option<Handle>, found': Option<Handle>)
    ensures found == None && found' == Some(Handle(2, LATEST))
  {
    var store := new PrfsStore.PrfsStore(clock);
    var oracle := new MemStore.MemStore(clock);
    var out, out';
    out, out', found, found' := Refinement.TellApart(store, oracle, Refinement.SetAttr(Handle(2, LATEST), c));
  }

  /** Linking or moving into the directory that looking up ".snapshot" returns: the oracle accepts, the store finds
      nothing there. */
  lemma SnapshotDirTaken(clock: nat, fs: Fs, n: Name)
    requires fs == Run(Init(clock), NameNode(REG, [97])) && n != SNAPSHOT_NAME
    ensures
      var d := Handle(ROOT + TWO63, LATEST);
      && Lookup(fs, Handle(ROOT, LATEST), SNAPSHOT_NAME) == Some(d)
      && MemStore.LinkVerdict(fs, d, n, Handle(2, LATEST)) == OK
      && Step(fs, Link(d.id, n, 2)).1.err == NOENT
      && MemStore.MoveVerdict(fs, Handle(ROOT, LATEST), [97], d, n) == OK
      && Step(fs, Move(ROOT, [97], d.id, n)).1.err == NOENT
  {
    NodeNamed(clock, REG, [97], fs);
    assert fs.At(fs.Cur()) == fs.live;
    assert Get(fs.live.nodes, 2) == Some(fs.live.nodes[2]);
  }

  /** The root at snapshot 0, where nothing existed: the store works on the live root, the oracle takes it for a file. */
  lemma SnapshotZeroReadsAsFile(clock: nat, fs: Fs, n: Name, blob: Bytes)
    requires fs == Run(Init(clock), NameNode(REG, [97])) && n != SNAPSHOT_NAME && n != [97]
    ensures
      var d := Handle(ROOT, 0);
      && MemStore.LinkVerdict(fs, d, n, Handle(2, LATEST)) == NOTDIR && Step(fs, Link(ROOT, n, 2)).1.err == OK
      && MemStore.PayloadVerdict(fs, d, Content(blob)) == OK && Step(fs, SetPayload(ROOT, Content(blob))).1.err == INVAL
  {
    NodeNamed(clock, REG, [97], fs);
    assert Seen(fs, Handle(ROOT, 0)) == EMPTY;
  }

  /** A child named through snapshot 0 skips the oracle's cycle check: it accepts the root under its own subdirectory. */
  lemma CycleTaken(clock: nat, fs: Fs, n: Name)
    requires fs == Run(Init(clock), NameNode(DIR, [97])) && n != SNAPSHOT_NAME
    ensures MemStore.LinkVerdict(fs, Handle(2, LATEST), n, Handle(ROOT, 0)) == OK
    ensures Step(fs, Link(2, n, ROOT)).1.err == INVAL
    ensures !Acyclic(AddLink(fs.live, 2, n, ROOT))
  {
    NodeNamed(clock, DIR, [97], fs);
    var v := fs.live;
    assert Seen(fs, Handle(2, LATEST)) == v && Seen(fs, Handle(ROOT, 0)) == EMPTY;
    assert v.links[Edge(ROOT, [97])] == 2 && Child(v, ROOT, 2);
    ReachesSelf(v, ROOT);
    ReachesExtend(v, ROOT, ROOT, 2);
    var w := AddLink(v, 2, n, ROOT);
    assert w.links[Edge(2, n)] == ROOT && Child(w, 2, ROOT);
    assert Edge(ROOT, [97]) in w.links && w.links[Edge(ROOT, [97])] == 2 && Child(w, ROOT, 2);
    ReachesSelf(w, ROOT);
    ReachesExtend(w, ROOT, ROOT, 2);
  }
}
