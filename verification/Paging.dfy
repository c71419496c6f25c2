/**
 Scanning a directory page by page, feeding each cookie back, while the file system may change in any
 way between two calls: the scan is a sequence of pages, each of the file system as it stands at the call.
 */
module Paging {
  import opened Keys
  import opened Options
  import opened FileSystem
  import opened Observations
  import opened Handles
  import opened Cursors

  /** Snapshot numbers stay below the one that means the live view. */
  ghost predicate Counted(fss: seq<Fs>) {
    forall i :: 0 <= i < |fss| ==> fss[i].Cur() < LATEST
  }

  /** The pages of a scan: call i sees fss[i] and asks for maxs[i] entries; the scan stops at eof. */
  function Scan(fss: seq<Fs>, h: Handle, after: Name, maxs: seq<nat>): (ps: seq<DirPage>)
    requires |fss| == |maxs|
    ensures |ps| <= |fss|
    decreases |fss|
  {
    if fss == [] then [] else
    var p := ReaddirPage(fss[0], h, after, maxs[0]);
    [p] + (if p.eof then [] else Scan(fss[1..], h, p.cookie, maxs[1..]))
  }

  function Gathered(ps: seq<DirPage>): seq<DirEntry> {
    if ps == [] then [] else ps[0].entries + Gathered(ps[1..])
  }

  ghost predicate Finished(ps: seq<DirPage>) {
    ps != [] && ps[|ps| - 1].eof
  }

  ghost predicate AllPositive(maxs: seq<nat>) {
    forall i :: 0 <= i < |maxs| ==> maxs[i] >= 1
  }

  /** The first page of a scan, and the rest of it. */
  lemma ScanSteps(fss: seq<Fs>, h: Handle, after: Name, maxs: seq<nat>, p: DirPage, ps: seq<DirPage>)
    requires |fss| == |maxs| && fss != [] && p == ReaddirPage(fss[0], h, after, maxs[0]) && ps == Scan(fss, h, after, maxs)
    ensures p.eof ==> ps == [p] && Gathered(ps) == p.entries
    ensures !p.eof ==>
      var more := Scan(fss[1..], h, p.cookie, maxs[1..]);
      ps == [p] + more && Gathered(ps) == p.entries + Gathered(more) && (Finished(ps) ==> Finished(more))
  {
    if p.eof {
      assert ps[1..] == [];
    } else {
      assert ps[1..] == Scan(fss[1..], h, p.cookie, maxs[1..]);
    }
  }

  lemma RiseJoin(h: Handle, a: seq<DirEntry>, b: seq<DirEntry>, floor: Name, mid: Name)
    requires NamesRise(h, a, floor) && NamesRise(h, b, mid)
    requires a != [] && mid == a[|a| - 1].name
    ensures NamesRise(h, a + b, floor)
  {
    var c := a + b;
    forall i | 0 <= i < |a|
      ensures a[i].name == mid || Above(h, a[i].name, mid)
    {
      assert i < |a| - 1 ==> Above(h, a[i].name, a[|a| - 1].name);
    }
    forall i | 0 <= i < |c|
      ensures Above(h, floor, c[i].name)
    {
      if i >= |a| { AboveTransitive(h, floor, mid, c[i].name); }
    }
    forall i, j | 0 <= i < j < |c|
      ensures Above(h, c[i].name, c[j].name)
    {
      if i < |a| <= j && a[i].name != mid { AboveTransitive(h, c[i].name, mid, c[j].name); }
    }
  }

  /** Over a whole scan, whatever happens in between, the names returned strictly increase, snapshots by number. */
  lemma {:induction false} ScanRises(fss: seq<Fs>, h: Handle, after: Name, maxs: seq<nat>)
    requires |fss| == |maxs| && AllPositive(maxs) && Counted(fss)
    ensures NamesRise(h, Gathered(Scan(fss, h, after, maxs)), after)
    decreases |fss|
  {
    if fss != [] {
      var p, ps := ReaddirPage(fss[0], h, after, maxs[0]), Scan(fss, h, after, maxs);
      if !p.eof { ScanRises(fss[1..], h, p.cookie, maxs[1..]); }
      RiseStep(fss, h, after, maxs, p, ps);
    }
  }

  lemma RiseStep(fss: seq<Fs>, h: Handle, after: Name, maxs: seq<nat>, p: DirPage, ps: seq<DirPage>)
    requires |fss| == |maxs| && fss != [] && AllPositive(maxs) && Counted(fss)
    requires p == ReaddirPage(fss[0], h, after, maxs[0]) && ps == Scan(fss, h, after, maxs)
    requires !p.eof ==> NamesRise(h, Gathered(Scan(fss[1..], h, p.cookie, maxs[1..])), p.cookie)
    ensures NamesRise(h, Gathered(ps), after)
  {
    PageMeaning(fss[0], h, after, maxs[0], p);
    ScanSteps(fss, h, after, maxs, p, ps);
    if !p.eof { RiseJoin(h, p.entries, Gathered(Scan(fss[1..], h, p.cookie, maxs[1..])), after, p.cookie); }
  }

  /** What a page returns was listed, with that node, when the page was asked for. */
  lemma {:induction false} ScanSound(fss: seq<Fs>, h: Handle, after: Name, maxs: seq<nat>, i: nat, d: DirEntry)
    requires |fss| == |maxs| && Counted(fss)
    requires i < |Scan(fss, h, after, maxs)| && d in Scan(fss, h, after, maxs)[i].entries
    ensures d in Readdir(fss[i], h)
    decreases |fss|
  {
    var p, ps := ReaddirPage(fss[0], h, after, maxs[0]), Scan(fss, h, after, maxs);
    ScanSteps(fss, h, after, maxs, p, ps);
    if i == 0 {
      PageMeaning(fss[0], h, after, maxs[0], p);
    } else {
      ScanSound(fss[1..], h, p.cookie, maxs[1..], i - 1, d);
    }
  }

  ghost predicate Returned(ps: seq<DirPage>, n: Name) {
    HasName(Gathered(ps), n)
  }

  /** The name is listed at every call. */
  ghost predicate Stable(fss: seq<Fs>, h: Handle, n: Name) {
    forall i :: 0 <= i < |fss| ==> HasName(Readdir(fss[i], h), n)
  }

  /** A name beyond the starting cursor and listed at every call is returned by a scan that reaches eof. */
  lemma {:induction false} ScanComplete(fss: seq<Fs>, h: Handle, after: Name, maxs: seq<nat>, n: Name)
    requires |fss| == |maxs| && AllPositive(maxs) && Counted(fss) && Finished(Scan(fss, h, after, maxs))
    requires Above(h, after, n) && Stable(fss, h, n)
    ensures Returned(Scan(fss, h, after, maxs), n)
    decreases |fss|
  {
    var p, ps := ReaddirPage(fss[0], h, after, maxs[0]), Scan(fss, h, after, maxs);
    PageHasName(fss[0], h, after, maxs[0], p, n);
    ScanSteps(fss, h, after, maxs, p, ps);
    if !HasName(p.entries, n) {
      ScanComplete(fss[1..], h, p.cookie, maxs[1..], n);
    }
    SumHasName(p.entries, if p.eof then [] else Gathered(Scan(fss[1..], h, p.cookie, maxs[1..])), n);
    assert p.eof ==> p.entries + [] == p.entries;
  }

  lemma PageHasName(fs: Fs, h: Handle, after: Name, max: nat, p: DirPage, n: Name)
    requires fs.Cur() < LATEST && p == ReaddirPage(fs, h, after, max) && max >= 1
    requires HasName(Readdir(fs, h), n) && Above(h, after, n)
    ensures HasName(p.entries, n) || (!p.eof && Above(h, p.cookie, n))
  {
    var d :| d in Readdir(fs, h) && d.name == n;
    PageHas(fs, h, after, max, p, d);
  }

  lemma SumHasName(a: seq<DirEntry>, b: seq<DirEntry>, n: Name)
    ensures HasName(a + b, n) <==> HasName(a, n) || HasName(b, n)
  {
    if HasName(a, n) {
      var d :| d in a && d.name == n;
      assert d in a + b;
    }
    if HasName(b, n) {
      var d :| d in b && d.name == n;
      assert d in a + b;
    }
  }

  /** From the first page on: a name listed throughout a finished scan is returned exactly when it is not the empty
      name of an ordinary directory, and no name is returned twice. */
  lemma StableNamesReturned(fss: seq<Fs>, h: Handle, maxs: seq<nat>, n: Name, ds: seq<DirEntry>)
    requires |fss| == |maxs| && AllPositive(maxs) && Counted(fss) && Finished(Scan(fss, h, [], maxs))
    requires Stable(fss, h, n) && ds == Gathered(Scan(fss, h, [], maxs))
    ensures HasName(ds, n) <==> IsSnapDir(h.id) || n != []
    ensures forall i, j :: 0 <= i < j < |ds| ==> ds[i].name != ds[j].name
  {
    ScanRises(fss, h, [], maxs);
    var d :| d in Readdir(fss[0], h) && d.name == n;
    StartPrecedes(fss[0], h, d);
    if Above(h, [], n) {
      ScanComplete(fss, h, [], maxs, n);
    } else {
      EmptyIsLeast(n);
      AboveIrreflexive(h, []);
    }
    forall i, j | 0 <= i < j < |ds|
      ensures ds[i].name != ds[j].name
    {
      AboveIrreflexive(h, ds[i].name);
    }
  }

  // ---- snapshots taken during a scan ----

  /** The states of one run: what is sealed stays sealed. */
  ghost predicate Grows(fss: seq<Fs>) {
    forall i :: 0 < i < |fss| ==> fss[0].sealed <= fss[i].sealed
  }

  lemma {:induction false} RunGrows(fs: Fs, ops: seq<Op>)
    ensures fs.sealed <= Run(fs, ops).sealed
    decreases |ops|
  {
    if ops != [] {
      RunGrows(Step(fs, ops[0]).0, ops[1..]);
    }
  }

  /** States of one run, operations between each two, grow. */
  lemma {:induction false} StatesGrow(fss: seq<Fs>, opss: seq<seq<Op>>)
    requires |opss| == |fss| && forall i :: 0 < i < |fss| ==> fss[i] == Run(fss[i - 1], opss[i])
    ensures Grows(fss)
    decreases |fss|
  {
    if |fss| > 1 {
      StatesGrow(fss[..|fss| - 1], opss[..|fss| - 1]);
      RunGrows(fss[|fss| - 2], opss[|fss| - 1]);
      forall i | 0 < i < |fss|
        ensures fss[0].sealed <= fss[i].sealed
      {
        if i < |fss| - 1 { assert fss[i] == fss[..|fss| - 1][i]; }
      }
    }
  }

  /** A finished scan of a snapshot directory returns every snapshot that was listed when it began, whatever
      snapshots are taken meanwhile. */
  lemma SnapshotsReturned(fss: seq<Fs>, h: Handle, maxs: seq<nat>, n: nat, ds: seq<DirEntry>)
    requires |fss| == |maxs| && AllPositive(maxs) && Counted(fss) && Finished(Scan(fss, h, [], maxs))
    requires IsSnapDir(h.id) && Grows(fss) && ds == Gathered(Scan(fss, h, [], maxs))
    requires 1 <= n < fss[0].Cur() && SnapBase(h.id) in fss[0].At(n).nodes
    ensures HasName(ds, Decimal(n))
  {
    var d := DirEntry(Decimal(n), Handle(SnapBase(h.id), n));
    forall i | 0 <= i < |fss|
      ensures HasName(Readdir(fss[i], h), Decimal(n))
    {
      assert fss[i].At(n) == fss[0].At(n);
      ReaddirMeaning(fss[i], h, d);
    }
    StableNamesReturned(fss, h, maxs, Decimal(n), ds);
  }

  // ---- an unchanging directory ----

  /** Two file systems list one directory alike. */
  ghost predicate Alike(fs: Fs, fs': Fs, h: Handle) {
    if IsSnapDir(h.id) then fs.sealed == fs'.sealed else Seen(fs, h) == Seen(fs', h)
  }

  ghost predicate Unchanging(fss: seq<Fs>, fs: Fs, h: Handle) {
    forall i :: 0 <= i < |fss| ==> Alike(fs, fss[i], h)
  }

  lemma {:induction false} SnapsAlike(fs: Fs, fs': Fs, base: nat, from: nat, n: nat)
    requires fs.sealed == fs'.sealed && n <= fs.Cur()
    ensures SnapsBelow(fs, base, from, n) == SnapsBelow(fs', base, from, n)
    decreases n
  {
    if n > from { SnapsAlike(fs, fs', base, from, n - 1); }
  }

  lemma RestAlike(fs: Fs, fs': Fs, h: Handle, after: Name)
    requires Alike(fs, fs', h)
    ensures Rest(fs, h, after) == Rest(fs', h, after)
  {
    if IsSnapDir(h.id) { SnapsAlike(fs, fs', SnapBase(h.id), SnapStart(after), fs.Cur()); }
  }

  /** A page of a directory that lists like fs: the first entries left, and the cookie from which the others are. */
  lemma PageAlike(fs: Fs, fs': Fs, h: Handle, after: Name, max: nat, rest: seq<DirEntry>, p: DirPage)
    requires Alike(fs, fs', h) && fs.Cur() < LATEST && max >= 1
    requires rest == Rest(fs, h, after) && p == ReaddirPage(fs', h, after, max)
    ensures p.eof ==> p.entries == rest
    ensures !p.eof ==> max < |rest| && p.entries == rest[..max] && Rest(fs, h, p.cookie) == rest[max..]
  {
    RestAlike(fs, fs', h, after);
    PageOfRest(fs', h, after, max);
    PageEntries(rest, max, p);
    if !p.eof { RestResumes(fs, h, after, max - 1, rest); }
  }

  /** On an unchanging directory of either kind the pages of a finished scan, of any sizes, add up to what lies
      beyond the starting cursor. */
  lemma {:induction false} UnchangedScan(fss: seq<Fs>, fs: Fs, h: Handle, after: Name, maxs: seq<nat>)
    requires |fss| == |maxs| && AllPositive(maxs) && Unchanging(fss, fs, h) && fs.Cur() < LATEST
    requires Finished(Scan(fss, h, after, maxs))
    ensures Gathered(Scan(fss, h, after, maxs)) == Rest(fs, h, after)
    decreases |fss|
  {
    var p := ReaddirPage(fss[0], h, after, maxs[0]);
    var rest := Rest(fs, h, after);
    PageAlike(fs, fss[0], h, after, maxs[0], rest, p);
    ScanSteps(fss, h, after, maxs, p, Scan(fss, h, after, maxs));
    if !p.eof {
      UnchangedScan(fss[1..], fs, h, p.cookie, maxs[1..]);
      Rejoined(rest, maxs[0]);
    }
  }

  lemma Rejoined(rest: seq<DirEntry>, k: nat)
    requires k <= |rest|
    ensures rest[..k] + rest[k..] == rest
  {
  }

  /** And enough calls do finish it. */
  lemma {:induction false} UnchangedScanFinishes(fss: seq<Fs>, fs: Fs, h: Handle, after: Name, maxs: seq<nat>)
    requires |fss| == |maxs| && AllPositive(maxs) && Unchanging(fss, fs, h) && fs.Cur() < LATEST
    requires |fss| > |Rest(fs, h, after)|
    ensures Finished(Scan(fss, h, after, maxs))
    decreases |fss|
  {
    var p, ps := ReaddirPage(fss[0], h, after, maxs[0]), Scan(fss, h, after, maxs);
    PageAlike(fs, fss[0], h, after, maxs[0], Rest(fs, h, after), p);
    ScanSteps(fss, h, after, maxs, p, ps);
    if !p.eof {
      UnchangedScanFinishes(fss[1..], fs, h, p.cookie, maxs[1..]);
      assert ps[|ps| - 1] == ps[1..][|ps| - 2];
    }
  }

  /** What lies beyond no cursor at all is the directory, unless it holds the empty name. */
  lemma RestIsReaddirIff(fs: Fs, h: Handle)
    requires fs.Cur() < LATEST
    ensures Rest(fs, h, []) == Readdir(fs, h) <==> IsSnapDir(h.id) || Edge(h.id, []) !in Seen(fs, h).links
  {
    if !IsSnapDir(h.id) {
      var v := Seen(fs, h);
      var ls := Listing(v, h.id);
      ListingMeaning(v, h.id);
      AfterMeaning(ls, []);
      if Edge(h.id, []) in v.links {
        var x := Entry([], v.links[Edge(h.id, [])]);
        EmptyIsLeast([]);
        assert x in ls && x !in Handles.After(ls, []);
        var j := AfterSuffix(ls, []);
        assert j != 0 && |Handles.After(ls, [])| < |ls|;
      } else {
        forall i | 0 <= i < |ls|
          ensures Less([], ls[i].name)
        {
          assert ls[i] in ls;
          EmptyIsLeast(ls[i].name);
        }
        AfterAll(ls, []);
      }
    }
  }

  /** Paging an unchanging directory from the start is reading it, exactly when it is a snapshot directory or holds no
      empty name. */
  lemma PagesAreReaddirIff(fss: seq<Fs>, fs: Fs, h: Handle, maxs: seq<nat>)
    requires |fss| == |maxs| && AllPositive(maxs) && Unchanging(fss, fs, h) && fs.Cur() < LATEST
    requires Finished(Scan(fss, h, [], maxs))
    ensures Gathered(Scan(fss, h, [], maxs)) == Readdir(fs, h) <==> IsSnapDir(h.id) || Edge(h.id, []) !in Seen(fs, h).links
  {
    UnchangedScan(fss, fs, h, [], maxs);
    RestIsReaddirIff(fs, h);
  }
}
