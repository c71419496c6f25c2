/**
 Cursors into a directory, ordinary or synthesized: what lies beyond one, in which order, and how a page and
 its cookie cut it.
 */
module Cursors {
  import opened Keys
  import opened Options
  import opened FileSystem
  import opened Observations
  import opened Handles

  function SnapStart(after: Name): nat {
    if after != [] && ParseSnap(after).Some? then (ParseSnap(after).value + 1) % TWO64 else 1
  }

  /** The order of a directory's names: of bytes, or of snapshot numbers beyond the one a cursor names. */
  predicate Above(h: Handle, cursor: Name, n: Name) {
    if IsSnapDir(h.id) then ParseSnap(n).Some? && SnapStart(cursor) <= ParseSnap(n).value < LATEST
    else Less(cursor, n)
  }

  lemma AboveTransitive(h: Handle, a: Name, b: Name, c: Name)
    requires Above(h, a, b) && Above(h, b, c)
    ensures Above(h, a, c)
  {
    if !IsSnapDir(h.id) { LessTransitive(a, b, c); }
  }

  lemma AboveIrreflexive(h: Handle, a: Name)
    ensures !Above(h, a, a)
  {
    LessIrreflexive(a);
  }

  /** Names beyond a cursor, one beyond the other: none twice. */
  ghost predicate NamesRise(h: Handle, ds: seq<DirEntry>, floor: Name) {
    && (forall i :: 0 <= i < |ds| ==> Above(h, floor, ds[i].name))
    && (forall i, j :: 0 <= i < j < |ds| ==> Above(h, ds[i].name, ds[j].name))
  }

  ghost predicate HasName(ds: seq<DirEntry>, n: Name) {
    exists d :: d in ds && d.name == n
  }

  // ---- listings of snapshots ----

  lemma {:induction false} SnapsWithin(fs: Fs, base: nat, from: nat, n: nat)
    ensures forall i :: 0 <= i < |SnapsBelow(fs, base, from, n)| ==> from <= SnapsBelow(fs, base, from, n)[i] < n
    decreases n
  {
    if n > from { SnapsWithin(fs, base, from, n - 1); }
  }

  /** Resuming after the k-th snapshot listed continues with the next one. */
  lemma {:induction false} SnapsResume(fs: Fs, base: nat, from: nat, n: nat, k: nat)
    requires k < |SnapsBelow(fs, base, from, n)|
    ensures var all := SnapsBelow(fs, base, from, n); SnapsBelow(fs, base, all[k] + 1, n) == all[k + 1..]
    decreases n
  {
    var all, init := SnapsBelow(fs, base, from, n), SnapsBelow(fs, base, from, n - 1);
    SnapsWithin(fs, base, from, n - 1);
    if k < |init| {
      SnapsResume(fs, base, from, n - 1, k);
      assert all[k] == init[k] < n - 1;
    }
  }

  lemma {:induction false} SnapsAscend(fs: Fs, base: nat, from: nat, n: nat, i: nat, j: nat)
    requires i < j < |SnapsBelow(fs, base, from, n)|
    ensures SnapsBelow(fs, base, from, n)[i] < SnapsBelow(fs, base, from, n)[j]
    decreases n
  {
    SnapsWithin(fs, base, from, n - 1);
    if j < |SnapsBelow(fs, base, from, n - 1)| { SnapsAscend(fs, base, from, n - 1, i, j); }
  }

  lemma {:induction false} SnapListed(fs: Fs, base: nat, from: nat, n: nat, k: nat)
    ensures k in SnapsBelow(fs, base, from, n) <==> from <= k < n && base in fs.At(k).nodes
    decreases n
  {
    if n > from { SnapListed(fs, base, from, n - 1, k); }
  }

  lemma SnapEntryOf(base: nat, ns: seq<nat>, d: DirEntry)
    ensures d in SnapEntries(base, ns) <==> d.node.snap in ns && d == DirEntry(Decimal(d.node.snap), Handle(base, d.node.snap))
  {
    var es := SnapEntries(base, ns);
    if d in es { var i :| 0 <= i < |es| && es[i] == d; }
    if d.node.snap in ns && d == DirEntry(Decimal(d.node.snap), Handle(base, d.node.snap)) {
      var i :| 0 <= i < |ns| && ns[i] == d.node.snap;
      assert es[i] == d;
    }
  }

  lemma ViewEntryOf(es: seq<Entry>, snap: nat, d: DirEntry)
    ensures d in WithView(es, snap) <==> Entry(d.name, d.node.id) in es && d.node.snap == snap
  {
    var ds := WithView(es, snap);
    if d in ds { var i :| 0 <= i < |ds| && ds[i] == d; }
    if Entry(d.name, d.node.id) in es && d.node.snap == snap {
      var i :| 0 <= i < |es| && es[i] == Entry(d.name, d.node.id);
      assert ds[i] == d;
    }
  }

  /** What readdir lists: the links of the view, or the sealed snapshots at which the base existed. */
  lemma ReaddirMeaning(fs: Fs, h: Handle, d: DirEntry)
    ensures d in Readdir(fs, h) <==>
      if IsSnapDir(h.id) then
        var n := d.node.snap;
        1 <= n < fs.Cur() && SnapBase(h.id) in fs.At(n).nodes && d == DirEntry(Decimal(n), Handle(SnapBase(h.id), n))
      else Get(Seen(fs, h).links, Edge(h.id, d.name)) == Some(d.node.id) && d.node.snap == h.snap
  {
    if IsSnapDir(h.id) {
      SnapEntryOf(SnapBase(h.id), SnapsBelow(fs, SnapBase(h.id), 1, fs.Cur()), d);
      SnapListed(fs, SnapBase(h.id), 1, fs.Cur(), d.node.snap);
    } else {
      ViewEntryOf(Listing(Seen(fs, h), h.id), h.snap, d);
      ListingMeaning(Seen(fs, h), h.id);
    }
  }

  // ---- what lies beyond a cursor ----

  /** What a scan from the cursor would return on the directory as it stands. */
  function Rest(fs: Fs, h: Handle, after: Name): seq<DirEntry> {
    if IsSnapDir(h.id) then SnapEntries(SnapBase(h.id), SnapsBelow(fs, SnapBase(h.id), SnapStart(after), fs.Cur()))
    else WithView(Handles.After(Listing(Seen(fs, h), h.id), after), h.snap)
  }

  lemma PageOfRest(fs: Fs, h: Handle, after: Name, max: nat)
    ensures ReaddirPage(fs, h, after, max) == Paged(Rest(fs, h, after), max)
  {
  }

  /** Going on from the name of any entry met gives the entries behind it. */
  lemma RestResumes(fs: Fs, h: Handle, after: Name, k: nat, rest: seq<DirEntry>)
    requires rest == Rest(fs, h, after) && k < |rest| && fs.Cur() < LATEST
    ensures Rest(fs, h, rest[k].name) == rest[k + 1..]
  {
    if IsSnapDir(h.id) {
      SnapRestResumes(fs, h, after, k, SnapsBelow(fs, SnapBase(h.id), SnapStart(after), fs.Cur()));
    } else {
      NameRestResumes(Seen(fs, h), h, after, k, Handles.After(Listing(Seen(fs, h), h.id), after));
    }
  }

  lemma SnapRestResumes(fs: Fs, h: Handle, after: Name, k: nat, all: seq<nat>)
    requires IsSnapDir(h.id) && all == SnapsBelow(fs, SnapBase(h.id), SnapStart(after), fs.Cur())
    requires k < |all| && fs.Cur() < LATEST
    ensures Rest(fs, h, Decimal(all[k])) == SnapEntries(SnapBase(h.id), all)[k + 1..]
  {
    var base := SnapBase(h.id);
    SnapsWithin(fs, base, SnapStart(after), fs.Cur());
    ParsePrinted(all[k]);
    SnapsResume(fs, base, SnapStart(after), fs.Cur(), k);
    assert SnapStart(Decimal(all[k])) == all[k] + 1;
    assert SnapEntries(base, all)[k + 1..] == SnapEntries(base, all[k + 1..]);
  }

  lemma NameRestResumes(v: View, h: Handle, after: Name, k: nat, es: seq<Entry>)
    requires es == Handles.After(Listing(v, h.id), after) && k < |es|
    ensures WithView(Handles.After(Listing(v, h.id), es[k].name), h.snap) == WithView(es, h.snap)[k + 1..]
  {
    if k + 1 < |es| { ResumeAfter(v, h.id, after, es, k + 1); } else { ResumeLast(v, h.id, after, es); }
    assert WithView(es, h.snap)[k + 1..] == WithView(es[k + 1..], h.snap);
  }

  lemma {:induction false} AfterLength(es: seq<Entry>, k: nat)
    requires EntriesAscend(es) && k < |es|
    ensures Handles.After(es, es[k].name) == es[k + 1..]
    decreases k
  {
    LessIrreflexive(es[k].name);
    if k == 0 {
      AfterAll(es[1..], es[0].name);
    } else {
      LessAsymmetric(es[0].name, es[k].name);
      AfterLength(es[1..], k - 1);
    }
  }

  lemma AfterAll(es: seq<Entry>, after: Name)
    requires forall i :: 0 <= i < |es| ==> Less(after, es[i].name)
    ensures Handles.After(es, after) == es
  {
  }

  lemma ResumeAfter(v: View, dir: nat, after: Name, rest: seq<Entry>, max: nat)
    requires rest == Handles.After(Listing(v, dir), after) && 1 <= max < |rest|
    ensures Handles.After(Listing(v, dir), rest[max - 1].name) == rest[max..]
  {
    ListingMeaning(v, dir);
    ResumeIn(Listing(v, dir), after, rest, max);
  }

  lemma ResumeIn(ls: seq<Entry>, after: Name, rest: seq<Entry>, max: nat)
    requires EntriesAscend(ls) && rest == Handles.After(ls, after) && 1 <= max < |rest|
    ensures Handles.After(ls, rest[max - 1].name) == rest[max..]
  {
    var k := AfterSuffix(ls, after);
    AfterLength(ls, k + max - 1);
    assert rest[max - 1] == ls[k + max - 1] && ls[k..][max..] == ls[k + max..];
  }

  lemma {:induction false} AfterSuffix(es: seq<Entry>, after: Name) returns (k: nat)
    ensures k <= |es| && Handles.After(es, after) == es[k..]
  {
    if es == [] || Less(after, es[0].name) {
      k := 0;
    } else {
      k := AfterSuffix(es[1..], after);
      k := k + 1;
    }
  }

  lemma ResumeLast(v: View, dir: nat, after: Name, es: seq<Entry>)
    requires es == Handles.After(Listing(v, dir), after) && es != []
    ensures Handles.After(Listing(v, dir), es[|es| - 1].name) == []
  {
    var ls := Listing(v, dir);
    ListingMeaning(v, dir);
    var k := AfterSuffix(ls, after);
    assert es[|es| - 1] == ls[|ls| - 1];
    AfterLength(ls, |ls| - 1);
  }

  /** What lies beyond a cursor: the entries of the directory whose names do. */
  lemma RestMember(fs: Fs, h: Handle, after: Name, d: DirEntry)
    requires fs.Cur() < LATEST
    ensures d in Rest(fs, h, after) <==> d in Readdir(fs, h) && Above(h, after, d.name)
  {
    if IsSnapDir(h.id) {
      var base, n := SnapBase(h.id), d.node.snap;
      SnapEntryOf(base, SnapsBelow(fs, base, SnapStart(after), fs.Cur()), d);
      SnapListed(fs, base, SnapStart(after), fs.Cur(), n);
      ReaddirMeaning(fs, h, d);
      if n < fs.Cur() { ParsePrinted(n); }
    } else {
      var ls := Listing(Seen(fs, h), h.id);
      ListingMeaning(Seen(fs, h), h.id);
      AfterMeaning(ls, after);
      ViewEntryOf(ls, h.snap, d);
      ViewEntryOf(Handles.After(ls, after), h.snap, d);
    }
  }

  /** In rising order. */
  lemma RestRises(fs: Fs, h: Handle, after: Name, rest: seq<DirEntry>)
    requires fs.Cur() < LATEST && rest == Rest(fs, h, after)
    ensures NamesRise(h, rest, after)
  {
    forall i | 0 <= i < |rest|
      ensures Above(h, after, rest[i].name)
    {
      assert rest[i] in rest;
      RestMember(fs, h, after, rest[i]);
    }
    forall i, j | 0 <= i < j < |rest|
      ensures Above(h, rest[i].name, rest[j].name)
    {
      if IsSnapDir(h.id) {
        SnapRises(fs, h, after, i, j, SnapsBelow(fs, SnapBase(h.id), SnapStart(after), fs.Cur()));
      } else {
        ListingMeaning(Seen(fs, h), h.id);
        AfterMeaning(Listing(Seen(fs, h), h.id), after);
      }
    }
  }

  lemma SnapRises(fs: Fs, h: Handle, after: Name, i: nat, j: nat, all: seq<nat>)
    requires IsSnapDir(h.id) && fs.Cur() < LATEST && all == SnapsBelow(fs, SnapBase(h.id), SnapStart(after), fs.Cur())
    requires i < j < |all|
    ensures Above(h, Decimal(all[i]), Decimal(all[j]))
  {
    SnapsWithin(fs, SnapBase(h.id), SnapStart(after), fs.Cur());
    SnapsAscend(fs, SnapBase(h.id), SnapStart(after), fs.Cur(), i, j);
    ParsePrinted(all[i]);
    ParsePrinted(all[j]);
  }

  lemma EmptyIsLeast(n: Name)
    ensures Less([], n) <==> n != []
  {
    PrefixLeq([], n);
    assert [] + n == n;
    if n == [] { LessIrreflexive(n); }
  }

  /** From the start everything listed lies ahead, but for the empty name of an ordinary directory. */
  lemma StartPrecedes(fs: Fs, h: Handle, d: DirEntry)
    requires fs.Cur() < LATEST && d in Readdir(fs, h)
    ensures Above(h, [], d.name) <==> IsSnapDir(h.id) || d.name != []
  {
    ReaddirMeaning(fs, h, d);
    EmptyIsLeast(d.name);
    if IsSnapDir(h.id) { ParsePrinted(d.node.snap); }
  }

  // ---- pages ----

  /** A page shows the first entries left, and its cookie names the last of them. */
  lemma PageEntries(rest: seq<DirEntry>, max: nat, p: DirPage)
    requires p == Paged(rest, max)
    ensures |p.entries| == (if p.eof then |rest| else max) <= |rest| && (!p.eof ==> max < |rest|)
    ensures p.entries == rest[..|p.entries|]
    ensures p.cookie == if p.entries == [] then [] else p.entries[|p.entries| - 1].name
  {
  }

  /** A page's entries rise above the cursor and are listed; a page before eof is not empty. */
  lemma PageMeaning(fs: Fs, h: Handle, after: Name, max: nat, p: DirPage)
    requires fs.Cur() < LATEST && p == ReaddirPage(fs, h, after, max)
    ensures NamesRise(h, p.entries, after)
    ensures forall d :: d in p.entries ==> d in Readdir(fs, h)
    ensures p.cookie == if p.entries == [] then [] else p.entries[|p.entries| - 1].name
    ensures !p.eof && max >= 1 ==> p.entries != []
  {
    var rest := Rest(fs, h, after);
    PageOfRest(fs, h, after, max);
    PageEntries(rest, max, p);
    RestRises(fs, h, after, rest);
    forall d | d in p.entries
      ensures d in Readdir(fs, h)
    {
      assert d in rest;
      RestMember(fs, h, after, d);
    }
  }

  /** An entry listed beyond the cursor is on the page, unless the page ended before it. */
  lemma PageHas(fs: Fs, h: Handle, after: Name, max: nat, p: DirPage, d: DirEntry)
    requires fs.Cur() < LATEST && p == ReaddirPage(fs, h, after, max) && max >= 1
    requires d in Readdir(fs, h) && Above(h, after, d.name)
    ensures d in p.entries || (!p.eof && Above(h, p.cookie, d.name))
  {
    var rest := Rest(fs, h, after);
    PageOfRest(fs, h, after, max);
    PageEntries(rest, max, p);
    RestRises(fs, h, after, rest);
    RestMember(fs, h, after, d);
    var k :| 0 <= k < |rest| && rest[k] == d;
    if k < |p.entries| {
      assert p.entries[k] == d;
    } else {
      assert Above(h, rest[|p.entries| - 1].name, rest[k].name);
    }
  }

  /** A page before the last moves the cursor exactly when it may hold an entry; a page of none starts over. */
  lemma PagesProgressIff(fs: Fs, h: Handle, after: Name, max: nat, p: DirPage)
    requires fs.Cur() < LATEST && p == ReaddirPage(fs, h, after, max) && !p.eof
    ensures Above(h, after, p.cookie) <==> max >= 1
    ensures max == 0 ==> p.cookie == []
  {
    PageMeaning(fs, h, after, max, p);
    PageEntries(Rest(fs, h, after), max, p);
  }
}
