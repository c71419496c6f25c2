/** What handles see: the synthesized snapshot directories, lookups, listings and pages. */
module Handles {
  import opened Keys
  import opened Options
  import opened FileSystem
  import opened Observations

  const TWO63: nat := 0x8000_0000_0000_0000

  /** A node as seen at a snapshot, or live at LATEST. */
  datatype Handle = Handle(id: nat, snap: nat)

  datatype DirEntry = DirEntry(name: Name, node: Handle)

  datatype DirPage = DirPage(entries: seq<DirEntry>, cookie: Name, eof: bool)

  function Resolve(fs: Fs, g: nat): nat {
    if g == LATEST then fs.Cur() else g
  }

  function Seen(fs: Fs, h: Handle): View {
    fs.At(Resolve(fs, h.snap))
  }

  // ---- the snapshot directory of a node: its id with the top bit set ----

  predicate IsSnapDir(id: nat) {
    id >= TWO63
  }

  function SnapBase(id: nat): nat
    requires IsSnapDir(id)
  {
    id - TWO63
  }

  /** The node an id is about: itself, or the one whose snapshots it lists. */
  function BaseOf(id: nat): nat {
    if IsSnapDir(id) then SnapBase(id) else id
  }

  /** Decimal digits of n, most significant first. */
  function Decimal(n: nat): (s: Name)
    ensures s != []
  {
    if n < 10 then [48 + n] else Decimal(n / 10) + [48 + n % 10]
  }

  predicate Digits(s: Name) {
    forall i :: 0 <= i < |s| ==> 48 <= s[i] < 58
  }

  /** The 64-bit value of a digit string, wrapping. */
  function Value(s: Name): (v: nat)
    requires Digits(s)
    ensures v < TWO64
  {
    if s == [] then 0 else (Value(s[..|s| - 1]) * 10 + (s[|s| - 1] - 48)) % TWO64
  }

  function ParseSnap(s: Name): Option<nat> {
    if s == [] || !Digits(s) then None else Some(Value(s))
  }

  /** A snapshot's printed name parses back to it. */
  lemma {:induction false} ParsePrinted(n: nat)
    requires n < TWO64
    ensures ParseSnap(Decimal(n)) == Some(n)
  {
    var s := Decimal(n);
    if n < 10 {
      assert s[..0] == [];
      assert Value(s[..0]) == 0;
    } else {
      ParsePrinted(n / 10);
      assert s[..|s| - 1] == Decimal(n / 10);
    }
  }

  /** Snapshots below n, from 1, at which base existed. */
  function SnapsBelow(fs: Fs, base: nat, from: nat, n: nat): seq<nat>
    decreases n
  {
    if n <= from then []
    else SnapsBelow(fs, base, from, n - 1) + (if base in fs.At(n - 1).nodes then [n - 1] else [])
  }

  function SnapEntries(base: nat, ns: seq<nat>): seq<DirEntry> {
    seq(|ns|, i requires 0 <= i < |ns| => DirEntry(Decimal(ns[i]), Handle(base, ns[i])))
  }

  // ---- what callers get ----

  /** nodeById: a handle comes back exactly when something, real or synthesized, resolves there. */
  function NodeById(fs: Fs, id: nat, snap: nat): Option<Handle> {
    if BaseOf(id) in fs.At(Resolve(fs, snap)).nodes then Some(Handle(id, snap)) else None
  }

  // The attributes of a handle that resolves to nothing.
  const NO_ATTR := Attr(REG, 0, 0, 0, 0, 0, 0, 0, 0, 0, 0, 0, [])

  /** A snapshot directory is read-only and carries the times of its base. */
  function SnapDirAttr(base: Attr): Attr {
    Attr(DIR, 0x16D, 0, 0, 1, 0, base.atime, base.mtime, base.ctime, 0, 0, 0, [])
  }

  function AttrSeen(fs: Fs, h: Handle): Attr
    decreases h.id
  {
    if IsSnapDir(h.id) then SnapDirAttr(AttrSeen(fs, Handle(SnapBase(h.id), h.snap)))
    else
      match Get(Seen(fs, h).nodes, h.id)
      case Some(a) => a
      case None => NO_ATTR
  }

  predicate Wide(h: Handle) {
    h.id < TWO64 && h.snap < TWO64
  }

  ghost predicate Resolves(fs: Fs, h: Handle) {
    h.id in Seen(fs, h).nodes
  }

  function Lookup(fs: Fs, h: Handle, name: Name): Option<Handle> {
    if IsSnapDir(h.id) then
      match ParseSnap(name)
      case None => None
      case Some(n) =>
        if 1 <= n < fs.Cur() && SnapBase(h.id) in fs.At(n).nodes then Some(Handle(SnapBase(h.id), n)) else None
    else if name == SNAPSHOT_NAME && h.snap == LATEST && IsDir(fs.live, h.id) then
      Some(Handle(h.id + TWO63, LATEST))
    else
      match Get(Seen(fs, h).links, Edge(h.id, name))
      case None => None
      case Some(c) => Some(Handle(c, h.snap))
  }

  function WithView(es: seq<Entry>, snap: nat): (ds: seq<DirEntry>)
    ensures |ds| == |es|
  {
    seq(|es|, i requires 0 <= i < |es| => DirEntry(es[i].name, Handle(es[i].child, snap)))
  }

  function Readdir(fs: Fs, h: Handle): seq<DirEntry> {
    if IsSnapDir(h.id) then SnapEntries(SnapBase(h.id), SnapsBelow(fs, SnapBase(h.id), 1, fs.Cur()))
    else WithView(Listing(Seen(fs, h), h.id), h.snap)
  }

  /** The entries of an ascending listing whose name sorts above the cursor. */
  function After(es: seq<Entry>, after: Name): seq<Entry> {
    if es == [] || Less(after, es[0].name) then es else After(es[1..], after)
  }

  /** At most max of the remaining entries; the cookie names the last one returned. */
  function Paged(rest: seq<DirEntry>, max: nat): (p: DirPage) {
    var es := if |rest| > max then rest[..max] else rest;
    DirPage(es, if es == [] then [] else es[|es| - 1].name, |rest| <= max)
  }

  function ReaddirPage(fs: Fs, h: Handle, after: Name, max: nat): DirPage {
    if IsSnapDir(h.id) then
      var start := if after != [] && ParseSnap(after).Some? then (ParseSnap(after).value + 1) % TWO64 else 1;
      Paged(SnapEntries(SnapBase(h.id), SnapsBelow(fs, SnapBase(h.id), start, fs.Cur())), max)
    else
      Paged(WithView(After(Listing(Seen(fs, h), h.id), after), h.snap), max)
  }

  function ParentHandles(fs: Fs, h: Handle): seq<Handle> {
    var ps := Parents(Seen(fs, h), h.id);
    seq(|ps|, i requires 0 <= i < |ps| => Handle(ps[i], h.snap))
  }

  // ---- snapshot directories ----

  lemma {:induction false} SnapsBelowPrefix(fs: Fs, base: nat, from: nat, n: nat, m: nat)
    requires n <= m
    ensures SnapsBelow(fs, base, from, n) <= SnapsBelow(fs, base, from, m)
    decreases m
  {
    if n < m { SnapsBelowPrefix(fs, base, from, n, m - 1); }
  }

  lemma {:induction false} SnapsBelowCount(fs: Fs, base: nat, from: nat, n: nat)
    ensures |SnapsBelow(fs, base, from, n)| <= n
    decreases n
  {
    if n > from { SnapsBelowCount(fs, base, from, n - 1); }
  }

  /** A page as the engines build it, from the entries they collected. */
  function PageOfEntries(es: seq<Entry>, snap: nat, eof: bool): DirPage {
    var ds := WithView(es, snap);
    DirPage(ds, if ds == [] then [] else ds[|ds| - 1].name, eof)
  }

  lemma PageIsPaged(es: seq<Entry>, rest: seq<Entry>, snap: nat, max: nat, eof: bool)
    requires eof <==> |rest| <= max
    requires es == if eof then rest else rest[..max]
    ensures PageOfEntries(es, snap, eof) == Paged(WithView(rest, snap), max)
  {
    if !eof { assert WithView(rest, snap)[..max] == WithView(rest[..max], snap); }
  }

  function PageOfSnaps(base: nat, ns: seq<nat>, eof: bool): DirPage {
    var es := SnapEntries(base, ns);
    DirPage(es, if es == [] then [] else es[|es| - 1].name, eof)
  }

  lemma SnapsArePaged(base: nat, ns: seq<nat>, all: seq<nat>, max: nat, eof: bool)
    requires eof <==> |all| <= max
    requires ns == if eof then all else all[..max]
    ensures PageOfSnaps(base, ns, eof) == Paged(SnapEntries(base, all), max)
  {
    if !eof { assert SnapEntries(base, all)[..max] == SnapEntries(base, all[..max]); }
  }

  /** Reaching an entry beyond a full page settles the page. */
  lemma FullSnapPage(fs: Fs, base: nat, from: nat, n: nat, max: nat)
    requires from <= n < fs.Cur() && base in fs.At(n).nodes && |SnapsBelow(fs, base, from, n)| == max
    ensures var all := SnapsBelow(fs, base, from, fs.Cur());
      |all| > max && all[..max] == SnapsBelow(fs, base, from, n)
  {
    SnapsBelowPrefix(fs, base, from, n + 1, fs.Cur());
    SnapsBelowPrefix(fs, base, from, n, fs.Cur());
  }

  // ---- the cursor ----

  lemma {:induction false} AfterMeaning(es: seq<Entry>, after: Name)
    requires EntriesAscend(es)
    ensures EntriesAscend(After(es, after))
    ensures forall x :: x in After(es, after) <==> x in es && Less(after, x.name)
  {
    if es != [] {
      if Less(after, es[0].name) {
        forall x | x in es
          ensures Less(after, x.name)
        {
          var i :| 0 <= i < |es| && es[i] == x;
          if i != 0 { LessTransitive(after, es[0].name, x.name); }
        }
      } else {
        AfterMeaning(es[1..], after);
        assert es == [es[0]] + es[1..];
      }
    }
  }
}
