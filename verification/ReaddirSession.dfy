/**
 A client listing a directory reply by reply, its last cookie going back to the server each time, while the
 file system changes and the server's cache is filled, emptied or lost in between.
 */
module ReaddirSession {
  import opened Keys
  import opened Options
  import opened FileSystem
  import opened Handles
  import opened Cursors
  import opened ReaddirBridge

  // ---- cookies ----

  /** No two of the names share a cookie. */
  ghost predicate CookiesApart(hash: Name -> nat, names: set<Name>) {
    forall a, b :: a in names && b in names && NameCookie(hash, a) == NameCookie(hash, b) ==> a == b
  }

  ghost predicate Within(cache: Cache, names: set<Name>) {
    forall ck :: ck in cache ==> cache[ck] in names
  }

  ghost predicate ListsWithin(fs: Fs, dir: Handle, names: set<Name>) {
    forall d :: d in Readdir(fs, dir) ==> d.name in names
  }

  /** A scan resolves an entry's cookie to that entry exactly when no earlier entry has the same cookie. */
  lemma {:induction false} ScanFindsIff(hash: Name -> nat, ds: seq<DirEntry>, k: nat)
    requires k < |ds| && forall i :: 0 <= i < k ==> ds[i].name != ds[k].name
    ensures FirstWith(hash, ds, NameCookie(hash, ds[k].name)) == Some(ds[k].name) <==>
      forall i :: 0 <= i < k ==> NameCookie(hash, ds[i].name) != NameCookie(hash, ds[k].name)
    decreases k
  {
    if k != 0 && NameCookie(hash, ds[0].name) != NameCookie(hash, ds[k].name) {
      ScanFindsIff(hash, ds[1..], k - 1);
      assert forall i :: 0 <= i < k - 1 ==> ds[1..][i] == ds[i + 1];
      if forall i :: 0 <= i < k - 1 ==> NameCookie(hash, ds[1..][i].name) != NameCookie(hash, ds[k].name) {
        forall i | 0 <= i < k
          ensures NameCookie(hash, ds[i].name) != NameCookie(hash, ds[k].name)
        {
          if i != 0 { assert ds[1..][i - 1] == ds[i]; }
        }
      }
    }
  }

  /** A scan for a cookie ends at an entry that has it, and nowhere when none has. */
  lemma {:induction false} FirstWithMeaning(hash: Name -> nat, ds: seq<DirEntry>, ck: nat, r: Option<Name>)
    requires r == FirstWith(hash, ds, ck)
    ensures r.Some? ==> HasName(ds, r.value) && NameCookie(hash, r.value) == ck
    ensures r.None? ==> forall d :: d in ds ==> NameCookie(hash, d.name) != ck
  {
    if ds != [] {
      if NameCookie(hash, ds[0].name) == ck {
        assert ds[0] in ds;
      } else {
        FirstWithMeaning(hash, ds[1..], ck, r);
        assert forall d :: d in ds[1..] ==> d in ds;
        if r.Some? {
          var d :| d in ds[1..] && d.name == r.value;
          assert d in ds;
        }
      }
    }
  }

  // What one request meets: the file system and the cache as they stand, and the client's budget.
  datatype Turn = Turn(fs: Fs, cache: Cache, max: nat)

  /** A server's cache and directory, all of whose names are among those in play. */
  ghost predicate Fair(hash: Name -> nat, fs: Fs, dir: Handle, cache: Cache, names: set<Name>) {
    fs.Cur() < LATEST && CacheOk(hash, cache) && Within(cache, names) && ListsWithin(fs, dir, names)
  }

  /** A name's cookie resumes at that name, as long as the server remembers it or the directory still lists it. */
  lemma ResumesAt(hash: Name -> nat, fs: Fs, dir: Handle, cache: Cache, names: set<Name>, n: Name)
    requires Fair(hash, fs, dir, cache, names) && CookiesApart(hash, names) && n in names
    ensures Resume(hash, fs, dir, cache, NameCookie(hash, n)) ==
      if NameCookie(hash, n) in cache || HasName(Rest(fs, dir, []), n) then Some(n) else None
  {
    var ck := NameCookie(hash, n);
    if ck !in cache {
      var ds := Rest(fs, dir, []);
      var r := FirstWith(hash, ds, ck);
      FirstWithMeaning(hash, ds, ck, r);
      if r.Some? {
        var d :| d in ds && d.name == r.value;
        RestMember(fs, dir, [], d);
      }
    }
  }

  /** Losing the cache never moves the resume point of an entry that is still there. */
  lemma ClearingHarmless(hash: Name -> nat, fs: Fs, dir: Handle, cache: Cache, names: set<Name>, d: DirEntry)
    requires Fair(hash, fs, dir, cache, names) && CookiesApart(hash, names) && d in Rest(fs, dir, [])
    ensures var ck := NameCookie(hash, d.name);
      Resume(hash, fs, dir, map[], ck) == Resume(hash, fs, dir, cache, ck) == Some(d.name)
  {
    RestMember(fs, dir, [], d);
    ResumesAt(hash, fs, dir, cache, names, d.name);
    ResumesAt(hash, fs, dir, map[], names, d.name);
  }

  // ---- sessions ----

  // Before the first entry.
  const ORIGIN := DirEnt([], 0, Handle(0, 0))

  /** The server's answer to a client that has heard up to some entry. */
  function Server(hash: Name -> nat, dir: Handle, perEntry: nat): (Turn, DirEnt) -> Reply {
    (t: Turn, last: DirEnt) => ReplyTo(hash, t.fs, dir, t.cache, last.cookie, t.max, perEntry)
  }

  /** The replies of a session from the last entry heard on; it ends at eof, at a refused cookie, or at a reply
      too small for an entry. */
  function Talk(server: (Turn, DirEnt) -> Reply, ts: seq<Turn>, last: DirEnt): (rs: seq<Reply>)
    ensures |rs| <= |ts|
    decreases |ts|
  {
    if ts == [] then [] else
    var r := server(ts[0], last);
    [r] + (if Ends(r) then [] else Talk(server, ts[1..], r.out[|r.out| - 1]))
  }

  predicate Ends(r: Reply) {
    r.BadCookie? || r.eof || r.out == []
  }

  function Said(r: Reply): seq<DirEnt> {
    if r.BadCookie? then [] else r.out
  }

  function Heard(rs: seq<Reply>): seq<DirEnt> {
    if rs == [] then [] else Said(rs[0]) + Heard(rs[1..])
  }

  ghost predicate Stopped(rs: seq<Reply>) {
    rs != [] && Ends(rs[|rs| - 1])
  }

  ghost predicate AtEof(rs: seq<Reply>) {
    rs != [] && rs[|rs| - 1].Listed? && rs[|rs| - 1].eof
  }

  lemma TalkUnfolds(server: (Turn, DirEnt) -> Reply, ts: seq<Turn>, last: DirEnt, r: Reply, rs: seq<Reply>)
    requires ts != [] && rs == Talk(server, ts, last) && r == server(ts[0], last)
    ensures Ends(r) ==> rs == [r]
    ensures !Ends(r) ==> rs == [r] + Talk(server, ts[1..], r.out[|r.out| - 1])
  {
  }

  lemma HeardFirst(r: Reply, more: seq<Reply>)
    ensures Heard([r] + more) == Said(r) + Heard(more)
    ensures more != [] || !Ends(r) ==> (AtEof([r] + more) <==> AtEof(more)) && (Stopped([r] + more) <==> Stopped(more))
  {
    assert ([r] + more)[1..] == more;
  }

  /** What is heard: the first reply, and what follows from its last entry on. */
  lemma HeardSteps(server: (Turn, DirEnt) -> Reply, ts: seq<Turn>, last: DirEnt, r: Reply)
    requires ts != [] && r == server(ts[0], last)
    ensures Heard(Talk(server, ts, last)) ==
      if Ends(r) then Said(r) else r.out + Heard(Talk(server, ts[1..], r.out[|r.out| - 1]))
  {
    TalkSteps(server, ts, last, r, Talk(server, ts, last));
  }

  lemma TalkSteps(server: (Turn, DirEnt) -> Reply, ts: seq<Turn>, last: DirEnt, r: Reply, rs: seq<Reply>)
    requires ts != [] && rs == Talk(server, ts, last) && r == server(ts[0], last)
    ensures Ends(r) ==> rs == [r] && Heard(rs) == Said(r)
    ensures !Ends(r) ==>
      var more := Talk(server, ts[1..], r.out[|r.out| - 1]);
      && rs == [r] + more && Heard(rs) == r.out + Heard(more)
      && (AtEof(rs) <==> AtEof(more)) && (Stopped(rs) <==> Stopped(more))
  {
    TalkUnfolds(server, ts, last, r, rs);
    if Ends(r) {
      HeardFirst(r, []);
      assert [r] + [] == [r];
    } else {
      HeardFirst(r, Talk(server, ts[1..], r.out[|r.out| - 1]));
    }
  }

  /** Where the store's entries are taken up after an entry. */
  function From(last: DirEnt): Name {
    if last.cookie < CK_ENTRY then [] else last.name
  }

  /** The synthesized entries first, by cookie, then the others as the directory orders them. */
  ghost predicate Follows(dir: Handle, a: DirEnt, b: DirEnt) {
    if a.cookie < CK_ENTRY then a.cookie < b.cookie else b.cookie >= CK_ENTRY && Above(dir, a.name, b.name)
  }

  lemma FollowsTransitive(dir: Handle, a: DirEnt, b: DirEnt, c: DirEnt)
    requires Follows(dir, a, b) && Follows(dir, b, c)
    ensures Follows(dir, a, c)
  {
    if a.cookie >= CK_ENTRY { AboveTransitive(dir, a.name, b.name, c.name); }
  }

  lemma FollowsIrreflexive(dir: Handle, a: DirEnt, b: DirEnt)
    requires Follows(dir, a, b)
    ensures a.cookie < CK_ENTRY || a.name != b.name
  {
    AboveIrreflexive(dir, a.name);
  }

  ghost predicate EntsRise(dir: Handle, es: seq<DirEnt>, last: DirEnt) {
    && (forall i :: 0 <= i < |es| ==> Follows(dir, last, es[i]))
    && (forall i, j :: 0 <= i < j < |es| ==> Follows(dir, es[i], es[j]))
  }

  lemma EntsJoin(dir: Handle, a: seq<DirEnt>, b: seq<DirEnt>, last: DirEnt, mid: DirEnt)
    requires EntsRise(dir, a, last) && EntsRise(dir, b, mid) && a != [] && mid == a[|a| - 1]
    ensures EntsRise(dir, a + b, last)
  {
    var c := a + b;
    forall i | 0 <= i < |c|
      ensures Follows(dir, last, c[i])
    {
      if i >= |a| { FollowsTransitive(dir, last, mid, c[i]); }
    }
    forall i, j | 0 <= i < j < |c|
      ensures Follows(dir, c[i], c[j])
    {
      if i < |a| - 1 && |a| <= j { FollowsTransitive(dir, c[i], mid, c[j]); }
    }
  }

  /** An entry that a client may hold the cookie of. */
  ghost predicate Issued(hash: Name -> nat, e: DirEnt, names: set<Name>) {
    e.cookie <= CK_DOTDOT || (e.cookie == NameCookie(hash, e.name) && e.name in names)
  }

  /** An entry of the listing as it stands: synthesized, or the directory's own under its cookie. */
  ghost predicate Stands(hash: Name -> nat, fs: Fs, dir: Handle, e: DirEnt) {
    if e.cookie < CK_ENTRY then e in Dots(fs, dir)
    else e.cookie == NameCookie(hash, e.name) && DirEntry(e.name, e.node) in Readdir(fs, dir)
  }

  /** What is left behind an entry. */
  function Behind(hash: Name -> nat, fs: Fs, dir: Handle, last: DirEnt): seq<DirEnt> {
    LeadFor(fs, dir, last.cookie) + AsEnts(hash, Rest(fs, dir, From(last)))
  }

  lemma BehindAt(hash: Name -> nat, fs: Fs, dir: Handle, last: DirEnt, es: seq<DirEnt>, i: nat)
    requires es == Behind(hash, fs, dir, last) && i < |es| && fs.Cur() < LATEST
    ensures Stands(hash, fs, dir, es[i]) && Follows(dir, last, es[i])
  {
    var lead, ds := LeadFor(fs, dir, last.cookie), Rest(fs, dir, From(last));
    if i < |lead| {
      LeadStands(fs, dir, last.cookie, lead, i);
      IndexInLead(lead, AsEnts(hash, ds), i);
    } else {
      IndexInSum(lead, AsEnts(hash, ds), i - |lead|);
      EntStands(hash, fs, dir, last, ds, ds[i - |lead|]);
    }
  }

  lemma LeadStands(fs: Fs, dir: Handle, cookie: nat, lead: seq<DirEnt>, i: nat)
    requires lead == LeadFor(fs, dir, cookie) && i < |lead|
    ensures cookie < lead[i].cookie < CK_ENTRY && lead[i] in Dots(fs, dir)
  {
  }

  lemma EntStands(hash: Name -> nat, fs: Fs, dir: Handle, last: DirEnt, ds: seq<DirEntry>, d: DirEntry)
    requires ds == Rest(fs, dir, From(last)) && d in ds && fs.Cur() < LATEST
    ensures var e := DirEnt(d.name, NameCookie(hash, d.name), d.node); Stands(hash, fs, dir, e) && Follows(dir, last, e)
  {
    RestMember(fs, dir, From(last), d);
  }

  lemma BehindRises(hash: Name -> nat, fs: Fs, dir: Handle, last: DirEnt, es: seq<DirEnt>, i: nat, j: nat)
    requires es == Behind(hash, fs, dir, last) && i < j < |es| && fs.Cur() < LATEST
    ensures Follows(dir, es[i], es[j])
  {
    var lead, ds := LeadFor(fs, dir, last.cookie), Rest(fs, dir, From(last));
    RestRises(fs, dir, From(last), ds);
    LeadShape(fs, dir, last.cookie, lead);
    SumRises(hash, dir, lead, ds, From(last), es, i, j);
  }

  /** The synthesized entries come in order, under the two small cookies. */
  lemma LeadShape(fs: Fs, dir: Handle, cookie: nat, lead: seq<DirEnt>)
    requires lead == LeadFor(fs, dir, cookie)
    ensures forall i :: 0 <= i < |lead| ==> lead[i].cookie < CK_ENTRY
    ensures forall i, j :: 0 <= i < j < |lead| ==> lead[i].cookie < lead[j].cookie
  {
  }

  lemma SumRises(hash: Name -> nat, dir: Handle, lead: seq<DirEnt>, ds: seq<DirEntry>, floor: Name, es: seq<DirEnt>, i: nat, j: nat)
    requires NamesRise(dir, ds, floor) && es == lead + AsEnts(hash, ds) && i < j < |es|
    requires forall k :: 0 <= k < |lead| ==> lead[k].cookie < CK_ENTRY
    requires forall k, m :: 0 <= k < m < |lead| ==> lead[k].cookie < lead[m].cookie
    ensures Follows(dir, es[i], es[j])
  {
    if j >= |lead| { IndexInSum(lead, AsEnts(hash, ds), j - |lead|); }
    if i >= |lead| { IndexInSum(lead, AsEnts(hash, ds), i - |lead|); }
  }

  /** An entry the directory lists behind the last one heard is left. */
  lemma BehindHas(hash: Name -> nat, fs: Fs, dir: Handle, last: DirEnt, es: seq<DirEnt>, d: DirEntry) returns (i: nat)
    requires es == Behind(hash, fs, dir, last) && fs.Cur() < LATEST
    requires d in Readdir(fs, dir) && Above(dir, From(last), d.name)
    ensures i < |es| && es[i] == DirEnt(d.name, NameCookie(hash, d.name), d.node)
  {
    var lead, ds := LeadFor(fs, dir, last.cookie), Rest(fs, dir, From(last));
    RestMember(fs, dir, From(last), d);
    var k :| 0 <= k < |ds| && ds[k] == d;
    i := |lead| + k;
    IndexInSum(lead, AsEnts(hash, ds), k);
  }

  lemma IndexInLead(lead: seq<DirEnt>, es: seq<DirEnt>, k: nat)
    requires k < |lead|
    ensures (lead + es)[k] == lead[k]
  {
  }

  lemma IndexInSum(lead: seq<DirEnt>, es: seq<DirEnt>, k: nat)
    requires k < |es|
    ensures (lead + es)[|lead| + k] == es[k]
  {
  }

  /** A reply to an entry's cookie is refused exactly when the server has forgotten the entry and the directory no
      longer lists it; otherwise it goes on right behind the entry, wherever that would be. */
  lemma ReplyMeaning(hash: Name -> nat, fs: Fs, dir: Handle, cache: Cache, max: nat, perEntry: nat, last: DirEnt, names: set<Name>, r: Reply)
    requires Fair(hash, fs, dir, cache, names) && CookiesApart(hash, names) && Issued(hash, last, names)
    requires r == ReplyTo(hash, fs, dir, cache, last.cookie, max, perEntry)
    ensures r.BadCookie? <==> last.cookie >= CK_ENTRY && last.cookie !in cache && !HasName(Rest(fs, dir, []), last.name)
    ensures r.Listed? ==> r == Served(Behind(hash, fs, dir, last), HEADER, max, perEntry)
  {
    if last.cookie >= CK_ENTRY { ResumesAt(hash, fs, dir, cache, names, last.name); }
  }

  /** What a reply lists stands, follows the last entry, rises, and may be resumed from. */
  lemma ReplyRises(hash: Name -> nat, fs: Fs, dir: Handle, cache: Cache, max: nat, perEntry: nat, last: DirEnt, names: set<Name>, r: Reply)
    requires Fair(hash, fs, dir, cache, names) && CookiesApart(hash, names) && Issued(hash, last, names)
    requires r == ReplyTo(hash, fs, dir, cache, last.cookie, max, perEntry)
    ensures EntsRise(dir, Said(r), last)
    ensures forall e :: e in Said(r) ==> Stands(hash, fs, dir, e) && Issued(hash, e, names)
  {
    ReplyMeaning(hash, fs, dir, cache, max, perEntry, last, names, r);
    if r.Listed? {
      var es := Behind(hash, fs, dir, last);
      forall i | 0 <= i < |r.out|
        ensures Follows(dir, last, r.out[i]) && Stands(hash, fs, dir, r.out[i]) && Issued(hash, r.out[i], names)
      {
        BehindAt(hash, fs, dir, last, es, i);
      }
      forall i, j | 0 <= i < j < |r.out|
        ensures Follows(dir, r.out[i], r.out[j])
      {
        BehindRises(hash, fs, dir, last, es, i, j);
      }
    }
  }

  /** An entry listed behind the last one heard is in the reply, or behind the reply's last. */
  lemma ReplyHas(hash: Name -> nat, fs: Fs, dir: Handle, cache: Cache, max: nat, perEntry: nat, last: DirEnt, names: set<Name>, r: Reply, d: DirEntry)
    requires Fair(hash, fs, dir, cache, names) && CookiesApart(hash, names) && Issued(hash, last, names)
    requires r == ReplyTo(hash, fs, dir, cache, last.cookie, max, perEntry) && r.Listed?
    requires d in Readdir(fs, dir) && Above(dir, [], d.name) && Above(dir, From(last), d.name)
    ensures var e := DirEnt(d.name, NameCookie(hash, d.name), d.node);
      e in r.out || (!r.eof && (r.out != [] ==> Above(dir, From(r.out[|r.out| - 1]), d.name)))
  {
    ReplyMeaning(hash, fs, dir, cache, max, perEntry, last, names, r);
    var es := Behind(hash, fs, dir, last);
    var i := BehindHas(hash, fs, dir, last, es, d);
    if i < |r.out| {
      assert r.out[i] == es[i];
    } else if r.out != [] {
      BehindRises(hash, fs, dir, last, es, |r.out| - 1, i);
    }
  }

  // ---- whole sessions ----

  ghost predicate HeardName(es: seq<DirEnt>, n: Name) {
    exists e :: e in es && e.cookie >= CK_ENTRY && e.name == n
  }

  lemma SumHeardName(a: seq<DirEnt>, b: seq<DirEnt>, n: Name)
    ensures HeardName(a + b, n) <==> HeardName(a, n) || HeardName(b, n)
  {
    if HeardName(a, n) {
      var e :| e in a && e.cookie >= CK_ENTRY && e.name == n;
      assert e in a + b;
    }
    if HeardName(b, n) {
      var e :| e in b && e.cookie >= CK_ENTRY && e.name == n;
      assert e in a + b;
    }
  }

  ghost predicate FairTurn(hash: Name -> nat, dir: Handle, t: Turn, names: set<Name>) {
    Fair(hash, t.fs, dir, t.cache, names)
  }

  /** The server has forgotten the entry and the directory lists it no more. */
  ghost predicate Forgotten(dir: Handle, t: Turn, e: DirEnt) {
    e.cookie >= CK_ENTRY && e.cookie !in t.cache && !HasName(Rest(t.fs, dir, []), e.name)
  }

  ghost predicate AllStand(hash: Name -> nat, fs: Fs, dir: Handle, es: seq<DirEnt>, names: set<Name>) {
    forall e :: e in es ==> Stands(hash, fs, dir, e) && Issued(hash, e, names)
  }

  /** The name is in the reply, or still ahead of it. */
  ghost predicate Covered(dir: Handle, r: Reply, n: Name) {
    r.Listed? ==> HeardName(r.out, n) || (!r.eof && (r.out != [] ==> Above(dir, From(r.out[|r.out| - 1]), n)))
  }

  /** What one reply promises. */
  ghost predicate ReplyGood(hash: Name -> nat, dir: Handle, t: Turn, last: DirEnt, names: set<Name>, r: Reply) {
    && EntsRise(dir, Said(r), last) && AllStand(hash, t.fs, dir, Said(r), names)
    && (r.BadCookie? <==> Forgotten(dir, t, last))
    && (forall n {:trigger Covered(dir, r, n)} ::
          Lists(t.fs, dir, n) && Above(dir, [], n) && Above(dir, From(last), n) ==> Covered(dir, r, n))
  }

  ghost predicate Serves(server: (Turn, DirEnt) -> Reply, hash: Name -> nat, dir: Handle, names: set<Name>) {
    forall t, last {:trigger ReplyGood(hash, dir, t, last, names, server(t, last))} ::
      FairTurn(hash, dir, t, names) && Issued(hash, last, names) ==> ReplyGood(hash, dir, t, last, names, server(t, last))
  }

  lemma ServerServes(hash: Name -> nat, dir: Handle, perEntry: nat, names: set<Name>)
    requires CookiesApart(hash, names)
    ensures Serves(Server(hash, dir, perEntry), hash, dir, names)
  {
    var server := Server(hash, dir, perEntry);
    forall t, last | FairTurn(hash, dir, t, names) && Issued(hash, last, names)
      ensures ReplyGood(hash, dir, t, last, names, server(t, last))
    {
      ReplyIsGood(hash, dir, perEntry, t, last, names, server(t, last));
    }
  }

  lemma ReplyIsGood(hash: Name -> nat, dir: Handle, perEntry: nat, t: Turn, last: DirEnt, names: set<Name>, r: Reply)
    requires FairTurn(hash, dir, t, names) && Issued(hash, last, names) && CookiesApart(hash, names)
    requires r == ReplyTo(hash, t.fs, dir, t.cache, last.cookie, t.max, perEntry)
    ensures ReplyGood(hash, dir, t, last, names, r)
  {
    ReplyMeaning(hash, t.fs, dir, t.cache, t.max, perEntry, last, names, r);
    ReplyRises(hash, t.fs, dir, t.cache, t.max, perEntry, last, names, r);
    forall n | Lists(t.fs, dir, n) && Above(dir, [], n) && Above(dir, From(last), n)
      ensures Covered(dir, r, n)
    {
      var d :| d in Readdir(t.fs, dir) && d.name == n;
      if r.Listed? { ReplyHas(hash, t.fs, dir, t.cache, t.max, perEntry, last, names, r, d); }
    }
  }

  ghost predicate AllFair(hash: Name -> nat, dir: Handle, ts: seq<Turn>, names: set<Name>) {
    forall t {:trigger FairTurn(hash, dir, t, names)} :: t in ts ==> FairTurn(hash, dir, t, names)
  }

  lemma OneReply(server: (Turn, DirEnt) -> Reply, hash: Name -> nat, dir: Handle, t: Turn, last: DirEnt, names: set<Name>, r: Reply)
    requires Serves(server, hash, dir, names) && FairTurn(hash, dir, t, names) && Issued(hash, last, names) && r == server(t, last)
    ensures EntsRise(dir, Said(r), last)
    ensures !Ends(r) ==> Issued(hash, r.out[|r.out| - 1], names)
  {
    assert ReplyGood(hash, dir, t, last, names, r);
    if !Ends(r) { assert r.out[|r.out| - 1] in Said(r); }
  }

  /** Whatever happens between the replies, "." and ".." come first and then names in rising order. */
  lemma {:induction false} Rises(server: (Turn, DirEnt) -> Reply, hash: Name -> nat, dir: Handle, ts: seq<Turn>, last: DirEnt,
                                 names: set<Name>, rs: seq<Reply>)
    requires Serves(server, hash, dir, names) && AllFair(hash, dir, ts, names) && Issued(hash, last, names)
    requires rs == Talk(server, ts, last)
    ensures EntsRise(dir, Heard(rs), last)
    decreases |ts|
  {
    if ts != [] {
      var r := server(ts[0], last);
      TalkSteps(server, ts, last, r, rs);
      OneReply(server, hash, dir, ts[0], last, names, r);
      if !Ends(r) {
        var mid := r.out[|r.out| - 1];
        var more := Talk(server, ts[1..], mid);
        Rises(server, hash, dir, ts[1..], mid, names, more);
        EntsJoin(dir, r.out, Heard(more), last, mid);
      }
    }
  }

  /** The last entry heard before a reply. */
  function LastBefore(rs: seq<Reply>, i: nat, last: DirEnt): DirEnt
    requires i < |rs|
  {
    if i == 0 || Said(rs[i - 1]) == [] then last else Said(rs[i - 1])[|Said(rs[i - 1])| - 1]
  }

  lemma LastShifts(r: Reply, more: seq<Reply>, i: nat, last: DirEnt)
    requires !Ends(r) && 0 < i <= |more| && (i > 1 ==> Said(more[i - 2]) != [])
    ensures LastBefore([r] + more, i, last) == LastBefore(more, i - 1, r.out[|r.out| - 1])
  {
    if i > 1 { assert ([r] + more)[i - 1] == more[i - 2]; }
  }

  /** A reply that another follows holds an entry. */
  lemma {:induction false} NeverSilent(server: (Turn, DirEnt) -> Reply, ts: seq<Turn>, last: DirEnt, rs: seq<Reply>, i: nat)
    requires rs == Talk(server, ts, last) && i + 1 < |rs|
    ensures Said(rs[i]) != []
    decreases |ts|
  {
    var r := server(ts[0], last);
    TalkUnfolds(server, ts, last, r, rs);
    if i > 0 {
      var mid := r.out[|r.out| - 1];
      NeverSilent(server, ts[1..], mid, Talk(server, ts[1..], mid), i - 1);
    }
  }

  lemma FairTail(hash: Name -> nat, dir: Handle, ts: seq<Turn>, names: set<Name>)
    requires AllFair(hash, dir, ts, names) && ts != []
    ensures FairTurn(hash, dir, ts[0], names) && AllFair(hash, dir, ts[1..], names)
  {
  }

  /** Reply i answers what the server was told last. */
  lemma {:induction false} AnswersLast(server: (Turn, DirEnt) -> Reply, ts: seq<Turn>, last: DirEnt, rs: seq<Reply>, i: nat)
    requires rs == Talk(server, ts, last) && i < |rs|
    ensures rs[i] == server(ts[i], LastBefore(rs, i, last))
    decreases |ts|
  {
    var r := server(ts[0], last);
    TalkUnfolds(server, ts, last, r, rs);
    if i > 0 {
      var mid := r.out[|r.out| - 1];
      var more := Talk(server, ts[1..], mid);
      AnswersLast(server, ts[1..], mid, more, i - 1);
      if i > 1 { NeverSilent(server, ts[1..], mid, more, i - 2); }
      LastShifts(r, more, i, last);
    }
  }

  /** And that came from the server. */
  lemma {:induction false} LastIssued(server: (Turn, DirEnt) -> Reply, hash: Name -> nat, dir: Handle, ts: seq<Turn>, last: DirEnt,
                                      names: set<Name>, rs: seq<Reply>, i: nat)
    requires Serves(server, hash, dir, names) && AllFair(hash, dir, ts, names) && Issued(hash, last, names)
    requires rs == Talk(server, ts, last) && i < |rs|
    ensures Issued(hash, LastBefore(rs, i, last), names)
    decreases i
  {
    if i > 0 {
      LastIssued(server, hash, dir, ts, last, names, rs, i - 1);
      AnswersLast(server, ts, last, rs, i - 1);
      NeverSilent(server, ts, last, rs, i - 1);
      IssuedNext(server, hash, dir, ts[i - 1], LastBefore(rs, i - 1, last), names, rs[i - 1]);
    }
  }

  lemma IssuedNext(server: (Turn, DirEnt) -> Reply, hash: Name -> nat, dir: Handle, t: Turn, last: DirEnt, names: set<Name>, r: Reply)
    requires Serves(server, hash, dir, names) && FairTurn(hash, dir, t, names) && Issued(hash, last, names) && r == server(t, last)
    ensures Said(r) != [] ==> Issued(hash, Said(r)[|Said(r)| - 1], names)
  {
    assert ReplyGood(hash, dir, t, last, names, r);
    if Said(r) != [] { assert Said(r)[|Said(r)| - 1] in Said(r); }
  }

  ghost predicate StableName(dir: Handle, ts: seq<Turn>, n: Name) {
    forall t :: t in ts ==> Lists(t.fs, dir, n)
  }

  lemma CoversNext(server: (Turn, DirEnt) -> Reply, hash: Name -> nat, dir: Handle, t: Turn, last: DirEnt, names: set<Name>,
                   n: Name, r: Reply)
    requires Serves(server, hash, dir, names) && FairTurn(hash, dir, t, names) && Issued(hash, last, names) && r == server(t, last)
    requires Lists(t.fs, dir, n) && Above(dir, [], n) && Above(dir, From(last), n)
    ensures Covered(dir, r, n)
    ensures !Ends(r) ==> Issued(hash, r.out[|r.out| - 1], names)
  {
    assert ReplyGood(hash, dir, t, last, names, r);
    assert Covered(dir, r, n);
    if !Ends(r) { assert r.out[|r.out| - 1] in Said(r); }
  }

  lemma {:induction false} Completes(server: (Turn, DirEnt) -> Reply, hash: Name -> nat, dir: Handle, ts: seq<Turn>, last: DirEnt,
                                     names: set<Name>, n: Name)
    requires Serves(server, hash, dir, names) && AllFair(hash, dir, ts, names) && Issued(hash, last, names)
    requires AtEof(Talk(server, ts, last)) && StableName(dir, ts, n) && Above(dir, [], n) && Above(dir, From(last), n)
    ensures HeardName(Heard(Talk(server, ts, last)), n)
    decreases |ts|
  {
    var r := server(ts[0], last);
    TalkSteps(server, ts, last, r, Talk(server, ts, last));
    CoversNext(server, hash, dir, ts[0], last, names, n, r);
    if !Ends(r) {
      var mid := r.out[|r.out| - 1];
      if !HeardName(r.out, n) { Completes(server, hash, dir, ts[1..], mid, names, n); }
      SumHeardName(r.out, Heard(Talk(server, ts[1..], mid)), n);
    }
  }

  /** Neither a small cookie nor a name of the directory's own comes twice. */
  ghost predicate NoneTwice(es: seq<DirEnt>) {
    forall i, j :: 0 <= i < j < |es| ==>
      if es[i].cookie < CK_ENTRY then es[i].cookie < es[j].cookie else es[j].cookie >= CK_ENTRY && es[i].name != es[j].name
  }

  lemma HeardOnce(dir: Handle, es: seq<DirEnt>, last: DirEnt)
    requires EntsRise(dir, es, last)
    ensures NoneTwice(es)
  {
    forall i, j | 0 <= i < j < |es|
      ensures if es[i].cookie < CK_ENTRY then es[i].cookie < es[j].cookie else es[j].cookie >= CK_ENTRY && es[i].name != es[j].name
    {
      FollowsIrreflexive(dir, es[i], es[j]);
    }
  }

  /** A session while the directory changes in any way: names rise and none comes twice; each entry stood when its
      reply was made; a cookie is refused exactly when its entry is forgotten and gone; and a name listed at every
      reply, the empty one aside, is heard by the time of eof. */
  lemma SessionMeaning(hash: Name -> nat, dir: Handle, ts: seq<Turn>, perEntry: nat, names: set<Name>, rs: seq<Reply>)
    requires AllFair(hash, dir, ts, names) && CookiesApart(hash, names) && rs == Talk(Server(hash, dir, perEntry), ts, ORIGIN)
    ensures EntsRise(dir, Heard(rs), ORIGIN) && NoneTwice(Heard(rs))
    ensures forall i :: 0 <= i < |rs| ==> AllStand(hash, ts[i].fs, dir, Said(rs[i]), names)
    ensures forall i :: 0 <= i < |rs| ==> (rs[i].BadCookie? <==> Forgotten(dir, ts[i], LastBefore(rs, i, ORIGIN)))
    ensures forall n :: AtEof(rs) && StableName(dir, ts, n) && Above(dir, [], n) ==> HeardName(Heard(rs), n)
  {
    var server := Server(hash, dir, perEntry);
    ServerServes(hash, dir, perEntry, names);
    Rises(server, hash, dir, ts, ORIGIN, names, rs);
    HeardOnce(dir, Heard(rs), ORIGIN);
    forall i | 0 <= i < |rs|
      ensures AllStand(hash, ts[i].fs, dir, Said(rs[i]), names)
      ensures rs[i].BadCookie? <==> Forgotten(dir, ts[i], LastBefore(rs, i, ORIGIN))
    {
      AnswersLast(server, ts, ORIGIN, rs, i);
      LastIssued(server, hash, dir, ts, ORIGIN, names, rs, i);
      assert ReplyGood(hash, dir, ts[i], LastBefore(rs, i, ORIGIN), names, rs[i]);
    }
    forall n | AtEof(rs) && StableName(dir, ts, n) && Above(dir, [], n)
      ensures HeardName(Heard(rs), n)
    {
      Completes(server, hash, dir, ts, ORIGIN, names, n);
    }
  }

  // ---- an unchanging directory ----

  /** The cookie a client holds after the first k entries. */
  function CookieAt(all: seq<DirEnt>, k: nat): nat
    requires k <= |all|
  {
    if k == 0 then 0 else all[k - 1].cookie
  }

  /** Where the listing's k-th cut falls: among the synthesized entries, or behind one of the store's. */
  lemma EntAt(hash: Name -> nat, fs: Fs, dir: Handle, k: nat, all: seq<DirEnt>, ds: seq<DirEntry>)
    requires all == AllEnts(hash, fs, dir) && ds == Rest(fs, dir, []) && k <= |all|
    ensures |all| == |ds| + 2
    ensures k <= 2 ==> CookieAt(all, k) == k && all[k..] == LeadFor(fs, dir, k) + AsEnts(hash, ds)
    ensures k > 2 ==> CookieAt(all, k) == NameCookie(hash, ds[k - 3].name) && all[k..] == AsEnts(hash, ds[k - 2..])
  {
    var dots, es := Dots(fs, dir), AsEnts(hash, ds);
    CutSeq(dots, es, all, k);
    if k > 2 { assert all[k - 1] == es[k - 3]; }
  }

  lemma CutSeq(dots: seq<DirEnt>, es: seq<DirEnt>, all: seq<DirEnt>, k: nat)
    requires all == dots + es && k <= |all|
    ensures all[k..] == if k <= |dots| then dots[k..] + es else es[k - |dots|..]
  {
  }

  lemma RemainingFrom(hash: Name -> nat, fs: Fs, dir: Handle, cache: Cache, cookie: nat, after: Name)
    requires StartName(hash, fs, dir, cache, cookie) == Some(after)
    ensures Remaining(hash, fs, dir, cache, cookie) == Some(LeadFor(fs, dir, cookie) + AsEnts(hash, Rest(fs, dir, after)))
  {
  }

  lemma NoLead(fs: Fs, dir: Handle, cookie: nat, es: seq<DirEnt>)
    requires cookie >= CK_ENTRY
    ensures LeadFor(fs, dir, cookie) + es == es
  {
  }

  /** From the cookie of the k-th entry, what remains is everything behind it. */
  lemma RemainingAt(hash: Name -> nat, fs: Fs, dir: Handle, cache: Cache, names: set<Name>, k: nat, all: seq<DirEnt>)
    requires all == AllEnts(hash, fs, dir) && k <= |all| && Fair(hash, fs, dir, cache, names) && CookiesApart(hash, names)
    ensures Remaining(hash, fs, dir, cache, CookieAt(all, k)) == Some(all[k..])
  {
    var ds := Rest(fs, dir, []);
    EntAt(hash, fs, dir, k, all, ds);
    if k > 2 {
      ClearingHarmless(hash, fs, dir, cache, names, ds[k - 3]);
      RestResumes(fs, dir, [], k - 3, ds);
      RemainingFrom(hash, fs, dir, cache, CookieAt(all, k), ds[k - 3].name);
      NoLead(fs, dir, CookieAt(all, k), all[k..]);
    } else {
      RemainingFrom(hash, fs, dir, cache, k, []);
    }
  }

  lemma ReplyAt(hash: Name -> nat, fs: Fs, dir: Handle, cache: Cache, names: set<Name>, k: nat, all: seq<DirEnt>, max: nat, perEntry: nat, n: nat)
    requires all == AllEnts(hash, fs, dir) && k <= |all| && Fair(hash, fs, dir, cache, names) && CookiesApart(hash, names)
    requires n == Fit(all[k..], HEADER, max, perEntry)
    ensures ReplyTo(hash, fs, dir, cache, CookieAt(all, k), max, perEntry) == Listed(all[k..][..n], n == |all| - k)
  {
    RemainingAt(hash, fs, dir, cache, names, k, all);
  }

  ghost predicate Unchanged(ts: seq<Turn>, fs: Fs) {
    forall t :: t in ts ==> t.fs == fs
  }

  /** The entry fits a reply by itself. */
  predicate FitsAlone(e: DirEnt, perEntry: nat, max: nat) {
    HEADER + EntrySize(e.name, perEntry) <= max
  }

  ghost predicate EachFits(all: seq<DirEnt>, ts: seq<Turn>, perEntry: nat) {
    forall e, t :: e in all && t in ts ==> FitsAlone(e, perEntry, t.max)
  }

  /** The reply holds the next entries, some when the first of them fits, and says whether that is all. */
  ghost predicate NextGood(all: seq<DirEnt>, k: nat, perEntry: nat, max: nat, r: Reply) {
    && r.Listed? && k + |r.out| <= |all| && r.out == all[k..k + |r.out|] && (r.eof <==> k + |r.out| == |all|)
    && (r.out != [] ==> r.out[|r.out| - 1].cookie == CookieAt(all, k + |r.out|))
    && (k < |all| && FitsAlone(all[k], perEntry, max) ==> r.out != [])
    && forall e :: e in r.out ==> FitsAlone(e, perEntry, max)
  }

  ghost predicate EachNext(server: (Turn, DirEnt) -> Reply, ts: seq<Turn>, all: seq<DirEnt>, perEntry: nat) {
    forall t, last: DirEnt, k: nat {:trigger NextGood(all, k, perEntry, t.max, server(t, last))} ::
      t in ts && k <= |all| && last.cookie == CookieAt(all, k) ==> NextGood(all, k, perEntry, t.max, server(t, last))
  }

  lemma NextIsGood(hash: Name -> nat, fs: Fs, dir: Handle, t: Turn, names: set<Name>, k: nat, all: seq<DirEnt>, perEntry: nat, r: Reply)
    requires all == AllEnts(hash, fs, dir) && k <= |all| && FairTurn(hash, dir, t, names) && CookiesApart(hash, names)
    requires t.fs == fs && r == ReplyTo(hash, fs, dir, t.cache, CookieAt(all, k), t.max, perEntry)
    ensures NextGood(all, k, perEntry, t.max, r)
  {
    var es := all[k..];
    var n := Fit(es, HEADER, t.max, perEntry);
    ReplyAt(hash, fs, dir, t.cache, names, k, all, t.max, perEntry, n);
    CutFits(es, perEntry, t.max, n);
    CutIsGood(all, k, n, perEntry, t.max, r);
  }

  lemma CutFits(es: seq<DirEnt>, perEntry: nat, max: nat, n: nat)
    requires n == Fit(es, HEADER, max, perEntry)
    ensures es != [] && FitsAlone(es[0], perEntry, max) ==> n > 0
    ensures forall e :: e in es[..n] ==> FitsAlone(e, perEntry, max)
  {
    FitWithin(es, HEADER, max, perEntry);
    forall e | e in es[..n]
      ensures FitsAlone(e, perEntry, max)
    {
      EntryWithinTotal(es[..n], perEntry, e);
    }
  }

  lemma CutIsGood(all: seq<DirEnt>, k: nat, n: nat, perEntry: nat, max: nat, r: Reply)
    requires k + n <= |all| && r == Listed(all[k..][..n], n == |all| - k)
    requires k < |all| && FitsAlone(all[k..][0], perEntry, max) ==> n > 0
    requires forall e :: e in all[k..][..n] ==> FitsAlone(e, perEntry, max)
    ensures NextGood(all, k, perEntry, max, r)
  {
    assert all[k..][..n] == all[k..k + n];
  }

  /** A reply's share of the listing: n entries, and where that leaves the client. */
  lemma NextOf(server: (Turn, DirEnt) -> Reply, ts: seq<Turn>, all: seq<DirEnt>, k: nat, perEntry: nat, last: DirEnt, r: Reply)
      returns (n: nat)
    requires EachNext(server, ts, all, perEntry) && k <= |all| && last.cookie == CookieAt(all, k)
    requires ts != [] && r == server(ts[0], last)
    ensures r.Listed? && n == |r.out| && k + n <= |all| && r.out == all[k..k + n] && (r.eof <==> k + n == |all|)
    ensures n > 0 ==> r.out[n - 1].cookie == CookieAt(all, k + n)
    ensures k < |all| && FitsAlone(all[k], perEntry, ts[0].max) ==> n > 0
    ensures AllFitAlone(r.out, perEntry, ts[0].max)
  {
    assert ts[0] in ts && NextGood(all, k, perEntry, ts[0].max, r);
    n := |r.out|;
  }

  lemma NextTail(server: (Turn, DirEnt) -> Reply, ts: seq<Turn>, all: seq<DirEnt>, perEntry: nat)
    requires EachNext(server, ts, all, perEntry) && ts != []
    ensures EachNext(server, ts[1..], all, perEntry)
  {
  }

  /** The entries are the listing's, from the k-th on. */
  ghost predicate IsPart(all: seq<DirEnt>, k: nat, es: seq<DirEnt>) {
    k + |es| <= |all| && es == all[k..k + |es|]
  }

  lemma PartsJoin(all: seq<DirEnt>, k: nat, a: seq<DirEnt>, b: seq<DirEnt>)
    requires IsPart(all, k, a) && IsPart(all, k + |a|, b)
    ensures IsPart(all, k, a + b)
  {
  }

  /** When every entry fits, a reply short of the end moves the client on. */
  lemma MovesOn(server: (Turn, DirEnt) -> Reply, ts: seq<Turn>, all: seq<DirEnt>, k: nat, perEntry: nat, last: DirEnt, r: Reply)
      returns (n: nat)
    requires EachNext(server, ts, all, perEntry) && k <= |all| && last.cookie == CookieAt(all, k) && EachFits(all, ts, perEntry)
    requires ts != [] && r == server(ts[0], last)
    ensures r.Listed? && (Ends(r) <==> r.eof) && n == |r.out|
    ensures !r.eof ==> n > 0 && k + n <= |all| && r.out[n - 1].cookie == CookieAt(all, k + n)
    ensures EachNext(server, ts[1..], all, perEntry) && EachFits(all, ts[1..], perEntry)
  {
    n := NextOf(server, ts, all, k, perEntry, last, r);
    if k < |all| { assert all[k] in all && ts[0] in ts; }
    NextTail(server, ts, all, perEntry);
  }

  /** From the k-th entry on, a session hears the next entries. */
  lemma {:induction false} HearsOn(server: (Turn, DirEnt) -> Reply, ts: seq<Turn>, all: seq<DirEnt>, k: nat, perEntry: nat, last: DirEnt)
    requires EachNext(server, ts, all, perEntry) && k <= |all| && last.cookie == CookieAt(all, k)
    ensures IsPart(all, k, Heard(Talk(server, ts, last)))
    decreases |ts|
  {
    if ts == [] {
      NothingHeard(Talk(server, ts, last));
    } else {
      var r := server(ts[0], last);
      HeardSteps(server, ts, last, r);
      PartNext(server, ts, all, k, perEntry, last, r);
      if !Ends(r) {
        HearsOn(server, ts[1..], all, k + |r.out|, perEntry, r.out[|r.out| - 1]);
        PartsJoin(all, k, r.out, Heard(Talk(server, ts[1..], r.out[|r.out| - 1])));
      }
    }
  }

  lemma PartNext(server: (Turn, DirEnt) -> Reply, ts: seq<Turn>, all: seq<DirEnt>, k: nat, perEntry: nat, last: DirEnt, r: Reply)
    requires EachNext(server, ts, all, perEntry) && k <= |all| && last.cookie == CookieAt(all, k)
    requires ts != [] && r == server(ts[0], last)
    ensures IsPart(all, k, Said(r)) && EachNext(server, ts[1..], all, perEntry)
    ensures r.Listed? && (r.eof <==> k + |r.out| == |all|)
    ensures !Ends(r) ==> k + |r.out| <= |all| && r.out[|r.out| - 1].cookie == CookieAt(all, k + |r.out|)
  {
    var n := NextOf(server, ts, all, k, perEntry, last, r);
    NextTail(server, ts, all, perEntry);
  }

  /** It reaches eof exactly when it has heard them all. */
  lemma {:induction false} EofIff(server: (Turn, DirEnt) -> Reply, ts: seq<Turn>, all: seq<DirEnt>, k: nat, perEntry: nat, last: DirEnt)
    requires EachNext(server, ts, all, perEntry) && k <= |all| && last.cookie == CookieAt(all, k)
    ensures AtEof(Talk(server, ts, last)) <==> ts != [] && k + |Heard(Talk(server, ts, last))| == |all|
    decreases |ts|
  {
    if ts != [] {
      var r := server(ts[0], last);
      HeardSteps(server, ts, last, r);
      EofSteps(server, ts, last, r);
      PartNext(server, ts, all, k, perEntry, last, r);
      if !Ends(r) {
        EofIff(server, ts[1..], all, k + |r.out|, perEntry, r.out[|r.out| - 1]);
        NothingHeard(Talk(server, ts[1..], r.out[|r.out| - 1]));
      }
    }
  }

  lemma EofSteps(server: (Turn, DirEnt) -> Reply, ts: seq<Turn>, last: DirEnt, r: Reply)
    requires ts != [] && r == server(ts[0], last)
    ensures AtEof(Talk(server, ts, last)) <==>
      if Ends(r) then r.Listed? && r.eof else AtEof(Talk(server, ts[1..], r.out[|r.out| - 1]))
  {
    TalkSteps(server, ts, last, r, Talk(server, ts, last));
  }

  lemma NothingHeard(rs: seq<Reply>)
    ensures rs == [] ==> Heard(rs) == []
  {
  }

  /** And does so in enough turns, when every entry still to come fits. */
  lemma {:induction false} HearsRest(server: (Turn, DirEnt) -> Reply, ts: seq<Turn>, all: seq<DirEnt>, k: nat, perEntry: nat,
                                     last: DirEnt, rs: seq<Reply>)
    requires EachNext(server, ts, all, perEntry) && k <= |all| && last.cookie == CookieAt(all, k) && EachFits(all, ts, perEntry)
    requires rs == Talk(server, ts, last) && (|ts| > |all| - k || Stopped(rs))
    ensures AtEof(rs)
    decreases |ts|
  {
    var r := server(ts[0], last);
    TalkSteps(server, ts, last, r, rs);
    var n := MovesOn(server, ts, all, k, perEntry, last, r);
    if !r.eof {
      HearsRest(server, ts[1..], all, k + n, perEntry, r.out[n - 1], Talk(server, ts[1..], r.out[n - 1]));
    }
  }

  ghost predicate AllFitAlone(es: seq<DirEnt>, perEntry: nat, max: nat) {
    forall e :: e in es ==> FitsAlone(e, perEntry, max)
  }

  ghost predicate OneBudget(ts: seq<Turn>, max: nat) {
    forall t :: t in ts ==> t.max == max
  }

  lemma ShortOf(server: (Turn, DirEnt) -> Reply, ts: seq<Turn>, all: seq<DirEnt>, k: nat, perEntry: nat, max: nat,
                last: DirEnt, r: Reply, j: nat)
    requires EachNext(server, ts, all, perEntry) && k <= j < |all| && last.cookie == CookieAt(all, k)
    requires ts != [] && r == server(ts[0], last) && OneBudget(ts, max) && !FitsAlone(all[j], perEntry, max)
    ensures k + |Said(r)| <= j && EachNext(server, ts[1..], all, perEntry) && OneBudget(ts[1..], max)
    ensures !Ends(r) ==> k + |r.out| <= |all| && r.out[|r.out| - 1].cookie == CookieAt(all, k + |r.out|)
  {
    assert ts[0] in ts;
    var n := NextOf(server, ts, all, k, perEntry, last, r);
    InCut(all, k, n, j, r.out);
    NextTail(server, ts, all, perEntry);
  }

  lemma InCut(all: seq<DirEnt>, k: nat, n: nat, j: nat, out: seq<DirEnt>)
    requires k <= j < |all| && k + n <= |all| && out == all[k..k + n]
    ensures j < k + n ==> all[j] in out
  {
    if j < k + n { assert out[j - k] == all[j]; }
  }

  /** A session never gets past an entry that does not fit. */
  lemma {:induction false} StopsShort(server: (Turn, DirEnt) -> Reply, ts: seq<Turn>, all: seq<DirEnt>, k: nat, perEntry: nat, max: nat,
                                      last: DirEnt, j: nat)
    requires EachNext(server, ts, all, perEntry) && k <= j < |all| && last.cookie == CookieAt(all, k)
    requires !FitsAlone(all[j], perEntry, max) && OneBudget(ts, max)
    ensures k + |Heard(Talk(server, ts, last))| <= j
    decreases |ts|
  {
    if ts == [] {
      NothingHeard(Talk(server, ts, last));
    } else {
      var r := server(ts[0], last);
      HeardSteps(server, ts, last, r);
      ShortOf(server, ts, all, k, perEntry, max, last, r, j);
      if !Ends(r) { StopsShort(server, ts[1..], all, k + |r.out|, perEntry, max, r.out[|r.out| - 1], j); }
    }
  }

  lemma ServerLists(hash: Name -> nat, fs: Fs, dir: Handle, ts: seq<Turn>, perEntry: nat, names: set<Name>, all: seq<DirEnt>)
    requires Unchanged(ts, fs) && AllFair(hash, dir, ts, names) && CookiesApart(hash, names) && all == AllEnts(hash, fs, dir)
    ensures EachNext(Server(hash, dir, perEntry), ts, all, perEntry)
  {
    var server := Server(hash, dir, perEntry);
    forall t, last: DirEnt, k: nat | t in ts && k <= |all| && last.cookie == CookieAt(all, k)
      ensures NextGood(all, k, perEntry, t.max, server(t, last))
    {
      assert FairTurn(hash, dir, t, names);
      NextIsGood(hash, fs, dir, t, names, k, all, perEntry, server(t, last));
    }
  }

  /** A session on an unchanging directory lists ".", ".." and then, once and in order, every entry but one of the
      empty name, whatever becomes of the cache, when cookies tell the names in play apart and every entry fits a reply. */
  lemma SessionListsAll(hash: Name -> nat, fs: Fs, dir: Handle, ts: seq<Turn>, perEntry: nat, names: set<Name>,
                        all: seq<DirEnt>, rs: seq<Reply>)
    requires Unchanged(ts, fs) && AllFair(hash, dir, ts, names) && CookiesApart(hash, names)
    requires all == AllEnts(hash, fs, dir) && EachFits(all, ts, perEntry)
    requires rs == Talk(Server(hash, dir, perEntry), ts, ORIGIN) && (|ts| > |all| || Stopped(rs))
    ensures Heard(rs) == all && AtEof(rs)
  {
    ServerLists(hash, fs, dir, ts, perEntry, names, all);
    HearsAll(Server(hash, dir, perEntry), ts, all, perEntry, rs);
  }

  lemma HearsAll(server: (Turn, DirEnt) -> Reply, ts: seq<Turn>, all: seq<DirEnt>, perEntry: nat, rs: seq<Reply>)
    requires EachNext(server, ts, all, perEntry) && EachFits(all, ts, perEntry)
    requires rs == Talk(server, ts, ORIGIN) && (|ts| > |all| || Stopped(rs))
    ensures Heard(rs) == all && AtEof(rs)
  {
    HearsRest(server, ts, all, 0, perEntry, ORIGIN, rs);
    HearsOn(server, ts, all, 0, perEntry, ORIGIN);
    EofIff(server, ts, all, 0, perEntry, ORIGIN);
    WholeOf(all, Heard(rs));
  }

  lemma WholeOf(all: seq<DirEnt>, es: seq<DirEnt>)
    requires IsPart(all, 0, es)
    ensures es <= all && (es == all <==> |es| == |all|)
  {
  }

  /** With one budget throughout, and turns enough, such a session hears a first part of the listing, and all of it
      exactly when every entry fits a reply by itself: the first that does not ends it with an empty reply. */
  lemma SessionFinishesIff(hash: Name -> nat, fs: Fs, dir: Handle, ts: seq<Turn>, perEntry: nat, max: nat, names: set<Name>,
                           all: seq<DirEnt>, rs: seq<Reply>)
    requires Unchanged(ts, fs) && AllFair(hash, dir, ts, names) && CookiesApart(hash, names) && all == AllEnts(hash, fs, dir)
    requires OneBudget(ts, max) && |ts| > |all| && rs == Talk(Server(hash, dir, perEntry), ts, ORIGIN)
    ensures Heard(rs) <= all && (AtEof(rs) <==> Heard(rs) == all)
    ensures AtEof(rs) <==> forall e :: e in all ==> FitsAlone(e, perEntry, max)
  {
    var server := Server(hash, dir, perEntry);
    ServerLists(hash, fs, dir, ts, perEntry, names, all);
    FinishesIff(server, ts, all, perEntry, max, rs);
  }

  lemma FinishesIff(server: (Turn, DirEnt) -> Reply, ts: seq<Turn>, all: seq<DirEnt>, perEntry: nat, max: nat, rs: seq<Reply>)
    requires EachNext(server, ts, all, perEntry) && rs == Talk(server, ts, ORIGIN)
    requires OneBudget(ts, max) && |ts| > |all|
    ensures Heard(rs) <= all && (AtEof(rs) <==> Heard(rs) == all)
    ensures AtEof(rs) <==> forall e :: e in all ==> FitsAlone(e, perEntry, max)
  {
    HearsOn(server, ts, all, 0, perEntry, ORIGIN);
    EofIff(server, ts, all, 0, perEntry, ORIGIN);
    if forall e :: e in all ==> FitsAlone(e, perEntry, max) {
      HearsRest(server, ts, all, 0, perEntry, ORIGIN, rs);
    } else {
      var j :| 0 <= j < |all| && !FitsAlone(all[j], perEntry, max);
      StopsShort(server, ts, all, 0, perEntry, max, ORIGIN, j);
    }
    WholeOf(all, Heard(rs));
  }
}
