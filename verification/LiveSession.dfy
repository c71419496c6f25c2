/**
 The same sessions on a real store and a real bridge: before each of the client's requests calls change the
 store, other clients' requests fill the cookie cache or push it over its bound, and the server may restart.
 */
module LiveSession {
  import opened Keys
  import opened FileSystem
  import opened Handles
  import opened Cursors
  import opened ReaddirBridge
  import opened ReaddirSession
  import PrfsStore
  import Refinement

  datatype Request = Request(dir: Handle, cookie: nat, max: nat, perEntry: nat)

  // What happens before one of the client's requests, and the budget it sends.
  datatype Round = Round(calls: seq<Refinement.Call>, others: seq<Request>, restart: bool, max: nat)

  ghost function StateAfter(fs: Fs, cs: seq<Refinement.Call>): Fs {
    Refinement.Driven(fs, cs).0
  }

  ghost predicate AllSized(fs: Fs, cs: seq<Refinement.Call>)
    decreases |cs|
  {
    cs == [] || (Refinement.Sized(fs, cs[0]) && AllSized(Step(fs, Refinement.OpOf(cs[0])).0, cs[1..]))
  }

  /** The calls are within their widths, and the names hold every one that a directory asked for lists. */
  ghost predicate Playable(fs: Fs, dir: Handle, rounds: seq<Round>, names: set<Name>)
    decreases |rounds|
  {
    rounds == [] || (
      var fs' := StateAfter(fs, rounds[0].calls);
      && AllSized(fs, rounds[0].calls) && ListsWithin(fs', dir, names)
      && (forall q :: q in rounds[0].others ==> Wide(q.dir) && ListsWithin(fs', q.dir, names))
      && Playable(fs', dir, rounds[1..], names))
  }

  /** The turns are those of the rounds, up to where the session ended. */
  ghost predicate Plays(fs: Fs, rounds: seq<Round>, ts: seq<Turn>)
    decreases |ts|
  {
    ts == [] || (
      && rounds != [] && ts[0].fs == StateAfter(fs, rounds[0].calls) && ts[0].max == rounds[0].max
      && Plays(ts[0].fs, rounds[1..], ts[1..]))
  }

  method RunCalls(store: PrfsStore.PrfsStore, cs: seq<Refinement.Call>)
    requires store.Valid() && AllSized(store.fs, cs)
    modifies store
    ensures store.Valid() && store.fs == StateAfter(old(store.fs), cs)
  {
    var i := 0;
    while i < |cs|
      invariant 0 <= i <= |cs| && store.Valid() && AllSized(store.fs, cs[i..])
      invariant StateAfter(store.fs, cs[i..]) == StateAfter(old(store.fs), cs)
    {
      assert cs[i..][0] == cs[i] && cs[i..][1..] == cs[i + 1..];
      var out := Refinement.DriveStore(store, cs[i]);
      i := i + 1;
    }
  }

  /** Requests of other clients. */
  method ServeOthers(bridge: Bridge, store: PrfsStore.PrfsStore, qs: seq<Request>, ghost names: set<Name>)
    requires bridge.Valid() && store.Valid() && Within(bridge.ckName, names)
    requires forall q :: q in qs ==> Wide(q.dir) && ListsWithin(store.fs, q.dir, names)
    modifies bridge`ckName
    ensures bridge.Valid() && Within(bridge.ckName, names)
  {
    var i := 0;
    while i < |qs|
      invariant 0 <= i <= |qs| && bridge.Valid() && Within(bridge.ckName, names)
    {
      assert qs[i] in qs;
      ghost var cache := bridge.ckName;
      var r := bridge.PageDir(store, qs[i].dir, qs[i].cookie, qs[i].max, qs[i].perEntry);
      WithinStays(cache, bridge.ckName, store.fs, qs[i].dir, names);
      i := i + 1;
    }
  }

  lemma WithinStays(cache: Cache, cache': Cache, fs: Fs, dir: Handle, names: set<Name>)
    requires Within(cache, names) && Learns(cache, cache', fs, dir) && ListsWithin(fs, dir, names)
    ensures Within(cache', names)
  {
  }

  /** What precedes a request. */
  method Meanwhile(bridge: Bridge, store: PrfsStore.PrfsStore, dir: Handle, rounds: seq<Round>, ghost names: set<Name>)
    requires bridge.Valid() && store.Valid() && Within(bridge.ckName, names)
    requires rounds != [] && Playable(store.fs, dir, rounds, names)
    modifies bridge`ckName, store
    ensures bridge.Valid() && store.Valid() && Within(bridge.ckName, names)
    ensures store.fs == StateAfter(old(store.fs), rounds[0].calls)
    ensures ListsWithin(store.fs, dir, names) && Playable(store.fs, dir, rounds[1..], names)
  {
    RunCalls(store, rounds[0].calls);
    if rounds[0].restart { bridge.ckName := map[]; }
    ServeOthers(bridge, store, rounds[0].others, names);
  }

  /** One round: what precedes the request, and its reply. */
  method OneRound(bridge: Bridge, store: PrfsStore.PrfsStore, dir: Handle, rounds: seq<Round>, perEntry: nat, last: DirEnt,
                  ghost names: set<Name>) returns (r: Reply, ghost t: Turn)
    requires bridge.Valid() && store.Valid() && Wide(dir) && Within(bridge.ckName, names)
    requires rounds != [] && Playable(store.fs, dir, rounds, names)
    modifies bridge`ckName, store
    ensures bridge.Valid() && store.Valid() && Within(bridge.ckName, names) && Playable(store.fs, dir, rounds[1..], names)
    ensures r == Server(bridge.hash, dir, perEntry)(t, last) && FairTurn(bridge.hash, dir, t, names)
    ensures t.fs == store.fs == StateAfter(old(store.fs), rounds[0].calls) && t.max == rounds[0].max
  {
    Meanwhile(bridge, store, dir, rounds, names);
    t := Turn(store.fs, bridge.ckName, rounds[0].max);
    r := bridge.PageDir(store, dir, last.cookie, rounds[0].max, perEntry);
    WithinStays(t.cache, bridge.ckName, store.fs, dir, names);
  }

  lemma TalkGoesOn(server: (Turn, DirEnt) -> Reply, t: Turn, last: DirEnt, r: Reply, later: seq<Turn>, more: seq<Reply>)
    requires r == server(t, last) && !Ends(r) && more == Talk(server, later, r.out[|r.out| - 1])
    ensures Talk(server, [t] + later, last) == [r] + more
    ensures Stopped(more) ==> Stopped([r] + more)
  {
    assert ([t] + later)[1..] == later;
  }

  lemma PlaysOn(fs: Fs, rounds: seq<Round>, t: Turn, later: seq<Turn>)
    requires rounds != [] && t.fs == StateAfter(fs, rounds[0].calls) && t.max == rounds[0].max && Plays(t.fs, rounds[1..], later)
    ensures Plays(fs, rounds, [t] + later)
  {
    assert ([t] + later)[1..] == later;
  }

  /** A client's session against the running server. */
  method Converse(bridge: Bridge, store: PrfsStore.PrfsStore, dir: Handle, rounds: seq<Round>, perEntry: nat, last: DirEnt,
                  ghost names: set<Name>) returns (rs: seq<Reply>, ghost ts: seq<Turn>)
    requires bridge.Valid() && store.Valid() && Wide(dir) && Within(bridge.ckName, names)
    requires Playable(store.fs, dir, rounds, names)
    modifies bridge`ckName, store
    ensures rs == Talk(Server(bridge.hash, dir, perEntry), ts, last) && |rs| == |ts|
    ensures AllFair(bridge.hash, dir, ts, names) && Plays(old(store.fs), rounds, ts)
    ensures |rs| == |rounds| || Stopped(rs)
    decreases |rounds|
  {
    if rounds == [] { return [], []; }
    ghost var server := Server(bridge.hash, dir, perEntry);
    var r;
    ghost var t;
    r, t := OneRound(bridge, store, dir, rounds, perEntry, last, names);
    var more: seq<Reply> := [];
    ghost var later: seq<Turn> := [];
    if !Ends(r) {
      more, later := Converse(bridge, store, dir, rounds[1..], perEntry, r.out[|r.out| - 1], names);
      TalkGoesOn(server, t, last, r, later, more);
    }
    PlaysOn(old(store.fs), rounds, t, later);
    rs, ts := [r] + more, [t] + later;
  }

  /** While anything may change: names rise and none comes twice, each entry stood when its reply was made, a cookie
      is refused exactly when its entry is forgotten and gone, and by eof every name listed throughout was heard. */
  method Listen(bridge: Bridge, store: PrfsStore.PrfsStore, dir: Handle, rounds: seq<Round>, perEntry: nat,
                ghost names: set<Name>) returns (rs: seq<Reply>, ghost ts: seq<Turn>)
    requires bridge.Valid() && store.Valid() && Wide(dir) && Within(bridge.ckName, names) && CookiesApart(bridge.hash, names)
    requires Playable(store.fs, dir, rounds, names)
    modifies bridge`ckName, store
    ensures Plays(old(store.fs), rounds, ts) && |rs| == |ts| && (|rs| == |rounds| || Stopped(rs))
    ensures EntsRise(dir, Heard(rs), ORIGIN) && NoneTwice(Heard(rs))
    ensures forall i :: 0 <= i < |rs| ==> AllStand(bridge.hash, ts[i].fs, dir, Said(rs[i]), names)
    ensures forall i :: 0 <= i < |rs| ==> (rs[i].BadCookie? <==> Forgotten(dir, ts[i], LastBefore(rs, i, ORIGIN)))
    ensures forall n :: AtEof(rs) && StableName(dir, ts, n) && Above(dir, [], n) ==> HeardName(Heard(rs), n)
  {
    rs, ts := Converse(bridge, store, dir, rounds, perEntry, ORIGIN, names);
    SessionMeaning(bridge.hash, dir, ts, perEntry, names, rs);
  }

  ghost predicate NoCalls(rounds: seq<Round>) {
    forall r :: r in rounds ==> r.calls == []
  }

  lemma {:induction false} NothingChanges(fs: Fs, rounds: seq<Round>, ts: seq<Turn>)
    requires Plays(fs, rounds, ts) && NoCalls(rounds)
    ensures Unchanged(ts, fs) && forall t :: t in ts ==> exists r :: r in rounds && t.max == r.max
    decreases |ts|
  {
    if ts != [] {
      assert StateAfter(fs, []) == fs;
      assert rounds[0] in rounds;
      NothingChanges(fs, rounds[1..], ts[1..]);
      forall t | t in ts
        ensures t.fs == fs && exists r :: r in rounds && t.max == r.max
      {
        if t != ts[0] {
          assert t in ts[1..];
          var r :| r in rounds[1..] && t.max == r.max;
          assert r in rounds;
        }
      }
    }
  }

  /** While the store does not change, whatever else the server does: the whole directory, once and in order. */
  method ListDirectory(bridge: Bridge, store: PrfsStore.PrfsStore, dir: Handle, rounds: seq<Round>, perEntry: nat,
                       ghost names: set<Name>) returns (rs: seq<Reply>)
    requires bridge.Valid() && store.Valid() && Wide(dir) && Within(bridge.ckName, names) && CookiesApart(bridge.hash, names)
    requires Playable(store.fs, dir, rounds, names) && NoCalls(rounds)
    requires |rounds| > |AllEnts(bridge.hash, store.fs, dir)|
    requires forall e, r :: e in AllEnts(bridge.hash, store.fs, dir) && r in rounds ==> FitsAlone(e, perEntry, r.max)
    modifies bridge`ckName, store
    ensures Heard(rs) == AllEnts(bridge.hash, old(store.fs), dir) && AtEof(rs)
  {
    ghost var fs := store.fs;
    ghost var ts;
    rs, ts := Converse(bridge, store, dir, rounds, perEntry, ORIGIN, names);
    NothingChanges(fs, rounds, ts);
    SessionListsAll(bridge.hash, fs, dir, ts, perEntry, names, AllEnts(bridge.hash, fs, dir), rs);
  }
}
