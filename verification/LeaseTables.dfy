/**
 The NFSv4.0 client, open and lock tables, each operation as one atomic step between tables, and the
 safety of every run (section 9 of RFC 7530).
 */
module LeaseTables {
  import opened LockRanges
  import opened Options

  datatype Status = OK | STALE_CLIENTID | SHARE_DENIED | BAD_STATEID | DENIED | NOFILEHANDLE

  // An owner string under the client it belongs to.
  datatype Owner = Owner(client: nat, name: string)

  // The callback location is recorded and never used.
  datatype Callback = Callback(program: nat, netid: string, addr: string, ident: nat)

  datatype Client = Client(id: string, verifier: nat, confirmVerf: nat, confirmed: bool, cb: Callback)

  datatype Open = Open(owner: Owner, file: nat, access: bv32, deny: bv32, seqid: nat)

  datatype Range = Range(off: nat, len: nat, write: bool)

  datatype Lock = Lock(owner: Owner, file: nat, seqid: nat, ranges: seq<Range>)

  datatype Tables = Tables(clients: map<nat, Client>, opens: map<nat, Open>, locks: map<nat, Lock>,
                           owners: set<Owner>, nextClient: nat, nextState: nat)

  const START := Tables(map[], map[], map[], {}, 1, 1)

  /** A 32-bit counter's successor. */
  function Bump(seqid: nat): nat {
    (seqid + 1) % 0x1_0000_0000
  }

  predicate Confirmed(clients: map<nat, Client>, c: nat) {
    c in clients && clients[c].confirmed
  }

  predicate Clash(r: Range, s: Range) {
    Overlaps(r.off, r.len, s.off, s.len) && (r.write || s.write)
  }

  predicate Meets(x: bv32, y: bv32) {
    x & y != 0
  }

  predicate ShareClash(access: bv32, deny: bv32, o: Open) {
    Meets(access, o.deny) || Meets(deny, o.access)
  }

  // ---- what every reachable table satisfies ----

  /** One record per client instance, one confirmed record per client. */
  ghost predicate ClientPair(clients: map<nat, Client>, a: nat, b: nat) {
    a in clients && b in clients && a != b && clients[a].id == clients[b].id ==>
      clients[a].verifier != clients[b].verifier && !(clients[a].confirmed && clients[b].confirmed)
  }

  ghost predicate OpenPair(opens: map<nat, Open>, a: nat, b: nat) {
    a in opens && b in opens && a != b && opens[a].file == opens[b].file ==> opens[a].owner != opens[b].owner
  }

  ghost predicate RangesApart(r: seq<Range>, s: seq<Range>, i: int, j: int) {
    0 <= i < |r| && 0 <= j < |s| ==> !Clash(r[i], s[j])
  }

  /** Locks of different owners on one file never clash. */
  ghost predicate Apart(r: seq<Range>, s: seq<Range>) {
    forall i, j :: RangesApart(r, s, i, j)
  }

  ghost predicate LockPair(locks: map<nat, Lock>, a: nat, b: nat) {
    a in locks && b in locks && a != b && locks[a].file == locks[b].file ==>
      locks[a].owner != locks[b].owner && Apart(locks[a].ranges, locks[b].ranges)
  }

  ghost predicate ClientKey(t: Tables, k: nat) {
    k in t.clients ==> 1 <= k < t.nextClient
  }

  ghost predicate OpenKey(t: Tables, k: nat) {
    k in t.opens ==> 1 <= k < t.nextState && k !in t.locks && Confirmed(t.clients, t.opens[k].owner.client)
  }

  ghost predicate LockKey(t: Tables, k: nat) {
    k in t.locks ==> 1 <= k < t.nextState && k !in t.opens && Confirmed(t.clients, t.locks[k].owner.client)
  }

  ghost predicate Safe(t: Tables) {
    && t.nextClient >= 1 && t.nextState >= 1
    && (forall k {:trigger ClientKey(t, k)} :: ClientKey(t, k))
    && (forall k {:trigger OpenKey(t, k)} :: OpenKey(t, k))
    && (forall k {:trigger LockKey(t, k)} :: LockKey(t, k))
    && (forall a, b {:trigger ClientPair(t.clients, a, b)} :: ClientPair(t.clients, a, b))
    && (forall a, b {:trigger OpenPair(t.opens, a, b)} :: OpenPair(t.opens, a, b))
    && (forall a, b {:trigger LockPair(t.locks, a, b)} :: LockPair(t.locks, a, b))
  }

  // ---- the operations, as relations between tables ----

  predicate IsInstance(c: Client, id: string, verifier: nat) {
    c.id == id && c.verifier == verifier
  }

  ghost predicate SetsClientid(t: Tables, verifier: nat, id: string, cb: Callback, mint: (nat, nat, string) -> nat,
                               t': Tables, clientid: nat, cv: nat) {
    if exists k :: k in t.clients && IsInstance(t.clients[k], id, verifier) then
      && clientid in t.clients && IsInstance(t.clients[clientid], id, verifier)
      && cv == t.clients[clientid].confirmVerf
      && t' == t.(clients := t.clients[clientid := t.clients[clientid].(cb := cb)])
    else
      && clientid == t.nextClient && cv == mint(clientid, verifier, id)
      && t' == t.(clients := t.clients[clientid := Client(id, verifier, cv, false, cb)], nextClient := t.nextClient + 1)
  }

  /** The other confirmed leases of the same client. */
  function Stale(clients: map<nat, Client>, clientid: nat): set<nat>
    requires clientid in clients
  {
    set k | k in clients && k != clientid && clients[k].confirmed && clients[k].id == clients[clientid].id
  }

  /** Everything the given clients held is gone. */
  function Purged(t: Tables, gone: set<nat>): Tables {
    t.(opens := map k | k in t.opens && t.opens[k].owner.client !in gone :: t.opens[k],
       locks := map k | k in t.locks && t.locks[k].owner.client !in gone :: t.locks[k])
  }

  ghost predicate Confirms(t: Tables, clientid: nat, confirm: nat, t': Tables, st: Status) {
    if clientid !in t.clients || t.clients[clientid].confirmVerf != confirm then st == STALE_CLIENTID && t' == t
    else if t.clients[clientid].confirmed then st == OK && t' == t
    else
      var gone := Stale(t.clients, clientid);
      st == OK && t' == Purged(t, gone).(clients := (t.clients - gone)[clientid := t.clients[clientid].(confirmed := true)])
  }

  predicate IsOpen(o: Open, owner: Owner, file: nat) {
    o.file == file && o.owner == owner
  }

  ghost predicate Opens(t: Tables, owner: Owner, file: nat, access: bv32, deny: bv32, t': Tables, st: Status, id: nat, seqid: nat) {
    if !Confirmed(t.clients, owner.client) then st == STALE_CLIENTID && t' == t
    else if exists k :: k in t.opens && IsOpen(t.opens[k], owner, file) then
      && st == OK && id in t.opens && IsOpen(t.opens[id], owner, file) && seqid == Bump(t.opens[id].seqid)
      && t' == t.(opens := t.opens[id := Upgraded(t.opens[id], access, deny)])
    else if exists k :: k in t.opens && t.opens[k].file == file && ShareClash(access, deny, t.opens[k]) then
      st == SHARE_DENIED && t' == t
    else
      && st == OK && id == t.nextState && seqid == 1
      && t' == t.(opens := t.opens[id := Open(owner, file, access, deny, 1)], nextState := t.nextState + 1)
  }

  function Upgraded(o: Open, access: bv32, deny: bv32): Open {
    o.(access := o.access | access, deny := o.deny | deny, seqid := Bump(o.seqid))
  }

  ghost predicate Closes(t: Tables, special: bool, id: nat, t': Tables, st: Status) {
    if special then st == OK && t' == t
    else if id !in t.opens then st == BAD_STATEID && t' == t
    else st == OK && t' == t.(opens := t.opens - {id})
  }

  ghost predicate ConfirmsOpen(t: Tables, id: nat, t': Tables) {
    if id !in t.opens then t' == t
    else t' == t.(opens := t.opens[id := t.opens[id].(seqid := Bump(t.opens[id].seqid))], owners := t.owners + {t.opens[id].owner})
  }

  ghost predicate Downgrades(t: Tables, id: nat, access: bv32, deny: bv32, t': Tables, st: Status) {
    if id !in t.opens then st == BAD_STATEID && t' == t
    else st == OK && t' == t.(opens := t.opens[id := t.opens[id].(access := access, deny := deny, seqid := Bump(t.opens[id].seqid))])
  }

  predicate IsLock(l: Lock, owner: Owner, file: nat) {
    l.file == file && l.owner == owner
  }

  /** Some other owner's lock on the file clashes with the range. */
  ghost predicate Blocked(locks: map<nat, Lock>, owner: Owner, file: nat, r: Range) {
    exists k, i :: BlockedBy(locks, owner, file, r, k, i)
  }

  predicate BlockedBy(locks: map<nat, Lock>, owner: Owner, file: nat, r: Range, k: nat, i: nat) {
    k in locks && locks[k].file == file && locks[k].owner != owner && i < |locks[k].ranges| && Clash(r, locks[k].ranges[i])
  }

  /** LOCK by an owner already settled on. */
  ghost predicate Locks(t: Tables, owner: Owner, file: nat, r: Range, t': Tables, st: Status, id: nat) {
    if Blocked(t.locks, owner, file, r) then st == DENIED && t' == t
    else if exists k :: k in t.locks && IsLock(t.locks[k], owner, file) then
      && st == OK && id in t.locks && IsLock(t.locks[id], owner, file)
      && t' == t.(locks := t.locks[id := Extended(t.locks[id], r)])
    else
      && st == OK && id == t.nextState
      && t' == t.(locks := t.locks[id := Extended(Lock(owner, file, 1, []), r)], nextState := t.nextState + 1)
  }

  function Extended(l: Lock, r: Range): Lock {
    l.(ranges := l.ranges + [r], seqid := Bump(l.seqid))
  }

  /** LOCK: a new owner must belong to a confirmed client, a known one is named by one of its lock stateids. */
  ghost predicate LocksFor(t: Tables, who: Who, file: Option<nat>, r: Range, t': Tables, st: Status, id: nat) {
    if who.New? && !Confirmed(t.clients, who.owner.client) then st == STALE_CLIENTID && t' == t
    else if file.None? then st == NOFILEHANDLE && t' == t
    else if who.Known? && who.stateid !in t.locks then st == BAD_STATEID && t' == t
    else Locks(t, if who.New? then who.owner else t.locks[who.stateid].owner, file.value, r, t', st, id)
  }

  datatype Who = New(owner: Owner) | Known(stateid: nat)

  /** The ranges that stay when one is unlocked: whole ranges go, whatever part of them was named. */
  function Kept(rs: seq<Range>, off: nat, len: nat): seq<Range> {
    if rs == [] then [] else
    var last := rs[|rs| - 1];
    var kept := Kept(rs[..|rs| - 1], off, len);
    if Overlaps(off, len, last.off, last.len) then kept else kept + [last]
  }

  ghost predicate Unlocks(t: Tables, id: nat, off: nat, len: nat, t': Tables, st: Status) {
    if id !in t.locks then st == BAD_STATEID && t' == t
    else
      var l := t.locks[id];
      st == OK && t' == t.(locks := t.locks[id := l.(ranges := Kept(l.ranges, off, len), seqid := Bump(l.seqid))])
  }

  ghost predicate Releases(t: Tables, owner: Owner, t': Tables) {
    t' == t.(locks := map k | k in t.locks && t.locks[k].owner != owner :: t.locks[k])
  }

  datatype Event =
    | SetClientid(verifier: nat, id: string, cb: Callback)
    | SetClientidConfirm(clientid: nat, confirm: nat)
    | OpenFile(owner: Owner, file: nat, access: bv32, deny: bv32)
    | Close(special: bool, stateid: nat)
    | OpenConfirm(stateid: nat)
    | OpenDowngrade(stateid: nat, access: bv32, deny: bv32)
    | LockRange(who: Who, cfh: Option<nat>, r: Range)
    | Unlock(stateid: nat, off: nat, len: nat)
    | ReleaseLockowner(owner: Owner)

  ghost predicate Step(t: Tables, e: Event, mint: (nat, nat, string) -> nat, t': Tables) {
    match e
    case SetClientid(v, id, cb) => exists c, cv :: SetsClientid(t, v, id, cb, mint, t', c, cv)
    case SetClientidConfirm(c, v) => exists st :: Confirms(t, c, v, t', st)
    case OpenFile(owner, f, a, d) => exists st, id, sq :: Opens(t, owner, f, a, d, t', st, id, sq)
    case Close(special, id) => exists st :: Closes(t, special, id, t', st)
    case OpenConfirm(id) => ConfirmsOpen(t, id, t')
    case OpenDowngrade(id, a, d) => exists st :: Downgrades(t, id, a, d, t', st)
    case LockRange(who, f, r) => exists st, id :: LocksFor(t, who, f, r, t', st, id)
    case Unlock(id, off, len) => exists st :: Unlocks(t, id, off, len, t', st)
    case ReleaseLockowner(owner) => Releases(t, owner, t')
  }

  ghost predicate StepAt(ts: seq<Tables>, es: seq<Event>, mint: (nat, nat, string) -> nat, i: nat) {
    i < |es| && i + 1 < |ts| ==> Step(ts[i], es[i], mint, ts[i + 1])
  }

  /** A run: tables from the start, one event between each two. */
  ghost predicate Run(ts: seq<Tables>, es: seq<Event>, mint: (nat, nat, string) -> nat) {
    |ts| == |es| + 1 && ts[0] == START && forall i: nat :: StepAt(ts, es, mint, i)
  }

  // ---- each operation keeps the tables safe ----

  lemma SetClientidSafe(t: Tables, verifier: nat, id: string, cb: Callback, mint: (nat, nat, string) -> nat,
                        t': Tables, clientid: nat, cv: nat)
    requires Safe(t) && SetsClientid(t, verifier, id, cb, mint, t', clientid, cv)
    ensures Safe(t')
  {
    forall a, b
      ensures ClientPair(t'.clients, a, b)
    {
      assert ClientPair(t.clients, a, b);
      assert a in t.clients ==> !IsInstance(t.clients[a], id, verifier) || a == clientid by {
        if a in t.clients && IsInstance(t.clients[a], id, verifier) { assert ClientPair(t.clients, a, clientid); }
      }
      assert b in t.clients ==> !IsInstance(t.clients[b], id, verifier) || b == clientid by {
        if b in t.clients && IsInstance(t.clients[b], id, verifier) { assert ClientPair(t.clients, b, clientid); }
      }
    }
    forall k
      ensures ClientKey(t', k) && OpenKey(t', k) && LockKey(t', k)
    {
      assert ClientKey(t, k) && OpenKey(t, k) && LockKey(t, k) && ClientKey(t, clientid);
    }
    assert t'.opens == t.opens && t'.locks == t.locks;
  }

  lemma ConfirmSafe(t: Tables, clientid: nat, confirm: nat, t': Tables, st: Status)
    requires Safe(t) && Confirms(t, clientid, confirm, t', st)
    ensures Safe(t')
  {
    if t' != t {
      forall a, b
        ensures ClientPair(t'.clients, a, b)
      {
        assert ClientPair(t.clients, a, b);
      }
      forall k
        ensures ClientKey(t', k) && OpenKey(t', k) && LockKey(t', k)
      {
        assert ClientKey(t, k) && OpenKey(t, k) && LockKey(t, k);
      }
      PurgedPairs(t, t');
    }
  }

  /** Dropping opens and locks keeps what holds of the rest. */
  lemma PurgedPairs(t: Tables, t': Tables)
    requires Safe(t)
    requires forall k :: k in t'.opens ==> k in t.opens && t'.opens[k] == t.opens[k]
    requires forall k :: k in t'.locks ==> k in t.locks && t'.locks[k] == t.locks[k]
    ensures forall a, b {:trigger OpenPair(t'.opens, a, b)} :: OpenPair(t'.opens, a, b)
    ensures forall a, b {:trigger LockPair(t'.locks, a, b)} :: LockPair(t'.locks, a, b)
  {
    forall a, b
      ensures OpenPair(t'.opens, a, b) && LockPair(t'.locks, a, b)
    {
      assert OpenPair(t.opens, a, b) && LockPair(t.locks, a, b);
    }
  }

  /** An open changed in place, or added for an owner that had none on the file. */
  lemma OpenSafe(t: Tables, id: nat, o: Open, t': Tables)
    requires Safe(t) && id >= 1 && Confirmed(t.clients, o.owner.client) && id !in t.locks
    requires t'.clients == t.clients && t'.locks == t.locks && t'.nextClient == t.nextClient
    requires t'.opens == t.opens[id := o] && t'.nextState >= t.nextState && id < t'.nextState
    requires forall k :: k in t.opens && k != id ==> !IsOpen(t.opens[k], o.owner, o.file)
    ensures Safe(t')
  {
    forall a, b
      ensures OpenPair(t'.opens, a, b)
    {
      assert OpenPair(t.opens, a, b);
    }
    forall k
      ensures ClientKey(t', k) && OpenKey(t', k) && LockKey(t', k)
    {
      assert ClientKey(t, k) && OpenKey(t, k) && LockKey(t, k);
    }
  }

  lemma OwnOpenOnly(t: Tables, id: nat)
    requires Safe(t) && id in t.opens
    ensures id >= 1 && id < t.nextState && id !in t.locks && Confirmed(t.clients, t.opens[id].owner.client)
    ensures forall k :: k in t.opens && k != id ==> !IsOpen(t.opens[k], t.opens[id].owner, t.opens[id].file)
  {
    assert OpenKey(t, id);
    forall k | k in t.opens && k != id
      ensures !IsOpen(t.opens[k], t.opens[id].owner, t.opens[id].file)
    {
      assert OpenPair(t.opens, k, id);
    }
  }

  lemma OpensSafe(t: Tables, owner: Owner, file: nat, access: bv32, deny: bv32, t': Tables, st: Status, id: nat, seqid: nat)
    requires Safe(t) && Opens(t, owner, file, access, deny, t', st, id, seqid)
    ensures Safe(t')
  {
    if t' != t {
      if id in t.opens && IsOpen(t.opens[id], owner, file) {
        OwnOpenOnly(t, id);
        OpenSafe(t, id, Upgraded(t.opens[id], access, deny), t');
      } else {
        assert LockKey(t, t.nextState);
        OpenSafe(t, id, Open(owner, file, access, deny, 1), t');
      }
    }
  }

  /** A lock whose ranges clash with no other owner's on the file. */
  lemma LockSafe(t: Tables, id: nat, l: Lock, t': Tables)
    requires Safe(t) && id >= 1 && Confirmed(t.clients, l.owner.client) && id !in t.opens
    requires t'.clients == t.clients && t'.opens == t.opens && t'.nextClient == t.nextClient
    requires t'.locks == t.locks[id := l] && t'.nextState >= t.nextState && id < t'.nextState
    requires forall k :: k in t.locks && k != id && t.locks[k].file == l.file ==>
      t.locks[k].owner != l.owner && Apart(l.ranges, t.locks[k].ranges)
    ensures Safe(t')
  {
    forall a, b
      ensures LockPair(t'.locks, a, b)
    {
      assert LockPair(t.locks, a, b);
      if a in t.locks && b == id && a != id && t.locks[a].file == l.file { ApartSymmetric(l.ranges, t.locks[a].ranges); }
    }
    forall k
      ensures ClientKey(t', k) && OpenKey(t', k) && LockKey(t', k)
    {
      assert ClientKey(t, k) && OpenKey(t, k) && LockKey(t, k);
    }
  }

  lemma ApartSymmetric(r: seq<Range>, s: seq<Range>)
    requires Apart(r, s)
    ensures Apart(s, r)
  {
    forall i, j
      ensures RangesApart(s, r, i, j)
    {
      assert RangesApart(r, s, j, i);
    }
  }

  /** Adding a range that nothing blocks keeps the owner's ranges apart from every other owner's. */
  lemma ExtendedApart(t: Tables, owner: Owner, file: nat, rs: seq<Range>, r: Range, k: nat)
    requires k in t.locks && t.locks[k].file == file && t.locks[k].owner != owner
    requires Apart(rs, t.locks[k].ranges) && !Blocked(t.locks, owner, file, r)
    ensures Apart(rs + [r], t.locks[k].ranges)
  {
    forall i, j
      ensures RangesApart(rs + [r], t.locks[k].ranges, i, j)
    {
      assert RangesApart(rs, t.locks[k].ranges, i, j);
      if i == |rs| && 0 <= j < |t.locks[k].ranges| { assert !BlockedBy(t.locks, owner, file, r, k, j); }
    }
  }

  lemma LocksSafe(t: Tables, owner: Owner, file: nat, r: Range, t': Tables, st: Status, id: nat)
    requires Safe(t) && Confirmed(t.clients, owner.client) && Locks(t, owner, file, r, t', st, id)
    ensures Safe(t')
  {
    if t' != t {
      var had := id in t.locks && IsLock(t.locks[id], owner, file);
      var rs := if had then t.locks[id].ranges else [];
      forall k | k in t.locks && k != id && t.locks[k].file == file
        ensures t.locks[k].owner != owner && Apart(rs + [r], t.locks[k].ranges)
      {
        assert LockPair(t.locks, id, k);
        assert Apart([], t.locks[k].ranges);
        assert !had ==> !IsLock(t.locks[k], owner, file);
        ExtendedApart(t, owner, file, rs, r, k);
      }
      assert LockKey(t, id) && OpenKey(t, t.nextState);
      LockSafe(t, id, t'.locks[id], t');
    }
  }

  lemma LocksForSafe(t: Tables, who: Who, file: Option<nat>, r: Range, t': Tables, st: Status, id: nat)
    requires Safe(t) && LocksFor(t, who, file, r, t', st, id)
    ensures Safe(t')
  {
    if t' != t {
      if who.Known? { assert LockKey(t, who.stateid); }
      LocksSafe(t, if who.New? then who.owner else t.locks[who.stateid].owner, file.value, r, t', st, id);
    }
  }

  /** What unlocking keeps was there, and avoids the range. */
  lemma {:induction false} KeptMeaning(rs: seq<Range>, off: nat, len: nat, x: Range)
    ensures x in Kept(rs, off, len) <==> x in rs && !Overlaps(off, len, x.off, x.len)
  {
    if rs != [] {
      KeptMeaning(rs[..|rs| - 1], off, len, x);
      assert rs == rs[..|rs| - 1] + [rs[|rs| - 1]];
    }
  }

  lemma KeptApart(rs: seq<Range>, off: nat, len: nat, s: seq<Range>)
    requires Apart(rs, s)
    ensures Apart(Kept(rs, off, len), s)
  {
    var ks := Kept(rs, off, len);
    forall i, j
      ensures RangesApart(ks, s, i, j)
    {
      if 0 <= i < |ks| {
        KeptMeaning(rs, off, len, ks[i]);
        var m :| 0 <= m < |rs| && rs[m] == ks[i];
        assert RangesApart(rs, s, m, j);
      }
    }
  }

  lemma UnlocksSafe(t: Tables, id: nat, off: nat, len: nat, t': Tables, st: Status)
    requires Safe(t) && Unlocks(t, id, off, len, t', st)
    ensures Safe(t')
  {
    if id in t.locks {
      assert LockKey(t, id);
      var l := t.locks[id];
      forall k | k in t.locks && k != id && t.locks[k].file == l.file
        ensures t.locks[k].owner != l.owner && Apart(Kept(l.ranges, off, len), t.locks[k].ranges)
      {
        assert LockPair(t.locks, id, k);
        KeptApart(l.ranges, off, len, t.locks[k].ranges);
      }
      LockSafe(t, id, t'.locks[id], t');
    }
  }

  lemma DroppedSafe(t: Tables, t': Tables)
    requires Safe(t)
    requires t'.clients == t.clients && t'.nextClient == t.nextClient && t'.nextState == t.nextState
    requires forall k :: k in t'.opens ==> k in t.opens && t'.opens[k] == t.opens[k]
    requires forall k :: k in t'.locks ==> k in t.locks && t'.locks[k] == t.locks[k]
    ensures Safe(t')
  {
    PurgedPairs(t, t');
    forall k
      ensures ClientKey(t', k) && OpenKey(t', k) && LockKey(t', k)
    {
      assert ClientKey(t, k) && OpenKey(t, k) && LockKey(t, k);
    }
  }

  lemma StepSafe(t: Tables, e: Event, mint: (nat, nat, string) -> nat, t': Tables)
    requires Safe(t) && Step(t, e, mint, t')
    ensures Safe(t')
  {
    match e
    case SetClientid(v, id, cb) =>
      var c, cv :| SetsClientid(t, v, id, cb, mint, t', c, cv);
      SetClientidSafe(t, v, id, cb, mint, t', c, cv);
    case SetClientidConfirm(c, v) =>
      var st :| Confirms(t, c, v, t', st);
      ConfirmSafe(t, c, v, t', st);
    case OpenFile(owner, f, a, d) =>
      var st, id, sq :| Opens(t, owner, f, a, d, t', st, id, sq);
      OpensSafe(t, owner, f, a, d, t', st, id, sq);
    case Close(special, id) =>
      DroppedSafe(t, t');
    case OpenConfirm(id) =>
      if id in t.opens { OwnOpenOnly(t, id); OpenSafe(t, id, t'.opens[id], t'); }
    case OpenDowngrade(id, a, d) =>
      if id in t.opens { OwnOpenOnly(t, id); OpenSafe(t, id, t'.opens[id], t'); }
    case LockRange(who, f, r) =>
      var st, id :| LocksFor(t, who, f, r, t', st, id);
      LocksForSafe(t, who, f, r, t', st, id);
    case Unlock(id, off, len) =>
      var st :| Unlocks(t, id, off, len, t', st);
      UnlocksSafe(t, id, off, len, t', st);
    case ReleaseLockowner(owner) =>
      DroppedSafe(t, t');
  }

  lemma StartSafe()
    ensures Safe(START)
  {
  }

  /** Every table of every run is safe. */
  lemma {:induction false} RunSafe(ts: seq<Tables>, es: seq<Event>, mint: (nat, nat, string) -> nat, i: nat)
    requires Run(ts, es, mint) && i < |ts|
    ensures Safe(ts[i])
  {
    if i == 0 {
      StartSafe();
    } else {
      RunSafe(ts, es, mint, i - 1);
      assert StepAt(ts, es, mint, i - 1);
      StepSafe(ts[i - 1], es[i - 1], mint, ts[i]);
    }
  }

  /** Byte-range exclusion: in a safe table two owners never hold one byte of a file, either of them for writing. */
  lemma BytesExcluded(t: Tables, a: nat, b: nat, i: nat, j: nat)
    requires Safe(t) && a in t.locks && b in t.locks && i < |t.locks[a].ranges| && j < |t.locks[b].ranges|
    requires t.locks[a].file == t.locks[b].file && t.locks[a].owner != t.locks[b].owner
    requires var r, s := t.locks[a].ranges[i], t.locks[b].ranges[j];
      IsU64(r.len) && IsU64(s.len) && Sane(r.off, r.len) && Sane(s.off, s.len) && (r.write || s.write)
    ensures var r, s := t.locks[a].ranges[i], t.locks[b].ranges[j]; !Share(r.off, r.len, s.off, s.len)
  {
    var r, s := t.locks[a].ranges[i], t.locks[b].ranges[j];
    assert LockPair(t.locks, a, b) && RangesApart(t.locks[a].ranges, t.locks[b].ranges, i, j);
    OverlapIsShare(r.off, r.len, s.off, s.len);
  }

  /** The confirmed lease of a client, if it has one, is the only one. */
  lemma OneConfirmed(t: Tables, a: nat, b: nat)
    requires Safe(t) && Confirmed(t.clients, a) && Confirmed(t.clients, b) && t.clients[a].id == t.clients[b].id
    ensures a == b
  {
    assert ClientPair(t.clients, a, b);
  }

  /** A client that restarts and confirms leaves nothing behind of its earlier lease. */
  lemma RestartPurges(t: Tables, clientid: nat, confirm: nat, t': Tables, k: nat)
    requires Safe(t) && Confirms(t, clientid, confirm, t', OK) && !t.clients[clientid].confirmed
    requires Confirmed(t.clients, k) && t.clients[k].id == t.clients[clientid].id
    ensures k !in t'.clients && Confirmed(t'.clients, clientid)
    ensures forall x :: x in t'.opens ==> t'.opens[x].owner.client != k
    ensures forall x :: x in t'.locks ==> t'.locks[x].owner.client != k
  {
    assert k in Stale(t.clients, clientid);
  }

  /** LOCKT's answer. */
  ghost predicate Tests(t: Tables, owner: Owner, file: Option<nat>, r: Range, st: Status) {
    st == if file.None? then NOFILEHANDLE else if Blocked(t.locks, owner, file.value, r) then DENIED else OK
  }

  /** For a confirmed owner LOCKT says exactly what LOCK would. */
  lemma TestIsLock(t: Tables, owner: Owner, file: Option<nat>, r: Range, t': Tables, st: Status, id: nat, test: Status)
    requires Confirmed(t.clients, owner.client) && LocksFor(t, New(owner), file, r, t', st, id)
    ensures Tests(t, owner, file, r, test) <==> test == st
  {
  }

  // ---- how long a lease lasts ----

  /** Another instance of the client confirms, and the lease c goes. */
  predicate Ousts(t: Tables, e: Event, c: nat) {
    && e.SetClientidConfirm? && e.clientid in t.clients && t.clients[e.clientid].confirmVerf == e.confirm
    && !t.clients[e.clientid].confirmed && c != e.clientid && Confirmed(t.clients, c) && t.clients[c].id == t.clients[e.clientid].id
  }

  /** The client instance confirms with its verifier. */
  predicate Admits(t: Tables, e: Event, c: nat) {
    e.SetClientidConfirm? && e.clientid == c && c in t.clients && t.clients[c].confirmVerf == e.confirm
  }

  /** A lease is confirmed after an event exactly when it was and is not ousted, or the event confirms it: nothing
      else, time included, ends a lease. */
  lemma StepConfirmedIff(t: Tables, e: Event, mint: (nat, nat, string) -> nat, t': Tables, c: nat)
    requires Safe(t) && Step(t, e, mint, t')
    ensures Confirmed(t'.clients, c) <==> (Confirmed(t.clients, c) && !Ousts(t, e, c)) || Admits(t, e, c)
  {
    match e
    case SetClientid(v, id, cb) =>
      var k, cv :| SetsClientid(t, v, id, cb, mint, t', k, cv);
      assert ClientKey(t, t.nextClient);
    case SetClientidConfirm(k, v) =>
      var st :| Confirms(t, k, v, t', st);
    case _ =>
  }

  ghost predicate ConfirmedAt(ts: seq<Tables>, c: nat, i: nat) {
    i < |ts| ==> Confirmed(ts[i].clients, c)
  }

  ghost predicate SpareAt(ts: seq<Tables>, es: seq<Event>, c: nat, i: nat) {
    i < |es| && i < |ts| ==> !Ousts(ts[i], es[i], c)
  }

  /** Once confirmed, a lease renews throughout exactly as long as no other instance of its client confirms. */
  lemma {:induction false} LeaseLastsIff(ts: seq<Tables>, es: seq<Event>, mint: (nat, nat, string) -> nat, c: nat, i: nat, j: nat)
    requires Run(ts, es, mint) && i <= j < |ts| && Confirmed(ts[i].clients, c)
    ensures (forall k: nat :: i <= k <= j ==> ConfirmedAt(ts, c, k)) <==> (forall k: nat :: i <= k < j ==> SpareAt(ts, es, c, k))
    decreases j
  {
    if i < j {
      LeaseLastsIff(ts, es, mint, c, i, j - 1);
      RunSafe(ts, es, mint, j - 1);
      assert StepAt(ts, es, mint, j - 1);
      StepConfirmedIff(ts[j - 1], es[j - 1], mint, ts[j], c);
      assert SpareAt(ts, es, c, j - 1) <==> !Ousts(ts[j - 1], es[j - 1], c);
      if forall k: nat :: i <= k <= j ==> ConfirmedAt(ts, c, k) {
        assert ConfirmedAt(ts, c, j - 1) && ConfirmedAt(ts, c, j);
      }
      if forall k: nat :: i <= k < j ==> SpareAt(ts, es, c, k) {
        assert SpareAt(ts, es, c, j - 1) && ConfirmedAt(ts, c, j - 1);
      }
    } else {
      assert ConfirmedAt(ts, c, i);
    }
  }

  // ---- how long a grant holds ----

  /** The owner's lock record holds the range. */
  predicate HoldsRange(t: Tables, id: nat, owner: Owner, file: nat, r: Range) {
    id in t.locks && t.locks[id].owner == owner && t.locks[id].file == file && r in t.locks[id].ranges
  }

  /** The events that end a grant: unlocking any part of it, releasing its owner, a restart of its client. */
  predicate GivesUp(t: Tables, e: Event, id: nat, owner: Owner, r: Range) {
    match e
    case Unlock(k, off, len) => k == id && Overlaps(off, len, r.off, r.len)
    case ReleaseLockowner(o) => o == owner
    case _ => Ousts(t, e, owner.client)
  }

  /** While it is held, a range blocks every clashing request of any other owner. */
  lemma HeldBlocks(t: Tables, id: nat, owner: Owner, file: nat, r: Range, other: Owner, s: Range)
    requires HoldsRange(t, id, owner, file, r) && other != owner && Clash(s, r)
    ensures Blocked(t.locks, other, file, s)
  {
    var i :| 0 <= i < |t.locks[id].ranges| && t.locks[id].ranges[i] == r;
    assert BlockedBy(t.locks, other, file, s, id, i);
  }

  /** One event keeps a held range exactly when it does not give it up. */
  lemma StepHoldsIff(t: Tables, e: Event, mint: (nat, nat, string) -> nat, t': Tables, id: nat, owner: Owner, file: nat, r: Range)
    requires Safe(t) && Step(t, e, mint, t') && HoldsRange(t, id, owner, file, r)
    ensures HoldsRange(t', id, owner, file, r) <==> !GivesUp(t, e, id, owner, r)
  {
    match e
    case Unlock(k, off, len) => KeptMeaning(t.locks[id].ranges, off, len, r);
    case LockRange(who, f, x) =>
      assert LockKey(t, id);
      var st, k :| LocksFor(t, who, f, x, t', st, k);
    case _ =>
  }

  ghost predicate HeldAt(ts: seq<Tables>, id: nat, owner: Owner, file: nat, r: Range, i: nat) {
    i < |ts| ==> HoldsRange(ts[i], id, owner, file, r)
  }

  ghost predicate KeptUpAt(ts: seq<Tables>, es: seq<Event>, id: nat, owner: Owner, r: Range, i: nat) {
    i < |es| && i < |ts| ==> !GivesUp(ts[i], es[i], id, owner, r)
  }

  /** Once held, a range is held throughout exactly as long as no event gives it up. */
  lemma {:induction false} HeldWhileIff(ts: seq<Tables>, es: seq<Event>, mint: (nat, nat, string) -> nat,
                                        id: nat, owner: Owner, file: nat, r: Range, i: nat, j: nat)
    requires Run(ts, es, mint) && i <= j < |ts| && HoldsRange(ts[i], id, owner, file, r)
    ensures (forall k: nat :: i <= k <= j ==> HeldAt(ts, id, owner, file, r, k)) <==>
      (forall k: nat :: i <= k < j ==> KeptUpAt(ts, es, id, owner, r, k))
    decreases j
  {
    if i < j {
      HeldWhileIff(ts, es, mint, id, owner, file, r, i, j - 1);
      RunSafe(ts, es, mint, j - 1);
      assert StepAt(ts, es, mint, j - 1);
      if HeldAt(ts, id, owner, file, r, j - 1) {
        StepHoldsIff(ts[j - 1], es[j - 1], mint, ts[j], id, owner, file, r);
      }
      assert KeptUpAt(ts, es, id, owner, r, j - 1) <==> !GivesUp(ts[j - 1], es[j - 1], id, owner, r);
      if forall k: nat :: i <= k <= j ==> HeldAt(ts, id, owner, file, r, k) {
        assert HeldAt(ts, id, owner, file, r, j - 1) && HeldAt(ts, id, owner, file, r, j);
      }
      if forall k: nat :: i <= k < j ==> KeptUpAt(ts, es, id, owner, r, k) {
        assert KeptUpAt(ts, es, id, owner, r, j - 1) && HeldAt(ts, id, owner, file, r, j - 1);
      }
    } else {
      assert HeldAt(ts, id, owner, file, r, i);
    }
  }

  /** The owner a LOCK is for. */
  function OwnerOf(t: Tables, who: Who): Owner
    requires who.Known? ==> who.stateid in t.locks
  {
    if who.New? then who.owner else t.locks[who.stateid].owner
  }

  /** A LOCK that is granted, at event i of a run: from then on its range is held, and blocks every clashing request of
      any other owner, throughout exactly as long as no event gives it up. */
  lemma GrantHoldsIff(ts: seq<Tables>, es: seq<Event>, mint: (nat, nat, string) -> nat, i: nat, j: nat,
                      who: Who, file: nat, r: Range, id: nat, owner: Owner)
    requires Run(ts, es, mint) && i < |es| && i + 1 <= j < |ts| && es[i] == LockRange(who, Some(file), r)
    requires LocksFor(ts[i], who, Some(file), r, ts[i + 1], OK, id) && owner == OwnerOf(ts[i], who)
    ensures HoldsRange(ts[i + 1], id, owner, file, r)
    ensures (forall k: nat :: i + 1 <= k <= j ==> HeldAt(ts, id, owner, file, r, k)) <==>
      (forall k: nat :: i + 1 <= k < j ==> KeptUpAt(ts, es, id, owner, r, k))
    ensures forall k, other, s :: i + 1 <= k <= j && HeldAt(ts, id, owner, file, r, k) && other != owner && Clash(s, r) ==>
      Blocked(ts[k].locks, other, file, s)
  {
    HeldWhileIff(ts, es, mint, id, owner, file, r, i + 1, j);
    forall k, other, s | i + 1 <= k <= j && HeldAt(ts, id, owner, file, r, k) && other != owner && Clash(s, r)
      ensures Blocked(ts[k].locks, other, file, s)
    {
      HeldBlocks(ts[k], id, owner, file, r, other, s);
    }
  }

  /** After an unlock nothing of that record blocks the range any more, and what it lost did overlap it. */
  lemma UnlockFrees(t: Tables, id: nat, off: nat, len: nat, t': Tables, x: Range)
    requires Unlocks(t, id, off, len, t', OK)
    ensures x in t'.locks[id].ranges <==> x in t.locks[id].ranges && !Overlaps(off, len, x.off, x.len)
    ensures t'.locks - {id} == t.locks - {id} && t'.locks[id].owner == t.locks[id].owner && t'.locks[id].file == t.locks[id].file
    ensures t'.(locks := t.locks) == t && t'.locks[id].seqid == (t.locks[id].seqid + 1) % 0x1_0000_0000
  {
    KeptMeaning(t.locks[id].ranges, off, len, x);
  }
}
