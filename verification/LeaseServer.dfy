/** The NFSv4.0 server's state operations, on tables edited in place. */
module LeaseServer {
  import opened LockRanges
  import opened LeaseTables
  import opened Options

  class LeaseServer {
    var clients: map<nat, Client>
    var opens: map<nat, Open>
    var locks: map<nat, Lock>
    var owners: set<Owner>
    var nextClient: nat
    var nextState: nat

    // The confirm verifier, a fixed mix of its arguments.
    const mint: (nat, nat, string) -> nat

    function T(): Tables
      reads this
    {
      Tables(clients, opens, locks, owners, nextClient, nextState)
    }

    ghost predicate Valid()
      reads this
    {
      Safe(T())
    }

    constructor (mint: (nat, nat, string) -> nat)
      ensures Valid() && T() == START && this.mint == mint
    {
      clients, opens, locks, owners := map[], map[], map[], {};
      nextClient, nextState := 1, 1;
      this.mint := mint;
      new;
      StartSafe();
    }

    // ---- client leases ----

    method SetClientid(verifier: nat, id: string, cb: Callback) returns (clientid: nat, cv: nat)
      requires Valid()
      modifies this
      ensures Valid() && SetsClientid(old(T()), verifier, id, cb, mint, T(), clientid, cv)
    {
      clientid := FindInstance(id, verifier);
      if clientid != 0 {
        var rec := clients[clientid];
        clients := clients[clientid := rec.(cb := cb)];
        cv := rec.confirmVerf;
        assert IsInstance(rec, id, verifier);
      } else {
        clientid := nextClient;
        nextClient := nextClient + 1;
        cv := mint(clientid, verifier, id);
        clients := clients[clientid := Client(id, verifier, cv, false, cb)];
      }
      SetClientidSafe(old(T()), verifier, id, cb, mint, T(), clientid, cv);
    }

    /** The record of the same client instance, 0 for none. */
    method FindInstance(id: string, verifier: nat) returns (k: nat)
      requires Valid()
      ensures k != 0 ==> k in clients && IsInstance(clients[k], id, verifier)
      ensures k == 0 ==> forall c :: c in clients ==> !IsInstance(clients[c], id, verifier)
    {
      k := 0;
      var rest := clients.Keys;
      while rest != {}
        invariant rest <= clients.Keys
        invariant forall c :: c in clients && c !in rest ==> !IsInstance(clients[c], id, verifier)
        decreases rest
      {
        var c :| c in rest;
        assert ClientKey(T(), c);
        if clients[c].id == id && clients[c].verifier == verifier { return c; }
        rest := rest - {c};
      }
    }

    method SetClientidConfirm(clientid: nat, confirm: nat) returns (st: Status)
      requires Valid()
      modifies this
      ensures Valid() && Confirms(old(T()), clientid, confirm, T(), st)
    {
      if clientid !in clients || clients[clientid].confirmVerf != confirm { return STALE_CLIENTID; }
      if !clients[clientid].confirmed {
        var gone := FindStale(clientid);
        PurgeAll(gone);
        clients := clients[clientid := clients[clientid].(confirmed := true)];
        ConfirmSafe(old(T()), clientid, confirm, T(), OK);
      }
      return OK;
    }

    /** The other confirmed leases of the same client. */
    method FindStale(clientid: nat) returns (gone: set<nat>)
      requires clientid in clients
      ensures gone == Stale(clients, clientid)
    {
      gone := {};
      var rest := clients.Keys;
      while rest != {}
        invariant rest <= clients.Keys && gone == Stale(clients, clientid) - rest
        decreases rest
      {
        var k :| k in rest;
        if k != clientid && clients[k].confirmed && clients[k].id == clients[clientid].id { gone := gone + {k}; }
        rest := rest - {k};
      }
    }

    /** Purge each stale client's state and drop its record. */
    method PurgeAll(gone: set<nat>)
      modifies this`clients, this`opens, this`locks
      ensures T() == Purged(old(T()), gone).(clients := old(clients) - gone)
    {
      var rest := gone;
      while rest != {}
        invariant rest <= gone
        invariant T() == Purged(old(T()), gone - rest).(clients := old(clients) - (gone - rest))
        decreases rest
      {
        var k :| k in rest;
        ghost var before := T();
        PurgeOne(k);
        PurgedMore(old(T()), gone - rest, k, before, T(), gone - (rest - {k}));
        rest := rest - {k};
      }
      assert gone - rest == gone;
    }

    method PurgeOne(k: nat)
      modifies this`clients, this`opens, this`locks
      ensures T() == Purged(old(T()), {k}).(clients := old(clients) - {k})
    {
      PurgeClientState(k);
      clients := clients - {k};
    }

    method PurgeClientState(c: nat)
      modifies this`opens, this`locks
      ensures T() == Purged(old(T()), {c})
    {
      opens := map k | k in opens && opens[k].owner.client != c :: opens[k];
      locks := map k | k in locks && locks[k].owner.client != c :: locks[k];
    }

    /** RENEW: leases never expire, so a confirmed one always renews. */
    method Renew(clientid: nat) returns (st: Status)
      ensures st == if Confirmed(clients, clientid) then OK else STALE_CLIENTID
    {
      return if clientid in clients && clients[clientid].confirmed then OK else STALE_CLIENTID;
    }

    // ---- opens ----

    /** OPEN from the point where the file is known: upgrade this owner's open, or check shares and add one. */
    method OpenFile(owner: Owner, file: nat, access: bv32, deny: bv32)
        returns (st: Status, seqid: nat, id: nat, needConfirm: bool)
      requires Valid()
      modifies this
      ensures Valid() && Opens(old(T()), owner, file, access, deny, T(), st, id, seqid)
      ensures st == OK ==> (needConfirm <==> owner !in owners)
    {
      seqid, id, needConfirm := 0, 0, false;
      if !(owner.client in clients && clients[owner.client].confirmed) {
        st := STALE_CLIENTID;
        return;
      }
      id := FindOpen(owner, file);
      if id != 0 {
        seqid := Bump(opens[id].seqid);
        opens := opens[id := Upgraded(opens[id], access, deny)];
      } else {
        var clash := FindShareClash(file, access, deny);
        if clash {
          st := SHARE_DENIED;
          return;
        }
        id := nextState;
        nextState := nextState + 1;
        opens := opens[id := Open(owner, file, access, deny, 1)];
        seqid := 1;
      }
      needConfirm := owner !in owners;
      st := OK;
      OpensSafe(old(T()), owner, file, access, deny, T(), st, id, seqid);
    }

    method FindOpen(owner: Owner, file: nat) returns (k: nat)
      requires Valid()
      ensures k != 0 ==> k in opens && IsOpen(opens[k], owner, file)
      ensures k == 0 ==> forall c :: c in opens ==> !IsOpen(opens[c], owner, file)
    {
      k := 0;
      var rest := opens.Keys;
      while rest != {}
        invariant rest <= opens.Keys
        invariant forall c :: c in opens && c !in rest ==> !IsOpen(opens[c], owner, file)
        decreases rest
      {
        var c :| c in rest;
        assert OpenKey(T(), c);
        if opens[c].file == file && opens[c].owner == owner { return c; }
        rest := rest - {c};
      }
    }

    method FindShareClash(file: nat, access: bv32, deny: bv32) returns (yes: bool)
      ensures yes <==> exists k :: k in opens && opens[k].file == file && ShareClash(access, deny, opens[k])
    {
      yes := false;
      var rest := opens.Keys;
      while rest != {}
        invariant rest <= opens.Keys
        invariant forall k :: k in opens && k !in rest ==> !(opens[k].file == file && ShareClash(access, deny, opens[k]))
        decreases rest
      {
        var k :| k in rest;
        if opens[k].file == file && ShareClash(access, deny, opens[k]) { return true; }
        rest := rest - {k};
      }
    }

    method Close(special: bool, id: nat) returns (st: Status)
      requires Valid()
      modifies this
      ensures Valid() && Closes(old(T()), special, id, T(), st)
    {
      if !special {
        if id !in opens { return BAD_STATEID; }
        opens := opens - {id};
      }
      DroppedSafe(old(T()), T());
      return OK;
    }

    method OpenConfirm(id: nat)
      requires Valid()
      modifies this
      ensures Valid() && ConfirmsOpen(old(T()), id, T())
    {
      if id in opens {
        OwnOpenOnly(T(), id);
        opens := opens[id := opens[id].(seqid := Bump(opens[id].seqid))];
        owners := owners + {opens[id].owner};
        OpenSafe(old(T()), id, opens[id], T());
      }
    }

    method OpenDowngrade(id: nat, access: bv32, deny: bv32) returns (st: Status)
      requires Valid()
      modifies this
      ensures Valid() && Downgrades(old(T()), id, access, deny, T(), st)
    {
      if id !in opens { return BAD_STATEID; }
      OwnOpenOnly(T(), id);
      opens := opens[id := opens[id].(access := access, deny := deny, seqid := Bump(opens[id].seqid))];
      OpenSafe(old(T()), id, opens[id], T());
      return OK;
    }

    /** The stateid check of READ and WRITE: tag 0 names an open, any other tag a lock. */
    method CheckStateid(special: bool, tag: nat, id: nat, file: nat) returns (st: Status, access: bv32)
      requires Valid()
      ensures st == OK || st == BAD_STATEID
      ensures st == OK && !special && tag == 0 ==>
        id in opens && opens[id].file == file && access == opens[id].access && Confirmed(clients, opens[id].owner.client)
      ensures st == OK && !special && tag != 0 ==>
        id in locks && locks[id].file == file && access == 3 && Confirmed(clients, locks[id].owner.client)
      ensures st == BAD_STATEID ==>
        !special && (if tag == 0 then id in opens ==> opens[id].file != file else id in locks ==> locks[id].file != file)
      ensures special ==> st == OK && access == 3
    {
      if special { return OK, 3; }
      if tag == 0 {
        if id !in opens || opens[id].file != file { return BAD_STATEID, 0; }
        assert OpenKey(T(), id);
        return OK, opens[id].access;
      }
      if id !in locks || locks[id].file != file { return BAD_STATEID, 0; }
      assert LockKey(T(), id);
      return OK, 3;
    }

    // ---- byte-range locks ----

    /** The clashing range of another owner, if there is one; which one is left to the table's order. */
    method FindBlocker(owner: Owner, file: nat, r: Range) returns (b: Option<(Range, Owner)>)
      ensures b.Some? <==> Blocked(locks, owner, file, r)
      ensures b.Some? ==> Clash(r, b.value.0) && b.value.1 != owner && HeldBy(locks, b.value.1, file, b.value.0)
    {
      var rest := locks.Keys;
      while rest != {}
        invariant rest <= locks.Keys
        invariant forall k, i :: k !in rest ==> !BlockedBy(locks, owner, file, r, k, i)
        decreases rest
      {
        var k :| k in rest;
        if !(locks[k].file != file || locks[k].owner == owner) {
          var rs := locks[k].ranges;
          var i := 0;
          while i < |rs|
            invariant 0 <= i <= |rs|
            invariant forall j: nat :: j < i ==> !BlockedBy(locks, owner, file, r, k, j)
          {
            if Clash(r, rs[i]) {
              assert BlockedBy(locks, owner, file, r, k, i) && rs[i] in locks[k].ranges;
              return Some((rs[i], locks[k].owner));
            }
            i := i + 1;
          }
        }
        rest := rest - {k};
      }
      return None;
    }

    method FindLock(owner: Owner, file: nat) returns (k: nat)
      requires Valid()
      ensures k != 0 ==> k in locks && IsLock(locks[k], owner, file)
      ensures k == 0 ==> forall c :: c in locks ==> !IsLock(locks[c], owner, file)
    {
      k := 0;
      var rest := locks.Keys;
      while rest != {}
        invariant rest <= locks.Keys
        invariant forall c :: c in locks && c !in rest ==> !IsLock(locks[c], owner, file)
        decreases rest
      {
        var c :| c in rest;
        assert LockKey(T(), c);
        if locks[c].file == file && locks[c].owner == owner { return c; }
        rest := rest - {c};
      }
    }

    method Lock(who: Who, cfh: Option<nat>, r: Range) returns (st: Status, id: nat, denied: Option<(Range, Owner)>)
      requires Valid()
      modifies this
      ensures Valid() && LocksFor(old(T()), who, cfh, r, T(), st, id)
      ensures st == DENIED <==> denied.Some?
      ensures denied.Some? ==> cfh.Some? && Clash(r, denied.value.0) && HeldBy(locks, denied.value.1, cfh.value, denied.value.0)
    {
      id, denied := 0, None;
      if who.New? && !(who.owner.client in clients && clients[who.owner.client].confirmed) {
        st := STALE_CLIENTID;
        return;
      }
      if cfh.None? {
        st := NOFILEHANDLE;
        return;
      }
      if who.Known? && who.stateid !in locks {
        st := BAD_STATEID;
        return;
      }
      var owner := if who.New? then who.owner else locks[who.stateid].owner;
      denied := FindBlocker(owner, cfh.value, r);
      if denied.Some? {
        st := DENIED;
        return;
      }
      id := Grant(owner, cfh.value, r);
      st := OK;
      LocksForSafe(old(T()), who, cfh, r, T(), st, id);
    }

    method Grant(owner: Owner, file: nat, r: Range) returns (id: nat)
      requires Valid() && !Blocked(locks, owner, file, r)
      modifies this
      ensures Locks(old(T()), owner, file, r, T(), OK, id)
    {
      id := FindLock(owner, file);
      if id == 0 {
        id := nextState;
        nextState := nextState + 1;
        locks := locks[id := LeaseTables.Lock(owner, file, 1, [])];
      }
      var l := locks[id];
      locks := locks[id := l.(ranges := l.ranges + [r], seqid := Bump(l.seqid))];
    }

    method Lockt(owner: Owner, cfh: Option<nat>, r: Range) returns (st: Status, denied: Option<(Range, Owner)>)
      ensures Tests(T(), owner, cfh, r, st) && (st == DENIED <==> denied.Some?)
      ensures denied.Some? ==> cfh.Some? && Clash(r, denied.value.0) && HeldBy(locks, denied.value.1, cfh.value, denied.value.0)
    {
      denied := None;
      if cfh.None? {
        st := NOFILEHANDLE;
        return;
      }
      denied := FindBlocker(owner, cfh.value, r);
      st := if denied.Some? then DENIED else OK;
    }

    method Unlock(id: nat, off: nat, len: nat) returns (st: Status)
      requires Valid()
      modifies this
      ensures Valid() && Unlocks(old(T()), id, off, len, T(), st)
    {
      if id !in locks { return BAD_STATEID; }
      var l := locks[id];
      var kept := KeptRanges(l.ranges, off, len);
      locks := locks[id := l.(ranges := kept, seqid := Bump(l.seqid))];
      UnlocksSafe(old(T()), id, off, len, T(), OK);
      return OK;
    }

    method ReleaseLockowner(owner: Owner)
      requires Valid()
      modifies this
      ensures Valid() && Releases(old(T()), owner, T())
    {
      locks := map k | k in locks && locks[k].owner != owner :: locks[k];
      DroppedSafe(old(T()), T());
    }
  }

  /** The owner holds the range on the file. */
  ghost predicate HeldBy(locks: map<nat, Lock>, owner: Owner, file: nat, r: Range) {
    exists k :: k in locks && locks[k].owner == owner && locks[k].file == file && r in locks[k].ranges
  }

  /** erase-remove over an owner's ranges. */
  method KeptRanges(rs: seq<Range>, off: nat, len: nat) returns (ks: seq<Range>)
    ensures ks == Kept(rs, off, len)
  {
    ks := [];
    var i := 0;
    while i < |rs|
      invariant 0 <= i <= |rs| && ks == Kept(rs[..i], off, len)
    {
      assert rs[..i + 1][..i] == rs[..i];
      if !Overlaps(off, len, rs[i].off, rs[i].len) { ks := ks + [rs[i]]; }
      i := i + 1;
    }
    assert rs[..i] == rs;
  }

  lemma PurgedMore(t: Tables, done: set<nat>, k: nat, before: Tables, after: Tables, done': set<nat>)
    requires before == Purged(t, done).(clients := t.clients - done)
    requires after == Purged(before, {k}).(clients := before.clients - {k})
    requires done' == done + {k}
    ensures after == Purged(t, done').(clients := t.clients - done')
  {
    var want := Purged(t, done');
    assert after.opens == want.opens && after.locks == want.locks;
    assert after.clients == t.clients - done';
  }
}
