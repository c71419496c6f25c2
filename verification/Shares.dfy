/**
 Share reservations over the open tables: which operations keep them, and exactly when a run does
 (section 9.7 of RFC 7530).
 */
module Shares {
  import opened LeaseTables

  // Two opens of one file, neither wanting what the other denies.
  ghost predicate SharePair(opens: map<nat, Open>, a: nat, b: nat) {
    a in opens && b in opens && a != b && opens[a].file == opens[b].file ==> !ShareClash(opens[a].access, opens[a].deny, opens[b])
  }

  ghost predicate SharesHonoured(opens: map<nat, Open>) {
    forall a, b {:trigger SharePair(opens, a, b)} :: SharePair(opens, a, b)
  }

  lemma ShareClashSymmetric(a: Open, b: Open)
    ensures ShareClash(a.access, a.deny, b) <==> ShareClash(b.access, b.deny, a)
  {
    MeetsSymmetric(a.access, b.deny);
    MeetsSymmetric(a.deny, b.access);
  }

  lemma MeetsSymmetric(x: bv32, y: bv32)
    ensures Meets(x, y) == Meets(y, x)
  {
    assert x & y == y & x;
  }

  /** The check a new open passes: no open of the file but this one clashes with the bits. */
  ghost predicate NoClash(opens: map<nat, Open>, id: nat, file: nat, access: bv32, deny: bv32) {
    forall k :: k in opens && k != id && opens[k].file == file ==> !ShareClash(access, deny, opens[k])
  }

  /** One open set: every reservation is kept exactly when its bits pass the check. */
  lemma SharesKeptIff(opens: map<nat, Open>, id: nat, o: Open)
    requires SharesHonoured(opens)
    ensures SharesHonoured(opens[id := o]) <==> NoClash(opens, id, o.file, o.access, o.deny)
  {
    var opens' := opens[id := o];
    if SharesHonoured(opens') {
      forall k | k in opens && k != id && opens[k].file == o.file
        ensures !ShareClash(o.access, o.deny, opens[k])
      {
        assert SharePair(opens', id, k);
      }
    }
    if NoClash(opens, id, o.file, o.access, o.deny) {
      forall a, b
        ensures SharePair(opens', a, b)
      {
        assert SharePair(opens, a, b);
        if a in opens && b == id { ShareClashSymmetric(opens[a], o); }
      }
    }
  }

  // ---- upgrades and downgrades ----

  lemma MeetsOr(x: bv32, y: bv32, z: bv32)
    ensures Meets(x | y, z) <==> Meets(x, z) || Meets(y, z)
  {
    assert (x | y) & z == (x & z) | (y & z);
    OrZero(x & z, y & z);
  }

  lemma OrZero(x: bv32, y: bv32)
    ensures x | y == 0 <==> x == 0 && y == 0
  {
  }

  /** Bits taken together clash exactly when some part of them does. */
  lemma ClashOr(access: bv32, deny: bv32, access': bv32, deny': bv32, o: Open)
    ensures ShareClash(access | access', deny | deny', o) <==> ShareClash(access, deny, o) || ShareClash(access', deny', o)
  {
    MeetsOr(access, access', o.deny);
    MeetsOr(deny, deny', o.access);
  }

  lemma UpgradedClash(o: Open, access: bv32, deny: bv32, up: Open, x: Open)
    requires !ShareClash(o.access, o.deny, x) && up == Upgraded(o, access, deny)
    ensures ShareClash(up.access, up.deny, x) <==> ShareClash(access, deny, x)
  {
    ClashOr(o.access, o.deny, access, deny, x);
  }

  /** An upgrade keeps every reservation exactly when the bits it asks for would pass the check that it skips. */
  lemma UpgradeKeepsIff(opens: map<nat, Open>, id: nat, access: bv32, deny: bv32, up: Open)
    requires SharesHonoured(opens) && id in opens && up == Upgraded(opens[id], access, deny)
    ensures SharesHonoured(opens[id := up]) <==> NoClash(opens, id, opens[id].file, access, deny)
  {
    SharesKeptIff(opens, id, up);
    SameChecks(opens, id, access, deny, up);
  }

  lemma SameChecks(opens: map<nat, Open>, id: nat, access: bv32, deny: bv32, up: Open)
    requires SharesHonoured(opens) && id in opens && up == Upgraded(opens[id], access, deny)
    ensures NoClash(opens, id, up.file, up.access, up.deny) <==> NoClash(opens, id, opens[id].file, access, deny)
  {
    forall k | k in opens && k != id && opens[k].file == up.file
      ensures ShareClash(up.access, up.deny, opens[k]) <==> ShareClash(access, deny, opens[k])
    {
      assert SharePair(opens, id, k);
      UpgradedClash(opens[id], access, deny, up, opens[k]);
    }
  }

  function Downgraded(o: Open, access: bv32, deny: bv32): Open {
    o.(access := access, deny := deny, seqid := Bump(o.seqid))
  }

  /** A downgrade that only gives bits up passes the check. */
  lemma NarrowingPasses(opens: map<nat, Open>, id: nat, access: bv32, deny: bv32)
    requires SharesHonoured(opens) && id in opens
    requires opens[id].access | access == opens[id].access && opens[id].deny | deny == opens[id].deny
    ensures NoClash(opens, id, opens[id].file, access, deny)
    ensures SharesHonoured(opens[id := Downgraded(opens[id], access, deny)])
  {
    var o := opens[id];
    forall k | k in opens && k != id && opens[k].file == o.file
      ensures !ShareClash(access, deny, opens[k])
    {
      assert SharePair(opens, id, k);
      ClashOr(o.access, o.deny, access, deny, opens[k]);
    }
    SharesKeptIff(opens, id, Downgraded(o, access, deny));
  }

  /** Opens dropped take no reservation with them but their own. */
  lemma DroppedKeeps(opens: map<nat, Open>, opens': map<nat, Open>)
    requires SharesHonoured(opens) && forall k :: k in opens' ==> k in opens && opens'[k] == opens[k]
    ensures SharesHonoured(opens')
  {
    forall a, b
      ensures SharePair(opens', a, b)
    {
      assert SharePair(opens, a, b);
    }
  }

  // ---- operations and runs ----

  /** The check, where the server skips it: at an upgrade and at a downgrade. */
  ghost predicate Guarded(t: Tables, e: Event) {
    match e
    case OpenFile(owner, f, a, d) => forall k :: k in t.opens && IsOpen(t.opens[k], owner, f) ==> NoClash(t.opens, k, f, a, d)
    case OpenDowngrade(id, a, d) => id in t.opens ==> NoClash(t.opens, id, t.opens[id].file, a, d)
    case _ => true
  }

  /** OPEN: a new open is refused or keeps every reservation; an upgrade keeps them exactly when guarded. */
  lemma OpensSharesIff(t: Tables, owner: Owner, file: nat, access: bv32, deny: bv32, t': Tables, st: Status, id: nat, seqid: nat)
    requires Safe(t) && SharesHonoured(t.opens) && Opens(t, owner, file, access, deny, t', st, id, seqid)
    ensures SharesHonoured(t'.opens) <==> Guarded(t, OpenFile(owner, file, access, deny))
  {
    if k :| k in t.opens && IsOpen(t.opens[k], owner, file) {
      assert OpenKey(t, k) && OpenPair(t.opens, id, k);
      UpgradeKeepsIff(t.opens, id, access, deny, t'.opens[id]);
      forall j | j in t.opens && IsOpen(t.opens[j], owner, file)
        ensures j == id
      {
        assert OpenPair(t.opens, id, j);
      }
    } else if t' != t {
      assert OpenKey(t, id);
      SharesKeptIff(t.opens, id, t'.opens[id]);
    }
  }

  lemma DowngradesSharesIff(t: Tables, id: nat, access: bv32, deny: bv32, t': Tables, st: Status)
    requires SharesHonoured(t.opens) && Downgrades(t, id, access, deny, t', st)
    ensures SharesHonoured(t'.opens) <==> Guarded(t, OpenDowngrade(id, access, deny))
  {
    if id in t.opens { SharesKeptIff(t.opens, id, Downgraded(t.opens[id], access, deny)); }
  }

  /** Renumbering an open's seqid touches no reservation. */
  lemma ConfirmOpenKeeps(t: Tables, id: nat, t': Tables)
    requires SharesHonoured(t.opens) && ConfirmsOpen(t, id, t')
    ensures SharesHonoured(t'.opens)
  {
    forall a, b
      ensures SharePair(t'.opens, a, b)
    {
      assert SharePair(t.opens, a, b);
    }
  }

  /** One operation keeps every reservation exactly when it is guarded; all but upgrades and downgrades always do. */
  lemma StepSharesIff(t: Tables, e: Event, mint: (nat, nat, string) -> nat, t': Tables)
    requires Safe(t) && SharesHonoured(t.opens) && Step(t, e, mint, t')
    ensures SharesHonoured(t'.opens) <==> Guarded(t, e)
  {
    match e
    case OpenFile(owner, f, a, d) =>
      var st, id, sq :| Opens(t, owner, f, a, d, t', st, id, sq);
      OpensSharesIff(t, owner, f, a, d, t', st, id, sq);
    case OpenDowngrade(id, a, d) =>
      var st :| Downgrades(t, id, a, d, t', st);
      DowngradesSharesIff(t, id, a, d, t', st);
    case OpenConfirm(id) => ConfirmOpenKeeps(t, id, t');
    case SetClientidConfirm(c, v) =>
      var st :| Confirms(t, c, v, t', st);
      DroppedKeeps(t.opens, t'.opens);
    case _ => DroppedKeeps(t.opens, t'.opens);
  }

  ghost predicate HonouredAt(ts: seq<Tables>, i: nat) {
    i < |ts| ==> SharesHonoured(ts[i].opens)
  }

  ghost predicate GuardedAt(ts: seq<Tables>, es: seq<Event>, i: nat) {
    i < |es| && i < |ts| ==> Guarded(ts[i], es[i])
  }

  /** Up to any table of a run, all reservations are honoured exactly when every upgrade and downgrade before it is guarded. */
  lemma {:induction false} RunSharesIff(ts: seq<Tables>, es: seq<Event>, mint: (nat, nat, string) -> nat, n: nat)
    requires Run(ts, es, mint) && n < |ts|
    ensures (forall i: nat :: i <= n ==> HonouredAt(ts, i)) <==> (forall i: nat :: i < n ==> GuardedAt(ts, es, i))
  {
    if n == 0 {
      forall i: nat | i <= 0
        ensures HonouredAt(ts, i)
      {
        assert forall a, b :: SharePair(START.opens, a, b);
      }
    } else {
      RunSharesIff(ts, es, mint, n - 1);
      RunSafe(ts, es, mint, n - 1);
      assert StepAt(ts, es, mint, n - 1);
      if HonouredAt(ts, n - 1) { StepSharesIff(ts[n - 1], es[n - 1], mint, ts[n]); }
      assert HonouredAt(ts, n) <==> SharesHonoured(ts[n].opens);
      assert GuardedAt(ts, es, n - 1) <==> Guarded(ts[n - 1], es[n - 1]);
      if forall i: nat :: i <= n ==> HonouredAt(ts, i) {
        assert HonouredAt(ts, n - 1) && HonouredAt(ts, n);
      }
      if forall i: nat :: i < n ==> GuardedAt(ts, es, i) {
        assert GuardedAt(ts, es, n - 1) && HonouredAt(ts, n - 1);
      }
    }
  }

  // One client, confirmed; two of its owners open a file for reading; the first upgrades, or "downgrades", to deny reading.

  const CB := Callback(0, "", "", 0)
  const FIRST := Owner(1, "a")
  const SECOND := Owner(1, "b")

  function ClashClient(cv: nat, confirmed: bool): Tables {
    START.(clients := map[1 := Client("c", 0, cv, confirmed, CB)], nextClient := 2)
  }

  function ClashTables(cv: nat): seq<Tables> {
    var t := ClashClient(cv, true);
    [START, ClashClient(cv, false), t,
     t.(opens := map[1 := Open(FIRST, 7, 1, 0, 1)], nextState := 2),
     t.(opens := map[1 := Open(FIRST, 7, 1, 0, 1), 2 := Open(SECOND, 7, 1, 0, 1)], nextState := 3),
     t.(opens := map[1 := Upgraded(Open(FIRST, 7, 1, 0, 1), 1, 1), 2 := Open(SECOND, 7, 1, 0, 1)], nextState := 3)]
  }

  function ClashEvents(cv: nat, last: Event): seq<Event> {
    [SetClientid(0, "c", CB), SetClientidConfirm(1, cv), OpenFile(FIRST, 7, 1, 0), OpenFile(SECOND, 7, 1, 0), last]
  }

  lemma ClashHandshake(mint: (nat, nat, string) -> nat, cv: nat)
    requires cv == mint(1, 0, "c")
    ensures Step(START, SetClientid(0, "c", CB), mint, ClashClient(cv, false))
    ensures Step(ClashClient(cv, false), SetClientidConfirm(1, cv), mint, ClashClient(cv, true))
  {
    var t := ClashClient(cv, false);
    assert SetsClientid(START, 0, "c", CB, mint, t, 1, cv);
    assert Stale(t.clients, 1) == {};
    assert Confirms(t, 1, cv, ClashClient(cv, true), OK);
  }

  lemma ClashOpens(mint: (nat, nat, string) -> nat, cv: nat, ts: seq<Tables>)
    requires ts == ClashTables(cv)
    ensures Step(ts[2], OpenFile(FIRST, 7, 1, 0), mint, ts[3])
    ensures Step(ts[3], OpenFile(SECOND, 7, 1, 0), mint, ts[4])
  {
    assert Opens(ts[2], FIRST, 7, 1, 0, ts[3], OK, 1, 1);
    assert !ShareClash(1, 0, ts[3].opens[1]) && !IsOpen(ts[3].opens[1], SECOND, 7);
    assert Opens(ts[3], SECOND, 7, 1, 0, ts[4], OK, 2, 1);
  }

  lemma ClashUpgrade(mint: (nat, nat, string) -> nat, cv: nat, ts: seq<Tables>)
    requires ts == ClashTables(cv)
    ensures Step(ts[4], OpenFile(FIRST, 7, 1, 1), mint, ts[5])
    ensures Step(ts[4], OpenDowngrade(1, 1, 1), mint, ts[5])
    ensures !SharesHonoured(ts[5].opens)
  {
    assert IsOpen(ts[4].opens[1], FIRST, 7);
    assert Opens(ts[4], FIRST, 7, 1, 1, ts[5], OK, 1, 2);
    assert (0 as bv32 | 1) & 1 == 1;
    assert ts[5].opens[1] == Downgraded(ts[4].opens[1], 1, 1);
    assert Downgrades(ts[4], 1, 1, 1, ts[5], OK);
    assert !SharePair(ts[5].opens, 1, 2);
  }

  /** An upgrade, and a downgrade, granted over another owner's head: runs that end with a reservation broken. */
  lemma ShareMayBreak(mint: (nat, nat, string) -> nat, last: Event)
    requires last == OpenFile(FIRST, 7, 1, 1) || last == OpenDowngrade(1, 1, 1)
    ensures var cv := mint(1, 0, "c");
      Run(ClashTables(cv), ClashEvents(cv, last), mint) && !SharesHonoured(ClashTables(cv)[5].opens)
  {
    var cv := mint(1, 0, "c");
    var ts, es := ClashTables(cv), ClashEvents(cv, last);
    ClashHandshake(mint, cv);
    ClashOpens(mint, cv, ts);
    ClashUpgrade(mint, cv, ts);
    forall i: nat
      ensures StepAt(ts, es, mint, i)
    {
      if i < 5 { assert i == 0 || i == 1 || i == 2 || i == 3 || i == 4; }
    }
  }
}
