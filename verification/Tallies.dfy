/** Running totals over the nodes of a view, as the statistics of both engines accumulate them. */
module Tallies {
  import opened Options
  import opened FileSystem
  import opened Observations
  import Numbers

  ghost function AliveAmong(v: View, ids: set<nat>, t: Type): set<nat> {
    set id | id in ids && id in v.nodes && v.nodes[id].nlink > 0 && v.nodes[id].typ == t
  }

  /** Among ids, counts holds the number of living nodes of each type, and total the size of the living files. */
  ghost predicate Tallied(v: View, ids: set<nat>, counts: map<Type, nat>, total: nat) {
    CountsAlive(v, ids, counts) && total == SizeAmong(v, ids)
  }

  ghost predicate CountsAlive(v: View, ids: set<nat>, counts: map<Type, nat>) {
    counts.Keys == TYPES && forall t: Type :: t in counts ==> counts[t] == |AliveAmong(v, ids, t)|
  }

  ghost function SizeAmong(v: View, ids: set<nat>): nat {
    Numbers.Sum(AliveAmong(v, ids, REG), SizeOf(v))
  }

  function Bumped(counts: map<Type, nat>, t: Type): map<Type, nat> {
    if t in counts then counts[t := counts[t] + 1] else counts
  }

  lemma NothingTallied(v: View, none: set<nat>, counts: map<Type, nat>)
    requires none == {} && counts.Keys == TYPES && forall t: Type :: t in TYPES ==> counts[t] == 0
    ensures Tallied(v, none, counts, 0)
  {
    assert forall t: Type :: AliveAmong(v, {}, t) == {};
  }

  lemma SameCounts(v: View, ids: set<nat>, counts: map<Type, nat>, id: nat)
    requires CountsAlive(v, ids, counts) && id !in ids && !Living(Get(v.nodes, id))
    ensures CountsAlive(v, ids + {id}, counts)
  {
    forall t: Type | t in counts
      ensures counts[t] == |AliveAmong(v, ids + {id}, t)|
    {
      AliveNext(v, ids, id, t);
    }
  }

  lemma BumpCounts(v: View, ids: set<nat>, counts: map<Type, nat>, id: nat)
    requires CountsAlive(v, ids, counts) && id !in ids && id in v.nodes && v.nodes[id].nlink != 0
    ensures CountsAlive(v, ids + {id}, Bumped(counts, v.nodes[id].typ))
  {
    var typ := v.nodes[id].typ;
    assert typ in TYPES by { AllTypes(); }
    forall t: Type | t in counts
      ensures Bumped(counts, typ)[t] == |AliveAmong(v, ids + {id}, t)|
    {
      AliveNext(v, ids, id, t);
    }
    assert Bumped(counts, typ).Keys == counts.Keys;
  }

  lemma SizeNext(v: View, ids: set<nat>, id: nat)
    requires id !in ids
    ensures SizeAmong(v, ids + {id}) == SizeAmong(v, ids) + (if id in Alive(v, REG) then v.nodes[id].size else 0)
  {
    AliveNext(v, ids, id, REG);
    if id in Alive(v, REG) { Numbers.SumInsert(AliveAmong(v, ids, REG), SizeOf(v), id); }
  }

  lemma AliveNext(v: View, ids: set<nat>, id: nat, t: Type)
    requires id !in ids
    ensures AliveAmong(v, ids + {id}, t) == if id in Alive(v, t) then AliveAmong(v, ids, t) + {id} else AliveAmong(v, ids, t)
    ensures id !in AliveAmong(v, ids, t)
  {
  }

  lemma AllTypes()
    ensures forall t: Type :: t in TYPES
  {
    forall t: Type
      ensures t in TYPES
    {
      match t
      case REG =>
      case _ =>
    }
  }

  lemma StatsMeaning(v: View, counts: map<Type, nat>, links: nat, total: nat)
    requires Tallied(v, v.nodes.Keys, counts, total) && links == |v.links|
    ensures Stats(counts, links, total) == StatsOf(v)
  {
    forall t: Type | t in TYPES
      ensures AliveAmong(v, v.nodes.Keys, t) == Alive(v, t)
    {
    }
    assert counts == StatsOf(v).nodes;
  }

  /** Two states of a node that count alike. */
  predicate SameLife(a: Option<Attr>, b: Option<Attr>) {
    a == b || (!Living(a) && !Living(b))
  }

  method CountNode(ghost v: View, ghost ids: set<nat>, counts: map<Type, nat>, ghost id: nat, a: Option<Attr>)
      returns (counts': map<Type, nat>)
    requires CountsAlive(v, ids, counts) && id !in ids && SameLife(Get(v.nodes, id), a)
    ensures CountsAlive(v, ids + {id}, counts')
  {
    if a.None? || a.value.nlink == 0 {
      SameCounts(v, ids, counts, id);
      return counts;
    }
    BumpCounts(v, ids, counts, id);
    return Bumped(counts, a.value.typ);
  }

  method AddSize(ghost v: View, ghost ids: set<nat>, total: nat, ghost id: nat, a: Option<Attr>) returns (total': nat)
    requires total == SizeAmong(v, ids) && id !in ids && SameLife(Get(v.nodes, id), a)
    ensures total' == SizeAmong(v, ids + {id})
  {
    SizeNext(v, ids, id);
    return if a.Some? && a.value.nlink != 0 && a.value.typ == REG then total + a.value.size else total;
  }
}
