/** The recursive set of auth events of some ids over a finite event store. */
module AuthChain {
  import opened Common
  import opened MatrixEvents

  /** `s` contains the auth events of every fetchable event in it. */
  ghost predicate Closed(pdus: map<EventId, Pdu>, s: set<EventId>) {
    forall x, a :: x in s && x in pdus && a in pdus[x].authEvents ==> a in s
  }

  /** The least closed set that contains `ids`; ids that are not stored are leaves. */
  ghost predicate IsChain(pdus: map<EventId, Pdu>, ids: set<EventId>, s: set<EventId>) {
    && ids <= s
    && Closed(pdus, s)
    && (forall t: set<EventId> :: ids <= t && Closed(pdus, t) ==> s <= t)
  }

  function Cited(pdus: map<EventId, Pdu>): (r: set<EventId>) {
    set x, a | x in pdus && a in pdus[x].authEvents :: a
  }

  /** The auth events of the stored events in `s`. */
  function AuthOf(pdus: map<EventId, Pdu>, s: set<EventId>): (r: set<EventId>)
    ensures r <= Cited(pdus)
  {
    set x, a | x in s && x in pdus && a in pdus[x].authEvents :: a
  }

  function Grow(pdus: map<EventId, Pdu>, s: set<EventId>): (r: set<EventId>)
    ensures s <= r && Closed(pdus, r)
    ensures forall t: set<EventId> :: s <= t && Closed(pdus, t) ==> r <= t
    decreases Cited(pdus) - s
  {
    var more := AuthOf(pdus, s);
    if more <= s then s
    else
      assert Cited(pdus) - (s + more) < Cited(pdus) - s by {
        var a :| a in more && a !in s;
        assert a in Cited(pdus) - s;
      }
      Grow(pdus, s + more)
  }

  /** Specification of `auth_chain_with`. */
  function Chain(pdus: map<EventId, Pdu>, ids: set<EventId>): (r: set<EventId>)
    ensures IsChain(pdus, ids, r)
  {
    Grow(pdus, ids)
  }

  /**
   `auth_chain_with`: a stack of ids still to visit and the set seen so far. Nothing is assumed of the
   store: it may be cyclic and it may cite events it does not hold.
   */
  method AuthChainWith(pdus: map<EventId, Pdu>, ids: seq<EventId>) returns (seen: set<EventId>)
    ensures IsChain(pdus, Elems(ids), seen)
    ensures seen == Chain(pdus, Elems(ids))
  {
    seen := {};
    var todo := ids;
    ghost var universe := Elems(ids) + Cited(pdus);
    while todo != []
      invariant seen <= universe && Elems(todo) <= universe
      invariant Elems(ids) <= seen + Elems(todo)
      invariant forall x, a :: x in seen && x in pdus && a in pdus[x].authEvents ==> a in seen || a in todo
      invariant forall t: set<EventId> :: Elems(ids) <= t && Closed(pdus, t) ==> seen + Elems(todo) <= t
      decreases universe - seen, |todo|
    {
      var id := todo[|todo| - 1];
      ghost var before := todo;
      todo := todo[..|todo| - 1];
      assert forall x :: x in before <==> x in todo || x == id;
      if id !in seen {
        assert id in Elems(before);
        if id in pdus {
          ghost var rest := todo;
          todo := todo + pdus[id].authEvents;
          assert forall x :: x in todo <==> x in rest || x in pdus[id].authEvents;
          forall t: set<EventId> | Elems(ids) <= t && Closed(pdus, t)
            ensures Elems(todo) <= t
          {
            assert seen + Elems(before) <= t;
          }
        }
        seen := seen + {id};
      }
    }
    assert Elems(todo) == {};
  }

  /** Over a store that holds every event it cites, the chain of stored ids stays inside the store. */
  lemma ChainStored(pdus: map<EventId, Pdu>, ids: set<EventId>)
    requires ids <= pdus.Keys && Cited(pdus) <= pdus.Keys
    ensures Chain(pdus, ids) <= pdus.Keys
  {
    assert Closed(pdus, pdus.Keys) by {
      forall x, a | x in pdus.Keys && x in pdus && a in pdus[x].authEvents ensures a in pdus.Keys {
        assert a in Cited(pdus);
      }
    }
  }

  ghost predicate SameAuth(p: map<EventId, Pdu>, q: map<EventId, Pdu>) {
    forall x :: x in p && x in q ==> p[x].authEvents == q[x].authEvents
  }

  /** Two closed stores whose common events cite the same auth events give the same chain to ids that
      both hold. */
  lemma ChainAgrees(p: map<EventId, Pdu>, q: map<EventId, Pdu>, ids: set<EventId>)
    requires SameAuth(p, q)
    requires ids <= p.Keys && ids <= q.Keys
    requires Cited(p) <= p.Keys && Cited(q) <= q.Keys
    ensures Chain(p, ids) == Chain(q, ids)
    ensures Chain(p, ids) <= p.Keys && Chain(p, ids) <= q.Keys
  {
    ChainStored(p, ids);
    ChainStored(q, ids);
    var both := Chain(p, ids) * Chain(q, ids);
    assert Closed(p, both) && Closed(q, both);
  }
}
