/**
 The order-by-order (L3) book contract: what each event means for the set of live orders.
 Every book below is measured against these definitions.
 */
module L3 {
  import opened Words

  datatype Side = Bid | Ask
  datatype Order = Order(side: Side, price: Word, quantity: Word)
  datatype Level = Level(price: Word, quantity: Word)
  datatype EventType = Add | Cancel | Execute | Delete | Replace | OrderUpsert | OrderDelete
  datatype Event = Event(kind: EventType, id: Word, replacementId: Word, side: Side, price: Word, quantity: Word)

  type Orders = map<Word, Order>

  // ----- aggregate quantity of a price level

  function Share(o: Order, side: Side, price: Word): nat {
    if o.side == side && o.price == price then o.quantity else 0
  }

  /** Sum of the remaining quantities of the live orders at (side, price). */
  ghost function LevelSum(orders: Orders, side: Side, price: Word): nat
    decreases |orders|
  {
    if orders == map[] then 0
    else
      var id :| id in orders;
      Share(orders[id], side, price) + LevelSum(orders - {id}, side, price)
  }

  lemma {:induction false} SumSplits(orders: Orders, id: Word, side: Side, price: Word)
    requires id in orders
    ensures LevelSum(orders, side, price) == Share(orders[id], side, price) + LevelSum(orders - {id}, side, price)
    decreases |orders|
  {
    var x :| x in orders && LevelSum(orders, side, price)
        == Share(orders[x], side, price) + LevelSum(orders - {x}, side, price);
    if x != id {
      SumSplits(orders - {x}, id, side, price);
      SumSplits(orders - {id}, x, side, price);
      assert (orders - {x}) - {id} == (orders - {id}) - {x};
    }
  }

  lemma SumAdds(orders: Orders, id: Word, o: Order, side: Side, price: Word)
    requires id !in orders
    ensures LevelSum(orders[id := o], side, price) == LevelSum(orders, side, price) + Share(o, side, price)
  {
    SumSplits(orders[id := o], id, side, price);
    assert orders[id := o] - {id} == orders;
  }

  lemma SumReplaces(orders: Orders, id: Word, o: Order, side: Side, price: Word)
    ensures LevelSum(orders[id := o], side, price) == LevelSum(orders - {id}, side, price) + Share(o, side, price)
  {
    SumAdds(orders - {id}, id, o, side, price);
    assert (orders - {id})[id := o] == orders[id := o];
  }

  ghost predicate Quoted(orders: Orders, side: Side, price: Word) {
    exists id :: id in orders && orders[id].side == side && orders[id].price == price
  }

  ghost predicate NoneZero(orders: Orders) {
    forall id :: id in orders ==> id != 0 && orders[id].quantity != 0
  }

  /** A level is nonzero exactly when some live order quotes it. */
  lemma {:induction false} SumIsPositive(orders: Orders, side: Side, price: Word)
    requires NoneZero(orders)
    ensures LevelSum(orders, side, price) != 0 <==> Quoted(orders, side, price)
    decreases |orders|
  {
    if Quoted(orders, side, price) {
      var id :| id in orders && orders[id].side == side && orders[id].price == price;
      SumSplits(orders, id, side, price);
    } else if orders != map[] {
      var id :| id in orders;
      SumSplits(orders, id, side, price);
      SumIsPositive(orders - {id}, side, price);
    }
  }

  lemma NothingQuoted(side: Side, price: Word)
    ensures LevelSum(map[], side, price) == 0
  {
  }

  // ----- the book contract

  ghost predicate LevelsFit(orders: Orders) {
    forall side, price: Word :: LevelSum(orders, side, price) < U64
  }

  ghost predicate Consistent(orders: Orders) {
    NoneZero(orders) && LevelsFit(orders)
  }

  ghost predicate CanAdd(orders: Orders, id: Word, side: Side, price: Word, quantity: Word) {
    id != 0 && quantity != 0 && id !in orders && LevelSum(orders, side, price) + quantity < U64
  }

  /** The events the contract accepts: known ids, admissible quantities, and no level overflow. */
  ghost predicate Accepts(orders: Orders, e: Event) {
    match e.kind
    case Add => CanAdd(orders, e.id, e.side, e.price, e.quantity)
    case Cancel => e.id in orders && 0 < e.quantity < orders[e.id].quantity
    case Execute => e.id in orders && 0 < e.quantity <= orders[e.id].quantity
    case Delete => e.id in orders
    case OrderDelete => e.id in orders
    case Replace => e.id in orders && e.id != e.replacementId
                    && CanAdd(orders - {e.id}, e.replacementId, e.side, e.price, e.quantity)
    case OrderUpsert => CanAdd(orders - {e.id}, e.id, e.side, e.price, e.quantity)
  }

  function Reduced(orders: Orders, id: Word, quantity: Word): Orders
    requires id in orders && quantity <= orders[id].quantity
  {
    var o := orders[id];
    if o.quantity == quantity then orders - {id} else orders[id := o.(quantity := o.quantity - quantity)]
  }

  /** The live orders after an accepted event. */
  ghost function After(orders: Orders, e: Event): Orders
    requires Accepts(orders, e)
  {
    var o := Order(e.side, e.price, e.quantity);
    match e.kind
    case Add => orders[e.id := o]
    case Cancel => Reduced(orders, e.id, e.quantity)
    case Execute => Reduced(orders, e.id, e.quantity)
    case Delete => orders - {e.id}
    case OrderDelete => orders - {e.id}
    case Replace => (orders - {e.id})[e.replacementId := o]
    case OrderUpsert => orders[e.id := o]
  }

  /** What every book here leaves behind after a rejected event when it does not corrupt itself:
      a Replace whose second half is refused has already removed the old order. */
  ghost function AfterRejected(orders: Orders, e: Event): Orders {
    if e.kind == Replace && e.id != e.replacementId then orders - {e.id} else orders
  }

  lemma RemoveKeepsConsistent(orders: Orders, id: Word)
    requires Consistent(orders)
    ensures Consistent(orders - {id})
  {
    if id in orders {
      forall side, price: Word ensures LevelSum(orders - {id}, side, price) < U64 {
        SumSplits(orders, id, side, price);
        assert LevelSum(orders, side, price) < U64;
      }
    } else {
      assert orders - {id} == orders;
    }
  }

  lemma PutKeepsConsistent(orders: Orders, id: Word, o: Order)
    requires Consistent(orders - {id}) && CanAdd(orders - {id}, id, o.side, o.price, o.quantity)
    ensures Consistent(orders[id := o])
  {
    var orders' := orders[id := o];
    forall x | x in orders' ensures x != 0 && orders'[x].quantity != 0 {
      assert x != id ==> x in orders - {id};
    }
    forall side, price: Word ensures LevelSum(orders', side, price) < U64 {
      SumReplaces(orders, id, o, side, price);
      assert LevelSum(orders - {id}, side, price) < U64;
    }
  }

  lemma ReduceKeepsConsistent(orders: Orders, id: Word, quantity: Word)
    requires Consistent(orders) && id in orders && quantity <= orders[id].quantity
    ensures Consistent(Reduced(orders, id, quantity))
  {
    RemoveKeepsConsistent(orders, id);
    var o := orders[id];
    if quantity < o.quantity {
      SumSplits(orders, id, o.side, o.price);
      assert LevelSum(orders, o.side, o.price) < U64;
      PutKeepsConsistent(orders, id, o.(quantity := o.quantity - quantity));
    }
  }

  /** Accepted events keep every level representable and every live order nonzero. */
  lemma AcceptedKeepsConsistent(orders: Orders, e: Event)
    requires Consistent(orders) && Accepts(orders, e)
    ensures Consistent(After(orders, e))
  {
    hide LevelsFit, NoneZero;
    match e.kind
    case Add =>
      assert orders - {e.id} == orders;
      PutKeepsConsistent(orders, e.id, Order(e.side, e.price, e.quantity));
    case Cancel => ReduceKeepsConsistent(orders, e.id, e.quantity);
    case Execute => ReduceKeepsConsistent(orders, e.id, e.quantity);
    case Delete => RemoveKeepsConsistent(orders, e.id);
    case OrderDelete => RemoveKeepsConsistent(orders, e.id);
    case Replace =>
      RemoveKeepsConsistent(orders, e.id);
      var rest := orders - {e.id};
      assert rest - {e.replacementId} == rest;
      PutKeepsConsistent(rest, e.replacementId, Order(e.side, e.price, e.quantity));
    case OrderUpsert =>
      RemoveKeepsConsistent(orders, e.id);
      PutKeepsConsistent(orders, e.id, Order(e.side, e.price, e.quantity));
  }

  // ----- best price

  predicate Better(side: Side, p: Word, q: Word) {
    if side == Bid then p > q else p < q
  }

  /** `r` is the highest bid or lowest ask with its aggregate quantity, or None on an empty side. */
  ghost predicate IsBest(orders: Orders, side: Side, r: Option<Level>) {
    match r
    case None => forall p: Word :: !Quoted(orders, side, p)
    case Some(l) =>
      && Quoted(orders, side, l.price)
      && l.quantity == LevelSum(orders, side, l.price)
      && forall p: Word :: Quoted(orders, side, p) ==> !Better(side, p, l.price)
  }

  lemma BestIsUnique(orders: Orders, side: Side, r: Option<Level>, s: Option<Level>)
    requires IsBest(orders, side, r) && IsBest(orders, side, s)
    ensures r == s
  {
  }

  lemma SingleOrder(o: Order)
    requires o.quantity != 0
    ensures Consistent(map[1 := o]) && LevelSum(map[1 := o], o.side, o.price) == o.quantity
  {
    hide LevelSum;
    forall side, price: Word ensures LevelSum(map[1 := o], side, price) == Share(o, side, price) {
      NothingQuoted(side, price);
      SumAdds(map[], 1, o, side, price);
      assert map[][1 := o] == map[1 := o];
    }
  }

  // ----- runs

  /** The live orders after a run of events, or None when the contract rejects one of them. */
  ghost function Run(orders: Orders, events: seq<Event>): Option<Orders> {
    if events == [] then Some(orders)
    else
      var r := Run(orders, events[..|events| - 1]);
      if r.Some? && Accepts(r.value, events[|events| - 1]) then Some(After(r.value, events[|events| - 1])) else None
  }

  lemma {:induction false} RunKeepsConsistent(orders: Orders, events: seq<Event>)
    requires Consistent(orders) && Run(orders, events).Some?
    ensures Consistent(Run(orders, events).value)
  {
    hide LevelSum, Consistent;
    if events == [] {
    } else {
      var init := events[..|events| - 1];
      RunKeepsConsistent(orders, init);
      AcceptedKeepsConsistent(Run(orders, init).value, events[|events| - 1]);
    }
  }

  // ----- what each kind of event does to ids, orders and levels

  /** Every order but those of `ids` is as it was. */
  ghost predicate OthersKept(orders: Orders, orders': Orders, ids: set<Word>) {
    && (forall x: Word :: x !in ids ==> (x in orders <==> x in orders'))
    && (forall x: Word :: x !in ids && x in orders && x in orders' ==> orders'[x] == orders[x])
  }

  /** The level of one side and price rises by `quantity`, every other level stays. */
  ghost predicate OneLevelRises(orders: Orders, orders': Orders, side: Side, price: Word, quantity: Word) {
    forall s, p: Word ::
      LevelSum(orders', s, p) == LevelSum(orders, s, p) + if s == side && p == price then quantity else 0
  }

  ghost predicate OneLevelFalls(orders: Orders, orders': Orders, side: Side, price: Word, quantity: Word) {
    OneLevelRises(orders', orders, side, price, quantity)
  }

  lemma AddTransition(orders: Orders, e: Event)
    requires e.kind == Add
    ensures Accepts(orders, e) <==>
              && e.id != 0 && e.id !in orders && e.quantity != 0
              && LevelSum(orders, e.side, e.price) + e.quantity <= U64_MAX
    ensures Accepts(orders, e) ==>
              var orders' := After(orders, e);
              && orders'.Keys == orders.Keys + {e.id} && orders'[e.id] == Order(e.side, e.price, e.quantity)
              && OthersKept(orders, orders', {e.id})
              && OneLevelRises(orders, orders', e.side, e.price, e.quantity)
  {
    hide LevelSum;
    if Accepts(orders, e) {
      var o, orders' := Order(e.side, e.price, e.quantity), After(orders, e);
      forall s, p: Word ensures LevelSum(orders', s, p) == LevelSum(orders, s, p) + Share(o, s, p) {
        SumAdds(orders, e.id, o, s, p);
      }
    }
  }

  /** Removing a live order lowers its level by what remained. */
  lemma RemovalMoves(orders: Orders, id: Word)
    requires id in orders
    ensures var o := orders[id]; OneLevelFalls(orders, orders - {id}, o.side, o.price, o.quantity)
  {
    hide LevelSum;
    forall s, p: Word ensures LevelSum(orders - {id}, s, p) == LevelSum(orders, s, p) - Share(orders[id], s, p) {
      SumSplits(orders, id, s, p);
    }
  }

  /** Lowering a live order lowers its level by the same quantity. */
  lemma LoweringMoves(orders: Orders, id: Word, quantity: Word)
    requires id in orders && quantity < orders[id].quantity
    ensures var o := orders[id];
            OneLevelFalls(orders, orders[id := o.(quantity := o.quantity - quantity)], o.side, o.price, quantity)
  {
    hide LevelSum;
    var o := orders[id];
    var o' := o.(quantity := o.quantity - quantity);
    forall s, p: Word
      ensures LevelSum(orders[id := o'], s, p) == LevelSum(orders, s, p) + Share(o', s, p) - Share(o, s, p)
    {
      SumSplits(orders, id, s, p);
      SumReplaces(orders, id, o', s, p);
    }
  }

  /** A cancel leaves its order live: the whole quantity is never cancelled. */
  lemma CancelTransition(orders: Orders, e: Event)
    requires e.kind == Cancel
    ensures Accepts(orders, e) <==> e.id in orders && e.quantity > 0 && orders[e.id].quantity - e.quantity > 0
    ensures Accepts(orders, e) ==>
              var o, orders' := orders[e.id], After(orders, e);
              && orders'.Keys == orders.Keys && OthersKept(orders, orders', {e.id})
              && orders'[e.id].side == o.side && orders'[e.id].price == o.price
              && orders'[e.id].quantity + e.quantity == o.quantity
              && OneLevelFalls(orders, orders', o.side, o.price, e.quantity)
  {
    hide LevelSum, OneLevelFalls;
    if Accepts(orders, e) { LoweringMoves(orders, e.id, e.quantity); }
  }

  /** An execution of all that remains removes the order, a smaller one keeps it. */
  lemma ExecuteTransition(orders: Orders, e: Event)
    requires e.kind == Execute
    ensures Accepts(orders, e) <==> e.id in orders && e.quantity > 0 && orders[e.id].quantity - e.quantity >= 0
    ensures Accepts(orders, e) ==>
              var o, orders' := orders[e.id], After(orders, e);
              && OthersKept(orders, orders', {e.id})
              && (e.id in orders' <==> e.quantity != o.quantity)
              && (e.id in orders' ==> orders'[e.id].side == o.side && orders'[e.id].price == o.price
                                      && orders'[e.id].quantity + e.quantity == o.quantity)
              && OneLevelFalls(orders, orders', o.side, o.price, e.quantity)
  {
    hide LevelSum, OneLevelFalls;
    if Accepts(orders, e) {
      if e.quantity == orders[e.id].quantity {
        RemovalMoves(orders, e.id);
      } else {
        LoweringMoves(orders, e.id, e.quantity);
      }
    }
  }

  /** Both kinds of delete take every live order, and nothing else. */
  lemma DeleteTransition(orders: Orders, e: Event)
    requires e.kind == Delete || e.kind == OrderDelete
    ensures Accepts(orders, e) <==> e.id in orders
    ensures Accepts(orders, e) ==>
              var o, orders' := orders[e.id], After(orders, e);
              && e.id !in orders' && OthersKept(orders, orders', {e.id})
              && OneLevelFalls(orders, orders', o.side, o.price, o.quantity)
  {
    hide LevelSum, OneLevelFalls;
    if e.id in orders { RemovalMoves(orders, e.id); }
  }

  /** A replace is a delete of the old id followed by an add of a different new one. */
  lemma ReplaceTransition(orders: Orders, e: Event)
    requires e.kind == Replace
    ensures var delete := Event(Delete, e.id, 0, e.side, e.price, e.quantity);
            var add := Event(Add, e.replacementId, 0, e.side, e.price, e.quantity);
            && (Accepts(orders, e) <==>
                  && e.id != e.replacementId && Accepts(orders, delete)
                  && Accepts(After(orders, delete), add))
            && (Accepts(orders, e) ==> After(orders, e) == After(After(orders, delete), add))
  {
    hide LevelSum;
  }

  /** An upsert leaves exactly the state given: an add when the id is new, otherwise the old order leaves its level
      and the new one enters its own. */
  lemma UpsertTransition(orders: Orders, e: Event)
    requires e.kind == OrderUpsert
    ensures var delete := Event(Delete, e.id, 0, e.side, e.price, e.quantity);
            var add := Event(Add, e.id, 0, e.side, e.price, e.quantity);
            && (e.id !in orders ==> (Accepts(orders, e) <==> Accepts(orders, add)))
            && (e.id in orders ==> (Accepts(orders, e) <==> Accepts(After(orders, delete), add)))
            && (Accepts(orders, e) && e.id !in orders ==> After(orders, e) == After(orders, add))
            && (Accepts(orders, e) && e.id in orders ==> After(orders, e) == After(After(orders, delete), add))
    ensures Accepts(orders, e) ==>
              var orders' := After(orders, e);
              && orders'.Keys == orders.Keys + {e.id} && orders'[e.id] == Order(e.side, e.price, e.quantity)
              && OthersKept(orders, orders', {e.id})
  {
    hide LevelSum;
    if e.id in orders {
      assert (orders - {e.id})[e.id := Order(e.side, e.price, e.quantity)]
          == orders[e.id := Order(e.side, e.price, e.quantity)];
    } else {
      assert orders - {e.id} == orders;
    }
  }

  /** A rejected event changes nothing, unless it is a replace whose delete half goes through. */
  lemma RejectedTransition(orders: Orders, e: Event)
    requires !Accepts(orders, e)
    ensures var delete := Event(Delete, e.id, 0, e.side, e.price, e.quantity);
            AfterRejected(orders, e) == if e.kind == Replace && e.id != e.replacementId && Accepts(orders, delete)
                                        then After(orders, delete) else orders
  {
    hide LevelSum;
    if e.id !in orders { assert orders - {e.id} == orders; }
  }

  /** The best bid is the highest price of a live bid, the best ask the lowest of a live ask, with its level. */
  lemma BestIsExtreme(orders: Orders, side: Side, best: Option<Level>)
    ensures IsBest(orders, side, best) <==>
              match best
              case None => forall id :: id in orders ==> orders[id].side != side
              case Some(l) =>
                && l.quantity == LevelSum(orders, side, l.price)
                && (exists id :: id in orders && orders[id].side == side && orders[id].price == l.price)
                && (forall id :: id in orders && orders[id].side == side ==>
                      if side == Bid then orders[id].price <= l.price else l.price <= orders[id].price)
  {
    hide LevelSum;
    forall id | id in orders ensures Quoted(orders, orders[id].side, orders[id].price) {
    }
  }
}
