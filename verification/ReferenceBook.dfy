/** The v1 book: a map of orders and one ordered map of levels per side. */
module ReferenceBook {
  import opened Words
  import opened Bytes
  import opened L3
  import opened Digest

  // ----- level maps as values

  /** `levels` holds exactly the nonzero aggregate quantities of one side. */
  ghost predicate Aggregates(orders: Orders, side: Side, levels: map<Word, Word>) {
    forall p: Word :: LevelSum(orders, side, p) == if p in levels then levels[p] else 0
  }

  ghost predicate NoEmptyLevel(levels: map<Word, Word>) {
    forall p :: p in levels ==> levels[p] != 0
  }

  function QuantityAt(levels: map<Word, Word>, price: Word): Word {
    if price in levels then levels[price] else 0
  }

  function PutLevel(levels: map<Word, Word>, price: Word, quantity: Word): map<Word, Word>
    requires QuantityAt(levels, price) + quantity < U64
  {
    levels[price := QuantityAt(levels, price) + quantity]
  }

  function TakeLevel(levels: map<Word, Word>, price: Word, quantity: Word): map<Word, Word>
    requires price in levels && quantity <= levels[price]
  {
    if levels[price] == quantity then levels - {price} else levels[price := levels[price] - quantity]
  }

  lemma PutAggregates(orders: Orders, side: Side, levels: map<Word, Word>, id: Word, o: Order)
    requires Aggregates(orders, side, levels) && id !in orders
    requires o.side == side ==> QuantityAt(levels, o.price) + o.quantity < U64
    ensures Aggregates(orders[id := o], side, if o.side == side then PutLevel(levels, o.price, o.quantity) else levels)
  {
    forall p: Word {
      SumAdds(orders, id, o, side, p);
    }
  }

  lemma TakeAggregates(orders: Orders, side: Side, levels: map<Word, Word>, id: Word, quantity: Word)
    requires Aggregates(orders, side, levels) && id in orders && 0 < quantity <= orders[id].quantity
    ensures orders[id].side == side ==> orders[id].price in levels && quantity <= levels[orders[id].price]
    ensures Aggregates(Reduced(orders, id, quantity), side,
                       if orders[id].side == side then TakeLevel(levels, orders[id].price, quantity) else levels)
  {
    var o := orders[id];
    SumSplits(orders, id, side, o.price);
    forall p: Word
      ensures LevelSum(Reduced(orders, id, quantity), side, p) + Share(o.(quantity := quantity), side, p)
                == LevelSum(orders, side, p)
    {
      SumSplits(orders, id, side, p);
      SumReplaces(orders, id, o.(quantity := o.quantity - quantity), side, p);
    }
  }

  /** The events after which v1 is left inconsistent: an upsert whose level would overflow. */
  ghost predicate UpsertOverflows(orders: Orders, e: Event) {
    && e.kind == OrderUpsert && e.id != 0 && e.quantity != 0
    && LevelSum(orders - {e.id}, e.side, e.price) + e.quantity >= U64
  }

  lemma CorruptingEventExists()
    ensures Consistent(map[1 := Order(Bid, 100, U64_MAX)])
    ensures UpsertOverflows(map[1 := Order(Bid, 100, U64_MAX)], Event(OrderUpsert, 2, 0, Bid, 100, 1))
  {
    hide LevelSum;
    SingleOrder(Order(Bid, 100, U64_MAX));
    assert map[1 := Order(Bid, 100, U64_MAX)] - {2} == map[1 := Order(Bid, 100, U64_MAX)];
  }

  class OrderBook {
    var orders: Orders
    var bids: map<Word, Word>
    var asks: map<Word, Word>

    ghost predicate Valid()
      reads this
    {
      && NoneZero(orders)
      && Aggregates(orders, Bid, bids) && NoEmptyLevel(bids)
      && Aggregates(orders, Ask, asks) && NoEmptyLevel(asks)
    }

    function Levels(side: Side): map<Word, Word>
      reads this
    {
      if side == Bid then bids else asks
    }

    constructor ()
      ensures Valid() && orders == map[]
    {
      orders, bids, asks := map[], map[], map[];
    }

    lemma ValidIsConsistent()
      requires Valid()
      ensures Consistent(orders)
    {
      forall side, price: Word ensures LevelSum(orders, side, price) < U64 {
        if side == Bid {
          assert Aggregates(orders, Bid, bids);
        } else {
          assert Aggregates(orders, Ask, asks);
        }
      }
    }

    method AddToLevel(side: Side, price: Word, quantity: Word) returns (ok: bool)
      requires NoEmptyLevel(Levels(side))
      modifies this`bids, this`asks
      ensures ok <==> QuantityAt(old(Levels(side)), price) + quantity < U64
      ensures Levels(side) == if ok then PutLevel(old(Levels(side)), price, quantity) else old(Levels(side))
      ensures side == Bid ==> asks == old(asks)
      ensures side == Ask ==> bids == old(bids)
    {
      // operator[] creates a zero entry first; an entry that is created can never overflow
      var levels := if price in Levels(side) then Levels(side) else Levels(side)[price := 0];
      ok := U64_MAX - levels[price] >= quantity;
      if ok {
        levels := levels[price := levels[price] + quantity];
      }
      if side == Bid { bids := levels; } else { asks := levels; }
    }

    method SubtractFromLevel(side: Side, price: Word, quantity: Word) returns (ok: bool)
      modifies this`bids, this`asks
      ensures ok <==> price in old(Levels(side)) && 0 < quantity <= old(Levels(side))[price]
      ensures Levels(side) == if ok then TakeLevel(old(Levels(side)), price, quantity) else old(Levels(side))
      ensures side == Bid ==> asks == old(asks)
      ensures side == Ask ==> bids == old(bids)
    {
      var levels := Levels(side);
      if price !in levels || quantity == 0 || quantity > levels[price] {
        return false;
      }
      levels := levels[price := levels[price] - quantity];
      if levels[price] == 0 {
        levels := levels - {price};
      }
      if side == Bid { bids := levels; } else { asks := levels; }
      ok := true;
    }

    method AddOrder(id: Word, side: Side, price: Word, quantity: Word) returns (ok: bool)
      requires Valid()
      modifies this
      ensures Valid()
      ensures ok <==> CanAdd(old(orders), id, side, price, quantity)
      ensures orders == if ok then old(orders)[id := Order(side, price, quantity)] else old(orders)
    {
      hide LevelSum;
      if id == 0 || quantity == 0 || id in orders {
        return false;
      }
      assert Aggregates(orders, side, Levels(side));
      ok := AddToLevel(side, price, quantity);
      if !ok {
        return;
      }
      var o := Order(side, price, quantity);
      PutAggregates(orders, Bid, old(bids), id, o);
      PutAggregates(orders, Ask, old(asks), id, o);
      orders := orders[id := o];
    }

    method RemoveOrder(id: Word) returns (ok: bool)
      requires Valid()
      modifies this
      ensures Valid()
      ensures ok <==> id in old(orders)
      ensures orders == old(orders) - {id}
    {
      hide LevelSum;
      if id !in orders {
        return false;
      }
      var o := orders[id];
      TakeAggregates(orders, Bid, bids, id, o.quantity);
      TakeAggregates(orders, Ask, asks, id, o.quantity);
      ok := SubtractFromLevel(o.side, o.price, o.quantity);
      orders := orders - {id};
    }

    method SubtractFromOrder(id: Word, quantity: Word, allowFullRemoval: bool) returns (ok: bool)
      requires Valid()
      modifies this
      ensures Valid()
      ensures ok <==> && id in old(orders) && 0 < quantity <= old(orders)[id].quantity
                      && (allowFullRemoval || quantity < old(orders)[id].quantity)
      ensures orders == if ok then Reduced(old(orders), id, quantity) else old(orders)
    {
      hide LevelSum;
      if id !in orders || quantity == 0 || quantity > orders[id].quantity
         || (!allowFullRemoval && quantity == orders[id].quantity) {
        return false;
      }
      var o := orders[id];
      TakeAggregates(orders, Bid, bids, id, quantity);
      TakeAggregates(orders, Ask, asks, id, quantity);
      ok := SubtractFromLevel(o.side, o.price, quantity);
      if quantity == o.quantity {
        orders := orders - {id};
      } else {
        orders := orders[id := o.(quantity := o.quantity - quantity)];
      }
    }

    /** The first half of an upsert: a live order's quantity leaves its level. */
    method Withdraw(id: Word)
      requires Valid()
      modifies this`bids, this`asks
      ensures Aggregates(orders - {id}, Bid, bids) && NoEmptyLevel(bids)
      ensures Aggregates(orders - {id}, Ask, asks) && NoEmptyLevel(asks)
    {
      hide LevelSum;
      if id in orders {
        var was := orders[id];
        TakeAggregates(orders, Bid, bids, id, was.quantity);
        TakeAggregates(orders, Ask, asks, id, was.quantity);
        var subtracted := SubtractFromLevel(was.side, was.price, was.quantity);
      } else {
        assert orders - {id} == orders;
      }
    }

    /** The order is stored before its level is: an overflow then leaves it without one. */
    method UpsertOrder(id: Word, side: Side, price: Word, quantity: Word) returns (ok: bool)
      requires Valid()
      modifies this
      ensures ok <==> CanAdd(old(orders) - {id}, id, side, price, quantity)
      ensures ok ==> Valid() && orders == old(orders)[id := Order(side, price, quantity)]
      ensures !ok && (id == 0 || quantity == 0) ==> Valid() && orders == old(orders)
      ensures !ok && id != 0 && quantity != 0 ==> !Valid()
    {
      hide LevelSum;
      if id == 0 || quantity == 0 {
        return false;
      }
      Withdraw(id);
      ghost var rest := orders - {id};
      ghost var restBids, restAsks := bids, asks;
      var o := Order(side, price, quantity);
      assert rest[id := o] == orders[id := o];
      orders := orders[id := o];
      ok := AddToLevel(side, price, quantity);
      if ok {
        PutAggregates(rest, Bid, restBids, id, o);
        PutAggregates(rest, Ask, restAsks, id, o);
      } else {
        SumAdds(rest, id, o, side, price);
        assert LevelSum(orders, side, price) >= U64;
      }
    }

    /** Accepts exactly the contract's events, with exactly their effect; a rejected event leaves the
        book consistent exactly when it is not an overflowing upsert. */
    method Apply(e: Event) returns (ok: bool)
      requires Valid()
      modifies this
      ensures ok <==> Accepts(old(orders), e)
      ensures ok ==> Valid() && orders == After(old(orders), e)
      ensures !ok ==> (Valid() <==> !UpsertOverflows(old(orders), e))
      ensures !ok && Valid() ==> orders == AfterRejected(old(orders), e)
    {
      hide LevelSum, Aggregates, NoneZero, NoEmptyLevel;
      match e.kind {
        case Add => ok := AddOrder(e.id, e.side, e.price, e.quantity);
        case Cancel => ok := SubtractFromOrder(e.id, e.quantity, false);
        case Execute => ok := SubtractFromOrder(e.id, e.quantity, true);
        case Delete => ok := RemoveOrder(e.id);
        case OrderDelete => ok := RemoveOrder(e.id);
        case Replace =>
          if e.id == e.replacementId {
            return false;
          }
          ok := RemoveOrder(e.id);
          if ok {
            ok := AddOrder(e.replacementId, e.side, e.price, e.quantity);
          }
        case OrderUpsert => ok := UpsertOrder(e.id, e.side, e.price, e.quantity);
      }
    }

    method BestBid() returns (best: Option<Level>)
      requires Valid()
      ensures IsBest(orders, Bid, best)
    {
      hide LevelSum, Quoted, Ascending, Sorted, Aggregates, NoEmptyLevel, NoneZero, Prices;
      LevelsAreQuoted(Bid);
      if bids == map[] {
        return None;
      }
      var prices := AscendingKeys(bids);
      var p := prices[|prices| - 1];
      AscendingBounds(prices);
      best := Some(Level(p, bids[p]));
    }

    method BestAsk() returns (best: Option<Level>)
      requires Valid()
      ensures IsBest(orders, Ask, best)
    {
      hide LevelSum, Quoted, Ascending, Sorted, Aggregates, NoEmptyLevel, NoneZero, Prices;
      LevelsAreQuoted(Ask);
      if asks == map[] {
        return None;
      }
      var prices := AscendingKeys(asks);
      AscendingBounds(prices);
      best := Some(Level(prices[0], asks[prices[0]]));
    }

    lemma LevelsAreQuoted(side: Side)
      requires Valid()
      ensures forall p: Word :: p in Levels(side) <==> Quoted(orders, side, p)
      ensures forall p: Word :: p in Levels(side) ==> Levels(side)[p] == LevelSum(orders, side, p)
      ensures Levels(side).Keys == Prices(orders, side)
    {
      hide LevelSum;
      assert Aggregates(orders, side, Levels(side)) && NoEmptyLevel(Levels(side));
      forall p: Word {
        SumIsPositive(orders, side, p);
      }
      forall p: Word ensures p in Prices(orders, side) <==> Quoted(orders, side, p) {
      }
    }

    method LiveOrderCount() returns (n: nat)
      requires Valid()
      ensures n == |orders|
    {
      n := |orders|;
    }

    method HashSide(h: Word, side: Side) returns (r: Word)
      requires Valid()
      ensures r == Fnv(h, SideStream(orders, side))
    {
      hide LevelSum, Fnv, Sorted, Le, Prices;
      LevelsAreQuoted(side);
      var levels := Levels(side);
      r := HashU64(h, |levels|);
      ghost var head := Le(|levels|, 8);
      var prices := AscendingKeys(levels);
      ghost var sum := LevelStream(orders, side, []);
      assert head + sum == head;
      for i := 0 to |prices|
        invariant sum == LevelStream(orders, side, prices[..i])
        invariant r == Fnv(h, head + sum)
      {
        assert prices[..i + 1][..i] == prices[..i];
        var p := prices[i];
        assert p in prices;
        ghost var entry := Le(p, 8) + Le(levels[p], 8);
        FnvConcat(h, head + sum, entry);
        r := HashLevel(r, p, levels[p]);
        assert sum + entry == sum + Le(p, 8) + Le(levels[p], 8);
        assert (head + sum) + entry == head + (sum + entry);
        sum := sum + entry;
      }
      assert prices[..|prices|] == prices;
      assert |levels| == |levels.Keys|;
    }

    /** The digest is the hash of a stream that depends on the live orders alone. */
    method StateDigest() returns (h: Word)
      requires Valid()
      ensures h == Fnv(FNV_BASIS, Canonical(orders))
    {
      hide LevelSum, Fnv, Sorted, Le, Aggregates, NoneZero, NoEmptyLevel, SideStream, OrderStream;
      h := HashU64(FNV_BASIS, |orders|);
      ghost var a, b, c := Le(|orders|, 8), SideStream(orders, Bid), SideStream(orders, Ask);
      FnvConcat(FNV_BASIS, a, b);
      h := HashSide(h, Bid);
      FnvConcat(FNV_BASIS, a + b, c);
      h := HashSide(h, Ask);
      FnvConcat(FNV_BASIS, a + b + c, OrderStream(orders, Sorted(orders.Keys)));
      var ids := AscendingKeys(orders);
      h := HashOrders(h, orders, ids);
    }

    /** Every view of the book at once. */
    method Show() returns (v: Views)
      requires Valid()
      ensures Shows(orders, v)
    {
      hide LevelSum, Valid, Fnv, Canonical, IsBest;
      var bid := BestBid();
      var ask := BestAsk();
      var live := LiveOrderCount();
      var digest := StateDigest();
      v := Views(bid, ask, live, digest);
    }
  }

  /** A new book after one accepted add and one rejected upsert is no longer consistent. */
  method CorruptedBook() returns (book: OrderBook)
    ensures fresh(book) && !book.Valid()
  {
    hide LevelSum, OrderBook.Valid;
    book := new OrderBook();
    var ok := book.Apply(Event(Add, 1, 0, Bid, 100, U64_MAX));
    assert CanAdd(map[], 1, Bid, 100, U64_MAX) by { NothingQuoted(Bid, 100); }
    assert book.orders == map[1 := Order(Bid, 100, U64_MAX)];
    CorruptingEventExists();
    ok := book.Apply(Event(OrderUpsert, 2, 0, Bid, 100, 1));
  }
}
