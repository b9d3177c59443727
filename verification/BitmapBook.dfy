/** The v4 book: the tombstone table over packed records, and two bitmap ladders. */
module BitmapBook {
  import opened Words
  import opened Circle
  import opened Bytes
  import opened L3
  import opened Digest
  import opened BitmapLadder
  import opened PackedRecord
  import opened Ladders
  import OI = OrderIndex
  import TI = TombstoneIndex

  /** The one rejected event that leaves v4 inconsistent: an upsert of a live id that overflows its level. */
  ghost predicate Corrupts(orders: Orders, e: Event, minimum: Word) {
    && e.kind == OrderUpsert && e.id in orders && e.quantity != 0 && InLadder(minimum, e.price)
    && LevelSum(orders - {e.id}, e.side, e.price) + e.quantity >= U64
  }

  /** The doubled limit, reduced to 64 bits, and at least 8. */
  function Target(maximumLive: Word): Word {
    var doubled := (2 * maximumLive) % U64;
    if doubled < 8 then 8 else doubled
  }

  predicate SizingStops(maximumLive: Word) {
    Target(maximumLive) <= 2 * OI.HALF_RANGE
  }

  /** The sizing loop reaches its target after some number of shifts exactly when that is at most 2^63. */
  lemma SizingStopsExactly(maximumLive: Word)
    ensures (exists k: nat :: OI.Doubled(k) >= Target(maximumLive)) <==> SizingStops(maximumLive)
  {
    var half := (2 * maximumLive) % U64 / 2;
    assert Target(maximumLive) == OI.SlotTarget(half);
    OI.DoublingStops(half);
  }

  /** Doubling is not checked here, so a limit beyond half the range gets a table too small to hold it. */
  method Capacity(maximumLive: Word) returns (capacity: Word)
    requires SizingStops(maximumLive)
    ensures IsTableSize(capacity) && capacity >= 8
    ensures capacity >= maximumLive <==> maximumLive <= U64_MAX / 2
  {
    capacity := OI.DoubleUpTo(Target(maximumLive));
  }

  class OrderBook {
    const table: TI.TombstoneTable<Packed>
    const ladders: LadderPair
    var live: Word

    ghost function Repr(): set<object> {
      {this, table, table.slots} + ladders.Repr()
    }

    /** The live orders, read off the table. */
    ghost function View(): Orders
      reads table
    {
      Unpacked(table.contents, ladders.minimum)
    }

    ghost predicate PartsValid()
      reads Repr()
    {
      Separate() && table.Valid() && ladders.Valid()
    }

    ghost predicate Separate() {
      this !in ladders.Repr() && table !in ladders.Repr() && table.slots !in ladders.Repr()
    }

    ghost predicate Valid()
      reads Repr()
    {
      PartsValid() && Books(table.contents, ladders.BidLevels(), ladders.AskLevels(), live, ladders.minimum)
    }

    constructor (maximumLive: Word, minimum: Word, mix: Word -> Word)
      requires SizingStops(maximumLive) && minimum + PRICE_COUNT <= U64
      ensures Valid() && View() == map[] && fresh(Repr())
      ensures ladders.minimum == minimum && table.slots.Length >= 8
      ensures table.slots.Length >= maximumLive <==> maximumLive <= U64_MAX / 2
    {
      var capacity := Capacity(maximumLive);
      table := new TI.TombstoneTable<Packed>(capacity, mix, Packed(0, 0));
      ladders := new LadderPair(minimum);
      live := 0;
      new;
      EmptyBooks(ladders.BidLevels(), ladders.AskLevels(), minimum);
    }

    lemma Sizes()
      requires Valid()
      ensures |View()| == |table.contents| == live && View().Keys == table.contents.Keys
    {
      hide LevelSum, SideOf, OffsetOf, Priced;
      SameSize(table.contents, ladders.minimum);
    }

    /** The level is checked before the slot is written: a refused add changes nothing. */
    method Add(id: Word, side: Side, price: Word, quantity: Word) returns (ok: bool)
      requires PartsValid()
      modifies Repr()
      ensures PartsValid()
      ensures old(Valid()) ==>
                (ok <==> && CanAdd(old(View()), id, side, price, quantity) && InLadder(ladders.minimum, price)
                         && |old(View())| < table.slots.Length)
      ensures old(Valid()) ==>
                Valid() && View() == if ok then old(View())[id := Order(side, price, quantity)] else old(View())
    {
      hide LevelSum, Unpacked, Books, TI.TombstoneTable.Valid, TI.PassedOver, OI.Home;
      hide LadderPair.Valid, LadderPair.BidLevels, LadderPair.AskLevels, Make, Raised;
      ghost var sound := Valid();
      if id == 0 || quantity == 0 {
        return false;
      }
      var offset := ladders.Offset(price);
      if offset.None? {
        return false;
      }
      assert sound ==> |View()| == |table.contents| && (id in View() <==> id in table.contents) by {
        if sound { Sizes(); }
      }
      var i := table.InsertionSlot(id);
      if i == table.slots.Length {
        return false;
      }
      ok := Enter(i, id, Order(side, price, quantity));
    }

    method Enter(i: nat, id: Word, o: Order) returns (ok: bool)
      requires PartsValid() && id != 0 && id !in table.contents
      requires o.quantity != 0 && InLadder(ladders.minimum, o.price)
      requires i < table.slots.Length && table.slots[i].state != TI.Occupied
      requires var home := OI.Home(table.mix, id, table.slots.Length);
               TI.PassedOver(table.slots[..], home, id, Dist(home, i, table.slots.Length))
      modifies Repr()
      ensures PartsValid()
      ensures old(Valid()) ==> (ok <==> LevelSum(old(View()), o.side, o.price) + o.quantity < U64)
      ensures old(Valid()) ==> Valid() && View() == if ok then old(View())[id := o] else old(View())
    {
      hide LevelSum, Unpacked, Books, TI.TombstoneTable.Valid, TI.PassedOver, OI.Home;
      hide LadderPair.Valid, LadderPair.BidLevels, LadderPair.AskLevels, Make, Raised;
      ghost var sound := Valid();
      ghost var c, b, a, m := table.contents, ladders.BidLevels(), ladders.AskLevels(), ladders.minimum;
      if sound { BooksAtLevel(c, b, a, live, m, o.side, o.price); }
      ok := ladders.AddLevel(o.side, o.price, o.quantity);
      assert table.Valid();
      if !ok {
        return;
      }
      if sound { BooksAdd(c, b, a, live, m, id, o); }
      Record(i, id, o, sound);
    }

    /** The rest of an add: the level already holds the quantity. */
    method Record(i: nat, id: Word, o: Order, ghost sound: bool)
      requires PartsValid() && id != 0 && id !in table.contents
      requires o.quantity != 0 && InLadder(ladders.minimum, o.price)
      requires i < table.slots.Length && table.slots[i].state != TI.Occupied
      requires var home := OI.Home(table.mix, id, table.slots.Length);
               TI.PassedOver(table.slots[..], home, id, Dist(home, i, table.slots.Length))
      requires sound ==> Books(table.contents[id := Make(o.side, o.price - ladders.minimum, o.quantity)],
                               ladders.BidLevels(), ladders.AskLevels(), live + 1, ladders.minimum)
      modifies this, table, table.slots
      ensures PartsValid()
      ensures sound ==> Valid() && View() == old(View())[id := o]
    {
      hide LevelSum, Unpacked, Books, TI.TombstoneTable.Valid, TI.PassedOver, OI.Home;
      hide LadderPair.Valid, LadderPair.BidLevels, LadderPair.AskLevels, Make;
      ghost var c, b, a, m := table.contents, ladders.BidLevels(), ladders.AskLevels(), ladders.minimum;
      table.Place(i, id, Make(o.side, o.price - ladders.minimum, o.quantity));
      assert ladders.Valid() && ladders.BidLevels() == b && ladders.AskLevels() == a;
      assert sound ==> live + 1 < U64 by {
        if sound {
          BooksCounts(table.contents, b, a, live + 1, m);
          Capped();
        }
      }
      live := (live + 1) % U64;
      assert table.Valid() && ladders.Valid();
      assert sound ==> View() == old(View())[id := o] by {
        if sound {
          BooksAtLevel(table.contents, b, a, live, m, o.side, o.price);
          OrdersPut(c, m, id, o);
        }
      }
    }

    lemma Capped()
      requires table.Valid()
      ensures |table.contents| <= table.slots.Length < U64
    {
      TI.FullExactly(table.slots[..], table.contents);
      TableFits(table.slots.Length);
    }

    method Remove(id: Word) returns (ok: bool)
      requires PartsValid()
      modifies Repr()
      ensures PartsValid()
      ensures old(Valid()) ==> Valid() && (ok <==> id in old(View())) && View() == old(View()) - {id}
    {
      hide LevelSum, Unpacked, Books, TI.TombstoneTable.Valid, LadderPair.Valid;
      hide LadderPair.BidLevels, LadderPair.AskLevels, Priced, Lowered;
      ghost var sound := Valid();
      ghost var c, b, a, m := table.contents, ladders.BidLevels(), ladders.AskLevels(), ladders.minimum;
      assert id in View() <==> id in c by { UnpackedKeys(c, m); }
      var i := table.FindSlot(id);
      if i == table.slots.Length {
        assert View() == View() - {id} by { OrdersRemove(c, m, id); }
        return false;
      }
      var o := table.slots[i].value;
      if sound { BooksRemove(c, b, a, live, m, id); }
      var p := Priced(ladders.minimum, o);
      ok := ladders.SubtractLevel(p.side, p.price, o.quantity);
      assert table.Valid();
      if !ok {
        return;
      }
      ghost var b', a' := ladders.BidLevels(), ladders.AskLevels();
      assert sound ==> live > 0 && Books(c - {id}, b', a', live - 1, m);
      table.Bury(i);
      live := (live + U64 - 1) % U64;
      assert ladders.BidLevels() == b' && ladders.AskLevels() == a';
      assert table.Valid() && ladders.Valid();
      assert View() == old(View()) - {id} by { OrdersRemove(c, m, id); }
    }

    method Reduce(id: Word, quantity: Word, full: bool) returns (ok: bool)
      requires PartsValid()
      modifies Repr()
      ensures PartsValid()
      ensures old(Valid()) ==>
                (ok <==> && id in old(View()) && 0 < quantity <= old(View())[id].quantity
                         && (full || quantity < old(View())[id].quantity))
      ensures old(Valid()) ==> Valid() && View() == if ok then Reduced(old(View()), id, quantity) else old(View())
    {
      hide LevelSum, Unpacked, Books, TI.TombstoneTable.Valid, LadderPair.Valid;
      hide LadderPair.BidLevels, LadderPair.AskLevels, Priced, Lowered, Reduced;
      ghost var sound := Valid();
      ghost var c, b, a, m := table.contents, ladders.BidLevels(), ladders.AskLevels(), ladders.minimum;
      assert (id in View() <==> id in c) && (id in c ==> View()[id].quantity == c[id].quantity) by { Quantities(c, m); }
      var i := table.FindSlot(id);
      if i == table.slots.Length {
        return false;
      }
      var o := table.slots[i].value;
      if quantity == 0 || quantity > o.quantity || (!full && quantity == o.quantity) {
        return false;
      }
      if sound {
        RecordInLadder(c, b, a, live, m, id);
        BooksTake(c, b, a, live, m, id, quantity);
      }
      var p := Priced(ladders.minimum, o);
      ok := ladders.SubtractLevel(p.side, p.price, quantity);
      assert table.Valid();
      if !ok {
        return;
      }
      ghost var b', a' := ladders.BidLevels(), ladders.AskLevels();
      ghost var left := if quantity == o.quantity then live - 1 else live;
      assert sound ==> live > 0 && Books(Shortened(c, id, quantity), b', a', left, m);
      if quantity == o.quantity {
        table.Bury(i);
        live := (live + U64 - 1) % U64;
      } else {
        table.Assign(i, o.(quantity := o.quantity - quantity));
      }
      assert ladders.BidLevels() == b' && ladders.AskLevels() == a';
      assert table.Valid() && ladders.Valid();
      assert sound ==> View() == Reduced(old(View()), id, quantity) by {
        if sound { ShortenedBooks(c, b, a, old(live), m, id, quantity); }
      }
    }

    method Upsert(id: Word, side: Side, price: Word, quantity: Word) returns (ok: bool)
      requires PartsValid()
      modifies Repr()
      ensures PartsValid()
      ensures old(Valid()) ==>
                (ok <==> && CanAdd(old(View()) - {id}, id, side, price, quantity) && InLadder(ladders.minimum, price)
                         && (id in old(View()) || |old(View())| < table.slots.Length))
      ensures old(Valid()) && ok ==> Valid() && View() == old(View())[id := Order(side, price, quantity)]
      ensures var e := Event(OrderUpsert, id, 0, side, price, quantity);
              old(Valid()) && !ok ==> (Valid() <==> !Corrupts(old(View()), e, ladders.minimum))
      ensures old(Valid()) && !ok && Valid() ==> View() == old(View())
    {
      hide LevelSum, Unpacked, Books, TI.TombstoneTable.Valid, LadderPair.Valid;
      hide LadderPair.BidLevels, LadderPair.AskLevels;
      assert id in View() <==> id in table.contents by { UnpackedKeys(table.contents, ladders.minimum); }
      assert Valid() ==> 0 !in View() by { if Valid() { NoZero(); } }
      if id == 0 || quantity == 0 {
        return false;
      }
      var i := table.FindSlot(id);
      if i == table.slots.Length {
        assert View() - {id} == View();
        ok := Add(id, side, price, quantity);
        return;
      }
      var offset := ladders.Offset(price);
      if offset.None? {
        return false;
      }
      ok := Requote(i, id, Order(side, price, quantity));
    }

    lemma NoZero()
      requires Valid()
      ensures 0 !in View()
    {
    }

    /** The rest of an upsert of a live id: the old quantity leaves its level before the new one is checked. */
    method Requote(i: nat, id: Word, order: Order) returns (ok: bool)
      requires PartsValid() && id != 0 && order.quantity != 0 && InLadder(ladders.minimum, order.price)
      requires id in table.contents && i < table.slots.Length
      requires table.slots[i] == TI.Cell(id, table.contents[id], TI.Occupied)
      modifies Repr()
      ensures PartsValid()
      ensures old(Valid()) ==> (ok <==> LevelSum(old(View()) - {id}, order.side, order.price) + order.quantity < U64)
      ensures old(Valid()) && ok ==> Valid() && View() == old(View())[id := order]
      ensures old(Valid()) && !ok ==> !Valid()
    {
      hide LevelSum, Unpacked, Books, TI.TombstoneTable.Valid, LadderPair.Valid;
      hide LadderPair.BidLevels, LadderPair.AskLevels, Priced, Make, Raised, Lowered;
      ghost var sound := Valid();
      ghost var c, b, a, m := table.contents, ladders.BidLevels(), ladders.AskLevels(), ladders.minimum;
      var o := table.slots[i].value;
      if sound {
        BooksRemove(c, b, a, live, m, id);
        BooksAtLevel(c, b, a, live, m, order.side, order.price);
      }
      var p := Priced(ladders.minimum, o);
      ok := ladders.SubtractLevel(p.side, p.price, o.quantity);
      assert table.Valid();
      if !ok {
        return;
      }
      ghost var b', a' := ladders.BidLevels(), ladders.AskLevels();
      if sound { BooksAtLevel(c - {id}, b', a', live - 1, m, order.side, order.price); }
      assert Unpacked(c - {id}, m) == old(View()) - {id} by { OrdersRemove(c, m, id); }
      ok := ladders.AddLevel(order.side, order.price, order.quantity);
      assert table.Valid();
      if ok {
        if sound { BooksAdd(c - {id}, b', a', live - 1, m, id, order); }
        var record := Make(order.side, order.price - ladders.minimum, order.quantity);
        table.Assign(i, record);
        assert (c - {id})[id := record] == table.contents;
        assert table.Valid() && ladders.Valid();
        assert sound ==> View() == old(View())[id := order] by { if sound { OrdersPut(c, m, id, order); } }
      } else if sound {
        LoweredDiffers(b, a, p, m, b', a');
        if Books(c, b', a', live, m) { LaddersDetermined(c, b, a, b', a', live, m); }
      }
    }

    /** Accepts exactly the contract's events that fit, with exactly their effect; every rejected event
        but an overflowing upsert of a live id leaves the book consistent. Table and ladders stay intact
        whatever came before. */
    method Apply(e: Event) returns (ok: bool)
      requires PartsValid()
      modifies Repr()
      ensures PartsValid()
      ensures old(Valid()) ==>
                (ok <==> Accepts(old(View()), e) && Fits(old(View()), e, ladders.minimum, table.slots.Length))
      ensures old(Valid()) && ok ==> Valid() && View() == After(old(View()), e)
      ensures old(Valid()) && !ok ==> (Valid() <==> !Corrupts(old(View()), e, ladders.minimum))
      ensures old(Valid()) && !ok && Valid() ==> View() == AfterRejected(old(View()), e)
    {
      hide LevelSum, Unpacked, Books, PartsValid, InLadder;
      match e.kind {
        case Add => ok := Add(e.id, e.side, e.price, e.quantity);
        case Cancel => ok := Reduce(e.id, e.quantity, false);
        case Execute => ok := Reduce(e.id, e.quantity, true);
        case Delete => ok := Remove(e.id);
        case OrderDelete => ok := Remove(e.id);
        case Replace => ok := Replace(e);
        case OrderUpsert => ok := Upsert(e.id, e.side, e.price, e.quantity);
      }
    }

    method Replace(e: Event) returns (ok: bool)
      requires PartsValid() && e.kind == EventType.Replace
      modifies Repr()
      ensures PartsValid()
      ensures old(Valid()) ==>
                (ok <==> Accepts(old(View()), e) && Fits(old(View()), e, ladders.minimum, table.slots.Length))
      ensures old(Valid()) ==> Valid()
      ensures old(Valid()) ==> View() == if ok then After(old(View()), e) else AfterRejected(old(View()), e)
    {
      hide LevelSum, Unpacked, Books, PartsValid, InLadder;
      if e.id == e.replacementId {
        return false;
      }
      if Valid() { Room(); }
      ok := Remove(e.id);
      if ok {
        ok := Add(e.replacementId, e.side, e.price, e.quantity);
      }
    }

    lemma InStep(side: Side)
      requires PartsValid()
      ensures Marks(ladders.LadderOf(side).words[..], ladders.LadderOf(side).levels[..])
    {
    }

    lemma Room()
      requires Valid()
      ensures |View()| <= table.slots.Length
    {
      Sizes();
      TI.FullExactly(table.slots[..], table.contents);
    }

    method Best(side: Side) returns (best: Option<Level>)
      requires Valid()
      ensures IsBest(View(), side, best)
    {
      hide LevelSum, Unpacked, Tallies, NoneZero, OffsetsFit, TI.WellFormed, TI.Holds, Marks, IsBest;
      UnpackedInRange(table.contents, ladders.minimum);
      best := BestOnLadder(ladders.LadderOf(side), View(), side, ladders.minimum);
    }

    /** The same stream as the reference book's. */
    method StateDigest() returns (h: Word)
      requires Valid()
      ensures h == Fnv(FNV_BASIS, Canonical(View()))
    {
      hide LevelSum, Unpacked, Tallies, NoneZero, OffsetsFit, TI.WellFormed, TI.Holds, Marks;
      hide Fnv, Sorted, Le, SideStream, OrderStream, HashByte;
      ghost var orders := View();
      Sizes();
      UnpackedInRange(table.contents, ladders.minimum);
      h := HashU64(FNV_BASIS, live);
      ghost var x, y, z := Le(live, 8), SideStream(orders, Bid), SideStream(orders, Ask);
      FnvConcat(FNV_BASIS, x, y);
      h := HashLadder(h, ladders.bids, orders, Bid, ladders.minimum);
      FnvConcat(FNV_BASIS, x + y, z);
      h := HashLadder(h, ladders.asks, orders, Ask, ladders.minimum);
      FnvConcat(FNV_BASIS, x + y + z, OrderStream(orders, Sorted(orders.Keys)));
      h := HashRecords(h);
    }

    method HashRecords(h: Word) returns (r: Word)
      requires Valid()
      ensures r == Fnv(h, OrderStream(View(), Sorted(View().Keys)))
    {
      hide Unpacked, Books, TI.TombstoneTable.Valid, LadderPair.Valid, Fnv, Sorted, OrderBytes, Priced, HashByte;
      ghost var orders := View();
      UnpackedKeys(table.contents, ladders.minimum);
      var ids := table.LiveIds();
      var sorted := Sort(ids);
      assert Elements(ids) == orders.Keys;
      assert forall i :: 0 <= i < |sorted| ==> sorted[i] in sorted;
      r := h;
      FnvEmpty(h);
      for i := 0 to |sorted|
        invariant table.Valid()
        invariant r == Fnv(h, OrderStream(orders, sorted[..i]))
      {
        assert sorted[..i + 1][..i] == sorted[..i];
        var at := table.FindSlot(sorted[i]);
        FnvConcat(h, OrderStream(orders, sorted[..i]), OrderBytes(sorted[i], orders[sorted[i]]));
        r := HashOrder(r, sorted[i], Priced(ladders.minimum, table.slots[at].value));
      }
      assert sorted[..|sorted|] == sorted;
    }

    method LiveOrderCount() returns (n: nat)
      requires Valid()
      ensures n == |View()|
    {
      Sizes();
      n := live;
    }

    /** Every view of the book at once. */
    method Show() returns (v: Views)
      requires Valid()
      ensures Shows(View(), v)
    {
      hide LevelSum, Unpacked, Books, TI.TombstoneTable.Valid, LadderPair.Valid, Fnv, Canonical, IsBest;
      var bid := Best(Bid);
      var ask := Best(Ask);
      var live := LiveOrderCount();
      var digest := StateDigest();
      v := Views(bid, ask, live, digest);
    }
  }

  /** None is the constructor's exception. */
  method NewBook(maximumLive: Word, minimum: Word, priceCount: nat, mix: Word -> Word) returns (book: Option<OrderBook>)
    requires SizingStops(maximumLive)
    ensures book.Some? <==> priceCount == PRICE_COUNT && minimum + PRICE_COUNT <= U64
    ensures book.Some? ==> && book.value.Valid() && fresh(book.value.Repr()) && book.value.View() == map[]
                           && book.value.ladders.minimum == minimum
  {
    if priceCount != PRICE_COUNT || minimum > U64_MAX - (PRICE_COUNT - 1) {
      return None;
    }
    var b := new OrderBook(maximumLive, minimum, mix);
    book := Some(b);
  }

  lemma CorruptingEventExists()
    ensures var orders := map[1 := Order(Bid, 100, U64_MAX), 2 := Order(Bid, 101, 1)];
            Consistent(orders) && Corrupts(orders, Event(OrderUpsert, 2, 0, Bid, 100, 1), 100)
  {
    hide LevelSum, LevelsFit, NoneZero;
    var first, second := Order(Bid, 100, U64_MAX), Order(Bid, 101, 1);
    var orders := map[1 := first, 2 := second];
    SingleOrder(first);
    assert orders - {2} == map[1 := first] && orders == map[1 := first][2 := second];
    assert LevelSum(map[1 := first], Bid, 101) == 0 by { SumAdds(map[], 1, first, Bid, 101); NothingQuoted(Bid, 101); }
    assert map[1 := first] - {2} == map[1 := first];
    PutKeepsConsistent(map[1 := first], 2, second);
  }

  /** A new v4 book after two accepted adds and one rejected upsert is no longer consistent. */
  method CorruptedBook(mix: Word -> Word) returns (book: OrderBook)
    ensures fresh(book.Repr()) && book.PartsValid() && !book.Valid()
  {
    hide LevelSum, OrderBook.Valid, OrderBook.PartsValid, OrderBook.Repr, OrderBook.View;
    book := new OrderBook(4, 100, mix);
    ghost var first := Order(Bid, 100, U64_MAX);
    var ok := book.Apply(Event(Add, 1, 0, Bid, 100, U64_MAX));
    assert CanAdd(map[], 1, Bid, 100, U64_MAX) by { NothingQuoted(Bid, 100); }
    assert book.View() == map[1 := first];
    ok := book.Apply(Event(Add, 2, 0, Bid, 101, 1));
    assert CanAdd(map[1 := first], 2, Bid, 101, 1) by { SumAdds(map[], 1, first, Bid, 101); NothingQuoted(Bid, 101); }
    assert book.View() == map[1 := first, 2 := Order(Bid, 101, 1)];
    CorruptingEventExists();
    ok := book.Apply(Event(OrderUpsert, 2, 0, Bid, 100, 1));
  }

  // ----- runs of accepted and rejected events

  /** Every run of events whatsoever, corrupting ones included, leaves table and ladders intact: on both sides a
      price is marked in the bitmap exactly when its level is nonzero. */
  method ApplyAny(book: OrderBook, events: seq<Event>) returns (accepted: seq<bool>)
    requires book.PartsValid()
    modifies book.Repr()
    ensures book.PartsValid() && |accepted| == |events|
    ensures forall side :: Marks(book.ladders.LadderOf(side).words[..], book.ladders.LadderOf(side).levels[..])
  {
    hide OrderBook.PartsValid, OrderBook.Valid;
    accepted := [];
    for i := 0 to |events|
      invariant book.PartsValid() && |accepted| == i
    {
      var ok := book.Apply(events[i]);
      accepted := accepted + [ok];
    }
    forall side ensures Marks(book.ladders.LadderOf(side).words[..], book.ladders.LadderOf(side).levels[..]) {
      book.InStep(side);
    }
  }

  /** The live orders after any event, whether it was accepted or not. */
  ghost function AfterAny(orders: Orders, e: Event, minimum: Word, slots: nat): Orders {
    if Accepts(orders, e) && Fits(orders, e, minimum, slots) then After(orders, e) else AfterRejected(orders, e)
  }

  ghost function AnyRun(orders: Orders, events: seq<Event>, minimum: Word, slots: nat): Orders {
    if events == [] then orders
    else AfterAny(AnyRun(orders, events[..|events| - 1], minimum, slots), events[|events| - 1], minimum, slots)
  }

  /** No event of the run is an overflowing upsert of an id that is live when it arrives. */
  ghost predicate Clean(orders: Orders, events: seq<Event>, minimum: Word, slots: nat) {
    forall i :: 0 <= i < |events| ==> !Corrupts(AnyRun(orders, events[..i], minimum, slots), events[i], minimum)
  }

  /** Each view is what the orders left by that many events have to show. */
  ghost predicate ShowsEach(start: Orders, events: seq<Event>, views: seq<Views>, minimum: Word, slots: nat) {
    forall i :: 0 <= i < |views| ==> ShownAt(start, events, i, views[i], minimum, slots)
  }

  lemma ShownNow(start: Orders, events: seq<Event>, i: nat, v: Views, minimum: Word, slots: nat)
    ensures i < |events| && Shows(AnyRun(start, events[..i + 1], minimum, slots), v) ==>
              ShownAt(start, events, i, v, minimum, slots)
  {
    hide Shows, AnyRun;
  }

  lemma NothingYet(start: Orders, events: seq<Event>, minimum: Word, slots: nat)
    ensures AnyRun(start, events[..0], minimum, slots) == start && ShowsEach(start, events, [], minimum, slots)
  {
  }

  lemma OneMoreEvent(start: Orders, events: seq<Event>, i: nat, minimum: Word, slots: nat)
    requires i < |events|
    ensures AnyRun(start, events[..i + 1], minimum, slots)
         == AfterAny(AnyRun(start, events[..i], minimum, slots), events[i], minimum, slots)
  {
    assert events[..i + 1][..i] == events[..i];
  }

  ghost predicate ShownAt(start: Orders, events: seq<Event>, i: nat, v: Views, minimum: Word, slots: nat) {
    i < |events| && Shows(AnyRun(start, events[..i + 1], minimum, slots), v)
  }

  /** After every run of accepted and rejected events that meets no corrupting one, the book is consistent
      and holds exactly the orders the events' outcomes leave, and after each event it shows them. */
  method ApplyAll(book: OrderBook, events: seq<Event>) returns (views: seq<Views>)
    requires book.Valid()
    requires Clean(book.View(), events, book.ladders.minimum, book.table.slots.Length)
    modifies book.Repr()
    ensures book.Valid()
    ensures book.View() == AnyRun(old(book.View()), events, book.ladders.minimum, book.table.slots.Length)
    ensures |views| == |events|
    ensures ShowsEach(old(book.View()), events, views, book.ladders.minimum, book.table.slots.Length)
  {
    hide LevelSum, Unpacked, Books, Shows, ShownAt, AnyRun, OrderBook.PartsValid;
    hide Accepts, After, AfterRejected, Fits, Corrupts;
    ghost var start, m, n := book.View(), book.ladders.minimum, book.table.slots.Length;
    views := [];
    NothingYet(start, events, m, n);
    for i := 0 to |events|
      invariant book.Valid() && book.View() == AnyRun(start, events[..i], m, n)
      invariant |views| == i && ShowsEach(start, events, views, m, n)
    {
      assert !Corrupts(AnyRun(start, events[..i], m, n), events[i], m);
      OneMoreEvent(start, events, i, m, n);
      var ok := book.Apply(events[i]);
      var v := book.Show();
      views := views + [v];
      assert ShownAt(start, events, i, v, m, n) by { ShownNow(start, events, i, v, m, n); }
    }
    assert events[..|events|] == events;
  }
}
