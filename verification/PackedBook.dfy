/** The v6 book: the backward-shift index over packed records, and two bitmap ladders. */
module PackedBook {
  import opened Words
  import opened Bytes
  import opened L3
  import opened Digest
  import opened OrderIndex
  import opened BitmapLadder
  import opened PackedRecord
  import opened Ladders
  import ReferenceBook

  /** An add that reaches the index and then overflows its level. */
  ghost predicate Overfills(orders: Orders, id: Word, side: Side, price: Word, quantity: Word, minimum: Word,
      maximumLive: Word) {
    && id != 0 && quantity != 0 && id !in orders && |orders| < maximumLive && InLadder(minimum, price)
    && LevelSum(orders, side, price) + quantity >= U64
  }

  /** The rejected events that leave v6 inconsistent. */
  ghost predicate Corrupts(orders: Orders, e: Event, minimum: Word, maximumLive: Word) {
    match e.kind
    case Add => Overfills(orders, e.id, e.side, e.price, e.quantity, minimum, maximumLive)
    case Replace =>
      && e.id in orders && e.id != e.replacementId
      && Overfills(orders - {e.id}, e.replacementId, e.side, e.price, e.quantity, minimum, maximumLive)
    case OrderUpsert =>
      if e.id in orders
      then e.id != 0 && e.quantity != 0
           && (!InLadder(minimum, e.price) || LevelSum(orders - {e.id}, e.side, e.price) + e.quantity >= U64)
      else Overfills(orders, e.id, e.side, e.price, e.quantity, minimum, maximumLive)
    case _ => false
  }

  class OrderBook {
    const index: FixedOrderIndex<Packed>
    const ladders: LadderPair
    var live: Word

    ghost function Repr(): set<object> {
      {this, index, index.slots} + ladders.Repr()
    }

    /** The live orders, read off the index. */
    ghost function View(): Orders
      reads index
    {
      Unpacked(index.contents, ladders.minimum)
    }

    ghost predicate PartsValid()
      reads Repr()
    {
      Separate() && index.Valid() && ladders.Valid()
    }

    ghost predicate Separate() {
      this !in ladders.Repr() && index !in ladders.Repr() && index.slots !in ladders.Repr()
    }

    ghost predicate Valid()
      reads Repr()
    {
      PartsValid() && Books(index.contents, ladders.BidLevels(), ladders.AskLevels(), live, ladders.minimum)
    }

    constructor (maximumLive: Word, minimum: Word, mix: Word -> Word)
      requires maximumLive <= HALF_RANGE && minimum + PRICE_COUNT <= U64
      ensures Valid() && View() == map[] && fresh(Repr())
      ensures index.maximumLive == maximumLive && ladders.minimum == minimum
    {
      index := new FixedOrderIndex<Packed>(maximumLive, mix, Packed(0, 0));
      ladders := new LadderPair(minimum);
      live := 0;
      new;
      EmptyBooks(ladders.BidLevels(), ladders.AskLevels(), minimum);
    }

    lemma Sizes()
      requires Valid()
      ensures |View()| == |index.contents| == live && View().Keys == index.contents.Keys
    {
      hide LevelSum, SideOf, OffsetOf, Priced;
      SameSize(index.contents, ladders.minimum);
    }

    method Add(id: Word, side: Side, price: Word, quantity: Word) returns (ok: bool)
      requires PartsValid()
      modifies Repr()
      ensures PartsValid()
      ensures old(Valid()) ==>
                (ok <==> && CanAdd(old(View()), id, side, price, quantity) && InLadder(ladders.minimum, price)
                         && |old(View())| < index.maximumLive)
      ensures old(Valid()) && ok ==> Valid() && View() == old(View())[id := Order(side, price, quantity)]
      ensures old(Valid()) && !ok ==>
                (Valid() <==> !Overfills(old(View()), id, side, price, quantity, ladders.minimum, index.maximumLive))
      ensures old(Valid()) && !ok && Valid() ==> View() == old(View())
    {
      ghost var sound := Valid();
      hide LevelSum, Unpacked, Books, FixedOrderIndex.Valid, LadderPair.Valid, LadderPair.BidLevels;
      hide LadderPair.AskLevels, Make;
      if id == 0 || quantity == 0 {
        return false;
      }
      var offset := ladders.Offset(price);
      if offset.None? {
        return false;
      }
      assert sound ==> |View()| == |index.contents| && (id in View() <==> id in index.contents) by {
        if sound { Sizes(); }
      }
      ghost var c, b, a := index.contents, ladders.BidLevels(), ladders.AskLevels();
      ok := index.Insert(id, Make(side, offset.value, quantity));
      if !ok {
        return;
      }
      assert ladders.BidLevels() == b && ladders.AskLevels() == a;
      ok := Credit(c, sound, id, Order(side, price, quantity));
    }

    /** The rest of an add: the index already holds the order when its level is checked. */
    method Credit(ghost c: map<Word, Packed>, ghost sound: bool, id: Word, o: Order) returns (ok: bool)
      requires PartsValid() && id != 0 && id !in c && o.quantity != 0 && InLadder(ladders.minimum, o.price)
      requires sound ==> Books(c, ladders.BidLevels(), ladders.AskLevels(), live, ladders.minimum)
      requires index.contents == c[id := Make(o.side, o.price - ladders.minimum, o.quantity)]
      modifies this, ladders.Repr()
      ensures PartsValid()
      ensures sound ==> (ok <==> LevelSum(Unpacked(c, ladders.minimum), o.side, o.price) + o.quantity < U64)
      ensures sound && ok ==> Valid() && View() == Unpacked(c, ladders.minimum)[id := o]
      ensures sound && !ok ==> !Valid()
    {
      hide LevelSum, Unpacked, Books, FixedOrderIndex.Valid, LadderPair.Valid, LadderPair.BidLevels;
      hide LadderPair.AskLevels, Make, Raised;
      ghost var b, a, m := ladders.BidLevels(), ladders.AskLevels(), ladders.minimum;
      if sound { BooksAtLevel(c, b, a, live, m, o.side, o.price); }
      ok := ladders.AddLevel(o.side, o.price, o.quantity);
      if !ok {
        if sound { OneTooMany(c, b, a, live, m, id, index.contents[id]); }
        return;
      }
      if sound {
        BooksAdd(c, b, a, live, m, id, o);
        assert live + 1 < U64 by { index.Bounded(); BooksCounts(c, b, a, live, m); }
        assert View() == Unpacked(c, m)[id := o] by { OrdersPut(c, m, id, o); }
      }
      live := (live + 1) % U64;
    }

    method Remove(id: Word) returns (ok: bool)
      requires PartsValid()
      modifies Repr()
      ensures PartsValid()
      ensures old(Valid()) ==> Valid() && (ok <==> id in old(View())) && View() == old(View()) - {id}
    {
      hide LevelSum, Unpacked, Books, FixedOrderIndex.Valid, LadderPair.Valid, LadderPair.BidLevels;
      hide LadderPair.AskLevels, Priced, Lowered;
      ghost var sound := Valid();
      ghost var c, b, a, m := index.contents, ladders.BidLevels(), ladders.AskLevels(), ladders.minimum;
      assert id in View() <==> id in c by { UnpackedKeys(c, m); }
      var found := index.Find(id);
      if found.None? {
        assert View() == View() - {id} by { OrdersRemove(c, m, id); }
        return false;
      }
      var o := found.value;
      if sound { BooksRemove(c, b, a, live, m, id); }
      var p := Priced(ladders.minimum, o);
      ok := ladders.SubtractLevel(p.side, p.price, o.quantity);
      if !ok {
        return;
      }
      ghost var b', a' := ladders.BidLevels(), ladders.AskLevels();
      assert sound ==> live > 0 && Books(c - {id}, b', a', live - 1, m);
      var erased := index.Erase(id);
      live := (live + U64 - 1) % U64;
      assert ladders.BidLevels() == b' && ladders.AskLevels() == a';
      assert index.Valid() && ladders.Valid();
      assert sound ==> Books(index.contents, b', a', live, m);
      assert PartsValid();
      assert View() == old(View()) - {id} by { OrdersRemove(c, m, id); }
    }

    method Reduce(id: Word, quantity: Word, full: bool) returns (ok: bool)
      requires PartsValid()
      modifies Repr()
      ensures PartsValid()
      ensures old(Valid()) ==>
                (ok <==> && id in old(View()) && 0 < quantity <= old(View())[id].quantity
                         && (full || quantity < old(View())[id].quantity))
      ensures old(Valid()) ==> Valid() && View() == if ok then Reduced(old(View()), id, quantity) else old(View())
    {
      hide LevelSum, Unpacked, Books, FixedOrderIndex.Valid, LadderPair.Valid, LadderPair.BidLevels;
      hide LadderPair.AskLevels, Priced, Lowered, Reduced;
      ghost var sound := Valid();
      ghost var c, b, a, m := index.contents, ladders.BidLevels(), ladders.AskLevels(), ladders.minimum;
      assert (id in View() <==> id in c) && (id in c ==> View()[id].quantity == c[id].quantity) by { Quantities(c, m); }
      var found := index.Find(id);
      if found.None? {
        return false;
      }
      var o := found.value;
      if quantity == 0 || quantity > o.quantity || (!full && quantity == o.quantity) {
        return false;
      }
      if sound {
        RecordInLadder(c, b, a, live, m, id);
        BooksTake(c, b, a, live, m, id, quantity);
      }
      var p := Priced(ladders.minimum, o);
      ok := ladders.SubtractLevel(p.side, p.price, quantity);
      if !ok {
        return;
      }
      ghost var b', a' := ladders.BidLevels(), ladders.AskLevels();
      ghost var left := if quantity == o.quantity then live - 1 else live;
      assert sound ==> live > 0 && Books(Shortened(c, id, quantity), b', a', left, m);
      if quantity == o.quantity {
        var erased := index.Erase(id);
        live := (live + U64 - 1) % U64;
      } else {
        index.Assign(id, o.(quantity := o.quantity - quantity));
      }
      assert ladders.BidLevels() == b' && ladders.AskLevels() == a';
      assert index.Valid() && ladders.Valid();
      assert sound ==> Books(index.contents, b', a', live, m);
      assert PartsValid();
      assert sound ==> View() == Reduced(old(View()), id, quantity) by {
        if sound { ShortenedBooks(c, b, a, old(live), m, id, quantity); }
      }
    }

    method Upsert(id: Word, side: Side, price: Word, quantity: Word) returns (ok: bool)
      requires PartsValid()
      modifies Repr()
      ensures PartsValid()
      ensures old(Valid()) ==>
                (ok <==> && CanAdd(old(View()) - {id}, id, side, price, quantity) && InLadder(ladders.minimum, price)
                         && (id in old(View()) || |old(View())| < index.maximumLive))
      ensures old(Valid()) && ok ==> Valid() && View() == old(View())[id := Order(side, price, quantity)]
      ensures var e := Event(OrderUpsert, id, 0, side, price, quantity);
              old(Valid()) && !ok ==> (Valid() <==> !Corrupts(old(View()), e, ladders.minimum, index.maximumLive))
      ensures old(Valid()) && !ok && Valid() ==> View() == old(View())
    {
      hide LevelSum, Unpacked, Books, FixedOrderIndex.Valid, LadderPair.Valid, LadderPair.BidLevels;
      hide LadderPair.AskLevels;
      assert id in View() <==> id in index.contents by { UnpackedKeys(index.contents, ladders.minimum); }
      if id == 0 || quantity == 0 {
        return false;
      }
      var found := index.Find(id);
      if found.None? {
        assert View() - {id} == View();
        ok := Add(id, side, price, quantity);
      } else {
        ok := Requote(id, found.value, side, price, quantity);
      }
    }

    /** The rest of an upsert of a live id: the old quantity leaves its level before the new one is checked. */
    method Requote(id: Word, o: Packed, side: Side, price: Word, quantity: Word) returns (ok: bool)
      requires PartsValid() && id != 0 && quantity != 0 && id in index.contents && index.contents[id] == o
      modifies Repr()
      ensures PartsValid()
      ensures old(Valid()) ==>
                (ok <==> CanAdd(old(View()) - {id}, id, side, price, quantity) && InLadder(ladders.minimum, price))
      ensures old(Valid()) && ok ==> Valid() && View() == old(View())[id := Order(side, price, quantity)]
      ensures old(Valid()) && !ok ==> !Valid()
    {
      hide LevelSum, Unpacked, Books, FixedOrderIndex.Valid, LadderPair.Valid, LadderPair.BidLevels;
      hide LadderPair.AskLevels, Priced, Make, Raised, Lowered;
      ghost var sound := Valid();
      ghost var c, b, a, m := index.contents, ladders.BidLevels(), ladders.AskLevels(), ladders.minimum;
      ghost var order := Order(side, price, quantity);
      if sound {
        BooksRemove(c, b, a, live, m, id);
        BooksAtLevel(c, b, a, live, m, side, price);
      }
      var p := Priced(ladders.minimum, o);
      ok := ladders.SubtractLevel(p.side, p.price, o.quantity);
      if !ok {
        return;
      }
      ghost var b', a' := ladders.BidLevels(), ladders.AskLevels();
      if sound { BooksAtLevel(c - {id}, b', a', live - 1, m, side, price); }
      assert Unpacked(c - {id}, m) == old(View()) - {id} by { OrdersRemove(c, m, id); }
      ok := ladders.AddLevel(side, price, quantity);
      if ok {
        if sound { BooksAdd(c - {id}, b', a', live - 1, m, id, order); }
        var record := Make(side, ladders.Offset(price).value, quantity);
        index.Assign(id, record);
        assert (c - {id})[id := record] == index.contents;
        assert index.Valid() && ladders.Valid();
        assert PartsValid();
        assert sound ==> View() == old(View())[id := order] by { if sound { OrdersPut(c, m, id, order); } }
      } else if sound {
        LoweredDiffers(b, a, p, m, b', a');
        if Books(c, b', a', live, m) { LaddersDetermined(c, b, a, b', a', live, m); }
      }
    }

    /** Accepts exactly the contract's events that fit the ladder and the index, with exactly their
        effect; a rejected event leaves the book consistent exactly when it is not a corrupting one.
        Index and ladders stay intact whatever came before. */
    method Apply(e: Event) returns (ok: bool)
      requires PartsValid()
      modifies Repr()
      ensures PartsValid()
      ensures old(Valid()) ==>
                (ok <==> Accepts(old(View()), e) && Fits(old(View()), e, ladders.minimum, index.maximumLive))
      ensures old(Valid()) && ok ==> Valid() && View() == After(old(View()), e)
      ensures old(Valid()) && !ok ==> (Valid() <==> !Corrupts(old(View()), e, ladders.minimum, index.maximumLive))
      ensures old(Valid()) && !ok && Valid() ==> View() == AfterRejected(old(View()), e)
    {
      hide LevelSum, Unpacked, Books, PartsValid, InLadder;
      match e.kind {
        case Add => ok := Add(e.id, e.side, e.price, e.quantity);
        case Cancel => ok := Reduce(e.id, e.quantity, false);
        case Execute => ok := Reduce(e.id, e.quantity, true);
        case Delete => ok := Remove(e.id);
        case OrderDelete => ok := Remove(e.id);
        case Replace => ok := Replace(e);
        case OrderUpsert => ok := Upsert(e.id, e.side, e.price, e.quantity);
      }
    }

    method Replace(e: Event) returns (ok: bool)
      requires PartsValid() && e.kind == EventType.Replace
      modifies Repr()
      ensures PartsValid()
      ensures old(Valid()) ==>
                (ok <==> Accepts(old(View()), e) && Fits(old(View()), e, ladders.minimum, index.maximumLive))
      ensures old(Valid()) && ok ==> Valid() && View() == After(old(View()), e)
      ensures old(Valid()) && !ok ==> (Valid() <==> !Corrupts(old(View()), e, ladders.minimum, index.maximumLive))
      ensures old(Valid()) && !ok && Valid() ==> View() == AfterRejected(old(View()), e)
    {
      hide LevelSum, Unpacked, Books, PartsValid, InLadder;
      if e.id == e.replacementId {
        return false;
      }
      if Valid() { Room(); }
      ok := Remove(e.id);
      if ok {
        ok := Add(e.replacementId, e.side, e.price, e.quantity);
      }
    }

    lemma InStep(side: Side)
      requires PartsValid()
      ensures Marks(ladders.LadderOf(side).words[..], ladders.LadderOf(side).levels[..])
    {
    }

    lemma Room()
      requires Valid()
      ensures |View()| <= index.maximumLive
    {
      Sizes();
    }

    method Best(side: Side) returns (best: Option<Level>)
      requires Valid()
      ensures IsBest(View(), side, best)
    {
      hide LevelSum, Unpacked, Tallies, NoneZero, OffsetsFit, WellFormed, Holds, Marks, IsBest;
      UnpackedInRange(index.contents, ladders.minimum);
      best := BestOnLadder(ladders.LadderOf(side), View(), side, ladders.minimum);
    }

    method LiveOrderCount() returns (n: nat)
      requires Valid()
      ensures n == |View()|
    {
      Sizes();
      n := live;
    }

    /** The same stream as the reference book's: it depends on the live orders, not on slot history. */
    method StateDigest() returns (h: Word)
      requires Valid()
      ensures h == Fnv(FNV_BASIS, Canonical(View()))
    {
      hide LevelSum, Unpacked, Tallies, NoneZero, OffsetsFit, WellFormed, Holds, Marks;
      hide Fnv, Sorted, Le, SideStream, OrderStream, HashByte;
      ghost var orders := View();
      Sizes();
      UnpackedInRange(index.contents, ladders.minimum);
      h := HashU64(FNV_BASIS, live);
      ghost var x, y, z := Le(live, 8), SideStream(orders, Bid), SideStream(orders, Ask);
      FnvConcat(FNV_BASIS, x, y);
      h := HashLadder(h, ladders.bids, orders, Bid, ladders.minimum);
      FnvConcat(FNV_BASIS, x + y, z);
      h := HashLadder(h, ladders.asks, orders, Ask, ladders.minimum);
      FnvConcat(FNV_BASIS, x + y + z, OrderStream(orders, Sorted(orders.Keys)));
      var entries := index.Entries();
      h := HashEntries(h, entries, index.contents, ladders.minimum);
    }

    /** Every view of the book at once. */
    method Show() returns (v: Views)
      requires Valid()
      ensures Shows(View(), v)
    {
      hide LevelSum, Unpacked, Books, FixedOrderIndex.Valid, LadderPair.Valid, Fnv, Canonical, IsBest;
      var bid := Best(Bid);
      var ask := Best(Ask);
      var live := LiveOrderCount();
      var digest := StateDigest();
      v := Views(bid, ask, live, digest);
    }
  }

  /** None is an exception of the constructor or of the index inside it. */
  method NewBook(maximumLive: Word, minimum: Word, priceCount: nat, mix: Word -> Word) returns (book: Option<OrderBook>)
    requires maximumLive <= HALF_RANGE || maximumLive > U64_MAX / 2
    ensures book.Some? <==> maximumLive <= HALF_RANGE && priceCount == PRICE_COUNT && minimum + PRICE_COUNT <= U64
    ensures book.Some? ==> && book.value.Valid() && fresh(book.value.Repr()) && book.value.View() == map[]
                           && book.value.index.maximumLive == maximumLive && book.value.ladders.minimum == minimum
  {
    if maximumLive > U64_MAX / 2 || priceCount != PRICE_COUNT || minimum > U64_MAX - (PRICE_COUNT - 1) {
      return None;
    }
    var b := new OrderBook(maximumLive, minimum, mix);
    book := Some(b);
  }

  /** Both kinds of corrupting event exist: an overflowing add, and an upsert of a live order to a
      price off the ladder, which specs/packed_order_record_v6.md asks to be refused before mutation. */
  lemma CorruptingEventsExist()
    ensures Consistent(map[1 := Order(Bid, 100, U64_MAX)])
    ensures Corrupts(map[1 := Order(Bid, 100, U64_MAX)], Event(Add, 2, 0, Bid, 100, 1), 100, 4)
    ensures Consistent(map[1 := Order(Bid, 100, 5)])
    ensures Corrupts(map[1 := Order(Bid, 100, 5)], Event(OrderUpsert, 1, 0, Bid, 99, 5), 100, 4)
  {
    hide LevelSum;
    SingleOrder(Order(Bid, 100, U64_MAX));
    SingleOrder(Order(Bid, 100, 5));
  }

  /** A new v6 book after one accepted add and one rejected event, an overflowing add or an upsert to a
      price below the ladder, is no longer consistent. */
  method CorruptedBook(offLadder: bool, mix: Word -> Word) returns (book: OrderBook)
    ensures fresh(book.Repr()) && book.PartsValid() && !book.Valid()
  {
    hide LevelSum, OrderBook.Valid, OrderBook.PartsValid, OrderBook.Repr, OrderBook.View;
    book := new OrderBook(4, 100, mix);
    var quantity := if offLadder then 5 else U64_MAX;
    var ok := book.Apply(Event(Add, 1, 0, Bid, 100, quantity));
    assert CanAdd(map[], 1, Bid, 100, quantity) by { NothingQuoted(Bid, 100); }
    assert book.View() == map[1 := Order(Bid, 100, quantity)];
    CorruptingEventsExist();
    ok := book.Apply(if offLadder then Event(OrderUpsert, 1, 0, Bid, 99, 5) else Event(Add, 2, 0, Bid, 100, 1));
  }

  /** Every run of events whatsoever, corrupting ones included, leaves index and ladders intact: on both sides a
      price is marked in the bitmap exactly when its level is nonzero. */
  method ApplyAny(book: OrderBook, events: seq<Event>) returns (accepted: seq<bool>)
    requires book.PartsValid()
    modifies book.Repr()
    ensures book.PartsValid() && |accepted| == |events|
    ensures forall side :: Marks(book.ladders.LadderOf(side).words[..], book.ladders.LadderOf(side).levels[..])
  {
    hide OrderBook.PartsValid, OrderBook.Valid;
    accepted := [];
    for i := 0 to |events|
      invariant book.PartsValid() && |accepted| == i
    {
      var ok := book.Apply(events[i]);
      accepted := accepted + [ok];
    }
    forall side ensures Marks(book.ladders.LadderOf(side).words[..], book.ladders.LadderOf(side).levels[..]) {
      book.InStep(side);
    }
  }

  /** Two books with the same live orders show the same. */
  method Compare(fast: OrderBook, slow: ReferenceBook.OrderBook) returns (fastView: Views, slowView: Views)
    requires fast.Valid() && slow.Valid() && slow.orders == fast.View()
    ensures fastView == slowView && Shows(slow.orders, fastView)
  {
    hide Shows, Books, FixedOrderIndex.Valid, LadderPair.Valid, ReferenceBook.OrderBook.Valid;
    fastView := fast.Show();
    slowView := slow.Show();
    ShowsOneView(slow.orders, fastView, slowView);
  }

  /** Feeds both books until v6 rejects an event. After each accepted event both show the same, which is
      what the contract's run up to there has to show. */
  method Lockstep(fast: OrderBook, slow: ReferenceBook.OrderBook, events: seq<Event>)
    returns (accepted: nat, fastViews: seq<Views>, slowViews: seq<Views>)
    requires fast.Valid() && slow.Valid() && slow.orders == fast.View()
    modifies fast.Repr(), slow
    ensures fastViews == slowViews && |fastViews| == accepted <= |events|
    ensures ShowsRun(old(slow.orders), events, fastViews)
    ensures Run(old(slow.orders), events[..accepted]) == Some(slow.orders)
    ensures slow.Valid()
    ensures accepted == |events| ==> fast.Valid() && fast.View() == slow.orders
    ensures accepted < |events| ==>
              var e := events[accepted];
              !(Accepts(slow.orders, e) && Fits(slow.orders, e, fast.ladders.minimum, fast.index.maximumLive))
  {
    hide LevelSum, Unpacked, Books, OrderBook.PartsValid, ReferenceBook.OrderBook.Valid;
    hide Run, Shows, ShownAfter, Accepts, After, Fits, Corrupts, ReferenceBook.UpsertOverflows;
    accepted, fastViews, slowViews := 0, [], [];
    ghost var start := slow.orders;
    assert Run(start, events[..0]) == Some(start) && ShowsRun(start, events, []) by { NothingRun(start, events); }
    while accepted < |events|
      invariant fastViews == slowViews && |fastViews| == accepted <= |events|
      invariant fast.Valid() && slow.Valid() && slow.orders == fast.View()
      invariant Run(start, events[..accepted]) == Some(slow.orders)
      invariant ShowsRun(start, events, fastViews)
    {
      var e := events[accepted];
      var ok := fast.Apply(e);
      if !ok {
        return;
      }
      ok := slow.Apply(e);
      var fastView, slowView := Compare(fast, slow);
      RunOneMore(start, events, accepted, fastView);
      fastViews, slowViews := fastViews + [fastView], slowViews + [slowView];
      accepted := accepted + 1;
    }
  }
}
