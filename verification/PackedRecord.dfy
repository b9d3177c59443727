/**
 The 16-byte order record of the v4 and v6 books (side in bit 63, price offset below it),
 and what it means for a table of such records and a ladder to describe a set of live orders.
 */
module PackedRecord {
  import opened Words
  import opened L3
  import opened BitmapLadder

  datatype Packed = Packed(sideAndOffset: Word, quantity: Word)

  const ASK_BIT: Word := 0x8000_0000_0000_0000

  function Make(side: Side, offset: Word, quantity: Word): Packed {
    OrFits64(offset, if side == Ask then ASK_BIT else 0);
    Packed(Or(offset, if side == Ask then ASK_BIT else 0), quantity)
  }

  function SideOf(p: Packed): Side {
    if And(p.sideAndOffset, ASK_BIT) != 0 then Ask else Bid
  }

  function OffsetOf(p: Packed): (o: Word)
  {
    AndFits(p.sideAndOffset, Not(ASK_BIT, 64));
    And(p.sideAndOffset, Not(ASK_BIT, 64))
  }

  lemma OrFits64(x: Word, y: Word)
    ensures Or(x, y) < U64
  {
    Pow2Is32And64();
    OrFits(x, y, 64);
  }

  lemma AskBitIsPow2()
    ensures Pow2(63) == ASK_BIT
  {
    Pow2Is32And64();
    assert Pow2(64) == 2 * Pow2(63);
  }

  /** Masking with a single bit is nonzero exactly when that bit is set. */
  lemma SingleBitTest(x: nat, k: nat)
    ensures And(x, Pow2(k)) != 0 <==> Bit(x, k)
  {
    hide And, Pow2;
    BitOfAnd(x, Pow2(k), k);
    BitOfPow2(k, k);
    ZeroHasNoBits(k);
    if !Bit(x, k) {
      forall i: nat ensures Bit(And(x, Pow2(k)), i) == Bit(0, i) {
        BitOfAnd(x, Pow2(k), i);
        BitOfPow2(k, i);
        ZeroHasNoBits(i);
      }
      SameBits(And(x, Pow2(k)), 0);
    }
  }

  lemma OffsetSurvives(offset: Word, high: Word)
    requires offset < ASK_BIT && (high == 0 || high == ASK_BIT)
    ensures And(Or(offset, high), Not(ASK_BIT, 64)) == offset
  {
    hide And, Or, Not, Pow2, Bit;
    AskBitIsPow2();
    Pow2Is32And64();
    var packed, mask := Or(offset, high), Not(ASK_BIT, 64);
    NotFits(ASK_BIT, 64);
    forall i: nat ensures Bit(And(packed, mask), i) == Bit(offset, i) {
      BitOfAnd(packed, mask, i);
      BitOfOr(offset, high, i);
      BitOfPow2(63, i);
      ZeroHasNoBits(i);
      if i < 64 { BitOfNot(ASK_BIT, 64, i); } else { NoBitsAbove(mask, 64, i); }
      if i >= 63 { NoBitsAbove(offset, 63, i); }
    }
    SameBits(And(packed, mask), offset);
  }

  /** Packing loses nothing as long as the offset leaves bit 63 free. */
  lemma RoundTrip(side: Side, offset: Word, quantity: Word)
    requires offset < ASK_BIT
    ensures var p := Make(side, offset, quantity);
            SideOf(p) == side && OffsetOf(p) == offset && p.quantity == quantity
  {
    hide And, Or, Not, Pow2, Bit;
    AskBitIsPow2();
    var high := if side == Ask then ASK_BIT else 0;
    OffsetSurvives(offset, high);
    SingleBitTest(Or(offset, high), 63);
    BitOfOr(offset, high, 63);
    BitOfPow2(63, 63);
    ZeroHasNoBits(63);
    NoBitsAbove(offset, 63, 63);
  }

  // ----- a table of records and two ladders as a book

  ghost predicate InLadder(minimum: Word, price: Word) {
    minimum <= price < minimum + PRICE_COUNT
  }

  /** What the 256-price books accept beyond the contract's own conditions: a ladder price and room for a new id. */
  ghost predicate Fits(orders: Orders, e: Event, minimum: Word, room: nat) {
    && (e.kind in {EventType.Add, EventType.Replace, EventType.OrderUpsert} ==> InLadder(minimum, e.price))
    && (e.kind == EventType.Add || (e.kind == EventType.OrderUpsert && e.id !in orders) ==> |orders| < room)
  }

  /** The ladder covers exactly the 256 prices from its minimum on. */
  lemma LadderCovers(minimum: Word, price: Word)
    ensures InLadder(minimum, price) <==> minimum <= price && price - minimum <= 255
  {
  }

  function Priced(minimum: Word, p: Packed): Order {
    Order(SideOf(p), (minimum + OffsetOf(p)) % U64, p.quantity)
  }

  /** The live orders a table of packed records stands for. */
  function Unpacked(contents: map<Word, Packed>, minimum: Word): Orders {
    map id | id in contents :: Priced(minimum, contents[id])
  }

  ghost predicate OffsetsFit(contents: map<Word, Packed>) {
    forall id :: id in contents ==> OffsetOf(contents[id]) < PRICE_COUNT
  }

  /** Each ladder entry is the sum of the live orders at its price. */
  ghost predicate Tallies(levels: seq<Word>, orders: Orders, side: Side, minimum: Word) {
    && |levels| == PRICE_COUNT && minimum + PRICE_COUNT <= U64
    && forall i :: 0 <= i < PRICE_COUNT ==> levels[i] == LevelSum(orders, side, minimum + i)
  }

  ghost predicate InRange(orders: Orders, minimum: Word) {
    forall id :: id in orders ==> InLadder(minimum, orders[id].price)
  }

  lemma PricedMake(minimum: Word, o: Order)
    requires InLadder(minimum, o.price) && minimum + PRICE_COUNT <= U64
    ensures var p := Make(o.side, o.price - minimum, o.quantity);
            Priced(minimum, p) == o && OffsetOf(p) < PRICE_COUNT
  {
    hide Make, SideOf, OffsetOf;
    RoundTrip(o.side, o.price - minimum, o.quantity);
  }

  lemma UnpackedInRange(contents: map<Word, Packed>, minimum: Word)
    requires OffsetsFit(contents) && minimum + PRICE_COUNT <= U64
    ensures InRange(Unpacked(contents, minimum), minimum)
  {
    hide SideOf, OffsetOf;
  }

  lemma OrdersPut(contents: map<Word, Packed>, minimum: Word, id: Word, o: Order)
    requires InLadder(minimum, o.price) && minimum + PRICE_COUNT <= U64
    ensures var p := Make(o.side, o.price - minimum, o.quantity);
            && Unpacked(contents[id := p], minimum) == Unpacked(contents, minimum)[id := o]
            && (OffsetsFit(contents) ==> OffsetsFit(contents[id := p]))
  {
    hide Make, OffsetOf, Priced;
    PricedMake(minimum, o);
  }

  lemma OrdersRemove(contents: map<Word, Packed>, minimum: Word, id: Word)
    ensures Unpacked(contents - {id}, minimum) == Unpacked(contents, minimum) - {id}
    ensures OffsetsFit(contents) ==> OffsetsFit(contents - {id})
  {
    hide SideOf, OffsetOf;
  }

  lemma OrdersReduce(contents: map<Word, Packed>, minimum: Word, id: Word, quantity: Word)
    requires id in contents
    ensures var p := contents[id].(quantity := quantity);
            && Unpacked(contents[id := p], minimum)
                == Unpacked(contents, minimum)[id := Priced(minimum, contents[id]).(quantity := quantity)]
            && (OffsetsFit(contents) ==> OffsetsFit(contents[id := p]))
  {
    hide SideOf, OffsetOf;
    SameFields(contents[id].(quantity := quantity), contents[id]);
  }

  lemma SameFields(p: Packed, q: Packed)
    requires p.sideAndOffset == q.sideAndOffset
    ensures SideOf(p) == SideOf(q) && OffsetOf(p) == OffsetOf(q)
  {
  }

  lemma SameSize(contents: map<Word, Packed>, minimum: Word)
    ensures |Unpacked(contents, minimum)| == |contents|
  {
    assert Unpacked(contents, minimum).Keys == contents.Keys;
    assert |contents| == |contents.Keys| && |Unpacked(contents, minimum)| == |Unpacked(contents, minimum).Keys|;
  }

  // ----- ladder entries under book operations

  lemma TallyPut(levels: seq<Word>, orders: Orders, side: Side, minimum: Word, id: Word, o: Order)
    requires Tallies(levels, orders, side, minimum) && id !in orders && InLadder(minimum, o.price)
    requires o.side == side ==> levels[o.price - minimum] + o.quantity < U64
    ensures Tallies(if o.side == side then levels[o.price - minimum := levels[o.price - minimum] + o.quantity]
              else levels,
                    orders[id := o], side, minimum)
  {
    hide LevelSum;
    forall p: Word {
      SumAdds(orders, id, o, side, p);
    }
  }

  lemma TallyTake(levels: seq<Word>, orders: Orders, side: Side, minimum: Word, id: Word, quantity: Word)
    requires Tallies(levels, orders, side, minimum) && id in orders && InLadder(minimum, orders[id].price)
    requires 0 < quantity <= orders[id].quantity
    ensures orders[id].side == side ==> quantity <= levels[orders[id].price - minimum]
    ensures var o := orders[id];
            Tallies(if o.side == side then levels[o.price - minimum := levels[o.price - minimum] - quantity]
                else levels,
                    Reduced(orders, id, quantity), side, minimum)
  {
    hide LevelSum;
    var o := orders[id];
    SumSplits(orders, id, side, o.price);
    assert levels[o.price - minimum] == LevelSum(orders, side, minimum + (o.price - minimum));
    forall p: Word
      ensures LevelSum(Reduced(orders, id, quantity), side, p) + Share(o.(quantity := quantity), side, p)
                == LevelSum(orders, side, p)
    {
      SumSplits(orders, id, side, p);
      SumReplaces(orders, id, o.(quantity := o.quantity - quantity), side, p);
    }
  }

  /** A ladder entry is nonzero exactly when its price is quoted, and nothing is quoted off the ladder. */
  lemma TallyQuoted(levels: seq<Word>, orders: Orders, side: Side, minimum: Word)
    requires Tallies(levels, orders, side, minimum) && NoneZero(orders) && InRange(orders, minimum)
    ensures forall i :: 0 <= i < PRICE_COUNT ==> (levels[i] != 0 <==> Quoted(orders, side, minimum + i))
    ensures forall p: Word :: Quoted(orders, side, p) ==> InLadder(minimum, p)
  {
    hide LevelSum, Quoted;
    forall i | 0 <= i < PRICE_COUNT ensures levels[i] != 0 <==> Quoted(orders, side, minimum + i) {
      SumIsPositive(orders, side, minimum + i);
    }
    forall p: Word | Quoted(orders, side, p) ensures InLadder(minimum, p) {
      QuotedInRange(orders, side, minimum, p);
    }
  }

  lemma QuotedInRange(orders: Orders, side: Side, minimum: Word, p: Word)
    requires InRange(orders, minimum) && Quoted(orders, side, p)
    ensures InLadder(minimum, p)
  {
  }

  lemma TalliesFit(bids: seq<Word>, asks: seq<Word>, orders: Orders, minimum: Word)
    requires Tallies(bids, orders, Bid, minimum) && Tallies(asks, orders, Ask, minimum)
    requires NoneZero(orders) && InRange(orders, minimum)
    ensures Consistent(orders)
  {
    hide LevelSum, Quoted;
    forall side, price: Word ensures LevelSum(orders, side, price) < U64 {
      SumIsPositive(orders, side, price);
      if InLadder(minimum, price) {
        var levels := if side == Bid then bids else asks;
        assert levels[price - minimum] == LevelSum(orders, side, minimum + (price - minimum));
      } else if Quoted(orders, side, price) {
        QuotedInRange(orders, side, minimum, price);
      }
    }
  }

  // ----- the state of a ladder book

  /** The records, both ladders and the live counter all describe the same live orders. */
  ghost predicate Books(contents: map<Word, Packed>, bids: seq<Word>, asks: seq<Word>, live: nat, minimum: Word) {
    && OffsetsFit(contents)
    && NoneZero(Unpacked(contents, minimum))
    && live == |contents|
    && Tallies(bids, Unpacked(contents, minimum), Bid, minimum)
    && Tallies(asks, Unpacked(contents, minimum), Ask, minimum)
  }

  function Pick<T>(side: Side, bids: T, asks: T): T {
    if side == Bid then bids else asks
  }

  /** `levels` with `quantity` added at `price`, when the price is on this side. */
  function Raised(levels: seq<Word>, here: bool, minimum: Word, price: Word, quantity: Word): (r: seq<Word>)
    requires |levels| == PRICE_COUNT
    requires here ==> minimum <= price < minimum + PRICE_COUNT && levels[price - minimum] + quantity < U64
  {
    if here then levels[price - minimum := levels[price - minimum] + quantity] else levels
  }

  function Lowered(levels: seq<Word>, here: bool, minimum: Word, price: Word, quantity: Word): (r: seq<Word>)
    requires |levels| == PRICE_COUNT
    requires here ==> minimum <= price < minimum + PRICE_COUNT && quantity <= levels[price - minimum]
  {
    if here then levels[price - minimum := levels[price - minimum] - quantity] else levels
  }

  lemma EmptyBooks(bids: seq<Word>, asks: seq<Word>, minimum: Word)
    requires minimum + PRICE_COUNT <= U64 && |bids| == |asks| == PRICE_COUNT
    requires forall i :: 0 <= i < PRICE_COUNT ==> bids[i] == 0 && asks[i] == 0
    ensures Books(map[], bids, asks, 0, minimum) && Unpacked(map[], minimum) == map[]
  {
    assert Unpacked(map[], minimum) == map[];
  }

  lemma BooksAtLevel(contents: map<Word, Packed>, bids: seq<Word>, asks: seq<Word>, live: nat, minimum: Word,
      side: Side, price: Word)
    requires Books(contents, bids, asks, live, minimum)
    ensures |bids| == |asks| == PRICE_COUNT && minimum + PRICE_COUNT <= U64
    ensures InLadder(minimum, price) ==>
              Pick(side, bids, asks)[price - minimum] == LevelSum(Unpacked(contents, minimum), side, price)
  {
    hide LevelSum, Unpacked, NoneZero, OffsetsFit;
    assert price == minimum + (price - minimum);
  }

  /** The records determine both ladders. */
  lemma LaddersDetermined(contents: map<Word, Packed>, bids: seq<Word>, asks: seq<Word>, bids': seq<Word>,
      asks': seq<Word>, live: nat, minimum: Word)
    requires Books(contents, bids, asks, live, minimum) && Books(contents, bids', asks', live, minimum)
    ensures bids == bids' && asks == asks'
  {
    hide LevelSum, Unpacked, NoneZero, OffsetsFit;
  }

  /** Every level of a book in order is representable and no live order is zero. */
  lemma BooksAreConsistent(contents: map<Word, Packed>, bids: seq<Word>, asks: seq<Word>, live: nat, minimum: Word)
    requires Books(contents, bids, asks, live, minimum)
    ensures Consistent(Unpacked(contents, minimum)) && InRange(Unpacked(contents, minimum), minimum)
    ensures |Unpacked(contents, minimum)| == live
  {
    hide Consistent, InRange, LevelSum, Unpacked;
    UnpackedInRange(contents, minimum);
    SameSize(contents, minimum);
    TalliesFit(bids, asks, Unpacked(contents, minimum), minimum);
  }

  lemma BooksAdd(contents: map<Word, Packed>, bids: seq<Word>, asks: seq<Word>, live: nat, minimum: Word,
      id: Word, o: Order)
    requires Books(contents, bids, asks, live, minimum)
    requires id != 0 && id !in contents && o.quantity != 0 && InLadder(minimum, o.price)
    requires |bids| == |asks| == PRICE_COUNT
    requires Pick(o.side, bids, asks)[o.price - minimum] + o.quantity < U64
    ensures Books(contents[id := Make(o.side, o.price - minimum, o.quantity)],
                  Raised(bids, o.side == Bid, minimum, o.price, o.quantity),
                  Raised(asks, o.side == Ask, minimum, o.price, o.quantity), live + 1, minimum)
  {
    hide LevelSum, Unpacked, OffsetsFit, Tallies;
    TalliesBound(bids, Unpacked(contents, minimum), Bid, minimum);
    OrdersPut(contents, minimum, id, o);
    UnpackedKeys(contents, minimum);
    TallyPut(bids, Unpacked(contents, minimum), Bid, minimum, id, o);
    TallyPut(asks, Unpacked(contents, minimum), Ask, minimum, id, o);
  }

  lemma TalliesBound(levels: seq<Word>, orders: Orders, side: Side, minimum: Word)
    requires Tallies(levels, orders, side, minimum)
    ensures minimum + PRICE_COUNT <= U64 && |levels| == PRICE_COUNT
  {
  }

  lemma UnpackedKeys(contents: map<Word, Packed>, minimum: Word)
    ensures Unpacked(contents, minimum).Keys == contents.Keys
    ensures forall id :: id in contents ==> Unpacked(contents, minimum)[id] == Priced(minimum, contents[id])
  {
  }

  lemma Quantities(contents: map<Word, Packed>, minimum: Word)
    ensures Unpacked(contents, minimum).Keys == contents.Keys
    ensures forall id :: id in contents ==> Unpacked(contents, minimum)[id].quantity == contents[id].quantity
  {
  }

  /** Taking `quantity` from a live order: all of it removes the record, less shortens it. */
  function Shortened(contents: map<Word, Packed>, id: Word, quantity: Word): map<Word, Packed>
    requires id in contents && quantity <= contents[id].quantity
  {
    var p := contents[id];
    if quantity == p.quantity then contents - {id} else contents[id := p.(quantity := p.quantity - quantity)]
  }

  lemma ShortenedUnpacks(contents: map<Word, Packed>, minimum: Word, id: Word, quantity: Word)
    requires id in contents && 0 < quantity <= contents[id].quantity
    requires OffsetsFit(contents) && NoneZero(Unpacked(contents, minimum))
    ensures var c := Shortened(contents, id, quantity);
            && OffsetsFit(c) && NoneZero(Unpacked(c, minimum))
            && Unpacked(c, minimum) == Reduced(Unpacked(contents, minimum), id, quantity)
            && |c| == if quantity == contents[id].quantity then |contents| - 1 else |contents|
  {
    hide Unpacked, OffsetsFit, SideOf, OffsetOf;
    UnpackedKeys(contents, minimum);
    if quantity == contents[id].quantity {
      OrdersRemove(contents, minimum, id);
    } else {
      OrdersReduce(contents, minimum, id, contents[id].quantity - quantity);
    }
  }

  lemma ShortenedBooks(contents: map<Word, Packed>, bids: seq<Word>, asks: seq<Word>, live: nat, minimum: Word,
      id: Word, quantity: Word)
    requires Books(contents, bids, asks, live, minimum)
    requires id in contents && 0 < quantity <= contents[id].quantity
    ensures Unpacked(Shortened(contents, id, quantity), minimum) == Reduced(Unpacked(contents, minimum), id, quantity)
  {
    hide Tallies, Unpacked, OffsetsFit, Shortened, Reduced;
    ShortenedUnpacks(contents, minimum, id, quantity);
  }

  /** The live counter of a consistent book counts its records. */
  lemma BooksCounts(contents: map<Word, Packed>, bids: seq<Word>, asks: seq<Word>, live: nat, minimum: Word)
    ensures Books(contents, bids, asks, live, minimum) ==> live == |contents|
  {
  }

  /** A record more than the live counter knows of is a corrupt book. */
  lemma OneTooMany(contents: map<Word, Packed>, bids: seq<Word>, asks: seq<Word>, live: nat, minimum: Word,
      id: Word, p: Packed)
    requires Books(contents, bids, asks, live, minimum) && id !in contents
    ensures !Books(contents[id := p], bids, asks, live, minimum)
  {
    BooksCounts(contents, bids, asks, live, minimum);
    BooksCounts(contents[id := p], bids, asks, live, minimum);
    hide Books;
  }

  lemma RecordInLadder(contents: map<Word, Packed>, bids: seq<Word>, asks: seq<Word>, live: nat, minimum: Word,
      id: Word)
    requires Books(contents, bids, asks, live, minimum) && id in contents
    ensures |bids| == |asks| == PRICE_COUNT && live > 0
    ensures var o := Priced(minimum, contents[id]);
            && InLadder(minimum, o.price) && o.quantity == contents[id].quantity
            && 0 < o.quantity <= Pick(o.side, bids, asks)[o.price - minimum]
  {
    hide LevelSum, Unpacked, OffsetsFit, SideOf, OffsetOf;
    var orders, o := Unpacked(contents, minimum), Priced(minimum, contents[id]);
    UnpackedKeys(contents, minimum);
    UnpackedInRange(contents, minimum);
    SumSplits(orders, id, o.side, minimum + (o.price - minimum));
  }

  lemma BooksTake(contents: map<Word, Packed>, bids: seq<Word>, asks: seq<Word>, live: nat, minimum: Word,
      id: Word, quantity: Word)
    requires Books(contents, bids, asks, live, minimum)
    requires |bids| == |asks| == PRICE_COUNT
    requires id in contents && 0 < quantity <= contents[id].quantity
    requires var o := Priced(minimum, contents[id]);
             InLadder(minimum, o.price) && quantity <= Pick(o.side, bids, asks)[o.price - minimum]
    ensures var o := Priced(minimum, contents[id]);
            Books(Shortened(contents, id, quantity),
                  Lowered(bids, o.side == Bid, minimum, o.price, quantity),
                  Lowered(asks, o.side == Ask, minimum, o.price, quantity),
                  if quantity == o.quantity then live - 1 else live, minimum)
  {
    hide LevelSum, Unpacked, OffsetsFit, Tallies, Shortened, Reduced, SideOf, OffsetOf;
    UnpackedKeys(contents, minimum);
    ShortenedUnpacks(contents, minimum, id, quantity);
    TallyTake(bids, Unpacked(contents, minimum), Bid, minimum, id, quantity);
    TallyTake(asks, Unpacked(contents, minimum), Ask, minimum, id, quantity);
  }

  lemma BooksRemove(contents: map<Word, Packed>, bids: seq<Word>, asks: seq<Word>, live: nat, minimum: Word, id: Word)
    requires Books(contents, bids, asks, live, minimum) && id in contents
    ensures |bids| == |asks| == PRICE_COUNT && live > 0
    ensures var o := Priced(minimum, contents[id]);
            && InLadder(minimum, o.price) && o.quantity == contents[id].quantity
            && 0 < o.quantity <= Pick(o.side, bids, asks)[o.price - minimum]
            && Books(contents - {id},
                     Lowered(bids, o.side == Bid, minimum, o.price, o.quantity),
                     Lowered(asks, o.side == Ask, minimum, o.price, o.quantity), live - 1, minimum)
  {
    RecordInLadder(contents, bids, asks, live, minimum, id);
    hide Books, Lowered, Priced;
    BooksTake(contents, bids, asks, live, minimum, id, contents[id].quantity);
  }

  lemma LoweredDiffers(b: seq<Word>, a: seq<Word>, o: Order, minimum: Word, b': seq<Word>, a': seq<Word>)
    requires |b| == |a| == PRICE_COUNT && InLadder(minimum, o.price)
    requires 0 < o.quantity <= Pick(o.side, b, a)[o.price - minimum]
    requires b' == Lowered(b, o.side == Bid, minimum, o.price, o.quantity)
    requires a' == Lowered(a, o.side == Ask, minimum, o.price, o.quantity)
    ensures b' != b || a' != a
  {
    assert Pick(o.side, b', a')[o.price - minimum] != Pick(o.side, b, a)[o.price - minimum];
  }
}
