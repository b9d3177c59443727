/** What the v4 and v6 books share: the pair of ladders they update, and the views read off them. */
module Ladders {
  import opened Words
  import opened Bytes
  import opened L3
  import opened Digest
  import opened BitmapLadder
  import opened PackedRecord

  /** One bitmap ladder per side, over the prices from `minimum` on. */
  class LadderPair {
    const bids: Ladder
    const asks: Ladder
    const minimum: Word

    ghost function Repr(): set<object> {
      {bids.levels, bids.words, asks.levels, asks.words}
    }

    ghost predicate Valid()
      reads Repr()
    {
      && bids.levels != asks.levels && bids.levels != asks.words && bids.words != asks.levels
          && bids.words != asks.words
      && bids.Valid() && asks.Valid() && minimum + PRICE_COUNT <= U64
    }

    ghost function BidLevels(): (s: seq<Word>)
      reads bids.levels
    {
      bids.levels[..]
    }

    ghost function AskLevels(): (s: seq<Word>)
      reads asks.levels
    {
      asks.levels[..]
    }

    constructor (minimum: Word)
      requires minimum + PRICE_COUNT <= U64
      ensures Valid() && fresh(Repr()) && this.minimum == minimum
      ensures |BidLevels()| == |AskLevels()| == PRICE_COUNT
      ensures forall i :: 0 <= i < PRICE_COUNT ==> BidLevels()[i] == 0 && AskLevels()[i] == 0
    {
      bids := new Ladder();
      asks := new Ladder();
      this.minimum := minimum;
    }

    function LadderOf(side: Side): Ladder {
      if side == Bid then bids else asks
    }

    /** None is the out-of-range exception. */
    function Offset(price: Word): (o: Option<nat>)
      ensures o.Some? <==> InLadder(minimum, price)
      ensures o.Some? ==> o.value == price - minimum
    {
      if price < minimum || price - minimum >= PRICE_COUNT then None else Some(price - minimum)
    }

    method AddLevel(side: Side, price: Word, quantity: Word) returns (ok: bool)
      requires Valid() && quantity != 0
      modifies Repr()
      ensures Valid() && |BidLevels()| == |AskLevels()| == PRICE_COUNT
      ensures ok <==> && InLadder(minimum, price)
                      && Pick(side, old(BidLevels()), old(AskLevels()))[price - minimum] + quantity < U64
      ensures ok ==> BidLevels() == Raised(old(BidLevels()), side == Bid, minimum, price, quantity)
      ensures ok ==> AskLevels() == Raised(old(AskLevels()), side == Ask, minimum, price, quantity)
      ensures !ok ==> BidLevels() == old(BidLevels()) && AskLevels() == old(AskLevels())
    {
      hide Bit;
      var o := Offset(price);
      if o.None? {
        return false;
      }
      ok := LadderOf(side).AddLevel(o.value, quantity);
    }

    method SubtractLevel(side: Side, price: Word, quantity: Word) returns (ok: bool)
      requires Valid()
      modifies Repr()
      ensures Valid() && |BidLevels()| == |AskLevels()| == PRICE_COUNT
      ensures ok <==> && InLadder(minimum, price)
                      && 0 < quantity <= Pick(side, old(BidLevels()), old(AskLevels()))[price - minimum]
      ensures ok ==> BidLevels() == Lowered(old(BidLevels()), side == Bid, minimum, price, quantity)
      ensures ok ==> AskLevels() == Lowered(old(AskLevels()), side == Ask, minimum, price, quantity)
      ensures !ok ==> BidLevels() == old(BidLevels()) && AskLevels() == old(AskLevels())
    {
      hide Bit;
      var o := Offset(price);
      if o.None? {
        return false;
      }
      ok := LadderOf(side).SubtractLevel(o.value, quantity);
    }
  }

  method BestOnLadder(ladder: Ladder, ghost orders: Orders, side: Side, minimum: Word) returns (best: Option<Level>)
    requires ladder.Valid() && Tallies(ladder.levels[..], orders, side, minimum)
    requires NoneZero(orders) && InRange(orders, minimum)
    ensures IsBest(orders, side, best)
  {
    hide LevelSum, Quoted, NoneZero, InRange, Bit;
    TallyQuoted(ladder.levels[..], orders, side, minimum);
    ghost var levels := ladder.levels[..];
    var i: nat;
    if side == Bid {
      i := ladder.Highest();
    } else {
      i := ladder.Lowest();
    }
    forall p: Word | Quoted(orders, side, p)
      ensures InLadder(minimum, p) && i < PRICE_COUNT && !Better(side, p, minimum + i)
    {
      assert levels[p - minimum] != 0 <==> Quoted(orders, side, minimum + (p - minimum));
    }
    if i == PRICE_COUNT {
      return None;
    }
    assert levels[i] == LevelSum(orders, side, minimum + i);
    best := Some(Level(minimum + i, ladder.levels[i]));
  }

  /** Prices of the nonzero levels among the first `k`, ascending. */
  ghost function Marked(levels: seq<Word>, minimum: Word, k: nat): seq<Word>
    requires k <= |levels| && minimum + |levels| <= U64
  {
    if k == 0 then []
    else if levels[k - 1] == 0 then Marked(levels, minimum, k - 1)
    else Marked(levels, minimum, k - 1) + [minimum + (k - 1)]
  }

  lemma {:induction false} MarkedAscends(levels: seq<Word>, minimum: Word, k: nat)
    requires k <= |levels| && minimum + |levels| <= U64
    ensures Ascending(Marked(levels, minimum, k))
    ensures forall i :: 0 <= i < |Marked(levels, minimum, k)| ==> Marked(levels, minimum, k)[i] < minimum + k
  {
    if k == 0 {
    } else {
      MarkedAscends(levels, minimum, k - 1);
    }
  }

  lemma {:induction false} MarkedMember(levels: seq<Word>, minimum: Word, k: nat, p: Word)
    requires k <= |levels| && minimum + |levels| <= U64
    ensures p in Marked(levels, minimum, k) <==> minimum <= p < minimum + k && levels[p - minimum] != 0
  {
    if k == 0 {
    } else {
      MarkedMember(levels, minimum, k - 1, p);
    }
  }

  lemma MarkedArePrices(levels: seq<Word>, orders: Orders, side: Side, minimum: Word)
    requires Tallies(levels, orders, side, minimum) && NoneZero(orders) && InRange(orders, minimum)
    ensures Marked(levels, minimum, PRICE_COUNT) == Sorted(Prices(orders, side))
    ensures |Marked(levels, minimum, PRICE_COUNT)| == |Prices(orders, side)|
  {
    hide LevelSum, Marked, Sorted, NoneZero, InRange;
    var prices := Marked(levels, minimum, PRICE_COUNT);
    MarkedAscends(levels, minimum, PRICE_COUNT);
    TallyQuoted(levels, orders, side, minimum);
    forall p: Word ensures p in prices <==> p in Prices(orders, side) {
      MarkedMember(levels, minimum, PRICE_COUNT, p);
      assert p in Prices(orders, side) <==> Quoted(orders, side, p);
      if minimum <= p < minimum + PRICE_COUNT {
        assert levels[p - minimum] != 0 <==> Quoted(orders, side, minimum + (p - minimum));
      }
    }
    AscendingIsUnique(prices, Sorted(Prices(orders, side)));
    SortedSize(prices, Prices(orders, side));
  }

  method CountMarked(ladder: Ladder, ghost minimum: Word) returns (n: nat)
    requires ladder.levels.Length == PRICE_COUNT && minimum + PRICE_COUNT <= U64
    ensures n == |Marked(ladder.levels[..], minimum, PRICE_COUNT)|
  {
    n := 0;
    for i := 0 to PRICE_COUNT
      invariant n == |Marked(ladder.levels[..], minimum, i)|
    {
      if ladder.levels[i] != 0 {
        n := n + 1;
      }
    }
  }

  method HashLadder(h: Word, ladder: Ladder, ghost orders: Orders, side: Side, minimum: Word) returns (r: Word)
    requires ladder.Valid() && Tallies(ladder.levels[..], orders, side, minimum)
    requires NoneZero(orders) && InRange(orders, minimum)
    ensures r == Fnv(h, SideStream(orders, side))
  {
    hide LevelSum, Fnv, Le, Sorted, HashByte, NoneZero, InRange, LevelStream;
    ghost var levels := ladder.levels[..];
    MarkedArePrices(levels, orders, side, minimum);
    var n := CountMarked(ladder, minimum);
    r := HashU64(h, n);
    ghost var head := Le(n, 8);
    ghost var sum := LevelStream(orders, side, []);
    EmptyLevelStream(orders, side);
    assert head + [] == head;
    for i := 0 to PRICE_COUNT
      invariant sum == LevelStream(orders, side, Marked(levels, minimum, i))
      invariant r == Fnv(h, head + sum)
    {
      if ladder.levels[i] != 0 {
        ghost var entry := Le(minimum + i, 8) + Le(levels[i], 8);
        LevelStreamSnoc(orders, side, Marked(levels, minimum, i), minimum + i);
        assert levels[i] == LevelSum(orders, side, minimum + i);
        FnvConcat(h, head + sum, entry);
        r := HashLevel(r, minimum + i, ladder.levels[i]);
        assert (head + sum) + entry == head + (sum + entry);
        sum := sum + entry;
      }
    }
  }

  lemma EmptyLevelStream(orders: Orders, side: Side)
    ensures LevelStream(orders, side, []) == []
  {
  }

  // ----- records by ascending id

  /** `entries` lists `contents`, each id once. */
  ghost predicate Lists<V>(entries: seq<(Word, V)>, contents: map<Word, V>) {
    && (forall i :: 0 <= i < |entries| ==> entries[i].0 in contents && contents[entries[i].0] == entries[i].1)
    && (forall i, j :: 0 <= i < j < |entries| ==> entries[i].0 != entries[j].0)
    && (forall id :: id in contents ==> (id, contents[id]) in entries)
  }

  method SortedIds<V>(entries: seq<(Word, V)>, ghost contents: map<Word, V>) returns (order: seq<Word>)
    requires Lists(entries, contents)
    ensures order == Sorted(contents.Keys)
  {
    hide Sorted, Ascending;
    var ids := seq(|entries|, i requires 0 <= i < |entries| => entries[i].0);
    forall id | id in contents ensures id in ids {
      var i :| 0 <= i < |entries| && entries[i] == (id, contents[id]);
      assert ids[i] == id;
    }
    assert Elements(ids) == contents.Keys;
    order := Sort(ids);
  }

  method Tabulate<V>(entries: seq<(Word, V)>, ghost contents: map<Word, V>) returns (table: map<Word, V>)
    requires Lists(entries, contents)
    ensures table == contents
  {
    table := map[];
    for i := 0 to |entries|
      invariant forall j :: 0 <= j < i ==> entries[j].0 in table
      invariant forall id :: id in table ==> id in contents && table[id] == contents[id]
    {
      table := table[entries[i].0 := entries[i].1];
    }
    forall id | id in contents ensures id in table {
      var i :| 0 <= i < |entries| && entries[i] == (id, contents[id]);
      assert entries[i].0 in table;
    }
  }

  /** std::sort by id. */
  method SortEntries<V>(entries: seq<(Word, V)>, ghost contents: map<Word, V>) returns (sorted: seq<(Word, V)>)
    requires Lists(entries, contents)
    ensures var ids := Sorted(contents.Keys);
            |sorted| == |ids| && forall i :: 0 <= i < |ids| ==>
                ids[i] in contents && sorted[i] == (ids[i], contents[ids[i]])
  {
    hide Sorted, Ascending, Lists;
    var order := SortedIds(entries, contents);
    var table := Tabulate(entries, contents);
    assert forall i :: 0 <= i < |order| ==> order[i] in order;
    sorted := seq(|order|, i requires 0 <= i < |order| => (order[i], table[order[i]]));
  }

  method HashEntries(h: Word, entries: seq<(Word, Packed)>, ghost contents: map<Word, Packed>,
      minimum: Word) returns (r: Word)
    requires Lists(entries, contents)
    ensures var orders := Unpacked(contents, minimum);
            r == Fnv(h, OrderStream(orders, Sorted(orders.Keys)))
  {
    hide Fnv, Sorted, OrderBytes, Lists, Unpacked, SideOf, OffsetOf, HashByte;
    ghost var orders := Unpacked(contents, minimum);
    UnpackedKeys(contents, minimum);
    var sorted := SortEntries(entries, contents);
    ghost var ids := Sorted(contents.Keys);
    r := h;
    FnvEmpty(h);
    for i := 0 to |sorted|
      invariant r == Fnv(h, OrderStream(orders, ids[..i]))
    {
      assert ids[..i + 1][..i] == ids[..i];
      var id, p := sorted[i].0, sorted[i].1;
      FnvConcat(h, OrderStream(orders, ids[..i]), OrderBytes(id, orders[id]));
      r := HashOrder(r, id, Priced(minimum, p));
    }
    assert ids[..|ids|] == ids;
  }
}
