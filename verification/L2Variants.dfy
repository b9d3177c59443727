/** The map and dense forms of the L2 book, and their agreement with the vector form. */
module L2Variants {
  import opened Words
  import opened L2
  import V = L2VectorBook
  import D = Digest

  // ----- ordered maps

  function At(m: map<Word, Word>, price: Word): Word {
    if price in m then m[price] else 0
  }

  ghost predicate NoZeros(m: map<Word, Word>) {
    forall p :: p in m ==> m[p] != 0
  }

  ghost predicate AllNonzero(levels: seq<Level>) {
    forall i :: 0 <= i < |levels| ==> levels[i].quantity != 0
  }

  /** The levels a snapshot loads before it meets an empty one. */
  ghost function BeforeZero(levels: seq<Level>): seq<Level> {
    if levels == [] || levels[0].quantity == 0 then [] else [levels[0]] + BeforeZero(levels[1..])
  }

  lemma {:induction false} StopsAtZero(levels: seq<Level>, k: nat)
    requires k <= |levels| && AllNonzero(levels[..k]) && (k < |levels| ==> levels[k].quantity == 0)
    ensures BeforeZero(levels) == levels[..k]
  {
    if k == 0 {
    } else {
      assert levels[..k][0] == levels[0];
      assert levels[1..][..k - 1] == levels[..k][1..];
      StopsAtZero(levels[1..], k - 1);
      assert levels[..k] == [levels[0]] + levels[1..][..k - 1];
    }
  }

  lemma NothingAt()
    ensures forall p: Word :: QuantityAt([], p) == 0
  {
  }

  lemma WholeSide(levels: seq<Level>)
    requires AllNonzero(levels)
    ensures BeforeZero(levels) == levels
  {
    assert levels[..|levels|] == levels;
    StopsAtZero(levels, |levels|);
  }

  /** What a snapshot leaves on a side, whether it is accepted or not. */
  ghost function LoadedBids(id: Word, bids: seq<Level>): seq<Level> {
    if id == 0 then [] else BeforeZero(bids)
  }

  ghost function LoadedAsks(id: Word, bids: seq<Level>, asks: seq<Level>): seq<Level> {
    if id == 0 || !AllNonzero(bids) then [] else BeforeZero(asks)
  }

  class OrderedMapBook {
    var bids: map<Word, Word>
    var asks: map<Word, Word>
    var updateId: Word
    var valid: bool

    ghost predicate Valid()
      reads this
    {
      NoZeros(bids) && NoZeros(asks)
    }

    function Levels(side: Side): map<Word, Word>
      reads this
    {
      if side == Bid then bids else asks
    }

    constructor ()
      ensures Valid() && !valid && updateId == 0 && bids == asks == map[]
    {
      bids, asks, updateId, valid := map[], map[], 0, false;
    }

    method Load(levels: seq<Level>, side: Side) returns (ok: bool)
      requires Valid() && Levels(side) == map[]
      modifies this`bids, this`asks
      ensures Valid()
      ensures ok <==> AllNonzero(levels)
      ensures forall p: Word :: At(Levels(side), p) == QuantityAt(BeforeZero(levels), p)
      ensures side == Bid ==> asks == old(asks)
      ensures side == Ask ==> bids == old(bids)
    {
      for i := 0 to |levels|
        invariant Valid()
        invariant forall j :: 0 <= j < i ==> levels[j].quantity != 0
        invariant forall p: Word :: At(Levels(side), p) == QuantityAt(levels[..i], p)
        invariant side == Bid ==> asks == old(asks)
        invariant side == Ask ==> bids == old(bids)
      {
        var l := levels[i];
        if l.quantity == 0 {
          StopsAtZero(levels, i);
          return false;
        }
        assert levels[..i + 1][..i] == levels[..i];
        if side == Bid { bids := bids[l.price := l.quantity]; } else { asks := asks[l.price := l.quantity]; }
      }
      assert levels[..|levels|] == levels;
      StopsAtZero(levels, |levels|);
      ok := true;
    }

    method ApplySnapshot(id: Word, newBids: seq<Level>, newAsks: seq<Level>) returns (ok: bool)
      modifies this
      ensures Valid() && valid == ok
      ensures ok <==> id != 0 && AllNonzero(newBids) && AllNonzero(newAsks)
      ensures updateId == if ok then id else old(updateId)
      ensures forall p: Word :: At(bids, p) == QuantityAt(LoadedBids(id, newBids), p)
      ensures forall p: Word :: At(asks, p) == QuantityAt(LoadedAsks(id, newBids, newAsks), p)
      ensures ok ==> LoadedBids(id, newBids) == newBids && LoadedAsks(id, newBids, newAsks) == newAsks
    {
      if AllNonzero(newBids) { WholeSide(newBids); }
      if AllNonzero(newAsks) { WholeSide(newAsks); }
      hide BeforeZero, AllNonzero;
      bids, asks := map[], map[];
      ok := id != 0;
      if ok { ok := Load(newBids, Bid); }
      if ok { ok := Load(newAsks, Ask); }
      if ok { updateId := id; }
      valid := ok;
    }

    /** No check of the changes at all: the last mention of a level wins. */
    method ApplyDelta(id: Word, changes: seq<Change>) returns (ok: bool)
      requires Valid()
      modifies this
      ensures Valid() && valid == ok
      ensures ok <==> old(valid) && id == (old(updateId) + 1) % U64
      ensures updateId == if ok then id else old(updateId)
      ensures !ok ==> bids == old(bids) && asks == old(asks)
      ensures ok ==> forall p: Word :: At(bids, p) == ChangedAt(changes, Bid, p, At(old(bids), p))
      ensures ok ==> forall p: Word :: At(asks, p) == ChangedAt(changes, Ask, p, At(old(asks), p))
    {
      if !valid || id != (updateId + 1) % U64 {
        valid := false;
        return false;
      }
      for i := 0 to |changes|
        invariant Valid() && valid
        invariant forall p: Word :: At(bids, p) == ChangedAt(changes[..i], Bid, p, At(old(bids), p))
        invariant forall p: Word :: At(asks, p) == ChangedAt(changes[..i], Ask, p, At(old(asks), p))
      {
        assert changes[..i + 1][..i] == changes[..i];
        var c := changes[i];
        var m := Levels(c.side);
        m := if c.quantity != 0 then m[c.price := c.quantity] else m - {c.price};
        if c.side == Bid { bids := m; } else { asks := m; }
      }
      assert changes[..|changes|] == changes;
      updateId := id;
      ok := true;
    }

    method Best(side: Side) returns (best: Option<Level>)
      requires Valid()
      ensures best.None? ==> forall p: Word :: At(Levels(side), p) == 0
      ensures best.Some? ==> && At(Levels(side), best.value.price) == best.value.quantity != 0
                             && forall p: Word :: Better(side, p, best.value.price) ==> At(Levels(side), p) == 0
    {
      hide D.Ascending, D.Sorted;
      var m := Levels(side);
      if m == map[] {
        return None;
      }
      var keys := D.AscendingKeys(m);
      D.AscendingBounds(keys);
      var p := if side == Bid then keys[|keys| - 1] else keys[0];
      best := Some(Level(p, m[p]));
    }
  }

  // ----- dense ladders

  class DenseLadderBook {
    const minimum: Word
    const bids: array<Word>
    const asks: array<Word>
    var updateId: Word
    var valid: bool

    /** Slots past the largest 64-bit price can exist but are never written. */
    ghost predicate Valid()
      reads bids, asks
    {
      && bids != asks && bids.Length == asks.Length
      && forall i :: 0 <= i < bids.Length && minimum + i >= U64 ==> bids[i] == 0 && asks[i] == 0
    }

    ghost predicate OnLadder(price: Word) {
      minimum <= price < minimum + bids.Length
    }

    ghost predicate AllOnLadder(levels: seq<Level>) {
      forall i :: 0 <= i < |levels| ==> OnLadder(levels[i].price)
    }

    function LadderOf(side: Side): array<Word> {
      if side == Bid then bids else asks
    }

    ghost function QuantityOn(side: Side, price: Word): Word
      requires Valid()
      reads bids, asks
    {
      if OnLadder(price) then LadderOf(side)[price - minimum] else 0
    }

    constructor (minimum: Word, priceCount: nat)
      ensures Valid() && !valid && updateId == 0 && fresh(bids) && fresh(asks)
      ensures forall side, p: Word :: QuantityOn(side, p) == 0
      ensures this.minimum == minimum && bids.Length == priceCount
    {
      this.minimum := minimum;
      bids := new Word[priceCount](_ => 0);
      asks := new Word[priceCount](_ => 0);
      updateId, valid := 0, false;
    }

    method Set(c: Change) returns (ok: bool)
      requires Valid()
      modifies LadderOf(c.side)
      ensures Valid()
      ensures ok <==> OnLadder(c.price)
      ensures forall side, p: Word :: QuantityOn(side, p) ==
                if ok && side == c.side && p == c.price then c.quantity else old(QuantityOn(side, p))
    {
      if c.price < minimum || c.price - minimum >= bids.Length {
        return false;
      }
      var ladder := LadderOf(c.side);
      ladder[c.price - minimum] := c.quantity;
      ok := true;
    }

    method Clear()
      requires Valid()
      modifies bids, asks
      ensures Valid()
      ensures forall side, p: Word :: QuantityOn(side, p) == 0
    {
      forall i | 0 <= i < bids.Length { bids[i] := 0; }
      forall i | 0 <= i < asks.Length { asks[i] := 0; }
    }

    method Load(levels: seq<Level>, side: Side) returns (ok: bool)
      requires Valid() && forall p: Word :: QuantityOn(side, p) == 0
      modifies LadderOf(side)
      ensures Valid()
      ensures ok <==> AllNonzero(levels) && AllOnLadder(levels)
      ensures AllOnLadder(levels) ==> forall p: Word :: QuantityOn(side, p) == QuantityAt(BeforeZero(levels), p)
      ensures forall other, p: Word :: other != side ==> QuantityOn(other, p) == old(QuantityOn(other, p))
    {
      for i := 0 to |levels|
        invariant Valid()
        invariant forall j :: 0 <= j < i ==> levels[j].quantity != 0 && OnLadder(levels[j].price)
        invariant forall p: Word :: QuantityOn(side, p) == QuantityAt(levels[..i], p)
        invariant forall other, p: Word :: other != side ==> QuantityOn(other, p) == old(QuantityOn(other, p))
      {
        assert levels[..i + 1][..i] == levels[..i];
        var l := levels[i];
        if l.quantity == 0 {
          StopsAtZero(levels, i);
          return false;
        }
        var set' := Set(Change(side, l.price, l.quantity));
        if !set' {
          return false;
        }
      }
      assert levels[..|levels|] == levels;
      StopsAtZero(levels, |levels|);
      ok := true;
    }

    method ApplySnapshot(id: Word, newBids: seq<Level>, newAsks: seq<Level>) returns (ok: bool)
      requires Valid()
      modifies this, bids, asks
      ensures Valid() && valid == ok
      ensures ok <==> && id != 0 && AllNonzero(newBids) && AllOnLadder(newBids)
                      && AllNonzero(newAsks) && AllOnLadder(newAsks)
      ensures updateId == if ok then id else old(updateId)
      ensures AllOnLadder(newBids) && AllOnLadder(newAsks) ==>
                forall p: Word ::
                  && QuantityOn(Bid, p) == QuantityAt(LoadedBids(id, newBids), p)
                  && QuantityOn(Ask, p) == QuantityAt(LoadedAsks(id, newBids, newAsks), p)
    {
      hide QuantityAt, BeforeZero, AllNonzero, AllOnLadder;
      assert forall p: Word :: QuantityAt([], p) == 0 by { NothingAt(); }
      Clear();
      ok := id != 0;
      if ok { ok := Load(newBids, Bid); }
      if ok { ok := Load(newAsks, Ask); }
      if ok { updateId := id; }
      valid := ok;
    }

    method ApplyDelta(id: Word, changes: seq<Change>) returns (ok: bool)
      requires Valid()
      modifies this, bids, asks
      ensures Valid() && valid == ok
      ensures ok <==> && old(valid) && id == (old(updateId) + 1) % U64
                      && forall i :: 0 <= i < |changes| ==> OnLadder(changes[i].price)
      ensures updateId == if ok then id else old(updateId)
      ensures !ok && (forall i :: 0 <= i < |changes| ==> OnLadder(changes[i].price)) ==>
                forall side, p: Word :: QuantityOn(side, p) == old(QuantityOn(side, p))
      ensures ok ==>
                forall side, p: Word :: QuantityOn(side, p) == ChangedAt(changes, side, p, old(QuantityOn(side, p)))
    {
      if !valid || id != (updateId + 1) % U64 {
        valid := false;
        return false;
      }
      for i := 0 to |changes|
        invariant Valid() && valid && updateId == old(updateId)
        invariant forall j :: 0 <= j < i ==> OnLadder(changes[j].price)
        invariant forall side, p: Word ::
                    QuantityOn(side, p) == ChangedAt(changes[..i], side, p, old(QuantityOn(side, p)))
      {
        assert changes[..i + 1][..i] == changes[..i];
        var set' := Set(changes[i]);
        if !set' {
          valid := false;
          return false;
        }
      }
      assert changes[..|changes|] == changes;
      updateId := id;
      ok := true;
    }

    method Best(side: Side) returns (best: Option<Level>)
      requires Valid()
      ensures best.None? ==> forall p: Word :: QuantityOn(side, p) == 0
      ensures best.Some? ==> && QuantityOn(side, best.value.price) == best.value.quantity != 0
                             && forall p: Word :: Better(side, p, best.value.price) ==> QuantityOn(side, p) == 0
    {
      best := None;
      if side == Bid {
        var i := bids.Length;
        while i > 0
          invariant 0 <= i <= bids.Length
          invariant forall j :: i <= j < bids.Length ==> bids[j] == 0
        {
          i := i - 1;
          if bids[i] != 0 {
            return Some(Level(minimum + i, bids[i]));
          }
        }
      } else {
        for i := 0 to asks.Length
          invariant forall j :: 0 <= j < i ==> asks[j] == 0
        {
          if asks[i] != 0 {
            return Some(Level(minimum + i, asks[i]));
          }
        }
      }
    }
  }

  // ----- the three forms side by side

  datatype Message = Snapshot(id: Word, bids: seq<Level>, asks: seq<Level>) | Delta(id: Word, changes: seq<Change>)

  ghost predicate InLadder(minimum: Word, count: nat, m: Message) {
    match m
    case Snapshot(_, bids, asks) =>
      && (forall i :: 0 <= i < |bids| ==> minimum <= bids[i].price < minimum + count)
      && (forall i :: 0 <= i < |asks| ==> minimum <= asks[i].price < minimum + count)
    case Delta(_, changes) => forall i :: 0 <= i < |changes| ==> minimum <= changes[i].price < minimum + count
  }

  /** The map and the dense book hold the same in every respect, stale levels of an invalid book included. */
  ghost predicate Twins(tree: OrderedMapBook, dense: DenseLadderBook)
    requires dense.Valid()
    reads tree, dense, dense.bids, dense.asks
  {
    && tree.valid == dense.valid && tree.updateId == dense.updateId
    && (forall p: Word :: At(tree.bids, p) == dense.QuantityOn(Bid, p))
    && (forall p: Word :: At(tree.asks, p) == dense.QuantityOn(Ask, p))
  }

  /** Whenever the vector book is valid so is the map book, with the same update id and the same levels. */
  ghost predicate Agree(vector: V.OrderBook, tree: OrderedMapBook)
    reads vector, tree
  {
    vector.valid ==>
      && tree.valid && tree.updateId == vector.updateId
      && (forall p: Word :: At(tree.bids, p) == QuantityAt(vector.bids, p))
      && (forall p: Word :: At(tree.asks, p) == QuantityAt(vector.asks, p))
  }

  // ----- what a feed means

  /** An L2 book as a value: its last update id and its two sides, or nothing to show. */
  datatype Book = Invalid | Shown(id: Word, bids: seq<Level>, asks: seq<Level>)

  ghost function BookOf(vector: V.OrderBook): Book
    reads vector
  {
    if vector.valid then Shown(vector.updateId, vector.bids, vector.asks) else Invalid
  }

  /** `now` follows `was` by the message, in a book of at most `maximum` levels a side. */
  ghost predicate Follows(was: Book, m: Message, now: Book, maximum: nat) {
    match m
    case Snapshot(id, bids, asks) =>
      var ok := id != 0 && |bids| <= maximum && |asks| <= maximum && ValidSide(bids, Bid) && ValidSide(asks, Ask);
      now == if ok then Shown(id, bids, asks) else Invalid
    case Delta(id, changes) =>
      if was.Shown? && was.id != U64_MAX && id == was.id + 1 && V.Fits(was.bids, was.asks, changes, maximum) then
        && now.Shown? && now.id == id && ValidSide(now.bids, Bid) && ValidSide(now.asks, Ask)
        && V.Overridden(was.bids, now.bids, changes, Bid) && V.Overridden(was.asks, now.asks, changes, Ask)
      else now == Invalid
  }

  /** A message leads to one book only. */
  lemma FollowsOne(was: Book, m: Message, now: Book, now': Book, maximum: nat)
    requires Follows(was, m, now, maximum) && Follows(was, m, now', maximum)
    ensures now == now'
  {
    hide QuantityAt, ChangedAt, ValidSide, V.Fits;
    if m.Delta? && now.Shown? {
      SidesDetermined(now.bids, now'.bids, Bid);
      SidesDetermined(now.asks, now'.asks, Ask);
    }
  }

  /** `best` is the level of the best nonzero price of the side, or None when it has none. */
  ghost predicate IsBestOf(levels: seq<Level>, side: Side, best: Option<Level>) {
    match best
    case None => forall p: Word :: QuantityAt(levels, p) == 0
    case Some(l) =>
      && QuantityAt(levels, l.price) == l.quantity != 0
      && forall p: Word :: Better(side, p, l.price) ==> QuantityAt(levels, p) == 0
  }

  /** What valid(), best_bid() and best_ask() return. */
  datatype Quote = Quote(valid: bool, bid: Option<Level>, ask: Option<Level>)

  ghost predicate Quotes(book: Book, q: Quote) {
    match book
    case Invalid => q == Quote(false, None, None)
    case Shown(_, bids, asks) => q.valid && IsBestOf(bids, Bid, q.bid) && IsBestOf(asks, Ask, q.ask)
  }

  /** The valid flag and the update id of the map and dense books, which do not check a message's levels. */
  datatype Mark = Mark(valid: bool, id: Word)

  ghost function MarkNext(was: Mark, m: Message): Mark {
    var ok := match m
      case Snapshot(id, bids, asks) => id != 0 && AllNonzero(bids) && AllNonzero(asks)
      case Delta(id, _) => was.valid && id == (was.id + 1) % U64;
    Mark(ok, if ok then m.id else was.id)
  }

  ghost function MarkAfter(start: Mark, messages: seq<Message>): Mark {
    if messages == [] then start
    else MarkNext(MarkAfter(start, messages[..|messages| - 1]), messages[|messages| - 1])
  }

  /** The message invalidates the vector book alone: its levels or its effect fail a check the others do not make. */
  ghost predicate DropsOut(was: Book, m: Message, maximum: nat) {
    match m
    case Snapshot(id, bids, asks) =>
      && id != 0 && AllNonzero(bids) && AllNonzero(asks)
      && (|bids| > maximum || |asks| > maximum || !Ordered(bids, Bid) || !Ordered(asks, Ask))
    case Delta(id, changes) =>
      && was.Shown? && id == (was.id + 1) % U64
      && (was.id == U64_MAX || !V.Fits(was.bids, was.asks, changes, maximum))
  }

  /** Strictly from the best price to the worst. */
  ghost predicate Ordered(levels: seq<Level>, side: Side) {
    forall i, j :: 0 <= i < j < |levels| ==> Better(side, levels[i].price, levels[j].price)
  }

  // ----- the three books driven together

  /** Three new books start in agreement. */
  method NewBooks(maximum: nat, minimum: Word, priceCount: nat)
    returns (vector: V.OrderBook, tree: OrderedMapBook, dense: DenseLadderBook)
    ensures fresh(vector) && fresh(tree) && fresh(dense) && fresh(dense.bids) && fresh(dense.asks)
    ensures vector.Valid() && tree.Valid() && dense.Valid() && Agree(vector, tree) && Twins(tree, dense)
    ensures vector.maximum == maximum && dense.minimum == minimum && dense.bids.Length == priceCount
  {
    vector := new V.OrderBook(maximum);
    tree := new OrderedMapBook();
    dense := new DenseLadderBook(minimum, priceCount);
  }

  method SnapshotAll(vector: V.OrderBook, tree: OrderedMapBook, dense: DenseLadderBook,
                     id: Word, bids: seq<Level>, asks: seq<Level>)
    requires vector.Valid() && tree.Valid() && dense.Valid() && Agree(vector, tree) && Twins(tree, dense)
    requires InLadder(dense.minimum, dense.bids.Length, Snapshot(id, bids, asks))
    modifies vector, tree, dense, dense.bids, dense.asks
    ensures vector.Valid() && tree.Valid() && dense.Valid() && Agree(vector, tree) && Twins(tree, dense)
    ensures Follows(old(BookOf(vector)), Snapshot(id, bids, asks), BookOf(vector), vector.maximum)
    ensures Mark(tree.valid, tree.updateId)
         == MarkNext(Mark(old(tree.valid), old(tree.updateId)), Snapshot(id, bids, asks))
    ensures tree.valid && !vector.valid <==>
              DropsOut(old(BookOf(vector)), Snapshot(id, bids, asks), vector.maximum)
  {
    hide QuantityAt, BeforeZero;
    var v := vector.ApplySnapshot(id, bids, asks);
    var t := tree.ApplySnapshot(id, bids, asks);
    var d := dense.ApplySnapshot(id, bids, asks);
  }

  method DeltaAll(vector: V.OrderBook, tree: OrderedMapBook, dense: DenseLadderBook, id: Word, changes: seq<Change>)
    requires vector.Valid() && tree.Valid() && dense.Valid() && Agree(vector, tree) && Twins(tree, dense)
    requires InLadder(dense.minimum, dense.bids.Length, Delta(id, changes))
    modifies vector, tree, dense, dense.bids, dense.asks
    ensures vector.Valid() && tree.Valid() && dense.Valid() && Agree(vector, tree) && Twins(tree, dense)
    ensures Follows(old(BookOf(vector)), Delta(id, changes), BookOf(vector), vector.maximum)
    ensures Mark(tree.valid, tree.updateId)
         == MarkNext(Mark(old(tree.valid), old(tree.updateId)), Delta(id, changes))
    ensures old(vector.valid) ==>
              (tree.valid && !vector.valid <==> DropsOut(old(BookOf(vector)), Delta(id, changes), vector.maximum))
  {
    hide QuantityAt, ChangedAt, ValidSide, V.Fits;
    var v := vector.ApplyDelta(id, changes);
    var t := tree.ApplyDelta(id, changes);
    var d := dense.ApplyDelta(id, changes);
  }

  /** The map and the dense book always give the same best level. */
  method BestOfTwins(tree: OrderedMapBook, dense: DenseLadderBook, side: Side)
    returns (t: Option<Level>, d: Option<Level>)
    requires tree.Valid() && dense.Valid() && Twins(tree, dense)
    ensures t == d
    ensures t.None? ==> forall p: Word :: At(tree.Levels(side), p) == 0
    ensures t.Some? ==> && At(tree.Levels(side), t.value.price) == t.value.quantity != 0
                        && forall p: Word :: Better(side, p, t.value.price) ==> At(tree.Levels(side), p) == 0
  {
    t := tree.Best(side);
    d := dense.Best(side);
    forall p: Word ensures At(tree.Levels(side), p) == dense.QuantityOn(side, p) {
    }
    if t.Some? { assert At(tree.Levels(side), t.value.price) != 0; }
    if d.Some? { assert At(tree.Levels(side), d.value.price) != 0; }
  }

  /** While the vector book is valid, all three give the best level it holds. */
  method BestOfAll(vector: V.OrderBook, tree: OrderedMapBook, dense: DenseLadderBook, side: Side)
    returns (v: Option<Level>, t: Option<Level>, d: Option<Level>)
    requires vector.Valid() && tree.Valid() && dense.Valid() && Agree(vector, tree) && Twins(tree, dense)
    ensures t == d && IsBestOf(vector.Levels(side), side, v)
    ensures vector.valid ==> v == t
    ensures !vector.valid ==> v == None
  {
    hide QuantityAt, ValidSide, Twins;
    v := vector.Best(side);
    t, d := BestOfTwins(tree, dense, side);
    if vector.valid {
      forall p: Word ensures QuantityAt(vector.Levels(side), p) == At(tree.Levels(side), p) {
      }
      if v.Some? { assert QuantityAt(vector.Levels(side), v.value.price) != 0; }
      if t.Some? { assert QuantityAt(vector.Levels(side), t.value.price) != 0; }
    } else if v.Some? {
      assert QuantityAt([], v.value.price) == 0 by { NothingAt(); }
    }
  }

  /** Each book asked for itself. */
  method QuoteAll(vector: V.OrderBook, tree: OrderedMapBook, dense: DenseLadderBook)
    returns (v: Quote, t: Quote, d: Quote)
    requires vector.Valid() && tree.Valid() && dense.Valid() && Agree(vector, tree) && Twins(tree, dense)
    ensures t == d && (v.valid ==> v == t) && Quotes(BookOf(vector), v)
    ensures v.valid == vector.valid && t.valid == tree.valid
  {
    assert dense.valid == tree.valid && (vector.valid ==> tree.valid);
    hide Agree, Twins, IsBestOf, ValidSide;
    var bid, bid', bid'' := BestOfAll(vector, tree, dense, Bid);
    var ask, ask', ask'' := BestOfAll(vector, tree, dense, Ask);
    v, t, d := Quote(vector.valid, bid, ask), Quote(tree.valid, bid', ask'), Quote(dense.valid, bid'', ask'');
  }

  /** One message: the book follows, the vector book quotes it, the map book agrees while the vector book is valid,
      and the vector book drops out alone exactly when DropsOut says so. */
  ghost predicate StepQuoted(was: Book, m: Message, now: Book, v: Quote, t: Quote, maximum: nat) {
    && Follows(was, m, now, maximum)
    && Quotes(now, v) && (v.valid ==> v == t)
    && (m.Snapshot? || was.Shown? ==> (t.valid && !v.valid <==> DropsOut(was, m, maximum)))
  }

  ghost predicate IsFeed(books: seq<Book>, messages: seq<Message>, vs: seq<Quote>, ts: seq<Quote>, maximum: nat) {
    && |books| == |vs| + 1 && |ts| == |vs| <= |messages|
    && forall i :: 0 <= i < |vs| ==> StepQuoted(books[i], messages[i], books[i + 1], vs[i], ts[i], maximum)
  }

  lemma OneMoreMessage(books: seq<Book>, messages: seq<Message>, vs: seq<Quote>, ts: seq<Quote>, maximum: nat,
                       now: Book, v: Quote, t: Quote)
    requires IsFeed(books, messages, vs, ts, maximum) && |vs| < |messages|
    requires StepQuoted(books[|vs|], messages[|vs|], now, v, t, maximum)
    ensures IsFeed(books + [now], messages, vs + [v], ts + [t], maximum)
  {
    hide StepQuoted;
  }

  /** Each quote's flag is the one the messages up to there leave. */
  ghost predicate FlagsOf(start: Mark, messages: seq<Message>, quotes: seq<Quote>) {
    forall i :: 0 <= i < |quotes| ==> FlagAt(start, messages, i, quotes[i])
  }

  ghost predicate FlagAt(start: Mark, messages: seq<Message>, i: nat, q: Quote) {
    i < |messages| && q.valid == MarkAfter(start, messages[..i + 1]).valid
  }

  lemma OneMoreMark(start: Mark, messages: seq<Message>, i: nat)
    requires i < |messages|
    ensures MarkAfter(start, messages[..i + 1]) == MarkNext(MarkAfter(start, messages[..i]), messages[i])
  {
    assert messages[..i + 1][..i] == messages[..i];
  }

  lemma OneMoreFlag(start: Mark, messages: seq<Message>, quotes: seq<Quote>, q: Quote)
    requires FlagsOf(start, messages, quotes) && FlagAt(start, messages, |quotes|, q)
    ensures FlagsOf(start, messages, quotes + [q])
  {
    hide FlagAt;
  }

  method StepAll(vector: V.OrderBook, tree: OrderedMapBook, dense: DenseLadderBook, m: Message)
    returns (v: Quote, t: Quote, d: Quote)
    requires vector.Valid() && tree.Valid() && dense.Valid() && Agree(vector, tree) && Twins(tree, dense)
    requires InLadder(dense.minimum, dense.bids.Length, m)
    modifies vector, tree, dense, dense.bids, dense.asks
    ensures vector.Valid() && tree.Valid() && dense.Valid() && Agree(vector, tree) && Twins(tree, dense)
    ensures StepQuoted(old(BookOf(vector)), m, BookOf(vector), v, t, vector.maximum)
    ensures t == d && t.valid == tree.valid
    ensures Mark(tree.valid, tree.updateId) == MarkNext(Mark(old(tree.valid), old(tree.updateId)), m)
  {
    hide Agree, Twins, InLadder, Follows, Quotes, ValidSide, DropsOut, MarkNext;
    match m {
      case Snapshot(id, bids, asks) => SnapshotAll(vector, tree, dense, id, bids, asks);
      case Delta(id, changes) => DeltaAll(vector, tree, dense, id, changes);
    }
    v, t, d := QuoteAll(vector, tree, dense);
  }

  /**
   Over every message run with prices on the ladder, across gaps, rejections and resnapshots, the map and the
   dense book return the same after each message, and the vector book returns it too while it is valid: the
   best levels of the one book the messages lead to. It drops out alone exactly at the messages DropsOut names.
   */
  method Feed(vector: V.OrderBook, tree: OrderedMapBook, dense: DenseLadderBook, messages: seq<Message>)
    returns (vs: seq<Quote>, ts: seq<Quote>, ds: seq<Quote>, ghost books: seq<Book>)
    requires vector.Valid() && tree.Valid() && dense.Valid() && Agree(vector, tree) && Twins(tree, dense)
    requires forall i :: 0 <= i < |messages| ==> InLadder(dense.minimum, dense.bids.Length, messages[i])
    modifies vector, tree, dense, dense.bids, dense.asks
    ensures vector.Valid() && tree.Valid() && dense.Valid() && Agree(vector, tree) && Twins(tree, dense)
    ensures ts == ds && |vs| == |messages|
    ensures IsFeed(books, messages, vs, ts, vector.maximum)
    ensures books[0] == old(BookOf(vector)) && books[|messages|] == BookOf(vector)
    ensures FlagsOf(Mark(old(tree.valid), old(tree.updateId)), messages, ts)
  {
    hide Agree, Twins, InLadder, StepQuoted, ValidSide, MarkNext, MarkAfter;
    vs, ts, ds, books := [], [], [], [BookOf(vector)];
    ghost var start := Mark(tree.valid, tree.updateId);
    assert MarkAfter(start, messages[..0]) == start by { NoMessage(start); }
    for i := 0 to |messages|
      invariant vector.Valid() && tree.Valid() && dense.Valid() && Agree(vector, tree) && Twins(tree, dense)
      invariant ts == ds && |vs| == i && IsFeed(books, messages, vs, ts, vector.maximum)
      invariant books[0] == old(BookOf(vector)) && books[i] == BookOf(vector)
      invariant Mark(tree.valid, tree.updateId) == MarkAfter(start, messages[..i])
      invariant FlagsOf(start, messages, ts)
    {
      var v, t, d := StepAll(vector, tree, dense, messages[i]);
      OneMoreMark(start, messages, i);
      OneMoreFlag(start, messages, ts, t);
      OneMoreMessage(books, messages, vs, ts, vector.maximum, BookOf(vector), v, t);
      vs, ts, ds, books := vs + [v], ts + [t], ds + [d], books + [BookOf(vector)];
    }
  }

  lemma NoMessage(start: Mark)
    ensures MarkAfter(start, []) == start
  {
  }

  // ----- a feed on which the books part

  const ONE_BID: seq<Level> := [Level(10, 5)]
  const TWICE: seq<Change> := [Change(Bid, 11, 1), Change(Bid, 11, 2)]

  lemma TwiceAt(side: Side, p: Word, was: Word)
    ensures ChangedAt(TWICE, side, p, was) == if side == Bid && p == 11 then 2 else was
  {
    var once := TWICE[..1];
    assert once == [Change(Bid, 11, 1)] && once[..0] == [];
    assert ChangedAt(once, side, p, was) == if side == Bid && p == 11 then 1 else was;
  }

  /** What the snapshot and the delta leave at a price when the last mention wins. */
  lemma LastMentionWins()
    ensures forall p: Word :: QuantityAt(ONE_BID, p) == if p == 10 then 5 else 0
    ensures forall p: Word :: QuantityAt([], p) == 0
    ensures forall side, p: Word, was: Word ::
              ChangedAt(TWICE, side, p, was) == if side == Bid && p == 11 then 2 else was
    ensures BeforeZero(ONE_BID) == ONE_BID && BeforeZero([]) == []
  {
    assert ONE_BID[..0] == [] && ONE_BID[1..] == [];
    forall side, p: Word, was: Word
      ensures ChangedAt(TWICE, side, p, was) == if side == Bid && p == 11 then 2 else was
    {
      TwiceAt(side, p, was);
    }
  }

  method DivergingVector() returns (q: Quote)
    ensures q == Quote(false, None, None)
  {
    var book := new V.OrderBook(4);
    var ok := book.ApplySnapshot(1, ONE_BID, []);
    ok := book.ApplyDelta(2, TWICE);
    var bid := book.Best(Bid);
    var ask := book.Best(Ask);
    q := Quote(book.valid, bid, ask);
  }

  method DivergingTree() returns (q: Quote)
    ensures q == Quote(true, Some(Level(11, 2)), None)
  {
    LastMentionWins();
    hide QuantityAt, ChangedAt, BeforeZero;
    var book := new OrderedMapBook();
    var ok := book.ApplySnapshot(1, ONE_BID, []);
    ok := book.ApplyDelta(2, TWICE);
    assert forall p: Word :: At(book.bids, p) == if p == 11 then 2 else if p == 10 then 5 else 0;
    assert forall p: Word :: At(book.asks, p) == 0;
    var bid := book.Best(Bid);
    assert At(book.Levels(Bid), 11) == 2 && Better(Bid, 11, 10);
    var ask := book.Best(Ask);
    q := Quote(book.valid, bid, ask);
  }

  method DivergingDense() returns (q: Quote)
    ensures q == Quote(true, Some(Level(11, 2)), None)
  {
    LastMentionWins();
    hide QuantityAt, ChangedAt, BeforeZero;
    var book := new DenseLadderBook(8, 8);
    var ok := book.ApplySnapshot(1, ONE_BID, []);
    ok := book.ApplyDelta(2, TWICE);
    assert forall p: Word :: book.QuantityOn(Bid, p) == if p == 11 then 2 else if p == 10 then 5 else 0;
    assert forall p: Word :: book.QuantityOn(Ask, p) == 0;
    var bid := book.Best(Bid);
    assert book.QuantityOn(Bid, 11) == 2 && Better(Bid, 11, 10);
    var ask := book.Best(Ask);
    q := Quote(book.valid, bid, ask);
  }

  /** After a delta that names one price twice the vector book has dropped out, and the others quote. */
  method Diverging() returns (v: Quote, t: Quote, d: Quote)
    ensures v == Quote(false, None, None)
    ensures t == d == Quote(true, Some(Level(11, 2)), None)
  {
    v := DivergingVector();
    t := DivergingTree();
    d := DivergingDense();
  }

  /** The best bid is the highest price with a quantity, the best ask the lowest. */
  lemma BestOfIsExtreme(levels: seq<Level>, side: Side, l: Level, p: Word)
    requires IsBestOf(levels, side, Some(l))
    ensures l.quantity > 0 && QuantityAt(levels, l.price) == l.quantity
    ensures QuantityAt(levels, p) > 0 ==> if side == Bid then p <= l.price else l.price <= p
    ensures !IsBestOf(levels, side, None)
  {
    assert Better(side, p, l.price) ==> QuantityAt(levels, p) == 0;
    assert QuantityAt(levels, l.price) != 0;
  }
}
