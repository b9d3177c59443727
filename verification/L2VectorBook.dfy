/** The L2 book as two sorted vectors with an atomic, pre-checked delta. */
module L2VectorBook {
  import opened Words
  import opened L2

  // ----- one change on one sorted vector

  /** `k` splits the side: everything before is strictly better than `price`, nothing after is. */
  ghost predicate Splits(levels: seq<Level>, side: Side, price: Word, k: nat) {
    && k <= |levels|
    && (forall i :: 0 <= i < k ==> Better(side, levels[i].price, price))
    && (forall i :: k <= i < |levels| ==> !Better(side, levels[i].price, price))
  }

  /** std::lower_bound with the side's comparator. */
  method LowerBound(levels: seq<Level>, side: Side, price: Word) returns (k: nat)
    requires ValidSide(levels, side)
    ensures Splits(levels, side, price, k)
  {
    k := 0;
    var high := |levels|;
    while k < high
      invariant k <= high <= |levels|
      invariant forall i :: 0 <= i < k ==> Better(side, levels[i].price, price)
      invariant forall i :: high <= i < |levels| ==> !Better(side, levels[i].price, price)
    {
      var mid := (k + high) / 2;
      if Better(side, levels[mid].price, price) {
        k := mid + 1;
      } else {
        high := mid;
      }
    }
  }

  /** The vector after erase, overwrite or insert at the split point. */
  function Changed(levels: seq<Level>, k: nat, price: Word, quantity: Word): seq<Level>
    requires k <= |levels|
  {
    if k < |levels| && levels[k].price == price then
      if quantity == 0 then levels[..k] + levels[k + 1..] else levels[k := Level(price, quantity)]
    else if quantity == 0 then levels
    else levels[..k] + [Level(price, quantity)] + levels[k..]
  }

  lemma ChangedIsValid(levels: seq<Level>, side: Side, price: Word, quantity: Word, k: nat)
    requires ValidSide(levels, side) && Splits(levels, side, price, k)
    ensures ValidSide(Changed(levels, k, price, quantity), side)
  {
  }

  /** A level stored in a valid side gives the quantity; a price stored nowhere has none. */
  lemma QuantityByIndex(levels: seq<Level>, side: Side, i: nat, price: Word, quantity: Word)
    requires ValidSide(levels, side) && i < |levels| && levels[i] == Level(price, quantity)
    ensures QuantityAt(levels, price) == quantity
  {
    QuantityOfLevel(levels, side, i);
  }

  lemma ChangedHere(levels: seq<Level>, side: Side, price: Word, quantity: Word, k: nat)
    requires ValidSide(levels, side) && Splits(levels, side, price, k)
    ensures QuantityAt(Changed(levels, k, price, quantity), price) == quantity
  {
    var r := Changed(levels, k, price, quantity);
    ChangedIsValid(levels, side, price, quantity, k);
    if quantity != 0 {
      assert r[k] == Level(price, quantity);
      QuantityByIndex(r, side, k, price, quantity);
    } else {
      assert forall i :: 0 <= i < |levels| && i != k ==> levels[i].price != price;
      QuantityElsewhere(r, side, price);
    }
  }

  lemma OldLevelStays(levels: seq<Level>, k: nat, price: Word, quantity: Word, i: nat) returns (j: nat)
    requires k <= |levels| && i < |levels| && levels[i].price != price
    ensures j < |Changed(levels, k, price, quantity)| && Changed(levels, k, price, quantity)[j] == levels[i]
  {
    var r := Changed(levels, k, price, quantity);
    j := if i < k then i else i + |r| - |levels|;
  }

  lemma NewLevelIsOld(levels: seq<Level>, k: nat, price: Word, quantity: Word, j: nat) returns (i: nat)
    requires k <= |levels| && j < |Changed(levels, k, price, quantity)|
              && Changed(levels, k, price, quantity)[j].price != price
    ensures i < |levels| && levels[i] == Changed(levels, k, price, quantity)[j]
  {
    var r := Changed(levels, k, price, quantity);
    i := if j < k then j else j - |r| + |levels|;
  }

  lemma ChangedElsewhere(levels: seq<Level>, side: Side, price: Word, quantity: Word, k: nat, p: Word)
    requires ValidSide(levels, side) && Splits(levels, side, price, k) && p != price
    ensures QuantityAt(Changed(levels, k, price, quantity), p) == QuantityAt(levels, p)
  {
    assert k <= |levels|;
    hide QuantityAt, ValidSide, Changed;
    var r := Changed(levels, k, price, quantity);
    ChangedIsValid(levels, side, price, quantity, k);
    if QuantityAt(levels, p) != 0 {
      QuantityHasLevel(levels, p);
      var i :| 0 <= i < |levels| && levels[i].price == p && levels[i].quantity == QuantityAt(levels, p);
      var j := OldLevelStays(levels, k, price, quantity, i);
      QuantityByIndex(r, side, j, p, QuantityAt(levels, p));
    } else if QuantityAt(r, p) != 0 {
      QuantityHasLevel(r, p);
      var j :| 0 <= j < |r| && r[j].price == p && r[j].quantity == QuantityAt(r, p);
      var i := NewLevelIsOld(levels, k, price, quantity, j);
      QuantityByIndex(levels, side, i, p, QuantityAt(r, p));
    }
  }

  // ----- when a delta fits

  ghost predicate Fits(bids: seq<Level>, asks: seq<Level>, changes: seq<Change>, maximum: nat) {
    && DistinctKeys(changes)
    && |PricesAfter(bids, changes, Bid)| <= maximum
    && |PricesAfter(asks, changes, Ask)| <= maximum
  }

  /** A price that no change has named yet is present after them exactly when it was present before. */
  lemma {:induction false} UntouchedPrice(levels: seq<Level>, changes: seq<Change>, side: Side, price: Word)
    requires !Touches(changes, side, price)
    ensures price in PricesAfter(levels, changes, side) <==> price in Prices(levels)
  {
    if changes == [] {
    } else {
      var init := changes[..|changes| - 1];
      assert forall i :: 0 <= i < |init| ==> init[i] == changes[i];
      UntouchedPrice(levels, init, side, price);
    }
  }

  /** What one more change, to a level not named before, does to the number of levels of either side. */
  lemma OneMoreChange(levels: seq<Level>, changes: seq<Change>, c: Change, side: Side)
    requires !Touches(changes, c.side, c.price)
    ensures var before, after := PricesAfter(levels, changes, side), PricesAfter(levels, changes + [c], side);
            var present := c.price in Prices(levels);
            |after| == |before| + if c.side != side
                || (c.quantity == 0) != present then 0 else if present then -1 else 1
  {
    assert (changes + [c])[..|changes|] == changes;
    var before := PricesAfter(levels, changes, side);
    if c.side == side {
      UntouchedPrice(levels, changes, side, c.price);
      if c.price !in before { assert before - {c.price} == before; } else { assert before + {c.price} == before; }
    }
  }

  lemma DistinctSnoc(changes: seq<Change>, c: Change)
    requires DistinctKeys(changes)
    ensures DistinctKeys(changes + [c]) <==> !Touches(changes, c.side, c.price)
  {
    var all := changes + [c];
    if Touches(changes, c.side, c.price) {
      var i :| 0 <= i < |changes| && changes[i].side == c.side && changes[i].price == c.price;
      assert all[i] == changes[i] && all[|changes|] == c;
    } else {
      assert forall i :: 0 <= i < |changes| ==> all[i] == changes[i];
    }
  }

  lemma NoChangeCounts(levels: seq<Level>, side: Side)
    requires ValidSide(levels, side)
    ensures |PricesAfter(levels, [], side)| == |levels| && DistinctKeys([])
  {
    PriceCount(levels, side);
  }

  lemma DistinctPrefix(changes: seq<Change>, k: nat)
    requires k <= |changes| && DistinctKeys(changes)
    ensures DistinctKeys(changes[..k])
  {
  }

  class OrderBook {
    var bids: seq<Level>
    var asks: seq<Level>
    const maximum: nat
    var updateId: Word
    var valid: bool

    /** A valid book is sorted, within capacity and has no empty level; an invalid one is empty. */
    ghost predicate Valid()
      reads this
    {
      && ValidSide(bids, Bid) && ValidSide(asks, Ask)
      && |bids| <= maximum && |asks| <= maximum
      && (!valid ==> bids == [] && asks == [] && updateId == 0)
    }

    function Levels(side: Side): seq<Level>
      reads this
    {
      if side == Bid then bids else asks
    }

    constructor (maximum: nat)
      ensures Valid() && !valid && this.maximum == maximum
    {
      bids, asks, updateId, valid := [], [], 0, false;
      this.maximum := maximum;
    }

    method Invalidate() returns (ok: bool)
      modifies this
      ensures Valid() && !valid && !ok
    {
      bids, asks, updateId, valid := [], [], 0, false;
      ok := false;
    }

    /** The adjacent comparison decides strict sortedness. */
    static method ValidLevels(levels: seq<Level>, side: Side) returns (ok: bool)
      ensures ok <==> ValidSide(levels, side)
    {
      for i := 0 to |levels|
        invariant ValidSide(levels[..i], side)
      {
        if levels[i].quantity == 0 || (i > 0 && !Better(side, levels[i - 1].price, levels[i].price)) {
          return false;
        }
        assert i > 0 ==> levels[..i][i - 1] == levels[i - 1];
      }
      assert levels[..|levels|] == levels;
      ok := true;
    }

    method ApplySnapshot(id: Word, newBids: seq<Level>, newAsks: seq<Level>) returns (ok: bool)
      requires Valid()
      modifies this
      ensures Valid() && valid == ok
      ensures ok <==> && id != 0 && |newBids| <= maximum && |newAsks| <= maximum
                      && ValidSide(newBids, Bid) && ValidSide(newAsks, Ask)
      ensures ok ==> bids == newBids && asks == newAsks && updateId == id
    {
      var validBids := ValidLevels(newBids, Bid);
      var validAsks := ValidLevels(newAsks, Ask);
      if id == 0 || |newBids| > maximum || |newAsks| > maximum || !validBids || !validAsks {
        ok := Invalidate();
        return;
      }
      bids, asks, updateId, valid := newBids, newAsks, id, true;
      ok := true;
    }

    /** Counts the levels the delta will leave without applying it. */
    method DeltaFits(changes: seq<Change>) returns (fits: bool)
      requires Valid()
      ensures fits <==> Fits(bids, asks, changes, maximum)
    {
      hide ValidSide, DistinctKeys, PricesAfter, Prices, Touches;
      var bidCount, askCount := |bids|, |asks|;
      NoChangeCounts(bids, Bid);
      NoChangeCounts(asks, Ask);
      for i := 0 to |changes|
        invariant DistinctKeys(changes[..i])
        invariant bidCount == |PricesAfter(bids, changes[..i], Bid)|
        invariant askCount == |PricesAfter(asks, changes[..i], Ask)|
      {
        var c := changes[i];
        ghost var before := changes[..i];
        assert changes[..i + 1] == before + [c];
        DistinctSnoc(before, c);
        var repeated := Repeats(changes, i);
        if repeated {
          assert !DistinctKeys(changes) by { if DistinctKeys(changes) { DistinctPrefix(changes, i + 1); } }
          return false;
        }
        OneMoreChange(bids, before, c, Bid);
        OneMoreChange(asks, before, c, Ask);
        var present := HasPrice(Levels(c.side), c.price);
        if c.quantity == 0 && present {
          if c.side == Bid { bidCount := bidCount - 1; } else { askCount := askCount - 1; }
        }
        if c.quantity != 0 && !present {
          if c.side == Bid { bidCount := bidCount + 1; } else { askCount := askCount + 1; }
        }
      }
      assert changes[..|changes|] == changes;
      fits := bidCount <= maximum && askCount <= maximum;
    }

    static method Repeats(changes: seq<Change>, i: nat) returns (found: bool)
      requires i < |changes|
      ensures found <==> Touches(changes[..i], changes[i].side, changes[i].price)
    {
      for earlier := 0 to i
        invariant forall j :: 0 <= j < earlier ==>
                  !(changes[j].side == changes[i].side && changes[j].price == changes[i].price)
      {
        if changes[earlier].side == changes[i].side && changes[earlier].price == changes[i].price {
          assert changes[..i][earlier] == changes[earlier];
          return true;
        }
      }
      found := false;
    }

    static method HasPrice(levels: seq<Level>, price: Word) returns (found: bool)
      ensures found <==> price in Prices(levels)
    {
      for i := 0 to |levels|
        invariant forall j :: 0 <= j < i ==> levels[j].price != price
      {
        if levels[i].price == price {
          return true;
        }
      }
      found := false;
    }

    /** Fails, changing nothing, only when a new level does not fit. */
    method ApplyChange(c: Change) returns (ok: bool)
      requires Valid() && valid
      modifies this`bids, this`asks
      ensures Valid()
      ensures ok <==> || c.quantity == 0 || QuantityAt(old(Levels(c.side)), c.price) != 0
                      || |old(Levels(c.side))| < maximum
      ensures ok ==> Applied(old(bids), bids, c, Bid) && Applied(old(asks), asks, c, Ask)
      ensures !ok ==> bids == old(bids) && asks == old(asks)
    {
      hide QuantityAt;
      var levels := Levels(c.side);
      var k := LowerBound(levels, c.side, c.price);
      SplitDecides(levels, c.side, c.price, k);
      if !(k < |levels| && levels[k].price == c.price) && c.quantity != 0 && |levels| == maximum {
        return false;
      }
      ghost var after := Changed(levels, k, c.price, c.quantity);
      ChangedIsValid(levels, c.side, c.price, c.quantity, k);
      ChangedHere(levels, c.side, c.price, c.quantity, k);
      forall p: Word | p != c.price ensures QuantityAt(after, p) == QuantityAt(levels, p) {
        ChangedElsewhere(levels, c.side, c.price, c.quantity, k, p);
      }
      if k < |levels| && levels[k].price == c.price {
        if c.quantity == 0 {
          levels := levels[..k] + levels[k + 1..];
        } else {
          levels := levels[k := levels[k].(quantity := c.quantity)];
        }
      } else if c.quantity != 0 {
        levels := levels[..k] + [Level(c.price, c.quantity)] + levels[k..];
      }
      assert levels == after;
      if c.side == Bid { bids := levels; } else { asks := levels; }
      ok := true;
    }

    /** Removals first. A removal cannot fail. */
    method RemovalPass(changes: seq<Change>) returns (ok: bool)
      requires Valid() && valid
      modifies this`bids, this`asks
      ensures Valid() && ok
      ensures Passed(old(bids), bids, changes, true, Bid) && Passed(old(asks), asks, changes, true, Ask)
    {
      hide Applied, Passed, ValidSide, QuantityAt;
      ghost var b, a := bids, asks;
      NothingPassed(b, true, Bid);
      NothingPassed(a, true, Ask);
      for i := 0 to |changes|
        invariant Valid() && valid
        invariant Passed(b, bids, changes[..i], true, Bid) && Passed(a, asks, changes[..i], true, Ask)
      {
        ghost var b', a' := bids, asks;
        if changes[i].quantity == 0 {
          var applied := ApplyChange(changes[i]);
          if !applied {
            return false;
          }
        }
        PassedOneMore(b, b', bids, changes, i, true, Bid);
        PassedOneMore(a, a', asks, changes, i, true, Ask);
      }
      assert changes[..|changes|] == changes;
      ok := true;
    }

    /** Then the rest. After the gate an insertion cannot fail either. */
    method UpdatePass(changes: seq<Change>, ghost b0: seq<Level>, ghost a0: seq<Level>) returns (ok: bool)
      requires Valid() && valid && ValidSide(b0, Bid) && ValidSide(a0, Ask) && Fits(b0, a0, changes, maximum)
      requires Passed(b0, bids, changes, true, Bid) && Passed(a0, asks, changes, true, Ask)
      modifies this`bids, this`asks
      ensures Valid() && ok
      ensures Passed(old(bids), bids, changes, false, Bid) && Passed(old(asks), asks, changes, false, Ask)
    {
      hide Applied, Passed, ValidSide, QuantityAt, PricesAfter, DistinctKeys;
      ghost var b, a := bids, asks;
      NothingPassed(b, false, Bid);
      NothingPassed(a, false, Ask);
      for i := 0 to |changes|
        invariant Valid() && valid
        invariant Passed(b, bids, changes[..i], false, Bid) && Passed(a, asks, changes[..i], false, Ask)
      {
        var c := changes[i];
        ghost var b', a' := bids, asks;
        if c.quantity != 0 {
          if QuantityAt(Levels(c.side), c.price) == 0 {
            if c.side == Bid {
              RoomForInsert(b0, b, bids, Bid, changes, i, maximum);
            } else {
              RoomForInsert(a0, a, asks, Ask, changes, i, maximum);
            }
          }
          var applied := ApplyChange(c);
          if !applied {
            return false;
          }
        }
        PassedOneMore(b, b', bids, changes, i, false, Bid);
        PassedOneMore(a, a', asks, changes, i, false, Ask);
      }
      assert changes[..|changes|] == changes;
      ok := true;
    }

    /** Accepts exactly the next update id with changes that fit; the result is the old quantities
        overridden by the changes. Anything else empties and invalidates the book. */
    method ApplyDelta(id: Word, changes: seq<Change>) returns (ok: bool)
      requires Valid()
      modifies this
      ensures Valid() && valid == ok
      ensures ok <==> && old(valid) && old(updateId) != U64_MAX && id == old(updateId) + 1
                      && Fits(old(bids), old(asks), changes, maximum)
      ensures ok ==> && updateId == id && Overridden(old(bids), bids, changes, Bid)
                     && Overridden(old(asks), asks, changes, Ask)
    {
      hide Passed, Overridden, ValidSide, PricesAfter, DistinctKeys;
      var fits := DeltaFits(changes);
      if !valid || updateId == U64_MAX || id != updateId + 1 || !fits {
        ok := Invalidate();
        return;
      }
      ghost var b, a := bids, asks;
      var removed := RemovalPass(changes);
      assert removed; // the source's invalidate() here is unreachable
      ghost var b', a' := bids, asks;
      var updated := UpdatePass(changes, b, a);
      assert updated; // and so is this one
      PassesOverride(b, b', bids, changes, Bid);
      PassesOverride(a, a', asks, changes, Ask);
      updateId := id;
      ok := true;
    }

    method Best(side: Side) returns (best: Option<Level>)
      requires Valid()
      ensures best.None? ==> forall p: Word :: QuantityAt(Levels(side), p) == 0
      ensures best.Some? ==> && QuantityAt(Levels(side), best.value.price) == best.value.quantity != 0
                             && forall p: Word :: Better(side, p, best.value.price) ==> QuantityAt(Levels(side), p) == 0
    {
      hide QuantityAt;
      if !valid || Levels(side) == [] {
        forall p: Word ensures QuantityAt(Levels(side), p) == 0 { QuantityElsewhere(Levels(side), side, p); }
        return None;
      }
      var front := Levels(side)[0];
      QuantityOfLevel(Levels(side), side, 0);
      forall p: Word | Better(side, p, front.price) ensures QuantityAt(Levels(side), p) == 0 {
        QuantityElsewhere(Levels(side), side, p);
      }
      best := Some(front);
    }
  }

  // ----- what a change, a pass and a delta do to one side, price by price

  ghost predicate Applied(was: seq<Level>, now: seq<Level>, c: Change, side: Side) {
    forall p: Word :: QuantityAt(now, p) == if side == c.side && p == c.price then c.quantity else QuantityAt(was, p)
  }

  ghost predicate Passed(was: seq<Level>, now: seq<Level>, changes: seq<Change>, removals: bool, side: Side) {
    forall p: Word :: QuantityAt(now, p) == PassAt(changes, removals, side, p, QuantityAt(was, p))
  }

  ghost predicate Overridden(was: seq<Level>, now: seq<Level>, changes: seq<Change>, side: Side) {
    forall p: Word :: QuantityAt(now, p) == ChangedAt(changes, side, p, QuantityAt(was, p))
  }

  lemma NothingPassed(levels: seq<Level>, removals: bool, side: Side)
    ensures Passed(levels, levels, [], removals, side)
  {
  }

  lemma PassedOneMore(start: seq<Level>, was: seq<Level>, now: seq<Level>, changes: seq<Change>, i: nat,
      removals: bool, side: Side)
    requires i < |changes| && Passed(start, was, changes[..i], removals, side)
    requires if (changes[i].quantity == 0) == removals then Applied(was, now, changes[i], side) else now == was
    ensures Passed(start, now, changes[..i + 1], removals, side)
  {
    hide QuantityAt;
    assert changes[..i + 1][..i] == changes[..i];
  }

  lemma PassesOverride(start: seq<Level>, middle: seq<Level>, now: seq<Level>, changes: seq<Change>, side: Side)
    requires DistinctKeys(changes)
    requires Passed(start, middle, changes, true, side) && Passed(middle, now, changes, false, side)
    ensures Overridden(start, now, changes, side)
  {
    hide QuantityAt, PassAt, ChangedAt;
    forall p: Word ensures QuantityAt(now, p) == ChangedAt(changes, side, p, QuantityAt(start, p)) {
      TwoPassesAgree(changes, side, p, QuantityAt(start, p));
    }
  }

  /** The result of a delta is the same vector for every permutation of its changes. */
  lemma DeltaIgnoresOrder(was: seq<Level>, a: seq<Level>, b: seq<Level>, changes: seq<Change>,
      shuffled: seq<Change>, side: Side)
    requires DistinctKeys(changes) && multiset(changes) == multiset(shuffled)
    requires ValidSide(a, side) && Overridden(was, a, changes, side)
    requires ValidSide(b, side) && Overridden(was, b, shuffled, side)
    ensures a == b
  {
    hide QuantityAt, ChangedAt;
    forall p: Word ensures QuantityAt(a, p) == QuantityAt(b, p) {
      OrderIsIrrelevant(changes, shuffled, side, p, QuantityAt(was, p));
    }
    SidesDetermined(a, b, side);
  }

  /** And so is the decision of the gate. */
  lemma GateIgnoresOrder(bids: seq<Level>, asks: seq<Level>, changes: seq<Change>, shuffled: seq<Change>, maximum: nat)
    requires ValidSide(bids, Bid) && ValidSide(asks, Ask) && multiset(changes) == multiset(shuffled)
    ensures Fits(bids, asks, changes, maximum) <==> Fits(bids, asks, shuffled, maximum)
  {
    if DistinctKeys(changes) {
      DistinctKeysOfPermutation(changes, shuffled);
      SamePricesAfter(bids, changes, shuffled, Bid);
      SamePricesAfter(asks, changes, shuffled, Ask);
    } else if DistinctKeys(shuffled) {
      DistinctKeysOfPermutation(shuffled, changes);
    }
  }

  lemma SamePricesAfter(levels: seq<Level>, changes: seq<Change>, shuffled: seq<Change>, side: Side)
    requires ValidSide(levels, side) && DistinctKeys(changes) && multiset(changes) == multiset(shuffled)
    ensures PricesAfter(levels, changes, side) == PricesAfter(levels, shuffled, side)
  {
    hide QuantityAt, ChangedAt, PricesAfter;
    forall p: Word ensures p in PricesAfter(levels, changes, side) <==> p in PricesAfter(levels, shuffled, side) {
      PricesAfterAreNonzero(levels, changes, side, p);
      PricesAfterAreNonzero(levels, shuffled, side, p);
      OrderIsIrrelevant(changes, shuffled, side, p, QuantityAt(levels, p));
    }
  }

  /** In the second pass a level that is still missing always has room. */
  lemma RoomForInsert(start: seq<Level>, middle: seq<Level>, now: seq<Level>, side: Side, changes: seq<Change>,
      i: nat, maximum: nat)
    requires ValidSide(start, side) && ValidSide(now, side) && DistinctKeys(changes) && i < |changes|
    requires Passed(start, middle, changes, true, side) && Passed(middle, now, changes[..i], false, side)
    requires changes[i].side == side && changes[i].quantity != 0 && QuantityAt(now, changes[i].price) == 0
    requires |PricesAfter(start, changes, side)| <= maximum
    ensures |now| < maximum
  {
    hide QuantityAt, ChangedAt, PassAt, Prices, PricesAfter, ValidSide;
    var left, c := PricesAfter(start, changes, side), changes[i];
    forall p: Word | p in Prices(now) || p == c.price ensures p in left {
      PricesAreNonzero(now, side, p);
      PricesAfterAreNonzero(start, changes, side, p);
      TwoPassesAgree(changes, side, p, QuantityAt(start, p));
      SecondPassFills(changes, i, side, p, QuantityAt(middle, p));
    }
    PricesAreNonzero(now, side, c.price);
    assert Prices(now) <= left - {c.price};
    Subset(Prices(now), left - {c.price});
    PriceCount(now, side);
  }

  lemma {:induction false} Subset(a: set<Word>, b: set<Word>)
    requires a <= b
    ensures |a| <= |b|
  {
    if a == {} {
    } else {
      var x :| x in a;
      Subset(a - {x}, b - {x});
    }
  }

  lemma SplitDecides(levels: seq<Level>, side: Side, price: Word, k: nat)
    requires ValidSide(levels, side) && Splits(levels, side, price, k)
    ensures (k < |levels| && levels[k].price == price) <==> QuantityAt(levels, price) != 0
  {
    hide QuantityAt;
    if k < |levels| && levels[k].price == price { QuantityOfLevel(levels, side, k); }
    if QuantityAt(levels, price) != 0 { QuantityHasLevel(levels, price); }
  }

  /** `now` is the side after the changes. */
  ghost predicate Becomes(was: seq<Level>, now: seq<Level>, changes: seq<Change>, side: Side) {
    ValidSide(now, side) && Overridden(was, now, changes, side)
  }

  lemma SizeAfter(was: seq<Level>, now: seq<Level>, changes: seq<Change>, side: Side)
    requires ValidSide(was, side) && Becomes(was, now, changes, side)
    ensures |now| == |PricesAfter(was, changes, side)|
  {
    hide QuantityAt, ChangedAt, ValidSide, PricesAfter, Prices;
    forall p: Word ensures p in Prices(now) <==> p in PricesAfter(was, changes, side) {
      PricesAreNonzero(now, side, p);
      PricesAfterAreNonzero(was, changes, side, p);
    }
    assert Prices(now) == PricesAfter(was, changes, side);
    PriceCount(now, side);
  }

  /** A delta fits exactly when no level is named twice and the sides it leads to are within the limit. */
  lemma FitsExactly(bids: seq<Level>, asks: seq<Level>, changes: seq<Change>, maximum: nat,
                    bids': seq<Level>, asks': seq<Level>)
    requires ValidSide(bids, Bid) && ValidSide(asks, Ask)
    requires Becomes(bids, bids', changes, Bid) && Becomes(asks, asks', changes, Ask)
    ensures Fits(bids, asks, changes, maximum) <==>
              && (forall i, j :: 0 <= i < j < |changes| ==>
                    changes[i].side != changes[j].side || changes[i].price != changes[j].price)
              && |bids'| <= maximum && |asks'| <= maximum
  {
    hide ValidSide, PricesAfter, Becomes;
    SizeAfter(bids, bids', changes, Bid);
    SizeAfter(asks, asks', changes, Ask);
  }
}
