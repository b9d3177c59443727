/** Aggregate (L2) books: what a snapshot and a delta mean, price by price. */
module L2 {
  import opened Words

  datatype Side = Bid | Ask
  datatype Level = Level(price: Word, quantity: Word)
  datatype Change = Change(side: Side, price: Word, quantity: Word)

  predicate Better(side: Side, p: Word, q: Word) {
    if side == Bid then p > q else p < q
  }

  /** Strictly sorted, best first, and no empty level. */
  ghost predicate ValidSide(levels: seq<Level>, side: Side) {
    && (forall i :: 0 <= i < |levels| ==> levels[i].quantity != 0)
    && (forall i, j :: 0 <= i < j < |levels| ==> Better(side, levels[i].price, levels[j].price))
  }

  /** Quantity at a price, 0 when the price has no level; the last mention wins. */
  function QuantityAt(levels: seq<Level>, price: Word): Word {
    if levels == [] then 0
    else if levels[|levels| - 1].price == price then levels[|levels| - 1].quantity
    else QuantityAt(levels[..|levels| - 1], price)
  }

  /** Quantity at (side, price) after the changes, applied in order, when it was `was` before. */
  function ChangedAt(changes: seq<Change>, side: Side, price: Word, was: Word): Word {
    if changes == [] then was
    else
      var c := changes[|changes| - 1];
      if c.side == side && c.price == price then c.quantity else ChangedAt(changes[..|changes| - 1], side, price, was)
  }

  /** No two changes name the same level. */
  ghost predicate DistinctKeys(changes: seq<Change>) {
    forall i, j :: 0 <= i < j < |changes| ==>
        !(changes[i].side == changes[j].side && changes[i].price == changes[j].price)
  }

  // ----- quantities in a sorted side

  lemma {:induction false} QuantityOfLevel(levels: seq<Level>, side: Side, i: nat)
    requires ValidSide(levels, side) && i < |levels|
    ensures QuantityAt(levels, levels[i].price) == levels[i].quantity
  {
    var init := levels[..|levels| - 1];
    if i < |levels| - 1 {
      assert Better(side, levels[i].price, levels[|levels| - 1].price);
      assert init[i] == levels[i];
      QuantityOfLevel(init, side, i);
    }
  }

  lemma {:induction false} QuantityHasLevel(levels: seq<Level>, price: Word)
    requires QuantityAt(levels, price) != 0
    ensures exists i :: 0 <= i < |levels| && levels[i].price == price && levels[i].quantity == QuantityAt(levels, price)
  {
    var init := levels[..|levels| - 1];
    if levels[|levels| - 1].price != price {
      QuantityHasLevel(init, price);
      var i :| 0 <= i < |init| && init[i].price == price && init[i].quantity == QuantityAt(init, price);
      assert levels[i] == init[i];
    }
  }

  lemma QuantityElsewhere(levels: seq<Level>, side: Side, price: Word)
    requires forall i :: 0 <= i < |levels| ==> levels[i].price != price
    ensures QuantityAt(levels, price) == 0
  {
    if QuantityAt(levels, price) != 0 { QuantityHasLevel(levels, price); }
  }

  /** A sorted side is determined by its quantities. */
  lemma {:induction false} SidesDetermined(a: seq<Level>, b: seq<Level>, side: Side)
    requires ValidSide(a, side) && ValidSide(b, side)
    requires forall p: Word :: QuantityAt(a, p) == QuantityAt(b, p)
    ensures a == b
  {
    if a != [] { LastIsShared(a, b, side); }
    if b != [] { LastIsShared(b, a, side); }
    if a == [] || b == [] {
    } else {
      var x, y := a[|a| - 1], b[|b| - 1];
      QuantityOfLevel(a, side, |a| - 1);
      QuantityOfLevel(b, side, |b| - 1);
      assert x == y;
      var a', b' := a[..|a| - 1], b[..|b| - 1];
      forall p: Word ensures QuantityAt(a', p) == QuantityAt(b', p) {
        assert QuantityAt(a, p) == QuantityAt(b, p);
        if p == x.price {
          QuantityElsewhere(a', side, p);
          QuantityElsewhere(b', side, p);
        }
      }
      SidesDetermined(a', b', side);
      assert a == a' + [x] && b == b' + [y];
    }
  }

  lemma LastIsShared(a: seq<Level>, b: seq<Level>, side: Side)
    requires ValidSide(a, side) && ValidSide(b, side) && a != []
    requires forall p: Word :: QuantityAt(a, p) == QuantityAt(b, p)
    ensures b != [] && !Better(side, b[|b| - 1].price, a[|a| - 1].price)
  {
    var x := a[|a| - 1];
    QuantityOfLevel(a, side, |a| - 1);
    assert QuantityAt(b, x.price) == x.quantity;
    QuantityHasLevel(b, x.price);
    var i :| 0 <= i < |b| && b[i].price == x.price && b[i].quantity == QuantityAt(b, x.price);
    assert i == |b| - 1 || Better(side, b[i].price, b[|b| - 1].price);
  }

  // ----- the set of prices

  ghost function Prices(levels: seq<Level>): set<Word> {
    set i | 0 <= i < |levels| :: levels[i].price
  }

  lemma LastPriceIsNew(levels: seq<Level>, side: Side)
    requires ValidSide(levels, side) && levels != []
    ensures var init, last := levels[..|levels| - 1], levels[|levels| - 1];
            && ValidSide(init, side)
            && Prices(levels) == Prices(init) + {last.price} && last.price !in Prices(init)
  {
    var init, last := levels[..|levels| - 1], levels[|levels| - 1];
    assert forall i :: 0 <= i < |init| ==> init[i] == levels[i];
    forall p ensures p in Prices(levels) <==> p in Prices(init) || p == last.price {
      if p in Prices(init) {
        var i :| 0 <= i < |init| && init[i].price == p;
        assert levels[i].price == p;
      }
      if p in Prices(levels) {
        var i :| 0 <= i < |levels| && levels[i].price == p;
        assert i < |init| ==> init[i].price == p;
      }
    }
  }

  lemma {:induction false} PriceCount(levels: seq<Level>, side: Side)
    requires ValidSide(levels, side)
    ensures |Prices(levels)| == |levels|
  {
    if levels == [] {
      assert Prices(levels) == {};
    } else {
      hide Prices, ValidSide;
      LastPriceIsNew(levels, side);
      PriceCount(levels[..|levels| - 1], side);
    }
  }

  lemma PricesAreNonzero(levels: seq<Level>, side: Side, p: Word)
    requires ValidSide(levels, side)
    ensures p in Prices(levels) <==> QuantityAt(levels, p) != 0
  {
    if p in Prices(levels) {
      var i :| 0 <= i < |levels| && levels[i].price == p;
      QuantityOfLevel(levels, side, i);
    }
    if QuantityAt(levels, p) != 0 { QuantityHasLevel(levels, p); }
  }

  /** The prices left on a side after the changes. */
  ghost function PricesAfter(levels: seq<Level>, changes: seq<Change>, side: Side): set<Word> {
    if changes == [] then Prices(levels)
    else
      var c, before := changes[|changes| - 1], PricesAfter(levels, changes[..|changes| - 1], side);
      if c.side != side then before
      else if c.quantity == 0 then before - {c.price}
      else before + {c.price}
  }

  lemma {:induction false} PricesAfterAreNonzero(levels: seq<Level>, changes: seq<Change>, side: Side, p: Word)
    requires ValidSide(levels, side)
    ensures p in PricesAfter(levels, changes, side) <==> ChangedAt(changes, side, p, QuantityAt(levels, p)) != 0
  {
    hide QuantityAt;
    if changes == [] {
      PricesAreNonzero(levels, side, p);
    } else {
      PricesAfterAreNonzero(levels, changes[..|changes| - 1], side, p);
    }
  }

  // ----- two passes: removals first, then the rest

  /** ChangedAt restricted to the removals, or to the others. */
  function PassAt(changes: seq<Change>, removals: bool, side: Side, price: Word, was: Word): Word {
    if changes == [] then was
    else
      var c := changes[|changes| - 1];
      if c.side == side && c.price == price && (c.quantity == 0) == removals then c.quantity
      else PassAt(changes[..|changes| - 1], removals, side, price, was)
  }

  ghost predicate Touches(changes: seq<Change>, side: Side, price: Word) {
    exists i :: 0 <= i < |changes| && changes[i].side == side && changes[i].price == price
  }

  lemma {:induction false} UntouchedStays(changes: seq<Change>, side: Side, price: Word, was: Word)
    requires !Touches(changes, side, price)
    ensures ChangedAt(changes, side, price, was) == was
    ensures PassAt(changes, true, side, price, was) == was && PassAt(changes, false, side, price, was) == was
  {
    if changes == [] {
    } else {
      var init := changes[..|changes| - 1];
      assert !(changes[|changes| - 1].side == side && changes[|changes| - 1].price == price);
      forall i | 0 <= i < |init| ensures !(init[i].side == side && init[i].price == price) {
        assert init[i] == changes[i];
      }
      UntouchedStays(init, side, price, was);
    }
  }

  /** Removing first and inserting afterwards gives what the changes give in order. */
  lemma {:induction false} TwoPassesAgree(changes: seq<Change>, side: Side, price: Word, was: Word)
    requires DistinctKeys(changes)
    ensures PassAt(changes, false, side, price, PassAt(changes, true, side, price, was))
              == ChangedAt(changes, side, price, was)
  {
    if changes == [] {
    } else {
      var init, c := changes[..|changes| - 1], changes[|changes| - 1];
      assert forall i :: 0 <= i < |init| ==> init[i] == changes[i];
      if c.side == side && c.price == price {
        assert !Touches(init, side, price);
        UntouchedStays(init, side, price, was);
        UntouchedStays(init, side, price, 0);
      } else {
        TwoPassesAgree(init, side, price, was);
      }
    }
  }

  /** The second pass never empties a level, and fills every level it names. */
  lemma {:induction false} SecondPassFills(changes: seq<Change>, k: nat, side: Side, price: Word, was: Word)
    requires k <= |changes|
    ensures PassAt(changes[..k], false, side, price, was) != 0 ==> PassAt(changes, false, side, price, was) != 0
    ensures k < |changes| && changes[k].side == side && changes[k].price == price && changes[k].quantity != 0
            ==> PassAt(changes, false, side, price, was) != 0
  {
    if k < |changes| {
      var init := changes[..|changes| - 1];
      assert init[..k] == changes[..k];
      if k < |init| { assert init[k] == changes[k]; }
      SecondPassFills(init, k, side, price, was);
    } else {
      assert changes[..k] == changes;
    }
  }

  // ----- order of changes does not matter

  lemma {:induction false} ChangeDecides(changes: seq<Change>, i: nat, was: Word)
    requires DistinctKeys(changes) && i < |changes|
    ensures ChangedAt(changes, changes[i].side, changes[i].price, was) == changes[i].quantity
  {
    var init := changes[..|changes| - 1];
    if i < |init| {
      assert init[i] == changes[i];
      ChangeDecides(init, i, was);
    }
  }

  lemma {:induction false} DistinctMeansOnce(a: seq<Change>, x: Change)
    requires DistinctKeys(a)
    ensures multiset(a)[x] <= 1
  {
    if a == [] {
    } else {
      var init, last := a[..|a| - 1], a[|a| - 1];
      assert a == init + [last];
      DistinctMeansOnce(init, x);
      assert last !in init;
    }
  }

  lemma DistinctKeysOfPermutation(a: seq<Change>, b: seq<Change>)
    requires DistinctKeys(a) && multiset(a) == multiset(b)
    ensures DistinctKeys(b)
  {
    forall i, j | 0 <= i < j < |b| ensures !(b[i].side == b[j].side && b[i].price == b[j].price) {
      DistinctMeansOnce(a, b[i]);
      if b[i] == b[j] { TwoPlacesMeanTwice(b, i, j); }
      assert b[i] in multiset(a) && b[j] in multiset(a);
      var k :| 0 <= k < |a| && a[k] == b[i];
      var l :| 0 <= l < |a| && a[l] == b[j];
    }
  }

  /** Any permutation of the changes leads to the same quantity at every level. */
  lemma OrderIsIrrelevant(a: seq<Change>, b: seq<Change>, side: Side, price: Word, was: Word)
    requires DistinctKeys(a) && multiset(a) == multiset(b)
    ensures ChangedAt(a, side, price, was) == ChangedAt(b, side, price, was)
  {
    hide ChangedAt;
    DistinctKeysOfPermutation(a, b);
    if Touches(a, side, price) {
      var i :| 0 <= i < |a| && a[i].side == side && a[i].price == price;
      assert a[i] in multiset(b);
      var j :| 0 <= j < |b| && b[j] == a[i];
      ChangeDecides(a, i, was);
      ChangeDecides(b, j, was);
    } else {
      forall j | 0 <= j < |b| ensures !(b[j].side == side && b[j].price == price) {
        assert b[j] in multiset(a);
        var i :| 0 <= i < |a| && a[i] == b[j];
      }
      UntouchedStays(a, side, price, was);
      UntouchedStays(b, side, price, was);
    }
  }

  // ----- what the definitions mean

  /** Bids descend, asks ascend, and nothing is empty. */
  lemma ValidSideMeans(levels: seq<Level>, side: Side)
    ensures ValidSide(levels, side) <==>
              && (forall i :: 0 <= i < |levels| ==> levels[i].quantity > 0)
              && (forall i :: 0 < i < |levels| ==>
                    var p, q := levels[i - 1].price, levels[i].price;
                    if side == Bid then p > q else p < q)
  {
    if forall i :: 0 < i < |levels| ==> Better(side, levels[i - 1].price, levels[i].price) {
      forall i: nat, j: nat | i < j < |levels| ensures Better(side, levels[i].price, levels[j].price) {
        NeighboursDecide(levels, side, i, j);
      }
    }
    assert ValidSide(levels, side) ==>
        forall i :: 0 < i < |levels| ==> Better(side, levels[i - 1].price, levels[i].price);
  }

  lemma {:induction false} NeighboursDecide(levels: seq<Level>, side: Side, i: nat, j: nat)
    requires i < j < |levels|
    requires forall k :: 0 < k < |levels| ==> Better(side, levels[k - 1].price, levels[k].price)
    ensures Better(side, levels[i].price, levels[j].price)
  {
    assert Better(side, levels[j - 1].price, levels[j].price);
    if j == i + 1 {
    } else {
      NeighboursDecide(levels, side, i, j - 1);
    }
  }

  /** The last level given for a price decides its quantity. */
  lemma LastLevelWins(levels: seq<Level>, l: Level, price: Word)
    ensures QuantityAt(levels + [l], price) == if price == l.price then l.quantity else QuantityAt(levels, price)
    ensures QuantityAt([], price) == 0
  {
    assert (levels + [l])[..|levels|] == levels;
  }

  /** The last change given for a side and price decides its quantity; without one it stays. */
  lemma LastChangeWins(changes: seq<Change>, c: Change, side: Side, price: Word, was: Word)
    ensures ChangedAt(changes + [c], side, price, was)
         == if side == c.side && price == c.price then c.quantity else ChangedAt(changes, side, price, was)
    ensures ChangedAt([], side, price, was) == was
  {
    assert (changes + [c])[..|changes|] == changes;
  }
}
