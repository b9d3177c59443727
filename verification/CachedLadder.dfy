/** The dense ladders of the v3 book, which cache the best price of each side between updates. */
module CachedLadder {
  import opened Words
  import opened L3

  /** `best` is the extreme nonzero price of the side, or None when every level is zero. */
  ghost predicate CachesBest(levels: seq<Word>, minimum: Word, side: Side, best: Option<Word>) {
    match best
    case None => forall i :: 0 <= i < |levels| ==> levels[i] == 0
    case Some(p) =>
      && minimum <= p < minimum + |levels| && levels[p - minimum] != 0
      && forall i :: 0 <= i < |levels| && levels[i] != 0 ==> if side == Bid then minimum + i <= p else p <= minimum + i
  }

  class Ladders {
    const bids: array<Word>
    const asks: array<Word>
    const minimum: Word
    var bestBid: Option<Word>
    var bestAsk: Option<Word>

    ghost predicate Valid()
      reads this, bids, asks
    {
      && bids != asks && bids.Length == asks.Length && minimum + bids.Length <= U64
      && CachesBest(bids[..], minimum, Bid, bestBid)
      && CachesBest(asks[..], minimum, Ask, bestAsk)
    }

    constructor (minimum: Word, priceCount: nat)
      requires priceCount > 0 && minimum + priceCount <= U64
      ensures Valid() && fresh(bids) && fresh(asks) && bestBid == None && bestAsk == None
      ensures this.minimum == minimum && bids.Length == priceCount
    {
      bids := new Word[priceCount](_ => 0);
      asks := new Word[priceCount](_ => 0);
      this.minimum := minimum;
      bestBid, bestAsk := None, None;
    }

    function LadderOf(side: Side): array<Word> {
      if side == Bid then bids else asks
    }

    ghost predicate OnLadder(price: Word) {
      minimum <= price < minimum + bids.Length
    }

    /** After an accepted or refused update the cached prices are the true extremes. */
    method AddLevel(side: Side, price: Word, quantity: Word) returns (ok: bool)
      requires Valid() && quantity != 0
      modifies this, LadderOf(side)
      ensures Valid()
      ensures ok <==> OnLadder(price) && old(LadderOf(side)[price - minimum]) + quantity < U64
      ensures var was := old(LadderOf(side)[..]);
              LadderOf(side)[..] == if ok then was[price - minimum := was[price - minimum] + quantity] else was
    {
      if price < minimum || price - minimum >= bids.Length {
        return false;
      }
      var ladder := LadderOf(side);
      var i := price - minimum;
      if U64_MAX - ladder[i] < quantity {
        return false;
      }
      ghost var was := ladder[..];
      ladder[i] := ladder[i] + quantity;
      assert ladder[..] == was[i := was[i] + quantity];
      if side == Bid {
        if bestBid.None? || price > bestBid.value {
          bestBid := Some(price);
        }
      } else if bestAsk.None? || price < bestAsk.value {
        bestAsk := Some(price);
      }
      ok := true;
    }

    method SubtractLevel(side: Side, price: Word, quantity: Word) returns (ok: bool)
      requires Valid()
      modifies this, LadderOf(side)
      ensures Valid()
      ensures ok <==> OnLadder(price) && 0 < quantity <= old(LadderOf(side)[price - minimum])
      ensures var was := old(LadderOf(side)[..]);
              LadderOf(side)[..] == if ok then was[price - minimum := was[price - minimum] - quantity] else was
    {
      if price < minimum || price - minimum >= bids.Length {
        return false;
      }
      var ladder := LadderOf(side);
      var i := price - minimum;
      if quantity == 0 || quantity > ladder[i] {
        return false;
      }
      ghost var was := ladder[..];
      ladder[i] := ladder[i] - quantity;
      assert ladder[..] == was[i := was[i] - quantity];
      if ladder[i] == 0 && ((side == Bid && bestBid == Some(price)) || (side == Ask && bestAsk == Some(price))) {
        RefreshBest(side);
      }
      ok := true;
    }

    method RefreshBest(side: Side)
      requires bids.Length == asks.Length && minimum + bids.Length <= U64
      modifies this
      ensures CachesBest(LadderOf(side)[..], minimum, side, if side == Bid then bestBid else bestAsk)
      ensures side == Bid ==> bestAsk == old(bestAsk)
      ensures side == Ask ==> bestBid == old(bestBid)
    {
      if side == Bid {
        bestBid := None;
        var i := bids.Length;
        while i > 0
          invariant 0 <= i <= bids.Length && bestBid == None && bestAsk == old(bestAsk)
          invariant forall j :: i <= j < bids.Length ==> bids[j] == 0
        {
          i := i - 1;
          if bids[i] != 0 {
            bestBid := Some(minimum + i);
            break;
          }
        }
      } else {
        bestAsk := None;
        for i := 0 to asks.Length
          invariant bestAsk == None && bestBid == old(bestBid)
          invariant forall j :: 0 <= j < i ==> asks[j] == 0
        {
          if asks[i] != 0 {
            bestAsk := Some(minimum + i);
            break;
          }
        }
      }
    }
  }

  /** None is the invalid-range exception. */
  method NewLadders(minimum: Word, priceCount: Word) returns (ladders: Option<Ladders>)
    ensures ladders.Some? <==> priceCount > 0 && minimum + priceCount <= U64
    ensures ladders.Some? ==> && ladders.value.Valid() && fresh(ladders.value)
                              && ladders.value.minimum == minimum && ladders.value.bids.Length == priceCount
                              && ladders.value.bestBid == None && ladders.value.bestAsk == None
  {
    if priceCount == 0 || minimum > U64_MAX - (priceCount - 1) {
      return None;
    }
    var l := new Ladders(minimum, priceCount);
    ladders := Some(l);
  }
}
