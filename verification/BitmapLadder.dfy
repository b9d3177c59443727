/**
 The 256-price ladder of the v4 and v6 books: one quantity per price, and four 64-bit words whose
 bits mark the nonzero ones, so that a best price is four word tests and one bit scan.
 */
module BitmapLadder {
  import opened Words

  const PRICE_COUNT: nat := 256
  const BITMAP_WORDS: nat := 4

  // ----- bit scans

  function TopBit(w: nat): nat
    requires w > 0
  {
    if w == 1 then 0 else 1 + TopBit(w / 2)
  }

  /** std::countr_zero on a nonzero word */
  function TrailingZeros(w: nat): nat
    requires w > 0
  {
    if w % 2 == 1 then 0 else 1 + TrailingZeros(w / 2)
  }

  /** std::countl_zero on a nonzero 64-bit word */
  function LeadingZeros(w: Word): (n: nat)
    requires w > 0
    ensures n == 63 - TopBit(w)
  {
    TopBitFits(w, 64);
    63 - TopBit(w)
  }

  lemma {:induction false} TopBitFits(w: nat, k: nat)
    requires 0 < w < (if k == 64 then U64 else Pow2(k))
    ensures TopBit(w) < k
  {
    Pow2Is32And64();
    if w == 1 {
    } else {
      TopBitFits(w / 2, k - 1);
    }
  }

  lemma {:induction false} TopBitIsHighest(w: nat, i: nat)
    requires w > 0
    ensures Bit(w, TopBit(w)) && (i > TopBit(w) ==> !Bit(w, i))
  {
    if w > 1 {
      TopBitIsHighest(w / 2, if i > 0 then i - 1 else 0);
    } else if i > 0 {
      ZeroHasNoBits(i - 1);
    }
  }

  lemma {:induction false} TrailingZerosIsLowest(w: nat, i: nat)
    requires w > 0
    ensures Bit(w, TrailingZeros(w)) && (i < TrailingZeros(w) ==> !Bit(w, i))
  {
    if w % 2 == 0 {
      TrailingZerosIsLowest(w / 2, if i > 0 then i - 1 else 0);
    }
  }

  lemma TrailingZerosFits(w: Word)
    requires w > 0
    ensures TrailingZeros(w) < 64
  {
    TrailingZerosIsLowest(w, 0);
    TopBitIsHighest(w, TrailingZeros(w));
    TopBitFits(w, 64);
  }

  // ----- the mark invariant

  /** Bit i of the words is set exactly when level i is nonzero. */
  ghost predicate Marks(words: seq<Word>, levels: seq<Word>) {
    && |words| == BITMAP_WORDS && |levels| == PRICE_COUNT
    && forall i :: 0 <= i < PRICE_COUNT ==> (Bit(words[i / 64], i % 64) <==> levels[i] != 0)
  }

  /** `w | (1 << b)` */
  function SetBit(w: Word, b: nat): (r: Word)
    requires b < 64
    ensures forall i: nat :: Bit(r, i) <==> Bit(w, i) || i == b
  {
    OrSetsBit(w, b);
    Or(w, Pow2(b))
  }

  /** `w & ~(1 << b)` */
  function ClearBit(w: Word, b: nat): (r: Word)
    requires b < 64
    ensures forall i: nat :: i < 64 ==> (Bit(r, i) <==> Bit(w, i) && i != b)
  {
    AndClearsBit(w, b);
    And(w, Not(Pow2(b), 64))
  }

  lemma OrSetsBit(w: Word, b: nat)
    requires b < 64
    ensures Or(w, Pow2(b)) < U64 && forall i: nat :: Bit(Or(w, Pow2(b)), i) <==> Bit(w, i) || i == b
  {
    Pow2Is32And64();
    Pow2Monotone(b + 1, 64);
    OrFits(w, Pow2(b), 64);
    forall i: nat ensures Bit(Or(w, Pow2(b)), i) <==> Bit(w, i) || i == b {
      BitOfOr(w, Pow2(b), i);
      BitOfPow2(b, i);
    }
  }

  lemma AndClearsBit(w: Word, b: nat)
    requires b < 64
    ensures And(w, Not(Pow2(b), 64)) < U64
    ensures forall i: nat :: i < 64 ==> (Bit(And(w, Not(Pow2(b), 64)), i) <==> Bit(w, i) && i != b)
  {
    AndFits(w, Not(Pow2(b), 64));
    forall i: nat | i < 64 ensures Bit(And(w, Not(Pow2(b), 64)), i) <==> Bit(w, i) && i != b {
      BitOfAnd(w, Not(Pow2(b), 64), i);
      BitOfNot(Pow2(b), 64, i);
      BitOfPow2(b, i);
    }
  }

  lemma MarkRaised(words: seq<Word>, levels: seq<Word>, i: nat, q: Word)
    requires Marks(words, levels) && i < PRICE_COUNT && levels[i] + q < U64 && q != 0
    ensures Marks(if levels[i] == 0 then words[i / 64 := SetBit(words[i / 64], i % 64)] else words,
                  levels[i := levels[i] + q])
  {
    hide SetBit, Bit;
  }

  lemma MarkLowered(words: seq<Word>, levels: seq<Word>, i: nat, q: Word)
    requires Marks(words, levels) && i < PRICE_COUNT && q <= levels[i]
    ensures Marks(if levels[i] == q then words[i / 64 := ClearBit(words[i / 64], i % 64)] else words,
                  levels[i := levels[i] - q])
  {
    hide ClearBit, Bit;
  }

  /** A zero word marks nothing. */
  lemma ZeroWordIsClear(words: seq<Word>, levels: seq<Word>, w: nat)
    requires Marks(words, levels) && w < BITMAP_WORDS && words[w] == 0
    ensures forall i :: 64 * w <= i < 64 * w + 64 ==> levels[i] == 0
  {
    forall i | 64 * w <= i < 64 * w + 64 ensures levels[i] == 0 {
      ZeroHasNoBits(i % 64);
      assert i / 64 == w;
    }
  }

  lemma HighestInWord(words: seq<Word>, levels: seq<Word>, w: nat)
    requires Marks(words, levels) && w < BITMAP_WORDS && words[w] != 0
    ensures TopBit(words[w]) < 64 && levels[64 * w + TopBit(words[w])] != 0
    ensures forall i :: 64 * w + TopBit(words[w]) < i < 64 * w + 64 ==> levels[i] == 0
  {
    hide Bit, TopBit;
    var b := TopBit(words[w]);
    TopBitFits(words[w], 64);
    TopBitIsHighest(words[w], 0);
    assert (64 * w + b) / 64 == w && (64 * w + b) % 64 == b;
    forall i | 64 * w + b < i < 64 * w + 64 ensures levels[i] == 0 {
      TopBitIsHighest(words[w], i - 64 * w);
      assert i / 64 == w && i % 64 == i - 64 * w;
    }
  }

  lemma LowestInWord(words: seq<Word>, levels: seq<Word>, w: nat)
    requires Marks(words, levels) && w < BITMAP_WORDS && words[w] != 0
    ensures TrailingZeros(words[w]) < 64 && levels[64 * w + TrailingZeros(words[w])] != 0
    ensures forall i :: 64 * w <= i < 64 * w + TrailingZeros(words[w]) ==> levels[i] == 0
  {
    hide Bit, TrailingZeros;
    var b := TrailingZeros(words[w]);
    TrailingZerosFits(words[w]);
    TrailingZerosIsLowest(words[w], 0);
    assert (64 * w + b) / 64 == w && (64 * w + b) % 64 == b;
    forall i | 64 * w <= i < 64 * w + b ensures levels[i] == 0 {
      TrailingZerosIsLowest(words[w], i - 64 * w);
      assert i / 64 == w && i % 64 == i - 64 * w;
    }
  }

  class Ladder {
    const levels: array<Word>
    const words: array<Word>

    ghost predicate Valid()
      reads levels, words
    {
      levels != words && Marks(words[..], levels[..])
    }

    constructor ()
      ensures Valid() && fresh(levels) && fresh(words)
      ensures forall i :: 0 <= i < PRICE_COUNT ==> levels[i] == 0
    {
      levels := new Word[PRICE_COUNT](_ => 0);
      words := new Word[BITMAP_WORDS](_ => 0);
      new;
      forall i | 0 <= i < PRICE_COUNT ensures !Bit(words[i / 64], i % 64) {
        ZeroHasNoBits(i % 64);
      }
    }

    /** Refuses, changing nothing, when the level would overflow. */
    method AddLevel(i: nat, quantity: Word) returns (ok: bool)
      requires Valid() && i < PRICE_COUNT && quantity != 0
      modifies levels, words
      ensures Valid()
      ensures ok <==> old(levels[i]) + quantity < U64
      ensures levels[..] == if ok then old(levels[..])[i := old(levels[i]) + quantity] else old(levels[..])
    {
      hide SetBit, Bit;
      if U64_MAX - levels[i] < quantity {
        return false;
      }
      ghost var w, l := words[..], levels[..];
      MarkRaised(w, l, i, quantity);
      if levels[i] == 0 {
        words[i / 64] := SetBit(words[i / 64], i % 64);
        assert words[..] == w[i / 64 := SetBit(w[i / 64], i % 64)];
      }
      levels[i] := levels[i] + quantity;
      assert levels[..] == l[i := l[i] + quantity];
      ok := true;
    }

    method SubtractLevel(i: nat, quantity: Word) returns (ok: bool)
      requires Valid() && i < PRICE_COUNT
      modifies levels, words
      ensures Valid()
      ensures ok <==> 0 < quantity <= old(levels[i])
      ensures levels[..] == if ok then old(levels[..])[i := old(levels[i]) - quantity] else old(levels[..])
    {
      hide ClearBit, Bit;
      if quantity == 0 || quantity > levels[i] {
        return false;
      }
      ghost var w, l := words[..], levels[..];
      MarkLowered(w, l, i, quantity);
      levels[i] := levels[i] - quantity;
      assert levels[..] == l[i := l[i] - quantity];
      if levels[i] == 0 {
        words[i / 64] := ClearBit(words[i / 64], i % 64);
        assert words[..] == w[i / 64 := ClearBit(w[i / 64], i % 64)];
      }
      ok := true;
    }

    /** The highest nonzero level, or PRICE_COUNT when there is none. */
    method Highest() returns (index: nat)
      requires Valid()
      ensures index <= PRICE_COUNT
      ensures index < PRICE_COUNT ==> levels[index] != 0 && forall i :: index < i < PRICE_COUNT ==> levels[i] == 0
      ensures index == PRICE_COUNT ==> forall i :: 0 <= i < PRICE_COUNT ==> levels[i] == 0
    {
      hide TopBit, Bit;
      var word: nat := BITMAP_WORDS;
      while word > 0
        invariant word <= BITMAP_WORDS
        invariant forall i :: 64 * word <= i < PRICE_COUNT ==> levels[i] == 0
      {
        word := word - 1;
        if words[word] != 0 {
          HighestInWord(words[..], levels[..], word);
          return word * 64 + (63 - LeadingZeros(words[word]));
        }
        ZeroWordIsClear(words[..], levels[..], word);
      }
      index := PRICE_COUNT;
    }

    /** The lowest nonzero level, or PRICE_COUNT when there is none. */
    method Lowest() returns (index: nat)
      requires Valid()
      ensures index <= PRICE_COUNT
      ensures index < PRICE_COUNT ==> levels[index] != 0 && forall i :: 0 <= i < index ==> levels[i] == 0
      ensures index == PRICE_COUNT ==> forall i :: 0 <= i < PRICE_COUNT ==> levels[i] == 0
    {
      hide TrailingZeros, Bit;
      for word := 0 to BITMAP_WORDS
        invariant forall i :: 0 <= i < 64 * word ==> levels[i] == 0
      {
        if words[word] != 0 {
          LowestInWord(words[..], levels[..], word);
          return word * 64 + TrailingZeros(words[word]);
        }
        ZeroWordIsClear(words[..], levels[..], word);
      }
      index := PRICE_COUNT;
    }
  }
}
