/** The FNV-1a state digest, split into the hash and the byte stream fed to it. */
module Digest {
  import opened Words
  import opened Bytes
  import opened L3

  const FNV_BASIS: Word := 14695981039346656037
  const FNV_PRIME: Word := 1099511628211

  function HashByte(h: Word, b: byte): Word {
    (Xor(h, b) * FNV_PRIME) % U64
  }

  function Fnv(h: Word, bytes: seq<byte>): Word {
    if bytes == [] then h else HashByte(Fnv(h, bytes[..|bytes| - 1]), bytes[|bytes| - 1])
  }

  lemma {:induction false} FnvConcat(h: Word, a: seq<byte>, b: seq<byte>)
    ensures Fnv(h, a + b) == Fnv(Fnv(h, a), b)
  {
    hide HashByte;
    if b == [] {
      assert a + b == a;
    } else {
      FnvConcat(h, a, b[..|b| - 1]);
      assert (a + b)[..|a + b| - 1] == a + b[..|b| - 1];
    }
  }

  lemma FnvSnoc(h: Word, fed: seq<byte>, b: byte)
    ensures Fnv(h, fed + [b]) == HashByte(Fnv(h, fed), b)
  {
    assert (fed + [b])[..|fed|] == fed;
  }

  lemma HashValue(h: Word, b: byte, low: byte)
    requires Xor(h % 256, b) == low
    ensures HashByte(h, b) == (h - h % 256 + low) * FNV_PRIME % U64
  {
    XorLowByte(h, b);
  }

  lemma XorValue()
    ensures Xor(0x25, 97) == 0x44
  {
    assert Xor(0x01, 3) == 0x02;
    assert Xor(0x02, 6) == 0x04;
    assert Xor(0x04, 12) == 0x08;
    assert Xor(0x09, 24) == 0x11;
    assert Xor(0x12, 48) == 0x22;
    assert Xor(0x25, 97) == 0x44;
  }

  /** Published values of 64-bit FNV-1a: of nothing and of "a". */
  lemma FnvValues()
    ensures Fnv(FNV_BASIS, []) == 0xcbf29ce484222325
    ensures Fnv(FNV_BASIS, [97]) == 0xaf63dc4c8601ec8c
  {
    assert Fnv(FNV_BASIS, []) == FNV_BASIS;
    assert [] + [97] == [97];
    assert HashByte(FNV_BASIS, 97) == 0xaf63dc4c8601ec8c by { FirstValue(); }
    hide Fnv, HashByte;
    FnvSnoc(FNV_BASIS, [], 97);
  }

  lemma FirstValue()
    ensures HashByte(FNV_BASIS, 97) == 0xaf63dc4c8601ec8c
  {
    hide Xor, HashByte;
    XorValue();
    assert FNV_BASIS % 256 == 0x25;
    HashValue(FNV_BASIS, 97, 0x44);
    assert 0xcbf29ce484222344 * FNV_PRIME == 875948729822 * U64 + 0xaf63dc4c8601ec8c;
    DivModUnique(0xcbf29ce484222344 * FNV_PRIME, U64, 875948729822, 0xaf63dc4c8601ec8c);
  }

  /** The inverse of the multiplier modulo 2^64. */
  const FNV_INVERSE: Word := 14886173955864302971

  lemma Unmultiply(x: Word)
    ensures x * FNV_PRIME % U64 * FNV_INVERSE % U64 == x
  {
    var y := x * FNV_PRIME;
    var q := y / U64;
    var t := x * 887285111055;
    assert y * FNV_INVERSE == t * U64 + x;
    assert y % U64 * FNV_INVERSE == y * FNV_INVERSE - q * FNV_INVERSE * U64;
    var z := y % U64 * FNV_INVERSE;
    assert z == (t - q * FNV_INVERSE) * U64 + x;
    assert t - q * FNV_INVERSE >= 0;
    DivModUnique(z, U64, t - q * FNV_INVERSE, x);
  }

  /** A step loses nothing: different states stay different, and different bytes make them different. */
  lemma HashByteIsInjective(h: Word, h': Word, b: byte, b': byte)
    requires HashByte(h, b) == HashByte(h', b') && (h == h' || b == b')
    ensures h == h' && b == b'
  {
    hide Xor;
    Pow2Is32And64();
    XorFits(h, b, 64);
    XorFits(h', b', 64);
    Unmultiply(Xor(h, b));
    Unmultiply(Xor(h', b'));
    if h == h' {
      XorCancels(h, b, b');
    } else {
      XorCommutes(h, b);
      XorCommutes(h', b);
      XorCancels(b, h, h');
    }
  }

  lemma {:induction false} FnvIsInjective(h: Word, h': Word, bytes: seq<byte>)
    requires Fnv(h, bytes) == Fnv(h', bytes)
    ensures h == h'
  {
    hide HashByte;
    if bytes == [] {
    } else {
      var init, b := bytes[..|bytes| - 1], bytes[|bytes| - 1];
      HashByteIsInjective(Fnv(h, init), Fnv(h', init), b, b);
      FnvIsInjective(h, h', init);
    }
  }

  /** Streams that differ in one byte have different digests. */
  lemma OneByteShows(h: Word, before: seq<byte>, b: byte, b': byte, after: seq<byte>)
    requires b != b'
    ensures Fnv(h, before + [b] + after) != Fnv(h, before + [b'] + after)
  {
    hide HashByte, Fnv;
    var x := Fnv(h, before);
    FnvConcat(h, before + [b], after);
    FnvConcat(h, before + [b'], after);
    FnvSnoc(h, before, b);
    FnvSnoc(h, before, b');
    if Fnv(h, before + [b] + after) == Fnv(h, before + [b'] + after) {
      FnvIsInjective(HashByte(x, b), HashByte(x, b'), after);
      HashByteIsInjective(x, x, b, b');
    }
  }

  /** Feeds the eight bytes of `value`, least significant first. */
  method HashU64(h: Word, value: nat) returns (r: Word)
    ensures r == Fnv(h, Le(value, 8))
  {
    hide HashByte, Fnv, Le;
    r := h;
    FnvEmpty(h);
    var rest := value;
    ghost var fed: seq<byte> := [];
    for i := 0 to 8
      invariant fed + Le(rest, 8 - i) == Le(value, 8)
      invariant r == Fnv(h, fed)
    {
      r := HashByte(r, rest % 256);
      FnvSnoc(h, fed, rest % 256);
      LeStep(rest, 8 - i);
      assert fed + ([rest % 256] + Le(rest / 256, 7 - i)) == (fed + [rest % 256]) + Le(rest / 256, 7 - i);
      fed := fed + [rest % 256];
      rest := rest / 256;
    }
    assert fed == fed + Le(rest, 0);
  }

  // ----- ascending order

  predicate Ascending(s: seq<Word>) {
    forall i, j :: 0 <= i < j < |s| ==> s[i] < s[j]
  }

  ghost function Elements<T>(s: seq<T>): set<T> {
    set x | x in s
  }

  /** Two ascending sequences over the same set are the same sequence. */
  lemma {:induction false} AscendingIsUnique(s: seq<Word>, t: seq<Word>)
    requires Ascending(s) && Ascending(t) && forall x :: x in s <==> x in t
    ensures s == t
  {
    assert s != [] ==> s[0] in t;
    assert t != [] ==> t[0] in s;
    if s == [] {
    } else {
      assert s[0] == t[0];
      forall x ensures x in s[1..] <==> x in t[1..] {
        assert x in s[1..] <==> x in s && x != s[0];
        assert x in t[1..] <==> x in t && x != t[0];
      }
      AscendingIsUnique(s[1..], t[1..]);
    }
  }

  lemma AscendingBounds(s: seq<Word>)
    requires Ascending(s) && s != []
    ensures s[0] in s && s[|s| - 1] in s && forall x :: x in s ==> s[0] <= x <= s[|s| - 1]
  {
  }

  function Insert(x: Word, s: seq<Word>): (r: seq<Word>)
    requires Ascending(s) && x !in s
    ensures Ascending(r) && forall y :: y in r <==> y == x || y in s
  {
    if s == [] || x < s[0] then [x] + s
    else
      assert forall y :: y in s <==> y == s[0] || y in s[1..];
      var r := Insert(x, s[1..]);
      assert forall y :: y in s[1..] ==> s[0] < y;
      assert forall y :: y in r ==> s[0] < y;
      assert forall j :: 0 <= j < |r| ==> r[j] in r;
      [s[0]] + r
  }

  /** The members of a finite set in ascending order. */
  ghost function Sorted(xs: set<Word>): (s: seq<Word>)
    ensures Ascending(s) && forall x :: x in s <==> x in xs
  {
    if xs == {} then [] else var x :| x in xs; Insert(x, Sorted(xs - {x}))
  }

  lemma {:induction false} SortedSize(s: seq<Word>, xs: set<Word>)
    requires Ascending(s) && forall x :: x in s <==> x in xs
    ensures |s| == |xs|
  {
    if s == [] {
      assert xs == {};
    } else {
      var init, last := s[..|s| - 1], s[|s| - 1];
      forall x ensures x in init <==> x in xs - {last} {
        assert x in init ==> x in s;
      }
      SortedSize(init, xs - {last});
      assert last in s;
    }
  }

  /** std::sort on distinct keys. */
  method Sort(xs: seq<Word>) returns (s: seq<Word>)
    ensures (forall i, j :: 0 <= i < j < |xs| ==> xs[i] != xs[j]) ==> s == Sorted(Elements(xs))
  {
    s := [];
    for i := 0 to |xs|
      invariant Ascending(s) && forall y :: y in s <==> y in xs[..i]
    {
      assert forall y :: y in xs[..i + 1] <==> y == xs[i] || y in xs[..i];
      if xs[i] !in s {
        s := Insert(xs[i], s);
      }
    }
    assert xs[..|xs|] == xs;
    AscendingIsUnique(s, Sorted(Elements(xs)));
  }

  /** Keys of a map in the order std::map, or a sorted copy, visits them. */
  method AscendingKeys<V>(m: map<Word, V>) returns (keys: seq<Word>)
    ensures keys == Sorted(m.Keys)
    ensures Ascending(keys) && forall x :: x in keys <==> x in m
    ensures m != map[] ==> keys != []
  {
    var rest := m.Keys;
    keys := [];
    while rest != {}
      invariant rest <= m.Keys
      invariant Ascending(keys) && forall x :: x in keys <==> x in m && x !in rest
    {
      var x :| x in rest;
      rest := rest - {x};
      keys := Insert(x, keys);
    }
    AscendingIsUnique(keys, Sorted(m.Keys));
    if m != map[] {
      var x :| x in m;
      assert x in keys;
    }
  }

  // ----- the canonical stream

  ghost function Prices(orders: Orders, side: Side): set<Word> {
    set id | id in orders && orders[id].side == side :: orders[id].price
  }

  ghost function LevelStream(orders: Orders, side: Side, prices: seq<Word>): seq<byte> {
    if prices == [] then []
    else LevelStream(orders, side, prices[..|prices| - 1])
         + Le(prices[|prices| - 1], 8) + Le(LevelSum(orders, side, prices[|prices| - 1]), 8)
  }

  lemma LevelStreamSnoc(orders: Orders, side: Side, prices: seq<Word>, p: Word)
    ensures LevelStream(orders, side, prices + [p])
         == LevelStream(orders, side, prices) + (Le(p, 8) + Le(LevelSum(orders, side, p), 8))
  {
    hide LevelSum, Le;
    assert (prices + [p])[..|prices|] == prices;
    var a, b, c := LevelStream(orders, side, prices), Le(p, 8), Le(LevelSum(orders, side, p), 8);
    assert a + b + c == a + (b + c);
  }

  ghost function SideStream(orders: Orders, side: Side): seq<byte> {
    Le(|Prices(orders, side)|, 8) + LevelStream(orders, side, Sorted(Prices(orders, side)))
  }

  function SideByte(side: Side): byte {
    if side == Bid then 0 else 1
  }

  function OrderBytes(id: Word, o: Order): seq<byte> {
    Le(id, 8) + [SideByte(o.side)] + Le(o.price, 8) + Le(o.quantity, 8)
  }

  ghost function OrderStream(orders: Orders, ids: seq<Word>): seq<byte>
    requires forall id :: id in ids ==> id in orders
  {
    if ids == [] then []
    else OrderStream(orders, ids[..|ids| - 1]) + OrderBytes(ids[|ids| - 1], orders[ids[|ids| - 1]])
  }

  /** The bytes every book feeds to the hash; a function of the live orders and of nothing else. */
  ghost function Canonical(orders: Orders): seq<byte> {
    Le(|orders|, 8) + SideStream(orders, Bid) + SideStream(orders, Ask) + OrderStream(orders, Sorted(orders.Keys))
  }

  // ----- where each field lies in the stream

  /** Eight bytes from `at` on are the value, least significant first. */
  ghost predicate FieldAt(stream: seq<byte>, at: nat, value: nat) {
    at + 8 <= |stream| && forall k :: 0 <= k < 8 ==> stream[at + k] == value / Pow256(k) % 256
  }

  lemma FieldIs(stream: seq<byte>, at: nat, value: nat)
    requires at + 8 <= |stream| && stream[at..at + 8] == Le(value, 8)
    ensures FieldAt(stream, at, value)
  {
    hide Le, Pow256;
    forall k | 0 <= k < 8 ensures stream[at + k] == value / Pow256(k) % 256 {
      LeAt(value, 8, k);
      assert stream[at..at + 8][k] == stream[at + k];
    }
  }

  /** A field keeps its place behind a prefix and before a suffix. */
  lemma FieldWithin(before: seq<byte>, part: seq<byte>, after: seq<byte>, at: nat, value: nat)
    requires FieldAt(part, at, value)
    ensures FieldAt(before + part + after, |before| + at, value)
  {
    hide Pow256;
    var all := before + part + after;
    forall k | 0 <= k < 8 ensures all[|before| + at + k] == value / Pow256(k) % 256 {
      assert all[|before| + at + k] == part[at + k];
    }
  }

  /** The levels of a side: 16 bytes each, price then aggregate quantity. */
  lemma {:induction false} LevelFields(orders: Orders, side: Side, prices: seq<Word>, i: nat)
    ensures |LevelStream(orders, side, prices)| == 16 * |prices|
    ensures i < |prices| ==>
              var s := LevelStream(orders, side, prices);
              FieldAt(s, 16 * i, prices[i]) && FieldAt(s, 16 * i + 8, LevelSum(orders, side, prices[i]))
  {
    hide LevelSum, Le, FieldAt;
    if prices == [] {
    } else {
      var init, p := prices[..|prices| - 1], prices[|prices| - 1];
      LevelFields(orders, side, init, i);
      var a, b, c := LevelStream(orders, side, init), Le(p, 8), Le(LevelSum(orders, side, p), 8);
      var s := LevelStream(orders, side, prices);
      assert s == a + b + c;
      if i < |init| {
        assert s == [] + a + (b + c);
        FieldWithin([], a, b + c, 16 * i, prices[i]);
        FieldWithin([], a, b + c, 16 * i + 8, LevelSum(orders, side, prices[i]));
      } else if i == |init| {
        assert s[16 * i..16 * i + 8] == b && s[16 * i + 8..16 * i + 8 + 8] == c;
        FieldIs(s, 16 * i, p);
        FieldIs(s, 16 * i + 8, LevelSum(orders, side, p));
      }
    }
  }

  /** One order: id, side byte, price, remaining quantity. */
  ghost predicate OrderAt(stream: seq<byte>, at: nat, id: Word, o: Order) {
    && at + 25 <= |stream| && FieldAt(stream, at, id)
    && stream[at + 8] == (if o.side == Bid then 0 else 1)
    && FieldAt(stream, at + 9, o.price) && FieldAt(stream, at + 17, o.quantity)
  }

  lemma OrderFields(id: Word, o: Order)
    ensures |OrderBytes(id, o)| == 25 && OrderAt(OrderBytes(id, o), 0, id, o)
  {
    hide Le, FieldAt;
    var s := OrderBytes(id, o);
    assert s[0..0 + 8] == Le(id, 8) && s[9..9 + 8] == Le(o.price, 8) && s[17..17 + 8] == Le(o.quantity, 8);
    FieldIs(s, 0, id);
    FieldIs(s, 9, o.price);
    FieldIs(s, 17, o.quantity);
  }

  lemma OrderWithin(before: seq<byte>, part: seq<byte>, after: seq<byte>, at: nat, id: Word, o: Order)
    requires OrderAt(part, at, id, o)
    ensures OrderAt(before + part + after, |before| + at, id, o)
  {
    FieldWithin(before, part, after, at, id);
    FieldWithin(before, part, after, at + 9, o.price);
    FieldWithin(before, part, after, at + 17, o.quantity);
    hide FieldAt;
  }

  lemma {:induction false} OrderStreamFields(orders: Orders, ids: seq<Word>, i: nat)
    requires forall id :: id in ids ==> id in orders
    ensures |OrderStream(orders, ids)| == 25 * |ids|
    ensures i < |ids| ==> OrderAt(OrderStream(orders, ids), 25 * i, ids[i], orders[ids[i]])
  {
    hide OrderBytes, OrderAt;
    if ids == [] {
    } else {
      var init, id := ids[..|ids| - 1], ids[|ids| - 1];
      OrderStreamFields(orders, init, i);
      OrderFields(id, orders[id]);
      var a, b := OrderStream(orders, init), OrderBytes(id, orders[id]);
      assert OrderStream(orders, ids) == [] + a + b == a + b + [];
      if i < |init| {
        OrderWithin([], a, b, 25 * i, ids[i], orders[ids[i]]);
      } else if i == |init| {
        OrderWithin(a, b, [], 0, id, orders[id]);
      }
    }
  }

  /** The levels of a side from position `at` on: their number, then each price with its aggregate, ascending. */
  ghost predicate SideAt(stream: seq<byte>, at: nat, orders: Orders, side: Side) {
    var prices := Sorted(Prices(orders, side));
    && FieldAt(stream, at, |prices|)
    && forall i :: 0 <= i < |prices| ==>
      && FieldAt(stream, at + 8 + 16 * i, prices[i])
      && FieldAt(stream, at + 16 + 16 * i, LevelSum(orders, side, prices[i]))
  }

  lemma SideFields(before: seq<byte>, after: seq<byte>, orders: Orders, side: Side)
    ensures var n := |Sorted(Prices(orders, side))|;
            |SideStream(orders, side)| == 8 + 16 * n
    ensures SideAt(before + SideStream(orders, side) + after, |before|, orders, side)
  {
    hide LevelSum, Le, FieldAt, Prices, Sorted, LevelStream;
    var prices := Sorted(Prices(orders, side));
    SortedSize(prices, Prices(orders, side));
    var count, levels := Le(|prices|, 8), LevelStream(orders, side, prices);
    var part := SideStream(orders, side);
    assert part == count + levels;
    LevelFields(orders, side, prices, 0);
    assert part[0..0 + 8] == count;
    FieldIs(part, 0, |prices|);
    FieldWithin(before, part, after, 0, |prices|);
    var stream := before + part + after;
    forall i | 0 <= i < |prices|
      ensures FieldAt(stream, |before| + 8 + 16 * i, prices[i])
      ensures FieldAt(stream, |before| + 16 + 16 * i, LevelSum(orders, side, prices[i]))
    {
      LevelFields(orders, side, prices, i);
      assert stream == (before + count) + levels + after;
      FieldWithin(before + count, levels, after, 16 * i, prices[i]);
      FieldWithin(before + count, levels, after, 16 * i + 8, LevelSum(orders, side, prices[i]));
    }
  }

  /**
   The canonical stream by position: live count; bid levels; ask levels; live orders by ascending id. Counts, prices,
   quantities and ids take eight bytes, least significant first, a side takes one.
   */
  lemma CanonicalLayout(orders: Orders)
    ensures var s, bids, asks, ids :=
              Canonical(orders), Sorted(Prices(orders, Bid)), Sorted(Prices(orders, Ask)), Sorted(orders.Keys);
            var asksAt := 16 + 16 * |bids|;
            var ordersAt := asksAt + 8 + 16 * |asks|;
            && |ids| == |orders| && |s| == ordersAt + 25 * |orders|
            && FieldAt(s, 0, |orders|) && SideAt(s, 8, orders, Bid) && SideAt(s, asksAt, orders, Ask)
            && forall i :: 0 <= i < |ids| ==> OrderAt(s, ordersAt + 25 * i, ids[i], orders[ids[i]])
  {
    hide Le, FieldAt, SideAt, OrderAt, Sorted, SideStream, OrderStream;
    var s, ids := Canonical(orders), Sorted(orders.Keys);
    var x, b, a, o := Le(|orders|, 8), SideStream(orders, Bid), SideStream(orders, Ask), OrderStream(orders, ids);
    assert s == x + b + a + o;
    SortedSize(ids, orders.Keys);
    assert |orders.Keys| == |orders|;
    SideFields(x, a + o, orders, Bid);
    SideFields(x + b, o, orders, Ask);
    assert s == x + b + (a + o) && s == (x + b) + a + o;
    assert s[0..0 + 8] == x;
    FieldIs(s, 0, |orders|);
    OrderStreamFields(orders, ids, 0);
    forall i | 0 <= i < |ids| ensures OrderAt(s, |x + b + a| + 25 * i, ids[i], orders[ids[i]]) {
      OrderStreamFields(orders, ids, i);
      assert s == (x + b + a) + o + [];
      OrderWithin(x + b + a, o, [], 25 * i, ids[i], orders[ids[i]]);
    }
  }

  /** Everything a book shows of its state. */
  datatype Views = Views(bid: Option<Level>, ask: Option<Level>, live: nat, digest: Word)

  /** What a book holding `orders` has to show. */
  ghost predicate Shows(orders: Orders, v: Views) {
    && IsBest(orders, Bid, v.bid) && IsBest(orders, Ask, v.ask)
    && v.live == |orders| && v.digest == Fnv(FNV_BASIS, Canonical(orders))
  }

  lemma ShowsOneView(orders: Orders, v: Views, w: Views)
    requires Shows(orders, v) && Shows(orders, w)
    ensures v == w
  {
    hide Fnv, Canonical;
    BestIsUnique(orders, Bid, v.bid, w.bid);
    BestIsUnique(orders, Ask, v.ask, w.ask);
  }

  /** The contract's run takes the events up to number `i`, and a book then has to show `v`. */
  ghost predicate ShownAfter(start: Orders, events: seq<Event>, i: nat, v: Views) {
    && i < |events|
    && var run := Run(start, events[..i + 1]);
    run.Some? && Shows(run.value, v)
  }

  ghost predicate ShowsRun(start: Orders, events: seq<Event>, views: seq<Views>) {
    forall i :: 0 <= i < |views| ==> ShownAfter(start, events, i, views[i])
  }

  lemma NothingRun(start: Orders, events: seq<Event>)
    ensures Run(start, events[..0]) == Some(start) && ShowsRun(start, events, [])
  {
  }

  lemma RunOneMore(start: Orders, events: seq<Event>, i: nat, v: Views)
    requires i < |events| && Run(start, events[..i]).Some? && Accepts(Run(start, events[..i]).value, events[i])
    ensures Run(start, events[..i + 1]) == Some(After(Run(start, events[..i]).value, events[i]))
    ensures Shows(After(Run(start, events[..i]).value, events[i]), v) ==> ShownAfter(start, events, i, v)
  {
    hide Accepts, After, Shows;
    assert events[..i + 1][..i] == events[..i];
  }

  method HashOrder(h: Word, id: Word, o: Order) returns (r: Word)
    ensures r == Fnv(h, OrderBytes(id, o))
  {
    hide HashByte, Fnv;
    r := HashU64(h, id);
    FnvConcat(h, Le(id, 8), [SideByte(o.side)]);
    r := HashOne(r, SideByte(o.side));
    FnvConcat(h, Le(id, 8) + [SideByte(o.side)], Le(o.price, 8));
    r := HashU64(r, o.price);
    FnvConcat(h, Le(id, 8) + [SideByte(o.side)] + Le(o.price, 8), Le(o.quantity, 8));
    r := HashU64(r, o.quantity);
  }

  method HashOne(h: Word, b: byte) returns (r: Word)
    ensures r == Fnv(h, [b])
  {
    r := HashByte(h, b);
    assert [b][..0] == [];
  }

  method HashLevel(h: Word, price: Word, quantity: nat) returns (r: Word)
    ensures r == Fnv(h, Le(price, 8) + Le(quantity, 8))
  {
    r := HashU64(h, price);
    FnvConcat(h, Le(price, 8), Le(quantity, 8));
    r := HashU64(r, quantity);
  }

  /** The tail every book's digest shares: the live orders by ascending id. */
  method HashOrders(h: Word, orders: Orders, ids: seq<Word>) returns (r: Word)
    requires ids == Sorted(orders.Keys)
    ensures r == Fnv(h, OrderStream(orders, Sorted(orders.Keys)))
  {
    hide Fnv, Sorted, OrderBytes;
    r := h;
    FnvEmpty(h);
    for i := 0 to |ids|
      invariant r == Fnv(h, OrderStream(orders, ids[..i]))
    {
      assert ids[..i + 1][..i] == ids[..i];
      FnvConcat(h, OrderStream(orders, ids[..i]), OrderBytes(ids[i], orders[ids[i]]));
      r := HashOrder(r, ids[i], orders[ids[i]]);
    }
    assert ids[..|ids|] == ids;
  }

  lemma FnvEmpty(h: Word)
    ensures Fnv(h, []) == h
  {
  }
}
