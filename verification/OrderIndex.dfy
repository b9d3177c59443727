/**
 The fixed order-ID index: linear probing in a power-of-two table, with deletion
 that shifts later cluster entries back into the hole instead of leaving a tombstone.
 */
module OrderIndex {
  import opened Words
  import opened Circle

  datatype Slot<V> = Slot(id: Word, value: V, occupied: bool)

  // ----- the table as a value

  /** The slot where probing for `id` starts. Nothing below depends on what `mix` computes. */
  function Home(mix: Word -> Word, id: Word, n: nat): (h: nat)
    requires n > 0
    ensures h < n
  {
    HomeInRange(mix(id), n);
    And(mix(id), n - 1)
  }

  /** On a power-of-two table that is the mixed id modulo the table size. */
  lemma HomeIsMixed(mix: Word -> Word, id: Word, n: nat)
    requires IsTableSize(n)
    ensures Home(mix, id, n) == mix(id) % n
  {
    var k: nat :| k <= 63 && n == Pow2(k);
    MaskIsMod(mix(id), k);
  }

  ghost predicate Distinct<V>(t: seq<Slot<V>>) {
    forall i, j :: 0 <= i < |t| && 0 <= j < |t| && t[i].occupied && t[j].occupied && t[i].id == t[j].id ==> i == j
  }

  ghost predicate NoZeroId<V>(t: seq<Slot<V>>) {
    forall i :: 0 <= i < |t| && t[i].occupied ==> t[i].id != 0
  }

  /** No empty slot lies on any entry's path from its home. */
  ghost predicate Reachable<V>(t: seq<Slot<V>>, mix: Word -> Word) {
    forall i, k :: 0 <= i < |t| && 0 <= k < |t| && t[i].occupied && OnPath(Home(mix, t[i].id, |t|), k, i, |t|)
                   ==> t[k].occupied
  }

  ghost predicate WellFormed<V>(t: seq<Slot<V>>, mix: Word -> Word) {
    && IsTableSize(|t|)
    && NoZeroId(t)
    && Distinct(t)
    && Reachable(t, mix)
  }

  /** The occupied slots hold exactly the pairs of `m`. */
  ghost predicate Holds<V>(t: seq<Slot<V>>, m: map<Word, V>) {
    && (forall i :: 0 <= i < |t| && t[i].occupied ==> t[i].id in m && m[t[i].id] == t[i].value)
    && (forall id :: id in m ==> exists i :: 0 <= i < |t| && t[i].occupied && t[i].id == id)
  }

  ghost function IdsBelow<V>(t: seq<Slot<V>>, k: nat): set<Word>
    requires k <= |t|
  {
    set i | 0 <= i < k && t[i].occupied :: t[i].id
  }

  function Occupied<V>(t: seq<Slot<V>>, k: nat): nat
    requires k <= |t|
  {
    if k == 0 then 0 else Occupied(t, k - 1) + if t[k - 1].occupied then 1 else 0
  }

  lemma {:induction false} OccupiedCountsIds<V>(t: seq<Slot<V>>, k: nat)
    requires k <= |t| && Distinct(t)
    ensures |IdsBelow(t, k)| == Occupied(t, k)
  {
    if k == 0 {
    } else {
      OccupiedCountsIds(t, k - 1);
      if t[k - 1].occupied {
        assert IdsBelow(t, k) == IdsBelow(t, k - 1) + {t[k - 1].id};
      } else {
        assert IdsBelow(t, k) == IdsBelow(t, k - 1);
      }
    }
  }

  lemma OccupiedIsCardinality<V>(t: seq<Slot<V>>, m: map<Word, V>)
    requires Distinct(t) && Holds(t, m)
    ensures Occupied(t, |t|) == |m|
  {
    OccupiedCountsIds(t, |t|);
    assert IdsBelow(t, |t|) == m.Keys;
  }

  lemma {:induction false} FullCount<V>(t: seq<Slot<V>>, k: nat)
    requires k <= |t| && forall i :: 0 <= i < k ==> t[i].occupied
    ensures Occupied(t, k) == k
  {
    if k == 0 {
    } else {
      FullCount(t, k - 1);
    }
  }

  /** A table with fewer entries than slots has a free slot, which is what ends every probe. */
  lemma SomeSlotFree<V>(t: seq<Slot<V>>, m: map<Word, V>)
    requires Distinct(t) && Holds(t, m) && |m| < |t|
    ensures exists i :: 0 <= i < |t| && !t[i].occupied
  {
    OccupiedIsCardinality(t, m);
    if forall i :: 0 <= i < |t| ==> t[i].occupied {
      FullCount(t, |t|);
    }
  }

  // ----- probing

  /** What find_slot returns from step `step` on, and how many slots it looks at. */
  function Probe<V>(t: seq<Slot<V>>, home: nat, id: Word, step: nat): (r: (nat, nat))
    requires home < |t| && step <= |t|
    decreases |t| - step
  {
    if step == |t| then (|t|, 0)
    else
      var i := At(home, step, |t|);
      if !t[i].occupied then (|t|, 1)
      else if t[i].id == id then (i, 1)
      else var r := Probe(t, home, id, step + 1); (r.0, r.1 + 1)
  }

  /** A stored id is found at its own slot, after exactly distance + 1 slots. */
  lemma {:induction false} ProbeHits<V>(t: seq<Slot<V>>, mix: Word -> Word, i: nat, step: nat)
    requires WellFormed(t, mix) && i < |t| && t[i].occupied
    requires step <= Dist(Home(mix, t[i].id, |t|), i, |t|)
    ensures Probe(t, Home(mix, t[i].id, |t|), t[i].id, step)
         == (i, Dist(Home(mix, t[i].id, |t|), i, |t|) - step + 1)
    decreases |t| - step
  {
    var home := Home(mix, t[i].id, |t|);
    var k := At(home, step, |t|);
    assert OnPath(home, k, i, |t|);
    assert t[k].occupied;
    if k != i {
      ProbeHits(t, mix, i, step + 1);
    }
  }

  /** An absent id is never found. */
  lemma {:induction false} ProbeMisses<V>(t: seq<Slot<V>>, m: map<Word, V>, home: nat, id: Word, step: nat)
    requires Holds(t, m) && home < |t| && step <= |t| && id !in m
    ensures Probe(t, home, id, step).0 == |t|
    decreases |t| - step
  {
    if step < |t| { ProbeMisses(t, m, home, id, step + 1); }
  }

  /** Probing answers membership exactly. */
  lemma ProbeDecides<V>(t: seq<Slot<V>>, mix: Word -> Word, m: map<Word, V>, id: Word)
    requires WellFormed(t, mix) && Holds(t, m)
    ensures var i := Probe(t, Home(mix, id, |t|), id, 0).0;
            if id in m then i < |t| && t[i].occupied && t[i].id == id && t[i].value == m[id] else i == |t|
  {
    if id in m {
      var i :| 0 <= i < |t| && t[i].occupied && t[i].id == id;
      ProbeHits(t, mix, i, 0);
    } else {
      ProbeMisses(t, m, Home(mix, id, |t|), id, 0);
    }
  }

  /** An empty slot met before `id` shows that `id` is absent. */
  lemma EmptyEndsSearch<V>(t: seq<Slot<V>>, mix: Word -> Word, m: map<Word, V>, id: Word, at: nat)
    requires WellFormed(t, mix) && Holds(t, m) && at < |t| && !t[at].occupied
    requires forall k :: 0 <= k < |t| && Dist(Home(mix, id, |t|), k, |t|) < Dist(Home(mix, id, |t|), at, |t|) ==>
              t[k].id != id
    ensures id !in m
  {
  }

  /** Filling the first free slot on the probe path keeps the table well formed. */
  lemma FillKeepsWellFormed<V>(t: seq<Slot<V>>, mix: Word -> Word, m: map<Word, V>, id: Word, v: V, at: nat)
    requires WellFormed(t, mix) && Holds(t, m) && id != 0 && id !in m
    requires at < |t| && !t[at].occupied
    requires forall k :: 0 <= k < |t| && Dist(Home(mix, id, |t|), k, |t|) < Dist(Home(mix, id, |t|), at, |t|) ==>
              t[k].occupied
    ensures WellFormed(t[at := Slot(id, v, true)], mix)
    ensures Holds(t[at := Slot(id, v, true)], m[id := v])
  {
    var u := t[at := Slot(id, v, true)];
    var m' := m[id := v];
    forall x | x in m' ensures exists i :: 0 <= i < |u| && u[i].occupied && u[i].id == x {
      if x == id {
        assert u[at].occupied;
      } else {
        var i :| 0 <= i < |t| && t[i].occupied && t[i].id == x;
        assert u[i] == t[i];
      }
    }
  }

  // ----- backward-shift deletion

  function Vacate<V>(t: seq<Slot<V>>, hole: nat): seq<Slot<V>>
    requires hole < |t|
  {
    t[hole := t[hole].(occupied := false)]
  }

  /**
   The table while erase_at runs. Once `hole` is disregarded it holds exactly `m`, and the only
   entries whose path is broken are broken at `hole` and lie at or beyond `next`, not yet examined.
   */
  ghost predicate Shifting<V>(t: seq<Slot<V>>, mix: Word -> Word, m: map<Word, V>, hole: nat, next: nat, gap: nat) {
    && IsTableSize(|t|)
    && hole < |t| && next < |t| && gap < |t|
    && t[hole].occupied && !t[gap].occupied
    && 0 < Dist(hole, next, |t|) <= Dist(hole, gap, |t|)
    && var u := Vacate(t, hole);
    && NoZeroId(u) && Distinct(u) && Holds(u, m)
    && OnlyBrokenAtHole(u, mix, hole, next)
  }

  ghost predicate OnlyBrokenAtHole<V>(u: seq<Slot<V>>, mix: Word -> Word, hole: nat, next: nat)
    requires hole < |u| && next < |u|
  {
    forall i, k :: 0 <= i < |u| && 0 <= k < |u| && u[i].occupied && !u[k].occupied
                   && OnPath(Home(mix, u[i].id, |u|), k, i, |u|)
                   ==> k == hole && Dist(hole, next, |u|) <= Dist(hole, i, |u|)
  }

  lemma VacateHolds<V>(t: seq<Slot<V>>, m: map<Word, V>, index: nat)
    requires Distinct(t) && Holds(t, m) && index < |t| && t[index].occupied
    ensures Holds(Vacate(t, index), m - {t[index].id})
  {
    var u := Vacate(t, index);
    forall x | x in m - {t[index].id} ensures exists i :: 0 <= i < |u| && u[i].occupied && u[i].id == x {
      var i :| 0 <= i < |t| && t[i].occupied && t[i].id == x;
      assert u[i] == t[i];
    }
  }

  lemma ShiftStarts<V>(t: seq<Slot<V>>, mix: Word -> Word, m: map<Word, V>, index: nat, gap: nat)
    requires WellFormed(t, mix) && Holds(t, m)
    requires index < |t| && t[index].occupied && gap < |t| && !t[gap].occupied
    ensures Shifting(t, mix, m - {t[index].id}, index, Next(index, |t|), gap)
  {
    VacateHolds(t, m, index);
  }

  /** `u` with the entry at `next` moved into the empty slot `hole`. */
  function Moved<V>(u: seq<Slot<V>>, hole: nat, next: nat): seq<Slot<V>>
    requires hole < |u| && next < |u|
  {
    u[hole := u[next]][next := u[next].(occupied := false)]
  }

  lemma MovedHolds<V>(u: seq<Slot<V>>, m: map<Word, V>, hole: nat, next: nat)
    requires hole < |u| && next < |u| && !u[hole].occupied && u[next].occupied
    requires NoZeroId(u) && Distinct(u) && Holds(u, m)
    ensures NoZeroId(Moved(u, hole, next)) && Distinct(Moved(u, hole, next)) && Holds(Moved(u, hole, next), m)
  {
    var u' := Moved(u, hole, next);
    forall x | x in m ensures exists i :: 0 <= i < |u'| && u'[i].occupied && u'[i].id == x {
      var i :| 0 <= i < |u| && u[i].occupied && u[i].id == x;
      assert if i == next then u'[hole].id == x else u'[i] == u[i];
    }
  }

  lemma MovedReaches<V>(u: seq<Slot<V>>, mix: Word -> Word, hole: nat, next: nat)
    requires hole < |u| && next < |u| && !u[hole].occupied && u[next].occupied
    requires OnlyBrokenAtHole(u, mix, hole, next) && OnPath(Home(mix, u[next].id, |u|), hole, next, |u|)
    ensures OnlyBrokenAtHole(Moved(u, hole, next), mix, next, Next(next, |u|))
  {
    var n := |u|;
    var u' := Moved(u, hole, next);
    forall i, k | 0 <= i < n && 0 <= k < n && u'[i].occupied && !u'[k].occupied
        && OnPath(Home(mix, u'[i].id, n), k, i, n)
      ensures k == next && Dist(next, Next(next, n), n) <= Dist(next, i, n)
    {
      var before := u[k];
    }
  }

  /** The entry at `next` has the hole on its path: it moves there and leaves a new hole. */
  lemma ShiftMoves<V>(t: seq<Slot<V>>, mix: Word -> Word, m: map<Word, V>, hole: nat, next: nat, gap: nat)
    requires Shifting(t, mix, m, hole, next, gap) && t[next].occupied
    requires OnPath(Home(mix, t[next].id, |t|), hole, next, |t|)
    ensures Shifting(t[hole := t[next]], mix, m, next, Next(next, |t|), gap)
  {
    var u := Vacate(t, hole);
    MovedHolds(u, m, hole, next);
    MovedReaches(u, mix, hole, next);
    assert Vacate(t[hole := t[next]], next) == Moved(u, hole, next);
  }

  /** The entry at `next` does not need the hole: it stays. */
  lemma ShiftSkips<V>(t: seq<Slot<V>>, mix: Word -> Word, m: map<Word, V>, hole: nat, next: nat, gap: nat)
    requires Shifting(t, mix, m, hole, next, gap) && t[next].occupied
    requires !OnPath(Home(mix, t[next].id, |t|), hole, next, |t|)
    ensures Shifting(t, mix, m, hole, Next(next, |t|), gap)
  {
    hide IsTableSize, NoZeroId, Distinct, Holds, Home;
  }

  /** The scan met an empty slot: nothing beyond it can need the hole. */
  lemma ShiftEnds<V>(t: seq<Slot<V>>, mix: Word -> Word, m: map<Word, V>, hole: nat, next: nat, gap: nat)
    requires Shifting(t, mix, m, hole, next, gap) && !t[next].occupied
    ensures WellFormed(Vacate(t, hole), mix) && Holds(Vacate(t, hole), m)
  {
    var u := Vacate(t, hole);
    assert !u[next].occupied;
    forall i, k | 0 <= i < |u| && 0 <= k < |u| && u[i].occupied && OnPath(Home(mix, u[i].id, |u|), k, i, |u|)
      ensures u[k].occupied
    {
      var passesNext := OnPath(Home(mix, u[i].id, |u|), next, i, |u|);
    }
  }

  // ----- capacity

  /** The 64-bit doubling loop that sizes the table, after `k` rounds. */
  function Doubled(k: nat): Word {
    if k == 0 then 8 else (2 * Doubled(k - 1)) % U64
  }

  function SlotTarget(maximumLive: Word): nat {
    if 2 * maximumLive < 8 then 8 else 2 * maximumLive
  }

  const HALF_RANGE: Word := 0x4000_0000_0000_0000 // 2^62

  lemma ShiftOnce(k: nat)
    requires k <= 63
    ensures Pow2(3) == 8 && Pow2(63) == 2 * HALF_RANGE
    ensures k < 63 ==> Pow2(k + 1) == 2 * Pow2(k) <= Pow2(63)
  {
    Pow2Is32And64();
    assert Pow2(64) == 2 * Pow2(63);
    if k < 63 { Pow2Monotone(k + 1, 63); }
  }

  lemma {:induction false} DoubledIsPow2(k: nat)
    ensures Doubled(k) == if k <= 60 then Pow2(k + 3) else 0
  {
    hide Pow2;
    ShiftOnce(0);
    if 0 < k <= 60 {
      DoubledIsPow2(k - 1);
      ShiftOnce(k + 2);
    } else if k > 60 {
      DoubledIsPow2(k - 1);
    }
  }

  /** The doubling loop can stop exactly for limits up to 2^62; beyond that it shifts to zero for ever. */
  lemma DoublingStops(maximumLive: Word)
    requires maximumLive <= U64_MAX / 2
    ensures (exists k: nat :: Doubled(k) >= SlotTarget(maximumLive)) <==> maximumLive <= HALF_RANGE
  {
    hide Pow2, Doubled;
    ShiftOnce(0);
    DoubledIsPow2(60);
    assert maximumLive <= HALF_RANGE ==> Doubled(60) >= SlotTarget(maximumLive);
    forall k: nat | Doubled(k) >= SlotTarget(maximumLive) ensures maximumLive <= HALF_RANGE {
      DoubledIsPow2(k);
      if k <= 60 { Pow2Monotone(k + 3, 63); }
    }
  }

  /** The doubling loop that sizes every table. */
  method DoubleUpTo(target: nat) returns (capacity: Word)
    requires target <= 2 * HALF_RANGE
    ensures IsTableSize(capacity) && 8 <= capacity <= 2 * HALF_RANGE
    ensures capacity >= target && (capacity == 8 || (8 < target && capacity < 2 * target))
  {
    capacity := 8;
    ghost var k := 3;
    hide Pow2;
    ShiftOnce(0);
    while capacity < target
      invariant 3 <= k <= 63 && 8 <= capacity == Pow2(k) <= 2 * HALF_RANGE
      invariant capacity == 8 || (8 < target && capacity < 2 * target)
      decreases 63 - k
    {
      ShiftOnce(k);
      capacity := (2 * capacity) % U64;
      k := k + 1;
    }
  }

  /** None is the capacity-overflow exception. */
  method Capacity(maximumLive: Word) returns (capacity: Option<Word>)
    requires maximumLive <= HALF_RANGE || maximumLive > U64_MAX / 2
    ensures capacity.None? <==> maximumLive > U64_MAX / 2
    ensures capacity.Some? ==>
              var n := capacity.value;
              IsTableSize(n) && n >= 8 && n >= 2 * maximumLive && (n == 8 || n < 4 * maximumLive)
  {
    if maximumLive > U64_MAX / 2 {
      return None;
    }
    var n := DoubleUpTo(SlotTarget(maximumLive));
    capacity := Some(n);
  }

  // ----- the index object

  datatype ProbeSummary = ProbeSummary(occupied: nat, totalProbes: nat, maximumProbes: nat)

  /** Slots find_slot looks at for the entry stored at `i`, or 0 for an empty slot. */
  function Visits<V>(t: seq<Slot<V>>, mix: Word -> Word, i: nat): nat
    requires i < |t|
  {
    if t[i].occupied then Probe(t, Home(mix, t[i].id, |t|), t[i].id, 0).1 else 0
  }

  function TotalVisits<V>(t: seq<Slot<V>>, mix: Word -> Word, k: nat): nat
    requires k <= |t|
  {
    if k == 0 then 0 else TotalVisits(t, mix, k - 1) + Visits(t, mix, k - 1)
  }

  class FixedOrderIndex<V> {
    const mix: Word -> Word
    const slots: array<Slot<V>>
    const maximumLive: Word
    var size: nat
    ghost var contents: map<Word, V>

    ghost predicate Valid()
      reads this, slots
    {
      && WellFormed(slots[..], mix)
      && Holds(slots[..], contents)
      && size == |contents| <= maximumLive
      && 8 <= slots.Length && 2 * maximumLive <= slots.Length
    }

    constructor (maximumLive: Word, mix: Word -> Word, blank: V)
      requires maximumLive <= HALF_RANGE
      ensures Valid() && fresh(slots) && contents == map[]
      ensures this.maximumLive == maximumLive && this.mix == mix
    {
      var capacity := Capacity(maximumLive);
      this.mix := mix;
      this.maximumLive := maximumLive;
      slots := new Slot<V>[capacity.value](_ => Slot(0, blank, false));
      size := 0;
      contents := map[];
    }

    /** Returns the slot of `id`, or the slot count; `visited` is how many slots the loop looked at. */
    method FindSlot(id: Word) returns (index: nat, ghost visited: nat)
      requires IsTableSize(slots.Length)
      ensures index == if id == 0 then slots.Length else Probe(slots[..], Home(mix, id, slots.Length), id, 0).0
      ensures visited == if id == 0 then 0 else Probe(slots[..], Home(mix, id, slots.Length), id, 0).1
    {
      visited := 0;
      if id == 0 {
        return slots.Length, 0;
      }
      var n := slots.Length;
      var step := 0;
      index := Home(mix, id, n);
      ghost var t, home := slots[..], index;
      while step < n
        invariant step == visited <= n && index < n
        invariant step < n ==> index == At(home, step, n)
        invariant Probe(t, home, id, 0).0 == Probe(t, home, id, step).0
        invariant Probe(t, home, id, 0).1 == Probe(t, home, id, step).1 + step
      {
        visited := visited + 1;
        if !slots[index].occupied {
          return n, visited;
        }
        if slots[index].id == id {
          return index, visited;
        }
        step, index := step + 1, Advance(index, n);
      }
      index := n;
    }

    /** FindSlot decides membership. */
    lemma Decides(id: Word)
      requires Valid()
      ensures var i := if id == 0 then slots.Length else Probe(slots[..], Home(mix, id, slots.Length), id, 0).0;
              if id in contents then i < slots.Length && slots[i] == Slot(id, contents[id], true) else i == slots.Length
    {
      ProbeDecides(slots[..], mix, contents, id);
    }

    lemma Bounded()
      requires Valid()
      ensures |contents| <= maximumLive
    {
    }

    /** The pointer-returning `find`: None is the null pointer. */
    method Find(id: Word) returns (value: Option<V>)
      requires Valid()
      ensures value == if id in contents then Some(contents[id]) else None
    {
      ghost var visited;
      var index: nat;
      index, visited := FindSlot(id);
      Decides(id);
      value := if index == slots.Length then None else Some(slots[index].value);
    }

    /** A write through the pointer `find` returned. */
    method Assign(id: Word, value: V)
      requires Valid() && id in contents
      modifies this`contents, slots
      ensures Valid() && contents == old(contents)[id := value]
    {
      hide IsTableSize, NoZeroId, Distinct, Reachable, Home;
      ghost var visited;
      var index: nat;
      index, visited := FindSlot(id);
      Decides(id);
      ghost var t := slots[..];
      slots[index] := slots[index].(value := value);
      contents := contents[id := value];
      assert slots[..] == t[index := Slot(id, value, true)];
      AssignKeeps(t, mix, old(contents), index, value);
    }

    method Insert(id: Word, value: V) returns (ok: bool)
      requires Valid()
      modifies this, slots
      ensures Valid()
      ensures ok <==> id != 0 && |old(contents)| < maximumLive && id !in old(contents)
      ensures contents == if ok then old(contents)[id := value] else old(contents)
    {
      hide NoZeroId, Distinct, Reachable, Advance, Home;
      if id == 0 || size == maximumLive {
        return false;
      }
      var n := slots.Length;
      var step := 0;
      var index := Home(mix, id, n);
      ghost var t, home := slots[..], index;
      SomeSlotFree(t, contents);
      while step < n
        invariant step <= n && index < n
        invariant step < n ==> index == At(home, step, n)
        invariant forall k :: 0 <= k < |t| && Dist(home, k, |t|) < step ==> t[k].occupied && t[k].id != id
      {
        if !slots[index].occupied {
          EmptyEndsSearch(t, mix, contents, id, index);
          FillKeepsWellFormed(t, mix, contents, id, value, index);
          slots[index] := Slot(id, value, true);
          assert slots[..] == t[index := Slot(id, value, true)];
          size := size + 1;
          contents := contents[id := value];
          return true;
        }
        if slots[index].id == id {
          return false;
        }
        step, index := step + 1, Advance(index, n);
      }
      ok := false;
    }

    method Erase(id: Word) returns (value: Option<V>)
      requires Valid()
      modifies this, slots
      ensures Valid()
      ensures value == if id in old(contents) then Some(old(contents)[id]) else None
      ensures contents == old(contents) - {id}
    {
      hide IsTableSize, NoZeroId, Distinct, Reachable, Home;
      ghost var visited;
      var index: nat;
      index, visited := FindSlot(id);
      Decides(id);
      if index == slots.Length {
        return None;
      }
      value := Some(slots[index].value);
      EraseAt(index);
      size := size - 1;
      contents := contents - {id};
    }

    /** From any well-formed table with a free slot: terminates, and removes exactly one entry. */
    method EraseAt(index: nat)
      requires WellFormed(slots[..], mix) && Holds(slots[..], contents) && |contents| < slots.Length
      requires index < slots.Length && slots[index].occupied
      modifies slots
      ensures WellFormed(slots[..], mix) && Holds(slots[..], contents - {old(slots[index].id)})
    {
      hide NoZeroId, Distinct, Holds, OnlyBrokenAtHole, Reachable, Home, Advance, MaskedDistance;
      var n := slots.Length;
      var hole := index;
      var next := Advance(hole, n);
      ghost var rest := contents - {slots[index].id};
      SomeSlotFree(slots[..], contents);
      ghost var gap :| 0 <= gap < n && !slots[gap].occupied;
      ShiftStarts(slots[..], mix, contents, index, gap);
      while slots[next].occupied
        invariant Shifting(slots[..], mix, rest, hole, next, gap)
        decreases Dist(next, gap, n)
      {
        var entryHome := Home(mix, slots[next].id, n);
        ghost var t := slots[..];
        if MaskedDistance(entryHome, next, n) >= MaskedDistance(entryHome, hole, n) {
          ShiftMoves(t, mix, rest, hole, next, gap);
          slots[hole] := slots[next];
          assert slots[..] == t[hole := t[next]];
          hole := next;
        } else {
          ShiftSkips(t, mix, rest, hole, next, gap);
        }
        next := Advance(next, n);
      }
      ghost var t := slots[..];
      ShiftEnds(t, mix, rest, hole, next, gap);
      slots[hole] := slots[hole].(occupied := false);
      assert slots[..] == Vacate(t, hole);
    }

    /** Counts, for each entry, exactly the slots FindSlot visits to reach it. */
    method Summarize() returns (summary: ProbeSummary)
      requires Valid()
      ensures summary.occupied == |contents|
      ensures summary.totalProbes == TotalVisits(slots[..], mix, slots.Length)
      ensures forall i :: 0 <= i < slots.Length ==> Visits(slots[..], mix, i) <= summary.maximumProbes
      ensures |contents| > 0 ==> exists i :: 0 <= i < slots.Length && Visits(slots[..], mix, i) == summary.maximumProbes
      ensures |contents| == 0 ==> summary.maximumProbes == 0
    {
      hide NoZeroId, Distinct, Reachable, Holds, Probe, Home, MaskedDistance;
      summary := ProbeSummary(0, 0, 0);
      ghost var t := slots[..];
      for index := 0 to slots.Length
        invariant summary.occupied == Occupied(t, index)
        invariant summary.totalProbes == TotalVisits(t, mix, index)
        invariant forall i :: 0 <= i < index ==> Visits(t, mix, i) <= summary.maximumProbes
        invariant summary.occupied > 0 ==> exists i :: 0 <= i < index && Visits(t, mix, i) == summary.maximumProbes
        invariant summary.occupied == 0 ==> summary.maximumProbes == 0
      {
        if slots[index].occupied {
          ProbeHits(t, mix, index, 0);
          var probes := MaskedDistance(Home(mix, slots[index].id, slots.Length), index, slots.Length) + 1;
          summary := ProbeSummary(summary.occupied + 1, summary.totalProbes + probes,
                                  if summary.maximumProbes < probes then probes else summary.maximumProbes);
        }
      }
      OccupiedIsCardinality(t, contents);
    }

    /** The entries in slot order, as for_each hands them to its visitor. */
    method Entries() returns (entries: seq<(Word, V)>)
      requires Valid()
      ensures |entries| == |contents|
      ensures forall i :: 0 <= i < |entries| ==> entries[i].0 in contents && contents[entries[i].0] == entries[i].1
      ensures forall i, j :: 0 <= i < j < |entries| ==> entries[i].0 != entries[j].0
      ensures forall id :: id in contents ==> (id, contents[id]) in entries
    {
      hide WellFormed, Holds;
      entries := [];
      ghost var t := slots[..];
      for index := 0 to slots.Length
        invariant entries == Collected(t, index)
      {
        if slots[index].occupied {
          entries := entries + [(slots[index].id, slots[index].value)];
        }
      }
      CollectedIsContents(t, mix, contents);
    }
  }

  /** The pairs in the first `k` slots, in slot order. */
  function Collected<V>(t: seq<Slot<V>>, k: nat): seq<(Word, V)>
    requires k <= |t|
  {
    if k == 0 then []
    else if !t[k - 1].occupied then Collected(t, k - 1)
    else Collected(t, k - 1) + [(t[k - 1].id, t[k - 1].value)]
  }

  lemma {:induction false} CollectedFrom<V>(t: seq<Slot<V>>, k: nat)
    requires k <= |t|
    ensures |Collected(t, k)| == Occupied(t, k)
    ensures forall e :: e in Collected(t, k) ==> exists i :: 0 <= i < k && t[i] == Slot(e.0, e.1, true)
    ensures forall i :: 0 <= i < k && t[i].occupied ==> (t[i].id, t[i].value) in Collected(t, k)
  {
    if k == 0 {
    } else {
      CollectedFrom(t, k - 1);
    }
  }

  lemma {:induction false} CollectedDistinct<V>(t: seq<Slot<V>>, k: nat)
    requires k <= |t| && Distinct(t)
    ensures forall i, j :: 0 <= i < j < |Collected(t, k)| ==> Collected(t, k)[i].0 != Collected(t, k)[j].0
  {
    if k == 0 {
    } else {
      CollectedDistinct(t, k - 1);
      CollectedFrom(t, k - 1);
      var c := Collected(t, k - 1);
      forall i | 0 <= i < |c| && t[k - 1].occupied ensures c[i].0 != t[k - 1].id {
        assert c[i] in c;
      }
    }
  }

  lemma CollectedIsContents<V>(t: seq<Slot<V>>, mix: Word -> Word, m: map<Word, V>)
    requires WellFormed(t, mix) && Holds(t, m)
    ensures var c := Collected(t, |t|);
            && |c| == |m|
            && (forall i :: 0 <= i < |c| ==> c[i].0 in m && m[c[i].0] == c[i].1)
            && (forall i, j :: 0 <= i < j < |c| ==> c[i].0 != c[j].0)
            && (forall id :: id in m ==> (id, m[id]) in c)
  {
    hide IsTableSize, Reachable, Collected;
    CollectedFrom(t, |t|);
    CollectedDistinct(t, |t|);
    OccupiedIsCardinality(t, m);
    var c := Collected(t, |t|);
    forall i | 0 <= i < |c| ensures c[i].0 in m && m[c[i].0] == c[i].1 {
      assert c[i] in c;
    }
  }

  lemma AssignKeeps<V>(t: seq<Slot<V>>, mix: Word -> Word, m: map<Word, V>, at: nat, v: V)
    requires WellFormed(t, mix) && Holds(t, m) && at < |t| && t[at].occupied
    ensures WellFormed(t[at := t[at].(value := v)], mix)
    ensures Holds(t[at := t[at].(value := v)], m[t[at].id := v])
  {
    var u, m' := t[at := t[at].(value := v)], m[t[at].id := v];
    forall x | x in m' ensures exists i :: 0 <= i < |u| && u[i].occupied && u[i].id == x {
      assert x in m;
      var i :| 0 <= i < |t| && t[i].occupied && t[i].id == x;
      assert u[i].occupied && u[i].id == x;
    }
  }

  // ----- whole histories

  datatype Op<V> = Insert(id: Word, value: V) | Find(id: Word) | Erase(id: Word)
  datatype Answer<V> = Accepted(ok: bool) | Found(value: Option<V>)

  /** A finite map that holds at most `limit` entries and refuses id 0. */
  function MapStep<V>(m: map<Word, V>, limit: nat, op: Op<V>): (map<Word, V>, Answer<V>) {
    match op
    case Insert(id, v) =>
      var ok := id != 0 && |m| < limit && id !in m;
      (if ok then m[id := v] else m, Accepted(ok))
    case Find(id) => (m, Found(if id in m then Some(m[id]) else None))
    case Erase(id) => (m - {id}, Found(if id in m then Some(m[id]) else None))
  }

  function MapRun<V>(m: map<Word, V>, limit: nat, ops: seq<Op<V>>): (map<Word, V>, seq<Answer<V>>) {
    if ops == [] then (m, [])
    else
      var r := MapRun(m, limit, ops[..|ops| - 1]);
      var s := MapStep(r.0, limit, ops[|ops| - 1]);
      (s.0, r.1 + [s.1])
  }

  /** None is the constructor's capacity-overflow exception. */
  method NewIndex<V>(maximumLive: Word, mix: Word -> Word, blank: V) returns (index: Option<FixedOrderIndex<V>>)
    requires maximumLive <= HALF_RANGE || maximumLive > U64_MAX / 2
    ensures index.None? <==> maximumLive > U64_MAX / 2
    ensures index.Some? ==> && index.value.Valid() && fresh(index.value) && fresh(index.value.slots)
                            && index.value.contents == map[] && index.value.maximumLive == maximumLive
  {
    if maximumLive > U64_MAX / 2 {
      return None;
    }
    var i := new FixedOrderIndex<V>(maximumLive, mix, blank);
    index := Some(i);
  }

  /** Over every history, for every hash, the index answers exactly as the bounded map does. */
  method Replay<V>(index: FixedOrderIndex<V>, ops: seq<Op<V>>) returns (answers: seq<Answer<V>>)
    requires index.Valid()
    modifies index, index.slots
    ensures index.Valid()
    ensures (index.contents, answers) == MapRun(old(index.contents), index.maximumLive, ops)
  {
    hide WellFormed, Holds, FixedOrderIndex.Valid;
    answers := [];
    ghost var start := index.contents;
    for i := 0 to |ops|
      invariant index.Valid()
      invariant (index.contents, answers) == MapRun(start, index.maximumLive, ops[..i])
    {
      assert ops[..i + 1][..i] == ops[..i];
      match ops[i] {
        case Insert(id, v) =>
          var ok := index.Insert(id, v);
          answers := answers + [Accepted(ok)];
        case Find(id) =>
          var found := index.Find(id);
          answers := answers + [Found(found)];
        case Erase(id) =>
          var erased := index.Erase(id);
          answers := answers + [Found(erased)];
      }
    }
    assert ops[..|ops|] == ops;
  }
}
