/**
 The order-ID table of the v2, v3 and v4 books: the same probing, but an erased entry leaves a
 tombstone that keeps later entries reachable and that a later insertion may reuse.
 */
module TombstoneIndex {
  import opened Words
  import opened Circle
  import OI = OrderIndex

  datatype State = Empty | Occupied | Tombstone
  datatype Cell<V> = Cell(id: Word, value: V, state: State)

  /** The table with tombstones read as free slots. */
  function View<V>(t: seq<Cell<V>>): (s: seq<OI.Slot<V>>)
    ensures |s| == |t|
    ensures forall i :: 0 <= i < |t| ==> s[i] == OI.Slot(t[i].id, t[i].value, t[i].state == Occupied)
  {
    seq(|t|, i requires 0 <= i < |t| => OI.Slot(t[i].id, t[i].value, t[i].state == Occupied))
  }

  /** No never-used slot lies on any live entry's path from its home. */
  ghost predicate Reachable<V>(t: seq<Cell<V>>, mix: Word -> Word) {
    forall i, k ::
      0 <= i < |t| && 0 <= k < |t| && t[i].state == Occupied && OnPath(OI.Home(mix, t[i].id, |t|), k, i, |t|)
      ==> t[k].state != Empty
  }

  ghost predicate Holds<V>(t: seq<Cell<V>>, m: map<Word, V>) {
    && (forall i :: 0 <= i < |t| && t[i].state == Occupied ==> t[i].id in m && m[t[i].id] == t[i].value)
    && (forall id :: id in m ==> exists i :: 0 <= i < |t| && t[i].state == Occupied && t[i].id == id)
  }

  ghost predicate Distinct<V>(t: seq<Cell<V>>) {
    forall i, j ::
      0 <= i < |t| && 0 <= j < |t| && t[i].state == Occupied && t[j].state == Occupied && t[i].id == t[j].id
      ==> i == j
  }

  ghost predicate WellFormed<V>(t: seq<Cell<V>>, mix: Word -> Word) {
    IsTableSize(|t|) && Distinct(t) && Reachable(t, mix)
  }

  lemma CountsLive<V>(t: seq<Cell<V>>, m: map<Word, V>)
    requires Distinct(t) && Holds(t, m)
    ensures |m| == OI.Occupied(View(t), |t|)
  {
    var s := View(t);
    forall id | id in m ensures exists i :: 0 <= i < |s| && s[i].occupied && s[i].id == id {
      var i :| 0 <= i < |t| && t[i].state == Occupied && t[i].id == id;
      assert s[i].occupied && s[i].id == id;
    }
    assert OI.Holds(s, m);
    OI.OccupiedIsCardinality(s, m);
  }

  lemma {:induction false} FreeSlotCounts<V>(s: seq<OI.Slot<V>>, free: nat, k: nat)
    requires free < k <= |s| && !s[free].occupied
    ensures OI.Occupied(s, k) < k
  {
    if k == free + 1 {
      AtMostAll(s, free);
    } else {
      FreeSlotCounts(s, free, k - 1);
    }
  }

  lemma {:induction false} AtMostAll<V>(s: seq<OI.Slot<V>>, k: nat)
    requires k <= |s|
    ensures OI.Occupied(s, k) <= k
  {
    if k == 0 {
    } else {
      AtMostAll(s, k - 1);
    }
  }

  /** The table is full of live entries exactly when its map has as many entries as it has slots. */
  lemma FullExactly<V>(t: seq<Cell<V>>, m: map<Word, V>)
    requires Distinct(t) && Holds(t, m)
    ensures |m| <= |t|
    ensures (forall i :: 0 <= i < |t| ==> t[i].state == Occupied) <==> |m| == |t|
  {
    CountsLive(t, m);
    AtMostAll(View(t), |t|);
    if forall i :: 0 <= i < |t| ==> t[i].state == Occupied {
      OI.FullCount(View(t), |t|);
    } else {
      var free :| 0 <= free < |t| && t[free].state != Occupied;
      FreeSlotCounts(View(t), free, |t|);
    }
  }

  /** Every slot before `at` on the path from `home` has been used and does not hold `id`. */
  ghost predicate PassedOver<V>(t: seq<Cell<V>>, home: nat, id: Word, steps: nat)
    requires home < |t|
  {
    forall k :: 0 <= k < |t| && Dist(home, k, |t|) < steps
                ==> t[k].state != Empty && !(t[k].state == Occupied && t[k].id == id)
  }

  lemma EmptyEndsSearch<V>(t: seq<Cell<V>>, mix: Word -> Word, m: map<Word, V>, id: Word, at: nat)
    requires WellFormed(t, mix) && Holds(t, m) && at < |t| && t[at].state == Empty
    requires PassedOver(t, OI.Home(mix, id, |t|), id, Dist(OI.Home(mix, id, |t|), at, |t|))
    ensures id !in m
  {
    hide IsTableSize, Distinct, OI.Home;
  }

  lemma WholeCircleEndsSearch<V>(t: seq<Cell<V>>, m: map<Word, V>, home: nat, id: Word)
    requires home < |t| && Holds(t, m) && PassedOver(t, home, id, |t|)
    ensures id !in m
  {
  }

  lemma LiveHere<V>(t: seq<Cell<V>>, m: map<Word, V>, i: nat)
    requires Holds(t, m) && i < |t| && t[i].state == Occupied
    ensures t[i].id in m && m[t[i].id] == t[i].value
  {
  }

  /** Reusing the first tombstone, or the empty slot, never duplicates an id and breaks no path. */
  lemma PlaceKeeps<V>(t: seq<Cell<V>>, mix: Word -> Word, m: map<Word, V>, id: Word, v: V, at: nat)
    requires WellFormed(t, mix) && Holds(t, m) && id !in m && at < |t| && t[at].state != Occupied
    requires PassedOver(t, OI.Home(mix, id, |t|), id, Dist(OI.Home(mix, id, |t|), at, |t|))
    ensures WellFormed(t[at := Cell(id, v, Occupied)], mix)
    ensures Holds(t[at := Cell(id, v, Occupied)], m[id := v])
  {
    hide IsTableSize, OI.Home;
    var u, m' := t[at := Cell(id, v, Occupied)], m[id := v];
    forall x | x in m' ensures exists i :: 0 <= i < |u| && u[i].state == Occupied && u[i].id == x {
      if x == id {
        assert u[at].state == Occupied;
      } else {
        var i :| 0 <= i < |t| && t[i].state == Occupied && t[i].id == x;
        assert u[i] == t[i];
      }
    }
  }

  lemma BuryKeeps<V>(t: seq<Cell<V>>, mix: Word -> Word, m: map<Word, V>, at: nat)
    requires WellFormed(t, mix) && Holds(t, m) && at < |t| && t[at].state == Occupied
    ensures WellFormed(t[at := t[at].(state := Tombstone)], mix)
    ensures Holds(t[at := t[at].(state := Tombstone)], m - {t[at].id})
  {
    hide IsTableSize, OI.Home;
    var u, m' := t[at := t[at].(state := Tombstone)], m - {t[at].id};
    forall x | x in m' ensures exists i :: 0 <= i < |u| && u[i].state == Occupied && u[i].id == x {
      var i :| 0 <= i < |t| && t[i].state == Occupied && t[i].id == x;
      assert u[i] == t[i];
    }
  }

  lemma AssignKeeps<V>(t: seq<Cell<V>>, mix: Word -> Word, m: map<Word, V>, at: nat, v: V)
    requires WellFormed(t, mix) && Holds(t, m) && at < |t| && t[at].state == Occupied
    ensures WellFormed(t[at := t[at].(value := v)], mix)
    ensures Holds(t[at := t[at].(value := v)], m[t[at].id := v])
  {
    hide IsTableSize, OI.Home;
    var u, m' := t[at := t[at].(value := v)], m[t[at].id := v];
    forall x | x in m' ensures exists i :: 0 <= i < |u| && u[i].state == Occupied && u[i].id == x {
      assert x in m;
      var i :| 0 <= i < |t| && t[i].state == Occupied && t[i].id == x;
      assert u[i].state == Occupied && u[i].id == x;
    }
  }

  lemma LiveIdsAreKeys<V>(t: seq<Cell<V>>, m: map<Word, V>, ids: seq<Word>)
    requires Distinct(t) && Holds(t, m)
    requires var c := OI.Collected(View(t), |t|);
             |ids| == |c| && forall j :: 0 <= j < |ids| ==> ids[j] == c[j].0
    ensures forall i, j :: 0 <= i < j < |ids| ==> ids[i] != ids[j]
    ensures forall id :: id in ids <==> id in m
  {
    hide OI.Collected;
    var s := View(t);
    var c := OI.Collected(s, |t|);
    assert OI.Distinct(s);
    OI.CollectedFrom(s, |t|);
    OI.CollectedDistinct(s, |t|);
    forall id | id in ids ensures id in m {
      var j :| 0 <= j < |ids| && ids[j] == id;
      assert c[j] in c;
    }
    forall id | id in m ensures id in ids {
      var i :| 0 <= i < |t| && t[i].state == Occupied && t[i].id == id;
      assert s[i].occupied;
      var j :| 0 <= j < |c| && c[j] == (s[i].id, s[i].value);
      assert ids[j] == id;
    }
  }

  class TombstoneTable<V> {
    const mix: Word -> Word
    const slots: array<Cell<V>>
    ghost var contents: map<Word, V>

    ghost predicate Valid()
      reads this, slots
    {
      WellFormed(slots[..], mix) && Holds(slots[..], contents)
    }

    constructor (capacity: nat, mix: Word -> Word, blank: V)
      requires IsTableSize(capacity)
      ensures Valid() && fresh(slots) && contents == map[] && slots.Length == capacity && this.mix == mix
    {
      this.mix := mix;
      slots := new Cell<V>[capacity](_ => Cell(0, blank, Empty));
      contents := map[];
    }

    /** The slot holding `id`, or the slot count when `id` is not live. */
    method FindSlot(id: Word) returns (index: nat)
      requires Valid()
      ensures if id in contents
              then index < slots.Length && slots[index] == Cell(id, contents[id], Occupied)
              else index == slots.Length
    {
      hide Pow2, Reachable, OI.Home, Advance;
      var n := slots.Length;
      var step := 0;
      index := OI.Home(mix, id, n);
      ghost var t, home := slots[..], index;
      while step < n
        invariant step <= n && index < n
        invariant step < n ==> index == At(home, step, n)
        invariant PassedOver(t, home, id, step)
      {
        if slots[index].state == Empty {
          EmptyEndsSearch(t, mix, contents, id, index);
          return n;
        }
        if slots[index].state == Occupied && slots[index].id == id {
          return index;
        }
        step, index := step + 1, Advance(index, n);
      }
      WholeCircleEndsSearch(t, contents, home, id);
      index := n;
    }

    /** Where a new `id` goes, or the slot count when it is already live or no slot can be reused. */
    method InsertionSlot(id: Word) returns (index: nat)
      requires Valid()
      ensures index <= slots.Length
      ensures index < slots.Length <==> id !in contents && |contents| < slots.Length
      ensures index < slots.Length ==>
                && slots[index].state != Occupied
                && var home := OI.Home(mix, id, slots.Length);
                PassedOver(slots[..], home, id, Dist(home, index, slots.Length))
    {
      hide Pow2, Reachable, Distinct, Holds, OI.Home, Advance;
      var n := slots.Length;
      var firstTombstone: nat := n;
      var step := 0;
      index := OI.Home(mix, id, n);
      ghost var t, home := slots[..], index;
      FullExactly(t, contents);
      while step < n
        invariant step <= n && index < n && firstTombstone <= n
        invariant step < n ==> index == At(home, step, n)
        invariant PassedOver(t, home, id, step)
        invariant firstTombstone < n ==> t[firstTombstone].state == Tombstone && Dist(home, firstTombstone, n) < step
        invariant firstTombstone == n ==> forall k :: 0 <= k < n && Dist(home, k, n) < step ==> t[k].state == Occupied
      {
        if slots[index].state == Empty {
          EmptyEndsSearch(t, mix, contents, id, index);
          return if firstTombstone == n then index else firstTombstone;
        }
        if slots[index].state == Tombstone && firstTombstone == n {
          firstTombstone := index;
        }
        if slots[index].state == Occupied && slots[index].id == id {
          LiveHere(t, contents, index);
          return n;
        }
        step, index := step + 1, Advance(index, n);
      }
      WholeCircleEndsSearch(t, contents, home, id);
      index := firstTombstone;
    }

    method Place(index: nat, id: Word, value: V)
      requires Valid() && id !in contents && index < slots.Length && slots[index].state != Occupied
      requires var home := OI.Home(mix, id, slots.Length);
               PassedOver(slots[..], home, id, Dist(home, index, slots.Length))
      modifies this, slots
      ensures Valid() && contents == old(contents)[id := value]
    {
      hide IsTableSize, Reachable, Distinct, Holds, PassedOver, OI.Home;
      ghost var t := slots[..];
      PlaceKeeps(t, mix, contents, id, value, index);
      slots[index] := Cell(id, value, Occupied);
      assert slots[..] == t[index := Cell(id, value, Occupied)];
      contents := contents[id := value];
    }

    method Bury(index: nat)
      requires Valid() && index < slots.Length && slots[index].state == Occupied
      modifies this, slots
      ensures Valid() && contents == old(contents) - {old(slots[index].id)}
    {
      hide IsTableSize, Reachable, Distinct, Holds, OI.Home;
      ghost var t := slots[..];
      BuryKeeps(t, mix, contents, index);
      slots[index] := slots[index].(state := Tombstone);
      assert slots[..] == t[index := t[index].(state := Tombstone)];
      contents := contents - {t[index].id};
    }

    method Assign(index: nat, value: V)
      requires Valid() && index < slots.Length && slots[index].state == Occupied
      modifies this, slots
      ensures Valid() && contents == old(contents)[old(slots[index].id) := value]
    {
      hide IsTableSize, Reachable, Distinct, Holds, OI.Home;
      ghost var t := slots[..];
      AssignKeeps(t, mix, contents, index, value);
      slots[index] := slots[index].(value := value);
      assert slots[..] == t[index := t[index].(value := value)];
      contents := contents[t[index].id := value];
    }

    /** The ids of the occupied slots, in slot order. */
    method LiveIds() returns (ids: seq<Word>)
      requires Valid()
      ensures forall i, j :: 0 <= i < j < |ids| ==> ids[i] != ids[j]
      ensures forall id :: id in ids <==> id in contents
    {
      hide IsTableSize, Reachable, Distinct, Holds;
      ids := [];
      ghost var t := slots[..];
      for i := 0 to slots.Length
        invariant |ids| == |OI.Collected(View(t), i)|
        invariant forall j :: 0 <= j < |ids| ==> ids[j] == OI.Collected(View(t), i)[j].0
      {
        if slots[i].state == Occupied {
          ids := ids + [slots[i].id];
        }
      }
      LiveIdsAreKeys(t, contents, ids);
    }

    method Insert(id: Word, value: V) returns (ok: bool)
      requires Valid()
      modifies this, slots
      ensures Valid()
      ensures ok <==> id !in old(contents) && |old(contents)| < slots.Length
      ensures contents == if ok then old(contents)[id := value] else old(contents)
    {
      hide WellFormed, Holds, PassedOver;
      var index := InsertionSlot(id);
      ok := index < slots.Length;
      if ok {
        Place(index, id, value);
      }
    }

    method Find(id: Word) returns (value: Option<V>)
      requires Valid()
      ensures value == if id in contents then Some(contents[id]) else None
    {
      hide WellFormed, Holds;
      var index := FindSlot(id);
      value := if index == slots.Length then None else Some(slots[index].value);
    }

    method Erase(id: Word) returns (value: Option<V>)
      requires Valid()
      modifies this, slots
      ensures Valid()
      ensures value == if id in old(contents) then Some(old(contents)[id]) else None
      ensures contents == old(contents) - {id}
    {
      hide WellFormed, Holds;
      var index := FindSlot(id);
      if index == slots.Length {
        return None;
      }
      value := Some(slots[index].value);
      Bury(index);
    }
  }

  // ----- whole histories, against the same bounded map as the backward-shift index

  /** Every insertion of a fresh id meets fewer than `limit` entries. */
  ghost predicate StaysBelow<V>(m: map<Word, V>, limit: nat, ops: seq<OI.Op<V>>) {
    forall i :: 0 <= i < |ops| && ops[i].Insert? && ops[i].id != 0 && ops[i].id !in OI.MapRun(m, limit, ops[..i]).0
                ==> |OI.MapRun(m, limit, ops[..i]).0| < limit
  }

  ghost predicate Exceeds<V>(m: map<Word, V>, limit: nat, op: OI.Op<V>) {
    op.Insert? && op.id != 0 && op.id !in m && |m| >= limit
  }

  lemma StepsAgree<V>(m: map<Word, V>, limit: nat, larger: nat, op: OI.Op<V>)
    requires |m| <= limit < larger
    ensures OI.MapStep(m, limit, op).1 == OI.MapStep(m, larger, op).1 <==> !Exceeds(m, limit, op)
    ensures !Exceeds(m, limit, op) ==> OI.MapStep(m, limit, op) == OI.MapStep(m, larger, op)
  {
  }

  /** Two limits give the same answers exactly for histories that stay below the smaller one. */
  lemma {:induction false} LimitsAgree<V>(m: map<Word, V>, limit: nat, larger: nat, ops: seq<OI.Op<V>>)
    requires |m| <= limit < larger
    ensures OI.MapRun(m, limit, ops).1 == OI.MapRun(m, larger, ops).1 <==> StaysBelow(m, limit, ops)
    ensures StaysBelow(m, limit, ops) ==> OI.MapRun(m, limit, ops) == OI.MapRun(m, larger, ops)
  {
    hide OI.MapStep;
    if ops == [] {
    } else {
      var init, last := ops[..|ops| - 1], ops[|ops| - 1];
      LimitsAgree(m, limit, larger, init);
      RunKeepsLimit(m, limit, init);
      var a, b := OI.MapRun(m, limit, init), OI.MapRun(m, larger, init);
      StepsAgree(a.0, limit, larger, last);
      StaysBelowSplits(m, limit, ops);
      var x, y := OI.MapStep(a.0, limit, last).1, OI.MapStep(b.0, larger, last).1;
      RunLengths(m, limit, init);
      RunLengths(m, larger, init);
      assert (a.1 + [x])[..|init|] == a.1 && (b.1 + [y])[..|init|] == b.1;
      assert (a.1 + [x])[|init|] == x && (b.1 + [y])[|init|] == y;
    }
  }

  lemma StaysBelowSplits<V>(m: map<Word, V>, limit: nat, ops: seq<OI.Op<V>>)
    requires ops != []
    ensures var init, last := ops[..|ops| - 1], ops[|ops| - 1];
            StaysBelow(m, limit, ops) <==>
              StaysBelow(m, limit, init) && !Exceeds(OI.MapRun(m, limit, init).0, limit, last)
  {
    hide OI.MapRun;
    var init := ops[..|ops| - 1];
    assert forall i :: 0 <= i <= |init| ==> init[..i] == ops[..i];
  }

  lemma {:induction false} RunKeepsLimit<V>(m: map<Word, V>, limit: nat, ops: seq<OI.Op<V>>)
    requires |m| <= limit
    ensures |OI.MapRun(m, limit, ops).0| <= limit
  {
    if ops == [] {
    } else {
      var init := ops[..|ops| - 1];
      RunKeepsLimit(m, limit, init);
      var r := OI.MapRun(m, limit, init).0;
      if ops[|ops| - 1].Erase? {
        var id := ops[|ops| - 1].id;
        assert (r - {id}).Keys == r.Keys - {id};
        assert |r - {id}| == |r.Keys - {id}|;
      }
    }
  }

  lemma {:induction false} RunLengths<V>(m: map<Word, V>, limit: nat, ops: seq<OI.Op<V>>)
    ensures |OI.MapRun(m, limit, ops).1| == |ops|
  {
    if ops == [] {
    } else {
      RunLengths(m, limit, ops[..|ops| - 1]);
    }
  }

  /** Over every history of nonzero ids, tombstones and all, the table answers as a map bounded by its slot count. */
  method Replay<V>(table: TombstoneTable<V>, ops: seq<OI.Op<V>>) returns (answers: seq<OI.Answer<V>>)
    requires table.Valid()
    requires forall i :: 0 <= i < |ops| ==> ops[i].id != 0
    modifies table, table.slots
    ensures table.Valid()
    ensures (table.contents, answers) == OI.MapRun(old(table.contents), table.slots.Length, ops)
  {
    hide WellFormed, Holds;
    answers := [];
    ghost var start := table.contents;
    for i := 0 to |ops|
      invariant table.Valid()
      invariant (table.contents, answers) == OI.MapRun(start, table.slots.Length, ops[..i])
    {
      assert ops[..i + 1][..i] == ops[..i];
      assert ops[i].id != 0;
      match ops[i] {
        case Insert(id, v) =>
          var ok := table.Insert(id, v);
          answers := answers + [OI.Accepted(ok)];
        case Find(id) =>
          var found := table.Find(id);
          answers := answers + [OI.Found(found)];
        case Erase(id) =>
          var erased := table.Erase(id);
          answers := answers + [OI.Found(erased)];
      }
    }
    assert ops[..|ops|] == ops;
  }

  /** Started empty on the same history, the two indexes give the same answers exactly while it stays below the
      live bound. */
  method ReplayBoth<V>(index: OI.FixedOrderIndex<V>, table: TombstoneTable<V>, ops: seq<OI.Op<V>>)
    returns (backshift: seq<OI.Answer<V>>, tombstone: seq<OI.Answer<V>>)
    requires index.Valid() && table.Valid() && index.contents == table.contents == map[]
    requires index.maximumLive < table.slots.Length
    requires forall i :: 0 <= i < |ops| ==> ops[i].id != 0
    modifies index, index.slots, table, table.slots
    ensures index.Valid() && table.Valid()
    ensures backshift == tombstone <==> StaysBelow(map[], index.maximumLive, ops)
    ensures backshift == tombstone ==> index.contents == table.contents
  {
    hide OI.WellFormed, OI.Holds, WellFormed, Holds, OI.MapRun, StaysBelow;
    backshift := OI.Replay(index, ops);
    tombstone := Replay(table, ops);
    LimitsAgree<V>(map[], index.maximumLive, table.slots.Length, ops);
  }
}
