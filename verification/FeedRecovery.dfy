/** Feed sequence recovery: a gap-detecting gate with a bounded replay buffer for snapshots. */
module FeedRecovery {
  import opened Words

  datatype Mode = Live | AwaitingSnapshot | Snapshotting
  datatype Result = Apply | IgnoreStale | Gap | BufferedUp | BufferFull
  datatype Buffered<E> = Buffered(sequence: Word, event: E)

  // ----- what a replay buffer must look like

  ghost predicate Mentions<E>(s: seq<Buffered<E>>, x: Word) {
    exists i :: 0 <= i < |s| && s[i].sequence == x
  }

  /** `s` mentions exactly the sequence numbers last+1 .. last+n. */
  ghost predicate Covers<E>(s: seq<Buffered<E>>, last: Word, n: nat) {
    && (forall i :: 0 <= i < |s| ==> last < s[i].sequence <= last + n)
    && (forall x: Word :: last < x <= last + n ==> Mentions(s, x))
  }

  /** The largest 64-bit number occurs at most once: a second copy is compared with a wrapped counter. */
  ghost predicate TopOnce<E>(s: seq<Buffered<E>>) {
    forall i, j :: 0 <= i < |s| && 0 <= j < |s| && s[i].sequence == U64_MAX && s[j].sequence == U64_MAX ==> i == j
  }

  ghost predicate Replayable<E>(s: seq<Buffered<E>>, last: Word, n: nat) {
    last + n < U64 && Covers(s, last, n) && TopOnce(s)
  }

  /** The numbers in `s` are an interval starting right after `last`, or none at all. */
  ghost predicate Contiguous<E>(s: seq<Buffered<E>>, last: Word) {
    exists n: nat :: Replayable(s, last, n)
  }

  /** ... and `next` is the number after that interval, modulo 2^64. */
  ghost predicate ContinuesAt<E>(s: seq<Buffered<E>>, last: Word, next: Word) {
    exists n: nat :: Replayable(s, last, n) && next == (last + 1 + n) % U64
  }

  predicate SortedBySequence<E>(s: seq<Buffered<E>>) {
    forall i, j :: 0 <= i < j < |s| ==> s[i].sequence <= s[j].sequence
  }

  // ----- the two scans of finish_snapshot

  /** The checking scan over the first `k` entries: None is the gap exit. */
  function Checked<E>(s: seq<Buffered<E>>, last: Word, k: nat): Option<Word>
    requires k <= |s|
  {
    if k == 0 then Some((last + 1) % U64)
    else
      match Checked(s, last, k - 1)
      case None => None
      case Some(next) =>
        if s[k - 1].sequence < next then Some(next)
        else if s[k - 1].sequence > next then None
        else Some((next + 1) % U64)
  }

  /** The emitting scan over the first `k` entries. */
  function Emitted<E>(s: seq<Buffered<E>>, last: Word, k: nat): (seq<Buffered<E>>, Word)
    requires k <= |s|
  {
    if k == 0 then ([], (last + 1) % U64)
    else
      var (out, next) := Emitted(s, last, k - 1);
      if s[k - 1].sequence == next then (out + [s[k - 1]], (next + 1) % U64) else (out, next)
  }

  ghost predicate AllAfter<E>(s: seq<Buffered<E>>, last: Word) {
    forall i :: 0 <= i < |s| ==> last < s[i].sequence
  }

  lemma CoverExtends<E>(s: seq<Buffered<E>>, last: Word, k: nat, n: nat)
    requires k < |s| && Replayable(s[..k], last, n) && SortedBySequence(s) && AllAfter(s, last)
    ensures s[k].sequence <= last + n && s[k].sequence < U64_MAX ==> Replayable(s[..k + 1], last, n)
    ensures s[k].sequence == last + n + 1 ==> Replayable(s[..k + 1], last, n + 1)
  {
    var p, q := s[..k], s[..k + 1];
    assert forall i :: 0 <= i < k ==> q[i] == p[i];
    assert q[k] == s[k];
    forall x: Word | Mentions(p, x) ensures Mentions(q, x) {
      var i :| 0 <= i < |p| && p[i].sequence == x;
      assert q[i].sequence == x;
    }
    assert Mentions(q, s[k].sequence);
  }

  lemma CoverBreaks<E>(s: seq<Buffered<E>>, last: Word, k: nat, n: nat, m: nat)
    requires k < |s| && Replayable(s[..k], last, n) && SortedBySequence(s) && AllAfter(s, last)
    requires s[k].sequence > last + n + 1 || (last + n == U64_MAX)
    ensures !Replayable(s[..k + 1], last, m)
  {
    var p, q := s[..k], s[..k + 1];
    assert forall i :: 0 <= i < k ==> q[i] == p[i] == s[i] && s[i].sequence <= s[k].sequence;
    assert q[k] == s[k];
    if last + n == U64_MAX {
      assert Mentions(p, U64_MAX);
      var i :| 0 <= i < |p| && p[i].sequence == U64_MAX;
      assert q[i].sequence == U64_MAX && q[k].sequence == U64_MAX;
    } else {
      assert !Mentions(q, last + n + 1);
    }
  }

  /** A prefix of a replayable sorted buffer is replayable. */
  lemma CoverShrinks<E>(s: seq<Buffered<E>>, last: Word, k: nat, m: nat) returns (n: nat)
    requires k < |s| && Replayable(s[..k + 1], last, m) && SortedBySequence(s)
    ensures Replayable(s[..k], last, n)
  {
    var p, q := s[..k], s[..k + 1];
    assert forall i :: 0 <= i < k ==> q[i] == p[i];
    if k == 0 {
      n := 0;
    } else {
      assert q[k - 1] == s[k - 1] && q[k] == s[k];
      n := s[k - 1].sequence - last;
      forall x: Word | last < x <= last + n ensures Mentions(p, x) {
        assert Mentions(q, x);
        var i :| 0 <= i < |q| && q[i].sequence == x;
        var j := if i == k then k - 1 else i;
        assert p[j].sequence == x;
      }
    }
  }

  /** The checking scan passes exactly on contiguous buffers, and its counter says where they end. */
  lemma {:induction false} CheckDecides<E>(s: seq<Buffered<E>>, last: Word, k: nat)
    requires k <= |s| && SortedBySequence(s) && AllAfter(s, last)
    ensures Checked(s, last, k).Some? <==> Contiguous(s[..k], last)
    ensures Checked(s, last, k).Some? ==> ContinuesAt(s[..k], last, Checked(s, last, k).value)
  {
    hide Covers, TopOnce;
    if k == 0 {
      NothingCovers(s[..0], last);
    } else {
      CheckDecides(s, last, k - 1);
      if Checked(s, last, k - 1).None? {
        if Contiguous(s[..k], last) {
          var m: nat :| Replayable(s[..k], last, m);
          var n := CoverShrinks(s, last, k - 1, m);
        }
      } else {
        var n: nat :| Replayable(s[..k - 1], last, n) && Checked(s, last, k - 1).value == (last + 1 + n) % U64;
        CheckOneMore(s, last, k - 1, n);
      }
    }
  }

  lemma NothingCovers<E>(s: seq<Buffered<E>>, last: Word)
    requires s == []
    ensures Replayable(s, last, 0)
  {
  }

  lemma CheckOneMore<E>(s: seq<Buffered<E>>, last: Word, k: nat, n: nat)
    requires k < |s| && SortedBySequence(s) && AllAfter(s, last) && Replayable(s[..k], last, n)
    requires Checked(s, last, k) == Some((last + 1 + n) % U64)
    ensures Checked(s, last, k + 1).Some? <==> Contiguous(s[..k + 1], last)
    ensures Checked(s, last, k + 1).Some? ==> ContinuesAt(s[..k + 1], last, Checked(s, last, k + 1).value)
  {
    hide Covers, TopOnce;
    var x, q := s[k].sequence, s[..k + 1];
    CoverExtends(s, last, k, n);
    if last + n == U64_MAX || x > last + n + 1 {
      forall m: nat ensures !Replayable(q, last, m) {
        CoverBreaks(s, last, k, n, m);
      }
    } else {
      var m := if x == last + n + 1 then n + 1 else n;
      assert Replayable(q, last, m);
    }
  }

  lemma FirstAfter<E>(s: seq<Buffered<E>>, last: Word, k: nat)
    requires AllAfter(s, last) && 0 < k <= |s|
    ensures last < s[k - 1].sequence
  {
  }

  /** The emitting scan counts as the checking scan did, and emits one buffered event per sequence number, in order. */
  lemma {:induction false} EmitsInOrder<E>(s: seq<Buffered<E>>, last: Word, k: nat)
    requires k <= |s| && AllAfter(s, last) && Checked(s, last, k).Some?
    ensures Emitted(s, last, k).1 == Checked(s, last, k).value
    ensures var out := Emitted(s, last, k).0;
            && Checked(s, last, k).value == (last + 1 + |out|) % U64
            && (forall i :: 0 <= i < |out| ==> out[i].sequence == last + 1 + i)
            && (forall i :: 0 <= i < |out| ==> out[i] in s)
            && last + |out| < U64
  {
    hide AllAfter;
    if k == 0 {
    } else {
      FirstAfter(s, last, k);
      EmitsInOrder(s, last, k - 1);
    }
  }

  // ----- any sorted permutation will do

  lemma {:induction false} TopCountsOnce<E>(r: seq<Buffered<E>>, x: Buffered<E>)
    requires TopOnce(r) && x.sequence == U64_MAX
    ensures multiset(r)[x] <= 1
  {
    if r == [] {
    } else {
      var init, last := r[..|r| - 1], r[|r| - 1];
      assert r == init + [last];
      assert forall i :: 0 <= i < |init| ==> init[i] == r[i];
      TopCountsOnce(init, x);
      assert last == x ==> last !in init;
    }
  }

  lemma TopOnceOfPermutation<E>(s: seq<Buffered<E>>, r: seq<Buffered<E>>)
    requires multiset(s) == multiset(r) && TopOnce(r)
    ensures TopOnce(s)
  {
    forall i, j | 0 <= i < j < |s| ensures !(s[i].sequence == U64_MAX && s[j].sequence == U64_MAX) {
      if s[i].sequence == U64_MAX { TopCountsOnce(r, s[i]); }
      if s[i] == s[j] { TwoPlacesMeanTwice(s, i, j); }
      assert s[i] in multiset(r) && s[j] in multiset(r);
      var a :| 0 <= a < |r| && r[a] == s[i];
      var b :| 0 <= b < |r| && r[b] == s[j];
    }
  }

  lemma ReplayableOfPermutation<E>(s: seq<Buffered<E>>, r: seq<Buffered<E>>, last: Word, n: nat)
    requires multiset(s) == multiset(r) && Replayable(r, last, n)
    ensures Replayable(s, last, n)
  {
    TopOnceOfPermutation(s, r);
    forall i | 0 <= i < |s| ensures last < s[i].sequence <= last + n {
      assert s[i] in multiset(s);
      assert s[i] in r;
    }
    forall x: Word | Mentions(r, x) ensures Mentions(s, x) {
      var i :| 0 <= i < |r| && r[i].sequence == x;
      assert r[i] in multiset(r);
      assert r[i] in s;
    }
  }

  /** Neither the outcome nor the emitted numbers depend on the order in which events were buffered. */
  lemma ContiguousOfPermutation<E>(s: seq<Buffered<E>>, r: seq<Buffered<E>>, last: Word)
    requires multiset(s) == multiset(r)
    ensures Contiguous(s, last) <==> Contiguous(r, last)
  {
    if Contiguous(s, last) {
      var n: nat :| Replayable(s, last, n);
      ReplayableOfPermutation(r, s, last, n);
    }
    if Contiguous(r, last) {
      var n: nat :| Replayable(r, last, n);
      ReplayableOfPermutation(s, r, last, n);
    }
  }

  /** Nor on duplicates: only the set of numbers matters, as long as the largest 64-bit number is not repeated. */
  lemma ContiguousOfSameNumbers<E>(s: seq<Buffered<E>>, r: seq<Buffered<E>>, last: Word)
    requires forall x: Word :: Mentions(s, x) <==> Mentions(r, x)
    requires TopOnce(s) && TopOnce(r)
    ensures Contiguous(s, last) <==> Contiguous(r, last)
  {
    if Contiguous(s, last) {
      var n: nat :| Replayable(s, last, n);
      CoversOfSameNumbers(s, r, last, n);
      assert Replayable(r, last, n);
    }
    if Contiguous(r, last) {
      var n: nat :| Replayable(r, last, n);
      CoversOfSameNumbers(r, s, last, n);
      assert Replayable(s, last, n);
    }
  }

  lemma CoversOfSameNumbers<E>(s: seq<Buffered<E>>, r: seq<Buffered<E>>, last: Word, n: nat)
    requires forall x: Word :: Mentions(s, x) <==> Mentions(r, x)
    requires Covers(s, last, n)
    ensures Covers(r, last, n)
  {
    forall i | 0 <= i < |r| ensures last < r[i].sequence <= last + n {
      assert Mentions(r, r[i].sequence);
    }
  }

  /** A repeated largest number is refused even though the set of numbers has no gap. */
  lemma RepeatedTopIsRefused()
    ensures !Contiguous([Buffered(U64_MAX, 0), Buffered(U64_MAX, 0)], U64_MAX - 1)
    ensures Contiguous([Buffered(U64_MAX, 0)], U64_MAX - 1)
  {
    var one, two := [Buffered(U64_MAX, 0)], [Buffered(U64_MAX, 0), Buffered(U64_MAX, 0)];
    assert two[0].sequence == U64_MAX && two[1].sequence == U64_MAX;
    assert Mentions(one, U64_MAX) by { assert one[0].sequence == U64_MAX; }
    assert Replayable(one, U64_MAX - 1, 1);
  }

  function Insert<E>(x: Buffered<E>, s: seq<Buffered<E>>): (r: seq<Buffered<E>>)
    requires SortedBySequence(s)
    ensures SortedBySequence(r) && forall y :: y in r ==> y == x || y in s
  {
    if s == [] || x.sequence <= s[0].sequence then [x] + s
    else
      assert forall y :: y in s[1..] ==> y in s;
      var r := Insert(x, s[1..]);
      assert forall y :: y in s[1..] ==> s[0].sequence <= y.sequence;
      assert forall y :: y in r ==> s[0].sequence <= y.sequence;
      assert forall j :: 0 <= j < |r| ==> r[j] in r;
      [s[0]] + r
  }

  lemma {:induction false} InsertAddsOne<E>(x: Buffered<E>, s: seq<Buffered<E>>)
    requires SortedBySequence(s)
    ensures multiset(Insert(x, s)) == multiset(s) + multiset{x}
  {
    if s != [] && x.sequence > s[0].sequence {
      InsertAddsOne(x, s[1..]);
      assert s == [s[0]] + s[1..];
    }
  }

  /** std::sort with a comparator on the sequence: some sorted permutation, callers may not know which. */
  method Sort<E>(s: seq<Buffered<E>>) returns (r: seq<Buffered<E>>)
    ensures SortedBySequence(r) && multiset(r) == multiset(s)
  {
    r := [];
    for i := 0 to |s|
      invariant SortedBySequence(r) && multiset(r) == multiset(s[..i])
    {
      assert s[..i + 1] == s[..i] + [s[i]];
      InsertAddsOne(s[i], r);
      r := Insert(s[i], r);
    }
    assert s[..|s|] == s;
  }

  // ----- the gate as a transition relation

  datatype Call<E> = Incremental(sequence: Word, event: E) | Begin(last: Word) | Finish
  datatype Outcome = Reported(result: Result) | Began | Finished(ok: bool)
  datatype Gate<E> = Gate(mode: Mode, expected: Word, last: Word, buffer: seq<Buffered<E>>, capacity: nat)

  /** The events a call hands on, with their sequence numbers. */
  ghost predicate Replays<E>(buffer: seq<Buffered<E>>, last: Word, out: seq<Buffered<E>>) {
    && Replayable(buffer, last, |out|)
    && (forall i :: 0 <= i < |out| ==> out[i].sequence == last + 1 + i)
    && (forall i :: 0 <= i < |out| ==> out[i] in buffer)
  }

  ghost predicate IncrementalStep<E>(g: Gate<E>, b: Buffered<E>, g': Gate<E>, result: Result, out: seq<Buffered<E>>) {
    match g.mode
    case AwaitingSnapshot => g' == g && result == Gap && out == []
    case Snapshotting =>
      if b.sequence <= g.last then g' == g && result == IgnoreStale && out == []
      else if |g.buffer| == g.capacity then g' == g.(mode := AwaitingSnapshot) && result == BufferFull && out == []
      else g' == g.(buffer := g.buffer + [b]) && result == BufferedUp && out == []
    case Live =>
      if b.sequence < g.expected then g' == g && result == IgnoreStale && out == []
      else if b.sequence > g.expected then g' == g.(mode := AwaitingSnapshot) && result == Gap && out == []
      else g' == g.(expected := (g.expected + 1) % U64) && result == Apply && out == [b]
  }

  ghost predicate FinishStep<E>(g: Gate<E>, g': Gate<E>, ok: bool, out: seq<Buffered<E>>) {
    if g.mode != Snapshotting then g' == g && !ok && out == []
    else
      && (ok <==> Contiguous(g.buffer, g.last))
      && (!ok ==> g' == g.(mode := AwaitingSnapshot, buffer := []) && out == [])
      && (ok ==> Replays(g.buffer, g.last, out)
                 && g' == g.(mode := Live, buffer := [], expected := (g.last + 1 + |out|) % U64))
  }

  ghost predicate Step<E>(g: Gate<E>, call: Call<E>, g': Gate<E>, outcome: Outcome, out: seq<Buffered<E>>) {
    match call
    case Incremental(sequence, event) =>
      outcome.Reported? && IncrementalStep(g, Buffered(sequence, event), g', outcome.result, out)
    case Begin(last) => outcome == Began && g' == g.(mode := Snapshotting, last := last, buffer := []) && out == []
    case Finish => outcome.Finished? && FinishStep(g, g', outcome.ok, out)
  }

  /** Buffered numbers are always beyond the snapshot they wait for. */
  ghost predicate GateOk<E>(g: Gate<E>) {
    |g.buffer| <= g.capacity && (g.mode == Snapshotting ==> AllAfter(g.buffer, g.last))
  }

  /** Two finishes over the same numbers hand on the same sequence of numbers. */
  lemma SameNumbersDelivered<E>(s: seq<Buffered<E>>, r: seq<Buffered<E>>, last: Word, out: seq<Buffered<E>>,
      out': seq<Buffered<E>>)
    requires forall x: Word :: Mentions(s, x) <==> Mentions(r, x)
    requires Replays(s, last, out) && Replays(r, last, out')
    ensures |out| == |out'| && forall i :: 0 <= i < |out| ==> out[i].sequence == out'[i].sequence
  {
    CoversOfSameNumbers(s, r, last, |out|);
    assert |out| > 0 ==> Mentions(r, last + |out|);
    assert |out'| > 0 ==> Mentions(r, last + |out'|);
  }

  lemma StepKeepsGateOk<E>(g: Gate<E>, call: Call<E>, g': Gate<E>, outcome: Outcome, out: seq<Buffered<E>>)
    requires GateOk(g) && Step(g, call, g', outcome, out)
    ensures GateOk(g')
  {
  }

  // ----- the object

  class FeedSequenceRecovery<E(==)> {
    const replay: array<Buffered<E>>
    var replaySize: nat
    var mode: Mode
    var expected: Word
    var snapshotLast: Word

    ghost predicate Valid()
      reads this, replay
    {
      replaySize <= replay.Length && GateOk(State())
    }

    ghost function State(): Gate<E>
      requires replaySize <= replay.Length
      reads this, replay
    {
      Gate(mode, expected, snapshotLast, replay[..replaySize], replay.Length)
    }

    constructor (maximumReplayEvents: nat, blank: E)
      ensures Valid() && fresh(replay)
      ensures State() == Gate(AwaitingSnapshot, 0, 0, [], maximumReplayEvents)
    {
      replay := new Buffered<E>[maximumReplayEvents](_ => Buffered(0, blank));
      replaySize, mode, expected, snapshotLast := 0, AwaitingSnapshot, 0, 0;
    }

    method OnIncremental(sequence: Word, event: E, ready: seq<E>)
      returns (result: Result, ready': seq<E>, ghost out: seq<Buffered<E>>)
      requires Valid()
      modifies this, replay
      ensures Valid()
      ensures Step(old(State()), Incremental(sequence, event), State(), Reported(result), out)
      ensures ready' == ready + Events(out)
    {
      out, ready' := [], ready;
      if mode == AwaitingSnapshot {
        return Gap, ready, [];
      }
      if mode == Snapshotting {
        if sequence <= snapshotLast {
          return IgnoreStale, ready, [];
        }
        if replaySize == replay.Length {
          mode := AwaitingSnapshot;
          return BufferFull, ready, [];
        }
        replay[replaySize] := Buffered(sequence, event);
        replaySize := replaySize + 1;
        return BufferedUp, ready, [];
      }
      if sequence < expected {
        return IgnoreStale, ready, [];
      }
      if sequence > expected {
        mode := AwaitingSnapshot;
        return Gap, ready, [];
      }
      ready' := ready + [event];
      out := [Buffered(sequence, event)];
      expected := (expected + 1) % U64;
      result := Apply;
    }

    method BeginSnapshot(lastSequence: Word)
      requires Valid()
      modifies this
      ensures Valid()
      ensures Step(old(State()), Begin(lastSequence), State(), Began, [])
    {
      mode, snapshotLast, replaySize := Snapshotting, lastSequence, 0;
    }

    method FinishSnapshot(ready: seq<E>) returns (ok: bool, ready': seq<E>, ghost out: seq<Buffered<E>>)
      requires Valid()
      modifies this, replay
      ensures Valid()
      ensures Step(old(State()), Finish, State(), Finished(ok), out)
      ensures ready' == ready + Events(out)
    {
      hide Contiguous, Replays, Checked, Emitted, SortedBySequence;
      out, ready' := [], ready;
      if mode != Snapshotting {
        return false, ready, [];
      }
      ghost var was := replay[..replaySize];
      SortReplay();
      ghost var sorted := replay[..replaySize];
      SortedBuffer(was, sorted, snapshotLast);
      var first := SkipStale();
      var next := CheckReplay(first);
      if next.None? {
        mode := AwaitingSnapshot;
        replaySize := 0;
        return false, ready, [];
      }
      ready', out := EmitReplay(first, ready);
      ReplaysAll(was, sorted, snapshotLast);
      replaySize := 0;
      expected := next.value;
      mode := Live;
      ok := true;
    }

    /** Sorts the used part of the buffer in place. */
    method SortReplay()
      requires replaySize <= replay.Length
      modifies replay
      ensures SortedBySequence(replay[..replaySize])
      ensures multiset(replay[..replaySize]) == multiset(old(replay[..replaySize]))
    {
      var sorted := Sort(replay[..replaySize]);
      assert |multiset(sorted)| == |sorted|;
      forall i | 0 <= i < replaySize {
        replay[i] := sorted[i];
      }
      assert replay[..replaySize] == sorted;
    }

    /** The loop that would skip stale entries finds none. */
    method SkipStale() returns (first: nat)
      requires replaySize <= replay.Length && AllAfter(replay[..replaySize], snapshotLast)
      ensures first == 0
    {
      assert replaySize > 0 ==> replay[..replaySize][0].sequence > snapshotLast;
      first := 0;
      while first < replaySize && replay[first].sequence < (snapshotLast + 1) % U64
        invariant first <= replaySize
        invariant first > 0 ==> replay[0].sequence < (snapshotLast + 1) % U64
      {
        first := first + 1;
      }
    }

    method CheckReplay(first: nat) returns (next: Option<Word>)
      requires replaySize <= replay.Length && first == 0
      ensures next == Checked(replay[..replaySize], snapshotLast, replaySize)
    {
      var n: Word := (snapshotLast + 1) % U64;
      ghost var s := replay[..replaySize];
      for i := first to replaySize
        invariant Checked(s, snapshotLast, i) == Some(n)
      {
        if replay[i].sequence > n {
          GapStays(s, snapshotLast, i + 1, replaySize);
          return None;
        }
        if replay[i].sequence == n {
          n := (n + 1) % U64;
        }
      }
      next := Some(n);
    }

    method EmitReplay(first: nat, ready: seq<E>) returns (ready': seq<E>, ghost out: seq<Buffered<E>>)
      requires replaySize <= replay.Length && first == 0
      ensures out == Emitted(replay[..replaySize], snapshotLast, replaySize).0
      ensures ready' == ready + Events(out)
    {
      var emitSequence: Word := (snapshotLast + 1) % U64;
      ghost var s := replay[..replaySize];
      ready', out := ready, [];
      for i := first to replaySize
        invariant Emitted(s, snapshotLast, i) == (out, emitSequence)
        invariant ready' == ready + Events(out)
      {
        if replay[i].sequence == emitSequence {
          ready' := ready' + [replay[i].event];
          out := out + [replay[i]];
          emitSequence := (emitSequence + 1) % U64;
        }
      }
    }
  }

  function Events<E>(out: seq<Buffered<E>>): (events: seq<E>)
    ensures |events| == |out| && forall i :: 0 <= i < |out| ==> events[i] == out[i].event
  {
    seq(|out|, i requires 0 <= i < |out| => out[i].event)
  }

  lemma {:induction false} GapStays<E>(s: seq<Buffered<E>>, last: Word, i: nat, k: nat)
    requires i <= k <= |s| && Checked(s, last, i).None?
    ensures Checked(s, last, k).None?
  {
    if i == k {
    } else {
      GapStays(s, last, i, k - 1);
    }
  }

  lemma SortedBuffer<E>(was: seq<Buffered<E>>, sorted: seq<Buffered<E>>, last: Word)
    requires multiset(was) == multiset(sorted) && SortedBySequence(sorted) && AllAfter(was, last)
    ensures |was| == |sorted| && AllAfter(sorted, last)
    ensures Checked(sorted, last, |sorted|).Some? <==> Contiguous(was, last)
  {
    hide Contiguous, Checked;
    assert |multiset(was)| == |was| && |multiset(sorted)| == |sorted|;
    forall i | 0 <= i < |sorted| ensures last < sorted[i].sequence {
      assert sorted[i] in multiset(sorted);
      assert sorted[i] in was;
    }
    assert sorted[..|sorted|] == sorted;
    CheckDecides(sorted, last, |sorted|);
    ContiguousOfPermutation(was, sorted, last);
  }

  lemma ReplaysAll<E>(was: seq<Buffered<E>>, sorted: seq<Buffered<E>>, last: Word)
    requires multiset(was) == multiset(sorted) && SortedBySequence(sorted) && AllAfter(sorted, last)
    requires Checked(sorted, last, |sorted|).Some?
    ensures var out := Emitted(sorted, last, |sorted|).0;
            Replays(was, last, out) && Checked(sorted, last, |sorted|).value == (last + 1 + |out|) % U64
  {
    hide Emitted, Checked, Replayable;
    var out := Emitted(sorted, last, |sorted|).0;
    EmitsInOrder(sorted, last, |sorted|);
    CheckDecides(sorted, last, |sorted|);
    assert sorted[..|sorted|] == sorted;
    var n: nat :| Replayable(sorted, last, n) && Checked(sorted, last, |sorted|).value == (last + 1 + n) % U64;
    SameReach(sorted, last, n, |out|);
    ReplayableOfPermutation(was, sorted, last, n);
    forall i | 0 <= i < |out| ensures out[i] in was {
      assert out[i] in multiset(sorted);
    }
  }

  lemma SameReach<E>(s: seq<Buffered<E>>, last: Word, n: nat, m: nat)
    requires Replayable(s, last, n) && last + m < U64 && (last + 1 + n) % U64 == (last + 1 + m) % U64
    ensures n == m
  {
  }

  // ----- whole runs

  datatype Moment<E> = Moment(call: Call<E>, outcome: Outcome, out: seq<Buffered<E>>)

  /** `gates[i]` steps to `gates[i+1]` by `moments[i]`, from a fresh gate on. */
  ghost predicate IsRun<E>(gates: seq<Gate<E>>, moments: seq<Moment<E>>) {
    && |gates| == |moments| + 1
    && gates[0].mode == AwaitingSnapshot && gates[0].buffer == []
    && forall i :: 0 <= i < |moments| ==>
         Step(gates[i], moments[i].call, gates[i + 1], moments[i].outcome, moments[i].out)
  }

  /** Everything handed on by moments i .. j-1, in order. */
  ghost function Delivered<E>(moments: seq<Moment<E>>, i: nat, j: nat): seq<Buffered<E>>
    requires i <= j <= |moments|
  {
    if i == j then [] else Delivered(moments, i, j - 1) + moments[j - 1].out
  }

  /** Sequence numbers last+1, last+2, ... modulo 2^64. */
  ghost predicate Consecutive<E>(s: seq<Buffered<E>>, last: Word) {
    forall i :: 0 <= i < |s| ==> s[i].sequence == (last + 1 + i) % U64
  }

  ghost predicate NoBegin<E>(moments: seq<Moment<E>>, i: nat, j: nat)
    requires i <= j <= |moments|
  {
    forall k :: i <= k < j ==> !moments[k].call.Begin?
  }

  /**
   In every run, what is handed on from a successful finish for last sequence L up to the next
   begin_snapshot is exactly L+1, L+2, ... with no gap, repeat or reordering, and while the gate is
   live it expects the next of them.
   */
  lemma {:induction false} DeliveredIsConsecutive<E>(gates: seq<Gate<E>>, moments: seq<Moment<E>>, i: nat, j: nat)
    requires IsRun(gates, moments) && i < j <= |moments|
    requires moments[i].outcome == Finished(true) && NoBegin(moments, i, j)
    ensures var out := Delivered(moments, i, j);
            && Consecutive(out, gates[i].last)
            && gates[j].mode != Snapshotting
            && (gates[j].mode == Live ==> gates[j].expected == (gates[i].last + 1 + |out|) % U64)
  {
    hide Step, Consecutive;
    if j == i + 1 {
      var m := moments[i];
      assert Delivered(moments, i, j) == m.out by { assert Delivered(moments, i, i) == []; }
      assert Step(gates[i], m.call, gates[i + 1], m.outcome, m.out);
      FinishStarts(gates[i], m, gates[i + 1]);
    } else {
      DeliveredIsConsecutive(gates, moments, i, j - 1);
      assert !moments[j - 1].call.Begin?;
      var m := moments[j - 1];
      assert Step(gates[j - 1], m.call, gates[j], m.outcome, m.out);
      StepContinues(gates[j - 1], m, gates[j], gates[i].last, Delivered(moments, i, j - 1));
    }
  }

  lemma FinishStarts<E>(g: Gate<E>, m: Moment<E>, g': Gate<E>)
    requires Step(g, m.call, g', m.outcome, m.out) && m.outcome == Finished(true)
    ensures Consecutive(m.out, g.last) && g'.mode == Live && g'.expected == (g.last + 1 + |m.out|) % U64
  {
    hide Contiguous;
  }

  lemma StepContinues<E>(g: Gate<E>, m: Moment<E>, g': Gate<E>, last: Word, before: seq<Buffered<E>>)
    requires Step(g, m.call, g', m.outcome, m.out) && !m.call.Begin? && g.mode != Snapshotting
    requires Consecutive(before, last) && (g.mode == Live ==> g.expected == (last + 1 + |before|) % U64)
    ensures Consecutive(before + m.out, last) && g'.mode != Snapshotting
    ensures g'.mode == Live ==> g'.expected == (last + 1 + |before + m.out|) % U64
  {
    hide Contiguous, Replays;
  }

  /** Live is entered only by a successful finish, and only live moments and successful finishes hand events on. */
  lemma OnlyFinishGoesLive<E>(gates: seq<Gate<E>>, moments: seq<Moment<E>>, i: nat)
    requires IsRun(gates, moments) && i < |moments|
    ensures gates[i + 1].mode == Live && gates[i].mode != Live ==> moments[i].outcome == Finished(true)
    ensures moments[i].out != [] ==> gates[i].mode == Live || moments[i].outcome == Finished(true)
    ensures moments[i].outcome == Finished(false) ==> moments[i].out == []
  {
    hide Contiguous, Replayable;
    assert Step(gates[i], moments[i].call, gates[i + 1], moments[i].outcome, moments[i].out);
  }

  /** In every run a live gate goes back to a successful finish with no begin_snapshot since. */
  lemma {:induction false} LiveHasAnOrigin<E>(gates: seq<Gate<E>>, moments: seq<Moment<E>>, j: nat)
    requires IsRun(gates, moments) && j <= |moments| && gates[j].mode == Live
    ensures exists i: nat :: i < j && moments[i].outcome == Finished(true) && NoBegin(moments, i, j)
  {
    hide Contiguous, Replayable;
    assert j > 0;
    assert Step(gates[j - 1], moments[j - 1].call, gates[j], moments[j - 1].outcome, moments[j - 1].out);
    if moments[j - 1].outcome == Finished(true) {
      assert NoBegin(moments, j - 1, j);
    } else {
      LiveHasAnOrigin(gates, moments, j - 1);
      var i: nat :| i < j - 1 && moments[i].outcome == Finished(true) && NoBegin(moments, i, j - 1);
      assert NoBegin(moments, i, j);
    }
  }

  /** Drives the object through any sequence of calls; what it does is a run of the relation. */
  method Drive<E>(gate: FeedSequenceRecovery<E>, calls: seq<Call<E>>)
    returns (outcomes: seq<Outcome>, ready: seq<E>, ghost gates: seq<Gate<E>>, ghost moments: seq<Moment<E>>)
    requires gate.Valid() && gate.mode == AwaitingSnapshot && gate.replaySize == 0
    modifies gate, gate.replay
    ensures gate.Valid() && IsRun(gates, moments) && |moments| == |calls| == |outcomes|
    ensures forall i :: 0 <= i < |calls| ==> moments[i].call == calls[i] && moments[i].outcome == outcomes[i]
    ensures ready == Events(Delivered(moments, 0, |moments|))
  {
    hide Step, GateOk, Events;
    outcomes, ready, gates, moments := [], [], [gate.State()], [];
    assert Events<E>([]) == [] by { NoEvents<E>(); }
    for i := 0 to |calls|
      invariant gate.Valid() && IsRun(gates, moments) && gates[|gates| - 1] == gate.State()
      invariant |moments| == i == |outcomes|
      invariant forall k :: 0 <= k < i ==> moments[k].call == calls[k] && moments[k].outcome == outcomes[k]
      invariant ready == Events(Delivered(moments, 0, i))
    {
      ghost var out: seq<Buffered<E>> := [];
      var outcome: Outcome;
      match calls[i] {
        case Incremental(sequence, event) =>
          var result: Result;
          result, ready, out := gate.OnIncremental(sequence, event, ready);
          outcome := Reported(result);
        case Begin(last) =>
          gate.BeginSnapshot(last);
          outcome := Began;
          NoEvents<E>();
        case Finish =>
          var ok: bool;
          ok, ready, out := gate.FinishSnapshot(ready);
          outcome := Finished(ok);
      }
      ghost var moment := Moment(calls[i], outcome, out);
      assert Step(gates[i], moment.call, gate.State(), moment.outcome, moment.out);
      DeliveredSnoc(moments, moment);
      EventsConcat(Delivered(moments, 0, i), out);
      outcomes, gates, moments := outcomes + [outcome], gates + [gate.State()], moments + [moment];
    }
  }

  lemma NoEvents<E>()
    ensures Events<E>([]) == []
  {
  }

  lemma EventsConcat<E>(a: seq<Buffered<E>>, b: seq<Buffered<E>>)
    ensures Events(a + b) == Events(a) + Events(b)
  {
  }

  lemma DeliveredSnoc<E>(moments: seq<Moment<E>>, m: Moment<E>)
    ensures Delivered(moments + [m], 0, |moments| + 1) == Delivered(moments, 0, |moments|) + m.out
  {
    DeliveredPrefix(moments, moments + [m], |moments|);
  }

  lemma {:induction false} DeliveredPrefix<E>(a: seq<Moment<E>>, b: seq<Moment<E>>, k: nat)
    requires k <= |a| <= |b| && a == b[..|a|]
    ensures Delivered(a, 0, k) == Delivered(b, 0, k)
  {
    if k == 0 {
    } else {
      DeliveredPrefix(a, b, k - 1);
      assert a[k - 1] == b[k - 1];
    }
  }

  // ----- what every call answers, by the calls and answers before it

  ghost predicate NoGap<E>(moments: seq<Moment<E>>, i: nat, j: nat)
    requires i <= j <= |moments|
  {
    forall k :: i <= k < j ==> moments[k].outcome != Reported(Gap)
  }

  ghost predicate NoFinish<E>(moments: seq<Moment<E>>, i: nat, j: nat)
    requires i <= j <= |moments|
  {
    forall k :: i <= k < j ==> moments[k].call != Finish
  }

  ghost predicate NoSuccess<E>(moments: seq<Moment<E>>, i: nat, j: nat)
    requires i <= j <= |moments|
  {
    forall k :: i <= k < j ==> moments[k].outcome != Finished(true)
  }

  lemma StepAt<E>(gates: seq<Gate<E>>, moments: seq<Moment<E>>, i: nat)
    requires IsRun(gates, moments) && i < |moments|
    ensures Step(gates[i], moments[i].call, gates[i + 1], moments[i].outcome, moments[i].out)
  {
  }

  /** Between two begins the snapshot's last number stays. */
  lemma {:induction false} LastStays<E>(gates: seq<Gate<E>>, moments: seq<Moment<E>>, b: nat, j: nat)
    requires IsRun(gates, moments) && b < j <= |moments| && moments[b].call.Begin? && NoBegin(moments, b + 1, j)
    ensures gates[j].last == moments[b].call.last
  {
    hide IsRun, Contiguous, Replays;
    StepAt(gates, moments, j - 1);
    if j == b + 1 {
    } else {
      LastStays(gates, moments, b, j - 1);
    }
  }

  lemma {:induction false} CapacityStays<E>(gates: seq<Gate<E>>, moments: seq<Moment<E>>, j: nat)
    requires IsRun(gates, moments) && j <= |moments|
    ensures gates[j].capacity == gates[0].capacity
  {
    if j == 0 {
    } else {
      CapacityStays(gates, moments, j - 1);
      StepAt(gates, moments, j - 1);
      hide IsRun, Contiguous, Replays;
    }
  }

  /** After a successful finish the gate is live exactly until it reports a gap or a snapshot begins. */
  lemma {:induction false} LiveUntilGap<E>(gates: seq<Gate<E>>, moments: seq<Moment<E>>, i: nat, j: nat)
    requires IsRun(gates, moments) && i < j <= |moments|
    requires moments[i].outcome == Finished(true) && NoBegin(moments, i, j)
    ensures gates[j].mode == if NoGap(moments, i, j) then Live else AwaitingSnapshot
  {
    hide IsRun, Contiguous, Replays;
    StepAt(gates, moments, j - 1);
    if j == i + 1 {
    } else {
      LiveUntilGap(gates, moments, i, j - 1);
      assert NoGap(moments, i, j) <==> NoGap(moments, i, j - 1) && moments[j - 1].outcome != Reported(Gap);
      assert !moments[j - 1].call.Begin?;
    }
  }

  /**
   While live: after a begin for last sequence L, a successful finish and n delivered events, with no gap reported
   since, the event numbered L+1+n is delivered, a later one is a gap and an earlier one is ignored.
   */
  lemma LiveAnswers<E>(gates: seq<Gate<E>>, moments: seq<Moment<E>>, b: nat, i: nat, j: nat)
    requires IsRun(gates, moments) && b < i < j < |moments|
    requires moments[b].call.Begin? && NoBegin(moments, b + 1, j)
    requires moments[i].outcome == Finished(true) && NoGap(moments, i, j)
    requires moments[j].call.Incremental?
    ensures var x, m := moments[j].call.sequence, moments[j];
            var next := (moments[b].call.last + 1 + |Delivered(moments, i, j)|) % U64;
            && (x == next ==> m.outcome == Reported(Apply) && m.out == [Buffered(x, m.call.event)])
            && (x > next ==> m.outcome == Reported(Gap) && m.out == [])
            && (x < next ==> m.outcome == Reported(IgnoreStale) && m.out == [] && gates[j + 1] == gates[j])
  {
    hide IsRun, Contiguous, Replays;
    assert NoBegin(moments, i, j) && NoBegin(moments, b + 1, i);
    LastStays(gates, moments, b, i);
    LiveUntilGap(gates, moments, i, j);
    DeliveredIsConsecutive(gates, moments, i, j);
    StepAt(gates, moments, j);
  }

  /** Once a gap is reported, nothing is delivered before the next successful finish. */
  lemma {:induction false} SilentAfterGap<E>(gates: seq<Gate<E>>, moments: seq<Moment<E>>, j: nat, k: nat)
    requires IsRun(gates, moments) && j < k <= |moments|
    requires moments[j].outcome == Reported(Gap) && NoSuccess(moments, j, k)
    ensures Delivered(moments, j, k) == [] && gates[k].mode != Live
  {
    hide IsRun, Contiguous, Replays;
    StepAt(gates, moments, k - 1);
    if k == j + 1 {
      assert Delivered(moments, j, j) == [];
    } else {
      SilentAfterGap(gates, moments, j, k - 1);
      assert moments[k - 1].outcome != Finished(true);
    }
  }

  // ----- snapshots lose nothing silently

  /** The events numbered beyond `last` among the calls i .. j-1, in order of arrival. */
  ghost function Beyond<E>(moments: seq<Moment<E>>, i: nat, j: nat, last: Word): seq<Buffered<E>>
    requires i <= j <= |moments|
  {
    if i == j then []
    else
      var call := moments[j - 1].call;
      Beyond(moments, i, j - 1, last)
      + if call.Incremental? && call.sequence > last then [Buffered(call.sequence, call.event)] else []
  }

  /** Until the finish, the gate holds exactly the events beyond the snapshot, or has given the snapshot up
      because there were more than it can hold. */
  lemma {:induction false} SnapshotHolds<E>(gates: seq<Gate<E>>, moments: seq<Moment<E>>, b: nat, j: nat)
    requires IsRun(gates, moments) && b < j <= |moments| && moments[b].call.Begin?
    requires NoBegin(moments, b + 1, j) && NoFinish(moments, b + 1, j)
    ensures var beyond := Beyond(moments, b + 1, j, moments[b].call.last);
            && gates[j].last == moments[b].call.last && gates[j].capacity == gates[0].capacity
            && if |beyond| <= gates[0].capacity then gates[j].mode == Snapshotting && gates[j].buffer == beyond
               else gates[j].mode == AwaitingSnapshot
  {
    assert |gates| == |moments| + 1;
    hide IsRun, Contiguous, Replays;
    StepAt(gates, moments, j - 1);
    LastStays(gates, moments, b, j);
    CapacityStays(gates, moments, j);
    if j == b + 1 {
      assert Beyond(moments, b + 1, j, moments[b].call.last) == [];
    } else {
      SnapshotHolds(gates, moments, b, j - 1);
      assert !moments[j - 1].call.Begin? && moments[j - 1].call != Finish;
    }
  }

  /**
   While a snapshot for last sequence L is taken, an event up to L is ignored; one beyond it is buffered while there is
   room, the first one without room is reported as such, and everything after that is a gap. The finish succeeds
   exactly when all events beyond L fit the buffer and are contiguous from L+1, and then delivers them.
   */
  lemma SnapshotAnswers<E>(gates: seq<Gate<E>>, moments: seq<Moment<E>>, b: nat, j: nat)
    requires IsRun(gates, moments) && b < j < |moments| && moments[b].call.Begin?
    requires NoBegin(moments, b + 1, j) && NoFinish(moments, b + 1, j)
    ensures var m, last, capacity := moments[j], moments[b].call.last, gates[0].capacity;
            var beyond := Beyond(moments, b + 1, j, last);
            && (m.call.Incremental? ==>
                  && m.out == []
                  && m.outcome == Reported(if |beyond| > capacity then Gap
                                           else if m.call.sequence <= last then IgnoreStale
                                           else if |beyond| < capacity then BufferedUp else BufferFull))
            && (m.call.Finish? ==>
                  && (m.outcome == Finished(true) <==> |beyond| <= capacity && Contiguous(beyond, last))
                  && (m.outcome == Finished(true) ==> Replays(beyond, last, m.out))
                  && (m.outcome != Finished(true) ==> m.outcome == Finished(false) && m.out == []))
  {
    hide IsRun, Contiguous, Replays;
    SnapshotHolds(gates, moments, b, j);
    StepAt(gates, moments, j);
  }

  // ----- waiting

  /** A fresh gate waits for a snapshot, and so does one that has reported a gap or a full buffer, or failed the
      first finish of a snapshot. */
  ghost predicate StartsWaiting<E>(moments: seq<Moment<E>>, j: nat)
    requires j <= |moments|
  {
    || j == 0 || moments[j - 1].outcome == Reported(Gap) || moments[j - 1].outcome == Reported(BufferFull)
    || (moments[j - 1].outcome == Finished(false) && FailedAt(moments, j - 1))
  }

  ghost predicate FailedAt<E>(moments: seq<Moment<E>>, j: nat)
    requires j < |moments|
  {
    exists b: nat :: FirstFinish(moments, b, j)
  }

  ghost predicate FirstFinish<E>(moments: seq<Moment<E>>, b: nat, j: nat)
    requires j < |moments|
  {
    && b < j && moments[b].call.Begin? && moments[j].call == Finish
    && NoBegin(moments, b + 1, j) && NoFinish(moments, b + 1, j)
  }

  lemma Waits<E>(gates: seq<Gate<E>>, moments: seq<Moment<E>>, j: nat)
    requires IsRun(gates, moments) && j <= |moments| && StartsWaiting(moments, j)
    ensures gates[j].mode == AwaitingSnapshot
  {
    if j > 0 {
      StepAt(gates, moments, j - 1);
      hide IsRun, Contiguous, Replays;
      if moments[j - 1].outcome == Finished(false) {
        var b: nat :| FirstFinish(moments, b, j - 1);
        SnapshotHolds(gates, moments, b, j - 1);
      }
    }
  }

  /** A waiting gate answers every event with a gap and every finish with a failure until a snapshot begins. */
  lemma {:induction false} WaitingAnswers<E>(gates: seq<Gate<E>>, moments: seq<Moment<E>>, j: nat, k: nat)
    requires IsRun(gates, moments) && j <= k <= |moments| && StartsWaiting(moments, j) && NoBegin(moments, j, k)
    ensures gates[k].mode == AwaitingSnapshot
    ensures forall i :: j <= i < k ==>
              && moments[i].out == []
              && moments[i].outcome == if moments[i].call.Incremental? then Reported(Gap) else Finished(false)
  {
    hide IsRun, Contiguous, Replays, StartsWaiting;
    if k == j {
      Waits(gates, moments, j);
    } else {
      WaitingAnswers(gates, moments, j, k - 1);
      StepAt(gates, moments, k - 1);
      assert !moments[k - 1].call.Begin?;
    }
  }
}
