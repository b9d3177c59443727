/**
 The best-bid/offer publication cell: one writer and any number of readers on a sequence lock.
 Each action below is one atomic access, and accesses take effect in the order they are listed
 (sequential consistency). Every interleaving is a sequence of actions.
 */
module SnapshotCell {
  import opened Words

  /** Bid price, bid quantity, ask price, ask quantity. */
  type Bbo = b: seq<Word> | |b| == 4 witness [0, 0, 0, 0]

  const BLANK: Bbo := [0, 0, 0, 0]

  datatype Writer = Idle | Writing(stored: nat, snapshot: Bbo, startingVersion: Word)

  /** `began` is the tick at which the first version load happened; the code does not store it. */
  datatype Reader = Resting | Reading(before: Word, taken: seq<Word>, began: nat)

  /** One accepted try_read: its snapshot, and the ticks of its two version loads. */
  datatype Acceptance = Acceptance(snapshot: Bbo, began: nat, ended: nat)

  /**
   `version` and `fields` are the shared atomics. The rest is bookkeeping for the statements:
   `ticks` counts version changes without wrapping, `history` lists the initial and the published
   snapshots, and `accepted[r]` what reader r has accepted.
   */
  datatype State = State(version: Word, fields: Bbo, writer: Writer, readers: seq<Reader>,
                         ticks: nat, history: seq<Bbo>, accepted: seq<seq<Acceptance>>)

  datatype Action = Begin(snapshot: Bbo) | Store | Finish | Start(reader: nat) | Take(reader: nat) | Check(reader: nat)

  function Initial(readers: nat): State {
    State(0, BLANK, Idle, seq(readers, _ => Resting), 0, [BLANK], seq(readers, _ => []))
  }

  // ----- the writer

  /** fetch_add(1) on the version */
  function DoBegin(s: State, snapshot: Bbo): State {
    if s.writer.Idle? then
      s.(version := (s.version + 1) % U64, writer := Writing(0, snapshot, s.version),
         ticks := s.ticks + 1, history := s.history + [snapshot])
    else s
  }

  /** one relaxed field store */
  function DoStore(s: State): State {
    if s.writer.Writing? && s.writer.stored < 4 then
      var k := s.writer.stored;
      s.(fields := s.fields[k := s.writer.snapshot[k]], writer := s.writer.(stored := k + 1))
    else s
  }

  /** store of starting_version + 2 */
  function DoFinish(s: State): State {
    if s.writer.Writing? && s.writer.stored == 4 then
      s.(version := (s.writer.startingVersion + 2) % U64, writer := Idle, ticks := s.ticks + 1)
    else s
  }

  // ----- a reader

  /** first version load; an odd version makes try_read return at once */
  function DoStart(s: State, r: nat): State {
    if r < |s.readers| && s.readers[r].Resting? && s.version % 2 == 0 then
      s.(readers := s.readers[r := Reading(s.version, [], s.ticks)])
    else s
  }

  /** one relaxed field load */
  function DoTake(s: State, r: nat): State {
    if r < |s.readers| && s.readers[r].Reading? && |s.readers[r].taken| < 4 then
      var me := s.readers[r];
      s.(readers := s.readers[r := me.(taken := me.taken + [s.fields[|me.taken|]])])
    else s
  }

  /** second version load, and the decision */
  function DoCheck(s: State, r: nat): State {
    if r < |s.readers| && r < |s.accepted| && s.readers[r].Reading? && |s.readers[r].taken| == 4 then
      var me := s.readers[r];
      var done := s.(readers := s.readers[r := Resting]);
      if me.before == s.version
      then done.(accepted := s.accepted[r := s.accepted[r] + [Acceptance(me.taken, me.began, s.ticks)]])
      else done
    else s
  }

  /** One step of the protocol; an action that its thread cannot take leaves the state alone. */
  function Do(s: State, a: Action): State {
    match a
    case Begin(snapshot) => DoBegin(s, snapshot)
    case Store => DoStore(s)
    case Finish => DoFinish(s)
    case Start(r) => DoStart(s, r)
    case Take(r) => DoTake(s, r)
    case Check(r) => DoCheck(s, r)
  }

  function Exec(s: State, actions: seq<Action>): State {
    if actions == [] then s else Do(Exec(s, actions[..|actions| - 1]), actions[|actions| - 1])
  }

  // ----- the invariant

  ghost predicate WriterOk(s: State) {
    && s.version == s.ticks % U64
    && |s.history| > 0
    && var latest := s.history[|s.history| - 1];
    match s.writer
    case Idle => s.ticks == 2 * (|s.history| - 1) && s.fields == latest
    case Writing(k, snapshot, start) =>
      && s.ticks == 2 * (|s.history| - 1) - 1
      && snapshot == latest && start == (s.ticks - 1) % U64
      && k <= 4 && forall j :: 0 <= j < k ==> s.fields[j] == snapshot[j]
  }

  /** What a reader has taken is the current snapshot as long as no version change has happened since. */
  ghost predicate ReaderOk(s: State, r: Reader) {
    r.Reading? ==>
      && r.before == r.began % U64 && r.began % 2 == 0 && r.began <= s.ticks && |r.taken| <= 4
      && (s.ticks == r.began ==> forall j :: 0 <= j < |r.taken| ==> r.taken[j] == s.fields[j])
  }

  /** Unless the version wrapped all the way round during the read, the snapshot is exactly the published one. */
  ghost predicate Faithful(history: seq<Bbo>, a: Acceptance) {
    && a.began % 2 == 0 && a.began <= a.ended && a.began / 2 < |history|
    && (a.ended < a.began + U64 ==> a.snapshot == history[a.began / 2])
  }

  ghost predicate InOrder(accepted: seq<Acceptance>) {
    forall i, j :: 0 <= i < j < |accepted| ==> accepted[i].ended <= accepted[j].began
  }

  ghost predicate AcceptedOk(s: State, r: nat)
    requires r < |s.readers| && r < |s.accepted|
  {
    && (forall i :: 0 <= i < |s.accepted[r]| ==> Faithful(s.history, s.accepted[r][i]))
    && (forall i :: 0 <= i < |s.accepted[r]| ==> s.accepted[r][i].ended <= s.ticks)
    && (forall i :: 0 <= i < |s.accepted[r]| && s.readers[r].Reading? ==> s.accepted[r][i].ended <= s.readers[r].began)
    && InOrder(s.accepted[r])
  }

  ghost predicate Inv(s: State) {
    && WriterOk(s)
    && |s.accepted| == |s.readers|
    && (forall r :: 0 <= r < |s.readers| ==> ReaderOk(s, s.readers[r]))
    && (forall r :: 0 <= r < |s.readers| ==> AcceptedOk(s, r))
  }

  lemma BeginKeepsInv(s: State, snapshot: Bbo)
    requires Inv(s)
    ensures Inv(DoBegin(s, snapshot))
  {
    hide InOrder;
    var t := DoBegin(s, snapshot);
    assert WriterOk(t);
    forall r | 0 <= r < |s.readers| ensures ReaderOk(t, t.readers[r]) {
      assert ReaderOk(s, s.readers[r]);
    }
    forall r | 0 <= r < |s.readers| ensures AcceptedOk(t, r) {
      assert AcceptedOk(s, r);
      assert forall k :: 0 <= k < |s.history| ==> t.history[k] == s.history[k];
    }
  }

  lemma StoreKeepsInv(s: State)
    requires Inv(s)
    ensures Inv(DoStore(s))
  {
    hide Faithful, InOrder;
    var t := DoStore(s);
    forall r | 0 <= r < |s.readers| ensures ReaderOk(t, t.readers[r]) {
      assert ReaderOk(s, s.readers[r]);
    }
    forall r | 0 <= r < |s.readers| ensures AcceptedOk(t, r) {
      assert AcceptedOk(s, r);
    }
  }

  lemma FinishKeepsInv(s: State)
    requires Inv(s)
    ensures Inv(DoFinish(s))
  {
    hide Faithful, InOrder;
    var t := DoFinish(s);
    assert WriterOk(t);
    forall r | 0 <= r < |s.readers| ensures ReaderOk(t, t.readers[r]) {
      assert ReaderOk(s, s.readers[r]);
    }
    forall r | 0 <= r < |s.readers| ensures AcceptedOk(t, r) {
      assert AcceptedOk(s, r);
    }
  }

  lemma SameParity(ticks: nat)
    ensures (ticks % U64) % 2 == ticks % 2
  {
  }

  lemma WriterUnaffected(s: State, readers: seq<Reader>)
    requires WriterOk(s)
    ensures WriterOk(s.(readers := readers)) && s.version == s.ticks % U64
  {
  }

  lemma StartKeepsInv(s: State, r: nat)
    requires Inv(s)
    ensures Inv(DoStart(s, r))
  {
    hide Faithful, InOrder, WriterOk;
    var t := DoStart(s, r);
    WriterUnaffected(s, t.readers);
    SameParity(s.ticks);
    forall q | 0 <= q < |s.readers| ensures ReaderOk(t, t.readers[q]) {
      assert ReaderOk(s, s.readers[q]);
    }
    forall q | 0 <= q < |s.readers| ensures AcceptedOk(t, q) {
      assert AcceptedOk(s, q);
    }
  }

  lemma TakeKeepsInv(s: State, r: nat)
    requires Inv(s)
    ensures Inv(DoTake(s, r))
  {
    hide Faithful, InOrder;
    var t := DoTake(s, r);
    forall q | 0 <= q < |s.readers| ensures ReaderOk(t, t.readers[q]) {
      assert ReaderOk(s, s.readers[q]);
    }
    forall q | 0 <= q < |s.readers| ensures AcceptedOk(t, q) {
      assert AcceptedOk(s, q);
    }
  }

  /** Equal versions less than a full wrap apart are the same version. */
  lemma NoWrapMeansSame(began: nat, now: nat)
    requires began <= now < began + U64 && began % U64 == now % U64
    ensures began == now
  {
  }

  lemma CheckIsFaithful(s: State, r: Reader)
    requires WriterOk(s) && ReaderOk(s, r) && r.Reading? && |r.taken| == 4 && r.before == s.version
    ensures Faithful(s.history, Acceptance(r.taken, r.began, s.ticks))
  {
    if s.ticks < r.began + U64 {
      NoWrapMeansSame(r.began, s.ticks);
      assert r.taken == s.fields;
    }
  }

  lemma CheckKeepsInv(s: State, r: nat)
    requires Inv(s)
    ensures Inv(DoCheck(s, r))
  {
    var t := DoCheck(s, r);
    if t != s {
      assert ReaderOk(s, s.readers[r]);
      if s.readers[r].before == s.version { CheckIsFaithful(s, s.readers[r]); }
      forall q | 0 <= q < |s.readers| ensures ReaderOk(t, t.readers[q]) {
        assert ReaderOk(s, s.readers[q]);
      }
      forall q | 0 <= q < |s.readers| ensures AcceptedOk(t, q) {
        assert AcceptedOk(s, q);
      }
    }
  }

  lemma {:induction false} ExecKeepsInv(s: State, actions: seq<Action>)
    requires Inv(s)
    ensures Inv(Exec(s, actions))
  {
    hide Inv, DoBegin, DoStore, DoFinish, DoStart, DoTake, DoCheck;
    if actions == [] {
    } else {
      ExecKeepsInv(s, actions[..|actions| - 1]);
      var p := Exec(s, actions[..|actions| - 1]);
      match actions[|actions| - 1]
      case Begin(snapshot) => BeginKeepsInv(p, snapshot);
      case Store => StoreKeepsInv(p);
      case Finish => FinishKeepsInv(p);
      case Start(r) => StartKeepsInv(p, r);
      case Take(r) => TakeKeepsInv(p, r);
      case Check(r) => CheckKeepsInv(p, r);
    }
  }

  /**
   In every interleaving of the writer with any number of readers, a try_read that accepted version 2k
   returned exactly snapshot k (the initial one for k = 0) unless 2^64 version changes fell within it,
   and a reader's accepted snapshots never go backwards.
   */
  lemma AcceptedSnapshotsAreFaithful(readers: nat, actions: seq<Action>, r: nat)
    requires r < readers
    ensures var s := Exec(Initial(readers), actions);
            && r < |s.accepted|
            && (forall i :: 0 <= i < |s.accepted[r]| ==> Faithful(s.history, s.accepted[r][i]))
            && InOrder(s.accepted[r])
  {
    ExecKeepsInv(Initial(readers), actions);
    ReadersStay(Initial(readers), actions);
    var s := Exec(Initial(readers), actions);
    assert AcceptedOk(s, r);
  }

  lemma {:induction false} ReadersStay(s: State, actions: seq<Action>)
    ensures |Exec(s, actions).readers| == |s.readers|
  {
    if actions == [] {
    } else {
      ReadersStay(s, actions[..|actions| - 1]);
    }
  }

  // ----- the wrap is a real limit

  lemma {:induction false} ExecConcat(s: State, a: seq<Action>, b: seq<Action>)
    ensures Exec(s, a + b) == Exec(Exec(s, a), b)
  {
    hide Do;
    if b == [] {
      assert a + b == a;
    } else {
      ExecConcat(s, a, b[..|b| - 1]);
      assert (a + b)[..|a + b| - 1] == a + b[..|b| - 1];
    }
  }

  function Publishing(snapshot: Bbo): seq<Action> {
    [Begin(snapshot), Store, Store, Store, Store, Finish]
  }

  function Repeated(snapshot: Bbo, n: nat): seq<Action> {
    if n == 0 then [] else Repeated(snapshot, n - 1) + Publishing(snapshot)
  }

  lemma ExecCons(s: State, x: Action, rest: seq<Action>)
    ensures Exec(s, [x] + rest) == Exec(Do(s, x), rest)
  {
    ExecConcat(s, [x], rest);
    assert [x][..0] == [];
  }

  lemma {:induction false} StoreRest(s: State, n: nat)
    requires s.writer.Writing? && s.writer.stored + n == 4
    ensures var t := Exec(s, seq(n, _ => Store));
            && t == s.(fields := t.fields, writer := s.writer.(stored := 4))
            && t.fields == s.fields[..s.writer.stored] + s.writer.snapshot[s.writer.stored..]
    decreases n
  {
    if n == 0 {
    } else {
      assert seq(n, _ => Store) == [Store] + seq(n - 1, _ => Store);
      ExecCons(s, Store, seq(n - 1, _ => Store));
      StoreRest(DoStore(s), n - 1);
    }
  }

  /** An uninterrupted publish. */
  lemma PublishOnce(s: State, snapshot: Bbo)
    requires s.writer.Idle?
    ensures Exec(s, Publishing(snapshot))
         == s.(version := (s.version + 2) % U64, fields := snapshot, ticks := s.ticks + 2,
             history := s.history + [snapshot])
  {
    var stores := seq(4, _ => Store);
    assert Publishing(snapshot) == [Begin(snapshot)] + (stores + [Finish]);
    ExecCons(s, Begin(snapshot), stores + [Finish]);
    var s1 := DoBegin(s, snapshot);
    ExecConcat(s1, stores, [Finish]);
    StoreRest(s1, 4);
    var s2 := Exec(s1, stores);
    assert s2.fields == snapshot;
    ExecCons(s2, Finish, []);
    assert [Finish] + [] == [Finish];
  }

  /** `t` is `s` after `n` publications of `snapshot`. */
  ghost predicate Published(s: State, t: State, snapshot: Bbo, n: nat) {
    && t.writer == Idle && t.readers == s.readers && t.accepted == s.accepted
    && t.ticks == s.ticks + 2 * n && t.version == t.ticks % U64
    && (n > 0 ==> t.fields == snapshot)
    && |t.history| == |s.history| + n
    && (forall k :: 0 <= k < |t.history| ==> t.history[k] == if k < |s.history| then s.history[k] else snapshot)
  }

  lemma NothingPublished(s: State, snapshot: Bbo)
    requires s.writer.Idle? && s.version == s.ticks % U64
    ensures Published(s, s, snapshot, 0)
  {
  }

  lemma PublishedIdle(s: State, t: State, snapshot: Bbo, n: nat)
    requires Published(s, t, snapshot, n)
    ensures t.writer.Idle?
  {
  }

  lemma PublishedOneMore(s: State, t: State, u: State, snapshot: Bbo, n: nat)
    requires Published(s, t, snapshot, n)
    requires u == t.(version := (t.version + 2) % U64, fields := snapshot, ticks := t.ticks + 2,
              history := t.history + [snapshot])
    ensures Published(s, u, snapshot, n + 1)
  {
  }

  lemma {:induction false} PublishRepeatedly(s: State, snapshot: Bbo, n: nat)
    requires s.writer.Idle? && s.version == s.ticks % U64
    ensures Published(s, Exec(s, Repeated(snapshot, n)), snapshot, n)
  {
    EmptyExec(s);
    NothingPublished(s, snapshot);
    hide Exec, Publishing, Published;
    if n > 0 { assert Repeated(snapshot, n) == Repeated(snapshot, n - 1) + Publishing(snapshot); }
    if n == 0 {
    } else {
      PublishRepeatedly(s, snapshot, n - 1);
      var t := Exec(s, Repeated(snapshot, n - 1));
      ExecConcat(s, Repeated(snapshot, n - 1), Publishing(snapshot));
      PublishedIdle(s, t, snapshot, n - 1);
      PublishOnce(t, snapshot);
      PublishedOneMore(s, t, Exec(t, Publishing(snapshot)), snapshot, n - 1);
    }
  }

  lemma EmptyExec(s: State)
    ensures Exec(s, []) == s
  {
  }

  const ONES: Bbo := [1, 1, 1, 1]

  /** A reader that sleeps through 2^63 publications accepts a mixture that nobody published. */
  lemma WrapMixes()
    ensures exists actions ::
              var s := Exec(Initial(1), actions);
              |s.accepted| == 1 && |s.accepted[0]| == 1 && s.accepted[0][0].snapshot !in s.history
  {
    hide Exec, Repeated;
    var publications: nat := 0x8000_0000_0000_0000;
    var i := Initial(1);
    var s1 := DoTake(DoStart(i, 0), 0);
    assert s1.readers[0] == Reading(0, [0], 0);
    PublishRepeatedly(s1, ONES, publications);
    var s2 := Exec(s1, Repeated(ONES, publications));
    var s3 := DoTake(DoTake(DoTake(s2, 0), 0), 0);
    assert s3.readers[0] == Reading(0, [0, 1, 1, 1], 0);
    var s4 := DoCheck(s3, 0);
    assert s4.accepted[0] == [Acceptance([0, 1, 1, 1], 0, U64)];
    var tail := [Take(0), Take(0), Take(0), Check(0)];
    FourMore(s2);
    var actions := [Start(0)] + ([Take(0)] + (Repeated(ONES, publications) + tail));
    ExecCons(i, Start(0), [Take(0)] + (Repeated(ONES, publications) + tail));
    ExecCons(DoStart(i, 0), Take(0), Repeated(ONES, publications) + tail);
    ExecConcat(s1, Repeated(ONES, publications), tail);
    assert Exec(i, actions) == s4;
    assert [0, 1, 1, 1] != BLANK && [0, 1, 1, 1] != ONES;
  }

  lemma FourMore(s: State)
    ensures Exec(s, [Take(0), Take(0), Take(0), Check(0)]) == DoCheck(DoTake(DoTake(DoTake(s, 0), 0), 0), 0)
  {
    hide Exec, DoTake, DoCheck;
    var s1 := DoTake(s, 0);
    var s2 := DoTake(s1, 0);
    var s3 := DoTake(s2, 0);
    ExecCons(s, Take(0), [Take(0), Take(0), Check(0)]);
    ExecCons(s1, Take(0), [Take(0), Check(0)]);
    ExecCons(s2, Take(0), [Check(0)]);
    ExecCons(s3, Check(0), []);
    EmptyExec(DoCheck(s3, 0));
    assert [Take(0)] + [Take(0), Take(0), Check(0)] == [Take(0), Take(0), Take(0), Check(0)];
    assert [Take(0)] + [Take(0), Check(0)] == [Take(0), Take(0), Check(0)];
    assert [Take(0)] + [Check(0)] == [Take(0), Check(0)];
    assert [Check(0)] + [] == [Check(0)];
  }

  // ----- progress

  /** In every reachable state a completed read is accepted exactly when the version has made whole turns since
      it began, and one that saw no version change is accepted with the snapshot current then. */
  lemma CheckDecides(readers: nat, actions: seq<Action>, r: nat)
    requires r < readers
    ensures var s := Exec(Initial(readers), actions);
            && r < |s.readers| == |s.accepted|
            && (s.readers[r].Reading? && |s.readers[r].taken| == 4 ==>
                  var began, now := s.readers[r].began, DoCheck(s, r).accepted[r];
                  && began <= s.ticks && began / 2 < |s.history|
                  && (now != s.accepted[r] <==> began % U64 == s.ticks % U64)
                  && (began == s.ticks ==> now == s.accepted[r] + [Acceptance(s.history[began / 2], began, began)]))
  {
    ExecKeepsInv(Initial(readers), actions);
    ReadersStay(Initial(readers), actions);
    var s := Exec(Initial(readers), actions);
    var me := s.readers[r];
    assert ReaderOk(s, me);
    if me.Reading? && |me.taken| == 4 && me.began == s.ticks {
      CheckIsFaithful(s, me);
    }
  }

  predicate OfWriter(a: Action) {
    a.Begin? || a.Store? || a.Finish?
  }

  /** The actions of the writer, in order. */
  function WriterPart(actions: seq<Action>): seq<Action> {
    if actions == [] then []
    else
      var last := actions[|actions| - 1];
      WriterPart(actions[..|actions| - 1]) + if OfWriter(last) then [last] else []
  }

  /** The two states differ only in their readers. */
  ghost predicate SameForWriter(s: State, t: State) {
    t == s.(readers := t.readers, accepted := t.accepted)
  }

  lemma WriterSeesWriter(s: State, t: State, a: Action)
    requires SameForWriter(s, t)
    ensures OfWriter(a) ==> SameForWriter(Do(s, a), Do(t, a))
    ensures !OfWriter(a) ==> SameForWriter(Do(s, a), t)
  {
  }

  /** Readers never delay or disturb the writer: in every interleaving it does exactly what it does alone. */
  lemma {:induction false} ReadersDoNotDisturb(s: State, actions: seq<Action>)
    ensures SameForWriter(Exec(s, actions), Exec(s, WriterPart(actions)))
  {
    if actions == [] {
      assert SameForWriter(s, s);
    } else {
      hide SameForWriter, Do;
      var init, last := actions[..|actions| - 1], actions[|actions| - 1];
      ReadersDoNotDisturb(s, init);
      WriterSeesWriter(Exec(s, init), Exec(s, WriterPart(init)), last);
      var alone := WriterPart(actions);
      assert if OfWriter(last) then alone == WriterPart(init) + [last] else alone == WriterPart(init);
      assert OfWriter(last) ==> alone[..|alone| - 1] == WriterPart(init);
    }
  }

  /** A publication ends with its sixth step, whatever the readers do between its steps. */
  lemma PublicationEnds(s: State, actions: seq<Action>, snapshot: Bbo)
    requires s.writer.Idle? && WriterPart(actions) == Publishing(snapshot)
    ensures var t := Exec(s, actions);
            && t.writer.Idle? && t.fields == snapshot && t.history == s.history + [snapshot]
            && t.version == (s.version + 2) % U64 && t.ticks == s.ticks + 2
  {
    hide Exec;
    ReadersDoNotDisturb(s, actions);
    PublishOnce(s, snapshot);
  }

  // ----- an undisturbed read returns the latest snapshot

  predicate OfReader(a: Action, r: nat) {
    (a.Start? || a.Take? || a.Check?) && a.reader == r
  }

  /** The actions of one reader, in order. */
  function ReaderPart(actions: seq<Action>, r: nat): seq<Action> {
    if actions == [] then []
    else
      var last := actions[|actions| - 1];
      ReaderPart(actions[..|actions| - 1], r) + if OfReader(last, r) then [last] else []
  }

  /** The two states are the same to reader `r`. */
  ghost predicate SameForReader(s: State, t: State, r: nat) {
    && r < |s.readers| == |t.readers| && |s.accepted| == |t.accepted| == |s.readers|
    && t == s.(readers := t.readers, accepted := t.accepted)
    && s.readers[r] == t.readers[r] && s.accepted[r] == t.accepted[r]
  }

  lemma ReaderSeesReader(s: State, t: State, a: Action, r: nat)
    requires SameForReader(s, t, r) && !OfWriter(a)
    ensures OfReader(a, r) ==> SameForReader(Do(s, a), Do(t, a), r)
    ensures !OfReader(a, r) ==> SameForReader(Do(s, a), t, r)
  {
  }

  /** Readers never disturb each other either. */
  lemma {:induction false} OtherReadersDoNotDisturb(s: State, actions: seq<Action>, r: nat)
    requires r < |s.readers| == |s.accepted| && WriterPart(actions) == []
    ensures SameForReader(Exec(s, actions), Exec(s, ReaderPart(actions, r)), r)
  {
    if actions == [] {
      assert SameForReader(s, s, r);
    } else {
      hide SameForReader, Do;
      var init, last := actions[..|actions| - 1], actions[|actions| - 1];
      OtherReadersDoNotDisturb(s, init, r);
      ReaderSeesReader(Exec(s, init), Exec(s, ReaderPart(init, r)), last, r);
      var alone := ReaderPart(actions, r);
      assert if OfReader(last, r) then alone == ReaderPart(init, r) + [last] else alone == ReaderPart(init, r);
      assert OfReader(last, r) ==> alone[..|alone| - 1] == ReaderPart(init, r);
    }
  }

  function ReadingOnce(r: nat): seq<Action> {
    [Start(r), Take(r), Take(r), Take(r), Take(r), Check(r)]
  }

  lemma {:induction false} TakeAll(s: State, r: nat, k: nat)
    requires k <= 4 && r < |s.readers| && s.readers[r].Reading? && s.readers[r].taken == []
    ensures Exec(s, seq(k, _ => Take(r))) == s.(readers := s.readers[r := s.readers[r].(taken := s.fields[..k])])
  {
    var takes := seq(k, _ => Take(r));
    if k == 0 {
      assert s.readers[r := s.readers[r].(taken := s.fields[..0])] == s.readers;
    } else {
      TakeAll(s, r, k - 1);
      assert takes[..k - 1] == seq(k - 1, _ => Take(r));
      assert s.fields[..k] == s.fields[..k - 1] + [s.fields[k - 1]];
      var before, after := s.readers[r].(taken := s.fields[..k - 1]), s.readers[r].(taken := s.fields[..k]);
      assert s.readers[r := before][r := after] == s.readers[r := after];
    }
  }

  lemma ReadAlone(s: State, r: nat)
    requires r < |s.readers| == |s.accepted| && s.readers[r].Resting? && s.version % 2 == 0
    ensures Exec(s, ReadingOnce(r))
         == s.(accepted := s.accepted[r := s.accepted[r] + [Acceptance(s.fields, s.ticks, s.ticks)]])
  {
    var all, takes := ReadingOnce(r), seq(4, _ => Take(r));
    assert all == [Start(r)] + (takes + [Check(r)]);
    var started := DoStart(s, r);
    TakeAll(started, r, 4);
    assert s.fields[..4] == s.fields;
    assert started.readers[r := started.readers[r].(taken := s.fields)][r := Resting] == s.readers;
    assert (takes + [Check(r)])[..4] == takes;
    hide DoStart, DoTake;
    ExecCons(s, Start(r), takes + [Check(r)]);
  }

  lemma IdleIsEven(s: State)
    requires WriterOk(s)
    ensures s.version % 2 == 0 <==> s.writer.Idle?
    ensures |s.history| > 0 && (s.writer.Idle? ==> s.fields == s.history[|s.history| - 1])
  {
    SameParity(s.ticks);
  }

  lemma QuietRead(s: State, actions: seq<Action>, r: nat)
    requires Inv(s) && s.writer.Idle? && r < |s.readers| && s.readers[r].Resting?
    requires WriterPart(actions) == [] && ReaderPart(actions, r) == ReadingOnce(r)
    ensures var t := Exec(s, actions);
            && r < |s.accepted| == |t.accepted| && |s.history| > 0 && t.history == s.history
            && t.accepted[r] == s.accepted[r] + [Acceptance(s.history[|s.history| - 1], s.ticks, s.ticks)]
  {
    assert WriterOk(s) && |s.accepted| == |s.readers|;
    hide Exec, Inv, WriterOk, ReaderPart, WriterPart;
    IdleIsEven(s);
    ReadAlone(s, r);
    OtherReadersDoNotDisturb(s, actions, r);
  }

  /**
   In every reachable state with no publication under way, a try_read whose accesses interleave with any accesses
   of other readers returns exactly one snapshot, the latest published one.
   */
  lemma QuietReadSucceeds(readers: nat, before: seq<Action>, actions: seq<Action>, r: nat)
    requires var s := Exec(Initial(readers), before);
             s.writer.Idle? && r < |s.readers| && s.readers[r].Resting?
    requires WriterPart(actions) == [] && ReaderPart(actions, r) == ReadingOnce(r)
    ensures var s := Exec(Initial(readers), before);
            var t := Exec(s, actions);
            && r < |s.accepted| == |t.accepted| && |s.history| > 0 && t.history == s.history
            && t.accepted[r] == s.accepted[r] + [Acceptance(s.history[|s.history| - 1], s.ticks, s.ticks)]
  {
    InitialOk(readers);
    hide Exec, Inv, Initial, ReaderPart, WriterPart;
    ExecKeepsInv(Initial(readers), before);
    QuietRead(Exec(Initial(readers), before), actions, r);
  }

  lemma InitialOk(readers: nat)
    ensures Inv(Initial(readers))
  {
  }

  /** While a publication is under way, a try_read that starts returns nothing and changes nothing. */
  lemma StartDuringPublication(readers: nat, before: seq<Action>, r: nat)
    ensures var s := Exec(Initial(readers), before);
            s.writer.Writing? ==> Do(s, Start(r)) == s
  {
    InitialOk(readers);
    ExecKeepsInv(Initial(readers), before);
    hide Exec, Initial;
    IdleIsEven(Exec(Initial(readers), before));
  }
}
