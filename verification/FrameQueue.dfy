/**
 The single-producer single-consumer frame ring. Each action below is one access to shared memory
 (an index load or store, or one field or payload byte of a slot), and accesses take effect in the
 order they are listed (sequential consistency). Every interleaving is a sequence of actions.
 */
module FrameQueue {
  import opened Bytes
  import opened Circle

  datatype Header = Header(captureIndex: nat, monotonicNs: nat, utcNs: int, connectionId: nat, direction: byte,
      kind: byte)
  datatype Frame = Frame(header: Header, payload: seq<byte>)
  datatype Slot = Slot(header: Header, size: nat, buffer: seq<byte>)

  /** try_push between two accesses; `written` counts the slot accesses done: header, size, then bytes. */
  datatype Producer = AtRest | Loaded(frame: Frame, write: nat) | Filling(frame: Frame, write: nat, written: nat)

  /** try_pop_into between two accesses. */
  datatype Consumer =
    | Waiting
    | Peeked(read: nat, room: nat)
    | Sizing(read: nat, room: nat)
    | Draining(read: nat, size: nat, header: Header, bytes: seq<byte>, headerDone: bool)

  /** What a finished try_push reported: TooLarge with the payload's size, Full with the number of unread frames
      when the read index was loaded. */
  datatype PushReport = TooLarge(size: nat) | Full(unread: nat) | Queued

  /** What a finished try_pop_into reported: Empty with the number of unread frames when the write index was loaded,
      NoRoom with the sizes compared, the number of unread frames and the oldest one's payload size. */
  datatype PopReport = Empty(unread: nat) | NoRoom(size: nat, room: nat, unread: nat, oldest: nat) | Popped

  /** `queued`, `popped`, `pushes` and `pops` are bookkeeping for the statements. */
  datatype State = State(slots: seq<Slot>, capacity: nat, writeIndex: nat, readIndex: nat,
                         producer: Producer, consumer: Consumer,
                         queued: seq<Frame>, popped: seq<Frame>, pushes: seq<PushReport>, pops: seq<PopReport>)

  datatype Action = Push(frame: Frame) | Produce | Pop(room: nat) | Consume

  const BLANK := Header(0, 0, 0, 0, 0, 0)

  function Initial(slotCount: nat, capacity: nat): State {
    State(seq(slotCount, _ => Slot(BLANK, 0, seq(capacity, _ => 0))), capacity, 0, 0, AtRest, Waiting, [], [], [], [])
  }

  // ----- the producer

  function Unread(s: State): nat {
    if |s.popped| <= |s.queued| then |s.queued| - |s.popped| else 0
  }

  function OldestSize(s: State): nat {
    if |s.popped| < |s.queued| then |s.queued[|s.popped|].payload| else 0
  }

  /** size check, then load of the write index */
  function DoPush(s: State, frame: Frame): State {
    if !s.producer.AtRest? then s
    else if |frame.payload| > s.capacity then s.(pushes := s.pushes + [TooLarge(|frame.payload|)])
    else s.(producer := Loaded(frame, s.writeIndex))
  }

  /** `written` slot accesses done, one more */
  function Written(slot: Slot, frame: Frame, written: nat): Slot
    requires written >= 2 ==> written - 2 < |frame.payload| && written - 2 < |slot.buffer|
  {
    if written == 0 then slot.(header := frame.header)
    else if written == 1 then slot.(size := |frame.payload|)
    else slot.(buffer := slot.buffer[written - 2 := frame.payload[written - 2]])
  }

  function DoProduce(s: State): State {
    match s.producer
    case AtRest => s
    case Loaded(frame, write) =>
      // load of the read index
      if Next(write, |s.slots|) == s.readIndex
      then s.(producer := AtRest, pushes := s.pushes + [Full(Unread(s))])
      else s.(producer := Filling(frame, write, 0))
    case Filling(frame, write, written) =>
      if written < 2 + |frame.payload| then
        if write < |s.slots| && (written >= 2 ==> written - 2 < |s.slots[write].buffer|)
        then s.(slots := s.slots[write := Written(s.slots[write], frame, written)], producer := Filling(frame,
            write, written + 1))
        else s
      else
        // store of the write index
        s.(writeIndex := Next(write, |s.slots|), producer := AtRest, queued := s.queued + [frame],
            pushes := s.pushes + [Queued])
  }

  // ----- the consumer

  /** load of the read index */
  function DoPop(s: State, room: nat): State {
    if s.consumer.Waiting? then s.(consumer := Peeked(s.readIndex, room)) else s
  }

  function DoConsume(s: State): State {
    match s.consumer
    case Waiting => s
    case Peeked(read, room) =>
      // load of the write index
      if read == s.writeIndex
      then s.(consumer := Waiting, pops := s.pops + [Empty(Unread(s))])
      else s.(consumer := Sizing(read, room))
    case Sizing(read, room) =>
      if read >= |s.slots| then s
      else
        var size := s.slots[read].size;
        if room < size
        then s.(consumer := Waiting, pops := s.pops + [NoRoom(size, room, Unread(s), OldestSize(s))])
        else s.(consumer := Draining(read, size, BLANK, [], false))
    case Draining(read, size, header, bytes, headerDone) =>
      if read >= |s.slots| then s
      else if !headerDone then
        s.(consumer := s.consumer.(header := s.slots[read].header, headerDone := true))
      else if |bytes| < size then
        if |bytes| < |s.slots[read].buffer|
        then s.(consumer := s.consumer.(bytes := bytes + [s.slots[read].buffer[|bytes|]]))
        else s
      else
        // store of the read index
        s.(readIndex := Next(read, |s.slots|), consumer := Waiting,
           popped := s.popped + [Frame(header, bytes)], pops := s.pops + [Popped])
  }

  function Do(s: State, a: Action): State {
    match a
    case Push(frame) => DoPush(s, frame)
    case Produce => DoProduce(s)
    case Pop(room) => DoPop(s, room)
    case Consume => DoConsume(s)
  }

  function Exec(s: State, actions: seq<Action>): State {
    if actions == [] then s else Do(Exec(s, actions[..|actions| - 1]), actions[|actions| - 1])
  }

  // ----- the invariant

  ghost predicate Stored(slot: Slot, frame: Frame, capacity: nat) {
    && |slot.buffer| == capacity
    && slot.header == frame.header && slot.size == |frame.payload| <= capacity
    && slot.buffer[..slot.size] == frame.payload
  }

  /** The unread frames sit in the slots from the read index on. */
  ghost predicate RingOk(s: State) {
    && 2 <= |s.slots| && s.readIndex < |s.slots| && s.writeIndex < |s.slots|
    && (forall i :: 0 <= i < |s.slots| ==> |s.slots[i].buffer| == s.capacity)
    && s.popped <= s.queued
    && |s.queued| - |s.popped| == Dist(s.readIndex, s.writeIndex, |s.slots|)
    && forall j :: 0 <= j < |s.queued| - |s.popped| ==>
         Stored(s.slots[At(s.readIndex, j, |s.slots|)], s.queued[|s.popped| + j], s.capacity)
  }

  ghost predicate PartlyWritten(slot: Slot, frame: Frame, written: nat) {
    && (written > 0 ==> slot.header == frame.header)
    && (written > 1 ==> slot.size == |frame.payload|)
    && written <= 2 + |frame.payload|
    && |frame.payload| <= |slot.buffer|
    && forall k :: 0 <= k < written - 2 ==> slot.buffer[k] == frame.payload[k]
  }

  ghost predicate ProducerOk(s: State)
    requires RingOk(s)
  {
    match s.producer
    case AtRest => true
    case Loaded(frame, write) => write == s.writeIndex && |frame.payload| <= s.capacity
    case Filling(frame, write, written) =>
      && write == s.writeIndex && |frame.payload| <= s.capacity
      && |s.queued| - |s.popped| <= |s.slots| - 2
      && PartlyWritten(s.slots[write], frame, written)
  }

  ghost predicate ConsumerOk(s: State)
    requires RingOk(s)
  {
    match s.consumer
    case Waiting => true
    case Peeked(read, _) => read == s.readIndex
    case Sizing(read, _) => read == s.readIndex && |s.popped| < |s.queued|
    case Draining(read, size, header, bytes, headerDone) =>
      && read == s.readIndex && |s.popped| < |s.queued|
      && var next := s.queued[|s.popped|];
      && size == |next.payload| && bytes <= next.payload
      && (headerDone ==> header == next.header) && (!headerDone ==> bytes == [])
  }

  /** TooLarge is about a payload beyond the capacity, and Full was true when the read index was loaded. */
  ghost predicate PushReportOk(r: PushReport, slotCount: nat, capacity: nat) {
    match r
    case TooLarge(size) => size > capacity
    case Full(unread) => unread == slotCount - 1
    case Queued => true
  }

  /** Empty was true when the write index was loaded, and NoRoom is about the oldest unread frame. */
  ghost predicate PopReportOk(r: PopReport) {
    match r
    case Empty(unread) => unread == 0
    case NoRoom(size, room, unread, oldest) => unread > 0 && room < size == oldest
    case Popped => true
  }

  ghost predicate ReportsOk(s: State) {
    && (forall i :: 0 <= i < |s.pushes| ==> PushReportOk(s.pushes[i], |s.slots|, s.capacity))
    && (forall i :: 0 <= i < |s.pops| ==> PopReportOk(s.pops[i]))
  }

  ghost predicate Inv(s: State) {
    RingOk(s) && ProducerOk(s) && ConsumerOk(s) && ReportsOk(s)
  }

  /** The slot being filled is never among the unread ones. */
  lemma FillingIsFree(s: State, j: nat)
    requires RingOk(s) && |s.queued| - |s.popped| <= |s.slots| - 2 && j < |s.queued| - |s.popped|
    ensures At(s.readIndex, j, |s.slots|) != s.writeIndex
  {
  }

  lemma FirstUnread(s: State)
    requires RingOk(s) && |s.popped| < |s.queued|
    ensures Stored(s.slots[s.readIndex], s.queued[|s.popped|], s.capacity)
  {
    assert At(s.readIndex, 0, |s.slots|) == s.readIndex;
  }

  lemma FullExactly(s: State)
    requires RingOk(s)
    ensures Next(s.writeIndex, |s.slots|) == s.readIndex <==> |s.queued| - |s.popped| == |s.slots| - 1
  {
  }

  lemma PushKeepsInv(s: State, frame: Frame)
    requires Inv(s)
    ensures Inv(DoPush(s, frame))
  {
    hide Stored;
  }

  lemma PopKeepsInv(s: State, room: nat)
    requires Inv(s)
    ensures Inv(DoPop(s, room))
  {
    hide Stored;
  }

  lemma LoadedKeepsInv(s: State)
    requires Inv(s) && s.producer.Loaded?
    ensures Inv(DoProduce(s))
  {
    hide Stored;
    FullExactly(s);
  }

  lemma FillingKeepsInv(s: State)
    requires Inv(s) && s.producer.Filling? && s.producer.written < 2 + |s.producer.frame.payload|
    ensures Inv(DoProduce(s))
  {
    hide Stored;
    var t := DoProduce(s);
    forall j: nat | j < |s.queued| - |s.popped|
      ensures Stored(t.slots[At(s.readIndex, j, |s.slots|)], s.queued[|s.popped| + j], s.capacity)
    {
      FillingIsFree(s, j);
    }
  }

  lemma FilledIsStored(slot: Slot, frame: Frame)
    requires PartlyWritten(slot, frame, 2 + |frame.payload|)
    ensures Stored(slot, frame, |slot.buffer|)
  {
  }

  lemma PublishKeepsInv(s: State)
    requires Inv(s) && s.producer.Filling? && s.producer.written == 2 + |s.producer.frame.payload|
    ensures Inv(DoProduce(s))
  {
    var t := DoProduce(s);
    var n := |s.slots|;
    FilledIsStored(s.slots[s.writeIndex], s.producer.frame);
    hide Stored, PartlyWritten;
    forall j: nat | j < |t.queued| - |t.popped|
      ensures Stored(t.slots[At(t.readIndex, j, n)], t.queued[|t.popped| + j], t.capacity)
    {
      if j < |s.queued| - |s.popped| {
        assert Stored(s.slots[At(s.readIndex, j, n)], s.queued[|s.popped| + j], s.capacity);
      } else {
        assert At(t.readIndex, j, n) == s.writeIndex;
      }
    }
  }

  lemma ConsumeKeepsInv(s: State)
    requires Inv(s) && !(s.consumer.Draining? && s.consumer.headerDone && |s.consumer.bytes| == s.consumer.size)
    ensures Inv(DoConsume(s))
  {
    if |s.popped| < |s.queued| { FirstUnread(s); }
    hide At;
    if s.consumer.Draining? && s.consumer.headerDone {
      var slot, k := s.slots[s.readIndex], |s.consumer.bytes|;
      assert slot.buffer[..slot.size][k] == slot.buffer[k];
    }
  }

  lemma ReleaseKeepsInv(s: State)
    requires Inv(s) && s.consumer.Draining? && s.consumer.headerDone && |s.consumer.bytes| == s.consumer.size
    ensures Inv(DoConsume(s))
  {
    hide Stored, PartlyWritten;
    var t := DoConsume(s);
    var n := |s.slots|;
    assert s.consumer.bytes == s.queued[|s.popped|].payload;
    assert t.popped == s.queued[..|s.popped| + 1];
    forall j: nat | j < |t.queued| - |t.popped|
      ensures Stored(t.slots[At(t.readIndex, j, n)], t.queued[|t.popped| + j], t.capacity)
    {
      assert At(t.readIndex, j, n) == At(s.readIndex, j + 1, n);
      assert Stored(s.slots[At(s.readIndex, j + 1, n)], s.queued[|s.popped| + (j + 1)], s.capacity);
    }
  }

  lemma {:induction false} ExecKeepsInv(s: State, actions: seq<Action>)
    requires Inv(s)
    ensures Inv(Exec(s, actions))
  {
    hide Inv, DoPush, DoPop, DoProduce, DoConsume;
    if actions == [] {
    } else {
      ExecKeepsInv(s, actions[..|actions| - 1]);
      StepKeepsInv(Exec(s, actions[..|actions| - 1]), actions[|actions| - 1]);
    }
  }

  lemma StepKeepsInv(s: State, a: Action)
    requires Inv(s)
    ensures Inv(Do(s, a))
  {
    hide RingOk;
    match a
    case Push(frame) => PushKeepsInv(s, frame);
    case Pop(room) => PopKeepsInv(s, room);
    case Produce =>
      if s.producer.Loaded? {
        LoadedKeepsInv(s);
      } else if s.producer.Filling? {
        if s.producer.written < 2 + |s.producer.frame.payload| { FillingKeepsInv(s); } else { PublishKeepsInv(s); }
      }
    case Consume =>
      if s.consumer.Draining? && s.consumer.headerDone && |s.consumer.bytes| == s.consumer.size {
        ReleaseKeepsInv(s);
      } else {
        ConsumeKeepsInv(s);
      }
  }

  ghost predicate Racing(s: State) {
    && s.producer.Filling?
    && ((s.consumer.Sizing? && s.consumer.read == s.producer.write)
        || (s.consumer.Draining? && s.consumer.read == s.producer.write))
  }

  /**
   In every interleaving: popped frames are a prefix of queued frames, in order and intact; at most
   slot_count - 1 are unread; the producer never writes the slot the consumer reads; every Full or empty
   report was true when the other side's index was loaded; and a pop fails for lack of room only when the
   oldest unread frame is larger than the room offered.
   */
  lemma QueueIsSafe(slotCount: nat, capacity: nat, actions: seq<Action>)
    requires slotCount >= 2 && capacity > 0
    ensures var s := Exec(Initial(slotCount, capacity), actions);
            && s.popped <= s.queued && |s.queued| - |s.popped| <= slotCount - 1
            && !Racing(s)
            && (forall i :: 0 <= i < |s.pushes| ==> PushReportOk(s.pushes[i], slotCount, capacity))
            && (forall i :: 0 <= i < |s.pops| ==> PopReportOk(s.pops[i]))
  {
    ExecKeepsInv(Initial(slotCount, capacity), actions);
    SlotsStay(Initial(slotCount, capacity), actions);
    var s := Exec(Initial(slotCount, capacity), actions);
    hide Exec, Initial, PushReportOk, PopReportOk;
    if s.producer.Filling? && |s.popped| < |s.queued| { FillingIsFree(s, 0); }
  }

  lemma {:induction false} SlotsStay(s: State, actions: seq<Action>)
    ensures |Exec(s, actions).slots| == |s.slots| && Exec(s, actions).capacity == s.capacity
  {
    if actions == [] {
    } else {
      SlotsStay(s, actions[..|actions| - 1]);
    }
  }

  // ----- both calls are wait-free

  /** Own accesses a pending try_push still needs at most. */
  function PushWork(s: State): int {
    match s.producer
    case AtRest => 0
    case Loaded(frame, _) => |frame.payload| + 4
    case Filling(frame, _, written) => |frame.payload| + 3 - written
  }

  /** Own accesses a pending try_pop_into still needs at most. */
  function PopWork(s: State): int {
    match s.consumer
    case Waiting => 0
    case Peeked(_, _) => s.capacity + 4
    case Sizing(_, _) => s.capacity + 3
    case Draining(_, size, _, bytes, headerDone) => size - |bytes| + (if headerDone then 1 else 2)
  }

  lemma PushProgress(s: State, a: Action)
    requires Inv(s)
    ensures PushWork(s) >= 0 && (PushWork(s) == 0 <==> s.producer.AtRest?)
    ensures !s.producer.AtRest? ==> if a.Produce? then PushWork(Do(s, a)) < PushWork(s)
              else PushWork(Do(s, a)) == PushWork(s)
  {
    hide Stored, ConsumerOk, ReportsOk;
  }

  lemma PopProgress(s: State, a: Action)
    requires Inv(s)
    ensures PopWork(s) >= 0 && (PopWork(s) == 0 <==> s.consumer.Waiting?)
    ensures !s.consumer.Waiting? ==> if a.Consume? then PopWork(Do(s, a)) < PopWork(s)
              else PopWork(Do(s, a)) == PopWork(s)
  {
    if |s.popped| < |s.queued| { FirstUnread(s); }
    hide ProducerOk, ReportsOk, At;
  }

  /** In every reachable state a pending call gets closer to its end with each access of its own,
      and nothing the other side does sets it back. */
  lemma CallsAreWaitFree(slotCount: nat, capacity: nat, actions: seq<Action>, a: Action)
    requires slotCount >= 2 && capacity > 0
    ensures var s := Exec(Initial(slotCount, capacity), actions);
            && PushWork(s) >= 0 && (PushWork(s) == 0 <==> s.producer.AtRest?)
            && PopWork(s) >= 0 && (PopWork(s) == 0 <==> s.consumer.Waiting?)
            && (!s.producer.AtRest? ==> if a.Produce? then PushWork(Do(s, a)) < PushWork(s)
                else PushWork(Do(s, a)) == PushWork(s))
            && (!s.consumer.Waiting? ==> if a.Consume? then PopWork(Do(s, a)) < PopWork(s)
                else PopWork(Do(s, a)) == PopWork(s))
  {
    InitiallyOk(slotCount, capacity);
    hide Inv, Exec, Initial, Do, PushWork, PopWork;
    ExecKeepsInv(Initial(slotCount, capacity), actions);
    PushProgress(Exec(Initial(slotCount, capacity), actions), a);
    PopProgress(Exec(Initial(slotCount, capacity), actions), a);
  }

  lemma InitiallyOk(slotCount: nat, capacity: nat)
    requires slotCount >= 2 && capacity > 0
    ensures Inv(Initial(slotCount, capacity))
  {
  }

  // ----- what a call ends in

  predicate OfProducer(a: Action) {
    a.Push? || a.Produce?
  }

  /** The actions of one side, in order. */
  function PartOf(actions: seq<Action>, producer: bool): seq<Action> {
    if actions == [] then []
    else
      var last := actions[|actions| - 1];
      PartOf(actions[..|actions| - 1], producer) + if OfProducer(last) == producer then [last] else []
  }

  lemma ConsumerLeavesProducer(s: State, a: Action)
    requires !OfProducer(a)
    ensures var t := Do(s, a);
            t.producer == s.producer && t.queued == s.queued && t.pushes == s.pushes && t.writeIndex == s.writeIndex
  {
  }

  lemma ProducerLeavesConsumer(s: State, a: Action)
    requires OfProducer(a)
    ensures var t := Do(s, a);
            t.consumer == s.consumer && s.queued <= t.queued && t.popped == s.popped && t.pops == s.pops
  {
  }

  lemma PartSnoc(actions: seq<Action>, producer: bool, a: Action, k: nat)
    requires actions != [] && PartOf(actions, producer) == seq(k, _ => a)
    ensures var init, last := actions[..|actions| - 1], actions[|actions| - 1];
            if OfProducer(last) == producer then k > 0 && last == a && PartOf(init, producer) == seq(k - 1, _ => a)
            else PartOf(init, producer) == seq(k, _ => a)
  {
    var init, last := actions[..|actions| - 1], actions[|actions| - 1];
    var all, part := PartOf(actions, producer), PartOf(init, producer);
    if OfProducer(last) == producer {
      assert all == part + [last] && all[|all| - 1] == last;
      assert part == all[..|all| - 1] == seq(k - 1, _ => a);
    } else {
      assert all == part;
    }
  }

  /** The producer is `k` slot accesses further with the frame, or done with it. */
  ghost predicate Filled(s: State, t: State, frame: Frame, write: nat, k: nat) {
    if k <= 2 + |frame.payload| then
      t.producer == Filling(frame, write, k) && t.queued == s.queued && t.pushes == s.pushes
    else
      t.producer == AtRest && t.queued == s.queued + [frame] && t.pushes == s.pushes + [Queued]
  }

  lemma FillOneMore(s: State, t: State, frame: Frame, write: nat, k: nat, a: Action)
    requires Inv(t) && Filled(s, t, frame, write, k) && k <= 2 + |frame.payload|
    ensures a == Produce ==> Filled(s, Do(t, a), frame, write, k + 1)
    ensures !OfProducer(a) ==> Filled(s, Do(t, a), frame, write, k)
  {
    if !OfProducer(a) { ConsumerLeavesProducer(t, a); }
    hide Stored, ConsumerOk, ReportsOk, DoConsume, DoPop;
  }

  lemma FilledIdle(s: State, t: State, frame: Frame, write: nat, k: nat, a: Action)
    requires Filled(s, t, frame, write, k) && !OfProducer(a)
    ensures Filled(s, Do(t, a), frame, write, k)
  {
    ConsumerLeavesProducer(t, a);
    hide Do;
  }

  lemma {:induction false} FillRuns(s: State, actions: seq<Action>, k: nat)
    requires Inv(s) && s.producer.Filling? && s.producer.written == 0
    requires PartOf(actions, true) == seq(k, _ => Produce) && k <= 3 + |s.producer.frame.payload|
    ensures Filled(s, Exec(s, actions), s.producer.frame, s.producer.write, k)
  {
    var frame, write := s.producer.frame, s.producer.write;
    if actions == [] {
    } else {
      var init, last := actions[..|actions| - 1], actions[|actions| - 1];
      PartSnoc(actions, true, Produce, k);
      hide Inv, Do, Filled, PartOf;
      ExecKeepsInv(s, init);
      if OfProducer(last) {
        FillRuns(s, init, k - 1);
        FillOneMore(s, Exec(s, init), frame, write, k - 1, last);
      } else {
        FillRuns(s, init, k);
        FilledIdle(s, Exec(s, init), frame, write, k, last);
      }
    }
  }

  lemma {:induction false} ProducerWaits(s: State, actions: seq<Action>)
    requires PartOf(actions, true) == []
    ensures var t := Exec(s, actions);
            t.producer == s.producer && t.queued == s.queued && t.pushes == s.pushes && t.writeIndex == s.writeIndex
  {
    if actions == [] {
    } else {
      hide Do;
      ProducerWaits(s, actions[..|actions| - 1]);
      ConsumerLeavesProducer(Exec(s, actions[..|actions| - 1]), actions[|actions| - 1]);
    }
  }

  /** How a push of `frame` from `s` ends, with consumer accesses `mid` before its load of the read index and its
      remaining accesses among `rest`. */
  ghost predicate PushOutcome(s: State, frame: Frame, mid: seq<Action>, rest: seq<Action>) {
    var pushed := Do(s, Push(frame));
    if |frame.payload| > s.capacity then pushed == s.(pushes := s.pushes + [TooLarge(|frame.payload|)])
    else
      var loaded := Exec(pushed, mid);
      var next := Do(loaded, Produce);
      var end := Exec(next, rest);
      && |loaded.popped| <= |loaded.queued|
      && var unread := |loaded.queued| - |loaded.popped|;
      && unread <= |s.slots| - 1
      && if unread == |s.slots| - 1 then
           next.producer.AtRest? && next.queued == s.queued && next.pushes == s.pushes + [Full(unread)]
         else
           end.producer.AtRest? && end.queued == s.queued + [frame] && end.pushes == s.pushes + [Queued]
  }

  lemma PushEnds(s: State, frame: Frame, mid: seq<Action>, rest: seq<Action>)
    requires Inv(s) && s.producer.AtRest?
    requires PartOf(mid, true) == [] && PartOf(rest, true) == seq(3 + |frame.payload|, _ => Produce)
    ensures PushOutcome(s, frame, mid, rest)
  {
    if |frame.payload| <= s.capacity {
      var pushed := Do(s, Push(frame));
      StepKeepsInv(s, Push(frame));
      ExecKeepsInv(pushed, mid);
      SlotsStay(pushed, mid);
      ProducerWaits(pushed, mid);
      var loaded := Exec(pushed, mid);
      FullExactly(loaded);
      assert Unread(loaded) == |loaded.queued| - |loaded.popped|;
      hide Exec, RingOk, ConsumerOk, ReportsOk, PartOf;
      if Unread(loaded) < |s.slots| - 1 {
        StepKeepsInv(loaded, Produce);
        FillRuns(Do(loaded, Produce), rest, 3 + |frame.payload|);
      }
    }
  }

  /**
   In every reachable state: a push of a payload beyond the capacity is refused at once. Any other push, its accesses
   interleaved with any accesses of the consumer, ends in Full exactly when its load of the read index finds all
   slots but one unread, and otherwise in Queued with exactly its frame appended.
   */
  lemma PushDecides(slotCount: nat, capacity: nat, before: seq<Action>, frame: Frame,
                    mid: seq<Action>, rest: seq<Action>)
    requires slotCount >= 2 && capacity > 0
    requires Exec(Initial(slotCount, capacity), before).producer.AtRest?
    requires PartOf(mid, true) == [] && PartOf(rest, true) == seq(3 + |frame.payload|, _ => Produce)
    ensures var s := Exec(Initial(slotCount, capacity), before);
            |s.slots| == slotCount && s.capacity == capacity && PushOutcome(s, frame, mid, rest)
  {
    InitiallyOk(slotCount, capacity);
    SlotsStay(Initial(slotCount, capacity), before);
    hide Exec, Inv, PartOf, PushOutcome;
    ExecKeepsInv(Initial(slotCount, capacity), before);
    PushEnds(Exec(Initial(slotCount, capacity), before), frame, mid, rest);
  }

  // ----- the same for a pop

  /** The consumer is `k` accesses past the load of the write index with `oldest`, or done with it. */
  ghost predicate Drained(s: State, t: State, oldest: Frame, k: nat) {
    if k <= 2 + |oldest.payload| then
      && t.popped == s.popped && t.pops == s.pops
      && |t.popped| < |t.queued| && t.queued[|t.popped|] == oldest
      && (if k == 0 then t.consumer.Sizing? && t.consumer.room >= |oldest.payload|
          else t.consumer.Draining? && t.consumer.headerDone == (k >= 2)
               && |t.consumer.bytes| == if k >= 2 then k - 2 else 0)
    else
      t.consumer == Waiting && t.popped == s.popped + [oldest] && t.pops == s.pops + [Popped]
  }

  lemma DrainOneMore(s: State, t: State, oldest: Frame, k: nat)
    requires Inv(t) && Drained(s, t, oldest, k) && k <= 2 + |oldest.payload|
    ensures Drained(s, Do(t, Consume), oldest, k + 1)
  {
    FirstUnread(t);
    if k == 2 + |oldest.payload| { assert t.consumer.bytes == oldest.payload; }
    hide ProducerOk, ReportsOk, At, Next;
  }

  lemma DrainedIdle(s: State, t: State, oldest: Frame, k: nat, a: Action)
    requires Drained(s, t, oldest, k) && OfProducer(a)
    ensures Drained(s, Do(t, a), oldest, k)
  {
    ProducerLeavesConsumer(t, a);
    hide Do;
  }

  lemma {:induction false} DrainRuns(s: State, actions: seq<Action>, oldest: Frame, k: nat)
    requires Inv(s) && Drained(s, s, oldest, 0)
    requires PartOf(actions, false) == seq(k, _ => Consume) && k <= 3 + |oldest.payload|
    ensures Drained(s, Exec(s, actions), oldest, k)
  {
    if actions == [] {
    } else {
      var init, last := actions[..|actions| - 1], actions[|actions| - 1];
      PartSnoc(actions, false, Consume, k);
      hide Inv, Do, Drained, PartOf;
      ExecKeepsInv(s, init);
      if OfProducer(last) {
        DrainRuns(s, init, oldest, k);
        DrainedIdle(s, Exec(s, init), oldest, k, last);
      } else {
        DrainRuns(s, init, oldest, k - 1);
        DrainOneMore(s, Exec(s, init), oldest, k - 1);
      }
    }
  }

  lemma {:induction false} ConsumerWaits(s: State, actions: seq<Action>)
    requires PartOf(actions, false) == []
    ensures var t := Exec(s, actions);
            t.consumer == s.consumer && s.queued <= t.queued && t.popped == s.popped && t.pops == s.pops
  {
    if actions == [] {
    } else {
      hide Do;
      ConsumerWaits(s, actions[..|actions| - 1]);
      ProducerLeavesConsumer(Exec(s, actions[..|actions| - 1]), actions[|actions| - 1]);
    }
  }

  lemma EmptyExactly(s: State)
    requires RingOk(s)
    ensures s.readIndex == s.writeIndex <==> |s.queued| == |s.popped|
  {
  }

  /** A pop that has seen an unread frame for which there is no room gives up at its next access. */
  lemma {:induction false} NoRoomRuns(s: State, actions: seq<Action>, k: nat)
    requires Inv(s) && s.consumer.Sizing? && |s.popped| < |s.queued|
    requires s.consumer.room < |s.queued[|s.popped|].payload|
    requires PartOf(actions, false) == seq(k, _ => Consume) && k <= 1
    ensures var t, size := Exec(s, actions), |s.queued[|s.popped|].payload|;
            && t.popped == s.popped && s.queued <= t.queued
            && if k == 0 then t.consumer == s.consumer && t.pops == s.pops
               else t.consumer == Waiting && |t.pops| == |s.pops| + 1 && t.pops[..|s.pops|] == s.pops
                    && t.pops[|s.pops|].NoRoom? && t.pops[|s.pops|].size == size
  {
    if actions == [] {
    } else {
      var init, last := actions[..|actions| - 1], actions[|actions| - 1];
      PartSnoc(actions, false, Consume, k);
      ExecKeepsInv(s, init);
      var before := Exec(s, init);
      if OfProducer(last) {
        NoRoomRuns(s, init, k);
        ProducerLeavesConsumer(before, last);
      } else {
        NoRoomRuns(s, init, 0);
        FirstUnread(before);
        hide ProducerOk, ReportsOk, At, Exec;
      }
    }
  }

  /** How a pop into `room` bytes from `s` ends, with producer accesses `mid` before its load of the write index and
      its remaining accesses among `rest`. */
  ghost predicate PopOutcome(s: State, room: nat, mid: seq<Action>, rest: seq<Action>) {
    var loaded := Exec(Do(s, Pop(room)), mid);
    var next := Do(loaded, Consume);
    var end := Exec(next, rest);
    && loaded.popped == s.popped && |s.popped| <= |loaded.queued|
    && if |loaded.queued| == |s.popped| then
         next.consumer == Waiting && next.popped == s.popped && next.pops == s.pops + [Empty(0)]
       else
         var oldest := loaded.queued[|s.popped|];
         if room < |oldest.payload| then
           PartOf(rest, false) == [Consume] ==>
             && end.consumer == Waiting && end.popped == s.popped
             && |end.pops| == |s.pops| + 1 && end.pops[..|s.pops|] == s.pops
             && end.pops[|s.pops|].NoRoom? && end.pops[|s.pops|].size == |oldest.payload|
         else
           PartOf(rest, false) == seq(3 + |oldest.payload|, _ => Consume) ==>
             end.consumer == Waiting && end.popped == s.popped + [oldest] && end.pops == s.pops + [Popped]
  }

  lemma PopEnds(s: State, room: nat, mid: seq<Action>, rest: seq<Action>)
    requires Inv(s) && s.consumer.Waiting? && PartOf(mid, false) == []
    ensures PopOutcome(s, room, mid, rest)
  {
    var asked := Do(s, Pop(room));
    StepKeepsInv(s, Pop(room));
    ExecKeepsInv(asked, mid);
    ConsumerWaits(asked, mid);
    var loaded := Exec(asked, mid);
    EmptyExactly(loaded);
    StepKeepsInv(loaded, Consume);
    var next := Do(loaded, Consume);
    assert |loaded.popped| <= |loaded.queued|;
    hide Exec, RingOk, ProducerOk, ReportsOk, PartOf;
    if |loaded.queued| > |s.popped| {
      var oldest := loaded.queued[|s.popped|];
      if room < |oldest.payload| && PartOf(rest, false) == [Consume] {
        assert [Consume] == seq(1, _ => Consume);
        NoRoomRuns(next, rest, 1);
      }
      if room >= |oldest.payload| && PartOf(rest, false) == seq(3 + |oldest.payload|, _ => Consume) {
        DrainRuns(next, rest, oldest, 3 + |oldest.payload|);
      }
    }
  }

  /**
   In every reachable state a pop, its accesses interleaved with any accesses of the producer, ends in Empty exactly
   when its load of the write index finds nothing unread; otherwise in Popped with exactly the oldest unread frame
   when that fits the room offered, and in NoRoom, taking nothing, when it does not.
   */
  lemma PopDecides(slotCount: nat, capacity: nat, before: seq<Action>, room: nat,
                   mid: seq<Action>, rest: seq<Action>)
    requires slotCount >= 2 && capacity > 0
    requires Exec(Initial(slotCount, capacity), before).consumer.Waiting? && PartOf(mid, false) == []
    ensures PopOutcome(Exec(Initial(slotCount, capacity), before), room, mid, rest)
  {
    InitiallyOk(slotCount, capacity);
    hide Inv, Exec, PartOf, PopOutcome;
    ExecKeepsInv(Initial(slotCount, capacity), before);
    PopEnds(Exec(Initial(slotCount, capacity), before), room, mid, rest);
  }
}
