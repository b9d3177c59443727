/** The LLFR v2 capture file: header, topic, framed records and a completion trailer, as bytes. */
module Capture {
  import opened Words
  import opened Bytes
  import opened FrameCodec

  const MAGIC: seq<byte> := [76, 76, 70, 82, 0, 0, 0, 2]     // LLFR 0 0 0 2
  const TRAILER: seq<byte> := [76, 76, 70, 82, 69, 78, 68, 2] // LLFREND 2
  const MAX_TOPIC: nat := 4096

  ghost predicate TopicOk(topic: seq<byte>) {
    0 < |topic| <= MAX_TOPIC
  }

  // ----- what the writer writes

  function FileHeader(topic: seq<byte>): seq<byte> {
    MAGIC + Le(|topic|, 4) + topic
  }

  function Frames(records: seq<Record>): seq<byte> {
    if records == [] then [] else Encode(records[0]) + Frames(records[1..])
  }

  function Completed(topic: seq<byte>, records: seq<Record>): seq<byte> {
    FileHeader(topic) + Frames(records) + TRAILER
  }

  class Writer {
    var file: seq<byte>
    var closed: bool
    ghost const topic: seq<byte>
    ghost var records: seq<Record>

    ghost predicate Valid()
      reads this
    {
      TopicOk(topic) && file == if closed then Completed(topic, records) else FileHeader(topic) + Frames(records)
    }

    /** The source throws on an empty or over-long topic. */
    constructor (topic: seq<byte>)
      requires TopicOk(topic)
      ensures Valid() && !closed && records == [] && this.topic == topic
    {
      this.topic := topic;
      records := [];
      closed := false;
      var size := AppendLe([], |topic|, 4);
      file := MAGIC + size + topic;
      new;
      assert [] + Le(|topic|, 4) == Le(|topic|, 4);
      assert FileHeader(topic) + [] == FileHeader(topic);
    }

    method Append(record: Record) returns (ok: bool)
      requires Valid()
      modifies this
      ensures Valid() && closed == old(closed)
      ensures ok <==> !closed
      ensures records == if ok then old(records) + [record] else old(records)
    {
      hide Encode, FileHeader, Frames;
      if closed {
        return false;
      }
      var encoded := EncodeRawFrame(record);
      FramesSnoc(FileHeader(topic), records, record);
      file := file + encoded;
      records := records + [record];
      ok := true;
    }

    method Close()
      requires Valid()
      modifies this
      ensures Valid() && closed && records == old(records)
    {
      if closed {
        return;
      }
      file := file + TRAILER;
      closed := true;
    }
  }

  lemma {:induction false} FramesConcat(a: seq<Record>, b: seq<Record>)
    ensures Frames(a + b) == Frames(a) + Frames(b)
  {
    hide Encode;
    if a == [] {
      assert a + b == b;
    } else {
      FramesConcat(a[1..], b);
      assert (a + b)[1..] == a[1..] + b;
      assert Encode(a[0]) + (Frames(a[1..]) + Frames(b)) == (Encode(a[0]) + Frames(a[1..])) + Frames(b);
    }
  }

  lemma FramesSnoc(header: seq<byte>, records: seq<Record>, r: Record)
    ensures header + Frames(records + [r]) == (header + Frames(records)) + Encode(r)
  {
    hide Encode;
    FramesConcat(records, [r]);
    assert [r][1..] == [] && Frames([r]) == Encode(r) + [] == Encode(r);
  }

  // ----- what the reader reads

  datatype Layout = Layout(topic: seq<byte>, start: nat, dataEnd: nat)

  /** The reader's constructor: None is any of its exceptions. */
  function Open(file: seq<byte>): (o: Option<Layout>)
    ensures o.Some? ==> o.value.dataEnd <= |file|
  {
    if |file| < 8 || file[..8] != MAGIC then None
    else if |file| < 12 then None
    else
      var size := ReadAt(file, 8, 4);
      if size == 0 || size > MAX_TOPIC then None
      else if |file| < 12 + size then None
      else if file[|file| - 8..] != TRAILER then None
      else Some(Layout(file[12..12 + size], 12 + size, |file| - 8))
  }

  datatype Item = EndOfData | Corrupt | Got(record: Record, pos: nat)

  /** One call of `next` at position `pos`; Corrupt is any of its exceptions. */
  function NextItem(file: seq<byte>, dataEnd: nat, pos: nat, index: Word): (item: Item)
    requires dataEnd <= |file|
    ensures item.Got? ==> pos + HEADER_SIZE + 4 <= item.pos <= dataEnd
  {
    if pos == dataEnd then EndOfData
    else if pos > dataEnd then Corrupt
    else if pos + HEADER_SIZE > |file| then Corrupt
    else
      var payloadSize := ReadAt(file, pos + 34, 4);
      var after := pos + HEADER_SIZE + payloadSize + 4;
      if payloadSize > MAX_PAYLOAD then Corrupt
      else if after > |file| then Corrupt
      else if after > dataEnd then Corrupt
      else
        match Decode(file[pos..after])
        case None => Corrupt
        case Some(r) => if r.captureIndex != index then Corrupt else Got(r, after)
  }

  /** Calling `next` until it returns nothing; None when some call throws first. */
  function ReadFrom(file: seq<byte>, dataEnd: nat, pos: nat, index: Word): Option<seq<Record>>
    requires dataEnd <= |file|
    decreases if pos <= |file| then |file| - pos else 0
  {
    match NextItem(file, dataEnd, pos, index)
    case EndOfData => Some([])
    case Corrupt => None
    case Got(r, after) =>
      match ReadFrom(file, dataEnd, after, (index + 1) % U64)
      case None => None
      case Some(rest) => Some([r] + rest)
  }

  function ReadAll(file: seq<byte>): Option<(seq<byte>, seq<Record>)> {
    match Open(file)
    case None => None
    case Some(o) =>
      match ReadFrom(file, o.dataEnd, o.start, 0)
      case None => None
      case Some(records) => Some((o.topic, records))
  }

  class Reader {
    const file: seq<byte>
    var topic: seq<byte>
    var dataEnd: nat
    var pos: nat
    var nextIndex: Word

    ghost predicate Valid()
      reads this
    {
      && pos <= |file| && Open(file).Some?
      && topic == Open(file).value.topic && dataEnd == Open(file).value.dataEnd
    }

    /** The stream before any of the constructor's checks. */
    constructor (file: seq<byte>)
      ensures this.file == file && pos == 0 && nextIndex == 0
    {
      this.file := file;
      topic := [];
      dataEnd, pos, nextIndex := 0, 0, 0;
    }

    /** Reads up to `n` bytes: fewer than `n` exactly when the stream ends first. */
    method Read(n: nat) returns (chunk: seq<byte>)
      requires pos <= |file|
      modifies this`pos
      ensures pos == old(pos) + |chunk| <= |file| && chunk == file[old(pos)..pos]
      ensures |chunk| == if old(pos) + n <= |file| then n else |file| - old(pos)
    {
      var end := if pos + n <= |file| then pos + n else |file|;
      chunk := file[pos..end];
      pos := end;
    }

    /** The constructor's checks; false is any of its exceptions. */
    method ReadHeader() returns (ok: bool)
      requires pos == 0
      modifies this
      ensures nextIndex == old(nextIndex)
      ensures ok <==> Open(file).Some?
      ensures ok ==> Valid() && pos == Open(file).value.start
    {
      hide UnLe;
      var magic := Read(8);
      assert |file| >= 8 ==> magic == file[..8];
      if |magic| != 8 || magic != MAGIC {
        return false;
      }
      var sizeBytes := Read(4);
      if |sizeBytes| != 4 {
        return false;
      }
      var size := ReadLittleEndian(sizeBytes, 0, 4);
      assert sizeBytes[0..4] == file[8..12];
      if size == 0 || size > MAX_TOPIC {
        return false;
      }
      topic := Read(size);
      if |topic| != size {
        return false;
      }
      // eight bytes were read above, so the file is long enough for the trailer
      dataEnd := |file| - 8;
      pos := dataEnd;
      var complete := Read(8);
      assert complete == file[|file| - 8..];
      if complete != TRAILER {
        return false;
      }
      pos := 12 + size;
      ok := true;
    }

    method Next() returns (item: Item)
      requires Valid()
      modifies this
      ensures Valid()
      ensures item == NextItem(file, dataEnd, old(pos), old(nextIndex))
      ensures dataEnd == old(dataEnd) && topic == old(topic)
      ensures item.Got? ==> pos == item.pos && nextIndex == (old(nextIndex) + 1) % U64
      ensures item.EndOfData? ==> pos == old(pos) && nextIndex == old(nextIndex)
    {
      hide Decode, Open, UnLe;
      assert dataEnd <= |file|;
      if pos == dataEnd {
        return EndOfData;
      }
      if pos > dataEnd {
        return Corrupt;
      }
      ghost var start := pos;
      var header := Read(HEADER_SIZE);
      if |header| != HEADER_SIZE {
        return Corrupt;
      }
      var payloadSize := ReadLittleEndian(header, 34, 4);
      assert header[34..34 + 4] == file[start + 34..start + 34 + 4] by {
        SliceOfSlice(file, start, HEADER_SIZE, 34, 38);
      }
      if payloadSize > MAX_PAYLOAD {
        return Corrupt;
      }
      var rest := Read(payloadSize + 4);
      if |rest| != payloadSize + 4 {
        return Corrupt;
      }
      if pos > dataEnd {
        return Corrupt;
      }
      assert header + rest == file[start..pos];
      var decoded := DecodeRawFrame(header + rest);
      if decoded.None? {
        return Corrupt;
      }
      var expected := nextIndex;
      nextIndex := (nextIndex + 1) % U64;
      if decoded.value.captureIndex != expected {
        return Corrupt;
      }
      item := Got(decoded.value, pos);
    }
  }

  /** None is any exception of the reader's constructor. */
  method OpenReader(file: seq<byte>) returns (reader: Option<Reader>)
    ensures reader.Some? <==> Open(file).Some?
    ensures reader.Some? ==>
              var r := reader.value;
              fresh(r) && r.Valid() && r.file == file && r.pos == Open(file).value.start && r.nextIndex == 0
  {
    hide Open;
    var r := new Reader(file);
    var ok := r.ReadHeader();
    reader := if ok then Some(r) else None;
  }

  /** Reads a whole file with a Reader. */
  method ReadBack(file: seq<byte>) returns (result: Option<(seq<byte>, seq<Record>)>)
    ensures result == ReadAll(file)
  {
    hide NextItem, Open;
    var found := OpenReader(file);
    if found.None? {
      return None;
    }
    var reader := found.value;
    var records: seq<Record> := [];
    ghost var all := ReadFrom(file, reader.dataEnd, reader.pos, 0);
    assert all.Some? ==> records + all.value == all.value;
    while true
      invariant reader.Valid() && fresh(reader) && reader.file == file
      invariant var rest := ReadFrom(file, reader.dataEnd, reader.pos, reader.nextIndex);
                if rest.None? then all == None else all == Some(records + rest.value)
      decreases if reader.pos <= |file| then |file| - reader.pos else 0
    {
      var item := reader.Next();
      match item {
        case EndOfData =>
          assert records + [] == records;
          return Some((reader.topic, records));
        case Corrupt => return None;
        case Got(r, _) =>
          ghost var rest := ReadFrom(file, reader.dataEnd, reader.pos, reader.nextIndex);
          assert rest.Some? ==> records + ([r] + rest.value) == (records + [r]) + rest.value;
          records := records + [r];
      }
    }
  }

  // ----- round trips

  /** The record lists a reader can return from number `index` on. */
  ghost predicate Readable(records: seq<Record>, index: nat) {
    forall i :: 0 <= i < |records| ==>
      records[i].captureIndex == (index + i) % U64 && |records[i].payload| <= MAX_PAYLOAD
  }

  lemma ReadableTail(records: seq<Record>, index: nat)
    requires records != []
    ensures Readable(records, index) <==>
              records[0].captureIndex == index % U64 && |records[0].payload| <= MAX_PAYLOAD
                  && Readable(records[1..], index + 1)
  {
    if Readable(records, index) {
      assert records[0].captureIndex == (index + 0) % U64;
    }
    if records[0].captureIndex == index % U64 && |records[0].payload| <= MAX_PAYLOAD
        && Readable(records[1..], index + 1) {
      forall i | 0 <= i < |records|
        ensures records[i].captureIndex == (index + i) % U64 && |records[i].payload| <= MAX_PAYLOAD
      {
        if i > 0 { assert records[i] == records[1..][i - 1]; }
      }
    }
  }

  lemma EncodedSize(r: Record)
    ensures |Encode(r)| == HEADER_SIZE + |r.payload| + 4
  {
    FrameLayout(r, Encode(r));
  }

  lemma SliceOfSlice(file: seq<byte>, pos: nat, n: nat, a: nat, b: nat)
    requires pos + n <= |file| && a <= b <= n
    ensures file[pos..pos + n][a..b] == file[pos + a..pos + b]
  {
    var x, y := file[pos..pos + n][a..b], file[pos + a..pos + b];
    assert |x| == |y|;
    forall i | 0 <= i < |x| ensures x[i] == y[i] {
    }
  }

  /** A frame in the file is read back. */
  lemma NextReadsFrame(file: seq<byte>, dataEnd: nat, pos: nat, r: Record)
    requires dataEnd <= |file| && pos + |Encode(r)| <= dataEnd && file[pos..pos + |Encode(r)|] == Encode(r)
    requires |r.payload| <= MAX_PAYLOAD
    ensures NextItem(file, dataEnd, pos, r.captureIndex) == Got(r, pos + |Encode(r)|)
  {
    hide Encode, Decode, UnLe;
    var f := Encode(r);
    EncodedSize(r);
    EncodedLength(r);
    RoundTrip(r);
    SliceOfSlice(file, pos, |f|, 34, 38);
  }

  /** A frame that is read was in the file. */
  lemma NextFoundFrame(file: seq<byte>, dataEnd: nat, pos: nat, index: Word)
    requires dataEnd <= |file| && NextItem(file, dataEnd, pos, index).Got?
    ensures var got := NextItem(file, dataEnd, pos, index);
            && file[pos..got.pos] == Encode(got.record)
            && got.record.captureIndex == index && |got.record.payload| <= MAX_PAYLOAD
  {
    hide Encode, Decode, UnLe;
    var got := NextItem(file, dataEnd, pos, index);
    DecodedIsEncoded(file[pos..got.pos]);
  }

  lemma FirstFrame(file: seq<byte>, dataEnd: nat, pos: nat, records: seq<Record>)
    requires pos <= dataEnd <= |file| && records != [] && file[pos..dataEnd] == Frames(records)
    ensures var after := pos + |Encode(records[0])|;
            && pos + HEADER_SIZE < after <= dataEnd
            && file[pos..after] == Encode(records[0]) && file[after..dataEnd] == Frames(records[1..])
  {
    hide Encode;
    var f, rest, all := Encode(records[0]), Frames(records[1..]), file[pos..dataEnd];
    EncodedSize(records[0]);
    assert all == f + rest && |all| == |f| + |rest|;
    SliceOfSlice(file, pos, |all|, 0, |f|);
    SliceOfSlice(file, pos, |all|, |f|, |all|);
    assert all[0..|f|] == f && all[|f|..|all|] == rest;
  }

  lemma {:induction false} ReadsFrames(file: seq<byte>, dataEnd: nat, pos: nat, index: Word, records: seq<Record>)
    requires pos <= dataEnd <= |file| && file[pos..dataEnd] == Frames(records) && Readable(records, index)
    ensures ReadFrom(file, dataEnd, pos, index) == Some(records)
    decreases records
  {
    hide Encode, NextItem, Readable;
    if records == [] {
      assert pos == dataEnd;
      NextAtEnd(file, dataEnd, index);
    } else {
      ReadableTail(records, index);
      var tail, after := records[1..], pos + |Encode(records[0])|;
      FirstFrame(file, dataEnd, pos, records);
      NextReadsFrame(file, dataEnd, pos, records[0]);
      ReadableShift(tail, index + 1);
      ReadsFrames(file, dataEnd, after, (index + 1) % U64, tail);
      assert [records[0]] + tail == records;
    }
  }

  lemma NextAtEnd(file: seq<byte>, dataEnd: nat, index: Word)
    requires dataEnd <= |file|
    ensures NextItem(file, dataEnd, dataEnd, index) == EndOfData
  {
  }

  lemma ModShift(index: nat, i: nat)
    ensures (index + i) % U64 == (index % U64 + i) % U64
  {
  }

  /** Only the remainder of the index matters. */
  lemma ReadableShift(records: seq<Record>, index: nat)
    ensures Readable(records, index) <==> Readable(records, index % U64)
  {
    forall i | 0 <= i < |records|
      ensures records[i].captureIndex == (index + i) % U64 <==> records[i].captureIndex == (index % U64 + i) % U64
    {
      ModShift(index, i);
    }
  }

  lemma {:induction false} ReadWasFrames(file: seq<byte>, dataEnd: nat, pos: nat, index: Word)
    requires dataEnd <= |file| && ReadFrom(file, dataEnd, pos, index).Some?
    ensures var records := ReadFrom(file, dataEnd, pos, index).value;
            pos <= dataEnd && file[pos..dataEnd] == Frames(records) && Readable(records, index)
    decreases if pos <= |file| then |file| - pos else 0
  {
    hide Encode, Decode, Readable;
    var item := NextItem(file, dataEnd, pos, index);
    var records := ReadFrom(file, dataEnd, pos, index).value;
    if item.Got? {
      NextFoundFrame(file, dataEnd, pos, index);
      ReadWasFrames(file, dataEnd, item.pos, (index + 1) % U64);
      assert records[1..] == ReadFrom(file, dataEnd, item.pos, (index + 1) % U64).value;
      ReadableShift(records[1..], index + 1);
      ReadableTail(records, index);
      assert file[pos..dataEnd] == file[pos..item.pos] + file[item.pos..dataEnd];
    } else {
      EmptyIsReadable(index);
    }
  }

  lemma EmptyIsReadable(index: nat)
    ensures Readable([], index)
  {
  }

  lemma OpensCompleted(topic: seq<byte>, records: seq<Record>)
    requires TopicOk(topic)
    ensures var file := Completed(topic, records);
            |file| >= 20 + |topic| && Open(file) == Some(Layout(topic, 12 + |topic|, |file| - 8))
            && file[12 + |topic|..|file| - 8] == Frames(records)
  {
    hide Frames, Le, UnLe;
    var file := Completed(topic, records);
    Pow256Values();
    assert file[8..12] == Le(|topic|, 4);
    ReadLe(file, 8, |topic|, 4);
    assert file[..8] == MAGIC && file[|file| - 8..] == TRAILER;
    assert file[12..12 + |topic|] == topic;
  }

  lemma OpenWasCompleted(file: seq<byte>)
    requires Open(file).Some?
    ensures var o := Open(file).value;
            TopicOk(o.topic) && |FileHeader(o.topic)| == o.start && o.start <= |file|
            && file[..o.start] == FileHeader(o.topic) && file[o.dataEnd..] == TRAILER
  {
    hide Le, UnLe;
    var o := Open(file).value;
    WriteRead(file, 8, 4);
    assert file[..o.start] == file[..8] + file[8..12] + file[12..o.start];
  }

  /** Whatever is read to the end without error is exactly what the writer writes for the result. */
  lemma ReadIsWritten(file: seq<byte>)
    requires ReadAll(file).Some?
    ensures var (topic, records) := ReadAll(file).value;
            TopicOk(topic) && Readable(records, 0) && file == Completed(topic, records)
  {
    hide Frames, FileHeader, Readable, ReadFrom;
    var o := Open(file).value;
    OpenWasCompleted(file);
    ReadWasFrames(file, o.dataEnd, o.start, 0);
    assert file == file[..o.start] + file[o.start..o.dataEnd] + file[o.dataEnd..];
  }

  /** Reading what the writer wrote gives it back exactly for records numbered from 0 with payloads within the limit. */
  lemma WrittenIsRead(topic: seq<byte>, records: seq<Record>)
    requires TopicOk(topic)
    ensures ReadAll(Completed(topic, records)) == Some((topic, records)) <==> Readable(records, 0)
  {
    hide Frames, FileHeader, Readable, ReadFrom, Completed;
    var file := Completed(topic, records);
    OpensCompleted(topic, records);
    if Readable(records, 0) {
      ReadsFrames(file, |file| - 8, 12 + |topic|, 0, records);
    }
    if ReadAll(file) == Some((topic, records)) {
      ReadIsWritten(file);
    }
  }

  // ----- corruption

  /** The files differ at most within four adjacent bytes. */
  ghost predicate WithinFour(file: seq<byte>, bad: seq<byte>, at: nat) {
    |bad| == |file| && forall i :: 0 <= i < |file| && !(at <= i < at + 4) ==> bad[i] == file[i]
  }

  /** The length field of every frame from `pos` on is as it was. */
  ghost predicate LengthsKept(file: seq<byte>, bad: seq<byte>, pos: nat, records: seq<Record>)
    decreases |records|
  {
    records == []
    || (&& pos + HEADER_SIZE <= |file| && pos + HEADER_SIZE <= |bad|
        && bad[pos + 34..pos + 38] == file[pos + 34..pos + 38]
        && LengthsKept(file, bad, pos + |Encode(records[0])|, records[1..]))
  }

  /** A frame changed within four adjacent bytes outside its length field stops the reader. */
  lemma ChangedFrameIsCorrupt(file: seq<byte>, bad: seq<byte>, dataEnd: nat, pos: nat, r: Record, at: nat)
    requires WithinFour(file, bad, at) && dataEnd <= |file| && pos + |Encode(r)| <= dataEnd
    requires file[pos..pos + |Encode(r)|] == Encode(r) && |r.payload| <= MAX_PAYLOAD
    requires bad[pos..pos + |Encode(r)|] != Encode(r)
    requires |Encode(r)| >= HEADER_SIZE && bad[pos + 34..pos + 38] == file[pos + 34..pos + 38]
    ensures NextItem(bad, dataEnd, pos, r.captureIndex) == Corrupt
  {
    hide Encode, Decode, UnLe;
    var f, g := Encode(r), bad[pos..pos + |Encode(r)|];
    EncodedSize(r);
    EncodedLength(r);
    RoundTrip(r);
    SliceOfSlice(file, pos, |f|, 34, 38);
    var shift := if at >= pos then at - pos else 0;
    forall i | 0 <= i < |f| && !(shift <= i < shift + 4) ensures f[i] == g[i] {
      assert f[i] == file[pos..pos + |f|][i] == file[pos + i];
    }
    BurstIsRejected(f, g, shift);
  }

  lemma {:induction false} ChangeStopsReading(
    file: seq<byte>, bad: seq<byte>, dataEnd: nat, pos: nat, index: Word, records: seq<Record>, at: nat)
    requires WithinFour(file, bad, at) && LengthsKept(file, bad, pos, records)
    requires pos <= dataEnd <= |file| && file[pos..dataEnd] == Frames(records) && Readable(records, index)
    requires bad[pos..dataEnd] != file[pos..dataEnd]
    ensures ReadFrom(bad, dataEnd, pos, index) == None
    decreases records
  {
    hide Encode, NextItem, Readable;
    assert records != [];
    var r, tail := records[0], records[1..];
    var after := pos + |Encode(r)|;
    FirstFrame(file, dataEnd, pos, records);
    ReadableTail(records, index);
    if bad[pos..after] == Encode(r) {
      NextReadsFrame(bad, dataEnd, pos, r);
      ReadableShift(tail, index + 1);
      assert bad[pos..dataEnd] == bad[pos..after] + bad[after..dataEnd];
      assert file[pos..dataEnd] == file[pos..after] + file[after..dataEnd];
      ChangeStopsReading(file, bad, dataEnd, after, (index + 1) % U64, tail, at);
    } else {
      ChangedFrameIsCorrupt(file, bad, dataEnd, pos, r, at);
    }
  }

  /** With the topic length kept, a file opens exactly when magic and trailer are in place. */
  lemma OpensChanged(topic: seq<byte>, records: seq<Record>, bad: seq<byte>)
    requires TopicOk(topic)
    requires var file := Completed(topic, records); |bad| == |file| && bad[8..12] == file[8..12]
    ensures var start, end := 12 + |topic|, |bad| - 8;
            && start <= end
            && Open(bad) == if bad[..8] == MAGIC && bad[end..] == TRAILER
                            then Some(Layout(bad[12..start], start, end)) else None
  {
    hide Frames, FileHeader, Completed, UnLe;
    OpensCompleted(topic, records);
  }

  lemma SameInParts(file: seq<byte>, bad: seq<byte>, start: nat, end: nat)
    requires |bad| == |file| && 12 <= start <= end <= |file| && bad[8..12] == file[8..12]
    ensures bad[..12] == file[..12] <==> bad[..8] == file[..8]
    ensures bad[start..] == file[start..] <==> bad[start..end] == file[start..end] && bad[end..] == file[end..]
  {
    assert bad[..12] == bad[..8] + bad[8..12] && file[..12] == file[..8] + file[8..12];
    assert bad[..8] == bad[..12][..8] && file[..8] == file[..12][..8];
    assert bad[start..] == bad[start..end] + bad[end..] && file[start..] == file[start..end] + file[end..];
    assert bad[start..end] == bad[start..][..end - start] && file[start..end] == file[start..][..end - start];
    assert bad[end..] == bad[start..][end - start..] && file[end..] == file[start..][end - start..];
  }

  lemma MarksOfCompleted(topic: seq<byte>, records: seq<Record>)
    requires TopicOk(topic)
    ensures var file := Completed(topic, records);
            && |file| >= 20 + |topic| && file[..8] == MAGIC && file[|file| - 8..] == TRAILER
            && file[12 + |topic|..|file| - 8] == Frames(records)
  {
    hide Frames, FileHeader, Completed, UnLe;
    OpensCompleted(topic, records);
  }

  /** What a changed file reads as: magic, trailer and frames decide. */
  lemma ReadsChanged(topic: seq<byte>, records: seq<Record>, bad: seq<byte>, at: nat)
    requires TopicOk(topic) && Readable(records, 0)
    requires var file := Completed(topic, records);
             WithinFour(file, bad, at) && bad[8..12] == file[8..12] && LengthsKept(file, bad, 12 + |topic|, records)
    ensures var file, start := Completed(topic, records), 12 + |topic|;
            var end := |file| - 8;
            && |bad| == |file| && start <= end
            && ReadAll(bad) == if bad[..8] == MAGIC && bad[end..] == TRAILER && bad[start..end] == file[start..end]
                               then Some((bad[12..start], records)) else None
  {
    hide Frames, FileHeader, Readable, ReadFrom, Completed, LengthsKept, WithinFour, Open;
    var file := Completed(topic, records);
    var start, end := 12 + |topic|, |file| - 8;
    MarksOfCompleted(topic, records);
    SameLength(file, bad, at);
    OpensChanged(topic, records, bad);
    if bad[start..end] == file[start..end] {
      ReadsFrames(bad, end, start, 0, records);
    } else {
      ChangeStopsReading(file, bad, end, start, 0, records, at);
    }
  }

  /**
   A completed capture changed within four adjacent bytes, the length fields apart, goes unnoticed exactly when
   only topic bytes changed, and then reads as the same records under the changed topic.
   */
  lemma CorruptionIsNoticed(topic: seq<byte>, records: seq<Record>, bad: seq<byte>, at: nat)
    requires TopicOk(topic) && Readable(records, 0)
    requires var file := Completed(topic, records);
             WithinFour(file, bad, at) && bad[8..12] == file[8..12] && LengthsKept(file, bad, 12 + |topic|, records)
    ensures var file := Completed(topic, records);
            && (ReadAll(bad).Some? <==>
                  bad[..12] == file[..12] && bad[12 + |topic|..] == file[12 + |topic|..])
            && (ReadAll(bad).Some? ==> ReadAll(bad) == Some((bad[12..12 + |topic|], records)))
  {
    hide Readable, ReadAll, Completed, LengthsKept, WithinFour, Frames, FileHeader, Le;
    var file := Completed(topic, records);
    var start, end := 12 + |topic|, |file| - 8;
    ReadsChanged(topic, records, bad, at);
    SameInParts(file, bad, start, end);
    assert file[..8] == MAGIC && file[end..] == TRAILER by { MarksOfCompleted(topic, records); }
  }

  /** Any change of topic bytes reads back. */
  lemma TopicIsNotChecked(topic: seq<byte>, records: seq<Record>, i: nat, b: byte)
    requires TopicOk(topic) && Readable(records, 0) && i < |topic|
    ensures var file := Completed(topic, records);
            12 + i < |file| && ReadAll(file[12 + i := b]) == Some((topic[i := b], records))
  {
    hide Frames, Readable, ReadAll, Le;
    WrittenIsRead(topic[i := b], records);
    assert Completed(topic, records)[12 + i := b] == Completed(topic[i := b], records);
  }

  lemma SameLength(file: seq<byte>, bad: seq<byte>, at: nat)
    requires WithinFour(file, bad, at)
    ensures |bad| == |file|
  {
  }

  // ----- truncation

  /** The trailer read as a capture index. */
  function Mark(): nat {
    UnLe(TRAILER)
  }

  /** A whole recording: None is the writer's rejection of the topic. */
  method RecordAll(topic: seq<byte>, records: seq<Record>) returns (file: Option<seq<byte>>)
    ensures file == if TopicOk(topic) then Some(Completed(topic, records)) else None
  {
    hide Encode, FileHeader, Frames;
    if |topic| == 0 || |topic| > MAX_TOPIC {
      return None;
    }
    var writer := new Writer(topic);
    for i := 0 to |records|
      invariant writer.Valid() && fresh(writer) && !writer.closed
      invariant writer.topic == topic && writer.records == records[..i]
    {
      var ok := writer.Append(records[i]);
      assert records[..i] + [records[i]] == records[..i + 1];
    }
    writer.Close();
    assert records[..|records|] == records;
    file := Some(writer.file);
  }

  /** Recording and reading back gives the same records exactly when they are numbered from 0 and within the
      payload limit. */
  method RecordAndRead(topic: seq<byte>, records: seq<Record>) returns (result: Option<(seq<byte>, seq<Record>)>)
    ensures result == Some((topic, records)) <==> TopicOk(topic) && Readable(records, 0)
    ensures !TopicOk(topic) ==> result == None
  {
    hide ReadAll, Completed, Readable;
    var file := RecordAll(topic, records);
    if file.None? {
      return None;
    }
    result := ReadBack(file.value);
    WrittenIsRead(topic, records);
  }

  lemma MarkIsTrailer()
    ensures Mark() < U64 && Le(Mark(), 8) == TRAILER
  {
    hide Le, UnLe;
    WordFits(TRAILER);
    LeOfUnLe(TRAILER);
  }

  lemma FirstBytes(r: Record)
    ensures |Encode(r)| >= 42 && Encode(r)[..8] == Le(r.captureIndex, 8)
  {
    hide Le, Encode;
    var f := Encode(r);
    FrameLayout(r, f);
    HeaderLayout(r, f[..HEADER_SIZE]);
    assert f[..8] == f[..HEADER_SIZE][0..8];
  }

  /** Frames delimit themselves: if one starts where another does, they are the same bytes. */
  lemma SameFrame(r: Record, r': Record, rest: seq<byte>, rest': seq<byte>)
    requires |r.payload| <= MAX_PAYLOAD && |r'.payload| <= MAX_PAYLOAD
    requires Encode(r') + rest' <= Encode(r) + rest
    ensures Encode(r) == Encode(r') && rest' <= rest
  {
    hide Encode, UnLe;
    var f, f' := Encode(r), Encode(r');
    EncodedSize(r);
    EncodedSize(r');
    EncodedLength(r);
    EncodedLength(r');
    var whole, part := f + rest, f' + rest';
    assert part == whole[..|part|];
    assert f[34..38] == whole[34..38] == part[34..38] == f'[34..38];
    assert f == whole[..|f|] && f' == part[..|f'|];
    assert rest' == part[|f'|..] && rest == whole[|f|..];
  }

  /** A shorter list of frames followed by the trailer can only be a proper prefix of a longer one
      where a capture index spells the trailer. */
  lemma {:induction false} PrefixNeedsMark(part: seq<Record>, whole: seq<Record>, index: nat)
    requires Readable(part, index) && Readable(whole, index)
    requires Frames(part) + TRAILER <= Frames(whole) + TRAILER && |Frames(part)| < |Frames(whole)|
    ensures |part| < |whole| && (index + |part|) % U64 == Mark()
    decreases part
  {
    hide Encode, Readable, Mark, Le, UnLe;
    MarkIsTrailer();
    assert whole != [];
    ReadableTail(whole, index);
    var f, rest := Encode(whole[0]), Frames(whole[1..]) + TRAILER;
    assert Frames(whole) + TRAILER == f + rest;
    FirstBytes(whole[0]);
    if part == [] {
      assert Frames(part) + TRAILER == TRAILER;
      assert TRAILER == (f + rest)[..8] == f[..8];
      Pow256Values();
      LeIsInjective(whole[0].captureIndex, Mark(), 8);
    } else {
      ReadableTail(part, index);
      var f', rest' := Encode(part[0]), Frames(part[1..]) + TRAILER;
      assert Frames(part) + TRAILER == f' + rest';
      SameFrame(whole[0], part[0], rest, rest');
      PrefixNeedsMark(part[1..], whole[1..], index + 1);
    }
  }

  lemma SameTopic(topic: seq<byte>, records: seq<Record>, topic': seq<byte>, records': seq<Record>)
    requires TopicOk(topic) && TopicOk(topic') && Completed(topic', records') <= Completed(topic, records)
    ensures topic == topic' && Frames(records') + TRAILER <= Frames(records) + TRAILER
  {
    hide Frames, Le, UnLe, Completed;
    var c, c' := Completed(topic, records), Completed(topic', records');
    OpensCompleted(topic, records);
    OpensCompleted(topic', records');
    assert c' == c[..|c'|];
    assert c'[8..12] == c[8..12];
    assert ReadAt(c, 8, 4) == |topic| && ReadAt(c', 8, 4) == |topic'|;
    var start := 12 + |topic|;
    assert c[12..start] == topic && c'[12..start] == topic';
    assert c'[12..start] == c[12..start];
    AfterHeader(topic, records);
    AfterHeader(topic', records');
    assert c'[start..] == c[start..][..|c'| - start];
  }

  lemma AfterHeader(topic: seq<byte>, records: seq<Record>)
    ensures var c := Completed(topic, records);
            |c| >= 12 + |topic| && c[12 + |topic|..] == Frames(records) + TRAILER
  {
    hide Frames, Le;
  }

  /** A capture cut at the frame whose index spells the trailer is itself a readable capture. */
  lemma CutAtMark(topic: seq<byte>, records: seq<Record>)
    requires TopicOk(topic) && Readable(records, 0) && |records| > Mark()
    ensures var cut := Completed(topic, records[..Mark()]);
            && cut <= Completed(topic, records) && |cut| < |Completed(topic, records)|
            && ReadAll(cut).Some?
  {
    hide Encode, ReadAll, FileHeader, Frames, Le, Mark;
    var before, after := records[..Mark()], records[Mark()..];
    MarkIsTrailer();
    assert records == before + after;
    FramesConcat(before, after);
    assert after[0] == records[Mark()];
    FirstBytes(after[0]);
    FramesStart(after);
    var h, b, a := FileHeader(topic), Frames(before), Frames(after);
    assert a[..8] == TRAILER;
    assert h + (b + a) + TRAILER == (h + b + TRAILER) + (a[8..] + TRAILER);
    assert Readable(before, 0);
    WrittenIsRead(topic, before);
  }

  lemma FramesStart(records: seq<Record>)
    requires records != []
    ensures Encode(records[0]) <= Frames(records)
  {
    hide Encode;
  }

  /**
   Every strict prefix of a completed capture is rejected, whatever bytes topic and payloads contain,
   exactly when there are no more records than the trailer read as a little-endian capture index.
   */
  lemma TruncationIsNoticed(topic: seq<byte>, records: seq<Record>)
    requires TopicOk(topic) && Readable(records, 0)
    ensures (forall n: nat :: n < |Completed(topic, records)| ==> ReadAll(Completed(topic, records)[..n]).None?)
            <==> |records| <= Mark()
  {
    hide ReadAll, Completed, Frames, Mark, Readable;
    var c := Completed(topic, records);
    if |records| > Mark() {
      CutAtMark(topic, records);
      var cut := Completed(topic, records[..Mark()]);
      assert c[..|cut|] == cut;
    } else {
      forall n: nat | n < |c| ensures ReadAll(c[..n]).None? {
        if ReadAll(c[..n]).Some? { PrefixIsRejected(topic, records, n); }
      }
    }
  }

  lemma PrefixIsRejected(topic: seq<byte>, records: seq<Record>, n: nat)
    requires TopicOk(topic) && Readable(records, 0) && n < |Completed(topic, records)|
    requires ReadAll(Completed(topic, records)[..n]).Some?
    ensures |records| > Mark()
  {
    hide ReadAll, Completed, Frames, Mark, Readable;
    var part := Completed(topic, records)[..n];
    ReadIsWritten(part);
    var (topic', records') := ReadAll(part).value;
    SameTopic(topic, records, topic', records');
    AfterHeader(topic, records);
    AfterHeader(topic', records');
    PrefixNeedsMark(records', records, 0);
    MarkIsTrailer();
  }
}
