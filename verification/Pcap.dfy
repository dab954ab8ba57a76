/**
 The capture writer (PcapWriter.cpp over IOBufWriter.cpp) and the capture reader
 (PcapParser.cpp). The writer is proved against a log of accepted packets; what it wrote
 is proved to read back as that log.
 */
module Pcap {
  import opened Residues
  import opened Options
  import opened Bytes

  const MAGIC: nat := 0xa1b2c3d4
  const VERSION_MAJOR: nat := 2
  const VERSION_MINOR: nat := 4
  const MAX_SNAPLEN: nat := 0xFFFF
  const ETHERNET: nat := 1
  const HEADER_SIZE: nat := 24
  const RECORD_HEADER_SIZE: nat := 16

  /** Snapshot length, where 0 stands for the largest. */
  function SnapLen(snaplen: u32): u32 {
    if snaplen == 0 then MAX_SNAPLEN else snaplen
  }

  // ---------------------------------------------------------------------
  // The file format
  // ---------------------------------------------------------------------

  function HeaderBytes(snap: u32): (b: seq<byte>)
    ensures |b| == HEADER_SIZE
  {
    PutLe32(MAGIC) + PutLe16(VERSION_MAJOR) + PutLe16(VERSION_MINOR) + PutLe32(0) + PutLe32(0)
      + PutLe32(snap) + PutLe32(ETHERNET)
  }

  /** One captured packet: microseconds since the epoch, its length on the wire, the bytes kept. */
  datatype Record = Record(time: nat, origLen: u32, bytes: seq<byte>)

  function Seconds(time: nat): u32 {
    time / 1_000_000 % U32
  }

  /** The product wraps at 32 bits before it is subtracted, and the result is cut to 32 bits. */
  function Micros(time: nat): u32 {
    (time - Seconds(time) * 1_000_000 % U32) % U32
  }

  /** Wrap-around cancels out: the field is the microseconds within the second. */
  lemma MicrosExact(time: nat)
    requires time / 1_000_000 < U32
    ensures Micros(time) == time % 1_000_000
  {
    var s, r := time / 1_000_000, time % 1_000_000;
    var x := s * 1_000_000;
    assert time == x + r && Seconds(time) == s;
    assert time - x % U32 == U32 * (x / U32) + r;
    DivModUnique(time - x % U32, U32, x / U32, r);
  }

  function RecordHeader(r: Record): (b: seq<byte>)
    ensures |b| == RECORD_HEADER_SIZE
  {
    PutLe32(Seconds(r.time)) + PutLe32(Micros(r.time)) + PutLe32(|r.bytes| % U32) + PutLe32(r.origLen)
  }

  function RecordBytes(r: Record): (b: seq<byte>)
    ensures |b| == RECORD_HEADER_SIZE + |r.bytes|
  {
    RecordHeader(r) + r.bytes
  }

  function RecordsBytes(rs: seq<Record>): seq<byte> {
    if rs == [] then [] else RecordBytes(rs[0]) + RecordsBytes(rs[1..])
  }

  lemma {:induction false} RecordsAppend(rs: seq<Record>, r: Record)
    ensures RecordsBytes(rs + [r]) == RecordsBytes(rs) + RecordBytes(r)
  {
    hide RecordBytes;
    if rs == [] {
      assert [r][1..] == [];
      assert RecordsBytes([r]) == RecordBytes(r) + RecordsBytes([]);
    } else {
      RecordsAppend(rs[1..], r);
      assert (rs + [r])[1..] == rs[1..] + [r];
    }
  }

  // ---------------------------------------------------------------------
  // What the writer accepts
  // ---------------------------------------------------------------------

  /** One writer's output since its last restart. */
  datatype File = File(capacity: nat, header: bool, records: seq<Record>)

  function FileBytes(f: File, snap: u32): seq<byte> {
    if f.header then HeaderBytes(snap) + RecordsBytes(f.records) else []
  }

  datatype Message =
    | Control(shutdown: bool, restart: bool, limit: nat, stop: bool)
    | Captured(event: nat, bytes: seq<byte>, origLen: u32, time: nat)

  datatype Log = Log(files: seq<File>, amount: nat, limit: nat, bufferFull: nat)

  function Restarted(f: File): File {
    File(f.capacity, false, [])
  }

  function Trim(bytes: seq<byte>, snap: u32): (r: seq<byte>)
    ensures r <= bytes && |r| == if |bytes| <= snap then |bytes| else snap
  {
    if |bytes| <= snap then bytes else bytes[..snap]
  }

  /** The writer of the event, after its header was written if that was still needed and possible. */
  function WithHeader(f: File, snap: u32): File {
    if f.header || |FileBytes(f, snap)| + HEADER_SIZE > f.capacity then f else f.(header := true)
  }

  function AddRecord(f: File, r: Record): File {
    f.(records := f.records + [r])
  }

  function Stored(log: Log, snap: u32, r: Record, i: nat): Log
    requires i < |log.files|
  {
    if |FileBytes(log.files[i], snap)| + RECORD_HEADER_SIZE + |r.bytes| > log.files[i].capacity then
      log.(bufferFull := log.bufferFull + 1)
    else
      log.(files := log.files[i := AddRecord(log.files[i], r)], amount := log.amount + 1)
  }

  function Accept(log: Log, snap: u32, m: Message): Log
    requires m.Captured?
  {
    if log.amount >= log.limit || m.event >= |log.files| then log
    else
      var f := WithHeader(log.files[m.event], snap);
      var r := Record(m.time, m.origLen, Trim(m.bytes, snap));
      if !f.header then log else Stored(log.(files := log.files[m.event := f]), snap, r, m.event)
  }

  function Obey(log: Log, m: Message): Log
    requires m.Control?
  {
    if m.shutdown then log
    else if m.restart then
      Log(seq(|log.files|, i requires 0 <= i < |log.files| => Restarted(log.files[i])), 0, m.limit, log.bufferFull)
    else if m.stop then log.(limit := 0, amount := 0)
    else log
  }

  function Handle(log: Log, snap: u32, m: Message): Log {
    if m.Control? then Obey(log, m) else Accept(log, snap, m)
  }

  /** The log after the messages up to the first shutdown. */
  function Consume(log: Log, snap: u32, ms: seq<Message>): Log
    decreases |ms|
  {
    if ms == [] || (ms[0].Control? && ms[0].shutdown) then log
    else Consume(Handle(log, snap, ms[0]), snap, ms[1..])
  }

  ghost predicate FileOk(f: File, snap: u32) {
    && (f.records != [] ==> f.header)
    && |FileBytes(f, snap)| <= f.capacity
    && forall i :: 0 <= i < |f.records| ==> |f.records[i].bytes| <= snap
  }

  ghost predicate LogOk(log: Log, snap: u32) {
    forall i :: 0 <= i < |log.files| ==> FileOk(log.files[i], snap)
  }

  lemma FileAppend(f: File, r: Record, snap: u32)
    requires f.header
    ensures FileBytes(AddRecord(f, r), snap) == FileBytes(f, snap) + RecordBytes(r)
  {
    hide HeaderBytes, RecordBytes;
    RecordsAppend(f.records, r);
    assert HeaderBytes(snap) + (RecordsBytes(f.records) + RecordBytes(r))
        == (HeaderBytes(snap) + RecordsBytes(f.records)) + RecordBytes(r);
  }

  lemma HandleOk(log: Log, snap: u32, m: Message)
    requires LogOk(log, snap)
    ensures LogOk(Handle(log, snap, m), snap)
  {
    if m.Captured? && log.amount < log.limit && m.event < |log.files| {
      var f := WithHeader(log.files[m.event], snap);
      var r := Record(m.time, m.origLen, Trim(m.bytes, snap));
      hide HeaderBytes, RecordBytes;
      assert FileOk(f, snap);
      if f.header {
        FileAppend(f, r, snap);
      }
    }
  }

  /** No buffer is ever exceeded and every record kept respects the snapshot length. */
  lemma {:induction false} ConsumeOk(log: Log, snap: u32, ms: seq<Message>)
    requires LogOk(log, snap)
    ensures LogOk(Consume(log, snap, ms), snap)
    decreases |ms|
  {
    hide Handle, LogOk;
    if ms != [] && !(ms[0].Control? && ms[0].shutdown) {
      HandleOk(log, snap, ms[0]);
      ConsumeOk(Handle(log, snap, ms[0]), snap, ms[1..]);
    }
  }

  // ---------------------------------------------------------------------
  // The packet budget
  // ---------------------------------------------------------------------

  function Total(files: seq<File>): nat {
    if files == [] then 0 else Total(files[..|files| - 1]) + |files[|files| - 1].records|
  }

  lemma {:induction false} TotalUpdate(files: seq<File>, i: nat, f: File)
    requires i < |files|
    ensures Total(files[i := f]) == Total(files) - |files[i].records| + |f.records|
  {
    var last := |files| - 1;
    if i == last {
      assert files[i := f][..last] == files[..last];
    } else {
      TotalUpdate(files[..last], i, f);
      assert files[i := f][..last] == files[..last][i := f];
    }
  }

  lemma {:induction false} TotalRestarted(files: seq<File>)
    requires forall i :: 0 <= i < |files| ==> files[i].records == []
    ensures Total(files) == 0
  {
    if files != [] {
      TotalRestarted(files[..|files| - 1]);
    }
  }

  /** The counter is the number of records held, and within the limit. */
  ghost predicate Budget(log: Log) {
    log.amount == Total(log.files) && log.amount <= log.limit
  }

  ghost predicate NoStop(ms: seq<Message>) {
    forall i :: 0 <= i < |ms| && ms[i].Control? ==> ms[i].restart || !ms[i].stop
  }

  lemma HandleKeepsBudget(log: Log, snap: u32, m: Message)
    requires m.Control? ==> m.restart || !m.stop
    requires Budget(log)
    ensures Budget(Handle(log, snap, m))
  {
    if m.Control? {
      if m.restart && !m.shutdown {
        TotalRestarted(Handle(log, snap, m).files);
      }
    } else if log.amount < log.limit && m.event < |log.files| {
      hide FileBytes, Trim;
      var f := WithHeader(log.files[m.event], snap);
      TotalUpdate(log.files, m.event, f);
      var r := Record(m.time, m.origLen, Trim(m.bytes, snap));
      TotalUpdate(log.files[m.event := f], m.event, AddRecord(f, r));
    }
  }

  /** From a restart to the next stop the counter is the number of records and never above the limit. */
  lemma {:induction false} ConsumeKeepsBudget(log: Log, snap: u32, ms: seq<Message>)
    requires NoStop(ms) && Budget(log)
    ensures Budget(Consume(log, snap, ms))
    decreases |ms|
  {
    hide Handle, Budget;
    if ms != [] && !(ms[0].Control? && ms[0].shutdown) {
      HandleKeepsBudget(log, snap, ms[0]);
      ConsumeKeepsBudget(Handle(log, snap, ms[0]), snap, ms[1..]);
    }
  }

  /** A stream without shutdown is consumed in two parts. */
  lemma {:induction false} ConsumeConcat(log: Log, snap: u32, ms: seq<Message>, ns: seq<Message>)
    requires forall k :: 0 <= k < |ms| && ms[k].Control? ==> !ms[k].shutdown
    ensures Consume(log, snap, ms + ns) == Consume(Consume(log, snap, ms), snap, ns)
    decreases |ms|
  {
    hide Handle;
    if ms == [] {
      assert ms + ns == ns;
    } else {
      assert (ms + ns)[0] == ms[0] && (ms + ns)[1..] == ms[1..] + ns;
      ConsumeConcat(Handle(log, snap, ms[0]), snap, ms[1..], ns);
    }
  }

  /** A restart sets the budget up, whatever came before. */
  lemma RestartStartsBudget(log: Log, snap: u32, m: Message)
    requires m.Control? && m.restart && !m.shutdown
    ensures Budget(Handle(log, snap, m))
  {
    TotalRestarted(Handle(log, snap, m).files);
  }

  /**
   For every stream: from any restart to the next stop the counter is the number of records
   held and never above the limit, whatever log and messages came before the restart.
   */
  lemma BudgetAfterRestart(log: Log, snap: u32, pre: seq<Message>, m: Message, post: seq<Message>)
    requires forall k :: 0 <= k < |pre| && pre[k].Control? ==> !pre[k].shutdown
    requires m.Control? && m.restart && !m.shutdown && NoStop(post)
    ensures Budget(Consume(log, snap, pre + [m] + post))
  {
    hide Handle, Budget;
    var before := Consume(log, snap, pre);
    assert pre + [m] + post == pre + ([m] + post);
    ConsumeConcat(log, snap, pre, [m] + post);
    assert ([m] + post)[0] == m && ([m] + post)[1..] == post;
    RestartStartsBudget(before, snap, m);
    ConsumeKeepsBudget(Handle(before, snap, m), snap, post);
  }

  // ---------------------------------------------------------------------
  // Which packets are kept
  // ---------------------------------------------------------------------

  /** The packets offered for event `i` since the last restart, given those before the messages. */
  function Offered(before: seq<Record>, snap: u32, ms: seq<Message>, i: nat): seq<Record>
    decreases |ms|
  {
    if ms == [] || (ms[0].Control? && ms[0].shutdown) then before
    else Offered(OfferedBy(before, snap, ms[0], i), snap, ms[1..], i)
  }

  function OfferedBy(before: seq<Record>, snap: u32, m: Message, i: nat): seq<Record> {
    match m
    case Control(_, restart, _, _) => if restart then [] else before
    case Captured(event, bytes, origLen, time) =>
      if event == i then before + [Record(time, origLen, Trim(bytes, snap))] else before
  }

  /** `a` is `b` with some elements left out. */
  predicate Subsequence<T(==)>(a: seq<T>, b: seq<T>) {
    if a == [] then true
    else if b == [] then false
    else (a[|a| - 1] == b[|b| - 1] && Subsequence(a[..|a| - 1], b[..|b| - 1])) || Subsequence(a, b[..|b| - 1])
  }

  lemma SubsequenceGrows<T>(a: seq<T>, b: seq<T>, x: T)
    requires Subsequence(a, b)
    ensures Subsequence(a, b + [x]) && Subsequence(a + [x], b + [x])
  {
  }

  lemma HandleFile(log: Log, snap: u32, m: Message, i: nat)
    requires !(m.Control? && m.shutdown) && i < |log.files|
    ensures |Handle(log, snap, m).files| == |log.files|
    ensures
      var rs := Handle(log, snap, m).files[i].records;
      match m
      case Control(_, restart, _, _) => rs == if restart then [] else log.files[i].records
      case Captured(event, bytes, origLen, time) =>
        rs == log.files[i].records
        || (event == i && rs == log.files[i].records + [Record(time, origLen, Trim(bytes, snap))])
  {
  }

  /** A file holds packets of its own event only, in the order they came, and none from before the last restart. */
  lemma {:induction false} KeepsOnlyOffered(log: Log, snap: u32, ms: seq<Message>, i: nat, before: seq<Record>)
    requires i < |log.files| && Subsequence(log.files[i].records, before)
    ensures |Consume(log, snap, ms).files| == |log.files|
    ensures Subsequence(Consume(log, snap, ms).files[i].records, Offered(before, snap, ms, i))
    decreases |ms|
  {
    hide Handle, Subsequence, Trim;
    if ms != [] && !(ms[0].Control? && ms[0].shutdown) {
      var m := ms[0];
      HandleFile(log, snap, m, i);
      if m.Captured? {
        SubsequenceGrows(log.files[i].records, before, Record(m.time, m.origLen, Trim(m.bytes, snap)));
      } else if m.restart {
        EmptySubsequence<Record>();
      }
      KeepsOnlyOffered(Handle(log, snap, m), snap, ms[1..], i, OfferedBy(before, snap, m, i));
    }
  }

  lemma EmptySubsequence<T>()
    ensures Subsequence<T>([], [])
  {
  }

  /** Bytes that a message takes in the file of event `i`. */
  function Cost(snap: u32, m: Message, i: nat): nat {
    if m.Captured? && m.event == i then RECORD_HEADER_SIZE + |Trim(m.bytes, snap)| else 0
  }

  function TotalCost(snap: u32, ms: seq<Message>, i: nat): nat {
    if ms == [] then 0 else Cost(snap, ms[0], i) + TotalCost(snap, ms[1..], i)
  }

  /** Bytes a file is left with for records. */
  function Room(f: File, snap: u32): int {
    f.capacity - |FileBytes(f, snap)| - if f.header then 0 else HEADER_SIZE
  }

  lemma HandleKeepsPacket(log: Log, snap: u32, m: Message, i: nat)
    requires m.Captured? && i < |log.files| && FileOk(log.files[i], snap)
    requires log.amount < log.limit && Cost(snap, m, i) <= Room(log.files[i], snap)
    ensures
      var after := Handle(log, snap, m);
      && |after.files| == |log.files| && after.limit == log.limit && after.amount <= log.amount + 1
      && FileOk(after.files[i], snap) && Room(after.files[i], snap) == Room(log.files[i], snap) - Cost(snap, m, i)
      && after.files[i].records == OfferedBy(log.files[i].records, snap, m, i)
  {
    hide HeaderBytes, RecordBytes, Trim;
    if m.event == i {
      var f := WithHeader(log.files[i], snap);
      var r := Record(m.time, m.origLen, Trim(m.bytes, snap));
      FileAppend(f, r, snap);
      hide FileBytes;
      assert Handle(log, snap, m).files[i] == AddRecord(f, r);
    }
  }

  /** Nothing is lost while there is room: every packet offered is kept. */
  lemma {:induction false} KeepsAllWithRoom(log: Log, snap: u32, ms: seq<Message>, i: nat)
    requires i < |log.files| && FileOk(log.files[i], snap)
    requires forall k :: 0 <= k < |ms| ==> ms[k].Captured?
    requires log.amount + |ms| <= log.limit && TotalCost(snap, ms, i) <= Room(log.files[i], snap)
    ensures |Consume(log, snap, ms).files| == |log.files|
    ensures Consume(log, snap, ms).files[i].records == Offered(log.files[i].records, snap, ms, i)
    decreases |ms|
  {
    hide Handle, FileOk, Room, Cost, OfferedBy;
    if ms != [] {
      HandleKeepsPacket(log, snap, ms[0], i);
      KeepsAllWithRoom(Handle(log, snap, ms[0]), snap, ms[1..], i);
    }
  }

  /** The bytes in the file, the 24 of a header still missing and the record are within the capacity. */
  predicate Fits(f: File, snap: u32, length: nat) {
    |FileBytes(f, snap)| + (if f.header then 0 else 24) + 16 + (if length < snap then length else snap) <= f.capacity
  }

  /** The event has a writer, whose header is there or fits, and the limit is not reached. */
  predicate HasHeader(log: Log, snap: u32, event: nat) {
    && event < |log.files| && log.amount < log.limit
    && (log.files[event].header || |FileBytes(log.files[event], snap)| + 24 <= log.files[event].capacity)
  }

  /**
   Exactly when a captured packet is written, and counted, or counted as not fitting: its event
   has a writer, the limit is not reached, and the record fits together with the file header if
   that is still missing.
   */
  lemma WrittenIff(log: Log, snap: u32, m: Message)
    requires m.Captured? && LogOk(log, snap)
    ensures var after := Handle(log, snap, m);
      var written := m.event < |log.files| && log.amount < log.limit && Fits(log.files[m.event], snap, |m.bytes|);
      && |after.files| == |log.files| && after.limit == log.limit
      && after.amount == log.amount + (if written then 1 else 0)
      && after.bufferFull == log.bufferFull + (if !written && HasHeader(log, snap, m.event) then 1 else 0)
      && forall i :: 0 <= i < |log.files| ==>
           after.files[i].records ==
             if written && i == m.event then log.files[i].records + [Record(m.time, m.origLen, Trim(m.bytes, snap))]
             else log.files[i].records
  {
    if m.event < |log.files| {
      assert Fits(log.files[m.event], snap, |m.bytes|) <==> Cost(snap, m, m.event) <= Room(log.files[m.event], snap);
    }
    hide Fits;
    if m.event < |log.files| {
      var f := log.files[m.event];
      assert FileOk(f, snap) && RecordsBytes([]) == [];
      hide HeaderBytes, RecordsBytes, Trim;
      var g := WithHeader(f, snap);
      assert g.header ==> |FileBytes(g, snap)| == g.capacity - Room(f, snap);
      assert !g.header ==> Room(f, snap) < 0;
      hide FileBytes, FileOk, LogOk, WithHeader, Room;
    }
  }

  /** What control messages do: restart empties all files and sets the limit, stop sets it to zero. */
  lemma ControlMessages(log: Log, snap: u32, m: Message)
    requires m.Control?
    ensures var after := Handle(log, snap, m);
      var restarted := !m.shutdown && m.restart;
      var stopped := !m.shutdown && !m.restart && m.stop;
      && |after.files| == |log.files| && after.bufferFull == log.bufferFull
      && after.limit == (if restarted then m.limit else if stopped then 0 else log.limit)
      && after.amount == (if restarted || stopped then 0 else log.amount)
      && forall i :: 0 <= i < |log.files| ==>
           && after.files[i].capacity == log.files[i].capacity
           && after.files[i].header == (log.files[i].header && !restarted)
           && after.files[i].records == if restarted then [] else log.files[i].records
  {
  }

  /** After a stop, or with a limit of zero, nothing is written until a restart sets another limit. */
  lemma {:induction false} ZeroLimitWritesNothing(log: Log, snap: u32, ms: seq<Message>)
    requires log.limit == 0 && forall k :: 0 <= k < |ms| && ms[k].Control? ==> !ms[k].restart
    ensures var after := Consume(log, snap, ms); after.files == log.files && after.limit == 0
    decreases |ms|
  {
    if ms != [] && !(ms[0].Control? && ms[0].shutdown) {
      ZeroLimitWritesNothing(Handle(log, snap, ms[0]), snap, ms[1..]);
    }
  }

  // ---------------------------------------------------------------------
  // The writers
  // ---------------------------------------------------------------------

  class IOBufWriter {
    const capacity: nat
    var data: seq<byte>

    constructor (capacity: nat)
      ensures this.capacity == capacity && data == []
    {
      this.capacity, data := capacity, [];
    }

    /** Copies into the tail room of the buffer, which must be large enough. */
    method WriteData(bytes: seq<byte>)
      requires |data| + |bytes| <= capacity
      modifies this
      ensures data == old(data) + bytes && |data| <= capacity
    {
      data := data + bytes;
    }

    /** Header and bytes of one record. */
    method WriteRecord(r: Record)
      requires |data| + RECORD_HEADER_SIZE + |r.bytes| <= capacity
      modifies this
      ensures data == old(data) + RecordBytes(r)
    {
      hide RecordHeader;
      WriteData(RecordHeader(r));
      WriteData(r.bytes);
    }

    method Available(amount: nat) returns (ok: bool)
      ensures ok <==> |data| + amount <= capacity
    {
      ok := capacity - |data| >= amount;
    }

    method Restart()
      modifies this
      ensures data == []
    {
      data := [];
    }
  }

  class PcapWriter {
    const dataWriters: seq<IOBufWriter>
    const snap: u32
    var headerExists: seq<bool>
    var packetAmount: nat
    var packetLimit: nat
    var bufferFull: nat
    /** What the messages so far amount to. */
    ghost var log: Log

    /** Writer `i` holds exactly the bytes of the file. */
    ghost predicate Holds(i: nat, f: File)
      requires i < |dataWriters| && i < |headerExists|
      reads `headerExists, dataWriters[i]
    {
      && f.capacity == dataWriters[i].capacity && f.header == headerExists[i] && (f.records != [] ==> f.header)
      && dataWriters[i].data == FileBytes(f, snap)
    }

    ghost predicate Written()
      reads `headerExists, `log, dataWriters
    {
      && |headerExists| == |dataWriters| == |log.files|
      && (forall i, j :: 0 <= i < j < |dataWriters| ==> dataWriters[i] != dataWriters[j])
      && forall i :: 0 <= i < |dataWriters| ==> Holds(i, log.files[i])
    }

    ghost predicate Valid()
      reads this, dataWriters
    {
      Written() && LogOk(log, snap) && log.amount == packetAmount && log.limit == packetLimit
        && log.bufferFull == bufferFull
    }

    constructor (dataWriters: seq<IOBufWriter>, packetLimit: nat, snaplen: u32)
      requires forall i, j :: 0 <= i < j < |dataWriters| ==> dataWriters[i] != dataWriters[j]
      requires forall i :: 0 <= i < |dataWriters| ==> dataWriters[i].data == []
      ensures Valid() && this.dataWriters == dataWriters && snap == if snaplen == 0 then 65535 else snaplen
      ensures log.amount == 0 && log.limit == packetLimit && log.bufferFull == 0
      ensures forall i :: 0 <= i < |dataWriters| ==> log.files[i] == File(dataWriters[i].capacity, false, [])
    {
      this.dataWriters, snap, this.packetLimit := dataWriters, SnapLen(snaplen), packetLimit;
      headerExists := seq(|dataWriters|, _ => false);
      packetAmount, bufferFull := 0, 0;
      log := Log(seq(|dataWriters|, i requires 0 <= i < |dataWriters| => File(dataWriters[i].capacity, false, [])),
        0, packetLimit, 0);
    }

    method WritePcapHeader(writerId: nat) returns (ok: bool)
      requires Written()
      modifies `headerExists, `log, dataWriters
      ensures Written()
      ensures ok <==> writerId < |dataWriters| && WithHeader(old(log).files[writerId], snap).header
      ensures log == if ok
        then old(log).(files := old(log).files[writerId := WithHeader(old(log).files[writerId], snap)])
        else old(log)
    {
      if writerId >= |dataWriters| {
        return false;
      }
      assert Holds(writerId, log.files[writerId]);
      if headerExists[writerId] {
        return true;
      }
      var room := dataWriters[writerId].Available(HEADER_SIZE);
      if !room {
        return false;
      }
      ok := true;
      AddHeader(writerId);
    }

    /** The part of WritePcapHeader that runs when the header is missing and fits. */
    method AddHeader(writerId: nat)
      requires Written() && writerId < |dataWriters| && !headerExists[writerId]
      requires |dataWriters[writerId].data| + HEADER_SIZE <= dataWriters[writerId].capacity
      requires log.files[writerId].records == []
      modifies `headerExists, `log, dataWriters
      ensures Written()
      ensures log == old(log).(files := old(log).files[writerId := old(log).files[writerId].(header := true)])
    {
      hide HeaderBytes;
      assert Holds(writerId, log.files[writerId]);
      dataWriters[writerId].WriteData(HeaderBytes(snap));
      headerExists := headerExists[writerId := true];
      log := log.(files := log.files[writerId := log.files[writerId].(header := true)]);
      assert Holds(writerId, log.files[writerId]);
      assert forall i :: 0 <= i < |dataWriters| ==> old(Holds(i, log.files[i]));
    }

    /** Appends one record; the caller has checked that there is room. */
    method WritePacket(r: Record, writerId: nat)
      requires Written() && writerId < |dataWriters| && headerExists[writerId]
      requires |dataWriters[writerId].data| + RECORD_HEADER_SIZE + |r.bytes| <= dataWriters[writerId].capacity
      modifies `log, dataWriters
      ensures Written()
      ensures log == old(log).(files := old(log).files[writerId := AddRecord(old(log).files[writerId], r)])
    {
      assert Holds(writerId, log.files[writerId]);
      ghost var f := AddRecord(log.files[writerId], r);
      FileAppend(log.files[writerId], r, snap);
      hide FileBytes, AddRecord;
      dataWriters[writerId].WriteRecord(r);
      hide RecordBytes;
      log := log.(files := log.files[writerId := f]);
      assert Holds(writerId, log.files[writerId]);
      assert forall i :: 0 <= i < |dataWriters| ==> old(Holds(i, log.files[i]));
    }

    method RestartWriters(limit: nat)
      requires Written()
      modifies `headerExists, `log, `packetLimit, `packetAmount, dataWriters
      ensures Written() && packetLimit == limit && packetAmount == 0
      ensures log == Obey(old(log), Control(false, true, limit, false))
    {
      assert forall i :: 0 <= i < |dataWriters| ==> old(Holds(i, log.files[i]));
      headerExists := seq(|headerExists|, _ => false);
      log := Obey(log, Control(false, true, limit, false));
      for i := 0 to |dataWriters|
        invariant |headerExists| == |dataWriters| && forall k :: 0 <= k < |dataWriters| ==> !headerExists[k]
        invariant log == Obey(old(log), Control(false, true, limit, false))
        invariant forall k :: 0 <= k < i ==> dataWriters[k].data == []
      {
        dataWriters[i].Restart();
      }
      packetLimit := limit;
      packetAmount := 0;
    }

    /** One message of the queue. */
    method HandleMessage(m: Message)
      requires Valid() && !(m.Control? && m.shutdown)
      modifies `headerExists, `log, `packetLimit, `packetAmount, `bufferFull, dataWriters
      ensures Valid() && log == Handle(old(log), snap, m)
    {
      HandleOk(log, snap, m);
      hide FileBytes, FileOk, LogOk;
      if m.Control? {
        if m.restart {
          RestartWriters(m.limit);
        } else if m.stop {
          packetLimit := 0;
          packetAmount := packetLimit;
          log := log.(limit := 0, amount := 0);
        }
        return;
      }
      HandlePacket(m);
    }

    method HandlePacket(m: Message)
      requires Valid() && m.Captured?
      modifies `headerExists, `log, `packetAmount, `bufferFull, dataWriters
      ensures Valid() && log == Accept(old(log), snap, m)
    {
      HandleOk(log, snap, m);
      hide FileBytes, LogOk, Trim;
      if packetAmount >= packetLimit {
        return;
      }
      var headerOk := WritePcapHeader(m.event);
      if !headerOk {
        return;
      }
      Store(Record(m.time, m.origLen, Trim(m.bytes, snap)), m.event);
    }

    /** The record of an event whose header is in place: written if it fits, counted as not fitting otherwise. */
    method Store(r: Record, writerId: nat)
      requires Written() && writerId < |dataWriters| && headerExists[writerId]
      modifies `log, `packetAmount, `bufferFull, dataWriters
      ensures Written()
      ensures packetAmount - log.amount == old(packetAmount - log.amount)
      ensures bufferFull - log.bufferFull == old(bufferFull - log.bufferFull)
      ensures log == Stored(old(log), snap, r, writerId)
    {
      hide FileBytes, AddRecord;
      assert Holds(writerId, log.files[writerId]);
      var room := dataWriters[writerId].Available(|r.bytes| + RECORD_HEADER_SIZE);
      if !room {
        bufferFull := bufferFull + 1;
        log := log.(bufferFull := log.bufferFull + 1);
        return;
      }
      WritePacket(r, writerId);
      packetAmount := packetAmount + 1;
      log := log.(amount := log.amount + 1);
    }

    /** Consumes the queue up to a shutdown message. */
    method RunMulti(queue: seq<Message>)
      requires Valid()
      modifies `headerExists, `log, `packetLimit, `packetAmount, `bufferFull, dataWriters
      ensures Valid() && log == Consume(old(log), snap, queue)
    {
      hide Handle, LogOk;
      var i := 0;
      while i < |queue|
        invariant 0 <= i <= |queue| && Valid()
        invariant Consume(old(log), snap, queue) == Consume(log, snap, queue[i..])
      {
        if queue[i].Control? && queue[i].shutdown {
          break;
        }
        assert queue[i..][1..] == queue[i + 1..];
        HandleMessage(queue[i]);
        i := i + 1;
      }
    }
  }

  // ---------------------------------------------------------------------
  // The reader
  // ---------------------------------------------------------------------

  datatype Reader = Reader(pos: nat, firstRead: bool, snaplen: u32)

  const START: Reader := Reader(0, true, 0)

  /** What one read of up to `n` bytes at `pos` returns. */
  function Chunk(file: seq<byte>, pos: nat, n: nat): (b: seq<byte>)
    ensures |b| <= n
  {
    if pos >= |file| then [] else if pos + n <= |file| then file[pos..pos + n] else file[pos..]
  }

  /** The reader past the file header; nothing if the header is cut short. */
  function Opened(file: seq<byte>, s: Reader): Reader {
    var b := Chunk(file, s.pos, HEADER_SIZE);
    Reader(s.pos + |b|, false, if |b| == HEADER_SIZE then Le32(b, 16) else s.snaplen)
  }

  /** The next record's bytes, and the reader after it. */
  function NextRecord(file: seq<byte>, s: Reader): (Reader, Option<seq<byte>>) {
    var h := Chunk(file, s.pos, RECORD_HEADER_SIZE);
    var t := s.(pos := s.pos + |h|);
    if |h| != RECORD_HEADER_SIZE || Le32(h, 8) > s.snaplen then (t, None)
    else
      var b := Chunk(file, t.pos, Le32(h, 8));
      (t.(pos := t.pos + |b|), if |b| == Le32(h, 8) then Some(b) else None)
  }

  function NextPacket(file: seq<byte>, s: Reader): (Reader, Option<seq<byte>>) {
    if !s.firstRead then NextRecord(file, s)
    else if |Chunk(file, s.pos, HEADER_SIZE)| != HEADER_SIZE then (Opened(file, s), None)
    else NextRecord(file, Opened(file, s))
  }

  class PcapParser {
    const file: seq<byte>
    var pos: nat
    var firstRead: bool
    var snaplen: u32

    ghost function State(): Reader
      reads this
    {
      Reader(pos, firstRead, snaplen)
    }

    constructor (file: seq<byte>)
      ensures this.file == file && State() == START
    {
      this.file, pos, firstRead, snaplen := file, 0, true, 0;
    }

    method ReadFile(n: nat) returns (b: seq<byte>)
      modifies `pos
      ensures b == Chunk(file, old(pos), n) && pos == old(pos) + |b|
    {
      b := Chunk(file, pos, n);
      pos := pos + |b|;
    }

    method GetPacketFromPcap() returns (packet: Option<seq<byte>>)
      modifies this
      ensures (State(), packet) == NextPacket(file, old(State()))
    {
      if firstRead {
        firstRead := false;
        var header := ReadFile(HEADER_SIZE);
        if |header| != HEADER_SIZE {
          return None;
        }
        snaplen := Le32(header, 16);
      }
      var header := ReadFile(RECORD_HEADER_SIZE);
      if |header| != RECORD_HEADER_SIZE {
        return None;
      }
      var length := Le32(header, 8);
      if length > snaplen {
        return None;
      }
      var bytes := ReadFile(length);
      return if |bytes| == length then Some(bytes) else None;
    }
  }

  /** What calls return until one of them returns nothing. */
  function Packets(file: seq<byte>, s: Reader): seq<seq<byte>>
    decreases if s.pos <= |file| then |file| - s.pos else 0, s.firstRead
  {
    var (t, packet) := NextPacket(file, s);
    if packet.None? then [] else [packet.value] + Packets(file, t)
  }

  function Payloads(rs: seq<Record>): seq<seq<byte>> {
    if rs == [] then [] else [rs[0].bytes] + Payloads(rs[1..])
  }

  lemma RecordHeaderLength(r: Record)
    requires |r.bytes| < U32
    ensures Le32(RecordHeader(r), 8) == |r.bytes|
  {
  }

  lemma HeaderSnapLen(snap: u32)
    ensures Le32(HeaderBytes(snap), 16) == snap
  {
  }

  lemma NextRecordReads(file: seq<byte>, s: Reader, r: Record, rest: seq<byte>)
    requires s.pos <= |file| && file[s.pos..] == RecordBytes(r) + rest && |r.bytes| <= s.snaplen
    ensures NextRecord(file, s) == (s.(pos := s.pos + |RecordBytes(r)|), Some(r.bytes))
    ensures s.pos + |RecordBytes(r)| <= |file| && file[s.pos + |RecordBytes(r)|..] == rest
  {
    hide RecordHeader, Le32;
    RecordHeaderLength(r);
    var tail, n := file[s.pos..], 16 + |r.bytes|;
    TailSlice(file, s.pos, 0, 16);
    TailSlice(file, s.pos, 16, n);
    TailSlice(file, s.pos, n, |tail|);
    assert tail[0..16] == RecordHeader(r) && tail[16..n] == r.bytes && tail[n..] == rest;
  }

  lemma TailSlice(file: seq<byte>, p: nat, i: nat, j: nat)
    requires p <= |file| && i <= j <= |file| - p
    ensures file[p + i..p + j] == file[p..][i..j]
  {
  }

  lemma {:induction false} RecordsReadBack(file: seq<byte>, s: Reader, rs: seq<Record>)
    requires s.pos <= |file| && !s.firstRead && file[s.pos..] == RecordsBytes(rs)
    requires forall i :: 0 <= i < |rs| ==> |rs[i].bytes| <= s.snaplen
    ensures Packets(file, s) == Payloads(rs)
    decreases |rs|
  {
    hide RecordBytes, NextRecord;
    if rs == [] {
      NothingToRead(file, s);
    } else {
      NextRecordReads(file, s, rs[0], RecordsBytes(rs[1..]));
      var t := s.(pos := s.pos + |RecordBytes(rs[0])|);
      assert Packets(file, s) == [rs[0].bytes] + Packets(file, t);
      hide Packets;
      RecordsReadBack(file, t, rs[1..]);
    }
  }

  lemma NothingToRead(file: seq<byte>, s: Reader)
    requires s.pos == |file| && !s.firstRead
    ensures Packets(file, s) == []
  {
  }

  /** Writer and reader undo each other. */
  lemma FileReadsBack(f: File, snap: u32)
    requires FileOk(f, snap)
    ensures Packets(FileBytes(f, snap), START) == Payloads(f.records)
  {
    hide HeaderBytes, Le32;
    var file := FileBytes(f, snap);
    if f.header {
      HeaderSnapLen(snap);
      assert file[0..24] == HeaderBytes(snap);
      var s := Reader(24, false, snap);
      assert Opened(file, START) == s;
      assert file[24..] == RecordsBytes(f.records);
      RecordsReadBack(file, s, f.records);
      assert Packets(file, START) == Packets(file, s);
    }
  }

  /** After any stream of messages, what each writer holds reads back as the packets accepted for its event. */
  lemma CaptureReadsBack(log: Log, snap: u32, ms: seq<Message>, i: nat)
    requires LogOk(log, snap) && i < |Consume(log, snap, ms).files|
    ensures Packets(FileBytes(Consume(log, snap, ms).files[i], snap), START) ==
      Payloads(Consume(log, snap, ms).files[i].records)
  {
    ConsumeOk(log, snap, ms);
    hide Consume, Packets, FileBytes;
    FileReadsBack(Consume(log, snap, ms).files[i], snap);
  }

  // ---------------------------------------------------------------------
  // What other readers find
  // ---------------------------------------------------------------------

  /** Where the header of record `i` starts. */
  function RecordStart(rs: seq<Record>, i: nat): nat
    requires i <= |rs|
  {
    if i == 0 then 24 else RecordStart(rs, i - 1) + 16 + |rs[i - 1].bytes|
  }

  /** The record at `o` of a file: seconds, microseconds, captured length, length on the wire, bytes. */
  ghost predicate Holds(file: seq<byte>, o: nat, r: Record) {
    && o + 16 + |r.bytes| <= |file|
    && Le32(file, o) == r.time / 1_000_000 && Le32(file, o + 4) == r.time % 1_000_000
    && Le32(file, o + 8) == |r.bytes| && Le32(file, o + 12) == r.origLen
    && file[o + 16..o + 16 + |r.bytes|] == r.bytes
  }

  lemma HeaderFieldsOf(r: Record)
    requires r.time / 1_000_000 < U32 && |r.bytes| < U32
    ensures var h := RecordHeader(r);
      && Le32(h, 0) == r.time / 1_000_000 && Le32(h, 4) == r.time % 1_000_000
      && Le32(h, 8) == |r.bytes| && Le32(h, 12) == r.origLen
  {
    MicrosExact(r.time);
    hide PutLe32, Le32, Micros;
    FourFields(PutLe32(Seconds(r.time)), PutLe32(Micros(r.time)), PutLe32(|r.bytes| % U32), PutLe32(r.origLen));
  }

  lemma FourFields(a: seq<byte>, b: seq<byte>, c: seq<byte>, d: seq<byte>)
    requires |a| == |b| == |c| == |d| == 4
    ensures var h := a + b + c + d;
      Le32(h, 0) == Le32(a, 0) && Le32(h, 4) == Le32(b, 0) && Le32(h, 8) == Le32(c, 0) && Le32(h, 12) == Le32(d, 0)
  {
    var h := a + b + c + d;
    hide Le32;
    assert h[0..4] == a[0..4] && h[4..8] == b[0..4] && h[8..12] == c[0..4] && h[12..16] == d[0..4];
    Le32At(h, 0, a, 0);
    Le32At(h, 4, b, 0);
    Le32At(h, 8, c, 0);
    Le32At(h, 12, d, 0);
  }

  /** Wherever a record's bytes lie, its fields are found there. */
  lemma RecordFound(file: seq<byte>, o: nat, r: Record)
    requires r.time / 1_000_000 < U32 && |r.bytes| < U32
    requires o + |RecordBytes(r)| <= |file| && file[o..o + |RecordBytes(r)|] == RecordBytes(r)
    ensures Holds(file, o, r)
  {
    HeaderFieldsOf(r);
    var h, all := RecordHeader(r), RecordBytes(r);
    assert all[0..16] == h && all[16..] == r.bytes;
    hide RecordHeader, RecordBytes, Le32;
    assert forall k :: 0 <= k < |all| ==> file[o + k] == all[k];
    assert file[o..o + 4] == h[0..4] && file[o + 4..o + 8] == h[4..8];
    assert file[o + 8..o + 12] == h[8..12] && file[o + 12..o + 16] == h[12..16];
    Le32At(file, o, h, 0);
    Le32At(file, o + 4, h, 4);
    Le32At(file, o + 8, h, 8);
    Le32At(file, o + 12, h, 12);
    assert file[o + 16..o + 16 + |r.bytes|] == all[16..];
  }

  /** The bytes of record `i` lie at its start. */
  lemma {:induction false} RecordLies(rs: seq<Record>, i: nat, head: seq<byte>)
    requires i < |rs| && |head| == 24
    ensures var file, o := head + RecordsBytes(rs), RecordStart(rs, i);
      o + |RecordBytes(rs[i])| <= |file| && file[o..o + |RecordBytes(rs[i])|] == RecordBytes(rs[i])
    decreases |rs|
  {
    hide RecordBytes;
    var last := |rs| - 1;
    var front := rs[..last];
    assert rs == front + [rs[last]];
    RecordsAppend(front, rs[last]);
    RecordsLength(front);
    SameStart(front, rs[last], i);
    if i < last {
      RecordLies(front, i, head);
      var a, b := head + RecordsBytes(front), RecordBytes(rs[last]);
      assert head + RecordsBytes(rs) == a + b;
      var o, n := RecordStart(front, i), |RecordBytes(rs[i])|;
      assert (a + b)[o..o + n] == a[o..o + n];
    } else {
      var a := head + RecordsBytes(front);
      assert head + RecordsBytes(rs) == a + RecordBytes(rs[last]) && RecordStart(rs, i) == |a|;
    }
  }

  lemma {:induction false} RecordsLength(rs: seq<Record>)
    ensures 24 + |RecordsBytes(rs)| == RecordStart(rs, |rs|)
  {
    if rs != [] {
      var front, r := rs[..|rs| - 1], rs[|rs| - 1];
      assert rs == front + [r];
      RecordsLength(front);
      RecordsAppend(front, r);
      SameStart(front, r, |front|);
    }
  }

  lemma {:induction false} SameStart(front: seq<Record>, r: Record, i: nat)
    requires i <= |front|
    ensures RecordStart(front + [r], i) == RecordStart(front, i)
  {
    if i > 0 {
      SameStart(front, r, i - 1);
    }
  }

  /**
   A written file as any reader of the format finds it: magic number a1b2c3d4 with version 2.4,
   no time zone correction, the snapshot length, link type 1, and every record with its fields.
   */
  lemma FileLayout(f: File, snap: u32, i: nat)
    requires FileOk(f, snap) && f.header
    requires forall k :: 0 <= k < |f.records| ==> f.records[k].time / 1_000_000 < U32
    ensures var file := FileBytes(f, snap);
      && |file| >= 24 && file[0..16] == [0xd4, 0xc3, 0xb2, 0xa1, 2, 0, 4, 0, 0, 0, 0, 0, 0, 0, 0, 0]
      && Le32(file, 16) == snap && file[20..24] == [1, 0, 0, 0]
      && (i < |f.records| ==> Holds(file, RecordStart(f.records, i), f.records[i]))
  {
    var file, head := FileBytes(f, snap), HeaderBytes(snap);
    HeaderLayout(snap);
    HeaderSnapLen(snap);
    hide HeaderBytes, Le32, Holds;
    assert file[0..24] == head && file[0..16] == head[0..16] && file[20..24] == head[20..24];
    assert file[16..20] == head[16..20];
    Le32At(file, 16, head, 16);
    if i < |f.records| {
      RecordLies(f.records, i, head);
      RecordFound(file, RecordStart(f.records, i), f.records[i]);
    }
  }

  lemma HeaderLayout(snap: u32)
    ensures HeaderBytes(snap)[0..16] == [0xd4, 0xc3, 0xb2, 0xa1, 2, 0, 4, 0, 0, 0, 0, 0, 0, 0, 0, 0]
    ensures HeaderBytes(snap)[20..24] == [1, 0, 0, 0]
  {
    assert PutLe32(MAGIC) == [0xd4, 0xc3, 0xb2, 0xa1];
    assert PutLe32(0) == [0, 0, 0, 0] && PutLe32(ETHERNET) == [1, 0, 0, 0];
    assert PutLe16(VERSION_MAJOR) == [2, 0] && PutLe16(VERSION_MINOR) == [4, 0];
    hide PutLe32, PutLe16;
  }
}
