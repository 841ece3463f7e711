/** The outgoing side of a connection as a state machine on values: what every strand step
    does to the write queue, the socket, the callbacks and the watchdog key. */
module WriteQueue {
  import opened Bytes
  import opened WritableSequences
  import Compaction

  const QUICK_SYNC_WRITE_SIZE: nat := 64 * 1024

  datatype ErrorCode = NoError | WouldBlock | Eof | Aborted | OtherError

  datatype WriteResult = WriteResult(transferred: nat, ec: ErrorCode)

  /** The operating system: its answer to the n-th synchronous write. */
  type Oracle = nat -> WriteResult

  datatype SendResult = Success | IoFailure | DidntSend | Rejected

  datatype ShutdownReason = UserInitiated | IoErrorReason | EofReason | WriteTimeout

  /** A callback run, and how many bytes had reached the socket by then. */
  datatype Fired = Fired(cb: nat, result: SendResult, wireLen: nat)

  datatype Item = Item(bufs: seq<Buffer>, cbs: seq<nat>)

  /** One call to send. Its callback, if it has one, is identified by its position. */
  datatype SendRecord = SendRecord(bufs: seq<Buffer>, withCb: bool, taken: bool)

  datatype Conn = Conn(
    // The connection's own fields.
    queue: seq<Item>,
    running: bool,
    sendsEnabled: bool,
    shutdownCalled: bool,
    key: nat,
    // The asynchronous write in progress, and timeout events that may still be delivered.
    outstanding: bool,
    opKey: nat,
    issued: set<nat>,
    // How far the front item has been written, and whether a write has failed.
    frontDone: nat,
    failed: bool,
    aborted: bool,
    // Logs.
    calls: nat,
    wire: Buffer,
    taken: Buffer,
    sends: seq<SendRecord>,
    fired: seq<Fired>,
    shutdowns: seq<ShutdownReason>)

  const EMPTY := Item([], [])

  const INITIAL := Conn([EMPTY], false, true, false, 0, false, 0, {}, 0, false, false, 0, [], [], [], [], [])

  datatype Event =
    | Send(bufs: seq<Buffer>, withCb: bool)
    | AsyncProgress(bytes: nat)
    | AsyncDone(ec: ErrorCode)
    | Timeout(key: nat)
    | ReadFailed(ec: ErrorCode)
    | Shutdown

  // ---------- Views of the queue ----------

  function BytesOf(q: seq<Item>): (r: Buffer)
  {
    if q == [] then [] else Flatten(q[0].bufs) + BytesOf(q[1..])
  }

  function CbsOf(q: seq<Item>): (r: seq<nat>)
  {
    if q == [] then [] else q[0].cbs + CbsOf(q[1..])
  }

  function NonEmptyItems(q: seq<Item>): (n: nat)
  {
    if q == [] then 0 else (if q[0].bufs != [] then 1 else 0) + NonEmptyItems(q[1..])
  }

  /** The accepted bytes that have not reached the socket. */
  function Pending(s: Conn): (r: Buffer)
    requires s.frontDone <= |BytesOf(s.queue)|
  {
    BytesOf(s.queue)[s.frontDone..]
  }

  /** The bytes of all accepted sends, in order. */
  function TakenBytes(sends: seq<SendRecord>): (r: Buffer)
  {
    if sends == [] then [] else
      var last := sends[|sends| - 1];
      TakenBytes(sends[..|sends| - 1]) + if last.taken then Flatten(last.bufs) else []
  }

  /** Where the bytes of send `cb` end in the stream of accepted bytes. */
  function EndOf(sends: seq<SendRecord>, cb: nat): (n: nat)
    requires cb < |sends|
  {
    |TakenBytes(sends[..cb + 1])|
  }

  function Ids(fired: seq<Fired>): (r: seq<nat>)
  {
    seq(|fired|, i requires 0 <= i < |fired| => fired[i].cb)
  }

  /** Every callback fired belongs to one of the first `n` sends. */
  predicate Known(fired: seq<Fired>, n: nat)
  {
    forall i :: 0 <= i < |fired| ==> fired[i].cb < n
  }

  /** The successes of sends that had at least one buffer, in firing order. */
  function Successes(fired: seq<Fired>, sends: seq<SendRecord>): (r: seq<nat>)
    requires Known(fired, |sends|)
  {
    if fired == [] then [] else
      var last := fired[|fired| - 1];
      Successes(fired[..|fired| - 1], sends)
      + if last.result == Success && sends[last.cb].bufs != [] then [last.cb] else []
  }

  ghost predicate Increasing(s: seq<nat>)
  {
    forall i, j :: 0 <= i < j < |s| ==> s[i] < s[j]
  }

  // ---------- Steps ----------

  /** What a synchronous write of `size` bytes may answer: no error only with everything
      written, and never a cancellation. */
  function SyncWrite(o: Oracle, call: nat, size: nat): (r: WriteResult)
    ensures r.transferred <= size && r.ec != Aborted
    ensures r.ec == NoError ==> r.transferred == size
  {
    var a := o(call);
    if a.ec == NoError || a.transferred > size
    then WriteResult(size, if a.ec == Aborted then OtherError else a.ec)
    else WriteResult(a.transferred, if a.ec == Aborted then OtherError else a.ec)
  }

  function AppendOutgoing(q: seq<Item>, buf: Buffer): (r: seq<Item>)
    requires q != []
  {
    var back := q[|q| - 1];
    var others := q[..|q| - 1];
    if |back.bufs| + 1 <= MAX_SEQ_LENGTH then
      others + [Item(back.bufs + [buf], back.cbs)]
    else if |q| <= 1 then
      q + [Item([buf], [])]
    else
      var packed := Compaction.Compact(back.bufs, CONCATENATED_BUFFER_MAX_SIZE);
      if |packed| + 1 <= MAX_SEQ_LENGTH then
        others + [Item(packed + [buf], back.cbs)]
      else
        others + [Item(packed, back.cbs), Item([buf], [])]
  }

  /** A buffer goes to the queue. */
  function Enqueue(s: Conn, buf: Buffer): (s': Conn)
    requires s.queue != []
  {
    s.(queue := AppendOutgoing(s.queue, buf), taken := s.taken + buf)
  }

  function TryAggressive(o: Oracle, s: Conn, buf: Buffer, aggressive: bool): (r: (Conn, bool))
    requires s.queue != []
  {
    if !aggressive || s.running || QUICK_SYNC_WRITE_SIZE <= |buf| then
      (Enqueue(s, buf), false)
    else
      var r := SyncWrite(o, s.calls, |buf|);
      var sent := buf[..r.transferred];
      var s1 := s.(calls := s.calls + 1, wire := s.wire + sent, taken := s.taken + sent);
      if r.transferred == |buf| then (s1, true)
      else (Enqueue(s1, buf[r.transferred..]), false)
  }

  function TryAll(o: Oracle, s: Conn, bufs: seq<Buffer>, aggressive: bool): (r: (Conn, bool))
    requires s.queue != []
    decreases |bufs|
  {
    if bufs == [] then (s, aggressive) else
      var (s1, aggressive1) := TryAggressive(o, s, bufs[0], aggressive);
      TryAll(o, s1, bufs[1..], aggressive1)
  }

  /** The log of running the callbacks `cbs` in order with one result. */
  function FiredAll(cbs: seq<nat>, result: SendResult, wireLen: nat): (r: seq<Fired>)
    ensures |r| == |cbs|
    ensures forall i :: 0 <= i < |r| ==> r[i] == Fired(cbs[i], result, wireLen)
  {
    if cbs == [] then [] else
      FiredAll(cbs[..|cbs| - 1], result, wireLen) + [Fired(cbs[|cbs| - 1], result, wireLen)]
  }

  function Fire(s: Conn, cbs: seq<nat>, result: SendResult): (s': Conn)
  {
    s.(fired := s.fired + FiredAll(cbs, result, |s.wire|))
  }

  function Attach(q: seq<Item>, cb: nat): (r: seq<Item>)
    requires q != []
  {
    var back := q[|q| - 1];
    q[|q| - 1 := Item(back.bufs, back.cbs + [cb])]
  }

  function AttachCb(s: Conn, cb: nat): (s': Conn)
    requires s.queue != []
  {
    s.(queue := Attach(s.queue, cb))
  }

  function DoShutdown(s: Conn, reason: ShutdownReason): (s': Conn)
  {
    if s.shutdownCalled then s else
      s.(sendsEnabled := false, key := s.key + 1, shutdownCalled := true, shutdowns := s.shutdowns + [reason])
  }

  function HandleIoError(s: Conn, ec: ErrorCode): (s': Conn)
  {
    if ec == Aborted then s
    else DoShutdown(s, if ec == Eof then EofReason else IoErrorReason)
  }

  /** Makes sure that the front item is not also the one that receives new buffers. */
  function Frozen(q: seq<Item>): (r: seq<Item>)
  {
    if |q| == 1 then q + [EMPTY] else q
  }

  function Freeze(s: Conn): (s': Conn)
  {
    s.(queue := Frozen(s.queue))
  }

  function StartAsync(s: Conn): (s': Conn)
  {
    Freeze(s.(key := s.key + 1, opKey := s.key + 1, issued := s.issued + {s.key + 1},
              outstanding := true, running := true))
  }

  /** The part of `AfterWrite` that ends a failed write. */
  function WriteFailed(s: Conn, ec: ErrorCode): (s': Conn)
    requires s.queue != []
  {
    Fire(HandleIoError(s.(key := s.key + 1, failed := true, aborted := ec == Aborted), ec), s.queue[0].cbs, IoFailure)
  }

  /** The part of `AfterWrite` that ends a successful write, before looking for more to do. */
  function WriteSucceeded(s: Conn): (s': Conn)
    requires s.queue != []
  {
    Fire(s.(key := s.key + 1), s.queue[0].cbs, Success).(queue := s.queue[1..], frontDone := 0, running := false)
  }

  /** A synchronous write has moved `transferred` bytes of the front item to the socket. */
  function Written(s: Conn, transferred: nat): (s': Conn)
    requires s.queue != [] && transferred <= |Flatten(s.queue[0].bufs)|
  {
    s.(calls := s.calls + 1, wire := s.wire + Flatten(s.queue[0].bufs)[..transferred], frontDone := transferred)
  }

  function Initiate(o: Oracle, s: Conn): (s': Conn)
    requires s.queue != []
    decreases NonEmptyItems(s.queue), 1
  {
    if s.running || s.queue[0].bufs == [] then s else
      var data := Flatten(s.queue[0].bufs);
      if QUICK_SYNC_WRITE_SIZE >= |data| then
        var r := SyncWrite(o, s.calls, |data|);
        var s1 := Written(s, r.transferred);
        FreezeAddsNothing(s.queue);
        if r.ec != WouldBlock then AfterWrite(o, Freeze(s1), r.ec)
        else if r.transferred >= |data| then AfterWrite(o, Freeze(s1), OtherError)
        else StartAsync(s1)
      else StartAsync(s)
  }

  function AfterWrite(o: Oracle, s: Conn, ec: ErrorCode): (s': Conn)
    requires |s.queue| >= 2 && s.queue[0].bufs != []
    decreases NonEmptyItems(s.queue), 0
  {
    if ec != NoError then WriteFailed(s, ec)
    else Initiate(o, WriteSucceeded(s))
  }

  lemma InitiateBySyncWrite(o: Oracle, s: Conn)
    requires s.queue != [] && !s.running && s.queue[0].bufs != []
    requires QUICK_SYNC_WRITE_SIZE >= |Flatten(s.queue[0].bufs)|
    ensures var size := |Flatten(s.queue[0].bufs)|;
            var r := SyncWrite(o, s.calls, size);
            var s1 := Written(s, r.transferred);
            Initiate(o, s) == if r.ec != WouldBlock then AfterWrite(o, Freeze(s1), r.ec)
                              else if r.transferred >= size then AfterWrite(o, Freeze(s1), OtherError)
                              else StartAsync(s1)
  {
    hide AfterWrite, StartAsync;
  }

  lemma {:induction false} NonEmptySnoc(q: seq<Item>)
    ensures NonEmptyItems(q + [EMPTY]) == NonEmptyItems(q)
  {
    if q == [] {
      assert (q + [EMPTY])[1..] == [];
    } else {
      assert (q + [EMPTY])[1..] == q[1..] + [EMPTY];
      NonEmptySnoc(q[1..]);
    }
  }

  lemma FreezeAddsNothing(q: seq<Item>)
    ensures NonEmptyItems(Frozen(q)) == NonEmptyItems(q)
  {
    NonEmptySnoc(q);
  }

  function DoSend(o: Oracle, s: Conn, bufs: seq<Buffer>, withCb: bool): (s': Conn)
    requires s.queue != []
  {
    var me := |s.sends|;
    if !s.sendsEnabled then
      var s1 := s.(sends := s.sends + [SendRecord(bufs, withCb, false)]);
      if withCb then Fire(s1, [me], Rejected) else s1
    else
      TryAllKeepsQueue(o, s, bufs, true);
      var (s1, allAggressive) := TryAll(o, s, bufs, true);
      var s2 := s1.(sends := s1.sends + [SendRecord(bufs, withCb, true)]);
      if allAggressive then (if withCb then Fire(s2, [me], Success) else s2)
      else Initiate(o, if withCb then AttachCb(s2, me) else s2)
  }

  lemma {:induction false} TryAllKeepsQueue(o: Oracle, s: Conn, bufs: seq<Buffer>, aggressive: bool)
    requires s.queue != []
    ensures var s1 := TryAll(o, s, bufs, aggressive).0;
            s1.queue != [] && s1.sends == s.sends && s1.sendsEnabled == s.sendsEnabled
    decreases |bufs|
  {
    if bufs != [] {
      hide AppendOutgoing;
      var (s1, aggressive1) := TryAggressive(o, s, bufs[0], aggressive);
      TryAllKeepsQueue(o, s1, bufs[1..], aggressive1);
    }
  }

  // ---------- The environment's side of an asynchronous write ----------

  /** The operating system takes up to `n` more bytes of the write in progress. */
  function Progress(s: Conn, n: nat): (s': Conn)
    requires s.queue != [] && s.frontDone <= |Flatten(s.queue[0].bufs)|
  {
    var data := Flatten(s.queue[0].bufs);
    var upTo := if s.frontDone + n <= |data| then s.frontDone + n else |data|;
    s.(wire := s.wire + data[s.frontDone..upTo], frontDone := upTo)
  }

  /** The completion of an asynchronous write: with no error the rest has been written too. */
  function Complete(o: Oracle, s: Conn, ec: ErrorCode): (s': Conn)
    requires |s.queue| >= 2 && s.queue[0].bufs != [] && s.frontDone <= |Flatten(s.queue[0].bufs)|
  {
    var s1 := if ec == NoError then Progress(s, |Flatten(s.queue[0].bufs)|) else s;
    AfterWrite(o, s1.(outstanding := false), ec)
  }

  /** A timeout event counts only while a write runs and the key is still current. */
  function HandleTimeout(s: Conn, key: nat): (s': Conn)
  {
    if s.running && key == s.key then DoShutdown(s, WriteTimeout) else s
  }

  /** The destructor: whatever is still queued is reported as not sent. */
  function Destroy(s: Conn): (s': Conn)
    requires s.queue != []
  {
    if 1 < |s.queue| || 0 < |Flatten(s.queue[0].bufs)| then
      if s.running then
        Fire(Fire(s, s.queue[0].cbs, IoFailure), CbsOf(s.queue[1..]), DidntSend).(queue := [])
      else
        Fire(s, CbsOf(s.queue), DidntSend).(queue := [])
    else s
  }
}
