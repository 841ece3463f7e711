/** The sending half of a connection, on the objects it updates in place. */
module Connections {
  import opened Bytes
  import opened WritableSequences
  import opened WriteQueue
  import opened OperatingSystem
  import WriteQueueInvariant
  import ConnectionRuns
  import Compaction

  /** The callbacks of a log, without the ghost part of it. */
  ghost function Outcomes(log: seq<Fired>): (r: seq<(nat, SendResult)>)
  {
    seq(|log|, i requires 0 <= i < |log| => (log[i].cb, log[i].result))
  }

  function WithResult(cbs: seq<nat>, result: SendResult): (r: seq<(nat, SendResult)>)
  {
    seq(|cbs|, i requires 0 <= i < |cbs| => (cbs[i], result))
  }

  lemma OutcomesFired(log: seq<Fired>, cbs: seq<nat>, result: SendResult, wireLen: nat)
    ensures Outcomes(log + FiredAll(cbs, result, wireLen)) == Outcomes(log) + WithResult(cbs, result)
  {
  }

  /** What the operating system was handed: descriptors of the front item, and the bytes it
      is to find behind them, which start at `start` within the item. */
  datatype AsyncOp = AsyncOp(span: Span, start: nat, data: Buffer)

  class Connection {
    var queue: seq<WritableSequence>
    var running: bool
    var sendsEnabled: bool
    var shutdownCalled: bool
    var sendCount: nat
    /** The callbacks and the shutdown handler run so far. */
    var fired: seq<(nat, SendResult)>
    var shutdowns: seq<ShutdownReason>
    const socket: Socket
    const watchdog: OperationWatchdog

    /** The state as a value, and the asynchronous write in progress. */
    ghost var st: Conn
    ghost var op: AsyncOp
    ghost var Repr: set<object>

    /** The objects are there and apart from each other. */
    ghost predicate Shape()
      reads this, Repr
    {
      && this in Repr && socket in Repr && watchdog in Repr
      && queue != []
      && (forall i :: 0 <= i < |queue| ==> queue[i] in Repr && queue[i].asioBufs in Repr && queue[i].Valid())
      && (forall i, j :: 0 <= i < j < |queue| ==> queue[i] != queue[j] && queue[i].asioBufs != queue[j].asioBufs)
    }

    /** The fields say what the state value says. */
    ghost predicate Coupled()
      reads this, Repr
      requires Shape()
    {
      && socket.Valid()
      && |st.queue| == |queue|
      && (forall i :: 0 <= i < |queue| ==> st.queue[i] == Item(queue[i].bufs, queue[i].cbs))
      && st.running == running && st.sendsEnabled == sendsEnabled && st.shutdownCalled == shutdownCalled
      && st.key == watchdog.timeoutKey
      && st.wire == socket.wire && st.calls == socket.calls
      && st.shutdowns == shutdowns && |st.sends| == sendCount
      && fired == Outcomes(st.fired)
    }

    /** Reading through the descriptors of the write in progress still gives its bytes. */
    ghost predicate OpOk()
      reads this, Repr
      requires Shape()
    {
      st.outstanding ==>
        && running && |queue| >= 2
        && op.span.first + op.span.count <= queue[0].asioBufs.Length
        && var ds := queue[0].asioBufs[op.span.first..op.span.first + op.span.count];
           && AllInRange(ds, queue[0].bufs)
           && Pointed(ds, queue[0].bufs) == op.data
           && op.start <= st.frontDone
           && op.start <= |Flatten(queue[0].bufs)|
           && op.data == Flatten(queue[0].bufs)[op.start..]
    }

    ghost predicate Rep()
      reads this, Repr
    {
      Shape() && Coupled() && OpOk()
    }

    ghost predicate Valid()
      reads this, Repr
    {
      Rep() && WriteQueueInvariant.Inv(st)
    }

    constructor (answers: nat -> WriteResult)
      ensures Valid() && fresh(Repr)
      ensures st == INITIAL && socket.oracle == answers
    {
      var first := new WritableSequence();
      var s := new Socket(answers);
      var w := new OperationWatchdog();
      queue, running, sendsEnabled, shutdownCalled, sendCount := [first], false, true, false, 0;
      fired, shutdowns := [], [];
      socket, watchdog := s, w;
      st, op := INITIAL, AsyncOp(Span(0, 0), 0, []);
      Repr := {this, s, w, first, first.asioBufs};
      new;
      hide OpOk, WriteQueueInvariant.Inv;
      StartsValid();
    }

    lemma StartsValid()
      requires Shape() && Coupled() && st == INITIAL
      ensures Valid()
    {
      hide WriteQueueInvariant.Inv, Shape, Coupled;
      ConnectionRuns.InitialInv();
    }

    // ---------- The queue ----------

    method PushEmpty()
      requires Rep()
      modifies this
      ensures Rep() && op == old(op) && fresh(Repr - old(Repr)) && |st.queue| == |queue|
      ensures queue[..|queue| - 1] == old(queue)
      ensures st == old(st).(queue := old(st.queue) + [EMPTY])
    {
      var item := new WritableSequence();
      queue := queue + [item];
      Repr := Repr + {item, item.asioBufs};
      st := st.(queue := st.queue + [EMPTY]);
    }

    method CompactBack()
      requires Rep() && |queue| >= 2 && st.queue[|queue| - 1].bufs != []
      modifies Repr
      ensures Rep() && op == old(op) && Repr == old(Repr) && queue == old(queue) && |st.queue| == |queue|
      ensures var back := old(st.queue)[|queue| - 1];
              st == old(st).(queue := old(st.queue)[|queue| - 1 :=
                      Item(Compaction.Compact(back.bufs, CONCATENATED_BUFFER_MAX_SIZE), back.cbs)])
    {
      var back := queue[|queue| - 1];
      back.ConcatSmallBuffers();
      st := st.(queue := st.queue[|queue| - 1 := Item(back.bufs, back.cbs)]);
    }

    method AppendToBack(buf: Buffer)
      requires Rep() && |st.queue[|queue| - 1].bufs| + 1 <= MAX_SEQ_LENGTH
      requires st.outstanding ==> |queue| >= 2
      modifies Repr
      ensures Rep() && op == old(op) && Repr == old(Repr) && queue == old(queue) && |st.queue| == |queue|
      ensures var back := old(st.queue)[|queue| - 1];
              st == old(st).(queue := old(st.queue)[|queue| - 1 := Item(back.bufs + [buf], back.cbs)],
                             taken := old(st.taken) + buf)
    {
      hide Outcomes;
      var back := queue[|queue| - 1];
      back.AppendBuffer(buf);
      st := st.(queue := st.queue[|queue| - 1 := Item(back.bufs, back.cbs)], taken := st.taken + buf);
    }

    method AttachToBack(cb: nat)
      requires Rep()
      modifies Repr
      ensures Rep() && op == old(op) && Repr == old(Repr) && queue == old(queue)
      ensures st == AttachCb(old(st), cb)
    {
      hide Outcomes;
      var back := queue[|queue| - 1];
      back.AppendCompletionCb(cb);
      st := AttachCb(st, cb);
    }

    method BackCanAppend() returns (can: bool)
      requires Rep()
      ensures |st.queue| == |queue| && can == (|st.queue[|queue| - 1].bufs| + 1 <= MAX_SEQ_LENGTH)
    {
      can := queue[|queue| - 1].CanAppendBuffer();
    }

    /** Compacts the full back item, and adds a new one if that has freed nothing. */
    method SqueezeBack()
      requires Rep() && |queue| >= 2 && st.queue[|queue| - 1].bufs != []
      modifies Repr
      ensures Rep() && op == old(op) && fresh(Repr - old(Repr)) && |st.queue| == |queue| >= 2
      ensures st == old(st).(queue := Squeezed(old(st.queue)))
    {
      assert this in Repr && |st.queue| == |queue|;
      hide Shape, OpOk, Coupled, Compaction.Compact;
      CompactBack();
      var canAppend := BackCanAppend();
      if !canAppend {
        PushEmpty();
      }
    }

    /** Makes sure that the back item can take one more buffer. */
    method MakeRoom()
      requires Rep()
      modifies Repr
      ensures Rep() && op == old(op) && fresh(Repr - old(Repr)) && |st.queue| == |queue| > 0
      ensures st.outstanding ==> |queue| >= 2
      ensures st == old(st).(queue := WithRoom(old(st.queue)))
    {
      assert this in Repr && queue != [] && |st.queue| == |queue|;
      assert st.outstanding ==> |queue| >= 2;
      hide Shape, OpOk, Coupled, Squeezed;
      var canAppend := BackCanAppend();
      if !canAppend {
        if |queue| <= 1 {
          PushEmpty();
        } else {
          SqueezeBack();
        }
      }
    }

    method AppendOutgoingBuffer(buf: Buffer)
      requires Rep()
      modifies Repr
      ensures Rep() && op == old(op) && fresh(Repr - old(Repr))
      ensures st == Enqueue(old(st), buf)
    {
      assert this in Repr && queue != [] && |st.queue| == |queue|;
      hide Rep, Shape, Coupled, OpOk, WithRoom;
      RoomThenAppend(st.queue, buf);
      MakeRoom();
      AppendToBack(buf);
    }

    // ---------- Writing ----------

    method TryAggressiveWrite(buf: Buffer, aggressive: bool) returns (more: bool)
      requires Rep()
      modifies Repr
      ensures Rep() && op == old(op) && fresh(Repr - old(Repr))
      ensures (st, more) == TryAggressive(socket.oracle, old(st), buf, aggressive)
    {
      more := aggressive && !running;
      if more {
        if QUICK_SYNC_WRITE_SIZE <= |buf| {
          AppendOutgoingBuffer(buf);
          return false;
        }
        var r := WriteNow(buf);
        if r.transferred == |buf| {
          return true;
        }
        if r.transferred != 0 {
          AppendOutgoingBuffer(buf[r.transferred..]);
          return false;
        }
        assert buf[0..] == buf;
      }
      AppendOutgoingBuffer(buf);
      more := false;
    }

    method WriteNow(buf: Buffer) returns (r: WriteResult)
      requires Rep()
      modifies Repr
      ensures Rep() && op == old(op) && Repr == old(Repr)
      ensures r == SyncWrite(socket.oracle, old(st.calls), |buf|)
      ensures var sent := buf[..r.transferred];
              st == old(st).(calls := old(st.calls) + 1, wire := old(st.wire) + sent, taken := old(st.taken) + sent)
    {
      hide Outcomes;
      r := socket.Write(buf);
      ghost var sent := buf[..r.transferred];
      st := st.(calls := st.calls + 1, wire := st.wire + sent, taken := st.taken + sent);
    }

    method FreezeFirst()
      requires Rep()
      modifies this
      ensures Rep() && op == old(op) && fresh(Repr - old(Repr))
      ensures st == Freeze(old(st)) && |queue| >= 2 && queue[0] == old(queue[0])
    {
      if 1 == |queue| {
        PushEmpty();
      }
    }

    /** The descriptors of the front item cover all it still has to write. */
    ghost predicate FrontShown(span: Span)
      reads this, Repr
      requires Shape()
    {
      && span.first + span.count <= queue[0].asioBufs.Length
      && AllInRange(queue[0].asioBufs[span.first..span.first + span.count], queue[0].bufs)
      && st.frontDone <= |Flatten(queue[0].bufs)|
      && Pointed(queue[0].asioBufs[span.first..span.first + span.count], queue[0].bufs)
         == Flatten(queue[0].bufs)[st.frontDone..]
    }

    /** Hands the descriptors of `span` to the operating system and returns at once. */
    method StartAsyncWrite(span: Span)
      requires Rep() && !running && st.queue[0].bufs != []
      requires FrontShown(span)
      modifies Repr
      ensures Rep() && fresh(Repr - old(Repr))
      ensures st == StartAsync(old(st))
    {
      FreezeFirst();
      BeginOp(span);
    }

    method BeginOp(span: Span)
      requires Rep() && !running && |queue| >= 2
      requires FrontShown(span)
      modifies Repr
      ensures Rep() && Repr == old(Repr)
      ensures st == old(st).(key := old(st.key) + 1, opKey := old(st.key) + 1, issued := old(st.issued) + {old(st.key) + 1},
                             outstanding := true, running := true)
    {
      hide Outcomes;
      var key := watchdog.StartWatchOperation();
      running := true;
      op := AsyncOp(span, st.frontDone, Flatten(queue[0].bufs)[st.frontDone..]);
      st := st.(key := key, opKey := key, issued := st.issued + {key}, outstanding := true, running := true);
    }

    method RunCallbacks(result: SendResult, cbs: seq<nat>)
      modifies this`fired
      ensures fired == old(fired) + WithResult(cbs, result)
    {
      for i := 0 to |cbs|
        invariant fired == old(fired) + WithResult(cbs[..i], result)
      {
        fired := fired + [(cbs[i], result)];
        assert cbs[..i + 1][..i] == cbs[..i];
      }
      assert cbs[..|cbs|] == cbs;
    }

    method RunSendCompletionCallbacks(result: SendResult, cbs: seq<nat>)
      requires Rep()
      modifies this
      ensures Rep() && op == old(op) && Repr == old(Repr) && queue == old(queue)
      ensures st == Fire(old(st), cbs, result)
    {
      RunCallbacks(result, cbs);
      OutcomesFired(st.fired, cbs, result, |st.wire|);
      st := Fire(st, cbs, result);
    }

    method ShutdownImpl(reason: ShutdownReason)
      requires Rep()
      modifies Repr
      ensures Rep() && op == old(op) && Repr == old(Repr) && queue == old(queue)
      ensures st == DoShutdown(old(st), reason)
    {
      if !shutdownCalled {
        sendsEnabled := false;
        watchdog.CancelWatchOperation();
        shutdowns := shutdowns + [reason];
        shutdownCalled := true;
        st := DoShutdown(st, reason);
      }
    }

    method HandleError(ec: ErrorCode)
      requires Rep()
      modifies Repr
      ensures Rep() && op == old(op) && Repr == old(Repr) && queue == old(queue)
      ensures st == HandleIoError(old(st), ec)
    {
      if ec == Aborted {
        return;
      }
      var reason := IoErrorReason;
      if ec == Eof {
        reason := EofReason;
      }
      ShutdownImpl(reason);
    }

    method InitiateWriteIfNecessary()
      requires Rep() && (!running ==> st.frontDone == 0)
      modifies Repr
      ensures Rep() && fresh(Repr - old(Repr))
      ensures st == Initiate(socket.oracle, old(st))
      ensures old(running) ==> op == old(op)
      decreases NonEmptyItems(st.queue), 2
    {
      if running {
        return;
      }
      var span, total := PrepareFront();
      if span.count == 0 {
        return;
      }
      if QUICK_SYNC_WRITE_SIZE >= total {
        SyncWriteFront(span, total);
      } else {
        StartAsyncWrite(span);
      }
    }

    method PrepareFront() returns (span: Span, total: nat)
      requires Rep() && !running && st.frontDone == 0
      modifies Repr
      ensures Rep() && Repr == old(Repr) && st == old(st) && running == old(running)
      ensures FrontShown(span) && span.count == |st.queue[0].bufs| && total == |Flatten(st.queue[0].bufs)|
    {
      span, total := queue[0].AsioBufs();
    }

    method SyncWriteFront(span: Span, total: nat)
      requires Rep() && !running && st.frontDone == 0 && FrontShown(span)
      requires st.queue[0].bufs != [] && QUICK_SYNC_WRITE_SIZE >= total == |Flatten(st.queue[0].bufs)|
      modifies Repr
      ensures Rep() && fresh(Repr - old(Repr))
      ensures st == Initiate(socket.oracle, old(st))
      decreases NonEmptyItems(st.queue), 1
    {
      assert st.queue[0].bufs == queue[0].bufs;
      InitiateBySyncWrite(socket.oracle, st);
      hide Coupled, OpOk, NonEmptyItems, Initiate, StartAsync;
      var r := GatherWrite(span);
      if r.ec != WouldBlock || r.transferred >= total {
        CompleteOperationNow(if r.ec != WouldBlock then r.ec else OtherError);
      } else {
        var rest := SkipWritten(span, r.transferred);
        StartAsyncWrite(rest);
      }
    }

    /** Ends a synchronous write the way an asynchronous one ends. */
    method CompleteOperationNow(ec: ErrorCode)
      requires Rep() && st.queue != [] && st.queue[0].bufs != [] && !st.outstanding
      modifies Repr
      ensures Rep() && fresh(Repr - old(Repr))
      ensures st == WriteQueue.AfterWrite(socket.oracle, Freeze(old(st)), ec)
      decreases NonEmptyItems(st.queue), 0, 1
    {
      FreezeAddsNothing(st.queue);
      hide Coupled, OpOk, NonEmptyItems, WriteQueue.AfterWrite;
      FreezeFirst();
      AfterWrite(ec);
    }

    /** A synchronous write through the descriptors of the front item. */
    method GatherWrite(span: Span) returns (r: WriteResult)
      requires Rep() && !running && st.frontDone == 0 && FrontShown(span)
      modifies this, socket
      ensures Rep() && Repr == old(Repr) && queue == old(queue) && running == old(running)
      ensures !st.outstanding && st.queue != [] && st.queue[0].bufs == queue[0].bufs
      ensures r == SyncWrite(socket.oracle, old(st.calls), |Flatten(old(st).queue[0].bufs)|)
      ensures st == Written(old(st), r.transferred)
    {
      var data := Pointed(queue[0].asioBufs[span.first..span.first + span.count], queue[0].bufs);
      assert data == Flatten(st.queue[0].bufs);
      r := socket.Write(data);
      st := Written(st, r.transferred);
    }

    method SkipWritten(span: Span, transferred: nat) returns (rest: Span)
      requires Rep() && !running && st.frontDone == transferred < |Flatten(queue[0].bufs)|
      requires span.first + span.count <= queue[0].asioBufs.Length
      requires AllInRange(queue[0].asioBufs[span.first..span.first + span.count], queue[0].bufs)
      requires Pointed(queue[0].asioBufs[span.first..span.first + span.count], queue[0].bufs) == Flatten(queue[0].bufs)
      modifies Repr
      ensures Rep() && Repr == old(Repr) && st == old(st) && running == old(running)
      ensures FrontShown(rest)
    {
      rest := SkipTransferredPart(queue[0].asioBufs, span, transferred, queue[0].bufs);
    }

    method AfterWrite(ec: ErrorCode)
      requires Rep() && |queue| >= 2 && st.queue[0].bufs != [] && !st.outstanding
      modifies Repr
      ensures Rep() && fresh(Repr - old(Repr))
      ensures st == WriteQueue.AfterWrite(socket.oracle, old(st), ec)
      decreases NonEmptyItems(st.queue), 0, 0
    {
      assert |st.queue| == |queue|;
      if ec != NoError {
        ConcludeFailure(ec);
      } else {
        ConcludeSuccess();
        InitiateWriteIfNecessary();
      }
    }

    method ConcludeFailure(ec: ErrorCode)
      requires Rep() && !st.outstanding
      modifies Repr
      ensures Rep() && Repr == old(Repr)
      ensures st == WriteFailed(old(st), ec)
    {
      var cbs := queue[0].cbs;
      assert st.queue[0].cbs == cbs;
      CancelWatch();
      FlagFailure(ec);
      HandleError(ec);
      RunSendCompletionCallbacks(IoFailure, cbs);
    }

    ghost method FlagFailure(ec: ErrorCode)
      requires Rep() && !st.outstanding
      modifies this`st
      ensures Rep() && st == old(st).(failed := true, aborted := ec == Aborted)
    {
      st := st.(failed := true, aborted := ec == Aborted);
    }

    method ConcludeSuccess()
      requires Rep() && |queue| >= 2 && !st.outstanding
      modifies Repr
      ensures Rep() && Repr == old(Repr) && !running && |queue| == |st.queue|
      ensures st == WriteSucceeded(old(st))
    {
      var cbs := queue[0].cbs;
      assert st.queue[0].cbs == cbs;
      CancelWatch();
      RunSendCompletionCallbacks(Success, cbs);
      PopFront();
    }

    method CancelWatch()
      requires Rep()
      modifies this, watchdog
      ensures Rep() && Repr == old(Repr) && queue == old(queue)
      ensures st == old(st).(key := old(st.key) + 1)
    {
      hide Outcomes;
      watchdog.CancelWatchOperation();
      st := st.(key := st.key + 1);
    }

    method PopFront()
      requires Rep() && |queue| >= 2 && !st.outstanding
      modifies this
      ensures Rep() && Repr == old(Repr) && !running
      ensures st == old(st).(queue := old(st.queue)[1..], frontDone := 0, running := false)
    {
      queue := queue[1..];
      running := false;
      st := st.(queue := st.queue[1..], frontDone := 0, running := false);
    }

    // ---------- The strand steps ----------

    /** Each step keeps the connection valid and does what the state machine says. */
    method ScheduleSend(bufs: seq<Buffer>, withCb: bool)
      requires Valid()
      modifies Repr
      ensures Valid() && fresh(Repr - old(Repr))
      ensures st == ConnectionRuns.Step(socket.oracle, old(st), Send(bufs, withCb))
      ensures old(st.outstanding) ==> op == old(op) && st.outstanding
    {
      ConnectionRuns.StepKeepsInv(socket.oracle, st, Send(bufs, withCb));
      SendKeepsOp(socket.oracle, st, bufs, withCb);
      hide WriteQueueInvariant.Inv, OpOk;
      if !sendsEnabled {
        RejectSend(bufs, withCb);
      } else {
        AcceptSend(bufs, withCb);
      }
    }

    method RejectSend(bufs: seq<Buffer>, withCb: bool)
      requires Rep() && !sendsEnabled
      modifies Repr
      ensures Rep() && op == old(op) && Repr == old(Repr)
      ensures st == DoSend(socket.oracle, old(st), bufs, withCb)
    {
      var me := sendCount;
      RecordSend(bufs, withCb, false);
      if withCb {
        RunSendCompletionCallbacks(Rejected, [me]);
      }
    }

    method AcceptSend(bufs: seq<Buffer>, withCb: bool)
      requires Rep() && sendsEnabled && (!running ==> st.frontDone == 0)
      modifies Repr
      ensures Rep() && fresh(Repr - old(Repr))
      ensures st == DoSend(socket.oracle, old(st), bufs, withCb)
      ensures old(running) ==> op == old(op)
    {
      assert st.sendsEnabled && st.running == running;
      TryAllSame(socket.oracle, st, bufs, true);
      hide OpOk, Outcomes, TryAll;
      var allAggressive := TryBuffers(bufs);
      RecordSend(bufs, withCb, true);
      ConcludeSend(allAggressive, withCb);
    }

    method ConcludeSend(allAggressive: bool, withCb: bool)
      requires Rep() && |st.sends| == sendCount > 0 && st.queue != [] && (!running ==> st.frontDone == 0)
      modifies Repr
      ensures Rep() && fresh(Repr - old(Repr))
      ensures var s := old(st);
              var me := |s.sends| - 1;
              st == if allAggressive then (if withCb then Fire(s, [me], Success) else s)
                    else Initiate(socket.oracle, if withCb then AttachCb(s, me) else s)
      ensures old(running) ==> op == old(op)
    {
      assert st.running == running;
      hide OpOk, Outcomes, Initiate;
      if !allAggressive {
        if withCb {
          AttachToBack(sendCount - 1);
        }
        InitiateWriteIfNecessary();
      } else if withCb {
        RunSendCompletionCallbacks(Success, [sendCount - 1]);
      }
    }

    method RecordSend(bufs: seq<Buffer>, withCb: bool, taken: bool)
      requires Rep()
      modifies this
      ensures Rep() && op == old(op) && Repr == old(Repr) && queue == old(queue)
      ensures st == old(st).(sends := old(st.sends) + [SendRecord(bufs, withCb, taken)])
    {
      sendCount := sendCount + 1;
      st := st.(sends := st.sends + [SendRecord(bufs, withCb, taken)]);
    }

    method TryBuffers(bufs: seq<Buffer>) returns (aggressive: bool)
      requires Rep()
      modifies Repr
      ensures Rep() && op == old(op) && fresh(Repr - old(Repr))
      ensures (st, aggressive) == TryAll(socket.oracle, old(st), bufs, true)
    {
      aggressive := true;
      assert bufs[0..] == bufs;
      assert st.queue != [];
      for i := 0 to |bufs|
        invariant Rep() && op == old(op) && fresh(Repr - old(Repr)) && st.queue != []
        invariant TryAll(socket.oracle, st, bufs[i..], aggressive) == TryAll(socket.oracle, old(st), bufs, true)
      {
        hide Shape, Coupled, OpOk, TryAggressive;
        assert bufs[i..][0] == bufs[i] && bufs[i..][1..] == bufs[i + 1..];
        aggressive := TryAggressiveWrite(bufs[i], aggressive);
      }
    }

    /** The operating system takes up to `n` more bytes from behind the descriptors. */
    ghost method AsyncProgress(n: nat)
      requires Valid() && st.outstanding
      modifies this, socket
      ensures Valid() && st == ConnectionRuns.Step(socket.oracle, old(st), Event.AsyncProgress(n))
    {
      ConnectionRuns.StepKeepsInv(socket.oracle, st, Event.AsyncProgress(n));
      TakeFromOp(n);
    }

    /** What the descriptors show from where the write has got to. */
    ghost function RestOfOp(): (data: Buffer)
      reads this, Repr
      requires Rep() && st.outstanding && st.queue != [] && st.frontDone <= |Flatten(st.queue[0].bufs)|
      ensures data == Flatten(st.queue[0].bufs)[st.frontDone..]
    {
      SameTail(Flatten(queue[0].bufs), op.start, st.frontDone);
      op.data[st.frontDone - op.start..]
    }

    ghost method TakeFromOp(n: nat)
      requires Rep() && st.outstanding && st.frontDone <= |Flatten(st.queue[0].bufs)|
      modifies this`st, socket`wire
      ensures Rep() && st == Progress(old(st), n)
    {
      var data := RestOfOp();
      hide Rep;
      TakeIsProgress(st, data, n);
      Took(data[..if n <= |data| then n else |data|]);
    }

    ghost method Took(data: Buffer)
      requires Rep()
      modifies this`st, socket`wire
      ensures Rep() && st == old(st).(wire := old(st.wire) + data, frontDone := old(st.frontDone) + |data|)
    {
      hide Outcomes;
      socket.Take(data);
      st := st.(wire := st.wire + data, frontDone := st.frontDone + |data|);
    }

    /** The completion handler of an asynchronous write. */
    method AsyncDone(ec: ErrorCode)
      requires Valid() && st.outstanding
      modifies Repr
      ensures Valid() && fresh(Repr - old(Repr))
      ensures st == ConnectionRuns.Step(socket.oracle, old(st), Event.AsyncDone(ec))
    {
      ConnectionRuns.StepKeepsInv(socket.oracle, st, Event.AsyncDone(ec));
      ConnectionRuns.OutstandingAnswered(st);
      ConnectionRuns.AnsweredRuns(st);
      hide WriteQueueInvariant.Inv, Rep, Complete;
      FinishWrite(ec);
    }

    method FinishWrite(ec: ErrorCode)
      requires Rep() && st.outstanding
      requires |st.queue| >= 2 && st.queue[0].bufs != [] && st.frontDone <= |Flatten(st.queue[0].bufs)|
      modifies Repr
      ensures Rep() && fresh(Repr - old(Repr))
      ensures st == Complete(socket.oracle, old(st), ec)
    {
      hide Coupled, OpOk, Flatten;
      if ec == NoError {
        TakeFromOp(|Flatten(st.queue[0].bufs)|);
      }
      FinishOp();
      AfterWrite(ec);
    }

    ghost method FinishOp()
      requires Rep()
      modifies this`st
      ensures Rep() && st == old(st).(outstanding := false) && |queue| == |st.queue|
    {
      st := st.(outstanding := false);
    }

    method HandleWriteOperationTimeout(timeoutKey: nat)
      requires Valid() && timeoutKey in st.issued
      modifies Repr
      ensures Valid() && Repr == old(Repr)
      ensures st == ConnectionRuns.Step(socket.oracle, old(st), Timeout(timeoutKey))
    {
      ConnectionRuns.StepKeepsInv(socket.oracle, st, Timeout(timeoutKey));
      hide WriteQueueInvariant.Inv;
      if running && timeoutKey == watchdog.timeoutKey {
        ShutdownImpl(WriteTimeout);
      }
    }

    /** A read has failed. */
    method ReadError(ec: ErrorCode)
      requires Valid() && ec != NoError
      modifies Repr
      ensures Valid() && Repr == old(Repr)
      ensures st == ConnectionRuns.Step(socket.oracle, old(st), ReadFailed(ec))
    {
      ShutdownSteps(socket.oracle, st, ec);
      hide WriteQueueInvariant.Inv, Rep, ConnectionRuns.Step, HandleIoError;
      HandleError(ec);
    }

    method Shutdown()
      requires Valid()
      modifies Repr
      ensures Valid() && Repr == old(Repr)
      ensures st == ConnectionRuns.Step(socket.oracle, old(st), Event.Shutdown)
    {
      ShutdownSteps(socket.oracle, st, OtherError);
      hide WriteQueueInvariant.Inv, Rep, ConnectionRuns.Step, DoShutdown;
      ShutdownImpl(UserInitiated);
    }

    /** The destructor. */
    method HandleRemainingWriteQueue()
      requires Valid()
      modifies Repr
      ensures fired == Outcomes(Destroy(old(st)).fired)
    {
      hide WriteQueueInvariant.Inv, OpOk, Outcomes;
      var firstSize := FrontSize();
      if 1 < |queue| || 0 < firstSize {
        if running {
          ghost var log := st.fired + FiredAll(st.queue[0].cbs, IoFailure, |st.wire|);
          ReportRunning();
          DropQueue(st.queue[1..], log, |st.wire|);
        } else {
          DropQueue(st.queue, st.fired, |st.wire|);
        }
      }
    }

    method FrontSize() returns (size: nat)
      requires Rep()
      modifies Repr
      ensures Shape() && Coupled() && st == old(st) && size == |Flatten(st.queue[0].bufs)|
    {
      var _, total := queue[0].AsioBufs();
      size := total;
    }

    /** The rest of the queue holds these items, as far as callbacks go. */
    ghost predicate HoldsCbs(q: seq<Item>)
      reads this, queue
    {
      |q| == |queue| && forall i :: 0 <= i < |q| ==> q[i].cbs == queue[i].cbs
    }

    method ReportRunning()
      requires HoldsCbs(st.queue) && queue != [] && fired == Outcomes(st.fired)
      modifies this`queue, this`fired
      ensures HoldsCbs(st.queue[1..])
      ensures fired == Outcomes(st.fired + FiredAll(st.queue[0].cbs, IoFailure, |st.wire|))
    {
      OutcomesFired(st.fired, st.queue[0].cbs, IoFailure, |st.wire|);
      RunCallbacks(IoFailure, queue[0].cbs);
      queue := queue[1..];
    }

    method DropQueue(ghost q: seq<Item>, ghost log: seq<Fired>, ghost wireLen: nat)
      requires HoldsCbs(q) && fired == Outcomes(log)
      modifies this`queue, this`fired
      ensures queue == [] && fired == Outcomes(log + FiredAll(CbsOf(q), DidntSend, wireLen))
    {
      ghost var done: seq<nat> := [];
      ghost var rest := q;
      while queue != []
        invariant HoldsCbs(rest)
        invariant done + CbsOf(rest) == CbsOf(q)
        invariant fired == Outcomes(log) + WithResult(done, DidntSend)
        decreases |queue|
      {
        RunCallbacks(DidntSend, queue[0].cbs);
        assert done + rest[0].cbs + CbsOf(rest[1..]) == done + CbsOf(rest);
        done := done + rest[0].cbs;
        rest := rest[1..];
        queue := queue[1..];
      }
      assert done == CbsOf(q);
      OutcomesFired(log, done, DidntSend, wireLen);
    }
  }

  /** The steps that do nothing but shut down. */
  lemma ShutdownSteps(o: Oracle, s: Conn, ec: ErrorCode)
    requires WriteQueueInvariant.Inv(s) && ec != NoError
    ensures ConnectionRuns.Step(o, s, Event.Shutdown) == DoShutdown(s, UserInitiated)
    ensures ConnectionRuns.Step(o, s, ReadFailed(ec)) == HandleIoError(s, ec)
    ensures WriteQueueInvariant.Inv(DoShutdown(s, UserInitiated)) && WriteQueueInvariant.Inv(HandleIoError(s, ec))
  {
    hide WriteQueueInvariant.Inv;
    ConnectionRuns.StepKeepsInv(o, s, Event.Shutdown);
    ConnectionRuns.StepKeepsInv(o, s, ReadFailed(ec));
  }

  lemma SameTail(s: Buffer, a: nat, b: nat)
    requires a <= b <= |s|
    ensures s[a..][b - a..] == s[b..]
  {
  }

  /** Progress takes the next bytes of what is left of the front item. */
  lemma TakeIsProgress(s: Conn, data: Buffer, n: nat)
    requires s.queue != [] && s.frontDone <= |Flatten(s.queue[0].bufs)|
    requires data == Flatten(s.queue[0].bufs)[s.frontDone..]
    ensures var k := if n <= |data| then n else |data|;
            Progress(s, n) == s.(wire := s.wire + data[..k], frontDone := s.frontDone + k)
  {
  }

  lemma {:induction false} TryAllSame(o: Oracle, s: Conn, bufs: seq<Buffer>, aggressive: bool)
    requires s.queue != []
    ensures WriteQueueInvariant.SameBut(s, TryAll(o, s, bufs, aggressive).0)
    decreases |bufs|
  {
    if bufs != [] {
      hide AppendOutgoing;
      var (s1, aggressive1) := TryAggressive(o, s, bufs[0], aggressive);
      TryAllSame(o, s1, bufs[1..], aggressive1);
    }
  }

  lemma SendKeepsOp(o: Oracle, s: Conn, bufs: seq<Buffer>, withCb: bool)
    requires WriteQueueInvariant.Inv(s)
    ensures s.outstanding ==> s.running && DoSend(o, s, bufs, withCb).outstanding
    ensures !s.running && s.sendsEnabled ==> s.frontDone == 0
  {
    hide WriteQueueInvariant.Conserved, WriteQueueInvariant.CallbacksOk, WriteQueueInvariant.WatchdogOk;
    TryAllSame(o, s, bufs, true);
  }

  function Squeezed(q: seq<Item>): (r: seq<Item>)
    requires q != []
    ensures r != []
  {
    var back := q[|q| - 1];
    var packed := Compaction.Compact(back.bufs, CONCATENATED_BUFFER_MAX_SIZE);
    var q' := q[|q| - 1 := Item(packed, back.cbs)];
    if |packed| + 1 <= MAX_SEQ_LENGTH then q' else q' + [EMPTY]
  }

  /** The queue after room has been made for one more buffer. */
  function WithRoom(q: seq<Item>): (r: seq<Item>)
    requires q != []
    ensures r != []
    ensures |r[|r| - 1].bufs| + 1 <= MAX_SEQ_LENGTH
  {
    if |q[|q| - 1].bufs| + 1 <= MAX_SEQ_LENGTH then q
    else if |q| <= 1 then q + [EMPTY]
    else Squeezed(q)
  }

  lemma RoomThenAppend(q: seq<Item>, buf: Buffer)
    requires q != []
    ensures var r := WithRoom(q);
            var back := r[|r| - 1];
            AppendOutgoing(q, buf) == r[|r| - 1 := Item(back.bufs + [buf], back.cbs)]
  {
    assert [] + [buf] == [buf];
  }
}
