/** How the write queue empties, and what a failed write leaves behind. */
module Draining {
  import opened Bytes
  import opened WriteQueue
  import opened QueueLemmas
  import opened WriteQueueInvariant
  import opened ConnectionRuns
  import ConnectionTheorems

  // ---------- Every completion shortens the queue ----------

  lemma {:induction false} InitiateShrinks(o: Oracle, s: Conn)
    requires s.queue != []
    ensures Initiate(o, s).failed || NonEmptyItems(Initiate(o, s).queue) <= NonEmptyItems(s.queue)
    decreases NonEmptyItems(s.queue), 1
  {
    if !s.running && s.queue[0].bufs != [] {
      var size := |Flatten(s.queue[0].bufs)|;
      FreezeAddsNothing(s.queue);
      hide AfterWrite;
      if QUICK_SYNC_WRITE_SIZE >= size {
        var r := SyncWrite(o, s.calls, size);
        InitiateBySyncWrite(o, s);
        hide Initiate;
        if r.ec != WouldBlock || r.transferred >= size {
          var ec := if r.ec != WouldBlock then r.ec else OtherError;
          AfterWriteShrinks(o, Freeze(Written(s, r.transferred)), ec);
        }
      }
    }
  }

  lemma {:induction false} AfterWriteShrinks(o: Oracle, s: Conn, ec: ErrorCode)
    requires |s.queue| >= 2 && s.queue[0].bufs != []
    ensures AfterWrite(o, s, ec).failed || NonEmptyItems(AfterWrite(o, s, ec).queue) < NonEmptyItems(s.queue)
    decreases NonEmptyItems(s.queue), 0
  {
    if ec == NoError {
      hide Initiate;
      InitiateShrinks(o, WriteSucceeded(s));
    }
  }

  /** The operating system reports `n` writes complete, one after the other. */
  function Completions(n: nat): (events: seq<Event>)
    ensures |events| == n
  {
    seq(n, _ => AsyncDone(NoError))
  }

  /** A write that completes leaves fewer items to write, unless a further write fails. */
  lemma CompletionShrinks(o: Oracle, s: Conn)
    requires Inv(s)
    ensures var s' := Step(o, s, AsyncDone(NoError));
            && (s.failed ==> s'.failed)
            && (s'.failed || s'.queue == [EMPTY] || NonEmptyItems(s'.queue) < NonEmptyItems(s.queue))
  {
    if s.outstanding {
      OutstandingAnswered(s);
      AnsweredRuns(s);
      hide Inv, AfterWrite;
      var size := |Flatten(s.queue[0].bufs)|;
      AfterWriteShrinks(o, Progress(s, size).(outstanding := false), NoError);
    } else {
      hide CallbacksOk, Conserved, WatchdogOk, Complete, DoSend;
    }
  }

  lemma OneMoreCompletion(events: seq<Event>, n: nat)
    ensures events + Completions(n + 1) == events + Completions(n) + [AsyncDone(NoError)]
    ensures events + Completions(0) == events
  {
  }

  lemma {:induction false} CompletionsShrink(o: Oracle, events: seq<Event>, n: nat)
    ensures var s, s' := Run(o, events), Run(o, events + Completions(n));
            && s'.sends == s.sends
            && (s'.failed || s'.queue == [EMPTY] || NonEmptyItems(s'.queue) + n <= NonEmptyItems(s.queue))
    decreases n
  {
    hide Inv, Run, NonEmptyItems, Step, Completions;
    if n == 0 {
      OneMoreCompletion(events, 0);
    } else {
      OneMoreCompletion(events, n - 1);
      CompletionsShrink(o, events, n - 1);
      RunSnoc(o, events + Completions(n - 1), AsyncDone(NoError));
      var before := Run(o, events + Completions(n - 1));
      CompletionShrinks(o, before);
      OnlySendsAreLogged(o, before, AsyncDone(NoError));
      if before.queue == [EMPTY] {
        EmptyStays(o, before);
      }
    }
  }

  lemma EmptyStays(o: Oracle, s: Conn)
    requires Inv(s) && s.queue == [EMPTY]
    ensures Step(o, s, AsyncDone(NoError)) == s
  {
    hide CallbacksOk, WatchdogOk;
  }

  /** Completions empty the queue, one for each item in it that has buffers: then all that
      was accepted is on the wire, unless a further write has failed. */
  lemma CompletionsEmptyTheQueue(o: Oracle, events: seq<Event>, n: nat)
    requires n >= NonEmptyItems(Run(o, events).queue)
    ensures var s, s' := Run(o, events), Run(o, events + Completions(n));
            s'.failed || (s'.queue == [EMPTY] && s'.wire == TakenBytes(s.sends))
  {
    var s' := Run(o, events + Completions(n));
    hide Inv, Run, NonEmptyItems, Completions, BytesOf, TakenBytes;
    CompletionsShrink(o, events, n);
    ConnectionTheorems.BytesAreConserved(o, events + Completions(n));
    if !s'.failed && s'.queue != [EMPTY] {
      NothingToWriteIsEmpty(s');
    }
  }

  lemma NothingToWriteIsEmpty(s: Conn)
    requires Inv(s) && !s.failed && NonEmptyItems(s.queue) == 0
    ensures s.queue == [EMPTY]
  {
    hide CallbacksOk, WatchdogOk;
    if s.outstanding {
      OutstandingAnswered(s);
    }
  }

  // ---------- A willing socket ----------

  lemma {:induction false} WillingInitiate(o: Oracle, s: Conn)
    requires s.queue != [] && forall n :: o(n).ec == NoError
    ensures Initiate(o, s).failed == s.failed
    decreases NonEmptyItems(s.queue), 1
  {
    if !s.running && s.queue[0].bufs != [] && QUICK_SYNC_WRITE_SIZE >= |Flatten(s.queue[0].bufs)| {
      var r := SyncWrite(o, s.calls, |Flatten(s.queue[0].bufs)|);
      FreezeAddsNothing(s.queue);
      WillingAfterWrite(o, Freeze(Written(s, r.transferred)));
    }
  }

  lemma {:induction false} WillingAfterWrite(o: Oracle, s: Conn)
    requires |s.queue| >= 2 && s.queue[0].bufs != [] && forall n :: o(n).ec == NoError
    ensures AfterWrite(o, s, NoError).failed == s.failed
    decreases NonEmptyItems(s.queue), 0
  {
    hide Initiate;
    WillingInitiate(o, WriteSucceeded(s));
  }

  lemma WillingCompletion(o: Oracle, s: Conn)
    requires Inv(s) && forall i :: o(i).ec == NoError
    ensures Step(o, s, AsyncDone(NoError)).failed == s.failed
  {
    if s.outstanding {
      AnsweredRuns(s);
      OutstandingAnswered(s);
      hide Inv, AfterWrite;
      WillingAfterWrite(o, Progress(s, |Flatten(s.queue[0].bufs)|).(outstanding := false));
    }
  }

  lemma {:induction false} WillingCompletions(o: Oracle, events: seq<Event>, n: nat)
    requires forall i :: o(i).ec == NoError
    ensures Run(o, events + Completions(n)).failed == Run(o, events).failed
    decreases n
  {
    hide Inv, Run, Step, Completions;
    if n == 0 {
      OneMoreCompletion(events, 0);
    } else {
      OneMoreCompletion(events, n - 1);
      WillingCompletions(o, events, n - 1);
      RunSnoc(o, events + Completions(n - 1), AsyncDone(NoError));
      WillingCompletion(o, Run(o, events + Completions(n - 1)));
    }
  }

  /** With a socket that takes everything, the queue of any state without a failed write is
      empty, and all of it written, after that many completions. */
  lemma WillingSocketDrains(o: Oracle, events: seq<Event>, n: nat)
    requires forall i :: o(i).ec == NoError
    ensures var s, s' := Run(o, events), Run(o, events + Completions(n));
            !s.failed && n >= NonEmptyItems(s.queue) ==> s'.queue == [EMPTY] && s'.wire == TakenBytes(s.sends)
  {
    if n >= NonEmptyItems(Run(o, events).queue) {
      WillingCompletions(o, events, n);
      CompletionsEmptyTheQueue(o, events, n);
    }
  }

  /** What can be written at once, without waiting: items of at most 64 KiB. */
  ghost predicate AllSmall(q: seq<Item>)
  {
    forall i :: 0 <= i < |q| ==> |Flatten(q[i].bufs)| <= 65536
  }

  lemma {:induction false} WillingDrain(o: Oracle, s: Conn)
    requires QueueOk(s.queue) && !s.running && forall n :: o(n).ec == NoError
    ensures Initiate(o, s).queue == [EMPTY] <==> AllSmall(s.queue)
    decreases NonEmptyItems(s.queue)
  {
    if s.queue[0].bufs == [] {
      assert s.queue == [EMPTY];
    } else {
      var size := |Flatten(s.queue[0].bufs)|;
      if size <= QUICK_SYNC_WRITE_SIZE {
        var r := SyncWrite(o, s.calls, size);
        InitiateBySyncWrite(o, s);
        FreezeAddsNothing(s.queue);
        var s1 := WriteSucceeded(Freeze(Written(s, r.transferred)));
        FrozenTail(s.queue);
        hide Initiate, AllSmall;
        WillingDrain(o, s1);
        assert Initiate(o, s) == Initiate(o, s1);
      } else {
        assert !AllSmall(s.queue);
      }
    }
  }

  lemma FrozenTail(q: seq<Item>)
    requires QueueOk(q) && q[0].bufs != [] && |Flatten(q[0].bufs)| <= 65536
    ensures var rest := Frozen(q)[1..];
            QueueOk(rest) && NonEmptyItems(rest) < NonEmptyItems(q) && (AllSmall(rest) <==> AllSmall(q))
  {
    FreezeAddsNothing(q);
    var r := Frozen(q);
    assert Flatten(EMPTY.bufs) == [];
    assert forall i :: 1 <= i < |r| ==> r[1..][i - 1] == r[i];
    assert forall i :: 0 <= i < |q| ==> q[i] == r[i];
  }

  /** A completion empties the queue at once, with a socket that takes everything, exactly if
      no item behind the completed one is too large for a synchronous write. */
  lemma OneCompletionDoes(o: Oracle, events: seq<Event>)
    requires forall n :: o(n).ec == NoError
    ensures var s, s' := Run(o, events), Run(o, events + [AsyncDone(NoError)]);
            s.outstanding ==> |s.queue| >= 2 && (s'.queue == [EMPTY] <==> AllSmall(s.queue[1..]))
  {
    var s := Run(o, events);
    RunSnoc(o, events, AsyncDone(NoError));
    if s.outstanding {
      hide Run, AllSmall;
      AnsweredRuns(s);
      OutstandingAnswered(s);
      TailOk(s);
      var s1 := WriteSucceeded(Progress(s, |Flatten(s.queue[0].bufs)|).(outstanding := false));
      hide Inv, Initiate;
      WillingDrain(o, s1);
      assert Step(o, s, AsyncDone(NoError)) == Initiate(o, s1);
    }
  }

  lemma TailOk(s: Conn)
    requires Inv(s) && |s.queue| >= 2
    ensures QueueOk(s.queue[1..])
  {
  }

  // ---------- After a failed write ----------

  /** Nothing is written any more once a write has failed, whatever happens. */
  lemma {:induction false} NothingIsWrittenAfterFailure(o: Oracle, events: seq<Event>, more: seq<Event>)
    ensures var s, s' := Run(o, events), Run(o, events + more); s.failed ==> s'.failed && s'.wire == s.wire
    decreases |more|
  {
    if more == [] {
      assert events + more == events;
    } else {
      hide Inv, Run, Step;
      var n := |more| - 1;
      assert events + more == events + more[..n] + [more[n]];
      NothingIsWrittenAfterFailure(o, events, more[..n]);
      RunSnoc(o, events + more[..n], more[n]);
      FailedStep(o, Run(o, events + more[..n]), more[n]);
    }
  }

  lemma FailedStep(o: Oracle, s: Conn, e: Event)
    requires Inv(s)
    ensures s.failed ==> Step(o, s, e).failed && Step(o, s, e).wire == s.wire
  {
    hide Conserved, CallbacksOk, WatchdogOk, Settled, Complete, Progress, TryAll, Initiate;
    if s.failed && e.Send? {
      TryAllKeepsQueue(o, s, e.bufs, true);
      if s.sendsEnabled {
        ConnectionTheorems.TryAllRunning(o, s, e.bufs, true);
        var (s1, _) := TryAll(o, s, e.bufs, true);
        RunningInitiates(o, s1.(sends := s1.sends + [SendRecord(e.bufs, e.withCb, true)]), |s.sends|);
      }
    }
  }

  lemma RunningInitiates(o: Oracle, s: Conn, cb: nat)
    requires s.queue != [] && s.running
    ensures Initiate(o, s) == s && Initiate(o, AttachCb(s, cb)) == AttachCb(s, cb)
  {
  }

  /** A send too large for a direct write starts an asynchronous one. */
  lemma LargeSendWaits(o: Oracle, big: Buffer)
    requires |big| > QUICK_SYNC_WRITE_SIZE
    ensures var s := DoSend(o, INITIAL, [big], true);
            && s.queue == [Item([big], [0]), EMPTY] && s.running && s.outstanding && s.sendsEnabled
            && s.wire == [] && s.frontDone == 0 && s.sends == [SendRecord([big], true, true)]
  {
    assert [] + [big] == [big] && [] + [0] == [0];
    var q := AppendOutgoing([EMPTY], big);
    assert q == [Item([big], [])];
    assert TryAll(o, INITIAL, [big], true) == (Enqueue(INITIAL, big), false);
    assert Attach(q, 0) == [Item([big], [0])];
    FlattenOne(big);
  }

  /** The one way to go on sending after a failed write: an asynchronous write is cancelled
      though nobody has shut the connection down. Later sends are accepted, but they are
      never written. */
  lemma CancelledWriteStrands(o: Oracle, big: Buffer, next: Buffer, more: seq<Event>)
    requires |big| > QUICK_SYNC_WRITE_SIZE
    ensures var events := [Send([big], true), AsyncDone(Aborted), Send([next], true)];
            var s := Run(o, events);
            && s.failed && s.aborted && s.sendsEnabled && !s.outstanding
            && s.queue == [Item([big], [0]), Item([next], [1])]
            && s.sends == [SendRecord([big], true, true), SendRecord([next], true, true)]
            && Run(o, events + more).wire == []
  {
    var e1, e2, e3 := Send([big], true), AsyncDone(Aborted), Send([next], true);
    hide Inv, DoSend, Complete, Run;
    NothingIsWrittenAfterFailure(o, [e1, e2, e3], more);
    LargeSendWaits(o, big);
    FirstEvent(o, e1);
    var s1, s2 := Run(o, [e1]), Run(o, [e1, e2]);
    assert [e1] + [e2] == [e1, e2] && [e1, e2] + [e3] == [e1, e2, e3];
    RunSnoc(o, [e1], e2);
    RunSnoc(o, [e1, e2], e3);
    CancelledWrite(o, s1);
    QueuedSend(o, s2, next);
  }

  lemma FirstEvent(o: Oracle, e: Event)
    ensures Inv(INITIAL) && Run(o, [e]) == Step(o, INITIAL, e)
  {
    hide Inv, Step;
    InitialInv();
    RunSnoc(o, [], e);
    assert [] + [e] == [e];
  }

  lemma CancelledWrite(o: Oracle, s: Conn)
    requires Inv(s) && s.outstanding
    ensures var s' := Step(o, s, AsyncDone(Aborted));
            && s'.failed && s'.aborted && !s'.outstanding && s'.running && s'.wire == s.wire
            && s'.queue == s.queue && s'.sends == s.sends && s'.sendsEnabled == s.sendsEnabled
  {
    OutstandingAnswered(s);
    AnsweredRuns(s);
  }

  lemma QueuedSend(o: Oracle, s: Conn, next: Buffer)
    requires |s.queue| >= 2 && s.queue[|s.queue| - 1] == EMPTY && s.running && s.sendsEnabled
    ensures var s' := DoSend(o, s, [next], true);
            && s' == s.(queue := s'.queue, taken := s'.taken, sends := s.sends + [SendRecord([next], true, true)])
            && s'.queue == s.queue[..|s.queue| - 1] + [Item([next], [|s.sends|])]
  {
    var q := s.queue[..|s.queue| - 1];
    assert [] + [next] == [next] && [] + [|s.sends|] == [|s.sends|];
    assert AppendOutgoing(s.queue, next) == q + [Item([next], [])];
    assert TryAll(o, s, [next], true) == (Enqueue(s, next), false);
    assert Attach(q + [Item([next], [])], |s.sends|) == q + [Item([next], [|s.sends|])];
  }
}
