/** What holds of a connection between any two strand steps, and why every step keeps it. */
module WriteQueueInvariant {
  import opened Bytes
  import opened WriteQueue
  import opened QueueLemmas

  /** Byte conservation: what was accepted is what reached the socket followed by what is
      still queued. */
  ghost predicate Conserved(s: Conn)
  {
    && QueueOk(s.queue)
    && s.frontDone <= |Flatten(s.queue[0].bufs)|
    && s.frontDone <= |BytesOf(s.queue)|
    && s.taken == s.wire + Pending(s)
  }

  ghost predicate StatusOk(s: Conn)
  {
    && (s.outstanding <==> s.running && !s.failed)
    && (s.running || s.failed ==> |s.queue| >= 2)
    && (!s.running && !s.failed ==> s.frontDone == 0)
    && (s.failed ==> !s.sendsEnabled || (s.running && s.aborted))
    && ShutdownOk(s)
  }

  /** Sends are refused from the one call of the shutdown handler on. */
  ghost predicate ShutdownOk(s: Conn)
  {
    && (s.shutdownCalled <==> !s.sendsEnabled)
    && |s.shutdowns| == if s.shutdownCalled then 1 else 0
  }

  /** Nothing is left lying in the queue with no write under way. */
  ghost predicate Settled(s: Conn)
  {
    !s.running && !s.failed ==> s.queue == [EMPTY]
  }

  /** The current key is the key of an event only while the write that issued it runs, and
      always then, until the shutdown. */
  ghost predicate WatchdogOk(s: Conn)
  {
    && (forall k <- s.issued :: k <= s.key)
    && (s.key in s.issued ==> s.outstanding && s.opKey == s.key)
    && (s.outstanding && !s.shutdownCalled ==> s.opKey == s.key && s.key in s.issued)
  }

  // ---------- Callbacks ----------

  ghost predicate QueuedCbOk(s: Conn, i: nat, cb: nat)
    requires i < |s.queue|
  {
    && cb < |s.sends|
    && s.sends[cb].withCb && s.sends[cb].taken && s.sends[cb].bufs != []
    && EndOf(s.sends, cb) + |BytesOf(s.queue[i + 1..])| <= |s.taken|
  }

  ghost predicate QueuedOk(s: Conn)
  {
    forall i, cb :: 0 <= i < |s.queue| && cb in s.queue[i].cbs ==> QueuedCbOk(s, i, cb)
  }

  ghost predicate FiredCbOk(s: Conn, f: Fired)
  {
    && f.cb < |s.sends| && s.sends[f.cb].withCb
    && f.wireLen <= |s.wire|
    && (f.result == Success ==> s.sends[f.cb].taken && (s.sends[f.cb].bufs != [] ==> EndOf(s.sends, f.cb) <= f.wireLen))
    && (f.result == Rejected <==> !s.sends[f.cb].taken)
    && (f.result == IoFailure ==> s.failed && s.queue != [] && f.cb in s.queue[0].cbs)
    && f.result != DidntSend
  }

  ghost predicate FiredOk(s: Conn)
  {
    forall f <- s.fired :: FiredCbOk(s, f)
  }

  /** Successes come in send order, and before everything still queued. */
  ghost predicate OrderOk(s: Conn)
  {
    && Known(s.fired, |s.sends|)
    && Increasing(Successes(s.fired, s.sends) + CbsOf(s.queue))
  }

  ghost function Occurrences(s: Conn, id: nat): nat
  {
    multiset(Ids(s.fired))[id] + multiset(CbsOf(s.queue))[id]
  }

  /** A callback of the first `n` sends is fired or queued: once as long as no write has
      failed. No other callback is either. */
  ghost predicate CountOk(s: Conn, n: nat)
  {
    forall id: nat ::
      if id < n && id < |s.sends| && s.sends[id].withCb
      then Occurrences(s, id) >= 1 && (!s.failed ==> Occurrences(s, id) == 1)
      else Occurrences(s, id) == 0
  }

  ghost predicate CallbacksOk(s: Conn)
  {
    QueuedOk(s) && FiredOk(s) && OrderOk(s) && CountOk(s, |s.sends|)
  }

  /** What also holds in the middle of a send. */
  ghost predicate Mid(s: Conn)
  {
    s.queue != [] && Conserved(s) && StatusOk(s) && WatchdogOk(s) && CallbacksOk(s)
  }

  ghost predicate Inv(s: Conn)
  {
    && Mid(s)
    && Settled(s)
    && s.taken == TakenBytes(s.sends)
  }

  /** Later states only add to the logs. */
  ghost predicate LogsGrow(s: Conn, s': Conn)
  {
    s.wire <= s'.wire && s.taken <= s'.taken && s.fired <= s'.fired && s.sends <= s'.sends && s.shutdowns <= s'.shutdowns
  }

  // ---------- Lemmas about the logs ----------

  lemma {:induction false} SuccessesSnoc(fired: seq<Fired>, f: Fired, sends: seq<SendRecord>)
    requires Known(fired + [f], |sends|)
    ensures Known(fired, |sends|) && f.cb < |sends|
    ensures Successes(fired + [f], sends) == Successes(fired, sends)
                + if f.result == Success && sends[f.cb].bufs != [] then [f.cb] else []
  {
    assert forall i :: 0 <= i < |fired| ==> (fired + [f])[i] == fired[i];
    assert (fired + [f])[|fired|] == f;
    assert (fired + [f])[..|fired|] == fired;
  }

  /** New records do not change what earlier ones mean. */
  lemma {:induction false} SuccessesStable(fired: seq<Fired>, sends: seq<SendRecord>, r: SendRecord)
    requires Known(fired, |sends|)
    ensures Successes(fired, sends + [r]) == Successes(fired, sends)
    decreases |fired|
  {
    if fired != [] {
      SuccessesStable(fired[..|fired| - 1], sends, r);
    }
  }

  lemma IdsConcat(a: seq<Fired>, cbs: seq<nat>, result: SendResult, wireLen: nat)
    ensures Ids(a + FiredAll(cbs, result, wireLen)) == Ids(a) + cbs
  {
  }

  /** Firing a list of callbacks of non-empty sends adds them to the successes, or none. */
  lemma {:induction false} SuccessesFired(fired: seq<Fired>, cbs: seq<nat>, result: SendResult, wireLen: nat, sends: seq<SendRecord>)
    requires Known(fired, |sends|)
    requires forall i :: 0 <= i < |cbs| ==> cbs[i] < |sends| && sends[cbs[i]].bufs != []
    ensures Known(fired + FiredAll(cbs, result, wireLen), |sends|)
    ensures Successes(fired + FiredAll(cbs, result, wireLen), sends)
         == Successes(fired, sends) + if result == Success then cbs else []
    decreases |cbs|
  {
    if cbs == [] {
      assert fired + FiredAll(cbs, result, wireLen) == fired;
    } else {
      var n := |cbs| - 1;
      SuccessesFired(fired, cbs[..n], result, wireLen, sends);
      var some := fired + FiredAll(cbs[..n], result, wireLen);
      var f := Fired(cbs[n], result, wireLen);
      assert fired + FiredAll(cbs, result, wireLen) == some + [f];
      assert cbs == cbs[..n] + [cbs[n]];
      SuccessesSnoc(some, f, sends);
    }
  }

  lemma TakenBytesSnoc(sends: seq<SendRecord>, r: SendRecord)
    ensures TakenBytes(sends + [r]) == TakenBytes(sends) + if r.taken then Flatten(r.bufs) else []
  {
    assert (sends + [r])[..|sends|] == sends;
  }

  lemma EndOfStable(sends: seq<SendRecord>, r: SendRecord, cb: nat)
    requires cb < |sends|
    ensures EndOf(sends + [r], cb) == EndOf(sends, cb)
  {
    assert (sends + [r])[..cb + 1] == sends[..cb + 1];
  }

  // ---------- Sending ----------

  lemma EnqueueKeepsCallbacks(s: Conn, buf: Buffer)
    requires QueueOk(s.queue) && CallbacksOk(s) && (s.failed ==> |s.queue| >= 2)
    ensures CallbacksOk(Enqueue(s, buf))
  {
    hide AppendOutgoing;
    var s' := Enqueue(s, buf);
    AppendKeepsShape(s.queue, buf);
    AppendKeepsContent(s.queue, buf);
    forall i, cb | 0 <= i < |s'.queue| && cb in s'.queue[i].cbs
      ensures QueuedCbOk(s', i, cb)
    {
      AppendBehind(s.queue, buf, i);
      assert QueuedCbOk(s, i, cb);
    }
    assert forall f <- s'.fired :: FiredCbOk(s, f);
    assert forall id :: Occurrences(s', id) == Occurrences(s, id);
  }

  lemma MoreAtTheEnd(taken: Buffer, wire: Buffer, all: Buffer, done: nat, more: Buffer)
    requires done <= |all| && taken == wire + all[done..]
    ensures taken + more == wire + (all + more)[done..]
  {
  }

  lemma EnqueueConserves(s: Conn, buf: Buffer)
    requires Conserved(s)
    ensures Conserved(Enqueue(s, buf))
  {
    hide QueueOk, AppendOutgoing, BytesOf;
    AppendKeepsShape(s.queue, buf);
    AppendKeepsContent(s.queue, buf);
    MoreAtTheEnd(s.taken, s.wire, BytesOf(s.queue), s.frontDone, buf);
  }

  lemma EnqueueKeeps(s: Conn, buf: Buffer)
    requires Mid(s)
    ensures Mid(Enqueue(s, buf))
    ensures var q := Enqueue(s, buf).queue; q[|q| - 1].bufs != [] && (s.running ==> q[0] == s.queue[0])
  {
    hide CallbacksOk, QueueOk, AppendOutgoing, BytesOf;
    EnqueueKeepsCallbacks(s, buf);
    EnqueueConserves(s, buf);
    AppendKeepsShape(s.queue, buf);
  }

  /** Bytes written straight to the socket while the queue is empty. */
  lemma DirectWriteKeeps(s: Conn, sent: Buffer)
    requires Mid(s) && Settled(s) && !s.running && !s.failed
    ensures Mid(s.(calls := s.calls + 1, wire := s.wire + sent, taken := s.taken + sent))
  {
    var s' := s.(calls := s.calls + 1, wire := s.wire + sent, taken := s.taken + sent);
    assert BytesOf(s.queue) == [];
    assert forall f <- s'.fired :: FiredCbOk(s, f);
    assert forall id :: Occurrences(s', id) == Occurrences(s, id);
  }

  /** What trying to send buffers leaves alone. */
  ghost predicate SameBut(s: Conn, s': Conn)
  {
    s' == s.(queue := s'.queue, taken := s'.taken, wire := s'.wire, calls := s'.calls)
  }

  lemma TryAggressiveKeeps(o: Oracle, s: Conn, buf: Buffer, aggressive: bool)
    requires Mid(s)
    requires aggressive && !s.running ==> Settled(s) && !s.failed
    ensures var (s1, more) := TryAggressive(o, s, buf, aggressive);
            && Mid(s1) && SameBut(s, s1) && s.wire <= s1.wire
            && s1.taken == s.taken + buf
            && (more ==> aggressive && !s.running && s1.queue == s.queue && Settled(s1) && !s1.failed)
            && (!more ==> s1.queue[|s1.queue| - 1].bufs != [])
            && (s.running ==> s1.queue[0] == s.queue[0])
  {
    hide Conserved, CallbacksOk, StatusOk, WatchdogOk, AppendOutgoing;
    if !aggressive || s.running || QUICK_SYNC_WRITE_SIZE <= |buf| {
      EnqueueKeeps(s, buf);
    } else {
      var r := SyncWrite(o, s.calls, |buf|);
      var sent := buf[..r.transferred];
      var s1 := s.(calls := s.calls + 1, wire := s.wire + sent, taken := s.taken + sent);
      DirectWriteKeeps(s, sent);
      assert s.taken + sent + buf[r.transferred..] == s.taken + buf;
      if r.transferred != |buf| {
        EnqueueKeeps(s1, buf[r.transferred..]);
      }
    }
  }

  lemma {:induction false} TryAllKeeps(o: Oracle, s: Conn, bufs: seq<Buffer>, aggressive: bool)
    requires Mid(s)
    requires aggressive && !s.running ==> Settled(s) && !s.failed
    requires !aggressive ==> s.queue[|s.queue| - 1].bufs != []
    ensures var (s1, more) := TryAll(o, s, bufs, aggressive);
            && Mid(s1) && SameBut(s, s1) && s.wire <= s1.wire
            && s1.taken == s.taken + Flatten(bufs)
            && (more ==> aggressive && s1.queue == s.queue && (bufs != [] ==> !s.running))
            && (!more ==> s1.queue[|s1.queue| - 1].bufs != [])
            && (s.running ==> s1.queue[0] == s.queue[0])
    decreases |bufs|
  {
    hide Conserved, CallbacksOk, StatusOk, WatchdogOk, Settled, TryAggressive;
    if bufs != [] {
      TryAggressiveKeeps(o, s, bufs[0], aggressive);
      var (s1, more) := TryAggressive(o, s, bufs[0], aggressive);
      TryAllKeeps(o, s1, bufs[1..], more);
      assert s.taken + bufs[0] + Flatten(bufs[1..]) == s.taken + Flatten(bufs);
    }
  }

  // ---------- Recording a send ----------

  lemma {:induction false} SuccessesBelow(fired: seq<Fired>, sends: seq<SendRecord>)
    requires Known(fired, |sends|)
    ensures forall x <- Successes(fired, sends) :: x < |sends|
    decreases |fired|
  {
    if fired != [] {
      SuccessesBelow(fired[..|fired| - 1], sends);
    }
  }

  lemma OrderedBelow(s: Conn)
    requires QueuedOk(s) && OrderOk(s)
    ensures forall x <- Successes(s.fired, s.sends) + CbsOf(s.queue) :: x < |s.sends|
  {
    SuccessesBelow(s.fired, s.sends);
    forall x | x in CbsOf(s.queue)
      ensures x < |s.sends|
    {
      var i := CbInQueue(s.queue, x);
      assert QueuedCbOk(s, i, x);
    }
  }

  ghost function Record(s: Conn, r: SendRecord): Conn
  {
    s.(sends := s.sends + [r])
  }

  lemma RecordKeeps(s: Conn, r: SendRecord)
    requires CallbacksOk(s) && s.queue != []
    ensures var s' := Record(s, r);
            && QueuedOk(s') && FiredOk(s') && OrderOk(s') && CountOk(s', |s.sends|)
            && Successes(s'.fired, s'.sends) == Successes(s.fired, s.sends)
  {
    var s' := Record(s, r);
    SuccessesStable(s.fired, s.sends, r);
    forall i, cb | 0 <= i < |s'.queue| && cb in s'.queue[i].cbs
      ensures QueuedCbOk(s', i, cb)
    {
      assert QueuedCbOk(s, i, cb);
      EndOfStable(s.sends, r, cb);
    }
    forall f | f in s'.fired
      ensures FiredCbOk(s', f)
    {
      assert FiredCbOk(s, f);
      EndOfStable(s.sends, r, f.cb);
    }
    assert forall id :: Occurrences(s', id) == Occurrences(s, id);
  }

  /** A send without a callback, or one that found nothing to report yet. */
  lemma RecordSilent(s: Conn, r: SendRecord)
    requires Mid(s) && !r.withCb
    ensures Mid(Record(s, r))
  {
    hide QueuedOk, FiredOk, OrderOk;
    RecordKeeps(s, r);
  }

  lemma IncreasingSnoc(s: seq<nat>, x: nat)
    requires Increasing(s) && forall y <- s :: y < x
    ensures Increasing(s + [x])
  {
    assert forall i :: 0 <= i < |s| ==> s[i] in s;
  }

  lemma FireOneKeepsFired(s: Conn, me: nat, result: SendResult)
    requires FiredOk(s) && FiredCbOk(s, Fired(me, result, |s.wire|))
    ensures FiredOk(Fire(s, [me], result))
  {
    var s' := Fire(s, [me], result);
    forall f | f in s'.fired
      ensures FiredCbOk(s', f)
    {
      assert f in s.fired || f == Fired(me, result, |s.wire|);
    }
  }

  lemma FireOneKeepsOrder(s: Conn, me: nat, result: SendResult)
    requires OrderOk(s) && me < |s.sends|
    requires result == Success && s.sends[me].bufs != [] ==>
               CbsOf(s.queue) == [] && forall x <- Successes(s.fired, s.sends) :: x < me
    ensures OrderOk(Fire(s, [me], result))
  {
    var f := Fired(me, result, |s.wire|);
    assert FiredAll([me], result, |s.wire|) == [f];
    SuccessesSnoc(s.fired, f, s.sends);
    var before := Successes(s.fired, s.sends);
    if result == Success && s.sends[me].bufs != [] {
      assert before + [] == before;
      IncreasingSnoc(before, me);
      assert before + [me] + [] == before + [me];
    } else {
      assert before + [] == before;
    }
  }

  lemma FireOneCounts(s: Conn, me: nat, result: SendResult)
    requires CountOk(s, me) && me < |s.sends| && s.sends[me].withCb
    ensures CountOk(Fire(s, [me], result), me + 1)
  {
    var s' := Fire(s, [me], result);
    IdsConcat(s.fired, [me], result, |s.wire|);
    assert forall id :: Occurrences(s', id) == Occurrences(s, id) + if id == me then 1 else 0;
  }

  /** A send whose callback runs at once. */
  lemma RecordFired(s: Conn, r: SendRecord, result: SendResult)
    requires Mid(s) && r.withCb
    requires (result == Success && r.taken) || (result == Rejected && !r.taken)
    requires r.taken && r.bufs != [] ==> |TakenBytes(s.sends + [r])| <= |s.wire| && CbsOf(s.queue) == []
    ensures Mid(Fire(Record(s, r), [|s.sends|], result))
  {
    var me := |s.sends|;
    var s1 := Record(s, r);
    RecordKeeps(s, r);
    OrderedBelow(s);
    assert s1.sends[..me + 1] == s.sends + [r];
    FireOneKeepsFired(s1, me, result);
    assert forall x <- Successes(s.fired, s.sends) :: x in Successes(s.fired, s.sends) + CbsOf(s.queue);
    FireOneKeepsOrder(s1, me, result);
    FireOneCounts(s1, me, result);
    assert QueuedOk(Fire(s1, [me], result)) by {
      assert forall i, cb :: 0 <= i < |s.queue| && cb in s.queue[i].cbs ==> QueuedCbOk(s1, i, cb);
    }
  }

  lemma AttachShape(q: seq<Item>, cb: nat)
    requires QueueOk(q) && q[|q| - 1].bufs != []
    ensures var r := Attach(q, cb);
            QueueOk(r) && |r| == |q| && BytesOf(r) == BytesOf(q) && CbsOf(r) == CbsOf(q) + [cb]
  {
    var n := |q| - 1;
    var r := Attach(q, cb);
    assert q == q[..n] + [q[n]] && r == q[..n] + [r[n]];
    OneItem(q[n]);
    OneItem(r[n]);
    BytesOfConcat(q[..n], [q[n]]);
    BytesOfConcat(q[..n], [r[n]]);
    CbsOfConcat(q[..n], [q[n]]);
    CbsOfConcat(q[..n], [r[n]]);
  }

  lemma AttachBehind(q: seq<Item>, cb: nat, i: nat)
    requires i < |q|
    ensures var r := Attach(q, cb);
            && |BytesOf(r[i + 1..])| == |BytesOf(q[i + 1..])|
            && r[i].cbs == q[i].cbs + if i == |q| - 1 then [cb] else []
  {
    var n := |q| - 1;
    var r := Attach(q, cb);
    if i < n {
      var between := q[i + 1..n];
      assert r[i + 1..] == between + [r[n]];
      assert q[i + 1..] == between + [q[n]];
      OneItem(r[n]);
      OneItem(q[n]);
      BytesOfConcat(between, [r[n]]);
      BytesOfConcat(between, [q[n]]);
    }
  }

  lemma AttachKeepsQueued(s: Conn, me: nat)
    requires QueueOk(s.queue) && s.queue[|s.queue| - 1].bufs != [] && QueuedOk(s)
    requires me < |s.sends| && EndOf(s.sends, me) <= |s.taken|
    requires s.sends[me].withCb && s.sends[me].taken && s.sends[me].bufs != []
    ensures QueuedOk(AttachCb(s, me))
  {
    var s' := AttachCb(s, me);
    forall i, cb | 0 <= i < |s'.queue| && cb in s'.queue[i].cbs
      ensures QueuedCbOk(s', i, cb)
    {
      AttachBehind(s.queue, me, i);
      if cb in s.queue[i].cbs {
        assert QueuedCbOk(s, i, cb);
      } else {
        assert s'.queue[i + 1..] == [];
      }
    }
  }

  lemma AttachKeepsFired(s: Conn, me: nat)
    requires QueueOk(s.queue) && FiredOk(s)
    ensures FiredOk(AttachCb(s, me))
  {
    var s' := AttachCb(s, me);
    forall f | f in s'.fired
      ensures FiredCbOk(s', f)
    {
      assert FiredCbOk(s, f);
    }
  }

  lemma AttachKeepsOrder(s: Conn, me: nat)
    requires QueueOk(s.queue) && s.queue[|s.queue| - 1].bufs != [] && OrderOk(s)
    requires forall x <- Successes(s.fired, s.sends) + CbsOf(s.queue) :: x < me
    ensures OrderOk(AttachCb(s, me))
  {
    AttachShape(s.queue, me);
    IncreasingSnoc(Successes(s.fired, s.sends) + CbsOf(s.queue), me);
    assert Successes(s.fired, s.sends) + (CbsOf(s.queue) + [me]) == Successes(s.fired, s.sends) + CbsOf(s.queue) + [me];
  }

  lemma AttachCounts(s: Conn, me: nat)
    requires s.queue != [] && QueueOk(s.queue) && s.queue[|s.queue| - 1].bufs != []
    requires CountOk(s, me) && me < |s.sends| && s.sends[me].withCb
    ensures CountOk(AttachCb(s, me), me + 1)
  {
    hide QueueOk, CbsOf, BytesOf;
    AttachShape(s.queue, me);
    forall id: nat
      ensures Occurrences(AttachCb(s, me), id) == Occurrences(s, id) + if id == me then 1 else 0
    {
      assert multiset(CbsOf(s.queue) + [me])[id] == multiset(CbsOf(s.queue))[id] + multiset([me])[id];
    }
  }

  lemma AttachKeepsCallbacks(s: Conn, me: nat)
    requires s.queue != [] && QueueOk(s.queue) && s.queue[|s.queue| - 1].bufs != []
    requires QueuedOk(s) && FiredOk(s) && OrderOk(s) && CountOk(s, me)
    requires |s.sends| == me + 1 && EndOf(s.sends, me) <= |s.taken|
    requires s.sends[me].withCb && s.sends[me].taken && s.sends[me].bufs != []
    requires forall x <- Successes(s.fired, s.sends) + CbsOf(s.queue) :: x < me
    ensures CallbacksOk(AttachCb(s, me))
  {
    hide QueuedOk, FiredOk, OrderOk, CountOk, QueueOk;
    AttachKeepsQueued(s, me);
    AttachKeepsFired(s, me);
    AttachKeepsOrder(s, me);
    AttachCounts(s, me);
  }

  lemma AttachKeepsRest(s: Conn, me: nat)
    requires Conserved(s) && StatusOk(s) && WatchdogOk(s) && s.queue[|s.queue| - 1].bufs != []
    ensures var s' := AttachCb(s, me); Conserved(s') && StatusOk(s') && WatchdogOk(s')
  {
    AttachShape(s.queue, me);
  }

  /** A send whose callback waits at the back of the queue. */
  lemma RecordQueued(s: Conn, r: SendRecord)
    requires Mid(s) && r.withCb && r.taken && r.bufs != []
    requires |TakenBytes(s.sends + [r])| <= |s.taken|
    requires s.queue[|s.queue| - 1].bufs != []
    ensures Mid(AttachCb(Record(s, r), |s.sends|))
  {
    hide QueuedOk, FiredOk, OrderOk, CountOk, QueueOk;
    var me := |s.sends|;
    var s1 := Record(s, r);
    RecordKeeps(s, r);
    assert forall x <- Successes(s1.fired, s1.sends) + CbsOf(s1.queue) :: x < me by {
      OrderedBelow(s);
    }
    assert s1.sends[..me + 1] == s.sends + [r];
    AttachKeepsCallbacks(s1, me);
    AttachKeepsRest(s1, me);
  }

  // ---------- Ending a write ----------

  /** A write has just been answered and nothing has been concluded from it yet. */
  ghost predicate Answered(s: Conn)
  {
    && Conserved(s) && CallbacksOk(s)
    && |s.queue| >= 2 && !s.failed && !s.outstanding
    && ShutdownOk(s)
    && (forall k <- s.issued :: k <= s.key)
  }

  lemma FireFrontKeepsFired(s: Conn, result: SendResult, s': Conn)
    requires QueuedOk(s) && FiredOk(s) && s.queue != []
    requires
      || (result == Success && |s.taken| - |BytesOf(s.queue[1..])| <= |s.wire|)
      || (result == IoFailure && s'.failed && s'.queue == s.queue)
    requires !s.failed
    requires s'.fired == s.fired + FiredAll(s.queue[0].cbs, result, |s.wire|)
    requires s'.wire == s.wire && s'.sends == s.sends
    ensures FiredOk(s')
  {
    forall f | f in s'.fired
      ensures FiredCbOk(s', f)
    {
      if f in s.fired {
        assert FiredCbOk(s, f);
      } else {
        assert f.cb in s.queue[0].cbs;
        assert QueuedCbOk(s, 0, f.cb);
      }
    }
  }

  lemma FrontCbsNonEmpty(s: Conn)
    requires QueuedOk(s) && s.queue != []
    ensures forall i :: 0 <= i < |s.queue[0].cbs| ==>
            s.queue[0].cbs[i] < |s.sends| && s.sends[s.queue[0].cbs[i]].bufs != []
  {
    forall i | 0 <= i < |s.queue[0].cbs|
      ensures s.queue[0].cbs[i] < |s.sends| && s.sends[s.queue[0].cbs[i]].bufs != []
    {
      assert QueuedCbOk(s, 0, s.queue[0].cbs[i]);
    }
  }

  lemma PopKeepsQueued(s: Conn)
    requires QueuedOk(s) && s.queue != []
    ensures QueuedOk(WriteSucceeded(s))
  {
    var s' := WriteSucceeded(s);
    forall i, cb | 0 <= i < |s'.queue| && cb in s'.queue[i].cbs
      ensures QueuedCbOk(s', i, cb)
    {
      assert QueuedCbOk(s, i + 1, cb);
      assert s.queue[i + 2..] == s'.queue[i + 1..];
    }
  }

  lemma PopKeepsOrder(s: Conn)
    requires QueuedOk(s) && OrderOk(s) && s.queue != []
    ensures OrderOk(WriteSucceeded(s))
  {
    var s' := WriteSucceeded(s);
    FrontCbsNonEmpty(s);
    SuccessesFired(s.fired, s.queue[0].cbs, Success, |s.wire|, s.sends);
    assert Successes(s'.fired, s'.sends) + CbsOf(s'.queue) == Successes(s.fired, s.sends) + CbsOf(s.queue);
  }

  lemma PopCounts(s: Conn)
    requires CountOk(s, |s.sends|) && s.queue != []
    ensures CountOk(WriteSucceeded(s), |s.sends|)
  {
    var s' := WriteSucceeded(s);
    IdsConcat(s.fired, s.queue[0].cbs, Success, |s.wire|);
    assert forall id :: Occurrences(s', id) == Occurrences(s, id);
  }

  lemma WriteSucceededKeeps(s: Conn)
    requires Answered(s) && s.frontDone == |Flatten(s.queue[0].bufs)|
    ensures Mid(WriteSucceeded(s))
    ensures var s' := WriteSucceeded(s); !s'.running && !s'.failed
  {
    PopKeepsQueued(s);
    FireFrontKeepsFired(s, Success, WriteSucceeded(s));
    PopKeepsOrder(s);
    PopCounts(s);
  }

  lemma FailKeepsOrder(s: Conn, ec: ErrorCode)
    requires QueuedOk(s) && OrderOk(s) && s.queue != []
    ensures OrderOk(WriteFailed(s, ec))
  {
    FrontCbsNonEmpty(s);
    SuccessesFired(s.fired, s.queue[0].cbs, IoFailure, |s.wire|, s.sends);
    assert Successes(s.fired, s.sends) + [] == Successes(s.fired, s.sends);
  }

  lemma FailCounts(s: Conn, ec: ErrorCode)
    requires CountOk(s, |s.sends|) && s.queue != []
    ensures CountOk(WriteFailed(s, ec), |s.sends|)
  {
    var s' := WriteFailed(s, ec);
    IdsConcat(s.fired, s.queue[0].cbs, IoFailure, |s.wire|);
    forall id: nat
      ensures Occurrences(s', id) >= Occurrences(s, id)
      ensures Occurrences(s, id) == 0 ==> Occurrences(s', id) == 0
    {
      assert Occurrences(s', id) == Occurrences(s, id) + multiset(s.queue[0].cbs)[id];
      assert CbsOf(s.queue) == s.queue[0].cbs + CbsOf(s.queue[1..]);
    }
  }

  lemma WriteFailedMid(s: Conn, ec: ErrorCode)
    requires Answered(s) && (ec == Aborted ==> s.running)
    ensures Mid(WriteFailed(s, ec)) && Settled(WriteFailed(s, ec))
  {
    FireFrontKeepsFired(s, IoFailure, WriteFailed(s, ec));
    FailKeepsOrder(s, ec);
    FailCounts(s, ec);
    assert QueuedOk(WriteFailed(s, ec)) by {
      assert forall i, cb :: 0 <= i < |s.queue| && cb in s.queue[i].cbs ==> QueuedCbOk(s, i, cb);
    }
  }

  lemma WriteFailedTells(s: Conn, ec: ErrorCode)
    requires s.queue != []
    ensures var s', cbs := WriteFailed(s, ec), s.queue[0].cbs;
            && s'.queue == s.queue && |s'.fired| == |s.fired| + |cbs|
            && (forall i :: 0 <= i < |cbs| ==> s'.fired[|s.fired| + i] == Fired(cbs[i], IoFailure, |s.wire|))
  {
  }

  /** A failed write leaves the invariant, the front where it is, and its callbacks told in
      order; sends stay enabled only after a cancellation. */
  lemma WriteFailedKeeps(s: Conn, ec: ErrorCode)
    requires Answered(s) && (ec == Aborted ==> s.running)
    ensures Mid(WriteFailed(s, ec)) && Settled(WriteFailed(s, ec))
    ensures var s', cbs := WriteFailed(s, ec), s.queue[0].cbs;
            && s'.queue == s.queue && |s'.fired| == |s.fired| + |cbs|
            && (forall i :: 0 <= i < |cbs| ==> s'.fired[|s.fired| + i] == Fired(cbs[i], IoFailure, |s.wire|))
            && (s'.sendsEnabled ==> ec == Aborted)
  {
    WriteFailedMid(s, ec);
    WriteFailedTells(s, ec);
    SendsAfterFailure(s, ec);
    hide Mid, Settled, WriteFailed, CallbacksOk, Conserved;
  }

  lemma SendsAfterFailure(s: Conn, ec: ErrorCode)
    requires ShutdownOk(s) && s.queue != []
    ensures WriteFailed(s, ec).sendsEnabled ==> ec == Aborted
  {
  }
}
