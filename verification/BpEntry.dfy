/** The entry extension with back pressure streams, in front of a connection. */
module BpEntries {
  import opened Bytes
  import opened Options
  import opened Connections
  import WriteQueue
  import WriteQueueInvariant
  import ConnectionRuns
  import opened BackPressure

  function Contexts(streams: map<nat, Stream>): (r: map<nat, StreamContext>)
  {
    map tag | tag in streams :: streams[tag].context
  }

  lemma ContextsUpdated(streams: map<nat, Stream>, tag: nat, x: Stream)
    ensures Contexts(streams[tag := x]) == Contexts(streams)[tag := x.context]
    ensures At(streams, tag).context == if tag in Contexts(streams) then Contexts(streams)[tag] else UNUSED
  {
  }

  class BpEntry {
    var streams: map<nat, StreamContext>
    var connectionIsActive: bool
    /** The sends posted to the strand of the connection. */
    var mailbox: seq<Letter>
    const connection: Connection

    /** The state with its logs. */
    ghost var st: Joint

    ghost predicate Coupled()
      reads this
    {
      && connectionIsActive == st.active
      && mailbox == st.mailbox
      && streams == Contexts(st.streams)
    }

    ghost predicate Rep()
      reads this, connection, connection.Repr
    {
      this !in connection.Repr && connection.Valid() && connection.st == st.conn && Coupled()
    }

    ghost predicate Valid()
      reads this, connection, connection.Repr
    {
      Rep() && JointInv(st)
    }

    constructor (answers: nat -> WriteQueue.WriteResult)
      ensures Valid() && fresh(connection.Repr)
      ensures st == START && streams == map[] && connection.socket.oracle == answers
    {
      streams, connectionIsActive, mailbox := map[], true, [];
      connection := new Connection(answers);
      st := START;
    }

    function ContextOf(tag: nat): (c: StreamContext)
      reads this
    {
      if tag in streams then streams[tag] else UNUSED
    }

    /** A submission: sent at once, or kept in place of an older one. */
    method BpSendRawBuf(tag: nat, buf: Buffer)
      requires Valid()
      modifies this
      ensures Valid() && st == BackPressure.BpSendRawBuf(old(st), tag, buf)
    {
      BpSendKeeps(st, tag, buf);
      hide JointInv, BackPressure.BpSendRawBuf, Rep;
      SendOrMemorize(tag, buf);
    }

    method SendOrMemorize(tag: nat, buf: Buffer)
      requires Rep()
      modifies this
      ensures Rep() && st == BackPressure.BpSendRawBuf(old(st), tag, buf)
    {
      hide Contexts, Connection.Valid;
      ghost var after := BackPressure.BpSendRawBuf(st, tag, buf);
      ContextsUpdated(st.streams, tag, after.streams[tag]);
      var ctx := ContextOf(tag);
      if ctx.inFlight < 1 {
        streams := streams[tag := ctx.(inFlight := ctx.inFlight + 1)];
        SendBuffer(tag, buf);
      } else {
        if ctx.memorizedBuf.Some? {
          ctx := ctx.(droppedBufs := ctx.droppedBufs + 1);
        }
        streams := streams[tag := ctx.(memorizedBuf := Some(buf))];
      }
      st := after;
    }

    method SendBuffer(tag: nat, buf: Buffer)
      requires connectionIsActive == st.active && mailbox == st.mailbox
      modifies this`mailbox
      ensures mailbox == BackPressure.SendBuffer(st, tag, buf).0
    {
      if connectionIsActive {
        mailbox := mailbox + [Letter(tag, buf)];
      }
    }

    /** The oldest posted send runs on the strand of the connection. */
    method RunPostedSend()
      requires Valid() && mailbox != []
      modifies this, connection.Repr
      ensures Valid() && fresh(connection.Repr - old(connection.Repr))
      ensures st == BackPressure.Step(connection.socket.oracle, old(st), Arrived)
    {
      ghost var after := BackPressure.Step(connection.socket.oracle, st, Arrived);
      StepKeeps(connection.socket.oracle, st, Arrived);
      ArrivalSeen(connection.socket.oracle, st);
      assert Follows(after);
      hide JointInv, Rep, BackPressure.Step, Follows;
      TakeLetter(after);
    }

    /** `after` is the state that handing the oldest posted send to the connection leads to. */
    ghost predicate Follows(after: Joint)
      reads this, connection
    {
      && mailbox != [] && connection.st.queue != []
      && after.conn == WriteQueue.DoSend(connection.socket.oracle, connection.st, [mailbox[0].buf], true)
      && after.active == connectionIsActive && after.mailbox == mailbox[1..] && Contexts(after.streams) == streams
    }

    method TakeLetter(ghost after: Joint)
      requires Rep() && Follows(after)
      modifies this, connection.Repr
      ensures Rep() && fresh(connection.Repr - old(connection.Repr)) && st == after
    {
      hide Connection.Valid, WriteQueue.DoSend, Contexts;
      var buf := mailbox[0].buf;
      mailbox := mailbox[1..];
      PassOn(buf);
      st := after;
    }

    method PassOn(buf: Buffer)
      requires this !in connection.Repr && connection.Valid() && connection.st.queue != []
      modifies connection.Repr
      ensures this !in connection.Repr && connection.Valid() && fresh(connection.Repr - old(connection.Repr))
      ensures connection.st == WriteQueue.DoSend(connection.socket.oracle, old(connection.st), [buf], true)
    {
      SendIsStep(connection.socket.oracle, connection.st, [buf]);
      hide WriteQueue.DoSend, ConnectionRuns.Step, WriteQueueInvariant.Inv, Connection.Rep;
      connection.ScheduleSend([buf], true);
    }

    /** The report that callback `n` of the connection has told success for a buffer of
        stream `tag`. */
    method SendFinished(tag: nat, ghost n: nat)
      requires Valid() && CanBeReported(st, tag, n)
      modifies this
      ensures Valid() && st == BackPressure.SendFinished(old(st), tag, n)
    {
      SendFinishedKeeps(st, tag, n);
      hide JointInv, BackPressure.SendFinished, Rep, CanBeReported;
      FollowUpOrGoIdle(tag, n);
    }

    method FollowUpOrGoIdle(tag: nat, ghost n: nat)
      requires Rep()
      modifies this
      ensures Rep() && st == BackPressure.SendFinished(old(st), tag, n)
    {
      hide Contexts, Connection.Valid;
      ghost var after := BackPressure.SendFinished(st, tag, n);
      ContextsUpdated(st.streams, tag, after.streams[tag]);
      var ctx := ContextOf(tag);
      if ctx.memorizedBuf.Some? {
        ghost var was := streams;
        var buf := ctx.memorizedBuf.value;
        streams := streams[tag := ctx.(memorizedBuf := None)];
        SendBuffer(tag, buf);
        streams := streams[tag := ctx.(memorizedBuf := None, droppedBufs := 0)];
        assert streams == was[tag := ctx.(memorizedBuf := None, droppedBufs := 0)];
      } else {
        streams := streams[tag := ctx.(inFlight := ctx.inFlight - 1)];
      }
      st := after;
    }
  }

  lemma SendIsStep(o: WriteQueue.Oracle, s: WriteQueue.Conn, bufs: seq<Buffer>)
    requires WriteQueueInvariant.Inv(s)
    ensures ConnectionRuns.Step(o, s, WriteQueue.Send(bufs, true)) == WriteQueue.DoSend(o, s, bufs, true)
  {
    hide WriteQueueInvariant.Inv, WriteQueue.DoSend;
  }

  /** A send that arrives reaches the connection and changes no stream context. */
  lemma ArrivalSeen(o: WriteQueue.Oracle, j: Joint)
    requires JointInv(j) && j.mailbox != []
    ensures j.conn.queue != []
    ensures var j' := BackPressure.Step(o, j, Arrived);
            && j'.conn == WriteQueue.DoSend(o, j.conn, [j.mailbox[0].buf], true)
            && j'.active == j.active && j'.mailbox == j.mailbox[1..]
            && Contexts(j'.streams) == Contexts(j.streams)
  {
    var tag := j.mailbox[0].tag;
    assert j.conn.queue != [];
    assert Awaited(At(j.streams, tag)).Some?;
    hide WriteQueueInvariant.Inv, WriteQueue.DoSend, MailOk, StreamsOk;
    ArrivalKeepsContexts(j.streams, tag, |j.conn.sends|);
  }

  /** A send that arrives changes no stream context. */
  lemma ArrivalKeepsContexts(streams: map<nat, Stream>, tag: nat, id: nat)
    requires Awaited(At(streams, tag)).Some?
    ensures Contexts(streams[tag := MadeLast(At(streams, tag), id)]) == Contexts(streams)
  {
  }
}
