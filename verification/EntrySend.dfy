/** The sending side of an entry: from a message to the buffers handed to the connection. */
module EntrySends {
  import opened Bytes
  import opened PkgHeaders
  import opened Framing
  import opened PackageImages
  import opened Connections
  import WriteQueue
  import WriteQueueInvariant
  import ConnectionRuns
  import opened EndToEnd

  /** One more send of a package: an accepted one joins the packages carried. */
  lemma CarrySnoc(sends: seq<WriteQueue.SendRecord>, ser: Serializer, pkgs: seq<Package>, r: WriteQueue.SendRecord, pkg: Package)
    requires Carry(sends, ser, pkgs) && Flatten(r.bufs) == ImageOf(ser, pkg)
    ensures Carry(sends + [r], ser, if r.taken then pkgs + [pkg] else pkgs)
  {
    hide ImageOf;
    assert (sends + [r])[..|sends|] == sends;
    assert (pkgs + [pkg])[..|pkgs|] == pkgs;
  }

  /** The buffers of a send that carries a package. */
  ghost predicate AreImage(ser: Serializer, bufs: seq<Buffer>)
  {
    exists pkg :: Flatten(bufs) == ImageOf(ser, pkg)
  }

  ghost predicate OnlyPackages(ser: Serializer, events: seq<WriteQueue.Event>)
  {
    forall i :: 0 <= i < |events| ==> events[i].Send? ==> AreImage(ser, events[i].bufs)
  }

  lemma NothingIsCarried(o: WriteQueue.Oracle, ser: Serializer)
    ensures Carry(ConnectionRuns.Run(o, []).sends, ser, [])
  {
  }

  /** Any run of a connection on which only packages are sent carries the accepted ones. */
  lemma {:induction false} RunsCarryTheirPackages(o: WriteQueue.Oracle, ser: Serializer, events: seq<WriteQueue.Event>)
    returns (pkgs: seq<Package>)
    requires OnlyPackages(ser, events)
    ensures Carry(ConnectionRuns.Run(o, events).sends, ser, pkgs)
    decreases |events|
  {
    hide WriteQueueInvariant.Inv, ConnectionRuns.Run, ConnectionRuns.Step, Carry, AreImage;
    if events == [] {
      NothingIsCarried(o, ser);
      pkgs := [];
    } else {
      var n := |events| - 1;
      pkgs := RunsCarryTheirPackages(o, ser, events[..n]);
      assert events[..n] + [events[n]] == events;
      ConnectionRuns.RunSnoc(o, events[..n], events[n]);
      pkgs := StepCarries(o, ser, ConnectionRuns.Run(o, events[..n]), pkgs, events[n]);
    }
  }

  lemma StepCarries(o: WriteQueue.Oracle, ser: Serializer, s: WriteQueue.Conn, pkgs: seq<Package>, e: WriteQueue.Event)
    returns (pkgs': seq<Package>)
    requires WriteQueueInvariant.Inv(s) && Carry(s.sends, ser, pkgs)
    requires e.Send? ==> AreImage(ser, e.bufs)
    ensures Carry(ConnectionRuns.Step(o, s, e).sends, ser, pkgs')
  {
    hide WriteQueueInvariant.Inv, ConnectionRuns.Step, Carry, ImageOf;
    ConnectionRuns.OnlySendsAreLogged(o, s, e);
    pkgs' := pkgs;
    if e.Send? {
      var pkg :| Flatten(e.bufs) == ImageOf(ser, pkg);
      CarrySnoc(s.sends, ser, pkgs, WriteQueue.SendRecord(e.bufs, e.withCb, s.sendsEnabled), pkg);
      pkgs' := if s.sendsEnabled then pkgs + [pkg] else pkgs;
    } else {
      assert s.sends + [] == s.sends;
    }
  }

  /** Header, message and attachment in buffers of their own are an image too. */
  lemma SeparateBuffersAreImage(ser: Serializer, id: U16, msg: Message, attached: Buffer, headerBuf: Buffer, msgBuf: Buffer)
    requires |headerBuf| >= HEADER_SIZE && msgBuf == ser(id, msg)
    requires headerBuf[..HEADER_SIZE] == Encode(MessageHeader(id, |msgBuf|, |attached|, |headerBuf| - HEADER_SIZE))
    ensures Flatten([headerBuf, msgBuf, attached])
         == ImageOf(ser, MessagePackage(id, msg, attached, headerBuf[HEADER_SIZE..]))
  {
    hide Encode;
    assert [headerBuf, msgBuf] + [attached] == [headerBuf, msgBuf, attached];
    assert [headerBuf] + [msgBuf] == [headerBuf, msgBuf];
    FlattenOne(headerBuf);
    FlattenSnoc([headerBuf], msgBuf);
    FlattenSnoc([headerBuf, msgBuf], attached);
    assert headerBuf == headerBuf[..HEADER_SIZE] + headerBuf[HEADER_SIZE..];
  }

  /** The image buffer of a message, to be followed by `attached`. */
  method MakeImage(ser: Serializer, id: U16, msg: Message, attached: Buffer) returns (image: Buffer)
    requires |ser(id, msg)| < 0x1_0000_0000
    ensures BuffersOf(ser, MessagePackage(id, msg, attached, []), true) == [image, attached]
    ensures attached == [] ==> BuffersOf(ser, MessagePackage(id, msg, attached, []), false) == [image]
  {
    var buf := MakePackageImage(id, ser(id, msg), |attached|);
    image := buf[..];
    ghost var whole := ImageOf(ser, MessagePackage(id, msg, attached, []));
    hide Encode;
    assert whole == image + attached;
    assert whole[..|whole| - |attached|] == image;
  }

  class EntrySender {
    const connection: Connection
    const serialize: Serializer
    var connectionIsActive: bool

    /** The packages the connection has accepted. */
    ghost var pkgs: seq<Package>

    ghost predicate Valid()
      reads this, connection, connection.Repr
    {
      this !in connection.Repr && connection.Valid() && Carry(connection.st.sends, serialize, pkgs)
    }

    constructor (answers: nat -> WriteQueue.WriteResult, serialize: Serializer)
      ensures Valid() && fresh(connection.Repr)
      ensures pkgs == [] && connectionIsActive
      ensures connection.st == WriteQueue.INITIAL && connection.socket.oracle == answers && this.serialize == serialize
    {
      this.serialize := serialize;
      connectionIsActive, pkgs := true, [];
      connection := new Connection(answers);
    }

    /** What sending a package adds to the accepted ones. */
    ghost function Accepted(pkg: Package): (r: seq<Package>)
      reads this, connection
    {
      if connectionIsActive && connection.st.sendsEnabled then [pkg] else []
    }

    /** The state of the connection once it has been given `bufs`, if the entry is active. */
    ghost function Given(bufs: seq<Buffer>): (s: WriteQueue.Conn)
      reads this, connection, connection.Repr
      requires Valid()
    {
      if connectionIsActive then ConnectionRuns.Step(connection.socket.oracle, connection.st, WriteQueue.Send(bufs, false))
      else connection.st
    }

    lemma GivenCarries(bufs: seq<Buffer>, pkg: Package)
      requires Valid() && Flatten(bufs) == ImageOf(serialize, pkg)
      ensures Carry(Given(bufs).sends, serialize, pkgs + Accepted(pkg))
    {
      var s := connection.st;
      assert WriteQueueInvariant.Inv(s);
      hide Carry, ImageOf, ConnectionRuns.Step, WriteQueueInvariant.Inv, Connection.Rep;
      assert pkgs + [] == pkgs;
      if connectionIsActive {
        ConnectionRuns.OnlySendsAreLogged(connection.socket.oracle, s, WriteQueue.Send(bufs, false));
        CarrySnoc(s.sends, serialize, pkgs, WriteQueue.SendRecord(bufs, false, s.sendsEnabled), pkg);
      }
    }

    /** Hands the buffers of one package to the connection, if the entry is active. */
    method ScheduleSendRawBufs(bufs: seq<Buffer>, ghost pkg: Package)
      requires Valid() && Flatten(bufs) == ImageOf(serialize, pkg)
      modifies this`pkgs, connection.Repr
      ensures Valid() && fresh(connection.Repr - old(connection.Repr))
      ensures pkgs == old(pkgs) + old(Accepted(pkg)) && connection.st == old(Given(bufs))
    {
      ghost var more := Accepted(pkg);
      GivenCarries(bufs, pkg);
      hide Carry, ImageOf, WriteQueueInvariant.Inv, ConnectionRuns.Step, Connection.Rep, Accepted;
      if connectionIsActive {
        connection.ScheduleSend(bufs, false);
      }
      pkgs := pkgs + more;
    }

    method Send(id: U16, msg: Message)
      requires Valid() && |serialize(id, msg)| < 0x1_0000_0000
      modifies this`pkgs, connection.Repr
      ensures Valid() && fresh(connection.Repr - old(connection.Repr))
      ensures var pkg := MessagePackage(id, msg, [], []);
              pkgs == old(pkgs) + old(Accepted(pkg)) && connection.st == old(Given(BuffersOf(serialize, pkg, false)))
    {
      var image := MakeImage(serialize, id, msg, []);
      hide Valid, Accepted, Given, ImageOf, BuffersOf;
      ScheduleSendRawBufs([image], MessagePackage(id, msg, [], []));
    }

    method SendAttached(id: U16, msg: Message, attached: Buffer)
      requires Valid() && |serialize(id, msg)| < 0x1_0000_0000
      modifies this`pkgs, connection.Repr
      ensures Valid() && fresh(connection.Repr - old(connection.Repr))
      ensures var pkg := MessagePackage(id, msg, attached, []);
              pkgs == old(pkgs) + old(Accepted(pkg)) && connection.st == old(Given(BuffersOf(serialize, pkg, true)))
    {
      var image := MakeImage(serialize, id, msg, attached);
      hide Valid, Accepted, Given, ImageOf, BuffersOf;
      ScheduleSendRawBufs([image, attached], MessagePackage(id, msg, attached, []));
    }

    /** A heartbeat request (or a reply to one) is a bare header. */
    method SendHeartbeat(reply: bool)
      requires Valid()
      modifies this`pkgs, connection.Repr
      ensures Valid() && fresh(connection.Repr - old(connection.Repr))
      ensures var pkg := if reply then HeartbeatReplyPackage else HeartbeatRequestPackage;
              pkgs == old(pkgs) + old(Accepted(pkg)) && connection.st == old(Given(BuffersOf(serialize, pkg, false)))
    {
      var header := Encode(Make(if reply then PKG_CONTENT_HEARTBEAT_REPLY else PKG_CONTENT_HEARTBEAT_REQUEST, 0, 0, 0));
      ghost var pkg := if reply then HeartbeatReplyPackage else HeartbeatRequestPackage;
      assert BuffersOf(serialize, pkg, false) == [header];
      hide Valid, Accepted, Given, ImageOf, BuffersOf, Encode;
      ScheduleSendRawBufs([header], pkg);
    }
  }
}
