/** The receiving half of an entry, on the objects it updates in place. */
module Entries {
  import opened Bytes
  import opened Options
  import opened SimpleBuffers
  import opened PkgHeaders
  import opened PkgInputs
  import opened Framing
  import M = EntryModels
  import H = Heartbeats

  datatype PackageHandling = FullyConsumed | NeedsMoreInputData | InvalidPackage | Thrown | AssertFailed

  /** What handling one package means for the state of an entry. */
  ghost function EffectOf(e: M.Entry, o: Outcome): (e': M.Entry)
    requires o.Consumed? || o.BodyRefused? ==> o.size <= |e.rest|
  {
    match o
    case NeedsMoreData => e
    case Consumed(size, event) => M.Deliver(e, [event], e.rest[size..])
    case HeaderRefused(reason) => M.ShutdownAndTerminate(e, reason)
    case BodyRefused(size, reason, delivered) =>
      var e1 := M.Deliver(e, delivered, e.rest[size..]);
      if reason == ExceptionHandlingInput then e1 else M.ShutdownAndTerminate(e1, reason)
    case AssertFails => e.(asserted := true)
  }

  ghost function HandlingOf(o: Outcome): (r: PackageHandling)
  {
    match o
    case NeedsMoreData => NeedsMoreInputData
    case Consumed(_, _) => FullyConsumed
    case HeaderRefused(_) => InvalidPackage
    case BodyRefused(_, reason, _) => if reason == ExceptionHandlingInput then Thrown else InvalidPackage
    case AssertFails => AssertFailed
  }

  class Entry {
    const cfg: M.Config
    const pkgInput: PkgInput
    var active: bool
    var handler: M.Handler
    var lastInputAt: int
    var heartbeatSentCount: nat
    /** When the heartbeat timer is to fire. */
    var timerExpiresAt: int
    /** What the consumer, the connection and the shutdown handler have been called with. */
    var delivered: seq<Event>
    var sent: seq<M.Outgoing>
    var handlerCalls: seq<M.HandlerCall>
    var connectionShutdowns: nat
    var asserted: bool

    ghost predicate Valid()
      reads this, pkgInput, pkgInput.Owned
    {
      this !in pkgInput.Owned && pkgInput.Valid() && !pkgInput.firstBufferServed
    }

    ghost function State(): (e: M.Entry)
      reads this, pkgInput, pkgInput.Owned
      requires pkgInput.Valid()
    {
      M.Entry(pkgInput.Unread(), active, handler, H.Heartbeat(lastInputAt, heartbeatSentCount, timerExpiresAt),
              delivered, sent, handlerCalls, connectionShutdowns, asserted)
    }

    constructor (cfg: M.Config, handler: M.Handler, now: int)
      ensures Valid() && fresh(pkgInput) && fresh(pkgInput.Owned)
      ensures this.cfg == cfg && State() == M.Start(cfg, handler, now)
    {
      var input := new PkgInput();
      this.cfg, this.handler, pkgInput := cfg, handler, input;
      active, asserted, connectionShutdowns := true, false, 0;
      lastInputAt, heartbeatSentCount, timerExpiresAt := now, 0, now + cfg.heartbeat.initiate;
      delivered, sent, handlerCalls := [], [], [];
      new;
      hide PkgInput.Valid, PkgInput.Unread;
      assert input.Valid() && input.Unread() == [];
    }

    // ---------- Ending ----------

    method Terminate(reason: ShutdownReason)
      requires Valid() && active
      modifies this`handlerCalls, this`handler
      ensures Valid() && State() == M.Terminate(old(State()), reason)
    {
      match handler {
        case Supplied => handlerCalls := handlerCalls + [M.Called];
        case SuppliedWithContext => handlerCalls := handlerCalls + [M.CalledWith(reason)];
        case _ =>
      }
      assert old(handlerCalls) + [] == old(handlerCalls);
      handler := M.WasCalled;
    }

    method ShutdownAndTerminate(reason: ShutdownReason)
      requires Valid()
      modifies this
      ensures Valid() && State() == M.ShutdownAndTerminate(old(State()), reason)
    {
      if !active {
        return;
      }
      connectionShutdowns := connectionShutdowns + 1;
      Terminate(reason);
      active := false;
    }

    method HandleShutdown()
      requires Valid() && !asserted
      modifies this
      ensures Valid() && State() == M.Next(cfg, old(State()), M.ConnectionDown)
    {
      if !active {
        return;
      }
      Terminate(UnderlyingConnection);
      active := false;
    }

    /** The part of `close` that runs on the strand. */
    method Close()
      requires Valid() && !asserted
      modifies this
      ensures Valid() && State() == M.Next(cfg, old(State()), M.UserClose)
    {
      ShutdownAndTerminate(UserInitiated);
    }

    // ---------- Heartbeat ----------

    method OnCheckHeartbeat(now: int)
      requires Valid() && !asserted
      modifies this
      ensures Valid() && State() == M.Next(cfg, old(State()), M.TimerFired(now))
    {
      if !active {
        return;
      }
      var since := now - lastInputAt;
      if since < cfg.heartbeat.initiate {
        timerExpiresAt := now + (cfg.heartbeat.initiate - since);
        return;
      }
      if 0 != heartbeatSentCount && since >= cfg.heartbeat.await {
        ShutdownAndTerminate(HeartbeatReplyTimeout);
        return;
      }
      sent := sent + [M.RequestSent];
      heartbeatSentCount := heartbeatSentCount + 1;
      if cfg.heartbeat.await > since {
        timerExpiresAt := now + (cfg.heartbeat.await - since);
      } else {
        timerExpiresAt := now + cfg.heartbeat.initiate;
      }
    }

    method UpdateLastInputAt(now: int)
      requires Valid()
      modifies this`lastInputAt, this`heartbeatSentCount
      ensures Valid() && State() == old(State()).(heartbeat := H.Heard(old(State()).heartbeat, now))
    {
      lastInputAt := now;
      heartbeatSentCount := 0;
    }

    // ---------- Reading a message ----------

    /** What a limited stream over the input gives in all: `size` bytes, chunk by chunk, with
        what the last chunk has too much backed up; then nothing is left lent out. */
    method ReadLimited(size: nat) returns (body: Buffer)
      requires Valid() && size <= |pkgInput.Unread()|
      modifies pkgInput
      ensures Valid() && pkgInput.Owned == old(pkgInput.Owned)
      ensures body == old(pkgInput.Unread())[..size] && pkgInput.Unread() == old(pkgInput.Unread())[size..]
    {
      var limit;
      body, limit := ReadChunks(size);
      SplitAt(body, Excess(limit), pkgInput.Unread(), old(pkgInput.Unread()));
      hide PkgInput.Holds;
      GiveBack(limit);
    }

    /** The last bytes lent out that a reader with `limit` bytes to go has too many. */
    ghost function Excess(limit: int): (b: Buffer)
      reads pkgInput, pkgInput.Owned
      requires pkgInput.Valid() && (limit < 0 ==> -limit <= |pkgInput.Lent()|)
    {
      if limit < 0 then pkgInput.Lent()[|pkgInput.Lent()| + limit..] else []
    }

    method ReadChunks(size: nat) returns (body: Buffer, limit: int)
      requires Valid() && size <= |pkgInput.Unread()|
      modifies pkgInput
      ensures this !in pkgInput.Owned && pkgInput.Valid() && pkgInput.Owned == old(pkgInput.Owned)
      ensures limit <= 0 && |body| == size
      ensures limit < 0 ==> -limit <= |pkgInput.Lent()| && pkgInput.firstBufferServed
      ensures body + Excess(limit) + pkgInput.Unread() == old(pkgInput.Unread())
    {
      body, limit := [], size;
      while limit > 0
        invariant this !in pkgInput.Owned && pkgInput.Valid() && pkgInput.Owned == old(pkgInput.Owned)
        invariant limit < 0 ==> -limit <= |pkgInput.Lent()| && pkgInput.firstBufferServed
        invariant |body| == if limit < 0 then size else size - limit
        invariant body + Excess(limit) + pkgInput.Unread() == old(pkgInput.Unread())
        decreases |pkgInput.window| + if pkgInput.firstBufferServed then 0 else 1
      {
        hide PkgInput.Holds;
        assert body + [] == body;
        body, limit := ReadChunk(body, limit, old(pkgInput.Unread()));
      }
    }

    /** Ends reading through chunks: the excess goes back, and nothing stays lent out. */
    method GiveBack(limit: int)
      requires this !in pkgInput.Owned && pkgInput.Valid()
      requires limit <= 0 && (limit < 0 ==> -limit <= |pkgInput.Lent()| && pkgInput.firstBufferServed)
      modifies pkgInput
      ensures Valid() && pkgInput.Owned == old(pkgInput.Owned)
      ensures pkgInput.Unread() == old(Excess(limit)) + old(pkgInput.Unread())
    {
      hide PkgInput.Holds;
      if limit < 0 {
        pkgInput.BackUp(-limit);
      }
      var _ := pkgInput.Skip(0);
    }

    method ReadChunk(body: Buffer, limit: nat, ghost all: Buffer) returns (body': Buffer, limit': int)
      requires this !in pkgInput.Owned && pkgInput.Valid() && 0 < limit <= |pkgInput.Unread()|
      requires body + pkgInput.Unread() == all
      modifies pkgInput
      ensures this !in pkgInput.Owned && pkgInput.Valid() && pkgInput.Owned == old(pkgInput.Owned)
      ensures limit' < 0 ==> -limit' <= |pkgInput.Lent()| && pkgInput.firstBufferServed
      ensures body' + Excess(limit') + pkgInput.Unread() == all
      ensures |body'| == |body| + if limit' < 0 then limit else limit - limit'
      ensures |pkgInput.window| + (if pkgInput.firstBufferServed then 0 else 1)
            < old(|pkgInput.window| + if pkgInput.firstBufferServed then 0 else 1)
    {
      hide PkgInput.Holds;
      ghost var unread := pkgInput.Unread();
      var ok, data := pkgInput.Next();
      ChunkParts(body, data, limit, pkgInput.Unread(), unread, all);
      limit' := limit - |data|;
      body' := body + if limit' < 0 then data[..limit] else data;
    }

    /** The next `size` bytes, without taking them. */
    method Peek(size: nat) returns (data: Buffer)
      requires Valid() && size <= |pkgInput.Unread()|
      ensures data == pkgInput.Unread()[..size]
    {
      if size == 0 {
        return [];
      }
      var dest := new Byte[size];
      pkgInput.CopyUnread(dest, size);
      data := dest[..];
    }

    /** The message parser on the content of a package: it takes the whole content and gives
        a message, or takes some of it and gives none. */
    method ParsePackage(h: PkgHeader) returns (res: Option<Message>)
      requires Valid() && h.contentSize <= |pkgInput.Unread()|
      modifies pkgInput
      ensures Valid() && pkgInput.Owned == old(pkgInput.Owned)
      ensures var body := old(pkgInput.Unread())[..h.contentSize];
              && res == cfg.protocol.parse(h.contentSpecificValue, body)
              && pkgInput.Unread() == old(pkgInput.Unread())
                   [if res.Some? then h.contentSize else TakenByParser(cfg.protocol, h.contentSpecificValue, body)..]
    {
      var body := Peek(h.contentSize);
      res := cfg.protocol.parse(h.contentSpecificValue, body);
      var _ := ReadLimited(if res.Some? then h.contentSize else TakenByParser(cfg.protocol, h.contentSpecificValue, body));
    }

    method ReadAttached(size: nat) returns (attached: Buffer)
      requires Valid() && size <= |pkgInput.Unread()|
      modifies pkgInput
      ensures Valid() && pkgInput.Owned == old(pkgInput.Owned)
      ensures attached == old(pkgInput.Unread())[..size] && pkgInput.Unread() == old(pkgInput.Unread())[size..]
    {
      if 0 == size {
        return [];
      }
      var buf := new Byte[size];
      pkgInput.ReadBuffer(buf, size);
      attached := buf[..];
    }

    /** The dispatcher, with the header already gone from the stream. `ghost s` is the stream
        with the header still there. */
    method HandleIncomingMessage(h: PkgHeader, ghost s: Buffer) returns (res: PackageHandling)
      requires Valid() && h.PackageSize() <= |s| && pkgInput.Unread() == s[h.AdvertizedHeaderSize()..]
      modifies this, pkgInput
      ensures Valid() && pkgInput.Owned == old(pkgInput.Owned)
      ensures var o := HandleMessage(cfg.protocol, h, s);
              State() == EffectOf(old(State()).(rest := s), o) && res == HandlingOf(o)
    {
      var id := h.contentSpecificValue;
      MessageEffects(cfg.protocol, h, s, State());
      MessageTail(s, h.AdvertizedHeaderSize(), h.contentSize, h.attachedBinarySize);
      hide PkgInput.Holds, HandleMessage, EffectOf, HandlingOf, M.ShutdownAndTerminate, M.Deliver, TakenByParser;
      if !cfg.protocol.known(id) {
        RefuseBody(UnexpectedInputPackageSize);
        return InvalidPackage;
      }
      var msg := ParsePackage(h);
      if msg.None? {
        RefuseBody(InvalidInputPackage);
        return InvalidPackage;
      }
      var attached := ReadAttached(h.attachedBinarySize);
      var event := MessageArrived(id, msg.value, attached);
      ConsumeMessage(event);
      res := if cfg.protocol.throws(event) then Thrown else FullyConsumed;
    }

    method RefuseBody(reason: ShutdownReason)
      requires Valid()
      modifies this
      ensures Valid() && State() == M.ShutdownAndTerminate(M.Deliver(old(State()), [], pkgInput.Unread()), reason)
    {
      assert delivered + [] == delivered && sent + M.Replies(active, []) == sent;
      ShutdownAndTerminate(reason);
    }

    method ConsumeMessage(event: Event)
      requires Valid() && event.MessageArrived?
      modifies this`delivered
      ensures Valid() && State() == M.Deliver(old(State()), [event], pkgInput.Unread())
    {
      NothingReplied(active, event);
      assert sent + [] == sent;
      delivered := delivered + [event];
    }

    // ---------- The package loop ----------

    method HandleMessagePkg(h: PkgHeader) returns (res: PackageHandling)
      requires Valid() && |pkgInput.Unread()| >= HEADER_SIZE && h == Decode(pkgInput.Unread())
      requires h.pkgContentType == PKG_CONTENT_MESSAGE
      modifies this, pkgInput
      ensures Valid() && pkgInput.Owned == old(pkgInput.Owned)
      ensures var o := ParseOne(cfg.protocol, old(pkgInput.Unread()));
              State() == EffectOf(old(State()), o) && res == HandlingOf(o)
    {
      hide PkgInput.Holds, Decode, HandleMessage;
      if cfg.protocol.maxValidPackageSize < h.contentSize {
        ShutdownAndTerminate(InvalidInputPackageSize);
        return InvalidPackage;
      }
      if h.PackageSize() > pkgInput.Size() {
        return NeedsMoreInputData;
      }
      if h.headerSizeDwords < IMAGE_SIZE_DWORDS {
        asserted := true;
        return AssertFailed;
      }
      ghost var s := pkgInput.Unread();
      pkgInput.SkipBytes(h.AdvertizedHeaderSize());
      res := HandleIncomingMessage(h, s);
    }

    /** A heartbeat package of either kind; a request is answered while active. */
    method HandleHeartbeatPkg(h: PkgHeader, event: Event) returns (res: PackageHandling)
      requires Valid() && |pkgInput.Unread()| >= HEADER_SIZE
      requires event == HeartbeatRequested || event == HeartbeatReplied
      modifies this, pkgInput
      ensures Valid() && pkgInput.Owned == old(pkgInput.Owned)
      ensures var o := HandleHeartbeat(h, event);
              State() == EffectOf(old(State()), o) && res == HandlingOf(o)
    {
      hide PkgInput.Holds;
      if h.contentSize != 0 || h.attachedBinarySize != 0 {
        ShutdownAndTerminate(InvalidHeartbeatPackage);
        return InvalidPackage;
      }
      if h.headerSizeDwords != IMAGE_SIZE_DWORDS {
        asserted := true;
        return AssertFailed;
      }
      pkgInput.SkipBytes(h.AdvertizedHeaderSize());
      HeartbeatReply(active, event);
      assert sent + [] == sent;
      delivered := delivered + [event];
      if event == HeartbeatRequested && active {
        sent := sent + [M.ReplySent];
      }
      res := FullyConsumed;
    }

    method HandleSinglePackage() returns (res: PackageHandling)
      requires Valid()
      modifies this, pkgInput
      ensures Valid() && pkgInput.Owned == old(pkgInput.Owned)
      ensures var o := ParseOne(cfg.protocol, old(pkgInput.Unread()));
              State() == EffectOf(old(State()), o) && res == HandlingOf(o)
    {
      hide PkgInput.Holds, Decode, HandleMessage, HandleHeartbeat;
      if pkgInput.Size() < HEADER_SIZE {
        return NeedsMoreInputData;
      }
      var header := pkgInput.ViewPkgHeader();
      if header.pkgContentType == PKG_CONTENT_MESSAGE {
        res := HandleMessagePkg(header);
      } else if header.pkgContentType == PKG_CONTENT_HEARTBEAT_REQUEST {
        res := HandleHeartbeatPkg(header, HeartbeatRequested);
      } else if header.pkgContentType == PKG_CONTENT_HEARTBEAT_REPLY {
        res := HandleHeartbeatPkg(header, HeartbeatReplied);
      } else {
        ShutdownAndTerminate(UnknownPkgContentType);
        res := InvalidPackage;
      }
    }

    /** Package after package, until one is not fully consumed. */
    method RunInputStreamLoop() returns (res: PackageHandling)
      requires Valid()
      modifies this, pkgInput
      ensures Valid() && pkgInput.Owned == old(pkgInput.Owned)
      ensures var f := Loop(cfg.protocol, old(pkgInput.Unread()));
              LoopEnd(old(State()), f, State(), res)
    {
      ghost var e0 := State();
      ghost var whole := Loop(cfg.protocol, e0.rest);
      ghost var events: seq<Event> := [];
      hide PkgInput.Holds, EffectOf, ParseOne, M.Deliver;
      NothingDelivered(e0);
      assert [] + whole.events == whole.events;
      ghost var before := State();
      res := HandleSinglePackage();
      while res == FullyConsumed
        invariant Valid() && pkgInput.Owned == old(pkgInput.Owned)
        invariant before == M.Deliver(e0, events, before.rest)
        invariant events <= whole.events
        invariant Loop(cfg.protocol, before.rest) == whole.(events := whole.events[|events|..])
        invariant var o := ParseOne(cfg.protocol, before.rest);
                  State() == EffectOf(before, o) && res == HandlingOf(o)
        decreases |before.rest|
      {
        ghost var o := ParseOne(cfg.protocol, before.rest);
        OnePackageOn(cfg.protocol, e0, before, events, whole, o);
        events := events + [o.event];
        before := State();
        res := HandleSinglePackage();
      }
      LoopStops(cfg.protocol, e0, before, events, whole);
    }

    /** A portion of raw bytes from the connection. */
    method HandleInput(buf: SimpleBuffer, now: int)
      requires Valid() && !asserted
      requires buf.Valid() && buf !in pkgInput.Owned && buf.mem !in pkgInput.Owned
      modifies this, pkgInput, pkgInput.Owned
      ensures Valid() && fresh(pkgInput.Owned - old(pkgInput.Owned) - {buf, buf.mem})
      ensures State() == M.Next(cfg, old(State()), M.Input(old(buf.Contents()), now))
    {
      hide PkgInput.Holds, Loop, M.Replies;
      pkgInput.Append(buf);
      var res := RunInputStreamLoop();
      if res == Thrown {
        ShutdownAndTerminate(ExceptionHandlingInput);
      } else if res != AssertFailed {
        UpdateLastInputAt(now);
      }
    }
  }

  /** The state and the result at the end of a run of the loop. An exception is left to the
      caller. */
  ghost predicate LoopEnd(e0: M.Entry, f: Fed, e: M.Entry, res: PackageHandling)
  {
    var e1 := M.Deliver(e0, f.events, f.rest);
    if f.stop == Faulted(ExceptionHandlingInput) then e == e1 && res == Thrown
    else
      && e == M.Conclude(e1, f.stop) && res != Thrown && res != FullyConsumed
      && (res == AssertFailed <==> f.stop == Asserted)
  }

  lemma NothingDelivered(e: M.Entry)
    ensures M.Deliver(e, [], e.rest) == e
  {
    assert e.delivered + [] == e.delivered && e.sent + [] == e.sent;
  }

  lemma HeartbeatReply(active: bool, event: Event)
    ensures M.Replies(active, [event]) == if active && event.HeartbeatRequested? then [M.ReplySent] else []
  {
    assert [event][..0] == [];
  }

  lemma {:induction false} RepliesConcat(active: bool, a: seq<Event>, b: seq<Event>)
    ensures M.Replies(active, a + b) == M.Replies(active, a) + M.Replies(active, b)
    decreases |b|
  {
    if b == [] {
      assert a + b == a;
    } else {
      assert (a + b)[..|a + b| - 1] == a + b[..|b| - 1];
      RepliesConcat(active, a, b[..|b| - 1]);
    }
  }

  lemma DeliverTwice(e: M.Entry, a: seq<Event>, b: seq<Event>, mid: Buffer, rest: Buffer)
    ensures M.Deliver(M.Deliver(e, a, mid), b, rest) == M.Deliver(e, a + b, rest)
  {
    RepliesConcat(e.active, a, b);
    assert e.delivered + a + b == e.delivered + (a + b);
    assert e.sent + M.Replies(e.active, a) + M.Replies(e.active, b) == e.sent + M.Replies(e.active, a + b);
  }

  /** A consumed package moves one event from the loop's future to its past. */
  lemma OnePackageOn(p: Protocol, e0: M.Entry, before: M.Entry, events: seq<Event>, whole: Fed, o: Outcome)
    requires before == M.Deliver(e0, events, before.rest) && events <= whole.events
    requires Loop(p, before.rest) == whole.(events := whole.events[|events|..])
    requires o == ParseOne(p, before.rest) && HandlingOf(o) == FullyConsumed
    ensures o.Consumed? && o.size <= |before.rest|
    ensures var now := EffectOf(before, o);
            var events' := events + [o.event];
            && |now.rest| < |before.rest|
            && now == M.Deliver(e0, events', now.rest) && events' <= whole.events
            && Loop(p, now.rest) == whole.(events := whole.events[|events'|..])
  {
    hide ParseOne;
    DeliverTwice(e0, events, [o.event], before.rest, before.rest[o.size..]);
    var f := Loop(p, before.rest[o.size..]);
    assert whole.events[|events|..] == [o.event] + f.events;
    assert whole.events == events + ([o.event] + f.events);
    assert events + ([o.event] + f.events) == events + [o.event] + f.events;
  }

  /** The package that stops the loop concludes it. */
  lemma LoopStops(p: Protocol, e0: M.Entry, before: M.Entry, events: seq<Event>, whole: Fed)
    requires before == M.Deliver(e0, events, before.rest) && events <= whole.events
    requires Loop(p, before.rest) == whole.(events := whole.events[|events|..])
    requires HandlingOf(ParseOne(p, before.rest)) != FullyConsumed
    ensures var o := ParseOne(p, before.rest);
            LoopEnd(e0, whole, EffectOf(before, o), HandlingOf(o))
  {
    hide ParseOne;
    var o := ParseOne(p, before.rest);
    var tail := whole.events[|events|..];
    assert whole.events == events + tail;
    match o
    case BodyRefused(size, reason, delivered) =>
      assert tail == delivered;
      DeliverTwice(e0, events, delivered, before.rest, before.rest[size..]);
    case Consumed(_, _) =>
    case NeedsMoreData => assert whole.events == events;
    case HeaderRefused(_) => assert whole.events == events;
    case AssertFails => assert whole.events == events;
  }

  lemma ChunkParts(body: Buffer, data: Buffer, limit: nat, rest: Buffer, unread: Buffer, all: Buffer)
    requires data + rest == unread && body + unread == all
    ensures if limit < |data| then body + data[..limit] + data[limit..] + rest == all else body + data + [] + rest == all
  {
    assert limit < |data| ==> data == data[..limit] + data[limit..];
  }

  lemma SplitAt(body: Buffer, back: Buffer, unread: Buffer, all: Buffer)
    requires body + back + unread == all
    ensures body == all[..|body|] && back + unread == all[|body|..]
  {
  }

  /** What the dispatcher does with a message whose bytes are `s`. `e` may already have lost
      the header. */
  ghost function Dispatched(p: Protocol, h: PkgHeader, s: Buffer, e: M.Entry): (r: (M.Entry, PackageHandling))
    requires h.PackageSize() <= |s|
  {
    var id, content := h.contentSpecificValue, s[h.AdvertizedHeaderSize()..];
    var body := content[..h.contentSize];
    if !p.known(id) then
      (M.ShutdownAndTerminate(M.Deliver(e, [], content), UnexpectedInputPackageSize), InvalidPackage)
    else match p.parse(id, body)
    case None =>
      (M.ShutdownAndTerminate(M.Deliver(e, [], content[TakenByParser(p, id, body)..]), InvalidInputPackage), InvalidPackage)
    case Some(msg) =>
      var rest := content[h.contentSize..];
      var event := MessageArrived(id, msg, rest[..h.attachedBinarySize]);
      (M.Deliver(e, [event], rest[h.attachedBinarySize..]), if p.throws(event) then Thrown else FullyConsumed)
  }

  lemma OutcomeOfMessage(p: Protocol, h: PkgHeader, s: Buffer)
    requires h.PackageSize() <= |s|
    ensures var id, content := h.contentSpecificValue, s[h.AdvertizedHeaderSize()..];
            var body := content[..h.contentSize];
            var o := HandleMessage(p, h, s);
            if !p.known(id) then o == BodyRefused(h.AdvertizedHeaderSize(), UnexpectedInputPackageSize, [])
            else match p.parse(id, body)
            case None => o == BodyRefused(h.AdvertizedHeaderSize() + TakenByParser(p, id, body), InvalidInputPackage, [])
            case Some(msg) =>
              var event := MessageArrived(id, msg, content[h.contentSize..][..h.attachedBinarySize]);
              o == if p.throws(event) then BodyRefused(h.PackageSize(), ExceptionHandlingInput, [event])
                   else Consumed(h.PackageSize(), event)
  {
    var start := h.AdvertizedHeaderSize();
    MessageTail(s, start, h.contentSize, h.attachedBinarySize);
    BodySlices(s, start, h.contentSize, 0);
  }

  /** That is what the framing says. */
  lemma MessageEffects(p: Protocol, h: PkgHeader, s: Buffer, e: M.Entry)
    requires h.PackageSize() <= |s|
    ensures var o := HandleMessage(p, h, s);
            Dispatched(p, h, s, e) == (EffectOf(e.(rest := s), o), HandlingOf(o))
  {
    OutcomeOfMessage(p, h, s);
    hide HandleMessage, M.ShutdownAndTerminate, M.Replies;
    var start := h.AdvertizedHeaderSize();
    var body := s[start..][..h.contentSize];
    MessageTail(s, start, h.contentSize, h.attachedBinarySize);
    BodySlices(s, start, h.contentSize, TakenByParser(p, h.contentSpecificValue, body));
  }

  lemma BodySlices(s: Buffer, start: nat, content: nat, taken: nat)
    requires taken <= content && start + content <= |s|
    ensures s[start..][..content] == s[start..start + content]
    ensures s[start..][taken..] == s[start + taken..]
  {
  }

  lemma MessageTail(s: Buffer, start: nat, content: nat, attached: nat)
    requires start + content + attached <= |s|
    ensures s[start..][content..][..attached] == s[start + content..start + content + attached]
    ensures s[start..][content..][attached..] == s[start + content + attached..]
  {
  }

  lemma NothingReplied(active: bool, event: Event)
    requires event.MessageArrived?
    ensures M.Replies(active, [event]) == []
  {
    assert [event][..0] == [];
  }
}
