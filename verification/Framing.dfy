/** How an entry cuts its input stream into packages, as a function of the bytes. */
module Framing {
  import opened Bytes
  import opened PkgHeaders
  import opened Options

  /** A protocol message, whatever is in it. */
  datatype Message = Message(token: nat)

  datatype ShutdownReason =
    | UnderlyingConnection
    | UserInitiated
    | ExceptionHandlingInput
    | InvalidInputPackage
    | UnexpectedInputPackageSize
    | InvalidInputPackageSize
    | InvalidHeartbeatPackage
    | UnknownPkgContentType
    | HeartbeatReplyTimeout

  datatype Event =
    | MessageArrived(id: U16, msg: Message, attached: Buffer)
    | HeartbeatRequested
    | HeartbeatReplied

  /** What the framing is built on: the message ids of the protocol, the message parser
      (and how much a failing one takes), the consumer, and the size limit. */
  datatype Protocol = Protocol(
    known: U16 -> bool,
    parse: (U16, Buffer) -> Option<Message>,
    taken: (U16, Buffer) -> nat,
    throws: Event -> bool,
    maxValidPackageSize: U32)

  /** What the head of a stream turns out to be. */
  datatype Outcome =
    | NeedsMoreData
    | Consumed(size: nat, event: Event)
    | HeaderRefused(reason: ShutdownReason)
    | BodyRefused(size: nat, reason: ShutdownReason, delivered: seq<Event>)
    | AssertFails

  /** A run of the package loop: what it delivered, what it left, and why it stopped. */
  datatype Stop = Waiting | Refused(reason: ShutdownReason) | Faulted(reason: ShutdownReason) | Asserted

  datatype Fed = Fed(events: seq<Event>, rest: Buffer, stop: Stop)

  function TakenByParser(p: Protocol, id: U16, body: Buffer): (n: nat)
    ensures n <= |body|
  {
    var k := p.taken(id, body);
    if k <= |body| then k else |body|
  }

  /** A message whose header is good and whose bytes are all there. */
  function HandleMessage(p: Protocol, h: PkgHeader, s: Buffer): (o: Outcome)
    requires h.PackageSize() <= |s|
  {
    var start := h.AdvertizedHeaderSize();
    var id := h.contentSpecificValue;
    if !p.known(id) then BodyRefused(start, UnexpectedInputPackageSize, [])
    else
      var body := s[start..start + h.contentSize];
      match p.parse(id, body)
      case None => BodyRefused(start + TakenByParser(p, id, body), InvalidInputPackage, [])
      case Some(msg) =>
        var event := MessageArrived(id, msg, s[start + h.contentSize..h.PackageSize()]);
        if p.throws(event) then BodyRefused(h.PackageSize(), ExceptionHandlingInput, [event])
        else Consumed(h.PackageSize(), event)
  }

  function HandleHeartbeat(h: PkgHeader, event: Event): (o: Outcome)
  {
    if h.contentSize != 0 || h.attachedBinarySize != 0 then HeaderRefused(InvalidHeartbeatPackage)
    else if h.headerSizeDwords != IMAGE_SIZE_DWORDS then AssertFails
    else Consumed(HEADER_SIZE, event)
  }

  function ParseOne(p: Protocol, s: Buffer): (o: Outcome)
    ensures o.Consumed? ==> HEADER_SIZE <= o.size <= |s|
    ensures o.BodyRefused? ==> HEADER_SIZE <= o.size <= |s|
  {
    if |s| < HEADER_SIZE then NeedsMoreData
    else
      var h := Decode(s);
      if h.pkgContentType == PKG_CONTENT_MESSAGE then
        if p.maxValidPackageSize < h.contentSize then HeaderRefused(InvalidInputPackageSize)
        else if h.PackageSize() > |s| then NeedsMoreData
        else if h.headerSizeDwords < IMAGE_SIZE_DWORDS then AssertFails
        else HandleMessage(p, h, s)
      else if h.pkgContentType == PKG_CONTENT_HEARTBEAT_REQUEST then HandleHeartbeat(h, HeartbeatRequested)
      else if h.pkgContentType == PKG_CONTENT_HEARTBEAT_REPLY then HandleHeartbeat(h, HeartbeatReplied)
      else HeaderRefused(UnknownPkgContentType)
  }

  function Loop(p: Protocol, s: Buffer): (f: Fed)
    decreases |s|
  {
    match ParseOne(p, s)
    case NeedsMoreData => Fed([], s, Waiting)
    case HeaderRefused(reason) => Fed([], s, Refused(reason))
    case AssertFails => Fed([], s, Asserted)
    case BodyRefused(size, reason, delivered) => Fed(delivered, s[size..], Faulted(reason))
    case Consumed(size, event) =>
      var f := Loop(p, s[size..]);
      f.(events := [event] + f.events)
  }

  /** One chunk of input after another, each followed by a run of the loop. */
  function FeedAll(p: Protocol, chunks: seq<Buffer>): (f: Fed)
    decreases |chunks|
  {
    if chunks == [] then Fed([], [], Waiting) else
      var before := FeedAll(p, chunks[..|chunks| - 1]);
      var now := Loop(p, before.rest + chunks[|chunks| - 1]);
      now.(events := before.events + now.events)
  }

  lemma FeedSnoc(p: Protocol, chunks: seq<Buffer>, c: Buffer)
    ensures var f := FeedAll(p, chunks);
            var g := Loop(p, f.rest + c);
            FeedAll(p, chunks + [c]) == g.(events := f.events + g.events)
  {
    assert (chunks + [c])[..|chunks|] == chunks;
  }

  lemma FeedTwo(p: Protocol, a: Buffer, b: Buffer)
    ensures var f := Loop(p, a);
            var g := Loop(p, f.rest + b);
            FeedAll(p, [a, b]) == g.(events := f.events + g.events)
  {
    hide Loop;
    FeedSnoc(p, [], a);
    FeedSnoc(p, [a], b);
    var f := Loop(p, a);
    assert [] + a == a && [] + f.events == f.events;
    assert [] + [a] == [a] && [a] + [b] == [a, b];
  }

  // ---------- More input does not change what has been decided ----------

  lemma MoreInputSameOutcome(p: Protocol, a: Buffer, b: Buffer)
    ensures !ParseOne(p, a).NeedsMoreData? ==> ParseOne(p, a + b) == ParseOne(p, a)
  {
    if |a| >= HEADER_SIZE {
      DecodePrefix(a, b);
      var h := Decode(a);
      if h.PackageSize() <= |a| {
        var start := h.AdvertizedHeaderSize();
        assert (a + b)[start..start + h.contentSize] == a[start..start + h.contentSize];
        assert (a + b)[start + h.contentSize..h.PackageSize()] == a[start + h.contentSize..h.PackageSize()];
      }
    }
  }

  ghost predicate Progresses(p: Protocol, s: Buffer)
  {
    ParseOne(p, s).Consumed? || ParseOne(p, s).BodyRefused?
  }

  /** How a run over more input relates to a run over `a` that ended in `f`. */
  ghost predicate Continues(p: Protocol, f: Fed, b: Buffer, g: Fed)
  {
    if f.stop.Faulted? then g == Fed(f.events, f.rest + b, f.stop)
    else
      var h := Loop(p, f.rest + b);
      g == Fed(f.events + h.events, h.rest, h.stop)
  }

  lemma ContinuesAfter(p: Protocol, f: Fed, b: Buffer, g: Fed, event: Event)
    requires Continues(p, f, b, g)
    ensures Continues(p, f.(events := [event] + f.events), b, g.(events := [event] + g.events))
  {
    hide Loop;
    if !f.stop.Faulted? {
      var h := Loop(p, f.rest + b);
      assert [event] + (f.events + h.events) == [event] + f.events + h.events;
    }
  }

  /** A run over `a + b` is a run over `a` followed by one over what that left and `b`,
      unless a body was refused on the way. */
  lemma {:induction false} LoopSplit(p: Protocol, a: Buffer, b: Buffer)
    ensures Continues(p, Loop(p, a), b, Loop(p, a + b))
    decreases |a|
  {
    hide ParseOne;
    MoreInputSameOutcome(p, a, b);
    match ParseOne(p, a)
    case Consumed(size, event) =>
      assert (a + b)[size..] == a[size..] + b;
      LoopSplit(p, a[size..], b);
      hide Continues;
      ContinuesAfter(p, Loop(p, a[size..]), b, Loop(p, a[size..] + b), event);
    case BodyRefused(size, _, _) =>
      assert (a + b)[size..] == a[size..] + b;
    case _ =>
      assert [] + Loop(p, a + b).events == Loop(p, a + b).events;
  }

  /** What is left over is always where the loop got stuck. */
  lemma {:induction false} RestIsStuck(p: Protocol, s: Buffer)
    ensures var f := Loop(p, s);
            && |f.rest| <= |s| && f.rest == s[|s| - |f.rest|..]
            && (!f.stop.Faulted? ==> !Progresses(p, f.rest))
            && (f.stop.Refused? <==> !f.stop.Faulted? && ParseOne(p, f.rest).HeaderRefused?)
            && (f.stop.Asserted? ==> ParseOne(p, f.rest).AssertFails?)
    ensures Progresses(p, s) ==> |Loop(p, s).rest| < |s|
    decreases |s|
  {
    hide ParseOne;
    match ParseOne(p, s)
    case Consumed(size, event) => RestIsStuck(p, s[size..]);
    case _ =>
  }

  /** Input in which nothing is refused may be cut anywhere. */
  lemma WaitingSplit(p: Protocol, a: Buffer, b: Buffer)
    requires Loop(p, a + b).stop == Waiting
    ensures Loop(p, a).stop == Waiting
    ensures var f := Loop(p, a);
            var h := Loop(p, f.rest + b);
            Loop(p, a + b) == Fed(f.events + h.events, h.rest, Waiting) && h.stop == Waiting
  {
    hide ParseOne;
    var rest := Loop(p, a).rest;
    LoopSplit(p, a, b);
    RestIsStuck(p, a);
    MoreInputSameOutcome(p, rest, b);
  }

  // ---------- Where a body is refused ----------

  predicate WholeHeartbeat(s: Buffer)
  {
    |s| >= HEADER_SIZE
    && var h := Decode(s);
       && (h.pkgContentType == PKG_CONTENT_HEARTBEAT_REQUEST || h.pkgContentType == PKG_CONTENT_HEARTBEAT_REPLY)
       && h.contentSize == 0 && h.attachedBinarySize == 0 && h.headerSizeDwords == IMAGE_SIZE_DWORDS
  }

  /** A message with an acceptable header, and all of it there. */
  predicate WholeMessage(p: Protocol, s: Buffer)
  {
    |s| >= HEADER_SIZE
    && var h := Decode(s);
       && h.pkgContentType == PKG_CONTENT_MESSAGE && h.contentSize <= p.maxValidPackageSize
       && h.headerSizeDwords >= IMAGE_SIZE_DWORDS && h.PackageSize() <= |s|
  }

  predicate WholePackage(p: Protocol, s: Buffer)
  {
    WholeHeartbeat(s) || WholeMessage(p, s)
  }

  /** The id is not known, the content does not parse, or the consumer throws. */
  predicate BadBody(p: Protocol, s: Buffer)
    requires WholeMessage(p, s)
  {
    var h := Decode(s);
    var start, id := h.AdvertizedHeaderSize(), h.contentSpecificValue;
    var body := s[start..start + h.contentSize];
    || !p.known(id)
    || p.parse(id, body).None?
    || p.throws(MessageArrived(id, p.parse(id, body).value, s[start + h.contentSize..h.PackageSize()]))
  }

  /** How much of a message with a bad body is taken from the stream. */
  function TakenOfBad(p: Protocol, s: Buffer): (n: nat)
    requires WholeMessage(p, s) && BadBody(p, s)
    ensures HEADER_SIZE <= n <= Decode(s).PackageSize()
  {
    var h := Decode(s);
    var start, id := h.AdvertizedHeaderSize(), h.contentSpecificValue;
    var body := s[start..start + h.contentSize];
    if !p.known(id) then start
    else if p.parse(id, body).None? then start + TakenByParser(p, id, body)
    else h.PackageSize()
  }

  function BadBodyReason(p: Protocol, s: Buffer): (r: ShutdownReason)
    requires WholeMessage(p, s) && BadBody(p, s)
  {
    var h := Decode(s);
    var start, id := h.AdvertizedHeaderSize(), h.contentSpecificValue;
    if !p.known(id) then UnexpectedInputPackageSize
    else if p.parse(id, s[start..start + h.contentSize]).None? then InvalidInputPackage
    else ExceptionHandlingInput
  }

  /** What a whole package has the entry do, if its body is good or only its consumer throws. */
  function EventAt(p: Protocol, s: Buffer): (e: Option<Event>)
    requires WholePackage(p, s)
  {
    var h := Decode(s);
    var start, id := h.AdvertizedHeaderSize(), h.contentSpecificValue;
    if h.pkgContentType == PKG_CONTENT_HEARTBEAT_REQUEST then Some(HeartbeatRequested)
    else if h.pkgContentType == PKG_CONTENT_HEARTBEAT_REPLY then Some(HeartbeatReplied)
    else
      match p.parse(id, s[start..start + h.contentSize])
      case None => None
      case Some(msg) =>
        if p.known(id) then Some(MessageArrived(id, msg, s[start + h.contentSize..h.PackageSize()])) else None
  }

  /** The first message of a stream whose body is refused: how far the stream is taken then,
      where that message ends, and why it is refused. */
  datatype Refusal = Refusal(after: nat, end: nat, reason: ShutdownReason)

  function FirstRefusal(p: Protocol, s: Buffer): (r: Option<Refusal>)
    ensures r.Some? ==> HEADER_SIZE <= r.value.after <= r.value.end <= |s|
    decreases |s|
  {
    if !WholePackage(p, s) then None
    else
      var size := Decode(s).PackageSize();
      if WholeMessage(p, s) && BadBody(p, s) then Some(Refusal(TakenOfBad(p, s), size, BadBodyReason(p, s)))
      else
        match FirstRefusal(p, s[size..])
        case None => None
        case Some(r) => Some(Refusal(size + r.after, size + r.end, r.reason))
  }

  /** The streams on which chunking cannot matter: none of their messages has a bad body, or
      the first that has one ends the stream, or behind what is taken of it there is no
      whole package. */
  predicate Calm(p: Protocol, s: Buffer)
  {
    match FirstRefusal(p, s)
    case None => true
    case Some(r) => r.end == |s| || !WholePackage(p, s[r.after..])
  }

  lemma HeadOf(p: Protocol, s: Buffer)
    ensures WholePackage(p, s) <==> Progresses(p, s)
    ensures WholePackage(p, s) ==>
      var o := ParseOne(p, s);
      if WholeMessage(p, s) && BadBody(p, s) then
        o == BodyRefused(TakenOfBad(p, s), BadBodyReason(p, s), if EventAt(p, s).Some? then [EventAt(p, s).value] else [])
      else
        EventAt(p, s).Some? && o == Consumed(Decode(s).PackageSize(), EventAt(p, s).value)
  {
  }

  // ---------- Where a header is refused ----------

  /** What is wrong with a whole header: a message above the size limit, a heartbeat that is
      not empty, or an unknown type. */
  function HeaderFault(p: Protocol, s: Buffer): (r: Option<ShutdownReason>)
  {
    if |s| < HEADER_SIZE then None
    else
      var h := Decode(s);
      if h.pkgContentType > 2 then Some(UnknownPkgContentType)
      else if h.pkgContentType == 0 && h.contentSize > p.maxValidPackageSize then Some(InvalidInputPackageSize)
      else if h.pkgContentType != 0 && h.contentSize + h.attachedBinarySize > 0 then Some(InvalidHeartbeatPackage)
      else None
  }

  /** The header is not all there, or it is that of a message within the limit which is not. */
  predicate Incomplete(p: Protocol, s: Buffer)
  {
    || |s| < HEADER_SIZE
    || (Decode(s).pkgContentType == 0 && Decode(s).contentSize <= p.maxValidPackageSize && Decode(s).PackageSize() > |s|)
  }

  /** A header is refused exactly for its fault, and for that reason; more input is waited
      for exactly while the head is incomplete; an assertion fails for what remains. */
  lemma HeadDecides(p: Protocol, s: Buffer)
    ensures forall r :: ParseOne(p, s) == HeaderRefused(r) <==> HeaderFault(p, s) == Some(r)
    ensures ParseOne(p, s) == NeedsMoreData <==> Incomplete(p, s)
    ensures ParseOne(p, s) == AssertFails <==> !WholePackage(p, s) && !Incomplete(p, s) && HeaderFault(p, s).None?
  {
  }

  /** Why a run over a stream ends, said of the stream: its first bad body, or else the
      fault of the header it is left at, or else that it is left incomplete. */
  lemma LoopEndsForItsHead(p: Protocol, s: Buffer)
    ensures var f, bad := Loop(p, s), FirstRefusal(p, s);
            var fault := HeaderFault(p, f.rest);
            && (bad.Some? ==> f.stop == Faulted(bad.value.reason))
            && (bad.None? && fault.Some? ==> f.stop == Refused(fault.value))
            && (bad.None? && Incomplete(p, f.rest) ==> f.stop == Waiting)
            && (bad.None? && fault.None? && !Incomplete(p, f.rest) ==> f.stop == Asserted)
  {
    var f := Loop(p, s);
    LoopRefuses(p, s);
    RestIsStuck(p, s);
    HeadDecides(p, f.rest);
    hide ParseOne, HeaderFault, Incomplete;
    if f.stop.Refused? {
      RefusedLoop(p, s, f.stop.reason);
    }
    WaitingRest(p, s);
  }

  lemma {:induction false} WaitingRest(p: Protocol, s: Buffer)
    ensures Loop(p, s).stop.Waiting? ==> ParseOne(p, Loop(p, s).rest).NeedsMoreData?
    decreases |s|
  {
    hide ParseOne;
    if ParseOne(p, s).Consumed? {
      WaitingRest(p, s[ParseOne(p, s).size..]);
    }
  }

  /** The loop is stopped by the first refusal, right behind what is taken of it. */
  lemma {:induction false} LoopRefuses(p: Protocol, s: Buffer)
    ensures Loop(p, s).stop.Faulted? <==> FirstRefusal(p, s).Some?
    ensures var r := FirstRefusal(p, s);
            r.Some? ==> Loop(p, s).rest == s[r.value.after..] && Loop(p, s).stop == Faulted(r.value.reason)
    decreases |s|
  {
    HeadOf(p, s);
    hide ParseOne, WholeMessage, WholeHeartbeat, BadBody, TakenOfBad, BadBodyReason, EventAt;
    if WholePackage(p, s) && !(WholeMessage(p, s) && BadBody(p, s)) {
      LoopRefuses(p, s[Decode(s).PackageSize()..]);
    }
  }

  lemma SameHead(p: Protocol, a: Buffer, b: Buffer)
    requires |a| >= HEADER_SIZE && Decode(a).PackageSize() <= |a|
    ensures Decode(a + b) == Decode(a)
    ensures WholeHeartbeat(a + b) <==> WholeHeartbeat(a)
    ensures WholeMessage(p, a + b) <==> WholeMessage(p, a)
    ensures WholeMessage(p, a) ==> (BadBody(p, a + b) <==> BadBody(p, a))
    ensures WholeMessage(p, a) && BadBody(p, a) ==>
      TakenOfBad(p, a + b) == TakenOfBad(p, a) && BadBodyReason(p, a + b) == BadBodyReason(p, a)
  {
    hide Decode;
    DecodePrefix(a, b);
    var h := Decode(a);
    var start := h.AdvertizedHeaderSize();
    assert (a + b)[start..start + h.contentSize] == a[start..start + h.contentSize];
    assert (a + b)[start + h.contentSize..h.PackageSize()] == a[start + h.contentSize..h.PackageSize()];
  }

  lemma WholeIsThere(p: Protocol, s: Buffer)
    requires WholePackage(p, s)
    ensures HEADER_SIZE <= Decode(s).PackageSize() <= |s|
  {
  }

  lemma RefusalStep(p: Protocol, s: Buffer)
    requires WholePackage(p, s)
    ensures HEADER_SIZE <= Decode(s).PackageSize() <= |s|
    ensures var size := Decode(s).PackageSize();
            FirstRefusal(p, s) ==
              if WholeMessage(p, s) && BadBody(p, s) then Some(Refusal(TakenOfBad(p, s), size, BadBodyReason(p, s)))
              else match FirstRefusal(p, s[size..])
                   case None => None
                   case Some(r) => Some(Refusal(size + r.after, size + r.end, r.reason))
  {
    hide Decode, WholePackage, WholeMessage, BadBody, TakenOfBad, BadBodyReason;
    WholeIsThere(p, s);
  }

  lemma RefusalBehind(p: Protocol, a: Buffer, b: Buffer)
    requires WholePackage(p, a + b) && |a| >= HEADER_SIZE ==> |a| < Decode(a + b).PackageSize()
    ensures FirstRefusal(p, a).None?
    ensures var r := FirstRefusal(p, a + b); r.Some? ==> |a| < r.value.end
  {
    hide Decode, WholeMessage, WholeHeartbeat, BadBody, TakenOfBad, BadBodyReason;
    if WholePackage(p, a + b) {
      WholeIsThere(p, a + b);
    }
    if WholePackage(p, a) {
      WholeIsThere(p, a);
    }
    PartHasNone(p, a, b);
  }

  /** A part of a stream has the refusal of the whole, as soon as that message is all there. */
  lemma {:induction false} RefusalInPart(p: Protocol, a: Buffer, b: Buffer)
    ensures var r := FirstRefusal(p, a + b);
            FirstRefusal(p, a) == if r.Some? && r.value.end <= |a| then r else None
    decreases |a|
  {
    var s := a + b;
    hide Decode, WholeMessage, WholeHeartbeat, BadBody, TakenOfBad, BadBodyReason, FirstRefusal;
    if WholePackage(p, s) && |a| >= HEADER_SIZE && Decode(s).PackageSize() <= |a| {
      var size := Decode(s).PackageSize();
      WholeIsThere(p, s);
      DecodePrefix(a, b);
      SameHead(p, a, b);
      RefusalStep(p, s);
      RefusalStep(p, a);
      assert s[size..] == a[size..] + b;
      if !(WholeMessage(p, s) && BadBody(p, s)) {
        RefusalInPart(p, a[size..], b);
      }
    } else {
      RefusalBehind(p, a, b);
    }
  }

  lemma PartHasNone(p: Protocol, a: Buffer, b: Buffer)
    requires WholePackage(p, a + b) && |a| >= HEADER_SIZE ==> |a| < Decode(a + b).PackageSize()
    ensures !WholePackage(p, a)
  {
    if WholePackage(p, a) {
      WholeIsThere(p, a);
      SameHead(p, a, b);
      DecodePrefix(a, b);
    }
  }

  // ---------- Chunking ----------

  /** Every read brings something. */
  predicate NoneEmpty(chunks: seq<Buffer>)
  {
    forall c <- chunks :: c != []
  }

  ghost predicate SameResult(f: Fed, g: Fed)
  {
    f.events == g.events && f.rest == g.rest
  }

  /** One more chunk of a calm stream. */
  lemma CalmSnoc(p: Protocol, f: Fed, a: Buffer, c: Buffer, s: Buffer)
    requires Calm(p, s) && a + c <= s && (FirstRefusal(p, s).Some? ==> c != [])
    requires SameResult(f, Loop(p, a))
    ensures var h := Loop(p, f.rest + c);
            SameResult(h.(events := f.events + h.events), Loop(p, a + c))
  {
    hide Loop, Decode, WholePackage, FirstRefusal;
    LoopSplit(p, a, c);
    if Loop(p, a).stop.Faulted? {
      var tail := s[|a|..];
      assert s == a + tail;
      LoopRefuses(p, a);
      RefusalInPart(p, a, tail);
      var r := FirstRefusal(p, a).value;
      assert s[r.after..] == a[r.after..] + tail;
      assert a[r.after..] + tail == (a[r.after..] + c) + tail[|c|..];
      NotEvenInPart(p, a[r.after..] + c, tail[|c|..]);
      assert f.events + [] == f.events;
    }
  }

  lemma NotEvenInPart(p: Protocol, a: Buffer, b: Buffer)
    requires !WholePackage(p, a + b)
    ensures Loop(p, a).events == [] && Loop(p, a).rest == a
  {
    hide ParseOne;
    PartHasNone(p, a, b);
    HeadOf(p, a);
  }

  lemma {:induction false} CalmChunks(p: Protocol, chunks: seq<Buffer>, s: Buffer)
    requires Calm(p, s) && Flatten(chunks) <= s && (FirstRefusal(p, s).Some? ==> NoneEmpty(chunks))
    ensures SameResult(FeedAll(p, chunks), Loop(p, Flatten(chunks)))
    decreases |chunks|
  {
    if chunks != [] {
      hide Loop, Calm, FirstRefusal, SameResult;
      var n := |chunks| - 1;
      assert chunks == chunks[..n] + [chunks[n]];
      FlattenSnoc(chunks[..n], chunks[n]);
      assert NoneEmpty(chunks) ==> NoneEmpty(chunks[..n]) && chunks[n] != [] by {
        assert chunks[n] in chunks && forall c <- chunks[..n] :: c in chunks;
      }
      assert Flatten(chunks[..n]) <= s;
      CalmChunks(p, chunks[..n], s);
      CalmSnoc(p, FeedAll(p, chunks[..n]), Flatten(chunks[..n]), chunks[n], s);
    } else {
      assert Loop(p, []) == Fed([], [], Waiting);
    }
  }

  /** Input that ends with the loop waiting for more has no refusal in it. */
  lemma WaitingIsCalm(p: Protocol, s: Buffer)
    requires Loop(p, s).stop == Waiting
    ensures Calm(p, s) && FirstRefusal(p, s).None?
  {
    hide Loop;
    LoopRefuses(p, s);
  }

  /** The cut just before the last byte tells the streams that are not calm. */
  lemma LastByteTells(p: Protocol, s: Buffer)
    requires !Calm(p, s)
    ensures |s| >= 2
    ensures var n := |s| - 1; !SameResult(FeedAll(p, [s[..n], s[n..]]), Loop(p, s))
  {
    hide ParseOne, Loop, Decode, WholePackage;
    var n := |s| - 1;
    var r := FirstRefusal(p, s).value;
    assert s == s[..n] + s[n..];
    RefusalInPart(p, s[..n], s[n..]);
    LoopRefuses(p, s);
    LoopRefuses(p, s[..n]);
    FeedTwo(p, s[..n], s[n..]);
    var tail := s[r.after..];
    assert s[..n][r.after..] + s[n..] == tail;
    HeadOf(p, tail);
    RestIsStuck(p, tail);
  }

  /** Chunk independence: every way of cutting a stream into the chunks of its reads delivers
      the same events and leaves the same residue as the whole stream at once, exactly for
      the calm streams. */
  lemma ChunkingDoesNotMatter(p: Protocol, s: Buffer)
    ensures (forall chunks: seq<Buffer> :: NoneEmpty(chunks) && Flatten(chunks) == s ==> SameResult(FeedAll(p, chunks), Loop(p, s)))
       <==> Calm(p, s)
  {
    if Calm(p, s) {
      forall chunks: seq<Buffer> | NoneEmpty(chunks) && Flatten(chunks) == s
        ensures SameResult(FeedAll(p, chunks), Loop(p, s))
      {
        CalmChunks(p, chunks, s);
      }
    } else {
      LastByteTells(p, s);
      var n := |s| - 1;
      var chunks := [s[..n], s[n..]];
      FlattenSnoc([s[..n]], s[n..]);
      FlattenOne(s[..n]);
      assert [s[..n]] + [s[n..]] == chunks && s[..n] + s[n..] == s;
      assert NoneEmpty(chunks) && Flatten(chunks) == s;
    }
  }

  /** Where it goes wrong: the content of a message with an unknown id is not skipped, so
      with the next read it is taken for packages. */
  lemma UnknownIdIsOutOfStep(p: Protocol, id: U16, b: Byte)
    requires !p.known(id) && p.maxValidPackageSize >= HEADER_SIZE
    ensures var inner := Encode(Make(PKG_CONTENT_HEARTBEAT_REQUEST, 0, 0, 0));
            var s := Encode(Make(PKG_CONTENT_MESSAGE, id, HEADER_SIZE, 0)) + inner;
            && Loop(p, s + [b]) == Fed([], inner + [b], Faulted(UnexpectedInputPackageSize))
            && FeedAll(p, [s, [b]]).events == [HeartbeatRequested]
  {
    hide Encode, Decode;
    var ping := Make(PKG_CONTENT_HEARTBEAT_REQUEST, 0, 0, 0);
    var h := Make(PKG_CONTENT_MESSAGE, id, HEADER_SIZE, 0);
    var inner := Encode(ping);
    var s := Encode(h) + inner;
    assert s + [b] == Encode(h) + (inner + [b]);
    DecodeOfEncode(h, inner);
    DecodeOfEncode(h, inner + [b]);
    DecodeOfEncode(ping, [b]);
    assert s[HEADER_SIZE..] == inner && (s + [b])[HEADER_SIZE..] == inner + [b] && (inner + [b])[HEADER_SIZE..] == [b];
    FeedTwo(p, s, [b]);
    assert ParseOne(p, s) == ParseOne(p, s + [b]) == BodyRefused(HEADER_SIZE, UnexpectedInputPackageSize, []);
    assert ParseOne(p, inner + [b]) == Consumed(HEADER_SIZE, HeartbeatRequested);
    assert Loop(p, [b]).events == [];
  }

  /** Once a header has been refused, no later input is ever delivered. */
  lemma {:induction false} RefusedForever(p: Protocol, chunks: seq<Buffer>, more: seq<Buffer>)
    requires FeedAll(p, chunks).stop.Refused?
    ensures FeedAll(p, chunks + more).events == FeedAll(p, chunks).events
    ensures FeedAll(p, chunks + more).rest == FeedAll(p, chunks).rest + Flatten(more)
    ensures FeedAll(p, chunks + more).stop == FeedAll(p, chunks).stop
    decreases |more|
  {
    hide ParseOne;
    var f := FeedAll(p, chunks);
    if more == [] {
      assert chunks + more == chunks && f.rest + [] == f.rest;
    } else {
      var n := |more| - 1;
      var c := more[n];
      RefusedForever(p, chunks, more[..n]);
      RefusedHead(p, chunks, f.stop.reason);
      FeedSnoc(p, chunks + more[..n], c);
      assert chunks + more == chunks + more[..n] + [c];
      FlattenSnoc(more[..n], c);
      assert more == more[..n] + [c];
      assert f.rest + Flatten(more[..n]) + c == f.rest + Flatten(more);
      MoreInputSameOutcome(p, f.rest, Flatten(more));
    }
  }

  lemma RefusedHead(p: Protocol, chunks: seq<Buffer>, reason: ShutdownReason)
    requires FeedAll(p, chunks).stop == Refused(reason)
    ensures ParseOne(p, FeedAll(p, chunks).rest) == HeaderRefused(reason)
  {
    var n := |chunks| - 1;
    RefusedLoop(p, FeedAll(p, chunks[..n]).rest + chunks[n], reason);
  }

  lemma {:induction false} RefusedLoop(p: Protocol, s: Buffer, reason: ShutdownReason)
    requires Loop(p, s).stop == Refused(reason)
    ensures ParseOne(p, Loop(p, s).rest) == HeaderRefused(reason)
    decreases |s|
  {
    hide ParseOne;
    if ParseOne(p, s).Consumed? {
      RefusedLoop(p, s[ParseOne(p, s).size..], reason);
    }
  }
}
