/** An entry as a state machine: input, heartbeat checks and the ways it can end. */
module EntryModels {
  import opened Bytes
  import opened Framing
  import H = Heartbeats

  datatype Handler = NotSupplied | Supplied | SuppliedWithContext | WasCalled

  datatype HandlerCall = Called | CalledWith(reason: ShutdownReason)

  datatype Outgoing = RequestSent | ReplySent

  datatype Config = Config(protocol: Protocol, heartbeat: H.HeartbeatParams)

  datatype Entry = Entry(
    rest: Buffer,
    active: bool,
    handler: Handler,
    heartbeat: H.Heartbeat,
    delivered: seq<Event>,
    sent: seq<Outgoing>,
    handlerCalls: seq<HandlerCall>,
    connectionShutdowns: nat,
    asserted: bool)

  datatype Step = Input(chunk: Buffer, at: int) | TimerFired(at: int) | ConnectionDown | UserClose

  function Start(c: Config, handler: Handler, t0: int): (e: Entry)
  {
    Entry([], true, handler, H.Started(c.heartbeat, t0), [], [], [], 0, false)
  }

  // ---------- The ways to end ----------

  function CallOf(handler: Handler, reason: ShutdownReason): (calls: seq<HandlerCall>)
  {
    match handler
    case Supplied => [Called]
    case SuppliedWithContext => [CalledWith(reason)]
    case _ => []
  }

  function Terminate(e: Entry, reason: ShutdownReason): (e': Entry)
  {
    e.(handlerCalls := e.handlerCalls + CallOf(e.handler, reason), handler := WasCalled)
  }

  function ShutdownAndTerminate(e: Entry, reason: ShutdownReason): (e': Entry)
  {
    if !e.active then e
    else Terminate(e.(connectionShutdowns := e.connectionShutdowns + 1), reason).(active := false)
  }

  function HandleConnectionDown(e: Entry): (e': Entry)
  {
    if !e.active then e else Terminate(e, UnderlyingConnection).(active := false)
  }

  // ---------- Input ----------

  /** A heartbeat request is answered while the entry is active. */
  function Replies(active: bool, events: seq<Event>): (r: seq<Outgoing>)
  {
    if events == [] then [] else
      Replies(active, events[..|events| - 1])
      + if active && events[|events| - 1].HeartbeatRequested? then [ReplySent] else []
  }

  function Deliver(e: Entry, events: seq<Event>, rest: Buffer): (e': Entry)
  {
    e.(rest := rest, delivered := e.delivered + events, sent := e.sent + Replies(e.active, events))
  }

  function Conclude(e: Entry, stop: Stop): (e': Entry)
  {
    match stop
    case Waiting => e
    case Refused(reason) => ShutdownAndTerminate(e, reason)
    case Faulted(reason) => ShutdownAndTerminate(e, reason)
    case Asserted => e.(asserted := true)
  }

  /** The whole of `handle_input`. An exception (or a failed assertion, which ends the
      program) skips the update of the last input time. */
  function HandleInput(c: Config, e: Entry, chunk: Buffer, now: int): (e': Entry)
  {
    var f := Loop(c.protocol, e.rest + chunk);
    var e1 := Conclude(Deliver(e, f.events, f.rest), f.stop);
    if f.stop == Faulted(ExceptionHandlingInput) || f.stop.Asserted? then e1
    else e1.(heartbeat := H.Heard(e1.heartbeat, now))
  }

  function HandleTimer(c: Config, e: Entry, now: int): (e': Entry)
  {
    if !e.active then e else
      var (h, verdict) := H.Check(c.heartbeat, e.heartbeat, now);
      match verdict
      case Quiet => e.(heartbeat := h)
      case SendRequest => e.(heartbeat := h, sent := e.sent + [RequestSent])
      case GiveUp => ShutdownAndTerminate(e, HeartbeatReplyTimeout)
  }

  function Next(c: Config, e: Entry, s: Step): (e': Entry)
  {
    if e.asserted then e else
      match s
      case Input(chunk, at) => HandleInput(c, e, chunk, at)
      case TimerFired(at) => HandleTimer(c, e, at)
      case ConnectionDown => HandleConnectionDown(e)
      case UserClose => ShutdownAndTerminate(e, UserInitiated)
  }

  function Run(c: Config, e: Entry, steps: seq<Step>): (e': Entry)
    decreases |steps|
  {
    if steps == [] then e else Next(c, Run(c, e, steps[..|steps| - 1]), steps[|steps| - 1])
  }

  // ---------- The shutdown handler ----------

  /** The reasons to end that a step brings up, whether the entry still cares or not. */
  ghost function CausesOf(c: Config, e: Entry, s: Step): (r: seq<ShutdownReason>)
  {
    if e.asserted then [] else
      match s
      case ConnectionDown => [UnderlyingConnection]
      case UserClose => [UserInitiated]
      case TimerFired(at) =>
        if e.active && H.Check(c.heartbeat, e.heartbeat, at).1.GiveUp? then [HeartbeatReplyTimeout] else []
      case Input(chunk, _) =>
        match Loop(c.protocol, e.rest + chunk).stop
        case Refused(reason) => [reason]
        case Faulted(reason) => [reason]
        case _ => []
  }

  ghost function Causes(c: Config, e: Entry, steps: seq<Step>): (r: seq<ShutdownReason>)
    decreases |steps|
  {
    if steps == [] then [] else
      var before := steps[..|steps| - 1];
      Causes(c, e, before) + CausesOf(c, Run(c, e, before), steps[|steps| - 1])
  }

  /** The handler has run for the first cause, and for no other, with the reason if it takes
      one; the connection has been shut down once, unless it was the first to end. */
  ghost predicate EndedBy(e: Entry, handler: Handler, causes: seq<ShutdownReason>)
  {
    && (causes == [] || handler == NotSupplied ==> e.handlerCalls == [])
    && (causes != [] && handler == Supplied ==> e.handlerCalls == [Called])
    && (causes != [] && handler == SuppliedWithContext ==> e.handlerCalls == [CalledWith(causes[0])])
    && e.connectionShutdowns == (if causes == [] || causes[0] == UnderlyingConnection then 0 else 1)
    && (e.active <==> causes == [])
    && e.handler == (if causes == [] then handler else WasCalled)
  }

  lemma EndOnce(e: Entry, handler: Handler, causes: seq<ShutdownReason>, reason: ShutdownReason)
    requires EndedBy(e, handler, causes) && handler != WasCalled
    ensures reason != UnderlyingConnection ==> EndedBy(ShutdownAndTerminate(e, reason), handler, causes + [reason])
    ensures EndedBy(HandleConnectionDown(e), handler, causes + [UnderlyingConnection])
  {
    assert causes == [] ==> causes + [reason] == [reason] && causes + [UnderlyingConnection] == [UnderlyingConnection];
  }

  /** No input makes the loop stop for a reason that is not one of the input's. */
  lemma {:induction false} InputReasons(p: Protocol, s: Buffer)
    ensures forall r <- [UnderlyingConnection, UserInitiated, HeartbeatReplyTimeout] ::
              Loop(p, s).stop != Refused(r) && Loop(p, s).stop != Faulted(r)
    decreases |s|
  {
    if ParseOne(p, s).Consumed? {
      InputReasons(p, s[ParseOne(p, s).size..]);
    }
  }

  lemma StepEndsOnce(c: Config, e: Entry, handler: Handler, causes: seq<ShutdownReason>, s: Step)
    requires EndedBy(e, handler, causes) && handler != WasCalled
    ensures EndedBy(Next(c, e, s), handler, causes + CausesOf(c, e, s))
  {
    hide Loop, Replies, CallOf;
    assert causes + [] == causes;
    match s
    case Input(chunk, _) =>
      var f := Loop(c.protocol, e.rest + chunk);
      InputReasons(c.protocol, e.rest + chunk);
      if f.stop.Refused? || f.stop.Faulted? {
        assert f.stop.reason != UnderlyingConnection by {
          assert UnderlyingConnection in [UnderlyingConnection, UserInitiated, HeartbeatReplyTimeout];
        }
        EndOnce(Deliver(e, f.events, f.rest), handler, causes, f.stop.reason);
      }
    case TimerFired(_) => EndOnce(e, handler, causes, HeartbeatReplyTimeout);
    case ConnectionDown => EndOnce(e, handler, causes, UnderlyingConnection);
    case UserClose => EndOnce(e, handler, causes, UserInitiated);
  }

  /** Over every interleaving the handler runs once if there is a cause to end, for the first
      one to reach the entry; and the connection is shut down once, unless that first cause
      was its own end. */
  lemma {:induction false} HandlerRunsForFirstCause(c: Config, handler: Handler, t0: int, steps: seq<Step>)
    requires handler != WasCalled
    ensures EndedBy(Run(c, Start(c, handler, t0), steps), handler, Causes(c, Start(c, handler, t0), steps))
    decreases |steps|
  {
    if steps != [] {
      hide EndedBy, Next, CausesOf;
      var n := |steps| - 1;
      var e, causes := Run(c, Start(c, handler, t0), steps[..n]), Causes(c, Start(c, handler, t0), steps[..n]);
      HandlerRunsForFirstCause(c, handler, t0, steps[..n]);
      StepEndsOnce(c, e, handler, causes, steps[n]);
    }
  }

  // ---------- The input ----------

  function ChunksOf(steps: seq<Step>): (r: seq<Buffer>)
  {
    if steps == [] then [] else
      ChunksOf(steps[..|steps| - 1])
      + match steps[|steps| - 1] case Input(chunk, _) => [chunk] case _ => []
  }

  lemma StepDelivers(c: Config, e: Entry, s: Step)
    requires !Next(c, e, s).asserted
    ensures var e' := Next(c, e, s);
            && !e.asserted
            && (s.Input? ==> var f := Loop(c.protocol, e.rest + s.chunk);
                             e'.delivered == e.delivered + f.events && e'.rest == f.rest)
            && (!s.Input? ==> e'.delivered == e.delivered && e'.rest == e.rest)
  {
    hide Loop, Replies, CallOf;
  }

  /** Whatever else happens in between, what an entry delivers is what feeding the chunks to
      the framing loop delivers. */
  lemma {:induction false} DeliversWhatIsFramed(c: Config, handler: Handler, t0: int, steps: seq<Step>)
    requires !Run(c, Start(c, handler, t0), steps).asserted
    ensures var e := Run(c, Start(c, handler, t0), steps);
            var f := FeedAll(c.protocol, ChunksOf(steps));
            e.delivered == f.events && e.rest == f.rest
    decreases |steps|
  {
    if steps != [] {
      hide Loop, Next, FeedAll;
      var n := |steps| - 1;
      StepDelivers(c, Run(c, Start(c, handler, t0), steps[..n]), steps[n]);
      DeliversWhatIsFramed(c, handler, t0, steps[..n]);
      if steps[n].Input? {
        FeedSnoc(c.protocol, ChunksOf(steps[..n]), steps[n].chunk);
      } else {
        assert ChunksOf(steps[..n]) + [] == ChunksOf(steps[..n]);
      }
    }
  }

  ghost predicate NotForInput(causes: seq<ShutdownReason>)
  {
    forall r <- causes :: r == UnderlyingConnection || r == UserInitiated || r == HeartbeatReplyTimeout
  }

  /** Input in which nothing is refused never ends an entry, whatever else does, and is
      delivered however it is cut. */
  lemma {:induction false} GoodInputIsDelivered(c: Config, handler: Handler, t0: int, steps: seq<Step>)
    requires Loop(c.protocol, Flatten(ChunksOf(steps))).stop == Waiting
    ensures var e := Run(c, Start(c, handler, t0), steps);
            var f := Loop(c.protocol, Flatten(ChunksOf(steps)));
            !e.asserted && e.delivered == f.events && e.rest == f.rest
    ensures NotForInput(Causes(c, Start(c, handler, t0), steps))
    decreases |steps|
  {
    if steps != [] {
      hide Loop, Next, CausesOf;
      var n := |steps| - 1;
      var chunks := ChunksOf(steps[..n]);
      var e := Run(c, Start(c, handler, t0), steps[..n]);
      if steps[n].Input? {
        FlattenSnoc(chunks, steps[n].chunk);
        WaitingSplit(c.protocol, Flatten(chunks), steps[n].chunk);
      } else {
        assert chunks + [] == chunks;
      }
      GoodInputIsDelivered(c, handler, t0, steps[..n]);
      GoodStep(c, e, steps[n]);
      StepDelivers(c, e, steps[n]);
    }
  }

  lemma GoodStep(c: Config, e: Entry, s: Step)
    requires !e.asserted && (s.Input? ==> Loop(c.protocol, e.rest + s.chunk).stop == Waiting)
    ensures !Next(c, e, s).asserted && NotForInput(CausesOf(c, e, s))
  {
    hide Loop, Replies, CallOf;
  }

  /** What input does to an active entry: a bad body, or else the fault of the header that
      the stream is left at, ends it for that reason; else it stays active. */
  lemma BadInputEndsEntry(c: Config, e: Entry, chunk: Buffer, at: int)
    requires e.active && !e.asserted
    ensures var e' := Next(c, e, Input(chunk, at));
            var bad, fault := FirstRefusal(c.protocol, e.rest + chunk), HeaderFault(c.protocol, e'.rest);
            if bad.Some? then EndsFor(e, e', bad.value.reason)
            else if fault.Some? then EndsFor(e, e', fault.value)
            else e'.active && e'.handlerCalls == e.handlerCalls && (e'.asserted <==> !Incomplete(c.protocol, e'.rest))
  {
    LoopEndsForItsHead(c.protocol, e.rest + chunk);
    hide Loop, Replies, HeaderFault, FirstRefusal, Incomplete;
  }

  ghost predicate EndsFor(e: Entry, e': Entry, reason: ShutdownReason)
  {
    && !e'.active && e'.connectionShutdowns == e.connectionShutdowns + 1
    && (e.handler == Supplied ==> e'.handlerCalls == e.handlerCalls + [Called])
    && (e.handler == SuppliedWithContext ==> e'.handlerCalls == e.handlerCalls + [CalledWith(reason)])
  }

  /** No active entry sits on input that it should have refused or taken: what it keeps is
      the beginning of a package. */
  lemma {:induction false} ActiveEntryWaitsForInput(c: Config, handler: Handler, t0: int, steps: seq<Step>)
    ensures var e := Run(c, Start(c, handler, t0), steps);
            e.active && !e.asserted ==> Incomplete(c.protocol, e.rest)
    decreases |steps|
  {
    if steps != [] {
      hide Next, Incomplete;
      var n := |steps| - 1;
      ActiveEntryWaitsForInput(c, handler, t0, steps[..n]);
      StepWaits(c, Run(c, Start(c, handler, t0), steps[..n]), steps[n]);
    }
  }

  lemma StepWaits(c: Config, e: Entry, s: Step)
    requires e.active && !e.asserted ==> Incomplete(c.protocol, e.rest)
    ensures var e' := Next(c, e, s); e'.active && !e'.asserted ==> Incomplete(c.protocol, e'.rest)
  {
    if s.Input? && e.active && !e.asserted {
      BadInputEndsEntry(c, e, s.chunk, s.at);
    }
    hide Loop, Incomplete, Replies, HeaderFault, FirstRefusal;
  }

  // ---------- The heartbeat ----------

  /** A step as the heartbeat sees it. */
  ghost function Timing(c: Config, e: Entry, s: Step, now: int): (t: H.TimedEvent)
  {
    match s
    case TimerFired(at) => H.Fire(at)
    case Input(chunk, at) => if Loop(c.protocol, e.rest + chunk).stop.Waiting? then H.Input(at) else H.Close(at)
    case _ => H.Close(now)
  }

  ghost function Timings(c: Config, e: Entry, steps: seq<Step>, t0: int): (r: seq<H.TimedEvent>)
    decreases |steps|
  {
    if steps == [] then [] else
      var before := steps[..|steps| - 1];
      var done := Timings(c, e, before, t0);
      done + [Timing(c, Run(c, e, before), steps[|steps| - 1], H.Run(c.heartbeat, t0, done).now)]
  }

  /** An entry that a failed assertion has ended is not active any more either. */
  ghost predicate Matches(e: Entry, s: H.Timed, causes: seq<ShutdownReason>)
  {
    && s.active == (e.active && !e.asserted)
    && (e.active && !e.asserted ==> s.heartbeat == e.heartbeat)
    && (s.gaveUp <==> HeartbeatReplyTimeout in causes)
    && (s.gaveUp ==> !s.active)
  }

  lemma StepMatches(c: Config, e: Entry, s: H.Timed, causes: seq<ShutdownReason>, step: Step, now: int)
    requires Matches(e, s, causes)
    ensures Matches(Next(c, e, step), H.Step(c.heartbeat, s, Timing(c, e, step, now)), causes + CausesOf(c, e, step))
  {
    hide Loop, Replies, CallOf;
    if step.Input? {
      InputReasons(c.protocol, e.rest + step.chunk);
      assert HeartbeatReplyTimeout in [UnderlyingConnection, UserInitiated, HeartbeatReplyTimeout];
    }
  }

  /** The timed machine's view of a run of an entry. */
  ghost function AsTimed(c: Config, handler: Handler, t0: int, steps: seq<Step>): (s: H.Timed)
  {
    H.Run(c.heartbeat, t0, TimingsOf(c, handler, t0, steps))
  }

  ghost function TimingsOf(c: Config, handler: Handler, t0: int, steps: seq<Step>): (r: seq<H.TimedEvent>)
  {
    Timings(c, Start(c, handler, t0), steps, t0)
  }

  /** The heartbeat of an entry is the timed machine: it is active as long, at the same
      point, and gives up exactly when the entry finds the heartbeat overdue. */
  lemma {:induction false} HeartbeatIsTimed(c: Config, handler: Handler, t0: int, steps: seq<Step>)
    ensures Matches(Run(c, Start(c, handler, t0), steps), AsTimed(c, handler, t0, steps),
                    Causes(c, Start(c, handler, t0), steps))
    decreases |steps|
  {
    if steps != [] {
      hide Next, CausesOf, Timing, Matches, H.Step;
      var n := |steps| - 1;
      var e0 := Start(c, handler, t0);
      HeartbeatIsTimed(c, handler, t0, steps[..n]);
      var done := Timings(c, e0, steps[..n], t0);
      var s := H.Run(c.heartbeat, t0, done);
      StepMatches(c, Run(c, e0, steps[..n]), s, Causes(c, e0, steps[..n]), steps[n], s.now);
      var last := Timing(c, Run(c, e0, steps[..n]), steps[n], s.now);
      assert (done + [last])[..|done|] == done;
    }
  }

  /** No false alarm: with punctual timers, an entry whose peer is always heard soon enough
      after a request is never ended, and its user never told, because of the heartbeat. */
  lemma NeverEndedBySilence(c: Config, handler: Handler, t0: int, steps: seq<Step>, within: int)
    requires c.heartbeat.Sensible() && handler != WasCalled
    requires H.LegalRun(c.heartbeat, t0, TimingsOf(c, handler, t0, steps), 0)
    requires H.Responsive(c.heartbeat, t0, TimingsOf(c, handler, t0, steps), within)
    requires within < c.heartbeat.initiate && within < c.heartbeat.await - c.heartbeat.initiate
    ensures HeartbeatReplyTimeout !in Causes(c, Start(c, handler, t0), steps)
    ensures CalledWith(HeartbeatReplyTimeout) !in Run(c, Start(c, handler, t0), steps).handlerCalls
  {
    hide Run, Causes, Timings, H.Run, H.LegalRun, H.Responsive;
    HeartbeatIsTimed(c, handler, t0, steps);
    H.NoFalseAlarm(c.heartbeat, t0, TimingsOf(c, handler, t0, steps), within);
    HandlerRunsForFirstCause(c, handler, t0, steps);
  }

  /** Detection: no entry is active longer than this after its last input. */
  lemma SilentPeerEndsEntry(c: Config, handler: Handler, t0: int, steps: seq<Step>, t: int, late: int)
    requires c.heartbeat.Sensible() && late >= 0
    requires H.LegalRun(c.heartbeat, t0, TimingsOf(c, handler, t0, steps), late)
    requires H.InTime(AsTimed(c, handler, t0, steps), t, late)
    ensures var e := Run(c, Start(c, handler, t0), steps);
            e.active && !e.asserted ==> t <= e.heartbeat.lastInputAt + c.heartbeat.Longest() + 2 * late
  {
    hide Run, Causes, Timings, H.Run, H.LegalRun;
    HeartbeatIsTimed(c, handler, t0, steps);
    if AsTimed(c, handler, t0, steps).active {
      H.SilenceIsDetected(c.heartbeat, t0, TimingsOf(c, handler, t0, steps), t, late);
    }
  }

  /** The entry is ended for silence only with a request out, and after `await` of silence. */
  lemma EndedBySilenceForAReason(c: Config, handler: Handler, t0: int, steps: seq<Step>, at: int, late: int)
    requires H.LegalRun(c.heartbeat, t0, TimingsOf(c, handler, t0, steps + [TimerFired(at)]), late)
    ensures var e := Run(c, Start(c, handler, t0), steps);
            CausesOf(c, e, TimerFired(at)) == [HeartbeatReplyTimeout] ==>
              e.heartbeat.sentCount == 1 && at >= e.heartbeat.lastInputAt + c.heartbeat.await
  {
    var done := TimingsOf(c, handler, t0, steps);
    assert (steps + [TimerFired(at)])[..|steps|] == steps;
    assert TimingsOf(c, handler, t0, steps + [TimerFired(at)]) == done + [H.Fire(at)];
    assert (done + [H.Fire(at)])[..|done|] == done;
    hide Run, Causes, Timings, H.Run;
    HeartbeatIsTimed(c, handler, t0, steps);
    H.RunRequests(c.heartbeat, t0, done, late);
  }

  // ---------- What goes out ----------

  /** The events delivered in the steps that found the entry active. */
  ghost function HeardWhileActive(c: Config, handler: Handler, t0: int, steps: seq<Step>): (r: seq<Event>)
    decreases |steps|
  {
    if steps == [] then [] else
      var before, after := Run(c, Start(c, handler, t0), steps[..|steps| - 1]), Run(c, Start(c, handler, t0), steps);
      HeardWhileActive(c, handler, t0, steps[..|steps| - 1])
      + if before.active && |before.delivered| <= |after.delivered| then after.delivered[|before.delivered|..] else []
  }

  lemma {:induction false} OneReplyEach(active: bool, events: seq<Event>)
    ensures multiset(Replies(active, events))[ReplySent] == if active then multiset(events)[HeartbeatRequested] else 0
    ensures multiset(Replies(active, events))[RequestSent] == 0
  {
    if events != [] {
      var n := |events| - 1;
      OneReplyEach(active, events[..n]);
      assert events == events[..n] + [events[n]];
    }
  }

  /** What one step sends: requests as the timed machine asks, replies as requests are heard. */
  ghost predicate Sends(e: Entry, e': Entry, s: H.Timed, s': H.Timed)
  {
    && e.delivered <= e'.delivered
    && multiset(e'.sent)[RequestSent] == multiset(e.sent)[RequestSent] + H.Requests(s'.log) - H.Requests(s.log)
    && multiset(e'.sent)[ReplySent] == multiset(e.sent)[ReplySent]
         + if e.active then multiset(e'.delivered[|e.delivered|..])[HeartbeatRequested] else 0
  }

  lemma OneMoreMark(log: seq<H.Mark>, mark: H.Mark)
    ensures H.Requests(log + [mark]) == H.Requests(log) + if mark.Asked? then 1 else 0
  {
    assert (log + [mark])[..|log|] == log;
  }

  lemma InputSends(e: Entry, events: seq<Event>, e': Entry, s: H.Timed, s': H.Timed)
    requires e'.delivered == e.delivered + events && e'.sent == e.sent + Replies(e.active, events)
    requires H.Requests(s'.log) == H.Requests(s.log)
    ensures Sends(e, e', s, s')
  {
    OneReplyEach(e.active, events);
    hide Replies, H.Requests;
    assert e'.delivered[|e.delivered|..] == events;
  }

  lemma OtherSends(e: Entry, e': Entry, s: H.Timed, s': H.Timed, asks: bool)
    requires e'.delivered == e.delivered && e'.sent == e.sent + if asks then [RequestSent] else []
    requires H.Requests(s'.log) == H.Requests(s.log) + if asks then 1 else 0
    ensures Sends(e, e', s, s')
  {
    hide H.Requests;
    assert e'.delivered[|e.delivered|..] == [];
  }

  lemma StepSends(c: Config, e: Entry, s: H.Timed, causes: seq<ShutdownReason>, step: Step, now: int)
    requires Matches(e, s, causes)
    ensures Sends(e, Next(c, e, step), s, H.Step(c.heartbeat, s, Timing(c, e, step, now)))
  {
    hide Loop, Replies, CallOf, H.Requests, Sends;
    var e', s' := Next(c, e, step), H.Step(c.heartbeat, s, Timing(c, e, step, now));
    if step.Input? && !e.asserted {
      OneMoreMark(s.log, H.Answered(step.at));
      InputSends(e, Loop(c.protocol, e.rest + step.chunk).events, e', s, s');
    } else {
      var asks := step.TimerFired? && e.active && !e.asserted && H.Check(c.heartbeat, e.heartbeat, step.at).1.SendRequest?;
      if step.TimerFired? {
        OneMoreMark(s.log, H.Asked(step.at));
      }
      if step.Input? {
        OneMoreMark(s.log, H.Answered(step.at));
      }
      assert e.sent + [] == e.sent;
      OtherSends(e, e', s, s', asks);
    }
  }

  /** Every request that the timed machine asks for is sent, and every request heard while the
      entry is active is answered; nothing else goes out by itself. */
  lemma {:induction false} HeartbeatsAreSent(c: Config, handler: Handler, t0: int, steps: seq<Step>)
    ensures var e := Run(c, Start(c, handler, t0), steps);
            && multiset(e.sent)[RequestSent] == H.Requests(AsTimed(c, handler, t0, steps).log)
            && multiset(e.sent)[ReplySent] == multiset(HeardWhileActive(c, handler, t0, steps))[HeartbeatRequested]
    decreases |steps|
  {
    if steps != [] {
      hide Next, CausesOf, Timing, Matches, H.Step, H.Requests, Replies;
      var n := |steps| - 1;
      var e0 := Start(c, handler, t0);
      var e := Run(c, e0, steps[..n]);
      HeartbeatsAreSent(c, handler, t0, steps[..n]);
      HeartbeatIsTimed(c, handler, t0, steps[..n]);
      var done := Timings(c, e0, steps[..n], t0);
      var s := H.Run(c.heartbeat, t0, done);
      StepSends(c, e, s, Causes(c, e0, steps[..n]), steps[n], s.now);
      var last := Timing(c, e, steps[n], s.now);
      assert (done + [last])[..|done|] == done;
    }
  }
}
