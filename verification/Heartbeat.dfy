/** The heartbeat of an entry as a timed machine: when it asks a silent peer for a sign of
    life, and when it gives up. */
module Heartbeats {
  datatype HeartbeatParams = HeartbeatParams(initiate: int, await: int)
  {
    /** Both timeouts are positive and the second one is the longer. */
    predicate Sensible()
    {
      0 < initiate < await
    }

    function Longest(): (t: int)
    {
      if 2 * initiate < await then await else 2 * initiate
    }

    /** The longest the timer can be armed for with no request out. */
    function Lookahead(): (t: int)
    {
      if initiate < await - initiate then await - initiate else initiate
    }
  }

  datatype Heartbeat = Heartbeat(lastInputAt: int, sentCount: nat, deadline: int)

  datatype Verdict = Quiet | SendRequest | GiveUp

  /** A heartbeat check at time `now`. */
  function Check(c: HeartbeatParams, h: Heartbeat, now: int): (r: (Heartbeat, Verdict))
  {
    var since := now - h.lastInputAt;
    if since < c.initiate then
      (h.(deadline := now + (c.initiate - since)), Quiet)
    else if h.sentCount != 0 && since >= c.await then
      (h, GiveUp)
    else
      (h.(sentCount := h.sentCount + 1, deadline := now + if c.await > since then c.await - since else c.initiate),
       SendRequest)
  }

  function Heard(h: Heartbeat, now: int): (h': Heartbeat)
  {
    h.(lastInputAt := now, sentCount := 0)
  }

  function Started(c: HeartbeatParams, now: int): (h: Heartbeat)
  {
    Heartbeat(now, 0, now + c.initiate)
  }

  // ---------- Runs in time ----------

  /** Input arrives, the timer fires, or the entry is closed for another reason. */
  datatype TimedEvent = Input(at: int) | Fire(at: int) | Close(at: int)

  datatype Mark = Asked(at: int) | Answered(at: int)

  datatype Timed = Timed(
    heartbeat: Heartbeat,
    active: bool,
    now: int,
    requestAt: int,
    log: seq<Mark>,
    gaveUp: bool)

  function Begin(c: HeartbeatParams, t0: int): (s: Timed)
  {
    Timed(Started(c, t0), true, t0, t0, [], false)
  }

  function Step(c: HeartbeatParams, s: Timed, e: TimedEvent): (s': Timed)
  {
    if !s.active then s.(now := e.at) else
      match e
      case Input(t) => s.(heartbeat := Heard(s.heartbeat, t), now := t, log := s.log + [Answered(t)])
      case Close(t) => s.(active := false, now := t)
      case Fire(t) =>
        var (h, verdict) := Check(c, s.heartbeat, t);
        match verdict
        case Quiet => s.(heartbeat := h, now := t)
        case SendRequest => s.(heartbeat := h, now := t, requestAt := t, log := s.log + [Asked(t)])
        case GiveUp => s.(active := false, now := t, gaveUp := true)
  }

  /** How many requests a log holds. */
  function Requests(log: seq<Mark>): (n: nat)
  {
    if log == [] then 0 else Requests(log[..|log| - 1]) + if log[|log| - 1].Asked? then 1 else 0
  }

  /** Time goes forward, and a timer fires neither before its deadline nor more than `late`
      after it. */
  predicate InTime(s: Timed, t: int, late: int)
  {
    s.now <= t && (s.active ==> t <= s.heartbeat.deadline + late)
  }

  predicate MayHappen(s: Timed, e: TimedEvent, late: int)
  {
    InTime(s, e.at, late) && (s.active && e.Fire? ==> s.heartbeat.deadline <= e.at)
  }

  function Run(c: HeartbeatParams, t0: int, events: seq<TimedEvent>): (s: Timed)
    decreases |events|
  {
    if events == [] then Begin(c, t0)
    else Step(c, Run(c, t0, events[..|events| - 1]), events[|events| - 1])
  }

  predicate LegalRun(c: HeartbeatParams, t0: int, events: seq<TimedEvent>, late: int)
    decreases |events|
  {
    events == []
    || (&& LegalRun(c, t0, events[..|events| - 1], late)
        && MayHappen(Run(c, t0, events[..|events| - 1]), events[|events| - 1], late))
  }

  /** While a request is out, nothing happens later than `within` after it, except that the
      peer is heard. */
  predicate Responsive(c: HeartbeatParams, t0: int, events: seq<TimedEvent>, within: int)
    decreases |events|
  {
    events == []
    || var before := Run(c, t0, events[..|events| - 1]);
       var e := events[|events| - 1];
       && Responsive(c, t0, events[..|events| - 1], within)
       && (before.active && before.heartbeat.sentCount > 0 ==> e.at <= before.requestAt + within)
  }

  // ---------- The invariant ----------

  ghost predicate TimerOk(c: HeartbeatParams, s: Timed, late: int)
  {
    var h := s.heartbeat;
    && h.lastInputAt <= s.now
    && h.sentCount <= 1
    && (h.sentCount == 0 ==> h.deadline <= h.lastInputAt + c.Lookahead())
    && (h.sentCount == 1 ==>
          && h.lastInputAt + c.initiate <= s.requestAt <= s.now
          && s.requestAt <= h.lastInputAt + c.Lookahead() + late
          && h.lastInputAt + c.await <= h.deadline <= h.lastInputAt + c.Longest() + late
          && (h.deadline == h.lastInputAt + c.await || h.deadline == s.requestAt + c.initiate))
  }

  /** What holds for any timeouts: a request comes after the first timeout, and with one out
      the timer leads past the second. */
  ghost predicate RequestOk(c: HeartbeatParams, s: Timed)
  {
    var h := s.heartbeat;
    && h.sentCount <= 1
    && (h.sentCount == 1 ==>
          && h.lastInputAt + c.initiate <= s.requestAt <= s.now
          && (h.lastInputAt + c.await <= h.deadline || h.lastInputAt + c.await <= s.now)
          && (s.requestAt >= h.lastInputAt + c.await ==> h.deadline >= s.requestAt + c.initiate))
  }

  ghost predicate LogOk(s: Timed)
  {
    && (forall i :: 0 <= i < |s.log| - 1 ==> s.log[i].Asked? ==> s.log[i + 1].Answered?)
    && (s.log != [] && s.log[|s.log| - 1].Asked? <==> s.heartbeat.sentCount > 0)
  }

  lemma StepKeepsTimer(c: HeartbeatParams, s: Timed, e: TimedEvent, late: int)
    requires c.Sensible() && late >= 0 && s.active && TimerOk(c, s, late) && MayHappen(s, e, late)
    ensures Step(c, s, e).active ==> TimerOk(c, Step(c, s, e), late)
  {
  }

  lemma StepKeepsRequest(c: HeartbeatParams, s: Timed, e: TimedEvent, late: int)
    requires s.active && RequestOk(c, s) && LogOk(s) && MayHappen(s, e, late)
    ensures LogOk(Step(c, s, e)) && (Step(c, s, e).active ==> RequestOk(c, Step(c, s, e)))
  {
  }

  lemma {:induction false} RunRequests(c: HeartbeatParams, t0: int, events: seq<TimedEvent>, late: int)
    requires LegalRun(c, t0, events, late)
    ensures var s := Run(c, t0, events);
            LogOk(s) && (s.active ==> RequestOk(c, s)) && (s.gaveUp ==> !s.active)
    decreases |events|
  {
    if events != [] {
      var n := |events| - 1;
      RunRequests(c, t0, events[..n], late);
      var s := Run(c, t0, events[..n]);
      if s.active {
        StepKeepsRequest(c, s, events[n], late);
      }
    }
  }

  lemma {:induction false} RunKeeps(c: HeartbeatParams, t0: int, events: seq<TimedEvent>, late: int)
    requires c.Sensible() && late >= 0 && LegalRun(c, t0, events, late)
    ensures var s := Run(c, t0, events);
            (s.active ==> TimerOk(c, s, late)) && (s.gaveUp ==> !s.active)
    decreases |events|
  {
    if events != [] {
      var n := |events| - 1;
      RunKeeps(c, t0, events[..n], late);
      var s := Run(c, t0, events[..n]);
      if s.active {
        StepKeepsTimer(c, s, events[n], late);
      }
    }
  }

  // ---------- What the detector guarantees ----------

  /** At most one request is sent per silent period: between two requests the peer has
      been heard. This and the next hold for any timeouts and any delay of the timers. */
  lemma OneRequestPerSilence(c: HeartbeatParams, t0: int, events: seq<TimedEvent>, late: int)
    requires LegalRun(c, t0, events, late)
    ensures var s := Run(c, t0, events);
            && (s.active ==> s.heartbeat.sentCount <= 1)
            && forall i :: 0 <= i < |s.log| - 1 ==> s.log[i].Asked? ==> s.log[i + 1].Answered?
  {
    RunRequests(c, t0, events, late);
  }

  /** Whatever the timer does, early or late: a check gives up exactly when a request is out
      and both timeouts of silence have passed. */
  lemma GivesUpExactlyWhen(c: HeartbeatParams, t0: int, events: seq<TimedEvent>, t: int)
    requires !Run(c, t0, events).gaveUp
    ensures var s := Run(c, t0, events);
            var silence := t - s.heartbeat.lastInputAt;
            Run(c, t0, events + [Fire(t)]).gaveUp
            <==> s.active && s.heartbeat.sentCount > 0 && silence >= c.await && silence >= c.initiate
  {
    assert (events + [Fire(t)])[..|events|] == events;
  }

  /** The entry gives up only after a request in the present silent period, and after at
      least `await` of silence. A request that went out later than that leaves the peer
      `initiate` to answer. */
  lemma GivesUpForAReason(c: HeartbeatParams, t0: int, events: seq<TimedEvent>, t: int, late: int)
    requires LegalRun(c, t0, events + [Fire(t)], late)
    requires !Run(c, t0, events).gaveUp && Run(c, t0, events + [Fire(t)]).gaveUp
    ensures var s := Run(c, t0, events);
            && s.active && s.log != [] && s.log[|s.log| - 1].Asked?
            && t >= s.heartbeat.lastInputAt + c.await
            && s.heartbeat.lastInputAt + c.initiate <= s.requestAt <= t
            && (s.requestAt >= s.heartbeat.lastInputAt + c.await ==> t >= s.requestAt + c.initiate)
  {
    assert (events + [Fire(t)])[..|events|] == events;
    RunRequests(c, t0, events, late);
  }

  /** A peer silent since its last input is given up in bounded time: no later than this can
      an entry still be active ... */
  lemma SilenceIsDetected(c: HeartbeatParams, t0: int, events: seq<TimedEvent>, t: int, late: int)
    requires c.Sensible() && late >= 0 && LegalRun(c, t0, events, late)
    requires Run(c, t0, events).active && InTime(Run(c, t0, events), t, late)
    ensures t <= Run(c, t0, events).heartbeat.lastInputAt + c.Longest() + 2 * late
  {
    RunKeeps(c, t0, events, late);
  }

  /** By this time a silent peer has been asked. */
  lemma SilentPeerIsAsked(c: HeartbeatParams, t0: int, events: seq<TimedEvent>, t: int, late: int)
    requires c.Sensible() && late >= 0 && LegalRun(c, t0, events, late)
    requires Run(c, t0, events).active && InTime(Run(c, t0, events), t, late)
    ensures var s := Run(c, t0, events);
            t > s.heartbeat.lastInputAt + c.Lookahead() + late ==> s.log != [] && s.log[|s.log| - 1].Asked?
  {
    RunKeeps(c, t0, events, late);
    RunRequests(c, t0, events, late);
  }

  /** ... and with punctual timers it gives up at exactly `await` after the last input. */
  lemma PunctualGiveUp(c: HeartbeatParams, t0: int, events: seq<TimedEvent>, t: int)
    requires c.Sensible() && LegalRun(c, t0, events + [Fire(t)], 0)
    requires !Run(c, t0, events).gaveUp && Run(c, t0, events + [Fire(t)]).gaveUp
    ensures t == Run(c, t0, events).heartbeat.lastInputAt + c.await
  {
    assert (events + [Fire(t)])[..|events|] == events;
    RunKeeps(c, t0, events, 0);
    PunctualRequest(c, t0, events);
  }

  /** With punctual timers no request is sent so late that the second timeout has passed. */
  lemma {:induction false} PunctualRequest(c: HeartbeatParams, t0: int, events: seq<TimedEvent>)
    requires c.Sensible() && LegalRun(c, t0, events, 0)
    ensures var s := Run(c, t0, events);
            s.active && s.heartbeat.sentCount > 0 ==> s.heartbeat.deadline == s.heartbeat.lastInputAt + c.await
    decreases |events|
  {
    if events != [] {
      var n := |events| - 1;
      PunctualRequest(c, t0, events[..n]);
      RunKeeps(c, t0, events[..n], 0);
    }
  }

  /** No false alarm: with punctual timers, a peer that is always heard within `within` of a
      request is never given up. */
  lemma {:induction false} NoFalseAlarm(c: HeartbeatParams, t0: int, events: seq<TimedEvent>, within: int)
    requires c.Sensible() && LegalRun(c, t0, events, 0) && Responsive(c, t0, events, within)
    requires within < c.initiate && within < c.await - c.initiate
    ensures !Run(c, t0, events).gaveUp
    decreases |events|
  {
    if events != [] {
      var n := |events| - 1;
      NoFalseAlarm(c, t0, events[..n], within);
      RunKeeps(c, t0, events[..n], 0);
    }
  }

  lemma RunSnoc(c: HeartbeatParams, t0: int, events: seq<TimedEvent>, e: TimedEvent, late: int, within: int)
    ensures Run(c, t0, events + [e]) == Step(c, Run(c, t0, events), e)
    ensures LegalRun(c, t0, events + [e], late) <==> LegalRun(c, t0, events, late) && MayHappen(Run(c, t0, events), e, late)
    ensures Responsive(c, t0, events + [e], within) <==>
              var s := Run(c, t0, events);
              Responsive(c, t0, events, within) && (s.active && s.heartbeat.sentCount > 0 ==> e.at <= s.requestAt + within)
  {
    assert (events + [e])[..|events|] == events;
  }

  /** The first request of a silent peer. */
  lemma FirstRequest(c: HeartbeatParams, within: int)
    requires c.Sensible()
    ensures var events := [Fire(c.initiate)];
            && LegalRun(c, 0, events, 0) && Responsive(c, 0, events, within)
            && Run(c, 0, events) == Timed(Heartbeat(0, 1, c.await), true, c.initiate, c.initiate, [Asked(c.initiate)], false)
  {
    RunSnoc(c, 0, [], Fire(c.initiate), 0, within);
    assert [] + [Fire(c.initiate)] == [Fire(c.initiate)];
    assert [] + [Asked(c.initiate)] == [Asked(c.initiate)];
  }

  /** A peer that takes any longer can be given up although it answers every request in its
      time, the last one included. */
  lemma FalseAlarm(c: HeartbeatParams, within: int) returns (events: seq<TimedEvent>)
    requires c.Sensible() && (within >= c.initiate || within >= c.await - c.initiate)
    ensures LegalRun(c, 0, events, 0) && Responsive(c, 0, events, within) && Run(c, 0, events).gaveUp
    ensures events != [] && var answer := events[|events| - 1];
            answer.Input? && answer.at <= Run(c, 0, events).requestAt + within
  {
    FirstRequest(c, within);
    hide Run, LegalRun, Responsive;
    var first := [Fire(c.initiate)];
    var before;
    if within >= c.await - c.initiate {
      before := first + [Fire(c.await)];
      RunSnoc(c, 0, first, Fire(c.await), 0, within);
    } else {
      before := SecondAlarm(c, within);
    }
    var answer := Input(Run(c, 0, before).requestAt + within);
    events := before + [answer];
    RunSnoc(c, 0, before, answer, 0, within);
  }

  lemma SecondAlarm(c: HeartbeatParams, within: int) returns (events: seq<TimedEvent>)
    requires c.Sensible() && c.initiate <= within < c.await - c.initiate
    ensures LegalRun(c, 0, events, 0) && Responsive(c, 0, events, within)
    ensures var s := Run(c, 0, events); s.gaveUp && !s.active && s.now <= s.requestAt + within
  {
    FirstRequest(c, within);
    hide Run, LegalRun, Responsive;
    var first := [Fire(c.initiate)];
    var second := first + [Input(c.initiate)];
    RunSnoc(c, 0, first, Input(c.initiate), 0, within);
    assert Run(c, 0, second).heartbeat == Heartbeat(c.initiate, 0, c.await);
    var third := second + [Fire(c.await)];
    RunSnoc(c, 0, second, Fire(c.await), 0, within);
    assert Run(c, 0, third).heartbeat == Heartbeat(c.initiate, 1, c.initiate + c.await);
    events := third + [Fire(c.initiate + c.await)];
    RunSnoc(c, 0, third, Fire(c.initiate + c.await), 0, within);
  }

  /** How fast a peer must answer: exactly this fast. */
  lemma FastEnough(c: HeartbeatParams, within: int)
    requires c.Sensible()
    ensures (forall t0, events :: LegalRun(c, t0, events, 0) && Responsive(c, t0, events, within) ==> !Run(c, t0, events).gaveUp)
       <==> within < c.initiate && within < c.await - c.initiate
  {
    if within < c.initiate && within < c.await - c.initiate {
      forall t0, events | LegalRun(c, t0, events, 0) && Responsive(c, t0, events, within)
        ensures !Run(c, t0, events).gaveUp
      {
        NoFalseAlarm(c, t0, events, within);
      }
    } else {
      var events := FalseAlarm(c, within);
    }
  }
}
