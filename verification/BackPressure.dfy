/** Streams that send only their newest buffer: at most one buffer of a stream is on its way
    through the connection, and at most one more waits for it. */
module BackPressure {
  import opened Bytes
  import opened Options
  import opened WriteQueue
  import opened WriteQueueInvariant
  import ConnectionRuns
  import ConnectionTheorems

  datatype StreamContext = StreamContext(inFlight: int, droppedBufs: int, memorizedBuf: Option<Buffer>)

  const UNUSED := StreamContext(0, 0, None)

  /** Where a buffer handed on has got to: it is posted to the strand of the connection, it
      has become send `id` there, or the entry was no longer active. */
  datatype Place = InMailbox | Made(id: nat) | Dropped

  /** A buffer handed on: the `at`-th submitted one, when `outOf` had been submitted. */
  datatype Sent = Sent(buf: Buffer, at: nat, outOf: nat, place: Place)

  /** A stream with its logs. `memorizedAt` tells which submission is memorized, `handled`
      which callbacks of the connection have been reported to the stream, in order. */
  datatype Stream = Stream(
    context: StreamContext,
    submitted: seq<Buffer>,
    sent: seq<Sent>,
    dropped: nat,
    memorizedAt: nat,
    handled: seq<nat>)

  const NEW_STREAM := Stream(UNUSED, [], [], 0, 0, [])

  datatype Letter = Letter(tag: nat, buf: Buffer)

  /** A connection, the sends posted to its strand, and the streams of its entry. */
  datatype Joint = Joint(conn: Conn, active: bool, mailbox: seq<Letter>, streams: map<nat, Stream>)

  const START := Joint(INITIAL, true, [], map[])

  /** `Arrived`: the connection gets the oldest posted send. `Reported(tag, n)`: the entry is
      told that a buffer of `tag` has been written, by the `n`-th callback the connection
      has run. */
  datatype JointEvent =
    | Submitted(tag: nat, buf: Buffer)
    | Arrived
    | Reported(tag: nat, n: nat)
    | ConnectionStep(e: Event)
    | Deactivated

  // ---------- One stream ----------

  function SendNow(x: Stream, buf: Buffer, place: Place): (x': Stream)
  {
    x.(context := x.context.(inFlight := x.context.inFlight + 1),
       submitted := x.submitted + [buf],
       sent := x.sent + [Sent(buf, |x.submitted|, |x.submitted| + 1, place)])
  }

  function Memorize(x: Stream, buf: Buffer): (x': Stream)
  {
    var drops := if x.context.memorizedBuf.Some? then 1 else 0;
    x.(context := x.context.(droppedBufs := x.context.droppedBufs + drops, memorizedBuf := Some(buf)),
       submitted := x.submitted + [buf], dropped := x.dropped + drops, memorizedAt := |x.submitted|)
  }

  function FollowUp(x: Stream, n: nat, place: Place): (x': Stream)
    requires x.context.memorizedBuf.Some?
  {
    x.(context := x.context.(droppedBufs := 0, memorizedBuf := None),
       sent := x.sent + [Sent(x.context.memorizedBuf.value, x.memorizedAt, |x.submitted|, place)],
       handled := x.handled + [n])
  }

  function GoIdle(x: Stream, n: nat): (x': Stream)
  {
    x.(context := x.context.(inFlight := x.context.inFlight - 1),
       handled := x.handled + [n])
  }

  /** The last buffer handed on has become send `id`. */
  function MadeLast(x: Stream, id: nat): (x': Stream)
  {
    if x.sent == [] then x
    else x.(sent := x.sent[..|x.sent| - 1] + [x.sent[|x.sent| - 1].(place := Made(id))])
  }

  // ---------- Steps ----------

  function At(streams: map<nat, Stream>, tag: nat): (x: Stream)
  {
    if tag in streams then streams[tag] else NEW_STREAM
  }

  /** An entry that is not active drops the buffer, and its callback with it. */
  function SendBuffer(j: Joint, tag: nat, buf: Buffer): (r: (seq<Letter>, Place))
  {
    if j.active then (j.mailbox + [Letter(tag, buf)], InMailbox) else (j.mailbox, Dropped)
  }

  function BpSendRawBuf(j: Joint, tag: nat, buf: Buffer): (j': Joint)
  {
    var x := At(j.streams, tag);
    if x.context.inFlight < 1 then
      var (mailbox, place) := SendBuffer(j, tag, buf);
      j.(mailbox := mailbox, streams := j.streams[tag := SendNow(x, buf, place)])
    else
      j.(streams := j.streams[tag := Memorize(x, buf)])
  }

  function SendFinished(j: Joint, tag: nat, n: nat): (j': Joint)
  {
    var x := At(j.streams, tag);
    match x.context.memorizedBuf
    case Some(buf) =>
      var (mailbox, place) := SendBuffer(j, tag, buf);
      j.(mailbox := mailbox, streams := j.streams[tag := FollowUp(x, n, place)])
    case None =>
      j.(streams := j.streams[tag := GoIdle(x, n)])
  }

  /** The connection gets the oldest posted send. */
  function Arrive(o: Oracle, j: Joint): (j': Joint)
    requires j.conn.queue != [] && j.mailbox != []
  {
    var letter := j.mailbox[0];
    j.(conn := DoSend(o, j.conn, [letter.buf], true), mailbox := j.mailbox[1..],
       streams := j.streams[letter.tag := MadeLast(At(j.streams, letter.tag), |j.conn.sends|)])
  }

  /** A success that the connection has called back for a buffer of the stream is reported
      to the stream, once. */
  ghost predicate CanBeReported(j: Joint, tag: nat, n: nat)
  {
    && tag in j.streams && n < |j.conn.fired| && n !in j.streams[tag].handled
    && j.conn.fired[n].result == Success
    && exists s <- j.streams[tag].sent :: s.place == Made(j.conn.fired[n].cb)
  }

  ghost function Step(o: Oracle, j: Joint, e: JointEvent): (j': Joint)
    requires Inv(j.conn)
  {
    match e
    case Submitted(tag, buf) => BpSendRawBuf(j, tag, buf)
    case Arrived => if j.mailbox != [] then Arrive(o, j) else j
    case Reported(tag, n) => if CanBeReported(j, tag, n) then SendFinished(j, tag, n) else j
    case ConnectionStep(ce) => j.(conn := ConnectionRuns.Step(o, j.conn, ce))
    case Deactivated => j.(active := false)
  }

  ghost function Run(o: Oracle, events: seq<JointEvent>): (j: Joint)
    ensures JointInv(j)
    decreases |events|
  {
    if events == [] then
      ConnectionRuns.InitialInv();
      START
    else
      var j := Run(o, events[..|events| - 1]);
      StepKeeps(o, j, events[|events| - 1]);
      Step(o, j, events[|events| - 1])
  }

  // ---------- What every stream keeps ----------

  predicate SentOk(x: Stream, s: Sent)
  {
    s.at < |x.submitted| && x.submitted[s.at] == s.buf && s.outOf == s.at + 1
  }

  ghost predicate SentInOrder(sent: seq<Sent>)
  {
    forall i, k :: 0 <= i < k < |sent| ==> sent[i].at < sent[k].at
  }

  /** The submission after the last one sent. */
  function NextAt(sent: seq<Sent>): (n: nat)
  {
    if sent == [] then 0 else sent[|sent| - 1].at + 1
  }

  /** The counters agree with the logs: what is sent is the newest submission at that time,
      what is memorized is the newest so far. */
  ghost predicate BooksOk(x: Stream)
  {
    var c := x.context;
    && 0 <= c.inFlight <= 1
    && |x.sent| == |x.handled| + c.inFlight
    && (forall s <- x.sent :: SentOk(x, s))
    && SentInOrder(x.sent)
    && NextAt(x.sent) <= |x.submitted|
    && (match c.memorizedBuf
        case Some(buf) =>
          && c.inFlight == 1
          && c.droppedBufs == |x.submitted| - NextAt(x.sent) - 1 >= 0
          && x.memorizedAt == |x.submitted| - 1
          && buf == x.submitted[x.memorizedAt]
        case None =>
          c.droppedBufs == 0 && NextAt(x.sent) == |x.submitted|)
    && |x.submitted| == |x.sent| + x.dropped + if c.memorizedBuf.Some? then 1 else 0
  }

  /** Callback `n` has told that send `s` is written. */
  predicate Acknowledges(conn: Conn, n: nat, s: Sent)
  {
    n < |conn.fired| && conn.fired[n].result == Success && s.place == Made(conn.fired[n].cb)
  }

  /** Send `s` is one of the sends of the connection. */
  predicate Registered(conn: Conn, s: Sent)
  {
    s.place.Made? ==> s.place.id < |conn.sends| && conn.sends[s.place.id].bufs == [s.buf] && conn.sends[s.place.id].withCb
  }

  ghost predicate IdsInOrder(sent: seq<Sent>)
  {
    forall i, k :: 0 <= i < k < |sent| ==> sent[i].place.Made? && (sent[k].place.Made? ==> sent[i].place.id < sent[k].place.id)
  }

  /** The buffers sent are sends of the connection, in order, and the k-th callback reported
      is that of the k-th of them. */
  ghost predicate LinkOk(conn: Conn, active: bool, x: Stream)
  {
    && (forall s <- x.sent :: Registered(conn, s))
    && IdsInOrder(x.sent)
    && (active ==> forall s <- x.sent :: !s.place.Dropped?)
    && |x.handled| <= |x.sent|
    && (forall k :: 0 <= k < |x.handled| ==> Acknowledges(conn, x.handled[k], x.sent[k]))
  }

  ghost predicate StreamOk(conn: Conn, active: bool, x: Stream)
  {
    BooksOk(x) && LinkOk(conn, active, x)
  }

  /** The buffer of the stream that has been posted and has not arrived. */
  function Awaited(x: Stream): (buf: Option<Buffer>)
  {
    if x.sent != [] && x.sent[|x.sent| - 1].place.InMailbox? then Some(x.sent[|x.sent| - 1].buf) else None
  }

  function Tags(mailbox: seq<Letter>): (tags: seq<nat>)
  {
    seq(|mailbox|, i requires 0 <= i < |mailbox| => mailbox[i].tag)
  }

  /** The posted sends are those that some stream awaits, one each. */
  ghost predicate MailOk(mailbox: seq<Letter>, streams: map<nat, Stream>)
  {
    && (forall i :: 0 <= i < |mailbox| ==> Awaited(At(streams, mailbox[i].tag)) == Some(mailbox[i].buf))
    && (forall i, k :: 0 <= i < k < |mailbox| ==> mailbox[i].tag != mailbox[k].tag)
    && (forall tag :: Awaited(At(streams, tag)).Some? ==> tag in Tags(mailbox))
  }

  ghost predicate StreamsOk(j: Joint)
  {
    forall tag <- j.streams :: StreamOk(j.conn, j.active, j.streams[tag])
  }

  ghost predicate JointInv(j: Joint)
  {
    Inv(j.conn) && StreamsOk(j) && MailOk(j.mailbox, j.streams)
  }

  // ---------- Books ----------

  lemma SendNowKeepsBooks(x: Stream, buf: Buffer, place: Place)
    requires BooksOk(x) && x.context.inFlight < 1
    ensures BooksOk(SendNow(x, buf, place))
  {
    var x' := SendNow(x, buf, place);
    forall s | s in x'.sent
      ensures SentOk(x', s)
    {
      assert s in x.sent ==> SentOk(x, s);
    }
    LastIsNext(x.sent, x'.sent[|x.sent|]);
  }

  lemma MemorizeKeepsBooks(x: Stream, buf: Buffer)
    requires BooksOk(x) && x.context.inFlight >= 1
    ensures BooksOk(Memorize(x, buf))
  {
    var x' := Memorize(x, buf);
    forall s | s in x'.sent
      ensures SentOk(x', s)
    {
      assert SentOk(x, s);
    }
  }

  lemma FollowUpKeepsBooks(x: Stream, n: nat, place: Place)
    requires BooksOk(x) && x.context.memorizedBuf.Some?
    ensures BooksOk(FollowUp(x, n, place))
  {
    var x' := FollowUp(x, n, place);
    forall s | s in x'.sent
      ensures SentOk(x', s)
    {
      assert s in x.sent ==> SentOk(x, s);
    }
    LastIsNext(x.sent, x'.sent[|x.sent|]);
  }

  lemma LastIsNext(sent: seq<Sent>, s: Sent)
    requires SentInOrder(sent) && NextAt(sent) <= s.at
    ensures SentInOrder(sent + [s]) && NextAt(sent + [s]) == s.at + 1
  {
    if sent != [] {
      assert forall i :: 0 <= i < |sent| ==> sent[i].at <= sent[|sent| - 1].at;
    }
  }

  // ---------- Links ----------

  /** Steps of the connection only add to what links are about. */
  lemma LinkStable(conn: Conn, conn': Conn, active: bool, active': bool, x: Stream)
    requires LinkOk(conn, active, x) && (active' ==> active)
    requires conn.sends <= conn'.sends && conn.fired <= conn'.fired
    ensures LinkOk(conn', active', x)
  {
    assert forall s <- x.sent :: Registered(conn, s) ==> Registered(conn', s);
    assert forall k :: 0 <= k < |x.handled| ==> Acknowledges(conn, x.handled[k], x.sent[k]);
  }

  /** The next buffer of a stream, once all others have been acknowledged. */
  lemma LinkSnoc(conn: Conn, active: bool, x: Stream, x': Stream, s: Sent)
    requires LinkOk(conn, active, x) && |x.handled| == |x.sent|
    requires x' == x.(context := x'.context, submitted := x'.submitted, sent := x.sent + [s])
    requires !s.place.Made? && (active ==> !s.place.Dropped?)
    ensures LinkOk(conn, active, x')
  {
    forall k | 0 <= k < |x.sent|
      ensures x'.sent[k] == x.sent[k] && x.sent[k].place.Made?
    {
      assert Acknowledges(conn, x.handled[k], x.sent[k]);
    }
  }

  /** A send that arrives gets a number above those before it. */
  lemma LinkMade(conn: Conn, conn': Conn, active: bool, x: Stream)
    requires LinkOk(conn, active, x) && Awaited(x).Some?
    requires conn.sends <= conn'.sends && conn.fired <= conn'.fired && |conn.sends| < |conn'.sends|
    requires conn'.sends[|conn.sends|].bufs == [Awaited(x).value] && conn'.sends[|conn.sends|].withCb
    ensures LinkOk(conn', active, MadeLast(x, |conn.sends|))
  {
    var x' := MadeLast(x, |conn.sends|);
    var n := |x.sent| - 1;
    LinkStable(conn, conn', active, active, x);
    forall k | 0 <= k < n
      ensures x'.sent[k] == x.sent[k] && x.sent[k].place.Made? && x.sent[k].place.id < |conn.sends|
    {
      assert Registered(conn, x.sent[k]) && x.sent[k].place.Made?;
    }
    assert forall s <- x'.sent :: s == x'.sent[n] || s in x.sent;
  }

  lemma MadeLastKeepsBooks(x: Stream, id: nat)
    requires BooksOk(x)
    ensures BooksOk(MadeLast(x, id))
  {
    if x.sent != [] {
      var x' := MadeLast(x, id);
      var n := |x.sent| - 1;
      assert SentOk(x, x.sent[n]);
      forall s | s in x'.sent
        ensures SentOk(x', s)
      {
        assert s in x.sent ==> SentOk(x, s);
      }
    }
  }

  /** A callback not reported yet can only be that of the last buffer sent. */
  lemma OnlyTheLastIsOpen(conn: Conn, active: bool, x: Stream, n: nat)
    requires Inv(conn) && StreamOk(conn, active, x) && n !in x.handled
    requires exists s <- x.sent :: Acknowledges(conn, n, s)
    ensures x.context.inFlight == 1 && Acknowledges(conn, n, x.sent[|x.sent| - 1])
  {
    var k :| 0 <= k < |x.sent| && Acknowledges(conn, n, x.sent[k]);
    if k < |x.handled| {
      SuccessOnlyOnce(conn, x.handled[k], n, x.sent[k]);
    }
  }

  /** No send is called back with success twice. */
  lemma SuccessOnlyOnce(conn: Conn, m: nat, n: nat, s: Sent)
    requires Inv(conn) && Registered(conn, s)
    requires Acknowledges(conn, m, s) && Acknowledges(conn, n, s)
    ensures m == n
  {
    assert OrderOk(conn);
    hide Inv, Successes;
    if m < n {
      NotAgain(conn, m, n);
    } else if n < m {
      NotAgain(conn, n, m);
    }
  }

  lemma NotAgain(conn: Conn, m: nat, n: nat)
    requires OrderOk(conn) && m < n < |conn.fired|
    requires conn.fired[m].result == Success && conn.fired[n].result == Success
    requires conn.fired[m].cb < |conn.sends| && conn.sends[conn.fired[m].cb].bufs != []
    ensures conn.fired[m].cb != conn.fired[n].cb
  {
    hide Successes;
    var f, g := conn.fired[m], conn.fired[n];
    var before := conn.fired[..n];
    assert before[m] == f;
    assert conn.fired[..n + 1] == before + [g];
    PartOfSuccesses(conn.fired, conn.sends, n + 1);
    SuccessesSnoc(before, g, conn.sends);
    ConnectionTheorems.InSuccesses(before, conn.sends, f);
    if f.cb == g.cb {
      TwiceIsNotIncreasing(Successes(before, conn.sends), f.cb, Successes(conn.fired, conn.sends) + CbsOf(conn.queue));
    }
  }

  lemma TwiceIsNotIncreasing(before: seq<nat>, x: nat, all: seq<nat>)
    requires x in before && before + [x] <= all
    ensures !Increasing(all)
  {
    var i :| 0 <= i < |before| && before[i] == x;
    assert all[i] == (before + [x])[i] && all[|before|] == (before + [x])[|before|];
  }

  lemma {:induction false} PartOfSuccesses(fired: seq<Fired>, sends: seq<SendRecord>, n: nat)
    requires Known(fired, |sends|) && n <= |fired|
    ensures Known(fired[..n], |sends|) && Successes(fired[..n], sends) <= Successes(fired, sends)
    decreases |fired|
  {
    if n < |fired| {
      var shorter := fired[..|fired| - 1];
      PartOfSuccesses(shorter, sends, n);
      assert shorter[..n] == fired[..n];
    } else {
      assert fired[..n] == fired;
    }
  }

  /** Reporting the open callback moves the stream on by one. */
  lemma LinkFinished(conn: Conn, active: bool, x: Stream, n: nat)
    requires LinkOk(conn, active, x) && |x.handled| < |x.sent|
    requires Acknowledges(conn, n, x.sent[|x.handled|])
    ensures LinkOk(conn, active, x.(handled := x.handled + [n]))
  {
  }

  // ---------- Every step keeps it ----------

  lemma NewStreamOk(conn: Conn, active: bool)
    ensures StreamOk(conn, active, NEW_STREAM)
  {
  }

  lemma AtOk(j: Joint, tag: nat)
    requires JointInv(j)
    ensures StreamOk(j.conn, j.active, At(j.streams, tag))
  {
    NewStreamOk(j.conn, j.active);
  }

  // ---------- Mail ----------

  lemma TagsSnoc(mailbox: seq<Letter>, letter: Letter)
    ensures Tags(mailbox + [letter]) == Tags(mailbox) + [letter.tag]
  {
  }

  /** Stream `tag`, which awaits nothing, gets a buffer posted. */
  lemma MailPosted(mailbox: seq<Letter>, streams: map<nat, Stream>, tag: nat, x: Stream)
    requires MailOk(mailbox, streams) && Awaited(At(streams, tag)).None? && Awaited(x).Some?
    ensures MailOk(mailbox + [Letter(tag, Awaited(x).value)], streams[tag := x])
  {
    TagsSnoc(mailbox, Letter(tag, Awaited(x).value));
  }

  lemma MailSame(mailbox: seq<Letter>, streams: map<nat, Stream>, tag: nat, x: Stream)
    requires MailOk(mailbox, streams) && Awaited(x) == Awaited(At(streams, tag))
    ensures MailOk(mailbox, streams[tag := x])
  {
  }

  lemma MailTaken(mailbox: seq<Letter>, streams: map<nat, Stream>, x: Stream)
    requires MailOk(mailbox, streams) && mailbox != [] && Awaited(x).None?
    ensures MailOk(mailbox[1..], streams[mailbox[0].tag := x])
  {
    var tag := mailbox[0].tag;
    forall t | Awaited(At(streams[tag := x], t)).Some?
      ensures t in Tags(mailbox[1..])
    {
      assert t != tag && Awaited(At(streams, t)).Some?;
      var i :| 0 <= i < |mailbox| && Tags(mailbox)[i] == t;
      assert Tags(mailbox[1..])[i - 1] == t;
    }
  }

  // ---------- Every step keeps the invariant ----------

  /** The other streams, while the connection moves on and stream `tag` changes to `x`. */
  lemma OthersKeep(j: Joint, conn: Conn, tag: nat, x: Stream)
    requires StreamsOk(j) && LogsGrow(j.conn, conn) && StreamOk(conn, j.active, x)
    ensures StreamsOk(j.(conn := conn, streams := j.streams[tag := x]))
  {
    hide LinkOk, BooksOk;
    forall t | t in j.streams && t != tag
      ensures StreamOk(conn, j.active, j.streams[t])
    {
      LinkStable(j.conn, conn, j.active, j.active, j.streams[t]);
    }
  }

  /** A stream with nothing open hands on a buffer. */
  lemma HandOnKeeps(j: Joint, tag: nat, x: Stream, x': Stream, buf: Buffer)
    requires StreamsOk(j) && MailOk(j.mailbox, j.streams)
    requires LinkOk(j.conn, j.active, x) && |x.handled| == |x.sent| && Awaited(At(j.streams, tag)).None?
    requires x'.sent != [] && x' == x.(context := x'.context, submitted := x'.submitted, sent := x.sent + [x'.sent[|x'.sent| - 1]])
    requires BooksOk(x')
    requires var last := x'.sent[|x'.sent| - 1];
             last.buf == buf && last.place == SendBuffer(j, tag, buf).1
    ensures StreamsOk(j.(streams := j.streams[tag := x']))
    ensures MailOk(SendBuffer(j, tag, buf).0, j.streams[tag := x'])
  {
    hide MailOk, LinkOk, BooksOk;
    LinkSnoc(j.conn, j.active, x, x', x'.sent[|x'.sent| - 1]);
    OthersKeep(j, j.conn, tag, x');
    if j.active {
      MailPosted(j.mailbox, j.streams, tag, x');
    } else {
      MailSame(j.mailbox, j.streams, tag, x');
    }
  }

  /** With every buffer acknowledged none is awaited. */
  lemma AllAcknowledged(conn: Conn, active: bool, x: Stream)
    requires LinkOk(conn, active, x) && |x.handled| == |x.sent|
    ensures Awaited(x).None?
  {
    if x.sent != [] {
      var n := |x.sent| - 1;
      assert Acknowledges(conn, x.handled[n], x.sent[n]);
    }
  }

  /** A submission that is sent at once. */
  lemma SentKeeps(j: Joint, tag: nat, x: Stream, buf: Buffer)
    requires StreamsOk(j) && MailOk(j.mailbox, j.streams) && x == At(j.streams, tag) && StreamOk(j.conn, j.active, x)
    requires x.context.inFlight < 1
    ensures var (mailbox, place) := SendBuffer(j, tag, buf);
            var streams := j.streams[tag := SendNow(x, buf, place)];
            StreamsOk(j.(mailbox := mailbox, streams := streams)) && MailOk(mailbox, streams)
  {
    var (mailbox, place) := SendBuffer(j, tag, buf);
    var x' := SendNow(x, buf, place);
    SendNowKeepsBooks(x, buf, place);
    assert |x.sent| == |x.handled|;
    hide LinkOk, MailOk, StreamsOk, BooksOk, SendBuffer;
    AllAcknowledged(j.conn, j.active, x);
    HandOnKeeps(j, tag, x, x', buf);
    SameStreams(j, j.(mailbox := mailbox, streams := j.streams[tag := x']));
  }

  /** A submission that is memorized. */
  lemma MemorizedKeeps(j: Joint, tag: nat, x: Stream, buf: Buffer)
    requires StreamsOk(j) && MailOk(j.mailbox, j.streams) && x == At(j.streams, tag) && StreamOk(j.conn, j.active, x)
    requires x.context.inFlight >= 1
    ensures var streams := j.streams[tag := Memorize(x, buf)];
            StreamsOk(j.(streams := streams)) && MailOk(j.mailbox, streams)
  {
    var x' := Memorize(x, buf);
    MemorizeKeepsBooks(x, buf);
    SameLink(j.conn, j.active, x, x');
    hide LinkOk, MailOk, StreamsOk, BooksOk;
    OthersKeep(j, j.conn, tag, x');
    MailSame(j.mailbox, j.streams, tag, x');
  }

  lemma BpSendKeeps(j: Joint, tag: nat, buf: Buffer)
    requires JointInv(j)
    ensures JointInv(BpSendRawBuf(j, tag, buf))
  {
    AtOk(j, tag);
    hide Inv, StreamOk, MailOk, StreamsOk, SendBuffer, SendNow, Memorize, At;
    var x := At(j.streams, tag);
    if x.context.inFlight < 1 {
      SentKeeps(j, tag, x, buf);
    } else {
      MemorizedKeeps(j, tag, x, buf);
    }
  }

  /** Streams do not depend on what is posted. */
  lemma SameStreams(j: Joint, j': Joint)
    requires j'.active == j.active
    ensures StreamsOk(j.(conn := j'.conn, streams := j'.streams)) <==> StreamsOk(j')
  {
  }

  lemma SameLink(conn: Conn, active: bool, x: Stream, x': Stream)
    requires LinkOk(conn, active, x) && x'.sent == x.sent && x'.handled == x.handled
    ensures LinkOk(conn, active, x')
  {
  }

  /** What a report tells: the buffer in flight is the acknowledged one. */
  lemma ReportedIsLast(j: Joint, tag: nat, n: nat)
    requires JointInv(j) && CanBeReported(j, tag, n)
    ensures var x := j.streams[tag];
            && x.context.inFlight == 1 && |x.handled| + 1 == |x.sent| && Awaited(x).None?
            && LinkOk(j.conn, j.active, x.(handled := x.handled + [n]))
  {
    var x := j.streams[tag];
    assert StreamOk(j.conn, j.active, x);
    hide Inv, LinkOk, MailOk, StreamsOk;
    OnlyTheLastIsOpen(j.conn, j.active, x, n) by {
      var s :| s in x.sent && s.place == Made(j.conn.fired[n].cb);
      assert Acknowledges(j.conn, n, s);
    }
    LinkFinished(j.conn, j.active, x, n);
  }

  lemma SendFinishedKeeps(j: Joint, tag: nat, n: nat)
    requires JointInv(j) && CanBeReported(j, tag, n)
    ensures JointInv(SendFinished(j, tag, n))
  {
    var x := j.streams[tag];
    assert BooksOk(x) by {
      assert StreamOk(j.conn, j.active, x);
    }
    ReportedIsLast(j, tag, n);
    hide Inv, LinkOk, MailOk, StreamsOk, CanBeReported;
    var y := x.(handled := x.handled + [n]);
    if x.context.memorizedBuf.Some? {
      var buf := x.context.memorizedBuf.value;
      var place := SendBuffer(j, tag, buf).1;
      FollowUpKeepsBooks(x, n, place);
      HandOnKeeps(j, tag, y, FollowUp(x, n, place), buf);
      SameStreams(j, SendFinished(j, tag, n));
    } else {
      var x' := GoIdle(x, n);
      SameLink(j.conn, j.active, y, x');
      OthersKeep(j, j.conn, tag, x');
      MailSame(j.mailbox, j.streams, tag, x');
    }
  }

  lemma LetterIsSent(o: Oracle, conn: Conn, buf: Buffer)
    requires Inv(conn)
    ensures conn.queue != []
    ensures var conn' := DoSend(o, conn, [buf], true);
            && Inv(conn') && LogsGrow(conn, conn') && |conn.sends| < |conn'.sends|
            && conn'.sends[|conn.sends|].bufs == [buf] && conn'.sends[|conn.sends|].withCb
  {
    assert conn.queue != [];
    hide Inv, DoSend;
    ConnectionRuns.SendKeeps(o, conn, [buf], true);
  }

  lemma ArriveKeeps(o: Oracle, j: Joint)
    requires JointInv(j) && j.mailbox != []
    ensures Inv(j.conn) && JointInv(Arrive(o, j))
  {
    var letter := j.mailbox[0];
    var x := At(j.streams, letter.tag);
    var id := |j.conn.sends|;
    AtOk(j, letter.tag);
    LetterIsSent(o, j.conn, letter.buf);
    hide Inv, DoSend, LinkOk, BooksOk, StreamsOk, MadeLast, LogsGrow;
    assert Awaited(x) == Some(letter.buf);
    MadeAwaitsNothing(x, id);
    hide MailOk, Awaited;
    var j' := Arrive(o, j);
    assert StreamOk(j'.conn, j.active, MadeLast(x, id)) by {
      LogsGrowParts(j.conn, j'.conn);
      LinkMade(j.conn, j'.conn, j.active, x);
      MadeLastKeepsBooks(x, id);
    }
    OthersKeep(j, j'.conn, letter.tag, MadeLast(x, id));
    MailTaken(j.mailbox, j.streams, MadeLast(x, id));
    SameStreams(j, j');
  }

  lemma LogsGrowParts(s: Conn, s': Conn)
    requires LogsGrow(s, s')
    ensures s.sends <= s'.sends && s.fired <= s'.fired
  {
  }

  lemma MadeAwaitsNothing(x: Stream, id: nat)
    ensures Awaited(MadeLast(x, id)).None? && MadeLast(x, id).context == x.context
  {
  }

  lemma StepKeeps(o: Oracle, j: Joint, e: JointEvent)
    requires JointInv(j)
    ensures JointInv(Step(o, j, e))
  {
    hide Inv, BooksOk, LinkOk, MailOk, ConnectionRuns.Step, BpSendRawBuf, SendFinished, Arrive;
    match e
    case Submitted(tag, buf) => BpSendKeeps(j, tag, buf);
    case Arrived =>
      if j.mailbox != [] {
        ArriveKeeps(o, j);
      }
    case Reported(tag, n) =>
      if CanBeReported(j, tag, n) {
        SendFinishedKeeps(j, tag, n);
      }
    case ConnectionStep(ce) =>
      ConnectionRuns.StepKeepsInv(o, j.conn, ce);
      var conn := ConnectionRuns.Step(o, j.conn, ce);
      forall t | t in j.streams
        ensures StreamOk(conn, j.active, j.streams[t])
      {
        LinkStable(j.conn, conn, j.active, j.active, j.streams[t]);
      }
    case Deactivated =>
      forall t | t in j.streams
        ensures StreamOk(j.conn, false, j.streams[t])
      {
        LinkStable(j.conn, j.conn, j.active, false, j.streams[t]);
      }
  }
}
