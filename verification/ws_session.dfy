/** The websocket session: one write in flight, a bounded queue, one close notification. */
module WsSession {

  const MAX_OUT_QUEUE_DEPTH: nat := 1024

  /** A write handed to the transport, and whether the socket was still open then. */
  datatype WriteOp = WriteOp(message: string, startedOpen: bool)

  /** The fields of the session object. */
  datatype Fields = Fields(outQueue: seq<string>, writing: bool, closeNotified: bool, pongPending: bool)

  /**
   * What surrounds the session (the socket, sends posted to the strand, writes and timer waits under
   * way), and a history of what happened so far.
   */
  datatype World = World(
    socketOpen: bool,
    pendingSends: seq<string>,
    inFlight: seq<WriteOp>,
    waits: nat,
    posted: seq<string>,
    handled: seq<string>,
    written: seq<string>,
    dropped: bool,
    kept: nat,
    starts: nat,
    failed: bool,
    closes: nat,
    arms: nat,
    pongReports: nat)

  datatype Ws = Ws(fields: Fields, world: World)

  const FRESH: Ws :=
    Ws(Fields([], false, false, false), World(true, [], [], 0, [], [], [], false, 0, 0, false, 0, 0, 0))

  // ---------- What the handlers do to their surroundings ----------

  function Taken(w: World, text: string): World {
    w.(handled := w.handled + [text])
  }

  /** `kept` is how many messages had been handled when the first one was dropped. */
  function Drop(w: World): World
    requires w.handled != []
  {
    w.(socketOpen := false, dropped := true, kept := if w.dropped then w.kept else |w.handled| - 1)
  }

  function HandOver(w: World, message: string): World {
    w.(starts := w.starts + 1, inFlight := w.inFlight + [WriteOp(message, w.socketOpen)])
  }

  function TakeBack(w: World, ok: bool): World
    requires w.inFlight != []
  {
    var d := w.(inFlight := w.inFlight[1..]);
    if ok then d.(written := w.written + [w.inFlight[0].message]) else d.(failed := true)
  }

  function TellClosed(w: World): World {
    w.(closes := w.closes + 1)
  }

  function Wait(w: World): World {
    w.(waits := w.waits + 1, arms := w.arms + 1)
  }

  function EndWait(w: World): World
    requires w.waits > 0
  {
    w.(waits := w.waits - 1)
  }

  function TellPongTimeout(w: World): World {
    w.(pongReports := w.pongReports + 1)
  }

  // ---------- Handlers ----------

  function NotifyClose(s: Ws): Ws {
    if s.fields.closeNotified then s
    else Ws(s.fields.(closeNotified := true, pongPending := false), TellClosed(s.world))
  }

  function StartWrite(s: Ws): Ws {
    if s.fields.outQueue == [] then s
    else Ws(s.fields.(writing := true), HandOver(s.world, s.fields.outQueue[0]))
  }

  function HandleSend(s: Ws, text: string): Ws {
    var w := Taken(s.world, text);
    if |s.fields.outQueue| >= MAX_OUT_QUEUE_DEPTH then Ws(s.fields, Drop(w))
    else
      var q := Ws(s.fields.(outQueue := s.fields.outQueue + [text]), w);
      if !q.fields.writing then StartWrite(q) else q
  }

  function HandleWritten(s: Ws, ok: bool): Ws
    requires s.world.inFlight != []
  {
    var d := s.(world := TakeBack(s.world, ok));
    if !ok then NotifyClose(d)
    else
      var queue := if s.fields.outQueue == [] then [] else s.fields.outQueue[1..];
      if queue != [] then StartWrite(d.(fields := s.fields.(outQueue := queue)))
      else d.(fields := s.fields.(outQueue := queue, writing := false))
  }

  function ArmPongTimer(s: Ws, timeoutSet: bool): Ws {
    if !timeoutSet then s else Ws(s.fields.(pongPending := true), Wait(s.world))
  }

  function HandlePongTimer(s: Ws, cancelled: bool): Ws
    requires s.world.waits > 0
  {
    var w := EndWait(s.world);
    if cancelled || !s.fields.pongPending then Ws(s.fields, w)
    else Ws(s.fields.(pongPending := false), TellPongTimeout(w))
  }

  // ---------- Runs ----------

  datatype Event =
    | Post(text: string)              // sendText, from any thread
    | RunPosted                       // the strand runs the first posted send
    | WriteDone(ok: bool)             // a write completes
    | ReadFailed                      // the read loop ends
    | SocketCloses                    // the transport closes for any other reason
    | Ping(timeoutSet: bool)          // a posted ping runs
    | Pong                            // the answering pong arrives
    | PongTimer(cancelled: bool)      // a timer wait completes

  /** A write started on a closed socket does not succeed. */
  predicate Enabled(s: Ws, e: Event) {
    match e
    case RunPosted => s.world.pendingSends != []
    case WriteDone(ok) => s.world.inFlight != [] && (ok ==> s.world.inFlight[0].startedOpen)
    case PongTimer(_) => s.world.waits > 0
    case _ => true
  }

  function TakePosted(s: Ws): Ws
    requires s.world.pendingSends != []
  {
    s.(world := s.world.(pendingSends := s.world.pendingSends[1..]))
  }

  function Step(s: Ws, e: Event): Ws
    requires Enabled(s, e)
  {
    match e
    case Post(text) =>
      s.(world := s.world.(pendingSends := s.world.pendingSends + [text], posted := s.world.posted + [text]))
    case RunPosted => HandleSend(TakePosted(s), s.world.pendingSends[0])
    case WriteDone(ok) => HandleWritten(s, ok)
    case ReadFailed => NotifyClose(s)
    case SocketCloses => s.(world := s.world.(socketOpen := false))
    case Ping(timeoutSet) => ArmPongTimer(s, timeoutSet)
    case Pong => s.(fields := s.fields.(pongPending := false))
    case PongTimer(cancelled) => HandlePongTimer(s, cancelled)
  }

  /** Any interleaving: events that cannot happen yet are skipped. */
  function Run(s: Ws, events: seq<Event>): Ws
    decreases |events|
  {
    if events == [] then s
    else Run(if Enabled(s, events[0]) then Step(s, events[0]) else s, events[1..])
  }

  /** The messages that entered the queue, in order. */
  function Accepted(s: Ws): seq<string> {
    s.world.written + s.fields.outQueue
  }

  ghost predicate Inv(s: Ws) {
    && WriteInv(s)
    && QueueInv(s)
    && s.world.posted == s.world.handled + s.world.pendingSends
  }

  /** Writes, failure, close notification and pong reports. */
  ghost predicate WriteInv(s: Ws) {
    var f, w := s.fields, s.world;
    && |w.inFlight| <= 1
    && |f.outQueue| <= MAX_OUT_QUEUE_DEPTH
    && (f.writing <==> w.inFlight != [] || w.failed)
    && (w.inFlight != [] ==> !w.failed && f.outQueue != [] && w.inFlight[0].message == f.outQueue[0])
    && (!f.writing ==> f.outQueue == [])
    && (w.failed ==> f.closeNotified)
    && w.closes == (if f.closeNotified then 1 else 0)
    && w.pongReports + (if f.pongPending then 1 else 0) <= w.arms
  }

  /** Whether the write under way may still succeed. */
  function MaySucceed(s: Ws): nat {
    if s.world.inFlight != [] && s.world.inFlight[0].startedOpen then 1 else 0
  }

  /** Nothing is lost before the first drop; a drop leaves the queued prefix and closes the socket. */
  ghost predicate QueueInv(s: Ws) {
    var w := s.world;
    if !w.dropped then Accepted(s) == w.handled
    else
      && !w.socketOpen
      && w.kept <= |w.handled| && w.kept <= |Accepted(s)|
      && Accepted(s)[..w.kept] == w.handled[..w.kept]
      && |w.written| + MaySucceed(s) <= w.kept
  }

  lemma TakeOfAppend(a: seq<string>, x: string, k: nat)
    requires k <= |a|
    ensures (a + [x])[..k] == a[..k]
  {
  }

  lemma DropKeepsQueue(s: Ws, text: string)
    requires WriteInv(s) && QueueInv(s) && |s.fields.outQueue| >= MAX_OUT_QUEUE_DEPTH
    ensures QueueInv(HandleSend(s, text))
  {
    if s.world.dropped {
      TakeOfAppend(s.world.handled, text, s.world.kept);
    } else {
      TakeOfAppend(s.world.handled, text, |s.world.handled|);
      assert s.world.handled[..|s.world.handled|] == s.world.handled;
    }
  }

  lemma QueueingKeepsQueue(s: Ws, text: string)
    requires WriteInv(s) && QueueInv(s) && |s.fields.outQueue| < MAX_OUT_QUEUE_DEPTH
    ensures QueueInv(HandleSend(s, text))
  {
    assert Accepted(HandleSend(s, text)) == Accepted(s) + [text];
    if s.world.dropped {
      TakeOfAppend(s.world.handled, text, s.world.kept);
      TakeOfAppend(Accepted(s), text, s.world.kept);
    }
  }

  lemma SendKeepsWrites(s: Ws, text: string)
    requires WriteInv(s)
    ensures WriteInv(HandleSend(s, text))
  {
  }

  lemma SendKeepsInv(s: Ws)
    requires Inv(s) && s.world.pendingSends != []
    ensures Inv(Step(s, RunPosted))
  {
    var text := s.world.pendingSends[0];
    var u := TakePosted(s);
    assert WriteInv(u) && QueueInv(u);
    hide WriteInv, QueueInv;
    SendKeepsWrites(u, text);
    if |u.fields.outQueue| >= MAX_OUT_QUEUE_DEPTH {
      DropKeepsQueue(u, text);
    } else {
      QueueingKeepsQueue(u, text);
    }
    assert s.world.handled + s.world.pendingSends == s.world.handled + [text] + s.world.pendingSends[1..];
  }

  lemma WrittenKeepsWrites(s: Ws, ok: bool)
    requires WriteInv(s) && s.world.inFlight != []
    ensures WriteInv(HandleWritten(s, ok))
  {
    assert s.world.inFlight[1..] == [];
  }

  /** A completed write moves at most one message, from the front of the queue to the end of what is written. */
  lemma WrittenMovesOne(s: Ws, ok: bool)
    requires WriteInv(s) && s.world.inFlight != []
    ensures var t := HandleWritten(s, ok);
      && Accepted(t) == Accepted(s)
      && |t.world.written| == |s.world.written| + (if ok then 1 else 0)
      && t.world.socketOpen == s.world.socketOpen && t.world.handled == s.world.handled
      && t.world.dropped == s.world.dropped && t.world.kept == s.world.kept
      && (MaySucceed(t) > 0 ==> ok && s.world.socketOpen)
  {
    assert s.world.inFlight[1..] == [];
    var t, w := HandleWritten(s, ok), TakeBack(s.world, ok);
    if ok {
      var queue := s.fields.outQueue;
      FrontMoves(s.world.written, queue);
      assert t.fields.outQueue == queue[1..] && t.world.written == w.written;
    } else {
      assert t.fields.outQueue == s.fields.outQueue && t.world.written == s.world.written;
    }
  }

  lemma FrontMoves(a: seq<string>, queue: seq<string>)
    requires queue != []
    ensures (a + [queue[0]]) + queue[1..] == a + queue
  {
  }

  lemma WrittenKeepsQueue(s: Ws, ok: bool)
    requires WriteInv(s) && QueueInv(s) && Enabled(s, WriteDone(ok))
    ensures QueueInv(HandleWritten(s, ok))
  {
    WrittenMovesOne(s, ok);
    assert ok ==> MaySucceed(s) == 1;
    hide WriteInv, HandleWritten, MaySucceed, Accepted;
  }

  lemma WrittenKeepsInv(s: Ws, ok: bool)
    requires Inv(s) && Enabled(s, WriteDone(ok))
    ensures Inv(Step(s, WriteDone(ok)))
  {
    hide WriteInv, QueueInv;
    WrittenKeepsWrites(s, ok);
    WrittenKeepsQueue(s, ok);
  }

  lemma PostKeepsInv(s: Ws, text: string)
    requires Inv(s)
    ensures Inv(Step(s, Post(text)))
  {
    hide WriteInv, QueueInv;
    var t := Step(s, Post(text));
    assert t.world.handled + t.world.pendingSends == s.world.posted + [text];
    PostingIsQuiet(s, text);
  }

  lemma PostingIsQuiet(s: Ws, text: string)
    requires WriteInv(s) && QueueInv(s)
    ensures WriteInv(Step(s, Post(text))) && QueueInv(Step(s, Post(text)))
  {
  }

  /** Every step keeps the invariant. */
  lemma StepKeepsInv(s: Ws, e: Event)
    requires Inv(s) && Enabled(s, e)
    ensures Inv(Step(s, e))
  {
    match e {
      case RunPosted =>
        hide Inv;
        SendKeepsInv(s);
      case WriteDone(ok) =>
        hide Inv;
        WrittenKeepsInv(s, ok);
      case Post(text) =>
        hide Inv;
        PostKeepsInv(s, text);
      case _ =>
        hide HandleSend, HandleWritten;
    }
  }

  lemma {:induction false} RunKeepsInv(s: Ws, events: seq<Event>)
    requires Inv(s)
    ensures Inv(Run(s, events))
    decreases |events|
  {
    hide Inv, Step;
    if events != [] {
      if Enabled(s, events[0]) {
        StepKeepsInv(s, events[0]);
        RunKeepsInv(Step(s, events[0]), events[1..]);
      } else {
        RunKeepsInv(s, events[1..]);
      }
    }
  }

  /**
   * In every interleaving: one write in flight, a bounded queue, at most one close notification; and
   * while anything is queued its front is being written, unless a write has failed.
   */
  lemma SessionIsSafe(events: seq<Event>)
    ensures var s := Run(FRESH, events);
      && |s.world.inFlight| <= 1
      && (s.fields.outQueue != [] && !s.world.failed ==>
            |s.world.inFlight| == 1 && s.world.inFlight[0].message == s.fields.outQueue[0])
      && |s.fields.outQueue| <= 1024
      && s.world.closes <= 1
      && s.world.pongReports <= s.world.arms
  {
    RunKeepsInv(FRESH, events);
  }

  /**
   * In every interleaving the messages written are a prefix of the messages posted, and without a
   * drop every handled message is either written or still queued, in order.
   */
  lemma WrittenIsPrefixOfPosted(events: seq<Event>)
    ensures var s := Run(FRESH, events);
      && s.world.written <= s.world.posted
      && (!s.world.dropped ==> s.world.handled == s.world.written + s.fields.outQueue)
  {
    RunKeepsInv(FRESH, events);
    var s := Run(FRESH, events);
    if s.world.dropped {
      var n := |s.world.written|;
      var w := s.world;
      assert w.written == Accepted(s)[..n] == Accepted(s)[..w.kept][..n] == w.handled[..w.kept][..n] == w.handled[..n];
    } else {
      assert s.world.written == Accepted(s)[..|s.world.written|];
    }
  }

  lemma {:induction false} RunSplits(s: Ws, a: seq<Event>, b: seq<Event>)
    ensures Run(s, a + b) == Run(Run(s, a), b)
    decreases |a|
  {
    hide Step, Enabled;
    if a == [] {
      assert a + b == b;
    } else {
      assert (a + b)[0] == a[0] && (a + b)[1..] == a[1..] + b;
      RunSplits(if Enabled(s, a[0]) then Step(s, a[0]) else s, a[1..], b);
    }
  }

  lemma {:induction false} FailedStaysQuiet(s: Ws, events: seq<Event>)
    requires Inv(s) && s.world.failed
    ensures var t := Run(s, events);
      t.world.failed && t.world.starts == s.world.starts && t.world.written == s.world.written
    decreases |events|
  {
    if events != [] {
      if Enabled(s, events[0]) {
        var u := Step(s, events[0]);
        StepKeepsInv(s, events[0]);
        assert u.world.failed && u.world.starts == s.world.starts && u.world.written == s.world.written;
        FailedStaysQuiet(u, events[1..]);
      } else {
        FailedStaysQuiet(s, events[1..]);
      }
    }
  }

  /** Once a write has failed no further write is started, whatever happens. */
  lemma NoWriteAfterFailure(before: seq<Event>, after: seq<Event>)
    requires Run(FRESH, before).world.failed
    ensures Run(FRESH, before + after).world.starts == Run(FRESH, before).world.starts
    ensures Run(FRESH, before + after).world.written == Run(FRESH, before).world.written
  {
    hide Inv;
    RunSplits(FRESH, before, after);
    assert Inv(FRESH) by { FreshIsSound(); }
    RunKeepsInv(FRESH, before);
    FailedStaysQuiet(Run(FRESH, before), after);
  }

  lemma FreshIsSound()
    ensures Inv(FRESH)
  {
  }

  lemma ClosedStep(s: Ws, e: Event)
    requires Inv(s) && !s.world.socketOpen && Enabled(s, e)
    ensures var u := Step(s, e);
      !u.world.socketOpen && |u.world.written| + MaySucceed(u) <= |s.world.written| + MaySucceed(s)
  {
    hide QueueInv;
    match e {
      case WriteDone(ok) => assert s.world.inFlight[1..] == [];
      case _ =>
    }
  }

  lemma {:induction false} ClosedStopsWriting(s: Ws, events: seq<Event>)
    requires Inv(s) && !s.world.socketOpen
    ensures |Run(s, events).world.written| + MaySucceed(Run(s, events)) <= |s.world.written| + MaySucceed(s)
    decreases |events|
  {
    hide Inv, Step, Enabled, MaySucceed;
    if events != [] {
      if Enabled(s, events[0]) {
        StepKeepsInv(s, events[0]);
        ClosedStep(s, events[0]);
        ClosedStopsWriting(Step(s, events[0]), events[1..]);
      } else {
        ClosedStopsWriting(s, events[1..]);
      }
    }
  }

  /** After an overflow drop at most the write already under way is completed. */
  lemma DropEndsDelivery(before: seq<Event>, after: seq<Event>)
    requires Run(FRESH, before).world.dropped
    ensures |Run(FRESH, before + after).world.written| <= |Run(FRESH, before).world.written| + 1
  {
    hide Step, Enabled;
    RunSplits(FRESH, before, after);
    FreshIsSound();
    RunKeepsInv(FRESH, before);
    ClosedStopsWriting(Run(FRESH, before), after);
  }

  /** A message is dropped only by a full queue: then 1024 handled messages have not been written. */
  lemma DropNeedsFullQueue(events: seq<Event>)
    requires var s := Run(FRESH, events);
      s.world.pendingSends != [] && !s.world.dropped && Step(s, RunPosted).world.dropped
    ensures var s := Run(FRESH, events);
      |s.world.handled| == |s.world.written| + MAX_OUT_QUEUE_DEPTH && (s.world.inFlight != [] || s.world.failed)
  {
    RunKeepsInv(FRESH, events);
  }

  // ---------- What each event brings about ----------

  lemma RunOne(before: seq<Event>, e: Event)
    requires Enabled(Run(FRESH, before), e)
    ensures Run(FRESH, before + [e]) == Step(Run(FRESH, before), e) && Inv(Run(FRESH, before))
  {
    hide Step, Enabled, Inv;
    RunSplits(FRESH, before, [e]);
    assert [e][1..] == [];
    var s := Run(FRESH, before);
    assert Run(s, [e]) == Run(Step(s, e), []);
    FreshIsSound();
    RunKeepsInv(FRESH, before);
  }

  /**
   * After any run: a posted message joins the queue, and is written at once if nothing is; or, if
   * 1024 are waiting, closes the socket.
   */
  lemma SendDoes(before: seq<Event>)
    requires Enabled(Run(FRESH, before), RunPosted)
    ensures var s, t := Run(FRESH, before), Run(FRESH, before + [RunPosted]);
      var text := s.world.pendingSends[0];
      && t.world.handled == s.world.handled + [text] && t.world.pendingSends == s.world.pendingSends[1..]
      && (if |s.fields.outQueue| < 1024
          then
            && t.fields.outQueue == s.fields.outQueue + [text] && t.world.socketOpen == s.world.socketOpen
            && t.world.starts == s.world.starts + (if s.world.inFlight == [] && !s.world.failed then 1 else 0)
          else
            t.fields == s.fields && !t.world.socketOpen && t.world.dropped && t.world.starts == s.world.starts)
  {
    RunOne(before, RunPosted);
  }

  /** A completed write takes its message off the queue and starts the next; a failed one tells the close. */
  lemma WriteDoneDoes(before: seq<Event>, ok: bool)
    requires Enabled(Run(FRESH, before), WriteDone(ok))
    ensures var s, t := Run(FRESH, before), Run(FRESH, before + [WriteDone(ok)]);
      if ok
      then
        && s.fields.outQueue != [] && t.fields.outQueue == s.fields.outQueue[1..]
        && t.world.written == s.world.written + [s.fields.outQueue[0]]
        && t.world.starts == s.world.starts + (if t.fields.outQueue == [] then 0 else 1)
        && t.world.closes == s.world.closes
      else
        && t.world.failed && t.world.closes == 1
        && t.world.written == s.world.written && t.world.starts == s.world.starts
  {
    RunOne(before, WriteDone(ok));
  }

  /** A wait that expires with the pong outstanding is reported once; any other is not. */
  lemma PongTimerDoes(before: seq<Event>, cancelled: bool)
    requires Enabled(Run(FRESH, before), PongTimer(cancelled))
    ensures var s, t := Run(FRESH, before), Run(FRESH, before + [PongTimer(cancelled)]);
      && t.world.waits == s.world.waits - 1
      && t.world.pongReports == s.world.pongReports + (if !cancelled && s.fields.pongPending then 1 else 0)
      && t.fields.pongPending == (cancelled && s.fields.pongPending)
  {
    RunOne(before, PongTimer(cancelled));
  }

  /** A ping with a deadline leaves a pong outstanding; a pong, and the close when first told, end that. */
  lemma PongIsOutstanding(before: seq<Event>, timeoutSet: bool)
    ensures var s, t := Run(FRESH, before), Run(FRESH, before + [Ping(timeoutSet)]);
      && t.fields.pongPending == (timeoutSet || s.fields.pongPending)
      && t.world.waits == s.world.waits + (if timeoutSet then 1 else 0)
    ensures !Run(FRESH, before + [Pong]).fields.pongPending
    ensures Run(FRESH, before).world.closes == 0 ==> !Run(FRESH, before + [ReadFailed]).fields.pongPending
  {
    RunOne(before, Ping(timeoutSet));
    RunOne(before, Pong);
    RunOne(before, ReadFailed);
  }

  /** A failed read tells the close, and it is told once whatever happens before and after. */
  lemma FailedReadTellsClose(before: seq<Event>, after: seq<Event>)
    ensures Run(FRESH, before + [ReadFailed] + after).world.closes == 1
  {
    RunOne(before, ReadFailed);
    var t := Run(FRESH, before + [ReadFailed]);
    assert t.world.closes == 1;
    RunSplits(FRESH, before + [ReadFailed], after);
    ClosesNeverShrink(t, after);
    SessionIsSafe(before + [ReadFailed] + after);
  }

  lemma {:induction false} ClosesNeverShrink(s: Ws, events: seq<Event>)
    ensures Run(s, events).world.closes >= s.world.closes
    decreases |events|
  {
    if events != [] {
      ClosesNeverShrink(if Enabled(s, events[0]) then Step(s, events[0]) else s, events[1..]);
    }
  }

  // ---------- The session object ----------

  class Session {
    var outQueue: seq<string>
    var writing: bool
    var closeNotified: bool
    var pongPending: bool
    const pongTimeoutMs: int
    // The transport, the timer, and the history
    ghost var world: World

    /** The fields together with what surrounds them. */
    ghost function State(): Ws
      reads this
    {
      Ws(Fields(outQueue, writing, closeNotified, pongPending), world)
    }

    constructor (pongTimeoutMs: int)
      ensures State() == FRESH && this.pongTimeoutMs == pongTimeoutMs
    {
      outQueue, writing, closeNotified, pongPending := [], false, false, false;
      this.pongTimeoutMs := pongTimeoutMs;
      world := FRESH.world;
    }

    /** The posted part of sendText. */
    method OnSendText(text: string)
      modifies this
      ensures State() == HandleSend(old(State()), text)
    {
      world := Taken(world, text);
      if |outQueue| >= MAX_OUT_QUEUE_DEPTH {
        world := Drop(world);
        return;
      }
      outQueue := outQueue + [text];
      if !writing {
        BeginWrite();
      }
    }

    method BeginWrite()
      modifies this
      ensures State() == StartWrite(old(State()))
    {
      if outQueue == [] {
        return;
      }
      writing := true;
      world := HandOver(world, outQueue[0]);
    }

    /** The completion handler of a write. */
    method OnWritten(failed: bool)
      requires State().world.inFlight != [] && (!failed ==> outQueue != [])
      modifies this
      ensures State() == HandleWritten(old(State()), !failed)
    {
      world := TakeBack(world, !failed);
      if failed {
        ReportClose();
        return;
      }
      outQueue := outQueue[1..];
      if outQueue != [] {
        BeginWrite();
      } else {
        writing := false;
      }
    }

    method ReportClose()
      modifies this
      ensures State() == NotifyClose(old(State()))
    {
      if closeNotified {
        return;
      }
      closeNotified := true;
      pongPending := false;
      world := TellClosed(world);
    }

    /** The posted part of sendPing, after the ping frame has been handed over. */
    method ArmTimer()
      modifies this
      ensures State() == ArmPongTimer(old(State()), pongTimeoutMs > 0)
    {
      if pongTimeoutMs <= 0 {
        return;
      }
      pongPending := true;
      world := Wait(world);
    }

    method OnPong()
      modifies this
      ensures State() == Step(old(State()), Pong)
    {
      pongPending := false;
    }

    method OnPongTimer(cancelled: bool)
      requires State().world.waits > 0
      modifies this
      ensures State() == HandlePongTimer(old(State()), cancelled)
    {
      world := EndWait(world);
      if cancelled || !pongPending {
        return;
      }
      pongPending := false;
      world := TellPongTimeout(world);
    }
  }
}
