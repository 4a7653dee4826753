/** The HTTP session: one request, one response, a head deadline and deferred answers. */
module HttpSession {

  /** The flags of the session object. */
  datatype Flags = Flags(headDone: bool, deferred: bool, selfKeep: bool)

  /** The head timer's wait: running, expired with its handler queued, cancelled, or completed. */
  datatype Timer = Armed | ExpiredQueued | CancelledQueued | Idle

  /** How the request head and body stand. */
  datatype Reading = Head | Body | Finished

  /** Who holds a deferred answer: the request handler, the strand, or it has been given, or lost. */
  datatype Deferral = NotDeferred | Owed | Posted | Answered | Lost

  /** Operations under way and what has happened so far. */
  datatype World = World(
    timer: Timer,
    reading: Reading,
    deferral: Deferral,
    dispatched: bool,
    writesPending: nat,
    answeredInline: nat,
    answeredPosted: nat,
    socketOpen: bool,
    timeouts: nat)

  datatype Http = Http(flags: Flags, world: World)

  /** After run(): the deadline is armed and the head is being read. */
  const RUNNING: Http :=
    Http(Flags(false, false, false), World(Armed, Head, NotDeferred, false, 0, 0, 0, true, 0))

  // ---------- Handlers ----------

  function CloseOnTimeout(w: World): World {
    w.(socketOpen := false, timeouts := w.timeouts + 1)
  }

  /** The deadline handler, which may already have been queued when the timer was cancelled. */
  function OnTimer(s: Http, aborted: bool): Http {
    var w := s.world.(timer := Idle);
    Http(s.flags, if aborted || s.flags.headDone then w else CloseOnTimeout(w))
  }

  /** cancel() stops a running wait; it does not recall a queued handler. */
  function CancelTimer(w: World): World {
    w.(timer := if w.timer == Armed then CancelledQueued else w.timer)
  }

  function OnHeader(s: Http, failed: bool): Http {
    Http(s.flags.(headDone := true), CancelTimer(s.world).(reading := if failed then Finished else Body))
  }

  function MarkDeferred(f: Flags): Flags {
    if f.deferred then f else f.(deferred := true, selfKeep := true)
  }

  function StartResponse(w: World): World {
    w.(writesPending := w.writesPending + 1)
  }

  function AnswerInline(w: World): World {
    StartResponse(w).(answeredInline := w.answeredInline + 1)
  }

  /** What the request handler does with a complete request. */
  datatype Request = Unreadable | Upgrade | AnsweredAtOnce | AnsweredLater

  function OnRead(s: Http, request: Request): Http {
    var w := s.world.(reading := Finished);
    match request
    case Unreadable => Http(s.flags, w)
    case Upgrade => Http(s.flags, w)
    case AnsweredAtOnce =>
      var d := w.(dispatched := true);
      Http(s.flags, if s.flags.deferred then d else AnswerInline(d))
    case AnsweredLater =>
      var d := w.(dispatched := true, deferral := Owed);
      Http(MarkDeferred(s.flags), d)
  }

  /** Some operation or the session itself still refers to the session object. */
  predicate Alive(s: Http) {
    s.world.reading != Finished || s.world.timer != Idle || s.flags.selfKeep || s.world.deferral == Posted
    || s.world.writesPending > 0
  }

  /**
   * The completion, called on another executor: it posts to the strand if its handle still finds
   * the session, and is lost otherwise.
   */
  function SendAndRelease(s: Http): Http {
    s.(world := s.world.(deferral := if Alive(s) then Posted else Lost))
  }

  /** The posted part of the completion. */
  function Release(s: Http): Http {
    Http(s.flags.(deferred := false, selfKeep := false),
         StartResponse(s.world).(deferral := Answered, answeredPosted := s.world.answeredPosted + 1))
  }

  // ---------- Runs ----------

  datatype Event =
    | TimerExpires
    | TimerHandler
    | HeadRead(failed: bool)
    | BodyRead(request: Request)
    | CompletionCalled
    | CompletionRuns
    | WriteDone

  /** A deferred completion is called at most once. */
  predicate Enabled(s: Http, e: Event) {
    match e
    case TimerExpires => s.world.timer == Armed
    case TimerHandler => s.world.timer == ExpiredQueued || s.world.timer == CancelledQueued
    case HeadRead(_) => s.world.reading == Head
    case BodyRead(_) => s.world.reading == Body
    case CompletionCalled => s.world.deferral == Owed
    case CompletionRuns => s.world.deferral == Posted
    case WriteDone => s.world.writesPending > 0
  }

  function Step(s: Http, e: Event): Http
    requires Enabled(s, e)
  {
    match e
    case TimerExpires => s.(world := s.world.(timer := ExpiredQueued))
    case TimerHandler => OnTimer(s, s.world.timer == CancelledQueued)
    case HeadRead(failed) => OnHeader(s, failed)
    case BodyRead(request) => OnRead(s, request)
    case CompletionCalled => SendAndRelease(s)
    case CompletionRuns => Release(s)
    case WriteDone => s.(world := s.world.(writesPending := s.world.writesPending - 1, socketOpen := false))
  }

  /** Any interleaving: events that cannot happen yet are skipped. */
  function Run(s: Http, events: seq<Event>): Http
    decreases |events|
  {
    if events == [] then s
    else Run(if Enabled(s, events[0]) then Step(s, events[0]) else s, events[1..])
  }

  ghost predicate Inv(s: Http) {
    var w := s.world;
    // The head is read once, then the body once
    && (w.reading == Head <==> !s.flags.headDone)
    && (w.dispatched ==> w.reading == Finished)
    && w.deferral != Lost
    && (w.deferral != NotDeferred ==> w.dispatched)
    // A dispatched request is answered inline unless it was deferred
    && w.answeredInline == (if w.dispatched && w.deferral == NotDeferred then 1 else 0)
    // A deferral is with the handler, on the strand, or answered
    && w.answeredPosted == (if w.deferral == Answered then 1 else 0)
    && (s.flags.deferred <==> w.deferral == Owed || w.deferral == Posted)
    && s.flags.selfKeep == s.flags.deferred
    && (w.timer == Armed ==> !s.flags.headDone)
    && (w.timer == CancelledQueued ==> s.flags.headDone)
    // The deadline strikes once
    && w.timeouts + (if w.timer == Idle then 0 else 1) <= 1
  }

  lemma StepKeepsInv(s: Http, e: Event)
    requires Inv(s) && Enabled(s, e)
    ensures Inv(Step(s, e))
  {
    match e {
      case BodyRead(request) =>
        match request {
          case Unreadable =>
          case Upgrade =>
          case AnsweredAtOnce =>
          case AnsweredLater =>
        }
      case _ =>
    }
  }

  lemma {:induction false} RunKeepsInv(s: Http, events: seq<Event>)
    requires Inv(s)
    ensures Inv(Run(s, events))
    decreases |events|
  {
    hide Inv, Step, Enabled;
    if events != [] {
      if Enabled(s, events[0]) {
        StepKeepsInv(s, events[0]);
        RunKeepsInv(Step(s, events[0]), events[1..]);
      } else {
        RunKeepsInv(s, events[1..]);
      }
    }
  }

  lemma RunningIsSound()
    ensures Inv(RUNNING)
  {
  }

  /**
   * In every interleaving at most one response is started: inline exactly for a dispatched request
   * that is not deferred, and from the posted completion for a deferred one. No deferred answer is
   * lost for want of a session.
   */
  lemma OneResponse(events: seq<Event>)
    ensures var w := Run(RUNNING, events).world;
      && w.answeredInline + w.answeredPosted <= 1
      && (w.answeredInline == 1 <==> w.dispatched && w.deferral == NotDeferred)
      && (w.answeredPosted == 1 <==> w.deferral == Answered)
      && w.deferral != Lost
  {
    hide Run;
    RunningIsSound();
    RunKeepsInv(RUNNING, events);
  }

  /**
   * While a deferred answer is owed the session is kept alive, so the completion finds it: once the
   * completion has been called and what it posted has had its turn, whatever else happens before,
   * between and after, the request has been answered once.
   */
  lemma DeferredAnswerArrives(before: seq<Event>, between: seq<Event>, after: seq<Event>)
    requires Run(RUNNING, before).world.deferral == Owed
    ensures var s := Run(RUNNING, before + [CompletionCalled] + between + [CompletionRuns] + after);
      && s.world.deferral == Answered
      && s.world.answeredPosted == 1 && s.world.answeredInline == 0 && !s.flags.deferred
  {
    hide *;
    RunningIsSound();
    RunKeepsInv(RUNNING, before);
    var s := Run(RUNNING, before);
    CompletionFinds(s);
    var called := Step(s, CompletionCalled);
    RunsOne(s, CompletionCalled);
    RunSplits(RUNNING, before, [CompletionCalled]);
    AnswerMovesOn(called, between);
    var waited := Run(called, between);
    RunSplits(RUNNING, before + [CompletionCalled], between);
    PostedRuns(waited);
    var ran := Run(waited, [CompletionRuns]);
    RunSplits(RUNNING, before + [CompletionCalled] + between, [CompletionRuns]);
    AnswerMovesOn(ran, after);
    RunSplits(RUNNING, before + [CompletionCalled] + between + [CompletionRuns], after);
    AnsweredMeans(Run(ran, after));
  }

  lemma CompletionFinds(s: Http)
    requires Inv(s) && s.world.deferral == Owed
    ensures Enabled(s, CompletionCalled)
    ensures Inv(Step(s, CompletionCalled)) && Step(s, CompletionCalled).world.deferral == Posted
  {
  }

  /** A posted answer is given; an answer given stays given. */
  lemma {:induction false} AnswerMovesOn(s: Http, events: seq<Event>)
    requires Inv(s) && (s.world.deferral == Posted || s.world.deferral == Answered)
    ensures var t := Run(s, events);
      && Inv(t)
      && (t.world.deferral == Answered || (s.world.deferral == Posted && t.world.deferral == Posted))
    decreases |events|
  {
    hide Inv, Step, Enabled;
    if events != [] {
      if Enabled(s, events[0]) {
        StepKeepsInv(s, events[0]);
        AnswerStep(s, events[0]);
        AnswerMovesOn(Step(s, events[0]), events[1..]);
      } else {
        AnswerMovesOn(s, events[1..]);
      }
    }
  }

  lemma AnswerStep(s: Http, e: Event)
    requires Inv(s) && Enabled(s, e)
    ensures s.world.deferral == Answered ==> Step(s, e).world.deferral == Answered
    ensures s.world.deferral == Posted ==>
      Step(s, e).world.deferral == if e == CompletionRuns then Answered else Posted
  {
  }

  lemma PostedRuns(s: Http)
    requires Inv(s) && (s.world.deferral == Posted || s.world.deferral == Answered)
    ensures var t := Run(s, [CompletionRuns]);
      Inv(t) && t.world.deferral == Answered
  {
    RunsOne(s, CompletionRuns);
    if s.world.deferral == Posted {
      StepKeepsInv(s, CompletionRuns);
    }
  }

  lemma AnsweredMeans(s: Http)
    requires Inv(s) && s.world.deferral == Answered
    ensures s.world.answeredPosted == 1 && s.world.answeredInline == 0 && !s.flags.deferred
  {
  }

  lemma RunsOne(s: Http, e: Event)
    ensures Run(s, [e]) == if Enabled(s, e) then Step(s, e) else s
  {
    hide Step, Enabled;
    assert [e][1..] == [];
    assert Run(s, [e]) == Run(if Enabled(s, e) then Step(s, e) else s, []);
  }

  lemma RunsTwo(s: Http, a: Event, b: Event)
    requires Enabled(s, a) && Enabled(Step(s, a), b)
    ensures Run(s, [a, b]) == Step(Step(s, a), b)
  {
    hide Step, Enabled;
    assert [a, b][1..] == [b] && [b][1..] == [];
    assert Run(Step(s, a), [b]) == Run(Step(Step(s, a), b), []);
  }

  lemma {:induction false} RunSplits(s: Http, a: seq<Event>, b: seq<Event>)
    ensures Run(s, a + b) == Run(Run(s, a), b)
    decreases |a|
  {
    hide Step, Enabled;
    if a == [] {
      assert a + b == b;
    } else {
      assert (a + b)[0] == a[0] && (a + b)[1..] == a[1..] + b;
      RunSplits(if Enabled(s, a[0]) then Step(s, a[0]) else s, a[1..], b);
    }
  }

  lemma HeadDoneStep(s: Http, e: Event)
    requires s.flags.headDone && Enabled(s, e)
    ensures Step(s, e).flags.headDone && Step(s, e).world.timeouts == s.world.timeouts
  {
  }

  lemma {:induction false} HeadDoneStopsTheClock(s: Http, events: seq<Event>)
    requires s.flags.headDone
    ensures Run(s, events).flags.headDone && Run(s, events).world.timeouts == s.world.timeouts
    decreases |events|
  {
    hide Step, Enabled;
    if events != [] {
      if Enabled(s, events[0]) {
        HeadDoneStep(s, events[0]);
        HeadDoneStopsTheClock(Step(s, events[0]), events[1..]);
      } else {
        HeadDoneStopsTheClock(s, events[1..]);
      }
    }
  }

  /**
   * Once the header handler has run, no later event, not even a deadline handler that was already
   * queued, times the session out; that handler changes nothing but the timer.
   */
  lemma NoTimeoutAfterHead(before: seq<Event>, after: seq<Event>, aborted: bool)
    requires Run(RUNNING, before).flags.headDone
    ensures var s := Run(RUNNING, before + after);
      && s.world.timeouts == Run(RUNNING, before).world.timeouts
      && OnTimer(s, aborted) == s.(world := s.world.(timer := Idle))
  {
    hide Run;
    RunSplits(RUNNING, before, after);
    HeadDoneStopsTheClock(Run(RUNNING, before), after);
  }

  /** cancel() alone would not do: a run in which the handler is still queued after the head arrived. */
  lemma QueuedHandlerOutlivesCancel()
    ensures var s := Run(RUNNING, [TimerExpires, HeadRead(false)]);
      s.flags.headDone && s.world.timer == ExpiredQueued && s.world.reading == Body && s.world.socketOpen
  {
    RunsTwo(RUNNING, TimerExpires, HeadRead(false));
  }

  // ---------- What each event brings about ----------

  lemma RunOneMore(before: seq<Event>, e: Event)
    requires Enabled(Run(RUNNING, before), e)
    ensures Run(RUNNING, before + [e]) == Step(Run(RUNNING, before), e) && Inv(Run(RUNNING, before))
  {
    hide *;
    RunSplits(RUNNING, before, [e]);
    RunsOne(Run(RUNNING, before), e);
    RunningIsSound();
    RunKeepsInv(RUNNING, before);
  }

  /** An expired deadline whose handler runs before the head has arrived closes the socket, once. */
  lemma DeadlineDoes(before: seq<Event>)
    requires Enabled(Run(RUNNING, before), TimerHandler)
    ensures var s, t := Run(RUNNING, before), Run(RUNNING, before + [TimerHandler]);
      if s.world.timer == ExpiredQueued && !s.flags.headDone
      then !t.world.socketOpen && t.world.timeouts == 1
      else t.world.socketOpen == s.world.socketOpen && t.world.timeouts == s.world.timeouts
  {
    RunOneMore(before, TimerHandler);
  }

  /** The first thing that happens may be that: nothing is sent, and the session times out. */
  lemma SilentPeerTimesOut()
    ensures var s := Run(RUNNING, [TimerExpires, TimerHandler]);
      s.world.timeouts == 1 && !s.world.socketOpen && s.world.answeredInline + s.world.answeredPosted == 0
  {
    RunsTwo(RUNNING, TimerExpires, TimerHandler);
  }

  /** A head that arrives is followed by the body, one that fails by nothing. */
  lemma HeadDoes(before: seq<Event>, failed: bool)
    requires Enabled(Run(RUNNING, before), HeadRead(failed))
    ensures var t := Run(RUNNING, before + [HeadRead(failed)]);
      t.flags.headDone && t.world.reading == if failed then Finished else Body
  {
    RunOneMore(before, HeadRead(failed));
  }

  /** What a body that has been read leads to: an answer at once, one that is owed, or none from this session. */
  lemma BodyDoes(before: seq<Event>, request: Request)
    requires Enabled(Run(RUNNING, before), BodyRead(request))
    ensures var s, t := Run(RUNNING, before), Run(RUNNING, before + [BodyRead(request)]);
      && t.world.reading == Finished && t.world.answeredPosted == 0
      && t.world.answeredInline == (if request == AnsweredAtOnce then 1 else 0)
      && t.world.writesPending == s.world.writesPending + t.world.answeredInline
      && t.flags.deferred == t.flags.selfKeep == (request == AnsweredLater)
      && (t.world.deferral == Owed <==> request == AnsweredLater)
  {
    RunOneMore(before, BodyRead(request));
  }

  /** The posted completion starts the response and lets the session go; a finished response closes the socket. */
  lemma CompletionDoes(before: seq<Event>)
    ensures Enabled(Run(RUNNING, before), CompletionRuns) ==>
      var s, t := Run(RUNNING, before), Run(RUNNING, before + [CompletionRuns]);
      && t.world.answeredPosted == 1 && t.world.writesPending == s.world.writesPending + 1
      && !t.flags.deferred && !t.flags.selfKeep
    ensures Enabled(Run(RUNNING, before), WriteDone) ==>
      !Run(RUNNING, before + [WriteDone]).world.socketOpen
  {
    if Enabled(Run(RUNNING, before), CompletionRuns) {
      RunOneMore(before, CompletionRuns);
    }
    if Enabled(Run(RUNNING, before), WriteDone) {
      RunOneMore(before, WriteDone);
    }
  }

  // ---------- The session object ----------

  class Session {
    var headDone: bool
    var deferred: bool
    var selfKeep: bool
    // The timer, the operations under way, and the history
    ghost var world: World

    ghost function State(): Http
      reads this
    {
      Http(Flags(headDone, deferred, selfKeep), world)
    }

    constructor ()
      ensures State() == RUNNING
    {
      headDone, deferred, selfKeep := false, false, false;
      world := RUNNING.world;
    }

    method HandleTimer(aborted: bool)
      modifies this
      ensures State() == OnTimer(old(State()), aborted)
    {
      world := world.(timer := Idle);
      if aborted || headDone {
        return;
      }
      world := CloseOnTimeout(world);
    }

    method HandleHeader(failed: bool)
      modifies this
      ensures State() == OnHeader(old(State()), failed)
    {
      headDone := true;
      world := CancelTimer(world);
      if failed {
        world := world.(reading := Finished);
        return;
      }
      world := world.(reading := Body);
    }

    /** The request handler, when it runs, either defers or has set the response by the time it returns. */
    method HandleRead(request: Request)
      modifies this
      ensures State() == OnRead(old(State()), request)
    {
      world := world.(reading := Finished);
      if request == Unreadable {
        return;
      }
      if request == Upgrade {
        return;
      }
      world := world.(dispatched := true);
      if request == AnsweredLater {
        Defer();
        world := world.(deferral := Owed);
      }
      if !deferred {
        Respond();
        world := world.(answeredInline := world.answeredInline + 1);
      }
    }

    method Defer()
      modifies this
      ensures State() == Http(MarkDeferred(old(State()).flags), old(world))
      ensures deferred
    {
      if !deferred {
        deferred := true;
        selfKeep := true;
      }
    }

    method Respond()
      modifies this
      ensures State() == Http(old(State()).flags, StartResponse(old(world)))
    {
      world := StartResponse(world);
    }

    method HandleRelease()
      modifies this
      ensures State() == Release(old(State()))
    {
      Respond();
      world := world.(deferral := Answered, answeredPosted := world.answeredPosted + 1);
      deferred := false;
      selfKeep := false;
    }
  }
}
