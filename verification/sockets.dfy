/** Sockets, the sessions bound to them, and when a session times out. */
module Sockets {
  import opened Wrappers

  const U64: nat := 0x1_0000_0000_0000_0000

  type Handle = nat
  type SessionId = nat

  /** `minutes` is the limit asked for, `lastDisconnect` the tick of the last unbinding, or of the creation. */
  datatype SessionState = SessionState(
    hasSocket: bool, lastActivity: nat, maxInactivity: nat, minutes: nat, lastDisconnect: nat)

  /** Registered sockets with the session each is bound to, all sessions, and the clock. */
  datatype Registry = Registry(
    sockets: map<Handle, Option<SessionId>>, sessions: map<SessionId, SessionState>, now: nat)

  const EMPTY: Registry := Registry(map[], map[], 0)

  // ---------- Session ----------

  const MS_PER_MINUTE: nat := 60000

  /** The product that turns minutes into milliseconds is taken modulo 2^64. */
  function NewSession(minutes: nat, now: nat): SessionState {
    SessionState(false, now, MS_PER_MINUTE * minutes % U64, minutes, now)
  }

  function SocketConnected(s: SessionState): SessionState {
    s.(hasSocket := true)
  }

  function SocketDisconnected(s: SessionState, now: nat): SessionState {
    s.(hasSocket := false, lastActivity := now, lastDisconnect := now)
  }

  /** The sum wraps at 64 bits. */
  predicate IsTimeout(s: SessionState, tick: nat) {
    !s.hasSocket && s.maxInactivity > 0 && (s.lastActivity + s.maxInactivity) % U64 < tick
  }

  // ---------- Registry ----------

  predicate IsBound(r: Registry, h: Handle, id: SessionId) {
    h in r.sockets && r.sockets[h] == Some(id)
  }

  /** Some registered socket bound to the session; there is never a choice, as proved below. */
  ghost function GetSocket(r: Registry, id: SessionId): (o: Option<Handle>)
    ensures o.Some? ==> IsBound(r, o.value, id)
    ensures o.None? ==> forall h :: !IsBound(r, h, id)
  {
    if h :| IsBound(r, h, id) then Some(h) else None
  }

  function WithSession(r: Registry, id: SessionId, s: SessionState): Registry {
    r.(sessions := r.sessions[id := s])
  }

  /** Unbinds a socket, telling its session. */
  function ResetSocketSession(r: Registry, h: Handle): Registry
    requires h in r.sockets
  {
    match r.sockets[h]
    case None => r
    case Some(id) =>
      var u := r.(sockets := r.sockets[h := None]);
      if id in r.sessions then WithSession(u, id, SocketDisconnected(r.sessions[id], r.now)) else u
  }

  function AddSocket(r: Registry, h: Handle): Registry {
    if h in r.sockets then r else r.(sockets := r.sockets[h := None])
  }

  function Disconnected(r: Registry, h: Handle): Registry {
    if h !in r.sockets then r
    else
      var u := ResetSocketSession(r, h);
      u.(sockets := u.sockets - {h})
  }

  /** A session that already has a socket loses it first. */
  ghost function Authenticated(r: Registry, h: Handle, id: SessionId): Registry
    requires h in r.sockets && id in r.sessions
  {
    var prev := GetSocket(r, id);
    var u := if prev.Some? then ResetSocketSession(r, prev.value) else r;
    WithSession(u.(sockets := u.sockets[h := Some(id)]), id, SocketConnected(u.sessions[id]))
  }

  ghost function SessionRemoved(r: Registry, id: SessionId): Registry {
    match GetSocket(r, id)
    case None => r
    case Some(h) => ResetSocketSession(r, h)
  }

  function Activity(r: Registry, id: SessionId): Registry
    requires id in r.sessions
  {
    WithSession(r, id, r.sessions[id].(lastActivity := r.now))
  }

  // ---------- Runs ----------

  datatype Event =
    | Clock(now: nat)
    | Create(created: SessionId, minutes: nat)
    | Connect(h: Handle)
    | Authenticate(socket: Handle, id: SessionId)
    | Disconnect(h: Handle)
    | Remove(id: SessionId)
    | Use(id: SessionId)

  /** Session ids are unique, requests of a bound socket never reach authentication, and ticks fit 64 bits. */
  predicate Enabled(r: Registry, e: Event) {
    match e
    case Clock(now) => r.now <= now < U64
    case Create(id, _) => id !in r.sessions
    case Authenticate(h, id) => h in r.sockets && r.sockets[h] == None && id in r.sessions
    case Use(id) => id in r.sessions
    case _ => true
  }

  ghost function Step(r: Registry, e: Event): Registry
    requires Enabled(r, e)
  {
    match e
    case Clock(now) => r.(now := now)
    case Create(id, minutes) => WithSession(r, id, NewSession(minutes, r.now))
    case Connect(h) => AddSocket(r, h)
    case Authenticate(h, id) => Authenticated(r, h, id)
    case Disconnect(h) => Disconnected(r, h)
    case Remove(id) => SessionRemoved(r, id)
    case Use(id) => Activity(r, id)
  }

  ghost function Run(r: Registry, events: seq<Event>): Registry
    decreases |events|
  {
    if events == [] then r
    else Run(if Enabled(r, events[0]) then Step(r, events[0]) else r, events[1..])
  }

  ghost predicate Inv(r: Registry) {
    && r.now < U64
    && (forall h, id :: IsBound(r, h, id) ==> id in r.sessions && r.sessions[id].hasSocket)
    && (forall h, k, id :: IsBound(r, h, id) && IsBound(r, k, id) ==> h == k)
    && (forall id :: id in r.sessions && r.sessions[id].hasSocket ==> exists h :: IsBound(r, h, id))
    && (forall id :: id in r.sessions ==> SoundSession(r.sessions[id], r.now))
  }

  ghost predicate SoundSession(s: SessionState, now: nat) {
    && s.lastDisconnect <= s.lastActivity <= now < U64
    && s.maxInactivity == MS_PER_MINUTE * s.minutes % U64
  }

  lemma ResetKeepsInv(r: Registry, h: Handle)
    requires Inv(r) && h in r.sockets
    ensures Inv(ResetSocketSession(r, h))
    ensures forall id :: !IsBound(ResetSocketSession(r, h), h, id)
    ensures r.sockets[h].Some? ==> forall k :: !IsBound(ResetSocketSession(r, h), k, r.sockets[h].value)
    ensures ResetSocketSession(r, h).sockets.Keys == r.sockets.Keys
    ensures forall k :: k in r.sockets && k != h ==> ResetSocketSession(r, h).sockets[k] == r.sockets[k]
    ensures ResetSocketSession(r, h).sessions.Keys == r.sessions.Keys
  {
    if r.sockets[h].Some? {
      var id := r.sockets[h].value;
      var t := ResetSocketSession(r, h);
      assert IsBound(r, h, id);
      forall k, i | IsBound(t, k, i) ensures IsBound(r, k, i) && i != id {
        assert k != h && IsBound(r, k, i);
      }
      forall i | i in t.sessions && t.sessions[i].hasSocket ensures exists k :: IsBound(t, k, i) {
        assert i != id;
        var k :| IsBound(r, k, i);
        assert IsBound(t, k, i);
      }
    }
  }

  lemma DisconnectKeepsInv(r: Registry, h: Handle)
    requires Inv(r)
    ensures Inv(Disconnected(r, h))
  {
    if h in r.sockets {
      ResetKeepsInv(r, h);
      var u, t := ResetSocketSession(r, h), Disconnected(r, h);
      forall i | i in t.sessions && t.sessions[i].hasSocket ensures exists k :: IsBound(t, k, i) {
        var k :| IsBound(u, k, i);
        assert IsBound(t, k, i);
      }
      assert forall k, i :: IsBound(t, k, i) ==> IsBound(u, k, i);
    }
  }

  lemma BindKeepsInv(u: Registry, h: Handle, id: SessionId)
    requires Inv(u) && h in u.sockets && u.sockets[h] == None && id in u.sessions
    requires forall k :: !IsBound(u, k, id)
    ensures Inv(WithSession(u.(sockets := u.sockets[h := Some(id)]), id, SocketConnected(u.sessions[id])))
  {
    var t := WithSession(u.(sockets := u.sockets[h := Some(id)]), id, SocketConnected(u.sessions[id]));
    forall k, i | IsBound(t, k, i) ensures (k == h && i == id) || (k != h && i != id && IsBound(u, k, i)) {
      assert k != h ==> IsBound(u, k, i);
    }
    forall i | i in t.sessions && t.sessions[i].hasSocket ensures exists k :: IsBound(t, k, i) {
      if i == id {
        assert IsBound(t, h, i);
      } else {
        var k :| IsBound(u, k, i);
        assert k != h && IsBound(t, k, i);
      }
    }
  }

  /**
   * Authentication keeps the binding in order if and only if the socket carries no other session:
   * one that it carried would be overwritten without being told.
   */
  lemma AuthenticateKeepsInv(r: Registry, h: Handle, id: SessionId)
    requires Inv(r) && h in r.sockets && id in r.sessions
    ensures Inv(Authenticated(r, h, id)) <==> r.sockets[h] == None || r.sockets[h] == Some(id)
  {
    var prev := GetSocket(r, id);
    var u := if prev.Some? then ResetSocketSession(r, prev.value) else r;
    if prev.Some? {
      ResetKeepsInv(r, prev.value);
    }
    if r.sockets[h] == None || r.sockets[h] == Some(id) {
      assert r.sockets[h] == Some(id) ==> IsBound(r, h, id) && prev == Some(h);
      BindKeepsInv(u, h, id);
    } else {
      OverwrittenSessionKeepsFlag(r, u, h, id);
    }
  }

  lemma OverwrittenSessionKeepsFlag(r: Registry, u: Registry, h: Handle, id: SessionId)
    requires Inv(r) && Inv(u) && h in r.sockets && id in u.sessions
    requires r.sockets[h].Some? && r.sockets[h] != Some(id) && u.sockets.Keys == r.sockets.Keys
    requires u.sockets[h] == r.sockets[h]
    ensures !Inv(WithSession(u.(sockets := u.sockets[h := Some(id)]), id, SocketConnected(u.sessions[id])))
  {
    var t := WithSession(u.(sockets := u.sockets[h := Some(id)]), id, SocketConnected(u.sessions[id]));
    var other := r.sockets[h].value;
    assert IsBound(u, h, other);
    assert t.sessions[other].hasSocket;
    forall k ensures !IsBound(t, k, other) {
      assert k != h && IsBound(t, k, other) ==> IsBound(u, k, other);
    }
  }

  lemma ConnectKeepsInv(r: Registry, h: Handle)
    requires Inv(r)
    ensures Inv(AddSocket(r, h))
  {
    var t := AddSocket(r, h);
    assert forall k, i :: IsBound(t, k, i) <==> IsBound(r, k, i);
  }

  lemma SessionStepKeepsInv(r: Registry, id: SessionId, s: SessionState)
    requires Inv(r) && SoundSession(s, r.now)
    requires if id in r.sessions then s.hasSocket == r.sessions[id].hasSocket else !s.hasSocket
    ensures Inv(WithSession(r, id, s))
  {
    var t := WithSession(r, id, s);
    assert forall k, i :: IsBound(t, k, i) <==> IsBound(r, k, i);
  }

  lemma ClockKeepsInv(r: Registry, now: nat)
    requires Inv(r) && r.now <= now < U64
    ensures Inv(r.(now := now))
  {
    var t := r.(now := now);
    assert forall k, i :: IsBound(t, k, i) <==> IsBound(r, k, i);
  }

  /** Every step keeps the binding of sockets and sessions one to one. */
  lemma StepKeepsInv(r: Registry, e: Event)
    requires Inv(r) && Enabled(r, e)
    ensures Inv(Step(r, e))
  {
    match e {
      case Clock(now) => ClockKeepsInv(r, now);
      case Create(id, minutes) => SessionStepKeepsInv(r, id, NewSession(minutes, r.now));
      case Connect(h) => ConnectKeepsInv(r, h);
      case Authenticate(h, id) => AuthenticateKeepsInv(r, h, id);
      case Disconnect(h) => DisconnectKeepsInv(r, h);
      case Remove(id) =>
        if GetSocket(r, id).Some? {
          ResetKeepsInv(r, GetSocket(r, id).value);
        }
      case Use(id) =>
        assert SoundSession(r.sessions[id], r.now);
        SessionStepKeepsInv(r, id, r.sessions[id].(lastActivity := r.now));
    }
  }

  lemma {:induction false} RunKeepsInv(r: Registry, events: seq<Event>)
    requires Inv(r)
    ensures Inv(Run(r, events))
    decreases |events|
  {
    hide Inv, Step, Enabled;
    if events != [] {
      if Enabled(r, events[0]) {
        StepKeepsInv(r, events[0]);
        RunKeepsInv(Step(r, events[0]), events[1..]);
      } else {
        RunKeepsInv(r, events[1..]);
      }
    }
  }

  lemma EmptyIsSound()
    ensures Inv(EMPTY)
  {
  }

  /**
   * After any run each session is bound to at most one registered socket, and has one exactly when
   * its flag says so.
   */
  lemma BindingIsOneToOne(events: seq<Event>, id: SessionId)
    ensures var r := Run(EMPTY, events);
      && (forall h, k :: IsBound(r, h, id) && IsBound(r, k, id) ==> h == k)
      && ((exists h :: IsBound(r, h, id)) <==> id in r.sessions && r.sessions[id].hasSocket)
  {
    hide Run;
    EmptyIsSound();
    RunKeepsInv(EMPTY, events);
  }

  // ---------- What each step brings about ----------

  /** Outside `hs` and `ids` nothing has changed. */
  ghost predicate OthersUnchanged(r: Registry, t: Registry, hs: set<Handle>, ids: set<SessionId>) {
    && t.now == r.now
    && (forall h :: h !in hs ==> (h in t.sockets <==> h in r.sockets))
    && (forall h :: h !in hs && h in r.sockets ==> t.sockets[h] == r.sockets[h])
    && (forall id :: id !in ids ==> (id in t.sessions <==> id in r.sessions))
    && (forall id :: id !in ids && id in r.sessions ==> t.sessions[id] == r.sessions[id])
  }

  /** The session has lost its socket just now, and its idle clock starts again. */
  ghost predicate JustUnbound(r: Registry, t: Registry, id: SessionId) {
    && id in r.sessions && id in t.sessions
    && t.sessions[id] == r.sessions[id].(hasSocket := false, lastActivity := r.now, lastDisconnect := r.now)
    && forall h :: !IsBound(t, h, id)
  }

  /**
   * Authentication binds the socket to the session, whether or not it had one before; an older
   * socket of it stays registered without a session, and restarts the clock.
   */
  lemma AuthenticateBinds(r: Registry, h: Handle, id: SessionId)
    requires Inv(r) && Enabled(r, Authenticate(h, id))
    ensures var t := Step(r, Authenticate(h, id));
      && IsBound(t, h, id) && t.sessions[id].hasSocket
      && (forall k :: IsBound(r, k, id) ==> k != h && k in t.sockets && t.sockets[k] == None)
      && OthersUnchanged(r, t, {h} + set k | k in r.sockets && IsBound(r, k, id), {id})
      && t.sessions[id].minutes == r.sessions[id].minutes
      && t.sessions[id].lastActivity == if r.sessions[id].hasSocket then r.now else r.sessions[id].lastActivity
  {
    var prev := GetSocket(r, id);
    if prev.Some? {
      assert IsBound(r, prev.value, id) && prev.value != h;
    }
  }

  /** After a disconnect the handle is gone, and a session that was bound to it is not bound to anything. */
  lemma DisconnectUnbinds(r: Registry, h: Handle)
    requires Inv(r)
    ensures var t := Step(r, Disconnect(h));
      && h !in t.sockets
      && (forall id :: IsBound(r, h, id) ==> JustUnbound(r, t, id))
      && OthersUnchanged(r, t, {h}, set id | id in r.sessions && IsBound(r, h, id))
  {
    if h in r.sockets && r.sockets[h].Some? {
      var id := r.sockets[h].value;
      assert IsBound(r, h, id);
      var t := Step(r, Disconnect(h));
      forall k ensures !IsBound(t, k, id) {
        assert k != h && IsBound(t, k, id) ==> IsBound(r, k, id);
      }
    }
  }

  /** After its removal no socket is bound to the session, and the one that was stays registered. */
  lemma RemoveUnbinds(r: Registry, id: SessionId)
    requires Inv(r)
    ensures var t := Step(r, Remove(id));
      && (forall h :: !IsBound(t, h, id))
      && (forall h :: IsBound(r, h, id) ==> h in t.sockets && t.sockets[h] == None && JustUnbound(r, t, id))
      && OthersUnchanged(r, t, set h | h in r.sockets && IsBound(r, h, id),
                         if exists h :: IsBound(r, h, id) then {id} else {})
  {
    var bound := GetSocket(r, id);
    if bound.Some? {
      assert IsBound(r, bound.value, id);
      ResetKeepsInv(r, bound.value);
    }
  }

  /** The steps that touch one socket or one session only. */
  lemma OtherStepsDo(r: Registry, e: Event)
    requires Inv(r) && Enabled(r, e)
    ensures match e
      case Connect(h) =>
        var t := Step(r, e);
        && h in t.sockets && (h !in r.sockets ==> t.sockets[h] == None)
        && OthersUnchanged(r, t, if h in r.sockets then {} else {h}, {})
      case Use(id) =>
        var t := Step(r, e);
        && id in t.sessions && t.sessions[id] == r.sessions[id].(lastActivity := r.now)
        && OthersUnchanged(r, t, {}, {id})
      case Create(id, minutes) =>
        var t := Step(r, e);
        && id in t.sessions && !t.sessions[id].hasSocket
        && t.sessions[id].minutes == minutes && t.sessions[id].lastActivity == r.now
        && OthersUnchanged(r, t, {}, {id})
      case Clock(now) =>
        var t := Step(r, e);
        t.now == now && t.sockets == r.sockets && t.sessions == r.sessions
      case _ => true
  {
  }

  /** The events that may end the binding of a socket to a session. */
  predicate MayUnbind(e: Event, h: Handle, id: SessionId) {
    match e
    case Disconnect(k) => k == h
    case Remove(i) => i == id
    case Authenticate(_, i) => i == id
    case _ => false
  }

  lemma StepKeepsBinding(r: Registry, e: Event, h: Handle, id: SessionId)
    requires Inv(r) && Enabled(r, e) && IsBound(r, h, id) && !MayUnbind(e, h, id)
    ensures IsBound(Step(r, e), h, id)
  {
    match e {
      case Authenticate(k, i) => AuthenticateBinds(r, k, i);
      case Disconnect(k) => DisconnectUnbinds(r, k);
      case Remove(i) => RemoveUnbinds(r, i);
      case _ => OtherStepsDo(r, e);
    }
  }

  lemma {:induction false} BindingLasts(r: Registry, events: seq<Event>, h: Handle, id: SessionId)
    requires Inv(r) && IsBound(r, h, id) && forall i :: 0 <= i < |events| ==> !MayUnbind(events[i], h, id)
    ensures IsBound(Run(r, events), h, id)
    decreases |events|
  {
    hide Inv, Step, Enabled, IsBound, MayUnbind;
    if events != [] {
      var e, rest := events[0], events[1..];
      assert forall i :: 0 <= i < |rest| ==> rest[i] == events[i + 1];
      if Enabled(r, e) {
        StepKeepsInv(r, e);
        StepKeepsBinding(r, e, h, id);
        BindingLasts(Step(r, e), rest, h, id);
      } else {
        BindingLasts(r, rest, h, id);
      }
    }
  }

  lemma {:induction false} RunSplits(r: Registry, a: seq<Event>, b: seq<Event>)
    ensures Run(r, a + b) == Run(Run(r, a), b)
    decreases |a|
  {
    hide Step, Enabled;
    if a == [] {
      assert a + b == b;
    } else {
      assert (a + b)[0] == a[0] && (a + b)[1..] == a[1..] + b;
      RunSplits(if Enabled(r, a[0]) then Step(r, a[0]) else r, a[1..], b);
    }
  }

  /**
   * After any run, a socket that authenticates is bound, and stays bound to the session through
   * whatever follows but its own disconnect, the removal of the session, or another authentication
   * of it; as long as that lasts the session is never timed out.
   */
  lemma AuthenticatedStaysBound(before: seq<Event>, h: Handle, id: SessionId, after: seq<Event>, tick: nat)
    requires Enabled(Run(EMPTY, before), Authenticate(h, id))
    requires forall i :: 0 <= i < |after| ==> !MayUnbind(after[i], h, id)
    ensures var r := Run(EMPTY, before + [Authenticate(h, id)] + after);
      && IsBound(r, h, id)
      && id in r.sessions && r.sessions[id].hasSocket && !IsTimeout(r.sessions[id], tick)
  {
    var e := Authenticate(h, id);
    var r := Run(EMPTY, before);
    EmptyIsSound();
    RunKeepsInv(EMPTY, before);
    AuthenticateBinds(r, h, id);
    StepKeepsInv(r, e);
    assert [e][1..] == [];
    assert Run(r, [e]) == Run(Step(r, e), []) == Step(r, e);
    hide Run, Step, Enabled, MayUnbind;
    BindingLasts(Step(r, e), after, h, id);
    RunKeepsInv(Step(r, e), after);
    RunSplits(EMPTY, before, [e]);
    RunSplits(EMPTY, before + [e], after);
  }

  /** Idle for longer than the minutes asked for, on an unbounded clock. */
  predicate IdleTooLong(s: SessionState, tick: nat) {
    s.minutes > 0 && tick > s.lastActivity + MS_PER_MINUTE * s.minutes
  }

  /**
   * When 64 bits do no harm: the deadline fits, or the stored limit has become 0, which never times
   * out, or the deadline has wrapped to the last tick, which no tick exceeds.
   */
  predicate LimitIsHonoured(s: SessionState) {
    || s.minutes == 0
    || s.lastActivity + MS_PER_MINUTE * s.minutes < U64
    || MS_PER_MINUTE * s.minutes % U64 == 0
    || (s.lastActivity + MS_PER_MINUTE * s.minutes) % U64 == U64 - 1
  }

  /**
   * After any run a session with a registered socket is never timed out. One without is timed out
   * exactly when it has been idle for longer than the minutes asked for, provided its limit is
   * honoured; and then it has been unbound for longer than that too.
   */
  lemma TimeoutIsSafe(events: seq<Event>, id: SessionId, tick: nat)
    requires id in Run(EMPTY, events).sessions && tick < U64
    ensures var r := Run(EMPTY, events);
      var s := r.sessions[id];
      && ((exists h :: IsBound(r, h, id)) ==> !IsTimeout(s, tick))
      && (LimitIsHonoured(s) ==>
        && (IsTimeout(s, tick) <==> (forall h :: !IsBound(r, h, id)) && IdleTooLong(s, tick))
        && (IsTimeout(s, tick) ==> tick > s.lastDisconnect + MS_PER_MINUTE * s.minutes))
  {
    hide Run;
    EmptyIsSound();
    RunKeepsInv(EMPTY, events);
    var r := Run(EMPTY, events);
    assert SoundSession(r.sessions[id], r.now);
    if LimitIsHonoured(r.sessions[id]) && !r.sessions[id].hasSocket {
      HonouredMeansIdleRule(r.sessions[id], tick);
    }
  }

  lemma HonouredMeansIdleRule(s: SessionState, tick: nat)
    requires SoundSession(s, s.lastActivity) && !s.hasSocket && LimitIsHonoured(s)
    requires tick < U64
    ensures IsTimeout(s, tick) <==> IdleTooLong(s, tick)
  {
    SumOfRemainders(s.lastActivity, MS_PER_MINUTE * s.minutes);
  }

  lemma SumOfRemainders(a: nat, b: nat)
    ensures (a + b % U64) % U64 == (a + b) % U64
    ensures a + b < U64 ==> b % U64 == b && (a + b) % U64 == a + b
  {
    assert b == U64 * (b / U64) + b % U64;
    var c := a + b % U64;
    assert a + b == U64 * (b / U64 + c / U64) + c % U64;
    RemainderIs(a + b, b / U64 + c / U64, c % U64);
  }

  lemma RemainderIs(n: nat, q: nat, r: nat)
    requires n == U64 * q + r && r < U64
    ensures n % U64 == r
  {
  }

  /**
   * A session without a socket is timed out, from its last activity on, as the minutes it asked for
   * say, if and only if its limit is honoured. The minutes and the clock tell that beforehand.
   */
  lemma WrappedLimitExpiresAtOnce(s: SessionState)
    requires SoundSession(s, s.lastActivity) && !s.hasSocket
    ensures LimitIsHonoured(s) <==>
      forall tick :: s.lastActivity <= tick < U64 ==> (IsTimeout(s, tick) <==> IdleTooLong(s, tick))
    ensures !LimitIsHonoured(s) ==> IsTimeout(s, U64 - 1) && !IdleTooLong(s, U64 - 1)
  {
    if LimitIsHonoured(s) {
      forall tick | s.lastActivity <= tick < U64 ensures IsTimeout(s, tick) <==> IdleTooLong(s, tick) {
        HonouredMeansIdleRule(s, tick);
      }
    } else {
      SumOfRemainders(s.lastActivity, MS_PER_MINUTE * s.minutes);
      assert IsTimeout(s, U64 - 1) && !IdleTooLong(s, U64 - 1);
    }
  }

  const HUGE_MINUTES: nat := 307445734561826

  /**
   * A session that can be created: it asks for some 585 million years and is gone 8.4 seconds after
   * it was made.
   */
  lemma HugeLimitExpiresInSeconds(id: SessionId)
    ensures var r := Run(EMPTY, [Create(id, HUGE_MINUTES), Clock(8385)]);
      && id in r.sessions && HUGE_MINUTES < U64
      && IsTimeout(r.sessions[id], r.now) && !IdleTooLong(r.sessions[id], r.now)
      && !LimitIsHonoured(r.sessions[id])
  {
    var r := Step(EMPTY, Create(id, HUGE_MINUTES));
    assert [Create(id, HUGE_MINUTES), Clock(8385)][1..] == [Clock(8385)] && [Clock(8385)][1..] == [];
    assert Run(r, [Clock(8385)]) == Run(Step(r, Clock(8385)), []);
    assert MS_PER_MINUTE * HUGE_MINUTES == U64 + 8384;
  }

  /** The later disconnect of a socket that was replaced does not disturb the session. */
  lemma ReplacedSocketIsHarmless(r: Registry, first: Handle, h: Handle, id: SessionId)
    requires Inv(r) && IsBound(r, first, id) && Enabled(r, Authenticate(h, id))
    ensures var t := Authenticated(r, h, id);
      && IsBound(t, h, id) && !IsBound(t, first, id)
      && Disconnected(t, first).sessions == t.sessions
      && IsBound(Disconnected(t, first), h, id)
  {
    assert GetSocket(r, id) == Some(first);
  }
}
