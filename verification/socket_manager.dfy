/** The socket manager over session and socket objects, against the registry of module Sockets. */
module SocketManagement {
  import opened Sockets
  import opened Wrappers

  class Session {
    const id: SessionId
    const maxInactivity: nat
    ghost const minutes: nat
    var hasSocket: bool
    var lastActivity: nat
    ghost var lastDisconnect: nat

    ghost function State(): SessionState
      reads this
    {
      SessionState(hasSocket, lastActivity, maxInactivity, minutes, lastDisconnect)
    }

    constructor (id: SessionId, minutes: nat, now: nat)
      ensures this.id == id && State() == NewSession(minutes, now)
    {
      this.id := id;
      this.minutes := minutes;
      maxInactivity := MS_PER_MINUTE * minutes % U64;
      hasSocket := false;
      lastActivity := now;
      lastDisconnect := now;
    }

    method OnSocketConnected()
      modifies this
      ensures State() == SocketConnected(old(State()))
    {
      hasSocket := true;
    }

    method OnSocketDisconnected(now: nat)
      modifies this
      ensures State() == SocketDisconnected(old(State()), now)
    {
      hasSocket := false;
      UpdateActivity(now);
      lastDisconnect := now;
    }

    method UpdateActivity(now: nat)
      modifies this
      ensures State() == old(State()).(lastActivity := now)
    {
      lastActivity := now;
    }

    /** Decides the registry's timeout predicate for this session. */
    method CheckTimeout(tick: nat) returns (timeout: bool)
      ensures timeout <==> IsTimeout(State(), tick)
    {
      if hasSocket {
        return false;
      }
      return maxInactivity > 0 && (lastActivity + maxInactivity) % U64 < tick;
    }
  }

  class WebSocket {
    var session: Session?

    constructor ()
      ensures session == null
    {
      session := null;
    }
  }

  class SocketManager {
    var sockets: map<Handle, WebSocket>
    ghost var sessions: map<SessionId, Session>

    /** Distinct handles have distinct sockets, and sockets refer to known sessions. */
    ghost predicate Valid()
      reads this, sockets.Values
    {
      && (forall h, k :: h in sockets && k in sockets && sockets[h] == sockets[k] ==> h == k)
      && (forall id :: id in sessions ==> sessions[id].id == id)
      && (forall h :: h in sockets && sockets[h].session != null ==>
            sockets[h].session.id in sessions && sessions[sockets[h].session.id] == sockets[h].session)
    }

    ghost function SessionIdOf(w: WebSocket): Option<SessionId>
      reads w
    {
      if w.session == null then None else Some(w.session.id)
    }

    ghost function SocketsView(): map<Handle, Option<SessionId>>
      reads this, sockets.Values
    {
      map h | h in sockets :: SessionIdOf(sockets[h])
    }

    ghost function SessionsView(): map<SessionId, SessionState>
      reads this, sessions.Values
    {
      map id | id in sessions :: sessions[id].State()
    }

    ghost function View(now: nat): Registry
      reads this, sockets.Values, sessions.Values
    {
      Registry(SocketsView(), SessionsView(), now)
    }

    ghost predicate Knows(s: Session)
      reads this
    {
      s.id in sessions && sessions[s.id] == s
    }

    constructor ()
      ensures Valid() && View(0) == EMPTY
    {
      sockets := map[];
      sessions := map[];
    }

    /** A session just made by the user manager becomes known. */
    ghost method Learn(s: Session, minutes: nat, now: nat)
      requires Valid() && s.State() == NewSession(minutes, now)
      requires Enabled(View(now), Create(s.id, minutes))
      modifies this
      ensures Valid() && sockets == old(sockets)
      ensures View(now) == Step(old(View(now)), Create(s.id, minutes))
    {
      sessions := sessions[s.id := s];
      assert View(now).sessions == old(View(now)).sessions[s.id := s.State()];
    }

    method AddSocketObject(h: Handle, w: WebSocket, now: nat)
      requires Valid() && w.session == null && w !in sockets.Values
      modifies this
      ensures Valid() && sessions == old(sessions)
      ensures View(now) == AddSocket(old(View(now)), h)
    {
      if h !in sockets {
        Register(h, w);
      }
    }

    method Register(h: Handle, w: WebSocket)
      requires Valid() && w.session == null && w !in sockets.Values && h !in sockets
      modifies this
      ensures Valid() && sessions == old(sessions)
      ensures SocketsView() == old(SocketsView())[h := None] && SessionsView() == old(SessionsView())
    {
      sockets := sockets[h := w];
      assert forall k :: k in old(sockets) ==> sockets[k] == old(sockets)[k];
    }

    method Reset(h: Handle, now: nat)
      requires Valid() && h in sockets
      modifies sockets[h], sessions.Values
      ensures Valid()
      ensures View(now) == ResetSocketSession(old(View(now)), h)
    {
      if sockets[h].session != null {
        TellDisconnected(sockets[h].session, now);
        SetSession(h, null);
      }
    }

    /** The session is told; all others, and the bindings, stay as they are. */
    method TellDisconnected(s: Session, now: nat)
      requires Valid() && Knows(s)
      modifies s
      ensures Valid() && SocketsView() == old(SocketsView())
      ensures SessionsView() == old(SessionsView())[s.id := SocketDisconnected(old(s.State()), now)]
    {
      s.OnSocketDisconnected(now);
      assert forall i :: i in sessions ==> sessions[i].id == i;
    }

    method TellConnected(s: Session)
      requires Valid() && Knows(s)
      modifies s
      ensures Valid() && SocketsView() == old(SocketsView())
      ensures SessionsView() == old(SessionsView())[s.id := SocketConnected(old(s.State()))]
    {
      s.OnSocketConnected();
      assert forall i :: i in sessions ==> sessions[i].id == i;
    }

    method SetSession(h: Handle, s: Session?)
      requires Valid() && h in sockets && (s != null ==> Knows(s))
      modifies sockets[h]
      ensures Valid() && SessionsView() == old(SessionsView())
      ensures SocketsView() == old(SocketsView())[h := if s == null then None else Some(s.id)]
    {
      sockets[h].session := s;
    }

    /** Looks through the registered sockets for one of that session. */
    method FindSocket(id: SessionId, now: nat) returns (found: Option<Handle>)
      requires Valid() && Inv(View(now))
      ensures found == GetSocket(View(now), id)
      ensures found.Some? ==> found.value in sockets
    {
      ghost var r := View(now);
      var rest := sockets.Keys;
      while rest != {}
        invariant rest <= sockets.Keys
        invariant forall h :: h in sockets && h !in rest ==> !IsBound(r, h, id)
        decreases |rest|
      {
        var h :| h in rest;
        var w := sockets[h];
        if w.session != null && w.session.id == id {
          assert IsBound(r, h, id);
          return Some(h);
        }
        rest := rest - {h};
      }
      return None;
    }

    method HandleSocketDisconnected(h: Handle, now: nat)
      requires Valid()
      modifies this, sockets.Values, sessions.Values
      ensures Valid()
      ensures View(now) == Disconnected(old(View(now)), h)
    {
      if h !in sockets {
        return;
      }
      hide Valid, SocketsView, SessionsView;
      Reset(h, now);
      Forget(h);
    }

    method Forget(h: Handle)
      requires Valid() && h in sockets
      modifies this
      ensures Valid() && sockets == old(sockets) - {h} && sessions == old(sessions)
      ensures SocketsView() == old(SocketsView()) - {h} && SessionsView() == old(SessionsView())
    {
      sockets := sockets - {h};
    }

    method OnAuthenticated(s: Session, h: Handle, now: nat)
      requires Valid() && Inv(View(now)) && Knows(s)
      requires h in sockets
      modifies sockets.Values, sessions.Values
      ensures Valid()
      ensures View(now) == Authenticated(old(View(now)), h, s.id)
    {
      hide Valid, SocketsView, SessionsView, Inv;
      var existing := FindSocket(s.id, now);
      if existing.Some? {
        Reset(existing.value, now);
      }
      Bind(h, s, now);
    }

    method Bind(h: Handle, s: Session, now: nat)
      requires Valid() && h in sockets && Knows(s)
      modifies sockets[h], s
      ensures Valid()
      ensures var r := old(View(now));
        View(now) == WithSession(r.(sockets := r.sockets[h := Some(s.id)]), s.id, SocketConnected(r.sessions[s.id]))
    {
      TellConnected(s);
      SetSession(h, s);
    }

    method OnSessionRemoved(s: Session, now: nat)
      requires Valid() && Inv(View(now)) && Knows(s)
      modifies sockets.Values, sessions.Values
      ensures Valid()
      ensures View(now) == SessionRemoved(old(View(now)), s.id)
    {
      var bound := FindSocket(s.id, now);
      if bound.Some? {
        Reset(bound.value, now);
      }
    }
  }
}
