/** HSSessionMgr, with its two tables and its counter as mutable fields, proved
    against the runs of module Registry. */
module SessionManager {
  import opened Registry
  import opened Packet
  import opened Sessions
  import opened Flow
  import SharedHistory
  import LocalHistory

  /** A table of objects holds what a table of handles says, `built` being the
      objects in the order they were built. */
  ghost predicate Agrees(table: map<Id, Session>, built: seq<Session>, m: map<Id, Handle>) {
    && (forall id :: id in table <==> id in m)
    && (forall id | id in table :: m[id].n < |built| && table[id] == built[m[id].n])
  }

  lemma AgreesInsert(table: map<Id, Session>, built: seq<Session>, m: map<Id, Handle>,
                     id: Id, s: Session, h: Handle)
    requires Agrees(table, built, m) && h.n == |built|
    ensures Agrees(Insert(table, id, s), built + [s], Insert(m, id, h))
  {
  }

  lemma AgreesRemove(table: map<Id, Session>, built: seq<Session>, m: map<Id, Handle>, id: Id)
    requires Agrees(table, built, m)
    ensures Agrees(table - {id}, built, m - {id})
    ensures id !in table ==> table - {id} == table
  {
  }

  /** Two sessions have nothing in common that one could change under the other. */
  ghost predicate Apart(s: Session, t: Session) {
    && s != t && s.recv != t.recv && s.send != t.send
    && s.recv.buffer != t.recv.buffer && s.recv.buffer != t.send.buffer
    && s.send.buffer != t.recv.buffer && s.send.buffer != t.send.buffer
  }

  class SessionMgr {
    var sessions: map<Id, Session>        // sessions_
    var localSessions: map<Id, Session>   // local_sessions_
    var currId: Id                        // curr_id_
    ghost var log: seq<Op>                // every call that can change the tables, every connect and clear
    ghost var shared: seq<Session>        // the sessions built by NewSession, in order
    ghost var local: seq<Session>         // the sessions built by NewLocalSession, in order

    /** The state that the log leads to. */
    ghost function Current(): State
      reads this
    {
      At(log, |log|)
    }

    ghost predicate Has(h: Handle)
      reads this
    {
      match h
      case Shared(n) => n < |shared|
      case Local(n) => n < |local|
    }

    /** The session object that h names. */
    ghost function Object(h: Handle): Session
      reads this
      requires Has(h)
    {
      match h
      case Shared(n) => shared[n]
      case Local(n) => local[n]
    }

    ghost predicate Names(h: Handle, s: Session)
      reads this
    {
      Has(h) && s == Object(h)
    }

    /** The sessions built are distinct objects, each with two buffers of its own. */
    ghost predicate Distinct()
      reads this`shared, this`local
    {
      && (forall i, j | 0 <= i < j < |shared| :: Apart(shared[i], shared[j]))
      && (forall i, j | 0 <= i < j < |local| :: Apart(local[i], local[j]))
      && (forall i, j | 0 <= i < |shared| && 0 <= j < |local| :: Apart(shared[i], local[j]))
      && (forall i | 0 <= i < |shared| :: shared[i].recv.buffer != shared[i].send.buffer)
      && (forall i | 0 <= i < |local| :: local[i].recv.buffer != local[i].send.buffer)
    }

    /** s has just been built: nothing else refers to its parts. */
    twostate predicate Unshared(new s: Session)
    {
      fresh(s) && fresh(s.recv) && fresh(s.recv.buffer) && fresh(s.send) && fresh(s.send.buffer)
    }

    /** Each session carries the id and the flag that the run gives it. */
    ghost predicate ObjectsMatch(sharedIds: seq<Id>, localIds: seq<Id>, up: set<Handle>)
      reads this`shared, this`local, shared, local
    {
      && |shared| == |sharedIds|
      && |local| == |localIds|
      && (forall i | 0 <= i < |shared| ::
            shared[i].id == sharedIds[i] && (shared[i].connected <==> Shared(i) in up))
      && (forall i | 0 <= i < |local| ::
            local[i].id == localIds[i] && (local[i].connected <==> Local(i) in up))
    }

    /** The fields are those of the run. */
    ghost predicate Match(s: State)
      reads this, shared, local
    {
      && currId == s.curr
      && |shared| == |s.sharedIds| && |local| == |s.localIds|
      && ObjectsMatch(s.sharedIds, s.localIds, s.up)
      && Agrees(sessions, shared, s.sessions)
      && Agrees(localSessions, local, s.locals)
    }

    ghost predicate Valid()
      reads this, shared, local
    {
      Distinct() && Match(Current())
    }

    constructor ()
      ensures Valid() && log == [] && shared == [] && local == []
      ensures sessions == map[] && localSessions == map[] && currId == 0
    {
      sessions, localSessions, currId := map[], map[], 0;
      log, shared, local := [], [], [];
    }

    /** Any two sessions of the manager, shared or local, are apart. */
    lemma SessionsApart(s: Session, t: Session)
      requires Distinct() && s != t
      requires (s in shared || s in local) && (t in shared || t in local)
      ensures Apart(s, t)
    {
    }

    /** What `local_sessions_` holds for sid is the session the run names. */
    lemma LocalEntry(sid: Id)
      requires Valid()
      ensures sid in localSessions <==> sid in Current().locals
      ensures sid in localSessions ==>
        && localSessions[sid] in local && localSessions[sid].id == sid
        && (localSessions[sid].connected <==> Current().locals[sid] in Current().up)
    {
      hide At;
      Reachable(log, |log|);
    }

    /** Bookkeeping: s is the next session that NewSession built. */
    ghost method RecordShared(s: Session, sharedIds: seq<Id>, localIds: seq<Id>, up: set<Handle>)
      requires Distinct() && ObjectsMatch(sharedIds, localIds, up)
      requires 0 <= s.id < ID_SPACE && s.recv.buffer != s.send.buffer
      requires forall t | t in shared || t in local :: Apart(t, s)
      requires !s.connected && Shared(|sharedIds|) !in up
      modifies this`shared
      ensures Distinct() && shared == old(shared) + [s]
      ensures ObjectsMatch(sharedIds + [s.id], localIds, up)
    {
      forall j | 0 <= j < |local|
        ensures Apart(s, local[j])
      {
        assert Apart(local[j], s);
      }
      shared := shared + [s];
    }

    /** Bookkeeping: s is the next session that NewLocalSession built. */
    ghost method RecordLocal(s: Session, sharedIds: seq<Id>, localIds: seq<Id>, up: set<Handle>)
      requires Distinct() && ObjectsMatch(sharedIds, localIds, up)
      requires 0 <= s.id < ID_SPACE && s.recv.buffer != s.send.buffer
      requires forall t | t in shared || t in local :: Apart(t, s)
      requires !s.connected && Local(|localIds|) !in up
      modifies this`local
      ensures Distinct() && local == old(local) + [s]
      ensures ObjectsMatch(sharedIds, localIds + [s.id], up)
    {
      local := local + [s];
    }

    /** Puts a session just built into the shared table, unless its id is taken. */
    method Register(s: Session)
      requires Distinct() && Match(Current().(curr := currId)) && currId == Wrap(Current().curr + 1)
      requires s.id == currId && !s.connected && s.recv.buffer != s.send.buffer
      requires forall t | t in shared || t in local :: Apart(t, s)
      modifies this`sessions, this`log, this`shared
      ensures Valid() && log == old(log) + [New(false)] && shared == old(shared) + [s]
      ensures sessions == if currId in old(sessions) then old(sessions) else old(sessions)[currId := s]
    {
      hide At, Wrap, Distinct, ObjectsMatch, Agrees, Apart;
      AfterNew(log);
      ghost var was := Current();
      AgreesInsert(sessions, shared, was.sessions, currId, s, Shared(|was.sharedIds|));
      sessions := Insert(sessions, currId, s);
      log := log + [New(false)];
      RecordShared(s, was.sharedIds, was.localIds, was.up);
    }

    method NewSession(recvSize: nat, sendSize: nat) returns (s: Session)
      requires Valid()
      modifies this
      ensures Valid() && s.Valid() && Unshared(s)
      ensures s.Receiving() == Fresh(recvSize).(reading := false)
      ensures s.Sending() == Sender(sendSize, 0, [], false, 0)
      ensures log == old(log) + [New(false)] && shared == old(shared) + [s] && local == old(local)
      ensures currId == Wrap(old(currId) + 1) && s.id == currId && !s.connected
      ensures sessions == if currId in old(sessions) then old(sessions) else old(sessions)[currId := s]
      ensures localSessions == old(localSessions)
    {
      hide At, Wrap, Distinct, ObjectsMatch, Agrees, Session.Valid, Session.Receiving, Session.Sending;
      currId := Wrap(currId + 1);
      s := new Session(currId, recvSize, sendSize);
      assert forall t | t in shared || t in local :: Apart(t, s);
      Register(s);
    }

    /** The session of the earliest creation that issued `id` after its latest
        removal, and null when there is none. */
    method GetSession(id: Id) returns (s: Session?)
      requires Valid()
      ensures s == null <==> id !in sessions
      ensures s != null ==> s == sessions[id] && s.id == id && s in shared
      ensures s == null <==> !exists i: nat :: SharedHistory.Owns(log, |log|, id, i)
      ensures forall i: nat | SharedHistory.Owns(log, |log|, id, i) ::
        News(log, i) < |shared| && s == shared[News(log, i)]
    {
      hide At, SharedHistory.Owns;
      SharedHistory.HistoryRefinement(log, |log|, id);
      Reachable(log, |log|);
      if id !in sessions {
        return null;
      }
      return sessions[id];
    }

    method RemoveSession(id: Id) returns (ok: bool)
      requires Valid()
      modifies this`sessions, this`log
      ensures Valid() && log == old(log) + [Remove(id)]
      ensures ok <==> id in old(sessions)
      ensures sessions == old(sessions) - {id}
    {
      hide At, Distinct, ObjectsMatch, Agrees;
      AfterRemove(log, id);
      AgreesRemove(sessions, shared, Current().sessions, id);
      log := log + [Remove(id)];
      if id !in sessions {
        return false;
      }
      sessions := sessions - {id};
      return true;
    }

    /** Refused, changing nothing, exactly when sid's session exists and is
        connected; otherwise that session, which is built when there is none. */
    method NewLocalSession(sid: Id, recvSize: nat, sendSize: nat) returns (s: Session?)
      requires Valid()
      modifies this`localSessions, this`log, this`local
      ensures Valid() && log == old(log) + [NewLocal(sid, false)]
      ensures s == null <==> sid in old(localSessions) && old(localSessions)[sid].connected
      ensures s != null ==> s.id == sid && !s.connected && s in local
      ensures sid in old(localSessions) ==>
        localSessions == old(localSessions) && local == old(local)
        && (s != null ==> s == localSessions[sid])
      ensures sid !in old(localSessions) ==>
        && s.Valid() && Unshared(s) && s.Receiving() == Fresh(recvSize).(reading := false)
        && s.Sending() == Sender(sendSize, 0, [], false, 0)
        && localSessions == old(localSessions)[sid := s] && local == old(local) + [s]
    {
      hide At, Distinct, ObjectsMatch, Agrees, Session.Valid, Session.Receiving, Session.Sending;
      AfterNewLocal(log, sid);
      LocalEntry(sid);
      ghost var was := Current();
      log := log + [NewLocal(sid, false)];
      if sid in localSessions {
        if !localSessions[sid].connected {
          return localSessions[sid];
        } else {
          return null;
        }
      }
      var made := new Session(sid, recvSize, sendSize);
      AgreesInsert(localSessions, local, was.locals, sid, made, Local(|was.localIds|));
      localSessions := Insert(localSessions, sid, made);
      RecordLocal(made, was.sharedIds, was.localIds, was.up);
      return made;
    }

    /** Null exactly when sid was never requested. */
    method GetLocalSession(id: Id) returns (s: Session?)
      requires Valid()
      ensures s == null <==> id !in localSessions
      ensures s != null ==> s == localSessions[id] && s.id == id && s in local
      ensures s == null <==> !LocalHistory.Requested(log, |log|, id)
    {
      hide At;
      LocalHistory.LocalDomain(log, |log|, id);
      Reachable(log, |log|);
      if id !in localSessions {
        return null;
      }
      return localSessions[id];
    }

    /** Environment step: a peer connects on a session this manager built. */
    method PeerConnects(ghost h: Handle, s: Session)
      requires Valid() && Names(h, s)
      modifies this`log, s`connected, s`events
      ensures Valid() && log == old(log) + [Connected(h)] && s.connected
      ensures s.hasHandler == old(s.hasHandler)
      ensures s.events == old(s.events) + if s.hasHandler then [OnConnect] else []
      ensures old(s.Valid()) ==> s.Valid()
    {
      hide At, Agrees;
      AfterConnected(log, h);
      ghost var was := Current();
      s.Connected();
      log := log + [Connected(h)];
      assert ObjectsMatch(was.sharedIds, was.localIds, was.up + {h});
    }

    /** Environment step: a session this manager built is cleared. */
    method PeerLeaves(ghost h: Handle, s: Session)
      requires Valid() && Names(h, s)
      modifies this`log, s, s.recv, s.send
      ensures Valid() && log == old(log) + [Cleared(h)] && !s.connected && s.Valid()
      ensures s.events == old(s.events) && s.hasHandler == old(s.hasHandler)
      ensures s.Receiving() == Receiver(s.recv.buffer.Length, 0, [], old(s.reading))
      ensures s.Sending() == Sender(s.send.buffer.Length, 0, [], false, 0)
    {
      hide At, Agrees, Session.Valid, Session.Receiving, Session.Sending;
      AfterCleared(log, h);
      ghost var was := Current();
      s.Clear();
      log := log + [Cleared(h)];
      assert ObjectsMatch(was.sharedIds, was.localIds, was.up - {h});
    }

    // ----- a session's own handlers -----

    /** The handles of connected sessions, once s has been looked at. */
    ghost function Noticed(h: Handle, s: Session): set<Handle>
      reads this, s
    {
      if s.connected then Current().up else Current().up - {h}
    }

    /** What holds after handlers of the session have run: its flag may have fallen. */
    twostate lemma FlagMayFall(h: Handle)
      requires old(Valid()) && unchanged(this) && Has(h)
      requires Object(h).connected ==> old(Object(h).connected)
      requires forall t | (t in shared || t in local) && t != Object(h) :: t.connected == old(t.connected)
      ensures Distinct() && Match(Current().(up := Noticed(h, Object(h))))
      ensures old(Object(h).connected) <==> h in Current().up
    {
    }

    /** Bookkeeping: the run learns that the session has been cleared. */
    ghost method Notice(h: Handle, s: Session)
      requires Distinct() && Names(h, s) && Match(Current().(up := Noticed(h, s)))
      modifies this`log
      ensures Valid()
      ensures log == old(log) + if h in old(Current()).up && !s.connected then [Cleared(h)] else []
    {
      hide At, Agrees, ObjectsMatch, Distinct;
      if h in Current().up && !s.connected {
        AfterCleared(log, h);
        log := log + [Cleared(h)];
      } else {
        assert Noticed(h, s) == Current().up;
      }
    }

    /** A read of a session of the manager completes; a corrupt stream disconnects it. */
    method ReadCompletes(ghost h: Handle, s: Session, chunk: seq<Byte>, limit: ReadLimit)
      requires Valid() && Names(h, s) && s.Valid() && s.reading && |chunk| <= s.recv.Room()
      modifies this`log, s, s.recv, s.recv.buffer, s.send, limit
      ensures Valid() && s.Valid()
      ensures s.Receiving() == old(AfterRead(s.Receiving(), limit.value, chunk)).r
      ensures limit.value == old(AfterRead(s.Receiving(), limit.value, chunk)).limit
      ensures s.hasHandler == old(s.hasHandler)
      ensures s.events == old(s.events)
        + if s.hasHandler then Received(old(AfterRead(s.Receiving(), limit.value, chunk)).msgs) else []
      ensures old(AfterRead(s.Receiving(), limit.value, chunk)).ok ==>
        s.connected == old(s.connected) && log == old(log) && s.Sending() == old(s.Sending())
      ensures !old(AfterRead(s.Receiving(), limit.value, chunk)).ok ==>
        && !s.connected && log == old(log) + (if old(s.connected) then [Cleared(h)] else [])
        && s.Sending() == Sender(s.send.buffer.Length, 0, [], false, 0)
    {
      hide At, AfterRead, Match, Distinct, Session.Valid, Session.Sending;
      s.HandleRead(chunk, limit);
      FlagMayFall(h);
      Notice(h, s);
    }

    /** A read of a session of the manager fails. */
    method ReadFails(ghost h: Handle, s: Session, error: int)
      requires Valid() && Names(h, s) && s.Valid() && s.reading
      modifies this`log, s, s.recv, s.send
      ensures Valid() && s.Valid()
      ensures s.hasHandler == old(s.hasHandler)
      ensures error == 10035 ==>
        && s.connected == old(s.connected) && log == old(log) && s.events == old(s.events)
        && s.Receiving() == old(s.Receiving()) && s.Sending() == old(s.Sending())
      ensures error != 10035 ==>
        && !s.connected && log == old(log) + (if old(s.connected) then [Cleared(h)] else [])
        && s.events == old(s.events) + (if s.hasHandler then [OnDisconnect] else [])
        && s.Receiving() == Receiver(s.recv.buffer.Length, 0, [], false)
        && s.Sending() == Sender(s.send.buffer.Length, 0, [], false, 0)
    {
      hide At, Match, Distinct, Session.Valid, Session.Sending;
      s.HandleReadError(error);
      FlagMayFall(h);
      Notice(h, s);
    }

    /** A write of a session of the manager fails. */
    method WriteFails(ghost h: Handle, s: Session, error: int)
      requires Valid() && Names(h, s) && s.Valid() && (error == 10035 ==> s.sending)
      modifies this`log, s, s.recv, s.send
      ensures Valid() && s.Valid()
      ensures s.hasHandler == old(s.hasHandler)
      ensures error == 10035 ==>
        && s.connected == old(s.connected) && log == old(log) && s.events == old(s.events)
        && s.Receiving() == old(s.Receiving()) && s.Sending() == AfterBlocked(old(s.Sending()))
      ensures error != 10035 ==>
        && !s.connected && log == old(log) + (if old(s.connected) then [Cleared(h)] else [])
        && s.events == old(s.events) + (if s.hasHandler then [OnDisconnect] else [])
        && s.Receiving() == Receiver(s.recv.buffer.Length, 0, [], old(s.reading))
        && s.Sending() == Sender(s.send.buffer.Length, 0, [], false, 0)
    {
      hide At, Match, Distinct, Session.Valid, Session.Sending;
      s.WriteError(error);
      FlagMayFall(h);
      Notice(h, s);
    }
  }

  // ----- one more operation at the end of a log -----

  /** No session that is still to be built is connected. */
  lemma UnbuiltDown(s: State)
    requires Inv(s)
    ensures Shared(|s.sharedIds|) !in s.up && Local(|s.localIds|) !in s.up
    ensures s.up - {Shared(|s.sharedIds|)} == s.up == s.up - {Local(|s.localIds|)}
  {
  }

  lemma AfterNew(log: seq<Op>)
    ensures var (s, t) := (At(log, |log|), At(log + [New(false)], |log + [New(false)]|));
      var (id, h) := (Wrap(s.curr + 1), Shared(|s.sharedIds|));
      t == s.(curr := id, sharedIds := s.sharedIds + [id], sessions := Insert(s.sessions, id, h)) && h !in s.up
  {
    hide At, Inv, Wrap, Insert;
    AtSnoc(log, New(false));
    UnbuiltDown(At(log, |log|));
  }

  lemma AfterRemove(log: seq<Op>, id: Id)
    ensures var (s, t) := (At(log, |log|), At(log + [Remove(id)], |log + [Remove(id)]|));
      t == s.(sessions := s.sessions - {id})
  {
    AtSnoc(log, Remove(id));
    var s := At(log, |log|);
    assert id !in s.sessions ==> s.sessions - {id} == s.sessions;
  }

  lemma AfterNewLocal(log: seq<Op>, sid: Id)
    ensures var (s, t) := (At(log, |log|), At(log + [NewLocal(sid, false)], |log + [NewLocal(sid, false)]|));
      var h := Local(|s.localIds|);
      && (sid in s.locals ==> t == s && s.locals[sid].Local?)
      && (sid !in s.locals ==>
            t == s.(localIds := s.localIds + [sid], locals := Insert(s.locals, sid, h)) && h !in s.up)
  {
    hide At, Insert;
    AtSnoc(log, NewLocal(sid, false));
    UnbuiltDown(At(log, |log|));
  }

  lemma AfterConnected(log: seq<Op>, h: Handle)
    ensures var (s, t) := (At(log, |log|), At(log + [Connected(h)], |log + [Connected(h)]|));
      t == if Built(s, h) then s.(up := s.up + {h}) else s
  {
    AtSnoc(log, Connected(h));
  }

  lemma AfterCleared(log: seq<Op>, h: Handle)
    ensures var (s, t) := (At(log, |log|), At(log + [Cleared(h)], |log + [Cleared(h)]|));
      t == s.(up := s.up - {h})
  {
    AtSnoc(log, Cleared(h));
  }
}
