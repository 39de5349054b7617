/** The session registry as a value: one state record, one step function for
    every operation of the manager and every environment step on a session,
    and runs of such steps.

    A run is a sequence `log` of operations; `At(log, k)` is the state after its
    first `k` operations, so "later in the same run" is a larger index. */
module Registry {

  /** Ids are C++ `unsigned int`s of 32 bits: arithmetic is modulo 2^32. */
  const ID_SPACE: nat := 0x1_0000_0000

  type Id = x: int | 0 <= x < 0x1_0000_0000

  /** Conversion to a 32-bit unsigned integer. */
  function Wrap(n: int): Id {
    n % 0x1_0000_0000
  }

  /** The value `++curr_id_` leaves after n earlier increments. */
  function IdOf(n: nat): Id {
    Wrap(n + 1)
  }

  /** The identity of a session object: the n-th one built by `new_session`,
      or the n-th one built by `new_local_session`. */
  datatype Handle = Shared(n: nat) | Local(n: nat)

  /** `up` is the connected flag that the constructor gives the session, when
      the call constructs one. */
  datatype Op =
    | New(up: bool)
    | Get(id: Id)
    | Remove(id: Id)
    | NewLocal(sid: Id, up: bool)
    | GetLocal(sid: Id)
    | Connected(h: Handle)  // a peer connected: HSSession::connected
    | Cleared(h: Handle)    // the connection ended: HSSession::clear

  datatype Result = Session(h: Handle) | Null | Flag(b: bool) | Done

  datatype State = State(
    curr: Id,                    // curr_id_
    sessions: map<Id, Handle>,   // sessions_
    sharedIds: seq<Id>,          // the id given to each session new_session built
    locals: map<Id, Handle>,     // local_sessions_
    localIds: seq<Id>,           // the id given to each session new_local_session built
    up: set<Handle>)             // the sessions whose connected_ flag is set

  const INITIAL := State(0, map[], [], map[], [], {})

  /** `std::map::insert`: an entry already present is kept. */
  function Insert<K, V>(m: map<K, V>, k: K, v: V): (r: map<K, V>)
    ensures forall x | x in m :: x in r && r[x] == m[x]
    ensures k in r && (k !in m ==> r[k] == v)
    ensures forall x | x in r :: x in m || x == k
  {
    if k in m then m else m[k := v]
  }

  predicate Built(s: State, h: Handle) {
    match h
    case Shared(n) => n < |s.sharedIds|
    case Local(n) => n < |s.localIds|
  }

  function Lookup(m: map<Id, Handle>, id: Id): Result {
    if id in m then Session(m[id]) else Null
  }

  function Step(s: State, op: Op): (State, Result) {
    match op
    case New(up) =>
      var id := Wrap(s.curr + 1);
      var h := Shared(|s.sharedIds|);
      (s.(curr := id,
          sharedIds := s.sharedIds + [id],
          sessions := Insert(s.sessions, id, h),
          up := if up then s.up + {h} else s.up - {h}),
       Session(h))
    case Get(id) => (s, Lookup(s.sessions, id))
    case Remove(id) =>
      if id in s.sessions then (s.(sessions := s.sessions - {id}), Flag(true))
      else (s, Flag(false))
    case NewLocal(sid, up) =>
      if sid in s.locals then
        (s, if s.locals[sid] in s.up then Null else Session(s.locals[sid]))
      else
        var h := Local(|s.localIds|);
        (s.(localIds := s.localIds + [sid],
            locals := Insert(s.locals, sid, h),
            up := if up then s.up + {h} else s.up - {h}),
         Session(h))
    case GetLocal(sid) => (s, Lookup(s.locals, sid))
    case Connected(h) => (if Built(s, h) then s.(up := s.up + {h}) else s, Done)
    case Cleared(h) => (s.(up := s.up - {h}), Done)
  }

  /** The state after the first k operations of a run. */
  function At(log: seq<Op>, k: nat): State
    requires k <= |log|
  {
    if k == 0 then INITIAL else Step(At(log, k - 1), log[k - 1]).0
  }

  /** What the operation at position i of a run returns. */
  function ResultAt(log: seq<Op>, i: nat): Result
    requires i < |log|
  {
    Step(At(log, i), log[i]).1
  }

  lemma {:induction false} AtPrefix(log: seq<Op>, more: seq<Op>, k: nat)
    requires k <= |log|
    ensures At(log + more, k) == At(log, k)
  {
    if k == 0 {
    } else {
      AtPrefix(log, more, k - 1);
      assert (log + more)[k - 1] == log[k - 1];
    }
  }

  /** The number of `new_session` calls among the first k operations. */
  function News(log: seq<Op>, k: nat): nat
    requires k <= |log|
  {
    if k == 0 then 0 else News(log, k - 1) + if log[k - 1].New? then 1 else 0
  }

  lemma {:induction false} NewsMonotone(log: seq<Op>, i: nat, k: nat)
    requires i <= k <= |log|
    ensures News(log, i) <= News(log, k) <= News(log, i) + (k - i)
    ensures i < k && log[i].New? ==> News(log, i) < News(log, k)
    decreases k
  {
    if i == k {
    } else {
      NewsMonotone(log, i, k - 1);
      if i == k - 1 { assert News(log, k) == News(log, i) + if log[i].New? then 1 else 0; }
    }
  }

  /** The n-th creation of a run happens at some position. */
  lemma {:induction false} CreationAt(log: seq<Op>, k: nat, n: nat) returns (i: nat)
    requires k <= |log| && n < News(log, k)
    ensures i < k && log[i].New? && News(log, i) == n
  {
    if log[k - 1].New? && News(log, k - 1) == n {
      i := k - 1;
    } else {
      i := CreationAt(log, k - 1, n);
    }
  }

  /** The id issued by the creation at position i, as a function of the log alone. */
  function Issued(log: seq<Op>, i: nat): Id
    requires i < |log|
  {
    IdOf(News(log, i))
  }

  /** Position i is a creation that issues `id`. */
  predicate Issues(log: seq<Op>, i: nat, id: Id)
    requires i < |log|
  {
    log[i].New? && Issued(log, i) == id
  }

  /** No `remove_session(id)` at positions from..to (exclusive). */
  ghost predicate NoRemoval(log: seq<Op>, from: nat, to: nat, id: Id)
    requires to <= |log|
  {
    forall r | from <= r < to :: log[r] != Remove(id)
  }

  // ----- what every reachable state keeps -----

  /** Each table stores a session under the id it was constructed with. */
  ghost predicate KeysAgree(s: State) {
    && (forall id | id in s.sessions ::
          && s.sessions[id].Shared?
          && s.sessions[id].n < |s.sharedIds|
          && s.sharedIds[s.sessions[id].n] == id)
    && (forall sid | sid in s.locals ::
          && s.locals[sid].Local?
          && s.locals[sid].n < |s.localIds|
          && s.localIds[s.locals[sid].n] == sid)
  }

  /** The counter and the ids issued so far depend on the number of creations only. */
  ghost predicate IdsInOrder(s: State) {
    && s.curr == Wrap(|s.sharedIds|)
    && forall n | 0 <= n < |s.sharedIds| :: s.sharedIds[n] == IdOf(n)
  }

  /** Local sessions are built for new sids only and never leave the table. */
  ghost predicate LocalsKept(s: State) {
    forall n | 0 <= n < |s.localIds| ::
      s.localIds[n] in s.locals && s.locals[s.localIds[n]] == Local(n)
  }

  ghost predicate Inv(s: State) {
    && KeysAgree(s)
    && IdsInOrder(s)
    && LocalsKept(s)
    && (forall h | h in s.up :: Built(s, h))
  }

  lemma NewIssues(s: State)
    requires IdsInOrder(s)
    ensures Wrap(s.curr + 1) == IdOf(|s.sharedIds|)
  {
  }

  lemma NewKeepsInv(s: State, up: bool)
    requires Inv(s)
    ensures Inv(Step(s, New(up)).0)
  {
    NewIssues(s);
    assert IdsInOrder(Step(s, New(up)).0);
  }

  lemma NewLocalKeepsInv(s: State, sid: Id, up: bool)
    requires Inv(s)
    ensures Inv(Step(s, NewLocal(sid, up)).0)
  {
    assert LocalsKept(Step(s, NewLocal(sid, up)).0);
  }

  lemma StepKeepsInv(s: State, op: Op)
    requires Inv(s)
    ensures Inv(Step(s, op).0)
  {
    match op {
      case New(up) => NewKeepsInv(s, up);
      case NewLocal(sid, up) => NewLocalKeepsInv(s, sid, up);
      case _ =>
    }
  }

  lemma {:induction false} Reachable(log: seq<Op>, k: nat)
    requires k <= |log|
    ensures Inv(At(log, k))
    ensures |At(log, k).sharedIds| == News(log, k)
  {
    if k == 0 {
    } else {
      Reachable(log, k - 1);
      StepKeepsInv(At(log, k - 1), log[k - 1]);
    }
  }

  /** No session object appears under two keys of one table, or in both tables. */
  lemma NoAliasing(log: seq<Op>, k: nat)
    requires k <= |log|
    ensures var s := At(log, k);
      && (forall a, b | a in s.sessions && b in s.sessions && s.sessions[a] == s.sessions[b] :: a == b)
      && (forall a, b | a in s.locals && b in s.locals && s.locals[a] == s.locals[b] :: a == b)
      && (forall a, b | a in s.sessions && b in s.locals :: s.sessions[a] != s.locals[b])
  {
    Reachable(log, k);
  }

  /** One more operation at the end of a run. */
  lemma AtSnoc(log: seq<Op>, op: Op)
    ensures At(log + [op], |log + [op]|) == Step(At(log, |log|), op).0
    ensures Inv(At(log, |log|)) && Inv(At(log + [op], |log + [op]|))
  {
    var next := log + [op];
    AtPrefix(log, [op], |log|);
    assert next[|log|] == op;
    assert At(next, |log| + 1) == Step(At(next, |log|), next[|log|]).0;
    Reachable(log, |log|);
    Reachable(next, |next|);
  }
}
