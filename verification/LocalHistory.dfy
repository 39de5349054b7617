/** Whole-run theorems about `local_sessions_`, driven by an environment that
    connects and disconnects sessions at will. */
module LocalHistory {
  import opened Registry

  // ----- one session per sid, for ever -----

  /** Position i asks new_local_session for `sid`. */
  predicate Asks(log: seq<Op>, i: nat, sid: Id)
    requires i < |log|
  {
    log[i].NewLocal? && log[i].sid == sid
  }

  ghost predicate Requested(log: seq<Op>, k: nat, sid: Id)
    requires k <= |log|
  {
    exists i | 0 <= i < k :: Asks(log, i, sid)
  }

  lemma LocalStep(s: State, op: Op)
    ensures var t := Step(s, op).0;
      && (forall sid :: sid in t.locals <==> sid in s.locals || (op.NewLocal? && op.sid == sid))
      && (forall sid | sid in s.locals :: t.locals[sid] == s.locals[sid])
  {
  }

  /** The table holds exactly the sids ever requested. */
  lemma {:induction false} LocalDomain(log: seq<Op>, k: nat, sid: Id)
    requires k <= |log|
    ensures sid in At(log, k).locals <==> Requested(log, k, sid)
  {
    if k == 0 {
    } else {
      LocalDomain(log, k - 1, sid);
      LocalStep(At(log, k - 1), log[k - 1]);
      assert Requested(log, k, sid) <==> Requested(log, k - 1, sid) || Asks(log, k - 1, sid);
    }
  }

  lemma {:induction false} LocalPersists(log: seq<Op>, k: nat, m: nat, sid: Id)
    requires k <= m <= |log| && sid in At(log, k).locals
    ensures sid in At(log, m).locals && At(log, m).locals[sid] == At(log, k).locals[sid]
  {
    if k == m {
    } else {
      LocalPersists(log, k, m - 1, sid);
      LocalStep(At(log, m - 1), log[m - 1]);
    }
  }

  /** Position i asks for the local session of `sid` and gets one. */
  predicate Obtains(log: seq<Op>, i: nat, sid: Id)
    requires i < |log|
  {
    (Asks(log, i, sid) || log[i] == GetLocal(sid)) && ResultAt(log, i).Session?
  }

  lemma ObtainsEntry(log: seq<Op>, i: nat, sid: Id)
    requires i < |log| && Obtains(log, i, sid)
    ensures sid in At(log, i + 1).locals && ResultAt(log, i) == Session(At(log, i + 1).locals[sid])
  {
  }

  /** Whoever obtains a session for `sid`, at any time and through either call,
      obtains the same object, constructed with `sid`; objects of different sids differ.
      Once one has been obtained, get_local_session always returns it. */
  lemma OneObjectPerSid(log: seq<Op>, i: nat, j: nat, a: Id, b: Id)
    requires i <= j < |log| && Obtains(log, i, a) && Obtains(log, j, b)
    ensures ResultAt(log, i) == ResultAt(log, j) <==> a == b
    ensures forall g | i < g < |log| && log[g] == GetLocal(a) :: ResultAt(log, g) == ResultAt(log, i)
  {
    ObtainsEntry(log, i, a);
    forall g | i < g < |log| && log[g] == GetLocal(a)
      ensures ResultAt(log, g) == ResultAt(log, i)
    {
      LocalPersists(log, i + 1, g, a);
    }
    ObtainsEntry(log, j, b);
    LocalPersists(log, i + 1, j + 1, a);
    Reachable(log, j + 1);
  }

  /** Position f is the first to ask for sid. */
  ghost predicate AsksFirst(log: seq<Op>, f: nat, sid: Id)
    requires f < |log|
  {
    Asks(log, f, sid) && !Requested(log, f, sid)
  }

  /** get_local_session is null exactly when nobody asked for sid before, and otherwise
      the session that the first request built. */
  lemma GetLocalIff(log: seq<Op>, i: nat, sid: Id)
    requires i < |log| && log[i] == GetLocal(sid)
    ensures ResultAt(log, i) == Null <==> !Requested(log, i, sid)
    ensures ResultAt(log, i) != Null ==>
      exists f | 0 <= f < i :: AsksFirst(log, f, sid) && ResultAt(log, i) == ResultAt(log, f)
    ensures forall f | 0 <= f < i && AsksFirst(log, f, sid) ::
      ResultAt(log, f).Session? && ResultAt(log, i) == ResultAt(log, f)
  {
    LocalDomain(log, i, sid);
    forall f | 0 <= f < i && AsksFirst(log, f, sid)
      ensures ResultAt(log, f).Session? && ResultAt(log, i) == ResultAt(log, f)
    {
      LocalDomain(log, f, sid);
      assert Asks(log, f, sid);
      OneObjectPerSid(log, f, i, sid, sid);
    }
    if Requested(log, i, sid) {
      var f := FirstRequest(log, i, sid);
    }
  }

  lemma {:induction false} FirstRequest(log: seq<Op>, k: nat, sid: Id) returns (f: nat)
    requires k <= |log| && Requested(log, k, sid)
    ensures f < k && AsksFirst(log, f, sid)
  {
    if Requested(log, k - 1, sid) {
      f := FirstRequest(log, k - 1, sid);
    } else {
      f := k - 1;
    }
  }

  /** At most one local session is ever constructed for a sid. */
  lemma BuiltOnce(log: seq<Op>, k: nat, m: nat, n: nat)
    requires k <= |log| && m < n < |At(log, k).localIds|
    ensures At(log, k).localIds[m] != At(log, k).localIds[n]
  {
    Reachable(log, k);
  }

  // ----- what the connected flag means -----

  /** Step op constructs session h. */
  predicate Builds(s: State, op: Op, h: Handle) {
    !Built(s, h) && Built(Step(s, op).0, h)
  }

  /** Step op sets the flag of session h: a connect, or a construction that says so. */
  predicate Raises(s: State, op: Op, h: Handle) {
    (op == Connected(h) && Built(s, h)) || ((op.New? || op.NewLocal?) && op.up && Builds(s, op, h))
  }

  /** Position c sets the flag of h and nothing clears h before position k. */
  ghost predicate UpSince(log: seq<Op>, c: nat, k: nat, h: Handle)
    requires k <= |log|
  {
    c < k && Raises(At(log, c), log[c], h) && forall r | c < r < k :: log[r] != Cleared(h)
  }

  ghost predicate IsUp(log: seq<Op>, k: nat, h: Handle)
    requires k <= |log|
  {
    exists c: nat :: UpSince(log, c, k, h)
  }

  lemma UpStep(s: State, op: Op, h: Handle)
    requires Inv(s)
    ensures h in Step(s, op).0.up <==> Raises(s, op, h) || (h in s.up && op != Cleared(h))
  {
  }

  lemma IsUpStep(log: seq<Op>, k: nat, h: Handle)
    requires k < |log|
    ensures IsUp(log, k + 1, h)
      <==> Raises(At(log, k), log[k], h) || (IsUp(log, k, h) && log[k] != Cleared(h))
  {
    hide At, Raises;
    var next := k + 1;
    if Raises(At(log, k), log[k], h) {
      assert UpSince(log, k, next, h);
    } else if c: nat :| UpSince(log, c, next, h) {
      assert UpSince(log, c, k, h);
    }
    if c: nat :| UpSince(log, c, k, h) {
      assert log[k] != Cleared(h) ==> UpSince(log, c, next, h);
    }
  }

  /** A session's flag is set exactly when something set it with no clear since. */
  lemma {:induction false} UpIff(log: seq<Op>, k: nat, h: Handle)
    requires k <= |log|
    ensures h in At(log, k).up <==> IsUp(log, k, h)
  {
    if k == 0 {
    } else {
      UpIff(log, k - 1, h);
      Reachable(log, k - 1);
      UpStep(At(log, k - 1), log[k - 1], h);
      IsUpStep(log, k - 1, h);
    }
  }

  // ----- reuse discipline -----

  /** `new_local_session(sid)` is refused exactly when sid was requested before
      and its session is connected; a refusal changes nothing. A session it does
      return is connected only if this very call constructed it so. */
  lemma RefusedIff(log: seq<Op>, q: nat, sid: Id)
    requires q < |log| && Asks(log, q, sid)
    ensures ResultAt(log, q) == Null
      <==> Requested(log, q, sid) && IsUp(log, q, At(log, q + 1).locals[sid])
    ensures ResultAt(log, q) == Null ==> At(log, q + 1) == At(log, q)
    ensures ResultAt(log, q) != Null ==>
      && ResultAt(log, q) == Session(At(log, q + 1).locals[sid])
      && (IsUp(log, q + 1, At(log, q + 1).locals[sid]) <==> log[q].up && !Requested(log, q, sid))
  {
    LocalDomain(log, q, sid);
    UpIff(log, q, At(log, q + 1).locals[sid]);
    UpIff(log, q + 1, At(log, q + 1).locals[sid]);
  }

  /** Between a connect of sid's session and the next call that hands it out
      again there is a disconnect of that same session. */
  lemma ReuseNeedsDisconnect(log: seq<Op>, p: nat, q: nat, sid: Id) returns (r: nat)
    requires p < q < |log|
    requires sid in At(log, p).locals && log[p] == Connected(At(log, p).locals[sid])
    requires Asks(log, q, sid) && ResultAt(log, q) != Null
    ensures p < r < q && log[r] == Cleared(At(log, p).locals[sid])
  {
    var h := At(log, p).locals[sid];
    LocalPersists(log, p, q, sid);
    Reachable(log, p);
    UpIff(log, q, h);
    assert !UpSince(log, p, q, h);
    r :| p < r < q && log[r] == Cleared(h);
  }
}
