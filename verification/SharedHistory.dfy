/** Whole-run theorems about `sessions_` and `curr_id_`: what a run of
    operations alone says about which session an id names. */
module SharedHistory {
  import opened Registry

  // ----- id arithmetic -----

  lemma CounterCounts(log: seq<Op>, k: nat)
    requires k <= |log|
    ensures At(log, k).curr == Wrap(News(log, k))
    ensures forall i | 0 <= i < k && log[i].New? ::
      && ResultAt(log, i) == Session(Shared(News(log, i)))
      && At(log, i + 1).curr == Issued(log, i)
      && News(log, i) < |At(log, k).sharedIds|
      && At(log, k).sharedIds[News(log, i)] == Issued(log, i)
  {
    Reachable(log, k);
    forall i | 0 <= i < k && log[i].New?
      ensures ResultAt(log, i) == Session(Shared(News(log, i)))
      ensures At(log, i + 1).curr == Issued(log, i)
      ensures News(log, i) < |At(log, k).sharedIds|
    {
      Reachable(log, i);
      NewIssues(At(log, i));
      NewsMonotone(log, i, k);
    }
  }

  /** The ids are those of a counter that starts at 1 and wraps at 2^32. */
  lemma IssuedIs(log: seq<Op>, i: nat)
    requires i < |log| && log[i].New?
    ensures ResultAt(log, i) == Session(Shared(News(log, i)))
    ensures At(log, i + 1).curr == (News(log, i) + 1) % 0x1_0000_0000
  {
    CounterCounts(log, i + 1);
    hide At, News, Wrap;
    WrapIs(News(log, i) + 1);
  }

  lemma WrapIs(n: nat)
    ensures Wrap(n) == n % 0x1_0000_0000
  {
  }

  /** Two creations issue the same id exactly when a multiple of 2^32 creations lies between. */
  lemma SameIdIff(m: nat, n: nat)
    requires m <= n
    ensures IdOf(m) == IdOf(n) <==> Wrap(n - m) == 0
  {
  }

  /** Until the counter wraps, ids are nonzero and no two creations share one. */
  lemma FirstIdsDistinct(log: seq<Op>, i: nat, j: nat)
    requires i < j < |log| && log[i].New? && log[j].New?
    requires News(log, j) < ID_SPACE - 1
    ensures Issued(log, i) != 0 && Issued(log, j) != 0
    ensures Issued(log, i) != Issued(log, j)
  {
    NewsMonotone(log, i, j);
  }

  // ----- when an id is live -----

  /** Position i issues `id` and nothing removes `id` before position k. */
  ghost predicate IssuedSince(log: seq<Op>, i: nat, k: nat, id: Id)
    requires k <= |log|
  {
    i < k && Issues(log, i, id) && NoRemoval(log, i + 1, k, id)
  }

  /** Some creation issued `id` and nothing has removed it since. */
  ghost predicate Held(log: seq<Op>, k: nat, id: Id)
    requires k <= |log|
  {
    exists i: nat :: IssuedSince(log, i, k, id)
  }

  lemma LiveStep(s: State, op: Op, id: Id)
    requires Inv(s)
    ensures id in Step(s, op).0.sessions
      <==> (op.New? && IdOf(|s.sharedIds|) == id) || (id in s.sessions && op != Remove(id))
  {
    NewIssues(s);
  }

  lemma HeldStep(log: seq<Op>, k: nat, id: Id)
    requires k < |log|
    ensures Held(log, k + 1, id) <==> Issues(log, k, id) || (log[k] != Remove(id) && Held(log, k, id))
  {
    var next := k + 1;
    if Issues(log, k, id) {
      assert IssuedSince(log, k, next, id);
    } else if i: nat :| IssuedSince(log, i, next, id) {
      assert IssuedSince(log, i, k, id);
    }
    if i: nat :| IssuedSince(log, i, k, id) {
      assert log[k] != Remove(id) ==> IssuedSince(log, i, next, id);
    }
  }

  /** An id is live exactly when some creation issued it with no removal since. */
  lemma {:induction false} LiveIff(log: seq<Op>, k: nat, id: Id)
    requires k <= |log|
    ensures id in At(log, k).sessions <==> Held(log, k, id)
  {
    if k == 0 {
    } else {
      LiveIff(log, k - 1, id);
      Reachable(log, k - 1);
      LiveStep(At(log, k - 1), log[k - 1], id);
      HeldStep(log, k - 1, id);
    }
  }

  lemma EntryStep(s: State, op: Op)
    ensures var t := Step(s, op).0;
      && (forall id | id in s.sessions && op != Remove(id) ::
            id in t.sessions && t.sessions[id] == s.sessions[id])
      && t.sessions.Values <= s.sessions.Values + {Shared(|s.sharedIds|)}
      && (forall h | Built(s, h) :: Built(t, h))
  {
  }

  /** An entry stays as it is until its id is removed, whatever else is called. */
  lemma {:induction false} EntryPersists(log: seq<Op>, k: nat, m: nat, id: Id)
    requires k <= m <= |log| && id in At(log, k).sessions && NoRemoval(log, k, m, id)
    ensures id in At(log, m).sessions && At(log, m).sessions[id] == At(log, k).sessions[id]
  {
    if k == m {
    } else {
      EntryPersists(log, k, m - 1, id);
      EntryStep(At(log, m - 1), log[m - 1]);
    }
  }

  /** A session that is built but not in the table never enters it again. */
  lemma {:induction false} GoneForGood(log: seq<Op>, k: nat, m: nat, h: Handle)
    requires k <= m <= |log| && Built(At(log, k), h) && h !in At(log, k).sessions.Values
    ensures Built(At(log, m), h) && h !in At(log, m).sessions.Values
  {
    if k == m {
    } else {
      GoneForGood(log, k, m - 1, h);
      EntryStep(At(log, m - 1), log[m - 1]);
    }
  }

  // ----- history refinement -----

  /** Position i is the earliest creation that issued `id` after the latest
      `remove_session(id)` among the first k operations. */
  ghost predicate Owns(log: seq<Op>, k: nat, id: Id, i: nat)
    requires k <= |log|
  {
    && IssuedSince(log, i, k, id)
    && forall j | 0 <= j < i && Issues(log, j, id) :: !NoRemoval(log, j + 1, i, id)
  }

  lemma {:induction false} EarliestIssuer(log: seq<Op>, k: nat, id: Id, j: nat) returns (i: nat)
    requires k <= |log| && IssuedSince(log, j, k, id)
    ensures Owns(log, k, id, i)
    decreases j
  {
    if i': nat :| i' < j && Issues(log, i', id) && NoRemoval(log, i' + 1, j, id) {
      i := EarliestIssuer(log, k, id, i');
    } else {
      i := j;
    }
  }

  lemma OwnerUnique(log: seq<Op>, k: nat, id: Id, i: nat, j: nat)
    requires k <= |log| && Owns(log, k, id, i) && Owns(log, k, id, j)
    ensures i == j
  {
  }

  /** The table entry of an owner is the session its creation built. */
  lemma OwnerRegistered(log: seq<Op>, k: nat, id: Id, i: nat)
    requires k <= |log| && Owns(log, k, id, i)
    ensures id in At(log, k).sessions && At(log, k).sessions[id] == Shared(News(log, i))
  {
    LiveIff(log, i, id);
    Reachable(log, i);
    NewIssues(At(log, i));
    EntryPersists(log, i + 1, k, id);
  }

  /** `get_session(id)` is the session of the earliest creation that issued `id`
      after the latest removal of `id`, and null when there is none. */
  lemma HistoryRefinement(log: seq<Op>, k: nat, id: Id)
    requires k <= |log|
    ensures var r := Step(At(log, k), Get(id)).1;
      && (r == Null <==> !exists i: nat :: Owns(log, k, id, i))
      && (forall i: nat | Owns(log, k, id, i) :: r == Session(Shared(News(log, i))))
    ensures forall i: nat, j: nat | Owns(log, k, id, i) && Owns(log, k, id, j) :: i == j
  {
    LiveIff(log, k, id);
    forall i: nat, j: nat | Owns(log, k, id, i) && Owns(log, k, id, j)
      ensures i == j
    {
      OwnerUnique(log, k, id, i, j);
    }
    if j: nat :| IssuedSince(log, j, k, id) {
      var i := EarliestIssuer(log, k, id, j);
    }
    forall i: nat | Owns(log, k, id, i)
      ensures Lookup(At(log, k).sessions, id) == Session(Shared(News(log, i)))
    {
      OwnerRegistered(log, k, id, i);
    }
  }

  // ----- orphans -----

  /** The session returned by the creation at position p is not in the table. */
  ghost predicate Orphaned(log: seq<Op>, p: nat)
    requires p < |log|
  {
    Shared(News(log, p)) !in At(log, p + 1).sessions.Values
  }

  /** A created session is unregistered exactly when its id was live just before
      the call; then the older session stays, and no later state holds the orphan. */
  lemma OrphanIff(log: seq<Op>, p: nat)
    requires p < |log| && log[p].New?
    ensures Orphaned(log, p) <==> Issued(log, p) in At(log, p).sessions
    ensures Orphaned(log, p) ==> At(log, p + 1).sessions == At(log, p).sessions
    ensures Orphaned(log, p) ==> forall m, id | p < m <= |log| ::
      Step(At(log, m), Get(id)).1 != ResultAt(log, p)
    ensures !Orphaned(log, p) ==> Step(At(log, p + 1), Get(Issued(log, p))).1 == ResultAt(log, p)
  {
    var s, t := At(log, p), At(log, p + 1);
    Reachable(log, p);
    NewIssues(s);
    if Issued(log, p) !in s.sessions {
      assert t.sessions[Issued(log, p)] == Shared(News(log, p));
    }
    if Orphaned(log, p) {
      forall m: nat, id | p < m <= |log|
        ensures Step(At(log, m), Get(id)).1 != ResultAt(log, p)
      {
        GoneForGood(log, p + 1, m, Shared(News(log, p)));
      }
    }
  }

  // ----- how long a removed id stays dead -----

  /** The creations that must happen before `id` is issued again, from counter c. */
  function Distance(c: Id, id: Id): Id {
    Wrap(id - c - 1)
  }

  lemma DistanceIsFirst(n: nat, t: nat, id: Id)
    requires t <= Distance(Wrap(n), id)
    ensures IdOf(n + t) == id <==> t == Distance(Wrap(n), id)
  {
  }

  /** After `remove_session(id)` with counter c, `id` stays dead through the next
      (id - c - 1) mod 2^32 creations, whatever else is called, and the creation
      after those issues `id` and registers its session under it. */
  lemma StaleIdWindow(log: seq<Op>, p: nat, id: Id, m: nat)
    requires p < m <= |log| && log[p] == Remove(id)
    requires News(log, m) - News(log, p + 1) <= Distance(At(log, p).curr, id)
    ensures Step(At(log, m), Get(id)).1 == Null
    ensures m < |log| && log[m].New? && News(log, m) - News(log, p + 1) == Distance(At(log, p).curr, id)
      ==> Issued(log, m) == id && Step(At(log, m + 1), Get(id)).1 == ResultAt(log, m)
  {
    CounterCounts(log, p);
    var n := News(log, p + 1);
    LiveIff(log, m, id);
    if i: nat :| IssuedSince(log, i, m, id) {
      assert i > p;
      NewsMonotone(log, p + 1, i);
      NewsMonotone(log, i, m);
      DistanceIsFirst(n, News(log, i) - n, id);
      assert false;
    }
    if m < |log| && log[m].New? && News(log, m) - n == Distance(At(log, p).curr, id) {
      NewsMonotone(log, p + 1, m);
      DistanceIsFirst(n, News(log, m) - n, id);
      OrphanIff(log, m);
    }
  }

  // ----- bounded lifetimes lose nothing -----

  /** The id of every creation is removed before the creation 2^32 later. */
  ghost predicate BoundedLifetimes(log: seq<Op>) {
    forall i, j | 0 <= i < j < |log| && log[i].New? && log[j].New?
                  && News(log, j) == News(log, i) + ID_SPACE ::
      !NoRemoval(log, i + 1, j, Issued(log, i))
  }

  /** Every created session is in the table, under its id, when it is returned. */
  ghost predicate AllRegistered(log: seq<Op>) {
    forall p | 0 <= p < |log| && log[p].New? :: !Orphaned(log, p)
  }

  /** When position j issued an id that position p issues again, the creation
      2^32 before p lies at j or between. */
  lemma PreviousIssuer(log: seq<Op>, j: nat, p: nat) returns (i: nat)
    requires j < p < |log| && log[j].New? && log[p].New? && Issued(log, j) == Issued(log, p)
    ensures j <= i < p && log[i].New? && Issued(log, i) == Issued(log, p)
    ensures News(log, p) == News(log, i) + ID_SPACE
  {
    NewsMonotone(log, j, p);
    SameIdIff(News(log, j), News(log, p));
    var n := News(log, p) - ID_SPACE;
    i := CreationAt(log, p, n);
    SameIdIff(n, News(log, p));
    if i < j { NewsMonotone(log, i, j); }
  }

  lemma BoundedImpliesRegistered(log: seq<Op>)
    requires BoundedLifetimes(log)
    ensures AllRegistered(log)
  {
    forall p | 0 <= p < |log| && log[p].New?
      ensures !Orphaned(log, p)
    {
      var id := Issued(log, p);
      OrphanIff(log, p);
      LiveIff(log, p, id);
      if j: nat :| IssuedSince(log, j, p, id) {
        var i := PreviousIssuer(log, j, p);
        assert false;
      }
    }
  }

  lemma RegisteredImpliesBounded(log: seq<Op>)
    requires AllRegistered(log)
    ensures BoundedLifetimes(log)
  {
    forall i, j | 0 <= i < j < |log| && log[i].New? && log[j].New?
                  && News(log, j) == News(log, i) + ID_SPACE
      ensures !NoRemoval(log, i + 1, j, Issued(log, i))
    {
      var id := Issued(log, i);
      SameIdIff(News(log, i), News(log, j));
      if NoRemoval(log, i + 1, j, id) {
        assert IssuedSince(log, i, j, id);
        LiveIff(log, j, id);
        OrphanIff(log, j);
        assert false;
      }
    }
  }

  /** No session is ever lost exactly when every id is removed before it is
      reissued; this holds over any number of wraps. */
  lemma NothingLostIff(log: seq<Op>)
    ensures BoundedLifetimes(log) <==> AllRegistered(log)
  {
    if BoundedLifetimes(log) { BoundedImpliesRegistered(log); }
    if AllRegistered(log) { RegisteredImpliesBounded(log); }
  }

  lemma RemovedIsGone(log: seq<Op>, i: nat, r: nat, k: nat)
    requires i < r < k <= |log| && log[i].New? && log[r] == Remove(Issued(log, i))
    ensures Shared(News(log, i)) !in At(log, k).sessions.Values
  {
    CounterCounts(log, r);
    Reachable(log, r);
    GoneForGood(log, r + 1, k, Shared(News(log, i)));
  }

  lemma RegisteredStays(log: seq<Op>, i: nat, k: nat)
    requires i < k <= |log| && log[i].New? && !Orphaned(log, i)
    requires NoRemoval(log, i + 1, k, Issued(log, i))
    ensures Shared(News(log, i)) in At(log, k).sessions.Values
  {
    OrphanIff(log, i);
    EntryPersists(log, i + 1, k, Issued(log, i));
    CounterCounts(log, i + 1);
  }

  /** With bounded lifetimes the table is exactly the created sessions minus the
      removed ones: each creation so far is registered unless its id was removed after it. */
  lemma CreatedMinusRemoved(log: seq<Op>, k: nat, i: nat)
    requires BoundedLifetimes(log) && i < k <= |log| && log[i].New?
    ensures Shared(News(log, i)) in At(log, k).sessions.Values
      <==> NoRemoval(log, i + 1, k, Issued(log, i))
  {
    if r :| i + 1 <= r < k && log[r] == Remove(Issued(log, i)) {
      RemovedIsGone(log, i, r, k);
    } else {
      BoundedImpliesRegistered(log);
      RegisteredStays(log, i, k);
    }
  }

  // ----- removals alternate with creations -----

  /** `remove_session(id)` at position p finds something to remove. */
  predicate Removes(log: seq<Op>, p: nat, id: Id)
    requires p < |log|
  {
    log[p] == Remove(id) && ResultAt(log, p) == Flag(true)
  }

  lemma RemovalsAlternate(log: seq<Op>, p: nat, q: nat, id: Id) returns (i: nat)
    requires p < q < |log| && Removes(log, p, id) && Removes(log, q, id)
    ensures p < i < q && Issues(log, i, id)
  {
    LiveIff(log, q, id);
    i :| IssuedSince(log, i, q, id);
  }

  /** In a run with fewer than 2^32 creations each id is removed successfully at most once. */
  lemma RemovedAtMostOnce(log: seq<Op>, p: nat, q: nat, id: Id)
    requires p < q < |log| && News(log, |log|) < ID_SPACE
    ensures !(Removes(log, p, id) && Removes(log, q, id))
  {
    if Removes(log, p, id) && Removes(log, q, id) {
      LiveIff(log, p, id);
      var j: nat :| IssuedSince(log, j, p, id);
      var i := RemovalsAlternate(log, p, q, id);
      NewsMonotone(log, i, |log|);
      var _ := PreviousIssuer(log, j, i);
      assert false;
    }
  }

  // ----- conservation -----

  /** The creations among the first k operations whose session was not registered. */
  ghost function Orphans(log: seq<Op>, k: nat): nat
    requires k <= |log|
  {
    if k == 0 then 0 else Orphans(log, k - 1) + OrphanCount(log, k - 1)
  }

  /** The removals among the first k operations that found something to remove. */
  function Removals(log: seq<Op>, k: nat): nat
    requires k <= |log|
  {
    if k == 0 then 0 else Removals(log, k - 1) + RemovalCount(log, k - 1)
  }

  /** The n smallest naturals. */
  ghost function Below(n: nat): (r: set<int>)
    ensures |r| == n
    ensures forall x :: x in r <==> 0 <= x < n
  {
    if n == 0 then {} else Below(n - 1) + {n - 1}
  }

  lemma AtMostIdSpace(ids: set<Id>)
    ensures |ids| <= ID_SPACE
  {
    var all := Below(ID_SPACE);
    assert ids + (all - ids) == all;
  }

  lemma NewSize(s: State, up: bool)
    ensures |Step(s, New(up)).0.sessions|
      == |s.sessions| + if Wrap(s.curr + 1) in s.sessions then 0 else 1
  {
  }

  lemma RemoveSize(s: State, id: Id)
    ensures |Step(s, Remove(id)).0.sessions| == |s.sessions| - if id in s.sessions then 1 else 0
  {
    if id in s.sessions {
      assert s.sessions.Keys == (s.sessions - {id}).Keys + {id};
      assert |s.sessions.Keys| == |(s.sessions - {id}).Keys| + 1;
    }
  }

  lemma OtherSize(s: State, op: Op)
    requires !op.New? && !op.Remove?
    ensures Step(s, op).0.sessions == s.sessions
  {
  }

  /** How many sessions the first k operations leave in the table. */
  function Size(log: seq<Op>, k: nat): nat
    requires k <= |log|
  {
    |At(log, k).sessions|
  }

  /** 1 when the creation at position i is not registered. */
  ghost function OrphanCount(log: seq<Op>, i: nat): nat
    requires i < |log|
  {
    if log[i].New? && Orphaned(log, i) then 1 else 0
  }

  /** 1 when position i is a removal that finds something to remove. */
  function RemovalCount(log: seq<Op>, i: nat): nat
    requires i < |log|
  {
    if log[i].Remove? && Removes(log, i, log[i].id) then 1 else 0
  }

  ghost predicate Balanced(log: seq<Op>, k: nat)
    requires k < |log|
  {
    Size(log, k + 1) + OrphanCount(log, k) + RemovalCount(log, k)
      == Size(log, k) + if log[k].New? then 1 else 0
  }

  lemma BalanceStep(log: seq<Op>, k: nat)
    requires k < |log|
    ensures Balanced(log, k)
  {
    var s := At(log, k);
    if log[k].New? {
      NewSize(s, log[k].up);
      Reachable(log, k);
      NewIssues(s);
      OrphanIff(log, k);
    } else if log[k].Remove? {
      RemoveSize(s, log[k].id);
    } else {
      OtherSize(s, log[k]);
    }
  }

  lemma {:induction false} Balance(log: seq<Op>, k: nat)
    requires k <= |log|
    ensures Size(log, k) + Orphans(log, k) + Removals(log, k) == News(log, k)
  {
    if k == 0 {
    } else {
      Balance(log, k - 1);
      BalanceStep(log, k - 1);
    }
  }

  /** Before the counter wraps no creation finds its id live. */
  lemma FreshBeforeWrap(log: seq<Op>, p: nat)
    requires p < |log| && log[p].New? && News(log, p) < ID_SPACE
    ensures !Orphaned(log, p)
  {
    var id := Issued(log, p);
    OrphanIff(log, p);
    LiveIff(log, p, id);
    if i: nat :| IssuedSince(log, i, p, id) {
      var _ := PreviousIssuer(log, i, p);
      assert false;
    }
  }

  lemma {:induction false} NoOrphansBeforeWrap(log: seq<Op>, k: nat)
    requires k <= |log| && News(log, k) <= ID_SPACE
    ensures Orphans(log, k) == 0
  {
    if k == 0 {
    } else {
      NewsMonotone(log, k - 1, k);
      NoOrphansBeforeWrap(log, k - 1);
      if log[k - 1].New? { FreshBeforeWrap(log, k - 1); }
    }
  }

  /** The table holds the creations minus the orphans and the removals; it never
      exceeds the creations or the id space; before a wrap nothing is orphaned. */
  lemma Conservation(log: seq<Op>, k: nat)
    requires k <= |log|
    ensures |At(log, k).sessions| == News(log, k) - Orphans(log, k) - Removals(log, k)
    ensures |At(log, k).sessions| <= ID_SPACE
    ensures News(log, k) <= ID_SPACE ==> Orphans(log, k) == 0
  {
    Balance(log, k);
    AtMostIdSpace(At(log, k).sessions.Keys);
    if News(log, k) <= ID_SPACE { NoOrphansBeforeWrap(log, k); }
  }
}
