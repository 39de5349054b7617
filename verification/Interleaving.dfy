/** The shared and the local half of the registry do not interact: a run that
    mixes both behaves like its two projections run apart. */
module Interleaving {
  import opened Registry

  predicate IsShared(op: Op) {
    match op
    case New(_) => true
    case Get(_) => true
    case Remove(_) => true
    case NewLocal(_, _) => false
    case GetLocal(_) => false
    case Connected(h) => h.Shared?
    case Cleared(h) => h.Shared?
  }

  /** The shared (or the local) operations among the first k of a run. */
  function Project(log: seq<Op>, k: nat, shared: bool): seq<Op>
    requires k <= |log|
  {
    if k == 0 then [] else
    if IsShared(log[k - 1]) == shared then Project(log, k - 1, shared) + [log[k - 1]]
    else Project(log, k - 1, shared)
  }

  lemma {:induction false} ProjectPrefix(log: seq<Op>, k: nat, m: nat, shared: bool)
    requires k <= m <= |log|
    ensures Project(log, k, shared) <= Project(log, m, shared)
  {
    if k == m {
    } else {
      ProjectPrefix(log, k, m - 1, shared);
    }
  }

  /** The state with the shared half of a and the local half of b. */
  ghost function Merge(a: State, b: State): State {
    State(a.curr, a.sessions, a.sharedIds, b.locals, b.localIds,
          (set h | h in a.up && h.Shared?) + (set h | h in b.up && h.Local?))
  }

  lemma SharedStep(a: State, b: State, op: Op)
    requires IsShared(op)
    ensures Step(Merge(a, b), op) == (Merge(Step(a, op).0, b), Step(a, op).1)
  {
    assert Step(Merge(a, b), op).0.up == Merge(Step(a, op).0, b).up;
  }

  lemma LocalStep(a: State, b: State, op: Op)
    requires !IsShared(op) && KeysAgree(b)
    ensures Step(Merge(a, b), op) == (Merge(a, Step(b, op).0), Step(b, op).1)
  {
    assert Step(Merge(a, b), op).0.up == Merge(a, Step(b, op).0).up;
  }

  /** The state after a whole run. */
  function Final(log: seq<Op>): State {
    At(log, |log|)
  }

  lemma FinalSnoc(log: seq<Op>, op: Op)
    ensures Final(log + [op]) == Step(Final(log), op).0
  {
    AtSnoc(log, op);
  }

  /** After any mixed run, the shared half of the state is that of the shared
      operations run alone, and the local half that of the local ones. */
  lemma {:induction false} StateSplits(log: seq<Op>, k: nat)
    requires k <= |log|
    ensures At(log, k) == Merge(Final(Project(log, k, true)), Final(Project(log, k, false)))
  {
    if k == 0 {
    } else {
      StateSplits(log, k - 1);
      var s, l, op := Project(log, k - 1, true), Project(log, k - 1, false), log[k - 1];
      if IsShared(op) {
        FinalSnoc(s, op);
        SharedStep(Final(s), Final(l), op);
      } else {
        FinalSnoc(l, op);
        Reachable(l, |l|);
        LocalStep(Final(s), Final(l), op);
      }
    }
  }

  lemma PassesThrough(half: seq<Op>, before: seq<Op>, op: Op)
    requires before + [op] <= half
    ensures |before| < |half| && half[|before|] == op && At(half, |before|) == Final(before)
  {
    var after := half[|before|..];
    assert half == before + after;
    AtPrefix(before, after, |before|);
    assert (before + [op])[|before|] == op;
  }

  /** Every call of a mixed run returns what it returns when the operations of
      its own half run without the other half. */
  lemma ResultsSplit(log: seq<Op>, k: nat)
    requires k < |log|
    ensures var shared := IsShared(log[k]);
      var (half, i) := (Project(log, |log|, shared), |Project(log, k, shared)|);
      i < |half| && half[i] == log[k] && ResultAt(half, i) == ResultAt(log, k)
  {
    var s, l := Project(log, k, true), Project(log, k, false);
    ProjectPrefix(log, k + 1, |log|, IsShared(log[k]));
    PassesThrough(Project(log, |log|, IsShared(log[k])), Project(log, k, IsShared(log[k])), log[k]);
    StateSplits(log, k);
    if IsShared(log[k]) {
      SharedStep(Final(s), Final(l), log[k]);
    } else {
      Reachable(l, |l|);
      LocalStep(Final(s), Final(l), log[k]);
    }
  }
}
