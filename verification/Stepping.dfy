/** Working out by hand what the search does on one grid. */
module Stepping {
  import opened Grid
  import opened Search
  import opened Demand

  /** Looking at neighbour i of cur leads from s to t without finding the cell open. */
  ghost predicate Goes(m: Map, s: State, end: nat, cur: nat, i: nat, t: State)
    requires m.Valid()
  {
    Lists(s) && cur < |s.pool| ==>
      var cell := m.Neighbour(s.pool[cur].cell, i);
      || (PassedOver(m, s, cur, i) && t == s)
      || (!PassedOver(m, s, cur, i) && Unseen(s, cell) && t == OpenNode(m, s, cell, end, cur))
  }

  lemma VisitGoes(m: Map, s: State, begin: nat, end: nat, cur: nat, i: nat, t: State)
    requires Expanding(m, s, begin, end, cur, i) && Goes(m, s, end, cur, i, t)
    ensures Visit(m, s, begin, end, cur, i) == t && Expanding(m, t, begin, end, cur, i + 1)
  {
    assert cur in s.closed;
  }

  lemma FourVisits(m: Map, s: State, begin: nat, end: nat, cur: nat, t1: State, t2: State, t3: State, t4: State)
    requires Expanding(m, s, begin, end, cur, 0)
    requires Goes(m, s, end, cur, 0, t1) && Goes(m, t1, end, cur, 1, t2)
    requires Goes(m, t2, end, cur, 2, t3) && Goes(m, t3, end, cur, 3, t4)
    ensures Expand(m, s, begin, end, cur, 0) == t4
  {
    hide Visit, Expanding, Goes;
    VisitGoes(m, s, begin, end, cur, 0, t1);
    VisitGoes(m, t1, begin, end, cur, 1, t2);
    VisitGoes(m, t2, begin, end, cur, 2, t3);
    VisitGoes(m, t3, begin, end, cur, 3, t4);
    assert Expand(m, t4, begin, end, cur, 4) == t4;
    assert Expand(m, t3, begin, end, cur, 3) == t4;
    assert Expand(m, t2, begin, end, cur, 2) == t4;
  }

  /** The k-th open node is the one that is taken next. */
  ghost predicate TakesNext(s: State, k: nat) {
    && k < |s.open|
    && (forall i | 0 <= i < |s.open| :: s.open[i] < |s.pool|)
    && (forall j | 0 <= j < |s.open| :: s.pool[s.open[k]].f <= s.pool[s.open[j]].f)
    && (forall j | k < j < |s.open| :: s.pool[s.open[k]].f < s.pool[s.open[j]].f)
  }

  /** One round of the search: the k-th open node is taken and its neighbours looked at. */
  lemma RoundIs(m: Map, s: State, begin: nat, end: nat, k: nat,
                t0: State, t1: State, t2: State, t3: State, t4: State)
    requires Inv(m, s, begin, end) && TakesNext(s, k)
    requires s.pool[s.open[k]].cell != end && t0 == Take(s, k)
    requires Goes(m, t0, end, s.open[k], 0, t1) && Goes(m, t1, end, s.open[k], 1, t2)
    requires Goes(m, t2, end, s.open[k], 2, t3) && Goes(m, t3, end, s.open[k], 3, t4)
    ensures Inv(m, t4, begin, end) && Finish(m, s, begin, end) == Finish(m, t4, begin, end)
  {
    LastLeastIs(s, k);
    FinishStep(m, s, begin, end, k);
    hide Goes, Inv, Expand, Expanding, Finish;
    FourVisits(m, t0, begin, end, s.open[k], t1, t2, t3, t4);
  }

  /** The k-th open node is the target: the search stops. */
  lemma StopsAt(m: Map, s: State, begin: nat, end: nat, k: nat)
    requires Inv(m, s, begin, end) && TakesNext(s, k) && s.pool[s.open[k]].cell == end
    ensures Finish(m, s, begin, end) == s
    ensures Lists(s) && StoppedAt(s) == Trail(s.pool, s.open[k], s.pool[s.open[k]].g)
  {
    LastLeastIs(s, k);
    FinishStop(m, s, begin, end);
  }
}
