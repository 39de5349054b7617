/** The search without its allocator, and how many nodes it takes from one. */
module Demand {
  import opened Grid
  import opened Search

  // ----- the search on values -----

  /** The last of the first n places of the open list with the least f among them. */
  ghost function LastLeast(s: State, n: nat): (k: nat)
    requires Lists(s) && 0 < n <= |s.open|
    ensures k < n && forall j | 0 <= j < n :: s.pool[s.open[k]].f <= s.pool[s.open[j]].f
    ensures forall j | k < j < n :: s.pool[s.open[k]].f < s.pool[s.open[j]].f
  {
    if n == 1 then 0
    else
      var k := LastLeast(s, n - 1);
      if s.pool[s.open[n - 1]].f <= s.pool[s.open[k]].f then n - 1 else k
  }

  /** Of the first n open nodes, k's has the least f, and later ones have more. */
  ghost predicate IsLastLeast(s: State, k: nat, n: nat)
    requires Lists(s) && n <= |s.open|
  {
    && k < n
    && (forall j | 0 <= j < n :: s.pool[s.open[k]].f <= s.pool[s.open[j]].f)
    && (forall j | k < j < n :: s.pool[s.open[k]].f < s.pool[s.open[j]].f)
  }

  lemma LastLeastNext(s: State, k: nat, n: nat)
    requires Lists(s) && n < |s.open| && IsLastLeast(s, k, n)
    ensures IsLastLeast(s, if s.pool[s.open[n]].f <= s.pool[s.open[k]].f then n else k, n + 1)
  {
  }

  lemma LastLeastIs(s: State, k: nat)
    requires Lists(s) && s.open != [] && IsLastLeast(s, k, |s.open|)
    ensures k == LastLeast(s, |s.open|) && Least(s, k)
  {
    assert forall j | 0 <= j < |s.open| :: s.open[j] < |s.pool|;
    hide Lists;
    var l := LastLeast(s, |s.open|);
    hide LastLeast;
    assert s.pool[s.open[l]].f <= s.pool[s.open[k]].f;
  }

  /** The neighbour is outside, blocked, or closed as a node other than the first. */
  ghost predicate PassedOver(m: Map, s: State, cur: nat, i: nat)
    requires m.Valid() && Lists(s) && cur < |s.pool|
  {
    var cell := m.Neighbour(s.pool[cur].cell, i);
    || cell < 0 || cell >= |m.arr| || !m.Free(cell)
    || exists c | c in s.closed && c != 0 :: s.pool[c].cell == cell
  }

  lemma PassOver(m: Map, s: State, begin: nat, end: nat, cur: nat, i: nat)
    requires Expanding(m, s, begin, end, cur, i) && cur < |s.pool| && PassedOver(m, s, cur, i)
    ensures Expanding(m, s, begin, end, cur, i + 1)
  {
    var cell := m.Neighbour(s.pool[cur].cell, i);
    if c :| cell >= 0 && c in s.closed && c != 0 && s.pool[c].cell == cell {
      ClosedIsNear(m, s, begin, end, cur, i, c);
    }
    Advance(m, s, s, begin, end, cur, i);
  }

  /** Looks at neighbour i of the node being expanded. */
  ghost function Visit(m: Map, s: State, begin: nat, end: nat, cur: nat, i: nat): (t: State)
    requires Expanding(m, s, begin, end, cur, i)
    ensures Expanding(m, t, begin, end, cur, i + 1)
    ensures t.closed == s.closed && |s.pool| <= |t.pool|
  {
    assert cur in s.closed;
    if PassedOver(m, s, cur, i) then
      PassOver(m, s, begin, end, cur, i);
      s
    else
      var cell := m.Neighbour(s.pool[cur].cell, i);
      if Unseen(s, cell) then
        OpenExpanding(m, s, begin, end, cur, i, cell);
        OpenNode(m, s, cell, end, cur)
      else
        var id :| id in s.open && s.pool[id].cell == cell;
        ImproveExpanding(m, s, begin, end, cur, i, id, cell);
        Improve(m, s, id, end, cur)
  }

  lemma VisitPasses(m: Map, s: State, begin: nat, end: nat, cur: nat, i: nat)
    requires Expanding(m, s, begin, end, cur, i) && cur < |s.pool| && PassedOver(m, s, cur, i)
    ensures Visit(m, s, begin, end, cur, i) == s
  {
  }

  lemma VisitOpens(m: Map, s: State, begin: nat, end: nat, cur: nat, i: nat)
    requires Expanding(m, s, begin, end, cur, i) && cur < |s.pool| && !PassedOver(m, s, cur, i)
    requires Unseen(s, m.Neighbour(s.pool[cur].cell, i))
    ensures Visit(m, s, begin, end, cur, i) == OpenNode(m, s, m.Neighbour(s.pool[cur].cell, i), end, cur)
  {
  }

  lemma VisitImproves(m: Map, s: State, begin: nat, end: nat, cur: nat, i: nat, id: nat)
    requires Expanding(m, s, begin, end, cur, i) && cur < |s.pool| && !PassedOver(m, s, cur, i)
    requires id in s.open && id < |s.pool| && s.pool[id].cell == m.Neighbour(s.pool[cur].cell, i)
    ensures Visit(m, s, begin, end, cur, i) == Improve(m, s, id, end, cur)
  {
    var j :| j in s.open && s.pool[j].cell == s.pool[id].cell
      && Visit(m, s, begin, end, cur, i) == Improve(m, s, j, end, cur);
    assert 0 in s.closed;
  }

  /** Looks at the neighbours from i on. */
  ghost function Expand(m: Map, s: State, begin: nat, end: nat, cur: nat, i: nat): (t: State)
    requires i <= 4 && Expanding(m, s, begin, end, cur, i)
    ensures Inv(m, t, begin, end)
    ensures t.closed == s.closed && |s.pool| <= |t.pool|
    decreases 4 - i
  {
    if i == 4 then
      DoneExpanding(m, s, begin, end, cur);
      s
    else
      Expand(m, Visit(m, s, begin, end, cur, i), begin, end, cur, i + 1)
  }

  /** The node that is taken next stands for the target. */
  ghost predicate AtTarget(s: State, end: nat)
    requires Lists(s) && s.open != []
  {
    s.pool[s.open[LastLeast(s, |s.open|)]].cell == end
  }

  ghost function Round(m: Map, s: State, begin: nat, end: nat): (t: State)
    requires Inv(m, s, begin, end) && s.open != [] && !AtTarget(s, end)
    ensures Inv(m, t, begin, end)
    ensures |t.closed| == |s.closed| + 1 && |s.pool| <= |t.pool|
  {
    var k := LastLeast(s, |s.open|);
    TakeExpanding(m, s, begin, end, k);
    Expand(m, Take(s, k), begin, end, s.open[k], 0)
  }

  /** Where a search that never runs out of nodes stops. */
  ghost function Finish(m: Map, s: State, begin: nat, end: nat): (t: State)
    requires Inv(m, s, begin, end)
    ensures Inv(m, t, begin, end) && |s.pool| <= |t.pool|
    ensures t.open == [] || AtTarget(t, end)
    decreases m.Size() + 1 - |s.closed|
  {
    if s.open == [] || AtTarget(s, end) then s
    else
      NodesBound(m, s, begin, end);
      Finish(m, Round(m, s, begin, end), begin, end)
  }

  lemma ExpandStep(m: Map, s: State, begin: nat, end: nat, cur: nat, i: nat)
    requires i < 4 && Expanding(m, s, begin, end, cur, i)
    ensures var t := Visit(m, s, begin, end, cur, i);
      Expanding(m, t, begin, end, cur, i + 1)
      && Expand(m, t, begin, end, cur, i + 1) == Expand(m, s, begin, end, cur, i)
    ensures |Visit(m, s, begin, end, cur, i).pool| <= |Expand(m, s, begin, end, cur, i).pool|
  {
    hide Visit, Expanding;
  }

  lemma ExpandStop(m: Map, s: State, begin: nat, end: nat, cur: nat)
    requires Expanding(m, s, begin, end, cur, 4)
    ensures Inv(m, s, begin, end) && Expand(m, s, begin, end, cur, 4) == s
  {
    DoneExpanding(m, s, begin, end, cur);
  }

  /** One round of the loop, as the loop goes through it. */
  lemma FinishStep(m: Map, s: State, begin: nat, end: nat, k: nat)
    requires Inv(m, s, begin, end) && s.open != [] && !AtTarget(s, end) && k == LastLeast(s, |s.open|)
    ensures Expanding(m, Take(s, k), begin, end, s.open[k], 0)
    ensures var t := Expand(m, Take(s, k), begin, end, s.open[k], 0);
      Inv(m, t, begin, end) && Finish(m, t, begin, end) == Finish(m, s, begin, end)
  {
    TakeExpanding(m, s, begin, end, k);
    hide Inv, Expand;
  }

  lemma FinishStop(m: Map, s: State, begin: nat, end: nat)
    requires Inv(m, s, begin, end) && (s.open == [] || AtTarget(s, end))
    ensures Finish(m, s, begin, end) == s
  {
    hide Inv;
  }

  /** The nodes that the search from begin to end needs. */
  ghost function Needed(m: Map, begin: nat, end: nat): nat
    requires m.Valid() && begin < m.Size() && end < m.Size()
  {
    StartInv(m, begin, end);
    |Finish(m, Start(m, begin, end), begin, end).pool|
  }

  /** The way to the node that the search stops at, last cell first. */
  ghost function Answer(m: Map, begin: nat, end: nat): seq<nat>
    requires m.Valid() && begin < m.Size() && end < m.Size()
  {
    StartInv(m, begin, end);
    var t := Finish(m, Start(m, begin, end), begin, end);
    if t.open == [] then [] else StoppedAt(t)
  }

  /** The way to the node that is taken next. */
  ghost function StoppedAt(t: State): seq<nat>
    requires Lists(t) && t.open != []
  {
    var id := t.open[LastLeast(t, |t.open|)];
    Trail(t.pool, id, t.pool[id].g)
  }

  lemma NeededIs(m: Map, begin: nat, end: nat)
    requires m.Valid() && begin < m.Size() && end < m.Size()
    ensures Inv(m, Start(m, begin, end), begin, end) && |Start(m, begin, end).pool| == 1
    ensures |Finish(m, Start(m, begin, end), begin, end).pool| == Needed(m, begin, end)
  {
    StartInv(m, begin, end);
    hide Inv;
  }

  // ----- the cells that can be reached -----

  ghost function Reach(m: Map, begin: nat): set<nat>
    requires m.Valid()
  {
    set c: nat | c < m.Size() && m.Reachable(begin, c)
  }

  /** The reachable cells, and the start once more when it can be entered again. */
  ghost function Enough(m: Map, begin: nat): nat
    requires m.Valid() && begin < m.Size()
  {
    |Reach(m, begin)| + if m.Free(begin) && |Reach(m, begin)| > 1 then 1 else 0
  }

  lemma {:induction false} NodeReachable(m: Map, s: State, begin: nat, end: nat, i: nat)
    requires Sound(m, s, begin, end) && i < |s.pool|
    ensures s.pool[i].cell in Reach(m, begin)
    decreases s.pool[i].g
  {
    assert NodeOk(m, s, begin, end, i);
    if i == 0 {
      assert m.Route(begin, begin, [begin]);
    } else {
      var p := s.pool[i].parent;
      NodeReachable(m, s, begin, end, p);
      var q :| m.Route(begin, s.pool[p].cell, q);
      RouteStep(m, begin, q, s.pool[p].cell, s.pool[i].cell);
    }
  }

  lemma SubsetSize(a: set<nat>, b: set<nat>)
    requires a <= b
    ensures |a| <= |b|
  {
    assert b == a + (b - a);
  }

  lemma {:induction false} BelowSize(a: set<nat>, n: nat)
    requires forall c | c in a :: c < n
    ensures |a| <= n
  {
    if n == 0 {
      assert a == {};
    } else {
      BelowSize(a - {n - 1}, n - 1);
    }
  }

  /** The cells of the nodes from the second to the n-th. */
  ghost function Later(s: State, n: nat): set<nat>
    requires n <= |s.pool|
  {
    set i | 0 < i < n :: s.pool[i].cell
  }

  lemma {:induction false} LaterSize(s: State, n: nat)
    requires CellsOnce(s) && 0 < n <= |s.pool|
    ensures |Later(s, n)| == n - 1
  {
    if n == 1 {
      assert Later(s, n) == {};
    } else {
      LaterSize(s, n - 1);
      assert Later(s, n) == Later(s, n - 1) + {s.pool[n - 1].cell};
    }
  }

  /** A second node of the start comes after one of another cell. */
  lemma ReopenedStart(m: Map, s: State, begin: nat, end: nat)
    requires Sound(m, s, begin, end) && begin in Later(s, |s.pool|)
    ensures m.Free(begin) && |Reach(m, begin)| > 1
  {
    var i :| 0 < i < |s.pool| && s.pool[i].cell == begin;
    assert NodeOk(m, s, begin, end, i);
    var p := s.pool[i].parent;
    NodeReachable(m, s, begin, end, i);
    NodeReachable(m, s, begin, end, p);
    SubsetSize({begin, s.pool[p].cell}, Reach(m, begin));
  }

  lemma NodesBound(m: Map, s: State, begin: nat, end: nat)
    requires Sound(m, s, begin, end)
    ensures |s.pool| <= Enough(m, begin) <= m.Size() + 1
  {
    var later, reach := Later(s, |s.pool|), Reach(m, begin);
    LaterSize(s, |s.pool|);
    forall c | c in later || c == begin
      ensures c in reach
    {
      assert NodeOk(m, s, begin, end, 0);
      var i :| 0 <= i < |s.pool| && s.pool[i].cell == c;
      NodeReachable(m, s, begin, end, i);
    }
    if begin in later {
      ReopenedStart(m, s, begin, end);
      SubsetSize(later, reach);
    } else {
      SubsetSize(later, reach - {begin});
    }
    BelowSize(reach, m.Size());
  }

  // ----- when nothing is left to open -----

  lemma EveryCellSeen(m: Map, s: State, begin: nat, end: nat, c: nat)
    requires Inv(m, s, begin, end) && s.open == [] && c in Reach(m, begin) && c != begin
    ensures c in Later(s, |s.pool|)
  {
    var q :| m.Route(begin, c, q);
    FollowRoute(m, s, begin, end, c, q, |q| - 1);
    var i :| i in s.closed && s.pool[i].cell == c;
    assert NodeOk(m, s, begin, end, 0);
  }

  lemma StartSeenAgain(m: Map, s: State, begin: nat, end: nat)
    requires Inv(m, s, begin, end) && s.open == [] && m.Free(begin) && |Reach(m, begin)| > 1
    ensures begin in Later(s, |s.pool|)
  {
    if Reach(m, begin) <= {begin} {
      SubsetSize(Reach(m, begin), {begin});
      assert false;
    }
    var c :| c in Reach(m, begin) && c != begin;
    var q :| m.Route(begin, c, q);
    FollowRoute(m, s, begin, end, c, q, 1);
    var i :| i in s.closed && s.pool[i].cell == q[1];
    ExpandedReaches(m, s, begin, end, i, begin);
  }

  lemma EmptyOpenCount(m: Map, s: State, begin: nat, end: nat)
    requires Inv(m, s, begin, end) && s.open == []
    ensures |s.pool| == Enough(m, begin)
  {
    NodesBound(m, s, begin, end);
    var later, reach := Later(s, |s.pool|), Reach(m, begin);
    LaterSize(s, |s.pool|);
    forall c | c in reach && c != begin
      ensures c in later
    {
      EveryCellSeen(m, s, begin, end, c);
    }
    if m.Free(begin) && |reach| > 1 {
      StartSeenAgain(m, s, begin, end);
      SubsetSize(reach, later);
    } else {
      SubsetSize(reach - {begin}, later);
    }
  }

  // ----- the number of nodes -----

  /** A search never needs more nodes than the reachable cells, counted as `Enough`
      does, and exactly that many when there is no route. */
  lemma NeededCount(m: Map, begin: nat, end: nat)
    requires m.Valid() && begin < m.Size() && end < m.Size()
    ensures 1 <= Needed(m, begin, end) <= Enough(m, begin) <= m.Size() + 1
    ensures !m.Reachable(begin, end) ==> Needed(m, begin, end) == Enough(m, begin)
  {
    StartInv(m, begin, end);
    var t := Finish(m, Start(m, begin, end), begin, end);
    NodesBound(m, t, begin, end);
    if t.open == [] {
      EmptyOpenCount(m, t, begin, end);
    } else {
      NodeReachable(m, t, begin, end, t.open[LastLeast(t, |t.open|)]);
    }
  }

  lemma AnswerIs(m: Map, begin: nat, end: nat)
    requires m.Valid() && begin < m.Size() && end < m.Size()
    ensures Inv(m, Start(m, begin, end), begin, end)
    ensures var t := Finish(m, Start(m, begin, end), begin, end);
      Lists(t) && Answer(m, begin, end) == if t.open == [] then [] else StoppedAt(t)
  {
    StartInv(m, begin, end);
    hide Inv;
  }

  /** There is an answer exactly when there is a route. */
  lemma AnswerIff(m: Map, begin: nat, end: nat)
    requires m.Valid() && begin < m.Size() && end < m.Size()
    ensures Answer(m, begin, end) != [] <==> m.Reachable(begin, end)
  {
    StartInv(m, begin, end);
    var t := Finish(m, Start(m, begin, end), begin, end);
    if t.open == [] {
      EmptyOpen(m, t, begin, end);
    } else {
      NodeReachable(m, t, begin, end, t.open[LastLeast(t, |t.open|)]);
    }
  }
}
