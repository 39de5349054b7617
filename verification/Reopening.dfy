/** A search that opens its start twice and needs one node more than there are cells. */
module Reopening {
  import opened Grid
  import opened Search
  import opened Demand
  import opened Stepping
  import opened AStar

  const ROW := Map(3, 1, [0, 0, 0])

  const S0 := State([Node(0, 2, 0, 2, NO_PARENT)], [0], [])
  const S1 := State([Node(0, 2, 0, 2, NO_PARENT), Node(1, 2, 1, 1, 0)], [1], [0])
  const S2 := State([Node(0, 2, 0, 2, NO_PARENT), Node(1, 2, 1, 1, 0), Node(0, 4, 2, 2, 1), Node(2, 2, 2, 0, 1)],
                    [2, 3], [0, 1])

  const T0 := State(S0.pool, [], [0])
  const T1 := State(S1.pool, [], [0, 1])
  const U1 := State(S1.pool + [Node(0, 4, 2, 2, 1)], [2], [0, 1])

  lemma RowNeighbours()
    ensures ROW.Neighbour(0, 0) == ROW.Neighbour(0, 1) == ROW.Neighbour(0, 2) == -1
    ensures ROW.Neighbour(0, 3) == 1
    ensures ROW.Neighbour(1, 0) == ROW.Neighbour(1, 1) == -1
    ensures ROW.Neighbour(1, 2) == 0 && ROW.Neighbour(1, 3) == 2
    ensures ROW.Distance(0, 2) == 2 && ROW.Distance(1, 2) == 1 && ROW.Distance(2, 2) == 0
  {
    hide Map.X, Map.Y;
    ROW.InsideIndex(0, 0);
    ROW.InsideIndex(1, 0);
    ROW.InsideIndex(2, 0);
  }

  lemma FirstRound()
    ensures TakesNext(S0, 0) && Take(S0, 0) == T0
    ensures Goes(ROW, T0, 2, 0, 0, T0) && Goes(ROW, T0, 2, 0, 1, T0) && Goes(ROW, T0, 2, 0, 2, T0)
    ensures Goes(ROW, T0, 2, 0, 3, S1)
  {
    hide Lists, Map.Neighbour, Map.Distance;
    RowNeighbours();
  }

  lemma SecondRound()
    ensures TakesNext(S1, 0) && Take(S1, 0) == T1
    ensures Goes(ROW, T1, 2, 1, 0, T1) && Goes(ROW, T1, 2, 1, 1, T1) && Goes(ROW, T1, 2, 1, 2, U1)
  {
    hide Lists, Map.Neighbour, Map.Distance;
    RowNeighbours();
  }

  lemma SecondRoundEnds()
    ensures Goes(ROW, U1, 2, 1, 3, S2) && TakesNext(S2, 1)
  {
    hide Lists, Map.Neighbour, Map.Distance;
    RowNeighbours();
  }

  /** On three free cells in a row the search from the first to the last needs four
      nodes, one more than there are cells; the third is the start again. */
  lemma StartOpensTwice(m: Map)
    requires m == Map(3, 1, [0, 0, 0])
    ensures Needed(m, 0, 2) == 4 == m.Size() + 1
    ensures var s := Start(m, 0, 2); Inv(m, s, 0, 2) && Finish(m, s, 0, 2) == S2
  {
    hide Sound, Inv, Goes, TakesNext, Take, Finish, Map.Neighbour, Map.Distance;
    RowNeighbours();
    StartInv(m, 0, 2);
    FirstRound();
    SecondRound();
    SecondRoundEnds();
    var s, t := Start(m, 0, 2), S1;
    RoundIs(m, s, 0, 2, 0, T0, T0, T0, T0, t);
    RoundIs(m, t, 0, 2, 0, T1, T1, T1, U1, S2);
    StopsAt(m, S2, 0, 2, 1);
  }

  lemma RowRoute(m: Map)
    requires m == Map(3, 1, [0, 0, 0])
    ensures m.Reachable(0, 2)
  {
    hide Map.X, Map.Y;
    m.InsideIndex(0, 0);
    m.InsideIndex(1, 0);
    m.InsideIndex(2, 0);
    assert m.Route(0, 2, [0, 1, 2]);
  }

  method SearchRow(m: Map, alloc: NodeAllocator) returns (r: Outcome)
    requires m == ROW && alloc.Valid()
    modifies alloc
    ensures alloc.Valid()
    ensures old(alloc.Used()) + 4 <= MAX_NODES ==> r.Path? && alloc.Used() == old(alloc.Used()) + 4
    ensures old(alloc.Used()) + 4 > MAX_NODES ==> r == OutOfNodes
  {
    StartOpensTwice(m);
    RowRoute(m);
    hide Needed, Finish, Enough, Map.Route, Map.Reachable, Map.Distance, Map.Neighbour, Reverse;
    r := FindPath(m, alloc, 0, 2);
  }

  /** The nodes of a search are given back only when the grid is loaded again or
      recycled: from a new allocator 1023 searches of the row find the path, and the
      next one finds no node. */
  method RunsOut() returns (results: seq<Outcome>)
    ensures |results| == 1024 && results[1023] == OutOfNodes
    ensures forall i | 0 <= i < 1023 :: results[i].Path?
  {
    var alloc := new NodeAllocator();
    results := [];
    while |results| < 1023
      invariant |results| <= 1023 && alloc.Valid() && fresh(alloc)
      invariant alloc.Used() == 4 * |results|
      invariant forall i | 0 <= i < |results| :: results[i].Path?
    {
      var r := SearchRow(ROW, alloc);
      results := results + [r];
    }
    var last := SearchRow(ROW, alloc);
    results := results + [last];
  }
}
