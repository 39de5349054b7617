/** A search with two shortest routes to choose from: which one is returned follows
    from the order of the neighbours and from taking the last of the least nodes. */
module Detour {
  import opened Grid
  import opened Search
  import opened Demand
  import opened Stepping
  import opened AStar

  /** Nine cells, the middle one blocked. */
  const RING := Map(3, 3, [0, 0, 0, 0, 1, 0, 0, 0, 0])

  const N0 := Node(3, 2, 0, 2, NO_PARENT)
  const N1 := Node(0, 4, 1, 3, 0)
  const N2 := Node(6, 4, 1, 3, 0)
  const N3 := Node(3, 4, 2, 2, 2)
  const N4 := Node(7, 4, 2, 2, 2)
  const N5 := Node(8, 4, 3, 1, 4)
  const N6 := Node(5, 4, 4, 0, 5)

  const S0 := State([N0], [0], [])
  const T0 := State([N0], [], [0])
  const U0 := State([N0, N1], [1], [0])
  const S1 := State([N0, N1, N2], [1, 2], [0])
  const T1 := State([N0, N1, N2], [1], [0, 2])
  const U1 := State([N0, N1, N2, N3], [1, 3], [0, 2])
  const S2 := State([N0, N1, N2, N3, N4], [1, 3, 4], [0, 2])
  const T2 := State([N0, N1, N2, N3, N4], [1, 3], [0, 2, 4])
  const S3 := State([N0, N1, N2, N3, N4, N5], [1, 3, 5], [0, 2, 4])
  const T3 := State([N0, N1, N2, N3, N4, N5], [1, 3], [0, 2, 4, 5])
  const S4 := State([N0, N1, N2, N3, N4, N5, N6], [1, 3, 6], [0, 2, 4, 5])

  lemma RingNeighbours(c: nat)
    requires c < 9
    ensures RING.Neighbour(c, 0) == if c >= 3 then c - 3 else -1
    ensures RING.Neighbour(c, 1) == if c < 6 then c + 3 else -1
    ensures RING.Neighbour(c, 2) == if c % 3 != 0 then c - 1 else -1
    ensures RING.Neighbour(c, 3) == if c % 3 != 2 then c + 1 else -1
  {
    hide Map.Neighbour;
    RING.AboveAndBelow(c);
    RING.LeftAndRight(c);
  }

  lemma RingDistances()
    ensures RING.Distance(3, 5) == RING.Distance(7, 5) == 2 && RING.Distance(8, 5) == 1
    ensures RING.Distance(0, 5) == RING.Distance(6, 5) == 3 && RING.Distance(5, 5) == 0
  {
    hide Map.X, Map.Y;
    RING.InsideIndex(0, 0);
    RING.InsideIndex(0, 1);
    RING.InsideIndex(2, 1);
    RING.InsideIndex(0, 2);
    RING.InsideIndex(1, 2);
    RING.InsideIndex(2, 2);
  }

  lemma FirstRound()
    ensures TakesNext(S0, 0) && Take(S0, 0) == T0
    ensures Goes(RING, T0, 5, 0, 0, U0) && Goes(RING, U0, 5, 0, 1, S1)
    ensures Goes(RING, S1, 5, 0, 2, S1) && Goes(RING, S1, 5, 0, 3, S1)
  {
    hide Lists, Map.Neighbour, Map.Distance;
    RingNeighbours(3);
    RingDistances();
  }

  lemma SecondRound()
    ensures TakesNext(S1, 1) && Take(S1, 1) == T1
    ensures Goes(RING, T1, 5, 2, 0, U1) && Goes(RING, U1, 5, 2, 1, U1)
    ensures Goes(RING, U1, 5, 2, 2, U1) && Goes(RING, U1, 5, 2, 3, S2)
  {
    hide Lists, Map.Neighbour, Map.Distance;
    RingNeighbours(6);
    RingDistances();
  }

  lemma ThirdRound()
    ensures TakesNext(S2, 2) && Take(S2, 2) == T2
    ensures Goes(RING, T2, 5, 4, 0, T2) && Goes(RING, T2, 5, 4, 1, T2)
    ensures Goes(RING, T2, 5, 4, 2, T2) && Goes(RING, T2, 5, 4, 3, S3)
  {
    hide Lists, Map.Neighbour, Map.Distance;
    RingNeighbours(7);
    RingDistances();
    assert 2 in T2.closed;
  }

  lemma FourthRound()
    ensures TakesNext(S3, 2) && Take(S3, 2) == T3 && TakesNext(S4, 2)
    ensures Goes(RING, T3, 5, 5, 0, S4) && Goes(RING, S4, 5, 5, 1, S4)
    ensures Goes(RING, S4, 5, 5, 2, S4) && Goes(RING, S4, 5, 5, 3, S4)
  {
    hide Lists, Map.Neighbour, Map.Distance;
    RingNeighbours(8);
    RingDistances();
    assert 4 in S4.closed;
  }

  lemma RingTrail()
    ensures Trail(S4.pool, 6, 4) == [5, 8, 7, 6, 3]
  {
    assert Trail(S4.pool, 2, 1) == [6, 3];
    assert Trail(S4.pool, 4, 2) == [7, 6, 3];
    assert Trail(S4.pool, 5, 3) == [8, 7, 6, 3];
  }

  lemma RingFinish(m: Map, begin: nat, end: nat, s0: State, s1: State, s2: State, s3: State, s4: State)
    requires m == RING && begin == 3 && end == 5 && Inv(m, s0, begin, end)
    requires s0 == S0 && s1 == S1 && s2 == S2 && s3 == S3 && s4 == S4
    ensures Inv(m, s4, begin, end) && Finish(m, s0, begin, end) == s4
    ensures Lists(s4) && StoppedAt(s4) == Trail(s4.pool, 6, 4)
  {
    FirstRound();
    SecondRound();
    ThirdRound();
    FourthRound();
    hide Sound, Inv, Lists, Goes, TakesNext, Take, Finish, Map.Neighbour, Map.Distance, Trail, StoppedAt;
    RoundIs(m, s0, begin, end, 0, T0, U0, s1, s1, s1);
    RoundIs(m, s1, begin, end, 1, T1, U1, U1, U1, s2);
    RoundIs(m, s2, begin, end, 2, T2, T2, T2, T2, s3);
    RoundIs(m, s3, begin, end, 2, T3, s4, s4, s4, s4);
    StopsAt(m, s4, begin, end, 2);
  }

  lemma RingStart(m: Map, begin: nat, end: nat)
    requires m == RING && begin == 3 && end == 5
    ensures m.Valid() && begin < m.Size() && end < m.Size() && Start(m, begin, end) == S0
  {
    RingDistances();
    hide Map.Distance;
  }

  lemma RingAnswer(m: Map, begin: nat, end: nat)
    requires m == RING && begin == 3 && end == 5
    ensures m.Valid() && begin < m.Size() && end < m.Size()
    ensures Answer(m, begin, end) == [5, 8, 7, 6, 3] && Needed(m, begin, end) == 7
    ensures m.Reachable(begin, end)
  {
    RingStart(m, begin, end);
    RingTrail();
    NeededIs(m, begin, end);
    AnswerIff(m, begin, end);
    AnswerIs(m, begin, end);
    hide Sound, Inv, Lists, Start, Finish, Trail, StoppedAt, Answer, Needed, Map.Distance, Map.Size, Map.Valid;
    RingFinish(m, begin, end, Start(m, begin, end), S1, S2, S3, S4);
  }

  method SearchRing(m: Map, begin: nat, end: nat, alloc: NodeAllocator) returns (r: Outcome)
    requires m == RING && begin == 3 && end == 5 && alloc.Valid() && alloc.Used() == 0
    modifies alloc
    ensures r == Path([5, 8, 7, 6, 3])
  {
    RingAnswer(m, begin, end);
    hide Answer, Needed, Enough, Map.Route, Map.Reachable, Map.Distance, Map.Neighbour, Reverse, Walks.Walk;
    r := FindPath(m, alloc, begin, end);
  }

  /** From the middle of the left side to the middle of the right side the search goes
      round by the bottom row. */
  method GoesRoundBelow() returns (r: Outcome)
    ensures r == Path([5, 8, 7, 6, 3])
  {
    var alloc := new NodeAllocator();
    r := SearchRing(RING, 3, 5, alloc);
  }
}
