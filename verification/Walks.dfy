/** Routes of the grid in terms of the array and of index arithmetic alone. */
module Walks {
  import opened Grid

  /** Cells of a grid w wide that touch: one above the other, or side by side in a row. */
  predicate Beside(w: nat, a: nat, b: nat)
    requires w > 0
  {
    b == a + w || a == b + w || (b == a + 1 && b % w != 0) || (a == b + 1 && a % w != 0)
  }

  /** A walk from begin to end inside the grid, through walls or not. */
  ghost predicate Walk(m: Map, begin: nat, end: nat, q: seq<nat>)
    requires m.width > 0
  {
    && |q| > 0 && q[0] == begin && q[|q| - 1] == end
    && (forall i | 0 <= i < |q| :: q[i] < m.width * m.height)
    && (forall i | 0 < i < |q| :: Beside(m.width, q[i - 1], q[i]))
  }

  lemma AdjacentIffBeside(m: Map, a: nat, b: nat)
    requires m.Valid() && a < m.Size() && b < m.Size()
    ensures m.Adjacent(a, b) <==> Beside(m.width, a, b)
  {
    m.AboveAndBelow(a);
    m.LeftAndRight(a);
    if m.Adjacent(a, b) {
      var i := m.AdjacentIsNeighbour(a, b);
    } else {
      forall i: nat | i < 4 && m.Neighbour(a, i) >= 0
        ensures m.Neighbour(a, i) != b
      {
        m.NeighbourIsAdjacent(a, i);
      }
    }
  }

  /** A cell of the walk other than its first has the entry 1 in the array. */
  ghost predicate EntersWall(m: Map, q: seq<nat>) {
    exists i | 0 < i < |q| :: q[i] < |m.arr| && m.arr[q[i]] == 1
  }

  lemma RouteIff(m: Map, begin: nat, end: nat, q: seq<nat>)
    requires m.Valid()
    ensures m.Route(begin, end, q) <==> Walk(m, begin, end, q) && !EntersWall(m, q)
    ensures m.Route(begin, end, q) ==> forall i | 0 < i < |q| :: q[i] < |m.arr| && m.arr[q[i]] != 1
  {
    forall i | 0 < i < |q| && q[i - 1] < m.Size() && q[i] < m.Size()
      ensures m.Adjacent(q[i - 1], q[i]) <==> Beside(m.width, q[i - 1], q[i])
    {
      AdjacentIffBeside(m, q[i - 1], q[i]);
    }
  }

  /** A cell cannot be reached exactly when every walk to it enters a wall. */
  lemma ReachableIff(m: Map, begin: nat, end: nat)
    requires m.Valid()
    ensures !m.Reachable(begin, end) <==> forall q | Walk(m, begin, end, q) :: EntersWall(m, q)
  {
    forall q: seq<nat>
      ensures m.Route(begin, end, q) <==> Walk(m, begin, end, q) && !EntersWall(m, q)
    {
      RouteIff(m, begin, end, q);
    }
  }

  // ----- the estimate is attained -----

  /** One step towards b. */
  lemma Closer(m: Map, a: nat, b: nat) returns (n: nat)
    requires m.Valid() && a < m.Size() && b < m.Size() && a != b
    ensures n < m.Size() && m.Adjacent(a, n) && m.Distance(n, b) == m.Distance(a, b) - 1
  {
    m.Inside(a);
    m.Inside(b);
    var x, y := m.X(a), m.Y(a);
    if x != m.X(b) {
      x := if x < m.X(b) then x + 1 else x - 1;
    } else {
      y := if y < m.Y(b) then y + 1 else y - 1;
    }
    m.InsideIndex(x, y);
    n := m.Index(x, y);
  }

  /** On a grid without walls some route is exactly as long as the estimate says. */
  lemma {:induction false} Attained(m: Map, a: nat, b: nat) returns (q: seq<nat>)
    requires m.Valid() && a < m.Size() && b < m.Size()
    requires forall c | 0 <= c < |m.arr| :: m.arr[c] != 1
    ensures m.Route(a, b, q) && |q| == m.Distance(a, b) + 1
    decreases m.Distance(a, b)
  {
    if a == b {
      q := [a];
    } else {
      var n := Closer(m, a, b);
      var rest := Attained(m, n, b);
      q := [a] + rest;
      hide Map.Distance, Map.Adjacent;
      assert q[|q| - 1] == rest[|rest| - 1];
    }
  }

  /** So on such a grid the estimate is the length of a shortest route. */
  lemma EstimateIsShortest(m: Map, a: nat, b: nat, d: nat)
    requires m.Valid() && a < m.Size() && b < m.Size()
    requires forall c | 0 <= c < |m.arr| :: m.arr[c] != 1
    ensures m.Distance(a, b) == d <==>
      (exists q :: m.Route(a, b, q) && |q| == d + 1) && forall q | m.Route(a, b, q) :: |q| >= d + 1
  {
    var s := Attained(m, a, b);
    forall q | m.Route(a, b, q)
      ensures |q| >= m.Distance(a, b) + 1
    {
      m.Admissible(a, b, q, 0);
    }
  }
}
