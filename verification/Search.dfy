/** The state of one hs_astar_find_path call, what every step keeps, and why the
    first node taken for the target closes a shortest route. */
module Search {
  import opened Grid

  /** _astar_node; nodes are named by their place in the allocation order. */
  datatype Node = Node(cell: nat, f: nat, g: nat, h: nat, parent: int)

  const NO_PARENT := -1

  /** The nodes allocated so far, the open list, and the closed list, oldest first. */
  datatype State = State(pool: seq<Node>, open: seq<nat>, closed: seq<nat>)

  // ----- the steps -----

  function Start(m: Map, begin: nat, end: nat): State
    requires m.Valid()
  {
    State([NewNode(m, begin, 0, end, NO_PARENT)], [0], [])
  }

  function NewNode(m: Map, cell: nat, g: nat, end: nat, parent: int): Node
    requires m.Valid()
  {
    var h := m.Distance(cell, end);
    Node(cell, g + h, g, h, parent)
  }

  /** Moves the k-th open node to the closed list. */
  function Take(s: State, k: nat): State
    requires k < |s.open|
  {
    s.(open := s.open[..k] + s.open[k + 1..], closed := s.closed + [s.open[k]])
  }

  /** Opens a new node for `cell`, reached from node `cur`. */
  function OpenNode(m: Map, s: State, cell: nat, end: nat, cur: nat): State
    requires m.Valid() && cur < |s.pool|
  {
    State(s.pool + [NewNode(m, cell, s.pool[cur].g + 1, end, cur)], s.open + [|s.pool|], s.closed)
  }

  /** Lets open node `id` be reached from `cur` when that is shorter. */
  function Improve(m: Map, s: State, id: nat, end: nat, cur: nat): State
    requires m.Valid() && cur < |s.pool| && id < |s.pool|
  {
    if s.pool[id].g > s.pool[cur].g + 1 then
      s.(pool := s.pool[id := NewNode(m, s.pool[id].cell, s.pool[cur].g + 1, end, cur)])
    else s
  }

  /** A way that is not shorter changes nothing; a shorter one takes over, with the
      node being expanded as the parent. */
  lemma ImproveIff(m: Map, s: State, id: nat, end: nat, cur: nat)
    requires m.Valid() && cur < |s.pool| && id < |s.pool|
    ensures s.pool[id].g <= s.pool[cur].g + 1 ==> Improve(m, s, id, end, cur) == s
    ensures s.pool[id].g > s.pool[cur].g + 1 ==>
      var n := Improve(m, s, id, end, cur).pool[id];
      n.parent == cur && n.g == s.pool[cur].g + 1 && n.cell == s.pool[id].cell
  {
  }

  /** The cells of a node and of n nodes before it on its way. */
  function Trail(pool: seq<Node>, id: int, n: nat): seq<nat>
    decreases n
  {
    if id < 0 || id >= |pool| then []
    else if n == 0 then [pool[id].cell]
    else [pool[id].cell] + Trail(pool, pool[id].parent, n - 1)
  }

  // ----- the invariant -----

  /** Every node is on exactly one of the two lists, once; the first node is the
      first to be closed. */
  ghost predicate Lists(s: State) {
    && |s.pool| > 0 && |s.open| + |s.closed| == |s.pool|
    && (forall k | 0 <= k < |s.open| :: s.open[k] < |s.pool| && s.open[k] !in s.closed)
    && (forall j, k | 0 <= j < k < |s.open| :: s.open[j] != s.open[k])
    && (forall k | 0 <= k < |s.closed| :: s.closed[k] < |s.pool|)
    && (forall j, k | 0 <= j < k < |s.closed| :: s.closed[j] != s.closed[k])
    && (forall i | 0 <= i < |s.pool| :: i in s.open || i in s.closed)
    && (if s.closed == [] then s.open == [0] && |s.pool| == 1 else s.closed[0] == 0)
  }

  /** A node's numbers are right and its parent is a closed neighbour one step nearer. */
  ghost predicate NodeOk(m: Map, s: State, begin: nat, end: nat, i: nat)
    requires m.Valid() && i < |s.pool|
  {
    var n := s.pool[i];
    && n.cell < m.Size()
    && n.h == m.Distance(n.cell, end) && n.f == n.g + n.h && n.g < |s.pool|
    && if i == 0 then n.cell == begin && n.g == 0 && n.parent == NO_PARENT
       else
         && 0 <= n.parent < |s.pool| && (n.parent as nat) in s.closed
         && n.g == s.pool[n.parent].g + 1
         && s.pool[n.parent].cell < m.Size()
         && m.Adjacent(s.pool[n.parent].cell, n.cell) && m.Free(n.cell)
  }

  /** Only the first node's cell may have a second node. */
  ghost predicate CellsOnce(s: State) {
    forall i, j | 0 < i < j < |s.pool| :: s.pool[i].cell != s.pool[j].cell
  }

  /** No closed node looks farther than an open one. */
  ghost predicate Ordered(s: State)
    requires Lists(s)
  {
    forall c, o | c in s.closed && o in s.open :: s.pool[c].f <= s.pool[o].f
  }

  /** Some node after the first stands for `cell` with at most d steps. */
  ghost predicate Reached(s: State, cell: nat, d: int) {
    exists i | 0 < i < |s.pool| :: s.pool[i].cell == cell && s.pool[i].g <= d
  }

  /** The first `done` neighbours of closed node c have been looked at. */
  ghost predicate Expanded(m: Map, s: State, c: nat, done: nat)
    requires m.Valid() && c < |s.pool|
  {
    forall i | 0 <= i < done ::
      var d := m.Neighbour(s.pool[c].cell, i);
      d >= 0 && d < |m.arr| && m.Free(d) ==> Reached(s, d, s.pool[c].g + 1)
  }

  ghost predicate Sound(m: Map, s: State, begin: nat, end: nat) {
    && m.Valid() && begin < m.Size() && end < m.Size()
    && Lists(s)
    && (forall i | 0 <= i < |s.pool| :: NodeOk(m, s, begin, end, i))
    && CellsOnce(s)
    && Ordered(s)
  }

  /** What holds whenever the search is about to take a node. */
  ghost predicate Inv(m: Map, s: State, begin: nat, end: nat) {
    && Sound(m, s, begin, end)
    && forall c | c in s.closed :: Expanded(m, s, c, 4) && s.pool[c].cell != end
  }

  /** What holds while closed node `cur`, taken last, is being expanded. */
  ghost predicate Expanding(m: Map, s: State, begin: nat, end: nat, cur: nat, done: nat) {
    && Sound(m, s, begin, end)
    && s.closed != [] && cur == s.closed[|s.closed| - 1]
    && (forall c | c in s.closed :: s.pool[c].cell != end && s.pool[c].f <= s.pool[cur].f)
    && (forall c | c in s.closed && c != cur :: Expanded(m, s, c, 4))
    && Expanded(m, s, cur, done)
  }

  // ----- every step keeps it -----

  lemma StartInv(m: Map, begin: nat, end: nat)
    requires m.Valid() && begin < m.Size() && end < m.Size()
    ensures Inv(m, Start(m, begin, end), begin, end)
  {
  }

  /** k is a place in the open list whose node has the least f. */
  ghost predicate Least(s: State, k: nat)
    requires Lists(s)
  {
    k < |s.open| && forall j | 0 <= j < |s.open| :: s.pool[s.open[k]].f <= s.pool[s.open[j]].f
  }

  lemma TakeMembers(s: State, k: nat)
    requires k < |s.open| && forall i, j | 0 <= i < j < |s.open| :: s.open[i] != s.open[j]
    ensures forall i :: i in Take(s, k).open <==> i in s.open && i != s.open[k]
    ensures forall i :: i in Take(s, k).closed <==> i in s.closed || i == s.open[k]
  {
    var o := s.open;
    assert o == o[..k] + [o[k]] + o[k + 1..];
  }

  lemma TakeDistinct(s: State, k: nat)
    requires k < |s.open| && forall i, j | 0 <= i < j < |s.open| :: s.open[i] != s.open[j]
    ensures forall i, j | 0 <= i < j < |s.open| - 1 :: Take(s, k).open[i] != Take(s, k).open[j]
  {
    var t := Take(s, k);
    forall i, j | 0 <= i < j < |t.open|
      ensures t.open[i] != t.open[j]
    {
      assert t.open[i] == s.open[if i < k then i else i + 1];
      assert t.open[j] == s.open[if j < k then j else j + 1];
    }
  }

  lemma TakeLists(s: State, k: nat)
    requires Lists(s) && k < |s.open|
    ensures Lists(Take(s, k))
  {
    TakeMembers(s, k);
    TakeDistinct(s, k);
    var t := Take(s, k);
    forall j | 0 <= j < |t.open|
      ensures t.open[j] < |t.pool| && t.open[j] !in t.closed
    {
      assert t.open[j] in t.open;
      var i :| 0 <= i < |s.open| && s.open[i] == t.open[j];
    }
  }

  lemma TakeSound(m: Map, s: State, begin: nat, end: nat, k: nat)
    requires Sound(m, s, begin, end) && Lists(s) && Least(s, k)
    ensures Sound(m, Take(s, k), begin, end)
    ensures forall c | c in s.closed :: s.pool[c].f <= s.pool[s.open[k]].f
  {
    TakeLists(s, k);
    TakeMembers(s, k);
    var t := Take(s, k);
    assert s.open[k] in s.open;
    forall i | 0 <= i < |t.pool|
      ensures NodeOk(m, t, begin, end, i)
    {
      assert NodeOk(m, s, begin, end, i);
    }
  }

  lemma TakeExpanding(m: Map, s: State, begin: nat, end: nat, k: nat)
    requires Inv(m, s, begin, end) && Least(s, k) && s.pool[s.open[k]].cell != end
    ensures Expanding(m, Take(s, k), begin, end, s.open[k], 0)
  {
    TakeSound(m, s, begin, end, k);
    TakeMembers(s, k);
    var t := Take(s, k);
    forall c | c in t.closed && c != s.open[k]
      ensures Expanded(m, t, c, 4)
    {
      assert Expanded(m, s, c, 4);
    }
  }

  // ----- looking at one neighbour -----

  /** t may have more nodes than s and shorter ways to the open ones. */
  ghost predicate Refines(s: State, t: State) {
    && |s.pool| <= |t.pool|
    && t.closed == s.closed
    && (forall i | 0 <= i < |s.pool| :: t.pool[i].cell == s.pool[i].cell && t.pool[i].g <= s.pool[i].g)
    && (forall c | c in s.closed :: 0 <= c < |s.pool| && t.pool[c] == s.pool[c])
  }

  lemma ExpandedKept(m: Map, s: State, t: State, c: nat, done: nat)
    requires m.Valid() && Refines(s, t) && c in s.closed && c < |s.pool| && Expanded(m, s, c, done)
    ensures Expanded(m, t, c, done)
  {
    forall i | 0 <= i < done && m.Neighbour(t.pool[c].cell, i) >= 0
      ensures var d := m.Neighbour(t.pool[c].cell, i);
        d < |m.arr| && m.Free(d) ==> Reached(t, d, t.pool[c].g + 1)
    {
      var d := m.Neighbour(s.pool[c].cell, i);
      if d < |m.arr| && m.Free(d) {
        var k :| 0 < k < |s.pool| && s.pool[k].cell == d && s.pool[k].g <= s.pool[c].g + 1;
        assert t.pool[k].cell == d;
      }
    }
  }

  /** The neighbour that comes after `done` is outside, blocked, or reached. */
  ghost predicate LookedAt(m: Map, s: State, cur: nat, done: nat)
    requires m.Valid() && cur < |s.pool|
  {
    var d := m.Neighbour(s.pool[cur].cell, done);
    d >= 0 && d < |m.arr| && m.Free(d) ==> Reached(s, d, s.pool[cur].g + 1)
  }

  lemma Advance(m: Map, s: State, t: State, begin: nat, end: nat, cur: nat, done: nat)
    requires Expanding(m, s, begin, end, cur, done) && Refines(s, t) && Sound(m, t, begin, end)
    requires LookedAt(m, t, cur, done)
    ensures Expanding(m, t, begin, end, cur, done + 1)
  {
    assert cur in s.closed;
    forall c | c in t.closed
      ensures Expanded(m, t, c, if c == cur then done else 4)
    {
      ExpandedKept(m, s, t, c, if c == cur then done else 4);
    }
  }

  /** A closed node but the first, next to the one being expanded, is near enough already. */
  lemma ClosedIsNear(m: Map, s: State, begin: nat, end: nat, cur: nat, done: nat, c: nat)
    requires Expanding(m, s, begin, end, cur, done) && c in s.closed && c != 0
    requires m.Neighbour(s.pool[cur].cell, done) == s.pool[c].cell
    ensures LookedAt(m, s, cur, done)
  {
    assert cur in s.closed && NodeOk(m, s, begin, end, cur) && NodeOk(m, s, begin, end, c);
    m.NeighbourIsAdjacent(s.pool[cur].cell, done);
    m.StepChange(s.pool[cur].cell, s.pool[c].cell, end);
    assert s.pool[c].f <= s.pool[cur].f;
    assert s.pool[c].g <= s.pool[cur].g + 1;
  }

  /** No open node, and no closed node but the first, stands for the cell. */
  ghost predicate Unseen(s: State, cell: nat)
    requires Lists(s)
  {
    && (forall i | i in s.open :: s.pool[i].cell != cell)
    && (forall i | i in s.closed && i != 0 :: s.pool[i].cell != cell)
  }

  lemma OpenLists(m: Map, s: State, begin: nat, end: nat, cur: nat, cell: nat)
    requires Sound(m, s, begin, end) && cur in s.closed
    ensures cur < |s.pool| && Lists(OpenNode(m, s, cell, end, cur))
  {
    var t := OpenNode(m, s, cell, end, cur);
    assert |s.pool| !in s.closed && |s.pool| !in s.open;
    forall i | 0 <= i < |t.pool|
      ensures i in t.open || i in t.closed
    {
      if i == |s.pool| { assert t.open[|s.open|] == i; }
    }
  }

  lemma OpenSound(m: Map, s: State, begin: nat, end: nat, cur: nat, done: nat, cell: nat)
    requires Expanding(m, s, begin, end, cur, done)
    requires cell < |m.arr| && m.Free(cell) && Unseen(s, cell)
    requires m.Neighbour(s.pool[cur].cell, done) == cell
    ensures Sound(m, OpenNode(m, s, cell, end, cur), begin, end)
  {
    assert cur in s.closed && NodeOk(m, s, begin, end, cur);
    m.NeighbourIsAdjacent(s.pool[cur].cell, done);
    m.StepChange(s.pool[cur].cell, cell, end);
    OpenLists(m, s, begin, end, cur, cell);
    var t := OpenNode(m, s, cell, end, cur);
    forall i | 0 <= i < |t.pool|
      ensures NodeOk(m, t, begin, end, i)
    {
      if i < |s.pool| { assert NodeOk(m, s, begin, end, i); }
    }
    assert CellsOnce(t);
    assert Ordered(t);
  }

  lemma OpenExpanding(m: Map, s: State, begin: nat, end: nat, cur: nat, done: nat, cell: nat)
    requires Expanding(m, s, begin, end, cur, done)
    requires cell < |m.arr| && m.Free(cell) && Unseen(s, cell)
    requires m.Neighbour(s.pool[cur].cell, done) == cell
    ensures Expanding(m, OpenNode(m, s, cell, end, cur), begin, end, cur, done + 1)
  {
    OpenSound(m, s, begin, end, cur, done, cell);
    var t := OpenNode(m, s, cell, end, cur);
    assert t.pool[|s.pool|].cell == cell;
    Advance(m, s, t, begin, end, cur, done);
  }

  lemma ImproveNode(m: Map, s: State, begin: nat, end: nat, cur: nat, id: nat, i: nat)
    requires m.Valid() && cur in s.closed && cur < |s.pool| && 0 < id < |s.pool| && id !in s.closed
    requires s.pool[cur].g < |s.pool| && i < |s.pool| && NodeOk(m, s, begin, end, i)
    requires NodeOk(m, s, begin, end, id) && s.pool[cur].cell < m.Size()
    requires m.Adjacent(s.pool[cur].cell, s.pool[id].cell)
    ensures NodeOk(m, Improve(m, s, id, end, cur), begin, end, i)
  {
  }

  lemma ImproveShape(m: Map, s: State, end: nat, cur: nat, id: nat)
    requires m.Valid() && Lists(s) && CellsOnce(s) && cur < |s.pool| && id in s.open
    ensures id < |s.pool| && id !in s.closed
    ensures var t := Improve(m, s, id, end, cur); Lists(t) && CellsOnce(t) && Refines(s, t)
  {
  }

  lemma ImproveOrdered(m: Map, s: State, begin: nat, end: nat, cur: nat, id: nat)
    requires Sound(m, s, begin, end) && cur < |s.pool| && id in s.open && id !in s.closed
    requires forall c | c in s.closed :: s.pool[c].f <= s.pool[cur].f
    requires s.pool[cur].f <= s.pool[cur].g + 1 + m.Distance(s.pool[id].cell, end)
    requires Lists(Improve(m, s, id, end, cur))
    ensures Ordered(Improve(m, s, id, end, cur))
  {
  }

  lemma ImproveSound(m: Map, s: State, begin: nat, end: nat, cur: nat, done: nat, id: nat, cell: nat)
    requires Expanding(m, s, begin, end, cur, done) && id in s.open && s.pool[id].cell == cell
    requires cell < |m.arr| && m.Free(cell) && m.Neighbour(s.pool[cur].cell, done) == cell
    ensures Sound(m, Improve(m, s, id, end, cur), begin, end)
    ensures Refines(s, Improve(m, s, id, end, cur))
  {
    assert cur in s.closed && NodeOk(m, s, begin, end, cur);
    m.NeighbourIsAdjacent(s.pool[cur].cell, done);
    m.StepChange(s.pool[cur].cell, cell, end);
    ImproveShape(m, s, end, cur, id);
    ImproveOrdered(m, s, begin, end, cur, id);
    forall i | 0 <= i < |s.pool|
      ensures NodeOk(m, Improve(m, s, id, end, cur), begin, end, i)
    {
      ImproveNode(m, s, begin, end, cur, id, i);
    }
  }

  lemma ImproveExpanding(m: Map, s: State, begin: nat, end: nat, cur: nat, done: nat, id: nat, cell: nat)
    requires Expanding(m, s, begin, end, cur, done) && id in s.open && s.pool[id].cell == cell
    requires cell < |m.arr| && m.Free(cell) && m.Neighbour(s.pool[cur].cell, done) == cell
    ensures Expanding(m, Improve(m, s, id, end, cur), begin, end, cur, done + 1)
  {
    ImproveSound(m, s, begin, end, cur, done, id, cell);
    var t := Improve(m, s, id, end, cur);
    assert cur in s.closed;
    assert t.pool[id].g <= t.pool[cur].g + 1;
    Advance(m, s, t, begin, end, cur, done);
  }

  lemma DoneExpanding(m: Map, s: State, begin: nat, end: nat, cur: nat)
    requires Expanding(m, s, begin, end, cur, 4)
    ensures Inv(m, s, begin, end)
  {
  }

  // ----- why the search is right -----

  lemma ExpandedReaches(m: Map, s: State, begin: nat, end: nat, c: nat, d: nat)
    requires Inv(m, s, begin, end) && c in s.closed && d < m.Size()
    requires m.Adjacent(s.pool[c].cell, d) && m.Free(d)
    ensures Reached(s, d, s.pool[c].g + 1)
  {
    assert Expanded(m, s, c, 4) && NodeOk(m, s, begin, end, c);
    var i := m.AdjacentIsNeighbour(s.pool[c].cell, d);
  }

  /** Some node on the route is open, with at most as many steps as the route
      has taken to it. */
  ghost predicate Frontier(s: State, q: seq<nat>)
    requires Lists(s)
  {
    exists i, o | 0 <= i < |q| && o in s.open :: s.pool[o].cell == q[i] && s.pool[o].g <= i
  }

  lemma {:induction false} FollowRoute(m: Map, s: State, begin: nat, end: nat, to: nat, q: seq<nat>, i: nat)
    requires Inv(m, s, begin, end) && m.Route(begin, to, q) && i < |q|
    ensures Frontier(s, q) || exists c | c in s.closed :: s.pool[c].cell == q[i] && s.pool[c].g <= i
  {
    if i == 0 {
      assert NodeOk(m, s, begin, end, 0);
    } else {
      FollowRoute(m, s, begin, end, to, q, i - 1);
      if !Frontier(s, q) {
        var c :| c in s.closed && s.pool[c].cell == q[i - 1] && s.pool[c].g <= i - 1;
        ExpandedReaches(m, s, begin, end, c, q[i]);
        var k :| 0 < k < |s.pool| && s.pool[k].cell == q[i] && s.pool[k].g <= s.pool[c].g + 1;
        assert k in s.closed;
      }
    }
  }

  /** While the target is not closed, every route has an open node on it, which
      looks no farther than the route is long. */
  lemma RouteIsOpen(m: Map, s: State, begin: nat, end: nat, q: seq<nat>) returns (o: nat)
    requires Inv(m, s, begin, end) && m.Route(begin, end, q)
    ensures o in s.open && s.pool[o].f <= |q| - 1
  {
    FollowRoute(m, s, begin, end, end, q, |q| - 1);
    assert Frontier(s, q);
    var i, n :| 0 <= i < |q| && n in s.open && s.pool[n].cell == q[i] && s.pool[n].g <= i;
    assert NodeOk(m, s, begin, end, n);
    m.Admissible(begin, end, q, i);
    o := n;
  }

  /** A least open node that stands for the target is as near as any route. */
  lemma LeastIsShortest(m: Map, s: State, begin: nat, end: nat, k: nat, q: seq<nat>)
    requires Inv(m, s, begin, end) && Least(s, k) && m.Route(begin, end, q)
    ensures s.pool[s.open[k]].f <= |q| - 1
  {
    var o := RouteIsOpen(m, s, begin, end, q);
    var j :| 0 <= j < |s.open| && s.open[j] == o;
  }

  lemma EmptyOpen(m: Map, s: State, begin: nat, end: nat)
    requires Inv(m, s, begin, end) && s.open == []
    ensures !m.Reachable(begin, end)
  {
    if q :| m.Route(begin, end, q) {
      var o := RouteIsOpen(m, s, begin, end, q);
      assert false;
    }
  }

  // ----- the way to a node -----

  function Reverse(cells: seq<nat>): (r: seq<nat>)
    ensures |r| == |cells|
    ensures forall i | 0 <= i < |cells| :: r[i] == cells[|cells| - 1 - i]
  {
    seq(|cells|, i requires 0 <= i < |cells| => cells[|cells| - 1 - i])
  }

  lemma RouteStep(m: Map, begin: nat, q: seq<nat>, c: nat, d: nat)
    requires m.Valid() && m.Route(begin, c, q) && d < m.Size() && m.Adjacent(c, d) && m.Free(d)
    ensures m.Route(begin, d, q + [d])
  {
  }

  lemma StartRoute(m: Map, begin: nat)
    requires m.Valid() && begin < m.Size()
    ensures m.Route(begin, begin, Reverse([begin]))
  {
  }

  lemma BackwardStep(m: Map, begin: nat, cells: seq<nat>, c: nat, d: nat)
    requires m.Valid() && m.Route(begin, c, Reverse(cells)) && d < m.Size() && m.Adjacent(c, d) && m.Free(d)
    ensures m.Route(begin, d, Reverse([d] + cells))
  {
    RouteStep(m, begin, Reverse(cells), c, d);
    assert Reverse([d] + cells) == Reverse(cells) + [d];
  }

  lemma ParentOf(m: Map, s: State, begin: nat, end: nat, id: nat)
    requires Sound(m, s, begin, end) && id < |s.pool|
    ensures var n := s.pool[id];
      && n.cell < m.Size()
      && (id == 0 ==> n.cell == begin && n.g == 0)
      && (id != 0 ==>
            && 0 <= n.parent < |s.pool| && n.g == s.pool[n.parent].g + 1
            && m.Adjacent(s.pool[n.parent].cell, n.cell) && m.Free(n.cell))
  {
    assert NodeOk(m, s, begin, end, id);
  }

  /** The parents of a node lead back to the start along a route of g + 1 cells. */
  lemma {:induction false} TrailIsRoute(m: Map, s: State, begin: nat, end: nat, id: nat)
    requires Sound(m, s, begin, end) && id < |s.pool|
    ensures var n := s.pool[id];
      var cells := Trail(s.pool, id, n.g);
      |cells| == n.g + 1 && m.Route(begin, n.cell, Reverse(cells))
    decreases s.pool[id].g
  {
    assert m.Valid() && begin < m.Size();
    hide Sound, Reverse, Map.Route, Map.Adjacent, Map.Free, Map.Size, Map.Valid;
    ParentOf(m, s, begin, end, id);
    if id == 0 {
      StartRoute(m, begin);
    } else {
      var p: nat := s.pool[id].parent;
      TrailIsRoute(m, s, begin, end, p);
      BackwardStep(m, begin, Trail(s.pool, p, s.pool[p].g), s.pool[p].cell, s.pool[id].cell);
    }
  }
}
