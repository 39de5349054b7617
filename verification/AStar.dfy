/** hs_astar_find_path, with its loops and its node allocator. */
module AStar {
  import opened Grid
  import opened Search
  import opened Demand
  import opened Walks

  const LIST_COUNT := 32      // _alloc_list_array_size
  const LIST_SIZE := 128      // _alloc_one_list_size
  const MAX_NODES := 4095

  class NodeAllocator {
    var curList: nat
    var curIndex: nat

    predicate Valid()
      reads this
    {
      curList < LIST_COUNT && curIndex <= LIST_SIZE && Used() <= MAX_NODES
    }

    function Used(): nat
      reads this
    {
      curList * LIST_SIZE + curIndex
    }

    constructor ()
      ensures Valid() && Used() == 0
    {
      curList, curIndex := 0, 0;
    }

    /** astar_node_alloc: null when it returns false. */
    method Alloc() returns (ok: bool)
      requires Valid()
      modifies this
      ensures Valid() && (ok <==> old(Used()) < 4095)
      ensures Used() == old(Used()) + if ok then 1 else 0
    {
      if curList >= LIST_COUNT - 1 && curIndex >= LIST_SIZE - 1 {
        return false;
      }
      if curIndex >= LIST_SIZE {
        curList := curList + 1;
        curIndex := 0;
      }
      curIndex := curIndex + 1;
      return true;
    }

    /** astar_node_allocator_recycle, after the first call. */
    method Recycle()
      modifies this
      ensures Valid() && Used() == 0
    {
      curIndex := 0;
      curList := 0;
    }
  }

  /** The last place in the open list with the least f; 0 stands for "none yet". */
  method GetMinFIndex(s: State) returns (k: nat)
    requires Lists(s) && s.open != []
    requires |s.open| == 1 || forall i | i in s.open :: s.pool[i].f > 0
    ensures IsLastLeast(s, k, |s.open|)
    ensures k == LastLeast(s, |s.open|) && Least(s, k)
  {
    assert forall j | 0 <= j < |s.open| :: s.open[j] in s.open && s.open[j] < |s.pool|;
    assert IsLastLeast(s, 0, 1);
    hide Lists, LastLeast, IsLastLeast;
    var i, f := 0, 0;
    k := 0;
    while i < |s.open|
      invariant 0 <= i <= |s.open| && 0 <= k < |s.open|
      invariant i == 0 ==> f == 0 && k == 0
      invariant i > 0 ==> IsLastLeast(s, k, i) && f == s.pool[s.open[k]].f
    {
      if i > 0 { LastLeastNext(s, k, i); }
      if f == 0 || f >= s.pool[s.open[i]].f {
        f := s.pool[s.open[i]].f;
        k := i;
      }
      i := i + 1;
    }
    LastLeastIs(s, k);
  }

  /** Scans one slot per closed node from the slot before the newest, which is
      empty, and so misses the oldest closed node. */
  method IsInClosed(s: State, cell: nat) returns (found: bool)
    requires Lists(s)
    ensures found <==> exists c | c in s.closed && c != 0 :: s.pool[c].cell == cell
  {
    var i, n := 0, |s.closed|;
    while i < n
      invariant 0 <= i <= n == |s.closed|
      invariant forall k | n - i < k < n :: s.pool[s.closed[k]].cell != cell
    {
      if i > 0 && s.pool[s.closed[n - i]].cell == cell {
        assert s.closed[n - i] in s.closed && s.closed[n - i] != s.closed[0];
        return true;
      }
      i := i + 1;
    }
    return false;
  }

  /** The first place of the cell in the open list, or -1. */
  method IsInOpen(s: State, cell: nat) returns (pos: int)
    requires Lists(s)
    ensures -1 <= pos < |s.open|
    ensures pos >= 0 ==> s.pool[s.open[pos]].cell == cell
    ensures pos < 0 <==> forall i | i in s.open :: s.pool[i].cell != cell
  {
    var i := 0;
    while i < |s.open|
      invariant 0 <= i <= |s.open|
      invariant forall j | 0 <= j < i :: s.pool[s.open[j]].cell != cell
    {
      if s.pool[s.open[i]].cell == cell {
        assert s.open[i] in s.open;
        return i;
      }
      i := i + 1;
    }
    return -1;
  }

  lemma BackAgain(cells: seq<nat>)
    ensures forall i | 0 <= i < |cells| :: cells[i] == Reverse(cells)[|cells| - 1 - i]
  {
  }

  /** Follows the parents from node id: the cells of a route, last one first. */
  method GetResultList(m: Map, s: State, begin: nat, end: nat, id: nat) returns (cells: seq<nat>)
    requires Sound(m, s, begin, end) && id < |s.pool|
    ensures |cells| == s.pool[id].g + 1
    ensures m.Route(begin, s.pool[id].cell, Reverse(cells))
    ensures cells == Trail(s.pool, id, s.pool[id].g)
  {
    TrailIsRoute(m, s, begin, end, id);
    hide Map.Route, Reverse;
    cells := [];
    var node: int := id;
    while node != NO_PARENT
      invariant NO_PARENT <= node < |s.pool|
      invariant node == NO_PARENT ==> cells == Trail(s.pool, id, s.pool[id].g)
      invariant node != NO_PARENT ==> cells + Trail(s.pool, node, s.pool[node].g) == Trail(s.pool, id, s.pool[id].g)
      decreases if node == NO_PARENT then 0 else s.pool[node].g + 1
    {
      assert NodeOk(m, s, begin, end, node);
      cells := cells + [s.pool[node].cell];
      node := s.pool[node].parent;
    }
  }

  datatype Outcome = NoPath | Path(cells: seq<nat>) | OutOfNodes

  predicate InGrid(m: Map, begin: int, end: int) {
    0 <= begin < m.Size() && 0 <= end < m.Size()
  }

  lemma OpenPositive(m: Map, s: State, begin: nat, end: nat)
    requires Inv(m, s, begin, end) && s.open != []
    ensures Lists(s) && |s.closed| < |s.pool|
    ensures |s.open| == 1 || forall i | i in s.open :: s.pool[i].f > 0
  {
    forall i | i in s.open && s.closed != []
      ensures s.pool[i].f > 0
    {
      assert NodeOk(m, s, begin, end, i);
    }
  }

  /** What the search does once the node taken stands for the target. */
  method FinishSearch(m: Map, ghost s: State, begin: nat, end: nat, ghost k: nat, t: State, cur: nat)
    returns (cells: seq<nat>)
    requires Inv(m, s, begin, end) && s.open != [] && k == LastLeast(s, |s.open|) && t == Take(s, k)
    requires cur == s.open[k] && s.pool[cur].cell == end
    requires Inv(m, Start(m, begin, end), begin, end) && Finish(m, Start(m, begin, end), begin, end) == s
    ensures m.Route(begin, end, Reverse(cells))
    ensures forall q | m.Route(begin, end, q) :: |cells| <= |q|
    ensures |cells| <= |s.pool|
    ensures cells == Answer(m, begin, end)
  {
    TakeSound(m, s, begin, end, k);
    cells := GetResultList(m, t, begin, end, cur);
    assert NodeOk(m, s, begin, end, cur);
    forall q | m.Route(begin, end, q)
      ensures |cells| <= |q|
    {
      LeastIsShortest(m, s, begin, end, k, q);
    }
  }

  lemma Taken(s: State, k: nat)
    requires k < |s.open|
    ensures Take(s, k).pool == s.pool && |Take(s, k).closed| == |s.closed| + 1
  {
  }

  lemma NeighbourInside(m: Map, s: State, begin: nat, end: nat, cur: nat, i: nat)
    requires Expanding(m, s, begin, end, cur, i)
    ensures m.Valid() && Lists(s) && cur < |s.pool| && s.pool[cur].g < |s.pool|
    ensures m.Neighbour(s.pool[cur].cell, i) < |m.arr|
  {
    assert cur in s.closed && NodeOk(m, s, begin, end, cur);
    if m.Neighbour(s.pool[cur].cell, i) >= 0 {
      m.NeighbourIsAdjacent(s.pool[cur].cell, i);
    }
  }

  /** Looks at one neighbour of the node being expanded as `Visit` says; false when
      that needs a node and the allocator has none. */
  method VisitNeighbour(m: Map, alloc: NodeAllocator, s: State, begin: nat, end: nat, cur: nat, i: nat)
    returns (ok: bool, t: State)
    requires Expanding(m, s, begin, end, cur, i) && alloc.Valid()
    modifies alloc
    ensures alloc.Valid()
    ensures ok ==> t == Visit(m, s, begin, end, cur, i)
    ensures ok ==> alloc.Used() - |t.pool| == old(alloc.Used()) - |s.pool|
    ensures !ok ==> alloc.Used() == MAX_NODES && old(alloc.Used()) == MAX_NODES
    ensures !ok ==> |Visit(m, s, begin, end, cur, i).pool| == |s.pool| + 1
  {
    NeighbourInside(m, s, begin, end, cur, i);
    hide Expanding, Visit;
    var cell := m.Neighbour(s.pool[cur].cell, i);
    if cell < 0 || !m.Free(cell) {
      VisitPasses(m, s, begin, end, cur, i);
      return true, s;
    }
    var closed := IsInClosed(s, cell);
    if closed {
      VisitPasses(m, s, begin, end, cur, i);
      return true, s;
    }
    var pos := IsInOpen(s, cell);
    if pos < 0 {
      VisitOpens(m, s, begin, end, cur, i);
      ok := alloc.Alloc();
      t := OpenNode(m, s, cell, end, cur);
    } else {
      VisitImproves(m, s, begin, end, cur, i, s.open[pos]);
      return true, Improve(m, s, s.open[pos], end, cur);
    }
  }

  /** Looks at the four neighbours of the node being expanded as `Expand` says;
      false when that needs more nodes than the allocator has. */
  method ExpandNode(m: Map, alloc: NodeAllocator, s: State, begin: nat, end: nat, cur: nat)
    returns (ok: bool, t: State)
    requires Expanding(m, s, begin, end, cur, 0) && alloc.Valid()
    modifies alloc
    ensures alloc.Valid()
    ensures ok ==> t == Expand(m, s, begin, end, cur, 0) && Inv(m, t, begin, end)
    ensures ok ==> alloc.Used() - |t.pool| == old(alloc.Used()) - |s.pool|
    ensures !ok ==> alloc.Used() == MAX_NODES
    ensures !ok ==> old(alloc.Used()) - |s.pool| + |Expand(m, s, begin, end, cur, 0).pool| > MAX_NODES
  {
    hide Visit, Expand, Expanding;
    ghost var last := Expand(m, s, begin, end, cur, 0);
    t := s;
    var i := 0;
    while i < 4
      invariant 0 <= i <= 4
      invariant Expanding(m, t, begin, end, cur, i) && Expand(m, t, begin, end, cur, i) == last
      invariant alloc.Valid() && alloc.Used() - |t.pool| == old(alloc.Used()) - |s.pool|
    {
      ExpandStep(m, t, begin, end, cur, i);
      ok, t := VisitNeighbour(m, alloc, t, begin, end, cur, i);
      if !ok {
        return false, t;
      }
      i := i + 1;
    }
    ExpandStop(m, t, begin, end, cur);
    return true, t;
  }

  /** The search between two cells of the grid. */
  method Run(m: Map, alloc: NodeAllocator, begin: nat, end: nat) returns (r: Outcome)
    requires m.Valid() && begin < m.Size() && end < m.Size() && alloc.Valid()
    modifies alloc
    ensures alloc.Valid()
    ensures r.Path? ==> m.Route(begin, end, Reverse(r.cells)) && |r.cells| <= Needed(m, begin, end)
    ensures r.Path? ==> forall q | m.Route(begin, end, q) :: |r.cells| <= |q|
    ensures r.Path? ==> r.cells == Answer(m, begin, end)
    ensures r == NoPath ==> !m.Reachable(begin, end)
    ensures r == OutOfNodes ==> old(alloc.Used()) + Needed(m, begin, end) > MAX_NODES == alloc.Used()
    ensures r != OutOfNodes ==> alloc.Used() == old(alloc.Used()) + Needed(m, begin, end)
  {
    NeededIs(m, begin, end);
    hide Take, Start, Visit, Expand, Expanding, Finish, Inv, Sound, Lists, LastLeast, Enough, Needed, Answer, StoppedAt;
    hide Map.Size, Map.Valid, Map.Route, Map.Reachable, Reverse, NodeAllocator.Used;
    ghost var used := alloc.Used();
    var ok := alloc.Alloc();
    if !ok {
      return OutOfNodes;
    }
    var s := Start(m, begin, end);
    ghost var last := Finish(m, s, begin, end);
    while true
      invariant Inv(m, s, begin, end) && Finish(m, s, begin, end) == last
      invariant alloc.Valid() && alloc.Used() == used + |s.pool|
      decreases MAX_NODES - |s.closed|
    {
      if |s.open| == 0 {
        EmptyOpen(m, s, begin, end);
        FinishStop(m, s, begin, end);
        return NoPath;
      }
      OpenPositive(m, s, begin, end);
      var k := GetMinFIndex(s);
      var cur := s.open[k];
      ghost var before := s;
      s := Take(s, k);
      Taken(before, k);
      if s.pool[cur].cell == end {
        FinishStop(m, before, begin, end);
        var cells := FinishSearch(m, before, begin, end, k, s, cur);
        return Path(cells);
      }
      FinishStep(m, before, begin, end, k);
      ok, s := ExpandNode(m, alloc, s, begin, end, cur);
      if !ok {
        return OutOfNodes;
      }
    }
  }

  /** The search returns a shortest route, last cell first, or -1 when an index is
      outside the grid or no route exists. It runs out of nodes exactly when fewer are
      left than it needs; with no route that is every cell it can reach, and one more
      when it can return to the start. */
  method FindPath(m: Map, alloc: NodeAllocator, begin: int, end: int) returns (r: Outcome)
    requires m.Valid() && alloc.Valid()
    modifies alloc
    ensures alloc.Valid()
    ensures !InGrid(m, begin, end) ==> r == NoPath && alloc.Used() == old(alloc.Used())
    ensures r.Path? ==> InGrid(m, begin, end) && m.Route(begin, end, Reverse(r.cells))
    ensures r.Path? ==> forall q | m.Route(begin, end, q) :: |r.cells| <= |q|
    ensures r.Path? ==> 0 < |r.cells| <= 4095 && r.cells == Answer(m, begin, end)
    ensures r.Path? ==> forall i | 0 <= i < |r.cells| - 1 :: r.cells[i] < |m.arr| && m.arr[r.cells[i]] != 1
    ensures r.Path? ==> Walk(m, begin, end, Reverse(r.cells))
    ensures InGrid(m, begin, end) && r == NoPath ==> forall q | Walk(m, begin, end, q) :: EntersWall(m, q)
    ensures InGrid(m, begin, end) && r == NoPath ==> !m.Reachable(begin, end)
    ensures InGrid(m, begin, end) ==>
      (r == OutOfNodes <==> old(alloc.Used()) + Needed(m, begin, end) > MAX_NODES)
    ensures InGrid(m, begin, end) && !m.Reachable(begin, end) ==>
      (r == OutOfNodes <==> old(alloc.Used()) + Enough(m, begin) > MAX_NODES)
    ensures InGrid(m, begin, end) && r != OutOfNodes ==>
      alloc.Used() == old(alloc.Used()) + Needed(m, begin, end)
    ensures r.Path? ==> alloc.Used() >= old(alloc.Used()) + |r.cells|
    ensures r == OutOfNodes ==> alloc.Used() == MAX_NODES
    ensures r == OutOfNodes ==> InGrid(m, begin, end) && old(alloc.Used()) + Enough(m, begin) > MAX_NODES
    ensures alloc.Used() <= old(alloc.Used()) + m.Size() + 1
  {
    if begin < 0 || end < 0 {
      return NoPath;
    }
    if begin >= m.width * m.height {
      return NoPath;
    }
    if end >= m.width * m.height {
      return NoPath;
    }
    NeededCount(m, begin, end);
    r := Run(m, alloc, begin, end);
    if r.Path? {
      RouteIff(m, begin, end, Reverse(r.cells));
      BackAgain(r.cells);
    } else {
      ReachableIff(m, begin, end);
    }
  }
}
