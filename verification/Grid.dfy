/** The grid that hs_astar searches: cells by index, their coordinates, steps
    between them, and routes. */
module Grid {
  datatype Map = Map(width: nat, height: nat, arr: seq<int>) {
    /** What hs_astar_load_data leaves behind. */
    predicate Valid() {
      0 < width <= 128 && 0 < height <= 128 && |arr| == Size()
    }

    function Size(): nat {
      width * height
    }

    function X(c: nat): int
      requires width > 0
    {
      c - c / width * width
    }

    function Y(c: nat): int
      requires width > 0
    {
      c / width
    }

    /** hs_coord2index: -1 outside the grid. */
    function Index(x: int, y: int): int {
      if 0 <= x < width && 0 <= y < height then y * width + x else -1
    }

    /** is_blocked, negated, for a cell inside the grid. */
    predicate Free(c: nat)
      requires c < |arr|
    {
      arr[c] != 1
    }

    /** calc_hvalue: the Manhattan distance. */
    function Distance(a: nat, b: nat): nat
      requires width > 0
    {
      Abs(X(a) - X(b)) + Abs(Y(a) - Y(b))
    }

    predicate Adjacent(a: nat, b: nat)
      requires width > 0
    {
      Distance(a, b) == 1
    }

    lemma Inside(c: nat)
      requires Valid() && c < Size()
      ensures 0 <= X(c) < width && 0 <= Y(c) < height && Index(X(c), Y(c)) == c
    {
      Quotients(c, width, height);
    }

    lemma InsideIndex(x: int, y: int)
      requires Valid() && 0 <= x < width && 0 <= y < height
      ensures 0 <= Index(x, y) < Size() && X(Index(x, y)) == x && Y(Index(x, y)) == y
    {
      Quotient(y, x, width);
      Times(height, y + 1, width);
    }

    /** A step changes the distance to any cell by at most one. */
    lemma StepChange(a: nat, b: nat, e: nat)
      requires width > 0 && Adjacent(a, b)
      ensures Distance(a, e) <= Distance(b, e) + 1
      ensures Distance(b, e) <= Distance(a, e) + 1
    {
    }

    /** The i-th neighbour, in the order of the search: up, down, left, right. */
    function Neighbour(c: nat, i: nat): int
      requires width > 0
    {
      if i == 0 then Index(X(c), Y(c) - 1)
      else if i == 1 then Index(X(c), Y(c) + 1)
      else if i == 2 then Index(X(c) - 1, Y(c))
      else Index(X(c) + 1, Y(c))
    }

    /** The cell above and the cell below, in terms of the index alone. */
    lemma AboveAndBelow(c: nat)
      requires Valid() && c < Size()
      ensures Neighbour(c, 0) == if c >= width then c - width else -1
      ensures Neighbour(c, 1) == if c + width < width * height then c + width else -1
    {
      Inside(c);
      Rows(X(c), Y(c), width, height);
    }

    /** The cells to the left and to the right, in terms of the index alone. */
    lemma LeftAndRight(c: nat)
      requires Valid() && c < Size()
      ensures Neighbour(c, 2) == if c % width != 0 then c - 1 else -1
      ensures Neighbour(c, 3) == if (c + 1) % width != 0 then c + 1 else -1
    {
      Inside(c);
      var x, y := X(c), Y(c);
      Quotient(y, x, width);
      Distributes(y, 1, width);
      if x + 1 < width { Quotient(y, x + 1, width); } else { Quotient(y + 1, 0, width); }
    }

    lemma NeighbourIsAdjacent(c: nat, i: nat)
      requires Valid() && c < Size() && Neighbour(c, i) >= 0
      ensures Neighbour(c, i) < Size() && Adjacent(c, Neighbour(c, i))
    {
      Inside(c);
      var x, y := X(c), Y(c);
      if i == 0 { InsideIndex(x, y - 1); }
      else if i == 1 { InsideIndex(x, y + 1); }
      else if i == 2 { InsideIndex(x - 1, y); }
      else { InsideIndex(x + 1, y); }
    }

    lemma AdjacentIsNeighbour(c: nat, d: nat) returns (i: nat)
      requires Valid() && c < Size() && d < Size() && Adjacent(c, d)
      ensures i < 4 && Neighbour(c, i) == d
    {
      Inside(c);
      Inside(d);
      i := if Y(d) < Y(c) then 0 else if Y(d) > Y(c) then 1 else if X(d) < X(c) then 2 else 3;
    }

    /** A walk from begin to end that enters free cells only. */
    ghost predicate Route(begin: nat, end: nat, q: seq<nat>)
      requires Valid()
    {
      && |q| > 0 && q[0] == begin && q[|q| - 1] == end
      && (forall i | 0 <= i < |q| :: q[i] < Size())
      && (forall i | 0 < i < |q| :: Adjacent(q[i - 1], q[i]) && Free(q[i]))
    }

    ghost predicate Reachable(begin: nat, end: nat)
      requires Valid()
    {
      exists q :: Route(begin, end, q)
    }

    /** The heuristic never exceeds the number of steps that remain on a route. */
    lemma {:induction false} Admissible(begin: nat, end: nat, q: seq<nat>, i: nat)
      requires Valid() && Route(begin, end, q) && i < |q|
      ensures Distance(q[i], end) <= |q| - 1 - i
      decreases |q| - i
    {
      if i == |q| - 1 {
      } else {
        Admissible(begin, end, q, i + 1);
        StepChange(q[i], q[i + 1], end);
      }
    }
  }

  function Abs(n: int): nat {
    if n < 0 then -n else n
  }

  lemma Times(a: int, b: int, w: nat)
    requires a >= b
    ensures a * w >= b * w
  {
    assert (a - b) * w >= 0;
  }

  lemma Distributes(a: int, b: int, w: int)
    ensures (a + b) * w == a * w + b * w
  {
  }

  /** Column x of row y, the rows above and below it, and the first and last row. */
  lemma Rows(x: int, y: int, w: nat, h: nat)
    requires 0 <= x < w && 0 <= y < h
    ensures (y - 1) * w + x == y * w + x - w
    ensures (y + 1) * w + x == y * w + x + w
    ensures y * w + x >= w <==> y > 0
    ensures y * w + x + w < w * h <==> y + 1 < h
  {
    Distributes(y, 1, w);
    Distributes(y, -1, w);
    Distributes(y, 2, w);
    if y > 0 {
      Times(y, 1, w);
    }
    if y + 1 < h {
      Times(h, y + 2, w);
    }
  }

  lemma Quotients(c: nat, w: nat, h: nat)
    requires 0 < w && c < w * h
    ensures 0 <= c - c / w * w < w && 0 <= c / w < h
  {
    assert c == c / w * w + c % w;
    if c / w >= h {
      Times(c / w, h, w);
    }
  }

  lemma Quotient(q: int, r: int, w: nat)
    requires 0 <= r < w
    ensures (q * w + r) / w == q && (q * w + r) % w == r
  {
    var k, m := (q * w + r) / w, (q * w + r) % w;
    assert k * w + m == q * w + r;
    if k > q {
      Times(k, q + 1, w);
    } else if k < q {
      Times(q, k + 1, w);
    }
  }
}
