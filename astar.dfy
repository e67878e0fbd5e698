/**
 * Grid A* search from AStarSearch.py: four-way moves on a `width` x `height`
 * grid with no obstacles, the Manhattan distance to the goal as heuristic,
 * an open list popped by least `f`, and a closed set of expanded positions.
 */
module AStar {
  import opened Wrappers

  /** A grid position, the tuple `(x, y)`. */
  datatype Pos = Pos(x: int, y: int)

  /**
   * A search node. The source creates a node with `g = h = f = 0` and sets
   * its fields once before the node is pushed; the model builds the node
   * with its final fields, and `parent` holds the parent node itself.
   */
  datatype Node = Node(position: Pos, parent: Option<Node>, g: int, h: int, f: int)

  function Abs(a: int): nat
  {
    if a < 0 then -a else a
  }

  /** The Manhattan distance: the number of grid steps between two positions when no cell is blocked. */
  function Manhattan(p: Pos, q: Pos): nat
  {
    Abs(p.x - q.x) + Abs(p.y - q.y)
  }

  /** One grid step apart. */
  predicate Adjacent(p: Pos, q: Pos)
  {
    Manhattan(p, q) == 1
  }

  predicate InGrid(p: Pos, width: int, height: int)
  {
    0 <= p.x < width && 0 <= p.y < height
  }

  /** The four moves, in the order `get_neighbors` tries them. */
  const Moves: seq<Pos> := [Pos(0, 1), Pos(1, 0), Pos(0, -1), Pos(-1, 0)]

  function Shift(p: Pos, d: Pos): Pos
  {
    Pos(p.x + d.x, p.y + d.y)
  }

  /** Which of `Moves` leads from `p` to `q`: 0 to 3, or 4 when none does. */
  function MoveIndex(p: Pos, q: Pos): int
  {
    if q == Shift(p, Moves[0]) then 0
    else if q == Shift(p, Moves[1]) then 1
    else if q == Shift(p, Moves[2]) then 2
    else if q == Shift(p, Moves[3]) then 3
    else 4
  }

  /** The positions one step away are exactly the four moves. */
  lemma AdjacentIsMove(p: Pos, q: Pos)
    ensures Adjacent(p, q) <==> exists j :: 0 <= j < 4 && q == Shift(p, Moves[j])
  {
    if Adjacent(p, q) {
      var d := Pos(q.x - p.x, q.y - p.y);
      assert q == Shift(p, d);
      assert d == Moves[0] || d == Moves[1] || d == Moves[2] || d == Moves[3];
    }
    forall j | 0 <= j < 4
      ensures Adjacent(p, Shift(p, Moves[j]))
    {
      assert j == 0 || j == 1 || j == 2 || j == 3;
    }
  }

  /** The positions `reconstruct_path` collects: the parent chain, root first. */
  function PathTo(n: Node): seq<Pos>
  {
    match n.parent
    case None => [n.position]
    case Some(p) => PathTo(p) + [n.position]
  }

  /** The number of nodes on the parent chain, `n` included. */
  function ChainLength(n: Node): nat
  {
    match n.parent
    case None => 1
    case Some(p) => ChainLength(p) + 1
  }

  /** The path of a node ends at the node and has one position per node of its chain. */
  lemma {:induction false} PathToShape(n: Node)
    ensures |PathTo(n)| == ChainLength(n)
    ensures PathTo(n)[|PathTo(n)| - 1] == n.position
  {
    match n.parent
    case None =>
    case Some(p) =>
      PathToShape(p);
  }

  /** The elements of a sequence in the opposite order. */
  function Reverse<T>(s: seq<T>): seq<T>
  {
    if s == [] then [] else Reverse(s[1..]) + [s[0]]
  }

  /** Appending at the end, then reversing, puts the new element first. */
  lemma {:induction false} ReverseSnoc<T>(s: seq<T>, x: T)
    ensures Reverse(s + [x]) == [x] + Reverse(s)
    decreases |s|
  {
    if s == [] {
      assert Reverse([x]) == Reverse([x][1..]) + [x];
    } else {
      assert (s + [x])[1..] == s[1..] + [x];
      ReverseSnoc(s[1..], x);
    }
  }

  /** Step `i` of `path` moves to an adjacent cell of the grid. */
  predicate Step(path: seq<Pos>, i: int, width: int, height: int)
    requires 0 <= i < |path| - 1
  {
    Adjacent(path[i], path[i + 1]) && InGrid(path[i + 1], width, height)
  }

  /** `path` leads from `from` to `to` by single steps through cells of the grid. */
  predicate IsWalk(path: seq<Pos>, from: Pos, to: Pos, width: int, height: int)
  {
    && |path| >= 1 && path[0] == from && path[|path| - 1] == to
    && forall i :: 0 <= i < |path| - 1 ==> Step(path, i, width, height)
  }

  /** The positions of the nodes of a list. */
  ghost function Positions(nodes: seq<Node>): set<Pos>
  {
    if nodes == [] then {} else Positions(nodes[..|nodes| - 1]) + {nodes[|nodes| - 1].position}
  }

  lemma {:induction false} PositionsIndex(nodes: seq<Node>)
    ensures forall k :: 0 <= k < |nodes| ==> nodes[k].position in Positions(nodes)
    ensures forall q :: q in Positions(nodes) ==> exists k :: 0 <= k < |nodes| && nodes[k].position == q
  {
    if nodes != [] {
      var front := nodes[..|nodes| - 1];
      PositionsIndex(front);
      assert forall k :: 0 <= k < |front| ==> front[k] == nodes[k];
    }
  }

  lemma {:induction false} PositionsConcat(a: seq<Node>, b: seq<Node>)
    ensures Positions(a + b) == Positions(a) + Positions(b)
    decreases |b|
  {
    if b == [] {
      assert a + b == a;
    } else {
      var front := b[..|b| - 1];
      PositionsConcat(a, front);
      assert (a + b)[..|a + b| - 1] == a + front;
    }
  }

  /** One more element of a prefix adds its position. */
  lemma PositionsPrefix(nodes: seq<Node>, j: int)
    requires 0 <= j < |nodes|
    ensures Positions(nodes[..j + 1]) == Positions(nodes[..j]) + {nodes[j].position}
  {
    assert nodes[..j + 1][..j] == nodes[..j];
  }

  lemma PositionsSingle(n: Node)
    ensures Positions([n]) == {n.position}
  {
    assert [n][..0] == [];
  }

  /** Appending a node adds its position. */
  lemma PositionsSnoc(nodes: seq<Node>, n: Node)
    ensures Positions(nodes + [n]) == Positions(nodes) + {n.position}
  {
    assert (nodes + [n])[..|nodes|] == nodes;
  }

  /** The heuristic memo `m` keeps every entry of `m0` and adds exactly the positions of `added`. */
  ghost predicate MemoGrows(m0: map<Pos, int>, m: map<Pos, int>, added: seq<Node>)
  {
    && (forall p :: p in m0 ==> p in m && m[p] == m0[p])
    && m.Keys == m0.Keys + Positions(added)
  }

  /** Memoising the value of a pushed node's position, unchanged when already there, keeps the memo in step. */
  lemma MemoGrowsPush(m0: map<Pos, int>, m: map<Pos, int>, added: seq<Node>, n: Node, h: int)
    requires MemoGrows(m0, m, added)
    requires n.position in m ==> m[n.position] == h
    ensures MemoGrows(m0, m[n.position := h], added + [n])
  {
    PositionsSnoc(added, n);
  }

  /** The positions of a list of nodes, in order. */
  function PositionsOf(nodes: seq<Node>): (ps: seq<Pos>)
    ensures |ps| == |nodes| && forall k :: 0 <= k < |nodes| ==> ps[k] == nodes[k].position
  {
    if nodes == [] then [] else PositionsOf(nodes[..|nodes| - 1]) + [nodes[|nodes| - 1].position]
  }

  lemma PositionsOfSet(nodes: seq<Node>)
    ensures forall q :: q in Positions(nodes) <==> q in PositionsOf(nodes)
  {
    PositionsIndex(nodes);
    forall q | q in PositionsOf(nodes)
      ensures q in Positions(nodes)
    {
      var k :| 0 <= k < |nodes| && PositionsOf(nodes)[k] == q;
    }
  }

  /**
   * The positions of `neighbors`, in their order, that are neither in
   * `closed` nor in `seen`: what the neighbour loop of `search` pushes when
   * `seen` holds the positions open before it.
   */
  function FreshPositions(neighbors: seq<Node>, closed: set<Pos>, seen: set<Pos>): seq<Pos>
  {
    if neighbors == [] then []
    else
      var last := neighbors[|neighbors| - 1].position;
      FreshPositions(neighbors[..|neighbors| - 1], closed, seen) + (if last in closed || last in seen then [] else [last])
  }

  lemma {:induction false} FreshMembers(neighbors: seq<Node>, closed: set<Pos>, seen: set<Pos>)
    ensures forall q :: q in FreshPositions(neighbors, closed, seen) <==> q in Positions(neighbors) && q !in closed && q !in seen
  {
    if neighbors != [] {
      FreshMembers(neighbors[..|neighbors| - 1], closed, seen);
    }
  }

  /** Filtering keeps the order of the positions, measured by the move that reaches each from `p`. */
  lemma {:induction false} FreshInOrder(p: Pos, neighbors: seq<Node>, closed: set<Pos>, seen: set<Pos>)
    requires forall k1, k2 :: 0 <= k1 < k2 < |neighbors| ==>
      MoveIndex(p, neighbors[k1].position) < MoveIndex(p, neighbors[k2].position)
    ensures forall k1, k2 :: 0 <= k1 < k2 < |FreshPositions(neighbors, closed, seen)| ==>
      MoveIndex(p, FreshPositions(neighbors, closed, seen)[k1]) < MoveIndex(p, FreshPositions(neighbors, closed, seen)[k2])
  {
    if neighbors != [] {
      var front := neighbors[..|neighbors| - 1];
      var last := neighbors[|neighbors| - 1];
      FreshInOrder(p, front, closed, seen);
      FreshMembers(front, closed, seen);
      PositionsIndex(front);
      var ff := FreshPositions(front, closed, seen);
      forall k | 0 <= k < |ff|
        ensures MoveIndex(p, ff[k]) < MoveIndex(p, last.position)
      {
        assert ff[k] in ff;
        var i :| 0 <= i < |front| && front[i].position == ff[k];
        assert front[i] == neighbors[i];
      }
      var fs := FreshPositions(neighbors, closed, seen);
      forall k1, k2 | 0 <= k1 < k2 < |fs|
        ensures MoveIndex(p, fs[k1]) < MoveIndex(p, fs[k2])
      {
        assert fs[k1] == ff[k1];
        if k2 < |ff| {
          assert fs[k2] == ff[k2];
        } else {
          assert fs[k2] == last.position;
        }
      }
    }
  }

  /** A neighbour skipped because it is closed or was open adds nothing. */
  lemma FreshSkip(added: seq<Node>, neighbors: seq<Node>, j: int, closed: set<Pos>, seen: set<Pos>)
    requires 0 <= j < |neighbors| && (neighbors[j].position in closed || neighbors[j].position in seen)
    requires PositionsOf(added) == FreshPositions(neighbors[..j], closed, seen)
    ensures PositionsOf(added) == FreshPositions(neighbors[..j + 1], closed, seen)
  {
    assert neighbors[..j + 1][..j] == neighbors[..j];
  }

  /** A neighbour neither closed nor open before is the next fresh position. */
  lemma FreshPush(added: seq<Node>, neighbors: seq<Node>, j: int, closed: set<Pos>, seen: set<Pos>, n: Node)
    requires 0 <= j < |neighbors| && n.position == neighbors[j].position
    requires n.position !in closed && n.position !in seen
    requires PositionsOf(added) == FreshPositions(neighbors[..j], closed, seen)
    ensures PositionsOf(added + [n]) == PositionsOf(added) + [n.position]
    ensures PositionsOf(added + [n]) == FreshPositions(neighbors[..j + 1], closed, seen)
  {
    assert neighbors[..j + 1][..j] == neighbors[..j];
    assert (added + [n])[..|added|] == added;
  }

  /** Every node of `added` hangs off `parent`, one step further from the start. */
  predicate ChildrenOf(added: seq<Node>, parent: Node)
  {
    forall k :: 0 <= k < |added| ==> added[k].parent == Some(parent) && added[k].g == parent.g + 1
  }

  /** Appending one more child to the open list and to the pushed positions keeps them in step. */
  lemma AppendChild(open0: seq<Node>, added: seq<Node>, pushes0: seq<Pos>, parent: Node, n: Node)
    requires ChildrenOf(added, parent) && n.parent == Some(parent) && n.g == parent.g + 1
    ensures ChildrenOf(added + [n], parent)
    ensures open0 + added + [n] == open0 + (added + [n])
    ensures pushes0 + PositionsOf(added) + [n.position] == pushes0 + PositionsOf(added + [n])
  {
    assert (added + [n])[..|added|] == added;
  }

  /**
   * A neighbour the loop reaches is open exactly when it was open before
   * the loop: the loop has only pushed the positions of earlier neighbours.
   */
  lemma NotPushedYet(open0: seq<Node>, added: seq<Node>, neighbors: seq<Node>, j: int, closed: set<Pos>)
    requires DistinctPositions(neighbors) && 0 <= j < |neighbors|
    requires PositionsOf(added) == FreshPositions(neighbors[..j], closed, Positions(open0))
    ensures neighbors[j].position in Positions(open0 + added) <==> neighbors[j].position in Positions(open0)
  {
    PositionsConcat(open0, added);
    PositionsOfSet(added);
    FreshMembers(neighbors[..j], closed, Positions(open0));
    OtherPositions(neighbors, j);
  }

  /** No position occurs twice in a list of nodes. */
  predicate DistinctPositions(nodes: seq<Node>)
  {
    forall a, b :: 0 <= a < b < |nodes| ==> nodes[a].position != nodes[b].position
  }

  /** No element occurs twice in a sequence (of pushed positions, say). */
  predicate Distinct<T(==)>(s: seq<T>)
  {
    forall a, b :: 0 <= a < b < |s| ==> s[a] != s[b]
  }

  /**
   * `next((n for n in open_set if n.position == p), None)`: a node of the
   * list at `p`, and `None` exactly when no node is at `p`.
   */
  function FirstAt(nodes: seq<Node>, p: Pos): (r: Option<Node>)
    ensures r.Some? ==> r.value in nodes && r.value.position == p
    ensures r.None? <==> p !in Positions(nodes)
  {
    if nodes == [] then None
    else if nodes[0].position == p then
      PositionsIndex(nodes);
      Some(nodes[0])
    else
      var r := FirstAt(nodes[1..], p);
      assert nodes == [nodes[0]] + nodes[1..];
      PositionsConcat([nodes[0]], nodes[1..]);
      PositionsSingle(nodes[0]);
      r
  }

  /** `i` holds an open node of least `f`, one `heappop` may return. */
  predicate LeastF(nodes: seq<Node>, i: int)
  {
    0 <= i < |nodes| && forall k :: 0 <= k < |nodes| ==> nodes[i].f <= nodes[k].f
  }

  /** A non-empty open list has a node of least `f`. */
  lemma {:induction false} LeastFExists(nodes: seq<Node>) returns (i: int)
    requires nodes != []
    ensures LeastF(nodes, i)
    decreases |nodes|
  {
    if |nodes| == 1 {
      i := 0;
    } else {
      var j := LeastFExists(nodes[1..]);
      assert forall k :: 1 <= k < |nodes| ==> nodes[k] == nodes[1..][k - 1];
      if nodes[0].f <= nodes[j + 1].f {
        i := 0;
      } else {
        i := j + 1;
      }
    }
  }

  /** Taking a node out of a list without repeated positions removes exactly its position. */
  lemma RemoveAt(nodes: seq<Node>, i: int, rest: seq<Node>)
    requires DistinctPositions(nodes) && 0 <= i < |nodes|
    requires rest == nodes[..i] + nodes[i + 1..]
    ensures DistinctPositions(rest)
    ensures Positions(rest) == Positions(nodes) - {nodes[i].position}
    ensures forall k :: 0 <= k < |rest| ==> rest[k] in nodes
  {
    assert forall k :: 0 <= k < |rest| ==> rest[k] == nodes[if k < i then k else k + 1];
    var front, back := nodes[..i], nodes[i + 1..];
    assert nodes == front + [nodes[i]] + back;
    PositionsConcat(front + [nodes[i]], back);
    PositionsConcat(front, [nodes[i]]);
    PositionsConcat(front, back);
    PositionsSingle(nodes[i]);
    OtherPositions(nodes, i);
  }

  /** In a list without repeated positions, the nodes before and after `i` are elsewhere. */
  lemma OtherPositions(nodes: seq<Node>, i: int)
    requires DistinctPositions(nodes) && 0 <= i < |nodes|
    ensures nodes[i].position !in Positions(nodes[..i])
    ensures nodes[i].position !in Positions(nodes[i + 1..])
  {
    var front, back := nodes[..i], nodes[i + 1..];
    PositionsIndex(front);
    PositionsIndex(back);
    forall q | q in Positions(front)
      ensures q != nodes[i].position
    {
      var k :| 0 <= k < i && front[k].position == q;
      assert nodes[k] == front[k];
    }
    forall q | q in Positions(back)
      ensures q != nodes[i].position
    {
      var k :| 0 <= k < |back| && back[k].position == q;
      assert nodes[i + 1 + k] == back[k];
    }
  }

  /** The cells `(x, y)` of row `y` with `0 <= x < w`. */
  ghost function Row(y: int, w: int): set<Pos>
    decreases w
  {
    if w <= 0 then {} else Row(y, w - 1) + {Pos(w - 1, y)}
  }

  /** The cells of a `w` x `h` grid. */
  ghost function Cells(w: int, h: int): set<Pos>
    decreases h
  {
    if h <= 0 then {} else Cells(w, h - 1) + Row(h - 1, w)
  }

  lemma {:induction false} RowHolds(y: int, w: int, x: int)
    requires 0 <= x < w
    ensures Pos(x, y) in Row(y, w)
    decreases w
  {
    if x < w - 1 {
      RowHolds(y, w - 1, x);
    }
  }

  lemma {:induction false} CellsHold(w: int, h: int, p: Pos)
    requires InGrid(p, w, h)
    ensures p in Cells(w, h)
    decreases h
  {
    if p.y < h - 1 {
      CellsHold(w, h - 1, p);
    } else {
      RowHolds(p.y, w, p.x);
    }
  }

  lemma {:induction false} SubsetCard<T>(a: set<T>, b: set<T>)
    requires a <= b
    ensures |a| <= |b|
    decreases |a|
  {
    if a != {} {
      var x :| x in a;
      SubsetCard(a - {x}, b - {x});
    }
  }

  class AStarSearch {
    const start: Pos
    const goal: Pos
    const width: int
    const height: int
    var memo: map<Pos, int>

    /** Every memoised heuristic is the Manhattan distance to the goal. */
    ghost predicate Valid()
      reads this
    {
      forall p :: p in memo ==> memo[p] == Manhattan(p, goal)
    }

    constructor (start: Pos, goal: Pos, gridSize: (int, int))
      ensures this.start == start && this.goal == goal
      ensures width == gridSize.0 && height == gridSize.1
      ensures memo == map[] && Valid()
    {
      this.start, this.goal := start, goal;
      width, height := gridSize.0, gridSize.1;
      memo := map[];
    }

    /** `heuristic(pos)`: the Manhattan distance to the goal, remembered per position. */
    method Heuristic(pos: Pos) returns (h: int)
      requires Valid()
      modifies this
      ensures Valid()
      ensures h == Manhattan(pos, goal)
      ensures memo == old(memo)[pos := h]
    {
      if pos !in memo {
        memo := memo[pos := Abs(pos.x - goal.x) + Abs(pos.y - goal.y)];
      }
      return memo[pos];
    }

    /** Asking twice for the same position gives the same value and leaves the memo as after the first call. */
    method HeuristicTwice(pos: Pos) returns (h1: int, h2: int)
      requires Valid()
      modifies this
      ensures h1 == h2 && memo == old(memo)[pos := h1]
    {
      h1 := Heuristic(pos);
      h2 := Heuristic(pos);
    }

    /** `get_neighbors(node)`: fresh nodes, with `node` as parent, at the grid cells one move away. */
    function GetNeighbors(node: Node): (r: seq<Node>)
      ensures |r| <= 4
      ensures forall k :: 0 <= k < |r| ==>
        r[k].parent == Some(node) && r[k].g == 0 && r[k].h == 0 && r[k].f == 0
    {
      Neighbors(node, 0)
    }

    /** The neighbours from the moves `Moves[i..]`. */
    function Neighbors(node: Node, i: nat): (r: seq<Node>)
      requires i <= 4
      decreases 4 - i
      ensures |r| <= 4 - i
      ensures forall k :: 0 <= k < |r| ==>
        r[k].parent == Some(node) && r[k].g == 0 && r[k].h == 0 && r[k].f == 0
    {
      if i == 4 then []
      else
        var p := Shift(node.position, Moves[i]);
        if InGrid(p, width, height) then [Node(p, Some(node), 0, 0, 0)] + Neighbors(node, i + 1)
        else Neighbors(node, i + 1)
    }

    /** The in-grid cells reached from `p` by the moves `Moves[i..]`. */
    ghost function Candidates(p: Pos, i: nat): set<Pos>
      requires i <= 4
    {
      set j | i <= j < 4 && InGrid(Shift(p, Moves[j]), width, height) :: Shift(p, Moves[j])
    }

    /** `Neighbors(node, i)` is at exactly the in-grid cells reached by the moves `Moves[i..]`. */
    lemma {:induction false} NeighborsCover(node: Node, i: nat)
      requires i <= 4
      decreases 4 - i
      ensures Positions(Neighbors(node, i)) == Candidates(node.position, i)
    {
      var p := node.position;
      if i == 4 {
        assert Candidates(p, i) == {};
      } else {
        NeighborsCover(node, i + 1);
        var q := Shift(p, Moves[i]);
        var rest := Neighbors(node, i + 1);
        var here := if InGrid(q, width, height) then {q} else {};
        assert Candidates(p, i) == here + Candidates(p, i + 1) by {
          forall c | c in Candidates(p, i)
            ensures c in here + Candidates(p, i + 1)
          {
            var j :| i <= j < 4 && InGrid(Shift(p, Moves[j]), width, height) && c == Shift(p, Moves[j]);
            if j > i {
              assert c in Candidates(p, i + 1);
            }
          }
        }
        if InGrid(q, width, height) {
          var n := Node(q, Some(node), 0, 0, 0);
          assert Neighbors(node, i) == [n] + rest;
          PositionsConcat([n], rest);
          PositionsSingle(n);
        }
      }
    }

    /** `Neighbors(node, i)` comes in the order of the moves `Moves[i..]`. */
    lemma {:induction false} NeighborsOrdered(node: Node, i: nat)
      requires i <= 4
      decreases 4 - i
      ensures forall k :: 0 <= k < |Neighbors(node, i)| ==>
        i <= MoveIndex(node.position, Neighbors(node, i)[k].position) < 4
      ensures forall k1, k2 :: 0 <= k1 < k2 < |Neighbors(node, i)| ==>
        MoveIndex(node.position, Neighbors(node, i)[k1].position) < MoveIndex(node.position, Neighbors(node, i)[k2].position)
    {
      if i < 4 {
        NeighborsOrdered(node, i + 1);
        var q := Shift(node.position, Moves[i]);
        var rest := Neighbors(node, i + 1);
        if InGrid(q, width, height) {
          var r := [Node(q, Some(node), 0, 0, 0)] + rest;
          assert Neighbors(node, i) == r;
          assert MoveIndex(node.position, q) == i by {
            assert i == 0 || i == 1 || i == 2 || i == 3;
          }
          assert forall k :: 1 <= k < |r| ==> r[k] == rest[k - 1];
        }
      }
    }

    /**
     * A position is among the neighbours of `node` exactly when it is a
     * cell of the grid one step away, and the neighbours come in the order
     * of `Moves`, so no position occurs twice.
     */
    lemma NeighborsAreAdjacentCells(node: Node)
      ensures forall q :: q in Positions(GetNeighbors(node)) <==>
        InGrid(q, width, height) && Adjacent(node.position, q)
      ensures forall k1, k2 :: 0 <= k1 < k2 < |GetNeighbors(node)| ==>
        MoveIndex(node.position, GetNeighbors(node)[k1].position) < MoveIndex(node.position, GetNeighbors(node)[k2].position)
      ensures DistinctPositions(GetNeighbors(node))
    {
      NeighborsCover(node, 0);
      NeighborsOrdered(node, 0);
      forall q
        ensures q in Candidates(node.position, 0) <==> InGrid(q, width, height) && Adjacent(node.position, q)
      {
        AdjacentIsMove(node.position, q);
      }
    }

    /** `reconstruct_path(node)`: follows the parent links, then reverses what it collected. */
    method ReconstructPath(node: Node) returns (path: seq<Pos>)
      ensures path == PathTo(node)
    {
      var collected := [];
      var cur := Some(node);
      while cur.Some?
        invariant PathTo(node) == (if cur.Some? then PathTo(cur.value) else []) + Reverse(collected)
        decreases cur
      {
        ReverseSnoc(collected, cur.value.position);
        collected := collected + [cur.value.position];
        cur := cur.value.parent;
      }
      path := Reverse(collected);
    }

    /**
     * What every node the search pushes satisfies: the root sits at the
     * start with `g = h = f = 0`; any other node is a grid cell one step
     * from its parent, with `g` one more than its parent's, `h` the
     * Manhattan distance to the goal and `f = g + h`.
     */
    predicate NodeOK(n: Node)
    {
      match n.parent
      case None => n.position == start && n.g == 0 && n.h == 0 && n.f == 0
      case Some(p) =>
        && NodeOK(p) && Adjacent(p.position, n.position) && InGrid(n.position, width, height)
        && n.g == p.g + 1 && n.h == Manhattan(n.position, goal) && n.f == n.g + n.h
    }

    /** The path of a well-formed node is a walk from the start to the node, with `g` steps. */
    lemma {:induction false} NodeWalk(n: Node)
      requires NodeOK(n)
      ensures IsWalk(PathTo(n), start, n.position, width, height)
      ensures |PathTo(n)| == n.g + 1
    {
      match n.parent
      case None =>
      case Some(p) =>
        NodeWalk(p);
        var w := PathTo(p);
        var path := PathTo(n);
        assert path == w + [n.position];
        forall i | 0 <= i < |path| - 1
          ensures Step(path, i, width, height)
        {
          if i < |w| - 1 {
            assert Step(w, i, width, height);
          }
        }
    }

    /**
     * A neighbour is never better than a node already open: its fresh `g`
     * is 0, below the `g + 1` it is compared against, so the update branch
     * only runs for positions not yet open.
     */
    lemma FreshNeighborNeverImproves(current: Node, k: int)
      requires NodeOK(current) && 0 <= k < |GetNeighbors(current)|
      ensures !(current.g + 1 < GetNeighbors(current)[k].g)
    {
      NodeWalk(current);
    }

    /** The positions the search can ever push: the grid cells and the start. */
    predicate InUniverse(p: Pos)
    {
      InGrid(p, width, height) || p == start
    }

    /** `InUniverse` as a finite set. */
    ghost function Universe(): set<Pos>
    {
      Cells(width, height) + {start}
    }

    lemma UniverseHolds(p: Pos)
      requires InUniverse(p)
      ensures p in Universe()
    {
      if p != start {
        CellsHold(width, height, p);
      }
    }

    /** A set of positions of the universe has no more elements than the universe. */
    lemma ClosedFits(closed: set<Pos>)
      requires forall p :: p in closed ==> InUniverse(p)
      ensures |closed| <= |Universe()|
    {
      forall p | p in closed
        ensures p in Universe()
      {
        UniverseHolds(p);
      }
      SubsetCard(closed, Universe());
    }

    /**
     * The state of `search` between steps. `pending` holds the closed
     * position whose neighbours are still being examined.
     */
    ghost predicate Inv(open: seq<Node>, closed: set<Pos>, pushes: seq<Pos>, pending: set<Pos>)
    {
      && (forall k :: 0 <= k < |open| ==> NodeOK(open[k]) && open[k].position !in closed)
      && DistinctPositions(open)
      && start in pushes
      && goal !in closed
      && (forall c, q :: c in closed && c !in pending && InGrid(q, width, height) && Adjacent(c, q) ==>
            q in closed + Positions(open))
      && Distinct(pushes)
      && (forall p :: p in pushes <==> p in closed + Positions(open))
      && (forall k :: 0 <= k < |pushes| ==> InUniverse(pushes[k]))
    }

    lemma InitInv()
      ensures Inv([Node(start, None, 0, 0, 0)], {}, [start], {})
    {
      PositionsSingle(Node(start, None, 0, 0, 0));
    }

    /** Popping a non-goal node and closing its position keeps the state, with that position pending. */
    lemma PopStep(open: seq<Node>, closed: set<Pos>, pushes: seq<Pos>, i: int)
      requires Inv(open, closed, pushes, {}) && 0 <= i < |open| && open[i].position != goal
      ensures Inv(open[..i] + open[i + 1..], closed + {open[i].position}, pushes, {open[i].position})
      ensures open[i].position !in closed
      ensures forall p :: p in closed + {open[i].position} ==> InUniverse(p)
    {
      RemoveAt(open, i, open[..i] + open[i + 1..]);
      PositionsIndex(open);
      forall p | p in closed + {open[i].position}
        ensures InUniverse(p)
      {
        assert p in pushes;
      }
    }

    /** Appending a well-formed node at a new position keeps the open list well formed. */
    lemma AppendOpen(open: seq<Node>, closed: set<Pos>, n: Node)
      requires forall k :: 0 <= k < |open| ==> NodeOK(open[k]) && open[k].position !in closed
      requires DistinctPositions(open) && NodeOK(n) && n.position !in closed + Positions(open)
      ensures forall k :: 0 <= k < |open + [n]| ==> NodeOK((open + [n])[k]) && (open + [n])[k].position !in closed
      ensures DistinctPositions(open + [n])
      ensures Positions(open + [n]) == Positions(open) + {n.position}
    {
      PositionsSnoc(open, n);
      PositionsIndex(open);
      forall k | 0 <= k < |open| + 1
        ensures NodeOK((open + [n])[k]) && (open + [n])[k].position !in closed
      {
        if k < |open| {
          assert (open + [n])[k] == open[k];
        }
      }
      forall a, b | 0 <= a < b < |open| + 1
        ensures (open + [n])[a].position != (open + [n])[b].position
      {
        assert (open + [n])[a] == open[a];
        if b == |open| {
          assert open[a].position in Positions(open);
        } else {
          assert (open + [n])[b] == open[b];
        }
      }
    }

    lemma AppendNew<T>(s: seq<T>, x: T)
      requires Distinct(s) && x !in s
      ensures Distinct(s + [x])
    {
      forall a | 0 <= a < |s|
        ensures s[a] != x
      {
        assert s[a] in s;
      }
    }

    /** Pushing a well-formed node at a new position keeps the state. */
    lemma PushStep(open: seq<Node>, closed: set<Pos>, pushes: seq<Pos>, pending: set<Pos>, n: Node)
      requires Inv(open, closed, pushes, pending)
      requires NodeOK(n) && n.parent.Some? && n.position !in closed + Positions(open)
      ensures Inv(open + [n], closed, pushes + [n.position], pending)
      ensures Positions(open + [n]) == Positions(open) + {n.position}
    {
      AppendOpen(open, closed, n);
      AppendNew(pushes, n.position);
    }

    /** Once every neighbour of the pending position is closed or open, nothing is pending. */
    lemma FinishStep(open: seq<Node>, closed: set<Pos>, pushes: seq<Pos>, current: Node)
      requires Inv(open, closed, pushes, {current.position})
      requires Positions(GetNeighbors(current)) <= closed + Positions(open)
      ensures Inv(open, closed, pushes, {})
    {
      NeighborsAreAdjacentCells(current);
    }

    /**
     * What one expansion of `current` pushes: the grid cells one step from
     * `current` that are neither closed nor in `seen`, in the order of
     * `Moves`, each once.
     */
    lemma FreshNeighbors(current: Node, closed: set<Pos>, seen: set<Pos>)
      ensures forall q :: q in FreshPositions(GetNeighbors(current), closed, seen) <==>
        InGrid(q, width, height) && Adjacent(current.position, q) && q !in closed && q !in seen
      ensures forall k1, k2 :: 0 <= k1 < k2 < |FreshPositions(GetNeighbors(current), closed, seen)| ==>
        MoveIndex(current.position, FreshPositions(GetNeighbors(current), closed, seen)[k1])
          < MoveIndex(current.position, FreshPositions(GetNeighbors(current), closed, seen)[k2])
      ensures Distinct(FreshPositions(GetNeighbors(current), closed, seen))
    {
      NeighborsAreAdjacentCells(current);
      FreshMembers(GetNeighbors(current), closed, seen);
      FreshInOrder(current.position, GetNeighbors(current), closed, seen);
    }

    /** Every position a walk from the start reaches is closed once the closed set has no open frontier. */
    lemma {:induction false} WalksStayClosed(closed: set<Pos>)
      requires start in closed
      requires forall c, q :: c in closed && InGrid(q, width, height) && Adjacent(c, q) ==> q in closed
      ensures forall w, to :: IsWalk(w, start, to, width, height) ==> to in closed
    {
      forall w, to | IsWalk(w, start, to, width, height)
        ensures to in closed
      {
        var i := 0;
        while i < |w| - 1
          invariant 0 <= i < |w| && w[i] in closed
        {
          assert Step(w, i, width, height);
          i := i + 1;
        }
      }
    }

    /**
     * The state of the neighbour loop of `search` after the first `j`
     * neighbours of `current`: the open list is `open0` with the nodes
     * `added` appended, and their positions, appended to `pushes` as well,
     * are the fresh positions among those neighbours; each of those
     * neighbours is now closed or open.
     */
    ghost predicate Expanding(current: Node, closed: set<Pos>, open0: seq<Node>, pushes0: seq<Pos>, j: int,
                              open: seq<Node>, pushes: seq<Pos>, added: seq<Node>)
    {
      var neighbors := GetNeighbors(current);
      && 0 <= j <= |neighbors|
      && Inv(open, closed, pushes, {current.position})
      && Positions(neighbors[..j]) <= closed + Positions(open)
      && open == open0 + added && pushes == pushes0 + PositionsOf(added)
      && PositionsOf(added) == FreshPositions(neighbors[..j], closed, Positions(open0))
      && ChildrenOf(added, current)
    }

    lemma ExpandStart(current: Node, closed: set<Pos>, open0: seq<Node>, pushes0: seq<Pos>)
      requires Inv(open0, closed, pushes0, {current.position})
      ensures Expanding(current, closed, open0, pushes0, 0, open0, pushes0, [])
    {
      assert open0 + [] == open0 && pushes0 + [] == pushes0;
    }

    /** A neighbour that is closed, or already open, is skipped. */
    lemma ExpandSkip(current: Node, closed: set<Pos>, open0: seq<Node>, pushes0: seq<Pos>, j: int,
                     open: seq<Node>, pushes: seq<Pos>, added: seq<Node>)
      requires Expanding(current, closed, open0, pushes0, j, open, pushes, added) && j < |GetNeighbors(current)|
      requires GetNeighbors(current)[j].position in closed + Positions(open)
      ensures Expanding(current, closed, open0, pushes0, j + 1, open, pushes, added)
    {
      var neighbors := GetNeighbors(current);
      NeighborsAreAdjacentCells(current);
      NotPushedYet(open0, added, neighbors, j, closed);
      FreshSkip(added, neighbors, j, closed, Positions(open0));
      PositionsPrefix(neighbors, j);
    }

    /** A neighbour rebuilt with `current` as parent, `g` one more and `h` the heuristic is well formed. */
    lemma NeighborChildOK(current: Node, j: int, n: Node)
      requires NodeOK(current) && 0 <= j < |GetNeighbors(current)| && n.position == GetNeighbors(current)[j].position
      requires n.parent == Some(current) && n.g == current.g + 1
      requires n.h == Manhattan(n.position, goal) && n.f == n.g + n.h
      ensures NodeOK(n)
    {
      NeighborsAreAdjacentCells(current);
      PositionsIndex(GetNeighbors(current));
    }

    /** A neighbour neither closed nor open is pushed as a child of `current`. */
    lemma ExpandPush(current: Node, closed: set<Pos>, open0: seq<Node>, pushes0: seq<Pos>, j: int,
                     open: seq<Node>, pushes: seq<Pos>, added: seq<Node>, n: Node)
      requires Expanding(current, closed, open0, pushes0, j, open, pushes, added) && j < |GetNeighbors(current)|
      requires NodeOK(current) && n.position == GetNeighbors(current)[j].position
      requires n.position !in closed + Positions(open)
      requires n.parent == Some(current) && n.g == current.g + 1
      requires n.h == Manhattan(n.position, goal) && n.f == n.g + n.h
      ensures Expanding(current, closed, open0, pushes0, j + 1, open + [n], pushes + [n.position], added + [n])
    {
      var neighbors := GetNeighbors(current);
      NeighborsAreAdjacentCells(current);
      NeighborChildOK(current, j, n);
      NotPushedYet(open0, added, neighbors, j, closed);
      PushStep(open, closed, pushes, {current.position}, n);
      FreshPush(added, neighbors, j, closed, Positions(open0), n);
      AppendChild(open0, added, pushes0, current, n);
      PositionsPrefix(neighbors, j);
    }

    /** After the last neighbour the loop has done what `Expand` promises. */
    lemma ExpandDone(current: Node, closed: set<Pos>, open0: seq<Node>, pushes0: seq<Pos>,
                     open: seq<Node>, pushes: seq<Pos>, added: seq<Node>)
      requires Expanding(current, closed, open0, pushes0, |GetNeighbors(current)|, open, pushes, added)
      ensures Inv(open, closed, pushes, {})
      ensures |open0| <= |open| && open[..|open0|] == open0
      ensures PositionsOf(open[|open0|..]) == FreshPositions(GetNeighbors(current), closed, Positions(open0))
      ensures pushes == pushes0 + PositionsOf(open[|open0|..])
      ensures forall k :: |open0| <= k < |open| ==> open[k].parent == Some(current) && open[k].g == current.g + 1
    {
      var neighbors := GetNeighbors(current);
      assert neighbors[..|neighbors|] == neighbors;
      assert open[..|open0|] == open0 && open[|open0|..] == added;
      FinishStep(open, closed, pushes, current);
      forall k | |open0| <= k < |open|
        ensures open[k].parent == Some(current) && open[k].g == current.g + 1
      {
        assert open[k] == added[k - |open0|];
      }
    }

    /**
     * The `for neighbor in self.get_neighbors(current)` loop of `search`:
     * the open nodes stay as they are, and the nodes appended to them are
     * the neighbours neither closed nor open before, in the order of
     * `Moves`, each with `current` as parent and `g` one more than
     * `current.g`; their positions are appended to `pushes`. Afterwards
     * every grid cell next to `current` is closed or open. The heuristic
     * memo keeps its entries and gains exactly the appended positions.
     */
    method Expand(current: Node, open0: seq<Node>, closed: set<Pos>, ghost pushes0: seq<Pos>)
      returns (open: seq<Node>, ghost pushes: seq<Pos>)
      requires Valid() && NodeOK(current) && current.position in closed
      requires Inv(open0, closed, pushes0, {current.position})
      modifies this
      ensures Valid() && Inv(open, closed, pushes, {})
      ensures |open0| <= |open| && open[..|open0|] == open0
      ensures PositionsOf(open[|open0|..]) == FreshPositions(GetNeighbors(current), closed, Positions(open0))
      ensures pushes == pushes0 + PositionsOf(open[|open0|..])
      ensures forall k :: |open0| <= k < |open| ==> open[k].parent == Some(current) && open[k].g == current.g + 1
      ensures forall p :: p in old(memo) ==> p in memo && memo[p] == old(memo)[p]
      ensures memo.Keys == old(memo).Keys + Positions(open[|open0|..])
    {
      open, pushes := open0, pushes0;
      ghost var added: seq<Node> := [];
      var neighbors := GetNeighbors(current);
      ExpandStart(current, closed, open0, pushes0);
      for j := 0 to |neighbors|
        invariant Valid()
        invariant Expanding(current, closed, open0, pushes0, j, open, pushes, added)
        invariant MemoGrows(old(memo), memo, added)
      {
        var neighbor := neighbors[j];
        if neighbor.position in closed {
          ExpandSkip(current, closed, open0, pushes0, j, open, pushes, added);
          continue;
        }
        var tentativeG := current.g + 1;
        var inOpen := FirstAt(open, neighbor.position);
        if inOpen.Some? {
          ExpandSkip(current, closed, open0, pushes0, j, open, pushes, added);
        }
        FreshNeighborNeverImproves(current, j);
        if inOpen.None? || tentativeG < neighbor.g {
          ghost var before := memo;
          var h := Heuristic(neighbor.position);
          neighbor := Node(neighbor.position, Some(current), tentativeG, h, tentativeG + h);
          if inOpen.None? {
            ExpandPush(current, closed, open0, pushes0, j, open, pushes, added, neighbor);
            MemoGrowsPush(old(memo), before, added, neighbor, h);
            open := open + [neighbor];
            pushes := pushes + [neighbor.position];
            added := added + [neighbor];
          }
        }
      }
      ExpandDone(current, closed, open0, pushes0, open, pushes, added);
      assert open[|open0|..] == added;
    }

    /**
     * `search()`: pops a node of least `f`; returns its path when it is at
     * the goal; otherwise closes its position and pushes every neighbour
     * neither closed nor open. `pushes` records the positions pushed.
     * The heuristic memo only ever gains entries.
     */
    method Search() returns (path: Option<seq<Pos>>, ghost pushes: seq<Pos>)
      requires Valid()
      modifies this
      ensures Valid()
      ensures path.Some? ==> IsWalk(path.value, start, goal, width, height)
      ensures start == goal ==> path == Some([start])
      ensures path.None? ==> forall w :: !IsWalk(w, start, goal, width, height)
      ensures |pushes| >= 1 && pushes[0] == start
      ensures Distinct(pushes) && forall k :: 0 <= k < |pushes| ==> InUniverse(pushes[k])
      ensures forall p :: p in old(memo) ==> p in memo && memo[p] == old(memo)[p]
    {
      var open := [Node(start, None, 0, 0, 0)];
      var closed: set<Pos> := {};
      pushes := [start];
      InitInv();
      ghost var bound := |Universe()|;
      while open != []
        invariant Valid()
        invariant Inv(open, closed, pushes, {})
        invariant |pushes| >= 1 && pushes[0] == start
        invariant forall p :: p in old(memo) ==> p in memo && memo[p] == old(memo)[p]
        invariant start == goal ==> open == [Node(start, None, 0, 0, 0)]
        invariant |closed| <= bound
        decreases bound - |closed|
      {
        ghost var least := LeastFExists(open);
        var i :| 0 <= i < |open| && LeastF(open, i);
        var current := open[i];
        if current.position == goal {
          NodeWalk(current);
          var p := ReconstructPath(current);
          path := Some(p);
          return;
        }
        PopStep(open, closed, pushes, i);
        ClosedFits(closed + {current.position});
        open := open[..i] + open[i + 1..];
        ghost var before := closed;
        closed := closed + {current.position};
        assert |closed| == |before| + 1;
        assert NodeOK(current);
        open, pushes := Expand(current, open, closed, pushes);
      }
      path := None;
      WalksStayClosed(closed);
    }
  }
}
