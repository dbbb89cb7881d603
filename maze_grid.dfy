/**
 * Cells, directions and the odd lattice of the maze grid, and the facts
 * about sets of open cells that the generator's loops keep.
 *
 * A cell whose row and column are both odd and that lies off the border
 * ring is a lattice node; the cell between two lattice nodes two steps
 * apart is the link (corridor) that a carve opens.
 */
module MazeGrid {

  /** MAP_HEIGHT and MAP_WIDTH: both odd. */
  const MapHeight: int := 17
  const MapWidth: int := 17

  /** The bound of the outer loop, ((H - 1) * (W - 1)) / 4: the number of lattice nodes. */
  const NodeCount: int := ((MapHeight - 1) * (MapWidth - 1)) / 4

  datatype Position = Position(row: int, col: int)

  datatype Dir = North | South | West | East {
    function DRow(): int {
      match this
      case North => -1
      case South => 1
      case West => 0
      case East => 0
    }

    function DCol(): int {
      match this
      case North => 0
      case South => 0
      case West => -1
      case East => 1
    }

    function Opposite(): Dir {
      match this
      case North => South
      case South => North
      case West => East
      case East => West
    }
  }

  /** The order in which dirs starts: North, South, West, East. */
  const InitialDirs: seq<Dir> := [North, South, West, East]

  /** A sequence of directions that lists each of the four (so it is a permutation of them). */
  predicate HasAllDirs(dirs: seq<Dir>) {
    |dirs| == 4 && North in dirs && South in dirs && West in dirs && East in dirs
  }

  predicate InBounds(p: Position) {
    0 <= p.row < MapHeight && 0 <= p.col < MapWidth
  }

  /** Off the border ring: the test a carve target has to pass. */
  predicate Interior(p: Position) {
    1 <= p.row < MapHeight - 1 && 1 <= p.col < MapWidth - 1
  }

  predicate IsNode(p: Position) {
    Interior(p) && p.row % 2 == 1 && p.col % 2 == 1
  }

  /** The cell one step from p in direction d (the intermediate cell of a carve). */
  function Neighbor(p: Position, d: Dir): Position {
    Position(p.row + d.DRow(), p.col + d.DCol())
  }

  /** The cell two steps from p in direction d (the destination of a carve). */
  function Jump(p: Position, d: Dir): Position {
    Position(p.row + d.DRow() * 2, p.col + d.DCol() * 2)
  }

  /** An interior cell with exactly one even coordinate: a place for a link between two nodes. */
  predicate IsCorridor(p: Position) {
    Interior(p) && ((p.row % 2 == 0 && p.col % 2 == 1) || (p.row % 2 == 1 && p.col % 2 == 0))
  }

  /** The two lattice nodes a corridor cell lies between. */
  function LinkEnds(p: Position): (Position, Position) {
    if p.row % 2 == 0 then (Position(p.row - 1, p.col), Position(p.row + 1, p.col))
    else (Position(p.row, p.col - 1), Position(p.row, p.col + 1))
  }

  /** A corridor cell whose two end nodes are both in cells. */
  ghost predicate IsLink(p: Position, cells: set<Position>) {
    IsCorridor(p) && LinkEnds(p).0 in cells && LinkEnds(p).1 in cells
  }

  /** A carve from p towards d is possible: the destination is interior and still closed. */
  ghost predicate CanCarve(open: set<Position>, p: Position, d: Dir) {
    Interior(Jump(p, d)) && Jump(p, d) !in open
  }

  /**
   * The state while carving: every open cell is interior and is either a
   * lattice node or a link between two open nodes; `nodes` are the open
   * lattice nodes; there are done + 1 of them and 2 * done + 1 open cells.
   */
  ghost predicate Carving(open: set<Position>, nodes: set<Position>, done: int) {
    (forall p | p in open :: Interior(p) && (IsNode(p) || IsLink(p, open))) &&
    (forall p :: p in nodes <==> p in open && IsNode(p)) &&
    |nodes| == done + 1 &&
    |open| == 2 * done + 1
  }

  /**
   * The carved interior once the outer loop has finished: every lattice
   * node is open, every other open cell links two of them, and there are
   * exactly NodeCount - 1 links.
   */
  ghost predicate FullyCarved(open: set<Position>) {
    (forall p | p in open :: Interior(p) && (IsNode(p) || IsLink(p, open))) &&
    (forall p :: IsNode(p) ==> p in open) &&
    |open| == 2 * NodeCount - 1
  }

  /**
   * The finished maze: a fully carved interior, the entrance (0, ce) above
   * the open cell (1, ce), the exit (H - 1, cx) below the open cell
   * (H - 2, cx), no other open border cell, and every open cell (the exit
   * among them) joined to the entrance by a walk through open cells.
   */
  ghost predicate IsMazeLayout(cells: set<Position>, ce: int, cx: int) {
    ConnectedVia(cells, Position(0, ce)) &&
    1 <= ce < MapWidth - 1 && 1 <= cx < MapWidth - 1 &&
    Position(0, ce) in cells && Position(1, ce) in cells &&
    Position(MapHeight - 1, cx) in cells && Position(MapHeight - 2, cx) in cells &&
    (forall p | p in cells && !Interior(p) :: p == Position(0, ce) || p == Position(MapHeight - 1, cx)) &&
    FullyCarved(cells - {Position(0, ce), Position(MapHeight - 1, cx)})
  }

  /** The maze as makeMaze returns it: H rows of W cells, true for open. */
  type Grid = seq<seq<bool>>

  predicate IsGrid(g: Grid) {
    |g| == MapHeight && forall r | 0 <= r < |g| :: |g[r]| == MapWidth
  }

  ghost function OpenCells(g: Grid): set<Position>
    requires IsGrid(g)
  {
    set r, c | 0 <= r < MapHeight && 0 <= c < MapWidth && g[r][c] :: Position(r, c)
  }

  ghost predicate IsMaze(g: Grid) {
    IsGrid(g) && exists ce, cx :: IsMazeLayout(OpenCells(g), ce, cx)
  }

  // ---------------------------------------------------------------------
  // The pickers' choice, stated on a set of open cells

  /** The columns 1 .. hi - 1 of row r that hold a cell of cells, in increasing order. */
  ghost function OpenColumns(cells: set<Position>, r: int, hi: int): (cols: seq<int>)
    requires hi >= 1
    ensures forall c :: c in cols <==> 1 <= c < hi && Position(r, c) in cells
    ensures forall i, j | 0 <= i < j < |cols| :: cols[i] < cols[j]
    decreases hi
  {
    if hi == 1 then []
    else
      var before := OpenColumns(cells, r, hi - 1);
      assert forall i | 0 <= i < |before| :: before[i] < hi - 1 by {
        forall i | 0 <= i < |before| ensures before[i] < hi - 1 {
          assert before[i] in before;
        }
      }
      before + (if Position(r, hi - 1) in cells then [hi - 1] else [])
  }

  /**
   * The column a picker takes in row r: the roll, reduced modulo the number
   * of open columns 1 .. W - 2, indexes them in increasing order.
   */
  ghost function PickColumn(cells: set<Position>, r: int, roll: nat): (c: int)
    requires exists c0 | 1 <= c0 < MapWidth - 1 :: Position(r, c0) in cells
    ensures 1 <= c < MapWidth - 1 && Position(r, c) in cells
  {
    var cols := OpenColumns(cells, r, MapWidth - 1);
    assert |cols| > 0 by {
      var c0 :| 1 <= c0 < MapWidth - 1 && Position(r, c0) in cells;
      assert c0 in cols;
    }
    assert cols[roll % |cols|] in cols;
    cols[roll % |cols|]
  }

  /**
   * The open cells of the finished grid: the carved interior, the entrance
   * on row 0 above the column the entrance roll picks in row 1, and the
   * exit on row H - 1 below the column the exit roll picks in row H - 2.
   */
  ghost function Openings(carved: set<Position>, rollEntrance: nat, rollExit: nat): (cells: set<Position>)
    requires FullyCarved(carved)
    ensures carved <= cells
    ensures forall p | p in cells :: InBounds(p)
  {
    assert IsNode(Position(1, 1)) && IsNode(Position(MapHeight - 2, 1));
    carved + {Position(0, PickColumn(carved, 1, rollEntrance)),
              Position(MapHeight - 1, PickColumn(carved, MapHeight - 2, rollExit))}
  }

  // ---------------------------------------------------------------------
  // Walks through open cells

  /** Two cells that share a side. */
  predicate Adjacent(a: Position, b: Position) {
    (a.row == b.row && (a.col == b.col + 1 || b.col == a.col + 1)) ||
    (a.col == b.col && (a.row == b.row + 1 || b.row == a.row + 1))
  }

  /** path walks from a to b inside cells, one side-sharing step at a time. */
  ghost predicate Connects(path: seq<Position>, cells: set<Position>, a: Position, b: Position) {
    |path| > 0 && path[0] == a && path[|path| - 1] == b &&
    (forall i | 0 <= i < |path| :: path[i] in cells) &&
    (forall i | 0 <= i < |path| - 1 :: Adjacent(path[i], path[i + 1]))
  }

  ghost predicate Reachable(cells: set<Position>, a: Position, b: Position) {
    exists path :: Connects(path, cells, a, b)
  }

  /** Every cell of cells can walk to hub without leaving cells. */
  ghost predicate ConnectedVia(cells: set<Position>, hub: Position) {
    hub in cells && forall a | a in cells :: Reachable(cells, a, hub)
  }

  lemma StepReachable(cells: set<Position>, a: Position, b: Position)
    requires a in cells && b in cells && Adjacent(a, b)
    ensures Reachable(cells, a, b)
  {
    assert Connects([a, b], cells, a, b);
  }

  lemma ReachableReverse(cells: set<Position>, a: Position, b: Position)
    requires Reachable(cells, a, b)
    ensures Reachable(cells, b, a)
  {
    var path :| Connects(path, cells, a, b);
    var back := seq(|path|, i requires 0 <= i < |path| => path[|path| - 1 - i]);
    forall i | 0 <= i < |back| - 1 ensures Adjacent(back[i], back[i + 1]) {
      assert Adjacent(path[|path| - 2 - i], path[|path| - 1 - i]);
    }
    assert Connects(back, cells, b, a);
  }

  lemma ReachableJoin(cells: set<Position>, a: Position, b: Position, c: Position)
    requires Reachable(cells, a, b) && Reachable(cells, b, c)
    ensures Reachable(cells, a, c)
  {
    var p :| Connects(p, cells, a, b);
    var q :| Connects(q, cells, b, c);
    var walk := p + q[1..];
    forall i | 0 <= i < |walk| - 1 ensures Adjacent(walk[i], walk[i + 1]) {
      if i < |p| - 1 {
        assert walk[i] == p[i] && walk[i + 1] == p[i + 1];
      } else {
        assert walk[i] == q[i - |p| + 1] && walk[i + 1] == q[i - |p| + 2];
      }
    }
    assert Connects(walk, cells, a, c);
  }

  lemma ReachableGrows(small: set<Position>, big: set<Position>, a: Position, b: Position)
    requires small <= big && Reachable(small, a, b)
    ensures Reachable(big, a, b)
  {
    var path :| Connects(path, small, a, b);
    assert Connects(path, big, a, b);
  }

  // ---------------------------------------------------------------------
  // The carving tree

  /**
   * Node n hangs off the open node two steps towards d, through the open
   * link between them, and that node lies closer to the first node.
   */
  ghost predicate HangsOff(open: set<Position>, nodes: set<Position>, depth: map<Position, nat>, n: Position, d: Dir) {
    n in depth && Jump(n, d) in nodes && Jump(n, d) in depth &&
    Neighbor(n, d) in open && depth[Jump(n, d)] < depth[n]
  }

  /**
   * The open nodes form a tree grown from root: each other node was carved
   * from a node already open, and depth counts the carves in between.
   */
  ghost predicate Rooted(open: set<Position>, nodes: set<Position>, root: Position, depth: map<Position, nat>) {
    root in nodes &&
    (forall n | n in nodes :: n in depth) &&
    (forall n | n in nodes && n != root :: exists d :: HangsOff(open, nodes, depth, n, d))
  }

  /** A carve from p towards d hangs the new node off p. */
  lemma {:induction false} CarveKeepsRooted(open: set<Position>, nodes: set<Position>, root: Position,
                                            depth: map<Position, nat>, p: Position, d: Dir)
    requires Rooted(open, nodes, root, depth) && p in nodes && Jump(p, d) !in nodes
    ensures Rooted(open + {Jump(p, d), Neighbor(p, d)}, nodes + {Jump(p, d)}, root, depth[Jump(p, d) := depth[p] + 1])
  {
    var t := Jump(p, d);
    var open', nodes', depth' := open + {t, Neighbor(p, d)}, nodes + {t}, depth[t := depth[p] + 1];
    forall n | n in nodes' && n != root ensures exists e :: HangsOff(open', nodes', depth', n, e) {
      if n == t {
        assert Jump(t, d.Opposite()) == p && Neighbor(t, d.Opposite()) == Neighbor(p, d);
        assert HangsOff(open', nodes', depth', n, d.Opposite());
      } else {
        var e :| HangsOff(open, nodes, depth, n, e);
        assert HangsOff(open', nodes', depth', n, e);
      }
    }
  }

  /** Following the tree from any open node towards root is a walk through open cells. */
  lemma {:induction false} RootedReaches(open: set<Position>, nodes: set<Position>, root: Position,
                                         depth: map<Position, nat>, n: Position)
    requires Rooted(open, nodes, root, depth) && nodes <= open && n in nodes
    ensures Reachable(open, n, root)
    decreases depth[n]
  {
    if n == root {
      assert Connects([n], open, n, root);
    } else {
      var d :| HangsOff(open, nodes, depth, n, d);
      var m, up := Neighbor(n, d), Jump(n, d);
      RootedReaches(open, nodes, root, depth, up);
      StepReachable(open, n, m);
      StepReachable(open, m, up);
      ReachableJoin(open, n, m, up);
      ReachableJoin(open, n, up, root);
    }
  }

  /** A fully carved interior whose nodes form a tree from root is connected through root. */
  lemma CarvedIsConnected(open: set<Position>, nodes: set<Position>, root: Position, depth: map<Position, nat>)
    requires FullyCarved(open) && Rooted(open, nodes, root, depth)
    requires forall p :: p in nodes <==> p in open && IsNode(p)
    ensures ConnectedVia(open, root)
  {
    forall a | a in open ensures Reachable(open, a, root) {
      if IsNode(a) {
        RootedReaches(open, nodes, root, depth, a);
      } else {
        var e := LinkEnds(a).0;
        assert IsLink(a, open);
        LinkEndIsNode(a, e);
        RootedReaches(open, nodes, root, depth, e);
        StepReachable(open, a, e);
        ReachableJoin(open, a, e, root);
      }
    }
  }

  /** The first end of a corridor cell, when interior, is a node next to it. */
  lemma LinkEndIsNode(a: Position, e: Position)
    requires IsCorridor(a) && e == LinkEnds(a).0 && Interior(e)
    ensures IsNode(e) && Adjacent(a, e)
  {
  }

  // ---------------------------------------------------------------------
  // Counting the lattice

  ghost function Lattice(): set<Position> {
    set r, c | 0 <= r < MapHeight && 0 <= c < MapWidth && IsNode(Position(r, c)) :: Position(r, c)
  }

  /** The nodes (r, 1), (r, 3), ..., (r, 2 * n - 1). */
  ghost function RowNodes(r: int, n: nat): set<Position> {
    if n == 0 then {} else RowNodes(r, n - 1) + {Position(r, 2 * n - 1)}
  }

  /** The nodes (r, c) with r in 1, 3, ..., 2 * m - 1 and c in 1, 3, ..., 2 * n - 1. */
  ghost function NodesAbove(m: nat, n: nat): set<Position> {
    if m == 0 then {} else NodesAbove(m - 1, n) + RowNodes(2 * m - 1, n)
  }

  lemma {:induction false} RowNodesMembers(r: int, n: nat)
    ensures forall q :: q in RowNodes(r, n) <==> q.row == r && 1 <= q.col < 2 * n && q.col % 2 == 1
  {
    if n > 0 {
      RowNodesMembers(r, n - 1);
      forall q: Position | q.row == r && 1 <= q.col < 2 * n && q.col % 2 == 1 ensures q in RowNodes(r, n) {
        if q.col != 2 * n - 1 {
          assert q.col < 2 * n - 2;
        }
      }
    }
  }

  lemma {:induction false} RowNodesSize(r: int, n: nat)
    ensures |RowNodes(r, n)| == n
  {
    if n > 0 {
      RowNodesSize(r, n - 1);
      RowNodesMembers(r, n - 1);
    }
  }

  lemma {:induction false} NodesAboveMembers(m: nat, n: nat)
    ensures forall q :: q in NodesAbove(m, n) <==>
      1 <= q.row < 2 * m && q.row % 2 == 1 && 1 <= q.col < 2 * n && q.col % 2 == 1
  {
    if m > 0 {
      NodesAboveMembers(m - 1, n);
      RowNodesMembers(2 * m - 1, n);
      forall q: Position | 1 <= q.row < 2 * m && q.row % 2 == 1 && 1 <= q.col < 2 * n && q.col % 2 == 1
        ensures q in NodesAbove(m, n)
      {
        if q.row != 2 * m - 1 {
          assert q.row < 2 * m - 2;
        }
      }
    }
  }

  lemma {:induction false} NodesAboveSize(m: nat, n: nat)
    ensures |NodesAbove(m, n)| == m * n
  {
    if m > 0 {
      NodesAboveSize(m - 1, n);
      RowNodesSize(2 * m - 1, n);
      NewRowIsDisjoint(m, n);
      MulStep(m, n);
    }
  }

  lemma NewRowIsDisjoint(m: nat, n: nat)
    requires m > 0
    ensures NodesAbove(m - 1, n) !! RowNodes(2 * m - 1, n)
  {
    NodesAboveMembers(m - 1, n);
    RowNodesMembers(2 * m - 1, n);
  }

  lemma MulStep(m: int, n: int)
    ensures (m - 1) * n + n == m * n
  {
  }

  lemma InLattice(p: Position)
    ensures p in Lattice() <==> IsNode(p)
  {
  }

  /** The outer loop's bound is exactly the number of lattice nodes. */
  lemma LatticeSize()
    ensures |Lattice()| == NodeCount
  {
    var rows, perRow := (MapHeight - 1) / 2, (MapWidth - 1) / 2;
    assert NodeCount == rows * perRow;
    NodesAboveSize(rows, perRow);
    LatticeIsNodesAbove(rows, perRow);
  }

  lemma LatticeIsNodesAbove(rows: nat, perRow: nat)
    requires rows == (MapHeight - 1) / 2 && perRow == (MapWidth - 1) / 2
    ensures Lattice() == NodesAbove(rows, perRow)
  {
    NodesAboveMembers(rows, perRow);
    forall q: Position ensures q in Lattice() <==> q in NodesAbove(rows, perRow) {
      InLattice(q);
    }
  }

  lemma SubsetSize<T>(a: set<T>, b: set<T>)
    requires a <= b
    ensures |a| <= |b|
  {
    assert b == a + (b - a);
  }

  /**
   * Open nodes numbering at least the loop bound are all the lattice nodes,
   * and then they number exactly the bound.
   */
  lemma AllNodesOpenAtBound(nodes: set<Position>)
    requires forall p | p in nodes :: IsNode(p)
    requires |nodes| >= NodeCount
    ensures forall p :: IsNode(p) ==> p in nodes
    ensures |nodes| == NodeCount
  {
    LatticeSize();
    forall p | p in nodes ensures p in Lattice() {
      InLattice(p);
    }
    SubsetSize(nodes, Lattice());
    forall p | IsNode(p) ensures p in nodes {
      InLattice(p);
      if p !in nodes {
        SubsetSize(nodes, Lattice() - {p});
      }
    }
  }

  // ---------------------------------------------------------------------
  // One carve

  /**
   * A carve from an open node p towards a closed interior destination opens
   * two cells that were closed (the destination node and the link to it),
   * adds one node and keeps the carving invariant with done + 1.
   */
  lemma {:induction false} CarveKeepsCarving(open: set<Position>, nodes: set<Position>, done: int, p: Position, d: Dir)
    requires Carving(open, nodes, done)
    requires p in nodes
    requires CanCarve(open, p, d)
    ensures Neighbor(p, d) !in open && Neighbor(p, d) != Jump(p, d)
    ensures IsNode(Jump(p, d)) && IsCorridor(Neighbor(p, d))
    ensures Carving(open + {Jump(p, d), Neighbor(p, d)}, nodes + {Jump(p, d)}, done + 1)
  {
    var t, m := Jump(p, d), Neighbor(p, d);
    CarveGeometry(p, d);
    var open', nodes' := open + {t, m}, nodes + {t};
    forall q | q in open' ensures Interior(q) && (IsNode(q) || IsLink(q, open')) {
      if q in open && !IsNode(q) {
        assert IsLink(q, open);
      }
    }
    assert |open'| == |open| + 2;
  }

  /** The destination of a carve from a node is a node, and the intermediate cell is the corridor between the two. */
  lemma CarveGeometry(p: Position, d: Dir)
    requires IsNode(p) && Interior(Jump(p, d))
    ensures IsNode(Jump(p, d)) && IsCorridor(Neighbor(p, d)) && Neighbor(p, d) != Jump(p, d)
    ensures LinkEnds(Neighbor(p, d)) == (p, Jump(p, d)) || LinkEnds(Neighbor(p, d)) == (Jump(p, d), p)
  {
    match d
    case North => VerticalCarve(p, Jump(p, d), Neighbor(p, d), -1);
    case South => VerticalCarve(p, Jump(p, d), Neighbor(p, d), 1);
    case West => HorizontalCarve(p, Jump(p, d), Neighbor(p, d), -1);
    case East => HorizontalCarve(p, Jump(p, d), Neighbor(p, d), 1);
  }

  /** CarveGeometry for a carve two rows up (s = -1) or down (s = 1) to t over m. */
  lemma VerticalCarve(p: Position, t: Position, m: Position, s: int)
    requires IsNode(p) && (s == 1 || s == -1) && Interior(t)
    requires t == Position(p.row + 2 * s, p.col) && m == Position(p.row + s, p.col)
    ensures IsNode(t) && IsCorridor(m) && m != t
    ensures LinkEnds(m) == (p, t) || LinkEnds(m) == (t, p)
  {
    var a := p.row / 2;
    assert p.row == 2 * a + 1;
    assert m.row == 2 * (a + (s + 1) / 2);
  }

  /** CarveGeometry for a carve two columns left (s = -1) or right (s = 1) to t over m. */
  lemma HorizontalCarve(p: Position, t: Position, m: Position, s: int)
    requires IsNode(p) && (s == 1 || s == -1) && Interior(t)
    requires t == Position(p.row, p.col + 2 * s) && m == Position(p.row, p.col + s)
    ensures IsNode(t) && IsCorridor(m) && m != t
    ensures LinkEnds(m) == (p, t) || LinkEnds(m) == (t, p)
  {
    var b := p.col / 2;
    assert p.col == 2 * b + 1;
    assert m.col == 2 * (b + (s + 1) / 2);
  }

  /**
   * A lone open node can always carve: one of the nodes two rows above or
   * below it is interior and, being another cell, closed.
   */
  lemma LoneNodeCanCarve(p: Position)
    requires IsNode(p)
    ensures CanCarve({p}, p, North) || CanCarve({p}, p, South)
  {
    if p.row > 1 {
      assert p.row >= 3;
      assert Jump(p, North) == Position(p.row - 2, p.col);
    } else {
      assert Jump(p, South) == Position(3, p.col);
    }
  }
}
