/**
 * makeMaze, makeEntrance and makeExit: the generator as the function-split
 * version of the program writes it.
 *
 * The maze is an H x W boolean array updated in place; the ghost set
 * `open` mirrors its open cells, and the carving invariant of MazeGrid is
 * kept on that set.
 */
module Generator {
  import opened Wrappers
  import opened MazeGrid
  import opened RandomOracle
  import opened CarveRun

  /** `open` lists exactly the open cells of the array. */
  ghost predicate Mirrors(maze: array2<bool>, open: set<Position>)
    reads maze
  {
    maze.Length0 == MapHeight && maze.Length1 == MapWidth &&
    forall r, c :: 0 <= r < MapHeight && 0 <= c < MapWidth ==> (maze[r, c] <==> Position(r, c) in open)
  }

  /** The first loop of makeMaze: every cell becomes a wall. */
  method ClearMaze(maze: array2<bool>)
    modifies maze
    ensures forall r, c :: 0 <= r < maze.Length0 && 0 <= c < maze.Length1 ==> !maze[r, c]
  {
    for r := 0 to maze.Length0
      invariant forall i, j :: 0 <= i < r && 0 <= j < maze.Length1 ==> !maze[i, j]
    {
      for c := 0 to maze.Length1
        invariant forall i, j :: 0 <= i < r && 0 <= j < maze.Length1 ==> !maze[i, j]
        invariant forall j :: 0 <= j < c ==> !maze[r, j]
      {
        maze[r, c] := false;
      }
    }
  }

  /** std::random_shuffle on dirs, with the permutation it picks taken from the oracle. */
  method Shuffle(dirs: array<Dir>, p: Perm)
    requires dirs.Length == 4
    modifies dirs
    ensures dirs[..] == Permuted(old(dirs[..]), p)
  {
    var before := dirs[..];
    for i := 0 to 4
      invariant forall j | 0 <= j < i :: dirs[j] == before[p[j]]
    {
      dirs[i] := before[p[i]];
    }
    assert dirs[..] == Permuted(before, p);
  }

  /** Opening one in-bounds cell: the mirrored set gains exactly that cell. */
  method OpenCell(maze: array2<bool>, p: Position, ghost open: set<Position>)
    requires Mirrors(maze, open) && InBounds(p)
    modifies maze
    ensures Mirrors(maze, open + {p})
  {
    maze[p.row, p.col] := true;
  }

  /**
   * The scan of the four directions in the order dirs holds them: the
   * first direction i whose destination is interior and closed is carved
   * (destination and intermediate cell opened, cursor moved to the
   * destination); when there is none nothing changes and each direction
   * of dirs is blocked.
   */
  method ScanDirections(maze: array2<bool>, dirs: array<Dir>, row: int, col: int, ghost open: set<Position>)
    returns (blocked: bool, row': int, col': int, ghost i: int)
    requires Mirrors(maze, open) && dirs.Length == 4
    modifies maze
    ensures blocked ==>
      Mirrors(maze, open) && row' == row && col' == col &&
      forall k | 0 <= k < 4 :: !CanCarve(open, Position(row, col), dirs[k])
    ensures !blocked ==>
      0 <= i < 4 && FirstCarvable(open, Position(row, col), dirs[..], i) &&
      Position(row', col') == Jump(Position(row, col), dirs[i]) &&
      Mirrors(maze, open + {Jump(Position(row, col), dirs[i]), Neighbor(Position(row, col), dirs[i])})
  {
    var p := Position(row, col);
    ghost var ds := dirs[..];
    for j := 0 to 4
      invariant Mirrors(maze, open)
      invariant forall k | 0 <= k < j :: !CanCarve(open, p, ds[k])
    {
      var d := dirs[j];
      assert d == ds[j];
      var carved, r, c := TryDirection(maze, row, col, d, open);
      if carved {
        assert FirstCarvable(open, p, ds, j);
        return false, r, c, j;
      }
      assert !CanCarve(open, p, ds[j]);
    }
    return true, row, col, 0;
  }

  /**
   * One pass of the for loop over dirs: if the cell two steps towards d is
   * interior and closed, it and the intermediate cell are opened and the
   * destination returned; otherwise nothing changes and d is blocked.
   */
  method TryDirection(maze: array2<bool>, row: int, col: int, d: Dir, ghost open: set<Position>)
    returns (carved: bool, r: int, c: int)
    requires Mirrors(maze, open)
    modifies maze
    ensures carved <==> CanCarve(open, Position(row, col), d)
    ensures carved ==>
      Position(r, c) == Jump(Position(row, col), d) &&
      Mirrors(maze, open + {Jump(Position(row, col), d), Neighbor(Position(row, col), d)})
    ensures !carved ==> Mirrors(maze, open)
  {
    // the destination two cells away
    r := row + d.DRow() * 2;
    c := col + d.DCol() * 2;
    var p := Position(row, col);
    assert Position(r, c) == Jump(p, d);
    if r >= 1 && r < MapHeight - 1 && c >= 1 && c < MapWidth - 1 {
      assert maze[r, c] <==> Jump(p, d) in open;
      if !maze[r, c] {
        OpenCell(maze, Position(r, c), open);
        // the intermediate cell
        assert Position(row + d.DRow(), col + d.DCol()) == Neighbor(p, d);
        OpenCell(maze, Neighbor(p, d), open + {Jump(p, d)});
        assert open + {Jump(p, d)} + {Neighbor(p, d)} == open + {Jump(p, d), Neighbor(p, d)};
        return true, r, c;
      }
    }
    carved := false;
  }

  /** Blocked in each of the four entries of a list of all four directions is blocked in every direction. */
  lemma AllBlocked(open: set<Position>, p: Position, ds: seq<Dir>)
    requires HasAllDirs(ds) && forall k | 0 <= k < 4 :: !CanCarve(open, p, ds[k])
    ensures forall d :: !CanCarve(open, p, d)
  {
    forall d ensures !CanCarve(open, p, d) {
      assert d in ds by {
        match d
        case North => case South => case West => case East =>
      }
    }
  }

  /**
   * The inner do-while of makeMaze from an open node: before each scan a
   * roll that is a multiple of 5 reshuffles dirs; the loop carves until a
   * scan finds every direction blocked. Cells and nodes only ever open.
   * The counts, the cursor, dirs, the open cells and done are those of
   * InnerRun, which reads the oracle entry by entry. On success the cursor
   * is stuck, done is positive, and the carving invariant holds.
   */
  method CarveFrom(maze: array2<bool>, dirs: array<Dir>, o: Oracle, k: nat, s: nat, row: int, col: int,
                   ghost open: set<Position>, ghost nodes: set<Position>, done: int,
                   ghost root: Position, ghost depth: map<Position, nat>)
    returns (ok: bool, k': nat, s': nat, row': int, col': int,
             ghost open': set<Position>, ghost nodes': set<Position>, done': int, ghost depth': map<Position, nat>)
    requires Mirrors(maze, open) && Carving(open, nodes, done) && Position(row, col) in nodes
    requires Rooted(open, nodes, root, depth)
    requires dirs.Length == 4 && HasAllDirs(dirs[..])
    requires k <= |o.rolls| && s <= |o.shuffles|
    modifies maze, dirs
    ensures dirs.Length == 4 && HasAllDirs(dirs[..])
    ensures Run(ok, k', s', Position(row', col'), dirs[..], open', done') ==
      InnerRun(o, k, s, Position(row, col), old(dirs[..]), open, done)
    ensures Mirrors(maze, open') && nodes <= nodes'
    ensures Carving(open', nodes', done') && Rooted(open', nodes', root, depth') && Position(row', col') in nodes'
    ensures ok ==> k' == k + (done' - done) + 1
    ensures !ok ==> k' - k <= done' - done + 1
    ensures ok ==> done' > 0 && forall d :: !CanCarve(open', Position(row', col'), d)
  {
    ghost var r0 := InnerRun(o, k, s, Position(row, col), dirs[..], open, done);
    k', s', row', col', open', nodes', done', depth' := k, s, row, col, open, nodes, done, depth;
    var blocked := false;
    while !blocked
      invariant Mirrors(maze, open') && Carving(open', nodes', done') && Position(row', col') in nodes'
      invariant Rooted(open', nodes', root, depth')
      invariant dirs.Length == 4 && HasAllDirs(dirs[..])
      invariant k <= k' <= |o.rolls| && s <= s' <= |o.shuffles|
      invariant nodes <= nodes'
      invariant !blocked ==> InnerRun(o, k', s', Position(row', col'), dirs[..], open', done') == r0
      invariant blocked ==> Run(true, k', s', Position(row', col'), dirs[..], open', done') == r0
      invariant blocked ==> done' > 0 && forall d :: !CanCarve(open', Position(row', col'), d)
      decreases |o.rolls| - k'
    {
      if k' == |o.rolls| {
        return false, k', s', row', col', open', nodes', done', depth';
      }
      var passOk;
      passOk, blocked, k', s', row', col', open', nodes', done', depth' :=
        InnerPass(maze, dirs, o, k', s', row', col', open', nodes', done', root, depth');
      if !passOk {
        return false, k', s', row', col', open', nodes', done', depth';
      }
    }
    ok := true;
  }

  /**
   * One pass of the inner do-while: the roll at k is read, a multiple of 5
   * reshuffles dirs with the next permutation, and the scan carves once or
   * finds every direction blocked. The pass is one step of InnerRun: it
   * fails only when the shuffle it needs is missing, and otherwise keeps
   * the carving invariant and the tree.
   */
  method InnerPass(maze: array2<bool>, dirs: array<Dir>, o: Oracle, k: nat, s: nat, row: int, col: int,
                   ghost open: set<Position>, ghost nodes: set<Position>, done: int,
                   ghost root: Position, ghost depth: map<Position, nat>)
    returns (ok: bool, blocked: bool, k': nat, s': nat, row': int, col': int,
             ghost open': set<Position>, ghost nodes': set<Position>, done': int, ghost depth': map<Position, nat>)
    requires Mirrors(maze, open) && Carving(open, nodes, done) && Position(row, col) in nodes
    requires Rooted(open, nodes, root, depth)
    requires dirs.Length == 4 && HasAllDirs(dirs[..])
    requires k < |o.rolls| && s <= |o.shuffles|
    modifies maze, dirs
    ensures dirs.Length == 4 && HasAllDirs(dirs[..])
    ensures Mirrors(maze, open') && k' == k + 1 && s <= s' <= |o.shuffles| && nodes <= nodes'
    ensures Carving(open', nodes', done') && Position(row', col') in nodes' && Rooted(open', nodes', root, depth')
    ensures ok && blocked ==> done' > 0 && forall d :: !CanCarve(open', Position(row', col'), d)
    ensures InnerRun(o, k, s, Position(row, col), old(dirs[..]), open, done) ==
      if !ok then Run(false, k', s', Position(row', col'), dirs[..], open', done')
      else if blocked then Run(true, k', s', Position(row', col'), dirs[..], open', done')
      else InnerRun(o, k', s', Position(row', col'), dirs[..], open', done')
  {
    ghost var dirs0 := dirs[..];
    var roll := o.rolls[k];
    k', s' := k + 1, s;
    if roll % 5 == 0 {
      if s == |o.shuffles| {
        return false, false, k', s', row, col, open, nodes, done, depth;
      }
      Shuffle(dirs, o.shuffles[s]);
      s' := s + 1;
    }
    ok := true;
    InnerPassStep(o, k, s, Position(row, col), dirs0, open, done, dirs[..], s');
    blocked, row', col', open', nodes', done', depth' := ScanAndCarve(maze, dirs, row, col, open, nodes, done, root, depth);
  }

  /**
   * The scan of one pass with its effect on the ghost state: it carves
   * towards the first carvable entry of dirs, keeping the carving
   * invariant and the tree, or, when all four entries are blocked, leaves
   * everything as it was.
   */
  method ScanAndCarve(maze: array2<bool>, dirs: array<Dir>, row: int, col: int,
                      ghost open: set<Position>, ghost nodes: set<Position>, done: int,
                      ghost root: Position, ghost depth: map<Position, nat>)
    returns (blocked: bool, row': int, col': int,
             ghost open': set<Position>, ghost nodes': set<Position>, done': int, ghost depth': map<Position, nat>)
    requires Mirrors(maze, open) && Carving(open, nodes, done) && Position(row, col) in nodes
    requires Rooted(open, nodes, root, depth)
    requires dirs.Length == 4 && HasAllDirs(dirs[..])
    modifies maze
    ensures Mirrors(maze, open') && nodes <= nodes'
    ensures Carving(open', nodes', done') && Position(row', col') in nodes' && Rooted(open', nodes', root, depth')
    ensures blocked ==> done' > 0 && forall d :: !CanCarve(open', Position(row', col'), d)
    ensures var p, i := Position(row, col), FirstCarvableIndex(open, Position(row, col), dirs[..]);
      if i == 4 then blocked && row' == row && col' == col && open' == open && done' == done
      else (!blocked && Position(row', col') == Jump(p, dirs[i]) &&
            open' == open + {Jump(p, dirs[i]), Neighbor(p, dirs[i])} && done' == done + 1)
  {
    var p := Position(row, col);
    ghost var i;
    blocked, row', col', i := ScanDirections(maze, dirs, row, col, open);
    if !blocked {
      FirstCarvableIsIndex(open, p, dirs[..], i);
      CarveKeepsCarving(open, nodes, done, p, dirs[i]);
      CarveKeepsRooted(open, nodes, root, depth, p, dirs[i]);
      depth' := depth[Jump(p, dirs[i]) := depth[p] + 1];
      open' := open + {Jump(p, dirs[i]), Neighbor(p, dirs[i])};
      nodes' := nodes + {Jump(p, dirs[i])};
      done' := done + 1;
    } else if done == 0 {
      FirstPassCarves(open, nodes, p);
      assert false;
    } else {
      NoCarvableIndex(open, p, dirs[..]);
      AllBlocked(open, p, dirs[..]);
      open', nodes', done', depth' := open, nodes, done, depth;
    }
  }

  /**
   * The restart and carving loops of makeMaze. The success flag, the
   * numbers `k` and `s` of rolls and shuffles read and the open cells are
   * those of Carved(o). Starting from an all-wall grid, a run that the
   * oracle does not cut short ends with every lattice node open,
   * 2 * NodeCount - 1 open cells, all of them interior, and every open cell
   * that is not a node a link between two open nodes.
   */
  method CarveMaze(maze: array2<bool>, o: Oracle)
    returns (ok: bool, k: nat, s: nat, ghost open: set<Position>, ghost root: Position)
    requires maze.Length0 == MapHeight && maze.Length1 == MapWidth
    requires forall r, c :: 0 <= r < MapHeight && 0 <= c < MapWidth ==> !maze[r, c]
    modifies maze
    ensures Outcome(ok, k, s, open) == Carved(o)
    ensures k <= |o.rolls| && s <= |o.shuffles|
    ensures !ok ==> k + 2 > |o.rolls| || s == |o.shuffles|
    ensures Mirrors(maze, open)
    ensures ok ==> FullyCarved(open) && ConnectedVia(open, root)
  {
    var dirs := new Dir[] [North, South, West, East];
    assert dirs[..] == InitialDirs;
    var done := 0;
    s := 0;
    k := 0;
    open := {};
    ghost var nodes: set<Position> := {};
    ghost var depth: map<Position, nat> := map[];
    root := Position(1, 1);
    ghost var target := Carved(o);
    while true
      invariant Mirrors(maze, open)
      invariant dirs.Length == 4 && HasAllDirs(dirs[..])
      invariant k <= |o.rolls| && s <= |o.shuffles|
      invariant OuterRun(o, k, s, dirs[..], open, done) == target
      invariant done >= 0
      invariant done == 0 ==> open == {}
      invariant done > 0 ==> Carving(open, nodes, done) && Rooted(open, nodes, root, depth)
      decreases |o.rolls| - k
    {
      if k + 2 > |o.rolls| {
        return false, k, s, open, root;
      }
      var restartOk;
      restartOk, k, s, done, open, nodes, root, depth := Restart(maze, dirs, o, k, s, done, open, nodes, root, depth);
      if !restartOk {
        return false, k, s, open, root;
      }
      if done + 1 >= NodeCount {
        break;
      }
    }
    assert Carving(open, nodes, done) && done + 1 >= NodeCount;
    AllNodesOpenAtBound(nodes);
    assert forall p :: IsNode(p) ==> p in open;
    CarvedIsConnected(open, nodes, root, depth);
    ok := true;
  }

  /**
   * One pass of the restart do-while: two rolls pick a lattice node, which
   * is opened when nothing is carved yet; from an open node dirs is
   * shuffled and the inner loop runs. The pass is one step of OuterRun, and
   * when it lasts the carving invariant and the tree hold with done > 0.
   */
  method Restart(maze: array2<bool>, dirs: array<Dir>, o: Oracle, k: nat, s: nat, done: int,
                 ghost open: set<Position>, ghost nodes: set<Position>, ghost root: Position, ghost depth: map<Position, nat>)
    returns (ok: bool, k': nat, s': nat, done': int,
             ghost open': set<Position>, ghost nodes': set<Position>, ghost root': Position, ghost depth': map<Position, nat>)
    requires Mirrors(maze, open) && dirs.Length == 4 && HasAllDirs(dirs[..])
    requires k + 2 <= |o.rolls| && s <= |o.shuffles|
    requires done >= 0 && (done == 0 ==> open == {})
    requires done > 0 ==> Carving(open, nodes, done) && Rooted(open, nodes, root, depth)
    modifies maze, dirs
    ensures Mirrors(maze, open') && dirs.Length == 4 && HasAllDirs(dirs[..])
    ensures k + 2 <= k' <= |o.rolls| && s <= s' <= |o.shuffles|
    ensures ok ==> done' > 0 && Carving(open', nodes', done') && Rooted(open', nodes', root', depth')
    ensures OuterRun(o, k, s, old(dirs[..]), open, done) ==
      if !ok then Outcome(false, k', s', open')
      else if done' + 1 >= NodeCount then Outcome(true, k', s', open')
      else OuterRun(o, k', s', dirs[..], open', done')
  {
    ghost var dirs0 := dirs[..];
    // a random lattice node
    var row := RestartCoord(o.rolls[k], MapHeight);
    var col := RestartCoord(o.rolls[k + 1], MapWidth);
    assert Position(row, col) == RestartNode(o, k);
    k', s', done', open', nodes', root', depth' := k + 2, s, done, open, nodes, root, depth;
    if done == 0 {
      maze[row, col] := true;
      open', nodes' := {Position(row, col)}, {Position(row, col)};
      root', depth' := Position(row, col), map[Position(row, col) := 0];
      assert open' == open + {Position(row, col)};
      assert Carving(open', nodes', done) && Rooted(open', nodes', root', depth');
    }
    if maze[row, col] {
      assert Position(row, col) in nodes';
      ok, k', s', done', open', nodes', depth' := RestartOpen(maze, dirs, o, k, s, done, open, open', nodes', root', depth');
    } else {
      OuterRestartClosed(o, k, s, dirs0, open, done, open');
      ok := true;
    }
  }

  /**
   * The rest of a restart pass whose node, drawn from the rolls at k and
   * k + 1, is open in open1: no shuffle left ends the run; otherwise dirs is
   * shuffled and the inner loop runs from that node.
   */
  method RestartOpen(maze: array2<bool>, dirs: array<Dir>, o: Oracle, k: nat, s: nat, done: int,
                     ghost open: set<Position>, ghost open1: set<Position>, ghost nodes: set<Position>,
                     ghost root: Position, ghost depth: map<Position, nat>)
    returns (ok: bool, k': nat, s': nat, done': int,
             ghost open': set<Position>, ghost nodes': set<Position>, ghost depth': map<Position, nat>)
    requires k + 2 <= |o.rolls| && s <= |o.shuffles|
    requires open1 == (if done == 0 then open + {RestartNode(o, k)} else open) && RestartNode(o, k) in nodes
    requires Mirrors(maze, open1) && Carving(open1, nodes, done) && Rooted(open1, nodes, root, depth)
    requires dirs.Length == 4 && HasAllDirs(dirs[..])
    modifies maze, dirs
    ensures Mirrors(maze, open') && dirs.Length == 4 && HasAllDirs(dirs[..])
    ensures k + 2 <= k' <= |o.rolls| && s <= s' <= |o.shuffles|
    ensures ok ==> done' > 0 && Carving(open', nodes', done') && Rooted(open', nodes', root, depth')
    ensures OuterRun(o, k, s, old(dirs[..]), open, done) ==
      if !ok then Outcome(false, k', s', open')
      else if done' + 1 >= NodeCount then Outcome(true, k', s', open')
      else OuterRun(o, k', s', dirs[..], open', done')
  {
    assert RestartNode(o, k) in open1;
    if s == |o.shuffles| {
      OuterRestartNoShuffle(o, k, s, dirs[..], open, done, open1);
      return false, k + 2, s, done, open1, nodes, depth;
    }
    ghost var dirs0 := dirs[..];
    Shuffle(dirs, o.shuffles[s]);
    var row, col := RestartNode(o, k).row, RestartNode(o, k).col;
    ok, k', s', row, col, open', nodes', done', depth' :=
      CarveFrom(maze, dirs, o, k + 2, s + 1, row, col, open1, nodes, done, root, depth);
    OuterRestartOpen(o, k, s, dirs0, open, done, open1, Run(ok, k', s', Position(row, col), dirs[..], open', done'));
  }

  /**
   * On the first pass the cursor is the only open cell, so the scan of the
   * four directions always finds a carve: done can stay 0 only if the
   * oracle runs out.
   */
  lemma FirstPassCarves(open: set<Position>, nodes: set<Position>, p: Position)
    requires Carving(open, nodes, 0) && p in nodes
    ensures CanCarve(open, p, North) || CanCarve(open, p, South)
  {
    assert |open - {p}| == 0;
    assert open == {p};
    LoneNodeCanCarve(p);
  }

  /** The columns 1 .. hi - 1 of row r that are open, in increasing order: what the freeCols loop collects. */
  function FreeColumns(maze: array2<bool>, r: int, hi: int): (cols: seq<int>)
    reads maze
    requires 0 <= r < maze.Length0 && 1 <= hi <= maze.Length1
    ensures forall c :: c in cols <==> 1 <= c < hi && maze[r, c]
    ensures forall i, j | 0 <= i < j < |cols| :: cols[i] < cols[j]
    decreases hi
  {
    if hi == 1 then []
    else
      var before := FreeColumns(maze, r, hi - 1);
      assert forall i | 0 <= i < |before| :: before[i] < hi - 1 by {
        forall i | 0 <= i < |before| ensures before[i] < hi - 1 {
          assert before[i] in before;
        }
      }
      before + (if maze[r, hi - 1] then [hi - 1] else [])
  }

  /** Where the array agrees with cells on row r, the freeCols loop collects the open columns of cells. */
  lemma {:induction false} FreeColumnsAgree(maze: array2<bool>, cells: set<Position>, r: int, hi: int)
    requires 0 <= r < maze.Length0 && 1 <= hi <= maze.Length1
    requires forall c | 1 <= c < hi :: maze[r, c] <==> Position(r, c) in cells
    ensures FreeColumns(maze, r, hi) == OpenColumns(cells, r, hi)
    decreases hi
  {
    if hi > 1 {
      FreeColumnsAgree(maze, cells, r, hi - 1);
    }
  }

  /** Row r has an open cell among columns 1 .. W - 2. */
  ghost predicate HasFreeColumn(maze: array2<bool>, r: int)
    reads maze
    requires 0 <= r < maze.Length0 && maze.Length1 == MapWidth
  {
    exists c | 1 <= c < MapWidth - 1 :: maze[r, c]
  }

  /** The loop that pushes every open column 1 .. W - 2 of row r onto freeCols. */
  method CollectFreeCols(maze: array2<bool>, r: int) returns (freeCols: seq<int>)
    requires 0 <= r < maze.Length0 && maze.Length1 == MapWidth
    ensures freeCols == FreeColumns(maze, r, MapWidth - 1)
    ensures forall c :: c in freeCols <==> 1 <= c < MapWidth - 1 && maze[r, c]
  {
    freeCols := [];
    for i := 1 to MapWidth - 1
      invariant freeCols == FreeColumns(maze, r, i)
    {
      if maze[r, i] {
        freeCols := freeCols + [i];
      }
    }
  }

  /**
   * makeEntrance: the cell of row 0 above the open cell of row 1 that the
   * roll picks among the open ones. With no open cell in row 1 the source's
   * `rand() % freeCols.size()` divides by zero; that case is None here.
   */
  method MakeEntrance(maze: array2<bool>, roll: nat) returns (entrance: Option<Position>)
    requires maze.Length0 == MapHeight && maze.Length1 == MapWidth
    ensures entrance.None? <==> !HasFreeColumn(maze, 1)
    ensures entrance.Some? ==>
      var free := FreeColumns(maze, 1, MapWidth - 1);
      |free| > 0 && entrance.value == Position(0, free[roll % |free|])
    ensures entrance.Some? ==>
      entrance.value.row == 0 && 1 <= entrance.value.col < MapWidth - 1 && maze[1, entrance.value.col]
  {
    var freeCols := CollectFreeCols(maze, 1);
    if |freeCols| == 0 {
      return None;
    }
    assert freeCols[roll % |freeCols|] in freeCols;
    return Some(Position(0, freeCols[roll % |freeCols|]));
  }

  /** makeExit: the mirror image of makeEntrance on rows H - 2 and H - 1. */
  method MakeExit(maze: array2<bool>, roll: nat) returns (exit: Option<Position>)
    requires maze.Length0 == MapHeight && maze.Length1 == MapWidth
    ensures exit.None? <==> !HasFreeColumn(maze, MapHeight - 2)
    ensures exit.Some? ==>
      var free := FreeColumns(maze, MapHeight - 2, MapWidth - 1);
      |free| > 0 && exit.value == Position(MapHeight - 1, free[roll % |free|])
    ensures exit.Some? ==>
      exit.value.row == MapHeight - 1 && 1 <= exit.value.col < MapWidth - 1 &&
      maze[MapHeight - 2, exit.value.col]
  {
    var freeCols := CollectFreeCols(maze, MapHeight - 2);
    if |freeCols| == 0 {
      return None;
    }
    assert freeCols[roll % |freeCols|] in freeCols;
    return Some(Position(MapHeight - 1, freeCols[roll % |freeCols|]));
  }

  /** The value copy of the array that makeMaze returns; its open cells are the ones `open` mirrors. */
  method Snapshot(maze: array2<bool>, ghost open: set<Position>) returns (g: Grid)
    requires Mirrors(maze, open)
    requires forall p | p in open :: InBounds(p)
    ensures IsGrid(g)
    ensures forall r, c | 0 <= r < MapHeight && 0 <= c < MapWidth :: g[r][c] == maze[r, c]
    ensures OpenCells(g) == open
  {
    g := seq(MapHeight, r requires 0 <= r < MapHeight reads maze =>
      seq(MapWidth, c requires 0 <= c < MapWidth reads maze => maze[r, c]));
    forall p | p in open ensures p in OpenCells(g) {
      assert g[p.row][p.col];
    }
  }

  /**
   * Opening (0, ce) above the open cell (1, ce) and (H - 1, cx) below the
   * open cell (H - 2, cx) of a fully carved interior gives the finished
   * layout with exactly those two border openings.
   */
  lemma OpeningsFinishMaze(carved: set<Position>, root: Position, ce: int, cx: int)
    requires FullyCarved(carved) && ConnectedVia(carved, root)
    requires 1 <= ce < MapWidth - 1 && Position(1, ce) in carved
    requires 1 <= cx < MapWidth - 1 && Position(MapHeight - 2, cx) in carved
    ensures IsMazeLayout(carved + {Position(0, ce), Position(MapHeight - 1, cx)}, ce, cx)
    ensures forall p | Interior(p) :: p in carved + {Position(0, ce), Position(MapHeight - 1, cx)} <==> p in carved
  {
    var entrance, exit := Position(0, ce), Position(MapHeight - 1, cx);
    assert entrance !in carved && exit !in carved;
    var cells := carved + {entrance, exit};
    assert cells - {entrance, exit} == carved;
    var above, below := Position(1, ce), Position(MapHeight - 2, cx);
    // every carved cell walks to root, and root walks back to the cell below the entrance
    ReachableGrows(carved, cells, above, root);
    ReachableReverse(cells, above, root);
    StepReachable(cells, above, entrance);
    ReachableJoin(cells, root, above, entrance);
    forall a | a in carved ensures Reachable(cells, a, entrance) {
      ReachableGrows(carved, cells, a, root);
      ReachableJoin(cells, a, root, entrance);
    }
    assert Reachable(cells, below, entrance);
    StepReachable(cells, exit, below);
    ReachableJoin(cells, exit, below, entrance);
    assert Connects([entrance], cells, entrance, entrance);
  }

  /** The two cells opened at the picked columns are what Openings adds to the carved cells. */
  lemma OpeningsArePicked(carved: set<Position>, rollEntrance: nat, rollExit: nat, ce: int, cx: int)
    requires FullyCarved(carved) && Position(1, 1) in carved && Position(MapHeight - 2, 1) in carved
    requires ce == PickColumn(carved, 1, rollEntrance) && cx == PickColumn(carved, MapHeight - 2, rollExit)
    ensures Openings(carved, rollEntrance, rollExit) == carved + {Position(0, ce), Position(MapHeight - 1, cx)}
  {
  }

  /**
   * A grid whose open cells are the carved cells plus the two picked
   * openings is a finished maze, and its interior is the carved cells.
   */
  lemma OpeningsMakeMaze(g: Grid, carved: set<Position>, root: Position, rollEntrance: nat, rollExit: nat)
    requires IsGrid(g) && FullyCarved(carved) && ConnectedVia(carved, root)
    requires OpenCells(g) == Openings(carved, rollEntrance, rollExit)
    ensures IsMaze(g)
    ensures forall p | Interior(p) :: p in OpenCells(g) <==> p in carved
  {
    assert IsNode(Position(1, 1)) && IsNode(Position(MapHeight - 2, 1));
    var ce, cx := PickColumn(carved, 1, rollEntrance), PickColumn(carved, MapHeight - 2, rollExit);
    OpeningsFinishMaze(carved, root, ce, cx);
    assert IsMazeLayout(OpenCells(g), ce, cx);
  }

  /**
   * The last two steps of makeMaze: the entrance picked by makeEntrance and
   * the exit picked by makeExit are opened. Row 1 and row H - 2 each hold an
   * open cell, so neither pick meets an empty freeCols; ce and cx are the
   * columns the two rolls pick, and the carved cells gain exactly the
   * entrance, above the open cell (1, ce), and the exit, below the open
   * cell (H - 2, cx).
   */
  method OpenEntranceAndExit(maze: array2<bool>, rollEntrance: nat, rollExit: nat, ghost carved: set<Position>)
    returns (ce: int, cx: int)
    requires Mirrors(maze, carved)
    requires Position(1, 1) in carved && Position(MapHeight - 2, 1) in carved
    modifies maze
    ensures ce == PickColumn(carved, 1, rollEntrance)
    ensures cx == PickColumn(carved, MapHeight - 2, rollExit)
    ensures 1 <= ce < MapWidth - 1 && Position(1, ce) in carved
    ensures 1 <= cx < MapWidth - 1 && Position(MapHeight - 2, cx) in carved
    ensures Mirrors(maze, carved + {Position(0, ce), Position(MapHeight - 1, cx)})
  {
    assert maze[1, 1] && maze[MapHeight - 2, 1];
    FreeColumnsAgree(maze, carved, 1, MapWidth - 1);
    var entrance := MakeEntrance(maze, rollEntrance);
    ce := entrance.value.col;
    OpenCell(maze, entrance.value, carved);
    assert maze[MapHeight - 2, 1];
    FreeColumnsAgree(maze, carved, MapHeight - 2, MapWidth - 1);
    var exit := MakeExit(maze, rollExit);
    cx := exit.value.col;
    OpenCell(maze, exit.value, carved + {entrance.value});
  }

  /**
   * The end of makeMaze after carving: the entrance and the exit are
   * opened and the grid is returned. It is a finished maze whose open cells
   * are the carved ones plus the two openings the rolls pick.
   */
  method FinishMaze(maze: array2<bool>, rollEntrance: nat, rollExit: nat, ghost carved: set<Position>, ghost root: Position)
    returns (g: Grid)
    requires Mirrors(maze, carved) && FullyCarved(carved) && ConnectedVia(carved, root)
    modifies maze
    ensures IsMaze(g)
    ensures OpenCells(g) == Openings(carved, rollEntrance, rollExit)
    ensures forall p | Interior(p) :: p in OpenCells(g) <==> p in carved
  {
    assert IsNode(Position(1, 1)) && IsNode(Position(MapHeight - 2, 1));
    var ce, cx := OpenEntranceAndExit(maze, rollEntrance, rollExit, carved);
    OpeningsArePicked(carved, rollEntrance, rollExit, ce, cx);
    g := Snapshot(maze, Openings(carved, rollEntrance, rollExit));
    OpeningsMakeMaze(g, carved, root, rollEntrance, rollExit);
  }

  /**
   * makeMaze: clear, carve, then open the entrance and the exit. The
   * result is None exactly when the carving Carved(o) runs out of the
   * oracle or no two rolls remain for the pickers; `k` and `s` are the
   * rolls and shuffles read, those of the carving plus the two picker
   * rolls. A returned grid is a finished maze: its open cells are the
   * carved cells (every lattice node open, NodeCount - 1 links) plus the
   * entrance above the column of row 1 and the exit below the column of
   * row H - 2 that the two picker rolls select, and every open cell is
   * reachable from the entrance.
   */
  method MakeMaze(o: Oracle) returns (res: Option<Grid>, k: nat, s: nat)
    ensures res.None? <==> !Carved(o).ok || Carved(o).k + 2 > |o.rolls|
    ensures k == (if res.Some? then Carved(o).k + 2 else Carved(o).k) && s == Carved(o).s
    ensures res.Some? ==> IsMaze(res.value) && FullyCarved(Carved(o).open)
    ensures res.Some? ==>
      OpenCells(res.value) == Openings(Carved(o).open, o.rolls[Carved(o).k], o.rolls[Carved(o).k + 1])
  {
    var maze := new bool[MapHeight, MapWidth];
    ClearMaze(maze);
    var ok;
    ghost var carved, root;
    ok, k, s, carved, root := CarveMaze(maze, o);
    if !ok || k + 2 > |o.rolls| {
      return None, k, s;
    }
    var g := FinishMaze(maze, o.rolls[k], o.rolls[k + 1], carved, root);
    return Some(g), k + 2, s;
  }
}
