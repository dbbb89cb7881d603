/**
 * The single-function generator: main in testmaze.cc runs the same clear
 * and carve statements as makeMaze, then picks the entrance and the exit
 * itself, indexing freeCols without a check that it is non-empty. Here that
 * index is proved in range, because rows 1 and H - 2 of a fully carved
 * interior always hold an open node. The grid main prints is returned.
 */
module InlineGenerator {
  import opened Wrappers
  import opened MazeGrid
  import opened RandomOracle
  import opened CarveRun
  import opened Generator

  /**
   * The tail of main: freeCols is filled from row 1 and one of its columns
   * opened on row 0, then it is cleared, refilled from row H - 2 and one of
   * its columns opened on row H - 1, each the column its roll picks. Both
   * lists hold column 1, so the `rand() % freeCols.size()` index is always
   * in range.
   */
  method OpenEntranceAndExit(maze: array2<bool>, rollEntrance: nat, rollExit: nat, ghost carved: set<Position>)
    returns (ce: int, cx: int)
    requires Mirrors(maze, carved)
    requires Position(1, 1) in carved && Position(MapHeight - 2, 1) in carved
    modifies maze
    ensures ce == PickColumn(carved, 1, rollEntrance)
    ensures cx == PickColumn(carved, MapHeight - 2, rollExit)
    ensures 1 <= ce < MapWidth - 1 && Position(1, ce) in carved
    ensures 1 <= cx < MapWidth - 1 && Position(MapHeight - 2, cx) in carved
    ensures Mirrors(maze, carved + {Position(0, ce), Position(MapHeight - 1, cx)})
  {
    FreeColumnsAgree(maze, carved, 1, MapWidth - 1);
    var freeCols := CollectFreeCols(maze, 1);
    assert 1 in freeCols;
    ce := freeCols[rollEntrance % |freeCols|];
    assert ce in freeCols;
    OpenCell(maze, Position(0, ce), carved);

    freeCols := [];
    assert maze[MapHeight - 2, 1];
    FreeColumnsAgree(maze, carved, MapHeight - 2, MapWidth - 1);
    freeCols := CollectFreeCols(maze, MapHeight - 2);
    assert 1 in freeCols;
    cx := freeCols[rollExit % |freeCols|];
    assert cx in freeCols;
    OpenCell(maze, Position(MapHeight - 1, cx), carved + {Position(0, ce)});
  }

  /**
   * The end of main after carving: the entrance and the exit are picked
   * and opened inline, and the grid main prints is returned. It is a
   * finished maze whose open cells are the carved ones plus the two
   * openings the rolls pick.
   */
  method FinishInline(maze: array2<bool>, rollEntrance: nat, rollExit: nat, ghost carved: set<Position>, ghost root: Position)
    returns (g: Grid)
    requires Mirrors(maze, carved) && FullyCarved(carved) && ConnectedVia(carved, root)
    modifies maze
    ensures IsMaze(g)
    ensures OpenCells(g) == Openings(carved, rollEntrance, rollExit)
    ensures forall p | Interior(p) :: p in OpenCells(g) <==> p in carved
  {
    assert IsNode(Position(1, 1)) && IsNode(Position(MapHeight - 2, 1));
    var ce, cx := OpenEntranceAndExit(maze, rollEntrance, rollExit, carved);
    OpeningsArePicked(carved, rollEntrance, rollExit, ce, cx);
    g := Snapshot(maze, Openings(carved, rollEntrance, rollExit));
    OpeningsMakeMaze(g, carved, root, rollEntrance, rollExit);
  }

  /**
   * main without its output: the result is None exactly when the carving
   * Carved(o) runs out of the oracle or no two rolls remain for the
   * entrance and the exit; `k` and `s` are the rolls and shuffles read.
   * The printed grid is a finished maze whose open cells are the carved
   * cells plus one entrance on the top border and one exit on the bottom
   * border, in the columns of rows 1 and H - 2 that the two rolls pick,
   * and every open cell is reachable from the entrance.
   */
  method GenerateInline(o: Oracle) returns (res: Option<Grid>, k: nat, s: nat)
    ensures res.None? <==> !Carved(o).ok || Carved(o).k + 2 > |o.rolls|
    ensures k == (if res.Some? then Carved(o).k + 2 else Carved(o).k) && s == Carved(o).s
    ensures res.Some? ==> IsMaze(res.value) && FullyCarved(Carved(o).open)
    ensures res.Some? ==>
      OpenCells(res.value) == Openings(Carved(o).open, o.rolls[Carved(o).k], o.rolls[Carved(o).k + 1])
  {
    var maze := new bool[MapHeight, MapWidth];
    ClearMaze(maze);
    var ok;
    ghost var carved, root;
    ok, k, s, carved, root := CarveMaze(maze, o);
    if !ok || k + 2 > |o.rolls| {
      return None, k, s;
    }
    var g := FinishInline(maze, o.rolls[k], o.rolls[k + 1], carved, root);
    return Some(g), k + 2, s;
  }
}
