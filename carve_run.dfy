/**
 * The carving loops of makeMaze as functions of the oracle: which cells a
 * run opens and how many rolls and shuffles it reads. Each function takes
 * the next roll at index k and the next shuffle at index s, and moves the
 * index past every entry it reads, so the counts it returns are exactly
 * where the run stopped reading. The methods of Generator are proved to
 * compute these functions, counts included.
 */
module CarveRun {
  import opened MazeGrid
  import opened RandomOracle

  /** The state an inner do-while leaves: whether the oracle lasted, the read positions, the cursor, dirs, the open cells and done. */
  datatype Run = Run(ok: bool, k: nat, s: nat, cursor: Position, dirs: seq<Dir>, open: set<Position>, done: int)

  /** What the restart loop leaves: whether the oracle lasted, the read positions and the open cells. */
  datatype Outcome = Outcome(ok: bool, k: nat, s: nat, open: set<Position>)

  /** Index i is the first in dirs from which p can carve. */
  ghost predicate FirstCarvable(open: set<Position>, p: Position, dirs: seq<Dir>, i: int)
    requires 0 <= i < |dirs|
  {
    CanCarve(open, p, dirs[i]) && forall j | 0 <= j < i :: !CanCarve(open, p, dirs[j])
  }

  /** The first of the four entries of dirs towards which p can carve, or 4 when all four are blocked. */
  ghost function FirstCarvableIndex(open: set<Position>, p: Position, dirs: seq<Dir>): (i: int)
    requires |dirs| == 4
    ensures 0 <= i <= 4
  {
    if CanCarve(open, p, dirs[0]) then 0
    else if CanCarve(open, p, dirs[1]) then 1
    else if CanCarve(open, p, dirs[2]) then 2
    else if CanCarve(open, p, dirs[3]) then 3
    else 4
  }

  /**
   * The inner do-while from cursor p: each pass reads one roll, reshuffles
   * dirs with the next permutation when the roll is a multiple of 5, and
   * carves towards the first carvable entry of dirs; the pass that finds
   * every entry blocked ends the loop. Every pass but the last carves, so
   * a run that lasts reads exactly one roll more than it carves.
   */
  ghost function InnerRun(o: Oracle, k: nat, s: nat, p: Position, dirs: seq<Dir>, open: set<Position>, done: int): (r: Run)
    requires k <= |o.rolls| && s <= |o.shuffles| && |dirs| == 4
    ensures k <= r.k <= |o.rolls| && s <= r.s <= |o.shuffles| && |r.dirs| == 4
    ensures done <= r.done && open <= r.open
    ensures !r.ok ==> r.k == |o.rolls| || r.s == |o.shuffles|
    ensures r.ok ==> r.k == k + (r.done - done) + 1
    ensures !r.ok ==> r.k - k <= r.done - done + 1
    decreases |o.rolls| - k
  {
    if k == |o.rolls| then Run(false, k, s, p, dirs, open, done)
    else if o.rolls[k] % 5 == 0 && s == |o.shuffles| then Run(false, k + 1, s, p, dirs, open, done)
    else
      var dirs' := if o.rolls[k] % 5 == 0 then Permuted(dirs, o.shuffles[s]) else dirs;
      var s' := if o.rolls[k] % 5 == 0 then s + 1 else s;
      var i := FirstCarvableIndex(open, p, dirs');
      if i == 4 then Run(true, k + 1, s', p, dirs', open, done)
      else
        var q := Jump(p, dirs'[i]);
        InnerRun(o, k + 1, s', q, dirs', open + {q, Neighbor(p, dirs'[i])}, done + 1)
  }

  /**
   * The restart do-while: each restart reads two rolls for a lattice node
   * (opened when nothing is carved yet); from an open node it reads a
   * shuffle and runs the inner loop. It stops once done + 1 reaches
   * NodeCount, and fails only when it needs two rolls or a shuffle that
   * the oracle no longer holds, or the inner loop runs out.
   */
  ghost function OuterRun(o: Oracle, k: nat, s: nat, dirs: seq<Dir>, open: set<Position>, done: int): (r: Outcome)
    requires k <= |o.rolls| && s <= |o.shuffles| && |dirs| == 4
    ensures k <= r.k <= |o.rolls| && s <= r.s <= |o.shuffles|
    ensures open <= r.open
    ensures !r.ok ==> r.k + 2 > |o.rolls| || r.s == |o.shuffles|
    decreases |o.rolls| - k
  {
    if k + 2 > |o.rolls| then Outcome(false, k, s, open)
    else
      var p := RestartNode(o, k);
      var open' := if done == 0 then open + {p} else open;
      if p !in open' then
        if done + 1 >= NodeCount then Outcome(true, k + 2, s, open')
        else OuterRun(o, k + 2, s, dirs, open', done)
      else if s == |o.shuffles| then Outcome(false, k + 2, s, open')
      else
        var r := InnerRun(o, k + 2, s + 1, p, Permuted(dirs, o.shuffles[s]), open', done);
        if !r.ok then Outcome(false, r.k, r.s, r.open)
        else if r.done + 1 >= NodeCount then Outcome(true, r.k, r.s, r.open)
        else OuterRun(o, r.k, r.s, r.dirs, r.open, r.done)
  }

  /** The first carvable entry of dirs is the one at i. */
  lemma FirstCarvableIsIndex(open: set<Position>, p: Position, dirs: seq<Dir>, i: int)
    requires |dirs| == 4 && 0 <= i < 4 && FirstCarvable(open, p, dirs, i)
    ensures FirstCarvableIndex(open, p, dirs) == i
  {
    if i > 0 { assert !CanCarve(open, p, dirs[0]); }
    if i > 1 { assert !CanCarve(open, p, dirs[1]); }
    if i > 2 { assert !CanCarve(open, p, dirs[2]); }
  }

  /** With all four entries of dirs blocked, there is no carvable entry. */
  lemma NoCarvableIndex(open: set<Position>, p: Position, dirs: seq<Dir>)
    requires |dirs| == 4 && forall m | 0 <= m < 4 :: !CanCarve(open, p, dirs[m])
    ensures FirstCarvableIndex(open, p, dirs) == 4
  {
  }

  /**
   * One pass of the inner loop that lasts: it reads the roll at k (and the
   * shuffle at s when the roll is a multiple of 5, giving dirs1), then
   * either carves towards the first carvable entry of dirs1 and goes on, or
   * finds all four blocked and ends the loop.
   */
  lemma InnerPassStep(o: Oracle, k: nat, s: nat, p: Position, dirs: seq<Dir>, open: set<Position>, done: int,
                      dirs1: seq<Dir>, s1: nat)
    requires k < |o.rolls| && s <= |o.shuffles| && |dirs| == 4
    requires if o.rolls[k] % 5 == 0 then s < |o.shuffles| && dirs1 == Permuted(dirs, o.shuffles[s]) && s1 == s + 1
             else dirs1 == dirs && s1 == s
    ensures InnerRun(o, k, s, p, dirs, open, done) ==
      var i := FirstCarvableIndex(open, p, dirs1);
      if i == 4 then Run(true, k + 1, s1, p, dirs1, open, done)
      else InnerRun(o, k + 1, s1, Jump(p, dirs1[i]), dirs1, open + {Jump(p, dirs1[i]), Neighbor(p, dirs1[i])}, done + 1)
  {
  }

  /** The node a restart draws from the two rolls at k and k + 1. */
  function RestartNode(o: Oracle, k: nat): Position
    requires k + 2 <= |o.rolls|
  {
    Position(RestartCoord(o.rolls[k], MapHeight), RestartCoord(o.rolls[k + 1], MapWidth))
  }

  /** A restart on a closed node reads two rolls and goes on with the next restart, unless the loop bound is met. */
  lemma OuterRestartClosed(o: Oracle, k: nat, s: nat, dirs: seq<Dir>, open: set<Position>, done: int, open': set<Position>)
    requires k + 2 <= |o.rolls| && s <= |o.shuffles| && |dirs| == 4
    requires open' == (if done == 0 then open + {RestartNode(o, k)} else open) && RestartNode(o, k) !in open'
    ensures OuterRun(o, k, s, dirs, open, done) ==
      if done + 1 >= NodeCount then Outcome(true, k + 2, s, open') else OuterRun(o, k + 2, s, dirs, open', done)
  {
  }

  /** A restart on an open node with no shuffle left fails after its two rolls. */
  lemma OuterRestartNoShuffle(o: Oracle, k: nat, s: nat, dirs: seq<Dir>, open: set<Position>, done: int, open': set<Position>)
    requires k + 2 <= |o.rolls| && s == |o.shuffles| && |dirs| == 4
    requires open' == (if done == 0 then open + {RestartNode(o, k)} else open) && RestartNode(o, k) in open'
    ensures OuterRun(o, k, s, dirs, open, done) == Outcome(false, k + 2, s, open')
  {
  }

  /** A restart on an open node reads two rolls and a shuffle and runs the inner loop r; the restart loop goes on from where r ends. */
  lemma OuterRestartOpen(o: Oracle, k: nat, s: nat, dirs: seq<Dir>, open: set<Position>, done: int, open': set<Position>,
                         r: Run)
    requires k + 2 <= |o.rolls| && s < |o.shuffles| && |dirs| == 4
    requires open' == (if done == 0 then open + {RestartNode(o, k)} else open) && RestartNode(o, k) in open'
    requires r == InnerRun(o, k + 2, s + 1, RestartNode(o, k), Permuted(dirs, o.shuffles[s]), open', done)
    ensures OuterRun(o, k, s, dirs, open, done) ==
      if !r.ok then Outcome(false, r.k, r.s, r.open)
      else if r.done + 1 >= NodeCount then Outcome(true, r.k, r.s, r.open)
      else OuterRun(o, r.k, r.s, r.dirs, r.open, r.done)
  {
  }

  /** The carving of makeMaze on an all-wall grid, with dirs in its initial order. */
  ghost function Carved(o: Oracle): (r: Outcome)
    ensures r.k <= |o.rolls| && r.s <= |o.shuffles|
    ensures !r.ok ==> r.k + 2 > |o.rolls| || r.s == |o.shuffles|
  {
    OuterRun(o, 0, 0, InitialDirs, {}, 0)
  }
}
