/**
 * The random choices that drive the generator, supplied by the caller.
 *
 * Every explicit call of rand() in the generator takes the next entry of
 * `rolls`; every call of std::random_shuffle on the four directions takes
 * the next entry of `shuffles`, a permutation of the four slots, and the
 * draws the shuffle makes internally are not part of `rolls`. The grid is
 * then a function of these two streams.
 */
module RandomOracle {
  import opened MazeGrid

  /** A rearrangement of four slots: slot i of the result takes old slot p[i]. */
  predicate IsPermutation(p: seq<nat>) {
    |p| == 4 &&
    (forall i | 0 <= i < 4 :: p[i] < 4) &&
    (forall k | 0 <= k < 4 :: k in p)
  }

  type Perm = p: seq<nat> | IsPermutation(p) witness [0, 1, 2, 3]

  datatype Oracle = Oracle(rolls: seq<nat>, shuffles: seq<Perm>)

  /**
   * The coordinate a restart draws: 1 + roll % ((size - 1) / 2) * 2, which
   * is an odd coordinate strictly inside the grid.
   */
  function RestartCoord(roll: nat, size: int): (c: int)
    requires size >= 3 && size % 2 == 1
    ensures c % 2 == 1 && 1 <= c <= size - 2
  {
    1 + roll % ((size - 1) / 2) * 2
  }

  /** Every odd interior coordinate is what some roll draws, so a restart can land on any lattice node. */
  lemma RestartCoordCovers(c: int, size: int)
    requires size >= 3 && size % 2 == 1
    requires c % 2 == 1 && 1 <= c <= size - 2
    ensures RestartCoord((c - 1) / 2, size) == c
  {
    var q, h := (c - 1) / 2, (size - 1) / 2;
    assert 0 <= q < h;
    ModBelow(q, h);
    assert c == 1 + q * 2;
  }

  lemma ModBelow(q: int, h: int)
    requires 0 <= q < h
    ensures q % h == q
  {
  }

  /** The directions after a shuffle: the same four entries in the order p picks. */
  function Permuted(s: seq<Dir>, p: Perm): (r: seq<Dir>)
    requires |s| == 4
    ensures |r| == 4
    ensures forall x :: x in r <==> x in s
  {
    var r := [s[p[0]], s[p[1]], s[p[2]], s[p[3]]];
    assert forall j | 0 <= j < 4 :: s[j] in r by {
      forall j | 0 <= j < 4 ensures s[j] in r {
        assert j in p;
        var i :| 0 <= i < 4 && p[i] == j;
        assert r[i] == s[j];
      }
    }
    r
  }
}
