/** The pure side of the 8-puzzle engine: the 3x3 grid, the adjacency test,
    the neighbour list, what a click does to a board, and the boards that
    sequences of legal moves lead to. */
module Board {

  /** Nine labels in row-major order; label 0 is the blank. */
  type Board = seq<int>

  /** The solved board `list(range(9))`: label k at cell k. */
  function Goal(): Board
  {
    seq(9, k => k)
  }

  /** A board holds each label 0..8 exactly once. */
  predicate IsPermutation(b: Board)
  {
    |b| == 9 && multiset(b) == multiset(Goal())
  }

  function Row(i: nat): nat { i / 3 }

  function Col(i: nat): nat { i % 3 }

  function Dist(a: int, b: int): nat { if a < b then b - a else a - b }

  /** Cell `i` is an orthogonal neighbour of cell `z`: the Manhattan distance of
      their (row, column) coordinates is exactly 1. */
  predicate Adjacent(i: nat, z: nat)
  {
    Dist(Row(i), Row(z)) + Dist(Col(i), Col(z)) == 1
  }

  /** Adjacency in terms of raw indices: one row above or below, or one column
      to the left or right without leaving the row. */
  lemma AdjacentIff(i: nat, z: nat)
    requires i < 9 && z < 9
    ensures Adjacent(i, z) <==>
              i == z + 3 || z == i + 3 ||
              (i == z + 1 && Col(z) != 2) || (z == i + 1 && Col(i) != 2)
    ensures Adjacent(i, z) == Adjacent(z, i)
    ensures !Adjacent(z, z)
  {
  }

  /** Numerically consecutive indices on different rows are not neighbours. */
  lemma RowWrapNotAdjacent()
    ensures !Adjacent(2, 3) && !Adjacent(3, 2)
    ensures !Adjacent(5, 6) && !Adjacent(6, 5)
  {
  }

  /** `[i for i in range(lo, 9) if p(i)]`: the cells from `lo` on that
      satisfy `p`, in increasing order. */
  function CellsWhere(p: nat -> bool, lo: nat): seq<nat>
    decreases 9 - lo
  {
    if lo >= 9 then []
    else if p(lo) then [lo] + CellsWhere(p, lo + 1)
    else CellsWhere(p, lo + 1)
  }

  /** The comprehension keeps exactly the cells satisfying `p`, each once,
      in increasing order. */
  lemma {:induction false} CellsWhereSpec(p: nat -> bool, lo: nat)
    ensures forall j: nat :: j in CellsWhere(p, lo) <==> lo <= j < 9 && p(j)
    ensures forall k :: 0 <= k < |CellsWhere(p, lo)| ==> lo <= CellsWhere(p, lo)[k]
    ensures forall k, l :: 0 <= k < l < |CellsWhere(p, lo)| ==>
              CellsWhere(p, lo)[k] < CellsWhere(p, lo)[l]
    decreases 9 - lo
  {
    if lo < 9 {
      CellsWhereSpec(p, lo + 1);
    }
  }

  /** The neighbour list of `z` (`neighbors` in `shuffle_board`). */
  function Neighbors(z: nat): seq<nat>
  {
    CellsWhere((i: nat) => Adjacent(i, z), 0)
  }

  /** The neighbour list holds every neighbour of `z` and nothing else, each
      once, in increasing order. */
  lemma NeighborsSpec(z: nat)
    ensures forall j: nat :: j in Neighbors(z) <==> j < 9 && Adjacent(j, z)
    ensures forall k, l :: 0 <= k < l < |Neighbors(z)| ==> Neighbors(z)[k] < Neighbors(z)[l]
  {
    CellsWhereSpec((i: nat) => Adjacent(i, z), 0);
  }

  /** A neighbour lies one row or one column away in index terms. */
  lemma NeighborOffset(j: nat, z: nat)
    requires j < 9 && z < 9 && Adjacent(j, z)
    ensures j == z - 3 || j == z - 1 || j == z + 1 || j == z + 3
  {
    AdjacentIff(j, z);
  }

  /** Two different values in a sequence make it at least two long. */
  lemma TwoMembers(r: seq<nat>, x: nat, y: nat)
    requires x in r && y in r && x != y
    ensures |r| >= 2
  {
  }

  /** Entries of an increasing sequence drawn from {z-3, z-1, z+1, z+3} are
      at least two apart. */
  lemma {:induction false} Spread(r: seq<nat>, z: nat, n: nat)
    requires forall k, l :: 0 <= k < l < |r| ==> r[k] < r[l]
    requires forall k :: 0 <= k < |r| ==> r[k] == z - 3 || r[k] == z - 1 || r[k] == z + 1 || r[k] == z + 3
    requires n < |r|
    ensures r[n] >= z - 3 + 2 * n
  {
    if n > 0 {
      Spread(r, z, n - 1);
    }
  }

  /** An increasing sequence drawn from four values has at most four entries. */
  lemma IncreasingWithinFour(r: seq<nat>, z: nat)
    requires forall k, l :: 0 <= k < l < |r| ==> r[k] < r[l]
    requires forall k :: 0 <= k < |r| ==> r[k] == z - 3 || r[k] == z - 1 || r[k] == z + 1 || r[k] == z + 3
    ensures |r| <= 4
  {
    if |r| > 4 {
      Spread(r, z, 4);
      assert false;
    }
  }

  /** Every cell has a neighbour in its row and another in its column. */
  lemma AtLeastTwoNeighbors(z: nat)
    requires z < 9
    ensures |Neighbors(z)| >= 2
  {
    var across: nat := if Col(z) < 2 then z + 1 else z - 1;
    var vertical: nat := if z < 6 then z + 3 else z - 3;
    AdjacentIff(across, z);
    AdjacentIff(vertical, z);
    NeighborsSpec(z);
    TwoMembers(Neighbors(z), across, vertical);
  }

  /** Every neighbour lies one row or one column away, so there are at most
      four of them. */
  lemma AtMostFourNeighbors(z: nat)
    requires z < 9
    ensures |Neighbors(z)| <= 4
  {
    var r := Neighbors(z);
    NeighborsSpec(z);
    forall k | 0 <= k < |r|
      ensures r[k] == z - 3 || r[k] == z - 1 || r[k] == z + 1 || r[k] == z + 3
    {
      assert r[k] in r;
      NeighborOffset(r[k], z);
    }
    IncreasingWithinFour(r, z);
  }

  /** Every cell has between two and four neighbours, so the neighbour list
      that the shuffle picks from is never empty. */
  lemma NeighborCount(z: nat)
    requires z < 9
    ensures 2 <= |Neighbors(z)| <= 4
  {
    AtLeastTwoNeighbors(z);
    AtMostFourNeighbors(z);
  }

  /** `list.index`: the first position holding `x`. */
  function IndexOf(b: Board, x: int): (r: nat)
    requires x in b
    ensures r < |b| && b[r] == x
    ensures forall j :: 0 <= j < r ==> b[j] != x
  {
    if b[0] == x then 0 else 1 + IndexOf(b[1..], x)
  }

  /** A sequence without repeated entries counts each value at most once. */
  lemma {:induction false} UniqueCount(s: seq<int>, v: int)
    requires forall k, l :: 0 <= k < l < |s| ==> s[k] != s[l]
    ensures multiset(s)[v] <= 1
  {
    if s != [] {
      UniqueCount(s[1..], v);
      assert s == [s[0]] + s[1..];
      if s[0] == v {
        assert v !in s[1..];
      }
    }
  }

  /** A label at two positions is counted twice. */
  lemma CountedTwice(b: Board, k: nat, l: nat)
    requires k < l < |b| && b[k] == b[l]
    ensures multiset(b)[b[k]] >= 2
  {
    assert b == b[..l] + b[l..];
    assert b[..l][k] == b[k];
    assert b[l..][0] == b[k];
    assert multiset(b) == multiset(b[..l]) + multiset(b[l..]);
  }

  /** No label occurs twice on a permutation board. */
  lemma PermutationDistinct(b: Board, k: nat, l: nat)
    requires IsPermutation(b) && k < l < 9
    ensures b[k] != b[l]
  {
    if b[k] == b[l] {
      CountedTwice(b, k, l);
      UniqueCount(Goal(), b[k]);
      assert false;
    }
  }

  /** The blank's position (`self.board.index(0)`). */
  function Blank(b: Board): (z: nat)
    requires IsPermutation(b)
    ensures 0 in b && z < 9 && b[z] == 0
    ensures forall k :: 0 <= k < 9 && b[k] == 0 ==> k == z
  {
    assert 0 in multiset(Goal()) by { assert Goal()[0] == 0; }
    assert 0 in b;
    var z := IndexOf(b, 0);
    forall k | 0 <= k < 9 && b[k] == 0 ensures k == z {
      if z < k { PermutationDistinct(b, z, k); }
    }
    z
  }

  /** The board with the labels at `i` and `j` exchanged. */
  function Swap(b: Board, i: nat, j: nat): (r: Board)
    requires i < |b| && j < |b|
    ensures |r| == |b| && r[i] == b[j] && r[j] == b[i]
    ensures forall k :: 0 <= k < |b| && k != i && k != j ==> r[k] == b[k]
    ensures multiset(r) == multiset(b)
  {
    b[i := b[j]][j := b[i]]
  }

  /** A click on `index` is a legal move: it is a neighbour of the blank. */
  predicate Accepts(b: Board, index: nat)
    requires IsPermutation(b)
  {
    Adjacent(index, Blank(b))
  }

  /** What `move_tile(index)` does to the board: swap the blank with `index`
      when they are neighbours, otherwise nothing. */
  function Slide(b: Board, index: nat): (r: Board)
    requires IsPermutation(b) && index < 9
    ensures IsPermutation(r)
  {
    if Accepts(b, index) then Swap(b, Blank(b), index) else b
  }

  /** A rejected click changes nothing; an accepted one moves the blank to
      `index`, puts the clicked tile where the blank was and keeps every
      other cell. */
  lemma SlideEffect(b: Board, index: nat)
    requires IsPermutation(b) && index < 9
    ensures !Accepts(b, index) ==> Slide(b, index) == b
    ensures Accepts(b, index) ==>
              var r := Slide(b, index);
              Blank(r) == index && r[index] == 0 && r[Blank(b)] == b[index] &&
              index != Blank(b) &&
              forall k :: 0 <= k < 9 && k != index && k != Blank(b) ==> r[k] == b[k]
  {
    if Accepts(b, index) {
      AdjacentIff(index, Blank(b));
      var r := Slide(b, index);
      assert r[index] == 0;
    }
  }

  /** Every accepted move is undone by clicking the cell the blank came from,
      and that click is itself accepted. */
  lemma SlideInverse(b: Board, index: nat)
    requires IsPermutation(b) && index < 9 && Accepts(b, index)
    ensures Accepts(Slide(b, index), Blank(b))
    ensures Slide(Slide(b, index), Blank(b)) == b
  {
    var z := Blank(b);
    var r := Slide(b, index);
    SlideEffect(b, index);
    AdjacentIff(index, z);
    assert Accepts(r, z);
    var back := Slide(r, z);
    assert back == Swap(r, index, z);
    assert forall k :: 0 <= k < 9 ==> back[k] == b[k];
  }

  /** Every entry of `path` names a cell of the grid. */
  predicate Cells(path: seq<nat>)
  {
    forall k :: 0 <= k < |path| ==> path[k] < 9
  }

  /** The board after clicking the cells of `path` in order. */
  function Play(b: Board, path: seq<nat>): (r: Board)
    requires IsPermutation(b) && Cells(path)
    ensures IsPermutation(r)
    decreases |path|
  {
    if path == [] then b
    else Slide(Play(b, path[..|path| - 1]), path[|path| - 1])
  }

  /** Every click of `path` is accepted when it is made. */
  predicate Legal(b: Board, path: seq<nat>)
    requires IsPermutation(b) && Cells(path)
    decreases |path|
  {
    path == [] ||
    (Legal(b, path[..|path| - 1]) &&
     Accepts(Play(b, path[..|path| - 1]), path[|path| - 1]))
  }

  /** `b` is reached from the goal by exactly `k` legal moves. */
  ghost predicate Reachable(b: Board, k: nat)
  {
    exists path: seq<nat> ::
      Cells(path) && |path| == k && Legal(Goal(), path) && Play(Goal(), path) == b
  }

  /** The goal is reached from `b` by exactly `k` legal moves. */
  ghost predicate Solvable(b: Board, k: nat)
  {
    IsPermutation(b) &&
    exists path: seq<nat> ::
      Cells(path) && |path| == k && Legal(b, path) && Play(b, path) == Goal()
  }

  lemma CellsPrepend(x: nat, q: seq<nat>)
    requires x < 9 && Cells(q)
    ensures Cells([x] + q)
  {
    var p := [x] + q;
    forall k | 0 <= k < |p| ensures p[k] < 9 {
      if k > 0 { assert p[k] == q[k - 1]; }
    }
  }

  /** Clicking `x` first and then `q` is playing `[x] + q`. */
  lemma {:induction false} PlayPrepend(b: Board, x: nat, q: seq<nat>)
    requires IsPermutation(b) && x < 9 && Cells(q) && Cells([x] + q)
    ensures Play(b, [x] + q) == Play(Slide(b, x), q)
    decreases |q|
  {
    var p := [x] + q;
    if q == [] {
      assert p[..0] == [];
    } else {
      var q', i := q[..|q| - 1], q[|q| - 1];
      CellsPrepend(x, q');
      PlayPrepend(b, x, q');
      assert p[..|p| - 1] == [x] + q';
      assert p[|p| - 1] == i;
    }
  }

  lemma {:induction false} LegalPrepend(b: Board, x: nat, q: seq<nat>)
    requires IsPermutation(b) && x < 9 && Cells(q) && Cells([x] + q)
    ensures Legal(b, [x] + q) <==> Accepts(b, x) && Legal(Slide(b, x), q)
    decreases |q|
  {
    var p := [x] + q;
    if q == [] {
      assert p[..0] == [];
    } else {
      var q', i := q[..|q| - 1], q[|q| - 1];
      CellsPrepend(x, q');
      LegalPrepend(b, x, q');
      PlayPrepend(b, x, q');
      assert p[..|p| - 1] == [x] + q';
      assert p[|p| - 1] == i;
    }
  }

  /** The clicks that take `Play(b, path)` back to `b`: the blank's earlier
      positions, latest first. */
  ghost function Undo(b: Board, path: seq<nat>): (u: seq<nat>)
    requires IsPermutation(b) && Cells(path)
    ensures Cells(u) && |u| == |path|
    decreases |path|
  {
    if path == [] then []
    else [Blank(Play(b, path[..|path| - 1]))] + Undo(b, path[..|path| - 1])
  }

  /** Legal moves can always be retraced: `Undo` is legal and restores `b`. */
  lemma {:induction false} UndoRestores(b: Board, path: seq<nat>)
    requires IsPermutation(b) && Cells(path) && Legal(b, path)
    ensures Legal(Play(b, path), Undo(b, path))
    ensures Play(Play(b, path), Undo(b, path)) == b
    decreases |path|
  {
    if path != [] {
      var q := path[..|path| - 1];
      var i := path[|path| - 1];
      var c := Play(b, q);
      var d := Play(b, path);
      var u := Undo(b, q);
      UndoRestores(b, q);
      SlideInverse(c, i);
      CellsPrepend(Blank(c), u);
      PlayPrepend(d, Blank(c), u);
      LegalPrepend(d, Blank(c), u);
    }
  }

  /** Every board reached from the goal by k legal moves can be solved in k
      legal moves, so shuffled boards are always solvable. */
  lemma ReachableIsSolvable(b: Board, k: nat)
    requires Reachable(b, k)
    ensures Solvable(b, k)
  {
    var path: seq<nat> :|
      Cells(path) && |path| == k && Legal(Goal(), path) && Play(Goal(), path) == b;
    UndoRestores(Goal(), path);
    var u := Undo(Goal(), path);
    assert Cells(u) && |u| == k && Legal(b, u) && Play(b, u) == Goal();
  }

  /** The cell `random.choice(neighbors)` picks when the generator's draw is
      `pick`: the draw selects a position in the neighbour list. */
  function ShuffleMove(b: Board, pick: nat): (m: nat)
    requires IsPermutation(b)
    ensures m < 9 && Accepts(b, m)
  {
    var nbrs := Neighbors(Blank(b));
    NeighborCount(Blank(b));
    NeighborsSpec(Blank(b));
    var k := pick % |nbrs|;
    assert nbrs[k] in nbrs;
    nbrs[k]
  }

  lemma ModSmall(k: nat, n: nat)
    requires k < n
    ensures k % n == k
  {
  }

  /** Every choice `random.choice` can make is made by some draw: a draw
      below the list's length selects exactly that position. */
  lemma PickIsPosition(b: Board, k: nat)
    requires IsPermutation(b)
    ensures k < |Neighbors(Blank(b))| ==> ShuffleMove(b, k) == Neighbors(Blank(b))[k]
  {
    if k < |Neighbors(Blank(b))| {
      ModSmall(k, |Neighbors(Blank(b))|);
    }
  }

  /** The board after one shuffle round per draw in `picks`, starting at `b`:
      each round swaps the blank with the chosen neighbour. */
  function Shuffled(b: Board, picks: seq<nat>): (r: Board)
    requires IsPermutation(b)
    ensures IsPermutation(r)
    decreases |picks|
  {
    if picks == [] then b
    else
      var c := Shuffled(b, picks[..|picks| - 1]);
      Swap(c, Blank(c), ShuffleMove(c, picks[|picks| - 1]))
  }

  /** One more draw is one more round on top of the earlier ones. */
  lemma ShuffledStep(b: Board, picks: seq<nat>, k: nat)
    requires IsPermutation(b) && k < |picks|
    ensures var c := Shuffled(b, picks[..k]);
            Shuffled(b, picks[..k + 1]) == Swap(c, Blank(c), ShuffleMove(c, picks[k]))
  {
    assert picks[..k + 1][..k] == picks[..k];
  }

  /** The cells the shuffle swaps the blank with, in order. */
  function ShufflePath(b: Board, picks: seq<nat>): (path: seq<nat>)
    requires IsPermutation(b)
    ensures Cells(path) && |path| == |picks|
    decreases |picks|
  {
    if picks == [] then []
    else
      var c := Shuffled(b, picks[..|picks| - 1]);
      ShufflePath(b, picks[..|picks| - 1]) + [ShuffleMove(c, picks[|picks| - 1])]
  }

  /** A shuffle is a sequence of legal moves: the cells it swaps with form a
      legal path leading to the shuffled board. */
  lemma {:induction false} ShuffleIsPlay(b: Board, picks: seq<nat>)
    requires IsPermutation(b)
    ensures Legal(b, ShufflePath(b, picks))
    ensures Play(b, ShufflePath(b, picks)) == Shuffled(b, picks)
    decreases |picks|
  {
    if picks != [] {
      var pre := picks[..|picks| - 1];
      var path := ShufflePath(b, picks);
      ShuffleIsPlay(b, pre);
      assert path[..|path| - 1] == ShufflePath(b, pre);
    }
  }

  /** Any run of the shuffle from the goal ends on a board that is reachable
      from the goal in exactly as many moves as there were rounds, and hence
      solvable in that many moves. */
  lemma ShuffleReachable(picks: seq<nat>)
    ensures Reachable(Shuffled(Goal(), picks), |picks|)
    ensures Solvable(Shuffled(Goal(), picks), |picks|)
  {
    ShuffleIsPlay(Goal(), picks);
    var path := ShufflePath(Goal(), picks);
    assert Cells(path) && |path| == |picks| && Legal(Goal(), path) &&
           Play(Goal(), path) == Shuffled(Goal(), picks);
    ReachableIsSolvable(Shuffled(Goal(), picks), |picks|);
  }
}
