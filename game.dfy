/** The `EightPuzzle` object: a nine-cell board changed in place, the move
    counter, the difficulty level and the best record. */
module Game {
  import opened Board
  import opened Record

  datatype Level = Easy | Medium | Hard

  /** `LEVELS`: how many random blank moves a shuffle makes at each level. */
  function Depth(level: Level): nat
  {
    match level
    case Easy => 30
    case Medium => 80
    case Hard => 150
  }

  class EightPuzzle {
    var board: array<int>
    var moves: nat
    var level: Level
    var bestRecord: Option<int>

    /** The board always holds each label 0..8 exactly once. */
    ghost predicate Valid()
      reads this, board
    {
      board.Length == 9 && IsPermutation(board[..])
    }

    /** `__init__`: the board starts as the goal, the counter at 0, the level
        at Easy and the record at what was stored (`record`); then the board
        is shuffled, drawing `picks`. */
    constructor (record: Option<int>, picks: seq<nat>)
      requires |picks| == Depth(Easy)
      ensures Valid() && fresh(board)
      ensures level == Easy && moves == 0 && bestRecord == record
      ensures board[..] == Shuffled(Goal(), picks)
      ensures Reachable(board[..], Depth(Easy)) && Solvable(board[..], Depth(Easy))
    {
      board := new int[9](k => k);
      moves := 0;
      level := Easy;
      bestRecord := record;
      new;
      Shuffle(picks);
    }

    /** `set_level`: switch the level, then shuffle for it. */
    method SetLevel(newLevel: Level, picks: seq<nat>)
      requires |picks| == Depth(newLevel)
      modifies this
      ensures Valid() && fresh(board)
      ensures level == newLevel && moves == 0 && bestRecord == old(bestRecord)
      ensures board[..] == Shuffled(Goal(), picks)
      ensures Reachable(board[..], Depth(newLevel)) && Solvable(board[..], Depth(newLevel))
    {
      level := newLevel;
      Shuffle(picks);
    }

    /** `shuffle_board`: reset the board to the goal, make `Depth(level)`
        random blank moves (round k takes its choice from `picks[k]`) and
        reset the counter. The result is reachable from the goal, and the
        goal from it, in exactly `Depth(level)` legal moves. */
    method Shuffle(picks: seq<nat>)
      requires |picks| == Depth(level)
      modifies this
      ensures Valid() && fresh(board)
      ensures board[..] == Shuffled(Goal(), picks)
      ensures Reachable(board[..], Depth(level)) && Solvable(board[..], Depth(level))
      ensures moves == 0 && level == old(level) && bestRecord == old(bestRecord)
    {
      board := new int[9](k => k);
      assert board[..] == Goal();
      for round := 0 to Depth(level)
        invariant fresh(board) && board.Length == 9
        invariant board[..] == Shuffled(Goal(), picks[..round])
        invariant level == old(level) && bestRecord == old(bestRecord)
      {
        ghost var before := board[..];
        ghost var blank := Blank(before);
        var zero := IndexOf(board[..], 0);
        assert zero == blank;
        var neighbors := Neighbors(zero);
        NeighborCount(zero);
        var move := neighbors[picks[round] % |neighbors|];
        assert move == ShuffleMove(before, picks[round]);
        SwapCells(board, zero, move);
        ShuffledStep(Goal(), picks, round);
      }
      assert picks[..Depth(level)] == picks;
      moves := 0;
      ShuffleReachable(picks);
    }

    /** `move_tile(index)`: when `index` is a neighbour of the blank, swap the
        two cells, count the move and, if the board is now the goal, run the
        win; otherwise change nothing. `accepted` and `won` report which
        branch ran. */
    method MoveTile(index: nat) returns (accepted: bool, won: bool)
      requires Valid() && index < 9
      modifies this, board
      ensures Valid() && board == old(board) && level == old(level)
      ensures accepted == Accepts(old(board[..]), index)
      ensures board[..] == Slide(old(board[..]), index)
      ensures !accepted ==> board[..] == old(board[..]) && moves == old(moves)
      ensures accepted ==>
                moves == old(moves) + 1 &&
                board[index] == 0 && board[old(Blank(board[..]))] == old(board[index]) &&
                forall k :: 0 <= k < 9 && k != index && k != old(Blank(board[..])) ==>
                  board[k] == old(board[k])
      ensures won <==> accepted && board[..] == Goal()
      ensures bestRecord == if won then Improve(old(bestRecord), moves) else old(bestRecord)
    {
      ghost var before := board[..];
      ghost var blank := Blank(before);
      var zero := IndexOf(board[..], 0);
      assert zero == blank;
      accepted := Adjacent(index, zero);
      won := false;
      if accepted {
        SwapCells(board, zero, index);
        SlideEffect(before, index);
        moves := moves + 1;
        if board[..] == Goal() {
          won := true;
          var saved := GameWon();
        }
      }
    }

    /** The record branch of `game_won`: adopt the current move count when
        there is no record or the count beats it; `saved` tells whether the
        record file would be rewritten. */
    method GameWon() returns (saved: bool)
      modifies this`bestRecord
      ensures saved == Beats(old(bestRecord), moves)
      ensures bestRecord == Improve(old(bestRecord), moves)
    {
      saved := bestRecord.None? || moves < bestRecord.value;
      if saved {
        bestRecord := Some(moves);
      }
    }
  }

  /** The tuple swap `board[i], board[j] = board[j], board[i]`. */
  method SwapCells(a: array<int>, i: nat, j: nat)
    requires i < a.Length && j < a.Length
    modifies a
    ensures a[..] == Swap(old(a[..]), i, j)
  {
    a[i], a[j] := a[j], a[i];
  }

  /** An accepted click followed by a click on the cell the blank left: both
      are accepted, the board is restored, two moves are counted and the level
      stays. The record is updated by the click that reaches the goal, if
      either does: the second when the board started solved, the first when
      that one slide solves it. */
  method MoveAndBack(game: EightPuzzle, index: nat) returns (first: bool, second: bool)
    requires game.Valid() && index < 9 && Accepts(game.board[..], index)
    modifies game, game.board
    ensures first && second
    ensures game.Valid() && game.board == old(game.board)
    ensures game.board[..] == old(game.board[..])
    ensures game.moves == old(game.moves) + 2 && game.level == old(game.level)
    ensures game.bestRecord ==
              if old(game.board[..]) == Goal() then Improve(old(game.bestRecord), old(game.moves) + 2)
              else if Slide(old(game.board[..]), index) == Goal() then Improve(old(game.bestRecord), old(game.moves) + 1)
              else old(game.bestRecord)
  {
    ghost var start := game.board[..];
    ghost var blank := Blank(start);
    var zero := IndexOf(game.board[..], 0);
    var won;
    first, won := game.MoveTile(index);
    SlideInverse(start, index);
    SlideEffect(start, index);
    second, won := game.MoveTile(zero);
  }
}
