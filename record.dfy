/** The best-record rule of `game_won`: the fewest moves any win has taken. */
module Record {

  datatype Option<T> = None | Some(value: T)

  function Min(a: int, b: int): int { if a <= b then a else b }

  /** Whether a win in `moves` moves beats the stored record, which is when
      `game_won` replaces it and writes it out. */
  predicate Beats(best: Option<int>, moves: nat)
  {
    best.None? || moves < best.value
  }

  /** The record after a win in `moves` moves: the new count when there was no
      record or the count is strictly smaller, the old record otherwise. The
      result is always the smaller of the two, and never above the old record.
      The stored record is any integer the record file held, negative ones
      included; a negative record is never beaten. */
  function Improve(best: Option<int>, moves: nat): (r: Option<int>)
    ensures r == Some(if best.None? then moves else Min(best.value, moves))
    ensures r.Some? && r.value <= moves
    ensures best.Some? ==> r.value <= best.value
    ensures r != best ==> Beats(best, moves) && r == Some(moves)
    ensures best.Some? && best.value < 0 ==> r == best
  {
    if Beats(best, moves) then Some(moves) else best
  }

  /** The record after the wins `wins`, in order, starting from `best`. */
  function Replay(best: Option<int>, wins: seq<nat>): Option<int>
    decreases |wins|
  {
    if wins == [] then best else Replay(Improve(best, wins[0]), wins[1..])
  }

  /** After any run of wins the record is the minimum of the starting record
      and all the win counts: it bounds each of them, it is one of them, and
      it never rises. */
  lemma {:induction false} ReplayIsMinimum(best: Option<int>, wins: seq<nat>)
    requires best.Some? || wins != []
    ensures Replay(best, wins).Some?
    ensures best.Some? ==> Replay(best, wins).value <= best.value
    ensures forall k :: 0 <= k < |wins| ==> Replay(best, wins).value <= wins[k]
    ensures Replay(best, wins) == best ||
            exists k :: 0 <= k < |wins| && Replay(best, wins).value == wins[k]
    decreases |wins|
  {
    if wins != [] {
      var next := Improve(best, wins[0]);
      ReplayIsMinimum(next, wins[1..]);
      var r := Replay(best, wins);
      assert r == Replay(next, wins[1..]);
      forall k | 0 <= k < |wins| ensures r.value <= wins[k] {
        if k > 0 { assert wins[k] == wins[1..][k - 1]; }
      }
      if r != best {
        if r == next {
          assert r.value == wins[0];
        } else {
          var k :| 0 <= k < |wins[1..]| && r.value == wins[1..][k];
          assert r.value == wins[k + 1];
        }
      }
    }
  }
}
