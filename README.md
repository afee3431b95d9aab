# Eight-puzzle engine

This project models the engine of the `EightPuzzle` game in `game.py`, leaving out the user interface.

**The board.** It has nine cells, numbered 0..8 row by row. Each cell holds one label 0..8, and label 0 is the blank. The goal board holds label k at cell k.

**Moving a tile.** Clicking cell `index` slides that tile into the blank. The click is accepted only when the two cells are orthogonal neighbours on the 3x3 grid, meaning their Manhattan distance is 1. An accepted click does three things:
- it swaps the two cells;
- it counts one move;
- if the board now equals the goal, it runs the win handler.

The win handler replaces the best record when there is none or when the current move count is strictly smaller.

**Shuffling.** A shuffle starts from the goal board. It then makes a number of random blank moves that depends on the level:
- Easy: 30 moves
- Medium: 80 moves
- Hard: 150 moves

Finally it resets the move counter. Choosing a level sets the level and then shuffles.

The model has three modules:

- `Board` (`board.dfy`) covers the board as a value: adjacency, the neighbour list, locating the blank, the slide, and the shuffle as a function of its random draws. It also proves:
  - a slide keeps the board a permutation;
  - a slide has a known frame and undoes itself;
  - every shuffled board is reachable from the goal, and can be solved back to it, in exactly as many moves as the shuffle made.
- `Record` (`record.dfy`) covers the best-record rule. It proves the rule keeps the minimum of all winning move counts.
- `Game` (`game.dfy`) covers the `EightPuzzle` object itself. It is a class whose board is a nine-cell array updated in place. Its methods are proved against the `Board` and `Record` functions.

The random source is a parameter. Round k of a shuffle receives a draw `picks[k]` and takes the neighbour at position `picks[k] % n` of the ascending neighbour list, where n is the list's length. Every choice `random.choice` can make corresponds to some draw (`PickIsPosition`: a draw below the list's length selects that very position), so the properties proved for all draws hold for every run of the game.

The stored best record is also a parameter. It is passed to the constructor as an `Option<int>`: no record, or the integer the record file held. That integer may be negative, and a negative record is never beaten by a win.

`MoveTile` returns two flags, `accepted` and `won`. The source method returns nothing. The flags only show which branch ran.

Two behaviours of the code are kept as written:
- A click on an already solved board is still accepted when it is next to the blank. It counts a move and leaves the solved state.
- Reading a malformed record file raises an error in the code; it does not fall back to "no record". Loading is not part of this model.

## Model

| member | source | states |
|---|---|---|
| `Board.Goal` | game.py:30 | The solved board `list(range(9))`: label k at cell k. |
| `Board.Adjacent` | game.py:137 | The acceptance test: the cells' row distance plus column distance is 1 (for cells 0..8, where floor division and remainder are those of Python). |
| `Board.AdjacentIff` | game.py:137 | For cells of the 3x3 grid, the Manhattan-distance test holds exactly when the cells differ by 3, or by 1 without crossing a row boundary. The test is symmetric and never relates a cell to itself. |
| `Board.RowWrapNotAdjacent` | game.py:137 | Cells 2 and 3, and cells 5 and 6, are consecutive indices but not neighbours, in both directions. |
| `Board.CellsWhereSpec` | game.py:149-152 | The comprehension over `range(lo, 9)` holds exactly the cells in range that satisfy the filter, in strictly ascending order. |
| `Board.Neighbors` | game.py:149-152 | The comprehension of the cells passing the adjacency test with the blank, scanned over `range(9)`. |
| `Board.NeighborsSpec` | game.py:149-152 | The neighbour list of the blank holds exactly the cells adjacent to it, in ascending order. |
| `Board.NeighborCount` | game.py:149-153 | Every cell has between 2 and 4 neighbours, so `random.choice` is never given an empty list. |
| `Board.IndexOf` | game.py:136 | `list.index` returns a position holding the value, and no earlier position holds it. |
| `Board.PermutationDistinct` | game.py:30-31 | On a board holding each label once, distinct cells hold distinct labels. |
| `Board.Blank` | game.py:136 | Every valid board contains the blank, at exactly one cell. |
| `Board.Swap` | game.py:138 | The tuple swap exchanges the two cells, leaves every other cell alone and keeps the board's multiset of labels. |
| `Board.Slide` | game.py:136-139 | Whether or not the click is accepted, the board stays a permutation of 0..8. |
| `Board.SlideEffect` | game.py:136-139 | A rejected click leaves the board unchanged. An accepted click moves the blank to the clicked cell and the clicked tile to the blank's old cell, and changes no other cell. |
| `Board.SlideInverse` | game.py:137-139 | After an accepted click, a click on the cell the blank left is accepted too and restores the previous board. |
| `Board.Play` | game.py:135-139 | Any sequence of clicks keeps the board a permutation. |
| `Board.UndoRestores` | game.py:137-139 | Any legal sequence of clicks can be undone by a legal sequence of the same length that ends on the starting board. |
| `Board.ReachableIsSolvable` | game.py:146-154 | A board reached from the goal in k legal moves can be solved back to the goal in k legal moves. |
| `Board.ShuffleMove` | game.py:148-153 | Each shuffle round picks a cell that is a neighbour of the blank. |
| `Board.PickIsPosition` | game.py:153 | A draw k below the number of neighbours selects neighbour k, so every choice `random.choice` can make is made by some draw. |
| `Board.Shuffled` | game.py:146-154 | Every shuffled board is a permutation of 0..8. |
| `Board.ShuffleIsPlay` | game.py:147-154 | The shuffle's swaps form a legal sequence of blank moves, one per round, whose play from the goal gives the shuffled board. |
| `Board.ShuffleReachable` | game.py:145-157 | A shuffle with n draws gives a board reachable from the goal, and solvable back to it, in exactly n legal moves. |
| `Record.Beats` | game.py:161 | The condition for replacing the record: there is none, or the move count is strictly smaller. |
| `Record.Improve` | game.py:161-162 | After a win the record is the smaller of the old record and the move count. It is never above either, and it changes only when there was no record or the count strictly beats it; a negative record never changes. |
| `Record.ReplayIsMinimum` | game.py:161-162 | After any run of wins the record is at most the starting record and at most every win's count, and it equals one of them. |
| `Game.Depth` | game.py:15-19 | `LEVELS`: Easy, Medium and Hard map to 30, 80 and 150 shuffle rounds. |
| `Game.EightPuzzle.constructor` | game.py:30-42 | A new game has level Easy, counter 0, the stored record, and a board shuffled with 30 draws. That board is a permutation, reachable from the goal and solvable in 30 moves. |
| `Game.EightPuzzle.SetLevel` | game.py:118-122 | Choosing a level stores it, then reshuffles with that level's depth and resets the counter. The record is unchanged. |
| `Game.EightPuzzle.Shuffle` | game.py:145-157 | The board becomes the goal shuffled by `LEVELS[level]` draws, which is reachable and solvable in exactly that many moves. The counter is 0, and the level and record are unchanged. |
| `Game.EightPuzzle.MoveTile` | game.py:135-143 | A click is accepted exactly when the cell is adjacent to the blank. A rejected click changes neither the board nor the counter. An accepted click swaps exactly the two cells and adds 1 to the counter. The win fires exactly when an accepted click leaves the goal board, and only then is the record updated. |
| `Game.EightPuzzle.GameWon` | game.py:160-163 | The record is rewritten exactly when there was none or the move count strictly beats it, and becomes the improved record. |
| `Game.SwapCells` | game.py:138 | The in-place tuple swap on the board array equals the `Swap` of the old contents. |
| `Game.MoveAndBack` | game.py:135-143 | Clicking a neighbour of the blank and then the cell the blank left: both clicks are accepted, the board is restored, the counter grows by 2 and the level is unchanged. The record is improved with the count of whichever click reaches the goal: the second when the board started solved, the first when that slide solves it, neither otherwise. |

## Left out

- The Tk interface is not modelled: window setup, `create_ui`, `update_ui`, button colours for the level, and the "You Win!" window in `game_won`. They only display state.
- Image loading (`load_image_tiles`) and the PIL work in it are not modelled. They only produce tile pictures.
- The record file I/O (`load_record`, `save_record`) is not modelled. The loaded record is a constructor parameter, and `GameWon`'s `saved` result marks where the file is written.
- The random number generator is not modelled. Its choices are the `picks` parameters.
- Only the first of the three copies of the program in `game.py` is modelled; the later copies repeat it. The `__main__` launcher is not modelled.
- The `root`, `tiles`, `buttons` and `level_buttons` attributes are not modelled, because they belong to the interface.
- Game.EightPuzzle.MoveTile: requires `index` in 0..8, the only values the buttons pass. Other integers are not modelled. With Python's floor division the distance test at game.py:137 still passes for a few of them. Index 9, 10 or 11 with the blank at 6, 7 or 8 passes the test and then raises `IndexError` in the swap. Index -3, -2 or -1 with the blank at 0, 1 or 2 passes it and swaps the blank with cell 6, 7 or 8 through negative indexing. Every other index outside 0..8 fails the test and is rejected without effect.
- Game.EightPuzzle.SetLevel: the level is an enumeration of the three `LEVELS` keys, so the `KeyError` for any other name cannot arise.
