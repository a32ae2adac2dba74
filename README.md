# Connect Four in Dafny

A model of the logic of a two-player, terminal Connect Four game written in
Ruby (`lib/main.rb`). The board has 6 rows of 7 positions. Row 0 is the top
row. A player types a row digit and then a column digit, and takes any
unoccupied position. Nothing makes a token drop to the lowest free position
of its column, and the model keeps that rule. After each move the game asks
whether the position just taken completes four in a line:

- on either diagonal;
- in its row;
- downwards in its column.

The game ends when a move completes a line or the board is full.

Files and modules:

- `positions.dfy`, module `Positions`. The players, what a position can hold
  (`Empty` or `Mark(player)`), and the `Position` class with its write-once
  `Update`.
- `board.dfy`, module `Boards`.
  - The `Board` class owns the 42 `Position` objects. `Board.Occupiers()` reads
    their occupiers as a value (`Grid`).
  - The queries `full?`, `check_vertical`, `count`, `check_horizontal` and
    the diagonal checks are pure functions over that value. Each takes the
    row and column of the anchor position.
  - Lemmas give each check a closed form. `FourThrough` says that the
    anchor lies inside four consecutive positions along an axis that share
    its occupier.
- `game.dfy`, module `Games`. Move validation (`nums?`, `valid?`),
  `won?`, and the `Game` class with `choose`, `turn`, `play` and the
  decision of `end_game`. The console is replaced by a finite sequence of
  input lines.
- `as_written.dfy`, module `AsWritten`. Two places where the Ruby code
  behaves differently from what it evidently intends (see Findings). Each is
  modelled as written, next to a lemma that exhibits the difference.

Occupiers are compared by equality, as in the source. An `Empty` anchor
therefore "matches" empty positions. The game only checks positions it has
just marked, so this never decides a game.

`end_game` tests for a full board before it declares a winner. A 42nd move
that completes four in a line therefore ends in a tie. The model keeps this
order (`Games.Game.EndGame`, `Games.Game.Play`).

## Model

| member | source | states |
|---|---|---|
| `Positions.Position.constructor` | lib/main.rb:10-14 | A new position keeps its row and column and holds the unoccupied sentinel. |
| `Positions.Position.Update` | lib/main.rb:16-22 | Write-once: an unoccupied position takes the player's mark, and an occupied one keeps its occupier. Either way it is occupied afterwards (`occupied?` is `Position.Occupied`). |
| `Positions.Position.Occupied` | lib/main.rb:20-22 | `occupied?`: the position holds a mark. `Positions.Position.Update` states its write-once behaviour in these terms. |
| `Boards.Board.constructor` | lib/main.rb:39-43 | Builds 6 rows of 7 fresh positions; position (r, c) knows its row r and column c. The board's occupiers are the all-unoccupied grid. |
| `Boards.NewRow` | lib/main.rb:42 | A row of 7 fresh, unoccupied positions whose row is `index` and whose columns are 0 to 6 in order. |
| `Boards.Board.Occupiers` | lib/main.rb:37 | The rows, read as a grid of 6 rows of 7 occupiers. |
| `Boards.Board.OccupiersAt` | lib/main.rb:37-43 | Entry (r, c) of the grid is the occupier of the position in row r and column c. |
| `Boards.EmptyGrid` | lib/main.rb:13 | Every position of a new board is unoccupied. |
| `Boards.Full` | lib/main.rb:45-47 | `full?`: every position of every row is occupied. Its property is stated by `Boards.FullIffNoEmpty`. |
| `Boards.FullIffNoEmpty` | lib/main.rb:45-47 | `full?` holds exactly when no position is unoccupied. So an empty board, or one with an empty bottom row, is not full. |
| `Boards.TallyPartition` | lib/main.rb:39-47 | Unoccupied, Red and Green positions add up to the board's 42 positions. |
| `Boards.EmptyGridTally` | lib/main.rb:39-43 | A new board has 42 unoccupied positions and no marks. |
| `Boards.Place` | lib/main.rb:130-131 | Marking (r, c) leaves a 6x7 grid in which (r, c) holds the player's mark. |
| `Boards.PlaceElsewhere` | lib/main.rb:130-131 | Marking (r, c) changes no other position. |
| `Boards.PlaceTally` | lib/main.rb:130-131 | Marking an unoccupied position adds one mark of that player. The other player's marks stay as they were, and one fewer position is unoccupied. |
| `Boards.CheckVertical` | lib/main.rb:60-70 | True exactly when the 3 - count positions directly beneath the anchor exist and share its occupier. It never looks upward, and it is false for an anchor in row 5 unless count is 3. |
| `Boards.Count` | lib/main.rb:72-80 | `count`: the walk from the anchor in one direction, which stops at the edge of the board. Its properties are stated by `Boards.CountBound` and `Boards.CountIsRun`. |
| `Boards.CountBound` | lib/main.rb:72-80 | The walk ends at the edge of the board. It adds at most the number of steps to that edge, and so at most 6. |
| `Boards.CountUnfold` | lib/main.rb:74-79 | The walk adds something exactly when the next position is on the board and shares the anchor's occupier. It then returns what the walk from that position returns. |
| `Boards.CountIsRun` | lib/main.rb:72-80 | What `count` adds is the length of the run. That many positions in the direction share the anchor's occupier, and the next one is off the board or holds something else. |
| `Boards.CountMatches` | lib/main.rb:72-80 | Each of the positions counted, i steps from the anchor, shares the anchor's occupier. |
| `Boards.CountStops` | lib/main.rb:72-80 | The position one step past the counted run is off the board or holds something else. |
| `Boards.StepFirst` | lib/main.rb:76-77 | The first step of a walk matches exactly when the next position is on the board and shares the anchor's occupier. |
| `Boards.StepShift` | lib/main.rb:79 | When the walk moves on to a matching position, what it sees i steps further is what the anchor sees i + 1 steps away. |
| `Boards.LineTotal` | lib/main.rb:82-107 | The two opposite arms plus 1 reach 4 exactly when the anchor lies in four consecutive positions along that axis that share its occupier. |
| `Boards.ArmsIffFour` | lib/main.rb:82-107 | Maximal runs ahead of and behind the anchor reach 3 positions in all exactly when a line of four passes through it. |
| `Boards.ArmsMakeFour` | lib/main.rb:86-88 | Arms of three positions in all, with the anchor, make a line of four. |
| `Boards.FourNeedsArms` | lib/main.rb:86-88 | A line of four through the anchor needs arms of at least three positions in all. |
| `Boards.Opposite` | lib/main.rb:83-84 | Stepping i times in one direction is stepping -i times in the opposite one. |
| `Boards.CheckHorizontal` | lib/main.rb:82-89 | True exactly when the anchor lies in four consecutive positions of its row that share its occupier. This covers a run at the edge of the board; a run of 3 fails. |
| `Boards.CheckPositiveDiagonal` | lib/main.rb:91-98 | True exactly when the anchor lies in four consecutive positions on its upper-right/lower-left diagonal that share its occupier. |
| `Boards.CheckNegativeDiagonal` | lib/main.rb:100-107 | True exactly when the anchor lies in four consecutive positions on its upper-left/lower-right diagonal that share its occupier. |
| `Boards.CheckDiagonal` | lib/main.rb:109-113 | True exactly when either diagonal through the anchor holds such a line of four. |
| `Games.ToI` | lib/main.rb:175-176 | `to_i` of one character is at most 9, and `to_s` gives a digit back unchanged. |
| `Games.Nums` | lib/main.rb:174-179 | `nums?` is true exactly when both characters are decimal digits. |
| `Games.ValidChoice` | lib/main.rb:181-191 | `valid?`, with the bounds checked before the board is read. Its property is stated by `Games.ValidChoiceIsEncoding`. |
| `Games.Encode` | lib/main.rb:199 | Converting the two characters of the line for (r, c) with `to_i` gives back r and c. |
| `Games.ValidChoiceIsEncoding` | lib/main.rb:181-191 | `valid?` accepts exactly the lines made of a row digit up to 5 and a column digit up to 6 that name an unoccupied position. So '333', '63', '37' and '6a' are rejected. |
| `Games.Won` | lib/main.rb:155-157 | `won?` is true exactly when the position lies in a line of four on a diagonal or in its row, or heads four downwards in its column. |
| `Games.PlayerFor` | lib/main.rb:127 | Red (player 1) on an even counter, Green (player 2) on an odd one. `Games.Game.Turn` states it for the current player. |
| `Games.AlternatedStart` | lib/main.rb:126-137 | After turn 0 on a new board, Red (even counter) has one mark, Green none, and 41 positions are unoccupied. |
| `Games.AlternatedStep` | lib/main.rb:126-141 | When turn counter's player marks an unoccupied position of a grid that alternated up to turn counter - 1, the grid alternates up to turn counter: Red has (counter + 2) / 2 marks, Green (counter + 1) / 2, and 41 - counter positions are unoccupied. |
| `Games.AlternatedNotFull` | lib/main.rb:138-141 | While the board is not full, fewer than 41 turns have been counted, so the loop ends. |
| `Games.AlternatedFull` | lib/main.rb:138-148 | Red has as many marks as Green or one more. A full board holds 21 of each. |
| `Games.Scan` | lib/main.rb:193-200 | `choose` over a grid value: reading stops at or after where it starts and at most at the end of the lines, and a line it stops at is a valid choice. |
| `Games.ScanIsFirst` | lib/main.rb:193-200 | `choose` stops at the first valid line, after only invalid ones. It reaches the end of the lines only when no line from where it starts is valid. |
| `Games.ScanDetermined` | lib/main.rb:193-200 | Conversely, the first valid line, or the lack of one, fixes where `choose` stops. |
| `Games.PlayOn` | lib/main.rb:133-153 | The rest of `play` over grid values once a turn has marked (r, c). The game is decided when (r, c) completes a line or the grid is full; otherwise the next turn is played. The final grid is 6x7, more turns have marked than so far, and the last turn started reading at or after the current one. |
| `Games.PlayTurn` | lib/main.rb:125-131 | One turn over grid values: that turn's player marks the position named by the first valid line and the game plays on, or, with no valid line, the game waits. At least `turn` turns have marked by the end, and the last turn started reading at or after `from`. |
| `Games.PlayOnDecides` | lib/main.rb:137-153 | After turn `counter`, the game is over exactly when (r, c) completes a line or the grid is full. A full grid is a tie; otherwise that turn's player wins. If the game is not over, turn `counter + 1` is played from where reading stopped. |
| `Games.PlayTurnWaits` | lib/main.rb:125-131 | A turn with no valid line left waits for input, after `turn` marking turns, on the grid as it was. |
| `Games.PlayTurnMarks` | lib/main.rb:125-131 | A turn marks the position named by the first valid line, which is on the board and unoccupied, with that turn's player's mark. The game then plays on from the next line. |
| `Games.OverPromised` | lib/main.rb:137-153 | A game that is over after alternating turns has made at most 42 marks, and they alternate. A tie has a full grid with 21 marks each; a win has a grid that is not full and goes to the last turn's player. |
| `Games.WaitPromised` | lib/main.rb:125-131 | A game that waits after alternating turns has a grid that is not full, and no line from where its last turn started reading is valid. |
| `Games.PlayOnPromised` | lib/main.rb:133-153 | Played on from a grid with alternating marks, the game keeps the promises of `Games.OverPromised` and `Games.WaitPromised`: marks alternate, at most 42 turns mark, and the outcome is explained by the final grid. |
| `Games.PlayTurnPromised` | lib/main.rb:125-143 | The same promises for the turn after turn `counter` on a grid that is not full. |
| `Games.PlayLinesPromised` | lib/main.rb:133-153 | The whole game from a new board keeps those promises. If no turn marks, the board stays new and no line is valid. |
| `Games.Game.constructor` | lib/main.rb:118-124 | A new game has a new, all-unoccupied board and no last move. |
| `Games.Game.Choose` | lib/main.rb:193-200 | `choose` returns the row and column digits of the first valid line from where reading starts. That position is on the board and unoccupied. Every line skipped before it is invalid. If no line is valid, all the lines are used up. |
| `Games.Game.Turn` | lib/main.rb:125-131 | An even counter makes Red current and an odd one Green. The position marked is the one named by the first valid line from where reading starts, and every line before it is invalid. That position was unoccupied and now holds the current player's mark, and no other position changes. If no line is valid, nothing is marked and all the lines are used up. Either way the turn is `Games.PlayTurn`'s: waiting leaves the game as it was, and marking leaves what `Games.PlayOn` plays from the new board. |
| `Games.Game.EndGame` | lib/main.rb:146-153 | A tie exactly when the board is full, even if the last move also completed a line. Otherwise the current player wins. |
| `Games.Game.Play` | lib/main.rb:133-143 | The outcome, the board, the number of marking turns and where the last turn started reading are those of the reference game over grid values (turn 0 on a new board, then `Games.PlayOn`). At most 42 turns make marks, and the marks alternate between Red and Green throughout. A tie leaves a full board with 21 marks per player. A win goes to the current player, whose last mark completes a line on a board that is not full. The game waits for input only when the last move did not end the game and no line from where the last turn started reading is valid. |
| `Games.Game.PlayFrom` | lib/main.rb:137-143 | The `until` loop of `play` once turn `counter` has marked a position, then `end_game`'s decision. The outcome, the board, the number of marking turns and where the last turn started reading are those of `Games.PlayOn` from the state the loop starts in. The marks made number more than `counter` and at most 42, and they alternate. The game waits exactly when the last move did not end it, and then no line from where the last turn started reading is valid. A tie leaves a full board with 21 marks per player. Otherwise the current player made the last turn and the last move, and a win is theirs with a line through that move on a board that is not full. |
| `AsWritten.RubyIndex` | lib/main.rb:73-76 | Ruby indexing: a negative index counts back from the end, and an index outside the array gives nil. |
| `AsWritten.CountAsWritten` | lib/main.rb:72-80 | `count` as written, with Ruby's negative-index wrap and fuel to bound the recursion. Its properties are stated by `AsWritten.AgreesWithoutWrap` and `AsWritten.WrapNeverStops`. |
| `AsWritten.CheckHorizontalAsWritten` | lib/main.rb:82-89 | `check_horizontal` built on `count` as written. `AsWritten.WrapReportsFalseWin` and `AsWritten.FullRowWins` state how it differs from the corrected check. |
| `AsWritten.AgreesWithoutWrap` | lib/main.rb:72-80 | Walking right, down, or down-right, `count` as written returns the same as the corrected walk. |
| `AsWritten.WrapReportsFalseWin` | lib/main.rb:72-89 | With Red in columns 0, 4, 5, 6 of row 5, `check_horizontal` as written on column 0 says four in a row. The board has none. |
| `AsWritten.WrapNeverStops` | lib/main.rb:72-80 | On a row of seven equal occupiers, the leftward walk as written never returns, whatever the fuel. |
| `AsWritten.FullRowWins` | lib/main.rb:82-89 | On such a row the corrected check finds four in a row, while the check as written never returns. |
| `AsWritten.ValidAsWritten` | lib/main.rb:181-191 | `valid?` as written: the board is read before the bounds are checked, and an out-of-range digit is a failure. Its properties are stated by `AsWritten.ValidAsWrittenAgrees` and `AsWritten.ValidAsWrittenFails`. |
| `AsWritten.ValidAsWrittenAgrees` | lib/main.rb:181-191 | When `valid?` as written returns, it agrees with the corrected check. It fails exactly when a row digit above 5 or a column digit above 6 is looked up. |
| `AsWritten.ValidAsWrittenFails` | lib/main.rb:181-191 | '63', '37' and '6a' make `valid?` as written fail. The corrected check rejects them and '333', and accepts '33'. |

## Left out

- Display: `Board#put`, `Game#put`, `#put_instructions`, the printing in `#end_game` and the colour strings are not modelled. Neither are `Player#color` and the coloured `'●'` symbols. A player is just `Red` or `Green`.
- Console input: `gets` in `choose` is replaced by a finite sequence of lines. When the lines run out, `Choose` reports that nothing was found, `Turn` places nothing and `Play` returns `AwaitingInput`, together with the number of marks made and the index where the turn that found no valid line started reading. The source would block and wait instead.
- `Play` returns the number of turns that made a mark, and the index where its last turn started reading. The source returns nothing useful from `play`; these results only let its contract say how far the game got. `PlayFrom` is the `until` loop of `play`, kept as a method of its own so that each part is verified separately.
- The process plumbing is not modelled: the top-level `Game.new.play` and the required libraries.
- Boards.Count: requires a step of -1, 0 or 1 on each axis, not both 0. These are the only steps its callers use; with no step at all the source would recurse forever.
- Boards.Count: walks stop at every edge. The source's wrap at index -1 is modelled separately in `AsWritten.CountAsWritten`, which uses fuel because it need not terminate.
- Games.ValidChoice: checks the bounds before it looks at the board. The source looks first and fails on out-of-range digits; that behaviour is `AsWritten.ValidAsWritten`.
- Games.Nums: takes single characters. Its only caller passes the two characters of a two-character line. `to_i.to_s` on longer strings (such as "-1" or "12") is not modelled.
- Games.Game.Play: requires a new game (empty board, no last move). The source plays only a freshly created game.
- Games.Game.Turn: sets the current player after the choice is read, not before. In between, only the prompt reads it, and the prompt is not modelled.
- The current player starts as `Red` instead of nil. It is set by the first turn before anything reads it.
- `Position`'s row and column are constants. The source allows them to be reassigned, but nothing reassigns them.
- Boards.Board.constructor: builds each row of 7 positions and then appends it. The source first appends six empty rows and then fills them; the resulting board is the same.

## Findings

| source | as written | input that shows it | evidently intended | confidence | as-written member | corrected member |
|---|---|---|---|---|---|---|
| lib/main.rb:72-80 | A walk left from column 0 (or up from row 0) indexes -1. Ruby reads that as the last column (row), so the walk carries on at the far side of the board. | Moves 54, 00, 55, 01, 56, 02, 50. Red then holds row 5 columns 0, 4, 5 and 6, and `check_horizontal` on 50 counts 3 to the left, so Red is declared the winner. | The walk stops at the edge, and the board has no four in a row. | high, not executed | `AsWritten.CountAsWritten`, `AsWritten.WrapReportsFalseWin` | `Boards.Count`, `Boards.CountBound`, `Boards.CheckHorizontal` |
| lib/main.rb:72-80 | On a row whose seven positions share one occupier, the leftward walk goes round the row forever, until the stack overflows. | Moves 50, 00, 51, 01, 52, 02, 54, 10, 55, 11, 56, 12, 53. No earlier move wins, and `check_horizontal` on 53 never returns. | Four in a row is reported and the game ends. | medium, not executed | `AsWritten.CountAsWritten`, `AsWritten.WrapNeverStops` | `Boards.Count`, `Boards.CountBound`, `AsWritten.FullRowWins` |
| lib/main.rb:181-191 | `valid?` looks up the chosen position before checking the digits' bounds. A row digit above 5 or a column digit above 6 indexes past the board, and a method is called on nil (NoMethodError). | The lines '63', '37', '6a' | The line is rejected and the player is asked again. | high, not executed | `AsWritten.ValidAsWritten`, `AsWritten.ValidAsWrittenFails` | `Games.ValidChoice`, `Games.ValidChoiceIsEncoding` |
