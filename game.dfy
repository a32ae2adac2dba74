/**
 * A game of Connect Four: reading and validating moves, taking turns, and
 * deciding the outcome. Console input is a finite sequence of lines; the
 * printing of the board and of messages is not modelled.
 */
module Games {
  import opened Positions
  import opened Boards

  /** How a game ends; `AwaitingInput` when the supplied lines ran out first. */
  datatype Outcome = Win(winner: Player) | Tie | AwaitingInput

  // ---------------------------------------------------------------------------
  // Reading a move

  predicate IsDigit(ch: char) {
    '0' <= ch <= '9'
  }

  /** Ruby's `to_i` on a one-character string: its digit value, or 0 if it is not a digit. */
  function ToI(ch: char): (n: nat)
    ensures n <= 9
    ensures IsDigit(ch) ==> ToS(n) == [ch]
  {
    if IsDigit(ch) then ch as int - '0' as int else 0
  }

  /** Ruby's `to_s` on a single digit. */
  function ToS(n: nat): (s: string)
    requires n <= 9
  {
    [('0' as int + n) as char]
  }

  /** `nums?`: each one-character string survives `to_i.to_s` unchanged, which digits alone do. */
  predicate Nums(row: char, column: char)
    ensures Nums(row, column) <==> IsDigit(row) && IsDigit(column)
  {
    var rowNumConfirm := ToS(ToI(row)) == [row];
    var columnNumConfirm := ToS(ToI(column)) == [column];
    rowNumConfirm && columnNumConfirm
  }

  /**
   * `valid?`: two digit characters naming a row up to 5 and a column up to 6
   * whose position is unoccupied. The bounds are checked before the board is
   * looked at.
   */
  predicate ValidChoice(g: Grid, choice: string)
    requires WellFormed(g)
  {
    |choice| == 2 && Nums(choice[0], choice[1]) &&
    ToI(choice[0]) <= 5 && ToI(choice[1]) <= 6 &&
    g[ToI(choice[0])][ToI(choice[1])] == Empty
  }

  /** No line of `inputs` from index `from` on is a valid choice on `g`. */
  predicate NoneValid(g: Grid, inputs: seq<string>, from: nat)
    requires WellFormed(g)
  {
    forall j | from <= j < |inputs| :: !ValidChoice(g, inputs[j])
  }

  /** Line `next - 1` is the first valid choice on `g` at or after index `from`. */
  predicate FirstValid(g: Grid, inputs: seq<string>, from: nat, next: nat)
    requires WellFormed(g)
  {
    from < next <= |inputs| && ValidChoice(g, inputs[next - 1]) &&
    forall j | from <= j < next - 1 :: !ValidChoice(g, inputs[j])
  }

  /** The line a player types to choose (r, c): the row digit, then the column digit. */
  function Encode(r: int, c: int): (choice: string)
    requires InBounds(r, c)
    ensures |choice| == 2 && ToI(choice[0]) == r && ToI(choice[1]) == c
  {
    [('0' as int + r) as char, ('0' as int + c) as char]
  }

  /** The accepted lines are exactly the encodings of the unoccupied positions. */
  lemma ValidChoiceIsEncoding(g: Grid, choice: string)
    requires WellFormed(g)
    ensures ValidChoice(g, choice) <==>
      exists r, c | InBounds(r, c) && g[r][c] == Empty :: choice == Encode(r, c)
  {
    if ValidChoice(g, choice) {
      var r, c := ToI(choice[0]), ToI(choice[1]);
      assert choice == Encode(r, c);
    }
  }

  /** `won?`: the position completes a line on a diagonal, in its row, or downwards in its column. */
  predicate Won(g: Grid, r: int, c: int)
    requires WellFormed(g) && InBounds(r, c)
    ensures Won(g, r, c) <==>
      FourThrough(g, r, c, 1, -1) || FourThrough(g, r, c, 1, 1) || FourThrough(g, r, c, 1, 0) ||
      (r <= 2 && forall j | r < j <= r + 3 :: g[j][c] == g[r][c])
  {
    CheckDiagonal(g, r, c) || CheckHorizontal(g, r, c) || CheckVertical(g, r, c, 0)
  }

  /** The player whose turn `counter` is: player 1 (Red) on even turns, player 2 (Green) on odd ones. */
  function PlayerFor(counter: nat): (p: Player) {
    if counter % 2 == 0 then Red else Green
  }

  /**
   * After turns 0 to `counter`: Red, who moves on even turns, has made
   * counter / 2 + 1 moves, Green the rest, and every other position is
   * unoccupied.
   */
  ghost predicate Alternated(g: Grid, counter: nat)
    requires WellFormed(g)
  {
    Tally(g, Mark(Red)) == (counter + 2) / 2 &&
    Tally(g, Mark(Green)) == (counter + 1) / 2 &&
    Tally(g, Empty) == Rows * Columns - (counter + 1)
  }

  /** Turn 0 on the empty board leaves Red with one move. */
  lemma AlternatedStart(r: int, c: int)
    requires InBounds(r, c)
    ensures Alternated(Place(EmptyGrid(), r, c, PlayerFor(0)), 0)
  {
    EmptyGridTally();
    PlaceTally(EmptyGrid(), r, c, Red);
  }

  /** Turn `counter`'s player marking an unoccupied position keeps the counts alternating. */
  lemma AlternatedStep(g: Grid, h: Grid, counter: nat, r: int, c: int)
    requires WellFormed(g) && InBounds(r, c) && g[r][c] == Empty
    requires counter >= 1 && Alternated(g, counter - 1)
    requires h == Place(g, r, c, PlayerFor(counter))
    ensures WellFormed(h) && Alternated(h, counter)
  {
    PlaceTally(g, r, c, PlayerFor(counter));
  }

  /** While the board is not full, fewer than 41 turns have been played. */
  lemma AlternatedNotFull(g: Grid, counter: nat)
    requires WellFormed(g) && Alternated(g, counter) && !Full(g)
    ensures counter < Rows * Columns - 1
  {
    FullIffNoEmpty(g);
  }

  /** A full board after alternating turns holds 21 marks of each player. */
  lemma AlternatedFull(g: Grid, counter: nat)
    requires WellFormed(g) && Alternated(g, counter)
    ensures Full(g) ==> Tally(g, Mark(Red)) == 21 && Tally(g, Mark(Green)) == 21
    ensures Tally(g, Mark(Green)) <= Tally(g, Mark(Red)) <= Tally(g, Mark(Green)) + 1
  {
    FullIffNoEmpty(g);
  }

  // ---------------------------------------------------------------------------
  // The game over grid values

  /** `choose` over a grid: the index of the first valid line at or after `from`, or |inputs| when there is none. */
  function Scan(g: Grid, inputs: seq<string>, from: nat): (i: nat)
    requires WellFormed(g) && from <= |inputs|
    ensures from <= i <= |inputs|
    ensures i < |inputs| ==> ValidChoice(g, inputs[i])
    decreases |inputs| - from
  {
    if from == |inputs| || ValidChoice(g, inputs[from]) then from else Scan(g, inputs, from + 1)
  }

  /** `Scan` stops at the first valid line, and reaches the end only when no line is valid. */
  lemma {:induction false} ScanIsFirst(g: Grid, inputs: seq<string>, from: nat)
    requires WellFormed(g) && from <= |inputs|
    ensures Scan(g, inputs, from) < |inputs| ==> FirstValid(g, inputs, from, Scan(g, inputs, from) + 1)
    ensures Scan(g, inputs, from) == |inputs| ==> NoneValid(g, inputs, from)
    decreases |inputs| - from
  {
    if from < |inputs| && !ValidChoice(g, inputs[from]) {
      ScanIsFirst(g, inputs, from + 1);
    }
  }

  /** Conversely, the first valid line, or its absence, determines `Scan`. */
  lemma ScanDetermined(g: Grid, inputs: seq<string>, from: nat, next: nat)
    requires WellFormed(g) && from <= |inputs|
    ensures FirstValid(g, inputs, from, next) ==> Scan(g, inputs, from) == next - 1
    ensures NoneValid(g, inputs, from) ==> Scan(g, inputs, from) == |inputs|
  {
    ScanIsFirst(g, inputs, from);
  }

  /** How `play` ends: the outcome, the grid, the number of marking turns and where the last turn started reading. */
  datatype Played = Played(outcome: Outcome, grid: Grid, turns: nat, last: nat)

  /**
   * The rest of `play` over grid values once turn `counter` has marked (r, c)
   * after starting to read at `started`: the game is over when (r, c)
   * completes a line or the grid is full, and otherwise the next turn reads
   * from `from`.
   */
  function PlayOn(g: Grid, inputs: seq<string>, started: nat, from: nat, counter: nat, r: int, c: int): (p: Played)
    requires WellFormed(g) && InBounds(r, c) && started <= from <= |inputs|
    ensures WellFormed(p.grid) && counter < p.turns && started <= p.last <= |inputs|
    decreases |inputs| - from, 1
  {
    if Won(g, r, c) || Full(g) then
      Played(if Full(g) then Tie else Win(PlayerFor(counter)), g, counter + 1, started)
    else
      PlayTurn(g, inputs, from, counter + 1)
  }

  /**
   * Turn `turn` over grid values, reading from `from`: the first valid line
   * is marked by that turn's player and the game plays on; when there is
   * none, the game waits for input after `turn` marking turns.
   */
  function PlayTurn(g: Grid, inputs: seq<string>, from: nat, turn: nat): (p: Played)
    requires WellFormed(g) && from <= |inputs|
    ensures WellFormed(p.grid) && turn <= p.turns && from <= p.last <= |inputs|
    decreases |inputs| - from, 0
  {
    var i := Scan(g, inputs, from);
    if i == |inputs| then Played(AwaitingInput, g, turn, from)
    else
      var row, column := ToI(inputs[i][0]), ToI(inputs[i][1]);
      PlayOn(Place(g, row, column, PlayerFor(turn)), inputs, from, i + 1, turn, row, column)
  }

  /**
   * The game is decided after turn `counter` exactly when (r, c) completes a
   * line or the grid is full; otherwise turn `counter + 1` is played.
   */
  lemma PlayOnDecides(g: Grid, inputs: seq<string>, started: nat, from: nat, counter: nat, r: int, c: int)
    requires WellFormed(g) && InBounds(r, c) && started <= from <= |inputs|
    ensures Won(g, r, c) || Full(g) ==>
      PlayOn(g, inputs, started, from, counter, r, c) ==
      Played(if Full(g) then Tie else Win(PlayerFor(counter)), g, counter + 1, started)
    ensures !(Won(g, r, c) || Full(g)) ==>
      PlayOn(g, inputs, started, from, counter, r, c) == PlayTurn(g, inputs, from, counter + 1)
  {
  }

  /** A turn with no valid line from `from` on waits for input, and marks nothing. */
  lemma PlayTurnWaits(g: Grid, inputs: seq<string>, from: nat, turn: nat)
    requires WellFormed(g) && from <= |inputs| && NoneValid(g, inputs, from)
    ensures PlayTurn(g, inputs, from, turn) == Played(AwaitingInput, g, turn, from)
  {
    ScanDetermined(g, inputs, from, 0);
  }

  /** A turn marks the position named by the first valid line, `next - 1`, and the game plays on from `next`. */
  lemma PlayTurnMarks(g: Grid, inputs: seq<string>, from: nat, next: nat, turn: nat, row: int, column: int)
    requires WellFormed(g) && from <= |inputs| && FirstValid(g, inputs, from, next)
    requires row == ToI(inputs[next - 1][0]) && column == ToI(inputs[next - 1][1])
    ensures InBounds(row, column) && g[row][column] == Empty
    ensures PlayTurn(g, inputs, from, turn) ==
      PlayOn(Place(g, row, column, PlayerFor(turn)), inputs, from, next, turn, row, column)
  {
    ScanDetermined(g, inputs, from, next);
  }

  /** `play` over grid values: turn 0 on the empty grid, reading from the first line. */
  function PlayLines(inputs: seq<string>): (p: Played)
  {
    PlayTurn(EmptyGrid(), inputs, 0, 0)
  }

  /** What a game played over grid values promises once it has marked at least once. */
  ghost predicate Promised(p: Played, inputs: seq<string>)
  {
    WellFormed(p.grid) && 0 < p.turns <= Rows * Columns && p.last <= |inputs| &&
    Alternated(p.grid, p.turns - 1) &&
    (p.outcome == AwaitingInput ==> NoneValid(p.grid, inputs, p.last) && !Full(p.grid)) &&
    (p.outcome == Tie ==> Full(p.grid) && Tally(p.grid, Mark(Red)) == 21 && Tally(p.grid, Mark(Green)) == 21) &&
    (p.outcome.Win? ==> !Full(p.grid) && p.outcome.winner == PlayerFor(p.turns - 1))
  }

  /** A game that is over after turn `counter` keeps its promises. */
  lemma OverPromised(g: Grid, inputs: seq<string>, started: nat, counter: nat)
    requires WellFormed(g) && started <= |inputs| && Alternated(g, counter)
    ensures Promised(Played(if Full(g) then Tie else Win(PlayerFor(counter)), g, counter + 1, started), inputs)
  {
    AlternatedFull(g, counter);
    if !Full(g) {
      AlternatedNotFull(g, counter);
    }
  }

  /** A game that waits for input after turn `counter` keeps its promises. */
  lemma WaitPromised(g: Grid, inputs: seq<string>, from: nat, counter: nat)
    requires WellFormed(g) && from <= |inputs| && Alternated(g, counter)
    requires !Full(g) && NoneValid(g, inputs, from)
    ensures Promised(Played(AwaitingInput, g, counter + 1, from), inputs)
  {
    AlternatedNotFull(g, counter);
  }

  /**
   * Played on from an alternating grid, the marks keep alternating, at most
   * 42 turns mark, a tie is a full grid with 21 marks each, a win goes to
   * the player of the last turn, and the game waits only when no line from
   * where the last turn started reading is valid.
   */
  lemma {:induction false} PlayOnPromised(g: Grid, inputs: seq<string>, started: nat, from: nat, counter: nat, r: int, c: int)
    requires WellFormed(g) && InBounds(r, c) && started <= from <= |inputs|
    requires Alternated(g, counter)
    ensures Promised(PlayOn(g, inputs, started, from, counter, r, c), inputs)
    decreases |inputs| - from, 1
  {
    if Won(g, r, c) || Full(g) {
      OverPromised(g, inputs, started, counter);
    } else {
      PlayTurnPromised(g, inputs, from, counter);
    }
  }

  /** The same promises for the turn after turn `counter`, on a grid that is not full. */
  lemma {:induction false} PlayTurnPromised(g: Grid, inputs: seq<string>, from: nat, counter: nat)
    requires WellFormed(g) && from <= |inputs| && !Full(g)
    requires Alternated(g, counter)
    ensures Promised(PlayTurn(g, inputs, from, counter + 1), inputs)
    decreases |inputs| - from, 0
  {
    var i := Scan(g, inputs, from);
    ScanIsFirst(g, inputs, from);
    if i == |inputs| {
      WaitPromised(g, inputs, from, counter);
    } else {
      AlternatedNotFull(g, counter);
      var row, column := ToI(inputs[i][0]), ToI(inputs[i][1]);
      AlternatedStep(g, Place(g, row, column, PlayerFor(counter + 1)), counter + 1, row, column);
      PlayOnPromised(Place(g, row, column, PlayerFor(counter + 1)), inputs, from, i + 1, counter + 1, row, column);
    }
  }

  /** The whole game over grid values keeps the same promises, counting from no turns at all. */
  lemma PlayLinesPromised(inputs: seq<string>)
    ensures var p := PlayLines(inputs);
      p.turns == 0 ==> p == Played(AwaitingInput, EmptyGrid(), 0, 0) && NoneValid(EmptyGrid(), inputs, 0)
    ensures var p := PlayLines(inputs);
      p.turns > 0 ==> Promised(p, inputs)
  {
    var i := Scan(EmptyGrid(), inputs, 0);
    ScanIsFirst(EmptyGrid(), inputs, 0);
    if i < |inputs| {
      var row, column := ToI(inputs[i][0]), ToI(inputs[i][1]);
      AlternatedStart(row, column);
      PlayOnPromised(Place(EmptyGrid(), row, column, PlayerFor(0)), inputs, 0, i + 1, 0, row, column);
    }
  }

  // ---------------------------------------------------------------------------
  // The game object

  class Game {
    const board: Board
    var lastMove: Position?
    var current: Player

    /** The board is well built and the last move, once made, is one of its positions. */
    ghost predicate Valid()
      reads this
    {
      board.Valid() &&
      (lastMove != null ==>
        InBounds(lastMove.row, lastMove.column) && lastMove == board.rows[lastMove.row][lastMove.column])
    }

    constructor ()
      ensures Valid() && fresh(board) && fresh(board.Repr)
      ensures board.Occupiers() == EmptyGrid() && lastMove == null
    {
      board := new Board();
      lastMove := null;
      current := Red;
    }

    /**
     * `choose`: reads lines from `inputs`, starting at `from`, until one is
     * valid, and returns its row and column digits and where reading stopped.
     */
    method Choose(inputs: seq<string>, from: nat) returns (found: bool, row: int, column: int, next: nat)
      requires Valid() && from <= |inputs|
      ensures from <= next <= |inputs|
      ensures found ==>
        FirstValid(board.Occupiers(), inputs, from, next) &&
        row == ToI(inputs[next - 1][0]) && column == ToI(inputs[next - 1][1]) &&
        InBounds(row, column) && board.Occupiers()[row][column] == Empty
      ensures !found ==> next == |inputs| && NoneValid(board.Occupiers(), inputs, from)
    {
      var grid := board.Occupiers();
      next := from;
      while next < |inputs| && !ValidChoice(grid, inputs[next])
        invariant from <= next <= |inputs|
        invariant forall j | from <= j < next :: !ValidChoice(grid, inputs[j])
      {
        next := next + 1;
      }
      if next == |inputs| {
        return false, 0, 0, next;
      }
      var choice := inputs[next];
      row, column := ToI(choice[0]), ToI(choice[1]);
      found, next := true, next + 1;
    }

    /**
     * `turn`: the parity of `counter` picks the current player, who marks the
     * position named by the first valid line, which was unoccupied. Nothing
     * changes if no line from `from` on is valid.
     */
    method Turn(counter: nat, inputs: seq<string>, from: nat) returns (placed: bool, next: nat)
      requires Valid() && from <= |inputs|
      modifies this, board.Repr
      ensures Valid()
      ensures current == PlayerFor(counter)
      ensures from <= next <= |inputs|
      ensures !placed ==> next == |inputs| && board.Occupiers() == old(board.Occupiers()) && lastMove == old(lastMove)
      ensures !placed ==> NoneValid(old(board.Occupiers()), inputs, from)
      ensures placed ==> FirstValid(old(board.Occupiers()), inputs, from, next)
      ensures placed ==>
        lastMove != null &&
        lastMove.row == ToI(inputs[next - 1][0]) && lastMove.column == ToI(inputs[next - 1][1]) &&
        old(board.Occupiers())[lastMove.row][lastMove.column] == Empty &&
        board.Occupiers() == Place(old(board.Occupiers()), lastMove.row, lastMove.column, current)
      ensures !placed ==> PlayTurn(old(board.Occupiers()), inputs, from, counter) == Played(AwaitingInput, board.Occupiers(), counter, from)
      ensures placed ==>
        PlayTurn(old(board.Occupiers()), inputs, from, counter) ==
        PlayOn(board.Occupiers(), inputs, from, next, counter, lastMove.row, lastMove.column)
    {
      // The proof needs only what the lemmas called here state about these functions.
      hide PlayOn, PlayTurn;
      board.OccupiersAt();
      var found, row, column;
      found, row, column, next := Choose(inputs, from);
      current := PlayerFor(counter);
      ghost var before := old(board.Occupiers());
      if !found {
        PlayTurnWaits(before, inputs, from, counter);
        return false, next;
      }
      PlayTurnMarks(before, inputs, from, next, counter, row, column);
      lastMove := board.rows[row][column];
      lastMove.Update(current);
      placed := true;
      board.OccupiersAt();
      PlaceElsewhere(before, row, column, current);
      SameGrid(board.Occupiers(), Place(before, row, column, current));
    }

    /**
     * `end_game`'s decision: a full board is a tie, even when the last move
     * also completed a line; otherwise the current player has won.
     */
    function EndGame(): (outcome: Outcome)
      requires Valid()
      reads this, board.Repr
      ensures outcome != AwaitingInput
      ensures outcome == Tie <==> Full(board.Occupiers())
      ensures outcome != Tie ==> outcome == Win(current)
    {
      if Full(board.Occupiers()) then Tie else Win(current)
    }

    /**
     * `play`: turn 0, then further turns until the last move won or the board
     * is full. `turns` counts the marks made and `last` is where the last
     * turn started reading. Red and Green alternate, so Red has made as many
     * moves as Green or one more, and the game is over within 42 turns. The
     * game waits for input only when the lines from `last` on are all invalid
     * and the game is not over. The outcome, the board, `turns` and `last`
     * are those of `PlayLines`.
     */
    method Play(inputs: seq<string>) returns (outcome: Outcome, turns: nat, last: nat)
      requires Valid() && board.Occupiers() == EmptyGrid() && lastMove == null
      modifies this, board.Repr
      ensures Valid()
      ensures Played(outcome, board.Occupiers(), turns, last) == PlayLines(inputs)
      ensures turns <= Rows * Columns
      ensures turns == 0 ==> board.Occupiers() == EmptyGrid() && lastMove == null
      ensures turns > 0 ==> lastMove != null && Alternated(board.Occupiers(), turns - 1)
      ensures outcome == AwaitingInput ==>
        last <= |inputs| && NoneValid(board.Occupiers(), inputs, last) &&
        (lastMove == null || !(Won(board.Occupiers(), lastMove.row, lastMove.column) || Full(board.Occupiers())))
      ensures outcome == Tie ==>
        Full(board.Occupiers()) && Tally(board.Occupiers(), Mark(Red)) == 21 && Tally(board.Occupiers(), Mark(Green)) == 21
      ensures outcome.Win? ==>
        outcome.winner == current && lastMove != null && !Full(board.Occupiers()) &&
        board.Occupiers()[lastMove.row][lastMove.column] == Mark(current) &&
        Won(board.Occupiers(), lastMove.row, lastMove.column)
      ensures outcome != AwaitingInput ==> turns > 0
      ensures outcome != AwaitingInput ==>
        var greens := Tally(board.Occupiers(), Mark(Green));
        greens <= Tally(board.Occupiers(), Mark(Red)) <= greens + 1
    {
      // The proof needs only what the lemma and the methods called here state about these functions.
      hide PlayOn, PlayTurn, Alternated, Tally, Won, Full;
      last := 0;
      var placed, next := Turn(0, inputs, last);
      if !placed {
        return AwaitingInput, 0, last;
      }
      AlternatedStart(lastMove.row, lastMove.column);
      outcome, turns, last := PlayFrom(0, inputs, 0, next);
    }

    /**
     * The loop of `play` once turn `counter` has been made: further turns
     * until the last move won or the board is full, then `end_game`'s
     * decision. Turn `counter` started reading at `started` and stopped at
     * `next`. The outcome, the board, `turns` and `last` are those of `PlayOn`.
     */
    method PlayFrom(counter: nat, inputs: seq<string>, started: nat, next: nat) returns (outcome: Outcome, turns: nat, last: nat)
      requires Valid() && lastMove != null && started <= next <= |inputs|
      requires current == PlayerFor(counter)
      requires board.Occupiers()[lastMove.row][lastMove.column] == Mark(current)
      requires Alternated(board.Occupiers(), counter)
      modifies this, board.Repr
      ensures Valid() && lastMove != null
      ensures Played(outcome, board.Occupiers(), turns, last) ==
        PlayOn(old(board.Occupiers()), inputs, started, next, counter, old(lastMove.row), old(lastMove.column))
      ensures counter < turns <= Rows * Columns
      ensures Alternated(board.Occupiers(), turns - 1)
      ensures outcome == AwaitingInput <==>
        !(Won(board.Occupiers(), lastMove.row, lastMove.column) || Full(board.Occupiers()))
      ensures outcome == AwaitingInput ==> last <= |inputs| && NoneValid(board.Occupiers(), inputs, last)
      ensures outcome == Tie ==>
        Full(board.Occupiers()) && Tally(board.Occupiers(), Mark(Red)) == 21 && Tally(board.Occupiers(), Mark(Green)) == 21
      ensures outcome != AwaitingInput ==>
        current == PlayerFor(turns - 1) && board.Occupiers()[lastMove.row][lastMove.column] == Mark(current)
      ensures outcome.Win? ==>
        outcome.winner == current && !Full(board.Occupiers()) && Won(board.Occupiers(), lastMove.row, lastMove.column)
      ensures outcome != AwaitingInput ==>
        var greens := Tally(board.Occupiers(), Mark(Green));
        greens <= Tally(board.Occupiers(), Mark(Red)) <= greens + 1
    {
      // The proof needs only what the lemmas called here and `Turn` state about these functions.
      hide PlayOn, PlayTurn, Alternated, Tally, Won, Full;
      ghost var target := PlayOn(board.Occupiers(), inputs, started, next, counter, lastMove.row, lastMove.column);
      PlayOnPromised(board.Occupiers(), inputs, started, next, counter, lastMove.row, lastMove.column);
      AlternatedFull(target.grid, target.turns - 1);
      var turn, placed, reached := counter, true, next;
      last := started;
      while !(Won(board.Occupiers(), lastMove.row, lastMove.column) || Full(board.Occupiers()))
        invariant Valid() && lastMove != null && last <= reached <= |inputs|
        invariant counter <= turn
        invariant current == PlayerFor(turn)
        invariant board.Occupiers()[lastMove.row][lastMove.column] == Mark(current)
        invariant PlayOn(board.Occupiers(), inputs, last, reached, turn, lastMove.row, lastMove.column) == target
        decreases |inputs| - reached
      {
        PlayOnDecides(board.Occupiers(), inputs, last, reached, turn, lastMove.row, lastMove.column);
        turn, last := turn + 1, reached;
        placed, reached := Turn(turn, inputs, last);
        if !placed {
          return AwaitingInput, turn, last;
        }
      }
      PlayOnDecides(board.Occupiers(), inputs, last, reached, turn, lastMove.row, lastMove.column);
      outcome, turns := EndGame(), turn + 1;
    }
  }
}
