/**
 * Two parts of the game as the Ruby code behaves, next to the corrected
 * definitions the rest of the model uses:
 *  - `count` indexes rows and columns with Ruby's array indexing, where -1
 *    means the last element, so a walk up or left past the edge continues on
 *    the far side of the board;
 *  - `valid?` looks the chosen position up before checking that the digits
 *    are in bounds, and the lookup of an out-of-range position fails.
 */
module AsWritten {
  import opened Positions
  import opened Boards
  import opened Games

  datatype Option<T> = None | Some(value: T)

  /**
   * Ruby's `Array#[]` on an array of `length` elements: a negative index
   * counts back from the end; any other index outside the array gives nil.
   */
  function RubyIndex(length: nat, i: int): (j: Option<nat>)
    ensures j.None? <==> i >= length || i + length < 0
    ensures j.Some? ==> j.value < length && (j.value == i || j.value == i + length)
  {
    if 0 <= i < length then Some(i)
    else if 0 <= i + length && i < 0 then Some(i + length)
    else None
  }

  // ---------------------------------------------------------------------------
  // count with wrapping indices

  /**
   * `count` as written. `None` when the walk has not returned within `fuel`
   * nested calls: on a row that matches all the way round it never does.
   */
  function CountAsWritten(g: Grid, r: int, c: int, dx: int, dy: int, count: nat, fuel: nat): (result: Option<nat>)
    requires WellFormed(g) && InBounds(r, c)
    decreases fuel
  {
    if fuel == 0 then None
    else match RubyIndex(Rows, r + dy)
      case None => Some(count)
      case Some(row) =>
        match RubyIndex(Columns, c + dx)
        case None => Some(count)
        case Some(column) =>
          if g[row][column] != g[r][c] then Some(count)
          else CountAsWritten(g, row, column, dx, dy, count + 1, fuel - 1)
  }

  /** `check_horizontal` as written, over `CountAsWritten`. */
  function CheckHorizontalAsWritten(g: Grid, r: int, c: int, fuel: nat): (result: Option<bool>)
    requires WellFormed(g) && InBounds(r, c)
  {
    var right := CountAsWritten(g, r, c, 1, 0, 0, fuel);
    var left := CountAsWritten(g, r, c, -1, 0, 0, fuel);
    if right.None? || left.None? then None
    else Some(right.value + left.value + 1 >= 4)
  }

  /**
   * Walking right, down, or down and to the right never produces a negative
   * index, and there the code as written agrees with `Count`.
   */
  lemma {:induction false} AgreesWithoutWrap(g: Grid, r: int, c: int, dx: int, dy: int, count: nat, fuel: nat)
    requires WellFormed(g) && InBounds(r, c) && IsDirection(dx, dy) && dx >= 0 && dy >= 0
    requires fuel > Steps(r, c, dx, dy)
    ensures CountAsWritten(g, r, c, dx, dy, count, fuel) == Some(Count(g, r, c, dx, dy, count))
    decreases fuel
  {
    if 0 <= r + dy < Rows && 0 <= c + dx < Columns && g[r + dy][c + dx] == g[r][c] {
      AgreesWithoutWrap(g, r + dy, c + dx, dx, dy, count + 1, fuel - 1);
    }
  }

  /** Red on row 5 in columns 0, 4, 5 and 6, after the moves 54, 00, 55, 01, 56, 02, 50. */
  function WrappedRow(): (g: Grid)
    ensures WellFormed(g)
  {
    EmptyGrid()[0 := [Mark(Green), Mark(Green), Mark(Green), Empty, Empty, Empty, Empty]]
               [5 := [Mark(Red), Empty, Empty, Empty, Mark(Red), Mark(Red), Mark(Red)]]
  }

  /**
   * From column 0 the leftward walk wraps to columns 6, 5 and 4, so the code
   * as written reports four in a row where the board has none.
   */
  lemma WrapReportsFalseWin()
    ensures CheckHorizontalAsWritten(WrappedRow(), 5, 0, 8) == Some(true)
    ensures !CheckHorizontal(WrappedRow(), 5, 0)
    ensures !Won(WrappedRow(), 5, 0)
  {
    var g := WrappedRow();
    assert g[5][6] == Mark(Red) && g[5][5] == Mark(Red) && g[5][4] == Mark(Red);
    assert g[5][3] == Empty && g[5][1] == Empty;
    assert CountAsWritten(g, 5, 4, -1, 0, 3, 5) == Some(3);
    assert CountAsWritten(g, 5, 5, -1, 0, 2, 6) == Some(3);
    assert CountAsWritten(g, 5, 6, -1, 0, 1, 7) == Some(3);
    assert CountAsWritten(g, 5, 0, -1, 0, 0, 8) == Some(3) by {
      assert RubyIndex(Columns, -1) == Some(6);
    }
    assert CountAsWritten(g, 5, 0, 1, 0, 0, 8) == Some(0);
    assert Count(g, 5, 0, 1, 0, 0) == 0 && Count(g, 5, 0, -1, 0, 0) == 0;
  }

  /**
   * On a row whose seven positions all hold the same occupier, the leftward
   * walk as written goes round the row forever: no amount of fuel is enough.
   */
  lemma {:induction false} WrapNeverStops(g: Grid, r: int, c: int, count: nat, fuel: nat)
    requires WellFormed(g) && InBounds(r, c)
    requires forall j | 0 <= j < Columns :: g[r][j] == g[r][c]
    ensures CountAsWritten(g, r, c, -1, 0, count, fuel) == None
    decreases fuel
  {
    if fuel > 0 {
      var column := if c == 0 then Columns - 1 else c - 1;
      assert RubyIndex(Columns, c - 1) == Some(column);
      WrapNeverStops(g, r, column, count + 1, fuel - 1);
    }
  }

  /** With the walk stopped at the edge, the same row is a line of four through every position. */
  lemma FullRowWins(g: Grid, r: int, c: int)
    requires WellFormed(g) && InBounds(r, c)
    requires forall j | 0 <= j < Columns :: g[r][j] == g[r][c]
    ensures CheckHorizontal(g, r, c)
    ensures forall fuel: nat :: CheckHorizontalAsWritten(g, r, c, fuel) == None
  {
    var s: int := if c <= 3 then -c else -3;
    forall i | s <= i <= s + 3
      ensures Matches(g, r, c, 1, 0, i)
    {
      assert Along(r, 0, i) == r && Along(c, 1, i) == c + i;
    }
    assert Window(g, r, c, 1, 0, s);
    forall fuel: nat
      ensures CheckHorizontalAsWritten(g, r, c, fuel) == None
    {
      WrapNeverStops(g, r, c, 0, fuel);
    }
  }

  // ---------------------------------------------------------------------------
  // valid? with the lookup before the bounds checks

  /**
   * `valid?` as written: the digits index the board before they are checked;
   * a row digit above 5, or a column digit above 6, indexes past the board and
   * the call fails (`None`). A missing character reads as 0.
   */
  function ValidAsWritten(g: Grid, choice: string): (result: Option<bool>)
    requires WellFormed(g)
  {
    var row := if |choice| > 0 then ToI(choice[0]) else 0;
    var column := if |choice| > 1 then ToI(choice[1]) else 0;
    if row >= Rows || column >= Columns then None
    else if g[row][column] != Empty then Some(false)
    else if !(|choice| == 2 && Nums(choice[0], choice[1])) then Some(false)
    else if row > 5 then Some(false)
    else if column > 6 then Some(false)
    else Some(true)
  }

  /**
   * Whenever the code as written returns, it agrees with `ValidChoice`; it
   * fails exactly when a leading digit is out of bounds.
   */
  lemma ValidAsWrittenAgrees(g: Grid, choice: string)
    requires WellFormed(g)
    ensures ValidAsWritten(g, choice).Some? ==> ValidAsWritten(g, choice).value == ValidChoice(g, choice)
    ensures ValidAsWritten(g, choice).None? <==>
      (|choice| > 0 && ToI(choice[0]) > 5) || (|choice| > 1 && ToI(choice[1]) > 6)
  {
  }

  /** '63', '37' and '6a' make the code as written fail; `ValidChoice` rejects them and accepts '33'. */
  lemma ValidAsWrittenFails()
    ensures ValidAsWritten(EmptyGrid(), "63").None?
    ensures ValidAsWritten(EmptyGrid(), "37").None?
    ensures ValidAsWritten(EmptyGrid(), "6a").None?
    ensures !ValidChoice(EmptyGrid(), "63") && !ValidChoice(EmptyGrid(), "37")
    ensures !ValidChoice(EmptyGrid(), "6a") && !ValidChoice(EmptyGrid(), "333")
    ensures ValidChoice(EmptyGrid(), "33")
  {
    assert ToI('6') == 6 && ToI('3') == 3 && ToI('7') == 7;
  }
}
