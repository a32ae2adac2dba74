/**
 * The 6x7 Connect Four board: its fullness check and the four line checks,
 * each anchored at one position. The checks are pure queries over a snapshot
 * of the occupiers (`Grid`); `Board` is the object that owns the positions.
 * Row 0 is the top row, row 5 the bottom one.
 */
module Boards {
  import opened Positions

  const Rows: int := 6
  const Columns: int := 7

  /** The occupiers of the board, row by row. */
  type Grid = seq<seq<Occupier>>

  predicate WellFormed(g: Grid) {
    |g| == Rows && forall r | 0 <= r < Rows :: |g[r]| == Columns
  }

  predicate InBounds(r: int, c: int) {
    0 <= r < Rows && 0 <= c < Columns
  }

  /** The board as it is created: every position unoccupied. */
  function EmptyGrid(): (g: Grid)
    ensures WellFormed(g)
    ensures forall r, c | InBounds(r, c) :: g[r][c] == Empty
  {
    seq(Rows, _ => seq(Columns, _ => Empty))
  }

  /** The grid after the position (r, c) takes the mark of `p`. */
  function Place(g: Grid, r: int, c: int, p: Player): (h: Grid)
    requires WellFormed(g) && InBounds(r, c)
    ensures WellFormed(h)
    ensures h[r][c] == Mark(p)
  {
    g[r := g[r][c := Mark(p)]]
  }

  /** Marking (r, c) leaves every other position as it was. */
  lemma PlaceElsewhere(g: Grid, r: int, c: int, p: Player)
    requires WellFormed(g) && InBounds(r, c)
    ensures forall r', c' | InBounds(r', c') && (r', c') != (r, c) :: Place(g, r, c, p)[r'][c'] == g[r'][c']
  {
  }

  /** Two well-formed grids that agree on every position are equal. */
  lemma SameGrid(g: Grid, h: Grid)
    requires WellFormed(g) && WellFormed(h)
    requires forall r, c | InBounds(r, c) :: g[r][c] == h[r][c]
    ensures g == h
  {
    forall r | 0 <= r < Rows
      ensures g[r] == h[r]
    {
      assert forall c | 0 <= c < Columns :: g[r][c] == h[r][c];
    }
  }

  // ---------------------------------------------------------------------------
  // full?

  /** `full?`: every row has every position occupied. */
  predicate Full(g: Grid)
    requires WellFormed(g)
  {
    forall r | 0 <= r < Rows :: forall c | 0 <= c < Columns :: g[r][c] != Empty
  }

  /** How many positions of the rows in `g` hold `o`. */
  function Tally(g: seq<seq<Occupier>>, o: Occupier): (n: nat) {
    if g == [] then 0 else RowTally(g[0], o) + Tally(g[1..], o)
  }

  function RowTally(row: seq<Occupier>, o: Occupier): (n: nat) {
    if row == [] then 0 else (if row[0] == o then 1 else 0) + RowTally(row[1..], o)
  }

  lemma {:induction false} RowTallyZero(row: seq<Occupier>, o: Occupier)
    ensures RowTally(row, o) == 0 <==> forall c | 0 <= c < |row| :: row[c] != o
  {
    if row != [] {
      RowTallyZero(row[1..], o);
      assert forall c | 1 <= c < |row| :: row[c] == row[1..][c - 1];
    }
  }

  lemma {:induction false} TallyZero(g: seq<seq<Occupier>>, o: Occupier)
    ensures Tally(g, o) == 0 <==> forall r, c | 0 <= r < |g| && 0 <= c < |g[r]| :: g[r][c] != o
  {
    if g != [] {
      RowTallyZero(g[0], o);
      TallyZero(g[1..], o);
      assert forall r | 1 <= r < |g| :: g[r] == g[1..][r - 1];
    }
  }

  /** The board is full exactly when no position is still unoccupied. */
  lemma FullIffNoEmpty(g: Grid)
    requires WellFormed(g)
    ensures Full(g) <==> Tally(g, Empty) == 0
  {
    TallyZero(g, Empty);
  }

  lemma {:induction false} RowTallyPartition(row: seq<Occupier>)
    ensures RowTally(row, Empty) + RowTally(row, Mark(Red)) + RowTally(row, Mark(Green)) == |row|
  {
    if row != [] {
      RowTallyPartition(row[1..]);
      match row[0]
      case Empty =>
      case Mark(p) => assert p == Red || p == Green;
    }
  }

  /** Every position holds exactly one of the three occupiers: the tallies add up to 42. */
  lemma TallyPartition(g: Grid)
    requires WellFormed(g)
    ensures Tally(g, Empty) + Tally(g, Mark(Red)) + Tally(g, Mark(Green)) == Rows * Columns
  {
    TallyPartitionOf(g);
  }

  lemma {:induction false} TallyPartitionOf(g: seq<seq<Occupier>>)
    requires forall r | 0 <= r < |g| :: |g[r]| == Columns
    ensures Tally(g, Empty) + Tally(g, Mark(Red)) + Tally(g, Mark(Green)) == |g| * Columns
  {
    if g != [] {
      RowTallyPartition(g[0]);
      assert forall r | 0 <= r < |g| - 1 :: g[1..][r] == g[r + 1];
      TallyPartitionOf(g[1..]);
    }
  }

  /** The empty board has 42 unoccupied positions and no marks. */
  lemma EmptyGridTally()
    ensures Tally(EmptyGrid(), Empty) == Rows * Columns
    ensures Tally(EmptyGrid(), Mark(Red)) == 0 && Tally(EmptyGrid(), Mark(Green)) == 0
  {
    TallyZero(EmptyGrid(), Mark(Red));
    TallyZero(EmptyGrid(), Mark(Green));
    TallyPartition(EmptyGrid());
  }

  lemma {:induction false} RowTallyUpdate(row: seq<Occupier>, c: int, v: Occupier, o: Occupier)
    requires 0 <= c < |row|
    ensures RowTally(row[c := v], o) + (if row[c] == o then 1 else 0)
         == RowTally(row, o) + (if v == o then 1 else 0)
  {
    if c > 0 {
      assert row[c := v][1..] == row[1..][c - 1 := v];
      RowTallyUpdate(row[1..], c - 1, v, o);
    } else {
      assert row[c := v][1..] == row[1..];
    }
  }

  lemma {:induction false} TallyUpdate(g: seq<seq<Occupier>>, r: int, c: int, v: Occupier, o: Occupier)
    requires 0 <= r < |g| && 0 <= c < |g[r]|
    ensures Tally(g[r := g[r][c := v]], o) + (if g[r][c] == o then 1 else 0)
         == Tally(g, o) + (if v == o then 1 else 0)
  {
    if r > 0 {
      assert g[r := g[r][c := v]][1..] == g[1..][r - 1 := g[1..][r - 1][c := v]];
      TallyUpdate(g[1..], r - 1, c, v, o);
    } else {
      assert g[r := g[r][c := v]][1..] == g[1..];
      RowTallyUpdate(g[0], c, v, o);
    }
  }

  /**
   * Marking an unoccupied position adds one mark of that player, leaves the
   * other player's marks as they were, and removes one unoccupied position.
   */
  lemma PlaceTally(g: Grid, r: int, c: int, p: Player)
    requires WellFormed(g) && InBounds(r, c) && g[r][c] == Empty
    ensures Tally(Place(g, r, c, p), Mark(p)) == Tally(g, Mark(p)) + 1
    ensures Tally(Place(g, r, c, p), Empty) + 1 == Tally(g, Empty)
    ensures forall q: Player | q != p :: Tally(Place(g, r, c, p), Mark(q)) == Tally(g, Mark(q))
  {
    TallyUpdate(g, r, c, Mark(p), Mark(p));
    TallyUpdate(g, r, c, Mark(p), Empty);
    forall q: Player | q != p
      ensures Tally(Place(g, r, c, p), Mark(q)) == Tally(g, Mark(q))
    {
      TallyUpdate(g, r, c, Mark(p), Mark(q));
    }
  }

  // ---------------------------------------------------------------------------
  // check_vertical

  /**
   * `check_vertical`: walks down from (r, c), comparing each position with the
   * one beneath it, until `count` reaches 3 (a line of four) or the bottom row
   * is reached first. It never looks upward.
   */
  predicate CheckVertical(g: Grid, r: int, c: int, count: nat)
    requires WellFormed(g) && InBounds(r, c)
    ensures CheckVertical(g, r, c, count) <==>
      count <= 3 && r + 3 - count < Rows &&
      forall j | r < j <= r + 3 - count :: g[j][c] == g[r][c]
    decreases Rows - r
  {
    var final := r == Rows - 1;
    if final && count != 3 then false
    else if count == 3 then true
    else if g[r + 1][c] != g[r][c] then false
    else CheckVertical(g, r + 1, c, count + 1)
  }

  // ---------------------------------------------------------------------------
  // count and the lines built on it

  /** A step (dx, dy) of a walk: each component -1, 0 or 1, not both 0. */
  predicate IsDirection(dx: int, dy: int) {
    -1 <= dx <= 1 && -1 <= dy <= 1 && (dx != 0 || dy != 0)
  }

  /** The coordinate reached from `x` after `i` steps of `d`, where d is -1, 0 or 1. */
  function Along(x: int, d: int, i: int): (y: int) {
    if d == 1 then x + i else if d == -1 then x - i else x
  }

  /** How many steps of (dx, dy) from (r, c) stay on the board, along the axis that ends the walk. */
  function Steps(r: int, c: int, dx: int, dy: int): (n: int) {
    if dy == 1 then Rows - 1 - r
    else if dy == -1 then r
    else if dx == 1 then Columns - 1 - c
    else c
  }

  /** The position `i` steps of (dx, dy) away from (r, c) is on the board and has the occupier of (r, c). */
  predicate Matches(g: Grid, r: int, c: int, dx: int, dy: int, i: int)
    requires WellFormed(g) && InBounds(r, c)
  {
    InBounds(Along(r, dy, i), Along(c, dx, i)) && g[Along(r, dy, i)][Along(c, dx, i)] == g[r][c]
  }

  /** The first `k` positions after (r, c) in direction (dx, dy) all match it. */
  predicate Run(g: Grid, r: int, c: int, dx: int, dy: int, k: int)
    requires WellFormed(g) && InBounds(r, c)
  {
    forall i | 1 <= i <= k :: Matches(g, r, c, dx, dy, i)
  }

  /**
   * `count`: adds to `count` one for each position, stepping by (dx, dy)
   * from (r, c), that has the occupier of the position before it, and stops
   * at the first that does not or at the edge of the board.
   */
  function Count(g: Grid, r: int, c: int, dx: int, dy: int, count: nat): (n: nat)
    requires WellFormed(g) && InBounds(r, c) && IsDirection(dx, dy)
    decreases g, Steps(r, c, dx, dy)
  {
    if !(0 <= r + dy < Rows) then count
    else if !(0 <= c + dx < Columns) || g[r + dy][c + dx] != g[r][c] then count
    else Count(g, r + dy, c + dx, dx, dy, count + 1)
  }

  /**
   * `count` ends at the edge of the board at the latest: it adds at most the
   * number of steps left to that edge, and so at most 6.
   */
  lemma {:induction false} CountBound(g: Grid, r: int, c: int, dx: int, dy: int, count: nat)
    requires WellFormed(g) && InBounds(r, c) && IsDirection(dx, dy)
    ensures count <= Count(g, r, c, dx, dy, count) <= count + Steps(r, c, dx, dy)
    ensures Count(g, r, c, dx, dy, count) <= count + Columns - 1
    decreases Steps(r, c, dx, dy)
  {
    if 0 <= r + dy < Rows && 0 <= c + dx < Columns && g[r + dy][c + dx] == g[r][c] {
      CountBound(g, r + dy, c + dx, dx, dy, count + 1);
    }
  }

  /**
   * What `count` adds is the length of the run after (r, c): that many
   * positions in direction (dx, dy) share the occupier of (r, c), and the next
   * one is off the board or holds something else.
   */
  lemma CountIsRun(g: Grid, r: int, c: int, dx: int, dy: int, count: nat)
    requires WellFormed(g) && InBounds(r, c) && IsDirection(dx, dy)
    ensures Run(g, r, c, dx, dy, Count(g, r, c, dx, dy, count) - count)
    ensures !Matches(g, r, c, dx, dy, Count(g, r, c, dx, dy, count) - count + 1)
  {
    forall i | 1 <= i <= Count(g, r, c, dx, dy, count) - count
      ensures Matches(g, r, c, dx, dy, i)
    {
      CountMatches(g, r, c, dx, dy, count, i);
    }
    CountStops(g, r, c, dx, dy, count);
  }

  /** Each of the positions `count` walks over matches (r, c). */
  lemma {:induction false} CountMatches(g: Grid, r: int, c: int, dx: int, dy: int, count: nat, i: int)
    requires WellFormed(g) && InBounds(r, c) && IsDirection(dx, dy)
    requires 1 <= i <= Count(g, r, c, dx, dy, count) - count
    ensures Matches(g, r, c, dx, dy, i)
    decreases i
  {
    CountUnfold(g, r, c, dx, dy, count);
    if i == 1 {
      StepFirst(g, r, c, dx, dy);
    } else {
      CountMatches(g, r + dy, c + dx, dx, dy, count + 1, i - 1);
      StepShift(g, r, c, dx, dy, i - 1);
    }
  }

  /** The position just past the walk does not match (r, c), or is off the board. */
  lemma {:induction false} CountStops(g: Grid, r: int, c: int, dx: int, dy: int, count: nat)
    requires WellFormed(g) && InBounds(r, c) && IsDirection(dx, dy)
    ensures !Matches(g, r, c, dx, dy, Count(g, r, c, dx, dy, count) - count + 1)
    decreases Steps(r, c, dx, dy)
  {
    CountUnfold(g, r, c, dx, dy, count);
    var n := Count(g, r, c, dx, dy, count);
    if n > count {
      CountStops(g, r + dy, c + dx, dx, dy, count + 1);
      assert !Matches(g, r + dy, c + dx, dx, dy, n - count);
      StepShift(g, r, c, dx, dy, n - count);
    } else {
      StepFirst(g, r, c, dx, dy);
    }
  }

  /** `count` goes on exactly when the next position is on the board and matches, and then it counts on from there. */
  lemma CountUnfold(g: Grid, r: int, c: int, dx: int, dy: int, count: nat)
    requires WellFormed(g) && InBounds(r, c) && IsDirection(dx, dy)
    ensures Count(g, r, c, dx, dy, count) > count <==> InBounds(r + dy, c + dx) && g[r + dy][c + dx] == g[r][c]
    ensures Count(g, r, c, dx, dy, count) > count ==>
      Count(g, r, c, dx, dy, count) == Count(g, r + dy, c + dx, dx, dy, count + 1)
  {
    if 0 <= r + dy < Rows && 0 <= c + dx < Columns && g[r + dy][c + dx] == g[r][c] {
      CountBound(g, r + dy, c + dx, dx, dy, count + 1);
    }
  }

  /** The first step of a walk reaches the next position. */
  lemma StepFirst(g: Grid, r: int, c: int, dx: int, dy: int)
    requires WellFormed(g) && InBounds(r, c) && IsDirection(dx, dy)
    ensures Matches(g, r, c, dx, dy, 1) <==> InBounds(r + dy, c + dx) && g[r + dy][c + dx] == g[r][c]
  {
    assert Along(r, dy, 1) == r + dy && Along(c, dx, 1) == c + dx;
  }

  /**
   * Seen from the next position of a walk, which matches the start, the
   * position `i` steps further on is `i + 1` steps from the start, and it
   * matches one exactly when it matches the other.
   */
  lemma StepShift(g: Grid, r: int, c: int, dx: int, dy: int, i: int)
    requires WellFormed(g) && InBounds(r, c) && IsDirection(dx, dy)
    requires InBounds(r + dy, c + dx) && g[r + dy][c + dx] == g[r][c]
    ensures Matches(g, r + dy, c + dx, dx, dy, i) <==> Matches(g, r, c, dx, dy, i + 1)
  {
    assert Along(r + dy, dy, i) == Along(r, dy, i + 1) && Along(c + dx, dx, i) == Along(c, dx, i + 1);
  }

  /** Four consecutive positions in direction (dx, dy), starting `s` steps from (r, c), match (r, c). */
  predicate Window(g: Grid, r: int, c: int, dx: int, dy: int, s: int)
    requires WellFormed(g) && InBounds(r, c)
  {
    forall i | s <= i <= s + 3 :: Matches(g, r, c, dx, dy, i)
  }

  /** (r, c) lies inside a line of four positions along (dx, dy) that share its occupier. */
  predicate FourThrough(g: Grid, r: int, c: int, dx: int, dy: int)
    requires WellFormed(g) && InBounds(r, c)
  {
    exists s | -3 <= s <= 0 :: Window(g, r, c, dx, dy, s)
  }

  /** Stepping backwards is stepping forwards in the opposite direction. */
  lemma Opposite(g: Grid, r: int, c: int, dx: int, dy: int, i: int)
    requires WellFormed(g) && InBounds(r, c)
    ensures Matches(g, r, c, -dx, -dy, i) == Matches(g, r, c, dx, dy, -i)
  {
    assert Along(r, -dy, i) == Along(r, dy, -i) && Along(c, -dx, i) == Along(c, dx, -i);
  }

  /**
   * The two arms of a line plus the anchor reach four exactly when the anchor
   * lies in a line of four along that axis.
   */
  lemma LineTotal(g: Grid, r: int, c: int, dx: int, dy: int)
    requires WellFormed(g) && InBounds(r, c) && dx == 1 && -1 <= dy <= 1
    ensures Count(g, r, c, dx, dy, 0) + Count(g, r, c, -dx, -dy, 0) + 1 >= 4 <==> FourThrough(g, r, c, dx, dy)
  {
    var ahead := Count(g, r, c, dx, dy, 0);
    var behind := Count(g, r, c, -dx, -dy, 0);
    CountIsRun(g, r, c, dx, dy, 0);
    CountIsRun(g, r, c, -dx, -dy, 0);
    ArmsIffFour(g, r, c, dx, dy, ahead, behind);
  }

  /** Maximal arms of `ahead` and `behind` positions reach three in all exactly when a line of four passes through. */
  lemma ArmsIffFour(g: Grid, r: int, c: int, dx: int, dy: int, ahead: int, behind: int)
    requires WellFormed(g) && InBounds(r, c) && IsDirection(dx, dy)
    requires 0 <= ahead && 0 <= behind
    requires Run(g, r, c, dx, dy, ahead) && Run(g, r, c, -dx, -dy, behind)
    requires !Matches(g, r, c, dx, dy, ahead + 1) && !Matches(g, r, c, -dx, -dy, behind + 1)
    ensures ahead + behind >= 3 <==> FourThrough(g, r, c, dx, dy)
  {
    if ahead + behind >= 3 {
      ArmsMakeFour(g, r, c, dx, dy, ahead, behind);
    }
    if FourThrough(g, r, c, dx, dy) {
      var s: int :| -3 <= s <= 0 && Window(g, r, c, dx, dy, s);
      FourNeedsArms(g, r, c, dx, dy, ahead, behind, s);
    }
  }

  /** Arms of `ahead` and `behind` matching positions, three in all, hold a line of four. */
  lemma ArmsMakeFour(g: Grid, r: int, c: int, dx: int, dy: int, ahead: int, behind: int)
    requires WellFormed(g) && InBounds(r, c) && IsDirection(dx, dy)
    requires Run(g, r, c, dx, dy, ahead) && Run(g, r, c, -dx, -dy, behind)
    requires 0 <= ahead && 0 <= behind && ahead + behind >= 3
    ensures FourThrough(g, r, c, dx, dy)
  {
    var s: int := if behind >= 3 then -3 else -behind;
    forall i | s <= i <= s + 3
      ensures Matches(g, r, c, dx, dy, i)
    {
      if i < 0 {
        assert Matches(g, r, c, -dx, -dy, -i);
        Opposite(g, r, c, dx, dy, -i);
      } else if i == 0 {
        assert Along(r, dy, 0) == r && Along(c, dx, 0) == c;
      } else {
        assert Matches(g, r, c, dx, dy, i);
      }
    }
    assert Window(g, r, c, dx, dy, s);
  }

  /** A line of four through the anchor needs arms long enough to cover it. */
  lemma FourNeedsArms(g: Grid, r: int, c: int, dx: int, dy: int, ahead: int, behind: int, s: int)
    requires WellFormed(g) && InBounds(r, c) && IsDirection(dx, dy)
    requires 0 <= ahead && 0 <= behind
    requires !Matches(g, r, c, dx, dy, ahead + 1) && !Matches(g, r, c, -dx, -dy, behind + 1)
    requires -3 <= s <= 0 && Window(g, r, c, dx, dy, s)
    ensures ahead + behind >= 3
  {
    Opposite(g, r, c, dx, dy, behind + 1);
    assert !Matches(g, r, c, dx, dy, -(behind + 1));
    assert -(behind + 1) < s;
    assert s + 3 < ahead + 1;
  }

  /** `check_horizontal`: the run to the right plus the run to the left plus the anchor reach four. */
  predicate CheckHorizontal(g: Grid, r: int, c: int)
    requires WellFormed(g) && InBounds(r, c)
    ensures CheckHorizontal(g, r, c) <==> FourThrough(g, r, c, 1, 0)
  {
    LineTotal(g, r, c, 1, 0);
    var right := Count(g, r, c, 1, 0, 0);
    var left := Count(g, r, c, -1, 0, 0);
    var total := right + left + 1;
    total >= 4
  }

  /** `check_positive_diagonal`: the runs towards the upper right and the lower left. */
  predicate CheckPositiveDiagonal(g: Grid, r: int, c: int)
    requires WellFormed(g) && InBounds(r, c)
    ensures CheckPositiveDiagonal(g, r, c) <==> FourThrough(g, r, c, 1, -1)
  {
    LineTotal(g, r, c, 1, -1);
    var upperRight := Count(g, r, c, 1, -1, 0);
    var lowerLeft := Count(g, r, c, -1, 1, 0);
    var total := upperRight + lowerLeft + 1;
    total >= 4
  }

  /** `check_negative_diagonal`: the runs towards the upper left and the lower right. */
  predicate CheckNegativeDiagonal(g: Grid, r: int, c: int)
    requires WellFormed(g) && InBounds(r, c)
    ensures CheckNegativeDiagonal(g, r, c) <==> FourThrough(g, r, c, 1, 1)
  {
    LineTotal(g, r, c, 1, 1);
    var upperLeft := Count(g, r, c, -1, -1, 0);
    var lowerRight := Count(g, r, c, 1, 1, 0);
    var total := upperLeft + lowerRight + 1;
    total >= 4
  }

  /** `check_diagonal`: either diagonal through the anchor holds a line of four. */
  predicate CheckDiagonal(g: Grid, r: int, c: int)
    requires WellFormed(g) && InBounds(r, c)
    ensures CheckDiagonal(g, r, c) <==> FourThrough(g, r, c, 1, -1) || FourThrough(g, r, c, 1, 1)
  {
    if CheckPositiveDiagonal(g, r, c) then true
    else CheckNegativeDiagonal(g, r, c)
  }

  // ---------------------------------------------------------------------------
  // The board object

  /** The board: 6 rows of 7 positions, each knowing its own row and column. */
  class Board {
    const rows: seq<seq<Position>>
    /** The positions of the board, as a set. */
    ghost const Repr: set<Position>

    ghost predicate Valid() {
      |rows| == Rows &&
      forall r | 0 <= r < Rows ::
        |rows[r]| == Columns &&
        forall c | 0 <= c < Columns :: rows[r][c].row == r && rows[r][c].column == c && rows[r][c] in Repr
    }

    /** The occupiers of row `r`, from column `c` on. */
    function RowFrom(r: int, c: int): (occupiers: seq<Occupier>)
      requires Valid() && 0 <= r < Rows && 0 <= c <= Columns
      reads Repr
      ensures |occupiers| == Columns - c
      decreases rows, Columns - c
    {
      if c == Columns then [] else [rows[r][c].occupier] + RowFrom(r, c + 1)
    }

    /** The occupiers of the rows from row `r` on. */
    function RowsFrom(r: int): (g: seq<seq<Occupier>>)
      requires Valid() && 0 <= r <= Rows
      reads Repr
      ensures |g| == Rows - r && forall i | 0 <= i < |g| :: |g[i]| == Columns
      decreases rows, Rows - r
    {
      if r == Rows then [] else [RowFrom(r, 0)] + RowsFrom(r + 1)
    }

    /** The occupiers of the positions, row by row. */
    function Occupiers(): (g: Grid)
      requires Valid()
      reads Repr
      ensures WellFormed(g)
    {
      RowsFrom(0)
    }

    /** Entry `j - c` of `RowFrom(r, c)` is the occupier of column j. */
    lemma {:induction false} RowFromAt(r: int, c: int)
      requires Valid() && 0 <= r < Rows && 0 <= c <= Columns
      ensures forall j | c <= j < Columns :: RowFrom(r, c)[j - c] == rows[r][j].occupier
      decreases Columns - c
    {
      if c < Columns {
        RowFromAt(r, c + 1);
      }
    }

    /** Entry (i - r, j) of `RowsFrom(r)` is the occupier of row i and column j. */
    lemma {:induction false} RowsFromAt(r: int)
      requires Valid() && 0 <= r <= Rows
      ensures forall i, j | r <= i < Rows && 0 <= j < Columns :: RowsFrom(r)[i - r][j] == rows[i][j].occupier
      decreases Rows - r
    {
      if r < Rows {
        RowFromAt(r, 0);
        RowsFromAt(r + 1);
      }
    }

    /** Each entry of the grid is the occupier of the position at that row and column. */
    lemma OccupiersAt()
      requires Valid()
      ensures forall r, c | InBounds(r, c) :: Occupiers()[r][c] == rows[r][c].occupier
    {
      RowsFromAt(0);
      forall r, c | InBounds(r, c)
        ensures Occupiers()[r][c] == rows[r][c].occupier
      {
        assert RowsFrom(0)[r - 0][c] == rows[r][c].occupier;
      }
    }

    /** Six rows, each filled with seven fresh unoccupied positions. */
    constructor ()
      ensures Valid() && fresh(Repr)
      ensures Occupiers() == EmptyGrid()
    {
      var built: seq<seq<Position>> := [];
      var index := 0;
      while index < Rows
        invariant 0 <= index <= Rows && |built| == index
        invariant forall r | 0 <= r < index ::
          |built[r]| == Columns &&
          forall c | 0 <= c < Columns ::
            built[r][c].row == r && built[r][c].column == c &&
            fresh(built[r][c]) && built[r][c].occupier == Empty
      {
        var row := NewRow(index);
        built := built + [row];
        index := index + 1;
      }
      rows := built;
      Repr := set r, c | 0 <= r < Rows && 0 <= c < Columns :: built[r][c];
      new;
      OccupiersAt();
      SameGrid(Occupiers(), EmptyGrid());
    }
  }

  /** One row of the board under construction: seven fresh unoccupied positions. */
  method NewRow(index: int) returns (row: seq<Position>)
    ensures |row| == Columns
    ensures forall c | 0 <= c < Columns ::
      row[c].row == index && row[c].column == c && fresh(row[c]) && row[c].occupier == Empty
  {
    row := [];
    var column := 0;
    while column < Columns
      invariant 0 <= column <= Columns && |row| == column
      invariant forall c | 0 <= c < column ::
        row[c].row == index && row[c].column == c && fresh(row[c]) && row[c].occupier == Empty
    {
      var position := new Position(index, column);
      row := row + [position];
      column := column + 1;
    }
  }
}
