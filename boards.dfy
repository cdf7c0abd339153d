/**
 * The tic-tac-toe board (class `Board` of tictactoe.py): a 3x3 grid of squares,
 * each 0 (empty), 1 or 2, and the counter `marked_sqrs` of marks placed so far.
 *
 * `Snapshot` is the value of a board at one moment (what `copy.deepcopy` of a
 * board holds); the queries of the source (`final_state`, `empty_sqr`,
 * `get_empty_sqrs`, `isfull`, `isempty`) are functions of that value. The class
 * `Board` is the mutable object itself, over a two-dimensional array.
 */
module Boards {

  /** The content of one square: 0 when empty, otherwise the mark of player 1 or 2. */
  type Cell = c: int | 0 <= c <= 2

  /** The mark a player places. */
  type Player = p: int | p == 1 || p == 2 witness 1

  /** A square's coordinates, the (row, col) tuples the board hands out. */
  type Square = (int, int)

  /** Index of a square in row-major order. */
  type Index = i: int | 0 <= i < 9

  /** The nine squares, row-major: square (row, col) sits at 3 * row + col. */
  type Grid = g: seq<Cell> | |g| == 9 witness [0, 0, 0, 0, 0, 0, 0, 0, 0]

  datatype Snapshot = Snapshot(squares: Grid, markedSqrs: int)

  /** A freshly built board: every square empty, nothing marked. */
  const Initial: Snapshot := Snapshot([0, 0, 0, 0, 0, 0, 0, 0, 0], 0)

  predicate InRange(row: int, col: int) {
    0 <= row < 3 && 0 <= col < 3
  }

  function At(s: Snapshot, row: int, col: int): Cell
    requires InRange(row, col)
  {
    s.squares[3 * row + col]
  }

  /** The square stored at row-major index `i`. */
  function SquareOf(i: Index): (sq: Square)
    ensures InRange(sq.0, sq.1) && 3 * sq.0 + sq.1 == i
  {
    (i / 3, i % 3)
  }

  /** Number of empty squares in `cells`. */
  function Zeros(cells: seq<Cell>): nat
  {
    if cells == [] then 0 else (if cells[0] == 0 then 1 else 0) + Zeros(cells[1..])
  }

  /** The counting invariant: `marked_sqrs` is the number of marked (non-zero) squares. */
  predicate Counted(s: Snapshot) {
    s.markedSqrs == 9 - Zeros(s.squares)
  }

  // ----- mark_sqr -----

  /** `mark_sqr(row, col, player)` on a board value: the square takes the player's
      mark, whatever it held before, and the counter goes up by one. */
  function Mark(s: Snapshot, row: int, col: int, player: Player): Snapshot
    requires InRange(row, col)
  {
    Snapshot(s.squares[3 * row + col := player], s.markedSqrs + 1)
  }

  lemma {:induction false} ZerosUpdate(cells: seq<Cell>, i: nat, v: Cell)
    requires i < |cells|
    ensures Zeros(cells[i := v]) ==
            Zeros(cells) - (if cells[i] == 0 then 1 else 0) + (if v == 0 then 1 else 0)
  {
    if i > 0 {
      assert cells[i := v][1..] == cells[1..][i - 1 := v];
      ZerosUpdate(cells[1..], i - 1, v);
    } else {
      assert cells[i := v][1..] == cells[1..];
    }
  }

  /** Marking square (row, col) sets exactly that square to the player, leaves the
      other eight alone and adds one to the counter; on a counted board the counter
      stays exact if and only if the square was empty. A human click is checked
      with `empty_sqr` on `main`'s board; a computer move relies on `eval`
      returning an empty square. */
  lemma MarkSpec(s: Snapshot, row: int, col: int, player: Player)
    requires InRange(row, col)
    ensures At(Mark(s, row, col, player), row, col) == player
    ensures forall r, c :: InRange(r, c) && (r, c) != (row, col) ==>
              At(Mark(s, row, col, player), r, c) == At(s, r, c)
    ensures Mark(s, row, col, player).markedSqrs == s.markedSqrs + 1
    ensures Counted(s) ==> (Counted(Mark(s, row, col, player)) <==> At(s, row, col) == 0)
    ensures Zeros(Mark(s, row, col, player).squares) ==
            Zeros(s.squares) - (if At(s, row, col) == 0 then 1 else 0)
  {
    ZerosUpdate(s.squares, 3 * row + col, player);
  }

  // ----- empty_sqr, get_empty_sqrs, isfull, isempty -----

  predicate EmptySqr(s: Snapshot, row: int, col: int)
    requires InRange(row, col)
  {
    At(s, row, col) == 0
  }

  /** The empty squares among the first `k` in row-major order, in that order. */
  function EmptyUpTo(s: Snapshot, k: nat): seq<Square>
    requires k <= 9
  {
    if k == 0 then []
    else EmptyUpTo(s, k - 1) + (if s.squares[k - 1] == 0 then [SquareOf(k - 1)] else [])
  }

  /** What `get_empty_sqrs` returns: every empty square, scanned row by row. */
  function EmptySqrs(s: Snapshot): seq<Square>
  {
    EmptyUpTo(s, 9)
  }

  predicate IsFull(s: Snapshot) {
    s.markedSqrs == 9
  }

  predicate IsEmpty(s: Snapshot) {
    s.markedSqrs == 0
  }

  /** Row-major position of a square. */
  function Pos(sq: Square): int {
    3 * sq.0 + sq.1
  }

  lemma {:induction false} EmptyUpToMembers(s: Snapshot, k: nat)
    requires k <= 9
    ensures forall sq :: sq in EmptyUpTo(s, k) <==>
              InRange(sq.0, sq.1) && Pos(sq) < k && EmptySqr(s, sq.0, sq.1)
  {
    if k > 0 {
      EmptyUpToMembers(s, k - 1);
    }
  }

  lemma {:induction false} EmptyUpToOrdered(s: Snapshot, k: nat)
    requires k <= 9
    ensures forall i, j :: 0 <= i < j < |EmptyUpTo(s, k)| ==>
              Pos(EmptyUpTo(s, k)[i]) < Pos(EmptyUpTo(s, k)[j])
  {
    if k > 0 {
      EmptyUpToOrdered(s, k - 1);
      EmptyUpToMembers(s, k - 1);
      var prev := EmptyUpTo(s, k - 1);
      forall i | 0 <= i < |prev| ensures Pos(prev[i]) < k - 1 {
        assert prev[i] in prev;
      }
    }
  }

  lemma {:induction false} EmptyUpToLength(s: Snapshot, k: nat)
    requires k <= 9
    ensures |EmptyUpTo(s, k)| == Zeros(s.squares[..k])
  {
    if k > 0 {
      EmptyUpToLength(s, k - 1);
      assert s.squares[..k] == s.squares[..k - 1] + [s.squares[k - 1]];
      ZerosAppend(s.squares[..k - 1], s.squares[k - 1]);
    }
  }

  lemma {:induction false} ZerosAppend(cells: seq<Cell>, c: Cell)
    ensures Zeros(cells + [c]) == Zeros(cells) + (if c == 0 then 1 else 0)
  {
    if cells != [] {
      assert (cells + [c])[1..] == cells[1..] + [c];
      ZerosAppend(cells[1..], c);
    }
  }

  /** `get_empty_sqrs` lists exactly the empty in-range squares, each once, in
      row-major order, and on a counted board there are 9 - `marked_sqrs` of them. */
  lemma EmptySqrsSpec(s: Snapshot)
    ensures forall sq :: sq in EmptySqrs(s) <==> InRange(sq.0, sq.1) && EmptySqr(s, sq.0, sq.1)
    ensures forall i, j :: 0 <= i < j < |EmptySqrs(s)| ==> Pos(EmptySqrs(s)[i]) < Pos(EmptySqrs(s)[j])
    ensures |EmptySqrs(s)| == Zeros(s.squares)
    ensures Counted(s) ==> |EmptySqrs(s)| == 9 - s.markedSqrs
  {
    EmptyUpToMembers(s, 9);
    EmptyUpToOrdered(s, 9);
    EmptyUpToLength(s, 9);
    assert s.squares[..9] == s.squares;
  }

  /** On a counted board, `isfull` holds exactly when no square is empty and
      `isempty` exactly when all nine are. */
  lemma FullAndEmptySpec(s: Snapshot)
    requires Counted(s)
    ensures IsFull(s) <==> EmptySqrs(s) == []
    ensures IsEmpty(s) <==> |EmptySqrs(s)| == 9
    ensures IsFull(s) <==> forall r, c :: InRange(r, c) ==> !EmptySqr(s, r, c)
  {
    EmptySqrsSpec(s);
    if IsFull(s) {
      forall r, c | InRange(r, c) ensures !EmptySqr(s, r, c) {
        assert (r, c) !in EmptySqrs(s);
      }
    } else {
      var sq := EmptySqrs(s)[0];
      assert sq in EmptySqrs(s);
      assert InRange(sq.0, sq.1) && EmptySqr(s, sq.0, sq.1);
    }
  }

  // ----- final_state -----

  /** A line of three squares, by row-major index. */
  datatype Line = Line(a: Index, b: Index, c: Index)

  /** The eight lines in the order `final_state` tries them: the three columns,
      the three rows, the descending diagonal, then the ascending one. */
  const Lines: seq<Line> := [
    Line(0, 3, 6), Line(1, 4, 7), Line(2, 5, 8),
    Line(0, 1, 2), Line(3, 4, 5), Line(6, 7, 8),
    Line(0, 4, 8), Line(6, 4, 2)]

  /** A line wins when its three squares hold the same non-zero mark. */
  predicate Wins(s: Snapshot, l: Line) {
    s.squares[l.a] != 0 && s.squares[l.a] == s.squares[l.b] && s.squares[l.b] == s.squares[l.c]
  }

  /** Reference definition: the mark on the first winning line of `lines`, or 0. */
  function FirstWin(s: Snapshot, lines: seq<Line>): Cell
  {
    if lines == [] then 0
    else if Wins(s, lines[0]) then s.squares[lines[0].a]
    else FirstWin(s, lines[1..])
  }

  /** The vertical-wins loop of `final_state`, from column `col` on. */
  function ColumnWin(s: Snapshot, col: nat): Cell
    decreases 3 - col
  {
    if col >= 3 then 0
    else if At(s, 0, col) == At(s, 1, col) == At(s, 2, col) && At(s, 2, col) != 0 then At(s, 0, col)
    else ColumnWin(s, col + 1)
  }

  /** The horizontal-wins loop of `final_state`, from row `row` on. */
  function RowWin(s: Snapshot, row: nat): Cell
    decreases 3 - row
  {
    if row >= 3 then 0
    else if At(s, row, 0) == At(s, row, 1) == At(s, row, 2) && At(s, row, 2) != 0 then At(s, row, 0)
    else RowWin(s, row + 1)
  }

  /** `final_state`: 0 while nobody has three in a line, otherwise the winning mark,
      found by trying the columns, the rows, then both diagonals. */
  function FinalState(s: Snapshot): Cell
  {
    var vertical := ColumnWin(s, 0);
    if vertical != 0 then vertical
    else
      var horizontal := RowWin(s, 0);
      if horizontal != 0 then horizontal
      else if At(s, 0, 0) == At(s, 1, 1) == At(s, 2, 2) && At(s, 2, 2) != 0 then At(s, 1, 1)
      else if At(s, 2, 0) == At(s, 1, 1) == At(s, 0, 2) && At(s, 0, 2) != 0 then At(s, 1, 1)
      else 0
  }

  lemma {:induction false} FirstWinAppend(s: Snapshot, xs: seq<Line>, ys: seq<Line>)
    ensures FirstWin(s, xs + ys) == if FirstWin(s, xs) != 0 then FirstWin(s, xs) else FirstWin(s, ys)
  {
    if xs != [] {
      assert (xs + ys)[1..] == xs[1..] + ys;
      FirstWinAppend(s, xs[1..], ys);
    } else {
      assert xs + ys == ys;
    }
  }

  lemma {:induction false} ColumnWinIsFirstWin(s: Snapshot, col: nat)
    requires col <= 3
    ensures ColumnWin(s, col) == FirstWin(s, Lines[col..3])
    decreases 3 - col
  {
    if col < 3 {
      ColumnWinIsFirstWin(s, col + 1);
      assert Lines[col..3][1..] == Lines[col + 1..3];
    }
  }

  lemma {:induction false} RowWinIsFirstWin(s: Snapshot, row: nat)
    requires row <= 3
    ensures RowWin(s, row) == FirstWin(s, Lines[3 + row..6])
    decreases 3 - row
  {
    if row < 3 {
      RowWinIsFirstWin(s, row + 1);
      assert Lines[3 + row..6][1..] == Lines[3 + row + 1..6];
    }
  }

  /** The unrolled scans of `final_state` agree with the reference scan over `Lines`. */
  lemma FinalStateIsFirstWin(s: Snapshot)
    ensures FinalState(s) == FirstWin(s, Lines)
  {
    ColumnWinIsFirstWin(s, 0);
    RowWinIsFirstWin(s, 0);
    assert Lines == Lines[0..3] + (Lines[3..6] + Lines[6..]);
    FirstWinAppend(s, Lines[0..3], Lines[3..6] + Lines[6..]);
    FirstWinAppend(s, Lines[3..6], Lines[6..]);
    var diagonals := Lines[6..];
    assert diagonals[1..] == [Line(6, 4, 2)] && diagonals[1..][1..] == [];
    assert FirstWin(s, diagonals[1..]) == if Wins(s, Line(6, 4, 2)) then s.squares[6] else 0;
  }

  lemma {:induction false} FirstWinSome(s: Snapshot, lines: seq<Line>)
    ensures FirstWin(s, lines) != 0 <==> exists k :: 0 <= k < |lines| && Wins(s, lines[k])
  {
    if lines != [] {
      FirstWinSome(s, lines[1..]);
      if !Wins(s, lines[0]) && exists k :: 0 <= k < |lines| && Wins(s, lines[k]) {
        var k :| 0 <= k < |lines| && Wins(s, lines[k]);
        assert lines[1..][k - 1] == lines[k];
      }
    }
  }

  lemma {:induction false} FirstWinFirst(s: Snapshot, lines: seq<Line>, k: nat)
    requires k < |lines| && Wins(s, lines[k])
    requires forall j :: 0 <= j < k ==> !Wins(s, lines[j])
    ensures FirstWin(s, lines) == s.squares[lines[k].a]
  {
    if k > 0 {
      assert !Wins(s, lines[0]);
      FirstWinFirst(s, lines[1..], k - 1);
    }
  }

  /** `final_state` is non-zero exactly when some column, row or diagonal holds
      three equal marks, and then it is the mark of the first such line in the
      order columns, rows, descending diagonal, ascending diagonal. */
  lemma FinalStateSpec(s: Snapshot)
    ensures FinalState(s) != 0 <==> exists k :: 0 <= k < |Lines| && Wins(s, Lines[k])
    ensures forall k :: (0 <= k < |Lines| && Wins(s, Lines[k]) &&
                         (forall j :: 0 <= j < k ==> !Wins(s, Lines[j]))) ==>
              FinalState(s) == s.squares[Lines[k].a]
  {
    FinalStateIsFirstWin(s);
    FirstWinSome(s, Lines);
    forall k | 0 <= k < |Lines| && Wins(s, Lines[k]) && (forall j :: 0 <= j < k ==> !Wins(s, Lines[j]))
      ensures FinalState(s) == s.squares[Lines[k].a]
    {
      FirstWinFirst(s, Lines, k);
    }
  }

  /** The condition `Game.isover` tests and `minimax` stops at: somebody has won
      or the counter says the board is full. */
  predicate IsOver(s: Snapshot) {
    FinalState(s) != 0 || IsFull(s)
  }

  // ----- the mutable board -----

  class Board {
    /** `squares`, the 3x3 grid, indexed [row, col]. */
    const squares: array2<Cell>
    /** `marked_sqrs`, the number of marks placed so far. */
    var markedSqrs: int

    ghost predicate Valid() {
      squares.Length0 == 3 && squares.Length1 == 3
    }

    /** The board's current value. */
    function Value(): Snapshot
      reads this, squares
      requires Valid()
    {
      Snapshot(seq(9, i requires 0 <= i < 9 reads squares => squares[i / 3, i % 3]), markedSqrs)
    }

    /** `Board()`: every square 0 and nothing marked, so the board is empty and
        not full. */
    constructor ()
      ensures Valid() && fresh(squares)
      ensures Value() == Initial && IsEmpty(Value()) && !IsFull(Value())
    {
      squares := new Cell[3, 3]((row, col) => 0);
      markedSqrs := 0;
      new;
      assert Value().squares == Initial.squares;
    }

    /** `copy.deepcopy(board)`: a new board, with a new grid, holding the same value. */
    constructor Copy(other: Board)
      requires other.Valid()
      ensures Valid() && fresh(squares)
      ensures Value() == other.Value()
    {
      squares := new Cell[3, 3]((row, col) requires 0 <= row < 3 && 0 <= col < 3 reads other.squares =>
                                  other.squares[row, col]);
      markedSqrs := other.markedSqrs;
      new;
      assert Value().squares == other.Value().squares;
    }

    /** `mark_sqr(row, col, player)`: no occupancy check; the square takes the mark
        and the counter goes up (see `MarkSpec` for what that does to the counter). */
    method MarkSqr(row: int, col: int, player: Player)
      requires Valid() && InRange(row, col)
      modifies this, squares
      ensures Valid()
      ensures Value() == Mark(old(Value()), row, col, player)
    {
      squares[row, col] := player;
      markedSqrs := markedSqrs + 1;
      assert Value().squares == old(Value()).squares[3 * row + col := player];
    }

    /** `get_empty_sqrs`: scans rows, then columns, collecting the empty squares. */
    method GetEmptySqrs() returns (sqrs: seq<Square>)
      requires Valid()
      ensures sqrs == EmptySqrs(Value())
    {
      ghost var s := Value();
      sqrs := [];
      for row := 0 to 3
        invariant sqrs == EmptyUpTo(s, 3 * row)
      {
        for col := 0 to 3
          invariant sqrs == EmptyUpTo(s, 3 * row + col)
        {
          if squares[row, col] == 0 {
            sqrs := sqrs + [(row, col)];
          }
        }
      }
    }
  }
}
