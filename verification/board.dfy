/**
 The Connect 4 board and move legality.

 A board is seven columns of six cells, indexed `b[col][row]`. Row 0 is the
 TOP of a column: a dropped disc lands just above the topmost occupied cell
 (row 5 in an empty column), so on a settled board a column fills from row 5
 upward. A cell holds 1 (the human), -1 (the
 computer) or 0 (empty).
 */
module Board {

  const Columns: int := 7
  const Rows: int := 6

  const Empty: int := 0
  const Human: int := 1
  const Ai: int := -1

  /** One of the two sides; "the other side" is a sign flip. */
  type Player = p: int | p == 1 || p == -1 witness 1

  type Grid = seq<seq<int>>

  /** The result of dropping a disc: the new board, the row it landed on, and whether it was legal. */
  datatype MoveResult = MoveResult(board: Grid, row: int, success: bool)

  /** Seven columns of six cells each. */
  predicate Shaped(b: Grid)
  {
    |b| == Columns && forall c :: 0 <= c < |b| ==> |b[c]| == Rows
  }

  predicate InBounds(col: int, row: int)
  {
    0 <= col < Columns && 0 <= row < Rows
  }

  /** Every cell holds one of the three cell values. */
  predicate CellsValid(b: Grid)
  {
    Shaped(b) && forall c, r :: 0 <= c < Columns && 0 <= r < Rows ==> b[c][r] in {Empty, Human, Ai}
  }

  /** Gravity: below (at a higher index than) an occupied cell, every cell is occupied. */
  predicate Settled(b: Grid)
    requires Shaped(b)
  {
    forall c, i, j :: 0 <= c < Columns && 0 <= i <= j < Rows && b[c][i] != Empty ==> b[c][j] != Empty
  }

  /** A column accepts a disc when it exists and its top cell is empty. */
  predicate Legal(b: Grid, col: int)
    requires Shaped(b)
  {
    0 <= col < Columns && b[col][0] == Empty
  }

  /** The game's draw test: every column's top cell is occupied. */
  predicate IsFull(b: Grid)
    requires Shaped(b)
  {
    forall c :: 0 <= c < Columns ==> b[c][0] != Empty
  }

  predicate HasLegalMove(b: Grid)
    requires Shaped(b)
  {
    exists c :: 0 <= c < Columns && Legal(b, c)
  }

  function EmptyBoard(): (b: Grid)
    ensures Shaped(b) && CellsValid(b) && Settled(b)
    ensures forall c, r :: InBounds(c, r) ==> b[c][r] == Empty
  {
    seq(Columns, _ => seq(Rows, _ => Empty))
  }

  /**
   Scans a column downward from index `i` and returns the index just above the
   first occupied cell, or 5 when every cell from `i` on is empty.
   */
  function TopFrom(column: seq<int>, i: int): (r: int)
    requires |column| == Rows && 0 <= i <= Rows
    ensures i - 1 <= r < Rows
    ensures forall k :: i <= k <= r ==> column[k] == Empty
    ensures r < Rows - 1 ==> column[r + 1] != Empty
    decreases Rows - i
  {
    if i == Rows then Rows - 1
    else if column[i] != Empty then i - 1
    else TopFrom(column, i + 1)
  }

  /**
   The row a disc dropped into `col` lands on, or -1 when the column does not
   exist or is full.
   */
  function GetTopRow(b: Grid, col: int): (r: int)
    requires Shaped(b)
    ensures -1 <= r < Rows
    ensures r == -1 <==> !Legal(b, col)
    ensures r >= 0 ==> r < Rows && forall k :: 0 <= k <= r ==> b[col][k] == Empty
    ensures r >= 0 ==> r == Rows - 1 || b[col][r + 1] != Empty
  {
    if col < 0 || col > Columns - 1 then -1 else TopFrom(b[col], 0)
  }

  /**
   Drops `player`'s disc into `col`. A legal drop returns a copy of the board
   with exactly one cell changed; an illegal one returns the board itself.
   */
  function MakeMove(b: Grid, col: int, player: Player): (m: MoveResult)
    requires Shaped(b)
    ensures Shaped(m.board)
    ensures m.success <==> Legal(b, col)
    ensures !m.success ==> m.row == -1 && m.board == b
    ensures m.success ==> 0 <= m.row < Rows && b[col][m.row] == Empty
    ensures m.success ==> forall k :: 0 <= k < m.row ==> b[col][k] == Empty
    ensures m.success ==> m.row == Rows - 1 || b[col][m.row + 1] != Empty
    ensures m.success ==> m.board[col][m.row] == player
    ensures m.success ==> forall c, r :: InBounds(c, r) && (c != col || r != m.row) ==> m.board[c][r] == b[c][r]
  {
    var row := GetTopRow(b, col);
    if row >= 0 then MoveResult(b[col := b[col][row := player]], row, true)
    else MoveResult(b, -1, false)
  }

  /** On a settled board the disc lands on the lowest free cell: everything below it is occupied. */
  lemma MoveLandsOnLowestFree(b: Grid, col: int, player: Player)
    requires Shaped(b) && Settled(b) && Legal(b, col)
    ensures var m := MakeMove(b, col, player);
      m.success && forall k :: 0 <= k < Rows ==> (b[col][k] == Empty <==> k <= m.row)
  {
    var m := MakeMove(b, col, player);
    forall k | 0 <= k < Rows
      ensures b[col][k] == Empty <==> k <= m.row
    {
      if k > m.row {
        assert b[col][m.row + 1] != Empty;
      }
    }
  }

  /** A legal drop keeps every column "empty cells, then occupied cells" and keeps cell values valid. */
  lemma MovePreservesSettled(b: Grid, col: int, player: Player)
    requires CellsValid(b) && Settled(b)
    ensures var m := MakeMove(b, col, player);
      CellsValid(m.board) && Settled(m.board)
  {
    var m := MakeMove(b, col, player);
    if m.success {
      var b' := m.board;
      forall c, i, j | 0 <= c < Columns && 0 <= i <= j < Rows && b'[c][i] != Empty
        ensures b'[c][j] != Empty
      {
        if c == col && j != m.row && i <= m.row {
          assert j > m.row;
          assert b[col][m.row + 1] != Empty;
        }
      }
    }
  }

  /** On a settled board the top-cell draw test means all 42 cells are occupied. */
  lemma FullMeansEveryCellOccupied(b: Grid)
    requires Shaped(b) && Settled(b)
    ensures IsFull(b) <==> forall c, r :: InBounds(c, r) ==> b[c][r] != Empty
  {
    if IsFull(b) {
      forall c, r | InBounds(c, r)
        ensures b[c][r] != Empty
      {
        assert b[c][0] != Empty;
      }
    }
  }

  /** A board with a free top cell has a legal move, and only a full board has none. */
  lemma LegalMoveUnlessFull(b: Grid)
    requires Shaped(b)
    ensures HasLegalMove(b) <==> !IsFull(b)
  {
    if !IsFull(b) {
      var c :| 0 <= c < Columns && !(b[c][0] != Empty);
      assert Legal(b, c);
    }
  }

  /** The number of entries of `s` equal to `v`. */
  function Occurrences(s: seq<int>, v: int): nat
  {
    if |s| == 0 then 0 else (if s[0] == v then 1 else 0) + Occurrences(s[1..], v)
  }

  /** The number of cells of the board holding `v`, column by column. */
  function Discs(b: Grid, v: int): nat
  {
    if |b| == 0 then 0 else Occurrences(b[0], v) + Discs(b[1..], v)
  }

  /** Overwriting one entry changes the count of `v` by what left and what arrived. */
  lemma {:induction false} OccurrencesUpdate(s: seq<int>, i: int, x: int, v: int)
    requires 0 <= i < |s|
    ensures Occurrences(s[i := x], v) + (if s[i] == v then 1 else 0)
      == Occurrences(s, v) + (if x == v then 1 else 0)
  {
    if i > 0 {
      assert s[i := x][1..] == s[1..][i - 1 := x];
      OccurrencesUpdate(s[1..], i - 1, x, v);
    } else {
      assert s[i := x][1..] == s[1..];
    }
  }

  /** Replacing one column changes the board's count by the difference of the two columns' counts. */
  lemma {:induction false} DiscsUpdate(b: Grid, c: int, column: seq<int>, v: int)
    requires 0 <= c < |b|
    ensures Discs(b[c := column], v) + Occurrences(b[c], v) == Discs(b, v) + Occurrences(column, v)
  {
    if c > 0 {
      assert b[c := column][1..] == b[1..][c - 1 := column];
      DiscsUpdate(b[1..], c - 1, column, v);
    } else {
      assert b[c := column][1..] == b[1..];
    }
  }

  /** A legal drop turns exactly one empty cell into one of the mover's discs. */
  lemma MoveAddsOneDisc(b: Grid, col: int, player: Player, v: int)
    requires Shaped(b) && Legal(b, col)
    ensures Discs(MakeMove(b, col, player).board, v) + (if v == Empty then 1 else 0)
      == Discs(b, v) + (if v == player then 1 else 0)
  {
    var m := MakeMove(b, col, player);
    var column := b[col][m.row := player];
    assert m.board == b[col := column];
    OccurrencesUpdate(b[col], m.row, player, v);
    DiscsUpdate(b, col, column, v);
  }

  /** A sequence with no entry equal to `v` counts none. */
  lemma {:induction false} OccurrencesAbsent(s: seq<int>, v: int)
    requires forall i :: 0 <= i < |s| ==> s[i] != v
    ensures Occurrences(s, v) == 0
  {
    if |s| > 0 {
      OccurrencesAbsent(s[1..], v);
    }
  }

  /** A board with no cell equal to `v` counts none. */
  lemma {:induction false} DiscsAbsent(b: Grid, v: int)
    requires forall c, r :: 0 <= c < |b| && 0 <= r < |b[c]| ==> b[c][r] != v
    ensures Discs(b, v) == 0
  {
    if |b| > 0 {
      OccurrencesAbsent(b[0], v);
      assert forall c, r :: 0 <= c < |b[1..]| && 0 <= r < |b[1..][c]| ==> b[1..][c][r] == b[c + 1][r];
      DiscsAbsent(b[1..], v);
    }
  }

  /** The empty board holds no disc of either side. */
  lemma EmptyBoardHasNoDiscs(p: Player)
    ensures Discs(EmptyBoard(), p) == 0
  {
    DiscsAbsent(EmptyBoard(), p);
  }
}
