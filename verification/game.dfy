/**
 The game's state machine: the human's click, the computer's turn and reset.

 The human (1) always moves first. A click is accepted only while the game
 is being played, it is the human's turn and the computer is not thinking,
 and only when the column accepts a disc. After every applied drop the win
 test comes first, then the draw test (every column's top cell occupied);
 only when neither ends the game does the turn pass. The computer's turn is
 one synchronous step: it searches five plies from the current board, breaks
 ties with a draw `rand` in [0, 1), and drops its disc into the chosen column.
 */
module Game {
  import opened Board
  import opened Lines
  import opened Search

  datatype Status = Playing | HumanWins | AiWins | Draw

  /** The most recent drop, highlighted on the board; `NoMove` until the first one. */
  datatype LastMove = NoMove | Dropped(col: int, row: int, player: Player)

  datatype State = State(board: Grid, current: Player, status: Status, aiThinking: bool, last: LastMove)

  /** The state the game starts in, which reset restores. */
  function Reset(): (g: State)
    ensures Shaped(g.board) && forall c, r :: InBounds(c, r) ==> g.board[c][r] == Empty
  {
    State(EmptyBoard(), Human, Playing, false, NoMove)
  }

  /** The status that ends a game won by `p`. */
  function WinFor(p: Player): Status
  {
    if p == Human then HumanWins else AiWins
  }

  /**
   What follows a successful drop by `mover` into `col`: the board and the
   last move are recorded; a win for the mover ends the game, otherwise a
   board with every top cell occupied is a draw, otherwise the turn passes.
   */
  function AfterDrop(g: State, m: MoveResult, col: int, mover: Player): (g': State)
    requires Shaped(m.board)
    ensures g'.board == m.board && g'.last == Dropped(col, m.row, mover) && g'.aiThinking == g.aiThinking
  {
    var g1 := g.(board := m.board, last := Dropped(col, m.row, mover));
    if CheckWin(m.board, mover) >= WinLength then g1.(status := WinFor(mover))
    else if IsFull(m.board) then g1.(status := Draw)
    else g1.(current := Opponent(mover))
  }

  /** Whether a click is acted on at all: the game is on, it is the human's turn and the computer is idle. */
  predicate AcceptsClick(g: State)
  {
    g.status == Playing && g.current == Human && !g.aiThinking
  }

  /** The human clicks column `col`. */
  function ClickColumn(g: State, col: int): (g': State)
    requires Shaped(g.board)
    ensures Shaped(g'.board)
    ensures g.status != Playing ==> g' == g
    ensures !Legal(g.board, col) ==> g' == g
  {
    if !AcceptsClick(g) then g
    else
      var m := MakeMove(g.board, col, Human);
      if !m.success then g
      else AfterDrop(g, m, col, Human)
  }

  /** The column the computer plays: the search's choice from the current board, with the draw `rand`. */
  function AiColumn(b: Grid, rand: real): (c: int)
    requires Shaped(b) && 0.0 <= rand < 1.0
    ensures c in Minimax(b, Ai, Ai, SearchDepth).ties
  {
    Pick(Minimax(b, Ai, Ai, SearchDepth).ties, rand)
  }

  /**
   The computer's turn, taken when it is the computer's turn and the game is
   on. The thinking flag is raised while it searches and lowered afterwards,
   whether or not the drop succeeded, so one whole turn leaves it lowered.
   */
  function AiTurn(g: State, rand: real): (g': State)
    requires Shaped(g.board) && 0.0 <= rand < 1.0
    ensures Shaped(g'.board)
    ensures g.status != Playing ==> g' == g
    ensures g.current != Ai ==> g' == g
  {
    if g.current != Ai || g.status != Playing then g
    else
      var col := AiColumn(g.board, rand);
      var m := MakeMove(g.board, col, Ai);
      if m.success then AfterDrop(g, m, col, Ai).(aiThinking := false)
      else g.(aiThinking := false)
  }

  /**
   The invariant of every state the game rests in: a settled board of valid
   cells, the computer idle, nobody has won and the board is not full while
   the game is on, and the human has dropped the same number of discs as the
   computer or one more — one more exactly when the computer is to move.
   */
  predicate Inv(g: State)
  {
    CellsValid(g.board) && Settled(g.board) && !g.aiThinking
    && Discs(g.board, Ai) <= Discs(g.board, Human) <= Discs(g.board, Ai) + 1
    && (g.status == Playing ==>
          CheckWin(g.board, Human) < WinLength && CheckWin(g.board, Ai) < WinLength && !IsFull(g.board)
          && (Discs(g.board, Human) == Discs(g.board, Ai) + 1 <==> g.current == Ai))
  }

  /** The empty board: no discs of either side, no line, and a free top cell. */
  lemma EmptyBoardIsFresh()
    ensures Discs(EmptyBoard(), Human) == 0 && Discs(EmptyBoard(), Ai) == 0
    ensures CheckWin(EmptyBoard(), Human) == 0 && CheckWin(EmptyBoard(), Ai) == 0
    ensures !IsFull(EmptyBoard())
  {
    EmptyBoardMeasuresZero(Human);
    EmptyBoardMeasuresZero(Ai);
    EmptyBoardHasNoDiscs(Human);
    EmptyBoardHasNoDiscs(Ai);
    assert EmptyBoard()[0][0] == Empty;
  }

  /** Reset starts a game in play on an empty board with the human to move and no last move, satisfying the invariant. */
  lemma ResetStartsGame()
    ensures var g := Reset();
      Inv(g) && g.status == Playing && g.current == Human && !g.aiThinking && g.last == NoMove
      && Discs(g.board, Human) == 0 && Discs(g.board, Ai) == 0
  {
    EmptyBoardIsFresh();
  }

  /** A legal drop by the side to move, followed by the win and draw tests, keeps the invariant. */
  lemma DropPreservesInv(g: State, col: int, mover: Player)
    requires Inv(g) && g.status == Playing && g.current == mover && Legal(g.board, col)
    ensures Inv(AfterDrop(g, MakeMove(g.board, col, mover), col, mover))
  {
    var m := MakeMove(g.board, col, mover);
    MovePreservesSettled(g.board, col, mover);
    MoveKeepsMeasure(g.board, col, mover, Opponent(mover));
    MoveAddsOneDisc(g.board, col, mover, Human);
    MoveAddsOneDisc(g.board, col, mover, Ai);
  }

  /** Every click keeps the invariant. */
  lemma ClickPreservesInv(g: State, col: int)
    requires Inv(g)
    ensures Inv(ClickColumn(g, col))
  {
    if AcceptsClick(g) && Legal(g.board, col) {
      DropPreservesInv(g, col, Human);
    }
  }

  /** Every computer turn keeps the invariant. */
  lemma AiTurnPreservesInv(g: State, rand: real)
    requires Inv(g) && 0.0 <= rand < 1.0
    ensures Inv(AiTurn(g, rand))
  {
    if g.current == Ai && g.status == Playing {
      var col := AiColumn(g.board, rand);
      if Legal(g.board, col) {
        DropPreservesInv(g, col, Ai);
      }
    }
  }

  /**
   The outcome of a drop by `mover` as the status shows it: the mover has won
   exactly when four of its discs lie in line; a draw is declared exactly when
   they do not and all 42 cells are occupied; otherwise the game goes on with
   the other side to move.
   */
  ghost predicate SettlesDrop(g': State, mover: Player)
    requires Shaped(g'.board)
  {
    (g'.status == WinFor(mover) <==> HasLine(g'.board, mover, WinLength))
    && (g'.status == Draw <==>
          !HasLine(g'.board, mover, WinLength) && forall c, r :: InBounds(c, r) ==> g'.board[c][r] != Empty)
    && (g'.status == Playing <==> g'.current == Opponent(mover))
    && g'.status in {Playing, WinFor(mover), Draw}
  }

  /** What the tests after a legal drop decide, in terms of lines and occupied cells. */
  lemma AfterDropSettles(g: State, col: int, mover: Player)
    requires Inv(g) && g.status == Playing && g.current == mover && Legal(g.board, col)
    ensures SettlesDrop(AfterDrop(g, MakeMove(g.board, col, mover), col, mover), mover)
  {
    var b' := MakeMove(g.board, col, mover).board;
    MovePreservesSettled(g.board, col, mover);
    WinIffFourInLine(b', mover);
    FullMeansEveryCellOccupied(b');
  }

  /**
   A click on a game satisfying the invariant changes the state exactly when
   the game is on, it is the human's turn and the column accepts a disc; the
   changed state holds the human's disc dropped into that column, records it
   as the last move, and settles the status by the win test, then the draw test.
   */
  lemma ClickOutcome(g: State, col: int)
    requires Inv(g)
    ensures var g' := ClickColumn(g, col);
      (g' != g <==> g.status == Playing && g.current == Human && Legal(g.board, col))
      && (g' != g ==>
            var m := MakeMove(g.board, col, Human);
            g'.board == m.board && g'.last == Dropped(col, m.row, Human) && !g'.aiThinking
            && SettlesDrop(g', Human))
  {
    if g.status == Playing && g.current == Human && Legal(g.board, col) {
      var m := MakeMove(g.board, col, Human);
      assert m.board[col][m.row] != g.board[col][m.row];
      AfterDropSettles(g, col, Human);
    }
  }

  /**
   On the computer's turn in a game satisfying the invariant, the search
   reports a legal column whose utility is at least that of every legal
   column, and the turn drops the computer's disc there, records it, and
   settles the status by the win test, then the draw test.
   */
  lemma AiTurnOutcome(g: State, rand: real)
    requires Inv(g) && g.status == Playing && g.current == Ai && 0.0 <= rand < 1.0
    ensures var col := AiColumn(g.board, rand);
      var g' := AiTurn(g, rand);
      var m := MakeMove(g.board, col, Ai);
      Legal(g.board, col)
      && (forall c' :: 0 <= c' < Columns && Legal(g.board, c') ==>
            ChildUtility(g.board, Ai, Ai, SearchDepth, c') <= ChildUtility(g.board, Ai, Ai, SearchDepth, col))
      && g'.board == m.board && g'.last == Dropped(col, m.row, Ai) && !g'.aiThinking
      && SettlesDrop(g', Ai)
  {
    var col := AiColumn(g.board, rand);
    LegalMoveUnlessFull(g.board);
    MinimaxSelects(g.board, Ai, Ai, SearchDepth, col);
    AfterDropSettles(g, col, Ai);
  }

  /**
   When the computer can complete four in line with one drop that leaves the
   human a legal reply, it plays a column of utility +1, and the game then
   has utility +1 for it.
   */
  lemma AiSeesImmediateWin(g: State, rand: real, c: int)
    requires Inv(g) && g.status == Playing && g.current == Ai && 0.0 <= rand < 1.0 && Legal(g.board, c)
    requires var b' := MakeMove(g.board, c, Ai).board;
      CheckWin(b', Ai) >= WinLength && HasLegalMove(b')
    ensures Minimax(g.board, Ai, Ai, SearchDepth).utility == 1.0
    ensures ChildUtility(g.board, Ai, Ai, SearchDepth, AiColumn(g.board, rand)) == 1.0
  {
    MoveKeepsMeasure(g.board, c, Ai, Human);
    ImmediateWinIsTaken(g.board, Ai, SearchDepth, c);
  }
}
