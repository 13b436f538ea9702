/**
 Line scanning and the win measure.

 `CountConsecutive` walks from a start cell to the edge of the board in one of
 four directions and reports the longest run of a player's discs it met;
 `CheckWin` takes the largest such count over 39 scans that together cover
 every column, row and diagonal. The reference meaning of both is a run of `k`
 consecutive equal cells (`Uniform` on a sequence, `LineOf` on the board).
 */
module Lines {
  import opened Board

  /**
   The four (column step, row step) pairs the win check passes:
   DownColumn = (0, 1), AcrossRows = (1, 0), Diagonal = (1, 1), AntiDiagonal = (-1, 1).
   */
  datatype Dir = DownColumn | AcrossRows | Diagonal | AntiDiagonal

  datatype Pos = Pos(col: int, row: int)

  /** One scan of the win check: a start cell and a direction. */
  datatype Start = Start(x: int, y: int, d: Dir)

  /** The cell `j` steps away from (x, y) in direction d. */
  function Along(x: int, y: int, d: Dir, j: int): Pos
  {
    match d
    case DownColumn => Pos(x, y + j)
    case AcrossRows => Pos(x + j, y)
    case Diagonal => Pos(x + j, y + j)
    case AntiDiagonal => Pos(x - j, y + j)
  }

  /** An upper bound on the steps left before a scan from (x, y) leaves the board. */
  function Reach(x: int, y: int, d: Dir): int
  {
    if d == AcrossRows then Columns - x else Rows - y
  }

  /** The cells a scan from (x, y) in direction d visits, in order, up to the edge of the board. */
  function Ray(b: Grid, x: int, y: int, d: Dir): (s: seq<int>)
    requires Shaped(b)
    ensures |s| <= (if InBounds(x, y) then Reach(x, y, d) else 0)
    ensures |s| <= Columns
    decreases if InBounds(x, y) then Reach(x, y, d) else 0
  {
    if InBounds(x, y) then
      var n := Along(x, y, d, 1);
      [b[x][y]] + Ray(b, n.col, n.row, d)
    else []
  }

  /** `k` entries of `s` from index `lo` on all equal `p`. */
  predicate Uniform(s: seq<int>, p: int, lo: int, k: int)
  {
    0 <= lo && 0 <= k && lo + k <= |s| && forall j :: lo <= j < lo + k ==> s[j] == p
  }

  /** A run of `k` p's lies entirely before index `n`. */
  ghost predicate RunWithin(s: seq<int>, p: int, k: int, n: int)
  {
    exists lo :: lo + k <= n && Uniform(s, p, lo, k)
  }

  /** `s` holds a run of `k` consecutive p's. */
  ghost predicate HasRun(s: seq<int>, p: int, k: int)
  {
    RunWithin(s, p, k, |s|)
  }

  function Max(a: int, b: int): int
  {
    if a < b then b else a
  }

  /**
   The loop of countConsecutive from index `i` on: `count` is the run of p's
   that ends just before `i`, and `best` the longest run seen so far.
   */
  function Scan(s: seq<int>, p: int, i: int, count: int, best: int): (r: int)
    requires 0 <= count <= i <= |s| && count <= best <= |s|
    ensures best <= r <= |s|
    decreases |s| - i
  {
    if i == |s| then Max(best, count)
    else if s[i] == p then Scan(s, p, i + 1, count + 1, Max(best, count + 1))
    else Scan(s, p, i + 1, 0, best)
  }

  /**
   The loop invariant of countConsecutive: while `count` is the run ending
   just before `i` and `best` the longest run before `i`, the scan returns
   the longest run of the whole sequence.
   */
  lemma {:induction false} ScanIsLongestRun(s: seq<int>, p: int, i: int, count: int, best: int)
    requires 0 <= count <= best && count <= i <= |s| && best <= |s|
    requires Uniform(s, p, i - count, count) && (count < i ==> s[i - count - 1] != p)
    requires RunWithin(s, p, best, i) && !RunWithin(s, p, best + 1, i)
    ensures var r := Scan(s, p, i, count, best);
      HasRun(s, p, r) && !HasRun(s, p, r + 1)
    decreases |s| - i
  {
    if i < |s| {
      if s[i] == p {
        ScanStepMatch(s, p, i, count, best);
        ScanIsLongestRun(s, p, i + 1, count + 1, Max(best, count + 1));
      } else {
        ScanStepMiss(s, p, i, count, best);
        ScanIsLongestRun(s, p, i + 1, 0, best);
      }
    }
  }

  /** A run of k p's contains a run of any shorter length k' at the same start. */
  lemma UniformShrinks(s: seq<int>, p: int, lo: int, k: int, k': int)
    requires 0 <= k' <= k
    ensures Uniform(s, p, lo, k) ==> Uniform(s, p, lo, k')
  {
  }

  lemma ScanStepMatch(s: seq<int>, p: int, i: int, count: int, best: int)
    requires 0 <= count <= best && count <= i < |s| && s[i] == p
    requires Uniform(s, p, i - count, count) && (count < i ==> s[i - count - 1] != p)
    requires RunWithin(s, p, best, i) && !RunWithin(s, p, best + 1, i)
    ensures Uniform(s, p, i - count, count + 1)
    ensures RunWithin(s, p, Max(best, count + 1), i + 1)
    ensures !RunWithin(s, p, Max(best, count + 1) + 1, i + 1)
  {
    var best' := Max(best, count + 1);
    if best < count + 1 {
      assert i - count + best' <= i + 1 && Uniform(s, p, i - count, best');
    } else {
      var lo :| lo + best <= i && Uniform(s, p, lo, best);
      assert lo + best' <= i + 1;
    }
    var k := best' + 1;
    forall lo | lo + k <= i + 1
      ensures !Uniform(s, p, lo, k)
    {
      if lo + k <= i {
        UniformShrinks(s, p, lo, k, best + 1);
        assert !(lo + best + 1 <= i && Uniform(s, p, lo, best + 1));
      } else if 0 <= lo {
        assert lo <= i - count - 1 < lo + k;
        assert s[i - count - 1] != p;
      }
    }
  }

  lemma ScanStepMiss(s: seq<int>, p: int, i: int, count: int, best: int)
    requires 0 <= count <= best && count <= i < |s| && s[i] != p
    requires RunWithin(s, p, best, i) && !RunWithin(s, p, best + 1, i)
    ensures Uniform(s, p, i + 1, 0)
    ensures RunWithin(s, p, best, i + 1)
    ensures !RunWithin(s, p, best + 1, i + 1)
  {
    var lo :| lo + best <= i && Uniform(s, p, lo, best);
    assert lo + best <= i + 1;
    var k := best + 1;
    forall lo | lo + k <= i + 1
      ensures !Uniform(s, p, lo, k)
    {
      if lo + k <= i {
        assert !(lo + k <= i && Uniform(s, p, lo, k));
      } else if 0 <= lo {
        assert lo <= i < lo + k;
      }
    }
  }

  /** The longest run of `p` on the scan from (x, y) in direction d. */
  function CountConsecutive(b: Grid, x: int, y: int, d: Dir, p: int): (r: int)
    requires Shaped(b)
    ensures 0 <= r <= |Ray(b, x, y, d)|
  {
    Scan(Ray(b, x, y, d), p, 0, 0, 0)
  }

  /** A run of the counted length exists on the ray, and none longer does. */
  lemma CountConsecutiveIsLongestRun(b: Grid, x: int, y: int, d: Dir, p: int)
    requires Shaped(b)
    ensures var s, r := Ray(b, x, y, d), CountConsecutive(b, x, y, d, p);
      HasRun(s, p, r) && !HasRun(s, p, r + 1)
  {
    var s := Ray(b, x, y, d);
    assert 0 + 0 <= 0 && Uniform(s, p, 0, 0);
    ScanIsLongestRun(s, p, 0, 0, 0);
  }

  const ScanCount: int := 39

  /**
   Scan `i` of the win check, in its order: the 7 columns from their top, the
   6 rows from their left end, then for each column the two diagonals leaving
   its top cell, then for each row the diagonal leaving its left end and the
   anti-diagonal leaving its right end.
   */
  function ScanAt(i: int): Start
    requires 0 <= i < ScanCount
  {
    if i < 7 then Start(i, 0, DownColumn)
    else if i < 13 then Start(0, i - 7, AcrossRows)
    else if i < 27 then Start((i - 13) / 2, 0, if (i - 13) % 2 == 0 then Diagonal else AntiDiagonal)
    else if (i - 27) % 2 == 0 then Start(0, (i - 27) / 2, Diagonal)
    else Start(Columns - 1, (i - 27) / 2, AntiDiagonal)
  }

  function ScanValue(b: Grid, p: int, i: int): int
    requires Shaped(b) && 0 <= i < ScanCount
  {
    var s := ScanAt(i);
    CountConsecutive(b, s.x, s.y, s.d, p)
  }

  /** The running maximum of the scans from index `i` on, starting from `acc`. */
  function ScanAll(b: Grid, p: int, i: int, acc: int): (r: int)
    requires Shaped(b) && 0 <= i <= ScanCount && 0 <= acc <= Columns
    ensures acc <= r <= Columns
    decreases ScanCount - i
  {
    if i == ScanCount then acc
    else ScanAll(b, p, i + 1, Max(acc, ScanValue(b, p, i)))
  }

  /** The running maximum bounds every remaining scan and is the start value or one of them. */
  lemma {:induction false} ScanAllIsMax(b: Grid, p: int, i: int, acc: int)
    requires Shaped(b) && 0 <= i <= ScanCount && 0 <= acc <= Columns
    ensures var r := ScanAll(b, p, i, acc);
      (forall j :: i <= j < ScanCount ==> ScanValue(b, p, j) <= r)
      && (r == acc || exists j :: i <= j < ScanCount && r == ScanValue(b, p, j))
    decreases ScanCount - i
  {
    if i < ScanCount {
      var v := ScanValue(b, p, i);
      var acc' := Max(acc, v);
      ScanAllIsMax(b, p, i + 1, acc');
      var r := ScanAll(b, p, i, acc);
      assert r == ScanAll(b, p, i + 1, acc');
      forall j | i <= j < ScanCount
        ensures ScanValue(b, p, j) <= r
      {
        if j == i {
          assert v <= acc' <= r;
        }
      }
      if r != acc {
        if r == acc' {
          assert r == v;
        } else {
          var j :| i + 1 <= j < ScanCount && r == ScanValue(b, p, j);
          assert i <= j < ScanCount;
        }
      }
    }
  }

  predicate OnBoard(c: Pos)
  {
    InBounds(c.col, c.row)
  }

  /** The cell at `c` is on the board and holds `p`. */
  predicate Holds(b: Grid, c: Pos, p: int)
    requires Shaped(b)
  {
    OnBoard(c) && b[c.col][c.row] == p
  }

  /** The `k` cells from (x, y) in direction d are on the board and all hold `p`. */
  predicate LineOf(b: Grid, p: int, x: int, y: int, d: Dir, k: int)
    requires Shaped(b)
  {
    forall j :: 0 <= j < k ==> Holds(b, Along(x, y, d, j), p)
  }

  /** `k` of p's discs lie consecutively in some column, row or diagonal. */
  ghost predicate HasLine(b: Grid, p: int, k: int)
    requires Shaped(b)
  {
    exists x, y, d :: LineOf(b, p, x, y, d, k)
  }

  /** The win measure: the largest count over the 39 scans, as `checkWin` accumulates it. */
  function CheckWin(b: Grid, p: Player): (r: int)
    requires Shaped(b)
    ensures 0 <= r <= Columns
  {
    ScanAll(b, p, 0, 0)
  }

  /**
   The win measure is the length of the longest line of p's discs anywhere on
   the board: a line of that length exists and no longer one does.
   */
  lemma CheckWinIsLongestLine(b: Grid, p: Player)
    requires Shaped(b)
    ensures HasLine(b, p, CheckWin(b, p)) && !HasLine(b, p, CheckWin(b, p) + 1)
  {
    MeasureIsAttained(b, p, CheckWin(b, p));
    NoLineBeyondMeasure(b, p, CheckWin(b, p) + 1);
  }

  /** No line is longer than the measure. */
  lemma NoLineBeyondMeasure(b: Grid, p: Player, k: int)
    requires Shaped(b) && k == CheckWin(b, p) + 1
    ensures !HasLine(b, p, k)
  {
    forall x, y, d
      ensures !LineOf(b, p, x, y, d, k)
    {
      LineWithinScans(b, p, x, y, d, k);
    }
  }

  /** The measure is the length of a line on the board. */
  lemma MeasureIsAttained(b: Grid, p: Player, r: int)
    requires Shaped(b) && r == CheckWin(b, p)
    ensures HasLine(b, p, r)
  {
    ScanAllIsMax(b, p, 0, 0);
    if r == 0 {
      assert LineOf(b, p, 0, 0, DownColumn, 0);
    } else {
      var j :| 0 <= j < ScanCount && r == ScanValue(b, p, j);
      var s := ScanAt(j);
      assert r == CountConsecutive(b, s.x, s.y, s.d, p);
      CountConsecutiveIsLongestRun(b, s.x, s.y, s.d, p);
      RayRunIsLine(b, s.x, s.y, s.d, p, r);
    }
  }

  /** A line of k discs lies on one of the scans, so it is no longer than the measure. */
  lemma LineWithinScans(b: Grid, p: Player, x: int, y: int, d: Dir, k: int)
    requires Shaped(b) && k >= 1
    ensures LineOf(b, p, x, y, d, k) ==> k <= CheckWin(b, p)
  {
    if LineOf(b, p, x, y, d, k) {
      var i := LineLiesOnScan(b, p, x, y, d, k);
      var s := ScanAt(i);
      RunWithinCount(b, s.x, s.y, s.d, p, k);
      ScanWithinMeasure(b, p, i);
    }
  }

  /** A run on a ray is no longer than the count for that ray. */
  lemma RunWithinCount(b: Grid, x: int, y: int, d: Dir, p: int, k: int)
    requires Shaped(b)
    ensures HasRun(Ray(b, x, y, d), p, k) ==> k <= CountConsecutive(b, x, y, d, p)
  {
    var v := CountConsecutive(b, x, y, d, p);
    CountConsecutiveIsLongestRun(b, x, y, d, p);
    RunMonotone(Ray(b, x, y, d), p, k, v + 1);
  }

  /** Every scan's count is at most the measure. */
  lemma ScanWithinMeasure(b: Grid, p: Player, i: int)
    requires Shaped(b) && 0 <= i < ScanCount
    ensures ScanValue(b, p, i) <= CheckWin(b, p)
  {
    ScanAllIsMax(b, p, 0, 0);
  }

  lemma AlongShift(x: int, y: int, d: Dir, i: int, j: int)
    ensures var a := Along(x, y, d, i); Along(a.col, a.row, d, j) == Along(x, y, d, i + j)
  {
  }

  /** Entry `j` of a ray is the board cell `j` steps from its start. */
  lemma {:induction false} RayCell(b: Grid, x: int, y: int, d: Dir, j: int)
    requires Shaped(b) && 0 <= j < |Ray(b, x, y, d)|
    ensures Holds(b, Along(x, y, d, j), Ray(b, x, y, d)[j])
    decreases j
  {
    var n := Along(x, y, d, 1);
    if j > 0 {
      RayCell(b, n.col, n.row, d, j - 1);
      AlongShift(x, y, d, 1, j - 1);
    }
  }

  /** A ray extends at least as far as its cells stay on the board. */
  lemma {:induction false} RayReaches(b: Grid, x: int, y: int, d: Dir, n: int)
    requires Shaped(b) && 0 <= n
    requires forall j :: 0 <= j < n ==> OnBoard(Along(x, y, d, j))
    ensures |Ray(b, x, y, d)| >= n
    decreases n
  {
    if n > 0 {
      assert Along(x, y, d, 0) == Pos(x, y);
      var c := Along(x, y, d, 1);
      forall j | 0 <= j < n - 1
        ensures OnBoard(Along(c.col, c.row, d, j))
      {
        AlongShift(x, y, d, 1, j);
        assert Along(x, y, d, j + 1) == Along(c.col, c.row, d, j);
      }
      RayReaches(b, c.col, c.row, d, n - 1);
    }
  }

  lemma RunMonotone(s: seq<int>, p: int, k: int, k': int)
    ensures HasRun(s, p, k) && 0 <= k' <= k ==> HasRun(s, p, k')
  {
    if HasRun(s, p, k) && 0 <= k' <= k {
      var lo :| lo + k <= |s| && Uniform(s, p, lo, k);
      assert lo + k' <= |s| && Uniform(s, p, lo, k');
    }
  }

  /** A run found on a scan is a line on the board. */
  lemma RayRunIsLine(b: Grid, x: int, y: int, d: Dir, p: int, k: int)
    requires Shaped(b) && HasRun(Ray(b, x, y, d), p, k)
    ensures HasLine(b, p, k)
  {
    var s := Ray(b, x, y, d);
    var lo :| lo + k <= |s| && Uniform(s, p, lo, k);
    var a := Along(x, y, d, lo);
    forall j | 0 <= j < k
      ensures Holds(b, Along(a.col, a.row, d, j), p)
    {
      RayCell(b, x, y, d, lo + j);
      AlongShift(x, y, d, lo, j);
    }
    assert LineOf(b, p, a.col, a.row, d, k);
  }

  /** Every line of the board lies on one of the 39 scans of the win check. */
  lemma LineLiesOnScan(b: Grid, p: int, x: int, y: int, d: Dir, k: int) returns (i: int)
    requires Shaped(b) && k >= 1 && LineOf(b, p, x, y, d, k)
    ensures 0 <= i < ScanCount && HasRun(Ray(b, ScanAt(i).x, ScanAt(i).y, ScanAt(i).d), p, k)
  {
    assert Holds(b, Along(x, y, d, 0), p);
    assert Along(x, y, d, 0) == Pos(x, y);
    var lo;
    i, lo := ScanThrough(x, y, d);
    var st := ScanAt(i);
    LineOnRay(b, p, st.x, st.y, d, lo, k);
  }

  /** For a cell and a direction: the scan in that direction whose ray passes the cell, and the step at which it does. */
  lemma ScanThrough(x: int, y: int, d: Dir) returns (i: int, lo: int)
    requires InBounds(x, y)
    ensures 0 <= i < ScanCount && 0 <= lo
    ensures InBounds(ScanAt(i).x, ScanAt(i).y)
    ensures ScanAt(i).d == d && Along(ScanAt(i).x, ScanAt(i).y, d, lo) == Pos(x, y)
  {
    match d {
      case DownColumn =>
        i, lo := x, y;
      case AcrossRows =>
        i, lo := 7 + y, x;
      case Diagonal =>
        if x >= y {
          i, lo := 13 + 2 * (x - y), y;
        } else {
          i, lo := 27 + 2 * (y - x), x;
        }
      case AntiDiagonal =>
        if x + y <= 6 {
          i, lo := 14 + 2 * (x + y), y;
        } else {
          i, lo := 28 + 2 * (x + y - 6), 6 - x;
        }
    }
  }

  /** The board is convex: the cells between two on-board cells of a ray are on the board. */
  lemma OnBoardBefore(x: int, y: int, d: Dir, j: int, n: int)
    requires InBounds(x, y) && OnBoard(Along(x, y, d, n)) && 0 <= j <= n
    ensures OnBoard(Along(x, y, d, j))
  {
  }

  /** A line that starts `lo` steps along a ray and runs in the ray's direction is a run on the ray. */
  lemma LineOnRay(b: Grid, p: int, sx: int, sy: int, d: Dir, lo: int, k: int)
    requires Shaped(b) && InBounds(sx, sy) && 0 <= lo && k >= 1
    requires var c := Along(sx, sy, d, lo); LineOf(b, p, c.col, c.row, d, k)
    ensures HasRun(Ray(b, sx, sy, d), p, k)
  {
    var c := Along(sx, sy, d, lo);
    assert Holds(b, Along(c.col, c.row, d, 0), p);
    assert Along(c.col, c.row, d, 0) == c;
    forall j | 0 <= j < lo + k
      ensures OnBoard(Along(sx, sy, d, j))
    {
      if j >= lo {
        AlongShift(sx, sy, d, lo, j - lo);
        assert Holds(b, Along(c.col, c.row, d, j - lo), p);
      } else {
        OnBoardBefore(sx, sy, d, j, lo);
      }
    }
    RayReaches(b, sx, sy, d, lo + k);
    var s := Ray(b, sx, sy, d);
    forall j | lo <= j < lo + k
      ensures s[j] == p
    {
      RayCell(b, sx, sy, d, j);
      AlongShift(sx, sy, d, lo, j - lo);
      assert Holds(b, Along(c.col, c.row, d, j - lo), p);
    }
    assert Uniform(s, p, lo, k);
  }

  /** A line of k discs contains a line of any shorter length k'. */
  lemma LineMonotone(b: Grid, p: int, k: int, k': int)
    requires Shaped(b)
    ensures HasLine(b, p, k) && 0 <= k' <= k ==> HasLine(b, p, k')
  {
    if HasLine(b, p, k) && 0 <= k' <= k {
      var x, y, d :| LineOf(b, p, x, y, d, k);
      assert LineOf(b, p, x, y, d, k');
    }
  }

  /** The game's win test, a measure of at least 4, holds exactly when four of p's discs are in line. */
  lemma WinIffFourInLine(b: Grid, p: Player)
    requires Shaped(b)
    ensures CheckWin(b, p) >= 4 <==> HasLine(b, p, 4)
  {
    var r := CheckWin(b, p);
    CheckWinIsLongestLine(b, p);
    LineMonotone(b, p, r, 4);
    LineMonotone(b, p, 4, r + 1);
  }

  /** No player has a line, or a single disc, on the empty board. */
  lemma EmptyBoardMeasuresZero(p: Player)
    ensures CheckWin(EmptyBoard(), p) == 0
  {
    var b := EmptyBoard();
    forall x, y, d
      ensures !LineOf(b, p, x, y, d, 1)
    {
      var c := Along(x, y, d, 0);
      if OnBoard(c) {
        assert b[c.col][c.row] == Empty;
      }
    }
    CheckWinIsLongestLine(b, p);
    LineMonotone(b, p, CheckWin(b, p), 1);
  }

  /**
   Dropping a disc never breaks a line (lines hold discs, and only an empty
   cell changes), and it creates none for the other player.
   */
  lemma MoveKeepsLines(b: Grid, col: int, mover: Player, p: Player, k: int)
    requires Shaped(b)
    ensures var b' := MakeMove(b, col, mover).board;
      (HasLine(b, p, k) ==> HasLine(b', p, k))
      && (p != mover && HasLine(b', p, k) ==> HasLine(b, p, k))
  {
    var m := MakeMove(b, col, mover);
    var b' := m.board;
    if m.success {
      if HasLine(b, p, k) {
        var x, y, d :| LineOf(b, p, x, y, d, k);
        forall j | 0 <= j < k
          ensures Holds(b', Along(x, y, d, j), p)
        {
          assert Holds(b, Along(x, y, d, j), p);
        }
        assert LineOf(b', p, x, y, d, k);
      }
      if p != mover && HasLine(b', p, k) {
        var x, y, d :| LineOf(b', p, x, y, d, k);
        forall j | 0 <= j < k
          ensures Holds(b, Along(x, y, d, j), p)
        {
          assert Holds(b', Along(x, y, d, j), p);
        }
        assert LineOf(b, p, x, y, d, k);
      }
    }
  }

  /** When every line of `b` is also a line of `b'`, the measure of `b'` is at least that of `b`. */
  lemma MeasureFollowsLines(b: Grid, b': Grid, p: Player)
    requires Shaped(b) && Shaped(b')
    requires forall k :: HasLine(b, p, k) ==> HasLine(b', p, k)
    ensures CheckWin(b', p) >= CheckWin(b, p)
  {
    CheckWinIsLongestLine(b, p);
    CheckWinIsLongestLine(b', p);
    LineMonotone(b', p, CheckWin(b, p), CheckWin(b', p) + 1);
  }

  /** A drop never lowers a player's measure and leaves the other player's measure as it was. */
  lemma MoveKeepsMeasure(b: Grid, col: int, mover: Player, p: Player)
    requires Shaped(b)
    ensures var b' := MakeMove(b, col, mover).board;
      CheckWin(b', p) >= CheckWin(b, p)
      && (p != mover ==> CheckWin(b', p) == CheckWin(b, p))
  {
    var b' := MakeMove(b, col, mover).board;
    forall k
      ensures HasLine(b, p, k) ==> HasLine(b', p, k)
      ensures p != mover ==> HasLine(b', p, k) ==> HasLine(b, p, k)
    {
      MoveKeepsLines(b, col, mover, p, k);
    }
    MeasureFollowsLines(b, b', p);
    if p != mover {
      MeasureFollowsLines(b', b, p);
    }
  }
}
