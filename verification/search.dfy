/**
 The computer player's search.

 `Minimax` is a full-width, fixed-depth recursion without pruning. At each
 node it first tests whether the side TO MOVE already has four in line, then
 expands every legal column with the other side to move and one ply less.
 The column it reports is chosen among the children with the extreme utility
 (maximum at the root player's nodes, minimum at the opponent's), and a
 random draw breaks ties. The utility it reports is that extreme when it is
 exactly +1 or -1, and otherwise the sum of the children's utilities divided
 by 7, whatever the number of legal columns.
 */
module Search {
  import opened Board
  import opened Lines

  /** The search depth of the computer's move. */
  const SearchDepth: nat := 5

  /** A measure of at least this many discs in line is a win. */
  const WinLength: int := 4

  /** A legal column and the utility of the position reached by playing it. */
  datatype Child = Child(column: int, utility: real)

  /**
   What one call of the search reports: its utility for the root player, and
   the columns among which the random draw picks the one it returns.
   */
  datatype Verdict = Verdict(utility: real, ties: seq<int>)

  /** The other side: `minimax` negates the player value (`-player`). */
  function Opponent(p: Player): (q: Player)
    ensures q as int == -(p as int)
  {
    if p == Human then Ai else Human
  }

  function Minimax(b: Grid, player: Player, root: Player, depth: nat): (v: Verdict)
    requires Shaped(b)
    ensures -1.0 <= v.utility <= 1.0
    ensures |v.ties| >= 1
    decreases depth, 2, 0
  {
    if CheckWin(b, player) >= WinLength then
      Verdict(if player == root then 1.0 else -1.0, [0])
    else if depth == 0 then
      Verdict(0.0, [0])
    else
      var us := Utilities(b, player, root, depth, 0);
      var ms := Collect(b, us, 0);
      assert Bounded(ms);
      Decide(ms, player == root)
  }

  /**
   The search's utility for each column from `col` on, one ply less deep:
   the child's utility when the drop into the column succeeds (exactly when
   it is legal), and 0 for a column that is not expanded.
   */
  function Utilities(b: Grid, player: Player, root: Player, depth: nat, col: int): (us: seq<real>)
    requires Shaped(b) && depth >= 1 && 0 <= col <= Columns
    ensures |us| == Columns - col
    ensures forall i :: 0 <= i < |us| ==> -1.0 <= us[i] <= 1.0
    decreases depth, 1, Columns - col
  {
    if col == Columns then []
    else
      var u := if Legal(b, col) then ChildUtility(b, player, root, depth, col) else 0.0;
      [u] + Utilities(b, player, root, depth, col + 1)
  }

  /** The utility the search gives the position reached by playing the legal column `col`. */
  function ChildUtility(b: Grid, player: Player, root: Player, depth: nat, col: int): (u: real)
    requires Shaped(b) && depth >= 1 && Legal(b, col)
    ensures -1.0 <= u <= 1.0
    decreases depth, 0, 0
  {
    Minimax(MakeMove(b, col, player).board, Opponent(player), root, depth - 1).utility
  }

  /**
   The children of a node for the legal columns from `col` on, in increasing
   column order, each carrying its entry of the utility table `us`.
   */
  function Collect(b: Grid, us: seq<real>, col: int): (ms: seq<Child>)
    requires Shaped(b) && |us| == Columns && 0 <= col <= Columns
    ensures |ms| <= Columns - col
    ensures forall i :: 0 <= i < |ms| ==>
      col <= ms[i].column < Columns && Legal(b, ms[i].column) && ms[i].utility == us[ms[i].column]
    ensures forall i, j :: 0 <= i < j < |ms| ==> ms[i].column < ms[j].column
    decreases Columns - col
  {
    if col == Columns then []
    else if Legal(b, col) then [Child(col, us[col])] + Collect(b, us, col + 1)
    else Collect(b, us, col + 1)
  }

  /** Every child utility lies in [-1, 1]. */
  predicate Bounded(ms: seq<Child>)
  {
    forall i :: 0 <= i < |ms| ==> -1.0 <= ms[i].utility <= 1.0
  }

  /**
   The end of an expanded node, once its children are known: no children is
   worth 0; otherwise the target is the extreme child utility, the ties are
   the columns reaching it, and the value is the target when it is exactly
   +1 or -1 and the children's sum divided by 7 otherwise.
   */
  function Decide(ms: seq<Child>, maximize: bool): (v: Verdict)
    requires Bounded(ms) && |ms| <= Columns
    ensures -1.0 <= v.utility <= 1.0
    ensures |v.ties| >= 1
  {
    if |ms| == 0 then
      Verdict(0.0, [0])
    else
      var target := Extreme(ms, maximize, 0, ms[0].utility);
      var best := Tied(ms, target, 0);
      assert |best| >= 1 by {
        var j := ExtremeIndex(ms, maximize);
        assert ms[j].column in best;
      }
      assert -7.0 <= Total(ms) <= 7.0 by {
        TotalBounded(ms);
      }
      Verdict(NodeValue(target, Total(ms)), best)
  }

  /**
   The value of an expanded node from its best child utility `t` and the sum
   of its children's utilities: a forced outcome (exactly +1 or -1) is kept,
   anything else is replaced by the sum divided by 7, the number of columns,
   whatever the number of legal ones.
   */
  function NodeValue(t: real, sum: real): real
  {
    if t == 1.0 || t == -1.0 then t else sum / 7.0
  }

  /** `u` is at least as good as `u'` for the side choosing: larger when maximizing, smaller otherwise. */
  predicate AtLeastAsGood(maximize: bool, u: real, u': real)
  {
    if maximize then u' <= u else u <= u'
  }

  /** The extreme utility of the children from index `i` on, scanning from `acc` as `minimax`'s `forEach` over the moves does. */
  function Extreme(ms: seq<Child>, maximize: bool, i: int, acc: real): (r: real)
    requires 0 <= i <= |ms|
    ensures AtLeastAsGood(maximize, r, acc)
    ensures forall j :: i <= j < |ms| ==> AtLeastAsGood(maximize, r, ms[j].utility)
    ensures r == acc || exists j :: i <= j < |ms| && r == ms[j].utility
    decreases |ms| - i
  {
    if i == |ms| then acc
    else
      var u := ms[i].utility;
      Extreme(ms, maximize, i + 1, if AtLeastAsGood(maximize, acc, u) then acc else u)
  }

  /** The child `i` is at least as good as every child. */
  predicate IsBest(ms: seq<Child>, maximize: bool, i: int)
  {
    0 <= i < |ms| && forall j :: 0 <= j < |ms| ==> AtLeastAsGood(maximize, ms[i].utility, ms[j].utility)
  }

  /** The target of a non-empty children list is the utility of a best child. */
  lemma ExtremeIndex(ms: seq<Child>, maximize: bool) returns (j: int)
    requires |ms| > 0
    ensures IsBest(ms, maximize, j) && ms[j].utility == Extreme(ms, maximize, 0, ms[0].utility)
  {
    var target := Extreme(ms, maximize, 0, ms[0].utility);
    if target == ms[0].utility {
      j := 0;
    } else {
      j :| 0 <= j < |ms| && target == ms[j].utility;
    }
  }

  /** The columns of the children from index `i` on whose utility is exactly `target`. */
  function Tied(ms: seq<Child>, target: real, i: int): (cs: seq<int>)
    requires 0 <= i <= |ms|
    ensures forall c :: c in cs <==> exists j :: i <= j < |ms| && ms[j].column == c && ms[j].utility == target
    decreases |ms| - i
  {
    if i == |ms| then []
    else if ms[i].utility == target then [ms[i].column] + Tied(ms, target, i + 1)
    else Tied(ms, target, i + 1)
  }

  /** The sum of the children's utilities. */
  function Total(ms: seq<Child>): real
  {
    if |ms| == 0 then 0.0 else ms[0].utility + Total(ms[1..])
  }

  /** With every utility in [-1, 1], the sum of n of them lies in [-n, n]. */
  lemma {:induction false} TotalBounded(ms: seq<Child>)
    requires Bounded(ms)
    ensures -(|ms| as real) <= Total(ms) <= |ms| as real
  {
    if |ms| > 0 {
      assert Bounded(ms[1..]) by {
        forall i | 0 <= i < |ms| - 1
          ensures -1.0 <= ms[1..][i].utility <= 1.0
        {
          assert ms[1..][i] == ms[i + 1];
        }
      }
      TotalBounded(ms[1..]);
    }
  }

  /**
   Selection by `Decide`: the columns it may return are exactly the columns
   of the best children.
   */
  lemma DecideTies(ms: seq<Child>, maximize: bool, c: int)
    requires Bounded(ms) && 0 < |ms| <= Columns
    ensures c in Decide(ms, maximize).ties <==> exists i :: IsBest(ms, maximize, i) && ms[i].column == c
  {
    var target := Extreme(ms, maximize, 0, ms[0].utility);
    var k := ExtremeIndex(ms, maximize);
    assert Decide(ms, maximize).ties == Tied(ms, target, 0);
    if c in Decide(ms, maximize).ties {
      var j :| 0 <= j < |ms| && ms[j].column == c && ms[j].utility == target;
      assert IsBest(ms, maximize, j);
    }
    if i :| IsBest(ms, maximize, i) && ms[i].column == c {
      assert AtLeastAsGood(maximize, ms[k].utility, ms[i].utility);
      assert ms[i].utility == target;
    }
  }

  /** The value `Decide` reports, in terms of any best child. */
  lemma DecideValue(ms: seq<Child>, maximize: bool, i: int)
    requires Bounded(ms) && |ms| <= Columns && IsBest(ms, maximize, i)
    ensures Decide(ms, maximize).utility == NodeValue(ms[i].utility, Total(ms))
  {
    var k := ExtremeIndex(ms, maximize);
    assert AtLeastAsGood(maximize, ms[k].utility, ms[i].utility);
  }

  /** A column `Decide` may return is the column of a best child, and the value follows that child's utility. */
  lemma DecideChoice(ms: seq<Child>, maximize: bool, c: int) returns (i: int)
    requires Bounded(ms) && 0 < |ms| <= Columns && c in Decide(ms, maximize).ties
    ensures IsBest(ms, maximize, i) && ms[i].column == c
    ensures Decide(ms, maximize).utility == NodeValue(ms[i].utility, Total(ms))
  {
    DecideTies(ms, maximize, c);
    i :| IsBest(ms, maximize, i) && ms[i].column == c;
    DecideValue(ms, maximize, i);
  }

  /** The sum of the child utilities of the legal columns from `col` on, column by column. */
  function ColumnSum(b: Grid, player: Player, root: Player, depth: nat, col: int): real
    requires Shaped(b) && depth >= 1 && 0 <= col <= Columns
    decreases Columns - col
  {
    if col == Columns then 0.0
    else
      var u := if Legal(b, col) then ChildUtility(b, player, root, depth, col) else 0.0;
      u + ColumnSum(b, player, root, depth, col + 1)
  }

  /** The sum of the table entries of the legal columns from `col` on. */
  function TableSum(b: Grid, us: seq<real>, col: int): real
    requires Shaped(b) && |us| == Columns && 0 <= col <= Columns
    decreases Columns - col
  {
    if col == Columns then 0.0
    else (if Legal(b, col) then us[col] else 0.0) + TableSum(b, us, col + 1)
  }

  /** Entry `c` of the utility table is the child's utility when `c` is legal and 0 otherwise. */
  lemma {:induction false} UtilitiesAt(b: Grid, player: Player, root: Player, depth: nat, col: int, c: int)
    requires Shaped(b) && depth >= 1 && 0 <= col <= c < Columns
    ensures Utilities(b, player, root, depth, col)[c - col]
      == if Legal(b, c) then ChildUtility(b, player, root, depth, c) else 0.0
    decreases Columns - col
  {
    if c > col {
      UtilitiesAt(b, player, root, depth, col + 1, c);
    }
  }

  /** Every legal column from `col` on has a child in the list. */
  lemma {:induction false} CollectComplete(b: Grid, us: seq<real>, col: int, c: int)
    requires Shaped(b) && |us| == Columns && 0 <= col <= c < Columns && Legal(b, c)
    ensures exists i :: 0 <= i < |Collect(b, us, col)| && Collect(b, us, col)[i].column == c
    decreases Columns - col
  {
    var ms := Collect(b, us, col);
    if c == col {
      assert ms[0].column == c;
    } else {
      CollectComplete(b, us, col + 1, c);
      var rest := Collect(b, us, col + 1);
      var i :| 0 <= i < |rest| && rest[i].column == c;
      if Legal(b, col) {
        assert ms[i + 1] == rest[i];
      } else {
        assert ms[i] == rest[i];
      }
    }
  }

  /** The sum over the children list is the sum of the legal columns' table entries. */
  lemma {:induction false} CollectTotal(b: Grid, us: seq<real>, col: int)
    requires Shaped(b) && |us| == Columns && 0 <= col <= Columns
    ensures Total(Collect(b, us, col)) == TableSum(b, us, col)
    decreases Columns - col
  {
    if col < Columns {
      CollectTotal(b, us, col + 1);
      var ms := Collect(b, us, col);
      if Legal(b, col) {
        assert ms[1..] == Collect(b, us, col + 1);
      }
    }
  }

  /** Summing the utility table over the legal columns gives the column-by-column sum of child utilities. */
  lemma {:induction false} TableSumIsColumnSum(b: Grid, player: Player, root: Player, depth: nat, col: int)
    requires Shaped(b) && depth >= 1 && 0 <= col <= Columns
    ensures TableSum(b, Utilities(b, player, root, depth, 0), col) == ColumnSum(b, player, root, depth, col)
    decreases Columns - col
  {
    if col < Columns {
      UtilitiesAt(b, player, root, depth, 0, col);
      TableSumIsColumnSum(b, player, root, depth, col + 1);
    }
  }

  /**
   The leaves of the search: a win for the side TO MOVE is worth +1 when that
   side is the root player and -1 otherwise; with no such win, an exhausted
   depth or a full board is worth 0. The reported column is then 0.
   */
  lemma MinimaxLeaves(b: Grid, player: Player, root: Player, depth: nat)
    requires Shaped(b)
    ensures CheckWin(b, player) >= WinLength ==>
      Minimax(b, player, root, depth) == Verdict(if player == root then 1.0 else -1.0, [0])
    ensures CheckWin(b, player) < WinLength && (depth == 0 || !HasLegalMove(b)) ==>
      Minimax(b, player, root, depth) == Verdict(0.0, [0])
  {
    if CheckWin(b, player) < WinLength && depth > 0 {
      var ms := Collect(b, Utilities(b, player, root, depth, 0), 0);
      assert |ms| > 0 ==> HasLegalMove(b) by {
        if |ms| > 0 {
          assert Legal(b, ms[0].column);
        }
      }
    }
  }

  /** A node that is neither won for the side to move nor at the horizon is decided over its children. */
  lemma MinimaxExpands(b: Grid, player: Player, root: Player, depth: nat)
    requires Shaped(b) && depth >= 1 && CheckWin(b, player) < WinLength
    ensures var ms := Collect(b, Utilities(b, player, root, depth, 0), 0);
      Bounded(ms) && Minimax(b, player, root, depth) == Decide(ms, player == root)
  {
  }

  /**
   The children list of a node with a legal move is non-empty, holds one child
   per legal column, each carrying that column's child utility, and sums to the
   column-by-column sum.
   */
  lemma ChildrenMeaning(b: Grid, player: Player, root: Player, depth: nat)
    requires Shaped(b) && depth >= 1 && HasLegalMove(b)
    ensures var ms := Collect(b, Utilities(b, player, root, depth, 0), 0);
      0 < |ms|
      && Total(ms) == ColumnSum(b, player, root, depth, 0)
      && (forall i :: 0 <= i < |ms| ==> ms[i].utility == ChildUtility(b, player, root, depth, ms[i].column))
      && (forall c :: 0 <= c < Columns && Legal(b, c) ==> exists i :: 0 <= i < |ms| && ms[i].column == c)
  {
    var us := Utilities(b, player, root, depth, 0);
    var ms := Collect(b, us, 0);
    forall i | 0 <= i < |ms|
      ensures ms[i].utility == ChildUtility(b, player, root, depth, ms[i].column)
    {
      UtilitiesAt(b, player, root, depth, 0, ms[i].column);
    }
    forall c | 0 <= c < Columns && Legal(b, c)
      ensures exists i :: 0 <= i < |ms| && ms[i].column == c
    {
      CollectComplete(b, us, 0, c);
    }
    var c0 :| 0 <= c0 < Columns && Legal(b, c0);
    var i0 :| 0 <= i0 < |ms| && ms[i0].column == c0;
    CollectTotal(b, us, 0);
    TableSumIsColumnSum(b, player, root, depth, 0);
  }

  /**
   At an expanded node the search's verdict is `Decide` over a non-empty list
   holding one child per legal column, each carrying that column's child utility.
   */
  lemma ExpandedNode(b: Grid, player: Player, root: Player, depth: nat) returns (ms: seq<Child>)
    requires Shaped(b) && depth >= 1 && CheckWin(b, player) < WinLength && HasLegalMove(b)
    ensures Bounded(ms) && 0 < |ms| <= Columns
    ensures Minimax(b, player, root, depth) == Decide(ms, player == root)
    ensures Total(ms) == ColumnSum(b, player, root, depth, 0)
    ensures forall i :: 0 <= i < |ms| ==>
      Legal(b, ms[i].column) && ms[i].utility == ChildUtility(b, player, root, depth, ms[i].column)
    ensures forall c :: 0 <= c < Columns && Legal(b, c) ==> exists i :: 0 <= i < |ms| && ms[i].column == c
  {
    ms := Collect(b, Utilities(b, player, root, depth, 0), 0);
    MinimaxExpands(b, player, root, depth);
    ChildrenMeaning(b, player, root, depth);
  }

  /**
   The selection rule at an expanded node: the columns the random draw may
   return are exactly the legal columns whose child utility is the best for
   the side to move (the maximum when it is the root player, the minimum
   otherwise).
   */
  lemma MinimaxSelects(b: Grid, player: Player, root: Player, depth: nat, c: int)
    requires Shaped(b) && depth >= 1 && CheckWin(b, player) < WinLength && HasLegalMove(b)
    ensures c in Minimax(b, player, root, depth).ties <==>
      Legal(b, c)
      && forall c' :: 0 <= c' < Columns && Legal(b, c') ==>
        AtLeastAsGood(player == root, ChildUtility(b, player, root, depth, c), ChildUtility(b, player, root, depth, c'))
  {
    var maximize := player == root;
    var ms := ExpandedNode(b, player, root, depth);
    DecideTies(ms, maximize, c);
    if c in Minimax(b, player, root, depth).ties {
      var i :| IsBest(ms, maximize, i) && ms[i].column == c;
      forall c' | 0 <= c' < Columns && Legal(b, c')
        ensures AtLeastAsGood(maximize, ChildUtility(b, player, root, depth, c), ChildUtility(b, player, root, depth, c'))
      {
        var j :| 0 <= j < |ms| && ms[j].column == c';
        assert AtLeastAsGood(maximize, ms[i].utility, ms[j].utility);
      }
    }
    if Legal(b, c) && forall c' :: 0 <= c' < Columns && Legal(b, c') ==>
        AtLeastAsGood(maximize, ChildUtility(b, player, root, depth, c), ChildUtility(b, player, root, depth, c'))
    {
      var i :| 0 <= i < |ms| && ms[i].column == c;
      forall j | 0 <= j < |ms|
        ensures AtLeastAsGood(maximize, ms[i].utility, ms[j].utility)
      {
        assert Legal(b, ms[j].column);
      }
      assert IsBest(ms, maximize, i);
    }
  }

  /**
   The value rule at an expanded node: a forced outcome (a best child worth
   exactly +1 or -1) is reported as is; any other node reports the sum of its
   children's utilities divided by 7, even when fewer than 7 columns are legal.
   */
  lemma MinimaxValue(b: Grid, player: Player, root: Player, depth: nat, c: int)
    requires Shaped(b) && depth >= 1 && CheckWin(b, player) < WinLength && HasLegalMove(b)
    requires c in Minimax(b, player, root, depth).ties
    ensures Legal(b, c)
    ensures Minimax(b, player, root, depth).utility
      == NodeValue(ChildUtility(b, player, root, depth, c), ColumnSum(b, player, root, depth, 0))
  {
    var ms := ExpandedNode(b, player, root, depth);
    var i := DecideChoice(ms, player == root, c);
  }

  /**
   A node whose side to move has no four in line, facing a board on which
   the root player already has four, is worth +1: every reply leads to a
   position where the root player is to move and has won.
   */
  lemma OpponentFacingWinIsLost(b: Grid, root: Player, depth: nat)
    requires Shaped(b) && depth >= 1 && HasLegalMove(b)
    requires CheckWin(b, Opponent(root)) < WinLength && CheckWin(b, root) >= WinLength
    ensures Minimax(b, Opponent(root), root, depth).utility == 1.0
  {
    var q := Opponent(root);
    forall c | 0 <= c < Columns && Legal(b, c)
      ensures ChildUtility(b, q, root, depth, c) == 1.0
    {
      var b' := MakeMove(b, c, q).board;
      MoveKeepsMeasure(b, c, q, root);
      MinimaxLeaves(b', root, root, depth - 1);
    }
    var v := Minimax(b, q, root, depth);
    var c0 := v.ties[0];
    MinimaxValue(b, q, root, depth, c0);
  }

  /**
   A child worth +1 to the root player, at a node where the root player is
   to move, makes the node worth +1, and every column the search may return
   there is such a child.
   */
  lemma WinningChildIsChosen(b: Grid, player: Player, depth: nat, c: int)
    requires Shaped(b) && depth >= 1 && CheckWin(b, player) < WinLength && Legal(b, c)
    requires ChildUtility(b, player, player, depth, c) == 1.0
    ensures Minimax(b, player, player, depth).utility == 1.0
    ensures forall c' :: c' in Minimax(b, player, player, depth).ties ==>
      Legal(b, c') && ChildUtility(b, player, player, depth, c') == 1.0
  {
    assert HasLegalMove(b);
    var ties := Minimax(b, player, player, depth).ties;
    forall c' | c' in ties
      ensures Legal(b, c') && ChildUtility(b, player, player, depth, c') == 1.0
    {
      MinimaxSelects(b, player, player, depth, c');
    }
    MinimaxValue(b, player, player, depth, ties[0]);
  }

  /**
   A column that completes four in line for the side to move, at least two
   plies above the horizon, is worth +1 to that side when it is the root
   player, and so every column the search may return is worth +1. The win is
   seen one ply late: at the child the side to move is the opponent, so the
   child is expanded, and each grandchild, with the root player to move, sees
   the four.
   */
  lemma ImmediateWinIsTaken(b: Grid, player: Player, depth: nat, c: int)
    requires Shaped(b) && depth >= 2 && CheckWin(b, player) < WinLength && Legal(b, c)
    requires var b' := MakeMove(b, c, player).board;
      CheckWin(b', player) >= WinLength && CheckWin(b', Opponent(player)) < WinLength && HasLegalMove(b')
    ensures Minimax(b, player, player, depth).utility == 1.0
    ensures forall c' :: c' in Minimax(b, player, player, depth).ties ==>
      Legal(b, c') && ChildUtility(b, player, player, depth, c') == 1.0
  {
    var b' := MakeMove(b, c, player).board;
    forall d: nat | d == depth - 1
      ensures Minimax(b', Opponent(player), player, d).utility == 1.0
    {
      OpponentFacingWinIsLost(b', player, d);
    }
    WinningChildIsChosen(b, player, depth, c);
  }

  /**
   The random tie-break `Math.floor(Math.random() * bestMoves.length)`: a
   draw `rand` in [0, 1) selects one of the tied columns.
   */
  function Pick(ties: seq<int>, rand: real): (c: int)
    requires |ties| >= 1 && 0.0 <= rand < 1.0
    ensures c in ties
  {
    var n := |ties| as real;
    assert 0.0 <= rand * n < n;
    ties[(rand * n).Floor]
  }

  /** Every tied column is picked by some draw: the tie-break is not collapsed to one choice. */
  lemma EveryTieCanBePicked(ties: seq<int>, k: int)
    requires 0 <= k < |ties|
    ensures var rand := k as real / |ties| as real;
      0.0 <= rand < 1.0 && Pick(ties, rand) == ties[k]
  {
    var n := |ties| as real;
    var rand := k as real / n;
    assert rand * n == k as real;
    assert (k as real).Floor == k;
    assert Pick(ties, rand) == ties[(rand * n).Floor];
  }
}
