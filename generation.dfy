/** Board generation on the client: the difficulty presets and the placement
    of mines by rejection sampling followed by the adjacent-mine counts. */
module BoardGeneration {
  import opened Wrappers
  import opened Grid

  /** The shape and mine count of a board. */
  datatype BoardParams = BoardParams(rows: nat, cols: nat, mines: nat)

  /** The preset for a difficulty name: 'medium' and 'hard' have their own
      boards, every other name (including 'easy') gets the small one. Every
      preset leaves at least one cell without a mine. */
  function GetBoardParams(diff: string): (p: BoardParams)
    ensures diff == "medium" ==> p == BoardParams(16, 16, 40)
    ensures diff == "hard" ==> p == BoardParams(16, 30, 99)
    ensures diff != "medium" && diff != "hard" ==> p == BoardParams(8, 8, 10)
    ensures 0 < p.mines < p.rows * p.cols
  {
    if diff == "medium" then BoardParams(16, 16, 40)
    else if diff == "hard" then BoardParams(16, 30, 99)
    else BoardParams(8, 8, 10)
  }

  /** The distinct positions among the random draws. */
  function PickSet(picks: seq<(int, int)>): set<(int, int)> {
    set p | p in picks
  }

  /** Every draw is a position of a rows x cols board, as `Math.floor(Math.random() * n)` gives. */
  predicate PicksInBounds(picks: seq<(int, int)>, rows: nat, cols: nat) {
    forall k :: 0 <= k < |picks| ==> 0 <= picks[k].0 < rows && 0 <= picks[k].1 < cols
  }

  lemma SubsetCardinality<T>(a: set<T>, b: set<T>)
    requires a <= b
    ensures |a| <= |b|
  {
    if a != {} {
      var x :| x in a;
      SubsetCardinality(a - {x}, b - {x});
    }
  }

  /** The mines of b stand exactly on the positions of S. */
  ghost predicate MinesExactlyAt(b: Board, s: set<(int, int)>) {
    forall r, c :: InBounds(b, r, c) ==> (b[r][c].isMine <==> (r, c) in s)
  }

  /** Every count on b is still 0. */
  ghost predicate NoCounts(b: Board) {
    forall r, c :: InBounds(b, r, c) ==> b[r][c].adjacentMines == 0
  }

  /** The first n distinct positions of the draws, taken in order: a draw
      joins while fewer than n positions have been collected. */
  function FirstDistinct(picks: seq<(int, int)>, n: nat): set<(int, int)>
    decreases |picks|
  {
    if picks == [] then {}
    else
      var s := FirstDistinct(picks[..|picks| - 1], n);
      if |s| < n then s + {picks[|picks| - 1]} else s
  }

  /** FirstDistinct collects the distinct draws until there are n of them:
      it is a set of drawn positions of size min(n, number of distinct draws),
      and while the draws hold no more than n distinct positions it is all of
      them. */
  lemma {:induction false} FirstDistinctSize(picks: seq<(int, int)>, n: nat)
    ensures FirstDistinct(picks, n) <= PickSet(picks)
    ensures |FirstDistinct(picks, n)| == if |PickSet(picks)| < n then |PickSet(picks)| else n
    ensures |PickSet(picks)| <= n ==> FirstDistinct(picks, n) == PickSet(picks)
    decreases |picks|
  {
    if picks == [] {
      assert PickSet(picks) == {};
    } else {
      var m := |picks| - 1;
      FirstDistinctSize(picks[..m], n);
      DrawnPrefix(picks, m);
      assert picks[..m + 1] == picks;
      var s := FirstDistinct(picks[..m], n);
      if |PickSet(picks[..m])| < n {
        assert s == PickSet(picks[..m]);
      } else {
        SubsetCardinality(PickSet(picks[..m]), PickSet(picks));
        if |PickSet(picks)| <= n {
          SubsetSameSize(s, PickSet(picks[..m]));
          SubsetSameSize(PickSet(picks[..m]), PickSet(picks));
        }
      }
    }
  }

  /** Sets of equal size of which one contains the other are equal. */
  lemma SubsetSameSize<T>(a: set<T>, b: set<T>)
    requires a <= b && |a| == |b|
    ensures a == b
  {
    if a != b {
      var x :| x in b && x !in a;
      SubsetCardinality(a, b - {x});
    }
  }

  /** Once a prefix of the draws holds n distinct positions, later draws
      change nothing: they are the ones the sampling loop never takes. */
  lemma {:induction false} FirstDistinctStable(picks: seq<(int, int)>, k: nat, n: nat)
    requires k <= |picks| && |FirstDistinct(picks[..k], n)| >= n
    ensures FirstDistinct(picks, n) == FirstDistinct(picks[..k], n)
    decreases |picks| - k
  {
    if k < |picks| {
      assert picks[..k + 1][..k] == picks[..k];
      FirstDistinctStable(picks, k + 1, n);
    } else {
      assert picks[..k] == picks;
    }
  }

  /** The state of the sampling loop: a hidden, uncounted rows x cols board
      whose mines stand exactly on the drawn positions, `placed` of them. */
  ghost predicate Sampled(b: Board, rows: nat, cols: nat, drawn: set<(int, int)>, placed: nat) {
    && IsGrid(b, rows, cols) && AllHidden(b) && NoCounts(b)
    && MinesExactlyAt(b, drawn) && placed == |drawn| == BoardMines(b)
  }

  /** Putting a mine on a drawn position that has none adds that position to
      the drawn set and one mine, and changes nothing else. */
  lemma PlaceStep(b: Board, rows: nat, cols: nat, drawn: set<(int, int)>, placed: nat, r: int, c: int)
    requires Sampled(b, rows, cols, drawn, placed)
    requires InBounds(b, r, c) && !b[r][c].isMine
    ensures Sampled(Update(b, r, c, b[r][c].(isMine := true)), rows, cols, drawn + {(r, c)}, placed + 1)
  {
    var b' := Update(b, r, c, b[r][c].(isMine := true));
    BoardMinesUpdate(b, r, c, b[r][c].(isMine := true));
    assert (r, c) !in drawn;
    assert |drawn + {(r, c)}| == placed + 1;
    assert IsGrid(b', rows, cols);
    assert AllHidden(b') && NoCounts(b');
    assert MinesExactlyAt(b', drawn + {(r, c)});
  }

  /** A draw that lands on a mine was drawn before. */
  lemma SkipStep(b: Board, rows: nat, cols: nat, drawn: set<(int, int)>, placed: nat, r: int, c: int)
    requires Sampled(b, rows, cols, drawn, placed)
    requires InBounds(b, r, c) && b[r][c].isMine
    ensures drawn + {(r, c)} == drawn
  {
  }

  /** The board before any mine is placed: every cell hidden, no mine, no count. */
  function EmptyBoard(rows: nat, cols: nat): (b: Board)
    ensures Sampled(b, rows, cols, {}, 0)
  {
    var b := seq(rows, _ => seq(cols, _ => FreshCell));
    BoardMinesNone(b);
    b
  }

  /** One more draw adds its position to the drawn set. */
  lemma DrawnPrefix(picks: seq<(int, int)>, used: nat)
    requires used < |picks|
    ensures PickSet(picks[..used + 1]) == PickSet(picks[..used]) + {picks[used]}
  {
    assert picks[..used + 1] == picks[..used] + [picks[used]];
  }

  /** The rejection-sampling loop: draws are taken in order until minesCount
      mines stand on the board or the draws run out; a draw on a mine is
      skipped, so `placed` is the number of distinct positions drawn and the
      mines stand exactly on them. */
  method PlaceMines(rows: nat, cols: nat, minesCount: nat, picks: seq<(int, int)>)
    returns (board: Board, placed: nat, used: nat)
    requires PicksInBounds(picks, rows, cols)
    ensures used <= |picks| && placed <= minesCount
    ensures placed < minesCount ==> used == |picks|
    ensures Sampled(board, rows, cols, PickSet(picks[..used]), placed)
  {
    board := EmptyBoard(rows, cols);
    placed, used := 0, 0;
    ghost var drawn: set<(int, int)> := {};
    assert PickSet(picks[..0]) == {};
    while placed < minesCount && used < |picks|
      invariant 0 <= used <= |picks| && placed <= minesCount
      invariant drawn == PickSet(picks[..used])
      invariant Sampled(board, rows, cols, drawn, placed)
    {
      var r, c := picks[used].0, picks[used].1;
      assert 0 <= r < rows && 0 <= c < cols;
      DrawnPrefix(picks, used);
      if !board[r][c].isMine {
        PlaceStep(board, rows, cols, drawn, placed, r, c);
        board := Update(board, r, c, board[r][c].(isMine := true));
        placed := placed + 1;
      } else {
        SkipStep(board, rows, cols, drawn, placed, r, c);
      }
      drawn := drawn + {(r, c)};
      used := used + 1;
    }
  }

  /** The count for one cell: the eight offsets are visited in order and every
      one that stays on the rows x cols board and lands on a mine adds one. */
  method CountNeighbours(board: Board, rows: nat, cols: nat, r: int, c: int) returns (count: nat)
    requires IsGrid(board, rows, cols)
    ensures count == AdjacentMines(board, r, c)
    ensures count == |NeighbourMines(board, r, c)| <= 8
  {
    count := 0;
    for k := 0 to |Directions|
      invariant count == CountAlong(board, r, c, Directions[..k])
    {
      var (dr, dc) := Directions[k];
      var nr, nc := r + dr, c + dc;
      assert Directions[..k + 1][..k] == Directions[..k];
      if nr >= 0 && nr < rows && nc >= 0 && nc < cols && board[nr][nc].isMine {
        count := count + 1;
      }
    }
    assert Directions[..|Directions|] == Directions;
    AdjacentMinesIsNeighbourCount(board, r, c);
  }

  /** Every cell of rows before r, and of row r before column c, holds its
      final count (0 on a mine), and every later cell still holds 0. */
  ghost predicate CountedUpTo(board: Board, mined: Board, r: int, c: int) {
    && (forall i, j :: InBounds(board, i, j) && (i < r || (i == r && j < c)) ==>
          board[i][j].adjacentMines == if board[i][j].isMine then 0 else AdjacentMines(mined, i, j))
    && (forall i, j :: InBounds(board, i, j) && (r < i || (i == r && c <= j)) ==>
          board[i][j].adjacentMines == 0)
  }

  /** Only the counts differ between board and mined. */
  ghost predicate SameButCounts(board: Board, mined: Board, rows: nat, cols: nat) {
    && IsGrid(board, rows, cols) && SameMines(board, mined)
    && (forall i, j :: InBounds(board, i, j) ==>
          board[i][j].revealed == mined[i][j].revealed && board[i][j].flagged == mined[i][j].flagged)
  }

  /** One row of the counting sweep. */
  method FillRow(board0: Board, mined: Board, rows: nat, cols: nat, r: nat) returns (board: Board)
    requires IsGrid(mined, rows, cols) && r < rows
    requires SameButCounts(board0, mined, rows, cols) && CountedUpTo(board0, mined, r, 0)
    ensures SameButCounts(board, mined, rows, cols) && CountedUpTo(board, mined, r + 1, 0)
  {
    board := board0;
    for c := 0 to cols
      invariant SameButCounts(board, mined, rows, cols)
      invariant CountedUpTo(board, mined, r, c)
    {
      if !board[r][c].isMine {
        var count := CountNeighbours(board, rows, cols, r, c);
        CountAlongSame(board, mined, r, c, Directions);
        board := Update(board, r, c, board[r][c].(adjacentMines := count));
      }
    }
  }

  /** The counting sweep: every cell without a mine gets its adjacent-mine
      count; mines and the revealed and flagged bits are left alone. */
  method FillCounts(mined: Board, rows: nat, cols: nat) returns (board: Board)
    requires IsGrid(mined, rows, cols)
    requires NoCounts(mined)
    ensures IsGrid(board, rows, cols) && SameMines(board, mined) && CountsCorrect(board)
    ensures forall r, c :: InBounds(board, r, c) ==>
      board[r][c].revealed == mined[r][c].revealed && board[r][c].flagged == mined[r][c].flagged
  {
    board := mined;
    for r := 0 to rows
      invariant SameButCounts(board, mined, rows, cols)
      invariant CountedUpTo(board, mined, r, 0)
    {
      board := FillRow(board, mined, rows, cols, r);
    }
    forall r, c | InBounds(board, r, c) ensures AdjacentMines(board, r, c) == AdjacentMines(mined, r, c) {
      CountAlongSame(board, mined, r, c, Directions);
    }
  }

  /** Builds a rows x cols board with minesCount mines. The random draws are
      given as `picks`, consumed in order. The result is None exactly when the
      draws hold fewer than minesCount distinct positions, i.e. when the
      sampling loop would still be running. Otherwise every cell is hidden,
      exactly minesCount cells are mines, namely the first minesCount distinct
      positions drawn, and every count is correct. */
  method GenerateBoard(rows: nat, cols: nat, minesCount: nat, picks: seq<(int, int)>)
    returns (result: Option<Board>)
    requires PicksInBounds(picks, rows, cols)
    ensures result.None? <==> |PickSet(picks)| < minesCount
    ensures result.Some? ==> IsGrid(result.value, rows, cols) && BoardMines(result.value) == minesCount
    ensures result.Some? ==> AllHidden(result.value) && CountsCorrect(result.value)
    ensures result.Some? ==> forall r, c :: MineAt(result.value, r, c) ==> (r, c) in PickSet(picks)
    ensures result.Some? ==> MinesExactlyAt(result.value, FirstDistinct(picks, minesCount))
  {
    var mined, placed, used := PlaceMines(rows, cols, minesCount, picks);
    if placed < minesCount {
      assert picks[..used] == picks;
      return None;
    }
    SubsetCardinality(PickSet(picks[..used]), PickSet(picks));
    var board := FillCounts(mined, rows, cols);
    BoardMinesSame(board, mined);
    FirstDistinctSize(picks[..used], minesCount);
    FirstDistinctStable(picks, used, minesCount);
    assert MinesExactlyAt(board, FirstDistinct(picks, minesCount));
    return Some(board);
  }
}
