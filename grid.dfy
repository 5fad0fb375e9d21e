/** The minesweeper grid as the client keeps it: cells, a board as rows of
    cells, the eight-neighbourhood of a cell and the counting of mines. */
module Grid {

  /** One square of the board. `adjacentMines` is only meaningful on a cell
      that is not a mine; the generator leaves it 0 on mines. */
  datatype Cell = Cell(isMine: bool, revealed: bool, flagged: bool, adjacentMines: int)

  /** The value every position holds before mines are placed. */
  const FreshCell := Cell(false, false, false, 0)

  /** A board is row-major: `b[r][c]` is the cell in row r, column c. */
  type Board = seq<seq<Cell>>

  predicate IsGrid(b: Board, rows: nat, cols: nat) {
    |b| == rows && forall r :: 0 <= r < rows ==> |b[r]| == cols
  }

  /** The width of a board, read off its first row. */
  function Cols(b: Board): nat {
    if |b| == 0 then 0 else |b[0]|
  }

  predicate Rectangular(b: Board) {
    IsGrid(b, |b|, Cols(b))
  }

  predicate InBounds(b: Board, r: int, c: int) {
    0 <= r < |b| && 0 <= c < |b[r]|
  }

  /** The board with the single position (r, c) replaced by x. */
  function Update(b: Board, r: int, c: int, x: Cell): (b': Board)
    requires InBounds(b, r, c)
    ensures |b'| == |b| && forall i :: 0 <= i < |b| ==> |b'[i]| == |b[i]|
    ensures forall i, j :: InBounds(b, i, j) ==> b'[i][j] == if i == r && j == c then x else b[i][j]
  {
    b[r := b[r][c := x]]
  }

  /** True when (r, c) lies on the board and holds a mine. */
  predicate MineAt(b: Board, r: int, c: int) {
    InBounds(b, r, c) && b[r][c].isMine
  }

  /** The eight offsets to a cell's neighbours, in the order the client visits them. */
  const Directions: seq<(int, int)> :=
    [(-1, -1), (-1, 0), (-1, 1),
     (0, -1),           (0, 1),
     (1, -1),  (1, 0),  (1, 1)]

  /** The number of offsets in ds that lead from (r, c) to a mine on the board. */
  function CountAlong(b: Board, r: int, c: int, ds: seq<(int, int)>): nat
    decreases |ds|
  {
    if ds == [] then 0
    else
      var d := ds[|ds| - 1];
      CountAlong(b, r, c, ds[..|ds| - 1]) + (if MineAt(b, r + d.0, c + d.1) then 1 else 0)
  }

  /** The adjacent-mine count the client computes for (r, c). */
  function AdjacentMines(b: Board, r: int, c: int): nat {
    CountAlong(b, r, c, Directions)
  }

  /** Reference definition: the mined positions of the 3x3 block around (r, c),
      without (r, c) itself and clipped to the board. */
  ghost function NeighbourMines(b: Board, r: int, c: int): set<(int, int)> {
    set i, j | r - 1 <= i <= r + 1 && c - 1 <= j <= c + 1 && (i != r || j != c) && MineAt(b, i, j) :: (i, j)
  }

  /** Every cell holds the count the generator promises: 0 on a mine, the
      number of mined neighbours otherwise. */
  ghost predicate CountsCorrect(b: Board) {
    forall r, c :: InBounds(b, r, c) ==>
      b[r][c].adjacentMines == if b[r][c].isMine then 0 else AdjacentMines(b, r, c)
  }

  /** No cell is revealed or flagged. */
  ghost predicate AllHidden(b: Board) {
    forall r, c :: InBounds(b, r, c) ==> !b[r][c].revealed && !b[r][c].flagged
  }

  /** Two boards of the same shape with mines at the same positions. */
  ghost predicate SameMines(a: Board, b: Board) {
    && |a| == |b|
    && (forall i :: 0 <= i < |a| ==> |a[i]| == |b[i]|)
    && forall i, j :: InBounds(a, i, j) ==> a[i][j].isMine == b[i][j].isMine
  }

  /** Two boards that differ at most in which cells are revealed or flagged. */
  ghost predicate SameLayout(a: Board, b: Board) {
    && SameMines(a, b)
    && forall i, j :: InBounds(a, i, j) ==> a[i][j].adjacentMines == b[i][j].adjacentMines
  }

  // ---------------------------------------------------------------------
  // Mine counting

  function RowMines(row: seq<Cell>): nat
    decreases |row|
  {
    if row == [] then 0
    else RowMines(row[..|row| - 1]) + (if row[|row| - 1].isMine then 1 else 0)
  }

  /** The number of cells of the board that hold a mine. */
  function BoardMines(b: Board): nat
    decreases |b|
  {
    if b == [] then 0
    else BoardMines(b[..|b| - 1]) + RowMines(b[|b| - 1])
  }

  function Indicator(x: Cell): nat {
    if x.isMine then 1 else 0
  }

  lemma {:induction false} RowMinesUpdate(row: seq<Cell>, c: int, x: Cell)
    requires 0 <= c < |row|
    ensures RowMines(row[c := x]) + Indicator(row[c]) == RowMines(row) + Indicator(x)
    decreases |row|
  {
    var n := |row| - 1;
    if c == n {
      assert row[c := x][..n] == row[..n];
    } else {
      assert row[c := x][..n] == row[..n][c := x];
      RowMinesUpdate(row[..n], c, x);
    }
  }

  lemma {:induction false} BoardMinesRowUpdate(b: Board, r: int, row: seq<Cell>)
    requires 0 <= r < |b|
    ensures BoardMines(b[r := row]) + RowMines(b[r]) == BoardMines(b) + RowMines(row)
    decreases |b|
  {
    var n := |b| - 1;
    if r == n {
      assert b[r := row][..n] == b[..n];
    } else {
      assert b[r := row][..n] == b[..n][r := row];
      BoardMinesRowUpdate(b[..n], r, row);
    }
  }

  /** Replacing one cell changes the mine total by the difference of the two cells. */
  lemma BoardMinesUpdate(b: Board, r: int, c: int, x: Cell)
    requires InBounds(b, r, c)
    ensures BoardMines(Update(b, r, c, x)) + Indicator(b[r][c]) == BoardMines(b) + Indicator(x)
  {
    RowMinesUpdate(b[r], c, x);
    BoardMinesRowUpdate(b, r, b[r][c := x]);
  }

  lemma {:induction false} RowMinesSame(a: seq<Cell>, b: seq<Cell>)
    requires |a| == |b| && forall j :: 0 <= j < |a| ==> a[j].isMine == b[j].isMine
    ensures RowMines(a) == RowMines(b)
    decreases |a|
  {
    if a != [] {
      RowMinesSame(a[..|a| - 1], b[..|b| - 1]);
    }
  }

  /** The mine total depends on nothing but where the mines are. */
  lemma {:induction false} BoardMinesSame(a: Board, b: Board)
    requires SameMines(a, b)
    ensures BoardMines(a) == BoardMines(b)
    decreases |a|
  {
    if a != [] {
      var n := |a| - 1;
      forall j | 0 <= j < |a[n]| ensures a[n][j].isMine == b[n][j].isMine {
        assert InBounds(a, n, j);
      }
      RowMinesSame(a[n], b[n]);
      forall i, j | InBounds(a[..n], i, j) ensures a[..n][i][j].isMine == b[..n][i][j].isMine {
        assert InBounds(a, i, j);
      }
      BoardMinesSame(a[..n], b[..n]);
    }
  }

  lemma {:induction false} RowMinesNone(row: seq<Cell>)
    requires forall j :: 0 <= j < |row| ==> !row[j].isMine
    ensures RowMines(row) == 0
    decreases |row|
  {
    if row != [] {
      RowMinesNone(row[..|row| - 1]);
    }
  }

  /** A board without mines has a mine total of 0. */
  lemma {:induction false} BoardMinesNone(b: Board)
    requires forall r, c :: InBounds(b, r, c) ==> !b[r][c].isMine
    ensures BoardMines(b) == 0
    decreases |b|
  {
    if b != [] {
      var n := |b| - 1;
      forall j | 0 <= j < |b[n]| ensures !b[n][j].isMine {
        assert InBounds(b, n, j);
      }
      RowMinesNone(b[n]);
      forall i, j | InBounds(b[..n], i, j) ensures !b[..n][i][j].isMine {
        assert InBounds(b, i, j);
      }
      BoardMinesNone(b[..n]);
    }
  }

  lemma {:induction false} RowMinesAll(row: seq<Cell>)
    requires forall j :: 0 <= j < |row| ==> row[j].isMine
    ensures RowMines(row) == |row|
    decreases |row|
  {
    if row != [] {
      RowMinesAll(row[..|row| - 1]);
    }
  }

  /** A rows x cols board made only of mines has rows * cols of them. */
  lemma {:induction false} BoardMinesAll(b: Board, rows: nat, cols: nat)
    requires IsGrid(b, rows, cols)
    requires forall r, c :: InBounds(b, r, c) ==> b[r][c].isMine
    ensures BoardMines(b) == rows * cols
    decreases rows
  {
    if rows > 0 {
      var n := rows - 1;
      forall j | 0 <= j < |b[n]| ensures b[n][j].isMine {
        assert InBounds(b, n, j);
      }
      RowMinesAll(b[n]);
      forall i, j | InBounds(b[..n], i, j) ensures b[..n][i][j].isMine {
        assert InBounds(b, i, j);
      }
      BoardMinesAll(b[..n], n, cols);
      assert rows * cols == n * cols + cols;
    }
  }

  /** A rows x cols board with fewer than rows * cols mines has a cell without one. */
  lemma SomeSafeCell(b: Board, rows: nat, cols: nat) returns (r: int, c: int)
    requires IsGrid(b, rows, cols) && BoardMines(b) < rows * cols
    ensures InBounds(b, r, c) && !b[r][c].isMine
  {
    if forall i, j :: InBounds(b, i, j) ==> b[i][j].isMine {
      BoardMinesAll(b, rows, cols);
      assert false;
    }
    r, c :| InBounds(b, r, c) && !b[r][c].isMine;
  }

  // ---------------------------------------------------------------------
  // Neighbour counting

  /** The adjacent-mine count depends on nothing but where the mines are. */
  lemma {:induction false} CountAlongSame(a: Board, b: Board, r: int, c: int, ds: seq<(int, int)>)
    requires SameMines(a, b)
    ensures CountAlong(a, r, c, ds) == CountAlong(b, r, c, ds)
    decreases |ds|
  {
    if ds != [] {
      var d := ds[|ds| - 1];
      assert MineAt(a, r + d.0, c + d.1) == MineAt(b, r + d.0, c + d.1);
      CountAlongSame(a, b, r, c, ds[..|ds| - 1]);
    }
  }

  lemma {:induction false} CountAlongBound(b: Board, r: int, c: int, ds: seq<(int, int)>)
    ensures CountAlong(b, r, c, ds) <= |ds|
    decreases |ds|
  {
    if ds != [] {
      CountAlongBound(b, r, c, ds[..|ds| - 1]);
    }
  }

  /** The offsets of ds are pairwise different. */
  predicate Distinct(ds: seq<(int, int)>) {
    forall i, j :: 0 <= i < j < |ds| ==> ds[i] != ds[j]
  }

  /** The positions the offsets in ds lead to from (r, c) that hold a mine. */
  ghost function Hits(b: Board, r: int, c: int, ds: seq<(int, int)>): set<(int, int)>
    decreases |ds|
  {
    if ds == [] then {}
    else
      var d := ds[|ds| - 1];
      Hits(b, r, c, ds[..|ds| - 1]) + (if MineAt(b, r + d.0, c + d.1) then {(r + d.0, c + d.1)} else {})
  }

  lemma {:induction false} HitsMembership(b: Board, r: int, c: int, ds: seq<(int, int)>, q: (int, int))
    ensures q in Hits(b, r, c, ds) <==> (q.0 - r, q.1 - c) in ds && MineAt(b, q.0, q.1)
    decreases |ds|
  {
    if ds != [] {
      var n := |ds| - 1;
      HitsMembership(b, r, c, ds[..n], q);
      assert ds == ds[..n] + [ds[n]];
    }
  }

  lemma {:induction false} CountAlongIsHits(b: Board, r: int, c: int, ds: seq<(int, int)>)
    requires Distinct(ds)
    ensures CountAlong(b, r, c, ds) == |Hits(b, r, c, ds)|
    decreases |ds|
  {
    if ds != [] {
      var n := |ds| - 1;
      var d := ds[n];
      var p := (r + d.0, c + d.1);
      CountAlongIsHits(b, r, c, ds[..n]);
      HitsMembership(b, r, c, ds[..n], p);
      assert p.0 - r == d.0 && p.1 - c == d.1;
      assert d !in ds[..n];
    }
  }

  /** The offset that leads from (r, c) to (i, j), as an index into Directions. */
  function DirectionIndex(dr: int, dc: int): (k: nat)
    requires -1 <= dr <= 1 && -1 <= dc <= 1 && (dr != 0 || dc != 0)
    ensures k < |Directions| && Directions[k] == (dr, dc)
  {
    if dr == -1 then (dc + 1) as nat
    else if dr == 0 then (if dc == -1 then 3 else 4)
    else (6 + dc) as nat
  }

  lemma HitsOfDirections(b: Board, r: int, c: int)
    ensures Hits(b, r, c, Directions) == NeighbourMines(b, r, c)
  {
    forall q | q in Hits(b, r, c, Directions) ensures q in NeighbourMines(b, r, c) {
      HitsMembership(b, r, c, Directions, q);
    }
    forall q | q in NeighbourMines(b, r, c) ensures q in Hits(b, r, c, Directions) {
      var k := DirectionIndex(q.0 - r, q.1 - c);
      HitsMembership(b, r, c, Directions, q);
    }
  }

  /** The client's count of a cell's neighbours that are mines is the number of
      mined positions of its clipped 3x3 block, and lies in [0, 8]. */
  lemma AdjacentMinesIsNeighbourCount(b: Board, r: int, c: int)
    ensures AdjacentMines(b, r, c) == |NeighbourMines(b, r, c)|
    ensures 0 <= AdjacentMines(b, r, c) <= 8
  {
    CountAlongIsHits(b, r, c, Directions);
    HitsOfDirections(b, r, c);
    CountAlongBound(b, r, c, Directions);
  }

  /** On a board whose counts are correct, every count lies in [0, 8] and a safe
      cell's count is the number of mined positions around it. */
  lemma CountsCorrectMeaning(b: Board, r: int, c: int)
    requires CountsCorrect(b) && InBounds(b, r, c)
    ensures 0 <= b[r][c].adjacentMines <= 8
    ensures b[r][c].isMine ==> b[r][c].adjacentMines == 0
    ensures !b[r][c].isMine ==> b[r][c].adjacentMines == |NeighbourMines(b, r, c)|
  {
    AdjacentMinesIsNeighbourCount(b, r, c);
  }

  /** Boards that differ only in revealed and flagged bits agree on the mine
      total and on whether their counts are correct. */
  lemma SameLayoutKeepsCounts(a: Board, b: Board)
    requires SameLayout(a, b)
    ensures BoardMines(a) == BoardMines(b)
    ensures CountsCorrect(a) <==> CountsCorrect(b)
  {
    BoardMinesSame(a, b);
    forall r, c | InBounds(a, r, c) ensures AdjacentMines(a, r, c) == AdjacentMines(b, r, c) {
      CountAlongSame(a, b, r, c, Directions);
    }
  }
}
