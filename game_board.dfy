/** The client's game session: the state the GameBoard component keeps
    (board, gameOver, won, time, timerActive, gameId), its click handlers and
    the effects React runs after a render. */
module GameBoard {
  import opened Wrappers
  import opened Models
  import opened Grid
  import opened BoardGeneration

  /** Every cell without a mine is revealed. Flags play no part, and the empty
      board satisfies it. */
  ghost predicate WinCondition(b: Board) {
    forall r, c :: InBounds(b, r, c) && !b[r][c].isMine ==> b[r][c].revealed
  }

  /** No cell is revealed and flagged at once. */
  ghost predicate NeverRevealedAndFlagged(b: Board) {
    forall r, c :: InBounds(b, r, c) ==> !(b[r][c].revealed && b[r][c].flagged)
  }

  /** A hidden rows x cols board is rectangular and has no cell both
      revealed and flagged. */
  lemma HiddenGridFits(b: Board, rows: nat, cols: nat)
    requires IsGrid(b, rows, cols) && AllHidden(b)
    ensures Rectangular(b) && NeverRevealedAndFlagged(b)
  {
    if rows > 0 {
      assert Cols(b) == cols;
    }
  }

  /** The client's win test: scans the rows, each as wide as the first row,
      and answers false at the first hidden cell without a mine. */
  method CheckWinCondition(b: Board) returns (win: bool)
    requires Rectangular(b)
    ensures win <==> WinCondition(b)
  {
    for r := 0 to |b|
      invariant forall i, j :: InBounds(b, i, j) && i < r && !b[i][j].isMine ==> b[i][j].revealed
    {
      for c := 0 to |b[0]|
        invariant forall i, j :: InBounds(b, i, j) && (i < r || (i == r && j < c)) && !b[i][j].isMine ==>
          b[i][j].revealed
      {
        if !b[r][c].isMine && !b[r][c].revealed {
          return false;
        }
      }
    }
    return true;
  }

  /** The win test with the empty board excluded: the board a session holds
      before its first board is generated is not a won game. */
  method CheckWinConditionGuarded(b: Board) returns (win: bool)
    requires Rectangular(b)
    ensures win <==> |b| > 0 && WinCondition(b)
  {
    if |b| == 0 {
      return false;
    }
    win := CheckWinCondition(b);
  }

  /** The board with cell (r, c) revealed. */
  function Revealed(b: Board, r: int, c: int): Board
    requires InBounds(b, r, c)
  {
    Update(b, r, c, b[r][c].(revealed := true))
  }

  /** The board with the flag of cell (r, c) flipped. */
  function Toggled(b: Board, r: int, c: int): Board
    requires InBounds(b, r, c)
  {
    Update(b, r, c, b[r][c].(flagged := !b[r][c].flagged))
  }

  /** Revealing a cell that is not flagged keeps the shape, the mines and the
      counts, reveals that one cell and no other, and leaves no cell both
      revealed and flagged. */
  lemma RevealKeepsInvariants(b: Board, r: int, c: int)
    requires Rectangular(b) && CountsCorrect(b) && NeverRevealedAndFlagged(b)
    requires InBounds(b, r, c) && !b[r][c].flagged
    ensures Rectangular(Revealed(b, r, c)) && SameLayout(b, Revealed(b, r, c))
    ensures CountsCorrect(Revealed(b, r, c)) && BoardMines(Revealed(b, r, c)) == BoardMines(b)
    ensures NeverRevealedAndFlagged(Revealed(b, r, c))
    ensures forall i, j :: InBounds(b, i, j) ==>
      (Revealed(b, r, c)[i][j].revealed <==> b[i][j].revealed || (i == r && j == c))
    ensures forall i, j :: InBounds(b, i, j) ==> Revealed(b, r, c)[i][j].flagged == b[i][j].flagged
  {
    SameLayoutKeepsCounts(b, Revealed(b, r, c));
  }

  /** Flipping the flag of a hidden cell keeps the shape, the mines and the
      counts, changes the flag of that one cell and no other, reveals nothing,
      and leaves no cell both revealed and flagged. */
  lemma ToggleKeepsInvariants(b: Board, r: int, c: int)
    requires Rectangular(b) && CountsCorrect(b) && NeverRevealedAndFlagged(b)
    requires InBounds(b, r, c) && !b[r][c].revealed
    ensures Rectangular(Toggled(b, r, c)) && SameLayout(b, Toggled(b, r, c))
    ensures CountsCorrect(Toggled(b, r, c)) && BoardMines(Toggled(b, r, c)) == BoardMines(b)
    ensures NeverRevealedAndFlagged(Toggled(b, r, c))
    ensures forall i, j :: InBounds(b, i, j) ==>
      Toggled(b, r, c)[i][j].flagged == (if i == r && j == c then !b[i][j].flagged else b[i][j].flagged)
    ensures forall i, j :: InBounds(b, i, j) ==> Toggled(b, r, c)[i][j].revealed == b[i][j].revealed
  {
    SameLayoutKeepsCounts(b, Toggled(b, r, c));
  }

  /** Toggling the same cell twice gives the board back. */
  lemma ToggleTwice(b: Board, r: int, c: int)
    requires InBounds(b, r, c)
    ensures Toggled(Toggled(b, r, c), r, c) == b
  {
    var once := Toggled(b, r, c);
    assert once[r] == b[r][c := once[r][c]];
    assert once[r][c].(flagged := !once[r][c].flagged) == b[r][c];
    assert b[r][c := once[r][c]][c := b[r][c]] == b[r];
    assert b[r := b[r]] == b;
  }

  /** A freshly generated board that leaves a cell without a mine is not won. */
  lemma FreshBoardNotWon(b: Board, rows: nat, cols: nat)
    requires IsGrid(b, rows, cols) && AllHidden(b) && BoardMines(b) < rows * cols
    ensures |b| > 0 && !WinCondition(b)
  {
    var r, c := SomeSafeCell(b, rows, cols);
  }

  /** What the client sends to `PUT /games/:gameId` when a game ends. */
  datatype Report = Report(gameId: string, status: Status, timeTaken: int)

  /** Draws that fit the board of a difficulty and hold enough distinct
      positions for the sampling loop to finish. */
  predicate DrawsFor(difficulty: string, picks: seq<(int, int)>) {
    var p := GetBoardParams(difficulty);
    PicksInBounds(picks, p.rows, p.cols) && |PickSet(picks)| >= p.mines
  }

  class Session {
    var board: Board
    var gameOver: bool
    var won: bool
    var time: nat
    var timerActive: bool
    /** The backend's id of the current game; None until the creation request answers. */
    var gameId: Option<string>
    /** The mine count the board was generated with. */
    ghost var minesCount: nat

    ghost predicate Valid()
      reads this
    {
      && Rectangular(board) && CountsCorrect(board) && NeverRevealedAndFlagged(board)
      && BoardMines(board) == minesCount
      && (won ==> gameOver) && (gameOver ==> !timerActive)
    }

    /** Whether `if (!gameId) return;` lets a report through: a missing or empty id does not. */
    predicate HasGameId()
      reads this
    {
      gameId.Some? && gameId.value != ""
    }

    /** The report `updateGameStatus(status)` sends, if any: nothing without a
        game id, otherwise the status with the elapsed seconds. */
    function StatusReport(status: Status): (rep: Option<Report>)
      reads this
      ensures rep.Some? <==> HasGameId()
      ensures rep.Some? ==> rep.value == Report(gameId.value, status, time)
    {
      if HasGameId() then Some(Report(gameId.value, status, time)) else None
    }

    /** The component's first render and first commit, as written: the
        difficulty effect generates a board and resets the flags, and in the
        same commit the win effect runs with the first render's values, an
        empty board and gameOver false. The empty board passes the win test, so
        the session ends up won and over with its timer stopped before any
        click; no report goes out because there is no game id yet. */
    constructor Mount(difficulty: string, picks: seq<(int, int)>)
      requires DrawsFor(difficulty, picks)
      ensures Valid()
      ensures IsGrid(board, GetBoardParams(difficulty).rows, GetBoardParams(difficulty).cols)
      ensures AllHidden(board) && minesCount == GetBoardParams(difficulty).mines
      ensures MinesExactlyAt(board, FirstDistinct(picks, GetBoardParams(difficulty).mines))
      ensures won && gameOver && !timerActive && time == 0 && gameId == None
    {
      board, gameOver, won, time, timerActive, gameId := [], false, false, 0, false, None;
      minesCount := 0;
      new;
      var seenBoard, seenGameOver := board, gameOver;
      NewGame(difficulty, picks);
      var report := WinEffect(seenBoard, seenGameOver);
    }

    /** The first render and commit with the win test guarded against the
        empty board: the first run of the win effect does nothing, the second
        one (the board has changed) sees the generated board, which is not
        won, so the game is in progress with its timer running. */
    constructor MountGuarded(difficulty: string, picks: seq<(int, int)>)
      requires DrawsFor(difficulty, picks)
      ensures Valid()
      ensures IsGrid(board, GetBoardParams(difficulty).rows, GetBoardParams(difficulty).cols)
      ensures AllHidden(board) && minesCount == GetBoardParams(difficulty).mines
      ensures MinesExactlyAt(board, FirstDistinct(picks, GetBoardParams(difficulty).mines))
      ensures !won && !gameOver && timerActive && time == 0 && gameId == None
    {
      board, gameOver, won, time, timerActive, gameId := [], false, false, 0, false, None;
      minesCount := 0;
      new;
      var seenBoard, seenGameOver := board, gameOver;
      NewGame(difficulty, picks);
      var first := WinEffectGuarded(seenBoard, seenGameOver);
      var p := GetBoardParams(difficulty);
      FreshBoardNotWon(board, p.rows, p.cols);
      var second := WinEffectGuarded(board, gameOver);
    }

    /** The difficulty effect: a new board for the difficulty, the flags
        cleared, the clock at 0 and running. The game id is left as it is
        until the creation request answers. */
    method NewGame(difficulty: string, picks: seq<(int, int)>)
      requires DrawsFor(difficulty, picks)
      modifies this
      ensures Valid()
      ensures IsGrid(board, GetBoardParams(difficulty).rows, GetBoardParams(difficulty).cols)
      ensures AllHidden(board) && minesCount == GetBoardParams(difficulty).mines
      ensures MinesExactlyAt(board, FirstDistinct(picks, GetBoardParams(difficulty).mines))
      ensures forall r, c :: MineAt(board, r, c) ==> (r, c) in PickSet(picks)
      ensures !gameOver && !won && time == 0 && timerActive && gameId == old(gameId)
    {
      var p := GetBoardParams(difficulty);
      var generated := GenerateBoard(p.rows, p.cols, p.mines, picks);
      var next := generated.value;
      HiddenGridFits(next, p.rows, p.cols);
      board := next;
      minesCount := p.mines;
      gameOver, won, time, timerActive := false, false, 0, true;
    }

    /** A difficulty change after the first render: the difficulty effect runs,
        then the win effect runs once more because the board changed, and finds
        the fresh board not won. The previous game's id is still in place. */
    method ChangeDifficulty(difficulty: string, picks: seq<(int, int)>)
      requires DrawsFor(difficulty, picks)
      modifies this
      ensures Valid()
      ensures IsGrid(board, GetBoardParams(difficulty).rows, GetBoardParams(difficulty).cols)
      ensures AllHidden(board) && minesCount == GetBoardParams(difficulty).mines
      ensures MinesExactlyAt(board, FirstDistinct(picks, GetBoardParams(difficulty).mines))
      ensures !gameOver && !won && time == 0 && timerActive && gameId == old(gameId)
    {
      NewGame(difficulty, picks);
      var p := GetBoardParams(difficulty);
      FreshBoardNotWon(board, p.rows, p.cols);
      var report := WinEffectGuarded(board, gameOver);
    }

    /** The creation request answered with the backend's id for the game. */
    method GameCreated(id: string)
      modifies this`gameId
      ensures gameId == Some(id)
    {
      gameId := Some(id);
    }

    /** One firing of the one-second interval, which runs only while the timer
        is active and the game is not over. */
    method Tick()
      modifies this`time
      ensures time == if timerActive && !gameOver then old(time) + 1 else old(time)
    {
      if timerActive && !gameOver {
        time := time + 1;
      }
    }

    /** The reveal handler. Nothing happens once the game is over or when the
        cell is flagged or already revealed. Otherwise exactly cell (r, c)
        becomes revealed, with no flood fill; a mine ends the game, stops the
        timer and reports the loss, a safe cell changes nothing else.
        `boardSet` tells whether a new board was handed to React. */
    method Reveal(r: int, c: int) returns (boardSet: bool, report: Option<Report>)
      requires Valid() && InBounds(board, r, c)
      modifies this
      ensures Valid()
      ensures boardSet <==> !old(gameOver) && !old(board[r][c].flagged) && !old(board[r][c].revealed)
      ensures !boardSet ==> unchanged(this) && report == None
      ensures boardSet ==> board == Revealed(old(board), r, c)
      ensures boardSet ==> gameOver == old(board[r][c].isMine)
      ensures boardSet ==> timerActive == (old(timerActive) && !old(board[r][c].isMine))
      ensures boardSet ==> report == if old(board[r][c].isMine) then old(StatusReport(Lost)) else None
      ensures won == old(won) && time == old(time) && gameId == old(gameId) && minesCount == old(minesCount)
    {
      boardSet, report := false, None;
      if gameOver {
        return;
      }
      if !board[r][c].flagged && !board[r][c].revealed {
        RevealKeepsInvariants(board, r, c);
        board := Revealed(board, r, c);
        if board[r][c].isMine {
          gameOver := true;
          timerActive := false;
          report := StatusReport(Lost);
        }
        boardSet := true;
      }
    }

    /** The flag handler. Nothing happens once the game is over. Otherwise a
        hidden cell has its flag flipped, there being no limit on flags, and a
        revealed cell keeps its own; either way a new board is handed to React. */
    method ToggleFlag(r: int, c: int) returns (boardSet: bool)
      requires Valid() && InBounds(board, r, c)
      modifies this
      ensures Valid()
      ensures boardSet <==> !old(gameOver)
      ensures !boardSet ==> unchanged(this)
      ensures boardSet ==> board == if old(board[r][c].revealed) then old(board) else Toggled(old(board), r, c)
      ensures gameOver == old(gameOver) && won == old(won) && timerActive == old(timerActive)
      ensures time == old(time) && gameId == old(gameId) && minesCount == old(minesCount)
    {
      if gameOver {
        return false;
      }
      if !board[r][c].revealed {
        ToggleKeepsInvariants(board, r, c);
        board := Toggled(board, r, c);
      }
      return true;
    }

    /** The win effect, run with the board and gameOver of the render it
        belongs to: when that game was not over and that board passes the win
        test, the game is won and over, the timer stops and the win is reported. */
    method WinEffect(seen: Board, seenGameOver: bool) returns (report: Option<Report>)
      requires Valid() && Rectangular(seen)
      modifies this
      ensures Valid()
      ensures !seenGameOver && WinCondition(seen) ==>
        won && gameOver && !timerActive && report == old(StatusReport(Won))
        && board == old(board) && time == old(time) && gameId == old(gameId) && minesCount == old(minesCount)
      ensures !(!seenGameOver && WinCondition(seen)) ==> unchanged(this) && report == None
    {
      report := None;
      if !seenGameOver {
        var win := CheckWinCondition(seen);
        if win {
          won := true;
          gameOver := true;
          timerActive := false;
          report := StatusReport(Won);
        }
      }
    }

    /** The win effect with the empty board excluded from the win test. */
    method WinEffectGuarded(seen: Board, seenGameOver: bool) returns (report: Option<Report>)
      requires Valid() && Rectangular(seen)
      modifies this
      ensures Valid()
      ensures !seenGameOver && |seen| > 0 && WinCondition(seen) ==>
        won && gameOver && !timerActive && report == old(StatusReport(Won))
        && board == old(board) && time == old(time) && gameId == old(gameId) && minesCount == old(minesCount)
      ensures !(!seenGameOver && |seen| > 0 && WinCondition(seen)) ==> unchanged(this) && report == None
    {
      report := None;
      if !seenGameOver {
        var win := CheckWinConditionGuarded(seen);
        if win {
          won := true;
          gameOver := true;
          timerActive := false;
          report := StatusReport(Won);
        }
      }
    }

    /** A right click: the reveal handler, then the win effect of the next
        render if the board was replaced. Only cell (r, c) can change; a mine
        loses the game, a last safe cell wins it. */
    method RightClick(r: int, c: int) returns (report: Option<Report>)
      requires Valid() && InBounds(board, r, c)
      modifies this
      ensures Valid()
      ensures old(gameOver) || old(board[r][c].flagged) || old(board[r][c].revealed) ==>
        unchanged(this) && report == None
      ensures !(old(gameOver) || old(board[r][c].flagged) || old(board[r][c].revealed)) ==>
        && board == Revealed(old(board), r, c)
        && (old(board[r][c].isMine) ==>
              gameOver && !won && !timerActive && report == old(StatusReport(Lost)))
        && (!old(board[r][c].isMine) ==>
              && (won <==> WinCondition(board)) && gameOver == won
              && timerActive == (old(timerActive) && !won)
              && report == if won then old(StatusReport(Won)) else None)
      ensures time == old(time) && gameId == old(gameId) && minesCount == old(minesCount)
    {
      var boardSet;
      boardSet, report := Reveal(r, c);
      if boardSet {
        var winReport := WinEffectGuarded(board, gameOver);
        if winReport.Some? {
          report := winReport;
        }
      }
    }

    /** A left click: the flag handler, then the win effect of the next render,
        which the replaced board always triggers while the game is running. */
    method LeftClick(r: int, c: int) returns (report: Option<Report>)
      requires Valid() && InBounds(board, r, c)
      modifies this
      ensures Valid()
      ensures old(gameOver) ==> unchanged(this) && report == None
      ensures !old(gameOver) ==>
        && board == (if old(board[r][c].revealed) then old(board) else Toggled(old(board), r, c))
        && (won <==> WinCondition(board)) && gameOver == won
        && timerActive == (old(timerActive) && !won)
        && report == if won then old(StatusReport(Won)) else None
      ensures time == old(time) && gameId == old(gameId) && minesCount == old(minesCount)
    {
      var boardSet := ToggleFlag(r, c);
      report := None;
      if boardSet {
        report := WinEffectGuarded(board, gameOver);
      }
    }
  }

  /** As written, the board the player first sees cannot be played: on a
      freshly mounted session a right click on any cell reveals nothing and
      reports nothing, because the session is already won and over. */
  method FirstRevealAfterMount(difficulty: string, picks: seq<(int, int)>, r: int, c: int)
    returns (s: Session, report: Option<Report>)
    requires DrawsFor(difficulty, picks)
    requires 0 <= r < GetBoardParams(difficulty).rows && 0 <= c < GetBoardParams(difficulty).cols
    ensures s.Valid() && s.won && s.gameOver && report == None
    ensures AllHidden(s.board)
  {
    s := new Session.Mount(difficulty, picks);
    report := s.RightClick(r, c);
  }

  /** With the guarded win test, the first right click reveals its cell: a
      mine loses the game, any other cell leaves it running unless it was the
      last safe one. */
  method FirstRevealAfterGuardedMount(difficulty: string, picks: seq<(int, int)>, r: int, c: int)
    returns (s: Session, report: Option<Report>)
    requires DrawsFor(difficulty, picks)
    requires 0 <= r < GetBoardParams(difficulty).rows && 0 <= c < GetBoardParams(difficulty).cols
    ensures IsGrid(s.board, GetBoardParams(difficulty).rows, GetBoardParams(difficulty).cols)
    ensures s.Valid() && s.board[r][c].revealed && report == None
    ensures s.gameOver <==> s.board[r][c].isMine || WinCondition(s.board)
    ensures s.won <==> !s.board[r][c].isMine && WinCondition(s.board)
  {
    s := new Session.MountGuarded(difficulty, picks);
    report := s.RightClick(r, c);
  }
}
