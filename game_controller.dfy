/** The backend's game controller: creating a game record and recording a
    game's outcome, with the best time per (user, difficulty) kept on the
    leaderboard. The Game and Leaderboard collections are two maps. */
module GameController {
  import opened Wrappers
  import opened Models

  /** Database ids of users and games. */
  type Id = string

  /** A row of the Game collection. */
  datatype Game = Game(userId: Id, difficulty: Difficulty, status: Status, timeTaken: Option<int>)

  /** The answer to an update: 404 for an unknown game, else 200 with the saved game. */
  datatype Response = NotFound | Updated(game: Game)

  /** A win that reached the leaderboard: the game's user and difficulty and the reported time. */
  datatype Win = Win(userId: Id, difficulty: Difficulty, time: int)

  /** JavaScript truthiness of the request's `timeTaken`: absent and 0 are falsy. */
  predicate Truthy(timeTaken: Option<int>) {
    timeTaken.Some? && timeTaken.value != 0
  }

  /** Whether an update touches the leaderboard: a win with a truthy time. */
  predicate Qualifies(status: Status, timeTaken: Option<int>) {
    status == Won && Truthy(timeTaken)
  }

  /** The stored best time after a qualifying win of time t: t when there was
      no entry, otherwise the old best replaced only by a strictly lower t. The
      result is the minimum of the two. */
  function BestTimeAfter(entry: Option<int>, t: int): (best: int)
    ensures best <= t && (entry.Some? ==> best <= entry.value)
    ensures best == t || (entry.Some? && best == entry.value)
    ensures entry.Some? && best != entry.value ==> t < entry.value
  {
    match entry
    case None => t
    case Some(prev) => if t < prev then t else prev
  }

  /** The best time the leaderboard should hold for (u, d) after the wins
      recorded so far, None when there is none for that pair. */
  function BestOf(wins: seq<Win>, u: Id, d: Difficulty): Option<int>
    decreases |wins|
  {
    if wins == [] then None
    else
      var w := wins[|wins| - 1];
      var prev := BestOf(wins[..|wins| - 1], u, d);
      if w.userId == u && w.difficulty == d then Some(BestTimeAfter(prev, w.time)) else prev
  }

  /** The leaderboard keeps the minimum: BestOf(wins, u, d) is absent exactly
      when no win of (u, d) was recorded, and otherwise is the time of one of
      them and no larger than any of them. */
  lemma {:induction false} BestOfIsMinimum(wins: seq<Win>, u: Id, d: Difficulty)
    ensures BestOf(wins, u, d).None? <==>
      forall i :: 0 <= i < |wins| ==> !(wins[i].userId == u && wins[i].difficulty == d)
    ensures BestOf(wins, u, d).Some? ==>
      && (exists i :: 0 <= i < |wins| && wins[i].userId == u && wins[i].difficulty == d
                      && wins[i].time == BestOf(wins, u, d).value)
      && (forall i :: 0 <= i < |wins| && wins[i].userId == u && wins[i].difficulty == d ==>
                      BestOf(wins, u, d).value <= wins[i].time)
    decreases |wins|
  {
    if wins != [] {
      var n := |wins| - 1;
      var init := wins[..n];
      BestOfIsMinimum(init, u, d);
      assert forall i :: 0 <= i < n ==> wins[i] == init[i];
      if wins[n].userId == u && wins[n].difficulty == d {
        var prev := BestOf(init, u, d);
        if prev.Some? && BestOf(wins, u, d).value == prev.value {
          var i :| 0 <= i < n && init[i].userId == u && init[i].difficulty == d && init[i].time == prev.value;
          assert wins[i] == init[i];
        }
      }
    }
  }

  class Store {
    var games: map<Id, Game>
    /** Best time per (userId, difficulty). */
    var leaderboard: map<(Id, Difficulty), int>
    /** Every qualifying win recorded since the store was empty, in order. */
    ghost var wins: seq<Win>

    /** Every leaderboard entry is the best time of the recorded wins of its
        pair, and every pair with a recorded win has an entry. */
    ghost predicate Valid()
      reads this
    {
      && (forall key :: key in leaderboard ==> BestOf(wins, key.0, key.1) == Some(leaderboard[key]))
      && (forall u, d :: BestOf(wins, u, d).Some? ==> (u, d) in leaderboard)
    }

    constructor ()
      ensures Valid() && games == map[] && leaderboard == map[] && wins == []
    {
      games, leaderboard := map[], map[];
      wins := [];
    }

    /** `POST /games`: a new game of the user at the difficulty, in progress
        and without a time, stored under an id the database has not used. */
    method CreateGame(userId: Id, difficulty: Difficulty, id: Id) returns (game: Game)
      requires Valid() && id !in games
      modifies this
      ensures Valid()
      ensures game == Game(userId, difficulty, InProgress, None)
      ensures games == old(games)[id := game]
      ensures leaderboard == old(leaderboard) && wins == old(wins)
    {
      game := Game(userId, difficulty, InProgress, None);
      games := games[id := game];
    }

    /** `PUT /games/:gameId`. An unknown id answers NotFound and changes
        nothing. Otherwise the status is overwritten, the time is stored only
        when truthy, and a win with a truthy time lowers the best time of the
        stored game's (userId, difficulty) to the minimum of the old best and
        the new time, creating the entry if there was none. No other entry
        changes. */
    method UpdateGameStatus(gameId: Id, status: Status, timeTaken: Option<int>) returns (resp: Response)
      requires Valid()
      modifies this
      ensures Valid()
      ensures gameId !in old(games) ==>
        resp == NotFound && games == old(games) && leaderboard == old(leaderboard) && wins == old(wins)
      ensures gameId in old(games) ==>
        var g := old(games)[gameId];
        var saved := g.(status := status, timeTaken := if Truthy(timeTaken) then timeTaken else g.timeTaken);
        resp == Updated(saved) && games == old(games)[gameId := saved]
      ensures gameId in old(games) && Qualifies(status, timeTaken) ==>
        var key := (old(games)[gameId].userId, old(games)[gameId].difficulty);
        var entry := if key in old(leaderboard) then Some(old(leaderboard)[key]) else None;
        && leaderboard == old(leaderboard)[key := BestTimeAfter(entry, timeTaken.value)]
        && wins == old(wins) + [Win(key.0, key.1, timeTaken.value)]
      ensures gameId in old(games) && !Qualifies(status, timeTaken) ==>
        leaderboard == old(leaderboard) && wins == old(wins)
    {
      if gameId !in games {
        return NotFound;
      }
      var game := games[gameId];
      game := game.(status := status);
      if Truthy(timeTaken) {
        game := game.(timeTaken := timeTaken);
      }
      games := games[gameId := game];

      if status == Won && Truthy(timeTaken) {
        var key := (game.userId, game.difficulty);
        var t := timeTaken.value;
        if key in leaderboard {
          if t < leaderboard[key] {
            leaderboard := leaderboard[key := t];
          }
        } else {
          leaderboard := leaderboard[key := t];
        }
        ghost var w := Win(key.0, key.1, t);
        assert (wins + [w])[..|wins|] == wins;
        wins := wins + [w];
      }
      return Updated(game);
    }
  }
}
