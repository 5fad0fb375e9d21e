/** The enumerations of the backend's Game and Leaderboard schemas. */
module Models {

  /** The difficulty tiers a game and a leaderboard entry may carry. */
  datatype Difficulty = Easy | Medium | Hard

  /** The life cycle of a stored game: it starts InProgress and is later
      overwritten with the outcome the client reports. */
  datatype Status = InProgress | Won | Lost
}
