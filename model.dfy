/** The response records of the runs API. */
module Model {
  import opened Http

  /** Whether a leaderboard counts every run or only runs without teleports. */
  datatype RunKind = NUB | PRO

  /** One map-top row: the player, their name if the players row has one, and
      one of their runs. `createdAt` is a Unix timestamp in seconds. */
  datatype MapRun = MapRun(playerId: u64, playerName: Option<string>, ticks: u32, teleports: u32, createdAt: int)
}
