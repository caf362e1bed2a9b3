/**
 * The records the front end exchanges with the narrative service (types.ts),
 * the transcript entry kept by App.tsx, and the outcome of one service call.
 */
module GameTypes {
  import opened Wrappers

  /** The three stats; the service is asked for integers, so they are `int`. */
  datatype GameStats = GameStats(motivation: int, authority: int, energy: int)

  /** One structured reply of the narrative service. */
  datatype GameResponse = GameResponse(
    narrative: string,
    stats: GameStats,
    choices: seq<string>,
    gameOver: bool,
    victory: bool,
    reason: Option<string>)

  /** The session status shown by the front end. */
  datatype GameStatus = Idle | Playing | GameOver | Victory

  /** Who produced a transcript entry. */
  datatype Role = User | Model

  /** One transcript entry, `{role, text}`. */
  datatype Entry = Entry(role: Role, text: string)

  /**
   * What an awaited service call delivers to the front end: the parsed reply,
   * or a thrown error (no reply text, unparsable JSON, network failure, or a
   * session that was never started).
   */
  datatype Reply = Ok(response: GameResponse) | Err
}
