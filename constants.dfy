/** Game-wide tuning constants (src/common/constants.ts). */
module Constants {
  /** Number of participants that fills a room and starts the game. */
  const PARTICIPANTS_PER_GAME: nat := 2
  /** Scores are clamped here; reaching it eliminates the participant. */
  const DEAD_LIMIT: int := -5
  const NETWORK_DELAY_MS: int := 2000
  const ROUND_TIME_MS: int := 15 * 1000
  const SHORTENED_TIME_MS: int := 5 * 1000

  /** The delays the game engine imports but constants.ts does not define;
      they are configuration, known only to be non-negative. */
  datatype Timing = Timing(
    digestMs: nat,           // DIGEST_TIME_MS
    roundInfoDigestMs: nat,  // ROUND_INFO_DIGEST_TIME_MS
    roundZeroDigestMs: nat,  // ROUND_ZERO_DIGEST_TIME_MS
    amendMs: nat             // SHORTENED_TIME_AMEND_MS
  )
}
