/** Whole seconds from milliseconds, as `(int) Math.round((double) ms / 1000)`
    computes them. Java's Math.round is floor(x + 0.5): halves round up,
    towards positive infinity, also for negative x. */
module Rounding {

  const MillisPerSecond: int := 1000

  /** Rounds `ms / 1000` to the nearest integer, halves upwards. The result
      is the unique `s` whose half-open window `[s*1000 - 500, s*1000 + 500)`
      contains `ms`. */
  function RoundMillisToSeconds(ms: int): (s: int)
    ensures s * MillisPerSecond - 500 <= ms < s * MillisPerSecond + 500
  {
    (ms + 500) / MillisPerSecond
  }

  /** The window property determines the rounded value. */
  lemma RoundingIsUnique(ms: int, s: int)
    requires s * MillisPerSecond - 500 <= ms < s * MillisPerSecond + 500
    ensures RoundMillisToSeconds(ms) == s
  {
  }

  /** Half-up at the boundaries: 499 ms is 0 s, 500 ms is 1 s, and a half
      below zero rounds towards zero (Math.round(-0.5) is 0). */
  lemma RoundingIsHalfUp()
    ensures RoundMillisToSeconds(499) == 0
    ensures RoundMillisToSeconds(500) == 1
    ensures RoundMillisToSeconds(1499) == 1
    ensures RoundMillisToSeconds(1500) == 2
    ensures RoundMillisToSeconds(-500) == 0
    ensures RoundMillisToSeconds(-501) == -1
  {
  }
}
