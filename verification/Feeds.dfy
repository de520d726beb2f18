/** Feeds as the refresh code sees them. Times are nanoseconds counted from Go's zero time, so a
    time of 0 is one for which IsZero holds. */
module Feeds {
  const SECOND: int := 1_000_000_000
  const MINUTE: int := 60 * SECOND
  const HOUR: int := 60 * MINUTE
  const DAY: int := 24 * HOUR

  datatype Feed = Feed(
    id: int, url: string, lastFetch: int, lastChecked: int, lastHadNewContent: int,
    averageUpdateInterval: int)   // in seconds; 0 when unknown

  function Max(a: int, b: int): int {
    if a < b then b else a
  }
}
