/** Putting into and taking out of sequences. */
module Sequences {
  /** s with x put in at place k. */
  function Inserted<T>(s: seq<T>, k: int, x: T): seq<T> {
    if 0 <= k <= |s| then s[..k] + [x] + s[k..] else s
  }

  /** s without what was at place k. */
  function Removed<T>(s: seq<T>, k: int): seq<T> {
    if 0 <= k < |s| then s[..k] + s[k + 1..] else s
  }
}
