/** The preview-text helper of a room row in the room list. */
module Room {
  import opened Bytes

  /**
   * trimString: cuts `s` down to its first `maxLen` bytes when it is longer.
   * Go's slice expression `s[:maxLen]` panics for a negative bound, so callers
   * must pass a non-negative length.
   */
  function TrimString(s: Bytes, maxLen: int): (r: Bytes)
    requires 0 <= maxLen
    ensures |s| > maxLen ==> r == s[..maxLen]
    ensures |s| <= maxLen ==> r == s
    ensures |r| == if |s| < maxLen then |s| else maxLen
    ensures r <= s
  {
    if |s| > maxLen then s[..maxLen] else s
  }

  /** Trimming twice to the same length is the same as trimming once. */
  lemma TrimIdempotent(s: Bytes, maxLen: int)
    requires 0 <= maxLen
    ensures TrimString(TrimString(s, maxLen), maxLen) == TrimString(s, maxLen)
  {
  }
}
