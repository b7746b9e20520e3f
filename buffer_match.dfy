/**
 * The Rust emulator's request recogniser: does the receive queue start with a
 * given byte string?
 */
module BufferMatch {
  import opened Bytes

  /**
   * buffer_match_string: false when the buffer is shorter than the pattern,
   * otherwise true iff every pattern byte equals the buffer byte at its index.
   */
  method BufferMatchString(buffer: seq<byte>, pattern: seq<byte>) returns (r: bool)
    ensures r <==> StartsWith(buffer, pattern)
    ensures |buffer| < |pattern| ==> !r
    ensures pattern == [] ==> r
  {
    if |buffer| < |pattern| {
      return false;
    }
    var i := 0;
    while i < |pattern|
      invariant 0 <= i <= |pattern|
      invariant buffer[..i] == pattern[..i]
    {
      if buffer[i] != pattern[i] {
        assert buffer[..|pattern|][i] != pattern[i];
        return false;
      }
      assert buffer[..i + 1] == buffer[..i] + [buffer[i]];
      assert pattern[..i + 1] == pattern[..i] + [pattern[i]];
      i := i + 1;
    }
    assert pattern[..i] == pattern;
    return true;
  }
}
