/** Strings as C has them. */
module CStrings {

  const NUL: char := '\0'

  /** A C string: it cannot hold its own terminator. */
  type CString = s: string | NUL !in s witness ""

  const BACKSLASH: char := '\\'

  /** strlen of the string that starts at `at`. */
  method Strlen(buf: array<char>, at: nat, ghost end: nat) returns (n: nat)
    requires at <= end < buf.Length && buf[end] == NUL
    ensures at + n <= end && buf[at + n] == NUL
    ensures NUL !in buf[at..at + n]
  {
    n := 0;
    while buf[at + n] != NUL
      invariant at + n <= end
      invariant NUL !in buf[at..at + n]
      decreases end - n
    {
      assert buf[at..at + n + 1] == buf[at..at + n] + [buf[at + n]];
      n := n + 1;
    }
  }
}
