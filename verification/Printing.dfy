/** sprintf into a zeroed buffer: every call appends at strlen(buffer). */
module Printing {
  import opened Text

  /** The buffer holds the text and zeroes behind it. */
  ghost predicate Prints(buffer: array<char>, text: string)
    reads buffer
  {
    && NulFree(text)
    && |text| < buffer.Length
    && buffer[..|text|] == text
    && forall k | |text| <= k < buffer.Length :: buffer[k] == NUL
  }

  /** memset(buffer, 0, bufsize) */
  method Zero(buffer: array<char>)
    requires buffer.Length > 0
    modifies buffer
    ensures Prints(buffer, "")
  {
    for i := 0 to buffer.Length
      invariant forall k | 0 <= k < i :: buffer[k] == NUL
    {
      buffer[i] := NUL;
    }
  }

  method StrLen(buffer: array<char>, ghost text: string) returns (n: nat)
    requires Prints(buffer, text)
    ensures n == |text|
  {
    n := 0;
    while buffer[n] != NUL
      invariant n <= |text|
      invariant forall k | 0 <= k < n :: buffer[k] != NUL
      decreases |text| - n
    {
      assert n < |text|;
      n := n + 1;
    }
  }

  /** sprintf(buffer + strlen(buffer), "%s", s) */
  method Print(buffer: array<char>, ghost text: string, s: string)
    requires Prints(buffer, text) && NulFree(s) && |text| + |s| < buffer.Length
    modifies buffer
    ensures Prints(buffer, text + s)
  {
    var at := StrLen(buffer, text);
    for i := 0 to |s|
      invariant buffer[..at] == text
      invariant buffer[at..at + i] == s[..i]
      invariant forall k | at + i <= k < buffer.Length :: buffer[k] == NUL
    {
      buffer[at + i] := s[i];
    }
    assert buffer[..at + |s|] == buffer[..at] + buffer[at..at + |s|];
  }

  /** memcpy(buffer + at, bytes, |bytes|) */
  method CopyBytes(buffer: array<char>, at: nat, bytes: seq<char>)
    requires at + |bytes| <= buffer.Length
    modifies buffer
    ensures buffer[..at + |bytes|] == old(buffer[..at]) + bytes
    ensures buffer[at + |bytes|..] == old(buffer[at + |bytes|..])
  {
    for i := 0 to |bytes|
      invariant buffer[..at] == old(buffer[..at])
      invariant buffer[at..at + i] == bytes[..i]
      invariant buffer[at + |bytes|..] == old(buffer[at + |bytes|..])
    {
      buffer[at + i] := bytes[i];
    }
    assert buffer[..at + |bytes|] == buffer[..at] + buffer[at..at + |bytes|];
  }
}
