/** readField and the way repeated calls of it cut a message into lines. */
module Fields {
  import opened Text

  const FIELD_MAX: nat := 8192

  datatype Cut = Cut(line: string, rest: string)

  /** One readField on the text s with a buffer of the given size. */
  function ReadField(s: string, size: nat): (r: Option<Cut>)
    ensures r.Some? ==> s == r.value.line + CRLF + r.value.rest
    ensures r.Some? ==> CrlfFree(r.value.line) && 0 < |r.value.line| < size
    ensures r.None? ==> (CrlfFree(s) || FirstCrlf(s) == 0 || FirstCrlf(s) >= size)
  {
    var end := FirstCrlf(s);
    if end == |s| || end == 0 || end >= size then
      None
    else
      assert s == s[..end] + CRLF + s[end + 2..];
      assert forall k: nat :: k < end ==> CrlfAt(s[..end], k) ==> CrlfAt(s, k);
      Some(Cut(s[..end], s[end + 2..]))
  }

  /** The lines repeated readField calls deliver. */
  function Lines(s: string): seq<string>
    decreases |s|
  {
    match ReadField(s, FIELD_MAX)
    case None => []
    case Some(cut) => [cut.line] + Lines(cut.rest)
  }

  /** What is left where they stop. */
  function Rest(s: string): string
    decreases |s|
  {
    match ReadField(s, FIELD_MAX)
    case None => s
    case Some(cut) => Rest(cut.rest)
  }

  /** The offset at which they stop. */
  function Stop(s: string): nat
    decreases |s|
  {
    match ReadField(s, FIELD_MAX)
    case None => 0
    case Some(cut) => |cut.line| + |CRLF| + Stop(cut.rest)
  }

  lemma {:induction false} StopLeavesRest(s: string)
    ensures Stop(s) <= |s| && s[Stop(s)..] == Rest(s)
    decreases |s|
  {
    match ReadField(s, FIELD_MAX)
    case None =>
    case Some(cut) =>
      StopLeavesRest(cut.rest);
      hide ReadField;
      var n := |cut.line| + |CRLF|;
      assert s[n..] == cut.rest;
      assert s[n..][Stop(cut.rest)..] == s[n + Stop(cut.rest)..];
  }

  predicate IsLine(line: string) {
    0 < |line| < FIELD_MAX && CrlfFree(line)
  }

  function Joined(lines: seq<string>): string {
    if lines == [] then "" else lines[0] + CRLF + Joined(lines[1..])
  }

  lemma ReadFieldOf(line: string, rest: string, size: nat)
    requires 0 < |line| < size && CrlfFree(line)
    ensures ReadField(line + CRLF + rest, size) == Some(Cut(line, rest))
  {
    FirstCrlfAfter(line, rest);
    var s := line + CRLF + rest;
    assert s[..|line|] == line && s[|line| + 2..] == rest;
  }

  lemma {:induction false} LinesSplit(s: string)
    ensures s == Joined(Lines(s)) + Rest(s)
    ensures forall line | line in Lines(s) :: IsLine(line)
    ensures ReadField(Rest(s), FIELD_MAX) == None
    decreases |s|
  {
    hide ReadField, IsLine;
    match ReadField(s, FIELD_MAX)
    case None =>
    case Some(cut) =>
      LinesSplit(cut.rest);
      CutIsLine(s, cut);
      assert Lines(s)[1..] == Lines(cut.rest);
      assert s == cut.line + CRLF + (Joined(Lines(cut.rest)) + Rest(cut.rest));
  }

  lemma CutIsLine(s: string, cut: Cut)
    requires ReadField(s, FIELD_MAX) == Some(cut)
    ensures IsLine(cut.line)
  {
  }

  /** Every text splits into lines and a rest on which readField fails ... */
  lemma LinesDecompose(s: string)
    ensures s == Joined(Lines(s)) + Rest(s)
    ensures forall line | line in Lines(s) :: IsLine(line) && 0 < |line| < 8192 && CrlfFree(line)
    ensures ReadField(Rest(s), 8192) == None
  {
    hide Lines, Rest, Joined, ReadField, CrlfFree;
    LinesSplit(s);
  }

  /** ... and in one way only. */
  lemma {:induction false} LinesUnique(lines: seq<string>, rest: string)
    requires forall line | line in lines :: 0 < |line| < 8192 && CrlfFree(line)
    requires ReadField(rest, 8192) == None
    ensures Lines(Joined(lines) + rest) == lines
    ensures Rest(Joined(lines) + rest) == rest
  {
    if lines == [] {
      assert Joined(lines) + rest == rest;
    } else {
      var tail := Joined(lines[1..]) + rest;
      assert Joined(lines) + rest == lines[0] + CRLF + tail;
      assert lines[0] in lines;
      ReadFieldOf(lines[0], tail, FIELD_MAX);
      LinesUnique(lines[1..], rest);
    }
  }

  lemma BlankLineStops(body: string)
    ensures ReadField(CRLF + body, FIELD_MAX) == None
  {
    assert CRLF + body == "" + CRLF + body;
    FirstCrlfAfter("", body);
  }

  /** readField(buffer, data + offset, bufsize): fills the caller's buffer and returns the
      position behind the CRLF, or None for NULL, in which case the buffer is untouched. */
  method ReadFieldInto(buffer: array<char>, data: string, offset: nat, bufsize: nat)
    returns (next: Option<nat>)
    requires offset <= |data| && NulFree(data)
    requires bufsize <= buffer.Length
    modifies buffer
    ensures next.Some? <==> ReadField(data[offset..], bufsize).Some?
    ensures next.None? ==> buffer[..] == old(buffer[..])
    ensures next.Some? ==>
              var cut := ReadField(data[offset..], bufsize).value;
              offset < next.value <= |data| && data[next.value..] == cut.rest && CString(buffer[..]) == cut.line
  {
    var end := FirstCrlf(data[offset..]);
    if end < |data| - offset {
      if end == 0 || end >= bufsize {
        return None;
      }
      for i := 0 to end
        invariant buffer[..i] == data[offset..][..i]
      {
        buffer[i] := data[offset + i];
      }
      buffer[end] := NUL;
      CStringOf(data[offset..][..end], buffer[end..]);
      assert buffer[..] == data[offset..][..end] + buffer[end..];
      return Some(offset + end + |CRLF|);
    }
    return None;
  }
}
