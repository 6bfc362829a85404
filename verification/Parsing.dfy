/** What requestParse makes of a text, as a value, and the proof that it undoes printing. */
module Parsing {
  import opened Text
  import opened Tokenizer
  import opened Fields
  import opened Grammar
  import opened Headers

  datatype Message = Message(
    verb: Option<string>, uri: Option<string>, version: Option<string>,
    headers: seq<HeaderText>, body: Option<string>)

  const EMPTY := Message(None, None, None, [], None)

  /** The switch of requestParseLine. */
  function SetStart(m: Message, i: nat, token: string): Message {
    match i
    case 0 => m.(verb := Some(token))
    case 1 => m.(uri := Some(token))
    case 2 => m.(version := Some(token))
    case _ => m
  }

  function WithStart(m: Message, i: nat, ts: seq<string>): Message
    decreases |ts|
  {
    if ts == [] then m else WithStart(SetStart(m, i, ts[0]), i + 1, ts[1..])
  }

  /** Name: the first token without its colon. Value: the line from its second token on. */
  function HeaderOf(line: string): HeaderText
    requires HeaderLine(line)
  {
    var t := Tokens(line)[0];
    HeaderText(t[..|t| - 1], FromSecondToken(line))
  }

  function Absorb(m: Message, line: string): Message {
    if RequestLine(line) then WithStart(m, 0, Tokens(line))
    else if HeaderLine(line) then m.(headers := m.headers + [HeaderOf(line)])
    else m
  }

  function AbsorbAll(m: Message, lines: seq<string>): Message
    decreases |lines|
  {
    if lines == [] then m else AbsorbAll(Absorb(m, lines[0]), lines[1..])
  }

  /** The text requestSetBody stores: what is left when readField stops, minus two characters
      if a CRLF occurs anywhere in it. */
  function BodyText(data: string): string {
    if CrlfFree(Rest(data)) then Rest(data) else Rest(data)[2..]
  }

  function ParsedFrom(m: Message, data: string): Message {
    var parsed := AbsorbAll(m, Lines(data));
    if BodyText(data) == "" then parsed else parsed.(body := Some(BodyText(data)))
  }

  function Parsed(data: string): Message {
    ParsedFrom(EMPTY, data)
  }

  /** The lines on which the source's strtok results are never NULL where it uses them. */
  predicate SafeLine(line: string) {
    Tokens(line) != [] && (HeaderLine(line) ==> |Tokens(line)| >= 2)
  }

  predicate SafeData(data: string) {
    forall line | line in Lines(data) :: SafeLine(line)
  }

  function StartLines(lines: seq<string>): nat {
    if lines == [] then 0
    else (if RequestLine(lines[0]) then 1 else 0) + StartLines(lines[1..])
  }

  // ---------------------------------------------------------------- what each line does

  lemma WithStartExact(m: Message, ts: seq<string>)
    requires |ts| <= 3
    ensures WithStart(m, 0, ts) ==
            m.(verb := if |ts| > 0 then Some(ts[0]) else m.verb,
               uri := if |ts| > 1 then Some(ts[1]) else m.uri,
               version := if |ts| > 2 then Some(ts[2]) else m.version)
  {
    if |ts| > 0 {
      var m1, t1 := m.(verb := Some(ts[0])), ts[1..];
      assert WithStart(m, 0, ts) == WithStart(m1, 1, t1);
      if |ts| > 1 {
        var m2, t2 := m1.(uri := Some(ts[1])), t1[1..];
        assert WithStart(m1, 1, t1) == WithStart(m2, 2, t2);
        assert |ts| > 2 ==> WithStart(m2, 2, t2) == WithStart(m2.(version := Some(ts[2])), 3, t2[1..]);
      }
    }
  }

  /** A request line sets method, URI and version from its first, second and third token, as far
      as it has them, and nothing else. */
  lemma StartLineSets(m: Message, line: string)
    requires RequestLine(line)
    ensures var ts := Tokens(line);
            Absorb(m, line) ==
            m.(verb := if |ts| > 0 then Some(ts[0]) else m.verb,
               uri := if |ts| > 1 then Some(ts[1]) else m.uri,
               version := if |ts| > 2 then Some(ts[2]) else m.version)
  {
    hide Tokens, WithStart, RequestLine, HeaderLine, IsHttpVersion;
    RequestLineExact(line);
    WithStartExact(m, Tokens(line));
  }

  /** A header line adds its name and the text from its value on, whatever the two gaps are,
      behind the headers that are there, and changes nothing else. */
  lemma HeaderLineAdds(m: Message, gap: string, name: string, between: string, value: string)
    requires forall k | 0 <= k < |gap| :: gap[k] == ' '
    requires forall k | 0 <= k < |name| :: NameChar(name[k])
    requires between != "" && forall k | 0 <= k < |between| :: between[k] == ' '
    requires value != "" && value[0] != ' '
    ensures var line := gap + (name + ":" + (between + value));
            && HeaderLine(line) && !RequestLine(line)
            && Absorb(m, line) == m.(headers := m.headers + [HeaderText(name, value)])
  {
    var t, tail := name + ":", between + value;
    var line := gap + (t + tail);
    assert AllSpaces(gap) && AllSpaces(between) && NameChars(name);
    hide Tokens, RequestLine, NameChars, FromSecondToken;
    NameIsToken(name);
    assert tail[0] == ' ';
    TokensOfWord(t, tail);
    TokensOfGap(gap, t + tail);
    assert t[..|t| - 1] == name;
    Exclusive(line);
    SecondTokenAt(gap, t, between, value);
  }

  lemma SecondTokenAt(gap: string, t: string, between: string, value: string)
    requires AllSpaces(gap) && IsToken(t) && between != "" && AllSpaces(between)
    requires value != "" && value[0] != ' '
    ensures FromSecondToken(gap + (t + (between + value))) == value
  {
    var tail := between + value;
    TrimGap(gap, t + tail);
    assert t[0] in t;
    assert Trim(t + tail) == t + tail;
    WordLengthOf(t, tail);
    assert (t + tail)[|t|..] == tail;
    TrimGap(between, value);
  }

  lemma {:induction false} AbsorbConcat(m: Message, a: seq<string>, b: seq<string>)
    ensures AbsorbAll(m, a + b) == AbsorbAll(AbsorbAll(m, a), b)
    decreases |a|
  {
    hide Absorb;
    if a == [] {
      assert a + b == b;
    } else {
      assert (a + b)[1..] == a[1..] + b;
      AbsorbConcat(Absorb(m, a[0]), a[1..], b);
    }
  }

  /** A line that is neither changes nothing, wherever it stands. */
  lemma OtherLineIgnored(m: Message, a: seq<string>, line: string, b: seq<string>)
    requires !RequestLine(line) && !HeaderLine(line)
    ensures AbsorbAll(m, a + [line] + b) == AbsorbAll(m, a + b)
  {
    hide RequestLine, HeaderLine;
    AbsorbConcat(m, a + [line], b);
    AbsorbConcat(m, a, [line]);
    AbsorbConcat(m, a, b);
    assert AbsorbAll(AbsorbAll(m, a), [line]) == AbsorbAll(m, a);
  }

  /** The lines that are request lines or header lines. */
  function Recognized(lines: seq<string>): seq<string> {
    if lines == [] then []
    else
      (if RequestLine(lines[0]) || HeaderLine(lines[0]) then [lines[0]] else [])
      + Recognized(lines[1..])
  }

  lemma {:induction false} RecognizedDecide(m: Message, lines: seq<string>)
    ensures AbsorbAll(m, lines) == AbsorbAll(m, Recognized(lines))
    decreases |lines|
  {
    hide RequestLine, HeaderLine, HeaderOf, WithStart;
    if lines != [] {
      RecognizedDecide(Absorb(m, lines[0]), lines[1..]);
      var rest := Recognized(lines[1..]);
      assert ([lines[0]] + rest)[1..] == rest && [] + rest == rest;
    }
  }

  // ---------------------------------------------------------------- what a parse overwrites

  /** The tokens of all request lines. Each of them is copied. */
  function StartTokens(lines: seq<string>): nat {
    if lines == [] then 0
    else (if RequestLine(lines[0]) then |Tokens(lines[0])| else 0) + StartTokens(lines[1..])
  }

  function One<T>(field: Option<T>): nat {
    if field.Some? then 1 else 0
  }

  /** How many of the three fields of a request line are set. */
  function Held(m: Message): nat {
    One(m.verb) + One(m.uri) + One(m.version)
  }

  /** The copies no field holds in the end. */
  function Leak(lines: seq<string>): nat {
    HeldAtMost(EMPTY, lines);
    StartTokens(lines) - Held(AbsorbAll(EMPTY, lines))
  }

  /** A request line sets as many fields as it has tokens, and gains at most that. */
  lemma HeldAbsorbed(m: Message, line: string)
    ensures RequestLine(line) ==> Held(Absorb(m, line)) <= Held(m) + |Tokens(line)|
    ensures RequestLine(line) && Tokens(line) != [] ==>
              && Absorb(m, line).verb.Some?
              && Held(Absorb(m, line)) <= Held(m) + |Tokens(line)| - One(m.verb)
    ensures RequestLine(line) && Held(m) == 0 ==> Held(Absorb(m, line)) == |Tokens(line)|
    ensures !RequestLine(line) ==> Held(Absorb(m, line)) == Held(m) && Absorb(m, line).verb == m.verb
  {
    hide Tokens, WithStart, RequestLine, HeaderLine, HeaderOf, IsHttpVersion, Absorb;
    RequestLineExact(line);
    if RequestLine(line) {
      StartLineSets(m, line);
    } else {
      OtherLineKeepsFields(m, line);
    }
  }

  lemma OtherLineKeepsFields(m: Message, line: string)
    requires !RequestLine(line)
    ensures Absorb(m, line) == m.(headers := Absorb(m, line).headers)
  {
  }

  lemma {:induction false} HeldAtMost(m: Message, lines: seq<string>)
    ensures Held(AbsorbAll(m, lines)) <= Held(m) + StartTokens(lines)
    decreases |lines|
  {
    hide Tokens, RequestLine, Absorb, Held;
    if lines != [] {
      HeldAbsorbed(m, lines[0]);
      HeldAtMost(Absorb(m, lines[0]), lines[1..]);
    }
  }

  /** Once there is a method, every further request line loses a copy. */
  lemma {:induction false} HeldFurther(m: Message, lines: seq<string>)
    requires m.verb.Some? && forall line | line in lines :: Tokens(line) != []
    ensures Held(AbsorbAll(m, lines)) == Held(m) + StartTokens(lines) <==> StartLines(lines) == 0
    decreases |lines|
  {
    hide Tokens, RequestLine, Absorb, Held;
    if lines != [] {
      HeldAbsorbed(m, lines[0]);
      HeldAtMost(Absorb(m, lines[0]), lines[1..]);
      if !RequestLine(lines[0]) {
        HeldFurther(Absorb(m, lines[0]), lines[1..]);
      }
    }
  }

  lemma {:induction false} HeldExact(m: Message, lines: seq<string>)
    requires Held(m) == 0 && forall line | line in lines :: Tokens(line) != []
    ensures Held(AbsorbAll(m, lines)) == StartTokens(lines) <==> StartLines(lines) <= 1
    decreases |lines|
  {
    hide Tokens, RequestLine, Absorb, Held;
    if lines != [] {
      HeldAbsorbed(m, lines[0]);
      if RequestLine(lines[0]) {
        HeldFurther(Absorb(m, lines[0]), lines[1..]);
      } else {
        HeldExact(Absorb(m, lines[0]), lines[1..]);
      }
    }
  }

  /** Nothing is lost exactly if there is at most one request line. */
  lemma LeakExact(lines: seq<string>)
    requires forall line | line in lines :: Tokens(line) != []
    ensures Leak(lines) == 0 <==> StartLines(lines) <= 1
  {
    hide Tokens, RequestLine, AbsorbAll;
    HeldExact(EMPTY, lines);
  }

  // ---------------------------------------------------------------- where the body starts

  /** Whatever follows the blank line, CRLFs and header look-alikes included, is body: it
      neither adds a line nor loses a character. */
  lemma BodyBehindBlankLine(lines: seq<string>, body: string)
    requires forall line | line in lines :: IsLine(line)
    ensures Lines(Joined(lines) + CRLF + body) == lines
    ensures BodyText(Joined(lines) + CRLF + body) == body
  {
    hide ReadField;
    BlankLineStops(body);
    LinesUnique(lines, CRLF + body);
    assert Joined(lines) + CRLF + body == Joined(lines) + (CRLF + body);
    assert CrlfAt(CRLF + body, 0);
    assert (CRLF + body)[2..] == body;
  }

  /** The stored body is what follows the blank line exactly when the line loop stopped at
      one. Otherwise it is an unfinished last line, or an overlong line less two characters. */
  lemma BodyTextExact(data: string)
    ensures data == Joined(Lines(data)) + CRLF + BodyText(data) <==> CrlfAt(Rest(data), 0)
    ensures !CrlfAt(Rest(data), 0) ==>
              (CrlfFree(Rest(data)) && data == Joined(Lines(data)) + BodyText(data))
              || (FirstCrlf(Rest(data)) >= 8192 && data == Joined(Lines(data)) + Rest(data)[..2] + BodyText(data))
  {
    hide Lines, Rest, Joined;
    LinesDecompose(data);
    var rest, front := Rest(data), Joined(Lines(data));
    assert data[|front|..] == rest;
    if CrlfFree(rest) {
      assert |front + CRLF + rest| != |data|;
    } else {
      TakeDrop(rest, 2);
      assert rest[..2] == CRLF <==> CrlfAt(rest, 0);
      assert data == front + rest[..2] + rest[2..];
      assert |front| + 2 <= |data| && data[|front|..][..2] == rest[..2];
      if data == front + CRLF + rest[2..] {
        assert data[|front|..] == CRLF + rest[2..];
      }
    }
  }

  /** The second case, for every unfinished last line ... */
  lemma UnfinishedLineIsBody(lines: seq<string>, rest: string)
    requires forall line | line in lines :: IsLine(line)
    requires rest != "" && CrlfFree(rest)
    ensures Parsed(Joined(lines) + rest).body == Some(rest)
  {
    LinesUnique(lines, rest);
    hide Lines, Rest, Joined, AbsorbAll;
  }

  /** ... and an input that shows it: the header line lacks its CRLF and becomes the body. */
  lemma UnfinishedHeaderIsBody()
    ensures Parsed("GET / HTTP/1.1" + CRLF + "Host:").body == Some("Host:")
  {
    var line := "GET / HTTP/1.1";
    assert IsLine(line) && CrlfFree("Host:");
    UnfinishedLineIsBody([line], "Host:");
    JoinedOne(line);
    hide IsLine, Parsed;
  }

  /** The third case, for every line too long for the field buffer ... */
  lemma OverlongLineIsBody(lines: seq<string>, line: string, rest: string)
    requires forall l | l in lines :: IsLine(l)
    requires CrlfFree(line) && |line| >= 8192
    ensures BodyText(Joined(lines) + (line + CRLF + rest)) == (line + CRLF + rest)[2..]
  {
    FirstCrlfAfter(line, rest);
    assert CrlfAt(line + CRLF + rest, |line|);
    LinesUnique(lines, line + CRLF + rest);
    hide Lines, Joined;
  }

  /** ... and an input that shows it: of a line of 8192 characters and its CRLF, 8192
      characters are stored. */
  lemma OverlongHeaderLosesTwo()
    ensures var line := seq(8192, _ => 'a');
            Parsed("GET / HTTP/1.1" + CRLF + (line + CRLF)).body == Some(line[2..] + CRLF)
  {
    var start, line := "GET / HTTP/1.1", seq(8192, _ => 'a');
    assert IsLine(start) && CrlfFree(line);
    OverlongLineIsBody([start], line, "");
    JoinedOne(start);
    hide IsLine, CrlfFree, BodyText, AbsorbAll, Lines;
    assert line + CRLF + "" == line + CRLF;
    assert (line + CRLF)[2..] == line[2..] + CRLF;
  }

  lemma JoinedOne(line: string)
    ensures Joined([line]) == line + CRLF
  {
    assert [line][1..] == [];
  }
}
