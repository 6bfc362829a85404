/** Printing a request and parsing it again. */
module RoundTrip {
  import opened Text
  import opened Tokenizer
  import opened Fields
  import opened Grammar
  import opened Headers
  import opened Parsing

  function StartLineText(verb: string, uri: string, version: string): string {
    verb + (" " + (uri + (" " + version)))
  }

  function PrintedRequest(verb: string, uri: string, version: string, hs: seq<HeaderText>, body: string): string {
    Joined([StartLineText(verb, uri, version)] + HeaderLines(hs)) + CRLF + body
  }

  predicate Printable(h: HeaderText) {
    && NameChars(h.name)
    && h.value != "" && h.value[0] != ' ' && CrlfFree(h.value)
    && |HeaderLineText(h)| < FIELD_MAX
  }

  predicate PrintableStart(verb: string, uri: string, version: string) {
    && verb in METHODS
    && IsToken(uri) && CrlfFree(uri)
    && IsHttpVersion(version)
    && |StartLineText(verb, uri, version)| < FIELD_MAX
  }

  /** What can be printed as a start line ... */
  lemma PrintableStartExact(verb: string, uri: string, version: string)
    ensures PrintableStart(verb, uri, version) <==>
            && (verb == "GET" || verb == "HEAD" || verb == "POST" || verb == "PUT" || verb == "DELETE"
                || verb == "CONNECT" || verb == "OPTIONS" || verb == "TRACE" || verb == "PATCH")
            && uri != "" && ' ' !in uri && CrlfFree(uri)
            && |version| == 8 && version[..5] == "HTTP/"
            && '0' <= version[5] <= '9' && version[6] == '.' && '0' <= version[7] <= '9'
            && |verb| + 1 + |uri| + 1 + 8 < 8192
  {
    MethodsExact(verb);
    VersionExact(version);
    hide METHODS, IsHttpVersion, CrlfFree;
  }

  /** ... and as a header. */
  lemma PrintableExact(h: HeaderText)
    ensures Printable(h) <==>
            && (forall k | 0 <= k < |h.name| :: NameChar(h.name[k]))
            && h.value != "" && h.value[0] != ' ' && CrlfFree(h.value)
            && |h.name| + 2 + |h.value| < 8192
  {
    hide NameChar, CrlfFree;
  }

  // ---------------------------------------------------------------- CRLF-free lines

  lemma CrlfFreeConcat(a: string, b: string)
    requires CrlfFree(a) && CrlfFree(b)
    requires a == "" || b == "" || a[|a| - 1] != '\r' || b[0] != '\n'
    ensures CrlfFree(a + b)
  {
    var s := a + b;
    forall k: nat | k < |s|
      ensures !CrlfAt(s, k)
    {
      if k < |a| {
        assert !CrlfAt(a, k);
      } else {
        assert !CrlfAt(b, k - |a|);
      }
    }
  }

  lemma NameIsPlain(name: string)
    requires NameChars(name)
    ensures CrlfFree(name + ":") && IsToken(name + ":")
  {
    NameIsToken(name);
    var t := name + ":";
    forall i | 0 <= i < |t|
      ensures t[i] != '\r'
    {
      assert i < |name| ==> NameChar(name[i]);
    }
  }

  // ---------------------------------------------------------------- single lines

  lemma HeaderLineParsed(h: HeaderText)
    requires Printable(h)
    ensures HeaderLine(HeaderLineText(h)) && HeaderOf(HeaderLineText(h)) == h
    ensures SafeLine(HeaderLineText(h)) && IsLine(HeaderLineText(h))
    ensures !RequestLine(HeaderLineText(h))
  {
    hide Tokens, WordLength, NameChars, RequestLine, CrlfFree, IsToken;
    var t, tail, line := h.name + ":", " " + h.value, HeaderLineText(h);
    NameIsPlain(h.name);
    TailParsed(h.value);
    TokensOfWord(t, tail);
    assert t[..|t| - 1] == h.name;
    FirstToken(t, tail);
    CrlfFreeConcat(t, tail);
    Exclusive(line);
  }

  lemma TailParsed(value: string)
    requires value != "" && value[0] != ' ' && CrlfFree(value)
    ensures Trim(" " + value) == value
    ensures Tokens(" " + value) != []
    ensures CrlfFree(" " + value)
  {
    TrimGap(" ", value);
    CrlfFreeConcat(" ", value);
  }

  lemma FirstToken(t: string, tail: string)
    requires IsToken(t) && tail != "" && tail[0] == ' '
    ensures FromSecondToken(t + tail) == Trim(tail)
  {
    hide Tokens;
    WordLengthOf(t, tail);
    assert t[0] in t;
    assert Trim(t + tail) == t + tail;
    assert (t + tail)[|t|..] == tail;
  }

  lemma StartLineParsed(verb: string, uri: string, version: string)
    requires IsToken(verb) && IsToken(uri) && IsToken(version)
    ensures Tokens(StartLineText(verb, uri, version)) == [verb, uri, version]
  {
    hide Tokens;
    TokensOfWord(verb, " " + (uri + (" " + version)));
    TokensOfGap(" ", uri + (" " + version));
    TokensOfWord(uri, " " + version);
    TokensOfGap(" ", version);
    TokensOfWord(version, "");
    assert version + "" == version;
    NoTokens();
  }

  lemma MethodIsPlain(m: string)
    requires m in METHODS
    ensures IsToken(m) && CrlfFree(m)
  {
    var i :| 0 <= i < |METHODS| && METHODS[i] == m;
    assert i == 0 || i == 1 || i == 2 || i == 3 || i == 4 || i == 5 || i == 6 || i == 7 || i == 8;
  }

  lemma VersionIsPlain(v: string)
    requires IsHttpVersion(v)
    ensures IsToken(v) && CrlfFree(v)
  {
    VersionExact(v);
    assert v == ['H', 'T', 'T', 'P', '/', v[5], v[6], v[7]] by {
      assert forall i | 0 <= i < 5 :: v[i] == v[..5][i];
    }
  }

  lemma StartLineIsLine(verb: string, uri: string, version: string)
    requires PrintableStart(verb, uri, version)
    ensures IsLine(StartLineText(verb, uri, version)) && IsToken(verb) && IsToken(version)
  {
    hide IsHttpVersion, IsToken, CrlfFree;
    MethodIsPlain(verb);
    VersionIsPlain(version);
    SpaceIsPlain();
    CrlfFreeConcat(" ", version);
    CrlfFreeConcat(uri, " " + version);
    CrlfFreeConcat(" ", uri + (" " + version));
    CrlfFreeConcat(verb, " " + (uri + (" " + version)));
  }

  lemma SpaceIsPlain()
    ensures CrlfFree(" ")
  {
  }

  lemma StartLineAbsorbed(m: Message, verb: string, uri: string, version: string)
    requires PrintableStart(verb, uri, version)
    ensures var line := StartLineText(verb, uri, version);
            && IsLine(line) && SafeLine(line) && RequestLine(line)
            && Absorb(m, line) == m.(verb := Some(verb), uri := Some(uri), version := Some(version))
  {
    hide Tokens, IsHttpVersion, IsToken, RequestLine, IsLine, HeaderLine, StartLineText;
    var line, ts := StartLineText(verb, uri, version), [verb, uri, version];
    StartLineIsLine(verb, uri, version);
    StartLineParsed(verb, uri, version);
    RequestLineExact(line);
    WithStartExact(m, ts);
  }

  // ---------------------------------------------------------------- whole messages

  lemma HeaderLineAbsorbed(h: HeaderText, m: Message)
    requires Printable(h)
    ensures Absorb(m, HeaderLineText(h)) == m.(headers := m.headers + [h])
    ensures IsLine(HeaderLineText(h)) && SafeLine(HeaderLineText(h)) && !RequestLine(HeaderLineText(h))
  {
    hide Tokens, RequestLine, HeaderLine, HeaderOf, HeaderLineText, IsLine, SafeLine;
    HeaderLineParsed(h);
  }

  lemma {:induction false} HeaderLinesGood(hs: seq<HeaderText>)
    requires forall h | h in hs :: Printable(h)
    ensures forall line | line in HeaderLines(hs) :: IsLine(line) && SafeLine(line)
    ensures StartLines(HeaderLines(hs)) == 0
  {
    hide Printable, IsLine, SafeLine, RequestLine, Absorb, HeaderLineText;
    if hs != [] {
      assert hs[0] in hs;
      HeaderLineAbsorbed(hs[0], EMPTY);
      HeaderLinesGood(hs[1..]);
      assert HeaderLines(hs)[1..] == HeaderLines(hs[1..]);
    }
  }

  lemma {:induction false} HeaderLinesParsed(hs: seq<HeaderText>, m: Message)
    requires forall h | h in hs :: Printable(h)
    ensures AbsorbAll(m, HeaderLines(hs)) == m.(headers := m.headers + hs)
    decreases |hs|
  {
    hide Printable, Absorb, HeaderLineText;
    if hs == [] {
      assert m.headers + hs == m.headers;
    } else {
      assert hs[0] in hs;
      HeaderLineAbsorbed(hs[0], m);
      HeaderLinesParsed(hs[1..], m.(headers := m.headers + [hs[0]]));
      HeadTail(m.headers, hs);
      assert HeaderLines(hs)[1..] == HeaderLines(hs[1..]);
    }
  }

  lemma HeadTail<T>(a: seq<T>, b: seq<T>)
    requires b != []
    ensures a + [b[0]] + b[1..] == a + b
  {
  }

  /** Parsing undoes printing: same method, URI, version, header list in order and body,
      and the text is one the parser accepts, with one request line. */
  lemma RequestRoundTrip(verb: string, uri: string, version: string, hs: seq<HeaderText>, body: string)
    requires PrintableStart(verb, uri, version)
    requires forall h | h in hs :: Printable(h)
    ensures var text := PrintedRequest(verb, uri, version, hs, body);
            && ValidRequest(text) && SafeData(text) && StartLines(Lines(text)) == 1
            && Parsed(text) ==
               Message(Some(verb), Some(uri), Some(version), hs, if body == "" then None else Some(body))
  {
    hide IsLine, SafeLine, RequestLine, HeaderLine, Printable, PrintableStart, Joined, Lines, BodyText, Absorb;
    var start := StartLineText(verb, uri, version);
    var lines := [start] + HeaderLines(hs);
    StartLineAbsorbed(EMPTY, verb, uri, version);
    HeaderLinesGood(hs);
    HeaderLinesParsed(hs, Message(Some(verb), Some(uri), Some(version), [], None));
    BodyBehindBlankLine(lines, body);
    assert lines[1..] == HeaderLines(hs);
  }

  lemma {:induction false} OthersSafe(lines: seq<string>)
    requires forall line | line in Recognized(lines) :: SafeLine(line)
    requires forall line | line in lines :: Tokens(line) != []
    ensures forall line | line in lines :: SafeLine(line)
  {
    hide Tokens, RequestLine, HeaderLine;
    if lines != [] {
      assert forall line | line in Recognized(lines[1..]) :: line in Recognized(lines);
      OthersSafe(lines[1..]);
      assert lines[0] in lines;
      assert HeaderLine(lines[0]) ==> Recognized(lines)[0] == lines[0];
      assert forall line | line in lines :: line == lines[0] || line in lines[1..];
    }
  }

  /** With lines between the headers that are neither request lines nor headers, the same message
      is parsed as without them, and the source reads through no NULL if each has a token. */
  lemma RoundTripAmongOthers(verb: string, uri: string, version: string, lines: seq<string>, hs: seq<HeaderText>,
                             body: string)
    requires PrintableStart(verb, uri, version) && forall h | h in hs :: Printable(h)
    requires forall line | line in lines :: IsLine(line)
    requires Recognized(lines) == HeaderLines(hs)
    ensures var text := Joined([StartLineText(verb, uri, version)] + lines) + CRLF + body;
            && ValidRequest(text)
            && ((forall line | line in lines :: Tokens(line) != []) ==> SafeData(text))
            && Parsed(text) ==
               Message(Some(verb), Some(uri), Some(version), hs, if body == "" then None else Some(body))
  {
    hide IsLine, SafeLine, RequestLine, HeaderLine, Printable, PrintableStart, Joined, Lines, BodyText, Absorb;
    hide Tokens, Recognized;
    HeaderLinesGood(hs);
    if forall line | line in lines :: Tokens(line) != [] {
      OthersSafe(lines);
    }
    var start := StartLineText(verb, uri, version);
    var first := Message(Some(verb), Some(uri), Some(version), [], None);
    StartLineAbsorbed(EMPTY, verb, uri, version);
    HeaderLinesParsed(hs, first);
    RecognizedDecide(first, lines);
    BodyBehindBlankLine([start] + lines, body);
    assert ([start] + lines)[1..] == lines;
  }

  /** The plainest request there is, and one with a header and a line that is none. */
  lemma PlainRequestParsed(rest: string)
    ensures PrintableStart("GET", "/", "HTTP/1.1") && ValidRequest("GET / HTTP/1.1" + CRLF + rest)
  {
    PlainStart();
    StartLineAbsorbed(EMPTY, "GET", "/", "HTTP/1.1");
    hide RequestLine;
    ReadFieldOf("GET / HTTP/1.1", rest, FIELD_MAX);
  }

  lemma PlainStart()
    ensures StartLineText("GET", "/", "HTTP/1.1") == "GET / HTTP/1.1"
    ensures PrintableStart("GET", "/", "HTTP/1.1")
  {
    MethodsExact("GET");
    VersionExact("HTTP/1.1");
    hide METHODS, IsHttpVersion;
  }

  lemma BadLineIgnored()
    ensures Parsed("GET / HTTP/1.1" + CRLF + ("Host: a" + CRLF) + ("bad" + CRLF) + CRLF) ==
            Message(Some("GET"), Some("/"), Some("HTTP/1.1"), [HeaderText("Host", "a")], None)
  {
    PlainStart();
    MethodsExact("bad");
    HostPrintable();
    assert IsLine("bad") && IsToken("bad");
    hide *;
    BadLineBehind("GET", "/", "HTTP/1.1", HeaderText("Host", "a"), "bad");
    assert HeaderLineText(HeaderText("Host", "a")) == "Host: a" by {
      HostText();
    }
  }

  lemma HostText()
    ensures HeaderLineText(HeaderText("Host", "a")) == "Host: a"
  {
  }

  lemma BadLineBehind(verb: string, uri: string, version: string, h: HeaderText, bad: string)
    requires PrintableStart(verb, uri, version) && Printable(h)
    requires IsLine(bad) && IsToken(bad) && bad !in METHODS && bad[|bad| - 1] != ':'
    ensures Parsed(StartLineText(verb, uri, version) + CRLF + (HeaderLineText(h) + CRLF) + (bad + CRLF) + CRLF) ==
            Message(Some(verb), Some(uri), Some(version), [h], None)
  {
    hide *;
    var start, header := StartLineText(verb, uri, version), HeaderLineText(h);
    BadLine(bad);
    HeaderLineParsed(h);
    RecognizedFirst(header, bad);
    JoinedThree(start, header, bad);
    OneHeaderLine(h);
    RoundTripAmongOthers(verb, uri, version, [header, bad], [h], "");
  }

  lemma OneHeaderLine(h: HeaderText)
    ensures HeaderLines([h]) == [HeaderLineText(h)]
  {
    assert [h][1..] == [];
  }

  lemma RecognizedFirst(header: string, bad: string)
    requires HeaderLine(header) && !RequestLine(bad) && !HeaderLine(bad)
    ensures Recognized([header, bad]) == [header]
  {
    hide RequestLine, HeaderLine;
    assert [header, bad][1..] == [bad] && [bad][1..] == [];
    assert Recognized([bad]) == [];
  }

  lemma JoinedThree(a: string, b: string, c: string)
    ensures Joined([a] + [b, c]) + CRLF + "" == a + CRLF + (b + CRLF) + (c + CRLF) + CRLF
  {
    JoinedOne(c);
    assert ([a] + [b, c])[1..] == [b, c] && [b, c][1..] == [c];
  }

  lemma BadLine(bad: string)
    requires IsToken(bad) && bad !in METHODS && bad[|bad| - 1] != ':'
    ensures !RequestLine(bad) && !HeaderLine(bad)
  {
    hide Tokens, METHODS, Trim, WordLength, IsHttpVersion, NameChars;
    NoTokens();
    TokensOfWord(bad, "");
    assert bad + "" == bad;
    StartsWithMethod([bad]);
  }

  lemma StartsWithMethod(ts: seq<string>)
    requires ts != []
    ensures StartFields(0, ts) ==> ts[0] in METHODS
  {
    hide METHODS, IsHttpVersion;
  }

  lemma NoTokens()
    ensures Tokens("") == []
  {
  }

  lemma HostPrintable()
    ensures Printable(HeaderText("Host", "a"))
  {
    assert forall i | 0 <= i < 4 :: 'a' <= "Host"[i] <= 'z' || 'A' <= "Host"[i] <= 'Z';
    forall i | 0 <= i < 4
      ensures NameChar("Host"[i])
    {
      NameCharExact("Host"[i]);
    }
  }
}
