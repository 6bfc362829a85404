/** The line classifiers of helpers.c. */
module Grammar {
  import opened Text
  import opened Tokenizer
  import opened Fields

  const METHODS: seq<string> :=
    ["GET", "HEAD", "POST", "PUT", "DELETE", "CONNECT", "OPTIONS", "TRACE", "PATCH"]

  // The separators of section 2.2 of RFC 2616, as isRequestHeader lists them.
  const SEPARATORS: seq<char> := "()<>@,;:\\\"/[]?={} \t"

  /** iscntrl in the C locale. */
  predicate IsCntrl(c: char) {
    c < ' ' || c == '\U{7F}'
  }

  predicate NameChar(c: char) {
    !IsCntrl(c) && c !in SEPARATORS
  }

  predicate NameChars(t: string) {
    forall i | 0 <= i < |t| :: NameChar(t[i])
  }

  /** The method table, name by name. */
  lemma MethodsExact(m: string)
    ensures m in METHODS <==>
            || m == "GET" || m == "HEAD" || m == "POST" || m == "PUT" || m == "DELETE"
            || m == "CONNECT" || m == "OPTIONS" || m == "TRACE" || m == "PATCH"
  {
    assert METHODS[0] == "GET" && METHODS[1] == "HEAD" && METHODS[2] == "POST" && METHODS[3] == "PUT";
    assert METHODS[4] == "DELETE" && METHODS[5] == "CONNECT" && METHODS[6] == "OPTIONS";
    assert METHODS[7] == "TRACE" && METHODS[8] == "PATCH";
    if m in METHODS {
      var i :| 0 <= i < |METHODS| && METHODS[i] == m;
      assert i == 0 || i == 1 || i == 2 || i == 3 || i == 4 || i == 5 || i == 6 || i == 7 || i == 8;
    }
  }

  /** The characters of header names, listed: letters, digits, fifteen marks, and everything
      above 127. */
  lemma NameCharExact(c: char)
    ensures NameChar(c) <==>
            || 'a' <= c <= 'z' || 'A' <= c <= 'Z' || '0' <= c <= '9'
            || c == '!' || c == '#' || c == '$' || c == '%' || c == '&' || c == '\'' || c == '*' || c == '+'
            || c == '-' || c == '.' || c == '^' || c == '_' || c == '`' || c == '|' || c == '~'
            || c > '\U{7F}'
  {
    assert c in SEPARATORS <==>
           || c == '(' || c == ')' || c == '<' || c == '>' || c == '@' || c == ',' || c == ';' || c == ':' || c == '\\'
           || c == '"' || c == '/' || c == '[' || c == ']' || c == '?' || c == '=' || c == '{' || c == '}' || c == ' '
           || c == '\t';
  }

  method IsHttpMethod(field: string) returns (found: bool)
    ensures found <==> field in METHODS
  {
    for i := 0 to |METHODS|
      invariant field !in METHODS[..i]
    {
      if field == METHODS[i] {
        return true;
      }
    }
    return false;
  }

  /** isHttpVersion as written: length 8, "HTTP/" somewhere, digit dot digit at the end. */
  predicate IsHttpVersion(field: string) {
    && |field| == 8
    && (exists i | 0 <= i <= 3 :: OccursAt(field, "HTTP/", i))
    && IsDigit(field[5]) && field[6] == '.' && IsDigit(field[7])
  }

  /** The loose substring test is exact: no occurrence but the first position survives the
      tests on the last three characters. */
  lemma VersionExact(field: string)
    ensures IsHttpVersion(field) <==>
            && |field| == 8 && field[..5] == "HTTP/"
            && '0' <= field[5] <= '9' && field[6] == '.' && '0' <= field[7] <= '9'
  {
    if IsHttpVersion(field) {
      var i :| 0 <= i <= 3 && OccursAt(field, "HTTP/", i);
      assert field[i + 4] == field[i..i + 5][4] == '/';
    } else if |field| == 8 && field[..5] == "HTTP/" {
      assert OccursAt(field, "HTTP/", 0);
    }
  }

  predicate StartField(i: nat, token: string) {
    i <= 2 && (i == 0 ==> token in METHODS) && (i == 2 ==> IsHttpVersion(token))
  }

  predicate StartFields(i: nat, ts: seq<string>)
    decreases |ts|
  {
    ts == [] || (StartField(i, ts[0]) && StartFields(i + 1, ts[1..]))
  }

  /** The request lines: every token passes the test for its position. */
  predicate RequestLine(line: string) {
    StartFields(0, Tokens(line))
  }

  lemma {:induction false} StartFieldsAt(i: nat, ts: seq<string>)
    ensures StartFields(i, ts) <==> forall k | 0 <= k < |ts| :: StartField(i + k, ts[k])
    decreases |ts|
  {
    hide StartField;
    if ts != [] {
      StartFieldsAt(i + 1, ts[1..]);
      assert forall k | 1 <= k < |ts| :: ts[k] == ts[1..][k - 1];
      if StartFields(i, ts) {
        forall k | 0 <= k < |ts| ensures StartField(i + k, ts[k]) {
          if k > 0 {
            assert StartField(i + 1 + (k - 1), ts[1..][k - 1]);
          }
        }
      }
      if forall k | 0 <= k < |ts| :: StartField(i + k, ts[k]) {
        assert StartField(i + 0, ts[0]);
        forall k | 0 <= k < |ts| - 1 ensures StartField(i + 1 + k, ts[1..][k]) {
          assert StartField(i + (1 + k), ts[1 + k]);
        }
      }
    }
  }

  /** What isRequestLine accepts: at most three tokens, a listed method first, a version third. */
  lemma RequestLineExact(line: string)
    ensures var ts := Tokens(line);
            RequestLine(line) <==>
            |ts| <= 3 && (|ts| >= 1 ==> ts[0] in METHODS) && (|ts| >= 3 ==> IsHttpVersion(ts[2]))
  {
    hide Tokens, IsHttpVersion;
    var ts := Tokens(line);
    StartFieldsAt(0, ts);
    if |ts| > 3 {
      assert !StartField(0 + 3, ts[3]);
    }
  }

  method IsRequestLine(field: string) returns (ok: bool)
    ensures ok <==> RequestLine(field)
  {
    hide Tokens, Trim, WordLength, StartField;
    var count := 0;
    var fieldCopy := new Strtok(field);
    var token, at := fieldCopy.Next();
    while token.Some?
      invariant fieldCopy.Valid() && fresh(fieldCopy)
      invariant token == None ==> RequestLine(field)
      invariant token.Some? ==>
                  RequestLine(field) == (StartField(count, token.value) && StartFields(count + 1, fieldCopy.Pending()))
      decreases token.Some?, |fieldCopy.Pending()|
    {
      var isField := IsStartField(count, token.value);
      if !isField {
        return false;
      }
      count := count + 1;
      token, at := fieldCopy.Next();
    }
    return true;
  }

  method IsStartField(count: nat, token: string) returns (ok: bool)
    ensures ok <==> StartField(count, token)
  {
    var isMethod := IsHttpMethod(token);
    ok := !((count == 0 && !isMethod) || (count == 2 && !IsHttpVersion(token)) || count > 2);
  }

  /** A name of token characters, then ':'. */
  predicate HeaderToken(token: string) {
    && token != "" && token[|token| - 1] == ':'
    && NameChars(token[..|token| - 1])
  }

  /** What isRequestHeader accepts: the first token is a header token. */
  predicate HeaderLine(line: string) {
    Tokens(line) != [] && HeaderToken(Tokens(line)[0])
  }

  /** Read off the characters: spaces, a possibly empty name of token characters, a colon, and
      then the end of the line or a space. */
  lemma HeaderLineExact(line: string)
    ensures HeaderLine(line) <==>
            exists gap, name, tail :: IsHeaderShape(line, gap, name, tail)
  {
    hide NameChars, Tokens;
    if HeaderLine(line) {
      var l := TokensLaidOut(line);
      var name := l.token[..|l.token| - 1];
      assert l.token == name + ":";
      assert l.rest.Text() == "" || l.rest.Text()[0] == ' ';
      assert IsHeaderShape(line, l.gap, name, l.rest.Text());
    }
    if gap, name, tail :| IsHeaderShape(line, gap, name, tail) {
      NameIsToken(name);
      TokensOfWord(name + ":", tail);
      TokensOfGap(gap, name + ":" + tail);
      assert (name + ":")[..|name|] == name;
    }
  }

  ghost predicate IsHeaderShape(line: string, gap: string, name: string, tail: string) {
    && line == gap + (name + ":" + tail)
    && AllSpaces(gap) && NameChars(name)
    && (tail == "" || tail[0] == ' ')
  }

  lemma NameIsToken(name: string)
    requires NameChars(name)
    ensures IsToken(name + ":")
  {
    var t := name + ":";
    forall i | 0 <= i < |t|
      ensures t[i] != ' '
    {
      assert i < |name| ==> NameChar(name[i]) && SEPARATORS[17] == ' ';
    }
  }

  lemma TokensOfGap(gap: string, s: string)
    requires AllSpaces(gap)
    ensures Tokens(gap + s) == Tokens(s)
  {
    TrimGap(gap, s);
  }

  method IsRequestHeader(field: string) returns (ok: bool)
    requires Tokens(field) != []
    ensures ok <==> HeaderLine(field)
  {
    var fieldCopy := new Strtok(field);
    var first, _ := fieldCopy.Next();
    var token := first.value;
    ok := IsHeaderToken(token);
  }

  /** The nested loops of isRequestHeader over the first token. */
  method IsHeaderToken(token: string) returns (ok: bool)
    requires token != ""
    ensures ok <==> HeaderToken(token)
  {
    var end := |token| - 1;
    for i := 0 to |token|
      invariant i > 0 ==> token[end] == ':'
      invariant forall k | 0 <= k < i && k < end :: NameChar(token[k])
    {
      if IsCntrl(token[i]) || token[end] != ':' {
        return false;
      }
      var j := 0;
      while j < |SEPARATORS| && i < end
        invariant 0 <= j <= |SEPARATORS|
        invariant i < end ==> token[i] !in SEPARATORS[..j]
      {
        if token[i] == SEPARATORS[j] {
          return false;
        }
        j := j + 1;
      }
    }
    return true;
  }

  lemma MethodEnd(m: string)
    requires m in METHODS
    ensures m != "" && m[|m| - 1] != ':'
  {
    var i :| 0 <= i < |METHODS| && METHODS[i] == m;
    assert i == 0 || i == 1 || i == 2 || i == 3 || i == 4 || i == 5 || i == 6 || i == 7 || i == 8;
  }

  /** A line with a token is never both, so requestParse may test in either order. */
  lemma Exclusive(line: string)
    requires Tokens(line) != []
    ensures !(RequestLine(line) && HeaderLine(line))
  {
    var ts := Tokens(line);
    if RequestLine(line) {
      MethodEnd(ts[0]);
    }
  }

  method IsValidRequest(data: string) returns (ok: bool)
    requires NulFree(data)
    ensures ok <==> ValidRequest(data)
  {
    var buffer := new char[FIELD_MAX];
    var next := ReadFieldInto(buffer, data, 0, FIELD_MAX);
    assert data[0..] == data;
    if next.None? {
      return false;
    }
    ok := IsRequestLine(CString(buffer[..]));
  }

  predicate ValidRequest(data: string) {
    Lines(data) != [] && RequestLine(Lines(data)[0])
  }

  /** The valid texts: a request line that fits the buffer, its CRLF, and anything behind it. */
  lemma ValidExact(data: string)
    ensures ValidRequest(data) <==>
            exists line, rest ::
              data == line + "\r\n" + rest && RequestLine(line) && CrlfFree(line) && 0 < |line| < 8192
  {
    hide RequestLine, FirstCrlf;
    if ValidRequest(data) {
      var cut := ReadField(data, FIELD_MAX).value;
      assert data == cut.line + "\r\n" + cut.rest && RequestLine(cut.line);
    }
    if line, rest :| data == line + "\r\n" + rest && RequestLine(line) && CrlfFree(line) && 0 < |line| < 8192 {
      ReadFieldOf(line, rest, FIELD_MAX);
    }
  }
}
