/** The bytes of every kind of answer the router produces. */
module Answers {
  import opened Text
  import opened Fields
  import opened Headers
  import opened Replies
  import opened Response
  import opened Routing

  lemma BytesOf(r: Reply, hs: seq<HeaderText>, line: string, fields: string, body: string)
    requires r.status != 0 && HasPhrase(r.status) && StatusLineText(r.status) + "\r\n" == line
    requires r.headers == hs && Joined(HeaderLines(hs)) == fields && BodyOf(r) == body
    ensures Sendable(r) && Wire(r) == line + fields + LAST_HEADERS + body
  {
    hide HasPhrase, StatusLineText, LAST_HEADERS, Joined, HeaderLines, Wire;
    WireExact(r);
  }

  lemma FieldOf(name: string, value: string, field: string)
    requires name + ": " + value + "\r\n" == field
    ensures Joined(HeaderLines([HeaderText(name, value)])) == field
  {
    hide *;
    PrintedOne(name, value);
  }

  /** A method other than GET. */
  lemma NotImplementedBytes()
    ensures Sendable(NO_REPLY.(status := 501))
    ensures Wire(NO_REPLY.(status := 501)) == "HTTP/1.1 501 Not Implemented\r\n" + LAST_HEADERS
  {
    assert "HTTP/1.1 501 Not Implemented" + "\r\n" == "HTTP/1.1 501 Not Implemented\r\n";
    hide HasPhrase, StatusLineText, LAST_HEADERS, Wire, Sendable;
    StatusLineExact(501);
    BytesOf(NO_REPLY.(status := 501), [], "HTTP/1.1 501 Not Implemented\r\n", "", "");
  }

  /** Neither a file nor a route. */
  lemma NotFoundBytes()
    ensures Sendable(NotFound(NO_REPLY))
    ensures Wire(NotFound(NO_REPLY)) ==
            "HTTP/1.1 404 Not Found\r\n" + "content-length: 22\r\n" + LAST_HEADERS + "<h1>404 Not Found</h1>"
  {
    assert "HTTP/1.1 404 Not Found" + "\r\n" == "HTTP/1.1 404 Not Found\r\n";
    assert "content-length" + ": " + "22" + "\r\n" == "content-length: 22\r\n";
    var hs := [HeaderText("content-length", "22")];
    assert [] + hs == hs;
    hide HasPhrase, StatusLineText, LAST_HEADERS, Wire, Sendable, NotFound, Joined, HeaderLines;
    StatusLineExact(404);
    NotFoundExact(NO_REPLY);
    FieldOf("content-length", "22", "content-length: 22\r\n");
    BytesOf(NotFound(NO_REPLY), hs, "HTTP/1.1 404 Not Found\r\n", "content-length: 22\r\n", "<h1>404 Not Found</h1>");
  }

  /** The redirect to the index page. */
  lemma RedirectBytes(w: World)
    ensures Sendable(Handled(IndexRedirect, NO_REPLY, w))
    ensures Wire(Handled(IndexRedirect, NO_REPLY, w)) ==
            "HTTP/1.1 301 Moved Permanently\r\n" + "location: /index.html\r\n" + LAST_HEADERS
  {
    assert "HTTP/1.1 301 Moved Permanently" + "\r\n" == "HTTP/1.1 301 Moved Permanently\r\n";
    assert "location" + ": " + "/index.html" + "\r\n" == "location: /index.html\r\n";
    var hs := [HeaderText("location", "/index.html")];
    assert [] + hs == hs;
    hide HasPhrase, StatusLineText, LAST_HEADERS, Wire, Sendable, Handled, Joined, HeaderLines;
    StatusLineExact(301);
    HandledExact(NO_REPLY, "", w);
    FieldOf("location", "/index.html", "location: /index.html\r\n");
    BytesOf(Handled(IndexRedirect, NO_REPLY, w), hs,
            "HTTP/1.1 301 Moved Permanently\r\n", "location: /index.html\r\n", "");
  }

  /** The length header as text. */
  function LengthField(size: nat): string {
    "content-length: " + Decimal(size) + "\r\n"
  }

  function SizedBy(size: nat): seq<HeaderText> {
    [HeaderText("content-length", Decimal(size))]
  }

  lemma LengthPrinted(size: nat)
    ensures Joined(HeaderLines(SizedBy(size))) == LengthField(size)
  {
    hide Joined, HeaderLines, Decimal;
    assert "content-length" + ": " == "content-length: ";
    FieldOf("content-length", Decimal(size), LengthField(size));
  }

  lemma OkLine()
    ensures HasPhrase(200) && StatusLineText(200) + "\r\n" == "HTTP/1.1 200 OK\r\n"
  {
    hide HasPhrase, StatusLineText;
    StatusLineExact(200);
    assert "HTTP/1.1 200 OK" + "\r\n" == "HTTP/1.1 200 OK\r\n";
  }

  lemma SizedBytes(r: Reply, hs: seq<HeaderText>, fields: string, body: string)
    requires r == Reply(200, hs + SizedBy(|body|), Some(body)) && Joined(HeaderLines(hs)) == fields
    ensures Sendable(r)
    ensures Wire(r) == "HTTP/1.1 200 OK\r\n" + (fields + LengthField(|body|)) + LAST_HEADERS + body
  {
    hide HasPhrase, StatusLineText, LAST_HEADERS, Wire, Sendable, Joined, HeaderLines, LengthField, SizedBy;
    OkLine();
    LengthPrinted(|body|);
    PrintedConcat(hs, SizedBy(|body|));
    BytesOf(r, hs + SizedBy(|body|), "HTTP/1.1 200 OK\r\n", fields + LengthField(|body|), body);
  }

  /** A report of less than 2^31 characters. */
  lemma ReportBytes(name: string, w: World)
    requires |w.reading(name)| < 0x8000_0000
    ensures var text := w.reading(name);
            && Sendable(Handled(Report(name), NO_REPLY, w))
            && Wire(Handled(Report(name), NO_REPLY, w)) ==
               "HTTP/1.1 200 OK\r\n"
               + ("content-type: application/json\r\n" + LengthField(|text|)) + LAST_HEADERS + text
  {
    ReportReply(name, w);
    JsonField();
    hide *;
    SizedBytes(Handled(Report(name), NO_REPLY, w), JSON, "content-type: application/json\r\n", w.reading(name));
  }

  const JSON := [HeaderText("content-type", "application/json")]

  lemma JsonField()
    ensures Joined(HeaderLines(JSON)) == "content-type: application/json\r\n"
  {
    assert "content-type" + ": " + "application/json" + "\r\n" == "content-type: application/json\r\n";
    FieldOf("content-type", "application/json", "content-type: application/json\r\n");
  }

  lemma ReportReply(name: string, w: World)
    requires |w.reading(name)| < 0x8000_0000
    ensures Handled(Report(name), NO_REPLY, w) == Reply(200, JSON + SizedBy(|w.reading(name)|), Some(w.reading(name)))
  {
    hide Decimal, Handled;
    HandledExact(NO_REPLY, name, w);
    assert [] + JSON == JSON;
  }

  /** A file that can be read. */
  lemma FileBytes(path: string, files: map<string, string>)
    requires path in files
    ensures var mime := Joined(HeaderLines(MimeHeaders(Extension(path), 0)));
            && Sendable(WithFile(NO_REPLY, path, files))
            && Wire(WithFile(NO_REPLY, path, files)) ==
               "HTTP/1.1 200 OK\r\n" + (mime + LengthField(|files[path]|)) + LAST_HEADERS + files[path]
  {
    FileReply(path, files);
    hide *;
    var mime := MimeHeaders(Extension(path), 0);
    SizedBytes(WithFile(NO_REPLY, path, files), mime, Joined(HeaderLines(mime)), files[path]);
  }

  /** An indexed file that can no longer be read. */
  lemma UnreadableBytes(path: string, files: map<string, string>)
    requires path !in files
    ensures Sendable(WithFile(NO_REPLY, path, files))
    ensures Wire(WithFile(NO_REPLY, path, files)) ==
            "HTTP/1.1 404 Not Found\r\n" + Joined(HeaderLines(MimeHeaders(Extension(path), 0))) + LAST_HEADERS
  {
    hide HasPhrase, StatusLineText, LAST_HEADERS, Wire, Sendable, WithFile, Joined, HeaderLines, MimeHeaders, Extension;
    var mime := MimeHeaders(Extension(path), 0);
    assert [] + mime == mime;
    StatusLineExact(404);
    assert "HTTP/1.1 404 Not Found" + "\r\n" == "HTTP/1.1 404 Not Found\r\n";
    WithFileExact(NO_REPLY, path, files);
    BytesOf(WithFile(NO_REPLY, path, files), mime, "HTTP/1.1 404 Not Found\r\n", Joined(HeaderLines(mime)), "");
  }

  lemma FileReply(path: string, files: map<string, string>)
    requires path in files
    ensures WithFile(NO_REPLY, path, files) ==
            Reply(200, MimeHeaders(Extension(path), 0) + SizedBy(|files[path]|), Some(files[path]))
  {
    hide Decimal, WithFile, MimeHeaders, Extension;
    WithFileExact(NO_REPLY, path, files);
    var mime := MimeHeaders(Extension(path), 0);
    assert [] + mime == mime;
  }
}
