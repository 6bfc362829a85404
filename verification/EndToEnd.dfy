/** Which exchanges the server answers, from a printed request to what a client reads off the
    answer, and the exchange that leaks. */
module EndToEnd {
  import opened Text
  import opened Fields
  import opened Tokenizer
  import opened Grammar
  import opened Headers
  import opened Parsing
  import opened RoundTrip
  import opened Replies
  import opened Response
  import opened FileTree
  import opened FileList
  import opened Routing
  import opened Answers
  import opened Server

  // ---------------------------------------------------------------- what is answered

  /** A valid and safe request is answered whenever the body of the reply leaves room for a head. */
  lemma FittingIsAnswerable(site: Site, x: Exchange)
    requires |x.input| < BUFSIZE
    requires ValidRequest(RequestText(x)) && SafeData(RequestText(x))
    requires Serviceable(site, Parsed(RequestText(x)))
    requires |BodyOf(ReplyTo(site, x))| <= BUFSIZE - HEAD_MAX - 1
    ensures Answerable(site, x)
  {
    hide Parsed, RequestText, ValidRequest, SafeData, HeadOf, Respond, Sendable;
    RespondHeadFits(site, Parsed(RequestText(x)), x.world);
  }

  /** Any other method than GET is answered, with 501, whatever the site is. */
  lemma OtherMethodsAreAnswerable(site: Site, x: Exchange)
    requires |x.input| < BUFSIZE
    requires ValidRequest(RequestText(x)) && SafeData(RequestText(x))
    requires Parsed(RequestText(x)).verb.Some? && Parsed(RequestText(x)).verb.value != "GET"
    ensures Answerable(site, x) && ReplyTo(site, x) == NO_REPLY.(status := 501)
    ensures Answer(site, x) == "HTTP/1.1 501 Not Implemented\r\n" + LAST_HEADERS
  {
    hide Parsed, RequestText, ValidRequest, SafeData, Answerable, Wire, Sendable, LAST_HEADERS;
    FittingIsAnswerable(site, x);
    NotImplementedBytes();
  }

  /** Every answer begins with one of four status lines, that of the status of its reply. */
  lemma AnswerBegins(site: Site, x: Exchange)
    requires Answerable(site, x)
    ensures |x.input| < 262144 && |Answer(site, x)| <= 262144
    ensures var status := ReplyTo(site, x).status;
            || (status == 200 && "HTTP/1.1 200 OK" + "\r\n" <= Answer(site, x))
            || (status == 301 && "HTTP/1.1 301 Moved Permanently" + "\r\n" <= Answer(site, x))
            || (status == 404 && "HTTP/1.1 404 Not Found" + "\r\n" <= Answer(site, x))
            || (status == 501 && "HTTP/1.1 501 Not Implemented" + "\r\n" <= Answer(site, x))
  {
    AnswerStatus(site, x);
    hide *;
    StatusLineExact(ReplyTo(site, x).status);
  }

  lemma AnswerStatus(site: Site, x: Exchange)
    requires Answerable(site, x)
    ensures var status := ReplyTo(site, x).status;
            && status in {200, 301, 404, 501} && |x.input| < 262144 && |Answer(site, x)| <= 262144
            && HasPhrase(status) && StatusLineText(status) + "\r\n" <= Answer(site, x)
  {
    hide Parsed, RequestText, ValidRequest, SafeData, Serviceable, Wire, HeadOf, Respond, HasPhrase, StatusLineText;
    AnsweredFits(site, x);
    RespondSendable(site, Parsed(RequestText(x)), x.world);
    hide Answerable, Sendable, LAST_HEADERS, Joined, HeaderLines;
    WireExact(ReplyTo(site, x));
  }

  /** Whatever is answered has one length header exactly if it has a body, and a right one. */
  lemma AnsweredIsFramed(site: Site, x: Exchange)
    requires Answerable(site, x)
    ensures Framed(ReplyTo(site, x))
  {
    var m := Parsed(RequestText(x));
    RespondFramedExact(site, m, x.world);
    AnsweredFits(site, x);
    hide Answerable, Parsed, RequestText, Framed, BodyOf;
    forall name | AnsweredBy(site, m) == Some(Report(name))
      ensures |x.world.reading(name)| < 0x8000_0000
    {
      ReportBody(site, m, x.world, name);
    }
  }

  lemma AnsweredFits(site: Site, x: Exchange)
    requires Answerable(site, x)
    ensures Routable(Parsed(RequestText(x)))
    ensures |BodyOf(ReplyTo(site, x))| <= BUFSIZE
  {
    hide Parsed, RequestText, HeadOf, Respond, ValidRequest, SafeData;
  }

  lemma ReportBody(site: Site, m: Message, w: World, name: string)
    requires Routable(m) && AnsweredBy(site, m) == Some(Report(name))
    ensures BodyOf(Respond(site, m, w)) == w.reading(name)
  {
    hide FirstMatch, PrintedInt, WithFile;
  }

  /** A client reads the headers and the body off the answer to such a request. */
  lemma FittingIsRead(site: Site, x: Exchange)
    requires |x.input| < BUFSIZE
    requires ValidRequest(RequestText(x)) && SafeData(RequestText(x))
    requires Serviceable(site, Parsed(RequestText(x)))
    requires |BodyOf(ReplyTo(site, x))| <= BUFSIZE - HEAD_MAX - 1
    ensures Answerable(site, x) && Framed(ReplyTo(site, x))
    ensures BodyText(Answer(site, x)) == BodyOf(ReplyTo(site, x))
    ensures AbsorbAll(EMPTY, Lines(Answer(site, x))).headers == ReplyTo(site, x).headers + UNIVERSAL
  {
    FittingIsAnswerable(site, x);
    AnsweredIsFramed(site, x);
    hide Parsed, RequestText, ValidRequest, SafeData, Respond, Wire, Lines, BodyText, AbsorbAll, BodyOf, Answerable;
    hide Framed, Sendable;
    RespondReadBack(site, Parsed(RequestText(x)), x.world);
  }

  // ---------------------------------------------------------------- printed requests

  /** A printed request shorter than the receive buffer is read whole from it: behind the text
      the buffer holds zeroes. It has one request line, so nothing leaks. */
  lemma PrintedIsReceived(verb: string, uri: string, version: string, hs: seq<HeaderText>, body: string, w: World)
    requires PrintableStart(verb, uri, version) && forall h | h in hs :: Printable(h)
    requires NulFree(PrintedRequest(verb, uri, version, hs, body))
    requires |PrintedRequest(verb, uri, version, hs, body)| < 262144
    ensures var text := PrintedRequest(verb, uri, version, hs, body);
            && CString(text + seq(262144 - |text|, _ => NUL)) == text
            && RequestText(Exchange(text, w)) == text
            && OneRequestLine(Exchange(text, w))
  {
    hide PrintableStart, Printable, PrintedRequest, Parsed, Lines, StartLines, ValidRequest, SafeData;
    var text := PrintedRequest(verb, uri, version, hs, body);
    RequestRoundTrip(verb, uri, version, hs, body);
    CStringOf(text, "");
    assert text + "" == text;
    CStringOf(text, seq(262144 - |text|, _ => NUL));
  }

  /** What is asked of a request for a file: it fits the receive buffer, its path the path
      buffer, its extension the extension buffer, and its contents the send buffer. */
  predicate FileRequest(site: Site, uri: string, text: string, w: World) {
    var path := site.staticDir + uri;
    && NulFree(text) && |text| < BUFSIZE
    && |path| < PATH_MAX && |Extension(path)| <= 7
    && path in w.files && |w.files[path]| <= BUFSIZE - HEAD_MAX - 1
  }

  /** A file of the tree asked for by its names is what the client receives, whatever the
      request headers, the request body and the routes are: the server answers the exchange,
      without a leak, and its answer reads as status 200 with the contents as body, the headers
      of the reply and the universal ones in order, and one length header, a right one. */
  lemma FileIsServed(site: Site, root: Listing, names: seq<string>, version: string, hs: seq<HeaderText>,
                     body: string, w: World)
    requires site.paths == Paths(site.staticDir, root)
    requires root.Opened? && Reaches(root.entries, names)
    requires PrintableStart("GET", Slashed(names), version) && forall h | h in hs :: Printable(h)
    requires var text := PrintedRequest("GET", Slashed(names), version, hs, body);
             NulFree(text) && |text| < 262144
    requires var path := site.staticDir + Slashed(names);
             && |path| < 4096 && |Extension(path)| <= 7
             && path in w.files && |w.files[path]| <= 262144 - 1025
    ensures var x := Exchange(PrintedRequest("GET", Slashed(names), version, hs, body), w);
            && Answerable(site, x) && OneRequestLine(x)
            && ReplyTo(site, x).status == 200 && Framed(ReplyTo(site, x))
            && BodyText(Answer(site, x)) == w.files[site.staticDir + Slashed(names)]
            && AbsorbAll(EMPTY, Lines(Answer(site, x))).headers == ReplyTo(site, x).headers + UNIVERSAL
            && var contents := w.files[site.staticDir + Slashed(names)];
            Answer(site, x) ==
            "HTTP/1.1 200 OK\r\n"
            + (Joined(HeaderLines(MimeHeaders(Extension(site.staticDir + Slashed(names)), 0)))
               + ("content-length: " + Decimal(|contents|) + "\r\n"))
            + LAST_HEADERS + contents
  {
    var uri := Slashed(names);
    var x := Exchange(PrintedRequest("GET", uri, version, hs, body), w);
    assert FileRequest(site, uri, x.input, w);
    FileFound(site, root, names);
    hide *;
    FileRequestFits(site, uri, x.input, w);
    PrintedIsReceived("GET", uri, version, hs, body, w);
    RequestRoundTrip("GET", uri, version, hs, body);
    FileAnswer(site, x, uri);
  }

  lemma FileFound(site: Site, root: Listing, names: seq<string>)
    requires site.paths == Paths(site.staticDir, root)
    requires root.Opened? && Reaches(root.entries, names)
    ensures site.staticDir + Slashed(names) in site.paths
  {
    ReachedIsIndexed(site.staticDir, root.entries, names);
  }

  lemma FileRequestFits(site: Site, uri: string, text: string, w: World)
    requires FileRequest(site, uri, text, w)
    ensures NulFree(text) && |text| < BUFSIZE && site.staticDir + uri in w.files
  {
  }

  lemma FileAnswer(site: Site, x: Exchange, uri: string)
    requires ValidRequest(RequestText(x)) && SafeData(RequestText(x))
    requires Parsed(RequestText(x)).verb == Some("GET") && Parsed(RequestText(x)).uri == Some(uri)
    requires site.staticDir + uri in site.paths
    requires FileRequest(site, uri, x.input, x.world)
    ensures Answerable(site, x) && ReplyTo(site, x).status == 200 && Framed(ReplyTo(site, x))
    ensures BodyText(Answer(site, x)) == x.world.files[site.staticDir + uri]
    ensures var path := site.staticDir + uri;
            Answer(site, x) ==
            "HTTP/1.1 200 OK\r\n"
            + (Joined(HeaderLines(MimeHeaders(Extension(path), 0)))
               + ("content-length: " + Decimal(|x.world.files[path]|) + "\r\n"))
            + LAST_HEADERS + x.world.files[path]
    ensures AbsorbAll(EMPTY, Lines(Answer(site, x))).headers == ReplyTo(site, x).headers + UNIVERSAL
  {
    hide Parsed, RequestText, ValidRequest, SafeData, Respond, Wire, Lines, BodyText, AbsorbAll, BodyOf, Answerable;
    hide Framed, Sendable, Extension, NulFree;
    var m := Parsed(RequestText(x));
    FileResponse(site, m, uri, x.world);
    FileBytes(site.staticDir + uri, x.world.files);
    FittingIsRead(site, x);
  }

  lemma FileResponse(site: Site, m: Message, uri: string, w: World)
    requires m.verb == Some("GET") && m.uri == Some(uri)
    requires site.staticDir + uri in site.paths && site.staticDir + uri in w.files
    ensures Routable(m)
    ensures Respond(site, m, w).status == 200
    ensures Respond(site, m, w) == WithFile(NO_REPLY, site.staticDir + uri, w.files)
    ensures BodyOf(Respond(site, m, w)) == w.files[site.staticDir + uri]
    ensures Framed(Respond(site, m, w))
  {
    hide MimeHeaders, Decimal, Extension, Named, FirstMatch;
    NoReplyUnframed();
    WithFileFramed(NO_REPLY, site.staticDir + uri, w.files);
  }

  /** What is asked of any other GET: it fits the receive buffer and its path the path buffer,
      there is an index to search, and a report that answers it fits the send buffer. */
  predicate RouteRequest(site: Site, uri: string, text: string, w: World) {
    && NulFree(text) && |text| < BUFSIZE
    && site.paths != [] && |site.staticDir + uri| < PATH_MAX
    && forall i | 0 <= i < |site.routes| && IsEarliest(site.routes, "GET", uri, i) && site.routes[i].handler.Report? ::
         |w.reading(site.routes[i].handler.name)| <= BUFSIZE - HEAD_MAX - 1
  }

  /** A request for anything else is answered too, without a leak: by the earliest registered
      route for it, or with the 404 page, and the client reads off the headers and the body. */
  lemma OthersAreRouted(site: Site, root: Listing, uri: string, version: string, hs: seq<HeaderText>,
                        body: string, w: World)
    requires site.paths == Paths(site.staticDir, root)
    requires PrintableStart("GET", uri, version) && forall h | h in hs :: Printable(h)
    requires !LeadsToFile(root, uri)
    requires var text := PrintedRequest("GET", uri, version, hs, body); NulFree(text) && |text| < 262144
    requires site.paths != [] && |site.staticDir + uri| < 4096
    requires forall i | 0 <= i < |site.routes| && IsEarliest(site.routes, "GET", uri, i) ::
               site.routes[i].handler.Report? ==> |w.reading(site.routes[i].handler.name)| <= 262144 - 1025
    ensures var x := Exchange(PrintedRequest("GET", uri, version, hs, body), w);
            && Answerable(site, x) && OneRequestLine(x)
            && (forall i: nat | IsEarliest(site.routes, "GET", uri, i) ::
                  ReplyTo(site, x) == Handled(site.routes[i].handler, NO_REPLY, w))
            && ((forall i: nat :: !IsEarliest(site.routes, "GET", uri, i)) ==> ReplyTo(site, x) == NotFound(NO_REPLY))
            && (forall i: nat | IsEarliest(site.routes, "GET", uri, i) && site.routes[i].handler == IndexRedirect ::
                  Answer(site, x) ==
                  "HTTP/1.1 301 Moved Permanently\r\n" + "location: /index.html\r\n" + LAST_HEADERS)
            && (forall i: nat | IsEarliest(site.routes, "GET", uri, i) && site.routes[i].handler.Report? ::
                  var text := w.reading(site.routes[i].handler.name);
                  Answer(site, x) ==
                  "HTTP/1.1 200 OK\r\n"
                  + ("content-type: application/json\r\n" + ("content-length: " + Decimal(|text|) + "\r\n"))
                  + LAST_HEADERS + text)
            && ((forall i: nat :: !IsEarliest(site.routes, "GET", uri, i)) ==>
                  Answer(site, x) ==
                  "HTTP/1.1 404 Not Found\r\n" + "content-length: 22\r\n" + LAST_HEADERS + "<h1>404 Not Found</h1>")
            && Framed(ReplyTo(site, x))
            && BodyText(Answer(site, x)) == BodyOf(ReplyTo(site, x))
            && AbsorbAll(EMPTY, Lines(Answer(site, x))).headers == ReplyTo(site, x).headers + UNIVERSAL
  {
    var x := Exchange(PrintedRequest("GET", uri, version, hs, body), w);
    assert NulFree(x.input) && |x.input| < BUFSIZE && RouteRequest(site, uri, x.input, w);
    hide *;
    PrintedIsReceived("GET", uri, version, hs, body, w);
    RequestRoundTrip("GET", uri, version, hs, body);
    RouteResponse(site, root, uri, x);
    FittingIsRead(site, x);
    RouteBytes(site, uri, x);
  }

  lemma RouteBytes(site: Site, uri: string, x: Exchange)
    requires Answerable(site, x) && RouteRequest(site, uri, x.input, x.world)
    requires forall i: nat | IsEarliest(site.routes, "GET", uri, i) ::
               ReplyTo(site, x) == Handled(site.routes[i].handler, NO_REPLY, x.world)
    requires (forall i: nat :: !IsEarliest(site.routes, "GET", uri, i)) ==> ReplyTo(site, x) == NotFound(NO_REPLY)
    ensures forall i: nat | IsEarliest(site.routes, "GET", uri, i) && site.routes[i].handler == IndexRedirect ::
              Answer(site, x) == "HTTP/1.1 301 Moved Permanently\r\n" + "location: /index.html\r\n" + LAST_HEADERS
    ensures forall i: nat | IsEarliest(site.routes, "GET", uri, i) && site.routes[i].handler.Report? ::
              var text := x.world.reading(site.routes[i].handler.name);
              Answer(site, x) ==
              "HTTP/1.1 200 OK\r\n"
              + ("content-type: application/json\r\n" + ("content-length: " + Decimal(|text|) + "\r\n"))
              + LAST_HEADERS + text
    ensures (forall i: nat :: !IsEarliest(site.routes, "GET", uri, i)) ==>
              Answer(site, x) ==
              "HTTP/1.1 404 Not Found\r\n" + "content-length: 22\r\n" + LAST_HEADERS + "<h1>404 Not Found</h1>"
  {
    hide Answerable, RequestText, ReplyTo, Handled, NotFound, Wire, LAST_HEADERS, Decimal, NulFree;
    RedirectBytes(x.world);
    NotFoundBytes();
    forall i: nat | IsEarliest(site.routes, "GET", uri, i) && site.routes[i].handler.Report?
      ensures var text := x.world.reading(site.routes[i].handler.name);
              Answer(site, x) ==
              "HTTP/1.1 200 OK\r\n"
              + ("content-type: application/json\r\n" + ("content-length: " + Decimal(|text|) + "\r\n"))
              + LAST_HEADERS + text
    {
      ReportBytes(site.routes[i].handler.name, x.world);
    }
  }

  lemma RouteResponse(site: Site, root: Listing, uri: string, x: Exchange)
    requires site.paths == Paths(site.staticDir, root)
    requires !LeadsToFile(root, uri)
    requires Parsed(RequestText(x)).verb == Some("GET") && Parsed(RequestText(x)).uri == Some(uri)
    requires RouteRequest(site, uri, x.input, x.world)
    ensures Serviceable(site, Parsed(RequestText(x)))
    ensures forall i: nat | IsEarliest(site.routes, "GET", uri, i) ::
              ReplyTo(site, x) == Handled(site.routes[i].handler, NO_REPLY, x.world)
    ensures (forall i: nat :: !IsEarliest(site.routes, "GET", uri, i)) ==> ReplyTo(site, x) == NotFound(NO_REPLY)
    ensures |BodyOf(ReplyTo(site, x))| <= BUFSIZE - HEAD_MAX - 1
  {
    hide Parsed, RequestText, Paths, LeadsToFile, Extension, NulFree, Respond, PrintedInt;
    PathsExact(site.staticDir, root, uri);
    DispatchExact(site, root, Parsed(RequestText(x)), x.world);
    if i: nat :| IsEarliest(site.routes, "GET", uri, i) {
      assert ReplyTo(site, x) == Handled(site.routes[i].handler, NO_REPLY, x.world);
    }
  }

  /** What main promises: once its table is registered, a request for the path of an entry that no
      earlier entry has, and no file, is answered by the handler of that entry. */
  lemma RegisteredIsServed(dir: string, root: Listing, table: seq<(string, Handler)>, n: nat, version: string,
                           hs: seq<HeaderText>, body: string, w: World)
    requires n < |table| && forall k | 0 <= k < n :: table[k].0 != table[n].0
    requires Paths(dir, root) != [] && !LeadsToFile(root, table[n].0)
    requires PrintableStart("GET", table[n].0, version) && forall h | h in hs :: Printable(h)
    requires var text := PrintedRequest("GET", table[n].0, version, hs, body); NulFree(text) && |text| < 262144
    requires |dir + table[n].0| < 4096
    requires table[n].1.Report? ==> |w.reading(table[n].1.name)| <= 262144 - 1025
    ensures var site := Site(dir, Paths(dir, root), GetRoutes(table));
            var x := Exchange(PrintedRequest("GET", table[n].0, version, hs, body), w);
            && Answerable(site, x) && OneRequestLine(x)
            && ReplyTo(site, x) == Handled(table[n].1, NO_REPLY, w)
            && (table[n].1 == IndexRedirect ==>
                  Answer(site, x) ==
                  "HTTP/1.1 301 Moved Permanently\r\n" + "location: /index.html\r\n" + LAST_HEADERS)
            && (table[n].1.Report? ==>
                  var text := w.reading(table[n].1.name);
                  Answer(site, x) ==
                  "HTTP/1.1 200 OK\r\n"
                  + ("content-type: application/json\r\n" + ("content-length: " + Decimal(|text|) + "\r\n"))
                  + LAST_HEADERS + text)
  {
    var site := Site(dir, Paths(dir, root), GetRoutes(table));
    hide Paths, LeadsToFile, PrintableStart, Printable, PrintedRequest, NulFree, GetRoutes, Answerable, OneRequestLine;
    hide Handled, Framed, BodyText, AbsorbAll, Lines, BodyOf, LAST_HEADERS, NotFound, Answer, ReplyTo;
    assert forall i: nat | i < |table| :: site.routes[i] == RouteText("GET", table[i].0, table[i].1);
    assert IsEarliest(site.routes, "GET", table[n].0, n);
    assert forall i: nat | IsEarliest(site.routes, "GET", table[n].0, i) :: i == n;
    OthersAreRouted(site, root, table[n].0, version, hs, body, w);
  }

  // ---------------------------------------------------------------- the exchange that leaks

  const PUT_LINE := "PUT / HTTP/1.1"
  const PUT_TWICE := "PUT / HTTP/1.1\r\nPUT / HTTP/1.1\r\n\r\n"

  lemma PutLineAbsorbed(m: Message)
    ensures IsLine(PUT_LINE) && SafeLine(PUT_LINE) && RequestLine(PUT_LINE)
    ensures |Tokens(PUT_LINE)| == 3
    ensures Held(Absorb(m, PUT_LINE)) == 3 && Absorb(m, PUT_LINE).verb == Some("PUT")
  {
    hide RequestLine, HeaderLine, WithStart, Tokens;
    assert METHODS[3] == "PUT";
    assert StartLineText("PUT", "/", "HTTP/1.1") == PUT_LINE;
    assert IsHttpVersion("HTTP/1.1") by {
      VersionExact("HTTP/1.1");
    }
    StartLineAbsorbed(m, "PUT", "/", "HTTP/1.1");
    StartLineIsLine("PUT", "/", "HTTP/1.1");
    StartLineParsed("PUT", "/", "HTTP/1.1");
  }

  lemma PutTwiceReceived(w: World)
    ensures RequestText(Exchange(PUT_TWICE, w)) == Joined([PUT_LINE, PUT_LINE]) + CRLF + ""
  {
    JoinedOne(PUT_LINE);
    assert [PUT_LINE, PUT_LINE][1..] == [PUT_LINE];
    assert NulFree(PUT_LINE + CRLF) && NulFree(CRLF);
    assert PUT_TWICE == PUT_LINE + CRLF + (PUT_LINE + CRLF) + CRLF;
    hide PUT_TWICE, PUT_LINE, CString;
    assert PUT_TWICE + "" == PUT_TWICE;
    CStringOf(PUT_TWICE, "");
  }

  lemma PutTwiceParsed(text: string)
    requires text == Joined([PUT_LINE, PUT_LINE]) + CRLF + ""
    ensures Lines(text) == [PUT_LINE, PUT_LINE] && StartLines(Lines(text)) == 2 && Leak(Lines(text)) == 3
    ensures ValidRequest(text) && SafeData(text) && Parsed(text).verb == Some("PUT")
  {
    hide Lines, Joined, IsLine, SafeLine, RequestLine, Absorb, BodyText, Held, Tokens, PUT_LINE;
    PutLineAbsorbed(EMPTY);
    PutLineAbsorbed(Absorb(EMPTY, PUT_LINE));
    BodyBehindBlankLine([PUT_LINE, PUT_LINE], "");
    assert [PUT_LINE, PUT_LINE][1..] == [PUT_LINE] && [PUT_LINE][1..] == [];
    assert StartLines([PUT_LINE, PUT_LINE]) == 1 + StartLines([PUT_LINE]);
    assert StartTokens([PUT_LINE, PUT_LINE]) == 3 + StartTokens([PUT_LINE]);
    assert AbsorbAll(EMPTY, [PUT_LINE, PUT_LINE]) == Absorb(Absorb(EMPTY, PUT_LINE), PUT_LINE) by {
      assert AbsorbAll(EMPTY, [PUT_LINE, PUT_LINE]) == AbsorbAll(Absorb(EMPTY, PUT_LINE), [PUT_LINE]);
    }
  }

  /** A request line sent twice: every site answers it, with 501, and has lost the three blocks of
      the first line when the round is over. */
  lemma SecondRequestLineLeaks(site: Site, w: World)
    ensures Answerable(site, Exchange(PUT_TWICE, w)) && !OneRequestLine(Exchange(PUT_TWICE, w))
    ensures Leaked(Exchange(PUT_TWICE, w)) == 3
    ensures ReplyTo(site, Exchange(PUT_TWICE, w)) == NO_REPLY.(status := 501)
  {
    var x := Exchange(PUT_TWICE, w);
    PutTwiceReceived(w);
    hide RequestText, Parsed, Lines, Leak, ValidRequest, SafeData, Answerable, Joined;
    PutTwiceParsed(RequestText(x));
    OtherMethodsAreAnswerable(site, x);
  }
}
