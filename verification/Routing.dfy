/** Which reply a request gets, as a function of the site and of what the handlers read. */
module Routing {
  import opened Text
  import opened Fields
  import opened Headers
  import opened Parsing
  import opened RoundTrip
  import opened Replies
  import opened Response
  import opened FileTree
  import opened FileList

  /** The registered handlers: the redirect to the index page, and the reports, which all set
      a JSON content type and send the text they have built. */
  datatype Handler = IndexRedirect | Report(name: string)

  datatype RouteText = RouteText(verb: string, path: string, handler: Handler)

  /** A configured router. */
  datatype Site = Site(staticDir: string, paths: seq<string>, routes: seq<RouteText>)

  /** What one request finds outside: readable files and the texts of the reports. */
  datatype World = World(files: map<string, string>, reading: string -> string)

  const NOT_FOUND_PAGE := "<h1>404 Not Found</h1>"

  predicate Matches(route: RouteText, verb: string, uri: string) {
    verb == route.verb && uri == route.path
  }

  function FirstMatch(routes: seq<RouteText>, verb: string, uri: string): Option<Handler> {
    if routes == [] then None
    else if Matches(routes[0], verb, uri) then Some(routes[0].handler)
    else FirstMatch(routes[1..], verb, uri)
  }

  function Handled(h: Handler, r: Reply, w: World): Reply {
    match h
    case IndexRedirect =>
      r.(status := 301, headers := r.headers + [HeaderText("location", "/index.html")])
    case Report(name) =>
      var text := w.reading(name);
      WithBytes(r.(headers := r.headers + [HeaderText("content-type", "application/json")]),
                PrintedInt(|text|), text)
  }

  function NotFound(r: Reply): Reply {
    WithBytes(r, PrintedInt(22), NOT_FOUND_PAGE).(status := 404)
  }

  /** The method and, for GET, the URI are there; without them the source reads through NULL. */
  predicate Routable(m: Message) {
    m.verb.Some? && (m.verb.value == "GET" ==> m.uri.Some?)
  }

  /** What routerHandle needs from its surroundings: if the method is GET, an index to search,
      room for the path, and a short extension on a file that will be sent. */
  predicate Serviceable(site: Site, m: Message) {
    && Routable(m)
    && (m.verb.value == "GET" ==>
          var path := site.staticDir + m.uri.value;
          && site.paths != []
          && |path| < PATH_MAX
          && (path in site.paths ==> |Extension(path)| <= 7))
  }

  /** routerHandle on a response in state r. */
  function Responded(site: Site, m: Message, r: Reply, w: World): Reply
    requires Routable(m)
  {
    if m.verb.value != "GET" then
      r.(status := 501)
    else if site.staticDir + m.uri.value in site.paths then
      WithFile(r, site.staticDir + m.uri.value, w.files)
    else
      match FirstMatch(site.routes, m.verb.value, m.uri.value)
      case Some(h) => Handled(h, r, w)
      case None => NotFound(r)
  }

  function Respond(site: Site, m: Message, w: World): Reply
    requires Routable(m)
  {
    Responded(site, m, NO_REPLY, w)
  }

  // ---------------------------------------------------------------- dispatch

  /** Route i is the earliest one registered for the method and URI. */
  predicate IsEarliest(routes: seq<RouteText>, verb: string, uri: string, i: nat) {
    && i < |routes| && routes[i].verb == verb && routes[i].path == uri
    && forall k | 0 <= k < i :: routes[k].verb != verb || routes[k].path != uri
  }

  /** The route walk finds the earliest registered match, and None only if there is none. */
  lemma {:induction false} FirstMatchIsEarliest(routes: seq<RouteText>, verb: string, uri: string)
    ensures FirstMatch(routes, verb, uri) == None <==> forall i: nat :: !IsEarliest(routes, verb, uri, i)
    ensures forall i: nat | IsEarliest(routes, verb, uri, i) ::
              FirstMatch(routes, verb, uri) == Some(routes[i].handler)
  {
    if routes != [] {
      var rest := routes[1..];
      FirstMatchIsEarliest(rest, verb, uri);
      if Matches(routes[0], verb, uri) {
        assert IsEarliest(routes, verb, uri, 0);
        assert forall i: nat | IsEarliest(routes, verb, uri, i) :: i == 0;
      } else {
        forall i: nat
          ensures IsEarliest(routes, verb, uri, i + 1) <==> IsEarliest(rest, verb, uri, i)
        {
          EarliestShift(routes, verb, uri, i);
        }
        assert !IsEarliest(routes, verb, uri, 0);
        forall i: nat | IsEarliest(routes, verb, uri, i)
          ensures i > 0 && IsEarliest(rest, verb, uri, i - 1) && routes[i] == rest[i - 1]
        {
          EarliestShift(routes, verb, uri, i - 1);
        }
      }
    }
  }

  lemma EarliestShift(routes: seq<RouteText>, verb: string, uri: string, i: nat)
    requires routes != [] && !Matches(routes[0], verb, uri)
    ensures IsEarliest(routes, verb, uri, i + 1) <==> IsEarliest(routes[1..], verb, uri, i)
  {
    var rest := routes[1..];
    assert forall k | 0 <= k < |rest| :: rest[k] == routes[k + 1];
    if IsEarliest(rest, verb, uri, i) {
      forall k | 0 <= k < i + 1
        ensures !Matches(routes[k], verb, uri)
      {
        assert k > 0 ==> routes[k] == rest[k - 1];
      }
    }
    if IsEarliest(routes, verb, uri, i + 1) {
      forall k | 0 <= k < i
        ensures !Matches(rest[k], verb, uri)
      {
        assert rest[k] == routes[k + 1];
      }
    }
  }

  /** Over any registration history: a later registration never changes the answer to a
      request that was already routed. */
  lemma {:induction false} LaterRegistrationsDoNotShadow(routes: seq<RouteText>, more: seq<RouteText>,
                                                         verb: string, uri: string)
    ensures FirstMatch(routes + more, verb, uri) ==
            if FirstMatch(routes, verb, uri).Some? then FirstMatch(routes, verb, uri) else FirstMatch(more, verb, uri)
  {
    if routes == [] {
      assert routes + more == more;
    } else {
      assert (routes + more)[1..] == routes[1..] + more;
      LaterRegistrationsDoNotShadow(routes[1..], more, verb, uri);
    }
  }

  /** What the handlers reply: the redirect 301 and the place of the index page; a report its
      JSON type, its length, its text and, unless one was set, status 200. */
  lemma HandledExact(r: Reply, name: string, w: World)
    ensures Handled(IndexRedirect, r, w) ==
            r.(status := 301, headers := r.headers + [HeaderText("location", "/index.html")])
    ensures Handled(Report(name), r, w) ==
            Reply(if r.status == 0 then 200 else r.status,
                  r.headers + [HeaderText("content-type", "application/json")]
                  + [HeaderText("content-length", PrintedInt(|w.reading(name)|))],
                  Some(w.reading(name)))
  {
    hide PrintedInt;
  }

  /** The 404 page, word by word. */
  lemma NotFoundExact(r: Reply)
    ensures NotFound(r) == Reply(404, r.headers + [HeaderText("content-length", "22")], Some("<h1>404 Not Found</h1>"))
  {
    assert Decimal(22) == "22";
    hide Decimal;
  }

  /** Where every GET goes, by the tree and the registrations: to the file its URI spells out as
      a path of names, else to the earliest route for it, else to the 404 page. */
  lemma DispatchExact(site: Site, root: Listing, m: Message, w: World)
    requires site.paths == Paths(site.staticDir, root)
    requires Routable(m) && m.verb == Some("GET")
    ensures var uri := m.uri.value;
            if LeadsToFile(root, uri) then
              AnsweredBy(site, m) == None && Respond(site, m, w) == WithFile(NO_REPLY, site.staticDir + uri, w.files)
            else
              && (forall i: nat | IsEarliest(site.routes, "GET", uri, i) ::
                    && AnsweredBy(site, m) == Some(site.routes[i].handler)
                    && Respond(site, m, w) == Handled(site.routes[i].handler, NO_REPLY, w))
              && ((forall i: nat :: !IsEarliest(site.routes, "GET", uri, i)) ==>
                    && AnsweredBy(site, m) == None && Respond(site, m, w) == NotFound(NO_REPLY)
                    && Respond(site, m, w).status == 404
                    && Respond(site, m, w).headers == [HeaderText("content-length", "22")]
                    && Respond(site, m, w).body == Some("<h1>404 Not Found</h1>"))
  {
    hide Paths, LeadsToFile, IsEarliest, FirstMatch, Handled, WithFile, NotFound;
    var uri := m.uri.value;
    PathsExact(site.staticDir, root, uri);
    FirstMatchIsEarliest(site.routes, "GET", uri);
    NotFoundExact(NO_REPLY);
  }

  // ---------------------------------------------------------------- what every reply satisfies

  function Named(hs: seq<HeaderText>, name: string): seq<string> {
    if hs == [] then [] else (if hs[0].name == name then [hs[0].value] else []) + Named(hs[1..], name)
  }

  lemma {:induction false} NamedConcat(a: seq<HeaderText>, b: seq<HeaderText>, name: string)
    ensures Named(a + b, name) == Named(a, name) + Named(b, name)
  {
    if a == [] {
      assert a + b == b;
    } else {
      assert (a + b)[1..] == a[1..] + b;
      NamedConcat(a[1..], b, name);
    }
  }

  lemma NamedOne(h: HeaderText, name: string)
    ensures Named([h], name) == if h.name == name then [h.value] else []
  {
    assert [h][1..] == [];
  }

  /** A content-length header occurs once if there is a body, and reads as its length; without
      a body there is none. */
  predicate Framed(r: Reply) {
    match r.body
    case None => Named(r.headers, "content-length") == []
    case Some(bytes) =>
      && |Named(r.headers, "content-length")| == 1
      && ParseDecimal(Named(r.headers, "content-length")[0]) == Some(|bytes|)
  }

  /** No length has been announced yet. */
  predicate Unframed(r: Reply) {
    r.body.None? && Named(r.headers, "content-length") == []
  }

  lemma WithBytesFramed(r: Reply, lengthText: string, bytes: string)
    requires Unframed(r) && ParseDecimal(lengthText) == Some(|bytes|)
    ensures Framed(WithBytes(r, lengthText, bytes))
  {
    var h := HeaderText("content-length", lengthText);
    NamedConcat(r.headers, [h], "content-length");
    NamedOne(h, "content-length");
  }

  lemma OtherHeaderUnframed(r: Reply, h: HeaderText)
    requires Unframed(r) && h.name != "content-length"
    ensures Unframed(r.(headers := r.headers + [h]))
  {
    NamedConcat(r.headers, [h], "content-length");
    NamedOne(h, "content-length");
  }

  lemma {:induction false} MimeUnframed(fileExt: string, i: nat)
    requires i <= |MIME|
    ensures Named(MimeHeaders(fileExt, i), "content-length") == []
    decreases |MIME| - i
  {
    hide MIME;
    if i < |MIME| {
      var h := HeaderText("content-type", MIME[i].mediaType);
      MimeUnframed(fileExt, i + 1);
      NamedOne(h, "content-length");
      NamedConcat([h], MimeHeaders(fileExt, i + 1), "content-length");
      assert [] + MimeHeaders(fileExt, i + 1) == MimeHeaders(fileExt, i + 1);
    }
  }

  lemma WithFileFramed(r: Reply, path: string, files: map<string, string>)
    requires Unframed(r)
    ensures Framed(WithFile(r, path, files))
  {
    hide MimeHeaders, Extension, Decimal;
    MimeUnframed(Extension(path), 0);
    NamedConcat(r.headers, MimeHeaders(Extension(path), 0), "content-length");
    if path in files {
      DecimalRoundTrip(|files[path]|);
      var typed := r.(headers := r.headers + MimeHeaders(Extension(path), 0));
      WithBytesFramed(typed, Decimal(|files[path]|), files[path]);
    }
  }

  /** The handler that answers, if it is not a file, a 404 or a 501. */
  function AnsweredBy(site: Site, m: Message): Option<Handler>
    requires Routable(m)
  {
    if m.verb.value != "GET" || site.staticDir + m.uri.value in site.paths then None
    else FirstMatch(site.routes, m.verb.value, m.uri.value)
  }

  lemma ReportFramedExact(r: Reply, text: string)
    requires Unframed(r)
    ensures Framed(WithBytes(r, PrintedInt(|text|), text)) <==> |text| < 0x8000_0000
  {
    hide PrintedInt;
    var h := HeaderText("content-length", PrintedInt(|text|));
    NamedConcat(r.headers, [h], "content-length");
    NamedOne(h, "content-length");
    ContentLengthExact(|text|);
  }

  lemma HandledFramedExact(h: Handler, r: Reply, w: World)
    requires Unframed(r)
    ensures Framed(Handled(h, r, w)) <==> (h.Report? ==> |w.reading(h.name)| < 0x8000_0000)
  {
    hide PrintedInt, Named;
    match h
    case IndexRedirect => OtherHeaderUnframed(r, HeaderText("location", "/index.html"));
    case Report(name) =>
      var typed := HeaderText("content-type", "application/json");
      OtherHeaderUnframed(r, typed);
      ReportFramedExact(r.(headers := r.headers + [typed]), w.reading(name));
  }

  /** On every path through the router the length header is right, unless a report builds a
      text of 2^31 bytes or more, whose length "%d" misprints. */
  lemma RespondFramedExact(site: Site, m: Message, w: World)
    requires Routable(m)
    ensures Framed(Respond(site, m, w)) <==>
            (forall name | AnsweredBy(site, m) == Some(Report(name)) :: |w.reading(name)| < 0x8000_0000)
  {
    hide FirstMatch, WithFile, WithBytes, Handled, PrintedInt, Named;
    NoReplyUnframed();
    if m.verb.value != "GET" {
    } else if site.staticDir + m.uri.value in site.paths {
      WithFileFramed(NO_REPLY, site.staticDir + m.uri.value, w.files);
    } else {
      match FirstMatch(site.routes, m.verb.value, m.uri.value)
      case Some(h) => HandledFramedExact(h, NO_REPLY, w);
      case None => NotFoundFramed();
    }
  }

  lemma NoReplyUnframed()
    ensures Unframed(NO_REPLY) && Framed(NO_REPLY.(status := 501))
  {
  }

  lemma NotFoundFramed()
    ensures Framed(NotFound(NO_REPLY)) && |NOT_FOUND_PAGE| == 22
  {
    hide PrintedInt;
    ContentLengthExact(22);
    WithBytesFramed(NO_REPLY, PrintedInt(22), NOT_FOUND_PAGE);
  }

  /** The status is one of four, all of them in the phrase table, so the unbounded phrase
      search of responseToBuffer ends inside it. */
  lemma RespondSendable(site: Site, m: Message, w: World)
    requires Routable(m)
    ensures Respond(site, m, w).status in {200, 301, 404, 501}
    ensures Sendable(Respond(site, m, w))
  {
    assert Respond(site, m, w).status in {200, 301, 404, 501} by {
      hide FirstMatch, MimeHeaders, PrintedInt, Extension, Decimal;
    }
    KnownPhrases();
    hide HasPhrase, Responded;
  }

  lemma KnownPhrases()
    ensures HasPhrase(200) && HasPhrase(301) && HasPhrase(404) && HasPhrase(501)
  {
    assert PHRASES[0].code == 200 && PHRASES[1].code == 301 && PHRASES[5].code == 404 && PHRASES[7].code == 501;
  }

  // ---------------------------------------------------------------- every reply can be read back

  function Power10(k: nat): nat {
    if k == 0 then 1 else 10 * Power10(k - 1)
  }

  lemma {:induction false} DecimalLength(n: nat, k: nat)
    requires k > 0 && n < Power10(k)
    ensures |Decimal(n)| <= k
  {
    if n >= 10 {
      assert Power10(1) == 10 * Power10(0) == 10;
      DecimalLength(n / 10, k - 1);
    }
  }

  lemma IntLength(n: nat)
    requires n <= 0x8000_0000
    ensures |Decimal(n)| <= 10
  {
    assert Power10(2) == 10 * Power10(1) == 100;
    assert Power10(4) == 10 * Power10(3) == 100 * Power10(2);
    assert Power10(6) == 10 * Power10(5) == 100 * Power10(4);
    assert Power10(8) == 10 * Power10(7) == 100 * Power10(6);
    assert Power10(10) == 10 * Power10(9) == 100 * Power10(8);
    DecimalLength(n, 10);
  }

  lemma PrintedIntPrintable(n: nat)
    ensures Printable(HeaderText("content-length", PrintedInt(n)))
  {
    var i := AsInt(n);
    var digits := Decimal(if i >= 0 then i else -i);
    IntLength(if i >= 0 then i else -i);
    DigitsPlain(if i >= 0 then i else -i);
    if i < 0 {
      MinusPlain();
      CrlfFreeConcat("-", digits);
      assert PrintedInt(n) == "-" + digits;
    }
    hide Decimal, CrlfFree;
    LettersPrintable("content-length", PrintedInt(n));
  }

  lemma MinusPlain()
    ensures CrlfFree("-")
  {
  }

  lemma DecimalPrintable(n: nat)
    requires n <= 0x8000_0000
    ensures Printable(HeaderText("content-length", Decimal(n)))
  {
    IntLength(n);
    DigitsPlain(n);
    assert IsDigit(Decimal(n)[0]);
    hide Decimal, CrlfFree;
    LettersPrintable("content-length", Decimal(n));
  }

  predicate PlainType(t: string) {
    0 < |t| < 100 && forall i | 0 <= i < |t| :: t[i] == '/' || 'a' <= t[i] <= 'z' || t[i] == '-'
  }

  lemma MimeTypes(i: nat)
    requires i < |MIME|
    ensures PlainType(MIME[i].mediaType)
  {
    if i < 3 {
      assert i == 0 || i == 1 || i == 2;
    } else {
      assert i == 3 || i == 4 || i == 5;
    }
  }

  lemma MimePrintable(i: nat)
    requires i < |MIME|
    ensures Printable(HeaderText("content-type", MIME[i].mediaType))
  {
    MimeTypes(i);
    var t := MIME[i].mediaType;
    hide MIME;
    assert CrlfFree(t);
    LettersPrintable("content-type", t);
  }

  lemma {:induction false} MimeHeadersPrintable(fileExt: string, i: nat)
    requires i <= |MIME|
    ensures forall h | h in MimeHeaders(fileExt, i) :: Printable(h)
    decreases |MIME| - i
  {
    hide MIME, Printable;
    if i < |MIME| {
      MimePrintable(i);
      MimeHeadersPrintable(fileExt, i + 1);
    }
  }

  lemma HandledPrintable(h: Handler, w: World)
    ensures forall x | x in Handled(h, NO_REPLY, w).headers :: Printable(x)
  {
    LettersPrintable("location", "/index.html");
    LettersPrintable("content-type", "application/json");
    if h.Report? {
      PrintedIntPrintable(|w.reading(h.name)|);
    }
    hide Printable, PrintedInt;
  }

  lemma WithFilePrintable(path: string, files: map<string, string>)
    requires path in files ==> |files[path]| <= 0x8000_0000
    ensures forall x | x in WithFile(NO_REPLY, path, files).headers :: Printable(x)
  {
    hide Printable, MimeHeaders, Extension, Decimal;
    MimeHeadersPrintable(Extension(path), 0);
    if path in files {
      DecimalPrintable(|files[path]|);
    }
  }

  lemma RespondPrintable(site: Site, m: Message, w: World)
    requires Routable(m) && |BodyOf(Respond(site, m, w))| <= 0x8000_0000
    ensures forall h | h in Respond(site, m, w).headers :: Printable(h)
  {
    hide Printable, FirstMatch, Handled, WithFile, PrintedInt;
    if m.verb.value != "GET" {
    } else if site.staticDir + m.uri.value in site.paths {
      FileBody(site.staticDir + m.uri.value, w.files);
      WithFilePrintable(site.staticDir + m.uri.value, w.files);
    } else {
      match FirstMatch(site.routes, m.verb.value, m.uri.value)
      case Some(h) => HandledPrintable(h, w);
      case None => PrintedIntPrintable(22);
    }
  }

  lemma FileBody(path: string, files: map<string, string>)
    ensures path in files ==> BodyOf(WithFile(NO_REPLY, path, files)) == files[path]
  {
    hide MimeHeaders, Decimal, Extension;
  }

  /** A client that reads the answer with the same line reader and header parser recovers
      exactly the headers of the reply and the universal ones, in order, and the body. */
  lemma RespondReadBack(site: Site, m: Message, w: World)
    requires Routable(m) && |BodyOf(Respond(site, m, w))| <= 0x8000_0000
    ensures Sendable(Respond(site, m, w))
    ensures var r := Respond(site, m, w);
            && AbsorbAll(EMPTY, Lines(Wire(r))) == EMPTY.(headers := r.headers + UNIVERSAL)
            && BodyText(Wire(r)) == BodyOf(r)
  {
    RespondSendable(site, m, w);
    RespondPrintable(site, m, w);
    hide Respond, Printable, Sendable;
    WireReadBack(Respond(site, m, w));
  }

  // ---------------------------------------------------------------- how long a head can get

  const HEAD_MAX: nat := 1024

  /** The characters a header list takes when printed. */
  function Size(hs: seq<HeaderText>): nat {
    |Joined(HeaderLines(hs))|
  }

  lemma SizeConcat(a: seq<HeaderText>, b: seq<HeaderText>)
    ensures Size(a + b) == Size(a) + Size(b)
  {
    PrintedConcat(a, b);
  }

  lemma SizeOne(name: string, value: string)
    ensures Size([HeaderText(name, value)]) == |name| + |value| + 4
  {
    PrintedOne(name, value);
  }

  lemma UniversalSize()
    ensures Size(UNIVERSAL) == 73
  {
    var a, b, c := UNIVERSAL[0], UNIVERSAL[1], UNIVERSAL[2];
    SizeOne(a.name, a.value);
    SizeOne(b.name, b.value);
    SizeOne(c.name, c.value);
    SizeConcat([a], [b]);
    SizeConcat([a] + [b], [c]);
    hide Size;
    assert UNIVERSAL == [a] + [b] + [c];
  }

  lemma {:induction false} MimeSize(fileExt: string, i: nat)
    requires i <= |MIME|
    ensures Size(MimeHeaders(fileExt, i)) <= 116 * (|MIME| - i)
    decreases |MIME| - i
  {
    hide MIME;
    if i < |MIME| {
      var one := [HeaderText("content-type", MIME[i].mediaType)];
      MimeTypes(i);
      SizeOne("content-type", MIME[i].mediaType);
      MimeSize(fileExt, i + 1);
      hide Size;
      SizeConcat(one, MimeHeaders(fileExt, i + 1));
      assert [] + MimeHeaders(fileExt, i + 1) == MimeHeaders(fileExt, i + 1);
    }
  }

  lemma WithBytesSize(r: Reply, lengthText: string, bytes: string)
    requires |lengthText| <= 11
    ensures Size(WithBytes(r, lengthText, bytes).headers) <= Size(r.headers) + 29
  {
    SizeOne("content-length", lengthText);
    hide Size;
    SizeConcat(r.headers, [HeaderText("content-length", lengthText)]);
  }

  lemma PrintedIntLength(n: nat)
    ensures |PrintedInt(n)| <= 11
  {
    var i := AsInt(n);
    IntLength(if i >= 0 then i else -i);
    hide Decimal;
  }

  lemma NoHeadersSize()
    ensures Size([]) == 0
  {
  }

  lemma WithFileSize(path: string, files: map<string, string>)
    requires path in files ==> |files[path]| <= 0x8000_0000
    ensures Size(WithFile(NO_REPLY, path, files).headers) <= 725
  {
    hide MimeHeaders, Extension, Decimal, Size;
    MimeSize(Extension(path), 0);
    var mime := MimeHeaders(Extension(path), 0);
    assert [] + mime == mime;
    if path in files {
      IntLength(|files[path]|);
      WithBytesSize(NO_REPLY.(headers := mime), Decimal(|files[path]|), files[path]);
    }
  }

  lemma HandledSize(h: Handler, w: World)
    ensures Size(Handled(h, NO_REPLY, w).headers) <= 725
  {
    NoHeadersSize();
    SizeOne("location", "/index.html");
    SizeOne("content-type", "application/json");
    hide Size, PrintedInt;
    assert [] + [HeaderText("location", "/index.html")] == [HeaderText("location", "/index.html")];
    assert [] + [HeaderText("content-type", "application/json")] == [HeaderText("content-type", "application/json")];
    if h.Report? {
      var text := w.reading(h.name);
      PrintedIntLength(|text|);
      WithBytesSize(NO_REPLY.(headers := [HeaderText("content-type", "application/json")]), PrintedInt(|text|), text);
    }
  }

  lemma NotFoundSize()
    ensures Size(NotFound(NO_REPLY).headers) <= 725
  {
    NoHeadersSize();
    hide Size, PrintedInt;
    PrintedIntLength(22);
    WithBytesSize(NO_REPLY, PrintedInt(22), NOT_FOUND_PAGE);
  }

  lemma RespondSize(site: Site, m: Message, w: World)
    requires Routable(m) && |BodyOf(Respond(site, m, w))| <= 0x8000_0000
    ensures Size(Respond(site, m, w).headers) <= 725
  {
    hide Size, FirstMatch, Handled, WithFile, NotFound;
    NoHeadersSize();
    if m.verb.value != "GET" {
    } else if site.staticDir + m.uri.value in site.paths {
      FileBody(site.staticDir + m.uri.value, w.files);
      WithFileSize(site.staticDir + m.uri.value, w.files);
    } else {
      match FirstMatch(site.routes, m.verb.value, m.uri.value)
      case Some(h) => HandledSize(h, w);
      case None => NotFoundSize();
    }
  }

  lemma HeadSize(r: Reply)
    requires Sendable(r)
    ensures |HeadOf(r)| <= Size(r.headers) + 73 + 115
  {
    StatusTailPlain(SentStatus(r.status));
    hide HasPhrase, PhraseText, Decimal;
    UniversalSize();
    SizeConcat(r.headers, UNIVERSAL);
  }

  /** Status line and headers of any reply take at most HEAD_MAX characters. */
  lemma RespondHeadFits(site: Site, m: Message, w: World)
    requires Routable(m) && |BodyOf(Respond(site, m, w))| <= 0x8000_0000
    ensures Sendable(Respond(site, m, w))
    ensures |HeadOf(Respond(site, m, w))| <= 1024
  {
    RespondSendable(site, m, w);
    RespondSize(site, m, w);
    hide Respond, Sendable, HeadOf, Size;
    HeadSize(Respond(site, m, w));
  }
}
