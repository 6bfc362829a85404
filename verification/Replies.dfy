/** Responses as values: what goes on the wire, and what a reader recovers from it. */
module Replies {
  import opened Text
  import opened Tokenizer
  import opened Fields
  import opened Grammar
  import opened Headers
  import opened Parsing
  import opened RoundTrip

  const NONE: nat := 0

  /** A response under construction; status NONE until one is set. */
  datatype Reply = Reply(status: nat, headers: seq<HeaderText>, body: Option<string>)

  const NO_REPLY := Reply(NONE, [], None)

  datatype Phrase = Phrase(code: nat, text: string)

  const PHRASES: seq<Phrase> := [
    Phrase(200, "OK"),
    Phrase(301, "Moved Permanently"),
    Phrase(400, "Bad Request"),
    Phrase(401, "Unauthorized"),
    Phrase(403, "Forbidden"),
    Phrase(404, "Not Found"),
    Phrase(500, "Internal Server Error"),
    Phrase(501, "Not Implemented"),
    Phrase(502, "Bad Gateway"),
    Phrase(503, "Service Unavailable"),
    Phrase(504, "Gateway Timeout")
  ]

  const UNIVERSAL: seq<HeaderText> := [
    HeaderText("server", "asmot_v0.1.1"),
    HeaderText("connection", "close"),
    HeaderText("Access-Control-Allow-Origin", "*")
  ]

  /** The position of a status code in the phrase table, from i on; the table's end if absent. */
  function PhraseIndex(code: nat, i: nat): (r: nat)
    requires i <= |PHRASES|
    ensures i <= r <= |PHRASES|
    ensures r < |PHRASES| ==> PHRASES[r].code == code
    ensures forall k | i <= k < r :: PHRASES[k].code != code
    decreases |PHRASES| - i
  {
    if i == |PHRASES| || PHRASES[i].code == code then i else PhraseIndex(code, i + 1)
  }

  predicate HasPhrase(code: nat) {
    PhraseIndex(code, 0) < |PHRASES|
  }

  function PhraseText(code: nat): string
    requires HasPhrase(code)
  {
    PHRASES[PhraseIndex(code, 0)].text
  }

  /** The status that is sent: 500 if none was set. */
  function SentStatus(status: nat): nat {
    if status == NONE then 500 else status
  }

  function StatusLineText(code: nat): string
    requires HasPhrase(code)
  {
    "HTTP/1.1" + (" " + (Decimal(code) + (" " + PhraseText(code))))
  }

  /** Status line, headers, blank line. */
  function Head(code: nat, hs: seq<HeaderText>): string
    requires HasPhrase(code)
  {
    StatusLineText(code) + CRLF + Joined(HeaderLines(hs)) + CRLF
  }

  function BodyOf(r: Reply): string {
    if r.body.None? then "" else r.body.value
  }

  predicate Sendable(r: Reply) {
    HasPhrase(SentStatus(r.status))
  }

  function HeadOf(r: Reply): string
    requires Sendable(r)
  {
    Head(SentStatus(r.status), r.headers + UNIVERSAL)
  }

  /** The bytes of a response. */
  function Wire(r: Reply): string
    requires Sendable(r)
  {
    HeadOf(r) + BodyOf(r)
  }

  // ---------------------------------------------------------------- character by character

  lemma DecimalThree(n: nat)
    requires 100 <= n < 1000
    ensures Decimal(n) == [Digit(n / 100), Digit(n / 10 % 10), Digit(n % 10)]
  {
    assert Decimal(n) == Decimal(n / 10) + [Digit(n % 10)];
    assert Decimal(n / 10) == Decimal(n / 10 / 10) + [Digit(n / 10 % 10)];
    assert Decimal(n / 10 / 10) == [Digit(n / 10 / 10)];
  }

  lemma PhraseTable()
    ensures |PHRASES| == 11
    ensures PHRASES[0] == Phrase(200, "OK") && PHRASES[1] == Phrase(301, "Moved Permanently")
    ensures PHRASES[2] == Phrase(400, "Bad Request") && PHRASES[3] == Phrase(401, "Unauthorized")
    ensures PHRASES[4] == Phrase(403, "Forbidden") && PHRASES[5] == Phrase(404, "Not Found")
    ensures PHRASES[6] == Phrase(500, "Internal Server Error") && PHRASES[7] == Phrase(501, "Not Implemented")
    ensures PHRASES[8] == Phrase(502, "Bad Gateway") && PHRASES[9] == Phrase(503, "Service Unavailable")
    ensures PHRASES[10] == Phrase(504, "Gateway Timeout")
  {
  }

  lemma PhraseCodes()
    ensures |PHRASES| == 11
    ensures PHRASES[0].code == 200 && PHRASES[1].code == 301 && PHRASES[2].code == 400 && PHRASES[3].code == 401
    ensures PHRASES[4].code == 403 && PHRASES[5].code == 404 && PHRASES[6].code == 500 && PHRASES[7].code == 501
    ensures PHRASES[8].code == 502 && PHRASES[9].code == 503 && PHRASES[10].code == 504
  {
  }

  lemma StatusLineOf(code: nat, i: nat)
    requires i < |PHRASES| && PHRASES[i].code == code && 100 <= code < 1000
    ensures HasPhrase(code)
    ensures StatusLineText(code) ==
            "HTTP/1.1 " + [Digit(code / 100), Digit(code / 10 % 10), Digit(code % 10), ' '] + PHRASES[i].text
  {
    DecimalThree(code);
    PhraseCodes();
    hide Decimal, PHRASES;
    assert PhraseIndex(code, 0) == i;
  }

  /** The status lines, one by one; there are no others. */
  lemma StatusLineExact(code: nat)
    ensures HasPhrase(code) <==> code in {200, 301, 400, 401, 403, 404, 500, 501, 502, 503, 504}
    ensures code == 200 ==> HasPhrase(code) && StatusLineText(code) == "HTTP/1.1 200 OK"
    ensures code == 301 ==> HasPhrase(code) && StatusLineText(code) == "HTTP/1.1 301 Moved Permanently"
    ensures code == 400 ==> HasPhrase(code) && StatusLineText(code) == "HTTP/1.1 400 Bad Request"
    ensures code == 401 ==> HasPhrase(code) && StatusLineText(code) == "HTTP/1.1 401 Unauthorized"
    ensures code == 403 ==> HasPhrase(code) && StatusLineText(code) == "HTTP/1.1 403 Forbidden"
    ensures code == 404 ==> HasPhrase(code) && StatusLineText(code) == "HTTP/1.1 404 Not Found"
    ensures code == 500 ==> HasPhrase(code) && StatusLineText(code) == "HTTP/1.1 500 Internal Server Error"
    ensures code == 501 ==> HasPhrase(code) && StatusLineText(code) == "HTTP/1.1 501 Not Implemented"
    ensures code == 502 ==> HasPhrase(code) && StatusLineText(code) == "HTTP/1.1 502 Bad Gateway"
    ensures code == 503 ==> HasPhrase(code) && StatusLineText(code) == "HTTP/1.1 503 Service Unavailable"
    ensures code == 504 ==> HasPhrase(code) && StatusLineText(code) == "HTTP/1.1 504 Gateway Timeout"
  {
    hide *;
    StatusOk();
    StatusMoved();
    StatusBadRequest();
    StatusUnauthorized();
    StatusForbidden();
    StatusNotFound();
    StatusInternal();
    StatusNotImplemented();
    StatusBadGateway();
    StatusUnavailable();
    StatusTimeout();
    NoOtherPhrase(code);
  }

  lemma StatusOk()
    ensures HasPhrase(200) && StatusLineText(200) == "HTTP/1.1 200 OK"
  {
    PhraseTable();
    hide HasPhrase, StatusLineText, PHRASES;
    StatusLineOf(200, 0);
  }

  lemma StatusMoved()
    ensures HasPhrase(301) && StatusLineText(301) == "HTTP/1.1 301 Moved Permanently"
  {
    PhraseTable();
    hide HasPhrase, StatusLineText, PHRASES;
    StatusLineOf(301, 1);
  }

  lemma StatusBadRequest()
    ensures HasPhrase(400) && StatusLineText(400) == "HTTP/1.1 400 Bad Request"
  {
    PhraseTable();
    hide HasPhrase, StatusLineText, PHRASES;
    StatusLineOf(400, 2);
  }

  lemma StatusUnauthorized()
    ensures HasPhrase(401) && StatusLineText(401) == "HTTP/1.1 401 Unauthorized"
  {
    PhraseTable();
    hide HasPhrase, StatusLineText, PHRASES;
    StatusLineOf(401, 3);
  }

  lemma StatusForbidden()
    ensures HasPhrase(403) && StatusLineText(403) == "HTTP/1.1 403 Forbidden"
  {
    PhraseTable();
    hide HasPhrase, StatusLineText, PHRASES;
    StatusLineOf(403, 4);
  }

  lemma StatusNotFound()
    ensures HasPhrase(404) && StatusLineText(404) == "HTTP/1.1 404 Not Found"
  {
    PhraseTable();
    hide HasPhrase, StatusLineText, PHRASES;
    StatusLineOf(404, 5);
  }

  lemma StatusInternal()
    ensures HasPhrase(500) && StatusLineText(500) == "HTTP/1.1 500 Internal Server Error"
  {
    PhraseTable();
    hide HasPhrase, StatusLineText, PHRASES;
    StatusLineOf(500, 6);
  }

  lemma StatusNotImplemented()
    ensures HasPhrase(501) && StatusLineText(501) == "HTTP/1.1 501 Not Implemented"
  {
    PhraseTable();
    hide HasPhrase, StatusLineText, PHRASES;
    StatusLineOf(501, 7);
  }

  lemma StatusBadGateway()
    ensures HasPhrase(502) && StatusLineText(502) == "HTTP/1.1 502 Bad Gateway"
  {
    PhraseTable();
    hide HasPhrase, StatusLineText, PHRASES;
    StatusLineOf(502, 8);
  }

  lemma StatusUnavailable()
    ensures HasPhrase(503) && StatusLineText(503) == "HTTP/1.1 503 Service Unavailable"
  {
    PhraseTable();
    hide HasPhrase, StatusLineText, PHRASES;
    StatusLineOf(503, 9);
  }

  lemma StatusTimeout()
    ensures HasPhrase(504) && StatusLineText(504) == "HTTP/1.1 504 Gateway Timeout"
  {
    PhraseTable();
    hide HasPhrase, StatusLineText, PHRASES;
    StatusLineOf(504, 10);
  }

  lemma JoinedStep(hs: seq<HeaderText>)
    requires hs != []
    ensures Joined(HeaderLines(hs)) == (HeaderLineText(hs[0]) + CRLF) + Joined(HeaderLines(hs[1..]))
  {
    hide HeaderLineText;
    assert HeaderLines(hs)[1..] == HeaderLines(hs[1..]);
  }

  lemma {:induction false} PrintedConcat(a: seq<HeaderText>, b: seq<HeaderText>)
    ensures Joined(HeaderLines(a + b)) == Joined(HeaderLines(a)) + Joined(HeaderLines(b))
  {
    hide HeaderLineText;
    if a == [] {
      assert a + b == b;
    } else {
      assert (a + b)[1..] == a[1..] + b;
      PrintedConcat(a[1..], b);
      JoinedStep(a);
      JoinedStep(a + b);
    }
  }

  lemma PrintedOne(name: string, value: string)
    ensures Joined(HeaderLines([HeaderText(name, value)])) == name + ": " + value + "\r\n"
  {
    var hs := [HeaderText(name, value)];
    JoinedStep(hs);
    assert hs[1..] == [];
  }

  /** What every response ends its headers with. */
  const LAST_HEADERS :=
    "server: asmot_v0.1.1\r\n" + ("connection: close\r\n" + ("Access-Control-Allow-Origin: *\r\n" + "\r\n"))

  /** The three headers of every response. */
  lemma UniversalExact()
    ensures UNIVERSAL ==
            [HeaderText("server", "asmot_v0.1.1"), HeaderText("connection", "close"),
             HeaderText("Access-Control-Allow-Origin", "*")]
    ensures LAST_HEADERS ==
            "server: asmot_v0.1.1\r\n"
            + ("connection: close\r\n" + ("Access-Control-Allow-Origin: *\r\n" + "\r\n"))
  {
  }

  lemma UniversalTexts()
    ensures "server" + ": " + "asmot_v0.1.1" + "\r\n" == "server: asmot_v0.1.1\r\n"
    ensures "connection" + ": " + "close" + "\r\n" == "connection: close\r\n"
    ensures "Access-Control-Allow-Origin" + ": " + "*" + "\r\n" == "Access-Control-Allow-Origin: *\r\n"
  {
  }

  lemma PrintedThree(a: HeaderText, b: HeaderText, c: HeaderText)
    ensures Joined(HeaderLines([a, b, c])) + "\r\n" ==
            a.name + ": " + a.value + "\r\n"
            + (b.name + ": " + b.value + "\r\n" + (c.name + ": " + c.value + "\r\n" + "\r\n"))
  {
    hide *;
    var x, y, z := Joined(HeaderLines([a])), Joined(HeaderLines([b])), Joined(HeaderLines([c]));
    PrintedConcat([a], [b]);
    PrintedConcat([a] + [b], [c]);
    assert [a, b, c] == [a] + [b] + [c];
    Regrouped(x, y, z, "\r\n");
    PrintedOne(a.name, a.value);
    PrintedOne(b.name, b.value);
    PrintedOne(c.name, c.value);
  }

  lemma Regrouped(x: string, y: string, z: string, end: string)
    ensures x + y + z + end == x + (y + (z + end))
  {
  }

  lemma UniversalPrinted()
    ensures Joined(HeaderLines(UNIVERSAL)) + "\r\n" == LAST_HEADERS
  {
    UniversalTexts();
    hide Joined, HeaderLines;
    var server, connection, origin := UNIVERSAL[0], UNIVERSAL[1], UNIVERSAL[2];
    PrintedThree(server, connection, origin);
    assert UNIVERSAL == [server, connection, origin];
  }

  /** The bytes of a response: the status line, 500 if no status was set, every header as
      "name: value", the three universal ones, the blank line, and the body. */
  lemma WireExact(r: Reply)
    requires Sendable(r)
    ensures var code := if r.status == 0 then 500 else r.status;
            && HasPhrase(code)
            && Wire(r) == StatusLineText(code) + "\r\n" + Joined(HeaderLines(r.headers)) + LAST_HEADERS + BodyOf(r)
  {
    UniversalPrinted();
    PrintedConcat(r.headers, UNIVERSAL);
    hide HasPhrase, StatusLineText, Joined, HeaderLines, LAST_HEADERS, UNIVERSAL;
  }

  lemma NoOtherPhrase(code: nat)
    ensures HasPhrase(code) ==> code in {200, 301, 400, 401, 403, 404, 500, 501, 502, 503, 504}
  {
    var i := PhraseIndex(code, 0);
    if i < |PHRASES| {
      PhraseCodes();
      hide PHRASES;
      assert 0 <= i < 11;
    }
  }

  // ---------------------------------------------------------------- content-length

  /** The int that printf("%d") finds in a size_t argument: its low 32 bits, signed. */
  function AsInt(size: nat): int {
    var low := size % 0x1_0000_0000;
    if low < 0x8000_0000 then low else low - 0x1_0000_0000
  }

  function PrintedInt(size: nat): string {
    var i := AsInt(size);
    if i >= 0 then Decimal(i) else "-" + Decimal(-i)
  }

  /** The announced length is the body length exactly below 2^31. */
  lemma ContentLengthExact(size: nat)
    ensures ParseDecimal(PrintedInt(size)) == Some(size) <==> size < 0x8000_0000
  {
    var i := AsInt(size);
    if i >= 0 {
      DecimalRoundTrip(i);
    } else {
      assert PrintedInt(size)[0] == '-';
      assert !IsDigit('-');
    }
  }

  /** The first size that is misprinted: its text is no length at all. */
  lemma LongSizeIsMisprinted()
    ensures PrintedInt(0x8000_0000) == "-2147483648"
    ensures ParseDecimal(PrintedInt(0x8000_0000)) == None
  {
    LongSizeDigits();
    hide Decimal;
    assert AsInt(0x8000_0000) < 0;
    assert PrintedInt(0x8000_0000)[0] == '-';
    assert !IsDigit('-');
  }

  lemma DecimalSnoc(n: nat, q: nat, d: nat, text: string)
    requires n == 10 * q + d && q > 0 && d < 10 && Decimal(q) == text
    ensures Decimal(n) == text + [Digit(d)]
  {
  }

  lemma LongSizeDigits()
    ensures Decimal(0x8000_0000) == "2147483648"
  {
    assert Decimal(2) == "2";
    hide Decimal;
    DecimalSnoc(21, 2, 1, "2");
    DecimalSnoc(214, 21, 4, "21");
    DecimalSnoc(2147, 214, 7, "214");
    DecimalSnoc(21474, 2147, 4, "2147");
    DecimalSnoc(214748, 21474, 8, "21474");
    DecimalSnoc(2147483, 214748, 3, "214748");
    DecimalSnoc(21474836, 2147483, 6, "2147483");
    DecimalSnoc(214748364, 21474836, 4, "21474836");
    DecimalSnoc(2147483648, 214748364, 8, "214748364");
  }

  // ---------------------------------------------------------------- reading a response

  lemma StatusLineRead(code: nat)
    requires HasPhrase(code)
    ensures IsLine(StatusLineText(code))
    ensures !RequestLine(StatusLineText(code)) && !HeaderLine(StatusLineText(code))
  {
    hide Tokens, PhraseText, HasPhrase, CrlfFree, METHODS;
    var tail := " " + (Decimal(code) + (" " + PhraseText(code)));
    VersionToken();
    TokensOfWord("HTTP/1.1", tail);
    VersionNoMethod();
    StatusTailPlain(code);
    CrlfFreeConcat("HTTP/1.1", tail);
  }

  lemma VersionToken()
    ensures IsToken("HTTP/1.1") && CrlfFree("HTTP/1.1")
  {
  }

  lemma VersionNoMethod()
    ensures "HTTP/1.1" !in METHODS
  {
    forall m | m in METHODS
      ensures |m| <= 7
    {
      var i :| 0 <= i < |METHODS| && METHODS[i] == m;
      assert i == 0 || i == 1 || i == 2 || i == 3 || i == 4 || i == 5 || i == 6 || i == 7 || i == 8;
    }
  }

  lemma StatusTailPlain(code: nat)
    requires HasPhrase(code)
    ensures CrlfFree(" " + (Decimal(code) + (" " + PhraseText(code))))
    ensures |Decimal(code)| + |PhraseText(code)| < 100
  {
    PhrasePlain(PhraseIndex(code, 0));
    DigitsPlain(code);
    hide Decimal, CrlfFree, PhraseText;
    SpaceIsPlain();
    CrlfFreeConcat(" ", PhraseText(code));
    CrlfFreeConcat(Decimal(code), " " + PhraseText(code));
    CrlfFreeConcat(" ", Decimal(code) + (" " + PhraseText(code)));
  }

  predicate Words(t: string) {
    forall i | 0 <= i < |t| :: 'a' <= t[i] <= 'z' || 'A' <= t[i] <= 'Z' || t[i] == ' '
  }

  lemma WordsPlain(t: string)
    requires Words(t)
    ensures CrlfFree(t) && NulFree(t)
  {
  }

  lemma PhrasePlain(i: nat)
    requires i < |PHRASES|
    ensures CrlfFree(PHRASES[i].text) && NulFree(PHRASES[i].text)
    ensures |PHRASES[i].text| <= 21 && PHRASES[i].code < 1000
  {
    if i < 4 {
      PhraseWords1(i);
    } else if i < 8 {
      PhraseWords2(i);
    } else {
      PhraseWords3(i);
    }
    hide PHRASES, Words;
    WordsPlain(PHRASES[i].text);
  }

  lemma PhraseWords1(i: nat)
    requires i < 4
    ensures Words(PHRASES[i].text) && |PHRASES[i].text| <= 21 && PHRASES[i].code < 1000
  {
    assert i == 0 || i == 1 || i == 2 || i == 3;
  }

  lemma PhraseWords2(i: nat)
    requires 4 <= i < 8
    ensures Words(PHRASES[i].text) && |PHRASES[i].text| <= 21 && PHRASES[i].code < 1000
  {
    assert i == 4 || i == 5 || i == 6 || i == 7;
  }

  lemma PhraseWords3(i: nat)
    requires 8 <= i < |PHRASES|
    ensures Words(PHRASES[i].text) && |PHRASES[i].text| <= 21 && PHRASES[i].code < 1000
  {
    assert i == 8 || i == 9 || i == 10;
  }

  lemma DigitsPlain(n: nat)
    ensures CrlfFree(Decimal(n))
    ensures n < 1000 ==> |Decimal(n)| <= 3
  {
    assert forall k: nat | k < |Decimal(n)| :: IsDigit(Decimal(n)[k]);
    if 10 <= n < 1000 {
      assert |Decimal(n)| == |Decimal(n / 10)| + 1;
      assert n / 10 >= 10 ==> |Decimal(n / 10)| == |Decimal(n / 10 / 10)| + 1 && n / 10 / 10 < 10;
    }
  }

  predicate PlainLetters(t: string) {
    forall i | 0 <= i < |t| :: 'a' <= t[i] <= 'z' || 'A' <= t[i] <= 'Z' || t[i] == '-'
  }

  lemma LettersAreNames(t: string)
    requires PlainLetters(t)
    ensures NameChars(t)
  {
    forall i | 0 <= i < |t|
      ensures NameChar(t[i])
    {
      LetterIsNameChar(t[i]);
    }
  }

  lemma LetterIsNameChar(c: char)
    requires 'a' <= c <= 'z' || 'A' <= c <= 'Z' || c == '-'
    ensures NameChar(c)
  {
  }

  lemma LettersPrintable(name: string, value: string)
    requires PlainLetters(name) && value != "" && value[0] != ' ' && CrlfFree(value) && |name| + |value| < 8000
    ensures Printable(HeaderText(name, value))
  {
    hide PlainLetters, NameChars, CrlfFree;
    LettersAreNames(name);
  }

  lemma UniversalLetters()
    ensures PlainLetters("server") && PlainLetters("connection") && PlainLetters("Access-Control-Allow-Origin")
    ensures CrlfFree("asmot_v0.1.1") && CrlfFree("close") && CrlfFree("*")
  {
  }

  lemma UniversalPrintable()
    ensures forall h | h in UNIVERSAL :: Printable(h)
  {
    UniversalLetters();
    UniversalExact();
    hide Printable, PlainLetters, CrlfFree, UNIVERSAL, LAST_HEADERS;
    LettersPrintable("server", "asmot_v0.1.1");
    LettersPrintable("connection", "close");
    LettersPrintable("Access-Control-Allow-Origin", "*");
  }

  /** Reading a response line by line with readField and requestAddHeader passes over the
      status line, yields the headers that were set and then the three universal ones, and
      stops at the blank line with exactly the body ahead. */
  lemma WireReadBack(r: Reply)
    requires Sendable(r)
    requires forall h | h in r.headers :: Printable(h)
    ensures Lines(Wire(r)) == [StatusLineText(SentStatus(r.status))] + HeaderLines(r.headers + UNIVERSAL)
    ensures AbsorbAll(EMPTY, Lines(Wire(r))) == EMPTY.(headers := r.headers + UNIVERSAL)
    ensures BodyText(Wire(r)) == BodyOf(r)
    ensures HeadOf(r) == Joined(Lines(Wire(r))) + CRLF
  {
    hide Sendable, StatusLineText, Printable, IsLine, RequestLine, HeaderLine, SafeLine, Lines, BodyText, UNIVERSAL;
    var hs := r.headers + UNIVERSAL;
    SendableStatus(r);
    var status := StatusLineText(SentStatus(r.status));
    var lines := [status] + HeaderLines(hs);
    UniversalPrintable();
    StatusLineRead(SentStatus(r.status));
    HeaderLinesGood(hs);
    HeaderLinesParsed(hs, EMPTY);
    BodyBehindBlankLine(lines, BodyOf(r));
    assert lines[1..] == HeaderLines(hs);
    assert Absorb(EMPTY, status) == EMPTY;
    assert EMPTY.headers + hs == hs;
  }

  lemma SendableStatus(r: Reply)
    requires Sendable(r)
    ensures HasPhrase(SentStatus(r.status))
  {
  }
}
