/** struct Response and the functions of response.c, updating it in place. */
module Response {
  import opened Text
  import opened Lists
  import opened Memory
  import opened Fields
  import opened Headers
  import opened Replies
  import opened Printing

  predicate PlainHeaders(hs: seq<HeaderText>) {
    forall h | h in hs :: NulFree(h.name) && NulFree(h.value)
  }

  class Response {
    var statusCode: nat
    var headers: HeaderPtr
    var length: nat
    var contentLength: nat
    var body: Block?
    ghost var nodes: seq<Header>  // the header list, node by node

    constructor ()
      ensures Empty()
    {
      headers, body, statusCode := null, null, NONE;
      nodes := [];
    }

    ghost predicate Empty()
      reads this
    {
      headers == null && body == null && statusCode == NONE && nodes == []
    }

    /** The body bytes: the first contentLength of the body block. */
    ghost function Bytes(): Option<string>
      reads this
    {
      if body == null then None
      else if contentLength <= |body.text| then Some(body.text[..contentLength])
      else Some(body.text)
    }

    ghost function View(): Reply
      reads this
    {
      Reply(statusCode, Texts(nodes), Bytes())
    }

    ghost function Owns(): set<object>
      reads this
    {
      Opt(body) + Blocks(nodes)
    }

    ghost predicate Valid(live: set<object>)
      reads this, nodes
    {
      && Lists.Owned(headers, nodes, live)
      && Opt(body) <= live
      && Opt(body) !! Blocks(nodes)
      && (body != null ==> contentLength <= |body.text|)
      && PlainHeaders(Texts(nodes))
    }

    lemma Transfer(live: set<object>, live2: set<object>)
      requires Valid(live)
      ensures Owns() <= live
      ensures Owns() <= live2 ==> Valid(live2)
    {
    }

    /** responseInit: length and contentLength keep their old values. */
    method Init(ghost heap: Heap)
      modifies this
      ensures Valid(heap.live)
      ensures Empty() && View() == NO_REPLY && Owns() == {}
    {
      headers, body, statusCode := null, null, NONE;
      nodes := [];
    }

    /** responseSetHeader. */
    method SetHeader(heap: Heap, name: string, value: string)
      requires Valid(heap.live) && NulFree(name) && NulFree(value)
      modifies this, nodes, heap
      ensures Valid(heap.live)
      ensures View() == old(View()).(headers := old(View()).headers + [HeaderText(name, value)])
      ensures statusCode == old(statusCode) && body == old(body) && contentLength == old(contentLength)
      ensures heap.live - Owns() == old(heap.live - Owns())
      ensures forall i | 0 <= i < |nodes| :: nodes[i] in old(nodes) || fresh(nodes[i])
    {
      hide Blocks, Texts, Lists.Owned;
      var entry;
      headers, entry := AddHeader(headers, nodes, heap, name, value);
      nodes := nodes + [entry];
    }

    /** body = malloc(...); memcpy(...); and the status and length that go with it. */
    method SetBody(heap: Heap, bytes: seq<char>, size: nat)
      requires Valid(heap.live) && size <= |bytes|
      modifies this, heap
      ensures Valid(heap.live) && nodes == old(nodes)
      ensures View() == old(View()).(status := if old(statusCode) == NONE then 200 else old(statusCode),
                                     body := Some(bytes[..size]))
      ensures heap.live - Owns() == old(heap.live - Owns()) + old(Opt(body))
    {
      hide IsChain, Separate, Blocks, Texts, PlainHeaders;
      body := heap.Copy(bytes);
      if statusCode == NONE {
        statusCode := 200;
      }
      contentLength := size;
    }

    /** responseSendBytes. */
    method SendBytes(heap: Heap, bytes: string, size: nat)
      requires Valid(heap.live) && size <= |bytes|
      modifies this, nodes, heap
      ensures Valid(heap.live)
      ensures View() == WithBytes(old(View()), PrintedInt(size), bytes[..size])
      ensures View().status == (if old(statusCode) == 0 then 200 else old(statusCode))
      ensures View().headers == old(View()).headers + [HeaderText("content-length", PrintedInt(size))]
      ensures View().body == Some(bytes[..size])
      ensures heap.live - Owns() == old(heap.live - Owns()) + old(Opt(body))
      ensures forall i | 0 <= i < |nodes| :: nodes[i] in old(nodes) || fresh(nodes[i])
    {
      hide Response.Valid, Response.Owns, Response.Bytes, PrintedInt;
      PrintedIntPlain(size);
      SetHeader(heap, "content-length", PrintedInt(size));
      SetBody(heap, bytes[..size], size);
      assert bytes[..size][..size] == bytes[..size];
    }

    /** responseSendStatus. */
    method SendStatus(ghost heap: Heap, status: nat)
      requires Valid(heap.live)
      modifies this`statusCode
      ensures View() == old(View()).(status := status)
      ensures Owns() == old(Owns())
      ensures Valid(heap.live)
    {
      statusCode := status;
    }

    /** The MIME loop of responseSendFile: a content-type for every table entry that matches. */
    method SetMime(heap: Heap, fileExt: string)
      requires Valid(heap.live)
      modifies this, nodes, heap
      ensures Valid(heap.live) && statusCode == old(statusCode) && body == old(body)
      ensures View() == old(View()).(headers := old(View()).headers + MimeHeaders(fileExt, 0))
      ensures heap.live - Owns() == old(heap.live - Owns())
      ensures forall i | 0 <= i < |nodes| :: nodes[i] in old(nodes) || fresh(nodes[i])
    {
      hide Response.Valid, Response.View, Response.Owns, MIME, MimeHeaders;
      ghost var r := View();
      MimeStart(r, fileExt);
      for i := 0 to |MIME|
        invariant Valid(heap.live) && statusCode == old(statusCode) && body == old(body)
        invariant MimeDone(View(), r, fileExt, i)
        invariant heap.live - Owns() == old(heap.live - Owns())
        invariant forall i | 0 <= i < |nodes| :: nodes[i] in old(nodes) || fresh(nodes[i])
      {
        MimeNext(View(), r, fileExt, i);
        if fileExt == MIME[i].ext {
          SetHeader(heap, "content-type", MIME[i].mediaType);
        }
      }
      MimeEnd(View(), r, fileExt);
    }

    /** responseSendFile; `files` holds the contents of the readable files. */
    method SendFile(heap: Heap, filepath: string, files: map<string, string>)
      requires Valid(heap.live) && |Extension(filepath)| <= 7
      modifies this, nodes, heap
      ensures Valid(heap.live)
      ensures View() == WithFile(old(View()), filepath, files)
      ensures heap.live - Owns() == old(heap.live - Owns()) + (if filepath in files then old(Opt(body)) else {})
      ensures forall i | 0 <= i < |nodes| :: nodes[i] in old(nodes) || fresh(nodes[i])
    {
      hide Response.Valid, Response.Owns, Response.Bytes, MimeHeaders, Decimal, Extension;
      var fileExt := FileExtension(filepath);
      SetMime(heap, fileExt);
      if filepath !in files {
        SendStatus(heap, 404);
        return;
      }
      var content := files[filepath];
      DecimalPlain(|content|);
      SetBody(heap, content + [NUL], |content|);
      assert (content + [NUL])[..|content|] == content;
      SetHeader(heap, "content-length", Decimal(|content|));
    }

    /** The headers every response carries. */
    method SetUniversal(heap: Heap)
      requires Valid(heap.live)
      modifies this, nodes, heap
      ensures Valid(heap.live) && contentLength == old(contentLength)
      ensures View() == old(View()).(headers := old(View()).headers + UNIVERSAL)
      ensures heap.live - Owns() == old(heap.live - Owns())
      ensures forall i | 0 <= i < |nodes| :: nodes[i] in old(nodes) || fresh(nodes[i])
    {
      hide Response.Valid, Response.View, Response.Owns;
      UniversalPlain();
      hide NulFree;
      SetHeader(heap, "server", "asmot_v0.1.1");
      SetHeader(heap, "connection", "close");
      SetHeader(heap, "Access-Control-Allow-Origin", "*");
    }

    /** The status line, the header loop and the blank line of responseToBuffer. */
    method PrintHead(ghost heap: Heap, buffer: array<char>)
      requires Valid(heap.live) && HasPhrase(View().status)
      requires |Head(View().status, View().headers)| < buffer.Length
      modifies buffer
      ensures Prints(buffer, Head(View().status, View().headers))
      ensures Valid(heap.live)
    {
      HeadParts(statusCode, Texts(nodes));
      hide HasPhrase, StatusLineText, Joined, HeaderLines, PlainHeaders, Prints, Head, IsChain;
      PrintStatusLine(statusCode, buffer);
      PrintHeaders(headers, nodes, buffer, StatusLineText(statusCode) + CRLF);
      CrlfPlain();
      Print(buffer, StatusLineText(statusCode) + CRLF + Joined(HeaderLines(Texts(nodes))), CRLF);
    }

    /** responseToBuffer. The buffer holds the response and, if there is no body, the content
        length left over from the previous response is reset. */
    method ToBuffer(heap: Heap, buffer: array<char>)
      requires Valid(heap.live) && Sendable(View())
      requires |HeadOf(View())| < buffer.Length && |Wire(View())| <= buffer.Length
      modifies this, nodes, heap, buffer
      ensures Valid(heap.live)
      ensures length == |HeadOf(old(View()))| && contentLength == |BodyOf(old(View()))|
      ensures length + contentLength <= buffer.Length
      ensures buffer[..length + contentLength] == Wire(old(View()))
      ensures View() == Reply(SentStatus(old(View()).status), old(View()).headers + UNIVERSAL, old(View()).body)
      ensures heap.live - Owns() == old(heap.live - Owns())
    {
      hide Response.Valid, Response.View, Response.Owns, Response.Bytes, HeadOf, Wire, Head, BodyOf, Prints, HasPhrase;
      hide Sendable;
      ghost var r := View();
      SetUniversal(heap);
      SetDefaultStatus(heap);
      SentParts(r, View());
      PrintHead(heap, buffer);
      PrintBody(heap, buffer, HeadOf(r));
    }

    method SetDefaultStatus(ghost heap: Heap)
      requires Valid(heap.live)
      modifies this`statusCode
      ensures Valid(heap.live)
      ensures View() == old(View()).(status := SentStatus(old(View()).status))
      ensures Owns() == old(Owns())
    {
      if statusCode == NONE {
        statusCode := 500;
      }
    }

    /** The body and the two lengths. */
    method PrintBody(ghost heap: Heap, buffer: array<char>, ghost head: string)
      requires Valid(heap.live) && Prints(buffer, head)
      requires |head + BodyOf(View())| <= buffer.Length
      modifies this`length, this`contentLength, buffer
      ensures Valid(heap.live) && View() == old(View()) && Owns() == old(Owns())
      ensures length == |head| && contentLength == |BodyOf(View())|
      ensures length + contentLength <= buffer.Length
      ensures buffer[..length + contentLength] == head + BodyOf(View())
    {
      length := StrLen(buffer, head);
      if body != null {
        CopyBytes(buffer, length, body.text[..contentLength]);
      } else {
        contentLength := 0;
        assert head + "" == head;
      }
    }

    /** responseDestroy. */
    method Destroy(heap: Heap)
      requires Valid(heap.live)
      modifies this, heap
      ensures heap.live == old(heap.live - Owns())
      ensures headers == null && nodes == []
    {
      hide NodeBlocks, Separate, PlainHeaders;
      if body != null {
        heap.Free(body);
      }
      if headers != null {
        var header := headers;
        ghost var left := nodes;
        headers, nodes := null, [];
        DestroyList(header, left, heap);
      }
    }
  }

  method PrintStatusLine(code: nat, buffer: array<char>)
    requires HasPhrase(code) && |StatusLineText(code) + CRLF| < buffer.Length
    modifies buffer
    ensures Prints(buffer, StatusLineText(code) + CRLF)
  {
    StatusLinePlain(code);
    hide HasPhrase, StatusLineText, Prints;
    Zero(buffer);
    var i := FindPhrase(code);
    var line := "HTTP/1.1" + (" " + (Decimal(code) + (" " + PHRASES[i].text)));
    Print(buffer, "", line + CRLF);
    assert "" + (line + CRLF) == line + CRLF;
  }

  method PrintHeaders(headers: HeaderPtr, ghost nodes: seq<Header>, buffer: array<char>, ghost start: string)
    requires IsChain(headers, nodes) && PlainHeaders(Texts(nodes))
    requires Prints(buffer, start) && |start + Joined(HeaderLines(Texts(nodes)))| < buffer.Length
    modifies buffer
    ensures Prints(buffer, start + Joined(HeaderLines(Texts(nodes))))
  {
    hide Joined, HeaderLines, PlainHeaders, Prints, IsChain, HeaderLineText, Texts;
    ghost var text, left := start, nodes;
    var h := headers;
    ChainEnd(h, left);
    while h != null
      invariant IsChain(h, left) && PlainHeaders(Texts(left))
      invariant Prints(buffer, text)
      invariant text + Joined(HeaderLines(Texts(left))) == start + Joined(HeaderLines(Texts(nodes)))
      invariant h == null ==> left == []
      decreases |left|
    {
      ChainTail(h, left);
      HeaderStep(text, left);
      Print(buffer, text, HeaderLineText(TextOf(h)) + CRLF);
      text := text + (HeaderLineText(TextOf(h)) + CRLF);
      h := h.next;
      left := left[1..];
      ChainEnd(h, left);
    }
    NoHeaders(text);
  }

  lemma CrlfPlain()
    ensures NulFree(CRLF)
  {
  }

  /** The phrase search of responseToBuffer; it has no bound of its own. */
  method FindPhrase(code: nat) returns (i: nat)
    requires HasPhrase(code)
    ensures i < |PHRASES| && i == PhraseIndex(code, 0)
  {
    i := 0;
    while PHRASES[i].code != code
      invariant i < |PHRASES| && PhraseIndex(code, i) == PhraseIndex(code, 0)
      decreases |PHRASES| - i
    {
      i := i + 1;
    }
  }

  lemma HeadParts(code: nat, hs: seq<HeaderText>)
    requires HasPhrase(code)
    ensures Head(code, hs) == StatusLineText(code) + CRLF + Joined(HeaderLines(hs)) + CRLF
  {
  }

  lemma StatusLinePlain(code: nat)
    requires HasPhrase(code)
    ensures StatusLineText(code) ==
            "HTTP/1.1" + (" " + (Decimal(code) + (" " + PHRASES[PhraseIndex(code, 0)].text)))
    ensures NulFree(StatusLineText(code) + CRLF)
  {
    PhrasePlain(PhraseIndex(code, 0));
    DecimalPlain(code);
    hide Decimal, PHRASES, PhraseIndex;
  }

  lemma HeaderStep(text: string, left: seq<Header>)
    requires left != [] && PlainHeaders(Texts(left))
    ensures text + Joined(HeaderLines(Texts(left))) ==
            text + (HeaderLineText(TextOf(left[0])) + CRLF) + Joined(HeaderLines(Texts(left[1..])))
    ensures NulFree(HeaderLineText(TextOf(left[0])) + CRLF)
    ensures PlainHeaders(Texts(left[1..]))
  {
    hide NulFree, HeaderLineText, TextOf, Joined, HeaderLines;
    var hs := Texts(left);
    assert hs[1..] == Texts(left[1..]);
    assert hs[0] in hs;
    JoinedStep(hs);
    HeaderLinePlain(hs[0]);
  }

  lemma HeaderLinePlain(h: HeaderText)
    requires NulFree(h.name) && NulFree(h.value)
    ensures NulFree(HeaderLineText(h) + CRLF)
  {
  }

  lemma NoHeaders(text: string)
    ensures text + Joined(HeaderLines(Texts([]))) == text
  {
  }

  lemma UniversalPlain()
    ensures NulFree("server") && NulFree("asmot_v0.1.1") && NulFree("connection") && NulFree("close")
    ensures NulFree("Access-Control-Allow-Origin") && NulFree("*")
  {
  }

  lemma SentParts(r: Reply, sent: Reply)
    requires Sendable(r)
    requires sent == Reply(SentStatus(r.status), r.headers + UNIVERSAL, r.body)
    ensures HasPhrase(sent.status) && HeadOf(r) == Head(sent.status, sent.headers)
    ensures Wire(r) == HeadOf(r) + BodyOf(sent) && BodyOf(sent) == BodyOf(r)
  {
  }

  datatype Mime = Mime(ext: string, mediaType: string)

  const MIME: seq<Mime> := [
    Mime("html", "text/html"),
    Mime("js", "text/javascript"),
    Mime("css", "text/css"),
    Mime("json", "application/json"),
    Mime("ico", "image/x-icon"),
    Mime("avif", "image/avif")
  ]

  /** What follows the first dot of the whole path. */
  function Extension(path: string): string {
    if path == "" then "" else if path[0] == '.' then path[1..] else Extension(path[1..])
  }

  /** The text behind the first dot, wherever in the path it is; nothing without a dot. */
  lemma {:induction false} ExtensionExact(stem: string, ext: string)
    requires '.' !in stem
    ensures Extension(stem + "." + ext) == ext
    ensures Extension(stem) == ""
  {
    var path := stem + "." + ext;
    if stem == "" {
      assert path[1..] == ext;
    } else {
      ExtensionExact(stem[1..], ext);
      assert path[1..] == stem[1..] + "." + ext;
    }
  }

  method FileExtension(filepath: string) returns (fileExt: string)
    ensures fileExt == Extension(filepath)
  {
    fileExt := "";
    assert filepath[0..] == filepath;
    for i := 0 to |filepath|
      invariant Extension(filepath[i..]) == Extension(filepath) && fileExt == ""
    {
      if filepath[i] == '.' {
        return filepath[i + 1..];
      }
    }
  }

  function MimeHeaders(fileExt: string, i: nat): seq<HeaderText>
    requires i <= |MIME|
    decreases |MIME| - i
  {
    if i == |MIME| then []
    else
      (if fileExt == MIME[i].ext then [HeaderText("content-type", MIME[i].mediaType)] else [])
      + MimeHeaders(fileExt, i + 1)
  }

  lemma MimeTable()
    ensures |MIME| == 6
    ensures MIME[0] == Mime("html", "text/html") && MIME[1] == Mime("js", "text/javascript")
    ensures MIME[2] == Mime("css", "text/css") && MIME[3] == Mime("json", "application/json")
    ensures MIME[4] == Mime("ico", "image/x-icon") && MIME[5] == Mime("avif", "image/avif")
  {
  }

  lemma MimeStep(fileExt: string, i: nat)
    requires i < |MIME|
    ensures MimeHeaders(fileExt, i) ==
            (if fileExt == MIME[i].ext then [HeaderText("content-type", MIME[i].mediaType)] else [])
            + MimeHeaders(fileExt, i + 1)
  {
    hide MIME;
  }

  /** The media types, one by one; no other extension gets one. */
  lemma MimeExact(fileExt: string)
    ensures fileExt == "html" ==> MimeHeaders(fileExt, 0) == [HeaderText("content-type", "text/html")]
    ensures fileExt == "js" ==> MimeHeaders(fileExt, 0) == [HeaderText("content-type", "text/javascript")]
    ensures fileExt == "css" ==> MimeHeaders(fileExt, 0) == [HeaderText("content-type", "text/css")]
    ensures fileExt == "json" ==> MimeHeaders(fileExt, 0) == [HeaderText("content-type", "application/json")]
    ensures fileExt == "ico" ==> MimeHeaders(fileExt, 0) == [HeaderText("content-type", "image/x-icon")]
    ensures fileExt == "avif" ==> MimeHeaders(fileExt, 0) == [HeaderText("content-type", "image/avif")]
    ensures MimeHeaders(fileExt, 0) != [] ==> fileExt in {"html", "js", "css", "json", "ico", "avif"}
  {
    MimeTable();
    assert MimeHeaders(fileExt, 6) == [];
    hide MIME, MimeHeaders;
    MimeStep(fileExt, 5);
    MimeStep(fileExt, 4);
    MimeStep(fileExt, 3);
    MimeStep(fileExt, 2);
    MimeStep(fileExt, 1);
    MimeStep(fileExt, 0);
  }

  /** The first i table entries have been dealt with. */
  ghost predicate MimeDone(now: Reply, r: Reply, fileExt: string, i: nat)
    requires i <= |MIME|
  {
    now.(headers := now.headers + MimeHeaders(fileExt, i)) == r.(headers := r.headers + MimeHeaders(fileExt, 0))
  }

  lemma MimeStart(r: Reply, fileExt: string)
    ensures MimeDone(r, r, fileExt, 0)
  {
  }

  lemma MimeNext(now: Reply, r: Reply, fileExt: string, i: nat)
    requires i < |MIME| && MimeDone(now, r, fileExt, i)
    ensures fileExt != MIME[i].ext ==> MimeDone(now, r, fileExt, i + 1)
    ensures fileExt == MIME[i].ext ==>
              MimeDone(now.(headers := now.headers + [HeaderText("content-type", MIME[i].mediaType)]),
                       r, fileExt, i + 1)
    ensures NulFree(MIME[i].mediaType)
  {
    MimePlain(i);
    hide MIME;
    var one := [HeaderText("content-type", MIME[i].mediaType)];
    if fileExt == MIME[i].ext {
      assert now.headers + MimeHeaders(fileExt, i) == now.headers + one + MimeHeaders(fileExt, i + 1);
    } else {
      assert MimeHeaders(fileExt, i) == MimeHeaders(fileExt, i + 1);
    }
  }

  lemma MimeEnd(now: Reply, r: Reply, fileExt: string)
    requires MimeDone(now, r, fileExt, |MIME|)
    ensures now == r.(headers := r.headers + MimeHeaders(fileExt, 0))
  {
    hide MIME;
    assert MimeHeaders(fileExt, |MIME|) == [];
    assert now.headers + [] == now.headers;
  }

  lemma MimePlain(i: nat)
    requires i < |MIME|
    ensures NulFree(MIME[i].mediaType)
  {
    assert i == 0 || i == 1 || i == 2 || i == 3 || i == 4 || i == 5;
  }

  /** The effect of sending a file: its media type, then its contents, or 404. */
  function WithFile(r: Reply, path: string, files: map<string, string>): Reply {
    var typed := r.(headers := r.headers + MimeHeaders(Extension(path), 0));
    if path in files then WithBytes(typed, Decimal(|files[path]|), files[path]) else typed.(status := 404)
  }

  /** A file is sent with its length and contents and, unless one was set, status 200; one that
      cannot be read with status 404, without length or body. Both get the media type first. */
  lemma WithFileExact(r: Reply, path: string, files: map<string, string>)
    ensures path in files ==>
              WithFile(r, path, files) ==
              Reply(if r.status == 0 then 200 else r.status,
                    r.headers + MimeHeaders(Extension(path), 0)
                    + [HeaderText("content-length", Decimal(|files[path]|))],
                    Some(files[path]))
    ensures path !in files ==>
              WithFile(r, path, files) == Reply(404, r.headers + MimeHeaders(Extension(path), 0), r.body)
  {
    hide MimeHeaders, Extension, Decimal;
  }

  /** The effect of sending bytes: the announced length, the body, and 200 if no status was set. */
  function WithBytes(r: Reply, lengthText: string, bytes: string): Reply {
    Reply(if r.status == NONE then 200 else r.status,
          r.headers + [HeaderText("content-length", lengthText)],
          Some(bytes))
  }

  lemma PrintedIntPlain(size: nat)
    ensures NulFree(PrintedInt(size))
  {
    hide Decimal;
  }

  lemma DecimalPlain(n: nat)
    ensures NulFree(Decimal(n))
  {
  }
}
