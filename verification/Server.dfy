/** The accept loop of serverListen: received texts in, responses out. */
module Server {
  import opened Text
  import opened Memory
  import opened Fields
  import opened Grammar
  import opened Parsing
  import opened Request
  import opened Replies
  import opened Response
  import opened Routing
  import opened Router
  import opened FileTree
  import opened FileList
  import opened Printing

  const BUFSIZE: nat := 256 * 1024

  /** One accepted connection: what recv delivers, and what the handlers find outside. */
  datatype Exchange = Exchange(input: seq<char>, world: World)

  /** The request text: what recv delivers, read up to its first NUL. */
  function RequestText(x: Exchange): string {
    CString(x.input)
  }

  function ReplyTo(site: Site, x: Exchange): Reply
    requires Routable(Parsed(RequestText(x)))
  {
    Respond(site, Parsed(RequestText(x)), x.world)
  }

  /** The exchanges on which the source stays inside its buffers and away from NULL. */
  predicate Answerable(site: Site, x: Exchange) {
    var text := RequestText(x);
    && |x.input| < BUFSIZE
    && ValidRequest(text) && SafeData(text)
    && Serviceable(site, Parsed(text))
    && Sendable(ReplyTo(site, x))
    && |HeadOf(ReplyTo(site, x))| < BUFSIZE && |Wire(ReplyTo(site, x))| <= BUFSIZE
  }

  /** The bytes sent for an exchange: a function of the site and of this exchange alone. */
  function Answer(site: Site, x: Exchange): string
    requires Answerable(site, x)
  {
    Wire(ReplyTo(site, x))
  }

  /** No request line but the first: the condition under which nothing leaks. */
  predicate OneRequestLine(x: Exchange) {
    StartLines(Lines(RequestText(x))) == 1
  }

  /** How many blocks an exchange leaves allocated that nothing points to: the tokens of its
      request lines, less the fields that were set in the end. */
  function Leaked(x: Exchange): nat {
    Leak(Lines(RequestText(x)))
  }

  function LeakedBy(xs: seq<Exchange>): nat {
    if xs == [] then 0 else LeakedBy(xs[..|xs| - 1]) + Leaked(xs[|xs| - 1])
  }

  class Server {
    const heap: Heap
    const router: Router
    const req: Request
    const res: Response
    const buffer: array<char>

    /** serverInit. */
    constructor ()
      ensures Valid() && heap.live == {}
      ensures fresh(heap) && fresh(router) && fresh(req) && fresh(res) && fresh(buffer)
      ensures router.View() == Site("", [], []) && router.Owns() == {}
      ensures router.staticDir == null && router.staticPaths == null && router.nodes == []
    {
      heap := new Heap();
      router := new Router();
      req := new Request();
      res := new Response();
      buffer := new char[BUFSIZE];
    }

    /** The router is valid and its index is apart from the receive buffer. */
    ghost predicate Valid()
      reads this, heap, router, router.nodes, router.staticPaths, IndexBlocks(router.staticPaths)
    {
      && router.Valid(heap.live)
      && buffer.Length == BUFSIZE
      && buffer !in IndexBlocks(router.staticPaths)
    }

    /** memset and recv. */
    method Receive(x: Exchange) returns (data: string)
      requires buffer.Length == BUFSIZE && |x.input| < BUFSIZE
      modifies buffer
      ensures data == RequestText(x)
    {
      Zero(buffer);
      CopyBytes(buffer, 0, x.input);
      ReceivedText(buffer[..], x.input);
      data := CString(buffer[..]);
    }

    /** requestInit, responseInit and recv. */
    method Prepare(x: Exchange) returns (data: string)
      requires Valid() && |x.input| < BUFSIZE
      modifies req, res, buffer
      ensures Valid() && router.View() == old(router.View()) && data == RequestText(x)
      ensures req.Valid(heap.live) && req.Empty() && req.View() == EMPTY
      ensures res.Valid(heap.live) && res.nodes == [] && res.View() == NO_REPLY && res.Owns() == {} && res.body == null
    {
      hide RequestText, Router.Valid, Router.View, Request.Valid, Request.View, Request.Owns;
      hide Response.Valid, Response.View, Response.Owns;
      req.Init(heap);
      res.Init(heap);
      data := Receive(x);
    }

    /** requestInit, responseInit, recv and requestParse. */
    method Accept(x: Exchange)
      requires Valid() && Answerable(router.View(), x)
      modifies heap, req, res, buffer
      ensures Valid() && router.View() == old(router.View())
      ensures req.Valid(heap.live) && req.View() == Parsed(RequestText(x))
      ensures old(heap.live) <= heap.live - req.Owns()
      ensures |heap.live - req.Owns()| == |old(heap.live)| + Leaked(x)
      ensures heap.live - req.Owns() == old(heap.live) <==> OneRequestLine(x)
      ensures res.Valid(heap.live) && res.nodes == [] && res.View() == NO_REPLY && res.Owns() == {} && res.body == null
    {
      hide Answerable, OneRequestLine, Leaked, Leak, Lines, StartLines, RequestText, Parsed;
      hide NulFree, ValidRequest, SafeData, ParsedFrom, Request.Empty, Request.Strings;
      hide Request.Valid, Request.View, Request.Owns, Response.Valid, Response.View, Response.Owns;
      hide Router.Valid, Router.View, Router.Owns;
      AnswerableText(router.View(), x);
      ghost var start := heap.live;
      var data := Prepare(x);
      ParseReceived(data);
      router.Transfer(start, heap.live);
      res.Transfer(start, heap.live);
    }

    /** requestParse on the fresh record. */
    method ParseReceived(data: string)
      requires req.Valid(heap.live) && req.Empty() && req.View() == EMPTY
      requires NulFree(data) && ValidRequest(data) && SafeData(data)
      modifies heap, req
      ensures req.Valid(heap.live) && req.View() == Parsed(data)
      ensures old(heap.live) <= heap.live - req.Owns()
      ensures |heap.live - req.Owns()| == |old(heap.live)| + Leak(Lines(data))
      ensures heap.live - req.Owns() == old(heap.live) <==> StartLines(Lines(data)) == 1
    {
      hide Lines, StartLines, Leak, ParsedFrom, NulFree, ValidRequest, SafeData;
      hide Request.Valid, Request.View, Request.Owns;
      var ok := req.Parse(heap, data);
    }

    /** routerHandle, responseToBuffer and send. */
    method Reply(x: Exchange) returns (sent: seq<char>)
      requires Valid() && Answerable(router.View(), x)
      requires req.Valid(heap.live) && req.View() == Parsed(RequestText(x))
      requires res.Valid(heap.live) && res.nodes == [] && res.View() == NO_REPLY && res.Owns() == {} && res.body == null
      modifies heap, res, buffer
      ensures Valid() && router.View() == old(router.View())
      ensures sent == Answer(router.View(), x)
      ensures req.Valid(heap.live) && res.Valid(heap.live)
      ensures heap.live - res.Owns() == old(heap.live)
    {
      hide Answerable, RequestText, Parsed, Answer, Responded, Serviceable, Sendable, HeadOf, Wire;
      hide Request.Valid, Request.View, Request.Owns, Response.Valid, Response.View, Response.Owns;
      hide Router.Valid, Router.View, Router.Owns;
      AnswerableReply(router.View(), x);
      ghost var start := heap.live;
      router.Handle(heap, req, res, x.world);
      res.ToBuffer(heap, buffer);
      sent := buffer[..res.length + res.contentLength];
      assert heap.live - res.Owns() == start;
      assert start <= heap.live;
      req.Transfer(start, heap.live);
      router.Transfer(start, heap.live);
    }

    /** requestDestroy and responseDestroy. */
    method CleanUp()
      requires Valid() && req.Valid(heap.live) && res.Valid(heap.live)
      requires req.Owns() !! res.Owns()
      requires router.Owns() <= heap.live - req.Owns() - res.Owns()
      modifies heap, req, res
      ensures Valid() && router.View() == old(router.View())
      ensures heap.live == old(heap.live - req.Owns() - res.Owns())
    {
      hide Request.Valid, Request.View, Request.Owns, Response.Valid, Response.View, Response.Owns;
      hide Router.Valid, Router.View, Router.Owns;
      ghost var start := heap.live;
      req.Destroy(heap);
      res.Transfer(start, heap.live);
      res.Destroy(heap);
      router.Transfer(start, heap.live);
    }

    /** One round of the loop. What it sends depends on the site and the exchange only. Of the
        blocks it allocates as many stay as the exchange leaks; the allocations are as they were
        exactly when there was one request line. */
    method Step(x: Exchange) returns (sent: seq<char>)
      requires Valid() && Answerable(router.View(), x)
      modifies heap, req, res, buffer
      ensures Valid() && router.View() == old(router.View())
      ensures sent == Answer(old(router.View()), x)
      ensures old(heap.live) <= heap.live && |heap.live| == |old(heap.live)| + Leaked(x)
      ensures heap.live == old(heap.live) <==> OneRequestLine(x)
    {
      hide Answerable, Answer, RequestText, Parsed, OneRequestLine, Leaked;
      hide Request.Valid, Request.View, Request.Owns, Response.Valid, Response.View, Response.Owns;
      hide Router.Valid, Router.View, Router.Owns;
      ghost var start := heap.live;
      router.Transfer(start, start);
      Accept(x);
      req.Transfer(heap.live, heap.live);
      ghost var parsed, mine := heap.live, req.Owns();
      sent := Reply(x);
      FreedInTurn(heap.live, req.Owns(), res.Owns());
      CleanUp();
      assert heap.live == parsed - mine;
    }

    /** Any number of rounds: the n-th response is the answer to the n-th exchange, whatever
        was served before, the leaks add up, and nothing has leaked exactly if no exchange leaks. */
    method Serve(xs: seq<Exchange>) returns (sent: seq<seq<char>>)
      requires Valid() && forall i | 0 <= i < |xs| :: Answerable(router.View(), xs[i])
      modifies heap, req, res, buffer
      ensures Valid() && router.View() == old(router.View())
      ensures |sent| == |xs|
      ensures forall i | 0 <= i < |xs| ::
                Answerable(old(router.View()), xs[i]) && sent[i] == Answer(old(router.View()), xs[i])
      ensures old(heap.live) <= heap.live && |heap.live| == |old(heap.live)| + LeakedBy(xs)
      ensures heap.live == old(heap.live) <==> forall i | 0 <= i < |xs| :: OneRequestLine(xs[i])
    {
      hide Answerable, Answer, OneRequestLine, Leaked, Server.Valid, Router.View;
      ghost var site, start := router.View(), heap.live;
      sent := [];
      for n := 0 to |xs|
        invariant Valid() && router.View() == site
        invariant |sent| == n
        invariant forall i | 0 <= i < n :: Answerable(site, xs[i]) && sent[i] == Answer(site, xs[i])
        invariant start <= heap.live && |heap.live| == |start| + LeakedBy(xs[..n])
        invariant heap.live == start <==> forall i | 0 <= i < n :: OneRequestLine(xs[i])
      {
        var bytes := Step(xs[n]);
        sent := sent + [bytes];
        assert xs[..n + 1][..n] == xs[..n];
      }
      assert xs[..|xs|] == xs;
    }

    /** main and serverStatic, serverGet: index the directory, then register the table in order. */
    method Configure(dir: string, root: Listing, table: seq<(string, Handler)>)
      requires Valid() && router.View() == Site("", [], []) && router.staticDir == null && router.staticPaths == null
      requires router.nodes == []
      requires ListingFits(dir, root) && forall p | p in Paths(dir, root) :: NulFree(p)
      modifies heap, router
      ensures Valid()
      ensures Paths(dir, root) != [] ==>
                && router.View() == Site(dir, Paths(dir, root), GetRoutes(table))
                && heap.live - router.Owns() == old(heap.live - router.Owns())
      ensures Paths(dir, root) == [] ==> router.View() == Site("", [], GetRoutes(table))
    {
      hide Router.Valid, Router.Owns, Paths, RouteTexts;
      router.Static(heap, dir, root);
      ghost var site, others := router.View(), heap.live - router.Owns();
      for i := 0 to |table|
        invariant Valid() && router.View() == site.(routes := GetRoutes(table[..i]))
        invariant heap.live - router.Owns() == others
        invariant fresh(IndexBlocks(router.staticPaths))
        invariant forall k | 0 <= k < |router.nodes| :: fresh(router.nodes[k])
      {
        assert table[..i + 1][..i] == table[..i];
        router.SetHdl(heap, "GET", table[i].0, table[i].1);
      }
      assert table[..|table|] == table;
    }
  }

  lemma FreedInTurn(live: set<object>, a: set<object>, b: set<object>)
    ensures live - a - b == live - b - a
  {
  }

  lemma NothingElse(live: set<object>, owned: set<object>)
    requires owned <= live && live - owned == {}
    ensures live == owned
  {
    forall o | o in live
      ensures o in owned
    {
      assert o !in live - owned;
    }
  }

  /** main: a server configured from a directory and a routing table, and any run of it. Beside
      the router's own, as many blocks are left at the end as the exchanges leak, and none exactly
      if every exchange had one request line. */
  method Run(dir: string, root: Listing, table: seq<(string, Handler)>, xs: seq<Exchange>)
    returns (server: Server, sent: seq<seq<char>>)
    requires ListingFits(dir, root) && forall p | p in Paths(dir, root) :: NulFree(p)
    requires Paths(dir, root) != []
    requires forall i | 0 <= i < |xs| :: Answerable(Site(dir, Paths(dir, root), GetRoutes(table)), xs[i])
    ensures |sent| == |xs|
    ensures forall i | 0 <= i < |xs| :: sent[i] == Answer(Site(dir, Paths(dir, root), GetRoutes(table)), xs[i])
    ensures server.router.Owns() <= server.heap.live
    ensures |server.heap.live| == |server.router.Owns()| + LeakedBy(xs)
    ensures server.heap.live == server.router.Owns() <==> forall i | 0 <= i < |xs| :: OneRequestLine(xs[i])
  {
    hide Answerable, Answer, OneRequestLine, LeakedBy, Paths, GetRoutes, Router.Valid, Router.Owns;
    server := new Server();
    server.Configure(dir, root, table);
    server.router.Transfer(server.heap.live, server.heap.live);
    ghost var live := server.heap.live;
    NothingElse(live, server.router.Owns());
    sent := server.Serve(xs);
    server.router.Transfer(server.heap.live, server.heap.live);
  }

  /** serverGet for every entry of the table: the method is always GET. */
  function GetRoutes(table: seq<(string, Handler)>): (routes: seq<RouteText>)
    ensures |routes| == |table|
    ensures forall i | 0 <= i < |table| :: routes[i] == RouteText("GET", table[i].0, table[i].1)
  {
    if table == [] then []
    else
      var (path, handler) := table[|table| - 1];
      GetRoutes(table[..|table| - 1]) + [RouteText("GET", path, handler)]
  }

  lemma AnswerableText(site: Site, x: Exchange)
    requires Answerable(site, x)
    ensures |x.input| < BUFSIZE
    ensures NulFree(RequestText(x)) && ValidRequest(RequestText(x)) && SafeData(RequestText(x))
    ensures OneRequestLine(x) <==> StartLines(Lines(RequestText(x))) == 1
    ensures Leaked(x) == Leak(Lines(RequestText(x)))
    ensures ParsedFrom(EMPTY, RequestText(x)) == Parsed(RequestText(x))
  {
    hide Wire, HeadOf, ReplyTo, Serviceable, Leak;
  }

  lemma AnswerableReply(site: Site, x: Exchange)
    requires Answerable(site, x)
    ensures Serviceable(site, Parsed(RequestText(x))) && Routable(Parsed(RequestText(x)))
    ensures var r := Responded(site, Parsed(RequestText(x)), NO_REPLY, x.world);
            Sendable(r) && |HeadOf(r)| < BUFSIZE && |Wire(r)| <= BUFSIZE && Answer(site, x) == Wire(r)
  {
    hide Wire, HeadOf, Sendable, Responded, Parsed, RequestText;
  }

  lemma ReceivedText(filled: seq<char>, input: seq<char>)
    requires |input| < |filled| && filled[..|input|] == input && filled[|input|] == NUL
    ensures CString(filled) == CString(input)
  {
    var t := CString(input);
    var n := |t|;
    assert filled == t + filled[n..];
    CStringOf(t, filled[n..]);
  }
}
