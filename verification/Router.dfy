/** struct Router: the static index and the route list. */
module Router {
  import opened Text
  import opened Memory
  import opened Lists
  import opened FileTree
  import opened FileList
  import opened Request
  import opened Replies
  import opened Response
  import opened Routing

  /** struct Route: first is the method, second the path, data the handler. */
  type Route = Node<Handler>

  function RouteOf(n: Route): RouteText {
    RouteText(n.first.text, n.second.text, n.data)
  }

  ghost function RouteTexts(nodes: seq<Route>): (ts: seq<RouteText>)
    ensures |ts| == |nodes|
  {
    if nodes == [] then [] else [RouteOf(nodes[0])] + RouteTexts(nodes[1..])
  }

  lemma {:induction false} RouteTextsExtended(nodes: seq<Route>, entry: Route)
    ensures RouteTexts(nodes + [entry]) == RouteTexts(nodes) + [RouteOf(entry)]
  {
    if nodes == [] {
      assert nodes + [entry] == [entry];
      assert [entry][1..] == [];
    } else {
      RouteTextsExtended(nodes[1..], entry);
      assert (nodes + [entry])[1..] == nodes[1..] + [entry];
    }
  }

  class Router {
    var staticDir: Block?
    var staticPaths: array?<CharPtr>
    var routes: Node?<Handler>
    ghost var nodes: seq<Route>  // the route list, node by node
    ghost var paths: seq<string>  // the indexed paths

    /** routerInit. */
    constructor ()
      ensures staticDir == null && staticPaths == null && routes == null && nodes == []
      ensures View() == Site("", [], []) && Owns() == {} && Valid({})
    {
      staticDir, staticPaths, routes := null, null, null;
      nodes, paths := [], [];
    }

    ghost function View(): Site
      reads this
    {
      Site(if staticDir == null then "" else staticDir.text, paths, RouteTexts(nodes))
    }

    ghost function Owns(): set<object>
      reads this, staticPaths
    {
      Opt(staticDir) + IndexBlocks(staticPaths) + Blocks(nodes)
    }

    /** With an index, it holds the paths; without one, there are none. */
    ghost predicate IndexValid()
      reads this, staticPaths, IndexBlocks(staticPaths)
    {
      if staticPaths == null then staticDir == null && paths == []
      else
        && staticDir != null && paths != []
        && Indexed(staticPaths, paths)
        && forall p | p in paths :: NulFree(p)
    }

    ghost predicate Valid(live: set<object>)
      reads this, nodes, staticPaths, IndexBlocks(staticPaths)
    {
      && IndexValid()
      && Lists.Owned(routes, nodes, live)
      && Opt(staticDir) + IndexBlocks(staticPaths) <= live
      && Opt(staticDir) !! IndexBlocks(staticPaths) !! Blocks(nodes)
    }

    lemma Transfer(live: set<object>, live2: set<object>)
      requires Valid(live)
      ensures Owns() <= live
      ensures Owns() <= live2 ==> Valid(live2)
    {
    }

    /** routerSetHdl: the new route goes last. */
    method SetHdl(heap: Heap, verb: string, uri: string, handler: Handler)
      requires Valid(heap.live)
      modifies this, nodes, heap
      ensures Valid(heap.live)
      ensures View() == old(View()).(routes := old(View()).routes + [RouteText(verb, uri, handler)])
      ensures heap.live - Owns() == old(heap.live - Owns())
      ensures forall i | 0 <= i < |nodes| :: nodes[i] in old(nodes) || fresh(nodes[i])
      ensures staticPaths == old(staticPaths)
    {
      hide Lists.Owned, Blocks, RouteTexts, Indexed;
      var entry;
      routes, entry := AddEntry(routes, nodes, heap, verb, uri, handler);
      RouteTextsExtended(nodes, entry);
      nodes := nodes + [entry];
    }

    /** The static loop of routerHandle. */
    method FindStatic(path: string) returns (found: bool)
      requires IndexValid() && staticPaths != null
      ensures found <==> path in paths
    {
      hide Indexed;
      var i := 0;
      TableEntry(staticPaths, paths, 0);
      while staticPaths[i] != Null
        invariant i <= |paths| && path !in paths[..i]
        invariant i < staticPaths.Length && (staticPaths[i] == Null <==> i == |paths|)
        decreases |paths| - i
      {
        IndexReads(staticPaths, paths, i);
        if CString(staticPaths[i].block[staticPaths[i].offset..]) == path {
          return true;
        }
        i := i + 1;
        TableEntry(staticPaths, paths, i);
      }
      return false;
    }

    /** The route loop of routerHandle; None stands for running off the list. */
    method FindRoute(verb: string, uri: string) returns (h: Option<Handler>)
      requires IsChain(routes, nodes)
      ensures h == FirstMatch(RouteTexts(nodes), verb, uri)
    {
      hide RouteTexts, FirstMatch, IsChain;
      ghost var left := nodes;
      var head := routes;
      ChainEnd(head, left);
      while head != null
        invariant IsChain(head, left) && (head == null <==> left == [])
        invariant FirstMatch(RouteTexts(left), verb, uri) == FirstMatch(RouteTexts(nodes), verb, uri)
        decreases |left|
      {
        ChainTail(head, left);
        RouteStep(left, verb, uri);
        if verb == head.first.text && uri == head.second.text {
          return Some(head.data);
        }
        head := head.next;
        left := left[1..];
        ChainEnd(head, left);
      }
      NoRoutes(verb, uri);
      return None;
    }

    /** routerHandle. */
    method Handle(heap: Heap, req: Request, res: Response, w: World)
      requires Valid(heap.live)
      requires Serviceable(View(), req.View())
      requires res.Valid(heap.live)
      modifies res, res.nodes, heap
      ensures res.Valid(heap.live)
      ensures res.View() == Responded(old(View()), old(req.View()), old(res.View()), w)
      ensures old(res.body) == null ==> heap.live - res.Owns() == old(heap.live - res.Owns())
      ensures forall i | 0 <= i < |res.nodes| :: res.nodes[i] in old(res.nodes) || fresh(res.nodes[i])
    {
      hide Response.Valid, Response.View, Response.Owns, Response.Bytes, FirstMatch, Handled, WithFile, NotFound;
      hide Extension, IsChain;
      if req.verb.text != "GET" {
        res.SendStatus(heap, 501);
        return;
      }
      var path := staticDir.text + req.uri.text;
      var found := FindStatic(path);
      if found {
        res.SendFile(heap, path, w.files);
        return;
      }
      var h := FindRoute(req.verb.text, req.uri.text);
      if h.Some? {
        Call(heap, h.value, res, w);
        return;
      }
      SendNotFound(heap, res);
    }

    /** routerStatic. If the directory cannot be indexed or holds no file, the router is left
        without an index and what was allocated for one is lost. */
    method Static(heap: Heap, dir: string, root: Listing)
      requires Valid(heap.live) && staticDir == null && staticPaths == null
      requires ListingFits(dir, root) && forall p | p in Paths(dir, root) :: NulFree(p)
      modifies this, heap
      ensures Valid(heap.live) && nodes == old(nodes)
      ensures fresh(IndexBlocks(staticPaths))
      ensures Paths(dir, root) != [] ==>
                && View() == old(View()).(staticDir := dir, paths := Paths(dir, root))
                && heap.live - Owns() == old(heap.live - Owns())
      ensures Paths(dir, root) == [] ==>
                && View() == old(View()) && Owns() == old(Owns())
                && old(heap.live - Owns()) < heap.live - Owns()
    {
      hide Paths, IsChain, Separate, Blocks, RouteTexts, Indexed;
      var fileCount := new SizeT(0);
      staticDir := heap.Copy(dir);
      ghost var lost := staticDir;
      var files, r := RetrieveFiles(heap, fileCount, dir, root);
      DeniedIsEmpty(dir, root);
      if r < 0 || fileCount.value == 0 {
        staticDir := null;
        staticPaths := null;
        assert lost in heap.live - Owns() && lost !in old(heap.live);
      } else {
        staticPaths := files;
        paths := Paths(dir, root);
      }
    }

    /** routerDestroy. */
    method Destroy(heap: Heap)
      requires Valid(heap.live)
      modifies this, heap
      ensures heap.live == old(heap.live - Owns())
      ensures staticDir == null && staticPaths == null && routes == null && Owns() == {}
    {
      hide NodeBlocks, Separate;
      ghost var owned := Owns();
      if staticDir != null {
        heap.Free(staticDir);
        staticDir := null;
      }
      if staticPaths != null && staticPaths[0] != Null {
        heap.Free(staticPaths[0].block);
        heap.Free(staticPaths);
        staticPaths := null;
      }
      paths := [];
      var head := routes;
      ghost var left := nodes;
      routes, nodes := null, [];
      DestroyList(head, left, heap);
    }
  }

  lemma DeniedIsEmpty(dir: string, root: Listing)
    ensures root.Denied? ==> Paths(dir, root) == []
  {
  }

  /** head->handler(req, res) */
  method Call(heap: Heap, h: Handler, res: Response, w: World)
    requires res.Valid(heap.live)
    modifies res, res.nodes, heap
    ensures res.Valid(heap.live)
    ensures res.View() == Handled(h, old(res.View()), w)
    ensures heap.live - res.Owns() == old(heap.live - res.Owns()) + (if h.Report? then old(Opt(res.body)) else {})
    ensures forall i | 0 <= i < |res.nodes| :: res.nodes[i] in old(res.nodes) || fresh(res.nodes[i])
  {
    hide Response.Valid, Response.View, Response.Owns, Response.Bytes, PrintedInt;
    HandlerTextsPlain();
    hide NulFree;
    match h
    case IndexRedirect =>
      res.SendStatus(heap, 301);
      res.SetHeader(heap, "location", "/index.html");
    case Report(name) =>
      var text := w.reading(name);
      res.SetHeader(heap, "content-type", "application/json");
      res.SendBytes(heap, text, |text|);
      assert text[..|text|] == text;
  }

  lemma HandlerTextsPlain()
    ensures NulFree("location") && NulFree("/index.html") && NulFree("content-type") && NulFree("application/json")
  {
  }

  method SendNotFound(heap: Heap, res: Response)
    requires res.Valid(heap.live)
    modifies res, res.nodes, heap
    ensures res.Valid(heap.live)
    ensures res.View() == NotFound(old(res.View()))
    ensures heap.live - res.Owns() == old(heap.live - res.Owns()) + old(Opt(res.body))
    ensures forall i | 0 <= i < |res.nodes| :: res.nodes[i] in old(res.nodes) || fresh(res.nodes[i])
  {
    hide Response.Valid, Response.View, Response.Owns, Response.Bytes, PrintedInt;
    res.SendBytes(heap, NOT_FOUND_PAGE, 22);
    res.SendStatus(heap, 404);
    assert NOT_FOUND_PAGE[..22] == NOT_FOUND_PAGE;
  }

  lemma TableEntry(files: array<CharPtr>, paths: seq<string>, i: nat)
    requires Indexed(files, paths) && paths != [] && i <= |paths|
    ensures i < files.Length && (files[i] == Null <==> i == |paths|)
  {
  }

  lemma RouteStep(left: seq<Route>, verb: string, uri: string)
    requires left != []
    ensures FirstMatch(RouteTexts(left), verb, uri) ==
            if verb == left[0].first.text && uri == left[0].second.text then Some(left[0].data)
            else FirstMatch(RouteTexts(left[1..]), verb, uri)
  {
    assert RouteTexts(left)[1..] == RouteTexts(left[1..]);
  }

  lemma NoRoutes(verb: string, uri: string)
    ensures FirstMatch(RouteTexts([]), verb, uri) == None
  {
  }
}
