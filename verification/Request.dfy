/** struct Request and the functions of request.c, updating it in place. */
module Request {
  import opened Text
  import opened Lists
  import opened Memory
  import opened Tokenizer
  import opened Fields
  import opened Grammar
  import opened Headers
  import opened Parsing

  function TextAt(p: Block?): Option<string> {
    if p == null then None else Some(p.text)
  }

  class Request {
    var verb: Block?
    var uri: Block?
    var httpVersion: Block?
    var headers: HeaderPtr
    var body: Block?
    ghost var nodes: seq<Header>  // the header list, node by node

    constructor ()
      ensures Empty()
    {
      verb, uri, httpVersion, headers, body := null, null, null, null, null;
      nodes := [];
    }

    ghost predicate Empty()
      reads this
    {
      verb == null && uri == null && httpVersion == null && headers == null && body == null && nodes == []
    }

    /** The message the record holds. */
    ghost function View(): Message
      reads this
    {
      Message(TextAt(verb), TextAt(uri), TextAt(httpVersion), Texts(nodes), TextAt(body))
    }

    ghost function Strings(): set<object>
      reads this
    {
      Opt(verb) + Opt(uri) + Opt(httpVersion) + Opt(body)
    }

    /** The blocks the record owns. */
    ghost function Owns(): set<object>
      reads this
    {
      Strings() + Blocks(nodes)
    }

    /** The list is well formed, everything owned is live, and no block serves twice. */
    ghost predicate Valid(live: set<object>)
      reads this, nodes
    {
      && Lists.Owned(headers, nodes, live)
      && Strings() <= live
      && Strings() !! Blocks(nodes)
      && Opt(verb) !! Opt(uri) !! Opt(httpVersion) !! Opt(body)
    }

    lemma Transfer(live: set<object>, live2: set<object>)
      requires Valid(live)
      ensures Owns() <= live
      ensures Owns() <= live2 ==> Valid(live2)
    {
    }

    /** requestInit: forgets whatever the record held. */
    method Init(ghost heap: Heap)
      modifies this
      ensures Valid(heap.live)
      ensures Empty() && View() == EMPTY && Owns() == {}
    {
      verb, uri, httpVersion, headers, body := null, null, null, null, null;
      nodes := [];
    }

    ghost function Field(i: nat): (f: set<object>)
      reads this
      ensures f <= Owns()
    {
      match i
      case 0 => Opt(verb)
      case 1 => Opt(uri)
      case 2 => Opt(httpVersion)
      case _ => {}
    }

    /** One case of the switch in requestParseLine. The block the field held before is lost
        to the record but stays allocated. */
    method SetField(heap: Heap, i: nat, token: string)
      requires Valid(heap.live) && i <= 2
      modifies this, heap
      ensures Valid(heap.live) && nodes == old(nodes) && body == old(body)
      ensures View() == SetStart(old(View()), i, token)
      ensures Field(i) != {}
      ensures forall k | k != i :: Field(k) == old(Field(k))
      ensures heap.live - Owns() == old(heap.live - Owns()) + old(Field(i))
    {
      var p := heap.Copy(token);
      match i {
        case 0 => verb := p;
        case 1 => uri := p;
        case _ => httpVersion := p;
      }
    }

    /** requestParseLine on a line with a token. */
    method ParseLine(heap: Heap, line: string) returns (r: int)
      requires Valid(heap.live) && Tokens(line) != []
      modifies this, heap
      ensures Valid(heap.live) && nodes == old(nodes) && body == old(body)
      ensures r == if RequestLine(line) then 0 else -1
      ensures !RequestLine(line) ==> unchanged(this) && heap.live == old(heap.live)
      ensures RequestLine(line) ==> View() == WithStart(old(View()), 0, Tokens(line)) && verb != null
      ensures RequestLine(line) ==>
                heap.live - Owns() ==
                old(heap.live - Owns()) + Lost(|Tokens(line)|, old(Field(0)), old(Field(1)), old(Field(2)))
      ensures RequestLine(line) ==>
                |heap.live - Owns()| + Held(View()) == old(|heap.live - Owns()| + Held(View())) + |Tokens(line)|
    {
      hide Request.Valid, Request.View, Request.Owns, RequestLine, WithStart, Tokens, Held;
      var isStart := IsRequestLine(line);
      if !isStart {
        return -1;
      }
      ghost var m, was := View(), Before(nodes, body, Field(0), Field(1), Field(2), heap.live - Owns());
      FieldSizes(heap.live);
      RequestLineExact(line);
      SetFields(heap, line, was);
      AccountStep(was.others, m, was.f0, was.f1, was.f2, Tokens(line));
      return 0;
    }

    /** i fields have been set; the record as it was before owned what `was` says. */
    ghost predicate Setting(live: set<object>, i: nat, was: Before)
      reads this, nodes
    {
      && Valid(live) && nodes == was.nodes && body == was.body
      && (i > 0 ==> Field(0) != {})
      && (i <= 0 ==> Field(0) == was.f0) && (i <= 1 ==> Field(1) == was.f1) && (i <= 2 ==> Field(2) == was.f2)
      && live - Owns() == was.others + Lost(i, was.f0, was.f1, was.f2)
    }

    /** The token loop of requestParseLine. */
    method SetFields(heap: Heap, line: string, ghost was: Before)
      requires Setting(heap.live, 0, was)
      requires Tokens(line) != [] && RequestLine(line)
      modifies this, heap
      ensures View() == WithStart(old(View()), 0, Tokens(line))
      ensures Setting(heap.live, |Tokens(line)|, was)
    {
      hide Tokens, RequestLine, WithStart, SetStart, Spans, Progress;
      hide Request.View, Request.Setting, Strtok.Valid, Strtok.Pending;
      ghost var goal := WithStart(View(), 0, Tokens(line));
      var i := 0;
      var lineCopy := new Strtok(line);
      var token, at := lineCopy.Next();
      FirstProgress(View(), line, token.value, lineCopy.Pending());
      while token.Some?
        invariant lineCopy.Valid() && fresh(lineCopy)
        invariant Setting(heap.live, i, was)
        invariant i + Remaining(token, lineCopy.Pending()) == |Tokens(line)|
        invariant Progress(View(), i, token, lineCopy.Pending(), goal)
        decreases Remaining(token, lineCopy.Pending())
      {
        NextField(View(), i, token.value, lineCopy.Pending(), goal);
        SetNextField(heap, i, token.value, was);
        i := i + 1;
        token, at := lineCopy.Next();
      }
      LastProgress(View(), i, lineCopy.Pending(), goal);
    }

    method SetNextField(heap: Heap, i: nat, token: string, ghost was: Before)
      requires Setting(heap.live, i, was) && i <= 2
      modifies this, heap
      ensures Setting(heap.live, i + 1, was) && nodes == was.nodes
      ensures View() == SetStart(old(View()), i, token)
    {
      hide Request.View, Request.Valid, Request.Owns;
      SetField(heap, i, token);
    }

    /** requestAddHeader. */
    method AddHeader(heap: Heap, line: string) returns (r: int)
      requires Valid(heap.live) && SafeLine(line)
      modifies this, nodes, heap
      ensures Valid(heap.live)
      ensures r == if HeaderLine(line) then 0 else -1
      ensures !HeaderLine(line) ==> unchanged(this) && heap.live == old(heap.live)
      ensures HeaderLine(line) ==> View() == old(View()).(headers := old(View()).headers + [HeaderOf(line)])
      ensures verb == old(verb) && uri == old(uri) && httpVersion == old(httpVersion) && body == old(body)
      ensures heap.live - Owns() == old(heap.live - Owns())
      ensures forall i | 0 <= i < |nodes| :: nodes[i] in old(nodes) || fresh(nodes[i])
    {
      hide Request.Valid, Request.View, Request.Owns, Tokens, HeaderLine, HeaderOf;
      var isHeader := IsRequestHeader(line);
      if !isHeader {
        return -1;
      }
      var name, value := NameAndValue(line);
      LinkHeader(heap, name, value);
      return 0;
    }

    /** The end of requestAddHeader: a new node behind the last one. */
    method LinkHeader(heap: Heap, name: string, value: string)
      requires Valid(heap.live)
      modifies this, nodes, heap
      ensures Valid(heap.live)
      ensures View() == old(View()).(headers := old(View()).headers + [HeaderText(name, value)])
      ensures verb == old(verb) && uri == old(uri) && httpVersion == old(httpVersion) && body == old(body)
      ensures heap.live - Owns() == old(heap.live - Owns())
      ensures forall i | 0 <= i < |nodes| :: nodes[i] in old(nodes) || fresh(nodes[i])
    {
      hide Blocks, Texts, Lists.Owned;
      var entry;
      headers, entry := Headers.AddHeader(headers, nodes, heap, name, value);
      nodes := nodes + [entry];
    }

    /** requestSetBody. */
    method SetBody(heap: Heap, data: string)
      requires Valid(heap.live) && NulFree(data) && Lines(data) != []
      modifies this, heap
      ensures Valid(heap.live) && nodes == old(nodes)
      ensures View() == old(View()).(body := Some(BodyText(data)))
      ensures heap.live - Owns() == old(heap.live - Owns()) + old(Opt(body))
    {
      hide IsChain, Separate, Blocks, Texts, BodyText, Lines;
      var offset := BodyOffset(data);
      body := heap.Copy(data[offset..]);
    }

    /** The account of a parse that started from an empty record, when `start` was live: of the
        `copied` tokens, those no field holds are live and not owned. */
    ghost predicate Accounted(live: set<object>, start: set<object>, copied: nat)
      reads this, nodes
    {
      && Valid(live) && body == null
      && start <= live - Owns()
      && |live - Owns()| + Held(View()) == |start| + copied
    }

    lemma FieldSizes(live: set<object>)
      requires Valid(live)
      ensures live - Owns() !! Field(0) !! Field(1) !! Field(2)
      ensures |Field(0)| == One(View().verb) && |Field(1)| == One(View().uri) && |Field(2)| == One(View().version)
    {
    }

    /** The body of the line loop in requestParse. */
    method TakeLine(heap: Heap, line: string, ghost start: set<object>, ghost copied: nat)
      requires Valid(heap.live) && SafeLine(line)
      modifies this, nodes, heap
      ensures Valid(heap.live) && body == old(body)
      ensures View() == Absorb(old(View()), line)
      ensures old(Accounted(heap.live, start, copied)) ==>
                Accounted(heap.live, start, copied + if RequestLine(line) then |Tokens(line)| else 0)
      ensures forall i | 0 <= i < |nodes| :: nodes[i] in old(nodes) || fresh(nodes[i])
    {
      hide Request.Valid, Request.View, Request.Owns, RequestLine, HeaderLine, HeaderOf, WithStart, Tokens, Lost;
      var isStart := IsRequestLine(line);
      if isStart {
        var r := ParseLine(heap, line);
      } else {
        var isHeader := IsRequestHeader(line);
        if isHeader {
          var r := AddHeader(heap, line);
        }
      }
    }

    lemma EmptyAccount(live: set<object>)
      requires Valid(live) && Empty()
      ensures Accounted(live, live, 0) && View() == EMPTY
    {
      assert live - Owns() == live;
    }

    /** requestParse: false for NULL. Starting from an empty record, the number of blocks that
        are allocated and not owned by it grows by the leak, which is none exactly when the text
        holds one request line. */
    method Parse(heap: Heap, data: string) returns (ok: bool)
      requires Valid(heap.live) && NulFree(data)
      requires ValidRequest(data) ==> SafeData(data)
      modifies this, nodes, heap
      ensures ok == ValidRequest(data)
      ensures !ok ==> unchanged(this) && heap.live == old(heap.live)
      ensures ok ==> Valid(heap.live) && View() == ParsedFrom(old(View()), data)
      ensures ok && old(Empty()) ==> old(heap.live) <= heap.live - Owns()
      ensures ok && old(Empty()) ==> |heap.live - Owns()| == |old(heap.live)| + Leak(Lines(data))
      ensures ok && old(Empty()) ==> (heap.live - Owns() == old(heap.live) <==> StartLines(Lines(data)) == 1)
    {
      hide Lines, StartLines, StartTokens, Leak, AbsorbAll, BodyText, ValidRequest, SafeData, NulFree, Blocks, Texts;
      hide Request.Valid, Request.View, Request.Owns, Request.Accounted, Request.Empty;
      ok := IsValidRequest(data);
      if !ok {
        return;
      }
      ghost var start, empty := heap.live, Empty();
      if empty {
        EmptyAccount(start);
      }
      ghost var stop := TakeLines(heap, data, start, empty);
      ParseBody(heap, data, start, empty);
    }

    method ParseBody(heap: Heap, data: string, ghost start: set<object>, ghost empty: bool)
      requires Valid(heap.live) && NulFree(data) && ValidRequest(data) && SafeData(data)
      requires empty ==> Accounted(heap.live, start, StartTokens(Lines(data)))
      requires empty ==> View() == AbsorbAll(EMPTY, Lines(data))
      modifies this, heap
      ensures Valid(heap.live)
      ensures View() == if BodyText(data) == "" then old(View()) else old(View()).(body := Some(BodyText(data)))
      ensures empty ==> start <= heap.live - Owns()
      ensures empty ==> |heap.live - Owns()| == |start| + Leak(Lines(data))
      ensures empty ==> (heap.live - Owns() == start <==> StartLines(Lines(data)) == 1)
    {
      hide Lines, StartLines, StartTokens, Leak, Held, AbsorbAll, ValidRequest, SafeData, BodyText, NulFree;
      hide Request.Valid, Request.View, Request.Owns;
      ValidHasStart(data);
      if empty {
        TextLeaks(data, start, heap.live - Owns());
      }
      var hasBody := HttpHasBody(data);
      if hasBody {
        SetBody(heap, data);
      }
    }

    /** requestDestroy: frees what the record owns, each block once. The string fields are
        left dangling; requestInit resets them. */
    method Destroy(heap: Heap)
      requires Valid(heap.live)
      modifies this, heap
      ensures heap.live == old(heap.live - Owns())
      ensures headers == null && nodes == []
    {
      hide NodeBlocks, Separate;
      FreeOpt(heap, verb);
      FreeOpt(heap, uri);
      FreeOpt(heap, httpVersion);
      FreeOpt(heap, body);
      var header := headers;
      ghost var left := nodes;
      headers, nodes := null, [];
      DestroyList(header, left, heap);
    }

    /** The line loop of requestParse. */
    method TakeLines(heap: Heap, data: string, ghost start: set<object>, ghost empty: bool)
      returns (ghost stop: nat)
      requires Valid(heap.live) && NulFree(data) && SafeData(data)
      requires empty ==> Accounted(heap.live, start, 0)
      modifies this, nodes, heap
      ensures Valid(heap.live) && body == old(body)
      ensures View() == AbsorbAll(old(View()), Lines(data))
      ensures empty ==> Accounted(heap.live, start, StartTokens(Lines(data)))
      ensures stop == Stop(data)
    {
      hide Request.Valid, Request.View, Request.Accounted, Lines, Absorb, RequestLine, NulFree, ReadField, SafeLine;
      hide Stop, Tokens, Text.CString;
      ghost var copied: nat, goal := 0, AbsorbAll(View(), Lines(data));
      var field := new char[FIELD_MAX];
      var offset := 0;
      assert data[0..] == data;
      var next := ReadFieldInto(field, data, offset, FIELD_MAX);
      while next.Some?
        invariant offset <= |data| && fresh(field) && field.Length == FIELD_MAX
        invariant Valid(heap.live) && body == old(body)
        invariant Delivered(data, offset, next, CString(field[..]))
        invariant offset + Stop(data[offset..]) == Stop(data)
        invariant AbsorbAll(View(), Lines(data[offset..])) == goal
        invariant copied + StartTokens(Lines(data[offset..])) == StartTokens(Lines(data))
        invariant forall line | line in Lines(data[offset..]) :: SafeLine(line)
        invariant empty ==> Accounted(heap.live, start, copied)
        invariant forall i | 0 <= i < |nodes| :: nodes[i] in old(nodes) || fresh(nodes[i])
        decreases |data| - offset
      {
        ghost var line := CString(field[..]);
        NextLine(data, offset, next.value, line);
        TakeLine(heap, CString(field[..]), start, copied);
        copied := copied + if RequestLine(line) then |Tokens(line)| else 0;
        offset := next.value;
        next := ReadFieldInto(field, data, offset, FIELD_MAX);
      }
      NoMoreLines(data, offset);
      stop := offset;
    }
  }

  lemma ValidHasStart(data: string)
    requires ValidRequest(data)
    ensures Lines(data) != [] && StartLines(Lines(data)) >= 1
  {
    hide Lines, RequestLine;
  }

  method FreeOpt(heap: Heap, p: Block?)
    requires Opt(p) <= heap.live
    modifies heap
    ensures heap.live == old(heap.live) - Opt(p)
  {
    if p != null {
      heap.Free(p);
    }
  }

  /** What readField has just answered at offset. */
  ghost predicate Delivered(data: string, offset: nat, next: Option<nat>, field: string)
    requires offset <= |data|
  {
    var r := ReadField(data[offset..], FIELD_MAX);
    match next
    case None => r.None?
    case Some(n) => r.Some? && offset < n <= |data| && data[n..] == r.value.rest && field == r.value.line
  }

  lemma NextLine(data: string, offset: nat, next: nat, line: string)
    requires offset <= |data| && Delivered(data, offset, Some(next), line)
    ensures offset < next <= |data|
    ensures Lines(data[offset..]) == [line] + Lines(data[next..])
    ensures Lines(data[offset..])[0] == line && Lines(data[offset..])[1..] == Lines(data[next..])
    ensures Stop(data[offset..]) == next - offset + Stop(data[next..])
  {
    hide ReadField;
  }

  lemma NoMoreLines(data: string, offset: nat)
    requires offset <= |data| && ReadField(data[offset..], FIELD_MAX).None?
    ensures Lines(data[offset..]) == [] && Stop(data[offset..]) == 0
  {
    hide ReadField;
  }

  /** The strtok calls of requestAddHeader. The value pointer is moved from the copy to the
      original line, so it runs to the end of the line. */
  method NameAndValue(line: string) returns (name: string, value: string)
    requires HeaderLine(line) && |Tokens(line)| >= 2
    ensures HeaderText(name, value) == HeaderOf(line)
  {
    hide Tokens, Spans, FromSecondToken;
    var lineCopy := new Strtok(line);
    var first, start := lineCopy.Next();
    ghost var to := lineCopy.pos;
    name := first.value[..|first.value| - 1];
    var second, valueStart := lineCopy.Next();
    SpansTwice(line, start, to, valueStart, lineCopy.pos);
    value := line[valueStart..];
  }

  /** The scan shared word for word by httpHasBody and requestSetBody. */
  method BodyOffset(data: string) returns (offset: nat)
    requires NulFree(data) && Lines(data) != []
    ensures offset == Stop(data) + if CrlfFree(Rest(data)) then 0 else 2
    ensures offset <= |data| && data[offset..] == BodyText(data)
  {
    hide ReadField, CrlfFree, FirstCrlf, BodyText, Text.CString, NulFree, Stop, Rest;
    var buffer := new char[FIELD_MAX];
    offset := 0;
    assert data[0..] == data;
    var next := ReadFieldInto(buffer, data, offset, FIELD_MAX);
    while next.Some?
      invariant offset <= |data| && offset + Stop(data[offset..]) == Stop(data)
      invariant Delivered(data, offset, next, CString(buffer[..]))
      decreases |data| - offset
    {
      NextLine(data, offset, next.value, CString(buffer[..]));
      offset := next.value;
      var ahead := ReadFieldInto(buffer, data, offset, FIELD_MAX);
      if ahead.None? {
        break;
      }
      next := ReadFieldInto(buffer, data, offset, FIELD_MAX);
    }
    NoMoreLines(data, offset);
    StopLeavesRest(data);
    if FirstCrlf(data[offset..]) < |data| - offset {
      BodyBehind(data, offset);
      offset := offset + 2;
    } else {
      BodyHere(data, offset);
    }
  }

  lemma BodyBehind(data: string, offset: nat)
    requires offset <= |data| && data[offset..] == Rest(data) && FirstCrlf(Rest(data)) < |Rest(data)|
    ensures offset + 2 <= |data| && data[offset + 2..] == BodyText(data) && !CrlfFree(Rest(data))
  {
    hide Rest;
    assert CrlfAt(Rest(data), FirstCrlf(Rest(data)));
    assert data[offset..][2..] == data[offset + 2..];
  }

  lemma BodyHere(data: string, offset: nat)
    requires offset <= |data| && data[offset..] == Rest(data) && FirstCrlf(Rest(data)) >= |Rest(data)|
    ensures data[offset..] == BodyText(data) && CrlfFree(Rest(data))
  {
    hide Rest;
  }

  method HttpHasBody(data: string) returns (b: bool)
    requires NulFree(data) && Lines(data) != []
    ensures b <==> BodyText(data) != ""
  {
    var offset := BodyOffset(data);
    b := |data[offset..]| != 0;
  }

  /** A request line copies its tokens; each copy ends in a field or replaces a lost one. */
  lemma AccountStep(others: set<object>, m: Message, f0: set<object>, f1: set<object>, f2: set<object>,
                    ts: seq<string>)
    requires |ts| <= 3 && others !! f0 !! f1 !! f2
    requires |f0| == One(m.verb) && |f1| == One(m.uri) && |f2| == One(m.version)
    ensures |others + Lost(|ts|, f0, f1, f2)| + Held(WithStart(m, 0, ts)) == |others| + Held(m) + |ts|
  {
    WithStartExact(m, ts);
    hide WithStart;
    var l0, l1, l2 := if |ts| > 0 then f0 else {}, if |ts| > 1 then f1 else {}, if |ts| > 2 then f2 else {};
    assert others + Lost(|ts|, f0, f1, f2) == others + l0 + l1 + l2;
    assert |others + l0| == |others| + |l0| && |others + l0 + l1| == |others + l0| + |l1|;
  }

  /** From an empty record: the account of a whole text. */
  lemma TextLeaks(data: string, start: set<object>, others: set<object>)
    requires ValidRequest(data) && SafeData(data)
    requires start <= others
    requires |others| + Held(AbsorbAll(EMPTY, Lines(data))) == |start| + StartTokens(Lines(data))
    ensures |others| == |start| + Leak(Lines(data))
    ensures others == start <==> StartLines(Lines(data)) == 1
  {
    ValidHasStart(data);
    LeakExact(Lines(data));
    SubsetSize(start, others);
    hide Lines, StartLines, StartTokens, ValidRequest, BodyText, AbsorbAll;
  }

  lemma SubsetSize(a: set<object>, b: set<object>)
    requires a <= b
    ensures |b| == |a| <==> b == a
  {
    assert b == a + (b - a);
    assert |b| == |a| + |b - a|;
  }

  /** What a record held before its fields are set, for the account of lost blocks. */
  datatype Before = Before(
    nodes: seq<Header>, body: Block?, f0: set<object>, f1: set<object>, f2: set<object>, others: set<object>)

  /** What assigning the first n fields makes unreachable. */
  ghost function Lost(n: nat, f0: set<object>, f1: set<object>, f2: set<object>): set<object> {
    (if n > 0 then f0 else {}) + (if n > 1 then f1 else {}) + (if n > 2 then f2 else {})
  }

  ghost function Remaining(token: Option<string>, pending: seq<string>): nat {
    if token.Some? then 1 + |pending| else 0
  }

  /** The fields still to be set lead from m to the goal. */
  ghost predicate Progress(m: Message, i: nat, token: Option<string>, pending: seq<string>, goal: Message) {
    match token
    case None => m == goal
    case Some(t) => StartFields(i, [t] + pending) && WithStart(m, i, [t] + pending) == goal
  }

  lemma FirstProgress(m: Message, line: string, t: string, ts: seq<string>)
    requires RequestLine(line) && Tokens(line) != []
    requires t == Tokens(line)[0] && ts == Tokens(line)[1..]
    ensures Progress(m, 0, Some(t), ts, WithStart(m, 0, Tokens(line)))
  {
    hide Tokens, StartFields;
    assert [t] + ts == Tokens(line);
  }

  lemma LastProgress(m: Message, i: nat, ts: seq<string>, goal: Message)
    requires Progress(m, i, None, ts, goal)
    ensures m == goal
  {
  }

  lemma NextField(m: Message, i: nat, t: string, ts: seq<string>, goal: Message)
    requires Progress(m, i, Some(t), ts, goal)
    ensures i <= 2
    ensures ts == [] ==> Progress(SetStart(m, i, t), i + 1, None, ts, goal)
    ensures ts != [] ==> Progress(SetStart(m, i, t), i + 1, Some(ts[0]), ts[1..], goal)
  {
    hide IsHttpVersion;
    assert ([t] + ts)[1..] == ts;
    assert WithStart(SetStart(m, i, t), i + 1, ts) == goal;
    assert ts != [] ==> [ts[0]] + ts[1..] == ts;
  }
}
