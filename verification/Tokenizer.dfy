/** strtok(line, " "): the maximal space-free runs of a line. */
module Tokenizer {
  import opened Text

  predicate AllSpaces(s: string) {
    forall k | 0 <= k < |s| :: s[k] == ' '
  }

  predicate IsToken(t: string) {
    t != "" && ' ' !in t
  }

  /** What is left behind the leading spaces. */
  function Trim(s: string): (r: string)
    ensures |r| <= |s| && r == s[|s| - |r|..] && AllSpaces(s[..|s| - |r|])
    ensures r != "" ==> r[0] != ' '
  {
    if s == "" || s[0] != ' ' then s else
      var r := Trim(s[1..]);
      assert s[..|s| - |r|] == [s[0]] + s[1..][..|s| - 1 - |r|];
      r
  }

  /** strcspn(s, " ") */
  function WordLength(s: string): (w: nat)
    ensures w <= |s| && ' ' !in s[..w]
    ensures w < |s| ==> s[w] == ' '
  {
    if s == "" || s[0] == ' ' then 0 else
      var w := WordLength(s[1..]);
      assert s[..1 + w] == [s[0]] + s[1..][..w];
      1 + w
  }

  function Tokens(s: string): seq<string>
    decreases |s|
  {
    var r := Trim(s);
    if r == "" then [] else [r[..WordLength(r)]] + Tokens(r[WordLength(r)..])
  }

  /** The line from its second token on, all of what follows it included. */
  function FromSecondToken(s: string): string {
    var r := Trim(s);
    Trim(r[WordLength(r)..])
  }

  // ---------------------------------------------------------------- an independent reading of Tokens

  /** A line laid out as gap token gap token ... gap. */
  datatype Layout = End(gap: string) | Word(gap: string, token: string, rest: Layout)
  {
    function Text(): string {
      match this
      case End(_) => gap
      case Word(_, _, _) => gap + (token + rest.Text())
    }

    function Words(): seq<string> {
      match this
      case End(_) => []
      case Word(_, _, _) => [token] + rest.Words()
    }

    /** Gaps hold spaces only and are non-empty between tokens; tokens are space-free and non-empty. */
    predicate Valid() {
      && AllSpaces(gap)
      && (Word? ==> IsToken(token) && rest.Valid() && (rest.Word? ==> rest.gap != ""))
    }
  }

  lemma {:induction false} TrimGap(gap: string, s: string)
    requires AllSpaces(gap)
    ensures Trim(gap + s) == Trim(s)
  {
    if gap == "" {
      assert gap + s == s;
    } else {
      assert (gap + s)[1..] == gap[1..] + s;
      TrimGap(gap[1..], s);
    }
  }

  lemma {:induction false} WordLengthOf(t: string, s: string)
    requires ' ' !in t
    requires s == "" || s[0] == ' '
    ensures WordLength(t + s) == |t|
  {
    if t == "" {
      assert t + s == s;
    } else {
      assert (t + s)[1..] == t[1..] + s;
      WordLengthOf(t[1..], s);
    }
  }

  lemma TokensOfWord(t: string, s: string)
    requires IsToken(t)
    requires s == "" || s[0] == ' '
    ensures Tokens(t + s) == [t] + Tokens(s)
  {
    assert t[0] in t;
    assert Trim(t + s) == t + s;
    WordLengthOf(t, s);
    assert (t + s)[..|t|] == t && (t + s)[|t|..] == s;
  }

  /** Tokens is the only way to read a line as tokens between gaps of spaces ... */
  lemma {:induction false} TokensOfLayout(l: Layout)
    requires l.Valid()
    ensures Tokens(l.Text()) == l.Words()
  {
    match l
    case End(gap) =>
      TrimGap(gap, "");
      assert gap + "" == gap;
    case Word(gap, token, rest) =>
      TokensOfLayout(rest);
      assert rest.Text() == "" || rest.Text()[0] == ' ';
      TokensOfWord(token, rest.Text());
      TrimGap(gap, token + rest.Text());
  }

  /** ... and every line can be read that way. */
  lemma {:induction false} TokensLaidOut(s: string) returns (l: Layout)
    ensures l.Valid() && l.Text() == s && l.Words() == Tokens(s)
    decreases |s|
  {
    var r := Trim(s);
    if r == "" {
      l := End(s);
    } else {
      var gap, token, after := SplitFirst(s);
      var rest := TokensLaidOut(after);
      InnerGap(rest);
      l := Word(gap, token, rest);
    }
  }

  lemma SplitFirst(s: string) returns (gap: string, token: string, after: string)
    requires Trim(s) != ""
    ensures s == gap + (token + after) && |after| < |s|
    ensures AllSpaces(gap) && IsToken(token) && (after == "" || after[0] == ' ')
    ensures Tokens(s) == [token] + Tokens(after)
  {
    var r := Trim(s);
    var w := WordLength(r);
    var n := |s| - |r|;
    gap, token, after := s[..n], r[..w], r[w..];
    TakeDrop(s, n);
    TakeDrop(r, w);
    assert w > 0;
  }

  lemma InnerGap(l: Layout)
    requires l.Valid()
    requires l.Text() == "" || l.Text()[0] == ' '
    ensures l.Word? ==> l.gap != ""
  {
  }

  // ---------------------------------------------------------------- strtok and its hidden state

  /** The copy of a line that strtok works on and the position it keeps between calls. */
  class Strtok {
    const text: string
    var pos: nat

    ghost predicate Valid()
      reads this
    {
      pos <= |text|
    }

    ghost function Pending(): seq<string>
      requires Valid()
      reads this
    {
      Tokens(text[pos..])
    }

    constructor (line: string)
      ensures Valid() && text == line && pos == 0
      ensures Pending() == Tokens(line)
    {
      text := line;
      pos := 0;
      new;
      assert text[0..] == line;
    }

    /** The next token and where it starts; None for NULL. */
    method Next() returns (token: Option<string>, start: nat)
      requires Valid()
      modifies this
      ensures Valid()
      ensures old(Pending()) == [] ==> token == None && Pending() == []
      ensures old(Pending()) != [] ==> token == Some(old(Pending())[0]) && Pending() == old(Pending())[1..]
      ensures Spans(text, old(pos), start, pos)
    {
      ghost var left := text[pos..];
      start := SkipSpaces(text, pos);
      if start == |text| {
        pos := start;
        return None, start;
      }
      var end := WordEnd(text, start);
      TokenAt(left, text, start, end);
      pos := end;
      token := Some(text[start..end]);
    }
  }

  /** From position `from`, the next token (if any) fills start..to. */
  predicate Spans(text: string, from: nat, start: nat, to: nat) {
    && from <= start <= to <= |text|
    && text[start..] == Trim(text[from..])
    && to - start == WordLength(text[start..])
  }

  lemma SpansTwice(line: string, start1: nat, to1: nat, start2: nat, to2: nat)
    requires Spans(line, 0, start1, to1) && Spans(line, to1, start2, to2)
    ensures line[start2..] == FromSecondToken(line)
  {
    hide Trim, WordLength;
    assert line[0..] == line;
    assert line[start1..][to1 - start1..] == line[to1..];
  }

  lemma TokenAt(left: string, text: string, start: nat, end: nat)
    requires start <= end <= |text| && start < |text|
    requires text[start..] == Trim(left) && end - start == WordLength(text[start..])
    ensures Tokens(left) == [text[start..end]] + Tokens(text[end..])
  {
    hide Trim, WordLength;
    var r := text[start..];
    assert r[..end - start] == text[start..end] && r[end - start..] == text[end..];
  }

  method SkipSpaces(text: string, pos: nat) returns (start: nat)
    requires pos <= |text|
    ensures pos <= start <= |text| && text[start..] == Trim(text[pos..])
  {
    start := pos;
    while start < |text| && text[start] == ' '
      invariant pos <= start <= |text|
      invariant Trim(text[start..]) == Trim(text[pos..])
    {
      assert text[start..][1..] == text[start + 1..];
      start := start + 1;
    }
  }

  method WordEnd(text: string, start: nat) returns (end: nat)
    requires start <= |text|
    ensures start <= end <= |text| && end - start == WordLength(text[start..])
  {
    end := start;
    while end < |text| && text[end] != ' '
      invariant start <= end <= |text|
      invariant end - start + WordLength(text[end..]) == WordLength(text[start..])
    {
      assert text[end..][1..] == text[end + 1..];
      end := end + 1;
    }
  }
}
