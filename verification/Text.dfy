/** C strings as sequences: the few libc string functions the server relies on. */
module Text {

  datatype Option<+T> = None | Some(value: T)

  const NUL: char := '\0'
  const CRLF: string := "\r\n"

  lemma TakeDrop(s: seq<char>, n: nat)
    requires n <= |s|
    ensures s[..n] + s[n..] == s
  {
  }

  predicate NulFree(s: string) {
    NUL !in s
  }

  predicate CrlfAt(s: string, i: nat) {
    i + 1 < |s| && s[i] == '\r' && s[i + 1] == '\n'
  }

  /** sub occurs in s at offset i. */
  predicate OccursAt(s: string, sub: string, i: nat) {
    i + |sub| <= |s| && s[i..i + |sub|] == sub
  }

  predicate CrlfFree(s: string) {
    forall k: nat | k < |s| :: !CrlfAt(s, k)
  }

  /** strstr(s, "\r\n") as an offset; |s| stands for NULL. */
  function FirstCrlf(s: string): (p: nat)
    ensures p <= |s|
    ensures p < |s| ==> CrlfAt(s, p)
    ensures forall k: nat :: k < p ==> !CrlfAt(s, k)
  {
    if |s| == 0 || CrlfAt(s, 0) then
      0
    else
      var p := FirstCrlf(s[1..]);
      assert forall k: nat :: 0 < k <= p ==> CrlfAt(s, k) == CrlfAt(s[1..], k - 1);
      1 + p
  }

  /** The first CRLF of `line CRLF rest` ends the line exactly when the line holds none;
      a trailing carriage return in the line does not matter. */
  lemma FirstCrlfAfter(line: string, rest: string)
    requires CrlfFree(line)
    ensures FirstCrlf(line + CRLF + rest) == |line|
  {
    var s := line + CRLF + rest;
    assert CrlfAt(s, |line|);
    forall k: nat | k < |line|
      ensures !CrlfAt(s, k)
    {
      assert !CrlfAt(line, k);
    }
  }

  /** The text a C reader sees in a character buffer: everything before the first NUL. */
  function CString(s: seq<char>): (t: string)
    ensures NulFree(t)
    ensures |t| <= |s| && t == s[..|t|]
    ensures |t| < |s| ==> s[|t|] == NUL
  {
    if |s| == 0 || s[0] == NUL then "" else [s[0]] + CString(s[1..])
  }

  /** A NUL-free text followed by a NUL is read back whole, whatever lies behind. */
  lemma {:induction false} CStringOf(text: string, tail: seq<char>)
    requires NulFree(text)
    requires |tail| > 0 ==> tail[0] == NUL
    ensures CString(text + tail) == text
  {
    if text == "" {
      assert text + tail == tail;
    } else {
      assert (text + tail)[1..] == text[1..] + tail;
      CStringOf(text[1..], tail);
    }
  }

  // ---------------------------------------------------------------- decimal numbers

  predicate IsDigit(c: char) {
    '0' <= c <= '9'
  }

  function Digit(n: nat): char
    requires n < 10
  {
    '0' + n as char
  }

  /** printf("%d"/"%ld") of a non-negative number. */
  function Decimal(n: nat): (s: string)
    ensures |s| > 0 && forall i | 0 <= i < |s| :: IsDigit(s[i])
  {
    if n < 10 then [Digit(n)] else Decimal(n / 10) + [Digit(n % 10)]
  }

  predicate AllDigits(s: string) {
    forall i | 0 <= i < |s| :: IsDigit(s[i])
  }

  function DigitsValue(s: string): nat
    requires AllDigits(s)
  {
    if s == "" then 0 else 10 * DigitsValue(s[..|s| - 1]) + (s[|s| - 1] as nat - '0' as nat)
  }

  /** How a peer reads a decimal length: digits only, at least one. */
  function ParseDecimal(s: string): Option<nat> {
    if s != "" && AllDigits(s) then Some(DigitsValue(s)) else None
  }

  lemma {:induction false} DecimalRoundTrip(n: nat)
    ensures ParseDecimal(Decimal(n)) == Some(n)
  {
    var s := Decimal(n);
    if n < 10 {
      assert s[..|s| - 1] == "";
      assert DigitsValue("") == 0;
    } else {
      DecimalRoundTrip(n / 10);
      assert s[..|s| - 1] == Decimal(n / 10);
    }
  }
}
