/**
 * The few pieces of Python's string handling that log_reader.py relies on:
 * `str.isspace` (behind `\s`, `\S`, `str.strip` and `str.split`), `\d` and
 * `int(...)` on a run of decimal digits, all restricted to ASCII.
 */
module Text {

  /** Python's `str.isspace` on ASCII: tab, line feed, vertical tab, form feed,
      carriage return, the separators 0x1C-0x1F, and space. */
  predicate IsSpace(c: char) {
    '\t' <= c <= '\r' || '\U{1C}' <= c <= '\U{1F}' || c == ' '
  }

  /** `\d` restricted to ASCII. */
  predicate IsDigit(c: char) {
    '0' <= c <= '9'
  }

  predicate NotSpace(c: char) {
    !IsSpace(c)
  }

  predicate NoSpace(s: string) {
    forall k :: 0 <= k < |s| ==> !IsSpace(s[k])
  }

  predicate AllSpace(s: string) {
    forall k :: 0 <= k < |s| ==> IsSpace(s[k])
  }

  predicate AllDigits(s: string) {
    forall k :: 0 <= k < |s| ==> IsDigit(s[k])
  }

  /** `str.isdigit`: non-empty and every character a digit. */
  predicate IsDigitString(s: string) {
    |s| > 0 && AllDigits(s)
  }

  /** The length of the longest prefix of `s` whose characters all satisfy `p`. */
  function Span(s: string, p: char -> bool): (n: nat)
    ensures n <= |s|
    ensures forall k :: 0 <= k < n ==> p(s[k])
    ensures n == |s| || !p(s[n])
  {
    if s == [] || !p(s[0]) then 0 else 1 + Span(s[1..], p)
  }

  /** A span ends exactly at the first character that fails `p`. */
  lemma SpanExact(s: string, p: char -> bool, j: nat)
    requires j < |s| && !p(s[j])
    requires forall k :: 0 <= k < j ==> p(s[k])
    ensures Span(s, p) == j
  {
  }

  /** A span covers every prefix whose characters all satisfy `p`. */
  lemma SpanCovers(s: string, p: char -> bool, j: nat)
    requires j <= |s|
    requires forall k :: 0 <= k < j ==> p(s[k])
    ensures Span(s, p) >= j
  {
  }

  /** The length of the longest suffix of `s` whose characters all satisfy `p`. */
  function SpanEnd(s: string, p: char -> bool): (n: nat)
    ensures n <= |s|
    ensures forall k :: |s| - n <= k < |s| ==> p(s[k])
    ensures n == |s| || !p(s[|s| - n - 1])
  {
    if s == [] || !p(s[|s| - 1]) then 0 else 1 + SpanEnd(s[..|s| - 1], p)
  }

  /** `str.lstrip()`: drops the leading whitespace. */
  function TrimStart(s: string): (r: string)
    ensures |r| <= |s| && r == s[|s| - |r|..]
    ensures AllSpace(s[..|s| - |r|])
    ensures r == [] || !IsSpace(r[0])
  {
    s[Span(s, IsSpace)..]
  }

  /** `str.rstrip()`: drops the trailing whitespace. */
  function TrimEnd(s: string): (r: string)
    ensures |r| <= |s| && r == s[..|r|]
    ensures AllSpace(s[|r|..])
    ensures r == [] || !IsSpace(r[|r| - 1])
  {
    s[..|s| - SpanEnd(s, IsSpace)]
  }

  /** `r` is what `str.strip()` leaves of `s`: a slice of `s` that neither begins nor
      ends with whitespace, with only whitespace before and after it. */
  predicate StripsTo(s: string, r: string) {
    && (r == [] || (!IsSpace(r[0]) && !IsSpace(r[|r| - 1])))
    && exists i :: 0 <= i <= |s| - |r| && r == s[i..i + |r|] && AllSpace(s[..i]) && AllSpace(s[i + |r|..])
  }

  /** `str.strip()`. */
  function Strip(s: string): (r: string)
    ensures StripsTo(s, r)
  {
    var t := TrimStart(s);
    var r := TrimEnd(t);
    StripSlice(s, t, r);
    r
  }

  lemma StripSlice(s: string, t: string, r: string)
    requires |t| <= |s| && t == s[|s| - |t|..] && AllSpace(s[..|s| - |t|])
    requires t == [] || !IsSpace(t[0])
    requires |r| <= |t| && r == t[..|r|] && AllSpace(t[|r|..])
    requires r == [] || !IsSpace(r[|r| - 1])
    ensures StripsTo(s, r)
  {
    var i := |s| - |t|;
    assert s[i + |r|..] == t[|r|..];
    assert r == s[i..i + |r|];
  }

  /** Stripping twice removes nothing more. */
  lemma StripIdempotent(s: string)
    ensures Strip(Strip(s)) == Strip(s)
  {
    var r := Strip(s);
    assert Span(r, IsSpace) == 0;
    assert TrimStart(r) == r;
    assert SpanEnd(r, IsSpace) == 0;
    assert TrimEnd(r) == r;
  }

  /** A word of `str.split()`: non-empty, with no whitespace. */
  predicate IsWord(w: string) {
    |w| > 0 && NoSpace(w)
  }

  /** `str.split()` with no argument: the maximal runs of non-whitespace, in order. */
  function Words(s: string): (ws: seq<string>)
    ensures forall k :: 0 <= k < |ws| ==> IsWord(ws[k])
    decreases |s|
  {
    if s == [] then []
    else if IsSpace(s[0]) then Words(s[1..])
    else
      var n := Span(s, NotSpace);
      var w := s[..n];
      assert IsWord(w);
      var rest := Words(s[n..]);
      assert forall k :: 0 < k <= |rest| ==> ([w] + rest)[k] == rest[k - 1];
      [w] + rest
  }

  /** Words separated by single spaces. */
  function Join(ws: seq<string>): string {
    if ws == [] then "" else if |ws| == 1 then ws[0] else ws[0] + " " + Join(ws[1..])
  }

  /** A word with nothing after it splits into itself. */
  lemma WordsOfWord(w: string)
    requires IsWord(w)
    ensures Words(w) == [w]
  {
    assert Span(w, NotSpace) == |w|;
    assert w[..|w|] == w && w[|w|..] == [];
  }

  /** A word followed by a space contributes itself and nothing else. */
  lemma WordsOfWordThen(w: string, rest: string)
    requires IsWord(w)
    ensures Words(w + " " + rest) == [w] + Words(rest)
  {
    var j := w + " " + rest;
    assert Span(j, NotSpace) == |w| by {
      assert forall k :: 0 <= k < |w| ==> j[k] == w[k];
      assert j[|w|] == ' ';
    }
    assert j[..|w|] == w;
    var tail := j[|w|..];
    assert tail == " " + rest;
    assert tail[1..] == rest;
  }

  /** Splitting undoes joining, for words that are non-empty and contain no whitespace. */
  lemma {:induction false} WordsOfJoin(ws: seq<string>)
    requires forall k :: 0 <= k < |ws| ==> IsWord(ws[k])
    ensures Words(Join(ws)) == ws
  {
    if |ws| == 1 {
      WordsOfWord(ws[0]);
    } else if |ws| > 1 {
      WordsOfJoin(ws[1..]);
      WordsOfWordThen(ws[0], Join(ws[1..]));
    }
  }

  function DigitValue(c: char): (d: nat)
    requires IsDigit(c)
    ensures d < 10
  {
    (c as int) - ('0' as int)
  }

  function Pow10(n: nat): (p: nat)
    ensures p >= 1
  {
    if n == 0 then 1 else 10 * Pow10(n - 1)
  }

  /** `int(s)` on a string of decimal digits (leading zeros allowed): its value is below 10^|s|. */
  function DecimalValue(s: string): (v: nat)
    requires AllDigits(s)
    ensures v < Pow10(|s|)
  {
    if s == [] then 0 else 10 * DecimalValue(s[..|s| - 1]) + DigitValue(s[|s| - 1])
  }

  function DigitChar(d: nat): (c: char)
    requires d < 10
    ensures IsDigit(c) && DigitValue(c) == d
  {
    ('0' as int + d) as char
  }

  /** The shortest decimal spelling of `n`. */
  function Decimal(n: nat): (s: string)
    ensures IsDigitString(s)
  {
    if n < 10 then [DigitChar(n)] else Decimal(n / 10) + [DigitChar(n % 10)]
  }

  /** Reading back a decimal spelling gives the number. */
  lemma {:induction false} DecimalRoundTrip(n: nat)
    ensures DecimalValue(Decimal(n)) == n
  {
    var s := Decimal(n);
    if n >= 10 {
      DecimalRoundTrip(n / 10);
      assert s[..|s| - 1] == Decimal(n / 10);
    }
  }
}
