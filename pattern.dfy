/**
 * The one regular expression of log_reader.py,
 *     (\S+) - - \[(.*?)\] "(.*?)" (\d{3}) (\d+|-) ?(.*)?
 * applied with `re.match` (anchored at the start of the line only).
 *
 * IsMatch says when a captures record is one way the pattern can match a line;
 * NoLater is the order in which Python's backtracking matcher tries those ways.
 * Match is a hand-written matcher for this pattern alone, proved to return the
 * match Python settles on: one that no other match precedes.
 */
module LogPattern {
  import opened Wrappers
  import opened Text

  /** What groups 4, 5 and 6 captured, and whether the optional space ` ?` was taken. */
  datatype Tail = Tail(status: string, size: string, gap: bool, message: string)

  /** What the whole pattern captured: groups 1 (ip), 2 (timestamp), 3 (request) and the tail. */
  datatype Captures = Captures(ip: string, timestamp: string, request: string, tail: Tail)

  /** `.` matches every character except a line feed. */
  predicate NoNewline(s: string) {
    forall k :: 0 <= k < |s| ==> s[k] != '\n'
  }

  predicate NotNewline(c: char) {
    c != '\n'
  }

  /** The text matched by `(\d{3}) (\d+|-) ?(.*)?`. */
  function TailText(t: Tail): string {
    t.status + " " + t.size + (if t.gap then " " else "") + t.message
  }

  /** `u` begins with a match of `(\d{3}) (\d+|-) ?(.*)?` capturing `t`. */
  ghost predicate IsTailMatch(u: string, t: Tail) {
    && |t.status| == 3 && AllDigits(t.status)
    && (IsDigitString(t.size) || t.size == "-")
    && NoNewline(t.message)
    && TailText(t) <= u
  }

  /** `v` begins with a match of `(.*?)" ` followed by the tail. */
  ghost predicate IsRequestMatch(v: string, request: string, t: Tail) {
    && NoNewline(request)
    && request + "\" " <= v
    && IsTailMatch(v[|request| + 2..], t)
  }

  /** `w` begins with a match of `(.*?)\] "` followed by the request and the tail. */
  ghost predicate IsTimestampMatch(w: string, timestamp: string, request: string, t: Tail) {
    && NoNewline(timestamp)
    && timestamp + "] \"" <= w
    && IsRequestMatch(w[|timestamp| + 3..], request, t)
  }

  /** `line` begins with a match of the whole pattern capturing `c`. */
  ghost predicate IsMatch(line: string, c: Captures) {
    && |c.ip| > 0 && NoSpace(c.ip)
    && c.ip + " - - [" <= line
    && IsTimestampMatch(line[|c.ip| + 6..], c.timestamp, c.request, c.tail)
  }

  /** Backtracking order within the tail: the longest size first (`\d+` is greedy and
      is tried before `-`), then the optional space taken before left out, then the
      longest message. */
  ghost predicate TailNoLater(a: Tail, b: Tail) {
    || |a.size| > |b.size|
    || (|a.size| == |b.size| && ((a.gap && !b.gap) || (a.gap == b.gap && |a.message| >= |b.message|)))
  }

  /** Backtracking order of the whole pattern: the longest ip first, then the shortest
      timestamp and the shortest request (both groups are non-greedy), then the tail. */
  ghost predicate NoLater(a: Captures, b: Captures) {
    || |a.ip| > |b.ip|
    || (|a.ip| == |b.ip| &&
        (|a.timestamp| < |b.timestamp| || (|a.timestamp| == |b.timestamp| &&
         (|a.request| < |b.request| || (|a.request| == |b.request| && TailNoLater(a.tail, b.tail))))))
  }

  /** `c` is the match of `line` that backtracking settles on: a match that no other
      match precedes. */
  ghost predicate FirstMatch(line: string, c: Captures) {
    IsMatch(line, c) && forall c' :: IsMatch(line, c') ==> NoLater(c, c')
  }

  /** Where the parts of a tail match sit in the text it matches. */
  lemma TailShape(u: string, t: Tail)
    requires IsTailMatch(u, t)
    ensures |u| >= 5 && u[..3] == t.status && u[3] == ' '
    ensures u[4..4 + |t.size|] == t.size && (IsDigit(u[4]) || u[4] == '-')
    ensures t.gap ==> u[4 + |t.size|] == ' '
    ensures var q := 4 + |t.size| + (if t.gap then 1 else 0);
      q + |t.message| <= |u| && u[q..q + |t.message|] == t.message
  {
    var tt := TailText(t);
    assert tt == u[..|tt|];
    var q := 4 + |t.size| + (if t.gap then 1 else 0);
    assert tt[..3] == t.status;
    assert tt[4..4 + |t.size|] == t.size;
    assert tt[q..] == t.message;
    assert IsDigit(t.size[0]) || t.size[0] == '-';
  }

  /** What every line with a tail match starts with. */
  lemma TailNeeds(u: string)
    ensures (exists t :: IsTailMatch(u, t)) ==>
      |u| >= 5 && AllDigits(u[..3]) && u[3] == ' ' && (IsDigit(u[4]) || u[4] == '-')
  {
    if t :| IsTailMatch(u, t) {
      TailShape(u, t);
    }
  }

  /** Matches `(\d{3}) (\d+|-) ?(.*)?` at the start of `u`. Once the size is found the
      rest always matches, so the first choice at every step is the final one. */
  function MatchTail(u: string): (res: Option<Tail>)
    ensures res.Some? ==> IsTailMatch(u, res.value)
    ensures res.Some? ==> forall t :: IsTailMatch(u, t) ==> TailNoLater(res.value, t)
    ensures res.None? ==> forall t :: !IsTailMatch(u, t)
  {
    TailNeeds(u);
    if |u| < 5 || !AllDigits(u[..3]) || u[3] != ' ' || !(IsDigit(u[4]) || u[4] == '-') then
      None
    else
      var n := Span(u[4..], IsDigit);
      var size := if n > 0 then u[4..4 + n] else "-";
      var p := 4 + |size|;
      var gap := p < |u| && u[p] == ' ';
      var q := if gap then p + 1 else p;
      var m := Span(u[q..], NotNewline);
      var res := Tail(u[..3], size, gap, u[q..q + m]);
      assert TailChosen(u, res, n, q, m);
      TailFacts(u, res, n, q, m);
      Some(res)
  }

  /** The proof obligations of MatchTail's last branch. */
  lemma TailFacts(u: string, res: Tail, n: nat, q: nat, m: nat)
    requires TailChosen(u, res, n, q, m)
    ensures IsTailMatch(u, res)
    ensures forall t :: IsTailMatch(u, t) ==> TailNoLater(res, t)
  {
    TailChosenMatch(u, res, n, q, m);
    forall t | IsTailMatch(u, t) ensures TailNoLater(res, t) {
      TailPlacedOf(u, t);
      TailChosenFirst(u, res, n, q, m, t);
    }
  }

  lemma TailChosenMatch(u: string, res: Tail, n: nat, q: nat, m: nat)
    requires TailChosen(u, res, n, q, m)
    ensures IsTailMatch(u, res)
  {
    TailChosenParts(u, res, n, q, m);
    TailTextAt(u, res, q, m);
  }

  /** A tail whose pieces sit one after the other at the start of `u` is written there. */
  lemma TailTextAt(u: string, t: Tail, q: nat, m: nat)
    requires 4 + |t.size| <= q && q + m <= |u|
    requires |t.status| == 3 && t.status == u[..3] && u[3..4] == " " && u[4..4 + |t.size|] == t.size
    requires u[4 + |t.size|..q] == (if t.gap then " " else "")
    requires t.message == u[q..q + m]
    ensures TailText(t) <= u
  {
    var p := 4 + |t.size|;
    var gap := if t.gap then " " else "";
    Extend(u, 3, 4, t.status, " ");
    Extend(u, 4, p, t.status + " ", t.size);
    Extend(u, p, q, t.status + " " + t.size, gap);
    Extend(u, q, q + m, t.status + " " + t.size + gap, t.message);
  }

  /** The pieces of the tail MatchTail chooses, each where it sits in `u`. */
  lemma TailChosenParts(u: string, res: Tail, n: nat, q: nat, m: nat)
    requires TailChosen(u, res, n, q, m)
    ensures IsDigitString(res.size) || res.size == "-"
    ensures NoNewline(res.message)
    ensures u[3..4] == " " && u[4..4 + |res.size|] == res.size
    ensures u[4 + |res.size|..q] == (if res.gap then " " else "")
  {
    ChosenSize(u, n, res.size);
    ChosenMessage(u, q, m, res.message);
    ChosenGap(u, 4 + |res.size|, res.gap, q);
  }

  /** The message MatchTail takes contains no line feed. */
  lemma ChosenMessage(u: string, q: nat, m: nat, message: string)
    requires q <= |u| && m == Span(u[q..], NotNewline) && message == u[q..q + m]
    ensures NoNewline(message)
  {
    assert forall k :: 0 <= k < m ==> message[k] == u[q..][k];
  }

  /** The space after position 3, and the optional space after the size. */
  lemma ChosenGap(u: string, p: nat, gap: bool, q: nat)
    requires 5 <= p <= |u| && u[3] == ' '
    requires gap == (p < |u| && u[p] == ' ') && q == p + (if gap then 1 else 0)
    ensures u[3..4] == " " && u[p..q] == (if gap then " " else "")
  {
    assert u[3..4] == [u[3]];
    if gap {
      assert u[p..q] == [u[p]];
    }
  }

  /** The size MatchTail takes: the run of digits at position 4, or the `-` there. */
  lemma ChosenSize(u: string, n: nat, size: string)
    requires |u| >= 5 && (IsDigit(u[4]) || u[4] == '-')
    requires n == Span(u[4..], IsDigit)
    requires size == (if n > 0 then u[4..4 + n] else "-")
    ensures IsDigitString(size) || size == "-"
    ensures u[4..4 + |size|] == size
  {
    if n > 0 {
      assert forall k :: 0 <= k < n ==> size[k] == u[4..][k];
    } else {
      assert u[4..][0] == u[4];
      assert u[4..5] == [u[4]];
    }
  }

  /** Extending a prefix of `u` by the slice that follows it gives a longer prefix. */
  lemma Extend(u: string, i: nat, j: nat, x: string, y: string)
    requires i <= j <= |u| && x == u[..i] && y == u[i..j]
    ensures x + y == u[..j]
  {
    assert u[..j] == u[..i] + u[i..j];
  }

  /** The choices MatchTail makes, as positions in `u`. */
  ghost predicate TailChosen(u: string, res: Tail, n: nat, q: nat, m: nat) {
    && |u| >= 5 && AllDigits(u[..3]) && u[3] == ' ' && (IsDigit(u[4]) || u[4] == '-')
    && n == Span(u[4..], IsDigit)
    && res.status == u[..3]
    && res.size == (if n > 0 then u[4..4 + n] else "-")
    && res.gap == (4 + |res.size| < |u| && u[4 + |res.size|] == ' ')
    && q == 4 + |res.size| + (if res.gap then 1 else 0) && q <= |u|
    && m == Span(u[q..], NotNewline)
    && res.message == u[q..q + m]
  }

  /** Where a tail's message starts in the text it matches. */
  function MessageAt(t: Tail): nat {
    4 + |t.size| + (if t.gap then 1 else 0)
  }

  /** The pieces of a tail match, as positions in `u`. */
  ghost predicate TailPlaced(u: string, t: Tail) {
    && (IsDigitString(t.size) || t.size == "-") && NoNewline(t.message)
    && 4 + |t.size| <= |u| && u[4..4 + |t.size|] == t.size
    && (t.gap ==> 4 + |t.size| < |u| && u[4 + |t.size|] == ' ')
    && MessageAt(t) + |t.message| <= |u| && u[MessageAt(t)..MessageAt(t) + |t.message|] == t.message
  }

  lemma TailPlacedOf(u: string, t: Tail)
    requires IsTailMatch(u, t)
    ensures TailPlaced(u, t)
  {
    TailShape(u, t);
  }

  lemma TailChosenFirst(u: string, res: Tail, n: nat, q: nat, m: nat, t: Tail)
    requires TailChosen(u, res, n, q, m)
    requires TailPlaced(u, t)
    ensures TailNoLater(res, t)
  {
    SizeFirst(u, n, res.size, t.size);
    if |res.size| == |t.size| && res.gap == t.gap {
      MessageFirst(u, q, m, t.message);
    }
  }

  /** The size MatchTail takes is the longest one any match has. */
  lemma SizeFirst(u: string, n: nat, size: string, size': string)
    requires |u| >= 5 && n == Span(u[4..], IsDigit) && size == (if n > 0 then u[4..4 + n] else "-")
    requires IsDigitString(size') || size' == "-"
    requires 4 + |size'| <= |u| && u[4..4 + |size'|] == size'
    ensures |size| >= |size'|
    ensures |size| == |size'| ==> size == size'
  {
    if IsDigitString(size') {
      assert forall k :: 0 <= k < |size'| ==> u[4..][k] == size'[k];
      SpanCovers(u[4..], IsDigit, |size'|);
    } else {
      assert u[4] == size'[0];
    }
  }

  /** With the same size and space, the message MatchTail takes is the longest one. */
  lemma MessageFirst(u: string, q: nat, m: nat, message': string)
    requires q + |message'| <= |u| && m == Span(u[q..], NotNewline)
    requires u[q..q + |message'|] == message' && NoNewline(message')
    ensures m >= |message'|
  {
    assert forall k :: 0 <= k < |message'| ==> u[q..][k] == message'[k];
    SpanCovers(u[q..], NotNewline, |message'|);
  }

  /** Backtracking order for `(.*?)" ` and the tail: the shorter request first. */
  ghost predicate RequestNoLater(request: string, t: Tail, request': string, t': Tail) {
    |request| < |request'| || (|request| == |request'| && TailNoLater(t, t'))
  }

  /** Where the parts of a request match sit in the text it matches. */
  lemma RequestShape(v: string, request: string, t: Tail)
    requires IsRequestMatch(v, request, t)
    ensures |request| + 2 <= |v| && request == v[..|request|] && v[|request|..|request| + 2] == "\" "
    ensures RequestEndsAt(v, |request|)
  {
    assert (request + "\" ")[|request|..] == "\" ";
  }

  /** `" ` and a tail match follow the first `r` characters of `v`. */
  predicate RequestEndsAt(v: string, r: nat) {
    r + 2 <= |v| && v[r..r + 2] == "\" " && MatchTail(v[r + 2..]).Some?
  }

  /** Tries the request lengths `r`, `r + 1`, ... in turn, as the non-greedy `(.*?)`
      does, and stops at the first one after which `" ` and the tail match. */
  function ScanRequest(v: string, r: nat): (res: Option<(string, Tail)>)
    requires r <= |v| && NoNewline(v[..r])
    decreases |v| - r
    ensures res.Some? ==> r <= |res.value.0| && IsRequestMatch(v, res.value.0, res.value.1)
    ensures res.Some? ==> forall request, t :: IsRequestMatch(v, request, t) && r <= |request| ==>
      RequestNoLater(res.value.0, res.value.1, request, t)
    ensures res.None? ==> forall request, t :: r <= |request| ==> !IsRequestMatch(v, request, t)
  {
    if RequestEndsAt(v, r) then
      RequestFound(v, r);
      Some((v[..r], MatchTail(v[r + 2..]).value))
    else
      RequestNotAt(v, r);
      if r < |v| && v[r] != '\n' then
        assert v[..r + 1] == v[..r] + [v[r]];
        ScanRequest(v, r + 1)
      else
        None
  }

  /** When `" ` and a tail follow the first `r` characters, those characters are the
      request of a match that no longer request precedes. */
  lemma RequestFound(v: string, r: nat)
    requires r <= |v| && NoNewline(v[..r]) && RequestEndsAt(v, r)
    ensures IsRequestMatch(v, v[..r], MatchTail(v[r + 2..]).value)
    ensures forall request, t :: IsRequestMatch(v, request, t) && r <= |request| ==>
      RequestNoLater(v[..r], MatchTail(v[r + 2..]).value, request, t)
  {
    RequestFoundMatch(v, r);
    forall request, t | IsRequestMatch(v, request, t) && r <= |request|
      ensures RequestNoLater(v[..r], MatchTail(v[r + 2..]).value, request, t)
    {
      RequestFirst(v, r, request, t);
    }
  }

  lemma RequestFoundMatch(v: string, r: nat)
    requires r <= |v| && NoNewline(v[..r]) && RequestEndsAt(v, r)
    ensures IsRequestMatch(v, v[..r], MatchTail(v[r + 2..]).value)
  {
    PrefixThen(v, r, "\" ");
  }

  /** One candidate of RequestFound: a match whose request is not shorter than `r`. */
  lemma RequestFirst(v: string, r: nat, request: string, t: Tail)
    requires RequestEndsAt(v, r)
    requires IsRequestMatch(v, request, t) && r <= |request|
    ensures RequestNoLater(v[..r], MatchTail(v[r + 2..]).value, request, t)
  {
    if |request| == r {
      assert IsTailMatch(v[r + 2..], t);
    }
  }

  /** Otherwise every request match of length `r` or more is longer than `r`, and so
      the character at `r` is part of it. */
  lemma RequestNotAt(v: string, r: nat)
    requires r <= |v| && !RequestEndsAt(v, r)
    ensures forall request, t :: IsRequestMatch(v, request, t) && r <= |request| ==>
      r < |request| && r < |v| && v[r] != '\n'
  {
    forall request, t | IsRequestMatch(v, request, t) && r <= |request|
      ensures r < |request| && r < |v| && v[r] != '\n'
    {
      RequestShape(v, request, t);
      assert v[r] == request[r];
    }
  }

  /** Backtracking order for `(.*?)\] "` and what follows: the shorter timestamp first. */
  ghost predicate TimestampNoLater(timestamp: string, request: string, t: Tail,
                                   timestamp': string, request': string, t': Tail) {
    |timestamp| < |timestamp'| || (|timestamp| == |timestamp'| && RequestNoLater(request, t, request', t'))
  }

  /** `] "` follows the first `s` characters of `w`, and a request match follows that. */
  predicate TimestampEndsAt(w: string, s: nat) {
    s + 3 <= |w| && w[s..s + 3] == "] \"" && ScanRequest(w[s + 3..], 0).Some?
  }

  /** Where the parts of a timestamp match sit in the text it matches. */
  lemma TimestampShape(w: string, timestamp: string, request: string, t: Tail)
    requires IsTimestampMatch(w, timestamp, request, t)
    ensures |timestamp| + 3 <= |w| && timestamp == w[..|timestamp|]
    ensures TimestampEndsAt(w, |timestamp|)
  {
    assert (timestamp + "] \"")[|timestamp|..] == "] \"";
  }

  /** Tries the timestamp lengths `s`, `s + 1`, ... in turn, as the non-greedy `(.*?)`
      does, and stops at the first one after which `] "` and a request match. */
  function ScanTimestamp(w: string, s: nat): (res: Option<(string, string, Tail)>)
    requires s <= |w| && NoNewline(w[..s])
    decreases |w| - s
    ensures res.Some? ==> s <= |res.value.0| && IsTimestampMatch(w, res.value.0, res.value.1, res.value.2)
    ensures res.Some? ==> forall timestamp, request, t ::
      IsTimestampMatch(w, timestamp, request, t) && s <= |timestamp| ==>
      TimestampNoLater(res.value.0, res.value.1, res.value.2, timestamp, request, t)
    ensures res.None? ==> forall timestamp, request, t ::
      s <= |timestamp| ==> !IsTimestampMatch(w, timestamp, request, t)
  {
    if TimestampEndsAt(w, s) then
      TimestampFound(w, s);
      var found := ScanRequest(w[s + 3..], 0).value;
      Some((w[..s], found.0, found.1))
    else
      TimestampNotAt(w, s);
      if s < |w| && w[s] != '\n' then
        assert w[..s + 1] == w[..s] + [w[s]];
        ScanTimestamp(w, s + 1)
      else
        None
  }

  /** When `] "` and a request follow the first `s` characters, those characters are
      the timestamp of a match that no match with a longer timestamp precedes. */
  lemma TimestampFound(w: string, s: nat)
    requires s <= |w| && NoNewline(w[..s]) && TimestampEndsAt(w, s)
    ensures var found := ScanRequest(w[s + 3..], 0).value;
      IsTimestampMatch(w, w[..s], found.0, found.1)
    ensures var found := ScanRequest(w[s + 3..], 0).value;
      forall timestamp, request, t :: IsTimestampMatch(w, timestamp, request, t) && s <= |timestamp| ==>
        TimestampNoLater(w[..s], found.0, found.1, timestamp, request, t)
  {
    var found := ScanRequest(w[s + 3..], 0).value;
    TimestampFoundMatch(w, s);
    forall timestamp, request, t | IsTimestampMatch(w, timestamp, request, t) && s <= |timestamp|
      ensures TimestampNoLater(w[..s], found.0, found.1, timestamp, request, t)
    {
      TimestampFirst(w, s, timestamp, request, t);
    }
  }

  lemma TimestampFoundMatch(w: string, s: nat)
    requires s <= |w| && NoNewline(w[..s]) && TimestampEndsAt(w, s)
    ensures var found := ScanRequest(w[s + 3..], 0).value;
      IsTimestampMatch(w, w[..s], found.0, found.1)
  {
    PrefixThen(w, s, "] \"");
  }

  /** One candidate of TimestampFound: a match whose timestamp is not shorter than `s`. */
  lemma TimestampFirst(w: string, s: nat, timestamp: string, request: string, t: Tail)
    requires TimestampEndsAt(w, s)
    requires IsTimestampMatch(w, timestamp, request, t) && s <= |timestamp|
    ensures var found := ScanRequest(w[s + 3..], 0).value;
      TimestampNoLater(w[..s], found.0, found.1, timestamp, request, t)
  {
    if |timestamp| == s {
      assert IsRequestMatch(w[s + 3..], request, t);
    }
  }

  /** Otherwise every timestamp match of length `s` or more is longer than `s`. */
  lemma TimestampNotAt(w: string, s: nat)
    requires s <= |w| && !TimestampEndsAt(w, s)
    ensures forall timestamp, request, t :: IsTimestampMatch(w, timestamp, request, t) && s <= |timestamp| ==>
      s < |timestamp| && s < |w| && w[s] != '\n'
  {
    forall timestamp, request, t | IsTimestampMatch(w, timestamp, request, t) && s <= |timestamp|
      ensures s < |timestamp| && s < |w| && w[s] != '\n'
    {
      TimestampShape(w, timestamp, request, t);
      assert w[s] == timestamp[s];
    }
  }

  /** Where the ip of a match sits: it is the whole leading run of non-whitespace. */
  lemma IpShape(line: string, c: Captures)
    requires IsMatch(line, c)
    ensures |c.ip| + 6 <= |line| && c.ip == line[..|c.ip|] && line[|c.ip|..|c.ip| + 6] == " - - ["
    ensures Span(line, NotSpace) == |c.ip|
  {
    PrefixParts(line, c.ip, " - - [");
    assert line[|c.ip|] == " - - ["[0];
    assert forall k :: 0 <= k < |c.ip| ==> line[k] == c.ip[k];
    SpanExact(line, NotSpace, |c.ip|);
  }

  /** Python's `re.match` with the pattern: the match its backtracking settles on, if any. */
  function Match(line: string): (res: Option<Captures>)
    ensures res.Some? ==> IsMatch(line, res.value)
    ensures res.Some? ==> forall c :: IsMatch(line, c) ==> NoLater(res.value, c)
    ensures res.None? ==> forall c :: !IsMatch(line, c)
  {
    var n := Span(line, NotSpace);
    MatchNeeds(line, n);
    if n > 0 && n + 6 <= |line| && line[n..n + 6] == " - - [" then
      var found := ScanTimestamp(line[n + 6..], 0);
      if found.Some? then
        var res := Captures(line[..n], found.value.0, found.value.1, found.value.2);
        MatchFound(line, n, res);
        Some(res)
      else
        None
    else
      None
  }

  /** The captures Match builds from the timestamp scan are the first match. */
  lemma MatchFound(line: string, n: nat, res: Captures)
    requires n == Span(line, NotSpace) && n > 0 && n + 6 <= |line| && line[n..n + 6] == " - - ["
    requires var found := ScanTimestamp(line[n + 6..], 0);
      found.Some? && res == Captures(line[..n], found.value.0, found.value.1, found.value.2)
    ensures IsMatch(line, res)
    ensures forall c :: IsMatch(line, c) ==> NoLater(res, c)
  {
    MatchFoundIsMatch(line, n, res.timestamp, res.request, res.tail);
    forall c | IsMatch(line, c) ensures NoLater(res, c) {
      MatchFirst(line, n, res, c);
    }
  }

  lemma MatchFoundIsMatch(line: string, n: nat, timestamp: string, request: string, t: Tail)
    requires n == Span(line, NotSpace) && n > 0 && n + 6 <= |line| && line[n..n + 6] == " - - ["
    requires IsTimestampMatch(line[n + 6..], timestamp, request, t)
    ensures IsMatch(line, Captures(line[..n], timestamp, request, t))
  {
    PrefixThen(line, n, " - - [");
    assert forall k :: 0 <= k < n ==> line[..n][k] == line[k];
  }

  /** One candidate of MatchFound. */
  lemma MatchFirst(line: string, n: nat, res: Captures, c: Captures)
    requires n == Span(line, NotSpace) && n + 6 <= |line|
    requires var found := ScanTimestamp(line[n + 6..], 0);
      found.Some? && res == Captures(line[..n], found.value.0, found.value.1, found.value.2)
    requires IsMatch(line, c)
    ensures NoLater(res, c)
  {
    IpShape(line, c);
    assert IsTimestampMatch(line[n + 6..], c.timestamp, c.request, c.tail);
  }

  lemma MatchNeeds(line: string, n: nat)
    requires n == Span(line, NotSpace)
    ensures forall c :: IsMatch(line, c) ==>
      n > 0 && n + 6 <= |line| && line[n..n + 6] == " - - [" && c.ip == line[..n]
  {
    forall c | IsMatch(line, c)
      ensures n > 0 && n + 6 <= |line| && line[n..n + 6] == " - - [" && c.ip == line[..n]
    {
      MatchNeedsOne(line, n, c);
    }
  }

  lemma MatchNeedsOne(line: string, n: nat, c: Captures)
    requires n == Span(line, NotSpace) && IsMatch(line, c)
    ensures n > 0 && n + 6 <= |line| && line[n..n + 6] == " - - [" && c.ip == line[..n]
  {
    IpShape(line, c);
  }

  lemma TailUnique(u: string, a: Tail, b: Tail)
    requires IsTailMatch(u, a) && IsTailMatch(u, b)
    requires TailNoLater(a, b) && TailNoLater(b, a)
    ensures a == b
  {
    TailShape(u, a);
    TailShape(u, b);
  }

  /** Two matches of one line that the backtracking order cannot tell apart are the
      same match, so the match Match returns is the only one that precedes all others. */
  lemma EarliestMatchUnique(line: string, a: Captures, b: Captures)
    requires IsMatch(line, a) && IsMatch(line, b)
    requires NoLater(a, b) && NoLater(b, a)
    ensures a == b
  {
    IpShape(line, a);
    IpShape(line, b);
    var w := line[|a.ip| + 6..];
    TimestampShape(w, a.timestamp, a.request, a.tail);
    TimestampShape(w, b.timestamp, b.request, b.tail);
    assert a.timestamp == b.timestamp;
    var v := w[|a.timestamp| + 3..];
    RequestShape(v, a.request, a.tail);
    RequestShape(v, b.request, b.tail);
    assert a.request == b.request;
    TailUnique(v[|a.request| + 2..], a.tail, b.tail);
  }

  /** The log line a server writes for the given fields. */
  function Render(c: Captures): string {
    c.ip + " - - [" + c.timestamp + "] \"" + c.request + "\" " + TailText(c.tail)
  }

  /** Fields that a line written by Render gives back unchanged: the timestamp holds no `]`,
      the request no `"`, and the space before the message is written exactly when there
      is a message. */
  ghost predicate Plain(c: Captures) {
    && |c.ip| > 0 && NoSpace(c.ip)
    && NoNewline(c.timestamp) && (forall k :: 0 <= k < |c.timestamp| ==> c.timestamp[k] != ']')
    && NoNewline(c.request) && (forall k :: 0 <= k < |c.request| ==> c.request[k] != '"')
    && |c.tail.status| == 3 && AllDigits(c.tail.status)
    && (IsDigitString(c.tail.size) || c.tail.size == "-")
    && NoNewline(c.tail.message)
    && c.tail.gap == (c.tail.message != "")
  }

  /** Where the fields of a rendered line sit. */
  lemma RenderShape(c: Captures)
    ensures var line := Render(c);
      var w := line[|c.ip| + 6..];
      var v := w[|c.timestamp| + 3..];
      && c.ip + " - - [" <= line
      && w == c.timestamp + "] \"" + c.request + "\" " + TailText(c.tail)
      && v == c.request + "\" " + TailText(c.tail)
      && v[|c.request| + 2..] == TailText(c.tail)
  {
  }

  /** Matching reads back what Render wrote. */
  lemma RenderThenMatch(c: Captures)
    requires Plain(c)
    ensures Match(Render(c)) == Some(c)
  {
    RenderIsMatch(c);
    PlainIsFirst(c, Match(Render(c)).value);
  }

  lemma RenderIsMatch(c: Captures)
    requires Plain(c)
    ensures IsMatch(Render(c), c)
  {
    var tail := TailText(c.tail);
    var afterTimestamp := c.request + "\" " + tail;
    var afterIp := c.timestamp + "] \"" + afterTimestamp;
    RenderedRequest(c.request, tail, c.tail);
    RenderedTimestamp(c.timestamp, afterTimestamp, c.request, c.tail);
    RenderedIp(c.ip, afterIp, c);
    RenderParts(c);
  }

  /** Render, as the ip, its separator and the rest. */
  lemma RenderParts(c: Captures)
    ensures Render(c) == c.ip + " - - [" + (c.timestamp + "] \"" + (c.request + "\" " + TailText(c.tail)))
  {
  }

  lemma RenderedRequest(request: string, rest: string, t: Tail)
    requires NoNewline(request) && IsTailMatch(rest, t)
    ensures IsRequestMatch(request + "\" " + rest, request, t)
  {
    var v := request + "\" " + rest;
    assert v[|request| + 2..] == rest;
    assert v[..|request| + 2] == request + "\" ";
  }

  lemma RenderedTimestamp(timestamp: string, rest: string, request: string, t: Tail)
    requires NoNewline(timestamp) && IsRequestMatch(rest, request, t)
    ensures IsTimestampMatch(timestamp + "] \"" + rest, timestamp, request, t)
  {
    var w := timestamp + "] \"" + rest;
    assert w[|timestamp| + 3..] == rest;
    assert w[..|timestamp| + 3] == timestamp + "] \"";
  }

  lemma RenderedIp(ip: string, rest: string, c: Captures)
    requires ip == c.ip && |ip| > 0 && NoSpace(ip)
    requires IsTimestampMatch(rest, c.timestamp, c.request, c.tail)
    ensures IsMatch(ip + " - - [" + rest, c)
  {
    var line := ip + " - - [" + rest;
    assert line[|ip| + 6..] == rest;
    assert line[..|ip| + 6] == ip + " - - [";
  }

  /** A match of a rendered line that is no later than the rendered fields is those fields. */
  lemma PlainIsFirst(c: Captures, m: Captures)
    requires Plain(c) && IsMatch(Render(c), c)
    requires IsMatch(Render(c), m) && NoLater(m, c)
    ensures m == c
  {
    var line := Render(c);
    IpShape(line, m);
    IpShape(line, c);
    assert m.ip == c.ip;
    var w := line[|c.ip| + 6..];
    SameTimestamp(w, c.timestamp, c.request, c.tail, m.timestamp, m.request, m.tail);
    var v := w[|c.timestamp| + 3..];
    SameRequest(v, c.request, c.tail, m.request, m.tail);
    var u := v[|c.request| + 2..];
    RenderShape(c);
    PlainTailFirst(c.tail, m.tail);
    TailUnique(u, m.tail, c.tail);
  }

  lemma SameTimestamp(w: string, timestamp: string, request: string, t: Tail,
                      timestamp': string, request': string, t': Tail)
    requires IsTimestampMatch(w, timestamp, request, t) && IsTimestampMatch(w, timestamp', request', t')
    requires forall k :: 0 <= k < |timestamp| ==> timestamp[k] != ']'
    requires |timestamp'| <= |timestamp|
    ensures timestamp' == timestamp
  {
    PrefixParts(w, timestamp, "] \"");
    PrefixParts(w, timestamp', "] \"");
    assert w[|timestamp'|] == w[|timestamp'|..|timestamp'| + 3][0];
    NotBefore(w, timestamp, |timestamp'|, ']');
  }

  lemma SameRequest(v: string, request: string, t: Tail, request': string, t': Tail)
    requires IsRequestMatch(v, request, t) && IsRequestMatch(v, request', t')
    requires forall k :: 0 <= k < |request| ==> request[k] != '"'
    requires |request'| <= |request|
    ensures request' == request
  {
    PrefixParts(v, request, "\" ");
    PrefixParts(v, request', "\" ");
    assert v[|request'|] == v[|request'|..|request'| + 2][0];
    NotBefore(v, request, |request'|, '"');
  }

  /** The two parts of a prefix `a + b` of `s`, where they sit in `s`. */
  lemma PrefixParts(s: string, a: string, b: string)
    requires a + b <= s
    ensures |a| + |b| <= |s| && s[..|a|] == a && s[|a|..|a| + |b|] == b
  {
    assert s[..|a|] == (a + b)[..|a|];
    assert s[|a|..|a| + |b|] == (a + b)[|a|..];
  }

  /** A prefix of `s` followed by the text that follows it in `s` is a prefix of `s`. */
  lemma PrefixThen(s: string, i: nat, b: string)
    requires i + |b| <= |s| && s[i..i + |b|] == b
    ensures s[..i] + b <= s
  {
    assert s[..i + |b|] == s[..i] + s[i..i + |b|];
  }

  /** A character that `prefix` does not contain occurs in `s` only after `prefix`. */
  lemma NotBefore(s: string, prefix: string, j: nat, x: char)
    requires |prefix| <= |s| && s[..|prefix|] == prefix && j < |s| && s[j] == x
    requires forall k :: 0 <= k < |prefix| ==> prefix[k] != x
    ensures |prefix| <= j
  {
    assert forall k :: 0 <= k < |prefix| ==> s[k] == prefix[k];
  }

  /** A rendered tail is matched back as itself. */
  lemma PlainTail(t: Tail)
    requires |t.status| == 3 && AllDigits(t.status)
    requires IsDigitString(t.size) || t.size == "-"
    requires NoNewline(t.message) && t.gap == (t.message != "")
    ensures MatchTail(TailText(t)) == Some(t)
  {
    var u := TailText(t);
    assert IsTailMatch(u, t);
    var res := MatchTail(u).value;
    PlainTailFirst(t, res);
    TailUnique(u, res, t);
  }

  /** Within a rendered tail, no other tail match comes before the rendered one. */
  lemma PlainTailFirst(t: Tail, t': Tail)
    requires |t.status| == 3 && AllDigits(t.status)
    requires IsDigitString(t.size) || t.size == "-"
    requires NoNewline(t.message) && t.gap == (t.message != "")
    requires IsTailMatch(TailText(t), t')
    ensures TailNoLater(t, t')
  {
    var u := TailText(t);
    TailShape(u, t');
    var p := 4 + |t.size|;
    var g: string := if t.gap then " " else "";
    assert u == (t.status + " ") + t.size + (g + t.message);
    assert u[4..p] == t.size;
    assert |u| == p + |g| + |t.message|;
    assert p < |u| ==> u[p] == ' ';
    assert forall k :: 4 <= k < 4 + |t'.size| ==> u[k] == t'.size[k - 4];
    assert u[4] == t.size[0];
  }
}
