/**
 * LogAnalyzer.convert_log_to_df: every line is stripped, matched against the
 * pattern, and turned into a record when it matches; other lines are dropped.
 * The file's lines are given as a sequence instead of being read from disk.
 */
module LogParser {
  import opened Wrappers
  import opened Text
  import opened LogPattern

  /** One row of the table: the dict appended for a matching line. */
  datatype Record = Record(
    ip: string,
    timestamp: string,
    request: string,
    status: nat,
    size: Option<nat>,
    message: Option<string>)

  /** The conversions applied to the groups: `int(status)`, `int(size)` when the size is
      all digits, and the message only when it is non-empty. */
  function ToRecord(c: Captures): (rec: Record)
    requires |c.tail.status| == 3 && AllDigits(c.tail.status)
    ensures rec.ip == c.ip && rec.timestamp == c.timestamp && rec.request == c.request
    ensures rec.status == DecimalValue(c.tail.status) && rec.status <= 999
    ensures rec.size.Some? <==> IsDigitString(c.tail.size)
    ensures rec.size.Some? ==> rec.size.value == DecimalValue(c.tail.size)
    ensures rec.message.None? <==> c.tail.message == ""
    ensures rec.message.Some? ==> rec.message.value == c.tail.message
  {
    Record(
      c.ip,
      c.timestamp,
      c.request,
      DecimalValue(c.tail.status),
      if IsDigitString(c.tail.size) then Some(DecimalValue(c.tail.size)) else None,
      if c.tail.message == "" then None else Some(c.tail.message))
  }

  /** `rec` is the record built from the captures `c`. */
  predicate Converts(c: Captures, rec: Record) {
    |c.tail.status| == 3 && AllDigits(c.tail.status) && rec == ToRecord(c)
  }

  /** One line of the file: a record exactly when the stripped line matches the pattern,
      built from the match Python's `re.match` settles on. */
  function ParseLine(line: string): (rec: Option<Record>)
    ensures rec.Some? <==> exists c :: IsMatch(Strip(line), c)
    ensures rec.Some? ==> exists c :: FirstMatch(Strip(line), c) && Converts(c, rec.value)
    ensures rec.Some? ==> && |rec.value.ip| > 0 && NoSpace(rec.value.ip)
                          && rec.value.ip + " - - [" <= Strip(line)
                          && rec.value.status <= 999
                          && NoNewline(rec.value.timestamp) && NoNewline(rec.value.request)
  {
    var s := Strip(line);
    var found := Match(s);
    if found.None? then None
    else
      var c := found.value;
      MatchedFields(s, c);
      var rec := ToRecord(c);
      assert FirstMatch(s, c) && Converts(c, rec);
      Some(rec)
  }

  /** What every match guarantees about the fields it captures. */
  lemma MatchedFields(s: string, c: Captures)
    requires IsMatch(s, c)
    ensures |c.ip| > 0 && NoSpace(c.ip) && c.ip + " - - [" <= s
    ensures NoNewline(c.timestamp) && NoNewline(c.request)
    ensures |c.tail.status| == 3 && AllDigits(c.tail.status)
  {
    var w := s[|c.ip| + 6..];
    assert IsTimestampMatch(w, c.timestamp, c.request, c.tail);
    var v := w[|c.timestamp| + 3..];
    assert IsRequestMatch(v, c.request, c.tail);
    assert IsTailMatch(v[|c.request| + 2..], c.tail);
  }

  /** The values of the lines that `parse` accepts, in line order: the list the loop
      of convert_log_to_df builds, for any line parser. */
  function Collect(lines: seq<string>, parse: string -> Option<Record>): (records: seq<Record>)
    ensures |records| <= |lines|
  {
    if lines == [] then []
    else
      var init := Collect(lines[..|lines| - 1], parse);
      match parse(lines[|lines| - 1])
      case None => init
      case Some(rec) => init + [rec]
  }

  /** A line written from plain fields whose message, if any, does not end in whitespace
      parses to the record of exactly those fields. */
  lemma ParseRendered(c: Captures)
    requires Plain(c)
    requires c.tail.message == "" || !IsSpace(c.tail.message[|c.tail.message| - 1])
    ensures ParseLine(Render(c)) == Some(ToRecord(c))
  {
    var s := Render(c);
    RenderEnd(c);
    assert s[0] == c.ip[0];
    assert Span(s, IsSpace) == 0 && TrimStart(s) == s;
    assert SpanEnd(s, IsSpace) == 0 && TrimEnd(s) == s;
    RenderThenMatch(c);
  }

  /** A rendered line ends with its message, or with its size when there is no message. */
  lemma RenderEnd(c: Captures)
    requires Plain(c)
    ensures var s := Render(c); var t := c.tail;
      |s| > 0 && s[|s| - 1] == if t.message == "" then t.size[|t.size| - 1] else t.message[|t.message| - 1]
  {
    var t := c.tail;
    var head := c.ip + " - - [" + c.timestamp + "] \"" + c.request + "\" " + t.status + " ";
    if t.message == "" {
      assert Render(c) == head + t.size;
    } else {
      assert Render(c) == head + t.size + " " + t.message;
    }
  }

  /** The record list of a whole file. */
  function ParseLog(lines: seq<string>): seq<Record> {
    Collect(lines, ParseLine)
  }

  /** The loop of convert_log_to_df: one pass over the lines, appending each parsed record. */
  method ConvertLogToRecords(lines: seq<string>) returns (parsed: seq<Record>)
    ensures parsed == ParseLog(lines)
  {
    parsed := [];
    for i := 0 to |lines|
      invariant parsed == ParseLog(lines[..i])
    {
      assert lines[..i + 1][..i] == lines[..i];
      var rec := ParseLine(lines[i]);
      if rec.Some? {
        parsed := parsed + [rec.value];
      }
    }
    assert lines[..|lines|] == lines;
  }

  /** The analyzer object; `records` stands for the `log_df` table built at construction. */
  class LogAnalyzer {
    const records: seq<Record>

    constructor (lines: seq<string>)
      ensures records == ParseLog(lines)
    {
      var parsed := ConvertLogToRecords(lines);
      records := parsed;
    }
  }

  /** Parsing is line by line: the records of two pieces of a file, in order, are the
      records of the whole. */
  lemma {:induction false} CollectAppend(a: seq<string>, b: seq<string>, parse: string -> Option<Record>)
    ensures Collect(a + b, parse) == Collect(a, parse) + Collect(b, parse)
    decreases |b|
  {
    if b == [] {
      assert a + b == a;
    } else {
      var b' := b[..|b| - 1];
      assert (a + b)[..|a + b| - 1] == a + b';
      assert (a + b)[|a + b| - 1] == b[|b| - 1];
      CollectAppend(a, b', parse);
    }
  }

  /** A record is in the list exactly when some line parses to it. */
  lemma {:induction false} CollectMembers(lines: seq<string>, parse: string -> Option<Record>, rec: Record)
    ensures rec in Collect(lines, parse) <==> exists k :: 0 <= k < |lines| && parse(lines[k]) == Some(rec)
  {
    if lines != [] {
      var init := lines[..|lines| - 1];
      CollectMembers(init, parse, rec);
      if k :| 0 <= k < |lines| && parse(lines[k]) == Some(rec) {
        if k < |lines| - 1 {
          assert init[k] == lines[k];
        }
      }
      if k :| 0 <= k < |init| && parse(init[k]) == Some(rec) {
        assert init[k] == lines[k];
      }
    }
  }

  /** No line is dropped exactly when every line parses. */
  lemma {:induction false} CollectKeepsAll(lines: seq<string>, parse: string -> Option<Record>)
    ensures |Collect(lines, parse)| == |lines| <==> forall k :: 0 <= k < |lines| ==> parse(lines[k]).Some?
  {
    if lines != [] {
      var init := lines[..|lines| - 1];
      CollectKeepsAll(init, parse);
      assert forall k :: 0 <= k < |init| ==> init[k] == lines[k];
    }
  }
}
