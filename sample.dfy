/**
 * The three-line sample log, the records its lines parse to, and the three
 * statistics over it with threshold 1, status 401 and message "Invalid Credentials".
 * The sample's messages are written in quotes, and the quotes stay in the record,
 * so only the status code makes its failed logins qualify.
 */
module SampleLog {
  import opened Wrappers
  import opened Text
  import opened LogPattern
  import opened LogParser
  import opened Aggregate

  const FirstIp: string := "192.168.1.1"
  const SecondIp: string := "192.168.1.2"
  const LoginRequest: string := "GET /login HTTP/1.1"
  const HomeRequest: string := "GET /home HTTP/1.1"
  const QuotedMessage: string := "\"Invalid Credentials\""

  /** The lines of the sample log file, written out piece by piece. */
  function SampleLines(): seq<string> {
    [ FirstIp + " - - [" + "01/Jan/2024:00:00:00" + "] \"" + LoginRequest + "\" " + "401 512 " + QuotedMessage,
      FirstIp + " - - [" + "01/Jan/2024:00:00:05" + "] \"" + LoginRequest + "\" " + "401 512 " + QuotedMessage,
      SecondIp + " - - [" + "01/Jan/2024:00:00:10" + "] \"" + HomeRequest + "\" " + "200 1024" ]
  }

  /** The records the sample lines parse to (proved by SampleParsed). */
  function SampleRecords(): seq<Record> {
    [ Record(FirstIp, "01/Jan/2024:00:00:00", LoginRequest, 401, Some(512), Some(QuotedMessage)),
      Record(FirstIp, "01/Jan/2024:00:00:05", LoginRequest, 401, Some(512), Some(QuotedMessage)),
      Record(SecondIp, "01/Jan/2024:00:00:10", HomeRequest, 200, Some(1024), None) ]
  }

  /** Every line of the sample parses, to the records above, in order. */
  lemma SampleParsed()
    ensures ParseLog(SampleLines()) == SampleRecords()
  {
    var lines, records := SampleLines(), SampleRecords();
    FailedLoginParsed(lines[0], records[0].timestamp, records[0]);
    FailedLoginParsed(lines[1], records[1].timestamp, records[1]);
    HomeParsed(lines[2], records[2]);
    CollectThree(lines, records, ParseLine);
  }

  /** Folding three lines that each parse gives their three records. */
  lemma CollectThree(lines: seq<string>, records: seq<Record>, parse: string -> Option<Record>)
    requires |lines| == 3 && |records| == 3
    requires parse(lines[0]) == Some(records[0]) && parse(lines[1]) == Some(records[1])
    requires parse(lines[2]) == Some(records[2])
    ensures Collect(lines, parse) == records
  {
    assert lines[..2][..1][..0] == [];
    assert lines[..2][..1] == lines[..1];
    assert lines[..|lines| - 1] == lines[..2];
    assert Collect(lines[..1], parse) == records[..1];
    assert Collect(lines[..2], parse) == records[..2];
  }

  /** A failed login line of the sample parses to its record. */
  lemma FailedLoginParsed(line: string, timestamp: string, rec: Record)
    requires timestamp == "01/Jan/2024:00:00:00" || timestamp == "01/Jan/2024:00:00:05"
    requires line == FirstIp + " - - [" + timestamp + "] \"" + LoginRequest + "\" " + "401 512 " + QuotedMessage
    requires rec == Record(FirstIp, timestamp, LoginRequest, 401, Some(512), Some(QuotedMessage))
    ensures ParseLine(line) == Some(rec)
  {
    var c := Captures(FirstIp, timestamp, LoginRequest, Tail("401", "512", true, QuotedMessage));
    FailedLoginFields(c, rec);
    assert Render(c) == line;
    ParseRendered(c);
  }

  lemma FailedLoginFields(c: Captures, rec: Record)
    requires c.timestamp == "01/Jan/2024:00:00:00" || c.timestamp == "01/Jan/2024:00:00:05"
    requires c == Captures(FirstIp, c.timestamp, LoginRequest, Tail("401", "512", true, QuotedMessage))
    requires rec == Record(FirstIp, c.timestamp, LoginRequest, 401, Some(512), Some(QuotedMessage))
    ensures Plain(c) && ToRecord(c) == rec && !IsSpace(c.tail.message[|c.tail.message| - 1])
  {
    IpsPlain();
    TimestampPlain(c.timestamp);
    RequestsPlain();
    MessagePlain();
    DecimalValue3(4, 0, 1);
    DecimalValue3(5, 1, 2);
  }

  /** The home page line of the sample parses to its record. */
  lemma HomeParsed(line: string, rec: Record)
    requires line == SecondIp + " - - [" + "01/Jan/2024:00:00:10" + "] \"" + HomeRequest + "\" " + "200 1024"
    requires rec == Record(SecondIp, "01/Jan/2024:00:00:10", HomeRequest, 200, Some(1024), None)
    ensures ParseLine(line) == Some(rec)
  {
    var c := Captures(SecondIp, "01/Jan/2024:00:00:10", HomeRequest, Tail("200", "1024", false, ""));
    HomeFields(c, rec);
    assert Render(c) == line;
    ParseRendered(c);
  }

  lemma HomeFields(c: Captures, rec: Record)
    requires c == Captures(SecondIp, "01/Jan/2024:00:00:10", HomeRequest, Tail("200", "1024", false, ""))
    requires rec == Record(SecondIp, "01/Jan/2024:00:00:10", HomeRequest, 200, Some(1024), None)
    ensures Plain(c) && ToRecord(c) == rec
  {
    IpsPlain();
    TimestampPlain(c.timestamp);
    RequestsPlain();
    DecimalValue3(2, 0, 0);
    DecimalValue3(1, 0, 2);
    assert DecimalValue("1024") == 10 * DecimalValue("102") + 4 by { assert "1024"[..3] == "102"; }
  }

  lemma IpsPlain()
    ensures IsWord(FirstIp) && IsWord(SecondIp)
  {
  }

  lemma TimestampPlain(t: string)
    requires t == "01/Jan/2024:00:00:00" || t == "01/Jan/2024:00:00:05" || t == "01/Jan/2024:00:00:10"
    ensures NoNewline(t) && forall k :: 0 <= k < |t| ==> t[k] != ']'
  {
  }

  lemma RequestsPlain()
    ensures NoNewline(LoginRequest) && forall k :: 0 <= k < |LoginRequest| ==> LoginRequest[k] != '"'
    ensures NoNewline(HomeRequest) && forall k :: 0 <= k < |HomeRequest| ==> HomeRequest[k] != '"'
  {
  }

  lemma MessagePlain()
    ensures NoNewline(QuotedMessage) && !IsSpace(QuotedMessage[|QuotedMessage| - 1])
  {
  }

  /** `int` of a three-digit string. */
  lemma DecimalValue3(a: nat, b: nat, d: nat)
    requires a < 10 && b < 10 && d < 10
    ensures DecimalValue([DigitChar(a), DigitChar(b), DigitChar(d)]) == 100 * a + 10 * b + d
  {
    var s := [DigitChar(a), DigitChar(b), DigitChar(d)];
    assert s[..2][..1][..0] == [];
    assert DecimalValue(s[..2][..1]) == a;
    assert s[..2][..1] == [DigitChar(a)];
    assert DecimalValue(s[..2]) == 10 * a + b;
    assert s[..2] == [DigitChar(a), DigitChar(b)];
  }

  lemma SampleRequestsPerIp()
    ensures CountRequestsPerIp(ParseLog(SampleLines())) == Ok(map[FirstIp := 2, SecondIp := 1])
  {
    SampleParsed();
    RecordsRequestsPerIp();
  }

  lemma RecordsRequestsPerIp()
    ensures CountRequestsPerIp(SampleRecords()) == Ok(map[FirstIp := 2, SecondIp := 1])
  {
    assert FirstIp != SecondIp by { assert FirstIp[10] != SecondIp[10]; }
    assert Ips(SampleRecords()) == [FirstIp, FirstIp, SecondIp];
    TallyTwoThenOne(FirstIp, SecondIp);
  }

  /** Counting `a, a, b` for distinct `a` and `b`. */
  lemma TallyTwoThenOne(a: string, b: string)
    requires a != b
    ensures Tally([a, a, b]) == map[a := 2, b := 1]
  {
    TallyTwice(a);
    TallySnoc([a, a], b);
    assert [a, a] + [b] == [a, a, b];
  }

  lemma TallyTwice(a: string)
    ensures Tally([a, a]) == map[a := 2]
  {
    TallySnoc([], a);
    assert [] + [a] == [a];
    TallySnoc([a], a);
    assert [a] + [a] == [a, a];
  }

  lemma SampleMostFrequentEndpoint()
    ensures MostFrequentEndpoint(ParseLog(SampleLines())) == Ok(("/login", 2))
  {
    SampleParsed();
    RecordsMostFrequentEndpoint();
  }

  lemma RecordsMostFrequentEndpoint()
    ensures MostFrequentEndpoint(SampleRecords()) == Ok(("/login", 2))
  {
    SampleFrequencies();
    SampleLoginWords();
    UniqueMaximumWins(SampleRecords(), 0);
  }

  lemma SampleFrequencies()
    ensures forall j :: 0 <= j < |SampleRecords()| && SampleRecords()[j].request != LoginRequest ==>
      Frequency(SampleRecords(), SampleRecords()[j].request) < Frequency(SampleRecords(), LoginRequest)
    ensures Frequency(SampleRecords(), LoginRequest) == 2
  {
    assert LoginRequest != HomeRequest by { assert LoginRequest[5] != HomeRequest[5]; }
    assert Requests(SampleRecords()) == [LoginRequest, LoginRequest, HomeRequest];
    OccurrencesTwoThenOne(LoginRequest, HomeRequest);
  }

  /** Occurrences in `a, a, b` for distinct `a` and `b`. */
  lemma OccurrencesTwoThenOne(a: string, b: string)
    requires a != b
    ensures Occurrences([a, a, b], a) == 2 && Occurrences([a, a, b], b) == 1
  {
    OccurrencesTwice(a, b);
    OccurrencesSnoc([a, a], b, a);
    OccurrencesSnoc([a, a], b, b);
    assert [a, a] + [b] == [a, a, b];
  }

  lemma OccurrencesTwice(a: string, b: string)
    requires a != b
    ensures Occurrences([a, a], a) == 2 && Occurrences([a, a], b) == 0
  {
    OccurrencesSnoc([], a, a);
    OccurrencesSnoc([], a, b);
    assert [] + [a] == [a];
    OccurrencesSnoc([a], a, a);
    OccurrencesSnoc([a], a, b);
    assert [a] + [a] == [a, a];
  }

  lemma SampleLoginWords()
    ensures |Words(LoginRequest)| >= 2 && Words(LoginRequest)[1] == "/login"
  {
    var words := ["GET", "/login", "HTTP/1.1"];
    LoginRequestJoined();
    LoginRequestWords();
    WordsOfJoin(words);
  }

  lemma LoginRequestJoined()
    ensures Join(["GET", "/login", "HTTP/1.1"]) == LoginRequest
  {
    var words := ["GET", "/login", "HTTP/1.1"];
    assert words[1..][1..] == ["HTTP/1.1"];
    assert Join(words[1..]) == "/login HTTP/1.1";
  }

  lemma LoginRequestWords()
    ensures forall k :: 0 <= k < 3 ==> IsWord(["GET", "/login", "HTTP/1.1"][k])
  {
    assert IsWord("GET") && IsWord("/login") && IsWord("HTTP/1.1");
  }

  lemma SampleSuspiciousActivity()
    ensures SuspiciousActivity(ParseLog(SampleLines()), 1, 401, "Invalid Credentials") == Ok(map[FirstIp := 2])
  {
    SampleParsed();
    RecordsSuspiciousActivity();
  }

  lemma RecordsSuspiciousActivity()
    ensures SuspiciousActivity(SampleRecords(), 1, 401, "Invalid Credentials") == Ok(map[FirstIp := 2])
  {
    SampleFailedCounts();
    OneSuspicious(SampleRecords(), 1, 401, "Invalid Credentials", FirstIp, 2);
  }

  /** When a single IP has qualifying records, `n` of them with `n` above the threshold,
      it is the only suspicious IP. */
  lemma OneSuspicious(records: seq<Record>, threshold: int, statusCode: int, message: string, ip: string, n: nat)
    requires records != [] && 0 <= threshold < n
    requires forall other :: FailedCount(records, other, statusCode, message) == if other == ip then n else 0
    ensures SuspiciousActivity(records, threshold, statusCode, message) == Ok(map[ip := n])
  {
    var r := SuspiciousActivity(records, threshold, statusCode, message);
    assert forall other :: other in r.value <==> other == ip;
    SingletonMap(r.value, ip, n);
  }

  lemma SingletonMap(m: map<string, nat>, key: string, n: nat)
    requires forall k :: k in m <==> k == key
    requires key in m ==> m[key] == n
    ensures m == map[key := n]
  {
  }

  lemma SampleFailedCounts()
    ensures forall ip :: FailedCount(SampleRecords(), ip, 401, "Invalid Credentials") == if ip == FirstIp then 2 else 0
  {
    var records := SampleRecords();
    var message := "Invalid Credentials";
    assert Qualifies(records[0], 401, message) && Qualifies(records[1], 401, message);
    assert !Qualifies(records[2], 401, message);
    assert records[0].ip == FirstIp && records[1].ip == FirstIp && records[2].ip == SecondIp;
    assert FirstIp != SecondIp by { assert FirstIp[10] != SecondIp[10]; }
    forall ip ensures FailedCount(records, ip, 401, message) == if ip == FirstIp then 2 else 0 {
      assert records[..1][..0] == [];
      assert FailedCount(records[..1], ip, 401, message) == if ip == FirstIp then 1 else 0;
      assert records[..2][..1] == records[..1];
      assert FailedCount(records[..2], ip, 401, message) == if ip == FirstIp then 2 else 0;
      assert records[..|records| - 1] == records[..2];
    }
  }
}
