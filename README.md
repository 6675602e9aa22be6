# log_reader in Dafny

A model of `LogAnalyzer` from `log_reader.py`, a small access-log analyser. The
analyser reads a web-server log line by line. It strips each line and matches it
against one regular expression,
`(\S+) - - \[(.*?)\] "(.*?)" (\d{3}) (\d+|-) ?(.*)?`, with Python's `re.match`. It
turns each match into a record (ip, timestamp, request, status, size, message) and
drops the lines that do not match. It then computes three statistics over the
records:

- the number of requests from each IP;
- the most frequent request, reported by its second word (the endpoint) and its
  frequency;
- the IPs with more than `threshold` failed attempts. A failed attempt is a record
  whose status is a given code or whose message is a given text.

Modules:

- `Wrappers` holds `Option` and `Result`.
- `Text` holds the string helpers. They model Python's `str.strip`, `str.split()`,
  `str.isdigit` and `int` on digit strings.
- `LogPattern` holds the regular expression. `IsMatch` says when a set of captures is
  one way the pattern matches a line. `NoLater` is the order in which the
  backtracking matcher tries those ways. `Match` is a matcher written for this one
  pattern. It is proved to return the match Python settles on, or nothing when the
  line has no match.
- `LogParser` holds the record, the parsing of one line, the loop over the file's
  lines, and the `LogAnalyzer` object with its record table.
- `Aggregate` holds the three statistics and the properties relating them.
- `SampleLog` parses a three-line sample log and works out the three statistics over its records.

An empty record list makes every statistic fail with `MissingColumn`. In the source,
a table built from no rows has no "IP", "Request" or "Status" column, so each column
lookup raises. `MostFrequentEndpoint` fails with `NoSecondToken` when the winning
request has fewer than two words, where `split()[1]` raises.

## Model

| member | source | states |
|---|---|---|
| Text.Strip | log_reader.py:15 | the result is the input with its leading and trailing whitespace removed: it is a slice of the input, its ends are not whitespace, and everything cut off is whitespace |
| Text.StripIdempotent | log_reader.py:15 | stripping an already stripped line changes nothing |
| Text.Words | log_reader.py:38 | `split()` gives non-empty words that contain no whitespace |
| Text.WordsOfJoin | log_reader.py:38 | splitting words joined by single spaces gives back exactly those words |
| Text.DecimalValue | log_reader.py:23-24 | `int` of an n-digit string is below 10^n |
| Text.DecimalRoundTrip | log_reader.py:23-24 | `int` of the decimal digits of a number is that number |
| LogPattern.MatchTail | log_reader.py:11 | for `(\d{3}) (\d+\|-) ?(.*)?`: the result, when there is one, is a match that is no later in backtracking order than any other match; no result means no match exists |
| LogPattern.ScanRequest | log_reader.py:11 | the non-greedy request group `(.*?)" ` settles on the shortest request for which the tail matches; no result means no request length works |
| LogPattern.ScanTimestamp | log_reader.py:11 | the non-greedy timestamp group `(.*?)\] "` settles on the shortest timestamp for which the request and tail match; no result means none works |
| LogPattern.Match | log_reader.py:11-16 | `re.match` of the pattern: a result is a match of the line that precedes or equals every other match in backtracking order; no result means the line has no match |
| LogPattern.TailUnique | log_reader.py:11 | two tail matches that are each no later than the other are the same tail |
| LogPattern.EarliestMatchUnique | log_reader.py:11-16 | two matches of a line that are each no later than the other are equal, so the chosen match is determined by the line |
| LogPattern.RenderThenMatch | log_reader.py:11-18 | a line written from fields with no `]` in the timestamp, no `"` in the request, and a space exactly before a non-empty message is matched back into exactly those fields |
| LogPattern.PlainTail | log_reader.py:11 | a written status/size/message tail is matched back as itself |
| LogParser.ToRecord | log_reader.py:18-26 | ip, timestamp and request are copied; status is the decimal value of three digits, so at most 999; size is present exactly when it is all digits, with its value; message is absent exactly when it is empty |
| LogParser.ParseLine | log_reader.py:15-26 | a line yields a record exactly when its stripped text matches the pattern; the record is built from the match backtracking settles on; its ip is a non-empty run of non-whitespace that begins the line |
| LogParser.ParseRendered | log_reader.py:11-26 | a log line written from plain fields, whose message does not end in whitespace, parses to the record of exactly those fields |
| LogParser.Collect | log_reader.py:14-26 | the record list is never longer than the line list |
| LogParser.ConvertLogToRecords | log_reader.py:12-30 | the loop appending each parsed line's record builds exactly the in-order list of records of the lines that parse |
| LogParser.LogAnalyzer.constructor | log_reader.py:6-8 | the analyser's table is the parsed log of the file's lines |
| LogParser.CollectAppend | log_reader.py:14-26 | lines are parsed independently: the records of two consecutive pieces of a file, concatenated, are the records of the whole |
| LogParser.CollectMembers | log_reader.py:14-26 | a record is in the table exactly when some line parses to it |
| LogParser.CollectKeepsAll | log_reader.py:14-26 | the table has one record per line exactly when every line parses |
| Aggregate.Occurrences | log_reader.py:33 | the number of times a key occurs is positive exactly when the key is in the list |
| Aggregate.OccurrencesMultiset | log_reader.py:33 | that number is the key's multiplicity in the multiset of the list |
| Aggregate.Distinct | log_reader.py:33 | the groups of `groupby`: every key of the list once, with no repeats |
| Aggregate.Tally | log_reader.py:33 | `groupby(...).size()`: a key is in the table exactly when it occurs, and its entry is its number of occurrences |
| Aggregate.TallyTotal | log_reader.py:33 | the counts of a tally, summed once over each distinct key, add up to the number of keys counted |
| Aggregate.CountRequestsPerIp | log_reader.py:32-34 | fails exactly on an empty table; otherwise it lists exactly the IPs of the records, each with the number of records from it, at least 1 |
| Aggregate.RequestsPerIpConserved | log_reader.py:32-34 | the per-IP table's IPs are exactly the distinct IPs of the records, and their counts add up to the number of records |
| Aggregate.BestIndex | log_reader.py:38 | `idxmax`: the chosen key's count is at least every key's count |
| Aggregate.MostFrequentEndpoint | log_reader.py:36-40 | fails with MissingColumn exactly on an empty table; a result is the second word of some request with the largest frequency, paired with that frequency; NoSecondToken means a request with the largest frequency has fewer than two words |
| Aggregate.UniqueMaximumWins | log_reader.py:36-40 | when one request is strictly more frequent than all others, the result is its second word and frequency, or NoSecondToken exactly when it has no second word |
| Aggregate.FailedAttempts | log_reader.py:43-45 | the mask keeps a record exactly when it is one of the input records and its status is the code or its message is the text; no record is kept more often than it occurs in the input |
| Aggregate.FailedAttemptsCounted | log_reader.py:43-46 | `value_counts` of the kept records' IPs gives, for each IP, its number of qualifying records |
| Aggregate.SuspiciousActivity | log_reader.py:42-48 | fails exactly on an empty table; otherwise an IP is listed exactly when its qualifying-record count is positive and above the threshold, and it is listed with that count |
| Aggregate.FailedWithinRequests | log_reader.py:43-46 | an IP never has more qualifying records than records |
| Aggregate.SuspiciousAmongRequesters | log_reader.py:42-48 | every suspicious IP is also in the per-IP table, with at least as many requests as failed attempts |
| SampleLog.SampleParsed | log_reader.py:12-30 | the three sample log lines all parse, in order, to the three sample records |
| SampleLog.SampleRequestsPerIp | log_reader.py:32-34 | on the parsed sample log, 192.168.1.1 made 2 requests and 192.168.1.2 made 1 |
| SampleLog.SampleMostFrequentEndpoint | log_reader.py:36-40 | on the parsed sample log, the most frequent endpoint is "/login", requested twice |
| SampleLog.SampleSuspiciousActivity | log_reader.py:42-48 | on the parsed sample log, with threshold 1, status 401 and message "Invalid Credentials", only 192.168.1.1 is suspicious, with 2 attempts |
| SampleLog.SampleFailedCounts | log_reader.py:43-46 | on the sample records, 192.168.1.1 has 2 qualifying records and every other IP has none |

## Left out

- Reading the file: the lines are given as a sequence of strings. Opening, decoding and splitting the file into lines are outside the model.
- The pandas table and the order of its rows: the per-IP and suspicious tables are maps from IP to count, so row order and column names are not modelled.
- Aggregate.FailedAttempts: does not state that the kept records keep their input order; only the per-IP counts are used afterwards, and those do not depend on order.
- Aggregate.MostFrequentEndpoint: does not say which request wins when several share the largest frequency. pandas picks the first group of its sorted grouping, and that tie-break is incidental.
- Text.Strip: removes only ASCII whitespace (tab, line feed, vertical tab, form feed, carriage return, the separators 0x1C-0x1F and space). Python's `str.strip` also removes Unicode whitespace.
- LogPattern.Match: `\S` and `\s` use the same ASCII whitespace set, and `\d` matches only `0`-`9`. Python's str patterns match Unicode whitespace and digits.
- Text.DecimalValue: reads only ASCII digits, like the matcher. Python's `int` and `isdigit` also accept other Unicode digits.
- `write_data_to_csv`: writes a file; not modelled.
- `formatted_print` and `main`: printing and a fixed run on `sample.log`. They are not modelled. The sample module uses its own threshold of 1.
- The message is stored as captured, with no further trimming. A message that follows two or more spaces keeps its extra leading spaces. The message is never whitespace only, because the line was stripped first.
- In the sample, the messages carry their quotes (`"Invalid Credentials"` with the quote characters), and `SampleParsed` shows they stay in the parsed records, so they never equal the unquoted text given to the suspicious-activity query. Only status 401 makes those records qualify.
