/**
 * The three statistics LogAnalyzer computes from its table: requests per IP,
 * the most frequent endpoint, and the IPs with many failed attempts. A table
 * built from no records has no columns at all, so every lookup of a column on
 * it raises; that is the MissingColumn error.
 */
module Aggregate {
  import opened Wrappers
  import opened Text
  import opened LogParser

  datatype Failure =
    | MissingColumn   // the table is empty, so it has no "IP", "Request" or "Status" column
    | NoSecondToken   // the most frequent request has no second word for `split()[1]`

  /** How many times `k` occurs in `keys`. */
  function Occurrences(keys: seq<string>, k: string): (n: nat)
    ensures n > 0 <==> k in keys
  {
    if keys == [] then 0
    else
      var init := keys[..|keys| - 1];
      assert keys == init + [keys[|keys| - 1]];
      Occurrences(init, k) + (if keys[|keys| - 1] == k then 1 else 0)
  }

  /** One more key counts once more for itself and not for any other key. */
  lemma OccurrencesSnoc(keys: seq<string>, x: string, k: string)
    ensures Occurrences(keys + [x], k) == Occurrences(keys, k) + (if x == k then 1 else 0)
  {
    assert (keys + [x])[..|keys|] == keys;
  }

  /** Occurrences is the multiplicity of the key in the keys taken as a multiset. */
  lemma {:induction false} OccurrencesMultiset(keys: seq<string>, k: string)
    ensures Occurrences(keys, k) == multiset(keys)[k]
  {
    if keys != [] {
      var init := keys[..|keys| - 1];
      OccurrencesMultiset(init, k);
      assert keys == init + [keys[|keys| - 1]];
    }
  }

  /** One entry per distinct key, holding how many times the key occurs: `groupby(...).size()`. */
  function Tally(keys: seq<string>): (m: map<string, nat>)
    ensures forall k :: k in m <==> k in keys
    ensures forall k :: k in m ==> m[k] == Occurrences(keys, k)
  {
    if keys == [] then map[]
    else
      var init, last := keys[..|keys| - 1], keys[|keys| - 1];
      var m := Tally(init);
      m[last := if last in m then m[last] + 1 else 1]
  }

  /** The distinct keys, each once, in the order they first occur: the rows of a tally. */
  function Distinct(keys: seq<string>): (ds: seq<string>)
    ensures forall k :: k in ds <==> k in keys
    ensures forall i, j :: 0 <= i < j < |ds| ==> ds[i] != ds[j]
  {
    if keys == [] then []
    else
      var init := Distinct(keys[..|keys| - 1]);
      var last := keys[|keys| - 1];
      assert forall k :: k in keys <==> k in keys[..|keys| - 1] || k == last by {
        assert keys == keys[..|keys| - 1] + [last];
      }
      if last in init then init else init + [last]
  }

  /** The sum of the counts of the listed keys. */
  function SumCounts(m: map<string, nat>, ds: seq<string>): nat
    requires forall k :: k in ds ==> k in m
  {
    if ds == [] then 0 else SumCounts(m, ds[..|ds| - 1]) + m[ds[|ds| - 1]]
  }

  /** Changing the count of a key that is not listed does not change the sum. */
  lemma {:induction false} SumCountsOther(m: map<string, nat>, ds: seq<string>, x: string, v: nat)
    requires forall k :: k in ds ==> k in m
    requires x !in ds
    ensures SumCounts(m[x := v], ds) == SumCounts(m, ds)
  {
    if ds != [] {
      SumCountsOther(m, ds[..|ds| - 1], x, v);
    }
  }

  /** Changing the count of a key listed once changes the sum by the same amount. */
  lemma {:induction false} SumCountsUpdate(m: map<string, nat>, ds: seq<string>, x: string, v: nat)
    requires forall k :: k in ds ==> k in m
    requires forall i, j :: 0 <= i < j < |ds| ==> ds[i] != ds[j]
    requires x in ds
    ensures SumCounts(m[x := v], ds) + m[x] == SumCounts(m, ds) + v
  {
    var init, last := ds[..|ds| - 1], ds[|ds| - 1];
    if last == x {
      assert x !in init;
      SumCountsOther(m, init, x, v);
    } else {
      assert x in init;
      SumCountsUpdate(m, init, x, v);
    }
  }

  /** Tally counts the keys one at a time, the last one last. */
  lemma TallySnoc(init: seq<string>, last: string)
    ensures var m := Tally(init); Tally(init + [last]) == m[last := if last in m then m[last] + 1 else 1]
  {
    var keys := init + [last];
    assert keys[..|keys| - 1] == init && keys[|keys| - 1] == last;
  }

  /** Counting conserves the keys: over the rows of a tally, the counts add up to the
      number of keys counted. */
  lemma {:induction false} TallyTotal(keys: seq<string>)
    ensures SumCounts(Tally(keys), Distinct(keys)) == |keys|
  {
    if keys != [] {
      var init, last := keys[..|keys| - 1], keys[|keys| - 1];
      TallyTotal(init);
      assert keys == init + [last];
      TallyTotalStep(init, last);
    }
  }

  /** One more key adds one to the sum over the rows. */
  lemma TallyTotalStep(init: seq<string>, last: string)
    ensures SumCounts(Tally(init + [last]), Distinct(init + [last])) == SumCounts(Tally(init), Distinct(init)) + 1
  {
    var m, ds := Tally(init), Distinct(init);
    TallySnoc(init, last);
    DistinctSnoc(init, last);
    if last in m {
      SumCountsUpdate(m, ds, last, m[last] + 1);
    } else {
      var m' := m[last := 1];
      SumCountsOther(m, ds, last, 1);
      assert (ds + [last])[..|ds|] == ds;
      assert SumCounts(m', ds + [last]) == SumCounts(m', ds) + 1;
    }
  }

  lemma DistinctSnoc(init: seq<string>, last: string)
    ensures Distinct(init + [last]) == if last in init then Distinct(init) else Distinct(init) + [last]
  {
    var keys := init + [last];
    assert keys[..|keys| - 1] == init && keys[|keys| - 1] == last;
  }

  function Ips(records: seq<Record>): (ips: seq<string>)
    ensures |ips| == |records| && forall k :: 0 <= k < |records| ==> ips[k] == records[k].ip
  {
    seq(|records|, k requires 0 <= k < |records| => records[k].ip)
  }

  function Requests(records: seq<Record>): (requests: seq<string>)
    ensures |requests| == |records| && forall k :: 0 <= k < |records| ==> requests[k] == records[k].request
  {
    seq(|records|, k requires 0 <= k < |records| => records[k].request)
  }

  /** count_requests_per_ip: every distinct IP once, with the number of records from it. */
  function CountRequestsPerIp(records: seq<Record>): (r: Result<map<string, nat>, Failure>)
    ensures r.Err? <==> records == []
    ensures r.Err? ==> r.error == MissingColumn
    ensures r.Ok? ==> forall ip :: ip in r.value <==> exists k :: 0 <= k < |records| && records[k].ip == ip
    ensures r.Ok? ==> forall ip :: ip in r.value ==> r.value[ip] == Occurrences(Ips(records), ip) >= 1
  {
    if records == [] then Err(MissingColumn) else Ok(Tally(Ips(records)))
  }

  /** Every record is counted once, under its own IP: over the rows of the table, one
      per IP, the counts add up to the number of records. */
  lemma RequestsPerIpConserved(records: seq<Record>)
    requires records != []
    ensures forall ip :: ip in Distinct(Ips(records)) <==> ip in CountRequestsPerIp(records).value
    ensures SumCounts(CountRequestsPerIp(records).value, Distinct(Ips(records))) == |records|
  {
    TallyTotal(Ips(records));
  }

  /** How many records carry exactly this request string. */
  function Frequency(records: seq<Record>, request: string): nat {
    Occurrences(Requests(records), request)
  }

  /** The position of a key with the largest count (the first such position). */
  function BestIndex(keys: seq<string>, counts: map<string, nat>): (b: nat)
    requires |keys| > 0
    requires forall k :: 0 <= k < |keys| ==> keys[k] in counts
    ensures b < |keys|
    ensures forall k :: 0 <= k < |keys| ==> counts[keys[k]] <= counts[keys[b]]
  {
    if |keys| == 1 then 0
    else
      var b := BestIndex(keys[..|keys| - 1], counts);
      if counts[keys[|keys| - 1]] > counts[keys[b]] then |keys| - 1 else b
  }

  /** most_frequent_endpoint: the second word of a request string with the largest
      frequency, with that frequency. Which request wins a tie is left open. */
  function MostFrequentEndpoint(records: seq<Record>): (r: Result<(string, nat), Failure>)
    ensures r == Err(MissingColumn) <==> records == []
    ensures r.Ok? ==> forall k :: 0 <= k < |records| ==> Frequency(records, records[k].request) <= r.value.1
    ensures r.Ok? ==> exists k :: && 0 <= k < |records|
                                  && Frequency(records, records[k].request) == r.value.1
                                  && |Words(records[k].request)| >= 2
                                  && Words(records[k].request)[1] == r.value.0
    ensures r == Err(NoSecondToken) ==>
      exists k :: && 0 <= k < |records|
                  && (forall j :: 0 <= j < |records| ==> Frequency(records, records[j].request) <= Frequency(records, records[k].request))
                  && |Words(records[k].request)| < 2
  {
    if records == [] then Err(MissingColumn)
    else
      var requests := Requests(records);
      var counts := Tally(requests);
      var b := BestIndex(requests, counts);
      var words := Words(records[b].request);
      if |words| < 2 then Err(NoSecondToken) else Ok((words[1], counts[records[b].request]))
  }

  /** A record qualifies when its status is the given code or its message is the given
      text; a record without a message never equals the text. */
  predicate Qualifies(rec: Record, statusCode: int, message: string) {
    rec.status == statusCode || rec.message == Some(message)
  }

  /** The qualifying records, in order: the boolean-mask selection of suspicious_activity. */
  function FailedAttempts(records: seq<Record>, statusCode: int, message: string): (failed: seq<Record>)
    ensures |failed| <= |records|
    ensures forall k :: 0 <= k < |failed| ==> Qualifies(failed[k], statusCode, message)
    ensures forall rec :: rec in failed <==> rec in records && Qualifies(rec, statusCode, message)
    ensures multiset(failed) <= multiset(records)
  {
    if records == [] then []
    else
      var init := FailedAttempts(records[..|records| - 1], statusCode, message);
      var last := records[|records| - 1];
      assert records == records[..|records| - 1] + [last];
      if Qualifies(last, statusCode, message) then init + [last] else init
  }

  /** How many records from `ip` qualify, counted directly. */
  function FailedCount(records: seq<Record>, ip: string, statusCode: int, message: string): nat {
    if records == [] then 0
    else
      var last := records[|records| - 1];
      FailedCount(records[..|records| - 1], ip, statusCode, message)
        + (if last.ip == ip && Qualifies(last, statusCode, message) then 1 else 0)
  }

  /** Counting the IPs of the selected records counts the qualifying records per IP. */
  lemma {:induction false} FailedAttemptsCounted(records: seq<Record>, ip: string, statusCode: int, message: string)
    ensures Occurrences(Ips(FailedAttempts(records, statusCode, message)), ip) == FailedCount(records, ip, statusCode, message)
  {
    if records != [] {
      var init, last := records[..|records| - 1], records[|records| - 1];
      FailedAttemptsCounted(init, ip, statusCode, message);
      var before := FailedAttempts(init, statusCode, message);
      if Qualifies(last, statusCode, message) {
        assert Ips(before + [last]) == Ips(before) + [last.ip];
        OccurrencesSnoc(Ips(before), last.ip, ip);
      }
    }
  }

  /** suspicious_activity: every IP with more than `threshold` qualifying records, once,
      with that number. An IP with no qualifying record is never listed. */
  function SuspiciousActivity(records: seq<Record>, threshold: int, statusCode: int, message: string)
    : (r: Result<map<string, nat>, Failure>)
    ensures r.Err? <==> records == []
    ensures r.Err? ==> r.error == MissingColumn
    ensures r.Ok? ==> forall ip :: ip in r.value <==>
      (FailedCount(records, ip, statusCode, message) > threshold && FailedCount(records, ip, statusCode, message) > 0)
    ensures r.Ok? ==> forall ip :: ip in r.value ==> r.value[ip] == FailedCount(records, ip, statusCode, message)
  {
    if records == [] then Err(MissingColumn)
    else
      var failedIps := Ips(FailedAttempts(records, statusCode, message));
      var counts := Tally(failedIps);
      assert forall ip :: Occurrences(failedIps, ip) == FailedCount(records, ip, statusCode, message) by {
        forall ip ensures Occurrences(failedIps, ip) == FailedCount(records, ip, statusCode, message) {
          FailedAttemptsCounted(records, ip, statusCode, message);
        }
      }
      Ok(map ip | ip in counts && counts[ip] > threshold :: counts[ip])
  }

  /** When one request string is strictly more frequent than every other, it decides the
      answer: its second word and its frequency, or NoSecondToken when it has no second word. */
  lemma UniqueMaximumWins(records: seq<Record>, k: nat)
    requires k < |records|
    requires forall j :: 0 <= j < |records| && records[j].request != records[k].request ==>
      Frequency(records, records[j].request) < Frequency(records, records[k].request)
    ensures var r := MostFrequentEndpoint(records);
      && (r.Ok? <==> |Words(records[k].request)| >= 2)
      && (r.Err? ==> r.error == NoSecondToken)
      && (r.Ok? ==> r.value == (Words(records[k].request)[1], Frequency(records, records[k].request)))
  {
    var r := MostFrequentEndpoint(records);
    if r.Ok? {
      var w :| && 0 <= w < |records|
               && Frequency(records, records[w].request) == r.value.1
               && |Words(records[w].request)| >= 2
               && Words(records[w].request)[1] == r.value.0;
      assert records[w].request == records[k].request;
    } else if r.error == NoSecondToken {
      var w :| && 0 <= w < |records|
               && (forall j :: 0 <= j < |records| ==> Frequency(records, records[j].request) <= Frequency(records, records[w].request))
               && |Words(records[w].request)| < 2;
      assert records[w].request == records[k].request;
    }
  }

  /** An IP's qualifying records are among its records. */
  lemma {:induction false} FailedWithinRequests(records: seq<Record>, ip: string, statusCode: int, message: string)
    ensures FailedCount(records, ip, statusCode, message) <= Occurrences(Ips(records), ip)
  {
    if records != [] {
      var init := records[..|records| - 1];
      FailedWithinRequests(init, ip, statusCode, message);
      assert Ips(records) == Ips(init) + [records[|records| - 1].ip];
      OccurrencesSnoc(Ips(init), records[|records| - 1].ip, ip);
    }
  }

  /** Every suspicious IP is also in the per-IP table, with at least as many requests as
      failed attempts. */
  lemma SuspiciousAmongRequesters(records: seq<Record>, threshold: int, statusCode: int, message: string, ip: string)
    requires records != []
    requires ip in SuspiciousActivity(records, threshold, statusCode, message).value
    ensures ip in CountRequestsPerIp(records).value
    ensures SuspiciousActivity(records, threshold, statusCode, message).value[ip] <= CountRequestsPerIp(records).value[ip]
  {
    FailedWithinRequests(records, ip, statusCode, message);
    var k :| 0 <= k < |Ips(records)| && Ips(records)[k] == ip;
  }
}
