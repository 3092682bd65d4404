/** `fetch_app_stats`: read every client until its message count is stable, until enough counts were. */
module StatsCollection {
  import opened Wrappers
  import opened TaskBook

  /** The message counts a client reports, reading by reading. */
  type Readings = nat -> int

  /** Readings `i` and `i + 1` are the first two in a row that agree. */
  ghost predicate SettlesAt(r: Readings, i: nat) {
    r(i) == r(i + 1) && forall j: nat :: j < i ==> !Agree(r, j)
  }

  predicate Agree(r: Readings, i: nat) { r(i) == r(i + 1) }

  ghost predicate Settling(r: Readings) { exists i: nat :: Agree(r, i) }

  /** A count that never falls and stays below a bound settles, within as many readings as it has room to grow. */
  lemma MonotoneSettles(r: Readings, bound: int)
    requires forall i: nat :: r(i) <= r(i + 1)
    requires forall i: nat :: r(i) <= bound
    ensures exists i: nat :: Agree(r, i) && i <= bound - r(0)
  {
    if forall i: nat :: i <= bound - r(0) ==> !Agree(r, i) {
      GrowsEachReading(r, bound - r(0) + 1, bound);
    }
  }

  lemma {:induction false} GrowsEachReading(r: Readings, n: nat, bound: int)
    requires forall i: nat :: r(i) <= r(i + 1)
    requires forall i: nat :: i < n ==> !Agree(r, i)
    ensures r(n) >= r(0) + n
  {
    if n > 0 {
      GrowsEachReading(r, n - 1, bound);
      assert !Agree(r, n - 1);
      assert r(n - 1) <= r(n - 1 + 1);
    }
  }

  // ----- the comparisons behind a collection -----

  /** How many comparisons of the clients checked so far failed before the last one held, client by client. */
  type Settled = seq<nat>

  /** The source's counter of successive stable reads. */
  function Stable(settled: Settled): nat {
    if settled == [] then 0
    else if settled[|settled| - 1] == 0 then Stable(settled[..|settled| - 1]) + 1
    else 1
  }

  /** All comparisons in order: each client contributes its failures and then one success. */
  function Comparisons(settled: Settled): seq<bool> {
    if settled == [] then []
    else Comparisons(settled[..|settled| - 1]) + seq(settled[|settled| - 1], _ => false) + [true]
  }

  ghost predicate EndsWithEqual(log: seq<bool>, n: nat) {
    n <= |log| && forall i :: |log| - n <= i < |log| ==> log[i]
  }

  /** The counter is the number of equal comparisons in a row at the end of the log. */
  lemma {:induction false} StableCountsTrailing(settled: Settled, n: nat)
    ensures EndsWithEqual(Comparisons(settled), n) <==> n <= Stable(settled)
  {
    var log := Comparisons(settled);
    if settled != [] {
      var init, last := settled[..|settled| - 1], settled[|settled| - 1];
      var before := Comparisons(init);
      assert log == before + seq(last, _ => false) + [true];
      if n > 0 {
        StableCountsTrailing(init, n - 1);
        if last == 0 {
          assert log == before + [true];
          OneMoreEqual(before, n - 1);
        } else {
          assert !log[|log| - 2];
        }
      }
    }
  }

  lemma OneMoreEqual(log: seq<bool>, n: nat)
    ensures EndsWithEqual(log + [true], n + 1) <==> EndsWithEqual(log, n)
  {
    var more := log + [true];
    if EndsWithEqual(more, n + 1) {
      forall i | |log| - n <= i < |log|
        ensures log[i]
      {
        assert more[i];
      }
    }
  }

  /** Checking is switched off after a client exactly when the last 41 comparisons were all equal, and so never
      among the first 40 clients. */
  lemma SwitchedOffExactly(settled: Settled)
    ensures Stable(settled) > 40 <==> EndsWithEqual(Comparisons(settled), 41)
    ensures Stable(settled) <= |settled|
  {
    StableCountsTrailing(settled, 41);
    StableAtMost(settled);
  }

  lemma {:induction false} StableAtMost(settled: Settled)
    ensures Stable(settled) <= |settled|
  {
    if settled != [] {
      StableAtMost(settled[..|settled| - 1]);
    }
  }

  // ----- the collection -----

  datatype Record = Record(msgCnt: int, taskId: string)

  /** What was recorded for client `i`: a count read twice in a row while checking was on, the first reading after. */
  ghost predicate RecordedRight(r: Readings, i: nat, settled: Settled, recorded: int) {
    if i < |settled| then SettlesAt(r, settled[i]) && recorded == r(settled[i]) == r(settled[i] + 1)
    else recorded == r(0)
  }

  /** Checking was on for exactly the clients in `settled`. */
  ghost predicate CheckedWhileNeeded(settled: Settled, clients: nat) {
    && |settled| <= clients
    && (forall e :: 0 <= e < |settled| ==> Stable(settled[..e]) <= 40)
    && (|settled| < clients ==> Stable(settled) > 40)
  }

  /** The table the records are stored in, by address: a later client at the same address replaces an earlier one. */
  function Table(addrs: map<string, Addr>, records: seq<Record>): map<Addr, Record>
    requires forall x :: x in records ==> x.taskId in addrs
  {
    if records == [] then map[]
    else
      var last := records[|records| - 1];
      Table(addrs, records[..|records| - 1])[addrs[last.taskId] := last]
  }

  lemma TableSnoc(addrs: map<string, Addr>, records: seq<Record>, last: Record)
    requires forall x :: x in records + [last] ==> x.taskId in addrs
    ensures forall x :: x in records ==> x.taskId in addrs
    ensures Table(addrs, records + [last]) == Table(addrs, records)[addrs[last.taskId] := last]
  {
    assert forall x :: x in records ==> x in records + [last];
    assert (records + [last])[..|records|] == records;
  }

  /** The first clients of a list are recorded, in order and as they should be, and the records are in the table. */
  ghost predicate Recorded(addrs: map<string, Addr>, tasks: seq<string>, readings: nat -> Readings,
                           settled: Settled, records: seq<Record>, stats: map<Addr, Record>) {
    && |records| <= |tasks|
    && (forall i :: 0 <= i < |records| ==>
          records[i].taskId == tasks[i] && RecordedRight(readings(i), i, settled, records[i].msgCnt))
    && (forall x :: x in records ==> x.taskId in addrs) && stats == Table(addrs, records)
  }

  /** One more client, checked or not. */
  lemma RecordNext(addrs: map<string, Addr>, tasks: seq<string>, readings: nat -> Readings,
                   settled: Settled, records: seq<Record>, stats: map<Addr, Record>,
                   settled': Settled, count: int)
    requires Recorded(addrs, tasks, readings, settled, records, stats)
    requires |records| < |tasks| && tasks[|records|] in addrs && |settled| <= |records|
    requires settled' == settled || (|settled| == |records| && |settled'| == |settled| + 1 && settled <= settled')
    requires RecordedRight(readings(|records|), |records|, settled', count)
    ensures var last := Record(count, tasks[|records|]);
            Recorded(addrs, tasks, readings, settled', records + [last], stats[addrs[last.taskId] := last])
  {
    var last := Record(count, tasks[|records|]);
    TableSnoc(addrs, records, last);
    forall i | 0 <= i < |records|
      ensures RecordedRight(readings(i), i, settled', records[i].msgCnt)
    {
      assert RecordedRight(readings(i), i, settled, records[i].msgCnt);
    }
  }

  lemma CheckedSnoc(settled: Settled, s: nat)
    requires CheckedWhileNeeded(settled, |settled|) && Stable(settled) <= 40
    ensures CheckedWhileNeeded(settled + [s], |settled| + 1)
  {
    var more := settled + [s];
    forall e | 0 <= e < |more|
      ensures Stable(more[..e]) <= 40
    {
      assert more[..e] == settled[..e];
      assert settled[..|settled|] == settled;
    }
  }

  /** Collects the counts of a list of tasks, in order, into a table by address; `None` if a task has no address. */
  method FetchAppStats(addrs: map<string, Addr>, tasks: seq<string>, readings: nat -> Readings)
    returns (r: Option<map<Addr, Record>>, ghost settled: Settled, ghost records: seq<Record>)
    requires forall i :: 0 <= i < |tasks| ==> Settling(readings(i))
    ensures r.None? <==> exists x :: x in tasks && x !in addrs
    ensures r.Some? ==> |records| == |tasks| && CheckedWhileNeeded(settled, |tasks|)
    ensures r.Some? ==> Recorded(addrs, tasks, readings, settled, records, r.value)
  {
    var stats: map<Addr, Record> := map[];
    records, settled := [], [];
    var firstItr, noDelayNeededCount := true, 0;
    for n := 0 to |tasks|
      invariant |records| == n && Recorded(addrs, tasks, readings, settled, records, stats)
      invariant forall i :: 0 <= i < n ==> tasks[i] in addrs
      invariant CheckedWhileNeeded(settled, n) && noDelayNeededCount == Stable(settled)
      invariant (firstItr <==> noDelayNeededCount <= 40) && (firstItr ==> |settled| == n)
    {
      if tasks[n] !in addrs {
        return None, settled, records;
      }
      var count;
      ghost var before := settled;
      if firstItr {
        ghost var s;
        count, noDelayNeededCount, s := ReadUntilStable(readings(n), noDelayNeededCount);
        CheckedSnoc(settled, s);
        settled := settled + [s];
        assert settled[..n] == before;
        firstItr := noDelayNeededCount <= 40;
      } else {
        count := readings(n)(0);
      }
      RecordNext(addrs, tasks, readings, before, records, stats, settled, count);
      stats := stats[addrs[tasks[n]] := Record(count, tasks[n])];
      records := records + [Record(count, tasks[n])];
    }
    r := Some(stats);
  }

  /** The inner loop for one client: reads until two readings agree, counting equal comparisons in a row. */
  method ReadUntilStable(r: Readings, equalSoFar: nat) returns (count: int, equal: nat, ghost s: nat)
    requires Settling(r)
    ensures SettlesAt(r, s) && count == r(s)
    ensures equal == if s == 0 then equalSoFar + 1 else 1
  {
    ghost var due: nat :| Agree(r, due);
    var k := 0;
    var stats := r(0);
    equal := equalSoFar;
    while true
      invariant k <= due && stats == r(k)
      invariant forall j: nat :: j < k ==> !Agree(r, j)
      invariant equal == if k == 0 then equalSoFar else 0
      decreases due - k
    {
      var stats2 := r(k + 1);
      if stats == stats2 {
        equal := equal + 1;
        break;
      }
      assert !Agree(r, k);
      equal := 0;
      stats := stats2;
      k := k + 1;
    }
    s, count := k, stats;
  }

  /** The table holds at every address the last record of a client there. */
  lemma {:induction false} TableHoldsLast(addrs: map<string, Addr>, records: seq<Record>, a: Addr)
    requires forall x :: x in records ==> x.taskId in addrs
    ensures a in Table(addrs, records) <==> exists x :: x in records && addrs[x.taskId] == a
    ensures a in Table(addrs, records) ==>
              exists i :: 0 <= i < |records| && Table(addrs, records)[a] == records[i] && addrs[records[i].taskId] == a
                && forall j :: i < j < |records| ==> addrs[records[j].taskId] != a
  {
    if records != [] {
      var init, last := records[..|records| - 1], records[|records| - 1];
      TableHoldsLast(addrs, init, a);
      assert records == init + [last];
      if addrs[last.taskId] != a && a in Table(addrs, init) {
        var i :| 0 <= i < |init| && Table(addrs, init)[a] == init[i] && addrs[init[i].taskId] == a
                 && forall j :: i < j < |init| ==> addrs[init[j].taskId] != a;
        assert records[i] == init[i];
      } else if addrs[last.taskId] == a {
        assert records[|records| - 1] == last;
      }
    }
  }

  /** With an address of its own for every task no record is lost. */
  lemma {:induction false} TableKeepsAll(addrs: map<string, Addr>, records: seq<Record>)
    requires forall x :: x in records ==> x.taskId in addrs
    requires forall i, j :: 0 <= i < j < |records| ==> addrs[records[i].taskId] != addrs[records[j].taskId]
    ensures |Table(addrs, records)| == |records|
    ensures forall i :: 0 <= i < |records| ==>
              addrs[records[i].taskId] in Table(addrs, records) && Table(addrs, records)[addrs[records[i].taskId]] == records[i]
    ensures forall a :: a in Table(addrs, records) ==> exists i :: 0 <= i < |records| && a == addrs[records[i].taskId]
  {
    if records != [] {
      var init := records[..|records| - 1];
      TableKeepsAll(addrs, init);
      assert addrs[records[|records| - 1].taskId] !in Table(addrs, init);
    }
  }
}
