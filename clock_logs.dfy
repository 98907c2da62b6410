/** Queries over the clock-log table that the database answers for the services: rows of one employee,
    rows matching a time condition, the latest row by timestamp, and rows in ascending time order. */
module ClockLogs {
  import opened Wrappers
  import opened Db

  /** The rows of `rows` that satisfy `keep`, in table order. */
  function Filter(rows: seq<ClockLog>, keep: ClockLog -> bool): (r: seq<ClockLog>)
    ensures |r| <= |rows|
    ensures forall l :: l in r <==> l in rows && keep(l)
    ensures forall i :: 0 <= i < |r| ==> keep(r[i])
    ensures multiset(r) <= multiset(rows)
  {
    if rows == [] then []
    else
      var last := rows[|rows| - 1];
      var kept := Filter(rows[..|rows| - 1], keep);
      assert rows == rows[..|rows| - 1] + [last];
      if keep(last) then kept + [last] else kept
  }

  /** A kept row occurs in the result exactly as often as in the table; any other row not at all. */
  lemma {:induction false} FilterCounts(rows: seq<ClockLog>, keep: ClockLog -> bool, l: ClockLog)
    ensures multiset(Filter(rows, keep))[l] == if keep(l) then multiset(rows)[l] else 0
    decreases |rows|
  {
    if rows != [] {
      var init, x := rows[..|rows| - 1], rows[|rows| - 1];
      FilterCounts(init, keep, l);
      assert rows == init + [x];
      assert multiset(rows) == multiset(init) + multiset{x};
      var kept := Filter(init, keep);
      if keep(x) {
        assert Filter(rows, keep) == kept + [x];
        assert multiset(Filter(rows, keep)) == multiset(kept) + multiset{x};
      } else {
        assert Filter(rows, keep) == kept;
      }
    }
  }

  /** The row with the greatest timestamp (the later row on a tie), as `orderBy: { timestamp: 'desc' }`
      with `findFirst` gives it; nothing for an empty table. */
  function Latest(rows: seq<ClockLog>): (r: Option<ClockLog>)
    ensures r.None? <==> rows == []
    ensures r.Some? ==> r.value in rows && forall l :: l in rows ==> l.timestamp <= r.value.timestamp
  {
    if rows == [] then None
    else
      var last := rows[|rows| - 1];
      var prev := Latest(rows[..|rows| - 1]);
      assert rows == rows[..|rows| - 1] + [last];
      if prev.None? || prev.value.timestamp <= last.timestamp then Some(last) else prev
  }

  predicate SortedByTime(rows: seq<ClockLog>) {
    forall i, j :: 0 <= i < j < |rows| ==> rows[i].timestamp <= rows[j].timestamp
  }

  /** `x` placed into `rows` after every leading row not later than it. */
  function InsertByTime(x: ClockLog, rows: seq<ClockLog>): (r: seq<ClockLog>)
    ensures forall l :: l in r ==> l in rows || l == x
    ensures multiset(r) == multiset(rows) + multiset{x}
  {
    if rows == [] then [x]
    else if x.timestamp < rows[0].timestamp then [x] + rows
    else
      assert rows == [rows[0]] + rows[1..];
      [rows[0]] + InsertByTime(x, rows[1..])
  }

  lemma {:induction false} InsertByTimeSorted(x: ClockLog, rows: seq<ClockLog>)
    requires SortedByTime(rows)
    ensures SortedByTime(InsertByTime(x, rows))
  {
    if rows != [] && x.timestamp >= rows[0].timestamp {
      var rest := InsertByTime(x, rows[1..]);
      InsertByTimeSorted(x, rows[1..]);
      forall j | 0 <= j < |rest| ensures rows[0].timestamp <= rest[j].timestamp {
        assert rest[j] in rest;
        if rest[j] != x {
          var k :| 0 <= k < |rows[1..]| && rows[1..][k] == rest[j];
          assert rows[k + 1] == rest[j];
        }
      }
      var r := [rows[0]] + rest;
      assert forall i :: 0 < i < |r| ==> r[i] == rest[i - 1];
    }
  }

  /** `rows` in ascending timestamp order (`orderBy: { timestamp: 'asc' }`), ties in table order. */
  function SortByTime(rows: seq<ClockLog>): (r: seq<ClockLog>)
    ensures SortedByTime(r) && multiset(r) == multiset(rows)
  {
    if rows == [] then []
    else
      assert rows == rows[..|rows| - 1] + [rows[|rows| - 1]];
      InsertByTimeSorted(rows[|rows| - 1], SortByTime(rows[..|rows| - 1]));
      InsertByTime(rows[|rows| - 1], SortByTime(rows[..|rows| - 1]))
  }

  /** Filtering a table with one more row at the end keeps or drops just that row. */
  lemma FilterAppend(rows: seq<ClockLog>, x: ClockLog, keep: ClockLog -> bool)
    ensures Filter(rows + [x], keep) == Filter(rows, keep) + (if keep(x) then [x] else [])
  {
    assert (rows + [x])[..|rows|] == rows;
  }

  /** A row appended no earlier than every row of a table is the table's latest row. */
  lemma LatestOfAppend(rows: seq<ClockLog>, x: ClockLog)
    requires forall l :: l in rows ==> l.timestamp <= x.timestamp
    ensures Latest(rows + [x]) == Some(x)
  {
    assert (rows + [x])[..|rows|] == rows;
  }
}
