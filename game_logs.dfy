/**
 * The part of `NBAStats.getPlayerGameLogs` in api/index.js that works on the
 * answer of the statistics service: every row of `rowSet` is zipped with the
 * `headers` into one record, and each record's `GAME_DATE` is then rewritten
 * into a calendar date.
 *
 * Cell values are of an arbitrary type `V`. A record is a JavaScript object
 * whose properties may hold `undefined` (when a row is shorter than the
 * header list); such a property is present with the value `None`.
 */
module GameLogs {
  import opened Wrappers

  /** A JavaScript object built by property assignment: the properties it has,
      each with its value, `None` standing for `undefined`. */
  type Record<V> = map<string, Option<V>>

  /** The property the date step rewrites. */
  const GAME_DATE: string := "GAME_DATE"

  /** `row[index]`: the cell, or `undefined` past the end of the row. */
  function Cell<V>(row: seq<V>, index: nat): (c: Option<V>)
    ensures c.Some? <==> index < |row|
    ensures c.Some? ==> c.value == row[index]
  {
    if index < |row| then Some(row[index]) else None
  }

  /** `log.key`: the value of a property, `undefined` when it is missing. */
  function Field<V>(log: Record<V>, key: string): Option<V> {
    if key in log then log[key] else None
  }

  // ---------------------------------------------------------------------------
  // The zip

  /** The record `headers.forEach((header, index) => log[header] = row[index])`
      leaves behind, starting from `{}`: the assignments in index order, so a
      later index overwrites an earlier one with the same header. */
  function RowRecord<V>(headers: seq<string>, row: seq<V>): (log: Record<V>)
    ensures log.Keys == set h | h in headers
    decreases |headers|
  {
    if headers == [] then map[]
    else
      var n := |headers| - 1;
      assert forall h :: h in headers <==> h in headers[..n] || h == headers[n];
      RowRecord(headers[..n], row)[headers[n] := Cell(row, n)]
  }

  /** The index of the last occurrence of `key` among the headers. */
  function LastIndexOf(headers: seq<string>, key: string): (i: nat)
    requires key in headers
    ensures i < |headers| && headers[i] == key
    ensures forall j :: i < j < |headers| ==> headers[j] != key
    decreases |headers|
  {
    var n := |headers| - 1;
    if headers[n] == key then n
    else
      assert key in headers[..n] by {
        var k :| 0 <= k < |headers| && headers[k] == key;
        assert headers[..n][k] == key;
      }
      LastIndexOf(headers[..n], key)
  }

  /** Every property of a zipped record holds the cell under the last
      occurrence of its header: when a header repeats, the later index wins. */
  lemma {:induction false} RowRecordAt<V>(headers: seq<string>, row: seq<V>, key: string)
    requires key in headers
    ensures key in RowRecord(headers, row)
    ensures RowRecord(headers, row)[key] == Cell(row, LastIndexOf(headers, key))
    decreases |headers|
  {
    var n := |headers| - 1;
    if headers[n] != key {
      assert key in headers[..n] by {
        var k :| 0 <= k < |headers| && headers[k] == key;
        assert headers[..n][k] == key;
      }
      RowRecordAt(headers[..n], row, key);
      LastIndexOfPrefix(headers, key);
    }
  }

  /** Dropping a last header other than `key` does not move its last occurrence. */
  lemma LastIndexOfPrefix(headers: seq<string>, key: string)
    requires key in headers && headers[|headers| - 1] != key
    requires key in headers[..|headers| - 1]
    ensures LastIndexOf(headers[..|headers| - 1], key) == LastIndexOf(headers, key)
  {
  }

  /** With distinct headers, the record maps `headers[i]` to `row[i]` for every
      index `i` (to `undefined` past the end of the row). */
  lemma RowRecordDistinct<V>(headers: seq<string>, row: seq<V>)
    requires forall i, j :: 0 <= i < j < |headers| ==> headers[i] != headers[j]
    ensures forall i :: 0 <= i < |headers| ==> RowRecord(headers, row)[headers[i]] == Cell(row, i)
  {
    forall i | 0 <= i < |headers|
      ensures RowRecord(headers, row)[headers[i]] == Cell(row, i)
    {
      RowRecordAt(headers, row, headers[i]);
      var k := LastIndexOf(headers, headers[i]);
      assert k == i;
    }
  }

  /** The body of `rows.map(row => …)` for one row: a fresh object, then one
      property assignment per header. */
  method ZipRow<V>(headers: seq<string>, row: seq<V>) returns (log: Record<V>)
    ensures log == RowRecord(headers, row)
  {
    log := map[];
    var index := 0;
    while index < |headers|
      invariant 0 <= index <= |headers|
      invariant log == RowRecord(headers[..index], row)
    {
      assert headers[..index + 1][..index] == headers[..index];
      log := log[headers[index] := Cell(row, index)];
      index := index + 1;
    }
    assert headers[..index] == headers;
  }

  /** `rows.map(...)`: one record per row, in row order. */
  method ZipRows<V>(headers: seq<string>, rows: seq<seq<V>>) returns (gameLogs: seq<Record<V>>)
    ensures |gameLogs| == |rows|
    ensures forall k :: 0 <= k < |rows| ==> gameLogs[k] == RowRecord(headers, rows[k])
  {
    gameLogs := [];
    var k := 0;
    while k < |rows|
      invariant 0 <= k <= |rows|
      invariant |gameLogs| == k
      invariant forall m :: 0 <= m < k ==> gameLogs[m] == RowRecord(headers, rows[m])
    {
      var log := ZipRow(headers, rows[k]);
      gameLogs := gameLogs + [log];
      k := k + 1;
    }
  }

  // ---------------------------------------------------------------------------
  // The date step

  /** `new Date(d).toISOString().split('T')[0]` on a property value.
      `formatDate` stands for it on a defined value and answers `None` when the
      date is invalid and `toISOString` throws. `new Date(undefined)` is always
      an invalid date, so a missing value throws too. */
  function FormatDate<V>(d: Option<V>, formatDate: V -> Option<V>): Option<V> {
    if d.Some? then formatDate(d.value) else None
  }

  /** `{...log, GAME_DATE: …}` with the formatted date; `None` when formatting
      throws, which it always does for a record without a defined date. */
  function Redate<V>(log: Record<V>, formatDate: V -> Option<V>): (r: Option<Record<V>>)
    ensures r.Some? <==> FormatDate(Field(log, GAME_DATE), formatDate).Some?
    ensures r.Some? ==> GAME_DATE in log && log[GAME_DATE].Some?
  {
    var d := FormatDate(Field(log, GAME_DATE), formatDate);
    if d.Some? then Some(log[GAME_DATE := d]) else None
  }

  /** The redated record has the same properties as the original and differs
      from it in `GAME_DATE` only. */
  lemma RedateOnlyGameDate<V>(log: Record<V>, formatDate: V -> Option<V>)
    requires Redate(log, formatDate).Some?
    ensures var r := Redate(log, formatDate).value;
      && r.Keys == log.Keys
      && r[GAME_DATE] == FormatDate(Field(log, GAME_DATE), formatDate)
      && forall key :: key in log && key != GAME_DATE ==> r[key] == log[key]
  {
  }

  /** `gameLogs.map(log => ({...log, GAME_DATE: …}))`, which throws (`None`) as
      soon as one record's date cannot be formatted. */
  function RedateAll<V>(gameLogs: seq<Record<V>>, formatDate: V -> Option<V>): Option<seq<Record<V>>>
    decreases |gameLogs|
  {
    if gameLogs == [] then Some([])
    else
      var n := |gameLogs| - 1;
      var front := RedateAll(gameLogs[..n], formatDate);
      var last := Redate(gameLogs[n], formatDate);
      if front.Some? && last.Some? then Some(front.value + [last.value]) else None
  }

  /** The date step succeeds exactly when every record's date can be formatted,
      and then it redates each record in place, keeping their order. */
  lemma {:induction false} RedateAllPointwise<V>(gameLogs: seq<Record<V>>, formatDate: V -> Option<V>)
    ensures RedateAll(gameLogs, formatDate).Some? <==>
            forall k :: 0 <= k < |gameLogs| ==> Redate(gameLogs[k], formatDate).Some?
    ensures RedateAll(gameLogs, formatDate).Some? ==>
            var out := RedateAll(gameLogs, formatDate).value;
            && |out| == |gameLogs|
            && forall k :: 0 <= k < |gameLogs| ==> out[k] == Redate(gameLogs[k], formatDate).value
    decreases |gameLogs|
  {
    if gameLogs != [] {
      var n := |gameLogs| - 1;
      var front := gameLogs[..n];
      RedateAllPointwise(front, formatDate);
      assert forall k :: 0 <= k < n ==> front[k] == gameLogs[k];
    }
  }

  // ---------------------------------------------------------------------------
  // getPlayerGameLogs after the request

  /** What `getPlayerGameLogs` returns for an answer with these headers and
      rows: the redated records, or `[]` (the `catch`) when a date throws. */
  function GameLogsOf<V>(headers: seq<string>, rows: seq<seq<V>>, formatDate: V -> Option<V>): seq<Record<V>> {
    var gameLogs := seq(|rows|, k requires 0 <= k < |rows| => RowRecord(headers, rows[k]));
    var redated := RedateAll(gameLogs, formatDate);
    if redated.Some? then redated.value else []
  }

  /** `gameLogs.map(log => ({...log, GAME_DATE: …}))` as a loop over the
      records; `None` when a date throws. */
  method RedateLogs<V>(gameLogs: seq<Record<V>>, formatDate: V -> Option<V>)
    returns (redated: Option<seq<Record<V>>>)
    ensures redated == RedateAll(gameLogs, formatDate)
  {
    var logs := [];
    var k := 0;
    while k < |gameLogs|
      invariant 0 <= k <= |gameLogs|
      invariant RedateAll(gameLogs[..k], formatDate) == Some(logs)
    {
      assert gameLogs[..k + 1][..k] == gameLogs[..k];
      var log := gameLogs[k];
      var date := FormatDate(Field(log, GAME_DATE), formatDate);
      if date.None? {
        RedateAllPointwise(gameLogs, formatDate);
        assert Redate(gameLogs[k], formatDate).None?;
        return None;
      }
      logs := logs + [log[GAME_DATE := date]];
      k := k + 1;
    }
    assert gameLogs[..k] == gameLogs;
    return Some(logs);
  }

  /** Lines 114-127 of `getPlayerGameLogs`: zip, then redate every record; a
      date that cannot be formatted sends control to the `catch`, which
      answers `[]`. */
  method GetPlayerGameLogs<V>(headers: seq<string>, rows: seq<seq<V>>, formatDate: V -> Option<V>)
    returns (logs: seq<Record<V>>)
    ensures logs == GameLogsOf(headers, rows, formatDate)
  {
    var gameLogs := ZipRows(headers, rows);
    assert gameLogs == seq(|rows|, k requires 0 <= k < |rows| => RowRecord(headers, rows[k]));
    var redated := RedateLogs(gameLogs, formatDate);
    if redated.None? {
      return [];
    }
    return redated.value;
  }

  /** When every date can be formatted: one record per row, in row order, whose
      properties are exactly the headers (`GAME_DATE` among them); every
      property other than `GAME_DATE` holds the cell under the last occurrence
      of its header, and `GAME_DATE` holds the formatted date. */
  lemma GameLogsShape<V>(headers: seq<string>, rows: seq<seq<V>>, formatDate: V -> Option<V>)
    requires forall k :: 0 <= k < |rows| ==> FormatDate(Field(RowRecord(headers, rows[k]), GAME_DATE), formatDate).Some?
    ensures var logs := GameLogsOf(headers, rows, formatDate);
      && |logs| == |rows|
      && forall k :: 0 <= k < |rows| ==>
           && logs[k].Keys == (set h | h in headers)
           && logs[k][GAME_DATE] == FormatDate(Field(RowRecord(headers, rows[k]), GAME_DATE), formatDate)
           && forall key :: key in headers && key != GAME_DATE ==>
                logs[k][key] == Cell(rows[k], LastIndexOf(headers, key))
  {
    var gameLogs := seq(|rows|, k requires 0 <= k < |rows| => RowRecord(headers, rows[k]));
    RedateAllPointwise(gameLogs, formatDate);
    var logs := GameLogsOf(headers, rows, formatDate);
    forall k | 0 <= k < |rows|
      ensures logs[k].Keys == (set h | h in headers)
      ensures logs[k][GAME_DATE] == FormatDate(Field(RowRecord(headers, rows[k]), GAME_DATE), formatDate)
      ensures forall key :: key in headers && key != GAME_DATE ==>
                logs[k][key] == Cell(rows[k], LastIndexOf(headers, key))
    {
      RedateOnlyGameDate(gameLogs[k], formatDate);
      forall key | key in headers && key != GAME_DATE
        ensures logs[k][key] == Cell(rows[k], LastIndexOf(headers, key))
      {
        RowRecordAt(headers, rows[k], key);
      }
    }
  }

  /** A single row whose date cannot be formatted empties the whole answer. */
  lemma GameLogsInvalidDate<V>(headers: seq<string>, rows: seq<seq<V>>, formatDate: V -> Option<V>, k: nat)
    requires k < |rows| && FormatDate(Field(RowRecord(headers, rows[k]), GAME_DATE), formatDate).None?
    ensures GameLogsOf(headers, rows, formatDate) == []
  {
    var gameLogs := seq(|rows|, k requires 0 <= k < |rows| => RowRecord(headers, rows[k]));
    RedateAllPointwise(gameLogs, formatDate);
    assert Redate(gameLogs[k], formatDate).None?;
  }

  /** Without a `GAME_DATE` header every record's date is `undefined`, so any
      answer with at least one row throws and yields `[]`. */
  lemma GameLogsMissingDate<V>(headers: seq<string>, rows: seq<seq<V>>, formatDate: V -> Option<V>)
    requires GAME_DATE !in headers && rows != []
    ensures GameLogsOf(headers, rows, formatDate) == []
  {
    assert GAME_DATE !in RowRecord(headers, rows[0]);
    GameLogsInvalidDate(headers, rows, formatDate, 0);
  }

  /** A row too short to reach the last `GAME_DATE` column leaves that record's
      date `undefined`, which empties the whole answer. */
  lemma GameLogsShortRow<V>(headers: seq<string>, rows: seq<seq<V>>, formatDate: V -> Option<V>, k: nat)
    requires GAME_DATE in headers && k < |rows|
    requires |rows[k]| <= LastIndexOf(headers, GAME_DATE)
    ensures GameLogsOf(headers, rows, formatDate) == []
  {
    RowRecordAt(headers, rows[k], GAME_DATE);
    GameLogsInvalidDate(headers, rows, formatDate, k);
  }
}
