/** The packet log (firewall/fw_log.c): a list of rows, newest first, in
    which packets that differ only in time are merged into one row with a hit
    count. The file as published does not compile (a missing ';' and '{', a
    misspelt sizeof, `.` for `->`); this is the evident intent. */
module FwLog {
  import opened LibC
  import opened FwTypes

  /** log_row_t, without its list links. */
  datatype Row = Row(
    timestamp: nat,        // seconds, at creation or last update
    protocol: u8,
    action: u8,            // NF_ACCEPT or NF_DROP
    hooknum: u8,
    srcIp: u32,
    dstIp: u32,
    srcPort: u16,
    dstPort: u16,
    reason: Reason,
    count: u32)            // hits merged into this row

  /** compare_rows: two rows can be merged exactly when they are equal once
      their time and hit count are disregarded. */
  function CompareRows(first: Row, second: Row): (r: bool)
    ensures r <==> first.(timestamp := 0, count := 0) == second.(timestamp := 0, count := 0)
  {
    first.protocol == second.protocol &&
    first.action == second.action &&
    first.hooknum == second.hooknum &&
    first.srcIp == second.srcIp &&
    first.srcPort == second.srcPort &&
    first.dstIp == second.dstIp &&
    first.dstPort == second.dstPort &&
    first.reason == second.reason
  }

  /** No two rows of the log can be merged. */
  ghost predicate Distinct(rows: seq<Row>)
  {
    forall i, j :: 0 <= i < j < |rows| ==> !CompareRows(rows[i], rows[j])
  }

  /** The position of the first row similar to `row`, if any. */
  function FirstSimilar(rows: seq<Row>, row: Row): (r: Option<nat>)
    ensures r.Some? ==> r.value < |rows| && CompareRows(rows[r.value], row)
    ensures r.Some? ==> forall j :: 0 <= j < r.value ==> !CompareRows(rows[j], row)
    ensures r.None? ==> forall j :: 0 <= j < |rows| ==> !CompareRows(rows[j], row)
  {
    if |rows| == 0 then None
    else if CompareRows(rows[0], row) then Some(0)
    else match FirstSimilar(rows[1..], row)
      case None => None
      case Some(k) => Some(k + 1)
  }

  /** The log after log_row: a similar row takes the new time and one more
      hit; otherwise the row goes in at the head with one hit. */
  function Logged(rows: seq<Row>, row: Row): seq<Row>
  {
    match FirstSimilar(rows, row)
    case Some(i) => rows[i := rows[i].(timestamp := row.timestamp, count := Inc32(rows[i].count))]
    case None => [row.(count := 1)] + rows
  }

  /** Logging keeps the log free of mergeable rows. */
  lemma LoggedDistinct(rows: seq<Row>, row: Row)
    requires Distinct(rows)
    ensures Distinct(Logged(rows, row))
  {
    var r := Logged(rows, row);
    match FirstSimilar(rows, row)
    case Some(i) =>
      forall a, b | 0 <= a < b < |r|
        ensures !CompareRows(r[a], r[b])
      {
        assert CompareRows(r[a], rows[a]) && CompareRows(r[b], rows[b]);
        assert !CompareRows(rows[a], rows[b]);
      }
    case None =>
      forall a, b | 0 <= a < b < |r|
        ensures !CompareRows(r[a], r[b])
      {
        if a == 0 {
          assert r[b] == rows[b - 1];
        } else {
          assert r[a] == rows[a - 1] && r[b] == rows[b - 1];
        }
      }
  }

  /** After logging, the log holds exactly one row similar to the logged
      one, carrying its time; every row of another kind is kept as it was. */
  lemma {:induction false} LoggedFinds(rows: seq<Row>, row: Row)
    requires Distinct(rows)
    ensures exists i :: (0 <= i < |Logged(rows, row)| && CompareRows(Logged(rows, row)[i], row)
                         && Logged(rows, row)[i].timestamp == row.timestamp)
    ensures forall i, j :: 0 <= i < j < |Logged(rows, row)| ==>
      !(CompareRows(Logged(rows, row)[i], row) && CompareRows(Logged(rows, row)[j], row))
    ensures forall x :: x in rows && !CompareRows(x, row) ==> x in Logged(rows, row)
  {
    LoggedDistinct(rows, row);
    var r := Logged(rows, row);
    match FirstSimilar(rows, row)
    case Some(i) =>
      assert CompareRows(r[i], row) && r[i].timestamp == row.timestamp;
      forall x | x in rows && !CompareRows(x, row)
        ensures x in r
      {
        var k :| 0 <= k < |rows| && rows[k] == x;
        assert k != i;
        assert r[k] == x;
      }
    case None =>
      assert CompareRows(r[0], row) && r[0].timestamp == row.timestamp;
      forall x | x in rows && !CompareRows(x, row)
        ensures x in r
      {
        var k :| 0 <= k < |rows| && rows[k] == x;
        assert r[k + 1] == x;
      }
  }

  /** A row of a new kind lengthens the log by one; a row of a known kind
      leaves its length alone. */
  lemma LoggedLength(rows: seq<Row>, row: Row)
    ensures FirstSimilar(rows, row).None? ==> |Logged(rows, row)| == |rows| + 1
    ensures FirstSimilar(rows, row).Some? ==> |Logged(rows, row)| == |rows|
  {
  }

  class Log {
    var rows: seq<Row>   // log_list, head first
    var logSize: nat        // log_size

    /** No two rows can be merged, and log_size counts at least the rows
        present (it is not lowered when the log is cleared). */
    ghost predicate Valid()
      reads this
    {
      Distinct(rows) && |rows| <= logSize
    }

    constructor ()
      ensures Valid()
      ensures rows == [] && logSize == 0
    {
      rows := [];
      logSize := 0;
    }

    /** find_row: the first row, from the head, similar to `row`. */
    method FindRow(row: Row) returns (r: Option<nat>)
      ensures r == FirstSimilar(rows, row)
    {
      var k := 0;
      while k < |rows|
        invariant 0 <= k <= |rows|
        invariant forall j :: 0 <= j < k ==> !CompareRows(rows[j], row)
      {
        if CompareRows(rows[k], row) {
          FirstSimilarIsFirst(rows, row, k);
          return Some(k);
        }
        k := k + 1;
      }
      FirstSimilarNone(rows, row);
      return None;
    }

    /** log_row: merge the row into a similar one or insert it at the head. */
    method LogRow(row: Row)
      requires Valid()
      modifies this
      ensures Valid()
      ensures rows == Logged(old(rows), row)
      ensures FirstSimilar(old(rows), row).Some? ==> logSize == old(logSize)
      ensures FirstSimilar(old(rows), row).None? ==> logSize == old(logSize) + 1
    {
      LoggedDistinct(rows, row);
      var old_row := FindRow(row);
      if old_row.Some? {
        var i := old_row.value;
        rows := rows[i := rows[i].(timestamp := row.timestamp, count := Inc32(rows[i].count))];
      } else {
        logSize := logSize + 1;
        rows := [row.(count := 1)] + rows;
      }
    }

    /** add_row: a row with the given fields stamped with the current time
        `now` is logged; when the allocation fails (`allocOk` false) the log
        is left as it was and -ENOMEM returned. */
    method AddRow(protocol: u8, action: u8, hooknum: u8, srcIp: u32, dstIp: u32,
                  srcPort: u16, dstPort: u16, reason: Reason, now: nat, allocOk: bool)
      returns (r: int)
      requires Valid()
      modifies this
      ensures Valid()
      ensures !allocOk ==> r == -ENOMEM && rows == old(rows) && logSize == old(logSize)
      ensures allocOk ==> r == 0
      ensures allocOk ==>
        rows == Logged(old(rows), Row(now, protocol, action, hooknum, srcIp, dstIp, srcPort, dstPort, reason, 0))
    {
      if !allocOk {
        return -ENOMEM;
      }
      var row := Row(now, protocol, action, hooknum, srcIp, dstIp, srcPort, dstPort, reason, 0);
      LogRow(row);
      return 0;
    }

    /** clear_log: unlinks every row; log_size keeps its value. */
    method ClearLog()
      requires Valid()
      modifies this
      ensures Valid()
      ensures rows == [] && logSize == old(logSize)
    {
      while |rows| > 0
        invariant Valid() && logSize == old(logSize)
        decreases |rows|
      {
        rows := rows[1..];
      }
    }

    /** read_log: 0 when log_size is 0; otherwise the length of the text
        handed out, or -EFAULT when the copy fails. The text's format is not
        defined by the source, so it is a parameter. */
    method ReadLog(text: seq<char>, copyOk: bool) returns (r: int)
      requires Valid()
      ensures logSize == 0 ==> r == 0 && rows == []
      ensures logSize != 0 && !copyOk ==> r == -EFAULT
      ensures logSize != 0 && copyOk ==> r == |text|
    {
      if logSize == 0 {
        return 0;
      }
      if !copyOk {
        return -EFAULT;
      }
      return |text|;
    }
  }

  lemma {:induction false} FirstSimilarIsFirst(rows: seq<Row>, row: Row, k: nat)
    requires k < |rows| && CompareRows(rows[k], row)
    requires forall j :: 0 <= j < k ==> !CompareRows(rows[j], row)
    ensures FirstSimilar(rows, row) == Some(k)
  {
    if k > 0 {
      FirstSimilarIsFirst(rows[1..], row, k - 1);
    }
  }

  lemma {:induction false} FirstSimilarNone(rows: seq<Row>, row: Row)
    requires forall j :: 0 <= j < |rows| ==> !CompareRows(rows[j], row)
    ensures FirstSimilar(rows, row) == None
  {
    if |rows| > 0 {
      FirstSimilarNone(rows[1..], row);
    }
  }
}
