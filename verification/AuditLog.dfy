/** Keyset pagination of the audit log (`audit_service.py`). */
module AuditLog {

  datatype Event = Event(id: nat, action: string)

  type Log = seq<Event>

  /** `AUTOINCREMENT` ids: positive and strictly increasing. */
  ghost predicate Valid(log: Log) {
    && (forall i :: 0 <= i < |log| ==> log[i].id >= 1)
    && (forall i, j :: 0 <= i < j < |log| ==> log[i].id < log[j].id)
  }

  /** Cursor 0 and filter "" mean that the condition is absent. */
  predicate Selected(e: Event, cursor: int, filter: string) {
    (cursor == 0 || e.id < cursor) && (filter == "" || e.action == filter)
  }

  /** `WHERE ... ORDER BY id DESC`. */
  function Query(log: Log, cursor: int, filter: string): seq<Event> {
    if log == [] then []
    else
      var last, older := log[|log| - 1], Query(log[..|log| - 1], cursor, filter);
      if Selected(last, cursor, filter) then [last] + older else older
  }

  datatype Page = Page(events: seq<Event>, cursor: int, hasMore: bool)

  /** One page: fetch one row more than asked for, keep `limit`, and point at the last row kept. */
  method GetAuditLog(log: Log, limit: nat, cursor: int, filter: string) returns (p: Page)
    requires limit >= 1
    ensures var rows := Query(log, cursor, filter);
            && p.hasMore == (|rows| > limit)
            && p.events == (if |rows| > limit then rows[..limit] else rows)
            && p.cursor == (if |rows| > limit then rows[limit - 1].id else 0)
  {
    var all := Query(log, cursor, filter);
    var rows := if |all| > limit + 1 then all[..limit + 1] else all;
    var hasMore := |rows| > limit;
    if hasMore {
      rows := rows[..limit];
    }
    p := Page(rows, if hasMore then rows[|rows| - 1].id else 0, hasMore);
  }

  lemma ValidInit(log: Log)
    requires Valid(log) && log != []
    ensures Valid(log[..|log| - 1])
    ensures forall e :: e in log[..|log| - 1] ==> e.id < log[|log| - 1].id
  {
  }

  lemma {:induction false} QueryMembers(log: Log, cursor: int, filter: string)
    ensures forall e :: e in Query(log, cursor, filter) <==>
      e in log && (cursor == 0 || e.id < cursor) && (filter == "" || e.action == filter)
  {
    if log == [] {
    } else {
      QueryMembers(log[..|log| - 1], cursor, filter);
      assert log == log[..|log| - 1] + [log[|log| - 1]];
    }
  }

  /** The result is newest first, each event once. */
  lemma {:induction false} QueryDescends(log: Log, cursor: int, filter: string)
    requires Valid(log)
    ensures forall i, j :: 0 <= i < j < |Query(log, cursor, filter)| ==>
      Query(log, cursor, filter)[i].id > Query(log, cursor, filter)[j].id
  {
    if log == [] {
    } else {
      ValidInit(log);
      QueryDescends(log[..|log| - 1], cursor, filter);
      QueryMembers(log[..|log| - 1], cursor, filter);
      var rest := Query(log[..|log| - 1], cursor, filter);
      forall j | 0 <= j < |rest| ensures rest[j].id < log[|log| - 1].id {
        assert rest[j] in rest;
      }
    }
  }

  /** A cursor above every id of the log selects like no cursor at all. */
  lemma {:induction false} QueryAbove(log: Log, a: int, b: int, filter: string)
    requires forall e :: e in log ==> (Selected(e, a, filter) <==> Selected(e, b, filter))
    ensures Query(log, a, filter) == Query(log, b, filter)
  {
    if log == [] {
    } else {
      QueryAbove(log[..|log| - 1], a, b, filter);
    }
  }

  lemma RowInLog(log: Log, cursor: int, filter: string, k: nat)
    requires k < |Query(log, cursor, filter)|
    ensures Query(log, cursor, filter)[k] in log
  {
    QueryMembers(log, cursor, filter);
    assert Query(log, cursor, filter)[k] in Query(log, cursor, filter);
  }

  /** The newest event does not appear under a cursor at or below it. */
  lemma NewestHidden(log: Log, cursor: int, filter: string)
    requires log != [] && cursor != 0 && log[|log| - 1].id >= cursor
    ensures Query(log, cursor, filter) == Query(log[..|log| - 1], cursor, filter)
  {
  }

  /** A cursor at the newest event selects from the older ones like any cursor above it. */
  lemma CursorAtNewest(log: Log, cursor: int, filter: string)
    requires Valid(log) && log != [] && Selected(log[|log| - 1], cursor, filter)
    ensures Query(log, log[|log| - 1].id, filter) == Query(log[..|log| - 1], cursor, filter)
  {
    var id, init := log[|log| - 1].id, log[..|log| - 1];
    ValidInit(log);
    NewestHidden(log, id, filter);
    QueryAbove(init, id, cursor, filter);
  }

  /** A row of the older events hides the newest one. */
  lemma RowHidesNewest(log: Log, cursor: int, filter: string, k: nat)
    requires Valid(log) && log != [] && k < |Query(log[..|log| - 1], cursor, filter)|
    ensures var id := Query(log[..|log| - 1], cursor, filter)[k].id;
            Query(log, id, filter) == Query(log[..|log| - 1], id, filter)
  {
    ValidInit(log);
    RowInLog(log[..|log| - 1], cursor, filter, k);
    NewestHidden(log, Query(log[..|log| - 1], cursor, filter)[k].id, filter);
  }

  lemma Shift(e: Event, rest: seq<Event>, k: nat)
    requires k <= |rest|
    ensures ([e] + rest)[k + 1..] == rest[k..] && (k > 0 ==> ([e] + rest)[k] == rest[k - 1])
  {
  }

  /** Moving the cursor to this row leaves exactly the rows after it. */
  ghost predicate Leaves(log: Log, cursor: int, filter: string, k: nat)
    requires k < |Query(log, cursor, filter)|
  {
    Query(log, Query(log, cursor, filter)[k].id, filter) == Query(log, cursor, filter)[k + 1..]
  }

  lemma LeavesAtNewest(log: Log, cursor: int, filter: string)
    requires Valid(log) && log != [] && Selected(log[|log| - 1], cursor, filter)
    ensures Query(log, cursor, filter) != [] && Leaves(log, cursor, filter, 0)
  {
    CursorAtNewest(log, cursor, filter);
    Shift(log[|log| - 1], Query(log[..|log| - 1], cursor, filter), 0);
  }

  lemma LeavesBelowNewest(log: Log, cursor: int, filter: string, k: nat)
    requires Valid(log) && log != [] && Selected(log[|log| - 1], cursor, filter)
    requires k < |Query(log[..|log| - 1], cursor, filter)| && Leaves(log[..|log| - 1], cursor, filter, k)
    ensures k + 1 < |Query(log, cursor, filter)| && Leaves(log, cursor, filter, k + 1)
  {
    RowHidesNewest(log, cursor, filter, k);
    Shift(log[|log| - 1], Query(log[..|log| - 1], cursor, filter), k + 1);
  }

  lemma LeavesWithoutNewest(log: Log, cursor: int, filter: string, k: nat)
    requires Valid(log) && log != [] && !Selected(log[|log| - 1], cursor, filter)
    requires k < |Query(log[..|log| - 1], cursor, filter)| && Leaves(log[..|log| - 1], cursor, filter, k)
    ensures k < |Query(log, cursor, filter)| && Leaves(log, cursor, filter, k)
  {
    RowHidesNewest(log, cursor, filter, k);
  }

  lemma {:induction false} QueryAfter(log: Log, cursor: int, filter: string, k: nat)
    requires Valid(log) && k < |Query(log, cursor, filter)|
    ensures Leaves(log, cursor, filter, k)
  {
    var init := log[..|log| - 1];
    ValidInit(log);
    if !Selected(log[|log| - 1], cursor, filter) {
      QueryAfter(init, cursor, filter, k);
      LeavesWithoutNewest(log, cursor, filter, k);
    } else if k == 0 {
      LeavesAtNewest(log, cursor, filter);
    } else {
      QueryAfter(init, cursor, filter, k - 1);
      LeavesBelowNewest(log, cursor, filter, k - 1);
    }
  }

  /** Events appended later carry larger ids, so a page under a cursor does not see them. */
  lemma {:induction false} AppendsInvisible(log: Log, grown: Log, cursor: int, filter: string)
    requires Valid(grown) && log <= grown && cursor != 0 && exists e :: e in log && e.id == cursor
    ensures Query(grown, cursor, filter) == Query(log, cursor, filter)
    decreases |grown|
  {
    if |grown| > |log| {
      var last, init := grown[|grown| - 1], grown[..|grown| - 1];
      ValidInit(grown);
      var e :| e in log && e.id == cursor;
      assert e in init;
      AppendsInvisible(log, init, cursor, filter);
    } else {
      assert grown == log;
    }
  }

  /** `logs(k)` is the log at the k-th page read: it only ever grows. */
  ghost predicate Growing(logs: nat -> Log) {
    (forall k :: Valid(logs(k))) && (forall k :: logs(0) <= logs(k))
  }

  /** A cursor that some page of this log handed out, or none yet. */
  ghost predicate Issued(log: Log, cursor: int) {
    cursor != 0 && exists e :: e in log && e.id == cursor
  }

  lemma Regroup(before: seq<Event>, rows: seq<Event>, limit: nat)
    requires limit <= |rows|
    ensures before + rows == (before + rows[..limit]) + rows[limit..]
  {
  }

  /** What one page takes and what it leaves to fetch. */
  lemma PageStep(log: Log, cursor: int, filter: string, limit: nat, before: seq<Event>, p: Page)
    requires Valid(log) && limit >= 1
    requires var rows := Query(log, cursor, filter);
             && p.hasMore == (|rows| > limit)
             && p.events == (if |rows| > limit then rows[..limit] else rows)
             && p.cursor == (if |rows| > limit then rows[limit - 1].id else 0)
    ensures p.hasMore ==> Issued(log, p.cursor) && |Query(log, p.cursor, filter)| < |Query(log, cursor, filter)|
    ensures before + Query(log, cursor, filter) ==
            (before + p.events) + (if p.hasMore then Query(log, p.cursor, filter) else [])
  {
    var rows := Query(log, cursor, filter);
    if p.hasMore {
      QueryAfter(log, cursor, filter, limit - 1);
      RowInLog(log, cursor, filter, limit - 1);
      Regroup(before, rows, limit);
      assert Query(log, p.cursor, filter) == rows[limit..];
    } else {
      assert (before + rows) + [] == before + rows;
    }
  }

  /** The events with the wanted action, newest first, each once. */
  ghost predicate NewestMatching(log: Log, filter: string, events: seq<Event>) {
    && (forall e :: e in events <==> e in log && (filter == "" || e.action == filter))
    && (forall i, j :: 0 <= i < j < |events| ==> events[i].id > events[j].id)
  }

  lemma MatchesQuery(log: Log, filter: string)
    requires Valid(log)
    ensures NewestMatching(log, filter, Query(log, 0, filter))
  {
    QueryMembers(log, 0, filter);
    QueryDescends(log, 0, filter);
  }

  /** Following the cursors to the end yields exactly the matching events of the first read, newest first. */
  method FollowAll(logs: nat -> Log, limit: nat, filter: string) returns (events: seq<Event>)
    requires limit >= 1 && Growing(logs)
    ensures events == Query(logs(0), 0, filter)
    ensures NewestMatching(logs(0), filter, events)
  {
    events := [];
    var more, cursor, turn: nat := true, 0, 0;
    ghost var left := Query(logs(0), 0, filter);
    ghost var wanted := left;
    while more
      invariant events + left == wanted
      invariant more ==>
        left == Query(logs(0), cursor, filter) && (if turn == 0 then cursor == 0 else Issued(logs(0), cursor))
      invariant !more ==> left == []
      decreases more, |left|
    {
      if turn > 0 {
        AppendsInvisible(logs(0), logs(turn), cursor, filter);
      }
      var p := GetAuditLog(logs(turn), limit, cursor, filter);
      PageStep(logs(0), cursor, filter, limit, events, p);
      events := events + p.events;
      left := if p.hasMore then Query(logs(0), p.cursor, filter) else [];
      more, cursor, turn := p.hasMore, p.cursor, turn + 1;
    }
    MatchesQuery(logs(0), filter);
  }
}
