/**
 * The `events` table kept by `EventLoggerDatabase`, modelled abstractly:
 * the rows in insertion order plus the AUTOINCREMENT counter (the largest
 * id ever handed out since the table was created).
 */
module EventLog {
  import opened Wrappers
  import opened Strings

  /** One stored row, as `getAllEvents` reads it back (`EventEntry`). */
  datatype EventEntry = EventEntry(
    id: int,
    timestamp: int,
    eventType: string,
    packageName: Option<string>,
    className: Option<string>,
    text: Option<string>,
    contentDescription: Option<string>)

  /**
   * The fields `insertEvent` reads from an accessibility event: its event
   * time, its type already rendered as a string, the optional source
   * package and class, the list of text fragments and the optional
   * content description.
   */
  datatype CapturedEvent = CapturedEvent(
    eventTime: int,
    eventType: string,
    packageName: Option<string>,
    className: Option<string>,
    text: seq<string>,
    contentDescription: Option<string>)

  /** The default separator of Kotlin's `joinToString()`. */
  const TextSeparator := ", "

  /**
   * The row `insertEvent` stores for `e` when the table assigns it `id`.
   * Absent optional fields stay absent and present ones are kept verbatim
   * (never replaced by ""); the text column is always present, empty for no
   * fragments and the fragment itself for exactly one.
   */
  function EntryOf(e: CapturedEvent, id: int): (r: EventEntry)
    ensures r.id == id && r.timestamp == e.eventTime && r.eventType == e.eventType
    ensures r.packageName == e.packageName
    ensures r.className == e.className
    ensures r.contentDescription == e.contentDescription
    ensures r.text.Some?
    ensures e.text == [] ==> r.text == Some("")
    ensures |e.text| == 1 ==> r.text == Some(e.text[0])
  {
    EventEntry(id, e.eventTime, e.eventType, e.packageName, e.className,
               Some(Join(e.text, TextSeparator)), e.contentDescription)
  }

  /**
   * Adding one more fragment to an event with fragments extends the stored
   * text by ", " and that fragment.
   */
  lemma EntryTextSnoc(e: CapturedEvent, fragment: string, id: int)
    requires |e.text| > 0
    ensures EntryOf(e.(text := e.text + [fragment]), id).text.value
         == EntryOf(e, id).text.value + ", " + fragment
  {
    JoinSnoc(e.text, fragment, TextSeparator);
  }

  // ---------------------------------------------------------------------
  // The table as a value

  /** The rows in insertion order and the AUTOINCREMENT high-water mark. */
  datatype Table = Table(rows: seq<EventEntry>, lastId: nat)

  /** A freshly created table: no rows, and no id handed out yet. */
  const EmptyTable := Table([], 0)

  /**
   * The invariant AUTOINCREMENT keeps: ids are positive, no larger than the
   * counter, and strictly increasing in insertion order.
   */
  predicate WellFormed(t: Table)
  {
    && (forall i :: 0 <= i < |t.rows| ==> 1 <= t.rows[i].id <= t.lastId)
    && (forall i, j :: 0 <= i < j < |t.rows| ==> t.rows[i].id < t.rows[j].id)
  }

  /** The table after `insertEvent(e)`: one more row, with the next id. */
  function Inserted(t: Table, e: CapturedEvent): (r: Table)
    ensures |r.rows| == |t.rows| + 1 && r.rows[..|t.rows|] == t.rows
    ensures r.rows[|t.rows|] == EntryOf(e, r.lastId)
    ensures r.lastId > t.lastId
    ensures WellFormed(t) ==> WellFormed(r)
  {
    Table(t.rows + [EntryOf(e, t.lastId + 1)], t.lastId + 1)
  }

  /**
   * The table after `clearEvents()`: every row deleted, the counter kept,
   * so the next insert still gets an id above every id issued before.
   */
  function Cleared(t: Table): (r: Table)
    ensures r.rows == [] && r.lastId == t.lastId
    ensures WellFormed(r)
    ensures forall e :: Inserted(r, e).rows[0].id > t.lastId
  {
    Table([], t.lastId)
  }

  /** Clearing empties the table, keeps it well formed, and clearing twice is clearing once. */
  lemma ClearedIsEmptyAndIdempotent(t: Table)
    ensures Cleared(t).rows == [] && WellFormed(Cleared(t))
    ensures Cleared(t).lastId == t.lastId
    ensures Cleared(Cleared(t)) == Cleared(t)
  {
  }

  /** The two operations that change the table. */
  datatype StoreOp = Insert(event: CapturedEvent) | Clear

  /** The table after performing `ops` in order. */
  function Replay(t: Table, ops: seq<StoreOp>): Table
    decreases |ops|
  {
    if |ops| == 0 then t
    else
      var next := match ops[0]
        case Insert(e) => Inserted(t, e)
        case Clear => Cleared(t);
      Replay(next, ops[1..])
  }

  /** The ids the inserts among `ops` are given, in order. */
  function IssuedIds(t: Table, ops: seq<StoreOp>): seq<int>
    decreases |ops|
  {
    if |ops| == 0 then []
    else match ops[0]
      case Insert(e) => [t.lastId + 1] + IssuedIds(Inserted(t, e), ops[1..])
      case Clear => IssuedIds(Cleared(t), ops[1..])
  }

  /**
   * Ids are never reused, clears notwithstanding: along any run of inserts
   * and clears the ids handed out are strictly increasing, all larger than
   * every id issued before the run (the counter), at most the final
   * counter, and the table stays well formed.
   */
  lemma {:induction false} IdsNeverReused(t: Table, ops: seq<StoreOp>)
    requires WellFormed(t)
    ensures WellFormed(Replay(t, ops))
    ensures Replay(t, ops).lastId >= t.lastId
    ensures forall i :: 0 <= i < |IssuedIds(t, ops)| ==>
              t.lastId < IssuedIds(t, ops)[i] <= Replay(t, ops).lastId
    ensures forall i, j :: 0 <= i < j < |IssuedIds(t, ops)| ==>
              IssuedIds(t, ops)[i] < IssuedIds(t, ops)[j]
    decreases |ops|
  {
    if |ops| > 0 {
      match ops[0]
      case Insert(e) =>
        var next := Inserted(t, e);
        IdsNeverReused(next, ops[1..]);
        assert IssuedIds(t, ops) == [t.lastId + 1] + IssuedIds(next, ops[1..]);
        assert Replay(t, ops) == Replay(next, ops[1..]);
      case Clear =>
        IdsNeverReused(Cleared(t), ops[1..]);
        assert IssuedIds(t, ops) == IssuedIds(Cleared(t), ops[1..]);
        assert Replay(t, ops) == Replay(Cleared(t), ops[1..]);
    }
  }

  // ---------------------------------------------------------------------
  // Reading the table back: `ORDER BY timestamp DESC`

  /** Most recent first: timestamps never increase along `s`. */
  predicate ByRecency(s: seq<EventEntry>)
  {
    forall i, j :: 0 <= i < j < |s| ==> s[i].timestamp >= s[j].timestamp
  }

  /**
   * A correct answer to `getAllEvents()` on `rows`: the very same rows,
   * each as often as stored, most recent first. Rows with equal timestamps
   * may come in any order.
   */
  predicate IsFetchOf(fetched: seq<EventEntry>, rows: seq<EventEntry>)
  {
    ByRecency(fetched) && multiset(fetched) == multiset(rows)
  }

  /** Places `x` in a most-recent-first list ahead of the first row not newer than it. */
  function InsertByRecency(s: seq<EventEntry>, x: EventEntry): (r: seq<EventEntry>)
    ensures multiset(r) == multiset(s) + multiset{x}
  {
    if |s| == 0 || x.timestamp >= s[0].timestamp then [x] + s
    else
      assert s == [s[0]] + s[1..];
      [s[0]] + InsertByRecency(s[1..], x)
  }

  /** Inserting by recency keeps a most-recent-first list most recent first. */
  lemma {:induction false} InsertByRecencyKeepsOrder(s: seq<EventEntry>, x: EventEntry)
    requires ByRecency(s)
    ensures ByRecency(InsertByRecency(s, x))
  {
    if |s| > 0 && x.timestamp < s[0].timestamp {
      var tail := InsertByRecency(s[1..], x);
      InsertByRecencyKeepsOrder(s[1..], x);
      forall k | 0 <= k < |tail| ensures s[0].timestamp >= tail[k].timestamp {
        assert tail[k] in multiset(tail);
        if tail[k] != x {
          assert tail[k] in multiset(s[1..]);
          var m :| 0 <= m < |s[1..]| && s[1..][m] == tail[k];
          assert s[m + 1] == tail[k];
        }
      }
    }
  }

  /** The sequence in reverse order. */
  function Reversed(s: seq<EventEntry>): (r: seq<EventEntry>)
    ensures |r| == |s|
    ensures forall i :: 0 <= i < |s| ==> r[i] == s[|s| - 1 - i]
  {
    if |s| == 0 then [] else [s[|s| - 1]] + Reversed(s[..|s| - 1])
  }

  /** Timestamps strictly increase in insertion order (the host clock never stepped back). */
  predicate ChronologicalLog(rows: seq<EventEntry>)
  {
    forall i, j :: 0 <= i < j < |rows| ==> rows[i].timestamp < rows[j].timestamp
  }

  /** A correct fetch has as many rows as the table. */
  lemma FetchLength(fetched: seq<EventEntry>, rows: seq<EventEntry>)
    requires IsFetchOf(fetched, rows)
    ensures |fetched| == |rows|
  {
    assert |multiset(fetched)| == |multiset(rows)|;
  }

  /** On a chronological log, a correct fetch starts with the row inserted last. */
  lemma FetchStartsWithNewest(rows: seq<EventEntry>, fetched: seq<EventEntry>)
    requires ChronologicalLog(rows) && |rows| > 0
    requires IsFetchOf(fetched, rows)
    ensures |fetched| == |rows| && fetched[0] == rows[|rows| - 1]
  {
    FetchLength(fetched, rows);
    var n := |rows| - 1;
    assert fetched[0] in multiset(rows);
    var m :| 0 <= m < |rows| && rows[m] == fetched[0];
    assert rows[n] in multiset(fetched);
    var k :| 0 <= k < |fetched| && fetched[k] == rows[n];
    assert fetched[0].timestamp >= rows[n].timestamp;
  }

  /** Dropping the newest row from both sides leaves a correct fetch of the older rows. */
  lemma FetchWithoutNewest(rows: seq<EventEntry>, fetched: seq<EventEntry>)
    requires |rows| > 0 && |fetched| > 0 && fetched[0] == rows[|rows| - 1]
    requires IsFetchOf(fetched, rows)
    ensures IsFetchOf(fetched[1..], rows[..|rows| - 1])
  {
    var n := |rows| - 1;
    assert fetched == [rows[n]] + fetched[1..];
    assert rows == rows[..n] + [rows[n]];
    assert multiset(fetched) == multiset{rows[n]} + multiset(fetched[1..]);
    assert multiset(rows) == multiset(rows[..n]) + multiset{rows[n]};
    assert multiset(fetched[1..]) == multiset(fetched) - multiset{rows[n]};
    assert multiset(rows[..n]) == multiset(rows) - multiset{rows[n]};
  }

  /**
   * When the clock only moves forward the answer to `getAllEvents()` is
   * unique: the rows newest first, i.e. in reverse insertion order.
   */
  lemma {:induction false} FetchOfChronologicalLog(rows: seq<EventEntry>, fetched: seq<EventEntry>)
    requires ChronologicalLog(rows)
    requires IsFetchOf(fetched, rows)
    ensures fetched == Reversed(rows)
  {
    if |rows| == 0 {
      FetchLength(fetched, rows);
    } else {
      var n := |rows| - 1;
      FetchStartsWithNewest(rows, fetched);
      FetchWithoutNewest(rows, fetched);
      FetchOfChronologicalLog(rows[..n], fetched[1..]);
      assert fetched == [rows[n]] + fetched[1..];
    }
  }

  // ---------------------------------------------------------------------
  // The store itself

  /** `EventLoggerDatabase`: the `events` table updated in place. */
  class EventLoggerDatabase {
    var rows: seq<EventEntry>
    var lastId: nat

    /** The current contents as a value. */
    function Snapshot(): Table
      reads this
    {
      Table(rows, lastId)
    }

    ghost predicate Valid()
      reads this
    {
      WellFormed(Snapshot())
    }

    /**
     * Opens the database file: an existing file keeps its table; a missing
     * one is created by `onCreate` with an empty table.
     */
    constructor (persisted: Option<Table>)
      requires persisted.Some? ==> WellFormed(persisted.value)
      ensures Valid()
      ensures Snapshot() == if persisted.Some? then persisted.value else EmptyTable
    {
      if persisted.Some? {
        rows, lastId := persisted.value.rows, persisted.value.lastId;
      } else {
        rows, lastId := [], 0;
      }
    }

    /**
     * `onUpgrade`: drops the table and creates it again. Dropping an
     * AUTOINCREMENT table also drops its counter, so ids start over.
     */
    method OnUpgrade(oldVersion: int, newVersion: int)
      modifies this
      ensures Valid() && Snapshot() == EmptyTable
    {
      rows := [];
      lastId := 0;
    }

    /** `insertEvent`: stores one row for `e` with a never-used id; earlier rows are untouched. */
    method InsertEvent(e: CapturedEvent)
      requires Valid()
      modifies this
      ensures Valid() && Snapshot() == Inserted(old(Snapshot()), e)
      ensures |rows| == |old(rows)| + 1 && rows[..|old(rows)|] == old(rows)
      ensures rows[|rows| - 1].id > old(lastId)
      ensures forall r :: r in old(rows) ==> r.id < rows[|rows| - 1].id
    {
      lastId := lastId + 1;
      rows := rows + [EntryOf(e, lastId)];
    }

    /** `clearEvents`: deletes every row; the id counter is not reset. */
    method ClearEvents()
      requires Valid()
      modifies this
      ensures Valid() && Snapshot() == Cleared(old(Snapshot()))
      ensures rows == [] && lastId == old(lastId)
    {
      rows := [];
    }

    /**
     * `getAllEvents`: every stored row exactly once, most recent first.
     * The ordering the query asks of the database engine and the cursor
     * loop that collects its answer are taken together: each row read is
     * placed into the list by its timestamp.
     */
    method GetAllEvents() returns (events: seq<EventEntry>)
      ensures IsFetchOf(events, rows)
      ensures rows == [] ==> events == []
    {
      events := [];
      var i := 0;
      while i < |rows|
        invariant 0 <= i <= |rows|
        invariant ByRecency(events)
        invariant multiset(events) == multiset(rows[..i])
      {
        assert rows[..i + 1] == rows[..i] + [rows[i]];
        InsertByRecencyKeepsOrder(events, rows[i]);
        events := InsertByRecency(events, rows[i]);
        i := i + 1;
      }
      assert rows[..i] == rows;
    }
  }

  /**
   * What an insert stores is read back: after `insertEvent(e)` every
   * correct fetch holds the row built from `e` with its new id, with the
   * optional fields as they were given.
   */
  lemma InsertedEventIsFetched(t: Table, e: CapturedEvent, fetched: seq<EventEntry>)
    requires IsFetchOf(fetched, Inserted(t, e).rows)
    ensures EntryOf(e, t.lastId + 1) in fetched
    ensures |fetched| == |t.rows| + 1
  {
    var r := Inserted(t, e);
    assert r.rows[|t.rows|] in multiset(r.rows);
    assert |multiset(fetched)| == |multiset(r.rows)|;
  }

  /** After a clear, the only correct fetch is the empty list. */
  lemma FetchAfterClearIsEmpty(t: Table, fetched: seq<EventEntry>)
    requires IsFetchOf(fetched, Cleared(t).rows)
    ensures fetched == []
  {
    assert |multiset(fetched)| == 0;
  }
}
