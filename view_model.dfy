/**
 * `MainViewModel`: the list of events the screen shows, the distinct event
 * types offered by the type filter, the current selection, and whether the
 * capture service is switched on in the system settings.
 */
module ViewModel {
  import opened Wrappers
  import opened Strings
  import opened Lists
  import opened EventLog

  /** At most this many events are shown (`take(50)`). */
  const PageSize: nat := 50

  // ---------------------------------------------------------------------
  // Derivations over one fetch

  /** `filter { it.eventType == type }`: the events of type `t`, in their order. */
  function OfType(events: seq<EventEntry>, t: string): (r: seq<EventEntry>)
    ensures |r| <= |events|
    ensures forall k :: 0 <= k < |r| ==> r[k].eventType == t && r[k] in events
    ensures forall i :: 0 <= i < |events| && events[i].eventType == t ==> events[i] in r
  {
    if |events| == 0 then []
    else
      var rest := OfType(events[1..], t);
      assert forall k :: 0 <= k < |rest| ==> rest[k] in events by {
        assert forall k :: 0 <= k < |rest| && rest[k] in events[1..] ==> rest[k] in events;
      }
      assert forall i :: 1 <= i < |events| ==> events[i] == events[1..][i - 1];
      if events[0].eventType == t then [events[0]] + rest else rest
  }

  /** Filtering a concatenation filters each part. */
  lemma {:induction false} OfTypeAppend(a: seq<EventEntry>, b: seq<EventEntry>, t: string)
    ensures OfType(a + b, t) == OfType(a, t) + OfType(b, t)
  {
    if |a| == 0 {
      assert a + b == b;
    } else {
      assert (a + b)[0] == a[0];
      assert (a + b)[1..] == a[1..] + b;
      OfTypeAppend(a[1..], b, t);
    }
  }

  /** Filtering out a type that does not occur leaves nothing. */
  lemma {:induction false} OfTypeAbsent(events: seq<EventEntry>, t: string)
    requires forall i :: 0 <= i < |events| ==> events[i].eventType != t
    ensures OfType(events, t) == []
  {
    if |events| > 0 {
      OfTypeAbsent(events[1..], t);
    }
  }

  /** Filtering keeps the relative order, so a most-recent-first list stays so. */
  lemma {:induction false} OfTypeKeepsOrder(events: seq<EventEntry>, t: string)
    requires ByRecency(events)
    ensures ByRecency(OfType(events, t))
  {
    if |events| > 0 {
      var tail := events[1..];
      OfTypeKeepsOrder(tail, t);
      var rest := OfType(tail, t);
      forall k | 0 <= k < |rest| ensures events[0].timestamp >= rest[k].timestamp {
        var m :| 0 <= m < |tail| && tail[m] == rest[k];
        assert events[m + 1] == rest[k];
      }
    }
  }

  /**
   * `selected?.let { filter } ?: allEvents`: the fetched events that pass the
   * optional type filter, and every one of them (all events when no type is
   * selected).
   */
  function Matching(all: seq<EventEntry>, selected: Option<string>): (r: seq<EventEntry>)
    ensures forall k :: 0 <= k < |r| ==> r[k] in all
    ensures selected.Some? ==> forall k :: 0 <= k < |r| ==> r[k].eventType == selected.value
    ensures forall i :: 0 <= i < |all| && (selected.None? || all[i].eventType == selected.value) ==> all[i] in r
  {
    match selected
    case None => all
    case Some(t) => OfType(all, t)
  }

  /**
   * The displayed list for one fetch: filter, then keep the first 50.
   * It is never longer than 50, only holds fetched events, only of the
   * selected type when there is one, and with no selection it is the head
   * of the fetch.
   */
  function Page(all: seq<EventEntry>, selected: Option<string>): (r: seq<EventEntry>)
    ensures |r| <= PageSize
    ensures forall k :: 0 <= k < |r| ==> r[k] in all
    ensures selected.Some? ==> forall k :: 0 <= k < |r| ==> r[k].eventType == selected.value
    ensures selected.None? ==> r == all[..if |all| < PageSize then |all| else PageSize]
  {
    var matching := Matching(all, selected);
    assert forall k :: 0 <= k < |matching| ==> matching[k] in all;
    Take(matching, PageSize)
  }

  /**
   * No event of the selected type is skipped: an event of type `t` that has
   * fewer than 50 events of that type before it in the fetch is shown, at
   * the position given by how many come before it.
   */
  lemma NoSelectedEventSkipped(all: seq<EventEntry>, t: string, i: nat)
    requires i < |all| && all[i].eventType == t
    requires |OfType(all[..i], t)| < PageSize
    ensures |OfType(all[..i], t)| < |Page(all, Some(t))|
    ensures Page(all, Some(t))[|OfType(all[..i], t)|] == all[i]
  {
    assert all == all[..i] + ([all[i]] + all[i + 1..]);
    OfTypeAppend(all[..i], [all[i]] + all[i + 1..], t);
    OfTypeAppend([all[i]], all[i + 1..], t);
    assert OfType([all[i]], t) == [all[i]];
  }

  /** The displayed list keeps the order of the fetch, so it is most recent first too. */
  lemma PageKeepsOrder(all: seq<EventEntry>, selected: Option<string>)
    requires ByRecency(all)
    ensures ByRecency(Page(all, selected))
  {
    if selected.Some? {
      OfTypeKeepsOrder(all, selected.value);
    }
  }

  /** The list of event types, one per distinct `eventType`, with duplicates dropped. */
  function TypesOf(all: seq<EventEntry>): (r: seq<string>)
    ensures |r| == |all|
    ensures forall i :: 0 <= i < |all| ==> r[i] == all[i].eventType
  {
    seq(|all|, i requires 0 <= i < |all| => all[i].eventType)
  }

  /**
   * `map { it.eventType }.distinct()`: no type twice, every type of the
   * fetch present, and nothing else.
   */
  function EventTypes(all: seq<EventEntry>): (r: seq<string>)
    ensures NoDuplicates(r)
    ensures forall i :: 0 <= i < |all| ==> all[i].eventType in r
    ensures forall k :: 0 <= k < |r| ==> exists i :: 0 <= i < |all| && all[i].eventType == r[k]
  {
    var types := TypesOf(all);
    var r := Distinct(types);
    assert forall k :: 0 <= k < |r| ==> r[k] in types;
    r
  }

  /**
   * The types are listed in the order in which they first occur in the
   * fetch (the newest event of each type decides).
   */
  lemma EventTypesInFirstOccurrenceOrder(all: seq<EventEntry>, i: nat, j: nat)
    requires i < j < |EventTypes(all)|
    ensures EventTypes(all)[i] in TypesOf(all) && EventTypes(all)[j] in TypesOf(all)
    ensures FirstIndex(TypesOf(all), EventTypes(all)[i]) < FirstIndex(TypesOf(all), EventTypes(all)[j])
  {
    DistinctFirstOccurrenceOrder(TypesOf(all), i, j);
  }

  /**
   * Two correct fetches of the same table may order equal timestamps
   * differently, but they offer the same event types.
   */
  lemma EventTypesIgnoreTieOrder(a: seq<EventEntry>, b: seq<EventEntry>, x: string)
    requires multiset(a) == multiset(b)
    ensures x in EventTypes(a) <==> x in EventTypes(b)
  {
    forall y | y in TypesOf(a) ensures y in TypesOf(b) {
      var i :| 0 <= i < |a| && TypesOf(a)[i] == y;
      assert a[i] in multiset(b);
      var j :| 0 <= j < |b| && b[j] == a[i];
      assert TypesOf(b)[j] == y;
    }
    forall y | y in TypesOf(b) ensures y in TypesOf(a) {
      var i :| 0 <= i < |b| && TypesOf(b)[i] == y;
      assert b[i] in multiset(a);
      var j :| 0 <= j < |a| && a[j] == b[i];
      assert TypesOf(a)[j] == y;
    }
    DistinctSameElements(TypesOf(a), TypesOf(b));
  }

  /**
   * When the log is chronological, the unfiltered list is exactly the 50
   * most recently inserted events, newest first.
   */
  lemma MostRecentPage(rows: seq<EventEntry>, fetched: seq<EventEntry>)
    requires ChronologicalLog(rows)
    requires IsFetchOf(fetched, rows)
    ensures |Page(fetched, None)| == if |rows| < PageSize then |rows| else PageSize
    ensures forall k :: 0 <= k < |Page(fetched, None)| ==> Page(fetched, None)[k] == rows[|rows| - 1 - k]
  {
    FetchOfChronologicalLog(rows, fetched);
  }

  /**
   * Filtering happens before the cut to 50, so a filtered list need not be
   * part of the unfiltered one: when the 50 newest events are of other
   * types, the next event of type `t` is shown with `t` selected but not
   * without a selection.
   */
  lemma FilteredPageNotSubset(all: seq<EventEntry>, t: string)
    requires |all| > PageSize
    requires forall i :: 0 <= i < PageSize ==> all[i].eventType != t
    requires all[PageSize].eventType == t
    ensures all[PageSize] in Page(all, Some(t))
    ensures all[PageSize] !in Page(all, None)
  {
    OfTypeAbsent(all[..PageSize], t);
    NoSelectedEventSkipped(all, t, PageSize);
    assert Page(all, None) == all[..PageSize];
  }

  // ---------------------------------------------------------------------
  // Service status

  /**
   * `checkServiceStatus`: the enabled-services setting lists the service,
   * i.e. one of its ':'-separated entries equals the service's flattened
   * component name, ignoring case. A missing setting means not enabled.
   */
  function IsServiceEnabled(enabledServices: Option<string>, component: string): (r: bool)
    ensures enabledServices.None? ==> !r
  {
    match enabledServices
    case None => false
    case Some(setting) =>
      exists entry :: entry in Split(setting, ':') && EqualsIgnoreCase(entry, component)
  }

  /**
   * For a setting written as the ':'-joined list of enabled services, the
   * flag is set exactly when the service is one of them, up to case.
   */
  lemma ServiceEnabledIffListed(services: seq<string>, component: string)
    requires |services| >= 1
    requires forall k :: 0 <= k < |services| ==> ':' !in services[k]
    ensures IsServiceEnabled(Some(Join(services, ":")), component)
        <==> exists k :: 0 <= k < |services| && EqualsIgnoreCase(services[k], component)
  {
    SplitJoin(services, ':');
    if exists k :: 0 <= k < |services| && EqualsIgnoreCase(services[k], component) {
      var k :| 0 <= k < |services| && EqualsIgnoreCase(services[k], component);
      assert services[k] in Split(Join(services, ":"), ':');
    }
  }

  /** Only the case-folded component name matters. */
  lemma ServiceEnabledIgnoresCase(enabledServices: Option<string>, c1: string, c2: string)
    requires EqualsIgnoreCase(c1, c2)
    ensures IsServiceEnabled(enabledServices, c1) == IsServiceEnabled(enabledServices, c2)
  {
    forall entry: string
      ensures EqualsIgnoreCase(entry, c1) <==> EqualsIgnoreCase(entry, c2)
    {
      EqualsIgnoreCaseEquivalence(entry, c1, c2);
      EqualsIgnoreCaseEquivalence(entry, c2, c1);
      EqualsIgnoreCaseEquivalence(c1, c2, c2);
    }
  }

  // ---------------------------------------------------------------------
  // The view model object

  class MainViewModel {
    /** The store the view model reads and clears. */
    const db: EventLoggerDatabase
    /** The service's flattened component name, as the platform renders it. */
    const serviceComponent: string

    var isServiceEnabled: bool
    var events: seq<EventEntry>
    var eventTypes: seq<string>
    var selectedEventType: Option<string>
    /** The unfiltered answer of the latest fetch, from which both lists are derived. */
    ghost var fetched: seq<EventEntry>

    /** The displayed lists are the derivations of the latest fetch under the current selection. */
    ghost predicate Shows()
      reads this
    {
      events == Page(fetched, selectedEventType) && eventTypes == EventTypes(fetched)
    }

    /**
     * Starts with empty lists and no selection, then reads the service
     * status once (`init { checkServiceStatus() }`).
     */
    constructor (db: EventLoggerDatabase, serviceComponent: string, enabledServices: Option<string>)
      ensures this.db == db && this.serviceComponent == serviceComponent
      ensures isServiceEnabled == IsServiceEnabled(enabledServices, serviceComponent)
      ensures events == [] && eventTypes == [] && selectedEventType == None
      ensures Shows()
    {
      this.db := db;
      this.serviceComponent := serviceComponent;
      isServiceEnabled := false;
      events, eventTypes, selectedEventType := [], [], None;
      fetched := [];
      new;
      CheckServiceStatus(enabledServices);
    }

    /** `checkServiceStatus`, given the current value of the enabled-services setting. */
    method CheckServiceStatus(enabledServices: Option<string>)
      modifies this`isServiceEnabled
      ensures isServiceEnabled == IsServiceEnabled(enabledServices, serviceComponent)
    {
      var listed := false;
      if enabledServices.Some? {
        var entries := Split(enabledServices.value, ':');
        listed := exists entry :: entry in entries && EqualsIgnoreCase(entry, serviceComponent);
      }
      isServiceEnabled := listed;
    }

    /**
     * `loadEvents`: fetches every row, shows the first 50 that pass the
     * type filter and offers the distinct types of the unfiltered fetch.
     */
    method LoadEvents()
      modifies this`events, this`eventTypes, this`fetched
      ensures IsFetchOf(fetched, db.rows) && Shows()
      ensures |events| <= PageSize && ByRecency(events)
      ensures selectedEventType.Some? ==>
                forall k :: 0 <= k < |events| ==> events[k].eventType == selectedEventType.value
    {
      var all := db.GetAllEvents();
      var filtered := Matching(all, selectedEventType);
      events := Take(filtered, PageSize);
      eventTypes := EventTypes(all);
      fetched := all;
      PageKeepsOrder(all, selectedEventType);
    }

    /** `refreshEvents`: loads the events again. */
    method RefreshEvents()
      modifies this`events, this`eventTypes, this`fetched
      ensures IsFetchOf(fetched, db.rows) && Shows()
      ensures |events| <= PageSize && ByRecency(events)
      ensures selectedEventType.Some? ==>
                forall k :: 0 <= k < |events| ==> events[k].eventType == selectedEventType.value
    {
      LoadEvents();
    }

    /**
     * `selectEventType`: sets the selection and reloads. Selecting no type
     * shows the head of the fetch again.
     */
    method SelectEventType(t: Option<string>)
      modifies this`selectedEventType, this`events, this`eventTypes, this`fetched
      ensures selectedEventType == t
      ensures IsFetchOf(fetched, db.rows) && Shows()
      ensures |events| <= PageSize && ByRecency(events)
      ensures t.Some? ==> forall k :: 0 <= k < |events| ==> events[k].eventType == t.value
      ensures t.None? ==> events == fetched[..if |fetched| < PageSize then |fetched| else PageSize]
    {
      selectedEventType := t;
      RefreshEvents();
    }

    /** `clearEvents`: empties the store, then reloads, which leaves both lists empty. */
    method ClearEvents()
      requires db.Valid()
      modifies db, this`events, this`eventTypes, this`fetched
      ensures db.Valid() && db.Snapshot() == Cleared(old(db.Snapshot()))
      ensures fetched == [] && Shows()
      ensures events == [] && eventTypes == []
    {
      db.ClearEvents();
      RefreshEvents();
      FetchAfterClearIsEmpty(old(db.Snapshot()), fetched);
    }
  }
}
