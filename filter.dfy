/** The filter bar (app.py:131-162) and the block that applies it (app.py:169-188). */
module Filter {
  import opened Wrappers
  import opened Calendar
  import opened Sequences
  import opened Table

  /** The first option of each select box: choosing it imposes no constraint. */
  const AllSites := "All Sites"
  const AllWells := "All Wells"
  const AllReasons := "All Reasons"
  const AllAlerts := "All Alerts"

  /** What the five widgets return. `dates` holds the days (since 1970-01-01) picked in the date
      range input, which returns fewer than two while a range is being picked. */
  datatype Selection = Selection(site: string, well: string, reason: string, alert: string, dates: seq<int>)

  /** A row is shown when it matches every selector that is not "All ..." and, when two dates
      are given, its shutdown falls on a day between them, both included. */
  predicate Matches(sel: Selection, e: Event)
    ensures (sel.site == AllSites && sel.well == AllWells && sel.reason == AllReasons && sel.alert == AllAlerts
             && |sel.dates| != 2) ==> Matches(sel, e)
    ensures |sel.dates| == 2 && e.shutdown.None? ==> !Matches(sel, e)
    ensures Matches(sel, e) && sel.well != AllWells ==> e.well == sel.well
  {
    && (sel.site == AllSites || e.site == sel.site)
    && (sel.well == AllWells || e.well == sel.well)
    && (sel.reason == AllReasons || e.reason == sel.reason)
    && (sel.alert == AllAlerts || e.alert == sel.alert)
    && (|sel.dates| == 2 ==> e.shutdown.Some? && sel.dates[0] <= Day(e.shutdown.value) <= sel.dates[1])
  }

  /** The rows shown: those matching the selection, in table order. */
  function Selected(table: seq<Event>, sel: Selection): (r: seq<Event>)
    ensures Subsequence(r, table)
    ensures forall e :: e in r <==> e in table && Matches(sel, e)
    ensures forall e :: multiset(r)[e] == if Matches(sel, e) then multiset(table)[e] else 0
    ensures |r| <= |table|
  {
    if table == [] then []
    else
      assert table == [table[0]] + table[1..];
      if Matches(sel, table[0]) then [table[0]] + Selected(table[1..], sel)
      else Selected(table[1..], sel)
  }

  /** The masks the filter block applies, in the order it applies them. */
  function Conditions(sel: Selection): seq<Condition> {
    UpToAlert(sel) + (if |sel.dates| == 2 then [DayBetween(sel.dates[0], sel.dates[1])] else [])
  }

  function UpToSite(sel: Selection): seq<Condition> {
    if sel.site != AllSites then [Equals(Site, sel.site)] else []
  }

  function UpToWell(sel: Selection): seq<Condition> {
    UpToSite(sel) + (if sel.well != AllWells then [Equals(Well, sel.well)] else [])
  }

  function UpToReason(sel: Selection): seq<Condition> {
    UpToWell(sel) + (if sel.reason != AllReasons then [Equals(Reason, sel.reason)] else [])
  }

  function UpToAlert(sel: Selection): seq<Condition> {
    UpToReason(sel) + (if sel.alert != AllAlerts then [Equals(Alert, sel.alert)] else [])
  }

  lemma ConditionsMatch(sel: Selection, e: Event)
    ensures AllHold(Conditions(sel), e) <==> Matches(sel, e)
  {
    var cs := Conditions(sel);
    if Matches(sel, e) {
      forall k | 0 <= k < |cs| ensures Holds(cs[k], e) { }
    } else {
      var k: int := -1;
      if sel.site != AllSites && e.site != sel.site {
        k := 0;
      } else {
        var skipped := (if sel.site != AllSites then 1 else 0);
        if sel.well != AllWells && e.well != sel.well {
          k := skipped;
        } else {
          skipped := skipped + (if sel.well != AllWells then 1 else 0);
          if sel.reason != AllReasons && e.reason != sel.reason {
            k := skipped;
          } else {
            skipped := skipped + (if sel.reason != AllReasons then 1 else 0);
            if sel.alert != AllAlerts && e.alert != sel.alert {
              k := skipped;
            } else {
              k := skipped + (if sel.alert != AllAlerts then 1 else 0);
            }
          }
        }
      }
      assert 0 <= k < |cs| && !Holds(cs[k], e);
    }
  }

  lemma {:induction false} WhereAllNothing(rows: seq<Event>)
    ensures WhereAll(rows, []) == rows
  {
    if rows != [] { WhereAllNothing(rows[1..]); }
  }

  lemma {:induction false} WhereAllSelected(rows: seq<Event>, sel: Selection)
    ensures WhereAll(rows, Conditions(sel)) == Selected(rows, sel)
  {
    if rows != [] {
      ConditionsMatch(sel, rows[0]);
      WhereAllSelected(rows[1..], sel);
    }
  }

  /** The filter block: a copy of the table narrowed by one mask per selector in use. */
  method ApplyFilters(table: seq<Event>, sel: Selection) returns (filtered: seq<Event>)
    ensures filtered == Selected(table, sel)
  {
    filtered := table;
    ghost var applied: seq<Condition> := [];
    WhereAllNothing(table);
    if sel.site != AllSites {
      WhereNarrows(table, applied, Equals(Site, sel.site));
      filtered := Where(filtered, Equals(Site, sel.site));
      applied := applied + [Equals(Site, sel.site)];
    }
    assert applied == UpToSite(sel) && filtered == WhereAll(table, applied);
    if sel.well != AllWells {
      WhereNarrows(table, applied, Equals(Well, sel.well));
      filtered := Where(filtered, Equals(Well, sel.well));
      applied := applied + [Equals(Well, sel.well)];
    }
    assert applied == UpToWell(sel) && filtered == WhereAll(table, applied);
    if sel.reason != AllReasons {
      WhereNarrows(table, applied, Equals(Reason, sel.reason));
      filtered := Where(filtered, Equals(Reason, sel.reason));
      applied := applied + [Equals(Reason, sel.reason)];
    }
    assert applied == UpToReason(sel) && filtered == WhereAll(table, applied);
    if sel.alert != AllAlerts {
      WhereNarrows(table, applied, Equals(Alert, sel.alert));
      filtered := Where(filtered, Equals(Alert, sel.alert));
      applied := applied + [Equals(Alert, sel.alert)];
    }
    assert applied == UpToAlert(sel) && filtered == WhereAll(table, applied);
    if |sel.dates| == 2 {
      WhereNarrows(table, applied, DayBetween(sel.dates[0], sel.dates[1]));
      filtered := Where(filtered, DayBetween(sel.dates[0], sel.dates[1]));
      applied := applied + [DayBetween(sel.dates[0], sel.dates[1])];
    }
    assert applied == Conditions(sel);
    WhereAllSelected(table, sel);
  }

  /** Filtering what is already filtered by the same selection changes nothing. */
  lemma {:induction false} SelectedIdempotent(table: seq<Event>, sel: Selection)
    ensures Selected(Selected(table, sel), sel) == Selected(table, sel)
  {
    if table != [] {
      SelectedIdempotent(table[1..], sel);
    }
  }

  // ---------------------------------------------------------------------------------------
  // The default date range (app.py:152-162)

  datatype FilterError = NoValidDates

  /** `min()` of the shutdown column: pandas skips NaT, and yields NaT when nothing is left. */
  function EarliestShutdown(rows: seq<Event>): (m: Option<Timestamp>)
    ensures m.None? <==> forall e :: e in rows ==> e.shutdown.None?
    ensures m.Some? ==> Some(m.value) in (set e | e in rows :: e.shutdown)
    ensures m.Some? ==> forall e :: e in rows && e.shutdown.Some? ==> m.value <= e.shutdown.value
  {
    if rows == [] then None
    else
      var rest := EarliestShutdown(rows[1..]);
      var here := rows[0].shutdown;
      assert forall e :: e in rows ==> e == rows[0] || e in rows[1..];
      if here.None? then rest
      else if rest.None? || here.value <= rest.value then here
      else rest
  }

  /** `max()` of the shutdown column, NaT skipped. */
  function LatestShutdown(rows: seq<Event>): (m: Option<Timestamp>)
    ensures m.None? <==> forall e :: e in rows ==> e.shutdown.None?
    ensures m.Some? ==> Some(m.value) in (set e | e in rows :: e.shutdown)
    ensures m.Some? ==> forall e :: e in rows && e.shutdown.Some? ==> e.shutdown.value <= m.value
  {
    if rows == [] then None
    else
      var rest := LatestShutdown(rows[1..]);
      var here := rows[0].shutdown;
      assert forall e :: e in rows ==> e == rows[0] || e in rows[1..];
      if here.None? then rest
      else if rest.None? || here.value >= rest.value then here
      else rest
  }

  /** The range the date input starts with: from the day of the earliest to the day of the
      latest shutdown. With no valid shutdown date the page stops with an error. */
  function DefaultDates(table: seq<Event>): (r: Result<seq<int>, FilterError>)
    ensures r.Failure? <==> forall e :: e in table ==> e.shutdown.None?
    ensures r.Success? ==> |r.value| == 2 && r.value[0] <= r.value[1]
    ensures r.Success? ==> forall e :: e in table && e.shutdown.Some? ==>
              r.value[0] <= Day(e.shutdown.value) <= r.value[1]
    ensures r.Success? ==> exists e :: e in table && e.shutdown.Some? && Day(e.shutdown.value) == r.value[0]
    ensures r.Success? ==> exists e :: e in table && e.shutdown.Some? && Day(e.shutdown.value) == r.value[1]
  {
    var lo, hi := EarliestShutdown(table), LatestShutdown(table);
    if lo.None? || hi.None? then Failure(NoValidDates)
    else
      DayMonotone(lo.value, hi.value);
      assert forall e :: e in table && e.shutdown.Some? ==>
        Day(lo.value) <= Day(e.shutdown.value) <= Day(hi.value) by {
        forall e | e in table && e.shutdown.Some?
          ensures Day(lo.value) <= Day(e.shutdown.value) <= Day(hi.value)
        {
          DayMonotone(lo.value, e.shutdown.value);
          DayMonotone(e.shutdown.value, hi.value);
        }
      }
      var first :| first in table && first.shutdown == Some(lo.value);
      var last :| last in table && last.shutdown == Some(hi.value);
      Success([Day(lo.value), Day(hi.value)])
  }

  /** The rows that have a shutdown timestamp. */
  function Dated(rows: seq<Event>): (r: seq<Event>)
    ensures forall e :: e in r <==> e in rows && e.shutdown.Some?
    ensures forall e :: multiset(r)[e] == if e.shutdown.Some? then multiset(rows)[e] else 0
    ensures Subsequence(r, rows)
  {
    if rows == [] then []
    else
      assert rows == [rows[0]] + rows[1..];
      if rows[0].shutdown.Some? then [rows[0]] + Dated(rows[1..])
      else Dated(rows[1..])
  }

  /** Before anything is picked, the page shows every row that has a shutdown date and hides
      the rows whose date is missing (NaT never lies in a range). */
  lemma DefaultSelectionShowsDated(table: seq<Event>)
    requires DefaultDates(table).Success?
    ensures Selected(table, Selection(AllSites, AllWells, AllReasons, AllAlerts, DefaultDates(table).value))
         == Dated(table)
  {
    var dates := DefaultDates(table).value;
    SelectedInRange(table, Selection(AllSites, AllWells, AllReasons, AllAlerts, dates));
  }

  lemma {:induction false} SelectedInRange(rows: seq<Event>, sel: Selection)
    requires sel.site == AllSites && sel.well == AllWells && sel.reason == AllReasons && sel.alert == AllAlerts
    requires |sel.dates| == 2
    requires forall e :: e in rows && e.shutdown.Some? ==> sel.dates[0] <= Day(e.shutdown.value) <= sel.dates[1]
    ensures Selected(rows, sel) == Dated(rows)
  {
    if rows != [] {
      assert forall e :: e in rows[1..] ==> e in rows;
      SelectedInRange(rows[1..], sel);
    }
  }
}
