/** The per-well report (app.py:285-311 and app.py:414-422): the figures, the two charts' data
    and the table of the latest events of one well, drawn from the whole table, not the
    filtered one. */
module Report {
  import opened Wrappers
  import opened Sequences
  import opened Calendar
  import opened Table
  import opened Aggregate

  /** One line of the event table: the five columns it shows. */
  datatype EventLine = EventLine(
    shutdown: Option<Timestamp>,
    startup: Option<Timestamp>,
    downtime: Option<real>,
    reason: string,
    alert: string)

  datatype WellSummary = WellSummary(
    well: string,
    shutdowns: nat,
    downtime: real,
    average: Option<real>,
    longest: Option<real>,
    monthly: seq<GroupCount>,
    reasons: seq<GroupTotal>,
    events: seq<EventLine>)

  /** The report stops with an error when the well has no rows. */
  datatype ReportError = NoDataForWell(well: string)

  /** The order of `sort_values("Shutdown Date/Time", ascending=False)`: later first, a missing
      timestamp after every present one. */
  predicate NotEarlier(a: Option<Timestamp>, b: Option<Timestamp>) {
    b.None? || (a.Some? && a.value >= b.value)
  }

  predicate LaterShutdown(a: Event, b: Event) {
    NotEarlier(a.shutdown, b.shutdown)
  }

  lemma LaterShutdownIsTotalPreorder()
    ensures TotalPreorder(LaterShutdown)
  {
  }

  /** `.head(20)` */
  const EventLimit: nat := 20

  /** The rows the event table shows: twenty, or all of them when there are fewer, latest first
      and taken from the input. */
  function LatestEvents(rows: seq<Event>): (r: seq<Event>)
    ensures |r| == if |rows| < EventLimit then |rows| else EventLimit
    ensures multiset(r) <= multiset(rows)
    ensures SortedBy(r, LaterShutdown)
  {
    LaterShutdownIsTotalPreorder();
    var sorted := SortBy(rows, LaterShutdown);
    assert |sorted| == |rows| by { assert |multiset(sorted)| == |multiset(rows)|; }
    HeadOfSorted(sorted, EventLimit, LaterShutdown);
    Head(sorted, EventLimit)
  }

  /** The rows shown are rows of the input, later ones first. */
  lemma LatestEventsShown(rows: seq<Event>)
    ensures forall e :: e in LatestEvents(rows) ==> e in rows
    ensures forall i, j :: 0 <= i < j < |LatestEvents(rows)| ==>
      NotEarlier(LatestEvents(rows)[i].shutdown, LatestEvents(rows)[j].shutdown)
  {
    var latest := LatestEvents(rows);
    forall i, j | 0 <= i < j < |latest| ensures NotEarlier(latest[i].shutdown, latest[j].shutdown) {
      assert LaterShutdown(latest[i], latest[j]);
    }
    forall e | e in latest ensures e in rows {
      assert e in multiset(latest);
    }
  }

  /** No row left out of the event table is later than any row shown. */
  lemma LatestEventsFirst(rows: seq<Event>)
    ensures forall x, y :: x in LatestEvents(rows) && y in multiset(rows) - multiset(LatestEvents(rows)) ==>
      NotEarlier(x.shutdown, y.shutdown)
  {
    LaterShutdownIsTotalPreorder();
    var sorted := SortBy(rows, LaterShutdown);
    assert LatestEvents(rows) == Head(sorted, EventLimit);
    HeadKeepsFirst(sorted, EventLimit, LaterShutdown);
  }

  function Line(e: Event): EventLine {
    EventLine(e.shutdown, e.startup, e.downtime, e.reason, e.alert)
  }

  function Lines(rows: seq<Event>): (lines: seq<EventLine>)
    ensures |lines| == |rows|
    ensures forall i :: 0 <= i < |rows| ==> lines[i] == Line(rows[i])
  {
    if rows == [] then [] else [Line(rows[0])] + Lines(rows[1..])
  }

  /** `df[df["Well"] == well]` on the unfiltered table, then the report's figures. */
  function WellReport(table: seq<Event>, well: string): (r: Result<WellSummary, ReportError>)
    ensures r.Failure? <==> forall e :: e in table ==> e.well != well
    ensures r.Failure? ==> r.error == NoDataForWell(well)
    ensures r.Success? ==> r.value.well == well
    ensures r.Success? ==>
      var rows := Where(table, Equals(Well, well));
      r.value == WellSummary(well, |rows|, TotalDowntime(rows), MeanDowntime(rows), LongestDowntime(rows),
                             MonthlyCounts(rows), TotalsOf(rows, Reason, GroupKeys(rows, Reason)),
                             Lines(LatestEvents(rows)))
  {
    var rows := Where(table, Equals(Well, well));
    if rows == [] then
      Failure(NoDataForWell(well))
    else
      assert rows[0] in table && rows[0].well == well;
      Success(WellSummary(
        well,
        |rows|,
        TotalDowntime(rows),
        MeanDowntime(rows),
        LongestDowntime(rows),
        MonthlyCounts(rows),
        TotalsOf(rows, Reason, GroupKeys(rows, Reason)),
        Lines(LatestEvents(rows))))
  }

  /** Every well offered by the report's well picker, `sorted(df["Well"].unique())`, has a report. */
  lemma PickedWellHasReport(table: seq<Event>, well: string)
    requires well in GroupKeys(table, Well)
    ensures WellReport(table, well).Success?
  {
    var e :| e in table && Key(e, Well) == well;
  }

  /** The report's figures: it counts the well's rows, and its monthly counts add up to that count;
      its downtime by reason adds up to its total downtime; the average and the longest shutdown
      are both present or both missing, and the average never exceeds the longest. */
  lemma WellReportFigures(table: seq<Event>, well: string)
    requires WellReport(table, well).Success?
    ensures WellReport(table, well).value.shutdowns == |Where(table, Equals(Well, well))| > 0
    ensures SumOfCounts(WellReport(table, well).value.monthly) == WellReport(table, well).value.shutdowns
    ensures SumOfTotals(WellReport(table, well).value.reasons) == WellReport(table, well).value.downtime
    ensures WellReport(table, well).value.average.Some? <==> WellReport(table, well).value.longest.Some?
    ensures WellReport(table, well).value.average.Some? ==>
      WellReport(table, well).value.average.value <= WellReport(table, well).value.longest.value
  {
    var rows := Where(table, Equals(Well, well));
    GroupTotalsAddUp(rows, Reason);
    if MeanDowntime(rows).Some? {
      MeanAtMostLongest(rows);
    }
  }

  /** The event table holds the latest twenty of the well's shutdowns, or all of them when fewer. */
  lemma WellReportEventCount(table: seq<Event>, well: string)
    requires WellReport(table, well).Success?
    ensures |WellReport(table, well).value.events|
         == if WellReport(table, well).value.shutdowns < EventLimit then WellReport(table, well).value.shutdowns else EventLimit
  {
  }

  lemma LinesOfWell(table: seq<Event>, well: string, lines: seq<EventLine>)
    requires lines == Lines(LatestEvents(Where(table, Equals(Well, well))))
    ensures forall i :: 0 <= i < |lines| ==> exists e :: e in table && e.well == well && lines[i] == Line(e)
  {
    var rows := Where(table, Equals(Well, well));
    var latest := LatestEvents(rows);
    LatestEventsShown(rows);
    forall i | 0 <= i < |lines| ensures exists e :: e in table && e.well == well && lines[i] == Line(e) {
      var e := latest[i];
      assert e in latest && lines[i] == Line(e);
      assert Holds(Equals(Well, well), e);
    }
  }

  /** Each line of the event table shows one of the well's rows. */
  lemma WellReportEventRows(table: seq<Event>, well: string)
    requires WellReport(table, well).Success?
    ensures forall i :: 0 <= i < |WellReport(table, well).value.events| ==>
      exists e :: e in table && e.well == well && WellReport(table, well).value.events[i] == Line(e)
  {
    LinesOfWell(table, well, WellReport(table, well).value.events);
  }

  /** The event table lists the latest shutdown first, those without a timestamp last. */
  lemma WellReportEventOrder(table: seq<Event>, well: string)
    requires WellReport(table, well).Success?
    ensures forall i, j :: 0 <= i < j < |WellReport(table, well).value.events| ==>
      NotEarlier(WellReport(table, well).value.events[i].shutdown, WellReport(table, well).value.events[j].shutdown)
  {
    var rows := Where(table, Equals(Well, well));
    var latest := LatestEvents(rows);
    var lines := WellReport(table, well).value.events;
    assert lines == Lines(latest);
    LatestEventsShown(rows);
    forall i, j | 0 <= i < j < |lines| ensures NotEarlier(lines[i].shutdown, lines[j].shutdown) {
      assert lines[i] == Line(latest[i]) && lines[j] == Line(latest[j]);
    }
  }

  /** None of the well's rows left out of the event table is later than a row shown in it. */
  lemma WellReportEventsLatest(table: seq<Event>, well: string, y: Event)
    requires WellReport(table, well).Success?
    requires y in multiset(Where(table, Equals(Well, well))) - multiset(LatestEvents(Where(table, Equals(Well, well))))
    ensures forall i :: 0 <= i < |WellReport(table, well).value.events| ==>
      NotEarlier(WellReport(table, well).value.events[i].shutdown, y.shutdown)
  {
    var rows := Where(table, Equals(Well, well));
    var latest := LatestEvents(rows);
    var lines := WellReport(table, well).value.events;
    assert lines == Lines(latest);
    LatestEventsFirst(rows);
    forall i | 0 <= i < |lines| ensures NotEarlier(lines[i].shutdown, y.shutdown) {
      assert latest[i] in latest;
      assert lines[i] == Line(latest[i]);
    }
  }
}
