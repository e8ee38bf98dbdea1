/** The table `load_data` returns (app.py:64-105) and the row selection `df[mask]` that
    the filters and the report use. */
module Table {
  import opened Wrappers
  import opened Calendar
  import opened Sequences

  /** One shutdown event after loading: the four categorical columns are filled, the parsed
      timestamps and downtime may be missing, the bucket and the month key are derived. */
  datatype Event = Event(
    site: string,
    well: string,
    reason: string,
    alert: string,
    shutdown: Option<Timestamp>,
    startup: Option<Timestamp>,
    downtime: Option<real>,
    bucket: Option<string>,
    month: string)

  /** The string columns the page selects on or groups by. */
  datatype Column = Site | Well | Reason | Alert | Month

  /** The value of column `c` in `e` ("Site", "Well", "ShutdownReason", "Alert", "Shutdown Month"). */
  function Key(e: Event, c: Column): string {
    match c
    case Site => e.site
    case Well => e.well
    case Reason => e.reason
    case Alert => e.alert
    case Month => e.month
  }

  /** One boolean mask of the page: a column equal to a value, or the shutdown date within an
      inclusive range of days. A missing timestamp (NaT) compares false, so it never lies in a range. */
  datatype Condition = Equals(column: Column, value: string) | DayBetween(first: int, last: int)

  predicate Holds(c: Condition, e: Event) {
    match c
    case Equals(col, v) => Key(e, col) == v
    case DayBetween(lo, hi) => e.shutdown.Some? && lo <= Day(e.shutdown.value) <= hi
  }

  /** `df[mask]`: the rows satisfying `c`, in their original order. */
  function Where(rows: seq<Event>, c: Condition): (r: seq<Event>)
    ensures |r| <= |rows|
    ensures forall e :: e in r <==> e in rows && Holds(c, e)
    ensures Subsequence(r, rows)
  {
    if rows == [] then []
    else if Holds(c, rows[0]) then [rows[0]] + Where(rows[1..], c)
    else Where(rows[1..], c)
  }

  /** A mask keeps every copy of a row satisfying it and no copy of any other row. */
  lemma {:induction false} WhereCounts(rows: seq<Event>, c: Condition, e: Event)
    ensures multiset(Where(rows, c))[e] == if Holds(c, e) then multiset(rows)[e] else 0
  {
    if rows != [] {
      assert rows == [rows[0]] + rows[1..];
      WhereCounts(rows[1..], c, e);
    }
  }

  lemma {:induction false} WhereConcat(a: seq<Event>, b: seq<Event>, c: Condition)
    ensures Where(a + b, c) == Where(a, c) + Where(b, c)
  {
    if a != [] {
      assert (a + b)[1..] == a[1..] + b;
      WhereConcat(a[1..], b, c);
    } else {
      assert a + b == b;
    }
  }

  /** Applying two masks one after the other gives the same rows in either order. */
  lemma {:induction false} WhereCommutes(rows: seq<Event>, c: Condition, d: Condition)
    ensures Where(Where(rows, c), d) == Where(Where(rows, d), c)
  {
    if rows != [] {
      WhereCommutes(rows[1..], c, d);
    }
  }

  predicate AllHold(cs: seq<Condition>, e: Event) {
    forall k :: 0 <= k < |cs| ==> Holds(cs[k], e)
  }

  /** The rows satisfying every condition of `cs`, in their original order. */
  function WhereAll(rows: seq<Event>, cs: seq<Condition>): (r: seq<Event>)
    ensures forall e :: e in r <==> e in rows && AllHold(cs, e)
    ensures Subsequence(r, rows)
  {
    if rows == [] then []
    else if AllHold(cs, rows[0]) then [rows[0]] + WhereAll(rows[1..], cs)
    else WhereAll(rows[1..], cs)
  }

  /** Every copy of a row satisfying all the conditions is kept, and no copy of any other row. */
  lemma {:induction false} WhereAllCounts(rows: seq<Event>, cs: seq<Condition>, e: Event)
    ensures multiset(WhereAll(rows, cs))[e] == if AllHold(cs, e) then multiset(rows)[e] else 0
  {
    if rows != [] {
      assert rows == [rows[0]] + rows[1..];
      WhereAllCounts(rows[1..], cs, e);
    }
  }

  /** Narrowing by one more mask is selecting by one more condition. */
  lemma {:induction false} WhereNarrows(rows: seq<Event>, cs: seq<Condition>, c: Condition)
    ensures Where(WhereAll(rows, cs), c) == WhereAll(rows, cs + [c])
  {
    if rows != [] {
      WhereNarrows(rows[1..], cs, c);
      var e := rows[0];
      assert AllHold(cs + [c], e) <==> AllHold(cs, e) && Holds(c, e) by {
        if AllHold(cs, e) && Holds(c, e) {
          forall k | 0 <= k < |cs + [c]| ensures Holds((cs + [c])[k], e) {
            if k < |cs| { assert (cs + [c])[k] == cs[k]; }
          }
        }
        if AllHold(cs + [c], e) {
          assert (cs + [c])[|cs|] == c;
          forall k | 0 <= k < |cs| ensures Holds(cs[k], e) { assert (cs + [c])[k] == cs[k]; }
        }
      }
    }
  }
}
