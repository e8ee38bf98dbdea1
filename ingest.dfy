/** `load_data` (app.py:64-105): header clean-up, column drop, sentinel fill, downtime bucket
    and month key. Reading the workbook and pandas' date/number parsing are not modelled: each
    raw row arrives with the parsed values of the seven columns the page reads. */
module Ingest {
  import opened Wrappers
  import opened Text
  import opened Sequences
  import opened Calendar
  import opened Table

  /** A row as parsed (app.py:85-87): `None` is what pandas' coercion leaves for a blank or
      unparsable cell. */
  datatype RawRow = RawRow(
    site: Option<string>,
    well: Option<string>,
    reason: Option<string>,
    alert: Option<string>,
    shutdown: Option<Timestamp>,
    startup: Option<Timestamp>,
    downtime: Option<real>)

  datatype LoadError =
    | TooFewColumns(count: nat)   // positional lookup of the columns to drop is out of range
    | MissingColumn(name: string) // a column the page reads by name is absent
    | DuplicateColumn(name: string) // a column parsed whole is held by two labels after the strip

  // ---------------------------------------------------------------------------------------
  // Headers (app.py:69-80)

  /** `df.columns.str.strip()` */
  function StripHeaders(headers: seq<string>): (r: seq<string>)
    ensures |r| == |headers|
    ensures forall i :: 0 <= i < |r| ==> r[i] == Strip(headers[i])
  {
    if headers == [] then [] else [Strip(headers[0])] + StripHeaders(headers[1..])
  }

  /** Stripped headers are left alone by a second strip. */
  lemma StripHeadersIdempotent(headers: seq<string>)
    ensures StripHeaders(StripHeaders(headers)) == StripHeaders(headers)
  {
    forall i | 0 <= i < |headers| ensures Strip(Strip(headers[i])) == Strip(headers[i]) {
      StripIdempotent(headers[i]);
    }
  }

  /** The positions dropped: Excel columns I to AB, then C and E. */
  const DropPositions: seq<nat> :=
    [8, 9, 10, 11, 12, 13, 14, 15, 16, 17, 18, 19, 20, 21, 22, 23, 24, 25, 26, 27] + [2, 4]

  /** Positional lookup of position 27 needs at least 28 columns. */
  const MinColumns: nat := 28

  /** `df.columns[cols_to_drop]`: the labels found at the dropped positions. */
  function DroppedLabels(columns: seq<string>): (labels: set<string>)
    requires |columns| >= MinColumns
    ensures forall i :: 0 <= i < |DropPositions| ==> columns[DropPositions[i]] in labels
    ensures forall c :: c in labels ==> exists i :: 0 <= i < |DropPositions| && columns[DropPositions[i]] == c
  {
    set i | 0 <= i < |DropPositions| :: columns[DropPositions[i]]
  }

  /** The columns whose label is not in `labels`, in order. */
  function Without(columns: seq<string>, labels: set<string>): (r: seq<string>)
    ensures forall c :: c in r <==> c in columns && c !in labels
    ensures forall c :: multiset(r)[c] == if c in labels then 0 else multiset(columns)[c]
    ensures Subsequence(r, columns)
  {
    if columns == [] then []
    else
      assert columns == [columns[0]] + columns[1..];
      if columns[0] in labels then Without(columns[1..], labels)
      else [columns[0]] + Without(columns[1..], labels)
  }

  /** `df.drop(labels, axis=1, errors="ignore")`: pandas drops by label, so every column
      carrying one of the dropped labels goes, wherever it stands. */
  function DropColumns(columns: seq<string>): (r: seq<string>)
    requires |columns| >= MinColumns
    ensures forall c :: c in r <==> c in columns && c !in DroppedLabels(columns)
    ensures forall c :: multiset(r)[c] == if c in DroppedLabels(columns) then 0 else multiset(columns)[c]
    ensures Subsequence(r, columns)
  {
    Without(columns, DroppedLabels(columns))
  }

  /** A position is dropped: 2, 4 or one of 8 to 27. */
  predicate IsDropPosition(i: int) {
    i == 2 || i == 4 || 8 <= i < 28
  }

  /** With distinct header names a label is dropped exactly when it stands at a dropped position. */
  lemma DroppedLabelAt(columns: seq<string>, i: nat)
    requires |columns| >= MinColumns && NoDuplicates(columns) && i < |columns|
    ensures columns[i] in DroppedLabels(columns) <==> IsDropPosition(i)
  {
    if IsDropPosition(i) {
      var k := if i == 2 then 20 else if i == 4 then 21 else i - 8;
      assert DropPositions[k] == i;
    }
  }

  /** Each column is dropped exactly when it stands at a dropped position. */
  ghost predicate DropsByPosition(columns: seq<string>)
    requires |columns| >= MinColumns
  {
    forall i :: 0 <= i < |columns| ==> (columns[i] in DroppedLabels(columns) <==> IsDropPosition(i))
  }

  /** The columns from position `k` on that stand at a position that is not dropped. */
  function KeptFrom(columns: seq<string>, k: nat): seq<string>
    requires k <= |columns|
    decreases |columns| - k
  {
    if k == |columns| then []
    else if IsDropPosition(k) then KeptFrom(columns, k + 1)
    else [columns[k]] + KeptFrom(columns, k + 1)
  }

  /** Where a label is dropped exactly at the dropped positions, removing the labels keeps the
      columns at the other positions. */
  lemma {:induction false} WithoutFrom(columns: seq<string>, labels: set<string>, k: nat)
    requires k <= |columns|
    requires forall i :: k <= i < |columns| ==> (columns[i] in labels <==> IsDropPosition(i))
    ensures Without(columns[k..], labels) == KeptFrom(columns, k)
    decreases |columns| - k
  {
    if k < |columns| {
      assert columns[k..][1..] == columns[k + 1..];
      WithoutFrom(columns, labels, k + 1);
    }
  }

  lemma {:induction false} KeptTail(columns: seq<string>, k: nat)
    requires MinColumns <= k <= |columns|
    ensures KeptFrom(columns, k) == columns[k..]
    decreases |columns| - k
  {
    if k < |columns| {
      KeptTail(columns, k + 1);
      assert columns[k..] == [columns[k]] + columns[k + 1..];
    }
  }

  lemma {:induction false} KeptAfterEight(columns: seq<string>, k: nat)
    requires 8 <= k <= MinColumns <= |columns|
    ensures KeptFrom(columns, k) == columns[MinColumns..]
    decreases MinColumns - k
  {
    if k < MinColumns { KeptAfterEight(columns, k + 1); } else { KeptTail(columns, k); }
  }

  /** A run of positions none of which is dropped is kept whole. */
  lemma {:induction false} KeptRun(columns: seq<string>, lo: nat, hi: nat)
    requires lo <= hi <= |columns|
    requires forall i :: lo <= i < hi ==> !IsDropPosition(i)
    ensures KeptFrom(columns, lo) == columns[lo..hi] + KeptFrom(columns, hi)
    decreases hi - lo
  {
    if lo < hi {
      KeptRun(columns, lo + 1, hi);
      assert !IsDropPosition(lo);
      assert KeptFrom(columns, lo) == [columns[lo]] + KeptFrom(columns, lo + 1);
      assert columns[lo..hi] == [columns[lo]] + columns[lo + 1..hi];
    }
  }

  lemma KeptFromThree(columns: seq<string>)
    requires |columns| >= MinColumns
    ensures KeptFrom(columns, 3) == columns[3..4] + (columns[5..8] + columns[28..])
  {
    var c := columns;
    KeptAfterEight(c, 8);
    KeptRun(c, 5, 8);
    assert KeptFrom(c, 4) == KeptFrom(c, 5);
    KeptRun(c, 3, 4);
  }

  /** The positions kept: 0, 1, 3, 5, 6, 7 and 28 on. */
  lemma KeptPositions(columns: seq<string>)
    requires |columns| >= MinColumns
    ensures KeptFrom(columns, 0) == columns[..2] + columns[3..4] + columns[5..8] + columns[28..]
  {
    var c, t := columns, columns[28..];
    KeptFromThree(c);
    assert KeptFrom(c, 2) == KeptFrom(c, 3);
    KeptRun(c, 0, 2);
    assert c[0..2] == c[..2];
    assert KeptFrom(c, 0) == c[..2] + (c[3..4] + (c[5..8] + t));
    Regroup(c[..2], c[3..4], c[5..8], t);
  }

  lemma Regroup(a: seq<string>, b: seq<string>, c: seq<string>, d: seq<string>)
    ensures a + (b + (c + d)) == a + b + c + d
  {
  }

  /** When labels are dropped by position, the drop keeps positions 0, 1, 3, 5, 6, 7 and 28 on. */
  lemma DropByPosition(columns: seq<string>)
    requires |columns| >= MinColumns && DropsByPosition(columns)
    ensures DropColumns(columns) == columns[..2] + columns[3..4] + columns[5..8] + columns[28..]
  {
    WithoutFrom(columns, DroppedLabels(columns), 0);
    assert columns[0..] == columns;
    KeptPositions(columns);
  }

  /** With distinct header names the drop by label removes exactly positions 2, 4 and 8 to 27:
      22 columns, the others keeping their relative order. */
  lemma DropDistinctColumns(columns: seq<string>)
    requires |columns| >= MinColumns && NoDuplicates(columns)
    ensures DropColumns(columns) == columns[..2] + columns[3..4] + columns[5..8] + columns[28..]
    ensures |DropColumns(columns)| == |columns| - 22
  {
    forall i | 0 <= i < |columns| ensures columns[i] in DroppedLabels(columns) <==> IsDropPosition(i) {
      DroppedLabelAt(columns, i);
    }
    DropByPosition(columns);
  }

  /** The columns `load_data` reads by name, in the order it reads them (app.py:85-93). */
  const ReadColumns: seq<string> :=
    ["Shutdown Date/Time", "Start Up Date/Time", "Downtime (Hrs)", "Site", "Well", "ShutdownReason", "Alert"]

  /** The columns parsed whole (app.py:85-87). Where the strip leaves two columns with one of
      these labels, the lookup selects a table of both, and neither parse accepts a table: the date
      parse raises a ValueError (duplicate keys), the number parse a TypeError. */
  const ParsedColumns: set<string> := {"Shutdown Date/Time", "Start Up Date/Time", "Downtime (Hrs)"}

  /** Reading `name` succeeds: the column is there and, when parsed, held by one label only. */
  predicate Readable(columns: seq<string>, name: string) {
    name in columns && (name in ParsedColumns ==> multiset(columns)[name] == 1)
  }

  /** What reading an unreadable `name` raises. */
  function ReadError(columns: seq<string>, name: string): (e: LoadError)
    requires !Readable(columns, name)
    ensures e.MissingColumn? <==> name !in columns
    ensures e.DuplicateColumn? ==> name in ParsedColumns && multiset(columns)[name] > 1
    ensures !e.TooFewColumns? && e.name == name
  {
    if name !in columns then MissingColumn(name) else DuplicateColumn(name)
  }

  /** The first of `names`, read in order, whose read raises, and what it raises. */
  function FirstFault(columns: seq<string>, names: seq<string>): (f: Option<LoadError>)
    ensures f.None? <==> forall i :: 0 <= i < |names| ==> Readable(columns, names[i])
    ensures f.Some? ==> exists i :: 0 <= i < |names| && !Readable(columns, names[i])
                                    && f.value == ReadError(columns, names[i])
                                    && forall j :: 0 <= j < i ==> Readable(columns, names[j])
  {
    if names == [] then None
    else if !Readable(columns, names[0]) then Some(ReadError(columns, names[0]))
    else
      var f := FirstFault(columns, names[1..]);
      if f.Some? then
        var i :| 0 <= i < |names[1..]| && !Readable(columns, names[1..][i])
                 && f.value == ReadError(columns, names[1..][i])
                 && forall j :: 0 <= j < i ==> Readable(columns, names[1..][j]);
        assert names[i + 1] == names[1..][i];
        f
      else f
  }

  /** Headers that stay distinct after the strip can fail to load only on a missing column. */
  lemma DistinctHeadersOnlyMiss(headers: seq<string>)
    requires |headers| >= MinColumns && NoDuplicates(StripHeaders(headers))
    ensures FirstFault(DropColumns(StripHeaders(headers)), ReadColumns).Some? ==>
      FirstFault(DropColumns(StripHeaders(headers)), ReadColumns).value.MissingColumn?
  {
    var stripped := StripHeaders(headers);
    forall c ensures multiset(stripped)[c] <= 1 {
      MultiplicityAtMostOne(stripped, c);
    }
    DropKeepsSingle(stripped);
    OnlyMissWhenSingle(DropColumns(stripped), ReadColumns);
  }

  lemma DropKeepsSingle(columns: seq<string>)
    requires |columns| >= MinColumns && forall c :: multiset(columns)[c] <= 1
    ensures forall c :: multiset(DropColumns(columns))[c] <= 1
  {
  }

  lemma OnlyMissWhenSingle(columns: seq<string>, names: seq<string>)
    requires forall c :: multiset(columns)[c] <= 1
    ensures FirstFault(columns, names).Some? ==> FirstFault(columns, names).value.MissingColumn?
  {
    var f := FirstFault(columns, names);
    if f.Some? {
      var i :| 0 <= i < |names| && !Readable(columns, names[i]) && f.value == ReadError(columns, names[i]);
      assert multiset(columns)[names[i]] <= 1;
    }
  }

  // ---------------------------------------------------------------------------------------
  // Rows (app.py:90-103)

  const UnknownSite := "Unknown Site"
  const UnknownWell := "Unknown Well"
  const UnknownReason := "Unknown / Not Reported"
  const NoAlert := "No Alert"

  /** `fillna(fill)` on one cell. */
  function FillNa(cell: Option<string>, fill: string): (r: string)
    ensures cell.Some? ==> r == cell.value
    ensures cell.None? ==> r == fill
  {
    match cell
    case Some(v) => v
    case None => fill
  }

  /** The bin edges of `pd.cut` (app.py:98) and the labels of its four intervals (app.py:99). */
  const Bins: seq<real> := [-1.0, 1.0, 5.0, 24.0, 1000000.0]
  const BucketLabels: seq<string> := ["0\U{2013}1 hr", "1\U{2013}5 hrs", "5\U{2013}24 hrs", ">24 hrs"]

  /** `pd.cut` with right-closed intervals: the index `i` with `bins[i] < x <= bins[i + 1]`,
      or `None` when `x` lies in none of them. */
  function CutIndex(x: real, bins: seq<real>): (r: Option<nat>)
    ensures r.Some? ==> r.value + 1 < |bins| && bins[r.value] < x <= bins[r.value + 1]
    ensures r.None? ==> forall i :: 0 <= i < |bins| - 1 ==> !(bins[i] < x <= bins[i + 1])
  {
    if |bins| < 2 then None
    else if bins[0] < x <= bins[1] then Some(0)
    else match CutIndex(x, bins[1..])
      case None => None
      case Some(i) => Some(i + 1)
  }

  /** The "Downtime Bucket" of one row. The four buckets are (-1, 1], (1, 5], (5, 24] and
      (24, 1e6]; a downtime outside all of them, and a missing one, has no bucket. */
  function Bucket(downtime: Option<real>): (b: Option<string>)
    ensures b == Some("0\U{2013}1 hr") <==> downtime.Some? && -1.0 < downtime.value <= 1.0
    ensures b == Some("1\U{2013}5 hrs") <==> downtime.Some? && 1.0 < downtime.value <= 5.0
    ensures b == Some("5\U{2013}24 hrs") <==> downtime.Some? && 5.0 < downtime.value <= 24.0
    ensures b == Some(">24 hrs") <==> downtime.Some? && 24.0 < downtime.value <= 1000000.0
    ensures b == None <==> downtime.None? || downtime.value <= -1.0 || downtime.value > 1000000.0
  {
    match downtime
    case None => None
    case Some(x) =>
      match CutIndex(x, Bins)
      case None =>
        assert !(Bins[0] < x <= Bins[1]) && !(Bins[1] < x <= Bins[2]);
        assert !(Bins[2] < x <= Bins[3]) && !(Bins[3] < x <= Bins[4]);
        None
      case Some(i) => Some(BucketLabels[i])
  }

  /** One raw row as `load_data` leaves it: the four categorical columns are never missing, a
      present value being kept and a missing one replaced by its sentinel; timestamps and downtime
      pass through; the month key is "NaT" exactly when the shutdown timestamp is missing, and a
      row has a bucket only when its downtime is present and within the bins. */
  function Normalize(row: RawRow): (e: Event)
    ensures e.site == (if row.site.Some? then row.site.value else "Unknown Site")
    ensures e.well == (if row.well.Some? then row.well.value else "Unknown Well")
    ensures e.reason == (if row.reason.Some? then row.reason.value else "Unknown / Not Reported")
    ensures e.alert == (if row.alert.Some? then row.alert.value else "No Alert")
    ensures e.shutdown == row.shutdown && e.startup == row.startup
    ensures e.downtime == row.downtime
    ensures e.month == "NaT" <==> row.shutdown.None?
    ensures e.bucket.Some? ==> row.downtime.Some? && -1.0 < row.downtime.value <= 1000000.0
    ensures e.bucket == Bucket(row.downtime) && e.month == MonthKey(row.shutdown)
  {
    Event(
      site := FillNa(row.site, UnknownSite),
      well := FillNa(row.well, UnknownWell),
      reason := FillNa(row.reason, UnknownReason),
      alert := FillNa(row.alert, NoAlert),
      shutdown := row.shutdown,
      startup := row.startup,
      downtime := row.downtime,
      bucket := Bucket(row.downtime),
      month := MonthKey(row.shutdown))
  }

  /** The column assignments of app.py:90-103, each over the whole table. */
  method DeriveColumns(rows: seq<RawRow>) returns (table: seq<Event>)
    ensures |table| == |rows|
    ensures forall i :: 0 <= i < |rows| ==> table[i] == Normalize(rows[i])
  {
    var n := |rows|;
    var site := seq(n, i requires 0 <= i < n => FillNa(rows[i].site, UnknownSite));
    var well := seq(n, i requires 0 <= i < n => FillNa(rows[i].well, UnknownWell));
    var reason := seq(n, i requires 0 <= i < n => FillNa(rows[i].reason, UnknownReason));
    var alert := seq(n, i requires 0 <= i < n => FillNa(rows[i].alert, NoAlert));
    var bucket := seq(n, i requires 0 <= i < n => Bucket(rows[i].downtime));
    var month := seq(n, i requires 0 <= i < n => MonthKey(rows[i].shutdown));
    table := seq(n, i requires 0 <= i < n =>
      Event(site[i], well[i], reason[i], alert[i], rows[i].shutdown, rows[i].startup,
            rows[i].downtime, bucket[i], month[i]));
  }

  /** `load_data`: strips the headers, drops the unwanted columns, fails where pandas raises,
      then derives the table column by column. */
  method LoadData(headers: seq<string>, rows: seq<RawRow>) returns (r: Result<seq<Event>, LoadError>)
    ensures |headers| < MinColumns <==> r == Failure(TooFewColumns(|headers|))
    ensures |headers| >= MinColumns && FirstFault(DropColumns(StripHeaders(headers)), ReadColumns).Some? ==>
      r == Failure(FirstFault(DropColumns(StripHeaders(headers)), ReadColumns).value)
    ensures r.Success? <==>
      |headers| >= MinColumns && FirstFault(DropColumns(StripHeaders(headers)), ReadColumns).None?
    ensures r.Success? ==> |r.value| == |rows|
    ensures r.Success? ==> forall i :: 0 <= i < |rows| ==> r.value[i] == Normalize(rows[i])
  {
    var columns := StripHeaders(headers);
    if |columns| < MinColumns {
      return Failure(TooFewColumns(|columns|));
    }
    columns := DropColumns(columns);
    var fault := FirstFault(columns, ReadColumns);
    if fault.Some? {
      return Failure(fault.value);
    }
    var table := DeriveColumns(rows);
    return Success(table);
  }
}
