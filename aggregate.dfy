/** The summaries the dashboard computes from the filtered rows: the KPI row (app.py:199-203),
    the top wells by downtime (app.py:214-217) and the monthly trend (app.py:246). */
module Aggregate {
  import opened Wrappers
  import opened Text
  import opened Sequences
  import opened Calendar
  import opened Table

  // ---------------------------------------------------------------------------------------
  // Downtime sums, null-safe as pandas' skipna

  /** What one row adds to `["Downtime (Hrs)"].sum()`: nothing when its downtime is missing. */
  function Hours(e: Event): real {
    if e.downtime.Some? then e.downtime.value else 0.0
  }

  /** `["Downtime (Hrs)"].sum()`: missing values skipped, 0 for an empty table. */
  function TotalDowntime(rows: seq<Event>): real {
    if rows == [] then 0.0 else Hours(rows[0]) + TotalDowntime(rows[1..])
  }

  /** The number of rows whose downtime is present: what `.mean()` divides by. */
  function ReportedCount(rows: seq<Event>): (n: nat)
    ensures n <= |rows|
    ensures n == 0 <==> forall e :: e in rows ==> e.downtime.None?
  {
    if rows == [] then 0
    else
      assert forall e :: e in rows ==> e == rows[0] || e in rows[1..];
      (if rows[0].downtime.Some? then 1 else 0) + ReportedCount(rows[1..])
  }

  lemma {:induction false} TotalConcat(a: seq<Event>, b: seq<Event>)
    ensures TotalDowntime(a + b) == TotalDowntime(a) + TotalDowntime(b)
  {
    if a == [] {
      assert a + b == b;
    } else {
      assert (a + b)[1..] == a[1..] + b;
      TotalConcat(a[1..], b);
    }
  }

  lemma {:induction false} ReportedCountConcat(a: seq<Event>, b: seq<Event>)
    ensures ReportedCount(a + b) == ReportedCount(a) + ReportedCount(b)
  {
    if a == [] {
      assert a + b == b;
    } else {
      assert (a + b)[1..] == a[1..] + b;
      ReportedCountConcat(a[1..], b);
    }
  }

  /** A single row adds its downtime when present and nothing when missing; with `TotalConcat`
      this fixes the sum of every table. */
  lemma TotalOfOne(e: Event)
    ensures TotalDowntime([e]) == if e.downtime.Some? then e.downtime.value else 0.0
  {
    assert [e][1..] == [];
  }

  /** With no downtime reported the sum is 0, never missing. */
  lemma {:induction false} TotalOfUnreported(rows: seq<Event>)
    requires forall e :: e in rows ==> e.downtime.None?
    ensures TotalDowntime(rows) == 0.0
  {
    if rows != [] {
      assert rows[0] in rows;
      assert forall e :: e in rows[1..] ==> e in rows;
      TotalOfUnreported(rows[1..]);
    }
  }

  /** Every row is counted exactly when every row reports its downtime. */
  lemma {:induction false} ReportedCountAll(rows: seq<Event>)
    ensures ReportedCount(rows) == |rows| <==> forall e :: e in rows ==> e.downtime.Some?
  {
    if rows != [] {
      ReportedCountAll(rows[1..]);
      assert forall e :: e in rows <==> e == rows[0] || e in rows[1..];
    }
  }

  /** `.mean()`: the sum over the present values divided by their number (counted in the reals,
      see `ReportedWeightIsCount`); missing (NaN) when no value is present. */
  function MeanDowntime(rows: seq<Event>): (m: Option<real>)
    ensures m.None? <==> forall e :: e in rows ==> e.downtime.None?
  {
    if ReportedCount(rows) == 0 then None
    else
      ReportedWeightIsCount(rows);
      Some(TotalDowntime(rows) / ReportedWeight(rows))
  }

  /** The average times the number of present values gives back the total. */
  lemma MeanTimesCount(rows: seq<Event>)
    requires MeanDowntime(rows).Some?
    ensures MeanDowntime(rows).value * ReportedWeight(rows) == TotalDowntime(rows)
  {
    ReportedWeightIsCount(rows);
    DivTimes(MeanDowntime(rows).value, TotalDowntime(rows), ReportedWeight(rows));
  }

  lemma DivTimes(m: real, t: real, w: real)
    requires w != 0.0 && m == t / w
    ensures m * w == t
  {
  }

  /** `.max()`: the largest present downtime, missing when none is present. */
  function LongestDowntime(rows: seq<Event>): (m: Option<real>)
    ensures m.None? <==> forall e :: e in rows ==> e.downtime.None?
    ensures m.Some? ==> exists e :: e in rows && e.downtime == m
    ensures m.Some? ==> forall e :: e in rows && e.downtime.Some? ==> e.downtime.value <= m.value
  {
    if rows == [] then None
    else
      var rest := LongestDowntime(rows[1..]);
      var here := rows[0].downtime;
      assert forall e :: e in rows ==> e == rows[0] || e in rows[1..];
      if here.None? then rest
      else if rest.None? || here.value >= rest.value then here
      else rest
  }

  /** `ReportedCount` as a real number, counted directly in the reals. */
  function ReportedWeight(rows: seq<Event>): real {
    if rows == [] then 0.0 else (if rows[0].downtime.Some? then 1.0 else 0.0) + ReportedWeight(rows[1..])
  }

  /** Counting in the reals gives the count `.mean()` divides by. */
  lemma {:induction false} ReportedWeightIsCount(rows: seq<Event>)
    ensures ReportedWeight(rows) == ReportedCount(rows) as real
  {
    if rows != [] { ReportedWeightIsCount(rows[1..]); }
  }

  /** `bound` once for every present downtime. */
  function BoundSum(rows: seq<Event>, bound: real): real {
    if rows == [] then 0.0 else (if rows[0].downtime.Some? then bound else 0.0) + BoundSum(rows[1..], bound)
  }

  lemma {:induction false} BoundSumIsProduct(rows: seq<Event>, bound: real)
    ensures BoundSum(rows, bound) == ReportedWeight(rows) * bound
  {
    if rows != [] {
      BoundSumIsProduct(rows[1..], bound);
      OneMore(ReportedWeight(rows[1..]), bound);
    }
  }

  /** Values none above `bound` sum to at most `bound` once per value. */
  lemma {:induction false} TotalAtMost(rows: seq<Event>, bound: real)
    requires forall e :: e in rows && e.downtime.Some? ==> e.downtime.value <= bound
    ensures TotalDowntime(rows) <= BoundSum(rows, bound)
  {
    if rows != [] {
      assert rows[0] in rows;
      assert forall e :: e in rows[1..] ==> e in rows;
      TotalAtMost(rows[1..], bound);
    }
  }

  lemma OneMore(n: real, b: real)
    ensures (n + 1.0) * b == n * b + b
  {
  }

  lemma MeanBound(t: real, w: real, top: real)
    requires w > 0.0 && t <= w * top
    ensures t / w <= top
  {
  }

  /** Present values none above `top` average to at most `top`. */
  lemma AverageAtMost(rows: seq<Event>, top: real)
    requires ReportedWeight(rows) > 0.0
    requires forall e :: e in rows && e.downtime.Some? ==> e.downtime.value <= top
    ensures TotalDowntime(rows) / ReportedWeight(rows) <= top
  {
    var t, w := TotalDowntime(rows), ReportedWeight(rows);
    TotalAtMost(rows, top);
    BoundSumIsProduct(rows, top);
    assert t <= w * top;
    MeanBound(t, w, top);
  }

  /** The average never exceeds the longest shutdown. */
  lemma MeanAtMostLongest(rows: seq<Event>)
    requires MeanDowntime(rows).Some?
    ensures LongestDowntime(rows).Some? && MeanDowntime(rows).value <= LongestDowntime(rows).value
  {
    ReportedWeightIsCount(rows);
    AverageAtMost(rows, LongestDowntime(rows).value);
  }

  /** `df["Downtime (Hrs)"] > 24` for one row: a missing downtime compares false. */
  predicate Over24(e: Event) {
    e.downtime.Some? && e.downtime.value > 24.0
  }

  /** `(df["Downtime (Hrs)"] > 24).sum()`: the rows reporting more than 24 hours. */
  function Over24Count(rows: seq<Event>): (n: nat)
    ensures n <= ReportedCount(rows)
    ensures n == 0 <==> forall e :: e in rows ==> !Over24(e)
    ensures n == ReportedCount(rows) <==> forall e :: e in rows && e.downtime.Some? ==> Over24(e)
  {
    if rows == [] then 0
    else
      assert forall e :: e in rows ==> e == rows[0] || e in rows[1..];
      (if Over24(rows[0]) then 1 else 0) + Over24Count(rows[1..])
  }

  lemma {:induction false} Over24Concat(a: seq<Event>, b: seq<Event>)
    ensures Over24Count(a + b) == Over24Count(a) + Over24Count(b)
  {
    if a == [] {
      assert a + b == b;
    } else {
      assert (a + b)[1..] == a[1..] + b;
      Over24Concat(a[1..], b);
    }
  }

  /** `["Well"].nunique()`: at most one well per row, and none only for no rows. */
  function AffectedWells(rows: seq<Event>): (n: nat)
    ensures n <= |rows|
    ensures n == 0 <==> rows == []
  {
    WellSetBounds(rows);
    |set e | e in rows :: e.well|
  }

  lemma {:induction false} WellSetBounds(rows: seq<Event>)
    ensures |set e | e in rows :: e.well| <= |rows|
    ensures |set e | e in rows :: e.well| == 0 <==> rows == []
  {
    if rows != [] {
      WellSetBounds(rows[1..]);
      assert (set e | e in rows :: e.well) == (set e | e in rows[1..] :: e.well) + {rows[0].well} by {
        assert forall e :: e in rows <==> e == rows[0] || e in rows[1..];
      }
    }
  }

  /** The five KPI tiles. */
  datatype Kpis = Kpis(shutdowns: nat, downtime: real, average: Option<real>, over24: nat, wells: nat)

  /** The tiles are the row count, the null-safe sum, mean and count above 24 hours, and the
      number of distinct wells of the same rows. */
  function DashboardKpis(rows: seq<Event>): (k: Kpis)
    ensures k == Kpis(|rows|, TotalDowntime(rows), MeanDowntime(rows), Over24Count(rows), AffectedWells(rows))
    ensures k.over24 <= k.shutdowns
    ensures k.wells <= k.shutdowns && (k.wells == 0 <==> rows == [])
    ensures k.average.None? <==> forall e :: e in rows ==> e.downtime.None?
    ensures k.average.None? ==> k.downtime == 0.0
  {
    var k := Kpis(|rows|, TotalDowntime(rows), MeanDowntime(rows), Over24Count(rows), AffectedWells(rows));
    if k.average.None? then TotalOfUnreported(rows); k else k
  }

  /** Null-safe KPIs: downtimes 10, missing and 30 give a total of 40, an average
      of 20 over the two present values, and one shutdown above 24 hours. */
  lemma NullSafeKpis(a: Event, b: Event, c: Event)
    requires a.downtime == Some(10.0) && b.downtime == None && c.downtime == Some(30.0)
    ensures DashboardKpis([a, b, c]).shutdowns == 3
    ensures DashboardKpis([a, b, c]).downtime == 40.0
    ensures DashboardKpis([a, b, c]).average == Some(20.0)
    ensures DashboardKpis([a, b, c]).over24 == 1
  {
    var rows := [a, b, c];
    assert rows[1..] == [b, c] && [b, c][1..] == [c] && [c][1..] == [];
    assert [c][1..] == [];
    assert TotalDowntime([c]) == 30.0 && Over24Count([c]) == 1 && ReportedWeight([c]) == 1.0;
    assert TotalDowntime([b, c]) == 30.0 && Over24Count([b, c]) == 1 && ReportedWeight([b, c]) == 1.0;
    assert TotalDowntime(rows) == 40.0 && Over24Count(rows) == 1;
    assert ReportedWeight(rows) == 2.0 && ReportedCount(rows) == 2;
  }

  // ---------------------------------------------------------------------------------------
  // Grouping

  /** The column `col` of every row, in order. */
  function KeysOf(rows: seq<Event>, col: Column): (keys: seq<string>)
    ensures |keys| == |rows|
    ensures forall i :: 0 <= i < |rows| ==> keys[i] == Key(rows[i], col)
  {
    if rows == [] then [] else [Key(rows[0], col)] + KeysOf(rows[1..], col)
  }

  lemma StrLeIsTotalPreorder()
    ensures TotalPreorder(StrLe)
  {
    forall a: string, b: string ensures StrLe(a, b) || StrLe(b, a) { StrLeTotal(a, b); }
    forall a: string, b: string, c: string | StrLe(a, b) && StrLe(b, c) ensures StrLe(a, c) {
      StrLeTransitive(a, b, c);
    }
  }

  lemma KeysOfMembers(rows: seq<Event>, col: Column)
    ensures forall k :: k in KeysOf(rows, col) <==> exists e :: e in rows && Key(e, col) == k
  {
    var all := KeysOf(rows, col);
    forall k ensures k in all <==> exists e :: e in rows && Key(e, col) == k {
      if k in all {
        var j :| 0 <= j < |all| && all[j] == k;
        assert rows[j] in rows;
      }
      if exists e :: e in rows && Key(e, col) == k {
        var e :| e in rows && Key(e, col) == k;
        var j :| 0 <= j < |rows| && rows[j] == e;
        assert all[j] == k;
      }
    }
  }

  /** The keys of `groupby(col)`: every distinct value of the column once, in ascending order. */
  function GroupKeys(rows: seq<Event>, col: Column): (keys: seq<string>)
    ensures NoDuplicates(keys)
    ensures forall i, j :: 0 <= i < j < |keys| ==> StrLt(keys[i], keys[j])
    ensures forall k :: k in keys <==> exists e :: e in rows && Key(e, col) == k
  {
    var distinct := Distinct(KeysOf(rows, col));
    StrLeIsTotalPreorder();
    var keys := SortBy(distinct, StrLe);
    PermutationNoDuplicates(distinct, keys);
    SameElements(keys, distinct);
    DistinctSameElements(KeysOf(rows, col));
    KeysOfMembers(rows, col);
    keys
  }

  /** The number of distinct wells is the number of well groups. */
  lemma GroupKeysCount(rows: seq<Event>)
    ensures |GroupKeys(rows, Well)| == AffectedWells(rows)
  {
    var keys := GroupKeys(rows, Well);
    NoDuplicatesCardinality(keys);
    assert (set k | k in keys) == (set e | e in rows :: e.well) by {
      forall k | k in keys ensures k in (set e | e in rows :: e.well) {
        var e :| e in rows && Key(e, Well) == k;
      }
    }
  }

  /** `groupby(col).size()` for one key. */
  function CountKey(rows: seq<Event>, col: Column, k: string): nat {
    |Where(rows, Equals(col, k))|
  }

  /** `groupby(col)["Downtime (Hrs)"].sum()` for one key. */
  function KeyDowntime(rows: seq<Event>, col: Column, k: string): real {
    TotalDowntime(Where(rows, Equals(col, k)))
  }

  /** A group's size and downtime are those of its part in each block of rows, added up; a key no
      row carries has an empty group, of size 0 and downtime 0. */
  lemma GroupOfConcat(a: seq<Event>, b: seq<Event>, col: Column, k: string)
    ensures CountKey(a + b, col, k) == CountKey(a, col, k) + CountKey(b, col, k)
    ensures KeyDowntime(a + b, col, k) == KeyDowntime(a, col, k) + KeyDowntime(b, col, k)
    ensures (forall e :: e in a ==> Key(e, col) != k) ==> CountKey(a, col, k) == 0 && KeyDowntime(a, col, k) == 0.0
  {
    WhereConcat(a, b, Equals(col, k));
    TotalConcat(Where(a, Equals(col, k)), Where(b, Equals(col, k)));
    if forall e :: e in a ==> Key(e, col) != k {
      NoRowNoGroup(a, col, k);
    }
  }

  lemma {:induction false} NoRowNoGroup(rows: seq<Event>, col: Column, k: string)
    requires forall e :: e in rows ==> Key(e, col) != k
    ensures Where(rows, Equals(col, k)) == []
  {
    if rows != [] {
      assert rows[0] in rows;
      assert forall e :: e in rows[1..] ==> e in rows;
      NoRowNoGroup(rows[1..], col, k);
    }
  }

  /** The group sizes of the keys in `keys`, added up. */
  function SumCounts(rows: seq<Event>, col: Column, keys: seq<string>): nat {
    if keys == [] then 0 else CountKey(rows, col, keys[0]) + SumCounts(rows, col, keys[1..])
  }

  /** The group downtimes of the keys in `keys`, added up. */
  function SumDowntimes(rows: seq<Event>, col: Column, keys: seq<string>): real {
    if keys == [] then 0.0 else KeyDowntime(rows, col, keys[0]) + SumDowntimes(rows, col, keys[1..])
  }

  /** Adding one row in front adds it to the one group among `keys` it belongs to, if any. */
  lemma {:induction false} SumCountsStep(x: Event, rest: seq<Event>, col: Column, keys: seq<string>)
    requires NoDuplicates(keys)
    ensures SumCounts([x] + rest, col, keys) == (if Key(x, col) in keys then 1 else 0) + SumCounts(rest, col, keys)
  {
    if keys != [] {
      assert ([x] + rest)[1..] == rest;
      assert NoDuplicates(keys[1..]) by {
        forall i, j | 0 <= i < j < |keys[1..]| ensures keys[1..][i] != keys[1..][j] {
          assert keys[1..][i] == keys[i + 1] && keys[1..][j] == keys[j + 1];
        }
      }
      SumCountsStep(x, rest, col, keys[1..]);
      assert Key(x, col) == keys[0] ==> Key(x, col) !in keys[1..];
      assert Key(x, col) in keys <==> Key(x, col) == keys[0] || Key(x, col) in keys[1..];
    }
  }

  lemma {:induction false} SumDowntimesStep(x: Event, rest: seq<Event>, col: Column, keys: seq<string>)
    requires NoDuplicates(keys)
    ensures SumDowntimes([x] + rest, col, keys)
         == (if Key(x, col) in keys then Hours(x) else 0.0) + SumDowntimes(rest, col, keys)
  {
    if keys != [] {
      assert ([x] + rest)[1..] == rest;
      assert NoDuplicates(keys[1..]) by {
        forall i, j | 0 <= i < j < |keys[1..]| ensures keys[1..][i] != keys[1..][j] {
          assert keys[1..][i] == keys[i + 1] && keys[1..][j] == keys[j + 1];
        }
      }
      SumDowntimesStep(x, rest, col, keys[1..]);
      assert Key(x, col) == keys[0] ==> Key(x, col) !in keys[1..];
      assert Key(x, col) in keys <==> Key(x, col) == keys[0] || Key(x, col) in keys[1..];
    }
  }

  /** Groups over keys that cover every row exactly once count every row exactly once. */
  lemma {:induction false} CountsPartition(rows: seq<Event>, col: Column, keys: seq<string>)
    requires NoDuplicates(keys)
    requires forall e :: e in rows ==> Key(e, col) in keys
    ensures SumCounts(rows, col, keys) == |rows|
  {
    if rows == [] {
      ZeroCounts(col, keys);
    } else {
      var x, rest := rows[0], rows[1..];
      assert rows == [x] + rest;
      assert forall e :: e in rest ==> e in rows;
      CountsPartition(rest, col, keys);
      SumCountsStep(x, rest, col, keys);
    }
  }

  lemma {:induction false} ZeroCounts(col: Column, keys: seq<string>)
    ensures SumCounts([], col, keys) == 0 && SumDowntimes([], col, keys) == 0.0
  {
    if keys != [] { ZeroCounts(col, keys[1..]); }
  }

  /** Groups over keys that cover every row exactly once add up to the whole downtime. */
  lemma {:induction false} DowntimePartition(rows: seq<Event>, col: Column, keys: seq<string>)
    requires NoDuplicates(keys)
    requires forall e :: e in rows ==> Key(e, col) in keys
    ensures SumDowntimes(rows, col, keys) == TotalDowntime(rows)
  {
    if rows == [] {
      ZeroCounts(col, keys);
    } else {
      var x, rest := rows[0], rows[1..];
      assert rows == [x] + rest;
      assert forall e :: e in rest ==> e in rows;
      DowntimePartition(rest, col, keys);
      SumDowntimesStep(x, rest, col, keys);
    }
  }

  // ---------------------------------------------------------------------------------------
  // Top wells (app.py:214-217)

  /** One group of `groupby(col)["Downtime (Hrs)"].sum()`. */
  datatype GroupTotal = GroupTotal(key: string, total: real)

  /** `groupby(col)["Downtime (Hrs)"].sum()` over the given keys. */
  function TotalsOf(rows: seq<Event>, col: Column, keys: seq<string>): seq<GroupTotal> {
    seq(|keys|, i requires 0 <= i < |keys| => GroupTotal(keys[i], KeyDowntime(rows, col, keys[i])))
  }

  function SumOfTotals(totals: seq<GroupTotal>): real {
    if totals == [] then 0.0 else totals[0].total + SumOfTotals(totals[1..])
  }

  lemma {:induction false} SumOfTotalsOf(rows: seq<Event>, col: Column, keys: seq<string>)
    ensures SumOfTotals(TotalsOf(rows, col, keys)) == SumDowntimes(rows, col, keys)
  {
    if keys != [] {
      assert TotalsOf(rows, col, keys)[1..] == TotalsOf(rows, col, keys[1..]);
      SumOfTotalsOf(rows, col, keys[1..]);
    }
  }

  /** The groups of `groupby(col)["Downtime (Hrs)"].sum()`, in key order, add up to the whole
      downtime: every row falls in exactly one group. */
  lemma GroupTotalsAddUp(rows: seq<Event>, col: Column)
    ensures SumOfTotals(TotalsOf(rows, col, GroupKeys(rows, col))) == TotalDowntime(rows)
  {
    var keys := GroupKeys(rows, col);
    DowntimePartition(rows, col, keys);
    SumOfTotalsOf(rows, col, keys);
  }

  function WellTotals(rows: seq<Event>): seq<GroupTotal> {
    TotalsOf(rows, Well, GroupKeys(rows, Well))
  }

  /** The order of `sort_values(ascending=False)` on the summed downtime. */
  predicate MoreDowntime(a: GroupTotal, b: GroupTotal) {
    a.total >= b.total
  }

  /** The well totals, largest first; ties in no promised order. */
  function RankedWells(rows: seq<Event>): (r: seq<GroupTotal>)
    ensures |r| == AffectedWells(rows)
    ensures NoDuplicates(r) && SortedBy(r, MoreDowntime)
    ensures forall w :: w in r <==> w.key in GroupKeys(rows, Well) && w.total == KeyDowntime(rows, Well, w.key)
  {
    var keys := GroupKeys(rows, Well);
    var totals := WellTotals(rows);
    assert TotalPreorder(MoreDowntime);
    var r := SortBy(totals, MoreDowntime);
    GroupKeysCount(rows);
    assert |r| == |totals| by { assert |multiset(r)| == |multiset(totals)|; }
    assert NoDuplicates(totals) by {
      forall i, j | 0 <= i < j < |totals| ensures totals[i] != totals[j] {
        assert totals[i].key == keys[i] && totals[j].key == keys[j];
      }
    }
    PermutationNoDuplicates(totals, r);
    SameElements(r, totals);
    assert forall w :: w in totals <==> w.key in keys && w.total == KeyDowntime(rows, Well, w.key) by {
      forall w ensures w in totals <==> w.key in keys && w.total == KeyDowntime(rows, Well, w.key) {
        if w.key in keys && w.total == KeyDowntime(rows, Well, w.key) {
          var k :| 0 <= k < |keys| && keys[k] == w.key;
          assert totals[k] == w;
        }
      }
    }
    r
  }

  /** `.head(10)` */
  const TopCount: nat := 10

  /** At most ten bars: one per distinct well when there are no more than ten. */
  function TopWells(rows: seq<Event>): (r: seq<GroupTotal>)
    ensures |r| == if AffectedWells(rows) < TopCount then AffectedWells(rows) else TopCount
  {
    Head(RankedWells(rows), TopCount)
  }

  /** Every bar is a distinct well of the rows, carrying that well's summed downtime, and the bars
      come largest first. */
  lemma TopWellsBars(rows: seq<Event>)
    ensures forall i :: 0 <= i < |TopWells(rows)| ==>
      (exists e :: e in rows && e.well == TopWells(rows)[i].key)
      && TopWells(rows)[i].total == KeyDowntime(rows, Well, TopWells(rows)[i].key)
    ensures forall i, j :: 0 <= i < j < |TopWells(rows)| ==>
      TopWells(rows)[i].key != TopWells(rows)[j].key && TopWells(rows)[i].total >= TopWells(rows)[j].total
  {
    var ranked := RankedWells(rows);
    var top := TopWells(rows);
    forall i | 0 <= i < |top|
      ensures (exists e :: e in rows && e.well == top[i].key)
      ensures top[i].total == KeyDowntime(rows, Well, top[i].key)
    {
      assert top[i] == ranked[i] && ranked[i] in ranked;
      var e :| e in rows && Key(e, Well) == top[i].key;
    }
    forall i, j | 0 <= i < j < |top|
      ensures top[i].key != top[j].key && top[i].total >= top[j].total
    {
      assert top[i] == ranked[i] && top[j] == ranked[j];
      assert ranked[i] in ranked && ranked[j] in ranked;
      assert MoreDowntime(ranked[i], ranked[j]);
    }
  }

  /** No well left off the chart has more downtime than any bar on it. */
  lemma TopWellsAreLargest(rows: seq<Event>, e: Event)
    requires e in rows
    requires forall j :: 0 <= j < |TopWells(rows)| ==> TopWells(rows)[j].key != e.well
    ensures forall i :: 0 <= i < |TopWells(rows)| ==> KeyDowntime(rows, Well, e.well) <= TopWells(rows)[i].total
  {
    var ranked := RankedWells(rows);
    var w := GroupTotal(e.well, KeyDowntime(rows, Well, e.well));
    assert Key(e, Well) == e.well;
    assert w in ranked;
    assert w !in TopWells(rows) by {
      forall j | 0 <= j < |TopWells(rows)| ensures TopWells(rows)[j] != w {
        assert TopWells(rows)[j].key != e.well;
      }
    }
    LeftOutNotLarger(ranked, w);
  }

  /** A total of the ranking that did not make the first ten is no larger than any that did. */
  lemma LeftOutNotLarger(ranked: seq<GroupTotal>, w: GroupTotal)
    requires SortedBy(ranked, MoreDowntime)
    requires w in ranked && w !in Head(ranked, TopCount)
    ensures forall i :: 0 <= i < |Head(ranked, TopCount)| ==> w.total <= Head(ranked, TopCount)[i].total
  {
    var top := Head(ranked, TopCount);
    HeadKeepsFirst(ranked, TopCount, MoreDowntime);
    assert w in multiset(ranked) - multiset(top);
    forall i | 0 <= i < |top| ensures w.total <= top[i].total {
      assert top[i] in top;
      assert MoreDowntime(top[i], w);
    }
  }

  // ---------------------------------------------------------------------------------------
  // Monthly trend (app.py:246)

  /** One group of `groupby(col).size()`. */
  datatype GroupCount = GroupCount(key: string, count: nat)

  /** `groupby(col).size()` over the given keys. */
  function CountsOf(rows: seq<Event>, col: Column, keys: seq<string>): seq<GroupCount> {
    seq(|keys|, i requires 0 <= i < |keys| => GroupCount(keys[i], CountKey(rows, col, keys[i])))
  }

  /** `groupby("Shutdown Month").size()`: one point per distinct month key, the points adding up
      to the number of rows, rows without a shutdown timestamp being counted under their own key. */
  function MonthlyCounts(rows: seq<Event>): (r: seq<GroupCount>)
    ensures GroupKeysOf(r) == GroupKeys(rows, Month)
    ensures SumOfCounts(r) == |rows|
  {
    var keys := GroupKeys(rows, Month);
    KeysOfCounts(rows, Month, keys);
    CountsPartition(rows, Month, keys);
    SumOfCountsOf(rows, Month, keys);
    CountsOf(rows, Month, keys)
  }

  function SumOfCounts(counts: seq<GroupCount>): nat {
    if counts == [] then 0 else counts[0].count + SumOfCounts(counts[1..])
  }

  lemma {:induction false} SumOfCountsOf(rows: seq<Event>, col: Column, keys: seq<string>)
    ensures SumOfCounts(CountsOf(rows, col, keys)) == SumCounts(rows, col, keys)
  {
    if keys != [] {
      assert CountsOf(rows, col, keys)[1..] == CountsOf(rows, col, keys[1..]);
      SumOfCountsOf(rows, col, keys[1..]);
    }
  }

  /** The monthly trend: one point per distinct month key, in ascending key order. */
  lemma MonthlyCountsOrdered(rows: seq<Event>)
    ensures forall i, j :: 0 <= i < j < |MonthlyCounts(rows)| ==>
      StrLt(MonthlyCounts(rows)[i].key, MonthlyCounts(rows)[j].key)
  {
    var keys := GroupKeys(rows, Month);
    var counts := MonthlyCounts(rows);
    forall i, j | 0 <= i < j < |counts| ensures StrLt(counts[i].key, counts[j].key) {
      assert counts[i].key == keys[i] && counts[j].key == keys[j];
    }
  }

  /** The keys of a list of counts, in order. */
  function GroupKeysOf(counts: seq<GroupCount>): seq<string> {
    seq(|counts|, i requires 0 <= i < |counts| => counts[i].key)
  }

  lemma KeysOfCounts(rows: seq<Event>, col: Column, keys: seq<string>)
    ensures GroupKeysOf(CountsOf(rows, col, keys)) == keys
  {
  }

  /** Every row's month key has its point in the monthly trend. */
  lemma MonthlyCountsCover(rows: seq<Event>, e: Event)
    requires e in rows
    ensures e.month in GroupKeysOf(MonthlyCounts(rows))
  {
    KeysOfCounts(rows, Month, GroupKeys(rows, Month));
    assert Key(e, Month) == e.month;
  }

  /** Every point of the monthly trend is the month key of some row. */
  lemma MonthlyCountsFromRows(rows: seq<Event>, m: string)
    requires m in GroupKeysOf(MonthlyCounts(rows))
    ensures exists e :: e in rows && e.month == m
  {
    KeysOfCounts(rows, Month, GroupKeys(rows, Month));
    MonthKeyWitness(rows, m);
  }

  lemma MonthKeyWitness(rows: seq<Event>, m: string)
    requires m in GroupKeys(rows, Month)
    ensures exists e :: e in rows && e.month == m
  {
    var e :| e in rows && Key(e, Month) == m;
    assert e.month == m;
  }

  /** Each point counts the rows of its month, and no point is empty. */
  lemma MonthlyCountsTotal(rows: seq<Event>)
    ensures forall i :: 0 <= i < |MonthlyCounts(rows)| ==>
      MonthlyCounts(rows)[i].count > 0
      && MonthlyCounts(rows)[i].count == |Where(rows, Equals(Month, MonthlyCounts(rows)[i].key))|
  {
    var keys := GroupKeys(rows, Month);
    var counts := MonthlyCounts(rows);
    forall i | 0 <= i < |counts| ensures counts[i].count > 0 {
      assert counts[i].key == keys[i] && keys[i] in keys;
      var e :| e in rows && Key(e, Month) == keys[i];
      assert e in Where(rows, Equals(Month, keys[i]));
    }
  }

  /** For rows as loading derives them, the point under the key "NaT" counts exactly the rows
      without a shutdown timestamp: they are grouped, not dropped. */
  lemma UndatedMonth(rows: seq<Event>)
    requires forall e :: e in rows ==> e.month == MonthKey(e.shutdown)
    ensures forall e :: e in Where(rows, Equals(Month, "NaT")) <==> e in rows && e.shutdown.None?
  {
  }
}
