/**
 dashboard/server.ts: `aggregateRevenue`. Amounts are `bigint`s; a row's time is its ISO-8601 text.
 */
module Revenue {
  import opened Ordering
  import opened StringOrder
  import opened Strings

  datatype Totals = Totals(gross: int, fee: int, net: int, count: int)

  datatype Row = Row(time: string, gross: int, fee: int, net: int)

  datatype Aggregate = Aggregate(period: string, totals: Totals)

  const Zero := Totals(0, 0, 0, 0)

  function Plus(a: Totals, b: Totals): Totals {
    Totals(a.gross + b.gross, a.fee + b.fee, a.net + b.net, a.count + b.count)
  }

  function One(row: Row): Totals { Totals(row.gross, row.fee, row.net, 1) }

  /** The first n characters, or all of a shorter text. */
  function Prefix(text: string, n: nat): string { if |text| <= n then text else text[..n] }

  function DayKey(row: Row): string { Prefix(row.time, 10) }

  function MonthKey(row: Row): string { Prefix(row.time, 7) }

  // ---------- what aggregation means ----------

  /** The totals of the rows in one period. */
  function TotalOf(rows: seq<Row>, key: Row -> string, period: string): Totals {
    if rows == [] then Zero
    else
      var last := rows[|rows| - 1];
      Plus(TotalOf(rows[..|rows| - 1], key, period), if key(last) == period then One(last) else Zero)
  }

  /** The totals of all rows. */
  function GrandTotal(rows: seq<Row>): Totals {
    if rows == [] then Zero else Plus(GrandTotal(rows[..|rows| - 1]), One(rows[|rows| - 1]))
  }

  predicate Earlier(a: Aggregate, b: Aggregate) { Less(a.period, b.period) }

  ghost predicate HasPeriod(buckets: seq<Aggregate>, p: string) {
    exists i :: 0 <= i < |buckets| && buckets[i].period == p
  }

  predicate Occurs(rows: seq<Row>, key: Row -> string, p: string) { exists i :: 0 <= i < |rows| && key(rows[i]) == p }

  /** One bucket for each period a row falls in, in ascending order, with that period's totals. */
  ghost predicate Aggregates(buckets: seq<Aggregate>, rows: seq<Row>, key: Row -> string) {
    && StrictlySorted(Earlier, buckets)
    && (forall p :: HasPeriod(buckets, p) <==> Occurs(rows, key, p))
    && (forall i :: 0 <= i < |buckets| ==> buckets[i].totals == TotalOf(rows, key, buckets[i].period))
  }

  // ---------- the aggregation ----------

  lemma EarlierIsStrictOrder()
    ensures StrictOrder(Earlier)
  {
    LessIsStrictOrder();
    hide Less;
  }

  lemma PeriodsComparable(entries: seq<Aggregate>)
    requires forall i, j :: 0 <= i < j < |entries| ==> entries[i].period != entries[j].period
    ensures ComparableOn(Earlier, entries)
  {
    hide Less;
    forall i, j | 0 <= i < j < |entries| ensures Earlier(entries[i], entries[j]) || Earlier(entries[j], entries[i]) {
      LessTotal(entries[i].period, entries[j].period);
    }
  }

  /** The entries of a Map in insertion order: one for each key seen, with its totals so far. */
  ghost predicate Buckets(order: seq<string>, buckets: map<string, Totals>, rows: seq<Row>, key: Row -> string) {
    && (forall i, j :: 0 <= i < j < |order| ==> order[i] != order[j])
    && (forall p :: p in order <==> p in buckets)
    && (forall p :: p in buckets <==> Occurs(rows, key, p))
    && (forall p :: p in buckets ==> buckets[p] == TotalOf(rows, key, p))
  }

  lemma {:induction false} NoTotal(rows: seq<Row>, key: Row -> string, period: string)
    requires !Occurs(rows, key, period)
    ensures TotalOf(rows, key, period) == Zero
  {
    if rows != [] {
      var n := |rows| - 1;
      assert key(rows[n]) != period;
      assert !Occurs(rows[..n], key, period);
      NoTotal(rows[..n], key, period);
      assert TotalOf(rows, key, period) == Plus(TotalOf(rows[..n], key, period), Zero);
      PlusZero(Zero);
    }
  }

  lemma TotalOfOneMore(rows: seq<Row>, row: Row, key: Row -> string, p: string)
    ensures TotalOf(rows + [row], key, p) == Plus(TotalOf(rows, key, p), if key(row) == p then One(row) else Zero)
    ensures Occurs(rows + [row], key, p) <==> Occurs(rows, key, p) || key(row) == p
  {
    var more := rows + [row];
    assert more[..|rows|] == rows;
    assert more[|rows|] == row;
    if Occurs(rows, key, p) {
      var i :| 0 <= i < |rows| && key(rows[i]) == p;
      assert more[i] == rows[i];
    }
  }

  lemma PlusZero(t: Totals)
    ensures Plus(t, Zero) == t && Plus(Zero, t) == t
  {
  }

  lemma OneMoreRow(order: seq<string>, buckets: map<string, Totals>, rows: seq<Row>, row: Row, key: Row -> string)
    requires Buckets(order, buckets, rows, key)
    ensures var p := key(row); var bucket := if p in buckets then buckets[p] else Zero;
            Buckets(if p in buckets then order else order + [p], buckets[p := Plus(bucket, One(row))],
                    rows + [row], key)
  {
    var p := key(row);
    var bucket := if p in buckets then buckets[p] else Zero;
    var more := rows + [row];
    if p !in buckets { NoTotal(rows, key, p); }
    assert bucket == TotalOf(rows, key, p);
    hide TotalOf, Occurs, Plus, One, Buckets;
    forall q
      ensures Occurs(more, key, q) <==> Occurs(rows, key, q) || p == q
      ensures TotalOf(more, key, q) == if q == p then Plus(bucket, One(row)) else TotalOf(rows, key, q)
    {
      TotalOfOneMore(rows, row, key, q);
      PlusZero(TotalOf(rows, key, q));
    }
    OneMoreBucket(order, buckets, rows, more, p, Plus(bucket, One(row)), key);
  }

  lemma OneMoreBucket(order: seq<string>, buckets: map<string, Totals>, rows: seq<Row>, more: seq<Row>, p: string,
                      bucket: Totals, key: Row -> string)
    requires Buckets(order, buckets, rows, key)
    requires forall q :: Occurs(more, key, q) <==> Occurs(rows, key, q) || p == q
    requires forall q :: TotalOf(more, key, q) == if q == p then bucket else TotalOf(rows, key, q)
    ensures Buckets(if p in buckets then order else order + [p], buckets[p := bucket], more, key)
  {
    hide TotalOf, Occurs;
  }

  lemma NoBuckets(rows: seq<Row>, key: Row -> string)
    requires rows == []
    ensures Buckets([], map[], rows, key)
  {
  }

  method AggregateRevenue(rows: seq<Row>, key: Row -> string) returns (result: seq<Aggregate>)
    ensures Aggregates(result, rows, key)
    ensures forall i, j :: 0 <= i < j < |result| ==> Less(result[i].period, result[j].period)
  {
    var buckets: map<string, Totals> := map[];
    var order: seq<string> := [];
    hide Buckets, TotalOf, Aggregates, Occurs, Sort;
    NoBuckets(rows[..0], key);
    for i := 0 to |rows|
      invariant Buckets(order, buckets, rows[..i], key)
    {
      var row := rows[i];
      var p := key(row);
      OneMoreRow(order, buckets, rows[..i], row, key);
      assert rows[..i + 1] == rows[..i] + [row];
      var bucket := if p in buckets then buckets[p] else Zero;
      if p !in buckets { order := order + [p]; }
      bucket := Totals(bucket.gross + row.gross, bucket.fee + row.fee, bucket.net + row.net, bucket.count + 1);
      buckets := buckets[p := bucket];
    }
    assert rows[..|rows|] == rows;
    OrderIsKeys(order, buckets, rows, key);
    var entries := seq(|order|, i requires 0 <= i < |order| => Aggregate(order[i], buckets[order[i]]));
    result := Sort(Earlier, entries);
    SortedEntriesAggregate(order, buckets, entries, rows, key);
    PeriodsAscend(result, rows, key);
  }

  lemma PeriodsAscend(buckets: seq<Aggregate>, rows: seq<Row>, key: Row -> string)
    requires Aggregates(buckets, rows, key)
    ensures forall i, j :: 0 <= i < j < |buckets| ==> Less(buckets[i].period, buckets[j].period)
  {
    hide Less, TotalOf;
    forall i, j | 0 <= i < j < |buckets| ensures Less(buckets[i].period, buckets[j].period) {
      assert Earlier(buckets[i], buckets[j]);
    }
  }

  lemma OrderIsKeys(order: seq<string>, buckets: map<string, Totals>, rows: seq<Row>, key: Row -> string)
    requires Buckets(order, buckets, rows, key)
    ensures forall i :: 0 <= i < |order| ==> order[i] in buckets
  {
  }

  lemma SortedEntriesAggregate(order: seq<string>, buckets: map<string, Totals>, entries: seq<Aggregate>,
                               rows: seq<Row>, key: Row -> string)
    requires Buckets(order, buckets, rows, key) && |entries| == |order|
    requires forall i :: 0 <= i < |order| ==>
                order[i] in buckets && entries[i] == Aggregate(order[i], buckets[order[i]])
    ensures Aggregates(Sort(Earlier, entries), rows, key)
  {
    EarlierIsStrictOrder();
    PeriodsComparable(entries);
    SortSorts(Earlier, entries);
    SortElements(Earlier, entries);
    EntriesAggregate(order, buckets, entries, Sort(Earlier, entries), rows, key);
  }

  lemma EntriesAggregate(order: seq<string>, buckets: map<string, Totals>, entries: seq<Aggregate>,
                         result: seq<Aggregate>, rows: seq<Row>, key: Row -> string)
    requires Buckets(order, buckets, rows, key) && |entries| == |order|
    requires forall i :: 0 <= i < |order| ==>
                order[i] in buckets && entries[i] == Aggregate(order[i], buckets[order[i]])
    requires StrictlySorted(Earlier, result) && forall x :: x in result <==> x in entries
    ensures Aggregates(result, rows, key)
  {
    hide TotalOf, StrictlySorted, Occurs;
    forall i | 0 <= i < |result| ensures result[i].period in buckets && result[i].totals == buckets[result[i].period] {
      assert result[i] in entries;
    }
    forall p | p in buckets ensures HasPeriod(result, p) {
      var i :| 0 <= i < |order| && order[i] == p;
      assert entries[i] in result;
    }
  }

  /** The rows determine the buckets. */
  lemma AggregatesUnique(a: seq<Aggregate>, b: seq<Aggregate>, rows: seq<Row>, key: Row -> string)
    requires Aggregates(a, rows, key) && Aggregates(b, rows, key)
    ensures a == b
  {
    EarlierIsStrictOrder();
    SameBuckets(a, b, rows, key);
    SameBuckets(b, a, rows, key);
    hide StrictlySorted, StrictOrder, TotalOf, Occurs;
    SortedUnique(Earlier, a, b);
  }

  lemma SameBuckets(a: seq<Aggregate>, b: seq<Aggregate>, rows: seq<Row>, key: Row -> string)
    requires Aggregates(a, rows, key) && Aggregates(b, rows, key)
    ensures forall x :: x in a ==> x in b
  {
    hide StrictlySorted, TotalOf, Occurs;
    forall x | x in a ensures x in b {
      assert HasPeriod(a, x.period);
      assert HasPeriod(b, x.period);
      var i :| 0 <= i < |b| && b[i].period == x.period;
      assert b[i] == x;
    }
  }

  // ---------- conservation and regrouping ----------

  /** The sum of the totals of those periods in the list that are wanted. */
  function SumOver(periods: seq<string>, wanted: string -> bool, rows: seq<Row>, key: Row -> string): Totals {
    if periods == [] then Zero
    else
      var p := periods[|periods| - 1];
      Plus(SumOver(periods[..|periods| - 1], wanted, rows, key), if wanted(p) then TotalOf(rows, key, p) else Zero)
  }

  lemma {:induction false} SumOverNoRows(periods: seq<string>, wanted: string -> bool, rows: seq<Row>,
          key: Row -> string)
    requires rows == []
    ensures SumOver(periods, wanted, rows, key) == Zero
  {
    if periods != [] {
      SumOverNoRows(periods[..|periods| - 1], wanted, rows, key);
      assert TotalOf(rows, key, periods[|periods| - 1]) == Zero;
      hide TotalOf;
    }
  }

  lemma PlusExchange(a: Totals, b: Totals, c: Totals, d: Totals)
    ensures Plus(Plus(a, b), Plus(c, d)) == Plus(Plus(a, c), Plus(b, d))
  {
  }

  /** What a row adds to the sum over the periods. */
  function Added(periods: seq<string>, wanted: string -> bool, row: Row, key: Row -> string): Totals {
    if key(row) in periods && wanted(key(row)) then One(row) else Zero
  }

  /** What a period adds to the sum. */
  function PeriodPart(p: string, wanted: string -> bool, rows: seq<Row>, key: Row -> string): Totals {
    if wanted(p) then TotalOf(rows, key, p) else Zero
  }

  lemma SumOverStep(front: seq<string>, p: string, wanted: string -> bool, rows: seq<Row>, key: Row -> string)
    ensures SumOver(front + [p], wanted, rows, key)
            == Plus(SumOver(front, wanted, rows, key), PeriodPart(p, wanted, rows, key))
  {
    hide TotalOf;
    assert (front + [p])[..|front|] == front;
  }

  /** What a row adds to a period. */
  function Share(p: string, wanted: string -> bool, row: Row, key: Row -> string): Totals {
    if wanted(p) && key(row) == p then One(row) else Zero
  }

  lemma PeriodPartOneMore(p: string, wanted: string -> bool, rows: seq<Row>, row: Row, key: Row -> string)
    ensures PeriodPart(p, wanted, rows + [row], key)
            == Plus(PeriodPart(p, wanted, rows, key), Share(p, wanted, row, key))
  {
    TotalOfOneMore(rows, row, key, p);
    hide TotalOf, Occurs;
  }

  lemma AddedStep(front: seq<string>, p: string, wanted: string -> bool, row: Row, key: Row -> string)
    requires p !in front
    ensures Added(front + [p], wanted, row, key) == Plus(Added(front, wanted, row, key), Share(p, wanted, row, key))
  {
  }

  lemma NothingToSum(periods: seq<string>, wanted: string -> bool, rows: seq<Row>, key: Row -> string)
    requires periods == []
    ensures SumOver(periods, wanted, rows, key) == Zero
  {
  }

  lemma NothingAdded(periods: seq<string>, wanted: string -> bool, row: Row, key: Row -> string)
    requires periods == []
    ensures Added(periods, wanted, row, key) == Zero
  {
  }

  lemma DistinctFront(periods: seq<string>)
    requires Distinct(periods) && periods != []
    ensures var n := |periods| - 1;
            Distinct(periods[..n]) && periods[n] !in periods[..n] && periods == periods[..n] + [periods[n]]
  {
  }

  /** One more row counts once, in its own period. */
  lemma {:induction false} SumOverOneMore(periods: seq<string>, wanted: string -> bool, rows: seq<Row>, row: Row,
          key: Row -> string)
    requires Distinct(periods)
    ensures SumOver(periods, wanted, rows + [row], key)
            == Plus(SumOver(periods, wanted, rows, key), Added(periods, wanted, row, key))
  {
    hide *;
    if periods == [] {
      NothingToSum(periods, wanted, rows, key);
      NothingToSum(periods, wanted, rows + [row], key);
      NothingAdded(periods, wanted, row, key);
      PlusZero(Zero);
    } else {
      DistinctFront(periods);
      var p, front := periods[|periods| - 1], periods[..|periods| - 1];
      SumOverStep(front, p, wanted, rows, key);
      SumOverStep(front, p, wanted, rows + [row], key);
      SumOverOneMore(front, wanted, rows, row, key);
      PeriodPartOneMore(p, wanted, rows, row, key);
      AddedStep(front, p, wanted, row, key);
      PlusExchange(SumOver(front, wanted, rows, key), Added(front, wanted, row, key),
          PeriodPart(p, wanted, rows, key), Share(p, wanted, row, key));
    }
  }

  /** The totals of the rows in wanted periods. */
  function TotalWhere(rows: seq<Row>, key: Row -> string, wanted: string -> bool): Totals {
    if rows == [] then Zero
    else
      var last := rows[|rows| - 1];
      Plus(TotalWhere(rows[..|rows| - 1], key, wanted), if wanted(key(last)) then One(last) else Zero)
  }

  lemma {:induction false} SumOverCovers(periods: seq<string>, wanted: string -> bool, rows: seq<Row>,
          key: Row -> string)
    requires Distinct(periods) && forall i :: 0 <= i < |rows| ==> key(rows[i]) in periods
    ensures SumOver(periods, wanted, rows, key) == TotalWhere(rows, key, wanted)
  {
    hide Distinct, SumOver, One;
    if rows == [] {
      SumOverNoRows(periods, wanted, rows, key);
    } else {
      var n := |rows| - 1;
      SumOverCovers(periods, wanted, rows[..n], key);
      SumOverOneMore(periods, wanted, rows[..n], rows[n], key);
      assert rows[..n] + [rows[n]] == rows;
    }
  }

  /** The sum of the buckets whose period is wanted. */
  function BucketSum(buckets: seq<Aggregate>, wanted: string -> bool): Totals {
    if buckets == [] then Zero
    else
      var last := buckets[|buckets| - 1];
      Plus(BucketSum(buckets[..|buckets| - 1], wanted), if wanted(last.period) then last.totals else Zero)
  }

  lemma {:induction false} BucketSumIsSumOver(buckets: seq<Aggregate>, wanted: string -> bool, periods: seq<string>,
          rows: seq<Row>, key: Row -> string)
    requires |periods| == |buckets|
    requires forall i :: 0 <= i < |buckets| ==>
                periods[i] == buckets[i].period && buckets[i].totals == TotalOf(rows, key, periods[i])
    ensures BucketSum(buckets, wanted) == SumOver(periods, wanted, rows, key)
  {
    hide TotalOf;
    if buckets != [] { BucketSumIsSumOver(buckets[..|buckets| - 1], wanted, periods[..|periods| - 1], rows, key); }
  }

  /** Whatever periods are wanted, their buckets hold exactly their rows' totals. */
  lemma BucketsHoldTheirRows(buckets: seq<Aggregate>, wanted: string -> bool, rows: seq<Row>, key: Row -> string)
    requires Aggregates(buckets, rows, key)
    ensures BucketSum(buckets, wanted) == TotalWhere(rows, key, wanted)
  {
    var periods := seq(|buckets|, i requires 0 <= i < |buckets| => buckets[i].period);
    hide TotalOf, BucketSum, TotalWhere;
    BucketSumIsSumOver(buckets, wanted, periods, rows, key);
    PeriodsDistinct(buckets, periods);
    forall j | 0 <= j < |rows| ensures key(rows[j]) in periods {
      assert Occurs(rows, key, key(rows[j]));
      assert HasPeriod(buckets, key(rows[j]));
      var i :| 0 <= i < |buckets| && buckets[i].period == key(rows[j]);
      assert periods[i] == key(rows[j]);
    }
    SumOverCovers(periods, wanted, rows, key);
  }

  lemma PeriodsDistinct(buckets: seq<Aggregate>, periods: seq<string>)
    requires StrictlySorted(Earlier, buckets)
    requires |periods| == |buckets| && forall i :: 0 <= i < |buckets| ==> periods[i] == buckets[i].period
    ensures Distinct(periods)
  {
    forall i, j | 0 <= i < j < |periods| ensures periods[i] != periods[j] {
      assert Earlier(buckets[i], buckets[j]);
      LessIrreflexive(periods[i]);
    }
  }

  lemma {:induction false} TotalWhereAll(rows: seq<Row>, key: Row -> string)
    ensures TotalWhere(rows, key, _ => true) == GrandTotal(rows)
  {
    if rows != [] { TotalWhereAll(rows[..|rows| - 1], key); }
  }

  /** Gross, fee, net and count are conserved over the buckets. */
  lemma Conservation(buckets: seq<Aggregate>, rows: seq<Row>, key: Row -> string)
    requires Aggregates(buckets, rows, key)
    ensures BucketSum(buckets, _ => true) == GrandTotal(rows)
  {
    hide Aggregates, BucketSum;
    BucketsHoldTheirRows(buckets, _ => true, rows, key);
    TotalWhereAll(rows, key);
  }

  lemma {:induction false} TotalNet(rows: seq<Row>, key: Row -> string, period: string)
    requires forall i :: 0 <= i < |rows| ==> rows[i].net == rows[i].gross - rows[i].fee
    ensures TotalOf(rows, key, period).net == TotalOf(rows, key, period).gross - TotalOf(rows, key, period).fee
  {
    if rows != [] { TotalNet(rows[..|rows| - 1], key, period); }
  }

  /** When every row's net is its gross less its fee, so is every bucket's. */
  lemma NetIsGrossLessFee(buckets: seq<Aggregate>, rows: seq<Row>, key: Row -> string)
    requires Aggregates(buckets, rows, key) && forall i :: 0 <= i < |rows| ==>
                rows[i].net == rows[i].gross - rows[i].fee
    ensures forall i :: 0 <= i < |buckets| ==> buckets[i].totals.net == buckets[i].totals.gross - buckets[i].totals.fee
  {
    hide TotalOf;
    forall i | 0 <= i < |buckets| ensures buckets[i].totals.net == buckets[i].totals.gross - buckets[i].totals.fee {
      TotalNet(rows, key, buckets[i].period);
    }
  }

  // ---------- days and months ----------

  /** A month of a day key, and of a row. */
  lemma MonthOfDay(row: Row)
    ensures Prefix(DayKey(row), 7) == MonthKey(row)
  {
    if |row.time| > 10 { assert row.time[..10][..7] == row.time[..7]; }
  }

  lemma {:induction false} MonthTotals(rows: seq<Row>, month: string)
    ensures TotalWhere(rows, DayKey, day => Prefix(day, 7) == month) == TotalOf(rows, MonthKey, month)
  {
    if rows != [] {
      MonthTotals(rows[..|rows| - 1], month);
      MonthOfDay(rows[|rows| - 1]);
      hide DayKey, MonthKey;
    }
  }

  /** Some daily bucket falls in the month. */
  ghost predicate HasDayIn(daily: seq<Aggregate>, month: string) {
    exists i :: 0 <= i < |daily| && Prefix(daily[i].period, 7) == month
  }

  /** The months of the daily buckets are the monthly buckets' periods, and each month's totals are
      the sum of its days'. */
  lemma RegroupingDaysIsMonths(daily: seq<Aggregate>, monthly: seq<Aggregate>, rows: seq<Row>)
    requires Aggregates(daily, rows, DayKey) && Aggregates(monthly, rows, MonthKey)
    ensures forall m :: HasPeriod(monthly, m) <==> HasDayIn(daily, m)
    ensures forall i :: 0 <= i < |monthly| ==>
               monthly[i].totals == BucketSum(daily, day => Prefix(day, 7) == monthly[i].period)
  {
    forall m ensures HasPeriod(monthly, m) <==> HasDayIn(daily, m) { SameMonths(daily, monthly, rows, m); }
    hide BucketSum, TotalOf, TotalWhere, DayKey, MonthKey, StrictlySorted, HasPeriod, Occurs;
    forall i | 0 <= i < |monthly|
      ensures monthly[i].totals == BucketSum(daily, day => Prefix(day, 7) == monthly[i].period)
    {
      BucketsHoldTheirRows(daily, day => Prefix(day, 7) == monthly[i].period, rows, DayKey);
      MonthTotals(rows, monthly[i].period);
    }
  }

  lemma SameMonths(daily: seq<Aggregate>, monthly: seq<Aggregate>, rows: seq<Row>, m: string)
    requires Aggregates(daily, rows, DayKey) && Aggregates(monthly, rows, MonthKey)
    ensures HasPeriod(monthly, m) <==> HasDayIn(daily, m)
  {
    hide TotalOf, DayKey, MonthKey, StrictlySorted;
    if HasPeriod(monthly, m) {
      assert Occurs(rows, MonthKey, m);
      var i :| 0 <= i < |rows| && MonthKey(rows[i]) == m;
      MonthOfDay(rows[i]);
      assert Occurs(rows, DayKey, DayKey(rows[i]));
      assert HasPeriod(daily, DayKey(rows[i]));
    }
    if HasDayIn(daily, m) {
      var d :| 0 <= d < |daily| && Prefix(daily[d].period, 7) == m;
      assert HasPeriod(daily, daily[d].period);
      assert Occurs(rows, DayKey, daily[d].period);
      var i :| 0 <= i < |rows| && DayKey(rows[i]) == daily[d].period;
      MonthOfDay(rows[i]);
      assert Occurs(rows, MonthKey, MonthKey(rows[i]));
    }
  }

  // ---------- what shares a key ----------

  /** The date of an ISO-8601 time: what precedes its T. */
  function DateOf(time: string): string { time[..IndexOf(time, 'T')] }

  /** Rows share a daily bucket if and only if their dates agree. Dates have 10 characters; years
      beyond 9999 make them longer, and then their days share a key as far as 10 characters go. */
  lemma SameDayIff(a: Row, b: Row)
    requires |DateOf(a.time)| >= 10 && |DateOf(b.time)| >= 10
    ensures DayKey(a) == DayKey(b) <==> DateOf(a.time)[..10] == DateOf(b.time)[..10]
    ensures |DateOf(a.time)| == |DateOf(b.time)| == 10 ==>
              (DayKey(a) == DayKey(b) <==> DateOf(a.time) == DateOf(b.time))
  {
    assert DateOf(a.time)[..10] == a.time[..10] && DateOf(b.time)[..10] == b.time[..10];
  }

  /** And a monthly one if and only if year and month agree. */
  lemma SameMonthIff(a: Row, b: Row)
    requires |DateOf(a.time)| == 10 && |DateOf(b.time)| == 10
    requires DateOf(a.time)[4] == '-' == DateOf(b.time)[4]
    ensures MonthKey(a) == MonthKey(b)
            <==> DateOf(a.time)[..4] == DateOf(b.time)[..4] && DateOf(a.time)[5..7] == DateOf(b.time)[5..7]
  {
    assert MonthKey(a) == DateOf(a.time)[..4] + "-" + DateOf(a.time)[5..7];
    assert MonthKey(b) == DateOf(b.time)[..4] + "-" + DateOf(b.time)[5..7];
    assert MonthKey(a)[..4] == DateOf(a.time)[..4] && MonthKey(a)[5..] == DateOf(a.time)[5..7];
    assert MonthKey(b)[..4] == DateOf(b.time)[..4] && MonthKey(b)[5..] == DateOf(b.time)[5..7];
  }

  // ---------- the totals as sums ----------

  /** The rows of one period, in their order. */
  function Selected(rows: seq<Row>, key: Row -> string, period: string): seq<Row> {
    if rows == [] then []
    else
      Selected(rows[..|rows| - 1], key, period)
      + if key(rows[|rows| - 1]) == period then [rows[|rows| - 1]] else []
  }

  function SumOf(rows: seq<Row>, amount: Row -> int): int {
    if rows == [] then 0 else SumOf(rows[..|rows| - 1], amount) + amount(rows[|rows| - 1])
  }

  lemma SumNext(rows: seq<Row>, row: Row, amount: Row -> int)
    ensures SumOf(rows + [row], amount) == SumOf(rows, amount) + amount(row)
  {
    assert (rows + [row])[..|rows|] == rows;
  }

  const GROSS := (row: Row) => row.gross
  const FEE := (row: Row) => row.fee
  const NET := (row: Row) => row.net

  lemma {:induction false} TotalsAreSums(rows: seq<Row>, key: Row -> string, period: string)
    ensures var selected := Selected(rows, key, period);
            TotalOf(rows, key, period)
            == Totals(SumOf(selected, GROSS), SumOf(selected, FEE), SumOf(selected, NET), |selected|)
  {
    if rows != [] {
      hide SumOf;
      var row, front := rows[|rows| - 1], Selected(rows[..|rows| - 1], key, period);
      TotalsAreSums(rows[..|rows| - 1], key, period);
      SumNext(front, row, GROSS);
      SumNext(front, row, FEE);
      SumNext(front, row, NET);
      assert front + [] == front;
    } else {
      assert SumOf([], GROSS) == SumOf([], FEE) == SumOf([], NET) == 0;
    }
  }

  /** A bucket holds, of its period's rows, the sum of the gross amounts, of the fees, of the net
      amounts, and their number. */
  lemma BucketsAreSums(buckets: seq<Aggregate>, rows: seq<Row>, key: Row -> string, i: nat)
    requires Aggregates(buckets, rows, key) && i < |buckets|
    ensures var selected, totals := Selected(rows, key, buckets[i].period), buckets[i].totals;
            && totals.gross == SumOf(selected, GROSS) && totals.fee == SumOf(selected, FEE)
            && totals.net == SumOf(selected, NET) && totals.count == |selected| > 0
  {
    TotalsAreSums(rows, key, buckets[i].period);
    assert HasPeriod(buckets, buckets[i].period);
    hide TotalOf, SumOf;
    var n :| 0 <= n < |rows| && key(rows[n]) == buckets[i].period;
    SelectedHolds(rows, key, buckets[i].period, n);
  }

  lemma {:induction false} SelectedHolds(rows: seq<Row>, key: Row -> string, period: string, n: nat)
    requires n < |rows| && key(rows[n]) == period
    ensures |Selected(rows, key, period)| > 0
  {
    if n < |rows| - 1 { SelectedHolds(rows[..|rows| - 1], key, period, n); }
  }
}
