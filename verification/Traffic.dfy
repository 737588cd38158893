/** The traffic series and its bars (frontend/src/mobile/MobileTrafficHistoryPage.tsx). */
module Traffic {
  import opened Prelude
  import opened Sorting

  /** Timestamps are points of a total order; rates are exact. */
  datatype Point = Point(ts: int, up: real, down: real)

  function TsOf(p: Point): int {
    p.ts
  }

  // ----- the simple form: one sum per timestamp -----

  function UpAt(points: seq<Point>, ts: int): real {
    if points == [] then 0.0
    else
      var last := points[|points| - 1];
      UpAt(points[..|points| - 1], ts) + if last.ts == ts then last.up else 0.0
  }

  function DownAt(points: seq<Point>, ts: int): real {
    if points == [] then 0.0
    else
      var last := points[|points| - 1];
      DownAt(points[..|points| - 1], ts) + if last.ts == ts then last.down else 0.0
  }

  ghost predicate Timestamp(points: seq<Point>, ts: int) {
    exists i :: 0 <= i < |points| && points[i].ts == ts
  }

  /** Each timestamp of the input once, in increasing order, with the sums of its points. */
  ghost predicate IsSeries(points: seq<Point>, series: seq<Point>) {
    && (forall i, j :: 0 <= i < j < |series| ==> series[i].ts < series[j].ts)
    && (forall ts :: Timestamp(series, ts) <==> Timestamp(points, ts))
    && (forall i :: 0 <= i < |series| ==> series[i].up == UpAt(points, series[i].ts)
                                          && series[i].down == DownAt(points, series[i].ts))
  }

  /** There is only one such series. */
  lemma SeriesIsUnique(points: seq<Point>, a: seq<Point>, b: seq<Point>)
    requires IsSeries(points, a) && IsSeries(points, b)
    ensures a == b
  {
    SameTimestamps(a, b);
  }

  lemma {:induction false} SameTimestamps(a: seq<Point>, b: seq<Point>)
    requires forall i, j :: 0 <= i < j < |a| ==> a[i].ts < a[j].ts
    requires forall i, j :: 0 <= i < j < |b| ==> b[i].ts < b[j].ts
    requires forall ts :: Timestamp(a, ts) <==> Timestamp(b, ts)
    ensures |a| == |b| && forall i :: 0 <= i < |a| ==> a[i].ts == b[i].ts
    decreases |a|
  {
    if a == [] {
      if b != [] { HeadOccurs(b); }
    } else {
      HeadOccurs(a);
      assert Timestamp(b, a[0].ts);
      HeadOccurs(b);
      assert Timestamp(a, b[0].ts);
      assert a[0].ts == b[0].ts;
      forall ts ensures Timestamp(a[1..], ts) <==> Timestamp(b[1..], ts) {
        TailOccurs(a, ts);
        TailOccurs(b, ts);
        assert Timestamp(a, ts) <==> Timestamp(b, ts);
      }
      SameTimestamps(a[1..], b[1..]);
      assert forall i :: 1 <= i < |a| ==> a[i] == a[1..][i - 1] && b[i] == b[1..][i - 1];
    }
  }

  lemma HeadOccurs(s: seq<Point>)
    requires s != []
    ensures Timestamp(s, s[0].ts)
  {
  }

  lemma TailOccurs(s: seq<Point>, ts: int)
    requires s != [] && forall i, j :: 0 <= i < j < |s| ==> s[i].ts < s[j].ts
    ensures Timestamp(s[1..], ts) <==> Timestamp(s, ts) && ts != s[0].ts
  {
    if Timestamp(s, ts) && ts != s[0].ts {
      var i :| 0 <= i < |s| && s[i].ts == ts;
      assert s[1..][i - 1].ts == ts;
    }
  }

  // ----- conservation -----

  function TotalUp(points: seq<Point>): real {
    if points == [] then 0.0 else TotalUp(points[..|points| - 1]) + points[|points| - 1].up
  }

  function TotalDown(points: seq<Point>): real {
    if points == [] then 0.0 else TotalDown(points[..|points| - 1]) + points[|points| - 1].down
  }

  /** The sums at a list of timestamps. */
  function UpOver(points: seq<Point>, at: seq<Point>): real {
    if at == [] then 0.0 else UpOver(points, at[..|at| - 1]) + UpAt(points, at[|at| - 1].ts)
  }

  function DownOver(points: seq<Point>, at: seq<Point>): real {
    if at == [] then 0.0 else DownOver(points, at[..|at| - 1]) + DownAt(points, at[|at| - 1].ts)
  }

  lemma {:induction false} OnePointCountsOnce(points: seq<Point>, p: Point, at: seq<Point>)
    requires forall i, j :: 0 <= i < j < |at| ==> at[i].ts < at[j].ts
    ensures UpOver(points + [p], at) == UpOver(points, at) + if Timestamp(at, p.ts) then p.up else 0.0
    ensures DownOver(points + [p], at) == DownOver(points, at) + if Timestamp(at, p.ts) then p.down else 0.0
  {
    if at != [] {
      var init, last := at[..|at| - 1], at[|at| - 1];
      OnePointCountsOnce(points, p, init);
      assert (points + [p])[..|points|] == points;
      if Timestamp(init, p.ts) {
        var i :| 0 <= i < |init| && init[i].ts == p.ts;
        assert at[i].ts == p.ts && last.ts != p.ts;
      } else {
        assert forall i :: 0 <= i < |init| ==> at[i] == init[i];
        assert last.ts == p.ts ==> at[|init|].ts == p.ts;
      }
    }
  }

  lemma {:induction false} NothingOverNothing(at: seq<Point>)
    ensures UpOver([], at) == 0.0 && DownOver([], at) == 0.0
  {
    if at != [] {
      NothingOverNothing(at[..|at| - 1]);
    }
  }

  lemma {:induction false} EveryPointCounts(points: seq<Point>, at: seq<Point>)
    requires forall i, j :: 0 <= i < j < |at| ==> at[i].ts < at[j].ts
    requires forall i :: 0 <= i < |points| ==> Timestamp(at, points[i].ts)
    ensures UpOver(points, at) == TotalUp(points) && DownOver(points, at) == TotalDown(points)
  {
    if points == [] {
      NothingOverNothing(at);
    } else {
      var init, p := points[..|points| - 1], points[|points| - 1];
      EveryPointCounts(init, at);
      OnePointCountsOnce(init, p, at);
      assert points == init + [p];
    }
  }

  lemma {:induction false} SeriesTotals(points: seq<Point>, series: seq<Point>)
    requires forall i :: 0 <= i < |series| ==> series[i].up == UpAt(points, series[i].ts)
                                               && series[i].down == DownAt(points, series[i].ts)
    ensures TotalUp(series) == UpOver(points, series) && TotalDown(series) == DownOver(points, series)
  {
    if series != [] {
      SeriesTotals(points, series[..|series| - 1]);
    }
  }

  /** No traffic is lost or counted twice. */
  lemma TrafficIsConserved(points: seq<Point>, series: seq<Point>)
    requires IsSeries(points, series)
    ensures TotalUp(series) == TotalUp(points) && TotalDown(series) == TotalDown(points)
  {
    forall i | 0 <= i < |points| ensures Timestamp(series, points[i].ts) {
      assert Timestamp(points, points[i].ts);
    }
    EveryPointCounts(points, series);
    SeriesTotals(points, series);
  }

  // ----- the loop and the sort -----

  ghost predicate AllDistinct(order: seq<int>) {
    forall i, j :: 0 <= i < j < |order| ==> order[i] != order[j]
  }

  ghost predicate KeyFits(points: seq<Point>, order: seq<int>, sums: map<int, (real, real)>, ts: int) {
    && (ts in order <==> ts in sums)
    && (ts in sums <==> Timestamp(points, ts))
    && (ts in sums ==> sums[ts] == (UpAt(points, ts), DownAt(points, ts)))
  }

  /** The Map: `order` lists its keys as inserted, `sums` its values. */
  ghost predicate Accumulates(points: seq<Point>, order: seq<int>, sums: map<int, (real, real)>) {
    AllDistinct(order) && forall ts :: KeyFits(points, order, sums, ts)
  }

  lemma AtNewTimestamp(points: seq<Point>, ts: int)
    requires !Timestamp(points, ts)
    ensures UpAt(points, ts) == 0.0 && DownAt(points, ts) == 0.0
  {
    if points != [] {
      var init := points[..|points| - 1];
      assert forall i :: 0 <= i < |init| ==> init[i] == points[i];
      AtNewTimestamp(init, ts);
    }
  }

  lemma OneMoreTimestamp(points: seq<Point>, p: Point, ts: int)
    ensures Timestamp(points + [p], ts) <==> Timestamp(points, ts) || ts == p.ts
  {
    var more := points + [p];
    if Timestamp(points, ts) {
      var i :| 0 <= i < |points| && points[i].ts == ts;
      assert more[i].ts == ts;
    }
    assert more[|points|].ts == p.ts;
  }

  lemma AccumulateOne(points: seq<Point>, p: Point, order: seq<int>, sums: map<int, (real, real)>)
    requires Accumulates(points, order, sums)
    ensures var cur := if p.ts in sums then sums[p.ts] else (0.0, 0.0);
            Accumulates(points + [p], if p.ts in sums then order else order + [p.ts],
                        sums[p.ts := (cur.0 + p.up, cur.1 + p.down)])
  {
    assert KeyFits(points, order, sums, p.ts);
    if p.ts !in sums { AtNewTimestamp(points, p.ts); }
    var cur := if p.ts in sums then sums[p.ts] else (0.0, 0.0);
    var order' := if p.ts in sums then order else order + [p.ts];
    var sums' := sums[p.ts := (cur.0 + p.up, cur.1 + p.down)];
    forall ts ensures KeyFits(points + [p], order', sums', ts) {
      assert KeyFits(points, order, sums, ts);
      OneMoreTimestamp(points, p, ts);
      assert (points + [p])[..|points|] == points;
    }
  }

  lemma AccumulateAt(points: seq<Point>, i: nat, order: seq<int>, sums: map<int, (real, real)>)
    requires i < |points| && Accumulates(points[..i], order, sums)
    ensures var p := points[i];
            var cur := if p.ts in sums then sums[p.ts] else (0.0, 0.0);
            Accumulates(points[..i + 1], if p.ts in sums then order else order + [p.ts],
                        sums[p.ts := (cur.0 + p.up, cur.1 + p.down)])
  {
    AccumulateOne(points[..i], points[i], order, sums);
    assert points[..i + 1] == points[..i] + [points[i]];
  }

  lemma NothingAccumulated(points: seq<Point>)
    requires points == []
    ensures Accumulates(points, [], map[])
  {
  }

  lemma KeysInSums(points: seq<Point>, order: seq<int>, sums: map<int, (real, real)>)
    requires Accumulates(points, order, sums)
    ensures forall k :: 0 <= k < |order| ==> order[k] in sums
  {
    forall k | 0 <= k < |order| ensures order[k] in sums {
      assert KeyFits(points, order, sums, order[k]);
    }
  }

  method Series(points: seq<Point>) returns (series: seq<Point>)
    ensures IsSeries(points, series)
  {
    var order: seq<int> := [];
    var sums: map<int, (real, real)> := map[];
    var i := 0;
    NothingAccumulated(points[..0]);
    while i < |points|
      invariant 0 <= i <= |points|
      invariant Accumulates(points[..i], order, sums)
    {
      var p := points[i];
      AccumulateAt(points, i, order, sums);
      var cur := if p.ts in sums then sums[p.ts] else (0.0, 0.0);
      cur := (cur.0 + p.up, cur.1 + p.down);
      if p.ts !in sums { order := order + [p.ts]; }
      sums := sums[p.ts := cur];
      i := i + 1;
    }
    assert points[..i] == points;
    KeysInSums(points, order, sums);
    var entries := Entries(order, sums);
    series := SortBy(entries, TsOf);
    EntriesMakeSeries(points, order, sums, entries);
  }

  /** [...byTs.entries()], as points. */
  function Entries(order: seq<int>, sums: map<int, (real, real)>): (r: seq<Point>)
    requires forall k :: 0 <= k < |order| ==> order[k] in sums
    ensures |r| == |order|
    ensures forall k :: 0 <= k < |order| ==>
              order[k] in sums && r[k] == Point(order[k], sums[order[k]].0, sums[order[k]].1)
  {
    if order == [] then []
    else
      [Point(order[0], sums[order[0]].0, sums[order[0]].1)] + Entries(order[1..], sums)
  }

  lemma EntriesMakeSeries(points: seq<Point>, order: seq<int>, sums: map<int, (real, real)>, entries: seq<Point>)
    requires Accumulates(points, order, sums) && |entries| == |order|
    requires forall k :: 0 <= k < |order| ==>
               order[k] in sums && entries[k] == Point(order[k], sums[order[k]].0, sums[order[k]].1)
    ensures IsSeries(points, SortBy(entries, TsOf))
  {
    var series := SortBy(entries, TsOf);
    SortDistinct(entries);
    forall i | 0 <= i < |series|
      ensures series[i].up == UpAt(points, series[i].ts) && series[i].down == DownAt(points, series[i].ts)
    {
      assert series[i] in entries;
      assert KeyFits(points, order, sums, series[i].ts);
    }
    forall ts ensures Timestamp(series, ts) <==> Timestamp(points, ts) {
      assert KeyFits(points, order, sums, ts);
      if Timestamp(series, ts) {
        var i :| 0 <= i < |series| && series[i].ts == ts;
        assert series[i] in entries;
        var k :| 0 <= k < |entries| && entries[k] == series[i];
        assert order[k] == ts;
      }
      if Timestamp(points, ts) {
        var k :| 0 <= k < |order| && order[k] == ts;
        assert entries[k] in series;
        var i :| 0 <= i < |series| && series[i] == entries[k];
      }
    }
  }

  lemma SortDistinct(entries: seq<Point>)
    requires forall i, j :: 0 <= i < j < |entries| ==> entries[i].ts != entries[j].ts
    ensures var s := SortBy(entries, TsOf);
            && (forall i, j :: 0 <= i < j < |s| ==> s[i].ts < s[j].ts)
            && (forall p :: p in s <==> p in entries)
  {
    SortedDistinctKeys(entries, TsOf);
  }

  // ----- bars -----

  function Max(a: real, b: real): real {
    if a < b then b else a
  }

  function PeakDown(series: seq<Point>): real {
    if series == [] then 0.0 else Max(PeakDown(series[..|series| - 1]), series[|series| - 1].down)
  }

  function PeakUp(series: seq<Point>): real {
    if series == [] then 0.0 else Max(PeakUp(series[..|series| - 1]), series[|series| - 1].up)
  }

  function Scale(series: seq<Point>): real {
    Max(Max(PeakDown(series), PeakUp(series)), 0.001)
  }

  /** Heights in percent of the strip. */
  function DownHeight(p: Point, scale: real): real
    requires scale > 0.0
  {
    Max(1.0, p.down / scale * 70.0)
  }

  function UpHeight(p: Point, scale: real): real
    requires scale > 0.0
  {
    Max(1.0, p.up / scale * 30.0)
  }

  /** A peak is at least every sample, and is one of them unless none is positive. */
  lemma {:induction false} PeaksBound(series: seq<Point>)
    ensures forall i :: 0 <= i < |series| ==> series[i].down <= PeakDown(series) && series[i].up <= PeakUp(series)
    ensures PeakDown(series) > 0.0 ==> exists i :: 0 <= i < |series| && series[i].down == PeakDown(series)
    ensures PeakUp(series) > 0.0 ==> exists i :: 0 <= i < |series| && series[i].up == PeakUp(series)
  {
    if series != [] {
      var init := series[..|series| - 1];
      PeaksBound(init);
      assert forall i :: 0 <= i < |init| ==> init[i] == series[i];
    }
  }

  lemma Share(x: real, scale: real, full: real)
    requires scale > 0.0 && x <= scale && full >= 0.0
    ensures x / scale * full <= full
    ensures x == scale ==> x / scale * full == full
  {
    assert x / scale <= 1.0;
  }

  /** The two bars of a sample never outgrow the strip. */
  lemma BarsFit(series: seq<Point>, i: nat)
    requires i < |series|
    ensures var scale := Scale(series);
            && scale > 0.0
            && 1.0 <= DownHeight(series[i], scale) <= 70.0
            && 1.0 <= UpHeight(series[i], scale) <= 30.0
            && DownHeight(series[i], scale) + UpHeight(series[i], scale) <= 100.0
  {
    PeaksBound(series);
    Share(series[i].down, Scale(series), 70.0);
    Share(series[i].up, Scale(series), 30.0);
  }

  /** Unless all rates are tiny, some sample's bar reaches its full share: the scale is not too coarse. */
  lemma SomeBarIsFull(series: seq<Point>)
    requires Max(PeakDown(series), PeakUp(series)) >= 0.001
    ensures exists i :: 0 <= i < |series| &&
              (DownHeight(series[i], Scale(series)) == 70.0 || UpHeight(series[i], Scale(series)) == 30.0)
  {
    PeaksBound(series);
    var scale := Scale(series);
    if PeakDown(series) >= PeakUp(series) {
      var i :| 0 <= i < |series| && series[i].down == PeakDown(series);
      Share(series[i].down, scale, 70.0);
    } else {
      var i :| 0 <= i < |series| && series[i].up == PeakUp(series);
      Share(series[i].up, scale, 30.0);
    }
  }

  // ----- every bar -----

  lemma Scaled(x: real, scale: real, full: real)
    requires scale > 0.0
    ensures x / scale * full * scale == x * full
  {
    assert x / scale * scale == x;
  }

  lemma AboveFloor(x: real, scale: real, full: real, h: real)
    requires scale > 0.0 && h == Max(1.0, x / scale * full)
    ensures h > 1.0 ==> h * scale == x * full
    ensures h == 1.0 <==> x * full <= scale
  {
    var raw := x / scale * full;
    Scaled(x, scale, full);
    if raw <= 1.0 {
      TimesAtMost(raw, 1.0, scale);
    } else {
      TimesLess(1.0, raw, scale);
    }
  }

  lemma TimesAtMost(a: real, b: real, p: real)
    requires a <= b && p > 0.0
    ensures a * p <= b * p
  {
  }

  lemma TimesLess(a: real, b: real, p: real)
    requires a < b && p > 0.0
    ensures a * p < b * p
  {
  }

  lemma Cross(x: real, y: real, scale: real, h: real, k: real, full: real, other: real)
    requires scale > 0.0 && h * scale == x * full && k * scale == y * other
    ensures h * y * other == k * x * full
  {
    assert h * (k * scale) == h * (y * other) && k * (h * scale) == k * (x * full);
    assert h * (k * scale) == k * (h * scale);
    assert h * (y * other) == h * y * other && k * (x * full) == k * x * full;
  }

  /**
    A bar stands at the floor of one percent exactly when its share would not be more;
    the scale is the highest rate, but at least 0.001.
   */
  lemma FloorIff(series: seq<Point>, i: nat)
    requires i < |series|
    ensures var scale := Scale(series); var p := series[i];
            && (DownHeight(p, scale) == 1.0 <==> 70.0 * p.down <= scale)
            && (UpHeight(p, scale) == 1.0 <==> 30.0 * p.up <= scale)
    ensures forall j :: 0 <= j < |series| ==> series[j].down <= Scale(series) && series[j].up <= Scale(series)
    ensures Scale(series) == 0.001 || (Scale(series) > 0.001 &&
              exists j :: 0 <= j < |series| && (series[j].down == Scale(series) || series[j].up == Scale(series)))
  {
    PeaksBound(series);
    var scale, p := Scale(series), series[i];
    AboveFloor(p.down, scale, 70.0, DownHeight(p, scale));
    AboveFloor(p.up, scale, 30.0, UpHeight(p, scale));
  }

  lemma TwoBars(x: real, y: real, scale: real, full: real, other: real, h: real, k: real)
    requires scale > 0.0 && h == Max(1.0, x / scale * full) && k == Max(1.0, y / scale * other)
    ensures h > 1.0 && k > 1.0 ==> h * y * other == k * x * full
  {
    AboveFloor(x, scale, full, h);
    AboveFloor(y, scale, other, k);
    if h > 1.0 && k > 1.0 { Cross(x, y, scale, h, k, full, other); }
  }

  /** Above the floor the bars stand to each other as their rates do: 70 to 30 between down and up. */
  lemma BarsAreProportional(series: seq<Point>, i: nat, j: nat)
    requires i < |series| && j < |series|
    ensures var scale := Scale(series); var a, b := series[i], series[j];
            var da, db, ua, ub := DownHeight(a, scale), DownHeight(b, scale), UpHeight(a, scale), UpHeight(b, scale);
            && (da > 1.0 && db > 1.0 ==> da * b.down == db * a.down)
            && (ua > 1.0 && ub > 1.0 ==> ua * b.up == ub * a.up)
            && (da > 1.0 && ub > 1.0 ==> da * b.up * 30.0 == ub * a.down * 70.0)
  {
    var scale, a, b := Scale(series), series[i], series[j];
    var da, db, ua, ub := DownHeight(a, scale), DownHeight(b, scale), UpHeight(a, scale), UpHeight(b, scale);
    TwoBars(a.down, b.down, scale, 70.0, 70.0, da, db);
    TwoBars(a.up, b.up, scale, 30.0, 30.0, ua, ub);
    TwoBars(a.down, b.up, scale, 70.0, 30.0, da, ub);
  }

  /** A sample with a higher rate never has the lower bar. */
  lemma BarsAreOrdered(series: seq<Point>, i: nat, j: nat)
    requires i < |series| && j < |series|
    ensures var scale := Scale(series);
            && (series[i].down <= series[j].down ==> DownHeight(series[i], scale) <= DownHeight(series[j], scale))
            && (series[i].up <= series[j].up ==> UpHeight(series[i], scale) <= UpHeight(series[j], scale))
  {
    var scale := Scale(series);
    ShareGrows(series[i].down, series[j].down, scale, 70.0);
    ShareGrows(series[i].up, series[j].up, scale, 30.0);
  }

  lemma ShareGrows(x: real, y: real, scale: real, full: real)
    requires scale > 0.0 && full > 0.0
    ensures x <= y ==> x / scale * full <= y / scale * full
  {
    if x <= y {
      assert x / scale <= y / scale;
      TimesAtMost(x / scale, y / scale, full);
    }
  }
}
