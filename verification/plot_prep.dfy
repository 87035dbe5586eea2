/**
 * The data preparation of plot_fluorescence_data: time labels read back as
 * hours, the mean of the control rows at each time as a baseline, each SA row's
 * distance from its baseline, and the mean distance per time and cfu. A missing
 * value (pandas' NaN) is `None`.
 */
module PlotPrep {
  import opened Wrappers
  import opened PyText
  import opened Metadata
  import opened Batch

  /**
   * convert_time_to_hours: the label split at every colon must give exactly two
   * fields, both readable by `int()`; the result is hours plus minutes / 60, and
   * `None` in every other case.
   */
  function ConvertTimeToHours(timeStr: string): (h: Option<real>)
    ensures h.Some? <==>
              var parts := Split(timeStr, ':');
              |parts| == 2 && ParsePyInt(parts[0]).Some? && ParsePyInt(parts[1]).Some?
  {
    var parts := Split(timeStr, ':');
    if |parts| != 2 then None
    else HoursOf(ParsePyInt(parts[0]), ParsePyInt(parts[1]))
  }

  /** `hours + minutes / 60.0` once both fields have been read. */
  function HoursOf(hours: Option<int>, minutes: Option<int>): (h: Option<real>)
    ensures h.Some? <==> hours.Some? && minutes.Some?
  {
    var hs :- hours;
    var ms :- minutes;
    Some(hs as real + ms as real / 60.0)
  }

  lemma HoursOfFields(hours: int, minutes: int, value: real)
    requires value == hours as real + minutes as real / 60.0
    ensures HoursOf(Some(hours), Some(minutes)) == Some(value)
  {
  }

  /** Two integer fields around a single colon are read as hours and minutes. */
  lemma ConvertFields(a: string, b: string, hours: int, minutes: int, value: real)
    requires ':' !in a && ':' !in b
    requires ParsePyInt(a) == Some(hours) && ParsePyInt(b) == Some(minutes)
    requires value == hours as real + minutes as real / 60.0
    ensures ConvertTimeToHours(a + ":" + b) == Some(value)
  {
    SplitTwoFields(a, ':', b);
    ConvertSplit(a + ":" + b, a, b);
    HoursOfFields(hours, minutes, value);
  }

  lemma ConvertSplit(s: string, a: string, b: string)
    requires Split(s, ':') == [a, b]
    ensures ConvertTimeToHours(s) == HoursOf(ParsePyInt(a), ParsePyInt(b))
  {
  }

  /** A label whose hours field `int()` rejects is the `except` case. */
  lemma RejectedHoursField(a: string, b: string)
    requires ':' !in a && ':' !in b && ParsePyInt(a) == None
    ensures ConvertTimeToHours(a + ":" + b) == None
  {
    SplitTwoFields(a, ':', b);
    ConvertSplit(a + ":" + b, a, b);
  }

  /** A file separator (U+001C) before the hours is not skipped by `int()`, so the label has no hours. */
  lemma ExampleFileSeparatorLabel()
    ensures ConvertTimeToHours([0x1C as char] + "1:30") == None
  {
    var a := [0x1C as char] + "1";
    var b := "30";
    assert a[0] == 0x1C as char;
    LeadingNonDigit(a);
    assert forall k :: 0 <= k < |a| ==> a[k] != ':';
    assert forall k :: 0 <= k < |b| ==> b[k] != ':';
    RejectedHoursField(a, b);
    assert [0x1C as char] + "1:30" == a + ":" + b;
  }

  lemma NoColonInDecimal(i: int)
    ensures ':' !in IntToDecimal(i)
  {
    var d := NatToDecimal(if i < 0 then -i else i);
    assert forall k :: 0 <= k < |d| ==> d[k] != ':';
    if i < 0 {
      assert IntToDecimal(i) == "-" + d;
      assert forall k :: 0 <= k < |"-" + d| ==> ("-" + d)[k] != ':';
    }
  }

  lemma NoColonInDigits(d: string)
    requires AllDigits(d)
    ensures ':' !in d
  {
    assert forall k :: 0 <= k < |d| ==> d[k] != ':';
  }

  /** A label made of an integer, a colon and two-digit minutes reads back as hours and minutes. */
  lemma LabelReadsBack(hours: int, minutes: nat, value: real)
    requires value == hours as real + minutes as real / 60.0
    ensures ConvertTimeToHours(IntToDecimal(hours) + ":" + ZeroPad2(minutes)) == Some(value)
  {
    var m := ZeroPad2(minutes);
    NoColonInDecimal(hours);
    ParseIntToDecimal(hours);
    NoColonInDigits(m);
    ParseDigits(m);
    ConvertFields(IntToDecimal(hours), m, hours, minutes, value);
  }

  lemma PointHours(t: int, k: int, m: nat)
    requires PointFields(t, k, m)
    ensures k as real + m as real / 60.0 == (t - 1) as real / 2.0
  {
  }

  /** The label of time point `2k + 1` or `2k + 2` reads back as its hours. */
  lemma PointLabelHours(t: int, k: int, m: nat)
    requires PointFields(t, k, m)
    ensures ConvertTimeToHours(IntToDecimal(k) + ":" + ZeroPad2(m)) == Some((t - 1) as real / 2.0)
  {
    PointHours(t, k, m);
    LabelReadsBack(k, m, (t - 1) as real / 2.0);
  }

  lemma RoundTripAt(t: int, k: int, m: nat)
    requires PointFields(t, k, m)
    ensures ConvertTimeToHours(TimePointToString(t)) == Some((t - 1) as real / 2.0)
  {
    PointLabel(t, k, m);
    PointLabelHours(t, k, m);
  }

  /** Reading a time label back gives the time point's hours: `(t - 1) / 2`, for every integer `t`. */
  lemma TimeRoundTrip(t: int)
    ensures ConvertTimeToHours(TimePointToString(t)) == Some((t - 1) as real / 2.0)
  {
    RoundTripAt(t, (t - 1) / 2, if t % 2 == 0 then 30 else 0);
  }

  /** The sum of a real column; pixel sums are `RobustMean.Sum`, over whole numbers. */
  function Total(s: seq<real>): real {
    if s == [] then 0.0 else s[0] + Total(s[1..])
  }

  /** `.mean()` of a non-empty column. */
  function Average(s: seq<real>): (m: real)
    requires |s| > 0
    ensures m * |s| as real == Total(s)
  {
    Total(s) / |s| as real
  }

  /** A row of the loaded table with its `time_hours` column: `None` when the label does not read back. */
  datatype HourRow = HourRow(rec: Record, timeHours: Option<real>)

  /** `df['time_hours'] = df['time_str'].apply(convert_time_to_hours)`. */
  function AddHours(rows: seq<Record>): (table: seq<HourRow>)
    ensures |table| == |rows|
    ensures forall i :: 0 <= i < |rows| ==>
              table[i].rec == rows[i] && table[i].timeHours == ConvertTimeToHours(rows[i].timeStr)
  {
    seq(|rows|, i requires 0 <= i < |rows| => HourRow(rows[i], ConvertTimeToHours(rows[i].timeStr)))
  }

  predicate CtrAt(r: HourRow, t: real) {
    r.rec.sampleType == Ctr && r.timeHours == Some(t)
  }

  /** The intensities of the control rows at hour `t`, in table order. */
  function CtrValuesAt(table: seq<HourRow>, t: real): (vals: seq<real>)
    ensures |vals| <= |table|
  {
    if table == [] then []
    else
      var rest := CtrValuesAt(table[1..], t);
      if CtrAt(table[0], t) then [table[0].rec.meanIntensity] + rest else rest
  }

  /** The values averaged for a baseline are exactly the intensities of the control rows at that hour. */
  lemma {:induction false} CtrValuesMembers(table: seq<HourRow>, t: real, v: real)
    ensures v in CtrValuesAt(table, t) <==>
              exists i :: 0 <= i < |table| && CtrAt(table[i], t) && table[i].rec.meanIntensity == v
  {
    if table != [] {
      CtrValuesMembers(table[1..], t, v);
      assert forall i :: 1 <= i < |table| ==> table[i] == table[1..][i - 1];
      if exists i :: 0 <= i < |table| && CtrAt(table[i], t) && table[i].rec.meanIntensity == v {
        var i :| 0 <= i < |table| && CtrAt(table[i], t) && table[i].rec.meanIntensity == v;
        if i > 0 {
          assert table[1..][i - 1] == table[i];
        }
      }
    }
  }

  /** No value is averaged exactly when no control row is at that hour. */
  lemma CtrValuesEmpty(table: seq<HourRow>, t: real)
    ensures CtrValuesAt(table, t) == [] <==> forall i :: 0 <= i < |table| ==> !CtrAt(table[i], t)
  {
    var vals := CtrValuesAt(table, t);
    if vals != [] {
      CtrValuesMembers(table, t, vals[0]);
    }
    if i :| 0 <= i < |table| && CtrAt(table[i], t) {
      CtrValuesMembers(table, t, table[i].rec.meanIntensity);
    }
  }

  /** One more row at the end adds its intensity at the end when it is a control row at `t`. */
  lemma {:induction false} CtrValuesSnoc(init: seq<HourRow>, last: HourRow, t: real)
    ensures CtrValuesAt(init + [last], t)
         == CtrValuesAt(init, t) + (if CtrAt(last, t) then [last.rec.meanIntensity] else [])
    decreases |init|
  {
    if init == [] {
      assert init + [last] == [last] && [last][1..] == [];
    } else {
      assert (init + [last])[0] == init[0] && (init + [last])[1..] == init[1..] + [last];
      CtrValuesSnoc(init[1..], last, t);
    }
  }

  /**
   * The values averaged for a baseline count each control row at that hour once:
   * a value occurs as many times as there are such rows with that intensity.
   */
  lemma {:induction false} CtrValuesCount(table: seq<HourRow>, t: real, v: real)
    ensures multiset(CtrValuesAt(table, t))[v]
         == |set i | 0 <= i < |table| && CtrAt(table[i], t) && table[i].rec.meanIntensity == v|
    decreases |table|
  {
    if table != [] {
      var n := |table| - 1;
      var init, last := table[..n], table[n];
      assert table == init + [last];
      CtrValuesCount(init, t, v);
      CtrValuesSnoc(init, last, t);
      CtrRowsSnoc(table, init, last, t, v);
    }
  }

  /** The control rows at `t` with intensity `v`, one more row at the end. */
  lemma CtrRowsSnoc(table: seq<HourRow>, init: seq<HourRow>, last: HourRow, t: real, v: real)
    requires table == init + [last]
    ensures |set i | 0 <= i < |table| && CtrAt(table[i], t) && table[i].rec.meanIntensity == v|
         == |set i | 0 <= i < |init| && CtrAt(init[i], t) && init[i].rec.meanIntensity == v|
            + (if CtrAt(last, t) && last.rec.meanIntensity == v then 1 else 0)
  {
    var n := |init|;
    var before := set i | 0 <= i < n && CtrAt(init[i], t) && init[i].rec.meanIntensity == v;
    var after := set i | 0 <= i < |table| && CtrAt(table[i], t) && table[i].rec.meanIntensity == v;
    assert forall i :: 0 <= i < n ==> table[i] == init[i];
    if CtrAt(last, t) && last.rec.meanIntensity == v {
      assert after == before + {n};
    } else {
      assert after == before;
    }
  }

  /**
   * The control baseline at hour `t`: the mean intensity of the control rows at
   * that hour, `None` when there is none. Rows whose label does not read back
   * belong to no hour.
   */
  function CtrBaseline(table: seq<HourRow>, t: real): (b: Option<real>)
    ensures b.None? <==> forall i :: 0 <= i < |table| ==> !CtrAt(table[i], t)
    ensures b.Some? ==> b.value * |CtrValuesAt(table, t)| as real == Total(CtrValuesAt(table, t))
  {
    var vals := CtrValuesAt(table, t);
    CtrValuesEmpty(table, t);
    if vals == [] then None else Some(Average(vals))
  }

  /**
   * Control rows with equal intensities each count: three control rows at one
   * hour with intensities 10, 10 and 20 give the baseline 40/3, not 15.
   */
  lemma BaselineCountsEveryRow(table: seq<HourRow>, a: HourRow, b: HourRow, c: HourRow)
    requires table == [a, b, c]
    requires CtrAt(a, 1.0) && CtrAt(b, 1.0) && CtrAt(c, 1.0)
    requires a.rec.meanIntensity == 10.0 && b.rec.meanIntensity == 10.0 && c.rec.meanIntensity == 20.0
    ensures CtrBaseline(table, 1.0) == Some(40.0 / 3.0)
  {
    assert table[1..] == [b, c] && [b, c][1..] == [c] && [c][1..] == [];
    assert CtrValuesAt([c], 1.0) == [20.0];
    assert CtrValuesAt([b, c], 1.0) == [10.0] + [20.0];
    var vals := CtrValuesAt(table, 1.0);
    assert vals == [10.0] + [10.0, 20.0];
    assert vals[1..] == [10.0, 20.0] && [10.0, 20.0][1..] == [20.0] && [20.0][1..] == [];
    assert Total([20.0]) == 20.0 + Total([]);
    assert Total([10.0, 20.0]) == 10.0 + Total([20.0]);
    assert Total(vals) == 10.0 + Total([10.0, 20.0]);
  }

  /** The SA rows, in table order. */
  function SARows(table: seq<HourRow>): (sa: seq<HourRow>)
    ensures |sa| <= |table|
    ensures forall i :: 0 <= i < |sa| ==> sa[i].rec.sampleType == SA
    ensures forall r :: r in sa ==> r in table
    ensures forall r :: r in table && r.rec.sampleType == SA ==> r in sa
    ensures forall r :: multiset(sa)[r] == if r.rec.sampleType == SA then multiset(table)[r] else 0
  {
    if table == [] then []
    else
      var head, tail := table[0], table[1..];
      var rest := SARows(tail);
      assert table == [head] + tail;
      assert multiset(table) == multiset{head} + multiset(tail);
      if head.rec.sampleType == SA then [head] + rest else rest
  }

  /** The filter keeps table order: filtering two tables one after the other is filtering each. */
  lemma {:induction false} SARowsConcat(a: seq<HourRow>, b: seq<HourRow>)
    ensures SARows(a + b) == SARows(a) + SARows(b)
    decreases |a|
  {
    if a == [] {
      assert a + b == b;
    } else {
      assert (a + b)[0] == a[0] && (a + b)[1..] == a[1..] + b;
      SARowsConcat(a[1..], b);
    }
  }

  /** A row of the merged table: an SA row with its hours, its baseline and its distance from it. */
  datatype MergedRow = MergedRow(row: Record, timeHours: Option<real>, ctrMean: Option<real>, delta: Option<real>)

  function BaselineFor(table: seq<HourRow>, h: Option<real>): Option<real> {
    if h.None? then None else CtrBaseline(table, h.value)
  }

  /** One SA row joined with the baseline at its hour; the delta is missing with the baseline. */
  function MergeRow(table: seq<HourRow>, r: HourRow): (m: MergedRow)
    ensures m.row == r.rec && m.timeHours == r.timeHours
    ensures m.ctrMean == BaselineFor(table, r.timeHours)
    ensures m.delta.Some? <==> m.ctrMean.Some?
    ensures m.delta.Some? ==> m.delta.value + m.ctrMean.value == r.rec.meanIntensity
  {
    var b := BaselineFor(table, r.timeHours);
    MergedRow(r.rec, r.timeHours, b, if b.Some? then Some(r.rec.meanIntensity - b.value) else None)
  }

  /**
   * The left merge of the SA rows with the control baselines on the hours, and
   * the column `mean_intensity - Ctr_mean`. The merged table holds exactly the SA
   * rows, once each and in order.
   */
  function Merge(table: seq<HourRow>): (merged: seq<MergedRow>)
    ensures |merged| == |SARows(table)|
    ensures forall i :: 0 <= i < |merged| ==> merged[i] == MergeRow(table, SARows(table)[i])
  {
    var sa := SARows(table);
    seq(|sa|, i requires 0 <= i < |sa| => MergeRow(table, sa[i]))
  }

  predicate InGroup(m: MergedRow, t: real, cfu: nat) {
    m.timeHours == Some(t) && m.row.cfu == cfu
  }

  /** The deltas present in the group of hour `t` and `cfu`, in table order. */
  function GroupDeltas(merged: seq<MergedRow>, t: real, cfu: nat): (vals: seq<real>)
    ensures |vals| <= |merged|
  {
    if merged == [] then []
    else
      var rest := GroupDeltas(merged[1..], t, cfu);
      var m := merged[0];
      if InGroup(m, t, cfu) && m.delta.Some? then [m.delta.value] + rest else rest
  }

  /** The values averaged for a group are exactly the present deltas of its rows. */
  lemma {:induction false} GroupDeltasMembers(merged: seq<MergedRow>, t: real, cfu: nat, v: real)
    ensures v in GroupDeltas(merged, t, cfu) <==>
              exists i :: 0 <= i < |merged| && InGroup(merged[i], t, cfu) && merged[i].delta == Some(v)
  {
    if merged != [] {
      GroupDeltasMembers(merged[1..], t, cfu, v);
      assert forall i :: 1 <= i < |merged| ==> merged[i] == merged[1..][i - 1];
      if exists i :: 0 <= i < |merged| && InGroup(merged[i], t, cfu) && merged[i].delta == Some(v) {
        var i :| 0 <= i < |merged| && InGroup(merged[i], t, cfu) && merged[i].delta == Some(v);
        if i > 0 {
          assert merged[1..][i - 1] == merged[i];
        }
      }
    }
  }

  /** No delta is averaged exactly when no row of the group has one. */
  lemma GroupDeltasEmpty(merged: seq<MergedRow>, t: real, cfu: nat)
    ensures GroupDeltas(merged, t, cfu) == [] <==>
              forall i :: 0 <= i < |merged| ==> !(InGroup(merged[i], t, cfu) && merged[i].delta.Some?)
  {
    var vals := GroupDeltas(merged, t, cfu);
    if vals != [] {
      GroupDeltasMembers(merged, t, cfu, vals[0]);
    }
    if i :| 0 <= i < |merged| && InGroup(merged[i], t, cfu) && merged[i].delta.Some? {
      GroupDeltasMembers(merged, t, cfu, merged[i].delta.value);
    }
  }

  /** One more merged row at the end adds its delta at the end when it is in the group and has one. */
  lemma {:induction false} GroupDeltasSnoc(init: seq<MergedRow>, last: MergedRow, t: real, cfu: nat)
    ensures GroupDeltas(init + [last], t, cfu)
         == GroupDeltas(init, t, cfu) + (if InGroup(last, t, cfu) && last.delta.Some? then [last.delta.value] else [])
    decreases |init|
  {
    if init == [] {
      assert init + [last] == [last] && [last][1..] == [];
    } else {
      assert (init + [last])[0] == init[0] && (init + [last])[1..] == init[1..] + [last];
      GroupDeltasSnoc(init[1..], last, t, cfu);
    }
  }

  /**
   * The values averaged for a group count each of its rows once: a delta occurs
   * as many times as there are rows of the group with that delta.
   */
  lemma {:induction false} GroupDeltasCount(merged: seq<MergedRow>, t: real, cfu: nat, v: real)
    ensures multiset(GroupDeltas(merged, t, cfu))[v]
         == |set i | 0 <= i < |merged| && InGroup(merged[i], t, cfu) && merged[i].delta == Some(v)|
    decreases |merged|
  {
    if merged != [] {
      var n := |merged| - 1;
      var init, last := merged[..n], merged[n];
      assert merged == init + [last];
      GroupDeltasCount(init, t, cfu, v);
      GroupDeltasSnoc(init, last, t, cfu);
      GroupRowsSnoc(merged, init, last, t, cfu, v);
    }
  }

  /** The rows of a group with delta `v`, one more row at the end. */
  lemma GroupRowsSnoc(merged: seq<MergedRow>, init: seq<MergedRow>, last: MergedRow, t: real, cfu: nat, v: real)
    requires merged == init + [last]
    ensures |set i | 0 <= i < |merged| && InGroup(merged[i], t, cfu) && merged[i].delta == Some(v)|
         == |set i | 0 <= i < |init| && InGroup(init[i], t, cfu) && init[i].delta == Some(v)|
            + (if InGroup(last, t, cfu) && last.delta == Some(v) then 1 else 0)
  {
    var n := |init|;
    var before := set i | 0 <= i < n && InGroup(init[i], t, cfu) && init[i].delta == Some(v);
    var after := set i | 0 <= i < |merged| && InGroup(merged[i], t, cfu) && merged[i].delta == Some(v);
    assert forall i :: 0 <= i < n ==> merged[i] == init[i];
    if InGroup(last, t, cfu) && last.delta == Some(v) {
      assert after == before + {n};
    } else {
      assert after == before;
    }
  }

  /** The plotted mean of a group: the mean of its present deltas, missing when it has none. */
  function GroupMean(merged: seq<MergedRow>, t: real, cfu: nat): (mean: Option<real>)
    ensures mean.None? <==> forall i :: 0 <= i < |merged| ==> !(InGroup(merged[i], t, cfu) && merged[i].delta.Some?)
    ensures mean.Some? ==> mean.value * |GroupDeltas(merged, t, cfu)| as real == Total(GroupDeltas(merged, t, cfu))
  {
    var vals := GroupDeltas(merged, t, cfu);
    GroupDeltasEmpty(merged, t, cfu);
    if vals == [] then None else Some(Average(vals))
  }

  /** The groups of the merged table: one per hour and cfu among the rows whose hours are known. */
  function PlotKeys(merged: seq<MergedRow>): set<(real, nat)> {
    set i | 0 <= i < |merged| && merged[i].timeHours.Some? :: (merged[i].timeHours.value, merged[i].row.cfu)
  }

  /** The `mean` column of the aggregated table, by group, from the rows of the loaded table. */
  function PlotMeans(rows: seq<Record>): (means: map<(real, nat), Option<real>>)
    ensures var merged := Merge(AddHours(rows));
            && means.Keys == PlotKeys(merged)
            && forall k :: k in means ==> means[k] == GroupMean(merged, k.0, k.1)
  {
    var merged := Merge(AddHours(rows));
    map k | k in PlotKeys(merged) :: GroupMean(merged, k.0, k.1)
  }

  // ---------------------------------------------------------------------------
  // A common offset on every intensity cancels out of the deltas
  // ---------------------------------------------------------------------------

  function ShiftRow(r: HourRow, c: real): HourRow {
    r.(rec := r.rec.(meanIntensity := r.rec.meanIntensity + c))
  }

  /** Every intensity of the table moved by `c`; nothing else changes. */
  function Shift(table: seq<HourRow>, c: real): (shifted: seq<HourRow>)
    ensures |shifted| == |table|
    ensures forall i :: 0 <= i < |table| ==> shifted[i] == ShiftRow(table[i], c)
  {
    if table == [] then []
    else
      var rest := Shift(table[1..], c);
      assert forall i :: 1 <= i < |table| ==> table[i] == table[1..][i - 1];
      [ShiftRow(table[0], c)] + rest
  }

  function AddAll(s: seq<real>, c: real): (r: seq<real>)
    ensures |r| == |s|
  {
    if s == [] then [] else [s[0] + c] + AddAll(s[1..], c)
  }

  lemma {:induction false} TotalAddAll(s: seq<real>, c: real)
    ensures Total(AddAll(s, c)) == Total(s) + |s| as real * c
  {
    if s != [] {
      TotalAddAll(s[1..], c);
      assert AddAll(s, c)[1..] == AddAll(s[1..], c);
    }
  }

  /** Adding `n * c` to a total of `n` values adds `c` to their mean. */
  lemma MeanShift(total: real, n: real, c: real)
    requires n > 0.0
    ensures (total + n * c) / n == total / n + c
  {
    assert (total / n + c) * n == total + n * c;
  }

  lemma AverageAddAll(s: seq<real>, c: real)
    requires |s| > 0
    ensures Average(AddAll(s, c)) == Average(s) + c
  {
    TotalAddAll(s, c);
    MeanShift(Total(s), |s| as real, c);
  }

  lemma ShiftTail(table: seq<HourRow>, c: real)
    requires table != []
    ensures Shift(table, c)[1..] == Shift(table[1..], c)
  {
    assert ([ShiftRow(table[0], c)] + Shift(table[1..], c))[1..] == Shift(table[1..], c);
  }

  lemma AddAllCons(v: real, rest: seq<real>, c: real)
    ensures AddAll([v] + rest, c) == [v + c] + AddAll(rest, c)
  {
    assert ([v] + rest)[1..] == rest;
  }

  lemma {:induction false} CtrValuesShift(table: seq<HourRow>, t: real, c: real)
    ensures CtrValuesAt(Shift(table, c), t) == AddAll(CtrValuesAt(table, t), c)
  {
    if table != [] {
      CtrValuesShift(table[1..], t, c);
      ShiftTail(table, c);
      if CtrAt(table[0], t) {
        AddAllCons(table[0].rec.meanIntensity, CtrValuesAt(table[1..], t), c);
      }
    }
  }

  lemma ShiftCons(r: HourRow, rest: seq<HourRow>, c: real)
    ensures Shift([r] + rest, c) == [ShiftRow(r, c)] + Shift(rest, c)
  {
    assert ([r] + rest)[1..] == rest;
  }

  lemma {:induction false} SARowsShift(table: seq<HourRow>, c: real)
    ensures SARows(Shift(table, c)) == Shift(SARows(table), c)
  {
    if table != [] {
      SARowsShift(table[1..], c);
      if table[0].rec.sampleType == SA {
        ShiftCons(table[0], SARows(table[1..]), c);
      }
    }
  }

  /** Shifting every intensity moves the baseline at any hour by the same amount. */
  lemma BaselineShift(table: seq<HourRow>, h: Option<real>, c: real)
    ensures BaselineFor(Shift(table, c), h).Some? <==> BaselineFor(table, h).Some?
    ensures BaselineFor(table, h).Some? ==> BaselineFor(Shift(table, c), h).value == BaselineFor(table, h).value + c
  {
    if h.Some? {
      CtrValuesShift(table, h.value, c);
      if CtrValuesAt(table, h.value) != [] {
        AverageAddAll(CtrValuesAt(table, h.value), c);
      }
    }
  }

  /** Shifting every intensity leaves an SA row's hours, cfu and delta as they were. */
  lemma MergeRowShift(table: seq<HourRow>, r: HourRow, c: real)
    ensures SameDelta(MergeRow(table, r), MergeRow(Shift(table, c), ShiftRow(r, c)))
  {
    var m0, m1 := MergeRow(table, r), MergeRow(Shift(table, c), ShiftRow(r, c));
    BaselineShift(table, r.timeHours, c);
    assert m1.timeHours == m0.timeHours && m1.row.cfu == m0.row.cfu;
    if m0.delta.Some? {
      DeltaShift(r.rec.meanIntensity, m0.ctrMean.value, c, m0.delta.value, m1.delta.value);
    }
  }

  /** An intensity and its baseline moved by the same amount are the same distance apart. */
  lemma DeltaShift(v: real, b: real, c: real, d0: real, d1: real)
    requires d0 + b == v && d1 + (b + c) == v + c
    ensures d1 == d0
  {
  }

  lemma MergeShift(table: seq<HourRow>, c: real)
    ensures |Merge(Shift(table, c))| == |Merge(table)|
    ensures forall i :: 0 <= i < |Merge(table)| ==> SameDelta(Merge(table)[i], Merge(Shift(table, c))[i])
  {
    var sa := SARows(table);
    SARowsShift(table, c);
    forall i | 0 <= i < |sa|
      ensures SameDelta(Merge(table)[i], Merge(Shift(table, c))[i])
    {
      MergeRowShift(table, sa[i], c);
    }
  }

  /** Two merged rows that agree on everything a group and its mean depend on. */
  predicate SameDelta(a: MergedRow, b: MergedRow) {
    a.delta == b.delta && a.timeHours == b.timeHours && a.row.cfu == b.row.cfu
  }

  /**
   * Adding the same amount to every intensity, SA and control alike, moves every
   * baseline by that amount and leaves every delta, and so every plotted mean,
   * unchanged.
   */
  lemma OffsetInvariant(table: seq<HourRow>, c: real)
    ensures |Merge(Shift(table, c))| == |Merge(table)|
    ensures forall i :: 0 <= i < |Merge(table)| ==> Merge(Shift(table, c))[i].delta == Merge(table)[i].delta
    ensures PlotKeys(Merge(Shift(table, c))) == PlotKeys(Merge(table))
    ensures forall t, cfu :: GroupMean(Merge(Shift(table, c)), t, cfu) == GroupMean(Merge(table), t, cfu)
  {
    MergeShift(table, c);
    GroupsAgree(Merge(table), Merge(Shift(table, c)));
  }

  lemma {:induction false} GroupDeltasAgree(m0: seq<MergedRow>, m1: seq<MergedRow>, t: real, cfu: nat)
    requires |m0| == |m1|
    requires forall i :: 0 <= i < |m0| ==> SameDelta(m0[i], m1[i])
    ensures GroupDeltas(m0, t, cfu) == GroupDeltas(m1, t, cfu)
  {
    if m0 != [] {
      GroupDeltasAgree(m0[1..], m1[1..], t, cfu);
    }
  }

  lemma GroupsAgree(m0: seq<MergedRow>, m1: seq<MergedRow>)
    requires |m0| == |m1|
    requires forall i :: 0 <= i < |m0| ==> SameDelta(m0[i], m1[i])
    ensures PlotKeys(m0) == PlotKeys(m1)
    ensures forall t, cfu :: GroupMean(m0, t, cfu) == GroupMean(m1, t, cfu)
  {
    forall t, cfu
      ensures GroupMean(m0, t, cfu) == GroupMean(m1, t, cfu)
    {
      GroupDeltasAgree(m0, m1, t, cfu);
    }
  }
}
