/**
 * The batch pass of process_circle_images: one record per image whose name
 * parses and whose robust mean exists, then the table sorted by time label (as
 * text), sample type (as text), cfu and replicate. The directory listing and
 * the loading of each image are inputs: a sequence of names with their pixels.
 */
module Batch {
  import opened Wrappers
  import opened PyText
  import opened Metadata
  import RobustMean

  /** One listed image: its file name and its pixels, `None` when it could not be loaded. */
  datatype Source = Source(filename: string, pixels: Option<seq<nat>>)

  /** One row of the result table. */
  datatype Record = Record(
    filename: string,
    timeStr: string,
    sampleType: SampleType,
    cfu: nat,
    replicate: nat,
    meanIntensity: real)

  /** The three ways the pass ends: nothing listed, nothing collected, or the sorted table. */
  datatype Outcome = NoImages | NoRecords | Table(rows: seq<Record>)

  /**
   * The record one image contributes: present exactly when its name parses and its
   * robust mean exists; the time label is the formatted time point.
   */
  function RecordFor(src: Source): (r: Option<Record>)
    ensures r.Some? <==> ParseFilename(src.filename).Some? && RobustMean.CalculateRobustMean(src.pixels).Some?
    ensures r.Some? ==>
              var info := ParseFilename(src.filename).value;
              && r.value.filename == src.filename
              && r.value.timeStr == TimePointToString(info.timePoint)
              && r.value.sampleType == info.sampleType
              && r.value.cfu == info.cfu
              && r.value.replicate == info.replicate
              && Some(r.value.meanIntensity) == RobustMean.CalculateRobustMean(src.pixels)
  {
    var info :- ParseFilename(src.filename);
    var mean :- RobustMean.CalculateRobustMean(src.pixels);
    Some(Record(src.filename, TimePointToString(info.timePoint), info.sampleType, info.cfu, info.replicate, mean))
  }

  /** The records of `sources`, in listing order, skipping the images that contribute none. */
  function Collect(sources: seq<Source>): (rows: seq<Record>)
    ensures |rows| <= |sources|
  {
    if sources == [] then []
    else Collect(sources[..|sources| - 1]) + Contribution(sources[|sources| - 1])
  }

  /** What one image adds to the table: its record, or nothing. */
  function Contribution(src: Source): (rows: seq<Record>)
    ensures |rows| <= 1
    ensures rows == [] <==> RecordFor(src).None?
    ensures forall r :: r in rows ==> RecordFor(src) == Some(r)
  {
    match RecordFor(src)
    case None => []
    case Some(r) => [r]
  }

  /** Every collected record is the record of some listed image. */
  lemma {:induction false} CollectSound(sources: seq<Source>, r: Record)
    requires r in Collect(sources)
    ensures exists src :: src in sources && RecordFor(src) == Some(r)
    decreases |sources|
  {
    var init, last := sources[..|sources| - 1], sources[|sources| - 1];
    if r in Contribution(last) {
      assert RecordFor(last) == Some(r);
    } else {
      CollectSound(init, r);
      var src :| src in init && RecordFor(src) == Some(r);
      assert src in sources;
    }
  }

  /** Every listed image that has a record contributes it. */
  lemma {:induction false} CollectComplete(sources: seq<Source>, i: nat)
    requires i < |sources| && RecordFor(sources[i]).Some?
    ensures RecordFor(sources[i]).value in Collect(sources)
    decreases |sources|
  {
    var init, last := sources[..|sources| - 1], sources[|sources| - 1];
    if i == |sources| - 1 {
      assert RecordFor(last).value in Contribution(last);
    } else {
      assert init[i] == sources[i];
      CollectComplete(init, i);
    }
  }

  /** What each listed image yields, in listing order: its record, or `None`. */
  function RecordsOf(sources: seq<Source>): (recs: seq<Option<Record>>)
    ensures |recs| == |sources|
  {
    if sources == [] then []
    else RecordsOf(sources[..|sources| - 1]) + [RecordFor(sources[|sources| - 1])]
  }

  /** Entry `i` of the yields is what image `i` yields. */
  lemma {:induction false} RecordsOfAt(sources: seq<Source>, i: nat)
    requires i < |sources|
    ensures RecordsOf(sources)[i] == RecordFor(sources[i])
    decreases |sources|
  {
    var n := |sources| - 1;
    var init := sources[..n];
    var before, yielded := RecordsOf(init), RecordFor(sources[n]);
    assert RecordsOf(sources) == before + [yielded];
    if i < n {
      RecordsOfAt(init, i);
      assert init[i] == sources[i];
      SnocIndex(before, yielded, i, RecordFor(sources[i]));
    } else {
      SnocIndex(before, yielded, i, yielded);
    }
  }

  lemma SnocIndex(before: seq<Option<Record>>, last: Option<Record>, i: nat, y: Option<Record>)
    requires i <= |before| && y == if i < |before| then before[i] else last
    ensures (before + [last])[i] == y
  {
  }

  lemma RecordsOfSnoc(sources: seq<Source>, init: seq<Source>, last: Source)
    requires sources == init + [last]
    ensures RecordsOf(sources) == RecordsOf(init) + [RecordFor(last)]
  {
    assert sources[..|sources| - 1] == init;
  }

  /**
   * Each listed image that has a record adds it exactly once: a record occurs in
   * the collection as many times as there are listed images that yield it.
   */
  lemma {:induction false} CollectCount(sources: seq<Source>, r: Record)
    ensures multiset(Collect(sources))[r] == multiset(RecordsOf(sources))[Some(r)]
    decreases |sources|
  {
    if sources != [] {
      var n := |sources| - 1;
      var init, last := sources[..n], sources[n];
      assert sources == init + [last];
      CollectCount(init, r);
      RecordsOfSnoc(sources, init, last);
      assert multiset(Contribution(last))[r] == if RecordFor(last) == Some(r) then 1 else 0;
    }
  }

  /**
   * The collection has one row per listed image that has a record: with `k` of
   * the images rejected, it has `|sources| - k` rows.
   */
  lemma {:induction false} CollectLength(sources: seq<Source>)
    ensures |Collect(sources)| + multiset(RecordsOf(sources))[None] == |sources|
    decreases |sources|
  {
    if sources != [] {
      var n := |sources| - 1;
      var init, last := sources[..n], sources[n];
      assert sources == init + [last];
      CollectLength(init);
      RecordsOfSnoc(sources, init, last);
      var yielded := RecordFor(last);
      RejectedSnoc(RecordsOf(sources), RecordsOf(init), yielded);
      assert Collect(sources) == Collect(init) + Contribution(last);
      assert |Contribution(last)| == if yielded.None? then 0 else 1;
    }
  }

  lemma RejectedSnoc(recs: seq<Option<Record>>, init: seq<Option<Record>>, y: Option<Record>)
    requires recs == init + [y]
    ensures multiset(recs)[None] == multiset(init)[None] + (if y.None? then 1 else 0)
  {
  }

  /** The whole sort key, compared column by column as pandas does. */
  predicate KeyLt(a: Record, b: Record) {
    if a.timeStr != b.timeStr then StrLt(a.timeStr, b.timeStr)
    else if a.sampleType != b.sampleType then StrLt(a.sampleType.Name(), b.sampleType.Name())
    else if a.cfu != b.cfu then a.cfu < b.cfu
    else a.replicate < b.replicate
  }

  predicate SameKey(a: Record, b: Record) {
    a.timeStr == b.timeStr && a.sampleType == b.sampleType && a.cfu == b.cfu && a.replicate == b.replicate
  }

  predicate KeyLe(a: Record, b: Record) {
    !KeyLt(b, a)
  }

  lemma SampleNamesDiffer(x: SampleType, y: SampleType)
    requires x != y
    ensures x.Name() != y.Name()
  {
    assert "SA"[0] != "Ctr"[0];
  }

  /** Any two records are in key order one way or the other, or have the same key. */
  lemma KeyTrichotomy(a: Record, b: Record)
    ensures SameKey(a, b) || KeyLt(a, b) || KeyLt(b, a)
    ensures !(KeyLt(a, b) && KeyLt(b, a))
    ensures SameKey(a, b) ==> !KeyLt(a, b)
  {
    StrLtTotal(a.timeStr, b.timeStr);
    StrLtTotal(a.sampleType.Name(), b.sampleType.Name());
    if a.sampleType != b.sampleType {
      SampleNamesDiffer(a.sampleType, b.sampleType);
    }
    if StrLt(a.timeStr, b.timeStr) && StrLt(b.timeStr, a.timeStr) {
      StrLtTransitive(a.timeStr, b.timeStr, a.timeStr);
      StrLtIrreflexive(a.timeStr);
    }
    if StrLt(a.sampleType.Name(), b.sampleType.Name()) && StrLt(b.sampleType.Name(), a.sampleType.Name()) {
      StrLtTransitive(a.sampleType.Name(), b.sampleType.Name(), a.sampleType.Name());
      StrLtIrreflexive(a.sampleType.Name());
    }
  }

  lemma KeyLtTransitive(a: Record, b: Record, c: Record)
    requires KeyLt(a, b) && KeyLt(b, c)
    ensures KeyLt(a, c)
  {
    if a.timeStr != b.timeStr && b.timeStr != c.timeStr {
      StrLtTransitive(a.timeStr, b.timeStr, c.timeStr);
      if a.timeStr == c.timeStr {
        StrLtIrreflexive(a.timeStr);
      }
    } else if a.timeStr == b.timeStr && b.timeStr == c.timeStr
           && a.sampleType != b.sampleType && b.sampleType != c.sampleType {
      StrLtTransitive(a.sampleType.Name(), b.sampleType.Name(), c.sampleType.Name());
      if a.sampleType == c.sampleType {
        StrLtIrreflexive(a.sampleType.Name());
      }
      SampleNamesDiffer(a.sampleType, c.sampleType);
    }
  }

  /** Key order is a total preorder: total and transitive. */
  lemma KeyLeTotalPreorder(a: Record, b: Record, c: Record)
    ensures KeyLe(a, b) || KeyLe(b, a)
    ensures KeyLe(a, b) && KeyLe(b, c) ==> KeyLe(a, c)
  {
    KeyTrichotomy(a, b);
    KeyTrichotomy(b, c);
    KeyTrichotomy(a, c);
    if KeyLe(a, b) && KeyLe(b, c) && KeyLt(c, a) {
      if KeyLt(a, b) {
        KeyLtTransitive(c, a, b);
      } else {
        assert SameKey(a, b);
        assert KeyLt(c, b);
      }
    }
  }

  /** Every row is in key order with the next one. */
  predicate InKeyOrder(rows: seq<Record>) {
    forall i :: 0 <= i < |rows| - 1 ==> KeyLe(rows[i], rows[i + 1])
  }

  /** Rows in key order are in key order pairwise, not only neighbour by neighbour. */
  lemma {:induction false} InKeyOrderPairwise(rows: seq<Record>, i: nat, j: nat)
    requires InKeyOrder(rows) && i <= j < |rows|
    ensures KeyLe(rows[i], rows[j])
    decreases j - i
  {
    if i == j {
      KeyTrichotomy(rows[i], rows[i]);
    } else {
      InKeyOrderPairwise(rows, i + 1, j);
      KeyLeTotalPreorder(rows[i], rows[i + 1], rows[j]);
    }
  }

  /** One step of the key-order sort of rows (pixel values are sorted by `RobustMean.SortAsc`). */
  function InsertRow(x: Record, rows: seq<Record>): (r: seq<Record>)
    requires InKeyOrder(rows)
    ensures InKeyOrder(r) && multiset(r) == multiset(rows) + multiset{x}
    ensures |r| > 0 && (r[0] == x || (|rows| > 0 && r[0] == rows[0]))
  {
    if rows == [] || KeyLe(x, rows[0]) then [x] + rows
    else
      var rest := InsertRow(x, rows[1..]);
      assert rows == [rows[0]] + rows[1..];
      KeyLeTotalPreorder(x, rows[0], x);
      [rows[0]] + rest
  }

  /** `sort_values` on the four key columns: the same rows, in key order. */
  function SortTable(rows: seq<Record>): (sorted: seq<Record>)
    ensures InKeyOrder(sorted) && multiset(sorted) == multiset(rows)
  {
    if rows == [] then []
    else
      assert rows == [rows[0]] + rows[1..];
      InsertRow(rows[0], SortTable(rows[1..]))
  }

  /**
   * process_circle_images without its file system and printing: walk the listing,
   * skip every image whose name does not parse or whose robust mean is missing,
   * keep a record for each of the others, then sort. A listing with no image ends
   * early; a listing with images but no record makes the sort fail, because the
   * empty table has no key columns.
   */
  method ProcessCircleImages(sources: seq<Source>) returns (outcome: Outcome)
    ensures outcome.NoImages? <==> sources == []
    ensures outcome.NoRecords? <==> sources != [] && Collect(sources) == []
    ensures outcome.Table? ==> InKeyOrder(outcome.rows) && multiset(outcome.rows) == multiset(Collect(sources))
  {
    if sources == [] {
      return NoImages;
    }
    var results: seq<Record> := [];
    for i := 0 to |sources|
      invariant results == Collect(sources[..i])
    {
      assert sources[..i + 1][..i] == sources[..i];
      var info := ParseFilename(sources[i].filename);
      if info.None? {
        continue;
      }
      var mean := RobustMean.CalculateRobustMean(sources[i].pixels);
      if mean.None? {
        continue;
      }
      var timeStr := TimePointToString(info.value.timePoint);
      results := results + [Record(sources[i].filename, timeStr, info.value.sampleType,
                                   info.value.cfu, info.value.replicate, mean.value)];
    }
    assert sources[..|sources|] == sources;
    if results == [] {
      return NoRecords;
    }
    outcome := Table(SortTable(results));
  }

  /** Every row of the table comes from a listed image that parsed and was scored, with its formatted time. */
  lemma TableRowsSound(sources: seq<Source>, rows: seq<Record>, r: Record)
    requires multiset(rows) == multiset(Collect(sources)) && r in rows
    ensures exists src :: src in sources && RecordFor(src) == Some(r)
    ensures exists src :: src in sources && ParseFilename(src.filename).Some?
                        && r.timeStr == TimePointToString(ParseFilename(src.filename).value.timePoint)
  {
    assert r in multiset(Collect(sources));
    CollectSound(sources, r);
    var src :| src in sources && RecordFor(src) == Some(r);
  }

  /**
   * Time labels sort as text: the row of time point 21 (`10:00`) comes before the
   * row of time point 4 (`1:30`), ten hours ahead of one and a half.
   */
  lemma TextualTimeOrder(late: Record, early: Record, t1: int, t2: int)
    requires t1 == 21 && t2 == 4
    requires late.timeStr == TimePointToString(t1) && early.timeStr == TimePointToString(t2)
    ensures KeyLt(late, early)
  {
    TimeLabelTenHours(t1);
    TimeLabelsFirstFour(t2);
    assert late.timeStr == "10:00" && early.timeStr == "1:30";
    assert late.timeStr[1..] == "0:00" && early.timeStr[1..] == ":30";
  }
}
