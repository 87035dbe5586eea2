/**
 * Experiment metadata read from an image file name, and the `h:mm` label of a
 * time point on the 30-minute sampling grid (analyze_fluorescence.py).
 */
module Metadata {
  import opened Wrappers
  import opened PyText

  /** The two sample groups: `SA` (treated) and `Ctr` (control). */
  datatype SampleType = SA | Ctr {
    /** The spelling stored in the table and compared when the table is sorted. */
    function Name(): string {
      if SA? then "SA" else "Ctr"
    }
  }

  datatype FileInfo = FileInfo(timePoint: nat, sampleType: SampleType, cfu: nat, replicate: nat)

  /** The length of the run of digits at the front of `s`. */
  function DigitRun(s: string): (k: nat)
    ensures k <= |s| && AllDigits(s[..k])
    ensures k == |s| || !IsDigit(s[k])
  {
    if s != [] && IsDigit(s[0]) then
      var k := 1 + DigitRun(s[1..]);
      assert s[..k] == [s[0]] + s[1..][..k - 1];
      k
    else 0
  }

  /** The literal `lit` at the front of `s`: what follows it. */
  function Literal(s: string, lit: string): (r: Option<string>)
    ensures r.Some? <==> lit <= s
    ensures r.Some? ==> s == lit + r.value
  {
    if lit <= s then
      assert s == s[..|lit|] + s[|lit|..];
      Some(s[|lit|..])
    else None
  }

  /** The group `(\d+)`: the value of the longest run of digits at the front of `s`, and what follows. */
  function Number(s: string): (r: Option<(nat, string)>)
    ensures r.Some? <==> s != [] && IsDigit(s[0])
  {
    var k := DigitRun(s);
    if k == 0 then None else Some((DigitsValue(s[..k]), s[k..]))
  }

  /** `re.match(r'T(\d+)_SA_(\d+)_(\d+)', s)`: anchored at the start, anything may follow. */
  function MatchSA(s: string): Option<(nat, nat, nat)> {
    var r0 :- Literal(s, "T");
    var g1 :- Number(r0);
    var g23 :- SAGroups(g1.1);
    Some((g1.0, g23.0, g23.1))
  }

  /** The part of the SA grammar after the time point: `_SA_(\d+)_(\d+)`. */
  function SAGroups(s: string): Option<(nat, nat)> {
    var r1 :- Literal(s, "_SA_");
    var g2 :- Number(r1);
    var r2 :- Literal(g2.1, "_");
    var g3 :- Number(r2);
    Some((g2.0, g3.0))
  }

  /** `re.match(r'T(\d+)_Ctr_(\d+)', s)`: anchored at the start, anything may follow. */
  function MatchCtr(s: string): Option<(nat, nat)> {
    var r0 :- Literal(s, "T");
    var g1 :- Number(r0);
    var r1 :- Literal(g1.1, "_Ctr_");
    var g2 :- Number(r1);
    Some((g1.0, g2.0))
  }

  /**
   * parse_filename: every `.tif` is removed, then the SA grammar is tried, then the
   * Ctr grammar; a control always has cfu 0. `None` when neither grammar matches.
   */
  function ParseFilename(filename: string): (r: Option<FileInfo>)
    ensures r.Some? && r.value.sampleType == Ctr ==> r.value.cfu == 0
  {
    var base := RemoveAll(filename, ".tif");
    match MatchSA(base)
    case Some((t, c, rep)) => Some(FileInfo(t, SA, c, rep))
    case None =>
      match MatchCtr(base)
      case Some((t, rep)) => Some(FileInfo(t, Ctr, 0, rep))
      case None => None
  }

  /** time_point_to_string: `(t - 1) * 30` minutes written as hours, a colon and two-digit minutes. */
  function TimePointToString(t: int): string {
    var minutes := (t - 1) * 30;
    IntToDecimal(minutes / 60) + ":" + ZeroPad2(minutes % 60)
  }

  // ---------------------------------------------------------------------------
  // The matchers against the regular expressions they implement
  // ---------------------------------------------------------------------------

  /** A non-empty run of digits that is not followed by another digit. */
  predicate MaximalRun(d: string, tail: string) {
    |d| > 0 && AllDigits(d) && (tail == [] || !IsDigit(tail[0]))
  }

  /** The name `T<d1>_SA_<d2>_<d3><tail>`. */
  function SAName(d1: string, d2: string, d3: string, tail: string): string {
    "T" + (d1 + ("_SA_" + (d2 + ("_" + (d3 + tail)))))
  }

  /** The name `T<d1>_Ctr_<d2><tail>`. */
  function CtrName(d1: string, d2: string, tail: string): string {
    "T" + (d1 + ("_Ctr_" + (d2 + tail)))
  }

  /** `s` is a match of `T(\d+)_SA_(\d+)_(\d+)` with groups d1, d2, d3 followed by `tail`. */
  predicate SAShape(s: string, d1: string, d2: string, d3: string, tail: string) {
    && MaximalRun(d1, "_") && MaximalRun(d2, "_") && MaximalRun(d3, tail)
    && s == SAName(d1, d2, d3, tail)
  }

  /** `s` is a match of `T(\d+)_Ctr_(\d+)` with groups d1, d2 followed by `tail`. */
  predicate CtrShape(s: string, d1: string, d2: string, tail: string) {
    && MaximalRun(d1, "_") && MaximalRun(d2, tail)
    && s == CtrName(d1, d2, tail)
  }

  lemma {:induction false} DigitRunOf(d: string, tail: string)
    requires AllDigits(d) && (tail == [] || !IsDigit(tail[0]))
    ensures DigitRun(d + tail) == |d|
    decreases |d|
  {
    if d != [] {
      assert (d + tail)[1..] == d[1..] + tail;
      DigitRunOf(d[1..], tail);
    } else {
      assert d + tail == tail;
    }
  }

  lemma NumberOf(d: string, tail: string)
    requires MaximalRun(d, tail)
    ensures Number(d + tail) == Some((DigitsValue(d), tail))
  {
    DigitRunOf(d, tail);
    assert (d + tail)[..|d|] == d && (d + tail)[|d|..] == tail;
  }

  lemma LiteralOf(lit: string, rest: string)
    ensures Literal(lit + rest, lit) == Some(rest)
  {
    assert lit <= lit + rest;
    assert (lit + rest)[|lit|..] == rest;
  }

  /** Every string of the SA shape is matched, with the decimal values of its digit groups. */
  lemma MatchSAComplete(d1: string, d2: string, d3: string, tail: string)
    requires SAShape(SAName(d1, d2, d3, tail), d1, d2, d3, tail)
    ensures MatchSA(SAName(d1, d2, d3, tail)) == Some((DigitsValue(d1), DigitsValue(d2), DigitsValue(d3)))
  {
    var r2 := d3 + tail;
    var q2 := "_" + r2;
    var r1 := d2 + q2;
    var q1 := "_SA_" + r1;
    var r0 := d1 + q1;
    LiteralOf("T", r0);
    NumberOf(d1, q1);
    LiteralOf("_SA_", r1);
    NumberOf(d2, q2);
    LiteralOf("_", r2);
    NumberOf(d3, tail);
  }

  /** What `Number` accepts: a maximal run of digits, and the rest. */
  lemma NumberSplit(s: string) returns (d: string, rest: string)
    requires Number(s).Some?
    ensures MaximalRun(d, rest) && s == d + rest
    ensures Number(s) == Some((DigitsValue(d), rest))
  {
    var k := DigitRun(s);
    d, rest := s[..k], s[k..];
    assert s == d + rest;
  }

  /** What `SAGroups` accepts: the SA tag and two maximal digit runs. */
  lemma SAGroupsSound(q: string) returns (d2: string, d3: string, tail: string)
    requires SAGroups(q).Some?
    ensures MaximalRun(d2, "_") && MaximalRun(d3, tail)
    ensures q == "_SA_" + (d2 + ("_" + (d3 + tail)))
  {
    var r1 := Literal(q, "_SA_").value;
    var q2: string;
    d2, q2 := NumberSplit(r1);
    var r2 := Literal(q2, "_").value;
    d3, tail := NumberSplit(r2);
  }

  /** Every string the SA matcher accepts has the SA shape, and the result is its groups' values. */
  lemma MatchSASound(s: string)
    requires MatchSA(s).Some?
    ensures exists d1, d2, d3, tail :: SAShape(s, d1, d2, d3, tail)
              && MatchSA(s) == Some((DigitsValue(d1), DigitsValue(d2), DigitsValue(d3)))
  {
    var r0 := Literal(s, "T").value;
    var d1, q1 := NumberSplit(r0);
    var d2, d3, tail := SAGroupsSound(q1);
    SAShapeOf(s, d1, d2, d3, tail);
  }

  lemma SAShapeOf(s: string, d1: string, d2: string, d3: string, tail: string)
    requires |d1| > 0 && AllDigits(d1) && MaximalRun(d2, "_") && MaximalRun(d3, tail)
    requires s == "T" + (d1 + ("_SA_" + (d2 + ("_" + (d3 + tail)))))
    ensures exists d1, d2, d3, tail :: SAShape(s, d1, d2, d3, tail)
              && MatchSA(s) == Some((DigitsValue(d1), DigitsValue(d2), DigitsValue(d3)))
  {
    assert SAShape(s, d1, d2, d3, tail);
    MatchSAComplete(d1, d2, d3, tail);
  }

  /** Every string of the Ctr shape is matched, with the decimal values of its digit groups. */
  lemma MatchCtrComplete(d1: string, d2: string, tail: string)
    requires CtrShape(CtrName(d1, d2, tail), d1, d2, tail)
    ensures MatchCtr(CtrName(d1, d2, tail)) == Some((DigitsValue(d1), DigitsValue(d2)))
  {
    var r1 := d2 + tail;
    var q1 := "_Ctr_" + r1;
    var r0 := d1 + q1;
    LiteralOf("T", r0);
    NumberOf(d1, q1);
    LiteralOf("_Ctr_", r1);
    NumberOf(d2, tail);
  }

  /** Every string the Ctr matcher accepts has the Ctr shape, and the result is its groups' values. */
  lemma MatchCtrSound(s: string)
    requires MatchCtr(s).Some?
    ensures exists d1, d2, tail :: CtrShape(s, d1, d2, tail)
              && MatchCtr(s) == Some((DigitsValue(d1), DigitsValue(d2)))
  {
    var r0 := Literal(s, "T").value;
    var d1, q1 := NumberSplit(r0);
    var r1 := Literal(q1, "_Ctr_").value;
    var d2, tail := NumberSplit(r1);
    assert q1[0] == '_';
    assert s == CtrName(d1, d2, tail);
    assert CtrShape(s, d1, d2, tail);
    MatchCtrComplete(d1, d2, tail);
  }

  // ---------------------------------------------------------------------------
  // Removing `.tif`
  // ---------------------------------------------------------------------------

  /** A string without a `.` has no `.tif` to remove. */
  lemma {:induction false} RemoveTifNoDot(s: string)
    requires '.' !in s
    ensures RemoveAll(s, ".tif") == s
    decreases |s|
  {
    if |s| >= 4 {
      assert s[..4] != ".tif" by { assert s[0] != '.'; }
      RemoveTifNoDot(s[1..]);
      assert s == [s[0]] + s[1..];
    }
  }

  /**
   * `.tif` is removed wherever it stands: no occurrence can straddle the boundary
   * of an occurrence, because no proper suffix of `.tif` is a prefix of it.
   */
  lemma {:induction false} RemoveTifSplits(x: string, y: string)
    ensures RemoveAll(x + ".tif" + y, ".tif") == RemoveAll(x, ".tif") + RemoveAll(y, ".tif")
    decreases |x|
  {
    if x == [] {
      RemoveTifFront(y);
    } else if |x| >= 4 && x[..4] == ".tif" {
      RemoveTifSkip(x, y);
      RemoveTifSplits(x[4..], y);
    } else {
      RemoveTifKeep(x, y);
      RemoveTifSplits(x[1..], y);
      var rx, ry := RemoveAll(x[1..], ".tif"), RemoveAll(y, ".tif");
      assert [x[0]] + (rx + ry) == [x[0]] + rx + ry;
    }
  }

  lemma RemoveTifFront(y: string)
    ensures RemoveAll([] + ".tif" + y, ".tif") == RemoveAll([], ".tif") + RemoveAll(y, ".tif")
  {
    var s := [] + ".tif" + y;
    assert s[..4] == ".tif" && s[4..] == y;
  }

  /** A `.tif` at the front of `x` is removed whether or not more follows. */
  lemma RemoveTifSkip(x: string, y: string)
    requires |x| >= 4 && x[..4] == ".tif"
    ensures RemoveAll(x + ".tif" + y, ".tif") == RemoveAll(x[4..] + ".tif" + y, ".tif")
    ensures RemoveAll(x, ".tif") == RemoveAll(x[4..], ".tif")
  {
    var s := x + ".tif" + y;
    assert s[..4] == x[..4];
    assert s[4..] == x[4..] + ".tif" + y;
  }

  /** A first character of `x` that does not start a `.tif` is kept whether or not more follows. */
  lemma RemoveTifKeep(x: string, y: string)
    requires x != [] && !(|x| >= 4 && x[..4] == ".tif")
    ensures RemoveAll(x + ".tif" + y, ".tif") == [x[0]] + RemoveAll(x[1..] + ".tif" + y, ".tif")
    ensures RemoveAll(x, ".tif") == [x[0]] + RemoveAll(x[1..], ".tif")
  {
    var s := x + ".tif" + y;
    assert s[..4] != ".tif" by {
      if |x| < 4 {
        assert s[..4][|x|] == '.';
        assert ".tif"[|x|] != '.';
      } else {
        assert s[..4] == x[..4];
      }
    }
    assert s[1..] == x[1..] + ".tif" + y;
    if |x| < 4 {
      assert RemoveAll(x[1..], ".tif") == x[1..];
      assert x == [x[0]] + x[1..];
    }
  }


  /** Removing `.tif` from a name that carries it once, at the end, leaves the base name. */
  lemma RemoveExtension(b: string)
    requires '.' !in b
    ensures RemoveAll(b + ".tif", ".tif") == b
  {
    RemoveTifSplits(b, "");
    assert b + ".tif" + "" == b + ".tif";
    RemoveTifNoDot(b);
  }

  lemma NoDotInDigits(d: string)
    requires AllDigits(d)
    ensures '.' !in d
  {
  }

  // ---------------------------------------------------------------------------
  // parse_filename
  // ---------------------------------------------------------------------------

  /**
   * A treated-sample name with the `.tif` extension parses to its four fields.
   * `name` and `info` stand for the name and the expected record.
   */
  lemma ParseSAName(name: string, d1: string, d2: string, d3: string, tail: string, info: FileInfo)
    requires SAShape(SAName(d1, d2, d3, tail), d1, d2, d3, tail)
    requires '.' !in tail && name == SAName(d1, d2, d3, tail) + ".tif"
    requires info == FileInfo(DigitsValue(d1), SA, DigitsValue(d2), DigitsValue(d3))
    ensures ParseFilename(name) == Some(info)
  {
    NoDotInDigits(d1);
    NoDotInDigits(d2);
    NoDotInDigits(d3);
    RemoveExtension(SAName(d1, d2, d3, tail));
    ParseSABase(name, d1, d2, d3, tail, info);
  }

  /** A name whose base (the name without `.tif`) has the SA shape parses to the groups' values. */
  lemma ParseSABase(name: string, d1: string, d2: string, d3: string, tail: string, info: FileInfo)
    requires SAShape(SAName(d1, d2, d3, tail), d1, d2, d3, tail)
    requires RemoveAll(name, ".tif") == SAName(d1, d2, d3, tail)
    requires info == FileInfo(DigitsValue(d1), SA, DigitsValue(d2), DigitsValue(d3))
    ensures ParseFilename(name) == Some(info)
  {
    MatchSAComplete(d1, d2, d3, tail);
  }

  /** A control name with the `.tif` extension parses to its fields, with cfu 0. */
  lemma ParseCtrName(name: string, d1: string, d2: string, tail: string, info: FileInfo)
    requires CtrShape(CtrName(d1, d2, tail), d1, d2, tail)
    requires '.' !in tail && name == CtrName(d1, d2, tail) + ".tif"
    requires info == FileInfo(DigitsValue(d1), Ctr, 0, DigitsValue(d2))
    ensures ParseFilename(name) == Some(info)
  {
    var b := CtrName(d1, d2, tail);
    NoDotInDigits(d1);
    NoDotInDigits(d2);
    RemoveExtension(b);
    var q1 := "_Ctr_" + (d2 + tail);
    LiteralOf("T", d1 + q1);
    NumberOf(d1, q1);
    assert !("_SA_" <= q1) by { assert q1[1] == 'C'; }
    assert MatchSA(b).None?;
    MatchCtrComplete(d1, d2, tail);
  }

  /**
   * Every name that parses to `info` has, once `.tif` is removed (`base`), the SA
   * shape with `info` holding its groups' values, or else no SA shape and the Ctr
   * shape with `info` holding its groups' values and cfu 0.
   */
  lemma ParseFilenameSound(filename: string, base: string, info: FileInfo)
    requires base == RemoveAll(filename, ".tif") && ParseFilename(filename) == Some(info)
    ensures || (exists d1, d2, d3, tail ::
                  SAShape(base, d1, d2, d3, tail) && info == FileInfo(DigitsValue(d1), SA, DigitsValue(d2), DigitsValue(d3)))
            || ((forall d1, d2, d3, tail :: !SAShape(base, d1, d2, d3, tail))
                && (exists d1, d2, tail ::
                      CtrShape(base, d1, d2, tail) && info == FileInfo(DigitsValue(d1), Ctr, 0, DigitsValue(d2))))
  {
    SAShapesMatch(base);
    if MatchSA(base).Some? {
      MatchSASound(base);
      var d1, d2, d3, tail :| SAShape(base, d1, d2, d3, tail)
        && MatchSA(base) == Some((DigitsValue(d1), DigitsValue(d2), DigitsValue(d3)));
      assert info == FileInfo(DigitsValue(d1), SA, DigitsValue(d2), DigitsValue(d3));
    } else {
      MatchCtrSound(base);
      var d1, d2, tail :| CtrShape(base, d1, d2, tail)
        && MatchCtr(base) == Some((DigitsValue(d1), DigitsValue(d2)));
      assert info == FileInfo(DigitsValue(d1), Ctr, 0, DigitsValue(d2));
    }
  }

  /** A name is rejected exactly when, once `.tif` is removed (`base`), it has neither shape. */
  lemma ParseFilenameNone(filename: string, base: string)
    requires base == RemoveAll(filename, ".tif")
    ensures ParseFilename(filename).None? <==>
              && (forall d1, d2, d3, tail :: !SAShape(base, d1, d2, d3, tail))
              && (forall d1, d2, tail :: !CtrShape(base, d1, d2, tail))
  {
    if MatchSA(base).Some? {
      MatchSASound(base);
      var d1, d2, d3, tail :| SAShape(base, d1, d2, d3, tail)
        && MatchSA(base) == Some((DigitsValue(d1), DigitsValue(d2), DigitsValue(d3)));
      assert ParseFilename(filename).Some?;
      assert !(forall d1, d2, d3, tail :: !SAShape(base, d1, d2, d3, tail));
    } else if MatchCtr(base).Some? {
      MatchCtrSound(base);
      var d1, d2, tail :| CtrShape(base, d1, d2, tail)
        && MatchCtr(base) == Some((DigitsValue(d1), DigitsValue(d2)));
      assert ParseFilename(filename).Some?;
      assert !(forall d1, d2, tail :: !CtrShape(base, d1, d2, tail));
    } else {
      SAShapesMatch(base);
      CtrShapesMatch(base);
      assert ParseFilename(filename).None?;
      assert forall d1, d2, d3, tail :: !SAShape(base, d1, d2, d3, tail);
      assert forall d1, d2, tail :: !CtrShape(base, d1, d2, tail);
    }
  }

  lemma CtrShapesMatch(base: string)
    ensures forall d1, d2, tail :: CtrShape(base, d1, d2, tail) ==> MatchCtr(base).Some?
  {
    forall d1, d2, tail | CtrShape(base, d1, d2, tail)
      ensures MatchCtr(base).Some?
    {
      MatchCtrComplete(d1, d2, tail);
    }
  }

  lemma SAShapesMatch(base: string)
    ensures forall d1, d2, d3, tail :: SAShape(base, d1, d2, d3, tail) ==> MatchSA(base).Some?
  {
    forall d1, d2, d3, tail | SAShape(base, d1, d2, d3, tail)
      ensures MatchSA(base).Some?
    {
      MatchSAComplete(d1, d2, d3, tail);
    }
  }

  /** The name given as the first example, `T23_SA_1_3.tif`. */
  lemma ExampleSA(name: string)
    requires name == "T23_SA_1_3.tif"
    ensures ParseFilename(name) == Some(FileInfo(23, SA, 1, 3))
  {
    ParseSAName(name, "23", "1", "3", "", FileInfo(23, SA, 1, 3));
  }

  /** The name given as the second example, `T01_Ctr_1.tif`: the leading zero is read as decimal. */
  lemma ExampleCtr(name: string)
    requires name == "T01_Ctr_1.tif"
    ensures ParseFilename(name) == Some(FileInfo(1, Ctr, 0, 1))
  {
    ParseCtrName(name, "01", "1", "", FileInfo(1, Ctr, 0, 1));
  }

  /** Matching is anchored at the start only: text after the last digit run is accepted. */
  lemma ExampleTrailingText(name: string)
    requires name == "T2_Ctr_4_extra.tif"
    ensures ParseFilename(name) == Some(FileInfo(2, Ctr, 0, 4))
  {
    ParseCtrName(name, "2", "4", "_extra", FileInfo(2, Ctr, 0, 4));
  }

  /** A `.tif` in the middle of a name is removed too, which joins up the rest of the name. */
  lemma ExampleInnerTif(name: string)
    requires name == "T7.tif_SA_5_2.tif"
    ensures ParseFilename(name) == Some(FileInfo(7, SA, 5, 2))
  {
    var x, y := "T7", "_SA_5_2";
    assert name == x + ".tif" + (y + ".tif");
    TifRemovedBetween(x, y);
    assert x + y == SAName("7", "5", "2", "");
    ParseSABase(name, "7", "5", "2", "", FileInfo(7, SA, 5, 2));
  }

  lemma TifRemovedBetween(x: string, y: string)
    requires '.' !in x && '.' !in y
    ensures RemoveAll(x + ".tif" + (y + ".tif"), ".tif") == x + y
  {
    RemoveTifSplits(x, y + ".tif");
    RemoveExtension(y);
    RemoveTifNoDot(x);
  }

  /** A name that follows neither grammar is not recognised. */
  lemma ExampleUnrecognised()
    ensures ParseFilename("garbage_name") == None
  {
    RemoveTifNoDot("garbage_name");
  }

  // ---------------------------------------------------------------------------
  // time_point_to_string
  // ---------------------------------------------------------------------------

  /** Time point `2k + 1` is `k` hours and 0 minutes, time point `2k + 2` is `k` hours and 30 minutes. */
  predicate PointFields(t: int, k: int, m: nat) {
    (m == 0 && t == 2 * k + 1) || (m == 30 && t == 2 * k + 2)
  }

  /** Time point `2k + 1` is labelled with `k` and minutes 0, time point `2k + 2` with `k` and minutes 30. */
  lemma PointLabel(t: int, k: int, m: nat)
    requires PointFields(t, k, m)
    ensures TimePointToString(t) == IntToDecimal(k) + ":" + ZeroPad2(m)
  {
    var minutes := (t - 1) * 30;
    assert minutes == 60 * k + m;
    assert minutes / 60 == k && minutes % 60 == m;
  }

  /** The two minute fields a label can carry. */
  lemma HalfHourFields(m: nat)
    requires m == 0 || m == 30
    ensures ZeroPad2(m) == (if m == 0 then "00" else "30")
  {
    if m == 0 {
      assert NatToDecimal(0) == "0";
    } else {
      assert NatToDecimal(3) == "3";
      assert NatToDecimal(30) == NatToDecimal(3) + [DigitChar(0)];
    }
  }

  lemma FieldsOfPoint(t: int, k: int, m: nat)
    requires PointFields(t, k, m)
    ensures TimePointToString(t) == IntToDecimal(k) + ":" + (if m == 0 then "00" else "30")
  {
    PointLabel(t, k, m);
    HalfHourFields(m);
  }

  /** The minutes field is `00` for odd time points and `30` for even ones; the hours are `(t - 1) // 2`. */
  lemma TimeLabelFields(t: int)
    ensures TimePointToString(t) == IntToDecimal((t - 1) / 2) + ":" + (if t % 2 == 1 then "00" else "30")
  {
    FieldsOfPoint(t, (t - 1) / 2, if t % 2 == 1 then 0 else 30);
  }

  /** A label whose hours are below ten: one digit, a colon and the minutes. */
  lemma ShortLabel(t: int, k: int, m: nat, text: string)
    requires PointFields(t, k, m) && 0 <= k < 10
    requires text == [DigitChar(k)] + ":" + (if m == 0 then "00" else "30")
    ensures TimePointToString(t) == text
  {
    FieldsOfPoint(t, k, m);
  }

  /** The labels of the first four time points: `0:00`, `0:30`, `1:00`, `1:30`. */
  lemma TimeLabelsFirstFour(t: int)
    requires 1 <= t <= 4
    ensures t == 1 ==> TimePointToString(t) == "0:00"
    ensures t == 2 ==> TimePointToString(t) == "0:30"
    ensures t == 3 ==> TimePointToString(t) == "1:00"
    ensures t == 4 ==> TimePointToString(t) == "1:30"
  {
    if t == 1 {
      ShortLabel(t, 0, 0, "0:00");
    } else if t == 2 {
      ShortLabel(t, 0, 30, "0:30");
    } else if t == 3 {
      ShortLabel(t, 1, 0, "1:00");
    } else {
      ShortLabel(t, 1, 30, "1:30");
    }
  }

  /** Time point 21 is labelled `10:00`. */
  lemma TimeLabelTenHours(t: int)
    requires t == 21
    ensures TimePointToString(t) == "10:00"
  {
    FieldsOfPoint(t, 10, 0);
    assert NatToDecimal(10) == NatToDecimal(1) + [DigitChar(0)];
    assert NatToDecimal(1) == "1";
  }
}
