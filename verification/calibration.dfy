/** Software calibration of sensor readings: a binary search over a table of
    (ADC value, calibrated value) pairs followed by either the raw value or a
    linear interpolation between two neighbouring entries. Floats are modelled
    as reals; a division by zero, which yields an infinity or NaN in float
    arithmetic, is the `NonFinite` reading. */
module Calibration {
  import opened Ints

  datatype Entry = Entry(adcValue: real, calibratedValue: real)

  datatype Reading = Finite(value: real) | NonFinite

  /** The entry count fits its `uint8_t` field, and the table is not empty: with no
      entries `nrEntries - 1` wraps to 255 and the search reads past the table. */
  predicate ValidTable(t: seq<Entry>)
  {
    1 <= |t| < 0x100
  }

  predicate Ascending(t: seq<Entry>)
  {
    forall i, j | 0 <= i <= j < |t| :: t[i].adcValue <= t[j].adcValue
  }

  predicate StrictlyAscending(t: seq<Entry>)
  {
    forall i, j | 0 <= i < j < |t| :: t[i].adcValue < t[j].adcValue
  }

  /** `findIdx`: binary search on `[start, end]`. The range shrinks on every call,
      the result stays in the range, and on an ascending table it is the first index
      in `[start, end)` whose key exceeds `value`, or `end` when there is none. */
  function FindIdx(t: seq<Entry>, value: real, start: uint8, end: uint8): (idx: uint8)
    requires end <= |t|
    ensures start <= end ==> start <= idx <= end
    ensures start >= end ==> idx == start
    ensures Ascending(t) && start <= end ==>
              && (forall i | start <= i < idx :: t[i].adcValue <= value)
              && (idx < end ==> value < t[idx].adcValue)
    decreases end - start
  {
    if start >= end then start
    else
      var mid := start + (end - start) / 2;
      if value < t[mid].adcValue then FindIdx(t, value, start, mid)
      else FindIdx(t, value, mid + 1, end)
  }

  /** Reference definition of the search: scan upwards from `i` for the first key
      above `value`, stopping at `end`. */
  function FirstAbove(t: seq<Entry>, value: real, i: nat, end: nat): nat
    requires end <= |t|
    decreases end - i
  {
    if i >= end then i
    else if value < t[i].adcValue then i
    else FirstAbove(t, value, i + 1, end)
  }

  lemma {:induction false} FirstAboveBounds(t: seq<Entry>, value: real, i: nat, end: nat)
    requires end <= |t| && i <= end
    ensures i <= FirstAbove(t, value, i, end) <= end
    ensures forall k | i <= k < FirstAbove(t, value, i, end) :: t[k].adcValue <= value
    ensures FirstAbove(t, value, i, end) < end ==> value < t[FirstAbove(t, value, i, end)].adcValue
    decreases end - i
  {
    if i < end && !(value < t[i].adcValue) {
      FirstAboveBounds(t, value, i + 1, end);
    }
  }

  /** On an ascending table the binary search finds what the linear scan finds. */
  lemma FindIdxIsLinearScan(t: seq<Entry>, value: real, start: uint8, end: uint8)
    requires end <= |t| && start <= end && Ascending(t)
    ensures FindIdx(t, value, start, end) == FirstAbove(t, value, start, end)
  {
    FirstAboveBounds(t, value, start, end);
  }

  /** The linear interpolation through two entries, evaluated at `value`: finite
      exactly when the keys differ, and then the point (`value`, result) lies on the
      line through both entries. */
  function Interpolate(e0: Entry, e1: Entry, value: real): (r: Reading)
    ensures r.Finite? <==> e0.adcValue != e1.adcValue
    ensures r.Finite? ==>
              (r.value - e0.calibratedValue) * (e1.adcValue - e0.adcValue)
              == (value - e0.adcValue) * (e1.calibratedValue - e0.calibratedValue)
  {
    if e1.adcValue == e0.adcValue then NonFinite
    else
      var x0, y0, x1, y1 := e0.adcValue, e0.calibratedValue, e1.adcValue, e1.calibratedValue;
      Finite(y0 + (value - x0) * (y1 - y0) / (x1 - x0))
  }

  /** `getCalibratedValue`, as written: the search runs over `[0, nrEntries - 1]`, and an
      index of 0 or 1 returns the raw value. A table of at most two entries therefore
      never calibrates, and a non-finite result needs two equal neighbouring keys. */
  function GetCalibratedValue(t: seq<Entry>, value: real): (r: Reading)
    requires ValidTable(t)
    ensures |t| <= 2 ==> r == Finite(value)
    ensures r.NonFinite? ==> exists i | 1 <= i < |t| :: t[i - 1].adcValue == t[i].adcValue
  {
    var idx := FindIdx(t, value, 0, |t| - 1);
    if idx <= 1 || idx >= |t| then Finite(value)
    else Interpolate(t[idx - 1], t[idx], value)
  }

  /** On an ascending table, an index `j` below `end` lies below the result of the search
      on `[0, end]` exactly when its key is at most `value`. */
  lemma SearchSplitsKeys(t: seq<Entry>, value: real, end: uint8, j: nat)
    requires end <= |t| && Ascending(t) && j < end
    ensures j < FindIdx(t, value, 0, end) <==> t[j].adcValue <= value
  {
    var idx := FindIdx(t, value, 0, end);
    if idx <= j {
      assert value < t[idx].adcValue <= t[j].adcValue;
    }
  }

  /** The search never returns `nrEntries`, so the `idx >= nrEntries` guard never fires. */
  lemma SearchStaysInTable(t: seq<Entry>, value: real)
    requires ValidTable(t)
    ensures FindIdx(t, value, 0, |t| - 1) <= |t| - 1
  {
  }

  /** Below the second key the raw value comes back unchanged. */
  lemma IdentityBelowSecondKey(t: seq<Entry>, value: real)
    requires ValidTable(t) && Ascending(t) && |t| >= 2
    requires value < t[1].adcValue
    ensures GetCalibratedValue(t, value) == Finite(value)
  {
  }

  /** Between keys `i` and `i + 1` (for `i >= 1`) the result is the interpolation
      through entries `i` and `i + 1`. */
  lemma InterpolatesBracket(t: seq<Entry>, value: real, i: nat)
    requires ValidTable(t) && Ascending(t)
    requires 1 <= i && i + 1 < |t|
    requires t[i].adcValue <= value < t[i + 1].adcValue
    ensures GetCalibratedValue(t, value) == Interpolate(t[i], t[i + 1], value)
  {
  }

  /** At or above the last key the two last entries extrapolate (when there are at least three). */
  lemma ExtrapolatesAboveLastKey(t: seq<Entry>, value: real)
    requires ValidTable(t) && Ascending(t) && |t| >= 3
    requires t[|t| - 1].adcValue <= value
    ensures GetCalibratedValue(t, value) == Interpolate(t[|t| - 2], t[|t| - 1], value)
  {
  }

  /** The interpolation is finite when the keys differ and passes through both entries. */
  lemma InterpolateEndpoints(e0: Entry, e1: Entry)
    requires e0.adcValue != e1.adcValue
    ensures Interpolate(e0, e1, e0.adcValue) == Finite(e0.calibratedValue)
    ensures Interpolate(e0, e1, e1.adcValue) == Finite(e1.calibratedValue)
  {
    var dx, dy := e1.adcValue - e0.adcValue, e1.calibratedValue - e0.calibratedValue;
    assert dx * dy / dx == dy;
  }

  /** Halfway between two keys the interpolation gives the mean of the calibrated
      values, which lies strictly between them when they differ. */
  lemma InterpolateMidpoint(e0: Entry, e1: Entry)
    requires e0.adcValue < e1.adcValue
    ensures var mid := Interpolate(e0, e1, (e0.adcValue + e1.adcValue) / 2.0);
            && mid == Finite((e0.calibratedValue + e1.calibratedValue) / 2.0)
            && (e0.calibratedValue < e1.calibratedValue ==>
                  e0.calibratedValue < mid.value < e1.calibratedValue)
  {
    var dx, dy := e1.adcValue - e0.adcValue, e1.calibratedValue - e0.calibratedValue;
    assert (dx / 2.0) * dy / dx == dy / 2.0;
  }

  // ---------------------------------------------------------------------
  // The table's edges, as written and as evidently intended

  /** As written, a value at the first key, or anywhere in the first segment, is
      returned raw: the calibrated curve misses the first table point. */
  lemma FirstSegmentLeftRaw(t: seq<Entry>, value: real)
    requires ValidTable(t) && Ascending(t) && |t| >= 2
    requires t[0].adcValue <= value < t[1].adcValue
    ensures GetCalibratedValue(t, value) == Finite(value)
  {
    IdentityBelowSecondKey(t, value);
  }

  /** A two-point table that maps 0 to 1 and 10 to 11 leaves 0 at 0 and 5 at 5. */
  lemma TwoPointTableIgnored()
    ensures GetCalibratedValue([Entry(0.0, 1.0), Entry(10.0, 11.0)], 0.0) == Finite(0.0)
    ensures GetCalibratedValue([Entry(0.0, 1.0), Entry(10.0, 11.0)], 5.0) == Finite(5.0)
    ensures Interpolate(Entry(0.0, 1.0), Entry(10.0, 11.0), 5.0) == Finite(6.0)
  {
  }

  /** A three-point table on the line y = 2x: as written, 30 lies above the table
      but is extrapolated to 60 rather than returned raw. */
  lemma AboveTableExtrapolated()
    ensures GetCalibratedValue([Entry(0.0, 0.0), Entry(10.0, 20.0), Entry(20.0, 40.0)], 30.0) == Finite(60.0)
  {
  }

  /** The lookup with both table edges as its guards and comment describe them. The
      search runs over `[0, nrEntries]`. A value below the first key (index 0) or above
      the last key is outside every calibration range and comes back raw. The last
      key itself (index `nrEntries`) closes the last segment and takes its calibrated
      value. */
  function GetCalibratedValueCorrected(t: seq<Entry>, value: real): (r: Reading)
    requires ValidTable(t)
    ensures Ascending(t) && value < t[0].adcValue ==> r == Finite(value)
    ensures Ascending(t) && t[|t| - 1].adcValue < value ==> r == Finite(value)
  {
    var idx := FindIdx(t, value, 0, |t|);
    if idx < 1 then Finite(value)
    else if idx < |t| then Interpolate(t[idx - 1], t[idx], value)
    else if |t| >= 2 && value == t[|t| - 1].adcValue then Interpolate(t[|t| - 2], t[|t| - 1], value)
    else Finite(value)
  }

  /** With the corrected lookup, every value in a segment `[key[i], key[i+1])`,
      the first one included, is interpolated through entries `i` and `i + 1`. */
  lemma CorrectedInterpolatesInside(t: seq<Entry>, value: real, i: nat)
    requires ValidTable(t) && Ascending(t)
    requires i + 1 < |t|
    requires t[i].adcValue <= value < t[i + 1].adcValue
    ensures GetCalibratedValueCorrected(t, value) == Interpolate(t[i], t[i + 1], value)
  {
    SearchSplitsKeys(t, value, |t| as uint8, i);
    SearchSplitsKeys(t, value, |t| as uint8, i + 1);
  }

  /** With the corrected lookup and strictly ascending keys, the calibrated curve
      passes through every table point, the last one included. */
  lemma CorrectedHitsTablePoints(t: seq<Entry>, i: nat)
    requires ValidTable(t) && StrictlyAscending(t) && |t| >= 2
    requires i < |t|
    ensures GetCalibratedValueCorrected(t, t[i].adcValue) == Finite(t[i].calibratedValue)
  {
    assert Ascending(t);
    if i + 1 < |t| {
      CorrectedInterpolatesInside(t, t[i].adcValue, i);
      InterpolateEndpoints(t[i], t[i + 1]);
    } else {
      SearchSplitsKeys(t, t[i].adcValue, |t| as uint8, i);
      InterpolateEndpoints(t[i - 1], t[i]);
    }
  }

  /** At the last key of a table of at least three strictly ascending entries, the
      corrected lookup keeps the as-written result. */
  lemma CorrectedKeepsLastKey(t: seq<Entry>)
    requires ValidTable(t) && StrictlyAscending(t) && |t| >= 3
    ensures GetCalibratedValueCorrected(t, t[|t| - 1].adcValue)
            == GetCalibratedValue(t, t[|t| - 1].adcValue)
  {
    assert Ascending(t);
    CorrectedHitsTablePoints(t, |t| - 1);
    ExtrapolatesAboveLastKey(t, t[|t| - 1].adcValue);
    InterpolateEndpoints(t[|t| - 2], t[|t| - 1]);
  }
}
