/** Re-basing the time index of a log: `reset_time_index`, which makes the
    first sample time zero, and `vesc_trim_threshold`, which makes time
    zero the first sample where a chosen column exceeds a value. */
module Reindex {
  import opened Results
  import opened Series
  import opened Telemetry
  import Throttle

  /** Reading `index[0]` of an empty index raises IndexError. */
  datatype IndexError = EmptyIndex

  /** The labels of `r` are those of `t` moved by one common amount, and
      the rows are untouched. */
  predicate SameSpacing(t: Table, r: Table) {
    |r| == |t| &&
    (forall i :: 0 <= i < |t| ==> r[i].row == t[i].row) &&
    forall i, j :: 0 <= i < |t| && 0 <= j < |t| ==> r[j].key - r[i].key == t[j].key - t[i].key
  }

  /** Shifting the index keeps its spacing. */
  lemma ShiftKeepsSpacing(t: Table, d: int)
    ensures SameSpacing(t, Shift(t, d))
  {
  }

  /** `reset_time_index`: the whole index shifted so the first label is 0. */
  function ResetTimeIndex(t: Table): (r: Result<Table, IndexError>)
    ensures r.Err? <==> |t| == 0
    ensures r.Err? ==> r.error == EmptyIndex
    ensures r.Ok? ==> SameSpacing(t, r.value) && r.value[0].key == 0
  {
    if |t| == 0 then Err(EmptyIndex)
    else
      ShiftKeepsSpacing(t, t[0].key);
      Ok(Shift(t, t[0].key))
  }

  /** Spacing and a label fixed at one row pin down every label. */
  lemma {:induction false} SpacingDetermines(t: Table, r: Table, r': Table, i: nat)
    requires SameSpacing(t, r) && SameSpacing(t, r')
    requires i < |t| && r[i].key == r'[i].key
    ensures r == r'
  {
    forall j | 0 <= j < |t|
      ensures r[j] == r'[j]
    {
      assert r[j].key - r[i].key == t[j].key - t[i].key == r'[j].key - r'[i].key;
    }
  }

  /** Resetting an already reset log changes nothing. */
  lemma ResetTimeIndexIdempotent(t: Table, r: Table)
    requires ResetTimeIndex(t) == Ok(r)
    ensures ResetTimeIndex(r) == Ok(r)
  {
    SpacingDetermines(r, ResetTimeIndex(r).value, r, 0);
  }

  /** Where the clock started does not matter: a log shifted by any offset
      resets to the same frame. */
  lemma ResetForgetsOffset(t: Table, d: int)
    ensures ResetTimeIndex(Shift(t, d)) == ResetTimeIndex(t)
  {
    if |t| > 0 {
      SpacingDetermines(t, ResetTimeIndex(Shift(t, d)).value, ResetTimeIndex(t).value, 0);
    }
  }

  /** A shift by a common amount keeps the index sorted, and unsorted. */
  lemma {:induction false} SpacingKeepsOrder(t: Table, r: Table)
    requires SameSpacing(t, r)
    ensures StrictlyIncreasing(r) <==> StrictlyIncreasing(t)
  {
    forall i, j | 0 <= i < j < |t|
      ensures (r[i].key < r[j].key) == (t[i].key < t[j].key)
    {
      assert r[j].key - r[i].key == t[j].key - t[i].key;
    }
  }

  lemma ResetPreservesOrder(t: Table, r: Table)
    requires ResetTimeIndex(t) == Ok(r)
    ensures StrictlyIncreasing(r) <==> StrictlyIncreasing(t)
  {
    SpacingKeepsOrder(t, r);
  }

  /** `vd[column] > value`, row by row. */
  function AboveMask(t: Table, c: Column, v: real): (m: seq<bool>)
    ensures |m| == |t|
    ensures forall i :: 0 <= i < |t| ==> m[i] == (Get(t[i].row, c) > v)
  {
    seq(|t|, i requires 0 <= i < |t| => Get(t[i].row, c) > v)
  }

  /** Row `i` is the first whose `c` value exceeds `v`. */
  predicate IsFirstAbove(t: Table, c: Column, v: real, i: int) {
    0 <= i < |t| && Get(t[i].row, c) > v &&
    forall j :: 0 <= j < i ==> Get(t[j].row, c) <= v
  }

  /** `vesc_trim_threshold`: the label of the first row of `vd[vd[column] >
      value]` becomes time zero. With no such row, `index[0]` of the empty
      selection raises IndexError. */
  function VescTrimThreshold(t: Table, c: Column, v: real): (r: Result<Table, IndexError>)
    ensures r.Err? <==> forall i :: 0 <= i < |t| ==> Get(t[i].row, c) <= v
    ensures r.Err? ==> r.error == EmptyIndex
    ensures r.Ok? ==> SameSpacing(t, r.value)
    ensures r.Ok? ==> exists i :: IsFirstAbove(t, c, v, i) && r.value[i].key == 0
  {
    var mask := AboveMask(t, c, v);
    var hits := Select(t, Where(mask));
    WhereFirst(mask);
    if |hits| == 0 then Err(EmptyIndex)
    else
      var first := Where(mask)[0];
      assert hits[0] == t[first] && IsFirstAbove(t, c, v, first);
      ShiftKeepsSpacing(t, hits[0].key);
      Ok(Shift(t, hits[0].key))
  }

  /** Only one row can be the first above the value. */
  lemma FirstAboveUnique(t: Table, c: Column, v: real, i: int, j: int)
    requires IsFirstAbove(t, c, v, i) && IsFirstAbove(t, c, v, j)
    ensures i == j
  {
  }

  /** A successful trim is determined by its contract: time zero at the
      first row above the value, spacing and rows kept. */
  lemma TrimIsUnique(t: Table, c: Column, v: real, r: Table, i: nat)
    requires IsFirstAbove(t, c, v, i) && SameSpacing(t, r) && r[i].key == 0
    ensures VescTrimThreshold(t, c, v) == Ok(r)
  {
    var r' := VescTrimThreshold(t, c, v).value;
    var i' :| IsFirstAbove(t, c, v, i') && r'[i'].key == 0;
    FirstAboveUnique(t, c, v, i, i');
    SpacingDetermines(t, r, r', i);
  }

  /** Where the clock started does not matter to the trim either. */
  lemma TrimForgetsOffset(t: Table, c: Column, v: real, d: int)
    ensures VescTrimThreshold(Shift(t, d), c, v) == VescTrimThreshold(t, c, v)
  {
    var u := Shift(t, d);
    if VescTrimThreshold(t, c, v).Ok? {
      var r := VescTrimThreshold(t, c, v).value;
      var i :| IsFirstAbove(t, c, v, i) && r[i].key == 0;
      assert IsFirstAbove(u, c, v, i);
      TrimIsUnique(u, c, v, r, i);
    }
  }

  /** Trimming a trimmed log again changes nothing. */
  lemma TrimIdempotent(t: Table, c: Column, v: real, r: Table)
    requires VescTrimThreshold(t, c, v) == Ok(r)
    ensures VescTrimThreshold(r, c, v) == Ok(r)
  {
    var i :| IsFirstAbove(t, c, v, i) && r[i].key == 0;
    assert IsFirstAbove(r, c, v, i);
    TrimIsUnique(r, c, v, r, i);
  }

  /** When the first row is already above the value the trim is a reset. */
  lemma TrimAtFirstRowIsReset(t: Table, c: Column, v: real)
    requires 0 < |t| && Get(t[0].row, c) > v
    ensures VescTrimThreshold(t, c, v) == ResetTimeIndex(t)
  {
    assert IsFirstAbove(t, c, v, 0);
    TrimIsUnique(t, c, v, ResetTimeIndex(t).value, 0);
  }

  /** The throttle region starts with positive motor current, so trimming
      it at current above zero is resetting its time index. */
  lemma TrimOnThrottleRegionIsReset(t: Table, r: Table)
    requires DistinctKeys(t) && Throttle.PullThrottleRegion(t) == Ok(r)
    ensures VescTrimThreshold(r, CurrentMotor, 0.0) == ResetTimeIndex(r)
    ensures ResetTimeIndex(r).Ok?
  {
    Throttle.PullThrottleRegionIsOneRun(t, r);
    TrimAtFirstRowIsReset(r, CurrentMotor, 0.0);
  }

  /** A log whose motor current first exceeds 10 at time 300 is re-based
      there; the earlier samples get negative times. */
  lemma TrimExample()
    ensures var t := [Reading(100, 0.0), Reading(200, 4.0),
                      Reading(300, 12.0), Reading(400, 20.0)];
            VescTrimThreshold(t, CurrentMotor, 10.0)
            == Ok([Reading(-200, 0.0), Reading(-100, 4.0),
                   Reading(0, 12.0), Reading(100, 20.0)])
  {
    var t := [Reading(100, 0.0), Reading(200, 4.0),
              Reading(300, 12.0), Reading(400, 20.0)];
    var r := [Reading(-200, 0.0), Reading(-100, 4.0),
              Reading(0, 12.0), Reading(100, 20.0)];
    assert IsFirstAbove(t, CurrentMotor, 10.0, 2);
    TrimIsUnique(t, CurrentMotor, 10.0, r, 2);
  }
}
