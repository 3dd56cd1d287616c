/** The sample table of a motor-controller log: one row of named numeric
    columns per integer time key (milliseconds since the controller booted),
    together with the pandas label operations the analysis relies on. */
module Telemetry {

  /** The columns of a VESC log that ev.py reads by name. */
  datatype Column =
    | CurrentMotor   // current_motor
    | CurrentIn      // current_in
    | InputVoltage   // input_voltage
    | Erpm           // erpm
    | GnssVel        // gnss_gVel
    | TempMotor      // temp_motor
    | TempMosMax     // temp_mos_max

  datatype Row = Row(
    currentMotor: real,
    currentIn: real,
    inputVoltage: real,
    erpm: real,
    gnssVel: real,
    tempMotor: real,
    tempMosMax: real)

  /** `row[column]` */
  function Get(r: Row, c: Column): real {
    match c
    case CurrentMotor => r.currentMotor
    case CurrentIn => r.currentIn
    case InputVoltage => r.inputVoltage
    case Erpm => r.erpm
    case GnssVel => r.gnssVel
    case TempMotor => r.tempMotor
    case TempMosMax => r.tempMosMax
  }

  /** One labelled row of the data frame: its index label and its values. */
  datatype Sample = Sample(key: int, row: Row)

  /** A data frame, rows in their stored order. */
  type Table = seq<Sample>

  /** The time index is sorted ascending without repeats, as a ride log is. */
  predicate StrictlyIncreasing(t: Table) {
    forall i, j :: 0 <= i < j < |t| ==> t[i].key < t[j].key
  }

  /** The label of row `i`. */
  function KeyAt(t: Table, i: int): int
    requires 0 <= i < |t|
  {
    t[i].key
  }

  /** The time index is unique, which is what label slicing needs. (The
      trigger keeps the solver from comparing every pair of rows in sight;
      a proof that needs two rows compared names them with `KeyAt`.) */
  predicate DistinctKeys(t: Table) {
    forall i, j {:trigger KeyAt(t, i), KeyAt(t, j)} :: 0 <= i < j < |t| ==> KeyAt(t, i) != KeyAt(t, j)
  }

  lemma StrictlyIncreasingHasDistinctKeys(t: Table)
    requires StrictlyIncreasing(t)
    ensures DistinctKeys(t)
  {
    forall i, j | 0 <= i < j < |t|
      ensures KeyAt(t, i) != KeyAt(t, j)
    {
    }
  }

  predicate HasKey(t: Table, k: int) {
    exists i :: 0 <= i < |t| && t[i].key == k
  }

  /** The position of label `k`: the first row carrying it. */
  function IndexOf(t: Table, k: int): (i: nat)
    requires HasKey(t, k)
    ensures i < |t| && t[i].key == k
    ensures forall j :: 0 <= j < i ==> t[j].key != k
    decreases |t|
  {
    if t[0].key == k then 0
    else
      var w :| 0 <= w < |t| && t[w].key == k;
      assert 0 <= w - 1 < |t[1..]| && t[1..][w - 1].key == k;
      1 + IndexOf(t[1..], k)
  }

  /** `frame.loc[a:b]` on a unique index: the rows from label `a` through
      label `b`, both ends included; empty when `b` comes before `a`. */
  function LocSlice(t: Table, a: int, b: int): Table
    requires DistinctKeys(t)
    requires HasKey(t, a) && HasKey(t, b)
  {
    var i := IndexOf(t, a);
    var j := IndexOf(t, b);
    if i <= j then t[i..j + 1] else []
  }

  /** On a unique index a label is found at the one row carrying it. */
  lemma IndexOfUniqueKey(t: Table, i: int)
    requires DistinctKeys(t) && 0 <= i < |t|
    ensures HasKey(t, t[i].key) && IndexOf(t, t[i].key) == i
  {
    assert HasKey(t, t[i].key);
    var p := IndexOf(t, t[i].key);
    assert KeyAt(t, p) == KeyAt(t, i);
  }

  /** On a unique index, slicing by the labels of rows `i` and `j` is
      slicing by position, both ends included; the slice is empty when `j`
      comes before `i`. */
  lemma LocSliceByPosition(t: Table, i: int, j: int)
    requires DistinctKeys(t) && 0 <= i < |t| && 0 <= j < |t|
    ensures HasKey(t, t[i].key) && HasKey(t, t[j].key)
    ensures LocSlice(t, t[i].key, t[j].key) == if i <= j then t[i..j + 1] else []
  {
    IndexOfUniqueKey(t, i);
    IndexOfUniqueKey(t, j);
  }

  /** Every label moved down by `d`; the rows are untouched. This is the
      index arithmetic `frame.index = frame.index - d`. */
  function Shift(t: Table, d: int): (r: Table)
    ensures |r| == |t|
    ensures forall i :: 0 <= i < |t| ==> r[i].row == t[i].row && r[i].key + d == t[i].key
  {
    seq(|t|, i requires 0 <= i < |t| => Sample(t[i].key - d, t[i].row))
  }

  /** A sample carrying only a motor current. */
  function Reading(key: int, current: real): Sample {
    Sample(key, Row(current, 0.0, 0.0, 0.0, 0.0, 0.0, 0.0))
  }
}
