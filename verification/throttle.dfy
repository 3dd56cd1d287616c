/** `pull_throttle_region`: the rows of the first throttle pull of a ride,
    from the first sample where motor current becomes positive through the
    first later sample where it is no longer positive.

    The extractor is written step by step as ev.py computes it: a 0/1
    indicator, its first differences (NaN in front), the nonzero
    transitions with their time labels, the `np.where` lists of +1 and -1
    transitions, and a label slice. It is then proved equal to a direct
    search over sample positions (`ThrottleBounds`). */
module Throttle {
  import opened Results
  import opened Series
  import opened Telemetry

  /** The two unguarded `[0]` lookups of `ev.py`, as named failures. */
  datatype ThrottleError =
    | NoRisingEdge    // no +1 transition: `one_locations[0]` is out of range
    | NoFallingEdge   // no -1 transition after it: the second `[0]` is out of range

  /** One entry of the differenced indicator series: its time label and its
      value, `None` for the NaN that `diff()` puts at the first row. */
  datatype Entry = Entry(time: int, diff: Option<int>)

  /** The comparison is hard-coded against 0; the `threshold` local of `ev.py`
      variable is never read. */
  predicate Active(s: Sample) {
    s.row.currentMotor > 0.0
  }

  /** `(ride_data['current_motor'] > 0).astype(int)` */
  function AboveThreshold(t: Table): seq<int> {
    seq(|t|, i requires 0 <= i < |t| => if Active(t[i]) then 1 else 0)
  }

  /** `above_threshold.diff()`, each value kept with its time label. */
  function Diffs(t: Table): seq<Entry> {
    var a := AboveThreshold(t);
    seq(|t|, i requires 0 <= i < |t| => Entry(t[i].key, if i == 0 then None else Some(a[i] - a[i - 1])))
  }

  /** `diffs != 0`; NaN compares unequal to 0, so the first row passes. */
  function NonZeroMask(ds: seq<Entry>): seq<bool> {
    seq(|ds|, i requires 0 <= i < |ds| => ds[i].diff != Some(0))
  }

  /** The sample positions that survive `diffs[diffs != 0]`. */
  function TransitionPositions(t: Table): seq<nat> {
    Where(NonZeroMask(Diffs(t)))
  }

  /** `transitions = diffs[diffs != 0]` */
  function Transitions(t: Table): seq<Entry> {
    Select(Diffs(t), TransitionPositions(t))
  }

  /** `transitions == v`; NaN equals nothing. */
  function EqualsMask(ts: seq<Entry>, v: int): seq<bool> {
    seq(|ts|, k requires 0 <= k < |ts| => ts[k].diff == Some(v))
  }

  /** The transition indices `first_one` and `first_neg_one_after_first_one`:
      the first +1, then the first -1 after it. */
  function EdgeTransitions(transitions: seq<Entry>): (r: Result<(nat, nat), ThrottleError>)
    ensures r.Ok? ==> r.value.0 < r.value.1 < |transitions|
  {
    var oneLocations := Where(EqualsMask(transitions, 1));
    if |oneLocations| == 0 then Err(NoRisingEdge)
    else
      var firstOne := oneLocations[0];
      var negOneLocations := Where(EqualsMask(transitions, -1));
      var later := Where(GreaterMask(negOneLocations, firstOne));
      if |later| == 0 then Err(NoFallingEdge)
      else
        assert GreaterMask(negOneLocations, firstOne)[later[0]];
        Ok((firstOne, negOneLocations[later[0]]))
  }

  /** `pull_throttle_region(ride_data)`: the rows from the label of the first
      +1 transition through the label of the first -1 after it. */
  function PullThrottleRegion(t: Table): Result<Table, ThrottleError>
    requires DistinctKeys(t)
  {
    var transitions := Transitions(t);
    match EdgeTransitions(transitions)
    case Err(x) => Err(x)
    case Ok((firstOne, firstNegOneAfterFirstOne)) =>
      LabelOfTransition(t, firstOne);
      LabelOfTransition(t, firstNegOneAfterFirstOne);
      var start := transitions[firstOne].time;
      var end := transitions[firstNegOneAfterFirstOne].time;
      Ok(LocSlice(t, start, end))
  }

  /** Every transition is the differenced entry of the sample it came from. */
  lemma LabelOfTransition(t: Table, k: nat)
    requires k < |Transitions(t)|
    ensures TransitionPositions(t)[k] < |t|
    ensures Transitions(t)[k] == Diffs(t)[TransitionPositions(t)[k]]
    ensures Transitions(t)[k].time == t[TransitionPositions(t)[k]].key
    ensures HasKey(t, Transitions(t)[k].time)
  {
  }

  // ---------------------------------------------------------------------
  // The same region described by sample positions

  /** Current turns positive at `i` after a non-positive sample. Position 0
      never qualifies: its difference is NaN. */
  predicate IsRisingEdge(t: Table, i: int) {
    1 <= i < |t| && Active(t[i]) && !Active(t[i - 1])
  }

  /** Current stops being positive at `i`. */
  predicate IsFallingEdge(t: Table, i: int) {
    1 <= i < |t| && !Active(t[i]) && Active(t[i - 1])
  }

  predicate IsFirstRisingEdge(t: Table, s: int) {
    IsRisingEdge(t, s) && forall i :: 0 <= i < s ==> !IsRisingEdge(t, i)
  }

  /** `e` is the first non-positive sample after `s`: the samples between
      are all positive. */
  predicate IsRunEnd(t: Table, s: int, e: int) {
    0 <= s < e < |t| && !Active(t[e]) && forall j :: s < j < e ==> Active(t[j])
  }

  /** The least rising edge at or after `from`. */
  function FirstRisingEdge(t: Table, from: nat): (r: Option<nat>)
    ensures r.None? <==> forall i :: from <= i < |t| ==> !IsRisingEdge(t, i)
    ensures r.Some? ==> from <= r.value && IsRisingEdge(t, r.value)
    ensures r.Some? ==> forall i :: from <= i < r.value ==> !IsRisingEdge(t, i)
    decreases |t| - from
  {
    if from >= |t| then None
    else if IsRisingEdge(t, from) then Some(from)
    else FirstRisingEdge(t, from + 1)
  }

  /** The least non-positive sample at or after `from`. */
  function FirstInactive(t: Table, from: nat): (r: Option<nat>)
    ensures r.None? <==> forall j :: from <= j < |t| ==> Active(t[j])
    ensures r.Some? ==> from <= r.value < |t| && !Active(t[r.value])
    ensures r.Some? ==> forall j :: from <= j < r.value ==> Active(t[j])
    decreases |t| - from
  {
    if from >= |t| then None
    else if !Active(t[from]) then Some(from)
    else FirstInactive(t, from + 1)
  }

  /** The start and end positions of the first throttle pull, searched for
      directly: the first rising edge, then the first non-positive sample
      after it. */
  function ThrottleBounds(t: Table): Result<(nat, nat), ThrottleError> {
    match FirstRisingEdge(t, 0)
    case None => Err(NoRisingEdge)
    case Some(s) =>
      match FirstInactive(t, s + 1)
      case None => Err(NoFallingEdge)
      case Some(e) => Ok((s, e))
  }

  /** The direct search fails for want of a rising edge exactly when the
      log has none. */
  lemma ThrottleBoundsNoRise(t: Table)
    ensures ThrottleBounds(t) == Err(NoRisingEdge) <==> forall i :: 0 <= i < |t| ==> !IsRisingEdge(t, i)
  {
  }

  /** The direct search fails for want of a falling edge exactly when
      current is still positive at the end of the log after the first
      rising edge. */
  lemma ThrottleBoundsNoFall(t: Table)
    ensures ThrottleBounds(t) == Err(NoFallingEdge) <==>
              exists s :: IsFirstRisingEdge(t, s) && forall j :: s < j < |t| ==> Active(t[j])
  {
    match FirstRisingEdge(t, 0)
    case None =>
    case Some(s) =>
      assert IsFirstRisingEdge(t, s);
  }

  /** A successful search returns the first rising edge and the end of the
      run it starts, which is also the first falling edge after it. */
  lemma ThrottleBoundsFound(t: Table)
    ensures ThrottleBounds(t).Ok? ==>
              var (s, e) := ThrottleBounds(t).value;
              IsFirstRisingEdge(t, s) && IsRunEnd(t, s, e)
    ensures ThrottleBounds(t).Ok? ==>
              var (s, e) := ThrottleBounds(t).value;
              IsFallingEdge(t, e) && forall j :: s < j < e ==> !IsFallingEdge(t, j)
  {
  }

  /** Conversely, the first rising edge and the end of its run are what the
      search returns. */
  lemma ThrottleBoundsFindsRun(t: Table, s: int, e: int)
    requires IsFirstRisingEdge(t, s) && IsRunEnd(t, s, e)
    ensures ThrottleBounds(t) == Ok((s, e))
  {
    assert FirstRisingEdge(t, 0) == Some(s);
    assert FirstInactive(t, s + 1) == Some(e);
  }

  /** The first pull as the direct search sees it: the failure, or the
      samples from its start through its end. */
  function FirstPull(t: Table): Result<Table, ThrottleError> {
    ThrottleBoundsFound(t);
    match ThrottleBounds(t)
    case Err(err) => Err(err)
    case Ok((s, e)) => Ok(t[s..e + 1])
  }

  /** The first rising edge and the end of its run delimit the first
      pull. */
  lemma FirstPullFindsRun(t: Table, s: int, e: int)
    requires IsFirstRisingEdge(t, s) && IsRunEnd(t, s, e)
    ensures FirstPull(t) == Ok(t[s..e + 1])
  {
    ThrottleBoundsFindsRun(t, s, e);
  }

  // ---------------------------------------------------------------------
  // The differenced series and its transitions

  /** What one differenced value says about the samples around it. */
  lemma DiffMeaning(t: Table, p: nat)
    requires p < |t|
    ensures Diffs(t)[p].diff == None <==> p == 0
    ensures Diffs(t)[p].diff == Some(1) <==> IsRisingEdge(t, p)
    ensures Diffs(t)[p].diff == Some(-1) <==> IsFallingEdge(t, p)
    ensures Diffs(t)[p].diff == Some(0) <==> 1 <= p && (Active(t[p]) <==> Active(t[p - 1]))
  {
  }

  /** Where every difference is 0 the indicator holds its value. */
  lemma {:induction false} SteadyBetween(t: Table, p: nat, q: nat)
    requires p < q <= |t|
    requires forall i :: p < i < q ==> Diffs(t)[i].diff == Some(0)
    ensures forall i :: p <= i < q ==> (Active(t[i]) <==> Active(t[p]))
    decreases q - p
  {
    if q > p + 1 {
      SteadyBetween(t, p, q - 1);
      DiffMeaning(t, q - 1);
    }
  }

  /** Between one transition and the next (or the end of the log) every
      difference is 0. */
  lemma TransitionGap(t: Table, k: nat, i: nat)
    requires k < |TransitionPositions(t)|
    requires TransitionPositions(t)[k] < i < |t|
    requires k + 1 < |TransitionPositions(t)| ==> i < TransitionPositions(t)[k + 1]
    ensures Diffs(t)[i].diff == Some(0)
  {
    WhereGap(NonZeroMask(Diffs(t)), k, i);
  }

  /** Transition `k` is the leading NaN or a change of the indicator. */
  lemma TransitionValue(t: Table, k: nat)
    requires k < |Transitions(t)|
    ensures Transitions(t)[k].diff == None || Transitions(t)[k].diff == Some(1) || Transitions(t)[k].diff == Some(-1)
    ensures Transitions(t)[k].diff == None <==> TransitionPositions(t)[k] == 0
  {
    LabelOfTransition(t, k);
    DiffMeaning(t, TransitionPositions(t)[k]);
  }

  /** The row with the NaN difference is always the first transition. */
  lemma FirstTransitionIsNaN(t: Table)
    requires |t| > 0
    ensures |Transitions(t)| > 0 && Transitions(t)[0].diff == None
  {
    var mask := NonZeroMask(Diffs(t));
    WhereFirst(mask);
    assert mask[0];
    assert TransitionPositions(t)[0] == 0;
    TransitionValue(t, 0);
  }

  /** Transition `k` undoes transition `k - 1`. */
  lemma TransitionStep(t: Table, k: nat)
    requires 0 < k < |Transitions(t)|
    ensures Transitions(t)[k].diff.Some?
    ensures Transitions(t)[k - 1].diff.Some? ==> Transitions(t)[k].diff.value == -Transitions(t)[k - 1].diff.value
  {
    var K := TransitionPositions(t);
    var p, q := K[k - 1], K[k];
    LabelOfTransition(t, k - 1);
    LabelOfTransition(t, k);
    forall i | p < i < q
      ensures Diffs(t)[i].diff == Some(0)
    {
      TransitionGap(t, k - 1, i);
    }
    SteadyBetween(t, p, q);
    DiffMeaning(t, p);
    DiffMeaning(t, q);
  }

  /** The nonzero differences of a 0/1 series alternate between +1 and -1;
      only the leading NaN is neither. */
  lemma TransitionsAlternate(t: Table)
    ensures |t| > 0 ==> |Transitions(t)| > 0 && Transitions(t)[0].diff == None
    ensures forall k :: 0 <= k < |Transitions(t)| ==>
              Transitions(t)[k].diff == None || Transitions(t)[k].diff == Some(1) || Transitions(t)[k].diff == Some(-1)
    ensures forall k :: 0 < k < |Transitions(t)| ==> Transitions(t)[k].diff.Some?
    ensures forall k :: 0 < k < |Transitions(t)| && Transitions(t)[k - 1].diff.Some? ==>
              Transitions(t)[k].diff.value == -Transitions(t)[k - 1].diff.value
  {
    if |t| > 0 {
      FirstTransitionIsNaN(t);
    }
    forall k | 0 <= k < |Transitions(t)|
      ensures Transitions(t)[k].diff == None || Transitions(t)[k].diff == Some(1) || Transitions(t)[k].diff == Some(-1)
    {
      TransitionValue(t, k);
    }
    forall k | 0 < k < |Transitions(t)|
      ensures Transitions(t)[k].diff.Some?
      ensures Transitions(t)[k - 1].diff.Some? ==> Transitions(t)[k].diff.value == -Transitions(t)[k - 1].diff.value
    {
      TransitionStep(t, k);
    }
  }

  /** The -1 that `ev.py` pairs with the first +1 is simply the next
      transition, and there is one exactly when the +1 is not the last. */
  lemma FallingEdgeIsNextTransition(t: Table, f: nat)
    requires f < |Transitions(t)| && Transitions(t)[f].diff == Some(1)
    ensures var later := Where(GreaterMask(Where(EqualsMask(Transitions(t), -1)), f));
            |later| > 0 <==> f + 1 < |Transitions(t)|
    ensures var negOnes := Where(EqualsMask(Transitions(t), -1));
            var later := Where(GreaterMask(negOnes, f));
            |later| > 0 ==> negOnes[later[0]] == f + 1
  {
    var mask := EqualsMask(Transitions(t), -1);
    WhereFirstAfter(mask, f);
    if f + 1 < |Transitions(t)| {
      TransitionStep(t, f + 1);
      assert mask[f + 1];
    }
  }

  /** The +1 mask over the transitions reads the rising edges of the log. */
  lemma OnesAreRisingEdges(t: Table, k: nat)
    requires k < |Transitions(t)|
    ensures TransitionPositions(t)[k] < |t|
    ensures EqualsMask(Transitions(t), 1)[k] == IsRisingEdge(t, TransitionPositions(t)[k])
  {
    LabelOfTransition(t, k);
    DiffMeaning(t, TransitionPositions(t)[k]);
  }

  /** The mask of rising edges over sample positions. */
  function RisingMask(t: Table): (r: seq<bool>)
    ensures |r| == |t|
    ensures forall p :: 0 <= p < |t| ==> r[p] == IsRisingEdge(t, p)
  {
    seq(|t|, p requires 0 <= p < |t| => IsRisingEdge(t, p))
  }

  /** The first +1 transition sits on the first rising edge. */
  lemma FirstOneIsFirstRisingEdge(t: Table)
    ensures var ones := Where(EqualsMask(Transitions(t), 1));
            |ones| == 0 <==> FirstRisingEdge(t, 0).None?
    ensures var ones := Where(EqualsMask(Transitions(t), 1));
            |ones| > 0 ==> FirstRisingEdge(t, 0) == Some(TransitionPositions(t)[ones[0]])
  {
    var keep := NonZeroMask(Diffs(t));
    var rising := RisingMask(t);
    var want := EqualsMask(Transitions(t), 1);
    forall p | 0 <= p < |t| && rising[p]
      ensures keep[p]
    {
      DiffMeaning(t, p);
    }
    forall k | 0 <= k < |want|
      ensures want[k] == rising[Where(keep)[k]]
    {
      OnesAreRisingEdges(t, k);
    }
    WhereThroughSelection(keep, rising, want);
    var ones := Where(want);
    var r := FirstRisingEdge(t, 0);
    if |ones| > 0 {
      var s := Where(keep)[ones[0]];
      assert IsRisingEdge(t, s);
      assert r.Some?;
      assert r.value <= s;
      assert rising[r.value];
      assert r.value == s;
    }
  }

  /** From one transition up to the next (or to the end of the log) the
      indicator keeps the value it took at the transition. */
  lemma SteadyAfterTransition(t: Table, k: nat)
    requires k < |TransitionPositions(t)|
    ensures var K := TransitionPositions(t);
            var stop := if k + 1 < |K| then K[k + 1] else |t|;
            K[k] < stop <= |t| && forall i :: K[k] <= i < stop ==> (Active(t[i]) <==> Active(t[K[k]]))
  {
    var K := TransitionPositions(t);
    var stop := if k + 1 < |K| then K[k + 1] else |t|;
    forall i | K[k] < i < stop
      ensures Diffs(t)[i].diff == Some(0)
    {
      TransitionGap(t, k, i);
    }
    SteadyBetween(t, K[k], stop);
  }

  /** Just after a rising edge, the next transition (if any) is the first
      non-positive sample. */
  lemma RunEndsAtNextTransition(t: Table, f: nat)
    requires f + 1 < |Transitions(t)| && Transitions(t)[f].diff == Some(1)
    ensures FirstInactive(t, TransitionPositions(t)[f] + 1) == Some(TransitionPositions(t)[f + 1])
  {
    OnesAreRisingEdges(t, f);
    NextTransitionFalls(t, f);
    SteadyAfterTransition(t, f);
  }

  /** The transition after a +1 is a falling edge. */
  lemma NextTransitionFalls(t: Table, f: nat)
    requires f + 1 < |Transitions(t)| && Transitions(t)[f].diff == Some(1)
    ensures TransitionPositions(t)[f + 1] < |t| && IsFallingEdge(t, TransitionPositions(t)[f + 1])
  {
    TransitionStep(t, f + 1);
    LabelOfTransition(t, f + 1);
    DiffMeaning(t, TransitionPositions(t)[f + 1]);
  }

  /** After a rising edge that is the last transition, current stays
      positive to the end of the log. */
  lemma RunNeverEnds(t: Table, f: nat)
    requires f + 1 == |Transitions(t)| && Transitions(t)[f].diff == Some(1)
    ensures FirstInactive(t, TransitionPositions(t)[f] + 1).None?
  {
    OnesAreRisingEdges(t, f);
    SteadyAfterTransition(t, f);
  }

  /** The first -1 after the first +1 sits on the first non-positive
      sample after the rising edge. */
  lemma FirstNegOneIsRunEnd(t: Table, f: nat)
    requires f < |Transitions(t)| && Transitions(t)[f].diff == Some(1)
    ensures var later := Where(GreaterMask(Where(EqualsMask(Transitions(t), -1)), f));
            |later| == 0 <==> FirstInactive(t, TransitionPositions(t)[f] + 1).None?
    ensures var negOnes := Where(EqualsMask(Transitions(t), -1));
            var later := Where(GreaterMask(negOnes, f));
            |later| > 0 ==>
              FirstInactive(t, TransitionPositions(t)[f] + 1) == Some(TransitionPositions(t)[negOnes[later[0]]])
  {
    FallingEdgeIsNextTransition(t, f);
    if f + 1 < |Transitions(t)| {
      RunEndsAtNextTransition(t, f);
    } else {
      RunNeverEnds(t, f);
    }
  }

  // ---------------------------------------------------------------------
  // What the extractor returns

  /** The transition indices `ev.py` computes sit on the positions the
      direct search finds, and fail in the same way. */
  lemma EdgeTransitionsMatchBounds(t: Table)
    ensures ThrottleBounds(t).Err? ==> EdgeTransitions(Transitions(t)) == Err(ThrottleBounds(t).error)
    ensures ThrottleBounds(t).Ok? ==> EdgeTransitions(Transitions(t)).Ok?
    ensures ThrottleBounds(t).Ok? ==>
              var (i, j) := EdgeTransitions(Transitions(t)).value;
              ThrottleBounds(t).value == (TransitionPositions(t)[i], TransitionPositions(t)[j])
  {
    FirstOneIsFirstRisingEdge(t);
    var ones := Where(EqualsMask(Transitions(t), 1));
    if |ones| > 0 {
      OnesAreRisingEdges(t, ones[0]);
      FirstNegOneIsRunEnd(t, ones[0]);
    }
  }

  /** The label slice between the labels of two transitions is the position
      slice between the samples they came from. */
  lemma SliceBetweenTransitions(t: Table, i: nat, j: nat)
    requires DistinctKeys(t)
    requires i < |Transitions(t)| && j < |Transitions(t)|
    requires TransitionPositions(t)[i] <= TransitionPositions(t)[j]
    ensures HasKey(t, Transitions(t)[i].time) && HasKey(t, Transitions(t)[j].time)
    ensures LocSlice(t, Transitions(t)[i].time, Transitions(t)[j].time)
            == t[TransitionPositions(t)[i]..TransitionPositions(t)[j] + 1]
  {
    LabelOfTransition(t, i);
    LabelOfTransition(t, j);
    LocSliceByPosition(t, TransitionPositions(t)[i], TransitionPositions(t)[j]);
  }

  /** The literal extractor agrees with the direct search. */
  lemma PullThrottleRegionIsFirstPull(t: Table)
    requires DistinctKeys(t)
    ensures PullThrottleRegion(t) == FirstPull(t)
  {
    EdgeTransitionsMatchBounds(t);
    if ThrottleBounds(t).Ok? {
      var (i, j) := EdgeTransitions(Transitions(t)).value;
      SliceBetweenTransitions(t, i, j);
    }
  }

  // ---------------------------------------------------------------------
  // The extractor in terms of the samples alone

  /** With no rising edge in the log (current never positive, or positive
      only from the first sample on) the extraction fails. */
  lemma PullFailsWithoutRisingEdge(t: Table)
    requires DistinctKeys(t)
    ensures PullThrottleRegion(t) == Err(NoRisingEdge) <==> forall i :: 0 <= i < |t| ==> !IsRisingEdge(t, i)
  {
    PullThrottleRegionIsFirstPull(t);
    ThrottleBoundsNoRise(t);
  }

  /** With a rising edge but current still positive at the end of the log
      the extraction fails differently. */
  lemma PullFailsWithoutFallingEdge(t: Table)
    requires DistinctKeys(t)
    ensures PullThrottleRegion(t) == Err(NoFallingEdge) <==>
              exists s :: IsFirstRisingEdge(t, s) && forall j :: s < j < |t| ==> Active(t[j])
  {
    PullThrottleRegionIsFirstPull(t);
    ThrottleBoundsNoFall(t);
  }

  /** Otherwise the region is the samples from the first rising edge
      through the first non-positive sample after it. */
  lemma PullFindsFirstRun(t: Table, s: int, e: int)
    requires DistinctKeys(t)
    requires IsFirstRisingEdge(t, s) && IsRunEnd(t, s, e)
    ensures PullThrottleRegion(t) == Ok(t[s..e + 1])
  {
    FirstPullFindsRun(t, s, e);
    PullThrottleRegionIsFirstPull(t);
  }

  /** A region found by the direct search is one contiguous run of
      positive current plus the sample that ends it, cut out of the log
      unchanged at the first rising edge. */
  lemma FirstPullIsOneRun(t: Table, r: Table)
    requires FirstPull(t) == Ok(r)
    ensures 2 <= |r|
    ensures Active(r[0]) && !Active(r[|r| - 1])
    ensures forall i :: 0 <= i < |r| - 1 ==> Active(r[i])
    ensures exists s :: IsFirstRisingEdge(t, s) && s + |r| <= |t| && r == t[s..s + |r|]
  {
    ThrottleBoundsFound(t);
    var (s, e) := ThrottleBounds(t).value;
    assert r == t[s..e + 1];
    forall i | 0 <= i < |r| - 1
      ensures Active(r[i])
    {
      assert r[i] == t[s + i];
    }
  }

  /** A successful extraction is one contiguous run of positive current
      plus the sample that ends it, cut out of the log unchanged, starting
      at the first rising edge. */
  lemma PullThrottleRegionIsOneRun(t: Table, r: Table)
    requires DistinctKeys(t) && PullThrottleRegion(t) == Ok(r)
    ensures 2 <= |r|
    ensures Active(r[0]) && !Active(r[|r| - 1])
    ensures forall i :: 0 <= i < |r| - 1 ==> Active(r[i])
    ensures exists s :: IsFirstRisingEdge(t, s) && s + |r| <= |t| && r == t[s..s + |r|]
  {
    PullThrottleRegionIsFirstPull(t);
    FirstPullIsOneRun(t, r);
  }

  /** The search reads the log only up to the end of the first pull. */
  lemma FirstPullIgnoresLaterSamples(t: Table, u: Table, s: nat, e: nat)
    requires ThrottleBounds(t) == Ok((s, e))
    requires e < |u| && u[..e + 1] == t[..e + 1]
    ensures FirstPull(u) == FirstPull(t)
  {
    ThrottleBoundsFound(t);
    forall i | 0 <= i <= e
      ensures u[i] == t[i]
    {
      assert u[..e + 1][i] == t[..e + 1][i];
    }
    forall i | 0 <= i <= s
      ensures IsRisingEdge(u, i) == IsRisingEdge(t, i)
    {
    }
    ThrottleBoundsFindsRun(u, s, e);
    assert u[s..e + 1] == u[..e + 1][s..] == t[..e + 1][s..] == t[s..e + 1];
  }

  /** Only the log up to the end of the first pull matters: whatever comes
      after it (more on/off cycles included) leaves the result unchanged. */
  lemma LaterCyclesIgnored(t: Table, u: Table, s: nat, e: nat)
    requires DistinctKeys(t) && DistinctKeys(u)
    requires ThrottleBounds(t) == Ok((s, e))
    requires e < |u| && u[..e + 1] == t[..e + 1]
    ensures PullThrottleRegion(u) == PullThrottleRegion(t)
  {
    FirstPullIgnoresLaterSamples(t, u, s, e);
    PullThrottleRegionIsFirstPull(t);
    PullThrottleRegionIsFirstPull(u);
  }

  // ---------------------------------------------------------------------
  // Worked examples

  /** Indicator 0,0,1,1,1,0,0 at times 0..6: the region runs from time 2
      through time 5. */
  lemma OneCycleExample()
    ensures var t := [Reading(0, 0.0), Reading(1, 0.0), Reading(2, 4.0), Reading(3, 9.5),
                      Reading(4, 1.0), Reading(5, 0.0), Reading(6, -2.0)];
            PullThrottleRegion(t) == Ok(t[2..6])
  {
    var t := [Reading(0, 0.0), Reading(1, 0.0), Reading(2, 4.0), Reading(3, 9.5),
              Reading(4, 1.0), Reading(5, 0.0), Reading(6, -2.0)];
    assert IsFirstRisingEdge(t, 2);
    assert IsRunEnd(t, 2, 5);
    PullFindsFirstRun(t, 2, 5);
  }

  /** Indicator 0,1,1,0,0,1,1,0: the second pull is ignored and the region
      is positions 1 through 3. */
  lemma TwoCycleExample()
    ensures var t := [Reading(0, 0.0), Reading(1, 3.5), Reading(2, 7.0), Reading(3, 0.0),
                      Reading(4, -1.0), Reading(5, 2.0), Reading(6, 2.0), Reading(7, 0.0)];
            ThrottleBounds(t) == Ok((1, 3)) && PullThrottleRegion(t) == Ok(t[1..4])
  {
    var t := [Reading(0, 0.0), Reading(1, 3.5), Reading(2, 7.0), Reading(3, 0.0),
              Reading(4, -1.0), Reading(5, 2.0), Reading(6, 2.0), Reading(7, 0.0)];
    assert IsFirstRisingEdge(t, 1);
    assert IsRunEnd(t, 1, 3);
    ThrottleBoundsFindsRun(t, 1, 3);
    PullFindsFirstRun(t, 1, 3);
  }

  /** Current already positive at the first sample is not a rising edge:
      with no later re-rise the extraction fails. */
  lemma ActiveFromStartExample()
    ensures PullThrottleRegion([Reading(0, 5.0), Reading(1, 5.0), Reading(2, 0.0)]) == Err(NoRisingEdge)
  {
    var t := [Reading(0, 5.0), Reading(1, 5.0), Reading(2, 0.0)];
    assert !IsRisingEdge(t, 0) && !IsRisingEdge(t, 1) && !IsRisingEdge(t, 2);
    PullFailsWithoutRisingEdge(t);
  }

  /** A pull still running at the end of the log has no falling edge. */
  lemma UnterminatedExample()
    ensures PullThrottleRegion([Reading(0, 0.0), Reading(1, 5.0), Reading(2, 6.0)]) == Err(NoFallingEdge)
  {
    var t := [Reading(0, 0.0), Reading(1, 5.0), Reading(2, 6.0)];
    assert IsFirstRisingEdge(t, 1);
    PullFailsWithoutFallingEdge(t);
  }
}
