/** The two-region experiment script: its fixation routine, which accepts the
    gaze in either of two regions and reports which one it ended in, the
    cross fixation that calls it with one region twice, and the break counter
    of the trial loop. The stimulus reader of this script is
    `Stimuli.ExtractStimuli`. */
module EyetrackingExperiment {
  import opened Text
  import opened Fixation
  import opened Remainders

  /** `region_found` */
  datatype RegionFound = Region1 | Region2

  /** A successful fixation: the sample where it happened and the region
      reported for it. */
  datatype Fixated = Fixated(index: nat, region: RegionFound)

  /** `fixation_routine` with two regions over a finite trace, one sample per
      loop iteration and the stopping sample for the final region test: the
      first sample that passes the dwell test on the union of the regions,
      reported in region 1 exactly when it lies in region 1 and in region 2
      otherwise; `None` when the trace ends first. */
  method FixationRoutine(samples: seq<Sample>, region1: Rect, region2: Rect, timeFix: real)
    returns (found: Option<Fixated>)
    ensures found.Some? ==> IsFirstSuccess(UnionFlags(samples, region1, region2), samples, timeFix, found.value.index)
    ensures found.Some? ==> (found.value.region == Region1 <==> InRect(region1, samples[found.value.index]))
    ensures found.None? ==> NoSuccess(UnionFlags(samples, region1, region2), samples, timeFix)
  {
    ghost var ok := UnionFlags(samples, region1, region2);
    var fixationSuccessful := false;
    var timeAlreadyStarted := false;
    var initialTime: real := 0.0;
    var i := 0;
    while fixationSuccessful == false && i < |samples|
      invariant 0 <= i <= |samples|
      invariant !fixationSuccessful ==> NoSuccessBefore(ok, samples, timeFix, i)
      invariant fixationSuccessful ==> 0 < i && IsFirstSuccess(ok, samples, timeFix, i - 1)
      invariant !fixationSuccessful ==> (timeAlreadyStarted <==> 0 < i && ok[i - 1])
      invariant !fixationSuccessful && timeAlreadyStarted ==> initialTime == samples[RunStart(ok, i - 1)].t
    {
      var position := samples[i];
      var correctPosition: bool;
      if (region1.xMin <= position.x <= region1.xMax && region1.yMin <= position.y <= region1.yMax)
        || (region2.xMin <= position.x <= region2.xMax && region2.yMin <= position.y <= region2.yMax)
      {
        correctPosition := true;
      } else {
        correctPosition := false;
        timeAlreadyStarted := false;
      }
      if correctPosition == true {
        if timeAlreadyStarted == false {
          initialTime := position.t;
          timeAlreadyStarted := true;
        } else {
          var t := position.t;
          if t - initialTime > timeFix {
            fixationSuccessful := true;
          }
        }
      }
      if !fixationSuccessful {
        NoSuccessExtends(ok, samples, timeFix, i);
      }
      i := i + 1;
    }
    if fixationSuccessful == false {
      return None;
    }
    var last := samples[i - 1];
    var regionFound;
    if region1.xMin <= last.x <= region1.xMax && region1.yMin <= last.y <= region1.yMax {
      regionFound := Region1;
    } else {
      regionFound := Region2;
    }
    return Some(Fixated(i - 1, regionFound));
  }

  /** A successful fixation is in one of the two regions; one reported in
      region 2 is in region 2 and not in region 1. */
  lemma FixatedInRegion(samples: seq<Sample>, region1: Rect, region2: Rect, timeFix: real, f: Fixated)
    requires IsFirstSuccess(UnionFlags(samples, region1, region2), samples, timeFix, f.index)
    requires f.region == Region1 <==> InRect(region1, samples[f.index])
    ensures f.region == Region1 ==> InRect(region1, samples[f.index])
    ensures f.region == Region2 ==> InRect(region2, samples[f.index]) && !InRect(region1, samples[f.index])
  {
  }

  /** The cross fixation of the trial loop in `main`: it calls the two-region
      routine with the same region twice and keeps only whether it succeeded;
      it then stops where the single-region routine stops. */
  method CrossFixation(samples: seq<Sample>, cross: Rect, timeFix: real) returns (found: Option<nat>)
    ensures found.Some? ==> IsFirstSuccess(RegionFlags(samples, cross), samples, timeFix, found.value)
    ensures found.None? ==> NoSuccess(RegionFlags(samples, cross), samples, timeFix)
  {
    var outcome := FixationRoutine(samples, cross, cross, timeFix);
    UnionOfSameRegion(samples, cross);
    if outcome.None? {
      return None;
    }
    return Some(outcome.value.index);
  }

  /** The break counter before the trial after one with outcome `outcome`,
      counted from `counter` before it: a counter at `between` is first reset
      with a break; region 1 counts one more, region 2 forces a break. */
  function NextCounter(counter: nat, outcome: RegionFound, between: nat): nat
  {
    var afterBreak := if counter == between then 0 else counter;
    match outcome
    case Region1 => afterBreak + 1
    case Region2 => between
  }

  /** `breaks_counter` at the start of trial `k`. */
  function CounterBefore(outcomes: seq<RegionFound>, between: nat, k: nat): nat
    requires k <= |outcomes|
  {
    if k == 0 then 0 else NextCounter(CounterBefore(outcomes, between, k - 1), outcomes[k - 1], between)
  }

  /** The break counter of the trial loop in `main`, over the sequence of dot
      outcomes: whether a break is taken before each trial, and the counter
      after the last one. */
  method ScheduleBreaks(outcomes: seq<RegionFound>, between: nat) returns (breaks: seq<bool>, counter: nat)
    ensures |breaks| == |outcomes|
    ensures forall k :: 0 <= k < |outcomes| ==> (breaks[k] <==> CounterBefore(outcomes, between, k) == between)
    ensures counter == CounterBefore(outcomes, between, |outcomes|)
  {
    breaks := [];
    counter := 0;
    for k := 0 to |outcomes|
      invariant |breaks| == k
      invariant counter == CounterBefore(outcomes, between, k)
      invariant forall j {:trigger breaks[j]} :: 0 <= j < k ==> (breaks[j] <==> CounterBefore(outcomes, between, j) == between)
    {
      ghost var before := counter;
      var pause := false;
      if counter == between {
        pause := true;
        counter := 0;
      }
      breaks := breaks + [pause];
      match outcomes[k] {
        case Region1 =>
          counter := counter + 1;
        case Region2 =>
          counter := between;
      }
      assert counter == NextCounter(before, outcomes[k], between);
      assert breaks[k] <==> CounterBefore(outcomes, between, k) == between;
    }
  }

  /** With at least one trial between breaks, the counter stays in
      `0..between`. */
  lemma {:induction false} CounterInRange(outcomes: seq<RegionFound>, between: nat, k: nat)
    requires between >= 1 && k <= |outcomes|
    ensures CounterBefore(outcomes, between, k) <= between
  {
    if k > 0 {
      CounterInRange(outcomes, between, k - 1);
    }
  }

  /** A region 2 outcome is followed by a break before the next trial. */
  lemma Region2ForcesBreak(outcomes: seq<RegionFound>, between: nat, k: nat)
    requires k < |outcomes| && outcomes[k] == Region2
    ensures CounterBefore(outcomes, between, k + 1) == between
  {
  }

  /** A region 1 outcome counts one trial more, from 0 after a break. */
  lemma Region1Counts(outcomes: seq<RegionFound>, between: nat, k: nat)
    requires k < |outcomes| && outcomes[k] == Region1
    ensures CounterBefore(outcomes, between, k) != between ==>
      CounterBefore(outcomes, between, k + 1) == CounterBefore(outcomes, between, k) + 1
    ensures CounterBefore(outcomes, between, k) == between ==> CounterBefore(outcomes, between, k + 1) == 1
  {
  }

  /** When every dot is fixated in region 1, a break comes before every
      `between`-th trial after the first and before no other. */
  lemma {:induction false} RegularBreaks(outcomes: seq<RegionFound>, between: nat, k: nat)
    requires between >= 1 && k <= |outcomes|
    requires forall j :: 0 <= j < |outcomes| ==> outcomes[j] == Region1
    ensures CounterBefore(outcomes, between, k) == (if k == 0 then 0 else (k - 1) % between + 1)
    ensures CounterBefore(outcomes, between, k) == between <==> k > 0 && k % between == 0
  {
    if k > 0 {
      RegularBreaks(outcomes, between, k - 1);
      if k > 1 {
        NextRemainder(k - 2, between);
      }
    }
    if k > 0 {
      BreakRemainder(k, between);
    }
  }

  lemma NextRemainder(j: nat, n: nat)
    requires n >= 1
    ensures (if j % n + 1 == n then 1 else j % n + 2) == (j + 1) % n + 1
  {
    var q := j / n;
    assert j == q * n + j % n;
    if j % n + 1 == n {
      assert j + 1 == (q + 1) * n;
      CongruentToSmall(j + 1, 0, q + 1, n);
    } else {
      assert j + 1 == q * n + (j % n + 1);
      CongruentToSmall(j + 1, j % n + 1, q, n);
    }
  }

  lemma BreakRemainder(k: nat, n: nat)
    requires n >= 1 && k >= 1
    ensures (k - 1) % n + 1 == n <==> k % n == 0
  {
    var q := (k - 1) / n;
    assert k - 1 == q * n + (k - 1) % n;
    if (k - 1) % n + 1 == n {
      assert k == (q + 1) * n;
      CongruentToSmall(k, 0, q + 1, n);
    } else {
      CongruentToSmall(k, (k - 1) % n + 1, q, n);
    }
  }

  /** Without a break the counter grows by at least one per trial, so among
      any `between + 1` consecutive trials at least one starts with a break. */
  lemma BreakWithin(outcomes: seq<RegionFound>, between: nat, k: nat)
    requires between >= 1 && k + between < |outcomes|
    ensures exists j :: k <= j <= k + between && CounterBefore(outcomes, between, j) == between
  {
    if forall j :: k <= j < k + between ==> CounterBefore(outcomes, between, j) != between {
      CounterGrows(outcomes, between, k, between);
      CounterInRange(outcomes, between, k + between);
      assert CounterBefore(outcomes, between, k + between) == between;
    }
  }

  lemma {:induction false} CounterGrows(outcomes: seq<RegionFound>, between: nat, k: nat, d: nat)
    requires between >= 1 && k + d <= |outcomes|
    requires forall j :: k <= j < k + d ==> CounterBefore(outcomes, between, j) != between
    ensures CounterBefore(outcomes, between, k + d) >= CounterBefore(outcomes, between, k) + d
  {
    if d > 0 {
      CounterGrows(outcomes, between, k, d - 1);
      CounterInRange(outcomes, between, k + d - 1);
      assert CounterBefore(outcomes, between, k + d - 1) != between;
    }
  }
}
