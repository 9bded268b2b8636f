/** What the fixation routines of both experiment scripts decide, stated over
    a finite trace of position samples: which samples are in the target
    region, where the unbroken in-region run holding a sample starts, and at
    which sample the dwell time is first exceeded. */
module Fixation {

  /** One reading of the device position and the clock. */
  datatype Sample = Sample(x: real, y: real, t: real)

  /** A fixation region. */
  datatype Rect = Rect(xMin: real, xMax: real, yMin: real, yMax: real)

  /** Region membership, inclusive on both axes. */
  predicate InRect(r: Rect, p: Sample)
  {
    r.xMin <= p.x <= r.xMax && r.yMin <= p.y <= r.yMax
  }

  /** `correct_position` of every sample for one region. */
  function RegionFlags(samples: seq<Sample>, r: Rect): (ok: seq<bool>)
    ensures |ok| == |samples|
    ensures forall k :: 0 <= k < |samples| ==> (ok[k] <==> InRect(r, samples[k]))
  {
    seq(|samples|, (k: int) requires 0 <= k < |samples| => InRect(r, samples[k]))
  }

  /** `correct_position` of every sample for two regions: in either of them. */
  function UnionFlags(samples: seq<Sample>, r1: Rect, r2: Rect): (ok: seq<bool>)
    ensures |ok| == |samples|
    ensures forall k :: 0 <= k < |samples| ==> (ok[k] <==> InRect(r1, samples[k]) || InRect(r2, samples[k]))
  {
    seq(|samples|, (k: int) requires 0 <= k < |samples| => InRect(r1, samples[k]) || InRect(r2, samples[k]))
  }

  /** Two equal regions accept what the single region accepts. */
  lemma UnionOfSameRegion(samples: seq<Sample>, r: Rect)
    ensures UnionFlags(samples, r, r) == RegionFlags(samples, r)
  {
  }

  /** The first sample of the unbroken run of correct samples that ends with
      the correct sample `k`. */
  function RunStart(ok: seq<bool>, k: nat): (s: nat)
    requires k < |ok| && ok[k]
    ensures s <= k
    ensures s == 0 || !ok[s - 1]
    ensures forall j :: s <= j <= k ==> ok[j]
  {
    if k == 0 || !ok[k - 1] then k else RunStart(ok, k - 1)
  }

  /** The run start is the only sample with those three properties. */
  lemma {:induction false} RunStartUnique(ok: seq<bool>, k: nat, s: nat)
    requires k < |ok| && ok[k]
    requires s <= k && (s == 0 || !ok[s - 1])
    requires forall j :: s <= j <= k ==> ok[j]
    ensures s == RunStart(ok, k)
  {
    if s < k {
      RunStartUnique(ok, k - 1, s);
    }
  }

  /** Within one unbroken run every sample has the same run start: moving
      between regions that are both accepted does not restart the timer. */
  lemma {:induction false} SameRun(ok: seq<bool>, s: nat, k: nat)
    requires s <= k < |ok|
    requires forall j :: s <= j <= k ==> ok[j]
    ensures RunStart(ok, k) == RunStart(ok, s)
  {
    if s < k {
      SameRun(ok, s, k - 1);
    }
  }

  /** The dwell test of the routine passes at sample `k`: it is correct, it is
      not the first sample of its run (that one only records the start time),
      and its time exceeds the start time of its run by more than `timeFix`. */
  predicate SucceedsAt(ok: seq<bool>, samples: seq<Sample>, timeFix: real, k: nat)
    requires |ok| == |samples|
  {
    && k < |ok| && ok[k]
    && RunStart(ok, k) < k
    && samples[k].t - samples[RunStart(ok, k)].t > timeFix
  }

  /** Sample `k` is where the routine stops. */
  predicate IsFirstSuccess(ok: seq<bool>, samples: seq<Sample>, timeFix: real, k: nat)
    requires |ok| == |samples|
  {
    SucceedsAt(ok, samples, timeFix, k) && forall j :: 0 <= j < k ==> !SucceedsAt(ok, samples, timeFix, j)
  }

  /** The trace ends before the routine would stop. */
  predicate NoSuccess(ok: seq<bool>, samples: seq<Sample>, timeFix: real)
    requires |ok| == |samples|
  {
    forall j :: 0 <= j < |ok| ==> !SucceedsAt(ok, samples, timeFix, j)
  }

  /** No sample before `i` passes the dwell test. */
  predicate NoSuccessBefore(ok: seq<bool>, samples: seq<Sample>, timeFix: real, i: nat)
    requires |ok| == |samples|
  {
    forall j :: 0 <= j < i ==> !SucceedsAt(ok, samples, timeFix, j)
  }

  lemma NoSuccessExtends(ok: seq<bool>, samples: seq<Sample>, timeFix: real, i: nat)
    requires |ok| == |samples|
    requires NoSuccessBefore(ok, samples, timeFix, i) && !SucceedsAt(ok, samples, timeFix, i)
    ensures NoSuccessBefore(ok, samples, timeFix, i + 1)
  {
  }

  /** There is at most one stopping sample. */
  lemma FirstSuccessUnique(ok: seq<bool>, samples: seq<Sample>, timeFix: real, k1: nat, k2: nat)
    requires |ok| == |samples|
    requires IsFirstSuccess(ok, samples, timeFix, k1) && IsFirstSuccess(ok, samples, timeFix, k2)
    ensures k1 == k2
  {
  }

  /** The first correct sample after an incorrect one, or at the start of the
      trace, never succeeds, whatever the dwell time. */
  lemma FirstOfRunNeverSucceeds(ok: seq<bool>, samples: seq<Sample>, timeFix: real, k: nat)
    requires |ok| == |samples| && k < |ok|
    requires k == 0 || !ok[k - 1]
    ensures !SucceedsAt(ok, samples, timeFix, k)
  {
    if ok[k] {
      assert RunStart(ok, k) == k;
    }
  }

  /** An incorrect sample discards the run before it: a later success is
      timed from a start after it. */
  lemma OutsideSampleResets(ok: seq<bool>, samples: seq<Sample>, timeFix: real, j: nat, k: nat)
    requires |ok| == |samples| && j < k < |ok|
    requires !ok[j]
    requires SucceedsAt(ok, samples, timeFix, k)
    ensures j < RunStart(ok, k)
  {
  }

  /** A sample that has been in the run since its start `s` and whose time
      exceeds `t_s` by more than `timeFix` passes the dwell test. */
  lemma {:induction false} LongRunSucceeds(ok: seq<bool>, samples: seq<Sample>, timeFix: real, s: nat, k: nat)
    requires |ok| == |samples| && s < k < |ok|
    requires s == 0 || !ok[s - 1]
    requires forall j :: s <= j <= k ==> ok[j]
    requires samples[k].t - samples[s].t > timeFix
    ensures SucceedsAt(ok, samples, timeFix, k)
  {
    RunStartUnique(ok, k, s);
  }
}
