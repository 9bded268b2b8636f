/** The single-region experiment script: its fixation routine, which polls the
    device until the gaze has stayed inside one region for longer than the
    dwell time. The stimulus reader of this script is `Stimuli.ExtractStimuli`. */
module EyetrackerExperiment {
  import opened Text
  import opened Fixation

  /** `fixation_routine` over a finite trace, one sample per loop iteration:
      the index of the sample at which the loop sets `fixation_succesful`, the
      first one that passes the dwell test, or `None` when the trace ends first
      (where the script would go on polling). */
  method FixationRoutine(samples: seq<Sample>, region: Rect, timeFix: real) returns (found: Option<nat>)
    ensures found.Some? ==> IsFirstSuccess(RegionFlags(samples, region), samples, timeFix, found.value)
    ensures found.None? ==> NoSuccess(RegionFlags(samples, region), samples, timeFix)
  {
    ghost var ok := RegionFlags(samples, region);
    var fixationSuccessful := false;
    var timeAlreadyStarted := false;
    var initialTime: real := 0.0;
    var i := 0;
    while fixationSuccessful == false && i < |samples|
      invariant 0 <= i <= |samples|
      invariant !fixationSuccessful ==> NoSuccessBefore(ok, samples, timeFix, i)
      invariant fixationSuccessful ==> 0 < i && IsFirstSuccess(ok, samples, timeFix, i - 1)
      invariant !fixationSuccessful ==> (timeAlreadyStarted <==> 0 < i && ok[i - 1])
      invariant !fixationSuccessful && timeAlreadyStarted ==> initialTime == samples[RunStart(ok, i - 1)].t
    {
      var position := samples[i];
      var correctPosition: bool;
      if region.xMin <= position.x <= region.xMax && region.yMin <= position.y <= region.yMax {
        correctPosition := true;
      } else {
        correctPosition := false;
        timeAlreadyStarted := false;
      }
      if correctPosition == true {
        if timeAlreadyStarted == false {
          initialTime := position.t;
          timeAlreadyStarted := true;
        } else {
          var t := position.t;
          if t - initialTime > timeFix {
            fixationSuccessful := true;
          }
        }
      }
      if !fixationSuccessful {
        NoSuccessExtends(ok, samples, timeFix, i);
      }
      i := i + 1;
    }
    if fixationSuccessful {
      return Some(i - 1);
    }
    return None;
  }
}
