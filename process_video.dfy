/**
 * `process_video`: the light is estimated once, from the first frame the
 * capture yields; the writer is opened with that frame's size; every later
 * frame is restored with that one light and written, in order, until a read
 * fails. The per-frame restoration (`fast_visibility_restoration`) is an
 * opaque function of the frame and the light.
 */
module VideoProcessing {
  import opened Results
  import opened Frames
  import opened AtmosphericLight

  /** What `cv2.VideoWriter` holds: the frame size it was opened with and the frames written to it. */
  datatype Writer = Writer(width: nat, height: nat, frames: seq<Frame>)

  /** A completed run: the light used for every frame and the writer's final contents. */
  datatype Run = Run(light: Light, output: Writer)

  /**
   * `video.read()` on a capture positioned at `pos`: the next frame, or
   * nothing once the input is exhausted (`ret` is false).
   */
  function ReadFrame(video: seq<Frame>, pos: nat): (frame: Option<Frame>)
    ensures frame.Some? <==> pos < |video|
    ensures frame.Some? ==> frame.value == video[pos]
  {
    if pos < |video| then Some(video[pos]) else None
  }

  /**
   * The orchestration of lines 57-73. An input without frames hands `None`
   * to the estimator, which fails; an estimate that fails ends the run with
   * its error. Otherwise the writer receives `restore(frame, light)` for
   * exactly the second to last input frames, in input order, all with the
   * light of the first frame, at the first frame's size; the first frame
   * itself is never written.
   */
  method ProcessVideo(video: seq<Frame>, restore: (Frame, Light) -> Frame) returns (r: Result<Run, Error>)
    ensures video == [] ==> r == Failure(NoFrame)
    ensures video != [] ==> (r.Success? <==> EstimateLight(video[0], DefaultPercentile).Success?)
    ensures video != [] && r.Failure? ==> r.error == EstimateLight(video[0], DefaultPercentile).error
    ensures video != [] && |video[0].pixels| > 0 ==> r.Success?
    ensures r.Success? ==>
              r.value.light == EstimateLight(video[0], DefaultPercentile).value &&
              r.value.output.width == video[0].width &&
              r.value.output.height == video[0].height &&
              |r.value.output.frames| == |video| - 1 &&
              forall i :: 0 <= i < |r.value.output.frames| ==>
                r.value.output.frames[i] == restore(video[i + 1], r.value.light)
  {
    var first := ReadFrame(video, 0);
    if first.None? {
      return Failure(NoFrame);
    }
    var frame := first.value;
    if |frame.pixels| > 0 {
      DefaultPercentileFailsOnlyWhenEmpty(frame);
    }
    var estimate := EstimateAtmosphericLight(frame, DefaultPercentile);
    if estimate.Failure? {
      return Failure(estimate.error);
    }
    var light := estimate.value;
    var out := Writer(frame.width, frame.height, []);
    out := WriteRemaining(video, light, restore, out);
    return Success(Run(light, out));
  }

  /**
   * The loop of lines 64-70, entered with the capture past the first frame
   * and a writer that has received nothing: it reads the remaining frames
   * until a read fails and writes each one restored with `light`, in order.
   */
  method WriteRemaining(video: seq<Frame>, light: Light, restore: (Frame, Light) -> Frame, out: Writer)
    returns (written: Writer)
    requires |video| >= 1 && out.frames == []
    ensures written.width == out.width && written.height == out.height
    ensures |written.frames| == |video| - 1
    ensures forall i :: 0 <= i < |written.frames| ==> written.frames[i] == restore(video[i + 1], light)
  {
    var pos := 1;
    written := out;
    while true
      invariant 1 <= pos <= |video|
      invariant written.width == out.width && written.height == out.height
      invariant |written.frames| == pos - 1
      invariant forall i :: 0 <= i < |written.frames| ==> written.frames[i] == restore(video[i + 1], light)
      decreases |video| - pos
    {
      var next := ReadFrame(video, pos);
      if next.None? {
        break;
      }
      pos := pos + 1;
      written := written.(frames := written.frames + [restore(next.value, light)]);
    }
  }
}
