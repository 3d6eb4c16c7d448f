/** The frame-delay queue of `WebcamDelay.Update`: each time the camera
    reports a new frame, delay mode enqueues it and releases at most the
    oldest queued frame once the queue is longer than the required frame
    count, and sync mode shows the frame directly and empties the queue. */
module WebcamDelay {
  import opened Options

  /** A captured frame, identified by its capture index; pixels are opaque. */
  type Frame = nat

  /** The component's state: the mode switch, the configured delay in
      seconds (written by the experiment manager) and the FIFO `frameBuffer`,
      oldest frame first. */
  datatype Webcam = Webcam(useDelay: bool, delaySeconds: real, buffer: seq<Frame>)

  /** The state after one tick and the frame painted on the display that
      tick, if any. */
  datatype Tick = Tick(cam: Webcam, shown: Option<Frame>)

  /** The frames leaving the component on one tick, as a sequence. */
  function Released(shown: Option<Frame>): (r: seq<Frame>)
    ensures |r| <= 1
    ensures shown.Some? ==> r == [shown.value]
    ensures shown.None? ==> r == []
  {
    if shown.Some? then [shown.value] else []
  }

  function Max(a: nat, b: nat): nat {
    if a < b then b else a
  }

  /** One call of `Update`. `newFrame` is `None` when the camera reports no
      new frame this tick; `required` is the rounded product of the delay and
      the target frame rate. */
  function Update(cam: Webcam, newFrame: Option<Frame>, required: nat): (t: Tick)
    ensures t.cam.useDelay == cam.useDelay && t.cam.delaySeconds == cam.delaySeconds
    ensures newFrame.None? ==> t == Tick(cam, None)
    ensures newFrame.Some? && !cam.useDelay ==> t.shown == newFrame && t.cam.buffer == []
    ensures newFrame.Some? && cam.useDelay ==>
      && Released(t.shown) + t.cam.buffer == cam.buffer + [newFrame.value]
      && (t.shown.Some? <==> |cam.buffer| >= required)
      && |t.cam.buffer| <= Max(|cam.buffer|, required)
  {
    match newFrame
    case None => Tick(cam, None)
    case Some(f) =>
      if cam.useDelay then
        var queue := cam.buffer + [f];
        if |queue| > required then Tick(cam.(buffer := queue[1..]), Some(queue[0]))
        else Tick(cam.(buffer := queue), None)
      else
        Tick(cam.(buffer := []), Some(f))
  }

  /** What the component sees on one tick. */
  datatype Input = Input(frame: Option<Frame>, required: nat)

  /** The state after a run of ticks and the frames displayed, in order. */
  datatype Run = Run(cam: Webcam, shown: seq<Frame>)

  function RunTicks(cam: Webcam, inputs: seq<Input>): (r: Run)
    ensures r.cam.useDelay == cam.useDelay
    decreases |inputs|
  {
    if |inputs| == 0 then Run(cam, [])
    else
      var t := Update(cam, inputs[0].frame, inputs[0].required);
      var rest := RunTicks(t.cam, inputs[1..]);
      Run(rest.cam, Released(t.shown) + rest.shown)
  }

  /** The frames the camera delivered during a run, in capture order. */
  function Captured(inputs: seq<Input>): (r: seq<Frame>)
    ensures |r| <= |inputs|
    decreases |inputs|
  {
    if |inputs| == 0 then []
    else Released(inputs[0].frame) + Captured(inputs[1..])
  }

  /** Every tick of the run brings a new frame. */
  predicate AllFresh(inputs: seq<Input>) {
    forall i :: 0 <= i < |inputs| ==> inputs[i].frame.Some?
  }

  lemma {:induction false} CapturedAllFresh(inputs: seq<Input>)
    requires AllFresh(inputs)
    ensures |Captured(inputs)| == |inputs|
    ensures forall i :: 0 <= i < |inputs| ==> Captured(inputs)[i] == inputs[i].frame.value
    decreases |inputs|
  {
    if |inputs| > 0 {
      CapturedAllFresh(inputs[1..]);
    }
  }

  /** One delay-mode tick moves frames from the camera through the queue to
      the display without loss or reordering. */
  lemma UpdateConserves(cam: Webcam, input: Input)
    requires cam.useDelay
    ensures var t := Update(cam, input.frame, input.required);
      Released(t.shown) + t.cam.buffer == cam.buffer + Released(input.frame)
  {
  }

  /** The sequence algebra of one FIFO step: what a tick releases, then
      the rest of the run, then what stays queued. */
  lemma FifoStep(a: seq<Frame>, b: seq<Frame>, c: seq<Frame>, q: seq<Frame>,
                 x: seq<Frame>, f: seq<Frame>, tail: seq<Frame>)
    requires b + c == q + tail
    requires a + q == x + f
    ensures (a + b) + c == x + (f + tail)
  {
    calc {
      (a + b) + c;
      a + (b + c);
      a + (q + tail);
      (a + q) + tail;
      (x + f) + tail;
      x + (f + tail);
    }
  }

  /** Delay mode loses and invents nothing and never reorders: the frames
      displayed followed by the frames still queued are exactly the frames
      queued at the start followed by the frames captured. */
  lemma {:induction false} DelayRunIsFifo(cam: Webcam, inputs: seq<Input>)
    requires cam.useDelay
    ensures RunTicks(cam, inputs).shown + RunTicks(cam, inputs).cam.buffer
            == cam.buffer + Captured(inputs)
    decreases |inputs|
  {
    if |inputs| > 0 {
      var t := Update(cam, inputs[0].frame, inputs[0].required);
      var rest := RunTicks(t.cam, inputs[1..]);
      DelayRunIsFifo(t.cam, inputs[1..]);
      UpdateConserves(cam, inputs[0]);
      FifoStep(Released(t.shown), rest.shown, rest.cam.buffer, t.cam.buffer,
               cam.buffer, Released(inputs[0].frame), Captured(inputs[1..]));
    }
  }

  /** Starting from an empty queue, the displayed frames are a prefix of the
      captured frames: they appear in capture order with none skipped. */
  lemma DisplayedPrefixOfCaptured(cam: Webcam, inputs: seq<Input>)
    requires cam.useDelay && cam.buffer == []
    ensures RunTicks(cam, inputs).shown <= Captured(inputs)
  {
    DelayRunIsFifo(cam, inputs);
    var r := RunTicks(cam, inputs);
    assert r.shown + r.cam.buffer == Captured(inputs);
  }

  /** While each tick brings a frame and the required count never exceeds
      the current queue length, every tick displays exactly one frame and the
      queue keeps its length. */
  lemma {:induction false} OneInOneOut(cam: Webcam, inputs: seq<Input>)
    requires cam.useDelay && AllFresh(inputs)
    requires forall i :: 0 <= i < |inputs| ==> inputs[i].required <= |cam.buffer|
    ensures |RunTicks(cam, inputs).shown| == |inputs|
    ensures |RunTicks(cam, inputs).cam.buffer| == |cam.buffer|
    decreases |inputs|
  {
    if |inputs| > 0 {
      var t := Update(cam, inputs[0].frame, inputs[0].required);
      assert |t.cam.buffer| == |cam.buffer|;
      OneInOneOut(t.cam, inputs[1..]);
    }
  }

  /** The lag is the queue length: when the required count stays at or
      below the current length L (in particular after it has been lowered),
      the queue does not shrink and the frame displayed at tick i is the one
      captured L ticks earlier (or, for the first L ticks, the frame that was
      already queued). */
  lemma LagHeldAtQueueLength(cam: Webcam, inputs: seq<Input>)
    requires cam.useDelay && AllFresh(inputs)
    requires forall i :: 0 <= i < |inputs| ==> inputs[i].required <= |cam.buffer|
    ensures var r := RunTicks(cam, inputs);
      && |r.shown| == |inputs|
      && |r.cam.buffer| == |cam.buffer|
      && (forall i :: 0 <= i < |inputs| && i < |cam.buffer| ==> r.shown[i] == cam.buffer[i])
      && (forall i :: |cam.buffer| <= i < |inputs| ==>
            r.shown[i] == inputs[i - |cam.buffer|].frame.value)
  {
    var r := RunTicks(cam, inputs);
    OneInOneOut(cam, inputs);
    DelayRunIsFifo(cam, inputs);
    CapturedAllFresh(inputs);
    assert r.shown == (cam.buffer + Captured(inputs))[..|inputs|];
  }

  /** Steady state: once the queue holds exactly N frames and N stays fixed,
      every new frame causes the frame captured exactly N ticks earlier to
      be displayed. */
  lemma SteadyStateLag(cam: Webcam, inputs: seq<Input>, n: nat)
    requires cam.useDelay && AllFresh(inputs) && |cam.buffer| == n
    requires forall i :: 0 <= i < |inputs| ==> inputs[i].required == n
    ensures var r := RunTicks(cam, inputs);
      && |r.shown| == |inputs|
      && forall i :: n <= i < |inputs| ==> r.shown[i] == inputs[i - n].frame.value
  {
    LagHeldAtQueueLength(cam, inputs);
  }

  /** Raising the required count above the queue length freezes the
      display: nothing is released while the queue fills up to the new
      count. */
  lemma {:induction false} RaisedDelayFreezesDisplay(cam: Webcam, inputs: seq<Input>, n: nat)
    requires cam.useDelay && AllFresh(inputs)
    requires |cam.buffer| + |inputs| <= n
    requires forall i :: 0 <= i < |inputs| ==> inputs[i].required == n
    ensures RunTicks(cam, inputs).shown == []
    ensures RunTicks(cam, inputs).cam.buffer == cam.buffer + Captured(inputs)
    decreases |inputs|
  {
    if |inputs| > 0 {
      var t := Update(cam, inputs[0].frame, n);
      assert t.shown.None? && t.cam.buffer == cam.buffer + [inputs[0].frame.value];
      RaisedDelayFreezesDisplay(t.cam, inputs[1..], n);
      assert Captured(inputs) == [inputs[0].frame.value] + Captured(inputs[1..]);
    }
  }

  /** Ticks on which the camera reports no frame change nothing. */
  lemma {:induction false} IdleTicksChangeNothing(cam: Webcam, inputs: seq<Input>)
    requires forall i :: 0 <= i < |inputs| ==> inputs[i].frame.None?
    ensures RunTicks(cam, inputs) == Run(cam, [])
    decreases |inputs|
  {
    if |inputs| > 0 {
      IdleTicksChangeNothing(cam, inputs[1..]);
    }
  }

  /** Sync mode forgets the history: after a sync tick with a new frame and
      a switch back to delay mode, the queue starts empty, so with a
      required count of zero the next frame is displayed at once. */
  lemma SyncThenDelayStartsFresh(cam: Webcam, f: Frame, n: nat, g: Frame)
    requires !cam.useDelay
    ensures var t1 := Update(cam, Some(f), n);
      && t1.shown == Some(f)
      && t1.cam.buffer == []
      && Update(t1.cam.(useDelay := true), Some(g), 0) == Tick(t1.cam.(useDelay := true), Some(g))
  {
  }
}
