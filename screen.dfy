/**
 * The detection screen of the mobile app (PaperDetectionScreen.js): the
 * record button that starts and stops periodic frame capture, the
 * permission guard, and the red rectangles drawn for the boxes the backend
 * returns.
 *
 * React state updates are taken to happen at once, one per button press.
 * The JavaScript timer table that `setInterval` and `clearInterval` act on
 * is part of the modelled state: `running` holds the handles of the
 * intervals still scheduled and `nextHandle` the handle the next
 * `setInterval` returns (handles are positive, hence truthy).
 */
module Screen {
  import opened Wrappers
  import opened Geometry
  import Backend

  type IntervalHandle = h: nat | h > 0 witness 1

  // ---------------------------------------------------------------------------
  // Capture control (PaperDetectionScreen.js:12-14, 46-57, 83-91)
  // ---------------------------------------------------------------------------

  /** The component state the record button touches, with the timer table. */
  datatype CaptureState = CaptureState(
    isRecording: bool,
    intervalRef: Option<IntervalHandle>,
    running: set<IntervalHandle>,
    nextHandle: IntervalHandle)

  /** First render: not recording, no interval held, no timer scheduled. */
  const Initial: CaptureState := CaptureState(false, None, {}, 1)

  /**
   * The button's flag agrees with the held handle, the only scheduled
   * capture timer is the held one, and every handle handed out so far is
   * below `nextHandle`.
   */
  predicate Consistent(s: CaptureState)
  {
    && (s.isRecording <==> s.intervalRef.Some?)
    && s.running == (if s.intervalRef.Some? then {s.intervalRef.value} else {})
    && (s.intervalRef.Some? ==> s.intervalRef.value < s.nextHandle)
  }

  /** `startFrameCapture`: schedule a capture interval unless one is held. */
  function Started(s: CaptureState): (t: CaptureState)
    ensures s.intervalRef.Some? ==> t == s
    ensures s.intervalRef.None? ==>
      && t.intervalRef == Some(s.nextHandle)
      && t.running == s.running + {s.nextHandle}
      && t.nextHandle > s.nextHandle
    ensures t.isRecording == s.isRecording
  {
    if s.intervalRef.None? then
      s.(intervalRef := Some(s.nextHandle), running := s.running + {s.nextHandle}, nextHandle := s.nextHandle + 1)
    else s
  }

  /** `stopFrameCapture`: clear the held interval, if any, and forget its handle. */
  function Stopped(s: CaptureState): (t: CaptureState)
    ensures t.intervalRef.None?
    ensures s.intervalRef.None? ==> t == s
    ensures s.intervalRef.Some? ==> t.running == s.running - {s.intervalRef.value}
    ensures t.isRecording == s.isRecording && t.nextHandle == s.nextHandle
  {
    match s.intervalRef
    case None => s
    case Some(h) => s.(intervalRef := None, running := s.running - {h})
  }

  /** The record button's `onPress`. */
  function Pressed(s: CaptureState): (t: CaptureState)
    ensures t.isRecording == !s.isRecording
    ensures s.isRecording ==> t.intervalRef.None?
    ensures !s.isRecording ==> t.intervalRef.Some?
  {
    if s.isRecording then Stopped(s.(isRecording := false))
    else Started(s.(isRecording := true))
  }

  /** A press flips the flag, and a consistent state stays consistent. */
  lemma PressedConsistent(s: CaptureState)
    requires Consistent(s)
    ensures Consistent(Pressed(s))
    ensures Pressed(s).isRecording == !s.isRecording
    ensures s.isRecording ==> Pressed(s).running == {}
    ensures !s.isRecording ==> Pressed(s).running == {s.nextHandle}
  {
  }

  /** The state after n presses of the record button. */
  function PressedTimes(s: CaptureState, n: nat): CaptureState
  {
    if n == 0 then s else Pressed(PressedTimes(s, n - 1))
  }

  /**
   * From the first render, any number of presses leaves the component
   * recording exactly when an interval is held, with at most that one
   * capture timer scheduled; it records after an odd number of presses.
   */
  lemma {:induction false} PressesKeepConsistent(n: nat)
    ensures Consistent(PressedTimes(Initial, n))
    ensures PressedTimes(Initial, n).isRecording <==> n % 2 == 1
  {
    if n > 0 {
      PressesKeepConsistent(n - 1);
      PressedConsistent(PressedTimes(Initial, n - 1));
    }
  }

  /** The record button's label. */
  function ButtonTitle(isRecording: bool): (title: string)
    ensures title == "Stop recording" <==> isRecording
    ensures title == "Start recording" <==> !isRecording
  {
    if isRecording then "Stop recording" else "Start recording"
  }

  /** The capture controls of one mounted screen. */
  class CaptureControls {
    var isRecording: bool
    var intervalRef: Option<IntervalHandle>
    var running: set<IntervalHandle>
    var nextHandle: IntervalHandle

    function State(): CaptureState
      reads this
    {
      CaptureState(isRecording, intervalRef, running, nextHandle)
    }

    /** The object invariant: see Consistent. */
    predicate Valid()
      reads this
    {
      Consistent(State())
    }

    constructor ()
      ensures State() == Initial && Valid()
    {
      isRecording, intervalRef, running, nextHandle := false, None, {}, 1;
    }

    method StartFrameCapture()
      modifies this
      ensures State() == Started(old(State()))
      ensures isRecording == old(isRecording)
      ensures old(intervalRef).Some? ==> unchanged(this)
    {
      if intervalRef.None? {
        intervalRef := Some(nextHandle);
        running := running + {nextHandle};
        nextHandle := nextHandle + 1;
      }
    }

    method StopFrameCapture()
      modifies this
      ensures State() == Stopped(old(State()))
      ensures intervalRef.None?
      ensures old(intervalRef).None? ==> unchanged(this)
      ensures old(intervalRef).Some? ==> running == old(running) - {old(intervalRef).value}
    {
      if intervalRef.Some? {
        running := running - {intervalRef.value};
        intervalRef := None;
      }
    }

    /** The record button's `onPress`. */
    method Press()
      modifies this
      ensures State() == Pressed(old(State()))
      ensures isRecording == !old(isRecording)
      ensures old(Valid()) ==> Valid()
    {
      if isRecording {
        isRecording := false;
        StopFrameCapture();
      } else {
        isRecording := true;
        StartFrameCapture();
      }
      if Consistent(old(State())) {
        PressedConsistent(old(State()));
      }
    }
  }

  // ---------------------------------------------------------------------------
  // Permission guard (PaperDetectionScreen.js:10, 59-61)
  // ---------------------------------------------------------------------------

  /**
   * Whether the screen shows "No access to camera": only when permission
   * was refused (`hasPermission === false`), not while it is still unknown
   * (`null`, here None).
   */
  function ShowsNoAccess(hasPermission: Option<bool>): (noAccess: bool)
    ensures noAccess <==> hasPermission == Some(false)
    ensures hasPermission.None? ==> !noAccess
  {
    match hasPermission
    case None => false
    case Some(granted) => !granted
  }

  // ---------------------------------------------------------------------------
  // Box rendering (PaperDetectionScreen.js:63-74)
  // ---------------------------------------------------------------------------

  /** An absolutely positioned view, keyed by its box's index. */
  datatype Rect = Rect(key: nat, left: real, top: real, width: real, height: real)

  /** `boxes.map`: one rectangle per [x_min, y_min, x_max, y_max] box, in order. */
  function RenderBoxes(boxes: seq<Box>): (rects: seq<Rect>)
    ensures |rects| == |boxes|
    ensures forall k :: 0 <= k < |boxes| ==> rects[k].key == k
    ensures forall k :: 0 <= k < |boxes| ==> RectBox(rects[k]) == boxes[k]
  {
    seq(|boxes|, k requires 0 <= k < |boxes| =>
      var b := boxes[k];
      Rect(k, b.xMin, b.yMin, b.xMax - b.xMin, b.yMax - b.yMin))
  }

  /** The corner box a rectangle covers. */
  function RectBox(r: Rect): Box
  {
    Box(r.left, r.top, r.left + r.width, r.top + r.height)
  }

  /**
   * Drawn for a detection of the backend, a rectangle is exactly as wide
   * and as tall as the anchor the detection comes from, and its corner is
   * half the size away from the anchor's centre.
   */
  lemma RenderedAnchorSize(t: Backend.Table, k: nat, inclusive: bool)
    requires Backend.Shaped(t, Backend.Attributes, Backend.AnchorCount)
    requires k < |Backend.PostProcess(t, Backend.ConfidenceThreshold, inclusive).boxes|
    ensures var a := Backend.Sources(t, Backend.ConfidenceThreshold, inclusive)[k];
      var rect := RenderBoxes(Backend.PostProcess(t, Backend.ConfidenceThreshold, inclusive).boxes)[k];
      && rect.width == t[Backend.WidthRow][a]
      && rect.height == t[Backend.HeightRow][a]
      && 2.0 * rect.left + rect.width == 2.0 * t[Backend.CxRow][a]
      && 2.0 * rect.top + rect.height == 2.0 * t[Backend.CyRow][a]
  {
    Backend.PostProcessSpec(t, Backend.ConfidenceThreshold, inclusive);
  }
}
