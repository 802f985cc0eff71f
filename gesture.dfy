/** The shelf's interaction state (src/components/Bookshelf.tsx): the pan
    responder's refs `lastX`, `isDragging` and `targetRotation`, the render
    loop's easing of `currentRotation` toward the target, and the tap
    handler's mapping of a touch point to normalised device coordinates.
    The pure rules come first; PanController holds the refs and applies them
    in place. */
module Gesture {
  import opened BookModel
  import opened TapMapping

  /** Largest tilt of the shelf either way, in radians. */
  const MAX_TILT: real := 0.52
  /** Radians of target rotation per point of horizontal drag. */
  const SENSITIVITY: real := 0.005
  /** Fraction of the remaining difference covered in one frame. */
  const EASING: real := 0.1
  /** Differences up to this size are left alone by a frame. */
  const SETTLE: real := 0.001

  function Abs(v: real): (r: real)
    ensures r >= 0.0 && (r == v || r == -v)
  {
    if v < 0.0 then -v else v
  }

  predicate InTiltRange(v: real)
  {
    -MAX_TILT <= v <= MAX_TILT
  }

  /** `Math.max(-0.52, Math.min(0.52, v))`. */
  function Clamp(v: real): (r: real)
    ensures InTiltRange(r)
    ensures InTiltRange(v) ==> r == v
    ensures v > MAX_TILT ==> r == MAX_TILT
    ensures v < -MAX_TILT ==> r == -MAX_TILT
  {
    var upper := if v < MAX_TILT then v else MAX_TILT;
    if -MAX_TILT > upper then -MAX_TILT else upper
  }

  // ---------------------------------------------------------------------
  // Pan gestures
  // ---------------------------------------------------------------------

  datatype DragState = DragState(lastX: real, isDragging: bool, targetRotation: real)

  /** The three pan responder callbacks, each with the touch's `locationX`
      where it reads one. */
  datatype PanEvent = Grant(x: real) | Move(x: real) | Release

  const Idle := DragState(0.0, false, 0.0)

  /** The effect of one pan callback on the refs. */
  function Apply(d: DragState, e: PanEvent): (r: DragState)
    ensures InTiltRange(d.targetRotation) ==> InTiltRange(r.targetRotation)
    ensures e.Grant? ==>
      r.isDragging && r.lastX == e.x && r.targetRotation == d.targetRotation
    ensures e.Move? && !d.isDragging ==> r == d
    ensures e.Move? && d.isDragging ==>
      && r.isDragging && r.lastX == e.x && InTiltRange(r.targetRotation)
      && (InTiltRange(d.targetRotation + (e.x - d.lastX) * SENSITIVITY) ==>
            r.targetRotation == d.targetRotation + (e.x - d.lastX) * SENSITIVITY)
      && (d.targetRotation + (e.x - d.lastX) * SENSITIVITY > MAX_TILT ==> r.targetRotation == MAX_TILT)
      && (d.targetRotation + (e.x - d.lastX) * SENSITIVITY < -MAX_TILT ==> r.targetRotation == -MAX_TILT)
    ensures e.Release? ==> !r.isDragging && r.targetRotation == 0.0 && r.lastX == d.lastX
  {
    match e
    case Grant(x) => d.(lastX := x, isDragging := true)
    case Move(x) =>
      if !d.isDragging then d
      else
        var delta := x - d.lastX;
        var rotationDelta := delta * SENSITIVITY;
        DragState(x, true, Clamp(d.targetRotation + rotationDelta))
    case Release => d.(isDragging := false, targetRotation := 0.0)
  }

  /** The refs after a sequence of callbacks, in order. Only a grant starts
      a drag. */
  function Run(d: DragState, events: seq<PanEvent>): (r: DragState)
    ensures !d.isDragging && (forall i :: 0 <= i < |events| ==> !events[i].Grant?) ==> !r.isDragging
    decreases |events|
  {
    if events == [] then d
    else Apply(Run(d, events[..|events| - 1]), events[|events| - 1])
  }

  /** The target rotation stays in [-0.52, 0.52] whatever the gestures. */
  lemma {:induction false} RunStaysInRange(d: DragState, events: seq<PanEvent>)
    requires InTiltRange(d.targetRotation)
    ensures InTiltRange(Run(d, events).targetRotation)
    decreases |events|
  {
    if events != [] {
      RunStaysInRange(d, events[..|events| - 1]);
    }
  }

  /** Moves that arrive while no drag is in progress change nothing. */
  lemma {:induction false} StrayMovesIgnored(d: DragState, events: seq<PanEvent>)
    requires !d.isDragging
    requires forall i :: 0 <= i < |events| ==> events[i].Move?
    ensures Run(d, events) == d
    decreases |events|
  {
    if events != [] {
      StrayMovesIgnored(d, events[..|events| - 1]);
    }
  }

  /** A drag through the touch positions `xs`. */
  function Moves(xs: seq<real>): (r: seq<PanEvent>)
    ensures |r| == |xs| && forall i :: 0 <= i < |xs| ==> r[i] == Move(xs[i])
  {
    seq(|xs|, i requires 0 <= i < |xs| => Move(xs[i]))
  }

  /** Deltas telescope: while no position of a drag pushes the target past
      the limits, the target has turned by the total horizontal travel times
      the sensitivity, however the travel was split into moves. */
  lemma {:induction false} DragTelescopes(d: DragState, xs: seq<real>)
    requires d.isDragging && |xs| > 0
    requires forall k :: 0 <= k < |xs| ==>
      InTiltRange(d.targetRotation + (xs[k] - d.lastX) * SENSITIVITY)
    ensures Run(d, Moves(xs)) ==
      DragState(xs[|xs| - 1], true, d.targetRotation + (xs[|xs| - 1] - d.lastX) * SENSITIVITY)
    decreases |xs|
  {
    var m := |xs| - 1;
    assert Moves(xs)[..m] == Moves(xs[..m]);
    if m > 0 {
      DragTelescopes(d, xs[..m]);
      assert xs[..m][m - 1] == xs[m - 1];
    } else {
      assert Moves(xs[..m]) == [];
    }
  }

  /** Releasing ends the drag and recentres the target, whatever came before. */
  lemma ReleaseRecentres(d: DragState, events: seq<PanEvent>)
    requires |events| > 0 && events[|events| - 1].Release?
    ensures Run(d, events).targetRotation == 0.0 && !Run(d, events).isDragging
  {
  }

  // ---------------------------------------------------------------------
  // Easing
  // ---------------------------------------------------------------------

  /** One frame of the render loop: when the target is more than 0.001 away,
      the rotation covers a tenth of the remaining difference. */
  function Ease(current: real, target: real): (r: real)
    ensures Abs(target - current) <= SETTLE ==> r == current
    ensures Abs(target - current) > SETTLE ==>
      && Abs(target - r) == (1.0 - EASING) * Abs(target - current)
      && Abs(target - r) < Abs(target - current)
      && (current < target ==> current < r < target)
      && (target < current ==> target < r < current)
  {
    var rotationDiff := target - current;
    if Abs(rotationDiff) > SETTLE then current + rotationDiff * EASING else current
  }

  /** The rotation after n frames toward a fixed target. */
  function EaseN(current: real, target: real, n: nat): real
  {
    if n == 0 then current else Ease(EaseN(current, target, n - 1), target)
  }

  /** A distance d shrunk by the factor 0.9 n times, that is 0.9^n · d. */
  function Shrunk(d: real, n: nat): real
  {
    if n == 0 then d else 0.9 * Shrunk(d, n - 1)
  }

  /** The distance to the target after one frame. */
  lemma EaseStep(current: real, target: real)
    ensures Abs(target - Ease(current, target)) ==
      if Abs(target - current) > SETTLE then 0.9 * Abs(target - current) else Abs(target - current)
  {
  }

  /** Frames never move the rotation away from its target. */
  lemma {:induction false} EaseNApproaches(current: real, target: real, n: nat)
    ensures Abs(target - EaseN(current, target, n)) <= Abs(target - current)
  {
    if n > 0 {
      EaseNApproaches(current, target, n - 1);
      EaseStep(EaseN(current, target, n - 1), target);
    }
  }

  /** While the rotation is still more than 0.001 from its target, n frames
      have shrunk the distance by the factor 0.9^n exactly. */
  lemma {:induction false} EaseNRate(current: real, target: real, n: nat)
    ensures Abs(target - EaseN(current, target, n)) > SETTLE ==>
      Abs(target - EaseN(current, target, n)) == Shrunk(Abs(target - current), n)
  {
    if n > 0 {
      var prev := EaseN(current, target, n - 1);
      EaseNRate(current, target, n - 1);
      EaseStep(prev, target);
    }
  }

  /** A frame keeps the rotation between its old value and the target, so
      the rotation never leaves the tilt range when both start in it. */
  lemma EaseStaysInRange(current: real, target: real)
    requires InTiltRange(current) && InTiltRange(target)
    ensures InTiltRange(Ease(current, target))
  {
  }

  // ---------------------------------------------------------------------
  // The refs, mutated in place
  // ---------------------------------------------------------------------

  class PanController {
    var lastX: real
    var isDragging: bool
    var targetRotation: real
    var currentRotation: real
    /** `scene.rotation.y`, which the render loop keeps equal to the eased
        rotation. */
    var sceneYaw: real
    /** The `mouse` ref the tap handler writes. */
    var mouse: Ndc

    function Drag(): DragState
      reads this
    {
      DragState(lastX, isDragging, targetRotation)
    }

    /** Both rotations stay within the tilt range and the scene shows the
        eased rotation. */
    ghost predicate Valid()
      reads this
    {
      InTiltRange(targetRotation) && InTiltRange(currentRotation) && sceneYaw == currentRotation
    }

    constructor ()
      ensures Valid() && Drag() == Idle && currentRotation == 0.0
    {
      lastX := 0.0;
      isDragging := false;
      targetRotation := 0.0;
      currentRotation := 0.0;
      sceneYaw := 0.0;
      mouse := Ndc(0.0, 0.0);
    }

    /** `onPanResponderGrant`. */
    method OnGrant(locationX: real)
      requires Valid()
      modifies this
      ensures Valid()
      ensures Drag() == Apply(old(Drag()), Grant(locationX))
      ensures currentRotation == old(currentRotation) && sceneYaw == old(sceneYaw) && mouse == old(mouse)
    {
      lastX := locationX;
      isDragging := true;
    }

    /** `onPanResponderMove`. */
    method OnMove(locationX: real)
      requires Valid()
      modifies this
      ensures Valid()
      ensures Drag() == Apply(old(Drag()), Move(locationX))
      ensures currentRotation == old(currentRotation) && sceneYaw == old(sceneYaw) && mouse == old(mouse)
    {
      if !isDragging {
        return;
      }
      var currentX := locationX;
      var delta := currentX - lastX;
      var rotationDelta := delta * SENSITIVITY;
      targetRotation := Clamp(targetRotation + rotationDelta);
      lastX := currentX;
    }

    /** `onPanResponderRelease`. */
    method OnRelease()
      requires Valid()
      modifies this
      ensures Valid()
      ensures Drag() == Apply(old(Drag()), Release)
      ensures currentRotation == old(currentRotation) && sceneYaw == old(sceneYaw) && mouse == old(mouse)
    {
      isDragging := false;
      targetRotation := 0.0;
    }

    /** The easing part of one render frame. */
    method RenderStep()
      requires Valid()
      modifies this
      ensures Valid()
      ensures currentRotation == Ease(old(currentRotation), old(targetRotation))
      ensures Drag() == old(Drag()) && mouse == old(mouse)
    {
      EaseStaysInRange(currentRotation, targetRotation);
      var rotationDiff := targetRotation - currentRotation;
      if Abs(rotationDiff) > SETTLE {
        currentRotation := currentRotation + rotationDiff * EASING;
        sceneYaw := currentRotation;
      }
    }

    /** The coordinate part of `handleTap`: ignored while a drag is in
        progress; otherwise the touch point is stored in `mouse` as device
        coordinates, which are returned for the ray cast. */
    method HandleTap(locationX: real, locationY: real, width: real, height: real) returns (ndc: Option<Ndc>)
      requires width > 0.0 && height > 0.0
      modifies this
      ensures old(isDragging) ==> ndc == None && mouse == old(mouse)
      ensures !old(isDragging) ==>
        ndc == Some(TapToNdc(ScreenPoint(locationX, locationY), width, height)) && mouse == ndc.value
      ensures Drag() == old(Drag()) && currentRotation == old(currentRotation) && sceneYaw == old(sceneYaw)
    {
      if isDragging {
        return None;
      }
      mouse := Ndc((locationX / width) * 2.0 - 1.0, -(locationY / height) * 2.0 + 1.0);
      ndc := Some(mouse);
    }
  }
}
