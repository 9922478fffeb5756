/** The decision of autenticar_usuario: a deadline-bounded loop over frames
    that accepts on the first face the loaded model recognises as the
    claimed id with a distance below 25. */
module Authentication {

  import opened Options
  import opened Frames

  /** Seconds the session may run (`timeout`). */
  const Timeout: int := 20
  /** The inner distance test that decides acceptance. */
  const AcceptThreshold: real := 25.0
  /** The outer distance test, which only chooses the on-screen message. */
  const MessageThreshold: real := 100.0

  /** The two nested tests applied to one predicted face. The outer
      `< 100` test is implied by the inner `< 25` one, so the effective rule
      is an id match with a distance below 25. */
  function FaceAccepts(claimed: int, face: Face): (accepted: bool)
    ensures accepted <==> face.predicted == claimed && face.confidence < AcceptThreshold
  {
    if face.predicted == claimed && face.confidence < MessageThreshold then
      face.confidence < AcceptThreshold
    else
      false
  }

  /** The inner `for` over the faces of a frame from position j: the first
      face that is accepted, or None. With no model no face is predicted. */
  function FirstAccepting(claimed: int, loaded: bool, faces: seq<Face>, j: nat): (r: Option<nat>)
    requires j <= |faces|
    ensures r.Some? ==>
      loaded && j <= r.value < |faces| && FaceAccepts(claimed, faces[r.value]) &&
      forall k :: j <= k < r.value ==> !FaceAccepts(claimed, faces[k])
    ensures r.None? ==> !loaded || forall k :: j <= k < |faces| ==> !FaceAccepts(claimed, faces[k])
    decreases |faces| - j
  {
    if j == |faces| then None
    else if loaded && FaceAccepts(claimed, faces[j]) then Some(j)
    else FirstAccepting(claimed, loaded, faces, j + 1)
  }

  datatype AuthEnd = Granted | AuthReadFailed | TimedOut | AuthQuit

  /** The exit taken, the frame it was taken at, and (on Granted) the
      position of the accepted face in that frame. */
  datatype AuthResult = AuthResult(end: AuthEnd, frame: nat, face: nat)

  /** The `while True` loop from frame i. Each iteration reads a frame, then
      stops once `20 - (now - start) <= 0`, then scans the faces, then
      honours 'q'. Running out of frames is a failed read. */
  function AuthRun(claimed: int, loaded: bool, start: int, frames: seq<Frame>, i: nat): (r: AuthResult)
    requires i <= |frames|
    ensures i <= r.frame <= |frames|
    decreases |frames| - i
  {
    if i == |frames| || frames[i].ReadFail? then AuthResult(AuthReadFailed, i, 0)
    else if Timeout - (frames[i].time - start) <= 0 then AuthResult(TimedOut, i, 0)
    else match FirstAccepting(claimed, loaded, frames[i].faces, 0)
      case Some(j) => AuthResult(Granted, i, j)
      case None =>
        if frames[i].quit then AuthResult(AuthQuit, i, 0)
        else AuthRun(claimed, loaded, start, frames, i + 1)
  }

  /** One whole session. */
  function Authenticate(claimed: int, loaded: bool, start: int, frames: seq<Frame>): AuthResult {
    AuthRun(claimed, loaded, start, frames, 0)
  }

  /** A frame that was read before the deadline. */
  predicate Live(start: int, f: Frame) {
    f.Captured? && f.time - start < Timeout
  }

  /** A frame on which the session accepts, stated without the loop. */
  predicate Grants(claimed: int, loaded: bool, start: int, f: Frame) {
    Live(start, f) && loaded &&
    exists j :: 0 <= j < |f.faces| && FaceAccepts(claimed, f.faces[j])
  }

  /** A frame after which the session goes on to the next one. */
  predicate PassesOn(claimed: int, loaded: bool, start: int, f: Frame) {
    Live(start, f) && !Grants(claimed, loaded, start, f) && !f.quit
  }

  lemma {:induction false} GrantedIffFrom(claimed: int, loaded: bool, start: int, frames: seq<Frame>, from: nat)
    requires from <= |frames|
    ensures AuthRun(claimed, loaded, start, frames, from).end == Granted <==>
      exists i :: from <= i < |frames| && Grants(claimed, loaded, start, frames[i]) &&
        forall k :: from <= k < i ==> PassesOn(claimed, loaded, start, frames[k])
    decreases |frames| - from
  {
    if from < |frames| {
      var f := frames[from];
      if Live(start, f) {
        var first := FirstAccepting(claimed, loaded, f.faces, 0);
        if Grants(claimed, loaded, start, f) {
          assert first.Some?;
        } else if !f.quit {
          assert first.None?;
          GrantedIffFrom(claimed, loaded, start, frames, from + 1);
          if AuthRun(claimed, loaded, start, frames, from + 1).end == Granted {
            var i :| from + 1 <= i < |frames| && Grants(claimed, loaded, start, frames[i]) &&
              forall k :: from + 1 <= k < i ==> PassesOn(claimed, loaded, start, frames[k]);
            assert forall k :: from <= k < i ==> PassesOn(claimed, loaded, start, frames[k]);
          }
        } else {
          assert first.None?;
        }
      }
    }
  }

  /** The session accepts exactly when some frame grants and every frame
      before it was live, granted nothing and had no 'q'. */
  lemma GrantedIff(claimed: int, loaded: bool, start: int, frames: seq<Frame>)
    ensures Authenticate(claimed, loaded, start, frames).end == Granted <==>
      exists i :: 0 <= i < |frames| && Grants(claimed, loaded, start, frames[i]) &&
        forall k :: 0 <= k < i ==> PassesOn(claimed, loaded, start, frames[k])
  {
    GrantedIffFrom(claimed, loaded, start, frames, 0);
  }

  lemma {:induction false} GrantedAtFrom(claimed: int, loaded: bool, start: int, frames: seq<Frame>, from: nat)
    requires from <= |frames|
    ensures var r := AuthRun(claimed, loaded, start, frames, from);
      r.end == Granted ==>
        r.frame < |frames| && Grants(claimed, loaded, start, frames[r.frame]) &&
        r.face < |frames[r.frame].faces| &&
        FaceAccepts(claimed, frames[r.frame].faces[r.face]) &&
        (forall k :: 0 <= k < r.face ==> !FaceAccepts(claimed, frames[r.frame].faces[k])) &&
        (forall k :: from <= k < r.frame ==> PassesOn(claimed, loaded, start, frames[k]))
    decreases |frames| - from
  {
    if from < |frames| && Live(start, frames[from]) {
      var f := frames[from];
      var first := FirstAccepting(claimed, loaded, f.faces, 0);
      if first.None? && !f.quit {
        assert !Grants(claimed, loaded, start, f);
        GrantedAtFrom(claimed, loaded, start, frames, from + 1);
      }
    }
  }

  /** First match wins: on acceptance the reported face accepts, no face
      before it in that frame does, and every earlier frame passed on. */
  lemma GrantedAt(claimed: int, loaded: bool, start: int, frames: seq<Frame>)
    ensures var r := Authenticate(claimed, loaded, start, frames);
      r.end == Granted ==>
        r.frame < |frames| && Grants(claimed, loaded, start, frames[r.frame]) &&
        r.face < |frames[r.frame].faces| &&
        FaceAccepts(claimed, frames[r.frame].faces[r.face]) &&
        (forall k :: 0 <= k < r.face ==> !FaceAccepts(claimed, frames[r.frame].faces[k])) &&
        (forall k :: 0 <= k < r.frame ==> PassesOn(claimed, loaded, start, frames[k]))
  {
    GrantedAtFrom(claimed, loaded, start, frames, 0);
  }

  lemma {:induction false} AuthRunAgrees(claimed: int, loaded: bool, start: int,
                                        frames: seq<Frame>, other: seq<Frame>, n: nat, from: nat)
    requires from <= n <= |frames| && n <= |other| && frames[..n] == other[..n]
    requires AuthRun(claimed, loaded, start, frames, from).frame < n
    ensures AuthRun(claimed, loaded, start, other, from) == AuthRun(claimed, loaded, start, frames, from)
    decreases |frames| - from
  {
    assert frames[from] == frames[..n][from] == other[..n][from] == other[from];
    var f := frames[from];
    if f.Captured? && Timeout - (f.time - start) > 0 &&
       FirstAccepting(claimed, loaded, f.faces, 0).None? && !f.quit {
      AuthRunAgrees(claimed, loaded, start, frames, other, n, from + 1);
    }
  }

  /** Nothing after the frame the session stopped at is looked at: any
      frames appended after it leave the outcome unchanged. */
  lemma IgnoresLaterFrames(claimed: int, loaded: bool, start: int, frames: seq<Frame>, rest: seq<Frame>)
    requires Authenticate(claimed, loaded, start, frames).frame < |frames|
    ensures var n := Authenticate(claimed, loaded, start, frames).frame + 1;
      Authenticate(claimed, loaded, start, frames[..n] + rest) == Authenticate(claimed, loaded, start, frames)
  {
    var n := Authenticate(claimed, loaded, start, frames).frame + 1;
    var other := frames[..n] + rest;
    assert other[..n] == frames[..n];
    AuthRunAgrees(claimed, loaded, start, frames, other, n, 0);
  }

  lemma {:induction false} DeadlineStopsFrom(claimed: int, loaded: bool, start: int,
                                            frames: seq<Frame>, i: nat, from: nat)
    requires from <= i < |frames| && frames[i].Captured? && frames[i].time - start >= Timeout
    ensures var r := AuthRun(claimed, loaded, start, frames, from);
      r.frame <= i && (r.frame == i ==> r.end == TimedOut)
    decreases i - from
  {
    if from < i {
      var f := frames[from];
      if f.Captured? && Timeout - (f.time - start) > 0 &&
         FirstAccepting(claimed, loaded, f.faces, 0).None? && !f.quit {
        DeadlineStopsFrom(claimed, loaded, start, frames, i, from + 1);
      }
    }
  }

  /** A frame read at or after start + 20 ends the session: it stops there
      with TimedOut unless it had already stopped earlier, and so it never
      accepts at or after the deadline. */
  lemma DeadlineStops(claimed: int, loaded: bool, start: int, frames: seq<Frame>, i: nat)
    requires i < |frames| && frames[i].Captured? && frames[i].time - start >= Timeout
    ensures var r := Authenticate(claimed, loaded, start, frames);
      r.frame <= i && (r.frame == i ==> r.end == TimedOut) &&
      (r.end == Granted ==> r.frame < i)
  {
    DeadlineStopsFrom(claimed, loaded, start, frames, i, 0);
  }

  /** Without a loaded model no session accepts, whatever the faces. */
  lemma NoModelRejects(claimed: int, start: int, frames: seq<Frame>)
    ensures Authenticate(claimed, false, start, frames).end != Granted
  {
    GrantedIff(claimed, false, start, frames);
  }

  /** A camera that never yields a detected face never lets anyone in. */
  lemma NoFaceRejects(claimed: int, loaded: bool, start: int, frames: seq<Frame>)
    requires forall k :: 0 <= k < |frames| && frames[k].Captured? ==> frames[k].faces == []
    ensures Authenticate(claimed, loaded, start, frames).end != Granted
  {
    GrantedIff(claimed, loaded, start, frames);
  }

  /** The frames with the distance of face j of frame i replaced by d. */
  function WithConfidence(frames: seq<Frame>, i: nat, j: nat, d: real): (out: seq<Frame>)
    requires i < |frames| && frames[i].Captured? && j < |frames[i].faces|
    ensures |out| == |frames| && out[i].Captured?
  {
    var f := frames[i];
    frames[i := f.(faces := f.faces[j := f.faces[j].(confidence := d)])]
  }

  /** Acceptance is monotone in the distance: lowering any one distance
      never turns an accepted session into a rejected one. */
  lemma ConfidenceMonotone(claimed: int, loaded: bool, start: int, frames: seq<Frame>,
                           i: nat, j: nat, d: real)
    requires i < |frames| && frames[i].Captured? && j < |frames[i].faces|
    requires d <= frames[i].faces[j].confidence
    requires Authenticate(claimed, loaded, start, frames).end == Granted
    ensures Authenticate(claimed, loaded, start, WithConfidence(frames, i, j, d)).end == Granted
  {
    var lowered := WithConfidence(frames, i, j, d);
    GrantedIff(claimed, loaded, start, frames);
    GrantedIff(claimed, loaded, start, lowered);
    var g :| 0 <= g < |frames| && Grants(claimed, loaded, start, frames[g]) &&
      forall k :: 0 <= k < g ==> PassesOn(claimed, loaded, start, frames[k]);
    var f, f' := frames[i], lowered[i];
    assert Live(start, f') == Live(start, f) && f'.quit == f.quit;
    assert Grants(claimed, loaded, start, f) ==> Grants(claimed, loaded, start, f') by {
      if Grants(claimed, loaded, start, f) {
        var w :| 0 <= w < |f.faces| && FaceAccepts(claimed, f.faces[w]);
        assert FaceAccepts(claimed, f'.faces[w]);
      }
    }
    if i < g && Grants(claimed, loaded, start, f') {
      assert forall k :: 0 <= k < i ==> PassesOn(claimed, loaded, start, lowered[k]);
    } else {
      assert Grants(claimed, loaded, start, lowered[g]);
      assert forall k :: 0 <= k < g ==> PassesOn(claimed, loaded, start, lowered[k]);
    }
  }

  /** Every detected face in every frame carries the prediction p. */
  predicate AllFacesPredict(frames: seq<Frame>, p: Face) {
    forall k, j :: 0 <= k < |frames| && frames[k].Captured? && 0 <= j < |frames[k].faces| ==>
      frames[k].faces[j] == p
  }

  /** Claiming id 7: one frame whose face predicts (7, 10) is let in, while
      frames that only ever predict (7, 40) (too far) or (9, 5) (someone
      else) never are, however many of them arrive and whenever. */
  lemma ClaimSevenScenario(start: int, frames: seq<Frame>)
    ensures Authenticate(7, true, start, [Captured(start, [Face(7, 10.0)], false)]).end == Granted
    ensures AllFacesPredict(frames, Face(7, 40.0)) ==> Authenticate(7, true, start, frames).end != Granted
    ensures AllFacesPredict(frames, Face(9, 5.0)) ==> Authenticate(7, true, start, frames).end != Granted
  {
    GrantedIff(7, true, start, frames);
  }

}
