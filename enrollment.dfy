/** The counting loop of capturar_rostros: how many samples one enrollment
    session writes, under which names, and why it stops. */
module Enrollment {

  import opened Decimal
  import opened Frames
  import opened SampleKeys

  /** The loop runs while fewer than this many samples were written. */
  const Quota: nat := 30

  datatype CaptureEnd = QuotaReached | CaptureReadFailed | CaptureQuit

  /** Samples written, frames whose faces were saved, and the exit taken. */
  datatype CaptureResult = CaptureResult(count: nat, used: nat, end: CaptureEnd)

  /** The loop from frame i with count samples already written. The quota is
      tested only before a frame is read; every face of a frame is saved. */
  function CaptureRun(frames: seq<Frame>, i: nat, count: nat): (r: CaptureResult)
    requires i <= |frames|
    ensures i <= r.used <= |frames| && count <= r.count
    decreases |frames| - i
  {
    if count >= Quota then CaptureResult(count, i, QuotaReached)
    else if i == |frames| || frames[i].ReadFail? then CaptureResult(count, i, CaptureReadFailed)
    else
      var c := count + |frames[i].faces|;
      if frames[i].quit then CaptureResult(c, i + 1, CaptureQuit)
      else CaptureRun(frames, i + 1, c)
  }

  /** One whole session, starting from count = 0. */
  function Capture(frames: seq<Frame>): CaptureResult {
    CaptureRun(frames, 0, 0)
  }

  /** Number of face rectangles in a run of frames. */
  function FaceTotal(frames: seq<Frame>): nat {
    if frames == [] then 0
    else (if frames[0].Captured? then |frames[0].faces| else 0) + FaceTotal(frames[1..])
  }

  /** The names written in a session that saved n samples, in write order:
      the k-th carries counter k. */
  function SessionNames(userId: string, n: nat): (names: seq<string>)
    ensures |names| == n
    ensures forall k :: 0 <= k < n ==> names[k] == SampleName(userId, k)
  {
    if n == 0 then [] else SessionNames(userId, n - 1) + [SampleName(userId, n - 1)]
  }

  lemma {:induction false} CaptureRunCounts(frames: seq<Frame>, i: nat, count: nat)
    requires i <= |frames|
    ensures var r := CaptureRun(frames, i, count);
      r.count == count + FaceTotal(frames[i..r.used])
    decreases |frames| - i
  {
    var r := CaptureRun(frames, i, count);
    if count < Quota && i < |frames| && frames[i].Captured? {
      var c := count + |frames[i].faces|;
      if !frames[i].quit {
        CaptureRunCounts(frames, i + 1, c);
      }
      assert frames[i..r.used][0] == frames[i];
      assert frames[i..r.used][1..] == frames[i + 1..r.used];
    }
  }

  /** The sample count is the number of faces in the frames the session
      consumed: one file per detected face. */
  lemma CaptureCounts(frames: seq<Frame>)
    ensures Capture(frames).count == FaceTotal(frames[..Capture(frames).used])
  {
    CaptureRunCounts(frames, 0, 0);
    assert frames[0..Capture(frames).used] == frames[..Capture(frames).used];
  }

  lemma {:induction false} CaptureRunOvershoot(frames: seq<Frame>, i: nat, count: nat)
    requires i <= |frames| && count < Quota
    ensures var r := CaptureRun(frames, i, count);
      r.end == QuotaReached ==>
        i < r.used && frames[r.used - 1].Captured? &&
        Quota <= r.count < Quota + |frames[r.used - 1].faces|
    decreases |frames| - i
  {
    if i < |frames| && frames[i].Captured? && !frames[i].quit {
      var c := count + |frames[i].faces|;
      if c < Quota {
        CaptureRunOvershoot(frames, i + 1, c);
      }
    }
  }

  /** When a session ends on the quota it has at least 30 samples, but fewer
      than 30 plus the faces of its last frame: the count can pass 30 because
      it is compared with the quota only between frames. */
  lemma CaptureOvershoot(frames: seq<Frame>)
    ensures var r := Capture(frames);
      r.end == QuotaReached ==>
        0 < r.used && frames[r.used - 1].Captured? &&
        Quota <= r.count < Quota + |frames[r.used - 1].faces|
  {
    CaptureRunOvershoot(frames, 0, 0);
  }

  lemma {:induction false} CaptureRunFailBelowQuota(frames: seq<Frame>, i: nat, count: nat)
    requires i <= |frames|
    ensures var r := CaptureRun(frames, i, count);
      r.end == CaptureReadFailed ==> r.count < Quota && (r.used == |frames| || frames[r.used].ReadFail?)
    decreases |frames| - i
  {
    if count < Quota && i < |frames| && frames[i].Captured? && !frames[i].quit {
      CaptureRunFailBelowQuota(frames, i + 1, count + |frames[i].faces|);
    }
  }

  /** A failed read (or running out of frames) ends a session short of the
      quota, at the frame that could not be read. */
  lemma CaptureFailBelowQuota(frames: seq<Frame>)
    ensures var r := Capture(frames);
      r.end == CaptureReadFailed ==> r.count < Quota && (r.used == |frames| || frames[r.used].ReadFail?)
  {
    CaptureRunFailBelowQuota(frames, 0, 0);
  }

  /** Every frame of the sequence was read and shows at least one face and
      no 'q'. */
  predicate SteadyFaces(frames: seq<Frame>) {
    forall k :: 0 <= k < |frames| ==>
      frames[k].Captured? && |frames[k].faces| >= 1 && !frames[k].quit
  }

  lemma {:induction false} CaptureRunSteady(frames: seq<Frame>, i: nat, count: nat)
    requires i <= |frames| && Quota <= |frames| && i <= count
    requires SteadyFaces(frames)
    ensures CaptureRun(frames, i, count).end == QuotaReached
    decreases |frames| - i
  {
    if count < Quota {
      CaptureRunSteady(frames, i + 1, count + |frames[i].faces|);
    }
  }

  /** With a camera that shows a face in every frame, enrollment always
      completes its quota. */
  lemma CaptureCompletes(frames: seq<Frame>)
    requires Quota <= |frames| && SteadyFaces(frames)
    ensures Capture(frames).end == QuotaReached
  {
    CaptureRunSteady(frames, 0, 0);
  }

  lemma {:induction false} CaptureRunOneFace(frames: seq<Frame>, i: nat)
    requires i <= Quota <= |frames|
    requires forall k :: 0 <= k < |frames| ==>
      frames[k].Captured? && |frames[k].faces| == 1 && !frames[k].quit
    ensures CaptureRun(frames, i, i) == CaptureResult(Quota, Quota, QuotaReached)
    decreases Quota - i
  {
    if i < Quota {
      CaptureRunOneFace(frames, i + 1);
    }
  }

  /** With exactly one face in every frame, a session writes exactly 30
      samples from exactly 30 frames. */
  lemma CaptureOneFacePerFrame(frames: seq<Frame>)
    requires Quota <= |frames|
    requires forall k :: 0 <= k < |frames| ==>
      frames[k].Captured? && |frames[k].faces| == 1 && !frames[k].quit
    ensures Capture(frames) == CaptureResult(Quota, Quota, QuotaReached)
  {
    CaptureRunOneFace(frames, 0);
  }

  /** No two files written in one session share a name. */
  lemma SessionNamesDistinct(userId: string, n: nat)
    ensures forall i, j :: 0 <= i < j < n ==> SessionNames(userId, n)[i] != SessionNames(userId, n)[j]
  {
    forall i, j | 0 <= i < j < n ensures SessionNames(userId, n)[i] != SessionNames(userId, n)[j] {
      SampleNameInjective(userId, i, j);
    }
  }

  /** Every file of a session is used by training exactly when the user_id
      (free of '_') parses as an integer, and then under that integer. */
  lemma SessionNamesTrainable(userId: string, n: nat)
    requires Free(userId, Separator)
    ensures forall k :: 0 <= k < n ==>
      (IsTrainingSample(SessionNames(userId, n)[k]) <==> ParseInt(userId).Some?)
    ensures forall k :: 0 <= k < n ==>
      ParseLabel(SessionNames(userId, n)[k]) == ParseInt(userId)
  {
    forall k | 0 <= k < n
      ensures IsTrainingSample(SessionNames(userId, n)[k]) <==> ParseInt(userId).Some?
      ensures ParseLabel(SessionNames(userId, n)[k]) == ParseInt(userId)
    {
      SampleNameLabel(userId, k);
    }
  }

}
