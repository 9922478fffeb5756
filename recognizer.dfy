/** The FaceRecognizer object: the dataset directory it writes to, the model
    file it saves to and reads from, and the in-memory model (`self.model`)
    that training replaces and authentication consults. */
module Recognizer {

  import opened Options
  import opened Decimal
  import opened SampleKeys
  import opened Frames
  import opened Training
  import opened Enrollment
  import opened Authentication

  datatype TrainOutcome = Trained | NoTrainingData

  class FaceRecognizer {
    /** The file names in the dataset directory. */
    var dataset: set<string>
    /** The model file at model_path; None when it does not exist. */
    var stored: Option<Model>
    /** self.model; None until a model is loaded or trained. */
    var model: Option<Model>

    /** __init__: start with no model, then load the model file if present. */
    constructor (files: set<string>, saved: Option<Model>)
      ensures dataset == files && stored == saved
      ensures model == saved
    {
      dataset := files;
      stored := saved;
      model := None;
      new;
      LoadModel();
    }

    /** _load_model: read the model file when it exists, otherwise keep the
        current model. */
    method LoadModel()
      modifies this`model
      ensures model == if stored.Some? then stored else old(model)
    {
      if stored.Some? {
        model := stored;
      }
    }

    /** capturar_rostros: while fewer than 30 samples were written, read a
        frame and write one file per detected face, named with the running
        counter; stop on a failed read or 'q'. */
    method CaptureFaces(userId: string, frames: seq<Frame>)
      returns (written: seq<string>, count: nat, end: CaptureEnd)
      modifies this`dataset
      ensures count == Capture(frames).count && end == Capture(frames).end
      ensures written == SessionNames(userId, count)
      ensures dataset == old(dataset) + (set n | n in written)
    {
      count := 0;
      written := [];
      end := QuotaReached;
      var i := 0;
      while count < Quota
        invariant i <= |frames|
        invariant CaptureRun(frames, i, count) == Capture(frames)
        invariant written == SessionNames(userId, count)
        invariant dataset == old(dataset) + (set n | n in written)
        decreases |frames| - i
      {
        if i == |frames| || frames[i].ReadFail? {
          end := CaptureReadFailed;
          break;
        }
        var faces := frames[i].faces;
        ghost var before := count;
        for j := 0 to |faces|
          invariant count == before + j
          invariant written == SessionNames(userId, count)
          invariant dataset == old(dataset) + (set n | n in written)
        {
          var name := SampleName(userId, count);
          dataset := dataset + {name};
          written := written + [name];
          count := count + 1;
        }
        i := i + 1;
        if frames[i - 1].quit {
          end := CaptureQuit;
          break;
        }
      }
    }

    /** entrenar_modelo: collect the `.jpg` files whose label parses, in
        listing order; with none, leave the model alone and report it;
        otherwise fit a fresh model on all of them and save it. */
    method TrainModel(listing: seq<string>) returns (outcome: TrainOutcome)
      requires forall n :: n in listing <==> n in dataset
      requires forall i, j :: 0 <= i < j < |listing| ==> listing[i] != listing[j]
      modifies this`model, this`stored
      ensures outcome == NoTrainingData <==> KeptNames(listing) == []
      ensures outcome == NoTrainingData ==> model == old(model) && stored == old(stored)
      ensures outcome == Trained ==>
        model == Some(Model(KeptNames(listing), KeptLabels(listing))) && stored == model
    {
      var faces: seq<string> := [];
      var labels: seq<int> := [];
      for i := 0 to |listing|
        invariant faces == KeptNames(listing[..i])
        invariant labels == KeptLabels(listing[..i])
        invariant model == old(model) && stored == old(stored)
      {
        var filename := listing[i];
        KeptStep(listing, i);
        if EndsWith(filename, Extension) {
          var parsed := ParseLabel(filename);
          if parsed.None? {
            continue;
          }
          faces := faces + [filename];
          labels := labels + [parsed.value];
        }
      }
      assert listing[..|listing|] == listing;
      if |faces| == 0 {
        return NoTrainingData;
      }
      model := Some(Model(faces, labels));
      stored := model;
      outcome := Trained;
    }

    /** autenticar_usuario: read frames until one is past the deadline, a read
        fails, or 'q' is pressed; accept at the first face the loaded model
        predicts as int(user_id) with a distance below 25. */
    method Authenticate(userId: string, start: int, frames: seq<Frame>)
      returns (granted: bool, end: AuthEnd)
      requires ParseInt(userId).Some?
      ensures end == Authentication.Authenticate(ParseInt(userId).value, model.Some?, start, frames).end
      ensures granted <==> end == Granted
    {
      var claimed := ParseInt(userId).value;
      ghost var loaded := model.Some?;
      var i := 0;
      while true
        invariant i <= |frames|
        invariant AuthRun(claimed, loaded, start, frames, i) == AuthRun(claimed, loaded, start, frames, 0)
        decreases |frames| - i
      {
        if i == |frames| || frames[i].ReadFail? {
          end := AuthReadFailed;
          break;
        }
        var elapsed := frames[i].time - start;
        var remaining := Timeout - elapsed;
        if remaining <= 0 {
          end := TimedOut;
          break;
        }
        var faces := frames[i].faces;
        for j := 0 to |faces|
          invariant FirstAccepting(claimed, loaded, faces, j) == FirstAccepting(claimed, loaded, faces, 0)
        {
          if model.Some? {
            var face := faces[j];
            if face.predicted == claimed && face.confidence < MessageThreshold {
              if face.confidence < AcceptThreshold {
                return true, Granted;
              }
            }
          }
        }
        if frames[i].quit {
          end := AuthQuit;
          break;
        }
        i := i + 1;
      }
      granted := false;
    }
  }

}
