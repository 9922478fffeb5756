/** The training-set collection of entrenar_modelo: which dataset files are
    used and with which labels. */
module Training {

  import opened Options
  import opened Decimal
  import opened SampleKeys

  /** A trained LBPH model, represented by what it was fitted on: the images
      (named by the files they were read from) and the parallel labels. */
  datatype Model = Model(faces: seq<string>, labels: seq<int>)

  /** The file names training keeps, in listing order (the list `caras`). */
  function KeptNames(listing: seq<string>): seq<string> {
    if listing == [] then []
    else
      var n := listing[|listing| - 1];
      KeptNames(listing[..|listing| - 1]) + (if IsTrainingSample(n) then [n] else [])
  }

  /** The labels training collects (the list `etiquetas`): always as long as
      the kept names, and each the label parsed from the name beside it. */
  function KeptLabels(listing: seq<string>): (labels: seq<int>)
    ensures |labels| == |KeptNames(listing)|
    ensures forall k :: 0 <= k < |labels| ==> ParseLabel(KeptNames(listing)[k]) == Some(labels[k])
  {
    if listing == [] then []
    else
      var n := listing[|listing| - 1];
      KeptLabels(listing[..|listing| - 1]) + (if IsTrainingSample(n) then [ParseLabel(n).value] else [])
  }

  /** One more listed name extends the kept names and labels by that name
      and its label when it is a sample, and by nothing otherwise. */
  lemma KeptStep(listing: seq<string>, i: nat)
    requires i < |listing|
    ensures KeptNames(listing[..i + 1]) ==
      KeptNames(listing[..i]) + (if IsTrainingSample(listing[i]) then [listing[i]] else [])
    ensures KeptLabels(listing[..i + 1]) ==
      KeptLabels(listing[..i]) + (if IsTrainingSample(listing[i]) then [ParseLabel(listing[i]).value] else [])
  {
    assert listing[..i + 1][..i] == listing[..i];
  }

  /** A name is kept exactly when it is listed, ends in `.jpg` and its
      second '_'-field parses as an integer. */
  lemma {:induction false} KeptNamesMembers(listing: seq<string>, n: string)
    ensures n in KeptNames(listing) <==> n in listing && IsTrainingSample(n)
  {
    if listing != [] {
      var front := listing[..|listing| - 1];
      KeptNamesMembers(front, n);
      assert listing == front + [listing[|listing| - 1]];
    }
  }

  /** Filtering distributes over concatenation: the kept names keep the
      listing's order and each entry is judged on its own. */
  lemma {:induction false} KeptNamesAppend(a: seq<string>, b: seq<string>)
    ensures KeptNames(a + b) == KeptNames(a) + KeptNames(b)
  {
    if b != [] {
      var bf := b[..|b| - 1];
      KeptNamesAppend(a, bf);
      assert (a + b)[..|a + b| - 1] == a + bf;
      assert (a + b)[|a + b| - 1] == b[|b| - 1];
    } else {
      assert a + b == a;
    }
  }

  /** Training has nothing to fit exactly when no listed name is a sample. */
  lemma NoTrainingDataIff(listing: seq<string>)
    ensures KeptNames(listing) == [] <==> forall n :: n in listing ==> !IsTrainingSample(n)
  {
    if KeptNames(listing) != [] {
      KeptNamesMembers(listing, KeptNames(listing)[0]);
    }
    forall n | n in listing && IsTrainingSample(n) ensures n in KeptNames(listing) {
      KeptNamesMembers(listing, n);
    }
  }

  /** A file enrollment wrote for a canonical id is trained under that id. */
  lemma EnrolledSampleLabelled(listing: seq<string>, id: int, count: nat)
    requires SampleName(IntToDecimal(id), count) in listing
    ensures id in KeptLabels(listing)
  {
    var n := SampleName(IntToDecimal(id), count);
    SampleNameRoundTrip(id, count);
    KeptNamesMembers(listing, n);
    var names := KeptNames(listing);
    var k :| 0 <= k < |names| && names[k] == n;
    assert KeptLabels(listing)[k] == id;
  }

}
