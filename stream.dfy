/** The stream controller: the main loop that reads frames, runs recognition on every
    eighth one and shows the result. Video decoding, drawing and the windows are not
    modelled; a run is given as the finite sequence of what the reads return. */
module StreamController {
  import opened Normalizer
  import opened Gallery
  import opened Matcher

  /** Every this-many-th read is processed. */
  const SamplePeriod := 8

  /** The frame counter of the main loop (`idx_frame`). */
  class FrameCounter {
    var idxFrame: int

    constructor ()
      ensures idxFrame == 0
    {
      idxFrame := 0;
    }

    /** Count one read; report whether this read is to be processed, and if so restart
        the count. */
    method Advance() returns (due: bool)
      modifies this
      ensures due <==> (old(idxFrame) + 1) % SamplePeriod == 0
      ensures idxFrame == if due then 0 else old(idxFrame) + 1
      ensures 0 <= old(idxFrame) < SamplePeriod ==> 0 <= idxFrame < SamplePeriod
    {
      idxFrame := idxFrame + 1;
      due := idxFrame % SamplePeriod == 0;
      if due {
        idxFrame := 0;
      }
    }
  }

  /** What one read of the video returns: a frame (its size, what the detector reports
      for it, and the embedding the network would compute from its crop), or nothing, once
      the source is exhausted or fails. */
  datatype Read = Frame(height: nat, width: nat, detection: Detection, query: Embedding) | NoFrame

  /** One result handed to the display: the read it came from, the selected box and the
      match. */
  datatype Shown = Shown(read: nat, box: Box, result: Match)

  /** A run either uses up the given reads or stops with an exception at one of them. */
  datatype RunEnd = Exhausted | Crashed(read: nat)

  /** Read number i (counting from 0) is processed: it is the 8th, 16th, 24th, ... read. */
  predicate Due(i: nat) {
    (i + 1) % SamplePeriod == 0
  }

  /** A processed read that raises: there is no frame to convert, or boxes were detected
      but crop_face raises (no box of positive height, or an empty slice to resize) or
      returns an image that cannot be unpacked into (crop, box). */
  predicate Fatal(r: Read) {
    r.NoFrame? || (HasFace(r.detection) && !Crop(r.height, r.width, r.detection.boxes).Cropped?)
  }

  /** What the loop does with a processed read: raise, skip the frame, or show a box with
      its match. */
  datatype Step = Raise | Skip | Show(box: Box, result: Match)

  /** The body of the loop for a processed read (lines 153-173): convert the frame, detect,
      skip the frame when the detector raised or found nothing, otherwise crop the face and
      match it against the gallery. */
  function Process(r: Read, keys: seq<string>, features: map<string, Embedding>,
                   sim: (Embedding, Embedding) -> real): (s: Step)
    requires forall k :: k in keys ==> k in features
    ensures s.Raise? <==> Fatal(r)
    ensures s.Skip? <==> r.Frame? && !HasFace(r.detection)
    ensures s.Show? ==> r.Frame? && s.box == Crop(r.height, r.width, r.detection.boxes).box &&
                        s.result == Predict(keys, Scores(keys, features, r.query, sim))
  {
    match r
    case NoFrame => Raise
    case Frame(height, width, detection, query) =>
      if !HasFace(detection) then Skip
      else
        match Crop(height, width, detection.boxes)
        case Cropped(_, box) => Show(box, Predict(keys, Scores(keys, features, query, sim)))
        case _ => Raise
  }

  /** The step every read would lead to if it were processed. */
  function Steps(video: seq<Read>, keys: seq<string>, features: map<string, Embedding>,
                 sim: (Embedding, Embedding) -> real): (steps: seq<Step>)
    requires forall k :: k in keys ==> k in features
    ensures |steps| == |video|
    ensures forall i :: 0 <= i < |video| ==> steps[i] == Process(video[i], keys, features, sim)
  {
    seq(|video|, i requires 0 <= i < |video| => Process(video[i], keys, features, sim))
  }

  /** None of the first n reads is a processed read that raises. */
  predicate SafeUpTo(steps: seq<Step>, n: nat)
    requires n <= |steps|
  {
    n == 0 || (SafeUpTo(steps, n - 1) && (Due(n - 1) ==> !steps[n - 1].Raise?))
  }

  /** The run survives the first n reads exactly when none of them is a processed read
      that raises. */
  lemma {:induction false} SafeUpToMeans(video: seq<Read>, keys: seq<string>,
                                         features: map<string, Embedding>,
                                         sim: (Embedding, Embedding) -> real, n: nat)
    requires forall k :: k in keys ==> k in features
    requires n <= |video|
    ensures SafeUpTo(Steps(video, keys, features, sim), n) <==>
            forall i :: 0 <= i < n && Due(i) ==> !Fatal(video[i])
  {
    if n > 0 {
      SafeUpToMeans(video, keys, features, sim, n - 1);
    }
  }

  /** What the first n reads show, given the step of each read: one result for every
      processed read whose step shows one. */
  function Displayed(steps: seq<Step>, n: nat): seq<Shown>
    requires n <= |steps|
  {
    if n == 0 then []
    else
      var shown := Displayed(steps, n - 1);
      var s := steps[n - 1];
      if Due(n - 1) && s.Show? then shown + [Shown(n - 1, s.box, s.result)] else shown
  }

  /** Results are shown only for processed reads, in read order, at most one for every
      eight reads. */
  lemma {:induction false} DisplayedCadence(steps: seq<Step>, n: nat)
    requires n <= |steps|
    ensures |Displayed(steps, n)| <= n / SamplePeriod
    ensures forall j :: 0 <= j < |Displayed(steps, n)| ==>
              Displayed(steps, n)[j].read < n && Due(Displayed(steps, n)[j].read)
    ensures forall i, j :: 0 <= i < j < |Displayed(steps, n)| ==>
              Displayed(steps, n)[i].read < Displayed(steps, n)[j].read
  {
    if n > 0 {
      DisplayedCadence(steps, n - 1);
      CountOneMore(n - 1);
    }
  }

  /** How the read count splits into whole periods and a remainder when one read is added. */
  lemma CountOneMore(i: nat)
    ensures Due(i) ==> i % SamplePeriod == SamplePeriod - 1 && (i + 1) / SamplePeriod == i / SamplePeriod + 1
    ensures !Due(i) ==> (i + 1) % SamplePeriod == i % SamplePeriod + 1 && (i + 1) / SamplePeriod == i / SamplePeriod
  {
  }

  /** The loop body for a processed read, step by step. */
  method ProcessRead(r: Read, g: Gallery, sim: (Embedding, Embedding) -> real) returns (s: Step)
    requires g.Valid()
    ensures s == Process(r, g.keys, g.features, sim)
  {
    match r
    case NoFrame =>
      return Raise;
    case Frame(height, width, detection, query) =>
      if detection.DetectorError? || |detection.boxes| == 0 {
        return Skip;
      }
      var crop := CropFace(height, width, detection.boxes);
      if !crop.Cropped? {
        return Raise;
      }
      var name, score := PredictName(g, query, sim);
      return Show(crop.box, Match(name, score));
  }

  /** The main loop over a finite sequence of reads: count every read, and process every
      eighth one. A missing frame raises, a detector exception or an empty detection skips
      the frame, and otherwise the face is cropped, matched against the gallery and shown. */
  method Run(video: seq<Read>, g: Gallery, sim: (Embedding, Embedding) -> real)
    returns (shown: seq<Shown>, processed: seq<nat>, end: RunEnd)
    requires g.Valid()
    ensures end.Crashed? ==> end.read < |video| && Due(end.read) && Fatal(video[end.read])
    ensures var n := if end.Exhausted? then |video| else end.read;
      var steps := Steps(video, g.keys, g.features, sim);
      n <= |video| && SafeUpTo(steps, n) && shown == Displayed(steps, n)
    // the reads processed are exactly reads 8, 16, 24, ... of those taken
    ensures var taken := if end.Exhausted? then |video| else end.read + 1;
      |processed| == taken / SamplePeriod &&
      forall k :: 0 <= k < |processed| ==> processed[k] == SamplePeriod * k + SamplePeriod - 1
  {
    ghost var steps := Steps(video, g.keys, g.features, sim);
    var counter := new FrameCounter();
    shown, processed, end := [], [], Exhausted;
    var i := 0;
    while i < |video|
      invariant i <= |video|
      invariant counter.idxFrame == i % SamplePeriod
      invariant |processed| == i / SamplePeriod
      invariant forall k :: 0 <= k < |processed| ==> processed[k] == SamplePeriod * k + SamplePeriod - 1
      invariant SafeUpTo(steps, i)
      invariant shown == Displayed(steps, i)
    {
      CountOneMore(i);
      var due := counter.Advance();
      if due {
        processed := processed + [i];
        var step := ProcessRead(video[i], g, sim);
        match step
        case Raise =>
          end := Crashed(i);
          return;
        case Skip =>
        case Show(box, result) =>
          shown := shown + [Shown(i, box, result)];
      }
      i := i + 1;
    }
  }
}
