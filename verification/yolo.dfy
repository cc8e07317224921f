/** `YoloProvider`: choosing the inference device, the guards in front of the
    detector and the reduction of its boxes to (has a person, the highest
    person confidence, the number of persons). The detector itself is an
    input: the detections it returns, or that it raised. */
module Yolo {
  import opened Wrappers
  import opened Text

  // ---------------------------------------------------------------------------
  // The device
  // ---------------------------------------------------------------------------

  /** `_select_device`: the first GPU for `auto` or `gpu` in any case when CUDA
      is available, the CPU otherwise. */
  function SelectDevice(device: string, cudaAvailable: bool): (r: string)
    ensures r == "cuda:0" <==> cudaAvailable && (Lower(device) == "auto" || Lower(device) == "gpu")
    ensures r == "cuda:0" || r == "cpu"
  {
    var d := Lower(device);
    if d == "auto" then (if cudaAvailable then "cuda:0" else "cpu")
    else if d == "gpu" then (if cudaAvailable then "cuda:0" else "cpu")
    else "cpu"
  }

  /** The requested device is read without regard to case. */
  lemma DeviceIgnoresCase(device: string, cudaAvailable: bool)
    ensures SelectDevice(Lower(device), cudaAvailable) == SelectDevice(device, cudaAvailable)
  {
    LowerIdempotent(device);
  }

  // ---------------------------------------------------------------------------
  // The guards of `_predict`
  // ---------------------------------------------------------------------------

  /** An image array, seen through its shape. */
  datatype Image = Image(shape: seq<nat>)

  /** The channel fix-up: an array of fewer than three dimensions gets a last
      axis of three copies, more than three channels are cut to three. */
  function Channels(shape: seq<nat>): (r: seq<nat>)
    ensures |shape| < 3 ==> r == shape + [3]
    ensures |shape| >= 2 ==> |r| >= 3 && r[..2] == shape[..2] && r[2] <= 3
    ensures |shape| >= 3 ==> |r| == |shape|
    ensures |shape| >= 3 ==> r[2] == (if shape[2] > 3 then 3 else shape[2]) && r[3..] == shape[3..]
  {
    if |shape| < 3 then shape + [3]
    else if shape[2] > 3 then shape[..2] + [3] + shape[3..]
    else shape
  }

  /** An image the detector is run on: at least one axis, and neither the
      height nor (when there is one) the width is zero. */
  predicate Usable(shape: seq<nat>) {
    |shape| >= 1 && shape[0] > 0 && (|shape| == 1 || shape[1] > 0)
  }

  /** `_predict`: no detections for a missing image, for one whose first two
      axes after the channel fix-up are not both positive (reading a missing
      axis raises, which is caught), or when the detector raises; otherwise
      what the detector returned. */
  function Predict<D>(image: Option<Image>, detector: Result<seq<D>>): (r: seq<D>)
    ensures r == if image.Some? && Usable(image.value.shape) && detector.Success? then detector.value else []
  {
    if image.None? then []
    else
      var shape := Channels(image.value.shape);
      if |shape| < 2 then []
      else if shape[0] == 0 || shape[1] == 0 then []
      else if detector.Failure? then []
      else detector.value
  }

  // ---------------------------------------------------------------------------
  // Reducing the boxes
  // ---------------------------------------------------------------------------

  /** One box: its class id and its confidence, already rounded to four
      decimals and counted in units of 0.0001. */
  datatype Box = Box(cls: int, confUnits: int)

  /** One result of the detector: its class names and its boxes. */
  datatype Detection = Detection(names: map<int, string>, boxes: seq<Box>)

  /** `YoloResult`, the confidence in units of 0.0001. */
  datatype YoloResult = YoloResult(hasHuman: bool, confUnits: int, humanCount: nat)

  /** What `has_human` returns when anything raises. */
  const NoHuman := YoloResult(false, 0, 0)

  /** A box with its class name looked up. */
  datatype Label = Label(name: string, confUnits: int)

  /** `result.names[cls_id]`: `None` where the lookup raises `KeyError`. */
  function LabelOf(d: Detection, b: Box): Option<Label> {
    if b.cls in d.names then Some(Label(d.names[b.cls], b.confUnits)) else None
  }

  function DetectionLabels(d: Detection): (r: seq<Option<Label>>)
    ensures |r| == |d.boxes|
    ensures forall j :: 0 <= j < |d.boxes| ==> r[j] == LabelOf(d, d.boxes[j])
  {
    seq(|d.boxes|, j requires 0 <= j < |d.boxes| => LabelOf(d, d.boxes[j]))
  }

  /** Every box of every result, in the order the loops visit them. */
  function AllLabels(results: seq<Detection>): seq<Option<Label>> {
    if |results| == 0 then [] else AllLabels(results[..|results| - 1]) + DetectionLabels(results[|results| - 1])
  }

  /** One pass of the loop body. */
  function CountBox(t: YoloResult, l: Label): YoloResult {
    if l.name == "person" then
      YoloResult(true, if l.confUnits > t.confUnits then l.confUnits else t.confUnits, t.humanCount + 1)
    else t
  }

  /** The loops run to the end over `labels`, stopping with `KeyError` at the
      first box whose class has no name. */
  function Tally(labels: seq<Option<Label>>): Result<YoloResult> {
    if |labels| == 0 then Success(NoHuman)
    else
      match Tally(labels[..|labels| - 1])
      case Failure(e) => Failure(e)
      case Success(t) =>
        match labels[|labels| - 1]
        case None => Failure(KeyError)
        case Some(l) => Success(CountBox(t, l))
  }

  predicate AllSome(labels: seq<Option<Label>>) {
    forall i :: 0 <= i < |labels| ==> labels[i].Some?
  }

  /** The confidences of the person boxes, in order. */
  function Persons(labels: seq<Option<Label>>): seq<int> {
    if |labels| == 0 then []
    else
      var l := labels[|labels| - 1];
      Persons(labels[..|labels| - 1]) + (if l.Some? && l.value.name == "person" then [l.value.confUnits] else [])
  }

  /** The running maximum that starts at 0.0. */
  function MaxOrZero(cs: seq<int>): (m: int)
    ensures m >= 0
    ensures forall i :: 0 <= i < |cs| ==> cs[i] <= m
    ensures m == 0 || m in cs
  {
    if |cs| == 0 then 0
    else
      var p := MaxOrZero(cs[..|cs| - 1]);
      assert forall i :: 0 <= i < |cs| - 1 ==> cs[..|cs| - 1][i] == cs[i];
      if cs[|cs| - 1] > p then cs[|cs| - 1] else p
  }

  /** What the loops compute: a person exactly when some box is a person, the
      highest person confidence (0 when there is none), and the number of
      person boxes; `KeyError` when any class has no name. Boxes of other
      classes change nothing. */
  lemma {:induction false} TallyMeaning(labels: seq<Option<Label>>)
    ensures Tally(labels) ==
      if AllSome(labels) then
        Success(YoloResult(|Persons(labels)| > 0, MaxOrZero(Persons(labels)), |Persons(labels)|))
      else Failure(KeyError)
    decreases |labels|
  {
    if |labels| > 0 {
      var init := labels[..|labels| - 1];
      TallyMeaning(init);
      assert AllSome(labels) <==> AllSome(init) && labels[|labels| - 1].Some? by {
        assert forall i :: 0 <= i < |init| ==> init[i] == labels[i];
      }
      var ps := Persons(init);
      var l := labels[|labels| - 1];
      if AllSome(labels) {
        var t := YoloResult(|ps| > 0, MaxOrZero(ps), |ps|);
        assert Tally(labels) == Success(CountBox(t, l.value));
        if l.value.name == "person" {
          assert Persons(labels) == ps + [l.value.confUnits];
          assert (ps + [l.value.confUnits])[..|ps|] == ps;
        } else {
          assert Persons(labels) == ps + [];
          assert ps + [] == ps;
        }
      }
    }
  }

  /** Two box lists with the same person confidences, all named, give the same
      result, whatever their other boxes. */
  lemma OnlyPersonsCount(a: seq<Option<Label>>, b: seq<Option<Label>>)
    requires AllSome(a) && AllSome(b) && Persons(a) == Persons(b)
    ensures Tally(a) == Tally(b)
  {
    TallyMeaning(a);
    TallyMeaning(b);
  }

  /** Every box of every result has its label among all the labels. */
  lemma {:induction false} LabelsContain(results: seq<Detection>, k: nat, j: nat)
    requires k < |results| && j < |results[k].boxes|
    ensures DetectionLabels(results[k])[j] in AllLabels(results)
    decreases |results|
  {
    var init := results[..|results| - 1];
    if k < |results| - 1 {
      assert init[k] == results[k];
      LabelsContain(init, k, j);
    }
  }

  /** Where the loops stop for a box without a class name: the whole list
      fails too. */
  lemma UnnamedFails(results: seq<Detection>, k: nat, j: nat)
    requires k < |results| && j < |results[k].boxes|
    requires LabelOf(results[k], results[k].boxes[j]).None?
    ensures Tally(AllLabels(results)).Failure?
  {
    LabelsContain(results, k, j);
    TallyMeaning(AllLabels(results));
  }

  /** The two loops of `has_human` over the detections. */
  method Aggregate(results: seq<Detection>) returns (r: Result<YoloResult>)
    ensures r == Tally(AllLabels(results))
  {
    var t := NoHuman;
    var k := 0;
    while k < |results|
      invariant 0 <= k <= |results|
      invariant Tally(AllLabels(results[..k])) == Success(t)
    {
      var next := CountBoxes(results, k, t);
      if next.Failure? {
        return next;
      }
      t := next.value;
      k := k + 1;
    }
    assert results[..k] == results;
    r := Success(t);
  }

  /** The inner loop over the boxes of the `k`-th result, carrying on from the
      tally `t0` of the results before it; a box without a class name stops
      the whole reduction. */
  method CountBoxes(results: seq<Detection>, k: nat, t0: YoloResult) returns (r: Result<YoloResult>)
    requires k < |results|
    requires Tally(AllLabels(results[..k])) == Success(t0)
    ensures r.Success? ==> Tally(AllLabels(results[..k + 1])) == r
    ensures r.Failure? ==> r == Tally(AllLabels(results))
  {
    var d := results[k];
    ghost var prefix := AllLabels(results[..k]);
    ghost var labels := DetectionLabels(d);
    var hasHuman, maxConf, count := t0.hasHuman, t0.confUnits, t0.humanCount;
    var j := 0;
    assert prefix + labels[..0] == prefix;
    while j < |d.boxes|
      invariant 0 <= j <= |d.boxes|
      invariant Tally(prefix + labels[..j]) == Success(YoloResult(hasHuman, maxConf, count))
    {
      var b := d.boxes[j];
      if b.cls !in d.names {
        UnnamedFails(results, k, j);
        TallyMeaning(AllLabels(results));
        return Failure(KeyError);
      }
      TallyStep(prefix, labels, j);
      if d.names[b.cls] == "person" {
        hasHuman := true;
        if b.confUnits > maxConf {
          maxConf := b.confUnits;
        }
        count := count + 1;
      }
      j := j + 1;
    }
    AllLabelsSnoc(results, k);
    assert labels[..j] == labels;
    r := Success(YoloResult(hasHuman, maxConf, count));
  }

  /** Counting one more named box. */
  lemma TallyStep(prefix: seq<Option<Label>>, labels: seq<Option<Label>>, j: nat)
    requires j < |labels| && labels[j].Some? && Tally(prefix + labels[..j]).Success?
    ensures Tally(prefix + labels[..j + 1]) == Success(CountBox(Tally(prefix + labels[..j]).value, labels[j].value))
  {
    var front := prefix + labels[..j];
    assert prefix + labels[..j + 1] == front + [labels[j]];
    assert (front + [labels[j]])[..|front|] == front;
  }

  /** The labels of one more result follow those of the results before it. */
  lemma AllLabelsSnoc(results: seq<Detection>, k: nat)
    requires k < |results|
    ensures AllLabels(results[..k + 1]) == AllLabels(results[..k]) + DetectionLabels(results[k])
  {
    assert results[..k + 1][..k] == results[..k];
  }

  /** `has_human`: `NoHuman` when loading the image or naming a box raises;
      otherwise whether any person was detected, the highest person
      confidence, and how many persons there are. */
  method HasHuman(loaded: Result<Image>, detector: Result<seq<Detection>>) returns (r: YoloResult)
    ensures loaded.Failure? ==> r == NoHuman
    ensures r.confUnits >= 0 && (r.hasHuman <==> r.humanCount > 0)
    ensures loaded.Success? ==>
      var labels := AllLabels(Predict(Some(loaded.value), detector));
      r == if AllSome(labels) then YoloResult(|Persons(labels)| > 0, MaxOrZero(Persons(labels)), |Persons(labels)|)
           else NoHuman
  {
    if loaded.Failure? {
      return NoHuman;
    }
    var results := Predict(Some(loaded.value), detector);
    var t := Aggregate(results);
    TallyMeaning(AllLabels(results));
    r := if t.Success? then t.value else NoHuman;
  }
}
