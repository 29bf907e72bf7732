/** Classification_Model.classify in trfk-sign-label/models.py: every
    localizer label 'Traffic Sign' is replaced by the classifier's answer on
    the crop of its box, with the corners truncated to integers; every other
    label is passed through. The classifier (image resize, TFLite inference
    and the class-id lookup) is a function parameter of the model. */
module Classification {
  import opened Boxes

  /** The localizer label that asks for a finer classification. */
  const TrafficSign: string := "Traffic Sign"

  /** Python's `int()` on a float: truncation toward zero. */
  function Trunc(r: real): (n: int)
    ensures r >= 0.0 ==> n as real <= r < n as real + 1.0
    ensures r < 0.0 ==> n as real - 1.0 < r <= n as real
  {
    if r >= 0.0 then r.Floor else -((-r).Floor)
  }

  /** Truncation is symmetric about zero, unlike the floor. */
  lemma TruncOdd(r: real)
    ensures Trunc(-r) == -Trunc(r)
  {
    if r == 0.0 {
      assert -r == 0.0;
    }
  }

  /** The integer crop window (xmin, ymin, xmax, ymax) of a corner box. */
  type Crop = (int, int, int, int)

  /** Truncation never reverses an order. */
  lemma TruncMonotone(x: real, y: real)
    requires x <= y
    ensures Trunc(x) <= Trunc(y)
  {
    if x >= 0.0 {
      assert Trunc(x) as real <= x;
    } else if y < 0.0 {
      assert y <= Trunc(y) as real;
    }
  }

  /** The crop window of a box: each corner truncated toward zero. Ordered
      corners give an ordered window, and a box inside the image (all
      coordinates non-negative) gives a window inside it. */
  function CropOf(b: Box): (c: Crop)
    ensures WellFormed(b) ==> c.0 <= c.2 && c.1 <= c.3
    ensures b.0 >= 0.0 && b.1 >= 0.0 && b.2 >= 0.0 && b.3 >= 0.0 ==> c.0 >= 0 && c.1 >= 0 && c.2 >= 0 && c.3 >= 0
  {
    if WellFormed(b) then
      TruncMonotone(b.0, b.2);
      TruncMonotone(b.1, b.3);
      (Trunc(b.0), Trunc(b.1), Trunc(b.2), Trunc(b.3))
    else
      (Trunc(b.0), Trunc(b.1), Trunc(b.2), Trunc(b.3))
  }

  /** A box narrower than a pixel between two integers, such as x from 10.2
      to 10.9, gets a crop window of width zero: the slice at models.py:163
      is empty, and this is what the classifier is handed. */
  lemma NarrowBoxEmptyCrop()
    ensures var c := CropOf((10.2, 3.0, 10.9, 8.0)); c.0 == c.2 == 10
  {
    assert (10.2).Floor == 10 && (10.9).Floor == 10;
  }

  /** The label classify reports at position i. */
  function LabelAt(boxes: seq<Box>, objects: seq<string>, predict: Crop -> string, i: nat): string
    requires i < |objects| && (objects[i] == TrafficSign ==> i < |boxes|)
  {
    if objects[i] == TrafficSign then predict(CropOf(boxes[i])) else objects[i]
  }

  /** Every 'Traffic Sign' label has a box at its position. */
  predicate BoxesForSigns(boxes: seq<Box>, objects: seq<string>)
  {
    forall i :: 0 <= i < |objects| && objects[i] == TrafficSign ==> i < |boxes|
  }

  /** classify: one label per localizer label, in the same order. */
  method Classify(boxes: seq<Box>, objects: seq<string>, predict: Crop -> string) returns (results: seq<string>)
    requires BoxesForSigns(boxes, objects)
    ensures results == Classified(boxes, objects, predict)
    ensures |results| == |objects|
    ensures forall i :: 0 <= i < |objects| && objects[i] != TrafficSign ==> results[i] == objects[i]
    ensures forall i :: 0 <= i < |objects| && objects[i] == TrafficSign ==> results[i] == predict(CropOf(boxes[i]))
  {
    results := [];
    var i := 0;
    while i < |objects|
      invariant 0 <= i <= |objects|
      invariant |results| == i
      invariant forall j :: 0 <= j < i ==> results[j] == LabelAt(boxes, objects, predict, j)
    {
      var name := objects[i];
      if name == TrafficSign {
        var crop := CropOf(boxes[i]);
        var pred := predict(crop);
        results := results + [pred];
      } else {
        results := results + [name];
      }
      i := i + 1;
    }
  }

  /** The specification of classify as one value: its list for the input. */
  function Classified(boxes: seq<Box>, objects: seq<string>, predict: Crop -> string): (r: seq<string>)
    requires BoxesForSigns(boxes, objects)
    ensures |r| == |objects|
  {
    seq(|objects|, i requires 0 <= i < |objects| => LabelAt(boxes, objects, predict, i))
  }

  /** Without any 'Traffic Sign' label the classifier is never consulted
      and the labels come back unchanged. */
  lemma NoSignsUnchanged(boxes: seq<Box>, objects: seq<string>, predict: Crop -> string)
    requires forall i :: 0 <= i < |objects| ==> objects[i] != TrafficSign
    ensures BoxesForSigns(boxes, objects)
    ensures Classified(boxes, objects, predict) == objects
  {
  }

  /** Two classifiers that agree on every crop of a sign's box give the
      same labels: only those crops are looked at. */
  lemma OnlySignCropsConsulted(boxes: seq<Box>, objects: seq<string>, p1: Crop -> string, p2: Crop -> string)
    requires BoxesForSigns(boxes, objects)
    requires forall i :: 0 <= i < |objects| && objects[i] == TrafficSign ==> p1(CropOf(boxes[i])) == p2(CropOf(boxes[i]))
    ensures Classified(boxes, objects, p1) == Classified(boxes, objects, p2)
  {
  }
}
