/** The post-processing half of Localization_Model in
    trfk-sign-label/models.py: denormalising the detector's rows in place,
    keeping the confident rows, suppressing overlaps and collecting the kept
    boxes, scores and class names. The detector itself (the TFLite
    interpreter) is outside the model: its output rows are an input here. */
module Localization {
  import opened Boxes
  import opened Suppression

  /** One row of the detector output: centre box, objectness confidence
      (column 4) and the per-class scores (columns 5 onwards). */
  datatype Prediction = Prediction(cx: real, cy: real, w: real, h: real, conf: real, classScores: seq<real>)

  /** The configuration Localization_Model fixes at construction. */
  datatype Localizer = Localizer(imageSize: nat, confThres: real, iouThres: real, classNames: seq<string>)

  /** The constructor's defaults: 640-pixel input, confidence threshold
      0.25 and IOU threshold 0.45. */
  function DefaultLocalizer(classNames: seq<string>): (loc: Localizer)
    ensures loc.imageSize == 640 && loc.confThres == 0.25 && loc.iouThres == 0.45
    ensures loc.classNames == classNames
  {
    Localizer(640, 0.25, 0.45, classNames)
  }

  /** Columns 0..3 of a row. */
  function CentreBox(p: Prediction): Box { (p.cx, p.cy, p.w, p.h) }

  /** One row after `pred[..., 0] *= width` and the three like it: the
      confidence and class scores are untouched, and positive image sides
      keep the sign of the box's width and height. */
  function Scaled(p: Prediction, width: real, height: real): (s: Prediction)
    ensures s.conf == p.conf && s.classScores == p.classScores
    ensures width > 0.0 ==> (s.w >= 0.0 <==> p.w >= 0.0)
    ensures height > 0.0 ==> (s.h >= 0.0 <==> p.h >= 0.0)
  {
    p.(cx := p.cx * width, cy := p.cy * height, w := p.w * width, h := p.h * height)
  }

  /** The denormalisation in localize: x and w scale by the image width,
      y and h by its height, in place; confidences and class scores stay. */
  method Denormalize(pred: array<Prediction>, height: nat, width: nat)
    modifies pred
    ensures forall i :: 0 <= i < pred.Length ==> pred[i] == Scaled(old(pred[i]), width as real, height as real)
  {
    forall i | 0 <= i < pred.Length {
      pred[i] := Scaled(pred[i], width as real, height as real);
    }
  }

  /** A normalised box covering the whole frame decodes to the corners
      (0, 0) and (width, height). */
  lemma FullFrameDecodes(p: Prediction, width: real, height: real)
    requires p.cx == 0.5 && p.cy == 0.5 && p.w == 1.0 && p.h == 1.0
    ensures XywhToXyxy(CentreBox(Scaled(p, width, height))) == (0.0, 0.0, width, height)
  {
    assert (1.0 * width) / 2.0 == 0.5 * width && (1.0 * height) / 2.0 == 0.5 * height;
  }

  /** Scaling the centre form and then converting gives the corners of the
      unscaled box, each scaled by its own axis: denormalising before the
      conversion, as localize does, is the same as scaling the corners. */
  lemma DenormalizeThenConvert(p: Prediction, width: real, height: real)
    ensures var c, d := XywhToXyxy(CentreBox(p)), XywhToXyxy(CentreBox(Scaled(p, width, height)));
            d.0 == c.0 * width && d.1 == c.1 * height && d.2 == c.2 * width && d.3 == c.3 * height
  {
    var c := XywhToXyxy(CentreBox(p));
    var d := XywhToXyxy(CentreBox(Scaled(p, width, height)));
    assert d.0 == c.0 * width by {
      assert (p.cx - p.w / 2.0) * width == p.cx * width - (p.w / 2.0) * width;
    }
    assert d.1 == c.1 * height by {
      assert (p.cy - p.h / 2.0) * height == p.cy * height - (p.h / 2.0) * height;
    }
    assert d.2 == c.2 * width by {
      assert (p.cx + p.w / 2.0) * width == p.cx * width + (p.w / 2.0) * width;
    }
    assert d.3 == c.3 * height by {
      assert (p.cy + p.h / 2.0) * height == p.cy * height + (p.h / 2.0) * height;
    }
  }

  /** `prediction[prediction[..., 4] > conf_thres]`: the rows whose
      confidence is strictly above the threshold, in their order. */
  function Confident(rows: seq<Prediction>, confThres: real): (r: seq<Prediction>)
    ensures |r| <= |rows|
    ensures forall p {:trigger multiset(r)[p]} :: multiset(r)[p] == if p.conf > confThres then multiset(rows)[p] else 0
    ensures forall p {:trigger p in r} :: p in r <==> p in rows && p.conf > confThres
    ensures (forall p :: p in rows ==> p.conf <= confThres) ==> r == []
    decreases |rows|
  {
    if rows == [] then []
    else
      var init := Confident(rows[..|rows| - 1], confThres);
      var last := rows[|rows| - 1];
      assert rows == rows[..|rows| - 1] + [last];
      assert multiset(rows) == multiset(rows[..|rows| - 1]) + multiset{last};
      if last.conf > confThres then init + [last] else init
  }

  /** The mask keeps the rows in their order: filtering a concatenation
      filters each part. */
  lemma {:induction false} ConfidentConcat(a: seq<Prediction>, b: seq<Prediction>, confThres: real)
    ensures Confident(a + b, confThres) == Confident(a, confThres) + Confident(b, confThres)
    decreases |b|
  {
    if b == [] {
      assert a + b == a;
    } else {
      var init, last := b[..|b| - 1], b[|b| - 1];
      var ca, ci := Confident(a, confThres), Confident(init, confThres);
      var extra := if last.conf > confThres then [last] else [];
      SplitLast(a, b);
      ConfidentConcat(a, init, confThres);
      ConfidentSnoc(a + init, last, confThres);
      ConfidentSnoc(init, last, confThres);
      assert (ca + ci) + extra == ca + (ci + extra);
    }
  }

  /** A non-empty suffix ends in its last element. */
  lemma SplitLast<T>(a: seq<T>, b: seq<T>)
    requires b != []
    ensures a + b == (a + b[..|b| - 1]) + [b[|b| - 1]]
    ensures b == b[..|b| - 1] + [b[|b| - 1]]
  {
  }

  /** One more row is kept at the end exactly when it is confident. */
  lemma ConfidentSnoc(rows: seq<Prediction>, x: Prediction, confThres: real)
    ensures Confident(rows + [x], confThres) == Confident(rows, confThres) + (if x.conf > confThres then [x] else [])
  {
    assert (rows + [x])[..|rows|] == rows;
  }

  /** Filtering twice with the same threshold changes nothing more. */
  lemma {:induction false} ConfidentIdempotent(rows: seq<Prediction>, confThres: real)
    ensures Confident(Confident(rows, confThres), confThres) == Confident(rows, confThres)
    decreases |rows|
  {
    if rows != [] {
      var init := rows[..|rows| - 1];
      ConfidentIdempotent(init, confThres);
      var c := Confident(init, confThres);
      if rows[|rows| - 1].conf > confThres {
        var r := c + [rows[|rows| - 1]];
        assert r[..|r| - 1] == c;
      }
    }
  }

  /** `np.argmax`: the first position of the largest score. */
  function FirstArgmax(s: seq<real>): (k: nat)
    requires |s| > 0
    ensures k < |s|
    ensures forall j :: 0 <= j < |s| ==> s[j] <= s[k]
    ensures forall j :: 0 <= j < k ==> s[j] < s[k]
    decreases |s|
  {
    if |s| == 1 then 0
    else
      var k := FirstArgmax(s[..|s| - 1]);
      if s[|s| - 1] > s[k] then |s| - 1 else k
  }

  /** The row's class-score vector is non-empty and its argmax is a
      position of the class list, so the row names a class. */
  predicate NamesClass(loc: Localizer, p: Prediction)
  {
    0 < |p.classScores| && FirstArgmax(p.classScores) < |loc.classNames|
  }

  /** Every confident row names a class: enough for nms, whatever it keeps. */
  predicate ClassesFit(loc: Localizer, rows: seq<Prediction>)
  {
    forall p :: p in rows && p.conf > loc.confThres ==> NamesClass(loc, p)
  }

  /** The class name nms reports for a row. */
  function ClassName(loc: Localizer, p: Prediction): (name: string)
    requires NamesClass(loc, p)
    ensures exists k :: 0 <= k < |p.classScores| && k < |loc.classNames| && name == loc.classNames[k] &&
              forall j :: 0 <= j < |p.classScores| ==> p.classScores[j] <= p.classScores[k]
  {
    loc.classNames[FirstArgmax(p.classScores)]
  }

  /** The corner boxes of the confident rows, as nms hands them to
      non_max_suppression. */
  function CornerBoxes(rows: seq<Prediction>): (boxes: seq<Box>)
    ensures |boxes| == |rows|
    ensures forall i :: 0 <= i < |rows| ==> boxes[i] == XywhToXyxy(CentreBox(rows[i]))
  {
    seq(|rows|, i requires 0 <= i < |rows| => XywhToXyxy(CentreBox(rows[i])))
  }

  /** Column 4 of the confident rows. */
  function Confidences(rows: seq<Prediction>): (scores: seq<real>)
    ensures |scores| == |rows|
    ensures forall i :: 0 <= i < |rows| ==> scores[i] == rows[i].conf
  {
    seq(|rows|, i requires 0 <= i < |rows| => rows[i].conf)
  }

  /** The rows nms looks a class name up for, those at the kept positions
      of any outcome of the suppression, name a class. Confident rows that
      are suppressed are never looked up. */
  ghost predicate KeptNameClasses(loc: Localizer, prediction: seq<Prediction>)
  {
    var rows := Confident(prediction, loc.confThres);
    forall keep :: IsNmsResult(CornerBoxes(rows), Confidences(rows), loc.iouThres, keep) ==>
      forall k :: 0 <= k < |keep| && keep[k] < |rows| ==> NamesClass(loc, rows[keep[k]])
  }

  /** The rows at the positions of one outcome of the suppression name a
      class. */
  lemma KeptRowsNameClasses(loc: Localizer, prediction: seq<Prediction>, keep: seq<nat>)
    requires KeptNameClasses(loc, prediction)
    requires IsNmsResult(CornerBoxes(Confident(prediction, loc.confThres)),
                         Confidences(Confident(prediction, loc.confThres)), loc.iouThres, keep)
    ensures forall k :: 0 <= k < |keep| && keep[k] < |Confident(prediction, loc.confThres)| ==>
              NamesClass(loc, Confident(prediction, loc.confThres)[keep[k]])
  {
  }

  /** A prediction whose confident rows all name a class meets what nms
      needs. */
  lemma ClassesFitKept(loc: Localizer, prediction: seq<Prediction>)
    requires ClassesFit(loc, prediction)
    ensures KeptNameClasses(loc, prediction)
  {
    var rows := Confident(prediction, loc.confThres);
    forall i | 0 <= i < |rows|
      ensures NamesClass(loc, rows[i])
    {
      assert rows[i] in rows;
    }
  }

  /** Two confident rows with the same box (4, 4)-(6, 6): the stronger
      one's argmax is class 0, the weaker one's is class 1. */
  const StrongRow := Prediction(5.0, 5.0, 2.0, 2.0, 0.9, [1.0, 0.0])
  const WeakRow := Prediction(5.0, 5.0, 2.0, 2.0, 0.5, [0.0, 1.0])

  /** The default thresholds with a single class name. */
  const OneName := Localizer(640, 0.25, 0.45, ["a"])

  /** Both rows pass the mask, and nms suppresses among two equal boxes
      scored 0.9 and 0.5. */
  lemma SameBoxRows()
    ensures Confident([StrongRow, WeakRow], OneName.confThres) == [StrongRow, WeakRow]
    ensures CornerBoxes([StrongRow, WeakRow]) == [(4.0, 4.0, 6.0, 6.0), (4.0, 4.0, 6.0, 6.0)]
    ensures Confidences([StrongRow, WeakRow]) == [0.9, 0.5]
  {
    assert [StrongRow, WeakRow][..1] == [StrongRow];
    assert Confident([StrongRow], 0.25) == [StrongRow];
  }

  /** A confident row that is suppressed need not name a class: the weak
      row's argmax is past the one-name class list, yet nms reports only
      the strong row and never looks the weak one up. */
  lemma SuppressedRowNeedsNoName()
    ensures !ClassesFit(OneName, [StrongRow, WeakRow])
    ensures KeptNameClasses(OneName, [StrongRow, WeakRow])
  {
    SameBoxRows();
    var rows := [StrongRow, WeakRow];
    assert FirstArgmax(WeakRow.classScores) == 1;
    assert !NamesClass(OneName, WeakRow) && WeakRow in rows;
    forall keep | IsNmsResult(CornerBoxes(rows), Confidences(rows), OneName.iouThres, keep)
      ensures forall k :: 0 <= k < |keep| && keep[k] < |rows| ==> NamesClass(OneName, rows[keep[k]])
    {
      IdenticalBoxesKeepHigher((4.0, 4.0, 6.0, 6.0), keep);
    }
  }

  /** nms's three lists for a given outcome `keep` of the suppression on
      the confident rows: one entry per kept index, in kept order, holding
      that row's corner box, its confidence and its class name. */
  ghost predicate NmsOutputFor(loc: Localizer, prediction: seq<Prediction>, keep: seq<nat>,
                               boxes: seq<Box>, scores: seq<real>, names: seq<string>)
    requires KeptNameClasses(loc, prediction)
  {
    var rows := Confident(prediction, loc.confThres);
    IsNmsResult(CornerBoxes(rows), Confidences(rows), loc.iouThres, keep) &&
    |boxes| == |keep| && |scores| == |keep| && |names| == |keep| &&
    forall k :: 0 <= k < |keep| ==>
      keep[k] < |rows| && rows[keep[k]] in prediction && rows[keep[k]].conf > loc.confThres &&
      boxes[k] == XywhToXyxy(CentreBox(rows[keep[k]])) && scores[k] == rows[keep[k]].conf &&
      names[k] == ClassName(loc, rows[keep[k]])
  }

  /** What nms may return for `prediction`: its lists for some outcome of
      the suppression (argsort may order equal scores either way). */
  ghost predicate IsNmsOutput(loc: Localizer, prediction: seq<Prediction>,
                              boxes: seq<Box>, scores: seq<real>, names: seq<string>)
    requires KeptNameClasses(loc, prediction)
  {
    exists keep :: NmsOutputFor(loc, prediction, keep, boxes, scores, names)
  }

  /** nms: filter by confidence, convert to corners, suppress, collect. */
  method Nms(loc: Localizer, prediction: seq<Prediction>)
    returns (resultBoxes: seq<Box>, resultScores: seq<real>, resultClassNames: seq<string>)
    requires KeptNameClasses(loc, prediction)
    ensures IsNmsOutput(loc, prediction, resultBoxes, resultScores, resultClassNames)
    ensures |resultBoxes| == |resultScores| == |resultClassNames|
    ensures forall k :: 0 <= k < |resultScores| ==> resultScores[k] > loc.confThres
  {
    var rows := Confident(prediction, loc.confThres);
    var boxes := CornerBoxes(rows);
    var confs := Confidences(rows);
    var res := NonMaxSuppression(boxes, confs, loc.iouThres);
    assert IndicesIn(res, |rows|);
    KeptRowsNameClasses(loc, prediction, res);
    resultBoxes, resultScores, resultClassNames := Collect(loc, rows, boxes, res);
    NmsCollected(loc, prediction, res, resultBoxes, resultScores, resultClassNames);
  }

  /** The loop of nms over the kept indices: for each one, append the row's
      corner box, its confidence and the name of its class. */
  method Collect(loc: Localizer, rows: seq<Prediction>, boxes: seq<Box>, res: seq<nat>)
    returns (resultBoxes: seq<Box>, resultScores: seq<real>, resultClassNames: seq<string>)
    requires |boxes| == |rows| && IndicesIn(res, |rows|)
    requires forall k :: 0 <= k < |res| ==> NamesClass(loc, rows[res[k]])
    ensures |resultBoxes| == |res| && |resultScores| == |res| && |resultClassNames| == |res|
    ensures forall j :: 0 <= j < |res| ==>
      resultBoxes[j] == boxes[res[j]] && resultScores[j] == rows[res[j]].conf &&
      resultClassNames[j] == ClassName(loc, rows[res[j]])
  {
    resultBoxes, resultScores, resultClassNames := [], [], [];
    var k := 0;
    while k < |res|
      invariant 0 <= k <= |res|
      invariant |resultBoxes| == k && |resultScores| == k && |resultClassNames| == k
      invariant forall j :: 0 <= j < k ==>
        resultBoxes[j] == boxes[res[j]] && resultScores[j] == rows[res[j]].conf &&
        resultClassNames[j] == ClassName(loc, rows[res[j]])
    {
      var r := res[k];
      resultBoxes := resultBoxes + [boxes[r]];
      resultScores := resultScores + [rows[r].conf];
      resultClassNames := resultClassNames + [ClassName(loc, rows[r])];
      k := k + 1;
    }
  }

  /** The lists nms collects for an outcome of the suppression are its
      output for that outcome. */
  lemma NmsCollected(loc: Localizer, prediction: seq<Prediction>, keep: seq<nat>,
                     boxes: seq<Box>, scores: seq<real>, names: seq<string>)
    requires KeptNameClasses(loc, prediction)
    requires var rows := Confident(prediction, loc.confThres);
      IsNmsResult(CornerBoxes(rows), Confidences(rows), loc.iouThres, keep) && IndicesIn(keep, |rows|) &&
      |boxes| == |keep| && |scores| == |keep| && |names| == |keep| &&
      forall j :: 0 <= j < |keep| ==>
        NamesClass(loc, rows[keep[j]]) &&
        boxes[j] == CornerBoxes(rows)[keep[j]] && scores[j] == rows[keep[j]].conf &&
        names[j] == ClassName(loc, rows[keep[j]])
    ensures NmsOutputFor(loc, prediction, keep, boxes, scores, names)
  {
    var rows := Confident(prediction, loc.confThres);
    forall j | 0 <= j < |keep|
      ensures rows[keep[j]] in prediction && rows[keep[j]].conf > loc.confThres
    {
      assert rows[keep[j]] in rows;
    }
  }

  /** When no row is confident enough, nothing is reported. */
  lemma NoConfidentRowsNothingReported(loc: Localizer, prediction: seq<Prediction>,
                                       boxes: seq<Box>, scores: seq<real>, names: seq<string>)
    requires KeptNameClasses(loc, prediction)
    requires forall p :: p in prediction ==> p.conf <= loc.confThres
    requires IsNmsOutput(loc, prediction, boxes, scores, names)
    ensures boxes == [] && scores == [] && names == []
  {
    OutputWithinConfident(loc, prediction, boxes, scores, names);
  }

  /** nms reports at most one entry per confident row. */
  lemma OutputWithinConfident(loc: Localizer, prediction: seq<Prediction>,
                              boxes: seq<Box>, scores: seq<real>, names: seq<string>)
    requires KeptNameClasses(loc, prediction)
    requires IsNmsOutput(loc, prediction, boxes, scores, names)
    ensures |boxes| == |scores| == |names| <= |Confident(prediction, loc.confThres)|
  {
    var keep :| NmsOutputFor(loc, prediction, keep, boxes, scores, names);
  }

  /** When some row is confident enough, at least one detection is reported,
      and the first one has the highest confidence of all confident rows. */
  lemma ConfidentRowReported(loc: Localizer, prediction: seq<Prediction>,
                             boxes: seq<Box>, scores: seq<real>, names: seq<string>, p: Prediction)
    requires KeptNameClasses(loc, prediction)
    requires p in prediction && p.conf > loc.confThres
    requires IsNmsOutput(loc, prediction, boxes, scores, names)
    ensures boxes != [] && p.conf <= scores[0]
  {
    var rows := Confident(prediction, loc.confThres);
    var keep :| NmsOutputFor(loc, prediction, keep, boxes, scores, names);
    assert p in rows;
    var i :| 0 <= i < |rows| && rows[i] == p;
    NmsFirstIsTop(CornerBoxes(rows), Confidences(rows), loc.iouThres, keep, i);
  }

  /** Denormalising leaves confidences and class scores alone, so the rows
      that can be kept still name a class. */
  lemma ScaledClassesFit(loc: Localizer, before: seq<Prediction>, after: seq<Prediction>, width: real, height: real)
    requires ClassesFit(loc, before)
    requires |after| == |before| && forall i :: 0 <= i < |before| ==> after[i] == Scaled(before[i], width, height)
    ensures ClassesFit(loc, after)
  {
    forall p | p in after && p.conf > loc.confThres
      ensures 0 < |p.classScores| && FirstArgmax(p.classScores) < |loc.classNames|
    {
      var i :| 0 <= i < |after| && after[i] == p;
      assert before[i] in before;
    }
  }

  /** The detector rows after denormalisation by the image's size. */
  function Rescaled(rows: seq<Prediction>, width: real, height: real): (r: seq<Prediction>)
    ensures |r| == |rows| && forall i :: 0 <= i < |rows| ==> r[i] == Scaled(rows[i], width, height)
  {
    seq(|rows|, i requires 0 <= i < |rows| => Scaled(rows[i], width, height))
  }

  /** localize after inference: denormalise the rows in place by the
      original image's height and width, then run nms on them. */
  method Localize(loc: Localizer, pred: array<Prediction>, height: nat, width: nat)
    returns (resultBoxes: seq<Box>, resultScores: seq<real>, resultClassNames: seq<string>)
    requires KeptNameClasses(loc, Rescaled(pred[..], width as real, height as real))
    modifies pred
    ensures forall i :: 0 <= i < pred.Length ==> pred[i] == Scaled(old(pred[i]), width as real, height as real)
    ensures pred[..] == Rescaled(old(pred[..]), width as real, height as real)
    ensures IsNmsOutput(loc, pred[..], resultBoxes, resultScores, resultClassNames)
    ensures |resultBoxes| == |resultScores| == |resultClassNames|
  {
    ghost var before := pred[..];
    Denormalize(pred, height, width);
    assert pred[..] == Rescaled(before, width as real, height as real);
    resultBoxes, resultScores, resultClassNames := Nms(loc, pred[..]);
  }
}
