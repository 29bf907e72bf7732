/** LabelCharacteristic in trfk-sign-label/label_characteristic.py: the BLE
    characteristic that, while a central is subscribed, runs the sign
    pipeline on a picked image and notifies the central of the labels found.

    The image pick, inference and drawing are outside the model: the
    detector's raw rows for the picked image, its height and width, and the
    classifier are parameters of OnSignDetect. The BLE stack's notify
    function is represented by an opaque handle. */
module Characteristic {
  import opened Boxes
  import opened Localization
  import opened Classification
  import opened LabelFormat
  import opened Job

  datatype Option<T> = None | Some(value: T)

  /** The notify function the BLE stack hands over in onSubscribe. */
  datatype Callback = Callback(handle: nat)

  /** The value a characteristic holds before its first detection round. */
  const NoLabel: string := "No_LABEL"

  /** What onSignDetect sends through the callback for a new value: the
      UTF-8 bytes of the value, if a central is subscribed and the value is
      not empty. */
  function Notification(callback: Option<Callback>, value: string): (sent: Option<seq<Byte>>)
    ensures sent.Some? <==> callback.Some? && value != ""
    ensures sent.Some? ==> sent.value == Encode(value)
  {
    if callback.Some? && value != "" then Some(Encode(value)) else None
  }

  class LabelCharacteristic {
    var value: string
    var updateValueCallback: Option<Callback>
    const localizer: Localizer
    /** The worker that calls onSignDetect in rounds. */
    const job: ThreadJob

    /** The worker runs exactly while a central is subscribed. */
    predicate Valid()
      reads this, job
    {
      job.paused <==> updateValueCallback.None?
    }

    /** A new characteristic holds 'No_LABEL', has no subscriber and a
        paused worker with a zero-second wait. */
    constructor(classNames: seq<string>)
      ensures Valid()
      ensures fresh(job)
      ensures value == NoLabel && updateValueCallback == None
      ensures localizer == DefaultLocalizer(classNames)
      ensures job.paused && job.interval == 0.0
    {
      localizer := DefaultLocalizer(classNames);
      job := new ThreadJob(0.0);
      value := NoLabel;
      updateValueCallback := None;
    }

    /** onSubscribe: remember the callback and start the rounds. */
    method OnSubscribe(maxValueSize: nat, callback: Callback)
      modifies this`updateValueCallback, job`paused
      ensures Valid()
      ensures updateValueCallback == Some(callback) && !job.paused
      ensures value == old(value)
    {
      updateValueCallback := Some(callback);
      job.Resume();
    }

    /** onUnsubscribe: forget the callback and pause the rounds. */
    method OnUnsubscribe()
      modifies this`updateValueCallback, job`paused
      ensures Valid()
      ensures updateValueCallback == None && job.paused
      ensures value == old(value)
    {
      updateValueCallback := None;
      job.Pause();
    }

    /** onSignDetect: localize and classify the signs in the image, store
        the labels as text and notify the subscriber of them. Returns what
        it reports (boxes, scores and the localizer's labels are what it
        draws) and the bytes it sends, if any. While the worker runs, a
        subscriber is registered, so every non-empty value is sent. */
    method OnSignDetect(detections: seq<Prediction>, height: nat, width: nat, predict: Crop -> string)
      returns (boxes: seq<Box>, scores: seq<real>, objects: seq<string>, labels: seq<string>,
               sent: Option<seq<Byte>>)
      requires Valid() && KeptNameClasses(localizer, Rescaled(detections, width as real, height as real))
      modifies this`value
      ensures IsNmsOutput(localizer, Rescaled(detections, width as real, height as real), boxes, scores, objects)
      ensures BoxesForSigns(boxes, objects) && labels == Classified(boxes, objects, predict)
      ensures value == FormatLabels(labels)
      ensures sent == Notification(updateValueCallback, value)
      ensures Valid() && (!job.paused ==> (sent.Some? <==> value != ""))
    {
      var pred := new Prediction[|detections|](i requires 0 <= i < |detections| => detections[i]);
      assert pred[..] == detections;
      ghost var scaled := Rescaled(detections, width as real, height as real);
      boxes, scores, objects := Localize(localizer, pred, height, width);
      assert pred[..] == scaled;
      labels := Classify(boxes, objects, predict);
      value := FormatLabels(labels);
      if updateValueCallback.Some? && value != "" {
        sent := Some(Encode(value));
      } else {
        sent := None;
      }
    }
  }

  /** A round that finds nothing stores the empty string and sends nothing. */
  lemma NothingFoundNothingSent(callback: Option<Callback>)
    ensures Notification(callback, FormatLabels([])) == None
  {
    FormatNoLabels();
  }

  /** A subscribed central is sent the labels, and reading the bytes one
      character each and splitting on ", " gives it exactly those labels,
      when they are plain text without ", " and do not join to the empty
      string (which is not sent). */
  lemma SubscriberReceivesLabels(callback: Callback, labels: seq<string>)
    requires Join(labels, Comma) != ""
    requires forall i :: 0 <= i < |labels| ==> PlainLabel(labels[i]) && Free(labels[i], Comma)
    ensures Notification(Some(callback), FormatLabels(labels)).Some?
    ensures Split(BinaryString(Notification(Some(callback), FormatLabels(labels)).value), Comma) == labels
  {
    FormatPlainLabels(labels);
    LabelsReachTheApp(labels);
  }
}
