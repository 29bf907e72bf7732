# Traffic-sign detection on the edge device, in Dafny

This project models the sequential core of the Raspberry Pi side of TSDS, a
traffic-sign detector that tells a phone app over Bluetooth LE which signs it
sees. The model covers three parts.

- **Detection post-processing** (`trfk-sign-label/models.py`). This covers:
  - denormalising the detector's rows by the image size;
  - the confidence filter;
  - centre-to-corner box conversion;
  - intersection-over-union, including what numpy's division does on a zero union;
  - greedy non-maximum suppression (NMS);
  - collecting the boxes, scores and class names;
  - classification, where each `'Traffic Sign'` label is replaced by the classifier's answer on its truncated crop.

  Modules: `Boxes`, `Suppression`, `Localization`, `Classification`.
- **The label characteristic** (`trfk-sign-label/label_characteristic.py`). This covers:
  - subscribing and unsubscribing;
  - one detection round: localize, classify, format the labels as `str(labels)` with `[`, `]` and `'` deleted, and notify the subscriber with the UTF-8 bytes.

  Modules: `Characteristic`, `LabelFormat`. `LabelFormat` also models what the phone app does with those bytes: one character per byte, then a split on `", "`.
- **The pausable worker** (`trfk-sign-label/thread_job.py`). This is modelled sequentially: a class with a `paused` flag and a `Run` loop driven by a schedule of pause calls, resume calls, timed-out waits (after which the callback, if invoked, returns or raises) and the event being set. An exception from the callback ends the worker, because nothing in `run()` catches it. Module: `Job`.

Modelling choices:

- Coordinates, scores and IOU values are exact reals.
- IOU is a `Ratio`: a finite value, ±infinity or NaN, which is what numpy yields.
- The test `ious > threshold` is `Exceeds`. It is false for NaN.
- The detector's raw rows and the classifier are parameters. The classifier is a function from an integer crop window to a class name.
- `scores.argsort()` uses numpy's default sort, which is not stable. So the suppression method chooses any ascending order of the scores, and every property is proved for all such orders.

Where the system's design description and the code disagree, the model follows the code:

- **Tie-breaking.** The design describes a stable ascending sort, where the lower row index wins ties. The code's `argsort()` is not stable, so the model leaves the order of equal scores open.
- **Zero union.** The design asks for IOU 0 when the union is zero. The code divides anyway: 0/0 is NaN, and a positive value over 0 is +infinity. `Exceeds` is false for NaN, so two empty boxes never suppress each other. At a non-negative threshold an IOU of 0 would decide the same; at a negative threshold it would not, since 0 exceeds the threshold while NaN does not.
- **Order of steps.** The design filters, converts to corners and then denormalises. The code denormalises all rows first. `DenormalizeThenConvert` shows that both orders give the same corners.
- **Crop handling.** The design clamps the crop to the image and turns an empty crop into an "unclassifiable" label. The code has neither, so the model hands every truncated crop to the classifier. An empty crop makes the source's classifier raise. The model's classifier parameter answers on it instead, and such a source round corresponds to a `Failure` in the worker's schedule.
- **Disjoint boxes.** The design says two disjoint boxes are both retained regardless of the threshold. In the code two disjoint boxes with positive areas have IOU 0, which exceeds a negative threshold, so `ious > threshold` suppresses the lower-scoring one. `DisjointBoxesBothKept` therefore requires a non-negative threshold.
- **Threshold monotonicity.** The design says that lowering the IOU threshold never increases the number of kept boxes. Greedy suppression as coded does not have this property. `LowerThresholdKeepsMore` gives four boxes on which threshold 0.6 keeps two and threshold 0.4 keeps three.

## Model

| member | source | states |
|---|---|---|
| Boxes.XywhToXyxy | trfk-sign-label/models.py:23-30 | the corner box is exactly w wide and h high, has the given centre as its midpoint, and has ordered corners iff w, h ≥ 0; the input box is a value and is not changed |
| Boxes.Overlap | trfk-sign-label/models.py:64-80 | the clamped overlap of two intervals is never negative, is zero iff they do not overlap, and is no longer than either interval |
| Boxes.Intersection | trfk-sign-label/models.py:64-80 | the intersection area is never negative and is zero iff the boxes are separated on one axis |
| Boxes.Area | trfk-sign-label/models.py:41 | the area is not negative for ordered corners, and is zero exactly when the box has no width or no height |
| Boxes.Union | trfk-sign-label/models.py:83 | for ordered corners the union is at least each area, which is not negative, and so at least the intersection |
| Boxes.Divide | trfk-sign-label/models.py:86 | numpy division: finite iff the divisor is non-zero, NaN iff 0/0, and a finite quotient times the divisor gives the dividend back |
| Boxes.Iou | trfk-sign-label/models.py:80-86 | for ordered corners the IOU is never infinite (a zero union gives NaN), and a finite IOU lies between 0 and 1 |
| Boxes.ExceedsMonotone | trfk-sign-label/models.py:50 | an IOU above a threshold is above every lower threshold |
| Boxes.OnlyOverlapsExceed | trfk-sign-label/models.py:50 | only boxes with a positive intersection can have an IOU above a non-negative threshold; NaN never is |
| Boxes.ComputeIous | trfk-sign-label/models.py:59-87 | one ratio per box; when the areas passed in are the boxes' own areas, each entry is the IOU of the box with that row |
| Boxes.IntersectionBounded | trfk-sign-label/models.py:80 | for ordered corners the intersection lies between 0 and each box's area |
| Boxes.IouSymmetric | trfk-sign-label/models.py:64-86 | the IOU does not depend on the order of the two boxes |
| Boxes.DisjointNotSuppressed | trfk-sign-label/models.py:80-86 | boxes that do not overlap have IOU 0, or NaN when both are empty, and never exceed a non-negative threshold |
| Boxes.IouIdentical | trfk-sign-label/models.py:80-86 | a box with positive area has IOU exactly 1 with itself |
| Boxes.ExceedsIffCrossMultiplied | trfk-sign-label/models.py:80-86 | for ordered corners `inter / union > thr` (NaN counts as false) holds iff `inter > thr * union` |
| Suppression.KeepUnfiltered | trfk-sign-label/models.py:53-56 | the list comprehension keeps at most the input, only input entries, and every entry at a position outside the dropped set |
| Suppression.KeepUnfilteredOrigin | trfk-sign-label/models.py:53-56 | every entry the comprehension keeps sits at a position outside the dropped set |
| Suppression.Survivors | trfk-sign-label/models.py:49-56 | a round leaves at most the remaining indices, all taken from them |
| Suppression.SurvivorsExact | trfk-sign-label/models.py:49-56 | an index survives the round iff the just-kept index does not suppress it |
| Suppression.SuppressionPairs | trfk-sign-label/models.py:49-50 | the relation "box i would remove box j" relates only indices of boxes, and at a non-negative threshold only boxes that overlap |
| Suppression.Greedy | trfk-sign-label/models.py:44-56 | the greedy loop keeps at most the remaining indices, only those, and starts with the last (highest-scoring) one |
| Suppression.NonMaxSuppression | trfk-sign-label/models.py:32-57 | the result is the greedy loop over some ascending argsort of the scores, and it satisfies every NMS property (IsNmsResult) |
| Suppression.SuppressInOrder | trfk-sign-label/models.py:44-56 | the pop / keep / break / filter loop computes exactly the greedy loop over the given order |
| Suppression.SuppressRound | trfk-sign-label/models.py:49-56 | one round (IOU of the kept box against the rest, the set of positions over the threshold, the comprehension) yields exactly the survivors under the suppression relation |
| Suppression.GreedyStep | trfk-sign-label/models.py:45-56 | keeping the popped index and continuing on its survivors does not change what the whole loop keeps |
| Suppression.RoundMatchesRelation | trfk-sign-label/models.py:49-50 | the positions whose computed IOU exceeds the threshold are exactly those the kept index suppresses |
| Suppression.SuppressionPairsSymmetric | trfk-sign-label/models.py:64-86 | box i suppresses box j iff j suppresses i |
| Suppression.ArgsortExists | trfk-sign-label/models.py:42 | every score list has an argsort: a permutation of its indices in non-decreasing score order |
| Suppression.InsertByScoreSorted | trfk-sign-label/models.py:42 | inserting an index by score keeps the list ascending and free of repeats |
| Suppression.SortedIndicesSorted | trfk-sign-label/models.py:42 | the indices sorted by insertion are ascending by score and distinct |
| Suppression.KeepUnfilteredDistinct | trfk-sign-label/models.py:53-56 | filtering a list without repeats gives a list without repeats |
| Suppression.KeepUnfilteredAscending | trfk-sign-label/models.py:53-56 | filtering keeps the list in ascending score order |
| Suppression.GreedyIndicesIn | trfk-sign-label/models.py:44-56 | every kept index is an index of the input |
| Suppression.GreedyDistinct | trfk-sign-label/models.py:44-56 | no index is kept twice |
| Suppression.GreedyScoresNonIncreasing | trfk-sign-label/models.py:44-56 | the kept indices come out in non-increasing score order |
| Suppression.ConsNonIncreasing | trfk-sign-label/models.py:45-46 | putting an index that scores at least as high as all later ones in front keeps the order non-increasing |
| Suppression.TopScoreDominates | trfk-sign-label/models.py:45-56 | everything kept after the popped index scores no higher than it |
| Suppression.GreedyPairwiseSeparated | trfk-sign-label/models.py:49-56 | no kept index suppresses a later-kept one |
| Suppression.GreedyDropJustified | trfk-sign-label/models.py:44-56 | every input index that is not kept was suppressed by a kept index scoring at least as high |
| Suppression.DroppedLater | trfk-sign-label/models.py:44-56 | an index that survives a round but is not kept is justified by a later round |
| Suppression.ShiftWitness | trfk-sign-label/models.py:44-56 | a suppressor found in a later round is a suppressor for the whole loop |
| Suppression.DroppedByTop | trfk-sign-label/models.py:49-56 | an index removed in the first round is justified by the popped index |
| Suppression.GreedySeparated | trfk-sign-label/models.py:49-56 | under a symmetric relation no kept index suppresses any other kept index, earlier or later |
| Suppression.GreedyTopFirst | trfk-sign-label/models.py:42-47 | the first kept index scores at least as high as every input index |
| Suppression.GreedyDropsJustified | trfk-sign-label/models.py:44-56 | the kept indices are input indices and every input index left out was suppressed by a kept one scoring at least as high |
| Suppression.GreedyIsNmsResult | trfk-sign-label/models.py:42-57 | for every argsort and symmetric relation, the greedy result has distinct input indices, is non-empty iff the input is, starts with a top score, is in non-increasing score order, is pairwise unsuppressed, and justifies every drop |
| Suppression.GreedyOnBoxesIsNmsResult | trfk-sign-label/models.py:42-57 | the same holds for the IOU relation of concrete boxes |
| Suppression.NmsFirstIsTop | trfk-sign-label/models.py:42-46 | every score is at most that of the first kept index |
| Suppression.NothingRelatedKeepsAll | trfk-sign-label/models.py:44-56 | when no two distinct indices are related, every index is kept |
| Suppression.NoOverlapKeepsAll | trfk-sign-label/models.py:44-56 | when no pair of distinct boxes has IOU above the threshold, every box is kept |
| Suppression.KeptBoxesSeparated | trfk-sign-label/models.py:49-56 | no two kept boxes have IOU above the threshold |
| Suppression.GatherCovering | trfk-sign-label/models.py:57 | indexing the kept list by positions that cover it gives the same set of indices |
| Suppression.RerunKeepsAll | trfk-sign-label/models.py:32-57 | running NMS again on the kept boxes and scores keeps every one of them, so the set is unchanged |
| Suppression.IdenticalBoxesKeepHigher | trfk-sign-label/models.py:42-56 | two identical boxes scoring 0.9 and 0.5 at threshold 0.45 give exactly [0] |
| Suppression.DisjointBoxesBothKept | trfk-sign-label/models.py:44-56 | two disjoint boxes are both kept at any non-negative threshold, whatever their scores |
| Suppression.DistinctCount | trfk-sign-label/models.py:57 | a result without repeated indices has as many entries as distinct indices |
| Suppression.LowerThresholdKeepsMore | trfk-sign-label/models.py:44-56 | on the four Chain boxes, threshold 0.4 keeps exactly boxes {0, 2, 3} and threshold 0.6 keeps exactly {0, 1}, so a lower threshold keeps more boxes |
| Suppression.ChainKeptAtLow | trfk-sign-label/models.py:44-56 | at threshold 0.4 any NMS result on the Chain boxes is {0, 2, 3} |
| Suppression.ChainKeptAtHigh | trfk-sign-label/models.py:44-56 | at threshold 0.6 any NMS result on the Chain boxes is {0, 1} |
| Suppression.KeptApart | trfk-sign-label/models.py:49-56 | two kept indices never suppress each other |
| Suppression.UnsuppressedKept | trfk-sign-label/models.py:44-56 | an index that no other kept index suppresses is kept |
| Localization.Denormalize | trfk-sign-label/models.py:119-122 | every row is scaled in place: x and w by the width, y and h by the height, and everything else is unchanged |
| Localization.Scaled | trfk-sign-label/models.py:119-122 | denormalising a row leaves its confidence and class scores alone, and positive image sides keep the sign of its width and height |
| Localization.FullFrameDecodes | trfk-sign-label/models.py:119-122 | a normalised full-frame box at centre (0.5, 0.5) decodes to corners (0, 0)-(W, H) |
| Localization.DenormalizeThenConvert | trfk-sign-label/models.py:119-124 | denormalising before the corner conversion scales the corners by width and height |
| Localization.Confident | trfk-sign-label/models.py:90 | each row is kept as often as it occurs when its confidence is strictly above the threshold and never otherwise, so nothing else is kept and none are kept when no row clears it |
| Localization.ConfidentConcat | trfk-sign-label/models.py:90 | the mask keeps the rows in their order: filtering a concatenation is filtering each part |
| Localization.ConfidentSnoc | trfk-sign-label/models.py:90 | a row added at the end is kept, at the end, exactly when it is confident |
| Localization.ConfidentIdempotent | trfk-sign-label/models.py:90 | filtering twice is the same as filtering once |
| Localization.FirstArgmax | trfk-sign-label/models.py:104 | `np.argmax` returns the first index of the maximal score |
| Localization.ClassesFitKept | trfk-sign-label/models.py:90-104 | when every confident row names a class, so does every row nms keeps |
| Localization.KeptRowsNameClasses | trfk-sign-label/models.py:94-104 | the rows at the positions of one outcome of the suppression name a class, so the lookup at line 104 succeeds for each of them |
| Localization.SameBoxRows | trfk-sign-label/models.py:89-94 | two rows with the same box, scored 0.9 and 0.5, both pass the mask and become two equal corner boxes with those scores |
| Localization.SuppressedRowNeedsNoName | trfk-sign-label/models.py:94-104 | a confident row whose argmax is past the class list is accepted when it is suppressed, since only kept rows are looked up |
| Localization.ClassName | trfk-sign-label/models.py:104 | the reported class name is the name at a position of maximal class score, which is a position of the class list |
| Localization.Nms | trfk-sign-label/models.py:89-106 | the three lists have equal length and come from an NMS result on the confident rows: the row's corner box, its confidence (above the threshold) and the class name at its first argmax, in kept order |
| Localization.Collect | trfk-sign-label/models.py:96-103 | the loop over the kept indices appends, at each position, that row's corner box, its confidence and its class name |
| Localization.NmsCollected | trfk-sign-label/models.py:94-105 | the lists collected for an outcome of the suppression are nms's output for that outcome, every entry from a confident row |
| Localization.NoConfidentRowsNothingReported | trfk-sign-label/models.py:90-106 | with no confident row nothing is reported |
| Localization.OutputWithinConfident | trfk-sign-label/models.py:90-106 | the three lists have equal length and at most one entry per confident row |
| Localization.ConfidentRowReported | trfk-sign-label/models.py:90-106 | with a confident row something is reported, and the first score is the highest confidence |
| Localization.ScaledClassesFit | trfk-sign-label/models.py:119-122 | denormalising does not change confidences or class scores, so rows that name a class still do |
| Localization.Localize | trfk-sign-label/models.py:108-126 | the rows are denormalised in place, and the three lists are nms's output on the denormalised rows; it asks only that the rows nms keeps from the denormalised rows name a class |
| Classification.Trunc | trfk-sign-label/models.py:158-161 | `int()` truncates toward zero |
| Classification.TruncOdd | trfk-sign-label/models.py:158-161 | truncation is symmetric about zero, unlike the floor |
| Classification.TruncMonotone | trfk-sign-label/models.py:158-161 | truncation never reverses an order |
| Classification.CropOf | trfk-sign-label/models.py:157-163 | a box with ordered corners gives a crop window with ordered corners, and a box at non-negative coordinates a window at non-negative coordinates |
| Classification.NarrowBoxEmptyCrop | trfk-sign-label/models.py:157-163 | a box from x = 10.2 to x = 10.9 gets a window of width zero, so the slice handed to the classifier is empty |
| Classification.Classify | trfk-sign-label/models.py:153-170 | same length and order as the labels; other labels are copied unchanged, and each 'Traffic Sign' label becomes the classifier's answer on its truncated crop |
| Classification.Classified | trfk-sign-label/models.py:153-170 | one label per input label |
| Classification.NoSignsUnchanged | trfk-sign-label/models.py:155-168 | without a 'Traffic Sign' label the labels come back unchanged |
| Classification.OnlySignCropsConsulted | trfk-sign-label/models.py:156-165 | the result depends on the classifier only through the crops of 'Traffic Sign' boxes |
| LabelFormat.Join | trfk-sign-label/label_characteristic.py:54 | joining no parts gives "", joining one part gives that part, and a join is at least as long as its first part |
| LabelFormat.FindFrom | RpiBleApp/App.js:274 | finds the first occurrence of the separator at or after a position, or reports that there is none |
| LabelFormat.Split | RpiBleApp/App.js:274 | splitting always yields at least one piece |
| LabelFormat.SplitJoin | RpiBleApp/App.js:274 | splitting labels joined by ", " gives them back when there is at least one and none contains ", " |
| LabelFormat.EscapeChar | trfk-sign-label/label_characteristic.py:54 | for ASCII, `repr` writes a character as itself exactly when it is not the quote, a backslash or a control character; otherwise it writes an escape of two to four characters starting with a backslash, and the quote appears only right after that backslash |
| LabelFormat.EscapeAll | trfk-sign-label/label_characteristic.py:54 | the escaped body drops nothing, and every quote in it follows a backslash |
| LabelFormat.Repr | trfk-sign-label/label_characteristic.py:54 | `repr` of a str opens and closes with the same quote, uses double quotes iff the text has a single quote and no double quote, and escapes every other occurrence of that quote |
| LabelFormat.ListRepr | trfk-sign-label/label_characteristic.py:54 | `str` of a list is bracketed, and is "[]" exactly for the empty list |
| LabelFormat.Strip | trfk-sign-label/label_characteristic.py:54 | `re.sub` keeps exactly the characters other than `[`, `]` and `'`, and never lengthens the string |
| LabelFormat.StripConcat | trfk-sign-label/label_characteristic.py:54 | the substitution works character by character |
| LabelFormat.StripClean | trfk-sign-label/label_characteristic.py:54 | a string without the three characters is unchanged |
| LabelFormat.FormatLabels | trfk-sign-label/label_characteristic.py:54 | the stored value contains no `[`, `]` or `'` |
| LabelFormat.FormatNoLabels | trfk-sign-label/label_characteristic.py:54 | no labels format to "" |
| LabelFormat.EscapePlain | trfk-sign-label/label_characteristic.py:54 | `repr` writes a plain label's characters unescaped |
| LabelFormat.ReprPlain | trfk-sign-label/label_characteristic.py:54 | a plain label's repr is the label in single quotes |
| LabelFormat.StripJoinedReprs | trfk-sign-label/label_characteristic.py:54 | stripping the joined reprs of plain labels gives the labels joined by ", " |
| LabelFormat.StripQuoted | trfk-sign-label/label_characteristic.py:54 | stripping a quoted plain label gives the label |
| LabelFormat.FormatPlainLabels | trfk-sign-label/label_characteristic.py:54 | for labels of printable ASCII other than quotes, brackets and backslashes, the value is the labels joined by ", " |
| LabelFormat.StripBracketed | trfk-sign-label/label_characteristic.py:54 | the re.sub removes the list's brackets and changes nothing else around them |
| LabelFormat.EncodeChar | trfk-sign-label/label_characteristic.py:59 | UTF-8 uses one to four bytes per character |
| LabelFormat.Encode | trfk-sign-label/label_characteristic.py:59 | the encoding has at least one byte per character |
| LabelFormat.NonAsciiBytesHigh | trfk-sign-label/label_characteristic.py:59 | every byte of a non-ASCII character's encoding has the top bit set |
| LabelFormat.AsciiRoundTrip | trfk-sign-label/label_characteristic.py:59 | an ASCII value is sent one byte per character, and the app's decoding recovers it |
| LabelFormat.LabelsReachTheApp | trfk-sign-label/label_characteristic.py:54-59 | for a non-empty list of such plain labels without ", ", the app's split of the decoded bytes is exactly the labels |
| LabelFormat.JoinAscii | trfk-sign-label/label_characteristic.py:54 | joining ASCII labels with ", " gives ASCII |
| Job.PausedAfter | trfk-sign-label/thread_job.py:27-33 | with no calls the flag keeps its start value; a last pause call leaves it set and a last resume call clears it |
| Job.Fired | trfk-sign-label/thread_job.py:22-25 | the callback runs only at timed-out waits, in schedule order |
| Job.Consumed | trfk-sign-label/thread_job.py:23-25 | the loop takes in everything up to and including the occurrence that ends it (the event set, or a raising callback), or the whole schedule when none does |
| Job.ThreadJob.constructor | trfk-sign-label/thread_job.py:5-20 | a new worker is paused and keeps its interval |
| Job.ThreadJob.Pause | trfk-sign-label/thread_job.py:27-29 | the flag is set from any state, and nothing else changes |
| Job.ThreadJob.Resume | trfk-sign-label/thread_job.py:31-33 | the flag is cleared, and nothing else changes |
| Job.ThreadJob.Run | trfk-sign-label/thread_job.py:22-25 | the callback is invoked exactly at the positions `Fired` gives, and the flag ends as the calls taken in before the worker ended leave it |
| Job.RunStep | trfk-sign-label/thread_job.py:23-25 | one occurrence while the worker runs: it ends the worker iff it is the event or a raising callback invoked with the flag clear; it fires iff it is a timed-out wait with the flag clear; a pause or resume call sets the flag |
| Job.RunStops | trfk-sign-label/thread_job.py:23-25 | the occurrence that ends the worker is the last one taken in, and nothing later fires |
| Job.NothingAfterSet | trfk-sign-label/thread_job.py:23 | nothing after the event is set fires |
| Job.NothingAfterEnd | trfk-sign-label/thread_job.py:22-25 | once the worker has ended it stays ended and nothing more fires |
| Job.ConsumedToEnd | trfk-sign-label/thread_job.py:22-25 | the loop takes in exactly the occurrences up to the one that ends it |
| Job.FailureEndsWorker | trfk-sign-label/thread_job.py:22-25 | a callback that raises was invoked at that wait, ends run(), and no later resume or timeout invokes it again |
| Job.PausedFailureHarmless | trfk-sign-label/thread_job.py:24-25 | while paused the callback is not invoked, so one that would raise does not end the worker |
| Job.FiredIff | trfk-sign-label/thread_job.py:22-33 | a position fires iff it is a timed-out wait before the worker has ended, with the flag clear at that moment, so the number of calls is the number of such waits, with no catch-up |
| Job.PausedNeverFires | trfk-sign-label/thread_job.py:19-29 | a paused worker that is not resumed fires nothing, whatever the number of timeouts |
| Job.StaysPaused | trfk-sign-label/thread_job.py:27-33 | without a resume the flag stays set |
| Job.ResumeThenTimeoutFires | trfk-sign-label/thread_job.py:22-33 | a resume followed by a timeout, while the worker runs, fires exactly once, at that timeout |
| Job.PauseThenTimeoutSilent | trfk-sign-label/thread_job.py:22-33 | a pause followed by a timeout fires nothing |
| Job.StaysPausedAfter | trfk-sign-label/thread_job.py:27-33 | after a pause issued at any point the flag stays set until a resume call |
| Job.PauseThenTimeoutsSilent | trfk-sign-label/thread_job.py:22-33 | a pause issued mid-run followed by any number of timeouts, with no resume, invokes the callback no more times |
| Characteristic.Notification | trfk-sign-label/label_characteristic.py:57-59 | something is sent iff a callback is registered and the value is not empty, and what is sent is the value's UTF-8 bytes |
| Characteristic.LabelCharacteristic.constructor | trfk-sign-label/label_characteristic.py:12-27 | the value is 'No_LABEL', there is no callback, and the worker is new, paused, with interval 0 and the default localizer |
| Characteristic.LabelCharacteristic.OnSubscribe | trfk-sign-label/label_characteristic.py:29-32 | the callback is stored and the worker resumed; the invariant "running iff subscribed" holds |
| Characteristic.LabelCharacteristic.OnUnsubscribe | trfk-sign-label/label_characteristic.py:34-37 | the callback is cleared and the worker paused, so `Notification` sends nothing from then on |
| Characteristic.LabelCharacteristic.OnSignDetect | trfk-sign-label/label_characteristic.py:39-59 | the boxes, scores and labels are localize's output on the denormalised rows; the labels are classify's output; the value is always overwritten with the formatted labels; the bytes sent are `Notification` of the value; and the invariant "running iff subscribed" holds, so while the worker runs every non-empty value is sent |
| Characteristic.NothingFoundNothingSent | trfk-sign-label/label_characteristic.py:54-57 | a round without labels sends nothing |
| Characteristic.SubscriberReceivesLabels | trfk-sign-label/label_characteristic.py:54-59 | a subscriber is sent plain labels (none containing ", ", not joining to "") and the app's split recovers exactly them |

## Left out

- Inference and image handling are not modelled. This covers the TFLite interpreter, OpenCV resizing and colour conversion, pixel normalisation (`models.py:109-116`), `Classification_Model.predict` with its CSV lookup (`models.py:140-151`), and reading the class files. The detector's rows and the classifier are parameters.
- Crop contents: the model stops at the integer crop window. Python's slice semantics (negative indices wrap, out-of-range bounds clip) are part of the classifier parameter.
- Floating point: reals are exact. Rounding in `/2`, in the area products and in the division is not modelled; numpy's division outcomes (±infinity, NaN) are.
- Threading: `threading.Thread`, the `Condition` lock and the timed `Event.wait` are replaced by a schedule that serialises other threads' calls and the outcomes of the waits. The interval is kept as a constant but time is not modelled. Races between `onUnsubscribe` and a round in progress are not modelled.
- Job.ThreadJob.Run: returns the positions at which the callback runs instead of calling it; what the callback does is `OnSignDetect`. Whether a round's callback raises is part of the schedule (`Failure`); an exception ends run() as in the source, and the model returns normally there instead of propagating it.
- Characteristic.LabelCharacteristic.OnSignDetect: always returns. In the source a round can raise: `random.choice` on an empty image directory (`label_characteristic.py:41`), `cv2.resize` on an empty crop (`models.py:141`, reached through `models.py:163-165` whenever the truncated corners coincide, see `NarrowBoxEmptyCrop`), or the class-name lookup (`models.py:104`). Such a round is a `Failure` in the worker's schedule, which ends the worker for good (`FailureEndsWorker`).
- Localization.Nms: requires `KeptNameClasses`: every row at a kept position names a class, that is, has at least one class score and an argmax inside the class list. Suppressed rows need not (`SuppressedRowNeedsNoName`). The requirement is stated for every outcome that `IsNmsResult` admits, because the order of equal scores is left open; an input on which only some such outcome would look up a row with no class is excluded although the source, on its one actual order, might not raise. The inputs excluded are otherwise those on which `self.class_names[np.argmax(...)]` (`models.py:104`) raises an IndexError or takes argmax of an empty vector; those rounds are `Failure`s of the worker.
- Characteristic.LabelCharacteristic.OnSignDetect: the random image pick, the timing printout, drawing the boxes and saving the result image (`label_characteristic.py:41-52, 62-64`) are I/O and are left out. The image arrives as the detector's rows and its size.
- The BLE notify function is an opaque handle (`Callback`), and `maxValueSize` is accepted but unused, as in the source. The pybleno base class, `main.py`, `ip_characteristic.py` and `utils.py` are not part of this model.
- LabelFormat.EscapeChar: writes non-ASCII characters as themselves, where Python escapes the non-printable ones (such as U+00A0); see the next line.
- LabelFormat.Repr: models Python's `repr` of ASCII text, including its quote choice and the `\\`, `\t`, `\n`, `\r` and `\xNN` escapes. Non-ASCII characters are written as themselves. Python escapes non-printable non-ASCII characters (such as U+00A0), and this is not modelled; the results about the published value (`FormatPlainLabels` and after) hold only for printable ASCII labels, where the two agree.
- LabelFormat.LabelsReachTheApp: the round trip needs plain labels: printable ASCII without a backslash as well as without `[`, `]`, `'` or ", ". `repr` escapes a backslash or a non-printable character, and the app does not undo the escape.
- LabelFormat.BinaryString: `base64.decode` in the app yields one character per byte. Decoding of non-ASCII text by the app is not modelled beyond `NonAsciiBytesHigh`.
