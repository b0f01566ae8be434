# world_info detection nodes, modelled in Dafny

This project models the post-inference core of the two camera detection nodes of
the `world_info` ROS 2 package:

- `DetectHazmat` (`hazmat.cpp`). It locates hazmat placards in the colour stream.
  It back-projects each detection through the aligned depth frame and publishes
  one TF transform and one `WorldInfo` message per placard.
- `DetectObject` (`object_detection_yolov5.cpp`). It publishes one bounding-box
  array per colour frame. When `pub_tf2` is set, it also sends a median-depth
  request per box, and turns each accepted response into a TF transform and a
  `WorldInfo`.

The modules follow the program's structure:

| module | file | what it holds |
|---|---|---|
| `Numeric` | `numeric.dfy` | float-to-int truncation, `std::round`, the ceiling a float loop bound induces, IEEE NaN/infinities from division by zero |
| `Messages` | `messages.dfy` | headers, image, TF and `WorldInfo` messages |
| `Letterbox` | `letterbox.dfy` | `resize_and_pad` and the inverse scale factors |
| `Decoder` | `decoder.dfy` | the row-by-row decode of the network output, the assembly of the boxes `NMSBoxes` keeps, the rescale and clamp of a box |
| `MedianSelect` | `median_select.dfy` | `findMedian`: a selection on an `array`, proved to return the median of its input |
| `Backprojection` | `backprojection.dfy` | `pixel_to_point`, the `(z, -x, -y)` remap, and the NaN/infinity/zero guards |
| `DepthSampling` | `depth_sampling.dfy` | `median_depth_xyz` (box and point-set sampling loops, mean anchor, median depth) and `removeInfAndZeroValues` |
| `Hazmat` | `hazmat_node.dfy` | the `DetectHazmat` node as a class: camera-info, depth and colour callbacks, and the per-detection publish loop |
| `ObjectDetection` | `yolov5_node.dfy` | the `DetectObject` node as a class: the box/request loop and the depth-response callback |

Floats are modelled as reals, and IEEE special values as `Numeric.Ext`. In the
hazmat node they arise from a division by zero in `pixel_to_point`. In the
yolov5 node the point comes from the depth service and may carry them as
received. The remap's negation creates none: it keeps a NaN and swaps the sign
of an infinity. Every conversion the C++ performs implicitly is written out:

- `box.x = rx * box.x` truncates toward zero.
- `int(round(..))` rounds half away from zero.
- `for (int i = vec_x[0]; i < vec_x[1]; i++)` visits `Trunc(vec_x[0]) .. Ceil(vec_x[1]) - 1`.

Behaviour the C++ leaves undefined is a model outcome of its own
(`Undefined`, `StepUndefined`, `UndefinedBehaviour`) rather than a precondition:

- `findMedian` on an empty vector;
- `depth_frame.at` outside the frame;
- a box region with fewer than two y values;
- `class_names[classId]` past the end of the list.

Points where the code behaves in ways a reader may not expect:

- `resize_and_pad` computes `r = new_shape.width / std::max(width, height)` on two
  `float`s, so it is a float division, not an integer one. A square side of 640
  therefore always comes out exactly: `Letterbox.LetterboxFillsSquare`.
- The depth-range test `0.01 < d < 4.0` parses as `(0.01 < d) < 4.0`. This
  compares a `bool` (0 or 1) with 4.0, so it is true for EVERY `d`, including 0
  and negative values. It is not only true for `d > 0.01`. The model keeps every
  sample (`DepthSampling.RangeTestAsWritten`).
- `DetectObject` declares a member `model_name`, but never assigns it. The
  constructor's parameter of the same name shadows it. So the `type` field of the
  bounding-box array and of every `WorldInfo` is the empty string
  (`ObjectDetection.DetectObject.constructor`).
- `removeInfAndZeroValues` is defined in `DetectHazmat` but never called. It is
  modelled on its own, and the median is taken over all samples.
- The hazmat node has no all-zero test. A region whose median depth is 0 is
  published at the origin (`Hazmat.ZeroDepthPublishedAtOrigin`).

## Model

| member | source | states |
|---|---|---|
| Numeric.Trunc | world_info/src/hazmat.cpp:244-247 | the float-to-int conversion rounds toward zero: `n` has the sign of `x` and lies within 1 of it, never beyond it |
| Numeric.Round | world_info/src/hazmat.cpp:52-53 | `std::round` is the nearest integer, with halves away from zero |
| Numeric.Ceil | world_info/src/hazmat.cpp:346-347 | the first integer not below a float loop bound: `n - 1 < x <= n` |
| Numeric.Min | world_info/src/hazmat.cpp:254-255 | `std::min` is one of its arguments and below both |
| Numeric.Max | world_info/src/hazmat.cpp:51 | `std::max` is one of its arguments and above both |
| Numeric.Div | world_info/src/hazmat.cpp:380-381 | float division: the finite quotient for a non-zero divisor; NaN for 0/0; otherwise the infinity of the numerator's sign |
| Numeric.Neg | world_info/src/hazmat.cpp:281-282 | unary minus maps NaN to NaN, swaps the infinities and negates finite values |
| Letterbox.ScaleFactor | world_info/src/hazmat.cpp:51 | the float ratio of the target width to the longer side (defines `r`) |
| Letterbox.Unpadded | world_info/src/hazmat.cpp:52-53 | both sides multiplied by `r` and rounded (defines `new_unpadW`, `new_unpadH`; its properties are `ScaledSides` and the two lemmas after it) |
| Letterbox.PadTo | world_info/src/hazmat.cpp:54-60 | succeeds iff the unpadded size is positive and fits the target; the pads then bring it exactly to the target size |
| Letterbox.PaddedSize | world_info/src/hazmat.cpp:57-60 | the size after `copyMakeBorder`: the unpadded size plus the right and bottom pads (its properties are `PadTo`, which brings it to the target, and `LetterboxFillsSquare`) |
| Letterbox.ResizeAndPad | world_info/src/hazmat.cpp:47-63 | a successful resize has positive unpadded sides and non-negative pads, so the inverse factors are defined and `copyMakeBorder` gets valid borders |
| Letterbox.ScaledSides | world_info/src/hazmat.cpp:51-53 | scaling by `side / long` maps the longer side to exactly `side` and the shorter into `0..side`, rounding to 0 exactly when `2 * short * side < long` |
| Letterbox.ThinSide | world_info/src/hazmat.cpp:51-53 | the shorter side scales below half a pixel exactly when `2 * short * side < long` |
| Letterbox.LetterboxFillsSquare | world_info/src/hazmat.cpp:47-63 | the resize fails exactly when the shorter side rounds to 0; otherwise the padded image is exactly `side x side` and the longer side needs no pad |
| Letterbox.WiderSides | world_info/src/hazmat.cpp:51-53 | for a landscape image scaled by `side / cols`, the width maps to the full side and the height into `0..side`, and to 0 exactly when `2 * rows * side < cols` |
| Letterbox.TallerSides | world_info/src/hazmat.cpp:51-53 | for a portrait image scaled by `side / rows`, the height maps to the full side and the width into `0..side`, and to 0 exactly when `2 * cols * side < rows` |
| Letterbox.InverseX | world_info/src/hazmat.cpp:242 | `rx = cols / (padded width - dw)` (its property is `InverseScaleRestoresSize`) |
| Letterbox.InverseY | world_info/src/hazmat.cpp:243 | `ry = rows / (padded height - dh)` (its property is `InverseScaleRestoresSize`) |
| Letterbox.InverseScaleRestoresSize | world_info/src/hazmat.cpp:242-243 | `rx * new_unpadW == cols` and `ry * new_unpadH == rows`: the inverse factors undo the resize, since the padded side minus the pad is the unpadded side |
| Decoder.FirstMax | world_info/src/hazmat.cpp:197-201 | `cv::minMaxLoc` location: an index holding the maximum, with every earlier entry strictly smaller (the first maximum) |
| Decoder.ClassId | world_info/src/hazmat.cpp:197-207 | the class id is a valid score index, the first one holding the highest class score |
| Decoder.MaxClassScore | world_info/src/hazmat.cpp:199-203 | the reported score bounds every class score and is one of them |
| Decoder.Scores | world_info/src/hazmat.cpp:197-198 | the class scores: the record from field 5 on (its properties are `ClassId` and `MaxClassScore`) |
| Decoder.Accepted | world_info/src/hazmat.cpp:194-203 | the two tests of the decode loop: objectness at least the confidence threshold, best class score above 0.2 |
| Decoder.CornerBox | world_info/src/hazmat.cpp:209-217 | the `cv::Rect` built from centre and size: width/height truncated; the corner `x - w/2`, `y - h/2` truncated toward zero, so a corner off the left or top edge rounds up to at most 0 and one inside rounds down |
| Decoder.KeptIndices | world_info/src/hazmat.cpp:190-220 | the rows the decode keeps are indices of existing rows, no more of them than rows |
| Decoder.KeptIndicesAccepted | world_info/src/hazmat.cpp:190-220 | every kept row index is below the row count and names a row whose objectness reaches the threshold and whose best class score exceeds 0.2 |
| Decoder.KeptIndicesIncreasing | world_info/src/hazmat.cpp:190-220 | kept rows are in strictly increasing tensor order, each at most once |
| Decoder.KeptIndicesComplete | world_info/src/hazmat.cpp:190-220 | every row that passes both tests is kept |
| Decoder.KeptIndicesCharacterized | world_info/src/hazmat.cpp:190-220 | a row is kept iff its objectness reaches the threshold and its best class score exceeds 0.2; kept rows are in increasing order |
| Decoder.DecodeRecords | world_info/src/hazmat.cpp:186-220 | the three vectors the loop fills are aligned: entry `k` holds the box, class id and objectness of the `k`-th kept row |
| Decoder.KeptEntriesPassBothTests | world_info/src/hazmat.cpp:194-207 | every kept entry passed both the objectness and the class-score test |
| Decoder.AssembleDetections | world_info/src/hazmat.cpp:222-233 | one detection per `NMSBoxes` index, in order, taking class id, confidence and box at that index |
| Decoder.SurvivingDetections | world_info/src/hazmat.cpp:186-233 | one detection per kept index; each has confidence at least the threshold, a class id within the score fields, and the box of an accepted row |
| Decoder.Rescale | world_info/src/hazmat.cpp:244-247 | each field multiplied by its axis factor and truncated into the `int` field (defines the rescale; its property is `RescaleStaysInImage`) |
| Decoder.RescaleStaysInImage | world_info/src/hazmat.cpp:242-247 | a box inside the unpadded network input rescales to a box inside the source image, on both axes: corner and size non-negative, far edge within `cols` and `rows` |
| Decoder.RescaledAxis | world_info/src/hazmat.cpp:244-247 | one axis of the rescale: an interval within `0..unpad` scaled by `n / unpad` and truncated stays within `0..n` |
| Decoder.Scaled | world_info/src/hazmat.cpp:244-247 | one coordinate times the inverse scale, truncated to `int` (its properties are `RescaledAxis` and `RescaleStaysInImage`) |
| Decoder.RegionOf | world_info/src/hazmat.cpp:254-258 | the region has the box corner as its first element; the far corner is the box's, or clamped to the last column/row, whichever is smaller |
| MedianSelect.Median | world_info/src/hazmat.cpp:391-401 | the reference median: the middle element of the sorted samples, or the mean of the two middle ones for an even count (`FindMedian` is proved equal to it) |
| MedianSelect.Insert | world_info/src/hazmat.cpp:391-401 | insertion into a sorted sequence keeps it sorted and adds exactly the one element |
| MedianSelect.SortedOf | world_info/src/hazmat.cpp:391-401 | the sorted arrangement of the samples is sorted and a permutation of them |
| MedianSelect.SortedUnique | world_info/src/hazmat.cpp:391-401 | two sorted permutations of the same samples are equal, so the median is well defined |
| MedianSelect.MedianPermutationInvariant | world_info/src/hazmat.cpp:391-401 | the median depends only on the multiset of samples, not on their order |
| MedianSelect.MedianBounded | world_info/src/hazmat.cpp:391-401 | the median lies between the smallest and largest sample, and is a sample for an odd count |
| MedianSelect.IndexOf | world_info/src/hazmat.cpp:391-401 | the first position of a sample that occurs |
| MedianSelect.PartitionedRank | world_info/src/hazmat.cpp:393-397 | after the partition, the pivot is the `n/2`-th of the sorted samples, and the maximum of the lower part is the one just before it |
| MedianSelect.RankInArrangement | world_info/src/hazmat.cpp:393-397 | the same for any sorted arrangement of the partitioned array |
| MedianSelect.SortedAroundPivot | world_info/src/hazmat.cpp:393-394 | a sorted arrangement of a partitioned array is the sorted lower part, the pivot, then the sorted upper part |
| MedianSelect.LastOfSortedIsMax | world_info/src/hazmat.cpp:396 | the largest element ends a sorted arrangement |
| MedianSelect.JoinSorted | world_info/src/hazmat.cpp:393-394 | sorted parts bounded by a pivot join into a sorted sequence |
| MedianSelect.NthElement | world_info/src/hazmat.cpp:393-394 | `std::nth_element`: the array becomes a permutation of itself with nothing larger before `mid` and nothing smaller after it |
| MedianSelect.MaxElement | world_info/src/hazmat.cpp:396 | `std::max_element` on `[begin, middle)`: the first index of the maximum |
| MedianSelect.FindMedian | world_info/src/hazmat.cpp:391-401 | returns the median of the samples it was given (the middle element, or the mean of the two middle elements for an even count) and only permutes the vector |
| Backprojection.PixelToPoint | world_info/src/hazmat.cpp:379-383 | `z = d`; `x * fx == (u - cx) * d` and `y * fy == (v - cy) * d` for non-zero focal lengths; a zero focal length gives a non-finite component |
| Backprojection.ProjectInvertsPixelToPoint | world_info/src/hazmat.cpp:379-383 | projecting the back-projected point gives the pixel back (non-zero depth and focal lengths) |
| Backprojection.PrincipalPointOnAxis | world_info/src/hazmat.cpp:379-383 | the principal point back-projects onto the optical axis |
| Backprojection.ZeroDepthAtOrigin | world_info/src/hazmat.cpp:379-383 | a zero depth back-projects onto the origin |
| Backprojection.ToOutputFrame | world_info/src/hazmat.cpp:280-282 | the translation is `(z, -x, -y)` |
| Backprojection.NonFinite | world_info/src/hazmat.cpp:269-272 | the guard of the hazmat loop: some component is NaN or infinite |
| Numeric.IsNaN | world_info/src/hazmat.cpp:269-270 | `std::isnan` on an IEEE value (its properties are `Numeric.Div`, `Numeric.Neg` and `NonFiniteIffZeroFocal`) |
| Numeric.IsInf | world_info/src/hazmat.cpp:271-272 | `std::isinf` on an IEEE value: plus or minus infinity (same properties as `IsNaN`) |
| Backprojection.AnyNaN | world_info/src/hazmat.cpp:269-270 | the NaN guard: some component is NaN (its properties are `GuardsInvariantUnderRemap` and `NonFiniteIffZeroFocal`) |
| Backprojection.AnyInf | world_info/src/hazmat.cpp:271-272 | the infinity guard: some component is infinite (same properties as `AnyNaN`) |
| Backprojection.AllZero | world_info/src/object_detection_yolov5.cpp:292-293 | the yolov5 all-zero guard: every component is zero (its property is `GuardsInvariantUnderRemap`) |
| Backprojection.ResponseAccepted | world_info/src/object_detection_yolov5.cpp:288-293 | the guard of the depth-response callback: no NaN, no infinity, and not all three components zero |
| Backprojection.GuardsInvariantUnderRemap | world_info/src/object_detection_yolov5.cpp:288-303 | the remap preserves "has a NaN", "has an infinity" and "is all zero", so guarding before or after it is the same |
| Backprojection.NonFiniteIffZeroFocal | world_info/src/hazmat.cpp:269-272 | a back-projected point fails the NaN/infinity guard exactly when `fx` or `fy` is zero |
| DepthSampling.RangeTestAsWritten | world_info/src/hazmat.cpp:349 | the chained comparison keeps every depth |
| DepthSampling.VisitedColumns | world_info/src/hazmat.cpp:344-358 | box mode (two x values) visits `trunc(x0) .. ceil(x1) - 1`, the point-set mode each x truncated (its properties are `BoxSampleCount` and the collecting loops) |
| DepthSampling.VisitedRows | world_info/src/hazmat.cpp:344-358 | the same for the y values |
| DepthSampling.BoxMode | world_info/src/hazmat.cpp:344 | `vec_x.size() == 2` selects the box loops, any other size the point-set loops (its properties are `VisitedColumns`, `VisitedRows` and `MedianDepthSpec`) |
| DepthSampling.Range | world_info/src/hazmat.cpp:346-347 | the integers `lo .. hi - 1` a counting loop visits, in order |
| DepthSampling.Truncs | world_info/src/hazmat.cpp:357-358 | the range-for over a float vector into `int` visits each element truncated (its properties are `GridSamplesCount` and `GridSampleAt`) |
| DepthSampling.Sample | world_info/src/hazmat.cpp:348 | one sample: `0.001` times the raw depth at (row, column) (its property is `GridSampleAt`) |
| DepthSampling.InImage | world_info/src/hazmat.cpp:348 | `depth_frame.at(row, col)` is defined: the position lies inside the frame; outside it `MedianDepthSpec` is `Undefined` |
| DepthSampling.GridInImage | world_info/src/hazmat.cpp:344-365 | every visited (column, row) pair is `InImage`; when it fails `MedianDepthSpec` is `Undefined` (its properties are `GridSamplesCount` and `GridSampleAt`) |
| DepthSampling.ColumnSamples | world_info/src/hazmat.cpp:347-351 | the inner loop reads `0.001 * depth(row, col)` for each visited row, in order (its properties are `GridSamplesCount` and `GridSampleAt`) |
| DepthSampling.GridSamples | world_info/src/hazmat.cpp:344-365 | the reference sample list: for each visited column in order, the scaled depths of the visited rows (the loops are proved equal to it) |
| DepthSampling.GridSamplesCount | world_info/src/hazmat.cpp:344-365 | the loops push one sample per (column, row) pair |
| DepthSampling.GridSampleAt | world_info/src/hazmat.cpp:344-365 | sample `a * |rows| + b` is the depth at row `b`, column `a` (column-major order of the nested loops) |
| DepthSampling.BoxSampleCount | world_info/src/hazmat.cpp:344-354 | a box region yields `(ceil(x1) - trunc(x0)) * (ceil(y1) - trunc(y0))` samples, or none |
| DepthSampling.CollectBoxSamples | world_info/src/hazmat.cpp:344-354 | the box-mode loops collect exactly the grid samples of the visited columns and rows |
| DepthSampling.CollectBoxColumn | world_info/src/hazmat.cpp:347-352 | the inner box loop collects the samples of one column |
| DepthSampling.CollectPointSetSamples | world_info/src/hazmat.cpp:355-365 | the point-set loops collect exactly the grid samples of the truncated coordinates |
| DepthSampling.CollectPointSetColumn | world_info/src/hazmat.cpp:358-363 | the inner point-set loop collects the samples of one column |
| DepthSampling.Mean | world_info/src/hazmat.cpp:370-371 | the pixel anchor: the sum of the coordinates over their count |
| DepthSampling.Sum | world_info/src/hazmat.cpp:370-371 | `std::accumulate` from 0 (its property is `SumBounds`) |
| DepthSampling.SumBounds | world_info/src/hazmat.cpp:370-371 | `std::accumulate` of values in `[lo, hi]` lies in `[n * lo, n * hi]` |
| DepthSampling.MeanBounds | world_info/src/hazmat.cpp:370-371 | the pixel anchor lies between the smallest and the largest coordinate |
| DepthSampling.MeanOfPair | world_info/src/hazmat.cpp:370-371 | for a box, the anchor is the midpoint of the two coordinates |
| DepthSampling.NonEmptyLists | world_info/src/hazmat.cpp:341-376 | a sample exists only when both coordinate lists are non-empty, so the mean is defined |
| DepthSampling.BoxRegionLocated | world_info/src/hazmat.cpp:341-376 | a box inside the frame with samples is located on the ray through its centre, at the median depth of the region |
| DepthSampling.MedianDepthSpec | world_info/src/hazmat.cpp:341-376 | the reference result: `Undefined` where the C++ is undefined, else the back-projection of the mean anchor at the median of the samples |
| DepthSampling.MedianDepthXYZ | world_info/src/hazmat.cpp:341-376 | computes the back-projected median depth of the region, or `Undefined` where the C++ is undefined |
| DepthSampling.Kept | world_info/src/hazmat.cpp:385-389 | the reference filter: the input in order with every `+inf` and 0 left out |
| DepthSampling.Removed | world_info/src/hazmat.cpp:387 | the `remove_if` predicate: `+inf` or 0, not NaN and not `-inf` (its property is `KeptMembers`) |
| DepthSampling.KeptMembers | world_info/src/hazmat.cpp:385-389 | a value survives `removeInfAndZeroValues` iff it was there and is neither `+inf` nor 0; nothing is added |
| DepthSampling.KeptUnchanged | world_info/src/hazmat.cpp:385-389 | a vector without `+inf` or 0 is left unchanged |
| DepthSampling.RemoveInfAndZeroValues | world_info/src/hazmat.cpp:385-389 | erase/remove_if in place: the new prefix is the input with `+inf` and 0 removed, in order |
| Hazmat.DepthRegion | world_info/src/hazmat.cpp:242-258 | `rx`, `ry`, the rescaled box and its `vec_x`/`vec_y` region (its properties are those of `RegionOf` and `RescaleStaysInImage`) |
| Hazmat.PoseMessage | world_info/src/hazmat.cpp:274-296 | the broadcast TF carries the image stamp and the `frame_id` parameter, the class name as child frame and the translation `(z, -x, -y)`; the published `WorldInfo` carries the same header and position, the class name and type `hazmat` |
| Hazmat.LocalizeOne | world_info/src/hazmat.cpp:238-299 | the reference step of one detection: undefined for an unnamed class or an undefined median depth, abort on a NaN or infinite pose, else the pose messages |
| Hazmat.StepsAt | world_info/src/hazmat.cpp:236-300 | step `i` of the loop is the step of detection `i` |
| Hazmat.Steps | world_info/src/hazmat.cpp:236-300 | the per-detection steps of the publishing loop, one per detection (its properties are `StepsAt` and `FramePublishesPrefix`) |
| Hazmat.Run | world_info/src/hazmat.cpp:236-300 | the reference loop: publish each step's messages in order until the first abort or undefined step |
| Hazmat.PublishedPrefix | world_info/src/hazmat.cpp:236-300 | the loop publishes one message per detection for a prefix of them. It completes iff all publish, and a degenerate pose ends the callback at the first non-publishing detection |
| Hazmat.FramePublishesPrefix | world_info/src/hazmat.cpp:236-300 | the same, stated on the detections of the frame |
| Hazmat.OnCameraSpec | world_info/src/hazmat.cpp:128-305 | the reference callback: not ready without intrinsics or a depth frame, dropped on a conversion or resize failure, else the run of the surviving detections |
| Hazmat.GatedUntilReady | world_info/src/hazmat.cpp:130-150 | nothing is processed before intrinsics and a depth frame have arrived, the image converts and the resize succeeds |
| DepthSampling.IsEmpty | world_info/src/hazmat.cpp:130 | `depth_frame.empty()`: no rows or no columns; with `fx == 0` it gates the callback (its property is `GatedUntilReady`) |
| Hazmat.DegeneratePoseOnlyFromFy | world_info/src/hazmat.cpp:269-272 | past the `fx` gate, a located pose is dropped iff `fy == 0` |
| Hazmat.ZeroDepthPublishedAtOrigin | world_info/src/hazmat.cpp:269-299 | a located pose at depth 0 is published, at the origin |
| Hazmat.HazmatNode.constructor | world_info/src/hazmat.cpp:425-432 | intrinsics 0, no depth frame, `first_run` set, parameters stored |
| Hazmat.HazmatNode.OnCameraInfo | world_info/src/hazmat.cpp:333-339 | `fx, cx, fy, cy` are `k[0], k[2], k[4], k[5]` |
| Hazmat.HazmatNode.OnDepthCamera | world_info/src/hazmat.cpp:313-331 | the depth frame is replaced by the converted frame once `fx != 0`, and kept on a conversion failure |
| Hazmat.HazmatNode.OnCamera | world_info/src/hazmat.cpp:128-305 | what is published is the specification of the whole callback; `first_run` clears on the first frame processed and the set-up block runs at most once |
| Hazmat.DecodeFrame | world_info/src/hazmat.cpp:186-233 | the decode and assembly yield the surviving detections |
| Hazmat.PublishFrame | world_info/src/hazmat.cpp:236-300 | the loop's outcome is the run of the detections' steps |
| Hazmat.LocalizeDetection | world_info/src/hazmat.cpp:238-299 | the loop body computes the detection's step |
| Hazmat.RunAt | world_info/src/hazmat.cpp:269-299 | one pass of the loop: publish and go on, or stop with what was published |
| ObjectDetection.Named | world_info/src/object_detection_yolov5.cpp:263 | `class_names[classId]` is defined: the class id indexes the name list (its properties are `FirstUnnamed` and `ProcessedIffAllNamed`) |
| ObjectDetection.FirstUnnamed | world_info/src/object_detection_yolov5.cpp:250-264 | the first detection whose class id has no name; all before it have one |
| ObjectDetection.ImageBox | world_info/src/object_detection_yolov5.cpp:256-261 | the detection's box rescaled by `rx`, `ry` (defines the rescale of this node; its property is `BoxWithinImage`) |
| ObjectDetection.BoxFor | world_info/src/object_detection_yolov5.cpp:256-270 | the box message carries the class name and the confidence of its detection; `cx`/`cy` are the rescaled top-left corner (not the centre), `width`/`height` the rescaled size |
| ObjectDetection.BoxWithinImage | world_info/src/object_detection_yolov5.cpp:256-270 | a detection inside the unpadded network input gives a box message inside the image: `0 <= cx`, `cx + width <= cols`, and the same for y |
| ObjectDetection.RequestFor | world_info/src/object_detection_yolov5.cpp:273-279 | the request carries the image header and the detection's class id |
| ObjectDetection.Boxes | world_info/src/object_detection_yolov5.cpp:262-270 | the box messages of the loop, one `BoxFor` per detection in order (its properties are `OneBoxPerDetection` and `BoxWithinImage`) |
| ObjectDetection.Requests | world_info/src/object_detection_yolov5.cpp:273-279 | the depth requests of the loop, one `RequestFor` per detection in order (its properties are `SentRequestsAreNamed` and `RequestCoversBox`) |
| ObjectDetection.AnnotateSpec | world_info/src/object_detection_yolov5.cpp:250-323 | the reference loop: undefined after the requests before the first unnamed class, else the box array and the requests sent |
| ObjectDetection.OnCameraSpec | world_info/src/object_detection_yolov5.cpp:140-329 | the reference callback: dropped on a conversion or resize failure, else the annotation of the surviving detections |
| ObjectDetection.Sent | world_info/src/object_detection_yolov5.cpp:284-285 | the requests of the detections, sent only when `pub_tf2` is set (its property is `OneBoxPerDetection`) |
| ObjectDetection.OneBoxPerDetection | world_info/src/object_detection_yolov5.cpp:245-324 | a processed frame has one box per detection, whether or not `pub_tf2` is set. Requests are sent one per detection with `pub_tf2`, and none without |
| ObjectDetection.ProcessedIffAllNamed | world_info/src/object_detection_yolov5.cpp:250-264 | the frame is processed iff every class id has a name; otherwise only the requests before the first unnamed detection are sent |
| ObjectDetection.SentRequestsAreNamed | world_info/src/object_detection_yolov5.cpp:284-300 | every request sent has a class id the response callback can look up |
| ObjectDetection.RequestCoversBox | world_info/src/object_detection_yolov5.cpp:258-279 | the request's region starts at the published box corner; its far corner is the box's far corner or the last column/row, whichever is smaller |
| ObjectDetection.FrameIdFor | world_info/src/object_detection_yolov5.cpp:297 | the TF frame is `camera_frame_id`, or the image's frame when that is empty |
| ObjectDetection.OnDepthResponse | world_info/src/object_detection_yolov5.cpp:286-319 | a response publishes iff it has no NaN, no infinity and is not all zero. The TF carries `(z, -x, -y)`, the class name as child frame and the chosen frame id. The `WorldInfo` carries the same position, the stamp and `model_name` |
| ObjectDetection.ResponseTranslationInvertible | world_info/src/object_detection_yolov5.cpp:301-303 | the published translation determines the point the depth service returned |
| ObjectDetection.DetectObject.constructor | world_info/src/object_detection_yolov5.cpp:83-125 | parameters stored, `first_run` set, and `model_name` empty |
| ObjectDetection.DetectObject.OnCamera | world_info/src/object_detection_yolov5.cpp:140-329 | what is published and sent is the specification of the whole callback; `first_run` clears on the first frame whose resize succeeds |
| ObjectDetection.Annotate | world_info/src/object_detection_yolov5.cpp:250-323 | the per-detection loop produces the boxes and requests of its specification |

## Left out

- Network inference (OpenVINO model loading, pre/post-processing set-up, `infer`): the output tensor is an input of `OnCamera`, and the set-up block is a ghost counter.
- `cv::dnn::NMSBoxes`: library code not modelled, and with it `NMS_THRESHOLD` (0.4), which only it reads; its kept indices are a parameter, required to index the decoded vectors.
- `Decoder.WellShaped`: requires at least one class score per record (stride above 5). A model with no classes would hand `cv::minMaxLoc` an empty score row, whose result is not modelled.
- Pixel work of `cv::resize`/`cv::copyMakeBorder`, `cv::rectangle`, `cv::putText`, and `cv_bridge` conversion: only sizes, and success or failure, are modelled (a failed conversion is `None`).
- ROS I/O (subscriptions, publishers, the TF broadcaster, QoS, logging), parameter declaration and the parameters' default values, YAML parsing of class names, `main`: the published messages are return values, parameters and class names are constructor arguments.
- `DetectObject`'s wait for the depth service and the asynchronous request/response: a request is a value; its response is handled by `OnDepthResponse` for any returned point.
- `Letterbox.ResizeAndPad`: a 0 x 0 image is modelled as the `cv::resize` exception (`ResizeError`). In the C++, `r` is then `640 / 0.0 = +inf`, `width * r` is `0 * inf = NaN`, and `int(round(NaN))` is undefined before `cv::resize` is reached.
- `Numeric.Trunc`, `Numeric.Round`: their results are unbounded integers, so every float-to-`int` conversion is assumed to fit in a 32-bit `int`. This covers `new_unpadW`/`new_unpadH` (`hazmat.cpp:52-53`), the `cv::Rect` corners (`hazmat.cpp:217`), the rescaled box (`hazmat.cpp:244-247`, `object_detection_yolov5.cpp:258-261`) and the sampling loop bounds (`hazmat.cpp:346-358`). Where a converted value lies outside the `int` range, the C++ conversion is undefined and the model does not capture it.
- Concurrency between callbacks: each callback is one atomic method call.
- IEEE rounding of single-precision arithmetic, signed zero, and NaN or infinity inside the depth frame: depth samples are finite reals.
- `MedianSelect.NthElement`: a partial selection sort stands in for introselect; the contract is that of `std::nth_element`.
- `MedianSelect.FindMedian`: requires a non-empty vector; the empty case is undefined in the C++ and is the `Undefined` outcome of `DepthSampling.MedianDepthSpec`.
- The TF rotation (left at identity by both nodes) and the `WorldInfo` orientation are not modelled.
- The bounding-box logging in the hazmat node (`hazmat.cpp:248-253`) is modelled only for its class-name lookup.
