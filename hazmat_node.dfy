/** The hazmat detection node (`DetectHazmat`): its gating state across the
    three callbacks and the localisation of every surviving detection in a
    colour frame. */
module Hazmat {
  import opened Numeric
  import opened Messages
  import opened Letterbox
  import opened Decoder
  import opened Backprojection
  import opened MedianSelect
  import opened DepthSampling

  /** `class_names`, indexed by class id. */
  const ClassNames: seq<string> := [
    "poison", "oxygen", "flammable", "flammable-solid", "corrosive", "dangerous",
    "non-flammable-gas", "organic-peroxide", "explosive", "radioactive",
    "inhalation-hazard", "spontaneously-combustible", "infectious-substance"]

  /** The `type` field of every published `WorldInfo`. */
  const Kind: string := "hazmat"

  /** What one colour frame provides to the per-detection loop. */
  datatype FrameContext = FrameContext(img: ImageMsg, resize: Resize, depth: DepthImage, k: Intrinsics, frameId: string)

  predicate ValidContext(ctx: FrameContext)
  {
    ctx.resize.newUnpadW > 0 && ctx.resize.newUnpadH > 0
  }

  /** One pass of the per-detection loop: publish a pose, end the whole
      callback (`return` on a NaN or infinite pose), or undefined behaviour
      (a class id past `class_names`, or `median_depth_xyz` undefined). */
  datatype Step = StepPublish(pose: PosePublication) | StepAbort | StepUndefined

  /** The rescaled box and the depth region the loop builds for a detection. */
  function DepthRegion(ctx: FrameContext, det: Detection): Region
    requires ValidContext(ctx)
  {
    var rx := InverseX(ctx.img.cols, ctx.resize);
    var ry := InverseY(ctx.img.rows, ctx.resize);
    RegionOf(Rescale(det.box, rx, ry), ctx.img.cols, ctx.img.rows)
  }

  /** The TF message and the `WorldInfo` sent for a pose that passed the
      guard: both carry the image stamp, the `frame_id` parameter, the class
      name and the translation `(z, -x, -y)`. */
  function PoseMessage(ctx: FrameContext, classId: nat, p: Point3): (m: PosePublication)
    requires classId < |ClassNames| && !NonFinite(p)
    ensures m.tf.x == p.z.v && m.tf.y == -p.x.v && m.tf.z == -p.y.v
    ensures m.tf.header == Header(ctx.img.header.stamp, ctx.frameId)
    ensures m.tf.childFrameId == ClassNames[classId]
    ensures m.info.x == m.tf.x && m.info.y == m.tf.y && m.info.z == m.tf.z
    ensures m.info.header == m.tf.header
    ensures m.info.num == ClassNames[classId] && m.info.kind == Kind
  {
    var q := ToOutputFrame(p);
    var header := Header(ctx.img.header.stamp, ctx.frameId);
    var tf := TransformStamped(header, ClassNames[classId], q.x.v, q.y.v, q.z.v);
    PosePublication(tf, WorldInfo(header, ClassNames[classId], tf.x, tf.y, tf.z, Kind))
  }

  function LocalizeOne(ctx: FrameContext, det: Detection): Step
    requires ValidContext(ctx)
  {
    if det.classId >= |ClassNames| then StepUndefined
    else
      var region := DepthRegion(ctx, det);
      match MedianDepthSpec(ctx.depth, region.xs, region.ys, ctx.k)
      case Undefined => StepUndefined
      case Located(p) => if NonFinite(p) then StepAbort else StepPublish(PoseMessage(ctx, det.classId, p))
  }

  /** The outcome of `onCamera`. The frame is ignored while the node waits
      for intrinsics or a depth frame, dropped on a `cv_bridge` failure or a
      `cv::Exception` from `resize_and_pad`; otherwise the loop publishes a
      prefix of the detections and ends normally, on a degenerate pose, or
      in undefined behaviour. */
  datatype FrameOutcome =
    | NotReady
    | ConversionFailed
    | ResizeFailed
    | Completed(published: seq<PosePublication>)
    | Aborted(published: seq<PosePublication>)
    | UndefinedBehaviour(published: seq<PosePublication>)

  predicate Processed(o: FrameOutcome)
  {
    o.Completed? || o.Aborted? || o.UndefinedBehaviour?
  }

  /** `ws` published before the outcome `o` of the rest of the loop. */
  function Prepend(ws: seq<PosePublication>, o: FrameOutcome): FrameOutcome
  {
    match o
    case Completed(p) => Completed(ws + p)
    case Aborted(p) => Aborted(ws + p)
    case UndefinedBehaviour(p) => UndefinedBehaviour(ws + p)
    case _ => o
  }

  /** The step of each detection, in order. */
  function Steps(ctx: FrameContext, dets: seq<Detection>): (steps: seq<Step>)
    requires ValidContext(ctx)
    ensures |steps| == |dets|
  {
    if dets == [] then [] else [LocalizeOne(ctx, dets[0])] + Steps(ctx, dets[1..])
  }

  lemma {:induction false} StepsAt(ctx: FrameContext, dets: seq<Detection>, i: nat)
    requires ValidContext(ctx) && i < |dets|
    ensures Steps(ctx, dets)[i] == LocalizeOne(ctx, dets[i])
  {
    if i > 0 {
      StepsAt(ctx, dets[1..], i - 1);
    }
  }

  /** The per-detection loop over the steps of a frame, in order. */
  function Run(steps: seq<Step>): (o: FrameOutcome)
    ensures Processed(o)
  {
    if steps == [] then Completed([])
    else
      match steps[0]
      case StepUndefined => UndefinedBehaviour([])
      case StepAbort => Aborted([])
      case StepPublish(w) => Prepend([w], Run(steps[1..]))
  }

  /** The poses published for a frame are those of its first detections, one
      each, up to the first that does not publish; a degenerate pose stops the
      loop, so no later detection of the frame is published. */
  lemma {:induction false} PublishedPrefix(steps: seq<Step>)
    ensures var o := Run(steps);
            && |o.published| <= |steps|
            && (forall j :: 0 <= j < |o.published| ==> steps[j] == StepPublish(o.published[j]))
            && (o.Completed? <==> |o.published| == |steps|)
            && (o.Aborted? ==> steps[|o.published|].StepAbort?)
            && (o.UndefinedBehaviour? ==> steps[|o.published|].StepUndefined?)
  {
    if steps != [] {
      PublishedPrefix(steps[1..]);
      if steps[0].StepPublish? {
        var o := Run(steps);
        var rest := Run(steps[1..]);
        assert o.published == [steps[0].pose] + rest.published;
        forall j | 0 <= j < |o.published|
          ensures steps[j] == StepPublish(o.published[j])
        {
          if j > 0 {
            assert steps[j] == steps[1..][j - 1];
          }
        }
      }
    }
  }

  /** The same, stated on the detections of a frame. */
  lemma FramePublishesPrefix(ctx: FrameContext, dets: seq<Detection>)
    requires ValidContext(ctx)
    ensures var o := Run(Steps(ctx, dets));
            && |o.published| <= |dets|
            && (forall j :: 0 <= j < |o.published| ==> LocalizeOne(ctx, dets[j]) == StepPublish(o.published[j]))
            && (o.Completed? <==> |o.published| == |dets|)
            && (o.Aborted? ==> LocalizeOne(ctx, dets[|o.published|]).StepAbort?)
            && (o.UndefinedBehaviour? ==> LocalizeOne(ctx, dets[|o.published|]).StepUndefined?)
  {
    var steps := Steps(ctx, dets);
    var o := Run(steps);
    PublishedPrefix(steps);
    forall j | 0 <= j < |o.published|
      ensures LocalizeOne(ctx, dets[j]) == StepPublish(o.published[j])
    {
      StepsAt(ctx, dets, j);
    }
    if !o.Completed? {
      StepsAt(ctx, dets, |o.published|);
    }
  }

  /** Everything the node publishes for a colour frame. */
  function OnCameraSpec(fx: real, fy: real, cx: real, cy: real, depth: DepthImage,
                        threshold: real, frameId: string,
                        msg: Option<ImageMsg>, tensor: seq<seq<real>>, stride: nat, nms: seq<nat>): FrameOutcome
    requires WellShaped(tensor, stride)
    requires forall k :: 0 <= k < |nms| ==> nms[k] < |KeptIndices(tensor, stride, threshold, |tensor|)|
  {
    if fx == 0.0 || IsEmpty(depth) then NotReady
    else if msg.None? then ConversionFailed
    else
      match ResizeAndPad(msg.value.cols, msg.value.rows, Size(TargetSide, TargetSide))
      case ResizeError => ResizeFailed
      case Resized(z) =>
        var ctx := FrameContext(msg.value, z, depth, Intrinsics(fx, fy, cx, cy), frameId);
        Run(Steps(ctx, SurvivingDetections(tensor, stride, threshold, nms)))
  }

  /** While no intrinsics have arrived, or no depth frame has been stored, a
      colour frame changes nothing and publishes nothing. */
  lemma GatedUntilReady(fx: real, fy: real, cx: real, cy: real, depth: DepthImage,
                        threshold: real, frameId: string,
                        msg: Option<ImageMsg>, tensor: seq<seq<real>>, stride: nat, nms: seq<nat>)
    requires WellShaped(tensor, stride)
    requires forall k :: 0 <= k < |nms| ==> nms[k] < |KeptIndices(tensor, stride, threshold, |tensor|)|
    ensures Processed(OnCameraSpec(fx, fy, cx, cy, depth, threshold, frameId, msg, tensor, stride, nms))
            ==> fx != 0.0 && !IsEmpty(depth) && msg.Some?
                && ResizeAndPad(msg.value.cols, msg.value.rows, Size(TargetSide, TargetSide)).Resized?
  {
  }

  /** With a non-zero `fx` (the gate), a finite pose is lost only to a zero
      `fy`: every located pose of a frame is published unless `fy == 0`. */
  lemma DegeneratePoseOnlyFromFy(ctx: FrameContext, det: Detection)
    requires ValidContext(ctx) && ctx.k.fx != 0.0
    ensures LocalizeOne(ctx, det).StepAbort? <==>
            det.classId < |ClassNames| && ctx.k.fy == 0.0 &&
            MedianDepthSpec(ctx.depth, DepthRegion(ctx, det).xs, DepthRegion(ctx, det).ys, ctx.k).Located?
  {
    var region := DepthRegion(ctx, det);
    var r := MedianDepthSpec(ctx.depth, region.xs, region.ys, ctx.k);
    if det.classId < |ClassNames| && r.Located? {
      var s := GridSamples(ctx.depth, VisitedColumns(region.xs), VisitedRows(region.xs, region.ys));
      NonEmptyLists(ctx.depth, region.xs, region.ys);
      NonFiniteIffZeroFocal(Mean(region.xs), Mean(region.ys), Median(s), ctx.k);
    }
  }

  /** Unlike the yolov5 node, this node has no all-zero test: a region whose
      median depth is 0 is published at the origin. */
  lemma ZeroDepthPublishedAtOrigin(ctx: FrameContext, det: Detection)
    requires ValidContext(ctx) && ctx.k.fx != 0.0 && ctx.k.fy != 0.0 && det.classId < |ClassNames|
    requires var r := MedianDepthSpec(ctx.depth, DepthRegion(ctx, det).xs, DepthRegion(ctx, det).ys, ctx.k);
             r.Located? && r.p.z == Fin(0.0)
    ensures LocalizeOne(ctx, det).StepPublish?
    ensures var m := LocalizeOne(ctx, det).pose;
            m.tf.x == 0.0 && m.tf.y == 0.0 && m.tf.z == 0.0 && m.info.x == 0.0 && m.info.y == 0.0 && m.info.z == 0.0
  {
    var region := DepthRegion(ctx, det);
    var r := MedianDepthSpec(ctx.depth, region.xs, region.ys, ctx.k);
    var s := GridSamples(ctx.depth, VisitedColumns(region.xs), VisitedRows(region.xs, region.ys));
    NonEmptyLists(ctx.depth, region.xs, region.ys);
    assert r.p == PixelToPoint(Mean(region.xs), Mean(region.ys), 0.0, ctx.k);
    ZeroDepthAtOrigin(Mean(region.xs), Mean(region.ys), ctx.k);
    assert !NonFinite(r.p);
  }

  class HazmatNode {
    /** The intrinsics, 0 until the first `CameraInfo`. */
    var fx: real
    var fy: real
    var cx: real
    var cy: real
    /** The last converted depth frame, empty until the first one. */
    var depthFrame: DepthImage
    /** True until the model set-up block has run. */
    var firstRun: bool
    /** The `hazmat_confidence_threshold` and `frame_id` parameters. */
    var confidenceThreshold: real
    var frameId: string
    /** How often the model set-up block has run. */
    ghost var setupRuns: nat

    ghost predicate Valid()
      reads this
    {
      setupRuns == if firstRun then 0 else 1
    }

    constructor (confidenceThreshold: real, frameId: string)
      ensures Valid()
      ensures fx == 0.0 && fy == 0.0 && cx == 0.0 && cy == 0.0
      ensures depthFrame == [] && firstRun
      ensures this.confidenceThreshold == confidenceThreshold && this.frameId == frameId
    {
      fx, fy, cx, cy := 0.0, 0.0, 0.0, 0.0;
      depthFrame := [];
      firstRun := true;
      this.confidenceThreshold := confidenceThreshold;
      this.frameId := frameId;
      setupRuns := 0;
    }

    /** `onCameraInfo`: the focal lengths and the principal point from the
        row-major 3x3 matrix `k`. */
    method OnCameraInfo(k: seq<real>)
      requires |k| == 9
      modifies this`fx, this`fy, this`cx, this`cy
      ensures fx == k[0] && cx == k[2] && fy == k[4] && cy == k[5]
    {
      fx := k[0];
      cx := k[2];
      fy := k[4];
      cy := k[5];
    }

    /** `onDepthCamera`: the frame is stored once intrinsics have arrived;
        `None` is a frame `cv_bridge` could not convert. */
    method OnDepthCamera(msg: Option<DepthImage>)
      modifies this`depthFrame
      ensures depthFrame == if fx == 0.0 || msg.None? then old(depthFrame) else msg.value
    {
      if fx == 0.0 {
        return;
      }
      if msg.Some? {
        depthFrame := msg.value;
      }
    }

    /** `onCamera`. `msg` is the converted frame (`None` on a `cv_bridge`
        failure), `tensor` and `stride` the network's output for it and `nms`
        the indices `cv::dnn::NMSBoxes` keeps. The model set-up block runs on
        the first frame that gets past the gate, the conversion and the resize,
        and never again. */
    method OnCamera(msg: Option<ImageMsg>, tensor: seq<seq<real>>, stride: nat, nms: seq<nat>)
      returns (outcome: FrameOutcome)
      requires Valid()
      requires WellShaped(tensor, stride)
      requires forall k :: 0 <= k < |nms| ==> nms[k] < |KeptIndices(tensor, stride, confidenceThreshold, |tensor|)|
      modifies this`firstRun, this`setupRuns
      ensures Valid()
      ensures outcome == OnCameraSpec(fx, fy, cx, cy, depthFrame, confidenceThreshold, frameId, msg, tensor, stride, nms)
      ensures firstRun == (old(firstRun) && !Processed(outcome))
    {
      if fx == 0.0 || IsEmpty(depthFrame) {
        return NotReady;
      }
      if msg.None? {
        return ConversionFailed;
      }
      var img := msg.value;
      var res := ResizeAndPad(img.cols, img.rows, Size(TargetSide, TargetSide));
      if res.ResizeError? {
        return ResizeFailed;
      }
      if firstRun {
        firstRun := false;
        setupRuns := setupRuns + 1;
      }
      var output := DecodeFrame(tensor, stride, confidenceThreshold, nms);
      var ctx := FrameContext(img, res.resize, depthFrame, Intrinsics(fx, fy, cx, cy), frameId);
      outcome := PublishFrame(ctx, output);
    }
  }

  /** The detections of a frame: decode, then keep what `NMSBoxes` keeps. */
  method DecodeFrame(tensor: seq<seq<real>>, stride: nat, threshold: real, nms: seq<nat>)
    returns (output: seq<Detection>)
    requires WellShaped(tensor, stride)
    requires forall k :: 0 <= k < |nms| ==> nms[k] < |KeptIndices(tensor, stride, threshold, |tensor|)|
    ensures output == SurvivingDetections(tensor, stride, threshold, nms)
  {
    var boxes, classIds, confidences := DecodeRecords(tensor, stride, threshold);
    output := AssembleDetections(boxes, classIds, confidences, nms);
  }

  /** The per-detection loop of `onCamera`. */
  method PublishFrame(ctx: FrameContext, output: seq<Detection>) returns (outcome: FrameOutcome)
    requires ValidContext(ctx)
    ensures outcome == Run(Steps(ctx, output))
  {
    ghost var steps := Steps(ctx, output);
    var published: seq<PosePublication> := [];
    var i := 0;
    while i < |output|
      invariant i <= |steps|
      invariant Run(steps) == Prepend(published, Run(steps[i..]))
    {
      var step := LocalizeDetection(ctx, output, i);
      RunAt(steps, i, published);
      if step.StepUndefined? {
        return UndefinedBehaviour(published);
      } else if step.StepAbort? {
        return Aborted(published);
      }
      published := published + [step.pose];
      i := i + 1;
    }
    RunAtEnd(steps, published);
    outcome := Completed(published);
  }

  /** The body of the per-detection loop: rescale, region, median depth,
      guard, message. */
  method LocalizeDetection(ctx: FrameContext, dets: seq<Detection>, i: nat) returns (step: Step)
    requires ValidContext(ctx) && i < |dets|
    ensures step == Steps(ctx, dets)[i]
  {
    StepsAt(ctx, dets, i);
    var det := dets[i];
    if det.classId >= |ClassNames| {
      return StepUndefined;
    }
    var rx := InverseX(ctx.img.cols, ctx.resize);
    var ry := InverseY(ctx.img.rows, ctx.resize);
    var box := Rescale(det.box, rx, ry);
    var region := RegionOf(box, ctx.img.cols, ctx.img.rows);
    var pose := MedianDepthXYZ(ctx.depth, region.xs, region.ys, ctx.k);
    if pose.Undefined? {
      return StepUndefined;
    }
    if AnyNaN(pose.p) {
      return StepAbort;
    }
    if AnyInf(pose.p) {
      return StepAbort;
    }
    step := StepPublish(PoseMessage(ctx, det.classId, pose.p));
  }

  /** One pass of the loop of `PublishFrame`, on any sequence of steps. */
  lemma RunAt(steps: seq<Step>, i: nat, published: seq<PosePublication>)
    requires i < |steps| && Run(steps) == Prepend(published, Run(steps[i..]))
    ensures steps[i].StepUndefined? ==> Run(steps) == UndefinedBehaviour(published)
    ensures steps[i].StepAbort? ==> Run(steps) == Aborted(published)
    ensures steps[i].StepPublish? ==> Run(steps) == Prepend(published + [steps[i].pose], Run(steps[i + 1..]))
  {
    var rest := steps[i..];
    assert rest[0] == steps[i] && rest[1..] == steps[i + 1..];
    match steps[i]
    case StepUndefined =>
      assert Run(rest) == UndefinedBehaviour([]);
      assert published + [] == published;
    case StepAbort =>
      assert Run(rest) == Aborted([]);
      assert published + [] == published;
    case StepPublish(w) =>
      assert Run(rest) == Prepend([w], Run(steps[i + 1..]));
      PrependTwice(published, [w], Run(steps[i + 1..]));
  }

  lemma RunAtEnd(steps: seq<Step>, published: seq<PosePublication>)
    requires Run(steps) == Prepend(published, Run(steps[|steps|..]))
    ensures Run(steps) == Completed(published)
  {
    assert steps[|steps|..] == [];
  }

  lemma PrependTwice(a: seq<PosePublication>, b: seq<PosePublication>, o: FrameOutcome)
    ensures Prepend(a, Prepend(b, o)) == Prepend(a + b, o)
  {
    match o
    case Completed(p) => assert a + (b + p) == (a + b) + p;
    case Aborted(p) => assert a + (b + p) == (a + b) + p;
    case UndefinedBehaviour(p) => assert a + (b + p) == (a + b) + p;
    case _ =>
  }
}
