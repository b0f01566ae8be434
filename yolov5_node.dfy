/** The generic object detection node (`DetectObject`): one bounding box per
    surviving detection, a median-depth request per box when TF publishing is
    on, and the pose published for each accepted depth response. */
module ObjectDetection {
  import opened Numeric
  import opened Messages
  import opened Letterbox
  import opened Decoder
  import opened Backprojection

  /** A `BoundingBox` message: `cx`/`cy` carry the rescaled top-left corner. */
  datatype BoundingBox = BoundingBox(name: string, confidence: real, cx: real, cy: real, width: real, height: real)

  /** A `BoundingBoxArray` message; `kind` is its `type` field. */
  datatype BoundingBoxArray = BoundingBoxArray(kind: string, boxes: seq<BoundingBox>)

  /** A `GetMedianDepthXYZ` request, with the class id its response callback
      captures. */
  datatype DepthRequest = DepthRequest(header: Header, region: Region, classId: nat)

  /** The outcome of `onCamera`: dropped on a `cv_bridge` failure or a
      `cv::Exception` from `resize_and_pad`; undefined behaviour once a class
      id lies past `class_names`, after the requests already sent; otherwise
      the box array and the requests sent. */
  datatype FrameOutcome =
    | ConversionFailed
    | ResizeFailed
    | UndefinedBehaviour(sent: seq<DepthRequest>)
    | Processed(bbArray: BoundingBoxArray, sent: seq<DepthRequest>)

  predicate Named(names: seq<string>, det: Detection)
  {
    det.classId < |names|
  }

  /** The index of the first detection without a class name, or `|dets|`. */
  function FirstUnnamed(names: seq<string>, dets: seq<Detection>): (i: nat)
    ensures i <= |dets|
    ensures forall k :: 0 <= k < i ==> Named(names, dets[k])
    ensures i < |dets| ==> !Named(names, dets[i])
  {
    if dets == [] || !Named(names, dets[0]) then 0
    else 1 + FirstUnnamed(names, dets[1..])
  }

  /** The detection's box scaled back to the source image. */
  function ImageBox(img: ImageMsg, z: Resize, det: Detection): Rect
    requires z.newUnpadW > 0 && z.newUnpadH > 0
  {
    Rescale(det.box, InverseX(img.cols, z), InverseY(img.rows, z))
  }

  /** The `BoundingBox` message of a named detection. */
  function BoxFor(names: seq<string>, img: ImageMsg, z: Resize, det: Detection): (bb: BoundingBox)
    requires z.newUnpadW > 0 && z.newUnpadH > 0 && Named(names, det)
    ensures bb.name == names[det.classId] && bb.confidence == det.confidence
    ensures var b := ImageBox(img, z, det);
            && bb.cx == b.x as real && bb.cy == b.y as real
            && bb.width == b.width as real && bb.height == b.height as real
  {
    var b := ImageBox(img, z, det);
    BoundingBox(names[det.classId], det.confidence, b.x as real, b.y as real, b.width as real, b.height as real)
  }

  /** A detection inside the unpadded network input gives a box message
      inside the image: its top-left corner `(cx, cy)` and its far corner lie
      within `cols` x `rows`. */
  lemma BoxWithinImage(names: seq<string>, img: ImageMsg, z: Resize, det: Detection)
    requires z.newUnpadW > 0 && z.newUnpadH > 0 && Named(names, det)
    requires 0 <= det.box.x && 0 <= det.box.width && det.box.x + det.box.width <= z.newUnpadW
    requires 0 <= det.box.y && 0 <= det.box.height && det.box.y + det.box.height <= z.newUnpadH
    ensures var bb := BoxFor(names, img, z, det);
            && 0.0 <= bb.cx && 0.0 <= bb.width && bb.cx + bb.width <= img.cols as real
            && 0.0 <= bb.cy && 0.0 <= bb.height && bb.cy + bb.height <= img.rows as real
  {
    RescaleStaysInImage(det.box, img.cols, img.rows, z.newUnpadW, z.newUnpadH,
                        InverseX(img.cols, z), InverseY(img.rows, z));
  }

  /** The depth request of a detection: the image's header and the box,
      its far corner clamped to the last column and row. */
  function RequestFor(img: ImageMsg, z: Resize, det: Detection): (rq: DepthRequest)
    requires z.newUnpadW > 0 && z.newUnpadH > 0
    ensures rq.header == img.header && rq.classId == det.classId
  {
    DepthRequest(img.header, RegionOf(ImageBox(img, z, det), img.cols, img.rows), det.classId)
  }

  function Boxes(names: seq<string>, img: ImageMsg, z: Resize, dets: seq<Detection>): seq<BoundingBox>
    requires z.newUnpadW > 0 && z.newUnpadH > 0
    requires forall k :: 0 <= k < |dets| ==> Named(names, dets[k])
  {
    seq(|dets|, k requires 0 <= k < |dets| => BoxFor(names, img, z, dets[k]))
  }

  function Requests(img: ImageMsg, z: Resize, dets: seq<Detection>): seq<DepthRequest>
    requires z.newUnpadW > 0 && z.newUnpadH > 0
  {
    seq(|dets|, k requires 0 <= k < |dets| => RequestFor(img, z, dets[k]))
  }

  /** The requests of `dets` the node sends: all of them with `pub_tf2`,
      none without. */
  function Sent(pubTf2: bool, img: ImageMsg, z: Resize, dets: seq<Detection>): seq<DepthRequest>
    requires z.newUnpadW > 0 && z.newUnpadH > 0
  {
    if pubTf2 then Requests(img, z, dets) else []
  }

  /** The per-detection loop of `onCamera` over `dets`. */
  function AnnotateSpec(names: seq<string>, modelName: string, pubTf2: bool,
                        img: ImageMsg, z: Resize, dets: seq<Detection>): FrameOutcome
    requires z.newUnpadW > 0 && z.newUnpadH > 0
  {
    var i := FirstUnnamed(names, dets);
    if i < |dets| then UndefinedBehaviour(Sent(pubTf2, img, z, dets[..i]))
    else Processed(BoundingBoxArray(modelName, Boxes(names, img, z, dets)), Sent(pubTf2, img, z, dets))
  }

  /** Everything `onCamera` publishes and sends for a colour frame. */
  function OnCameraSpec(names: seq<string>, modelName: string, pubTf2: bool, threshold: real,
                        msg: Option<ImageMsg>, tensor: seq<seq<real>>, stride: nat, nms: seq<nat>): FrameOutcome
    requires WellShaped(tensor, stride)
    requires forall k :: 0 <= k < |nms| ==> nms[k] < |KeptIndices(tensor, stride, threshold, |tensor|)|
  {
    if msg.None? then ConversionFailed
    else
      match ResizeAndPad(msg.value.cols, msg.value.rows, Size(TargetSide, TargetSide))
      case ResizeError => ResizeFailed
      case Resized(z) =>
        AnnotateSpec(names, modelName, pubTf2, msg.value, z, SurvivingDetections(tensor, stride, threshold, nms))
  }

  /** A processed frame has one box per detection, named after its class, and
      the same boxes whether or not TF publishing is on; requests are sent,
      one per detection, exactly when it is on. */
  lemma OneBoxPerDetection(names: seq<string>, modelName: string, img: ImageMsg, z: Resize, dets: seq<Detection>)
    requires z.newUnpadW > 0 && z.newUnpadH > 0
    ensures var on := AnnotateSpec(names, modelName, true, img, z, dets);
            var off := AnnotateSpec(names, modelName, false, img, z, dets);
            && on.Processed? == off.Processed?
            && (on.Processed? ==>
                 && on.bbArray == off.bbArray
                 && on.bbArray.kind == modelName
                 && |on.bbArray.boxes| == |dets| && |on.sent| == |dets| && off.sent == []
                 && forall k :: 0 <= k < |dets| ==>
                      on.bbArray.boxes[k].name == names[dets[k].classId] &&
                      on.bbArray.boxes[k].confidence == dets[k].confidence &&
                      on.sent[k].classId == dets[k].classId)
  {
  }

  /** The frame is processed exactly when every class id has a name; else
      the requests sent are those of the detections before the first
      unnamed one. */
  lemma ProcessedIffAllNamed(names: seq<string>, modelName: string, pubTf2: bool,
                             img: ImageMsg, z: Resize, dets: seq<Detection>)
    requires z.newUnpadW > 0 && z.newUnpadH > 0
    ensures AnnotateSpec(names, modelName, pubTf2, img, z, dets).Processed?
            <==> forall k :: 0 <= k < |dets| ==> Named(names, dets[k])
    ensures var o := AnnotateSpec(names, modelName, pubTf2, img, z, dets);
            o.UndefinedBehaviour? ==>
              exists i :: 0 <= i < |dets| && !Named(names, dets[i]) &&
                          o.sent == Sent(pubTf2, img, z, dets[..i]) &&
                          forall k :: 0 <= k < i ==> Named(names, dets[k])
  {
    var i := FirstUnnamed(names, dets);
    if i < |dets| {
      assert !Named(names, dets[i]);
    }
  }

  /** Every request sent names a class, so its response callback can look
      up `class_names[classId]`. */
  lemma SentRequestsAreNamed(names: seq<string>, modelName: string, pubTf2: bool,
                             img: ImageMsg, z: Resize, dets: seq<Detection>)
    requires z.newUnpadW > 0 && z.newUnpadH > 0
    ensures var o := AnnotateSpec(names, modelName, pubTf2, img, z, dets);
            (o.Processed? || o.UndefinedBehaviour?) ==>
              forall k :: 0 <= k < |o.sent| ==> o.sent[k].classId < |names|
  {
    var i := FirstUnnamed(names, dets);
    var o := AnnotateSpec(names, modelName, pubTf2, img, z, dets);
    forall k | 0 <= k < |o.sent|
      ensures o.sent[k].classId < |names|
    {
      assert o.sent[k].classId == dets[k].classId;
    }
  }

  /** The request of a detection covers its published box: same top-left
      corner, far corner at the box's or clamped to the image. */
  lemma RequestCoversBox(names: seq<string>, img: ImageMsg, z: Resize, det: Detection)
    requires z.newUnpadW > 0 && z.newUnpadH > 0 && Named(names, det)
    ensures var bb := BoxFor(names, img, z, det);
            var g := RequestFor(img, z, det).region;
            && g.xs[0] == bb.cx && g.ys[0] == bb.cy
            && g.xs[1] <= bb.cx + bb.width && g.ys[1] <= bb.cy + bb.height
            && g.xs[1] <= (img.cols - 1) as real && g.ys[1] <= (img.rows - 1) as real
            && (g.xs[1] == bb.cx + bb.width || g.xs[1] == (img.cols - 1) as real)
            && (g.ys[1] == bb.cy + bb.height || g.ys[1] == (img.rows - 1) as real)
  {
  }

  /** The TF header's frame: the `camera_frame_id` parameter, or the image's
      own frame when the parameter is empty. */
  function FrameIdFor(cameraFrameId: string, imageFrameId: string): (f: string)
    ensures cameraFrameId != "" ==> f == cameraFrameId
    ensures cameraFrameId == "" ==> f == imageFrameId
    ensures f == "" <==> cameraFrameId == "" && imageFrameId == ""
  {
    if cameraFrameId == "" then imageFrameId else cameraFrameId
  }

  /** The response callback of a request: nothing for a point with a NaN or
      infinite component or at the origin; otherwise the TF message and the
      `WorldInfo`, both carrying `(z, -x, -y)`. The `WorldInfo` header gets
      only the stamp. */
  function OnDepthResponse(names: seq<string>, modelName: string, cameraFrameId: string,
                           rq: DepthRequest, p: Point3): (r: Option<PosePublication>)
    requires rq.classId < |names|
    ensures r.Some? <==> ResponseAccepted(p)
    ensures r.Some? ==>
      && r.value.tf.header == Header(rq.header.stamp, FrameIdFor(cameraFrameId, rq.header.frameId))
      && r.value.tf.childFrameId == names[rq.classId]
      && r.value.tf.x == p.z.v && r.value.tf.y == -p.x.v && r.value.tf.z == -p.y.v
      && r.value.info == WorldInfo(Header(rq.header.stamp, ""), names[rq.classId],
                                   r.value.tf.x, r.value.tf.y, r.value.tf.z, modelName)
  {
    if AnyNaN(p) || AnyInf(p) || AllZero(p) then None
    else
      var q := ToOutputFrame(p);
      var tf := TransformStamped(Header(rq.header.stamp, FrameIdFor(cameraFrameId, rq.header.frameId)),
                                 names[rq.classId], q.x.v, q.y.v, q.z.v);
      Some(PosePublication(tf, WorldInfo(Header(rq.header.stamp, ""), names[rq.classId], tf.x, tf.y, tf.z, modelName)))
  }

  /** The published translation determines the camera-frame point the depth
      service returned. */
  lemma ResponseTranslationInvertible(names: seq<string>, modelName: string, cameraFrameId: string,
                                      rq: DepthRequest, p: Point3)
    requires rq.classId < |names|
    requires OnDepthResponse(names, modelName, cameraFrameId, rq, p).Some?
    ensures var tf := OnDepthResponse(names, modelName, cameraFrameId, rq, p).value.tf;
            p == Point3(Fin(-tf.y), Fin(-tf.z), Fin(tf.x))
  {
    var tf := OnDepthResponse(names, modelName, cameraFrameId, rq, p).value.tf;
    assert p.x.Fin? && p.y.Fin? && p.z.Fin?;
    assert -tf.y == p.x.v && -tf.z == p.y.v;
  }

  class DetectObject {
    /** The `confidence_threshold`, `camera_frame_id` and `pub_tf2`
        parameters and the class names read from the model's YAML file. */
    var confidenceThreshold: real
    var cameraFrameId: string
    var pubTf2: bool
    var classNames: seq<string>
    /** The `model_name` member: the constructor's parameter of the same name
        shadows it and it is never assigned, so it stays empty. */
    var modelName: string
    /** True until the model set-up block has run. */
    var firstRun: bool
    /** How often the model set-up block has run. */
    ghost var setupRuns: nat

    ghost predicate Valid()
      reads this
    {
      setupRuns == if firstRun then 0 else 1
    }

    constructor (confidenceThreshold: real, cameraFrameId: string, pubTf2: bool, classNames: seq<string>)
      ensures Valid() && firstRun
      ensures this.confidenceThreshold == confidenceThreshold && this.cameraFrameId == cameraFrameId
      ensures this.pubTf2 == pubTf2 && this.classNames == classNames
      ensures modelName == ""
    {
      this.confidenceThreshold := confidenceThreshold;
      this.cameraFrameId := cameraFrameId;
      this.pubTf2 := pubTf2;
      this.classNames := classNames;
      modelName := "";
      firstRun := true;
      setupRuns := 0;
    }

    /** `onCamera`. `msg` is the converted frame (`None` on a `cv_bridge`
        failure), `tensor` and `stride` the network's output for it and `nms`
        the indices `cv::dnn::NMSBoxes` keeps. The model set-up block runs on
        the first frame whose resize succeeds, and never again. */
    method OnCamera(msg: Option<ImageMsg>, tensor: seq<seq<real>>, stride: nat, nms: seq<nat>)
      returns (outcome: FrameOutcome)
      requires Valid()
      requires WellShaped(tensor, stride)
      requires forall k :: 0 <= k < |nms| ==> nms[k] < |KeptIndices(tensor, stride, confidenceThreshold, |tensor|)|
      modifies this`firstRun, this`setupRuns
      ensures Valid()
      ensures outcome == OnCameraSpec(classNames, modelName, pubTf2, confidenceThreshold, msg, tensor, stride, nms)
      ensures firstRun == (old(firstRun) && (outcome.ConversionFailed? || outcome.ResizeFailed?))
    {
      if msg.None? {
        return ConversionFailed;
      }
      var img := msg.value;
      var res := ResizeAndPad(img.cols, img.rows, Size(TargetSide, TargetSide));
      if res.ResizeError? {
        return ResizeFailed;
      }
      if firstRun {
        firstRun := false;
        setupRuns := setupRuns + 1;
      }
      var boxes, classIds, confidences := DecodeRecords(tensor, stride, confidenceThreshold);
      var output := AssembleDetections(boxes, classIds, confidences, nms);
      assert output == SurvivingDetections(tensor, stride, confidenceThreshold, nms);
      outcome := Annotate(classNames, modelName, pubTf2, img, res.resize, output);
    }
  }

  /** The per-detection loop of `onCamera`: the box message, then the request
      when `pub_tf2` is set. */
  method Annotate(names: seq<string>, modelName: string, pubTf2: bool,
                  img: ImageMsg, z: Resize, dets: seq<Detection>) returns (outcome: FrameOutcome)
    requires z.newUnpadW > 0 && z.newUnpadH > 0
    ensures outcome == AnnotateSpec(names, modelName, pubTf2, img, z, dets)
  {
    var boxes: seq<BoundingBox> := [];
    var sent: seq<DepthRequest> := [];
    var i := 0;
    while i < |dets|
      invariant i <= FirstUnnamed(names, dets)
      invariant boxes == Boxes(names, img, z, dets[..i])
      invariant sent == Sent(pubTf2, img, z, dets[..i])
    {
      if dets[i].classId >= |names| {
        return UndefinedBehaviour(sent);
      }
      assert dets[..i + 1] == dets[..i] + [dets[i]];
      boxes := boxes + [BoxFor(names, img, z, dets[i])];
      if pubTf2 {
        sent := sent + [RequestFor(img, z, dets[i])];
      }
      i := i + 1;
    }
    assert dets[..i] == dets;
    outcome := Processed(BoundingBoxArray(modelName, boxes), sent);
  }
}
