/** The post-inference decoding shared by both nodes: the walk over the
    network's output records, the assembly of the detections that survive
    non-maximum suppression, and the mapping of a box back to the native image.

    The output tensor is `N` records of `stride` floats each,
    `[cx, cy, w, h, objectness, score_0, ..., score_(K-1)]` with `K = stride - 5`. */
module Decoder {
  import opened Numeric

  /** `SCORE_THRESHOLD`: the best class score must exceed it (strictly). */
  const ScoreThreshold: real := 0.2

  /** `cv::Rect`: an integer top-left corner and size. */
  datatype Rect = Rect(x: int, y: int, width: int, height: int)

  /** The `Detection` struct of both nodes. */
  datatype Detection = Detection(classId: nat, confidence: real, box: Rect)

  /** Index of the objectness field, and of the first class score. */
  const ObjectnessField: nat := 4
  const FirstScoreField: nat := 5

  /** Every record has `stride` fields and at least one class score. */
  predicate WellShaped(tensor: seq<seq<real>>, stride: nat)
  {
    stride > FirstScoreField && forall i :: 0 <= i < |tensor| ==> |tensor[i]| == stride
  }

  /** What `cv::minMaxLoc` reports as the location of the maximum: the first
      index holding the largest value. */
  function FirstMax(s: seq<real>): (k: nat)
    requires |s| > 0
    ensures k < |s|
    ensures forall j :: 0 <= j < |s| ==> s[j] <= s[k]
    ensures forall j :: 0 <= j < k ==> s[j] < s[k]
  {
    if |s| == 1 then 0
    else
      var k := FirstMax(s[..|s| - 1]);
      if s[|s| - 1] > s[k] then |s| - 1 else k
  }

  /** The class scores of a record. */
  function Scores(rec: seq<real>): seq<real>
    requires |rec| > FirstScoreField
  {
    rec[FirstScoreField..]
  }

  /** `class_id.x`: the position of the best class score. */
  function ClassId(rec: seq<real>): (c: nat)
    requires |rec| > FirstScoreField
    ensures c < |rec| - FirstScoreField
    ensures forall j :: FirstScoreField <= j < |rec| ==> rec[j] <= rec[FirstScoreField + c]
    ensures forall j :: FirstScoreField <= j < FirstScoreField + c ==> rec[j] < rec[FirstScoreField + c]
  {
    var c := FirstMax(Scores(rec));
    assert forall j :: FirstScoreField <= j < |rec| ==> rec[j] == Scores(rec)[j - FirstScoreField];
    c
  }

  /** `max_class_score`. */
  function MaxClassScore(rec: seq<real>): (m: real)
    requires |rec| > FirstScoreField
    ensures forall j :: FirstScoreField <= j < |rec| ==> rec[j] <= m
    ensures exists j :: FirstScoreField <= j < |rec| && rec[j] == m
  {
    rec[FirstScoreField + ClassId(rec)]
  }

  /** The two tests of the decode loop: objectness at least the confidence
      threshold, and best class score above the score threshold. */
  predicate Accepted(rec: seq<real>, threshold: real)
    requires |rec| > FirstScoreField
  {
    rec[ObjectnessField] >= threshold && MaxClassScore(rec) > ScoreThreshold
  }

  /** `cv::Rect(x - w/2, y - h/2, w, h)`: centre form to corner form, each
      float truncated toward zero into the int fields. */
  function CornerBox(rec: seq<real>): (b: Rect)
    requires |rec| > FirstScoreField
    ensures b.width == Trunc(rec[2]) && b.height == Trunc(rec[3])
    ensures rec[0] - rec[2] / 2.0 >= 0.0 ==>
              0 <= b.x && b.x as real <= rec[0] - rec[2] / 2.0 < b.x as real + 1.0
    ensures rec[0] - rec[2] / 2.0 < 0.0 ==>
              b.x <= 0 && rec[0] - rec[2] / 2.0 <= b.x as real < rec[0] - rec[2] / 2.0 + 1.0
    ensures rec[1] - rec[3] / 2.0 >= 0.0 ==>
              0 <= b.y && b.y as real <= rec[1] - rec[3] / 2.0 < b.y as real + 1.0
    ensures rec[1] - rec[3] / 2.0 < 0.0 ==>
              b.y <= 0 && rec[1] - rec[3] / 2.0 <= b.y as real < rec[1] - rec[3] / 2.0 + 1.0
  {
    Rect(Trunc(rec[0] - rec[2] / 2.0), Trunc(rec[1] - rec[3] / 2.0), Trunc(rec[2]), Trunc(rec[3]))
  }

  /** The indices, in tensor order, of the records among the first `n` that
      the decode loop keeps. */
  function KeptIndices(tensor: seq<seq<real>>, stride: nat, threshold: real, n: nat): (ks: seq<nat>)
    requires WellShaped(tensor, stride) && n <= |tensor|
    ensures |ks| <= n
    ensures forall k :: 0 <= k < |ks| ==> ks[k] < n
  {
    if n == 0 then []
    else
      KeptIndices(tensor, stride, threshold, n - 1)
        + (if Accepted(tensor[n - 1], threshold) then [n - 1] else [])
  }

  /** Every kept index names an accepted record among the first `n`. */
  lemma {:induction false} KeptIndicesAccepted(tensor: seq<seq<real>>, stride: nat, threshold: real, n: nat)
    requires WellShaped(tensor, stride) && n <= |tensor|
    ensures forall k :: 0 <= k < |KeptIndices(tensor, stride, threshold, n)| ==>
              KeptIndices(tensor, stride, threshold, n)[k] < n && Accepted(tensor[KeptIndices(tensor, stride, threshold, n)[k]], threshold)
  {
    if n > 0 {
      KeptIndicesAccepted(tensor, stride, threshold, n - 1);
      var prev := KeptIndices(tensor, stride, threshold, n - 1);
      var ks := KeptIndices(tensor, stride, threshold, n);
      forall k | 0 <= k < |ks|
        ensures ks[k] < n && Accepted(tensor[ks[k]], threshold)
      {
        if k < |prev| {
          assert ks[k] == prev[k];
        }
      }
    }
  }

  /** The kept indices are strictly increasing: tensor order, each record once. */
  lemma {:induction false} KeptIndicesIncreasing(tensor: seq<seq<real>>, stride: nat, threshold: real, n: nat)
    requires WellShaped(tensor, stride) && n <= |tensor|
    ensures forall k, l :: 0 <= k < l < |KeptIndices(tensor, stride, threshold, n)| ==> KeptIndices(tensor, stride, threshold, n)[k] < KeptIndices(tensor, stride, threshold, n)[l]
  {
    if n > 0 {
      KeptIndicesIncreasing(tensor, stride, threshold, n - 1);
      var prev := KeptIndices(tensor, stride, threshold, n - 1);
      var ks := KeptIndices(tensor, stride, threshold, n);
      forall k, l | 0 <= k < l < |ks|
        ensures ks[k] < ks[l]
      {
        assert ks[k] == prev[k];
        if l < |prev| {
          assert ks[l] == prev[l];
        }
      }
    }
  }

  /** Every accepted record among the first `n` is kept. */
  lemma {:induction false} KeptIndicesComplete(tensor: seq<seq<real>>, stride: nat, threshold: real, n: nat)
    requires WellShaped(tensor, stride) && n <= |tensor|
    ensures forall i :: 0 <= i < n && Accepted(tensor[i], threshold) ==> i in KeptIndices(tensor, stride, threshold, n)
  {
    if n > 0 {
      KeptIndicesComplete(tensor, stride, threshold, n - 1);
      var prev := KeptIndices(tensor, stride, threshold, n - 1);
      var ks := KeptIndices(tensor, stride, threshold, n);
      forall i | 0 <= i < n && Accepted(tensor[i], threshold)
        ensures i in ks
      {
        if i < n - 1 {
          assert i in prev;
        } else {
          assert ks[|prev|] == i;
        }
      }
    }
  }

  /** The kept indices are exactly the accepted records, each once, in
      increasing order. */
  lemma KeptIndicesCharacterized(tensor: seq<seq<real>>, stride: nat, threshold: real, n: nat)
    requires WellShaped(tensor, stride) && n <= |tensor|
    ensures var ks := KeptIndices(tensor, stride, threshold, n);
            && (forall k :: 0 <= k < |ks| ==> ks[k] < n && Accepted(tensor[ks[k]], threshold))
            && (forall k, l :: 0 <= k < l < |ks| ==> ks[k] < ks[l])
            && (forall i :: 0 <= i < n && Accepted(tensor[i], threshold) ==> i in ks)
  {
    KeptIndicesAccepted(tensor, stride, threshold, n);
    KeptIndicesIncreasing(tensor, stride, threshold, n);
    KeptIndicesComplete(tensor, stride, threshold, n);
  }

  /** The decode loop: one entry in each of `boxes`, `classIds` and
      `confidences` per kept record, in tensor order. The confidence kept is
      the record's objectness, not its class score. */
  method DecodeRecords(tensor: seq<seq<real>>, stride: nat, threshold: real)
    returns (boxes: seq<Rect>, classIds: seq<nat>, confidences: seq<real>)
    requires WellShaped(tensor, stride)
    ensures var ks := KeptIndices(tensor, stride, threshold, |tensor|);
            && |boxes| == |ks| && |classIds| == |ks| && |confidences| == |ks|
            && forall k :: 0 <= k < |ks| ==>
                 && boxes[k] == CornerBox(tensor[ks[k]])
                 && classIds[k] == ClassId(tensor[ks[k]])
                 && confidences[k] == tensor[ks[k]][ObjectnessField]
  {
    boxes, classIds, confidences := [], [], [];
    var i := 0;
    while i < |tensor|
      invariant 0 <= i <= |tensor|
      invariant var ks := KeptIndices(tensor, stride, threshold, i);
                && |boxes| == |ks| && |classIds| == |ks| && |confidences| == |ks|
                && forall k :: 0 <= k < |ks| ==>
                     && ks[k] < i
                     && boxes[k] == CornerBox(tensor[ks[k]])
                     && classIds[k] == ClassId(tensor[ks[k]])
                     && confidences[k] == tensor[ks[k]][ObjectnessField]
    {
      var detection := tensor[i];
      var confidence := detection[ObjectnessField];
      if confidence >= threshold {
        var classId := ClassId(detection);
        var maxClassScore := detection[FirstScoreField + classId];
        if maxClassScore > ScoreThreshold {
          confidences := confidences + [confidence];
          classIds := classIds + [classId];
          boxes := boxes + [CornerBox(detection)];
        }
      }
      i := i + 1;
    }
  }

  /** What every kept entry satisfies: its objectness reached the threshold,
      and its class id names a best class score, which is above the score
      threshold. */
  lemma KeptEntriesPassBothTests(tensor: seq<seq<real>>, stride: nat, threshold: real, k: nat)
    requires WellShaped(tensor, stride)
    requires k < |KeptIndices(tensor, stride, threshold, |tensor|)|
    ensures var rec := tensor[KeptIndices(tensor, stride, threshold, |tensor|)[k]];
            && rec[ObjectnessField] >= threshold
            && rec[FirstScoreField + ClassId(rec)] > ScoreThreshold
            && (forall j :: FirstScoreField <= j < stride ==> rec[j] <= rec[FirstScoreField + ClassId(rec)])
  {
    KeptIndicesCharacterized(tensor, stride, threshold, |tensor|);
  }

  /** The assembly loop after `cv::dnn::NMSBoxes`: output entry `k` takes the
      class id, confidence and box at the same index `nms[k]`. */
  method AssembleDetections(boxes: seq<Rect>, classIds: seq<nat>, confidences: seq<real>, nms: seq<nat>)
    returns (output: seq<Detection>)
    requires |classIds| == |boxes| && |confidences| == |boxes|
    requires forall k :: 0 <= k < |nms| ==> nms[k] < |boxes|
    ensures |output| == |nms|
    ensures forall k :: 0 <= k < |nms| ==>
              output[k] == Detection(classIds[nms[k]], confidences[nms[k]], boxes[nms[k]])
  {
    output := [];
    var i := 0;
    while i < |nms|
      invariant 0 <= i <= |nms|
      invariant |output| == i
      invariant forall k :: 0 <= k < i ==>
                  output[k] == Detection(classIds[nms[k]], confidences[nms[k]], boxes[nms[k]])
    {
      var idx := nms[i];
      output := output + [Detection(classIds[idx], confidences[idx], boxes[idx])];
      i := i + 1;
    }
  }

  /** The detections that come out of the decode loop followed by the
      assembly loop, for the indices `nms` that `cv::dnn::NMSBoxes` returns
      into the kept entries. Each one passed both tests of the decode loop. */
  function SurvivingDetections(tensor: seq<seq<real>>, stride: nat, threshold: real, nms: seq<nat>): (dets: seq<Detection>)
    requires WellShaped(tensor, stride)
    requires forall k :: 0 <= k < |nms| ==> nms[k] < |KeptIndices(tensor, stride, threshold, |tensor|)|
    ensures |dets| == |nms|
    ensures forall k :: 0 <= k < |nms| ==>
              && dets[k].confidence >= threshold
              && dets[k].classId < stride - FirstScoreField
    ensures forall k :: 0 <= k < |nms| ==>
              exists i :: 0 <= i < |tensor| && Accepted(tensor[i], threshold) && dets[k].box == CornerBox(tensor[i])
  {
    var ks := KeptIndices(tensor, stride, threshold, |tensor|);
    KeptIndicesCharacterized(tensor, stride, threshold, |tensor|);
    seq(|nms|, k requires 0 <= k < |nms| =>
      var rec := tensor[ks[nms[k]]];
      Detection(ClassId(rec), rec[ObjectnessField], CornerBox(rec)))
  }

  /** `box.x = rx * box.x` and the like: each float product is truncated back
      into the int field. */
  function Rescale(b: Rect, rx: real, ry: real): Rect
  {
    Rect(Scaled(rx, b.x), Scaled(ry, b.y), Scaled(rx, b.width), Scaled(ry, b.height))
  }

  /** One field of the rescale: the float product truncated into an `int`. */
  function Scaled(r: real, v: int): int
  {
    Trunc(r * v as real)
  }

  /** A box that lies within the unpadded part of the network input,
      `unpadW` x `unpadH`, lies within the native `cols` x `rows` image after
      rescaling by `rx = cols / unpadW` and `ry = rows / unpadH`; truncation
      can only shrink it. */
  lemma RescaleStaysInImage(b: Rect, cols: nat, rows: nat, unpadW: nat, unpadH: nat, rx: real, ry: real)
    requires unpadW > 0 && rx == cols as real / unpadW as real
    requires unpadH > 0 && ry == rows as real / unpadH as real
    requires 0 <= b.x && 0 <= b.width && b.x + b.width <= unpadW
    requires 0 <= b.y && 0 <= b.height && b.y + b.height <= unpadH
    ensures var s := Rescale(b, rx, ry);
            && 0 <= s.x && 0 <= s.width && s.x + s.width <= cols
            && 0 <= s.y && 0 <= s.height && s.y + s.height <= rows
  {
    RescaledAxis(b.x, b.width, cols, unpadW, rx);
    RescaledAxis(b.y, b.height, rows, unpadH, ry);
  }

  /** One axis of the rescale: an interval `[p, p + len]` within `0..unpad`
      scales by `n / unpad` and truncates to one within `0..n`. */
  lemma RescaledAxis(p: int, len: int, n: nat, unpad: nat, r: real)
    requires unpad > 0 && r == n as real / unpad as real
    requires 0 <= p && 0 <= len && p + len <= unpad
    ensures 0 <= Scaled(r, p) && 0 <= Scaled(r, len)
    ensures Scaled(r, p) + Scaled(r, len) <= n
  {
    ScaledSpan(p, len, n, unpad, r);
    ScaledSum(p, len, n, r);
  }

  lemma ScaledSum(p: int, len: int, n: nat, r: real)
    requires 0.0 <= r * p as real && 0.0 <= r * len as real
    requires r * p as real + r * len as real <= n as real
    ensures 0 <= Scaled(r, p) && 0 <= Scaled(r, len)
    ensures Scaled(r, p) + Scaled(r, len) <= n
  {
    TruncSum(r * p as real, r * len as real, n);
  }

  /** Before truncation the scaled interval lies within `0..n`. */
  lemma ScaledSpan(p: int, len: int, n: nat, unpad: nat, r: real)
    requires unpad > 0 && r == n as real / unpad as real
    requires 0 <= p && 0 <= len && p + len <= unpad
    ensures 0.0 <= r * p as real && 0.0 <= r * len as real
    ensures r * p as real + r * len as real <= n as real
  {
    NonNegativeProduct(r, p as real);
    NonNegativeProduct(r, len as real);
    ScaledWithin(r, (p + len) as real, unpad as real, n as real);
    assert r * p as real + r * len as real == r * (p + len) as real;
  }

  /** Truncating two non-negative reals can only lower their sum. */
  lemma TruncSum(a: real, b: real, n: int)
    requires 0.0 <= a && 0.0 <= b && a + b <= n as real
    ensures 0 <= Trunc(a) && 0 <= Trunc(b) && Trunc(a) + Trunc(b) <= n
  {
  }

  lemma NonNegativeProduct(a: real, b: real)
    requires 0.0 <= a && 0.0 <= b
    ensures 0.0 <= a * b
  {
  }

  lemma ScaledWithin(r: real, a: real, u: real, c: real)
    requires 0.0 < u && r == c / u && 0.0 <= c && a <= u
    ensures r * a <= c
  {
    assert r * u == c;
    assert r * (u - a) >= 0.0;
  }

  /** The `x` and `y` lists of the depth region of a rescaled box: from its
      corner to its far edge, the far edge clamped to the last pixel column
      (row) of the image by `std::min`. */
  datatype Region = Region(xs: seq<real>, ys: seq<real>)

  function RegionOf(b: Rect, cols: int, rows: int): (g: Region)
    ensures |g.xs| == 2 && |g.ys| == 2
    ensures g.xs[0] == b.x as real && g.ys[0] == b.y as real
    ensures g.xs[1] <= (cols - 1) as real && g.xs[1] <= (b.x + b.width) as real
    ensures g.xs[1] == (cols - 1) as real || g.xs[1] == (b.x + b.width) as real
    ensures g.ys[1] <= (rows - 1) as real && g.ys[1] <= (b.y + b.height) as real
    ensures g.ys[1] == (rows - 1) as real || g.ys[1] == (b.y + b.height) as real
  {
    Region([b.x as real, Min(cols - 1, b.x + b.width) as real],
           [b.y as real, Min(rows - 1, b.y + b.height) as real])
  }
}
