/** The pinhole back-projection `pixel_to_point` (hazmat node), the remap of
    a camera-frame point into the published translation, and the validity
    guards both nodes apply before publishing a pose. */
module Backprojection {
  import opened Numeric

  /** The intrinsics the hazmat node copies out of `CameraInfo.k`. */
  datatype Intrinsics = Intrinsics(fx: real, fy: real, cx: real, cy: real)

  /** Three float components, each possibly NaN or infinite. */
  datatype Point3 = Point3(x: Ext, y: Ext, z: Ext)

  /** `pixel_to_point`: `x = (u - cx) * d / fx`, `y = (v - cy) * d / fy`,
      `z = d`. A zero focal length divides by zero. */
  function PixelToPoint(u: real, v: real, d: real, k: Intrinsics): (p: Point3)
    ensures p.z == Fin(d)
    ensures k.fx != 0.0 ==> p.x.Fin? && p.x.v * k.fx == (u - k.cx) * d
    ensures k.fy != 0.0 ==> p.y.Fin? && p.y.v * k.fy == (v - k.cy) * d
    ensures k.fx == 0.0 ==> !p.x.Fin?
    ensures k.fy == 0.0 ==> !p.y.Fin?
  {
    Point3(Div((u - k.cx) * d, k.fx), Div((v - k.cy) * d, k.fy), Fin(d))
  }

  /** The forward pinhole projection of a finite point in front of the camera. */
  function Project(x: real, y: real, z: real, k: Intrinsics): (real, real)
    requires z != 0.0
  {
    (k.fx * x / z + k.cx, k.fy * y / z + k.cy)
  }

  /** Back-projecting a pixel at a non-zero depth and projecting the point
      again gives the pixel back. */
  lemma ProjectInvertsPixelToPoint(u: real, v: real, d: real, k: Intrinsics)
    requires d != 0.0 && k.fx != 0.0 && k.fy != 0.0
    ensures var p := PixelToPoint(u, v, d, k);
            p.x.Fin? && p.y.Fin? && Project(p.x.v, p.y.v, d, k) == (u, v)
  {
    var p := PixelToPoint(u, v, d, k);
    RecoverAxis(u, d, k.fx, k.cx, p.x.v);
    RecoverAxis(v, d, k.fy, k.cy, p.y.v);
  }

  lemma RecoverAxis(u: real, d: real, f: real, c: real, x: real)
    requires d != 0.0 && f != 0.0 && x * f == (u - c) * d
    ensures f * x / d + c == u
  {
    assert f * x == (u - c) * d;
    assert f * x / d == u - c;
  }

  /** The principal point back-projects onto the optical axis. */
  lemma PrincipalPointOnAxis(d: real, k: Intrinsics)
    requires k.fx != 0.0 && k.fy != 0.0
    ensures PixelToPoint(k.cx, k.cy, d, k) == Point3(Fin(0.0), Fin(0.0), Fin(d))
  {
  }

  /** A zero depth back-projects onto the camera's origin. */
  lemma ZeroDepthAtOrigin(u: real, v: real, k: Intrinsics)
    requires k.fx != 0.0 && k.fy != 0.0
    ensures PixelToPoint(u, v, 0.0, k) == Point3(Fin(0.0), Fin(0.0), Fin(0.0))
  {
    var p := PixelToPoint(u, v, 0.0, k);
    ZeroProduct(p.x.v, k.fx);
    ZeroProduct(p.y.v, k.fy);
  }

  lemma ZeroProduct(x: real, f: real)
    requires f != 0.0 && x * f == 0.0
    ensures x == 0.0
  {
  }

  /** The published translation `(z, -x, -y)`: the camera's optical axis
      becomes the forward axis. */
  function ToOutputFrame(p: Point3): (q: Point3)
    ensures q.x == p.z
    ensures p.x.Fin? ==> q.y == Fin(-p.x.v)
    ensures p.y.Fin? ==> q.z == Fin(-p.y.v)
  {
    Point3(p.z, Neg(p.x), Neg(p.y))
  }

  /** `std::isnan` of any component. */
  predicate AnyNaN(p: Point3)
  {
    IsNaN(p.x) || IsNaN(p.y) || IsNaN(p.z)
  }

  /** `std::isinf` of any component. */
  predicate AnyInf(p: Point3)
  {
    IsInf(p.x) || IsInf(p.y) || IsInf(p.z)
  }

  /** All three components compare equal to 0. */
  predicate AllZero(p: Point3)
  {
    p.x == Fin(0.0) && p.y == Fin(0.0) && p.z == Fin(0.0)
  }

  /** The hazmat node's guard: a pose with a NaN or an infinite component is
      not published. */
  predicate NonFinite(p: Point3)
  {
    AnyNaN(p) || AnyInf(p)
  }

  /** The yolov5 node's guard on a depth response: neither NaN, nor infinite,
      nor all zero. */
  predicate ResponseAccepted(p: Point3)
  {
    !AnyNaN(p) && !AnyInf(p) && !AllZero(p)
  }

  /** The remap to the output frame neither creates nor removes a NaN, an
      infinity or an all-zero point, so guarding before or after it is the same. */
  lemma GuardsInvariantUnderRemap(p: Point3)
    ensures AnyNaN(ToOutputFrame(p)) <==> AnyNaN(p)
    ensures AnyInf(ToOutputFrame(p)) <==> AnyInf(p)
    ensures AllZero(ToOutputFrame(p)) <==> AllZero(p)
  {
    var q := ToOutputFrame(p);
    assert q.y == Fin(0.0) <==> p.x == Fin(0.0) by {
      if p.x.Fin? { assert q.y == Fin(-p.x.v); }
    }
    assert q.z == Fin(0.0) <==> p.y == Fin(0.0) by {
      if p.y.Fin? { assert q.z == Fin(-p.y.v); }
    }
  }

  /** A back-projected point fails the hazmat node's guard exactly when one
      of the focal lengths is zero. */
  lemma NonFiniteIffZeroFocal(u: real, v: real, d: real, k: Intrinsics)
    ensures NonFinite(PixelToPoint(u, v, d, k)) <==> k.fx == 0.0 || k.fy == 0.0
  {
    var p := PixelToPoint(u, v, d, k);
    if k.fx == 0.0 {
      assert IsNaN(p.x) || IsInf(p.x);
    } else if k.fy == 0.0 {
      assert IsNaN(p.y) || IsInf(p.y);
    }
  }
}
