/** The frustum test of `VisibleObjectActivator.RectInCamera`: the four corners of
    a horizontal rectangle are carried to clip space by the camera's
    view-projection matrix, each gets a six-bit Cohen-Sutherland outcode, and the rectangle
    counts as visible when no bit is common to all four codes. */
module Frustum {

  datatype Vec4 = Vec4(x: real, y: real, z: real, w: real)

  /** A 4x4 matrix, by rows. */
  datatype Mat4 = Mat4(r0: Vec4, r1: Vec4, r2: Vec4, r3: Vec4)

  /** A `Vector2` holding a world position on the horizontal plane: `(x, z)`. */
  datatype Point = Point(x: real, z: real)

  /** What the test reads from a Unity camera: the product
      `camera.projectionMatrix * camera.worldToCameraMatrix`, which carries a world
      point to clip space, and the two clip-plane distances. */
  datatype Camera = Camera(viewProjection: Mat4, nearClipPlane: real, farClipPlane: real)

  datatype Option<T> = None | Some(value: T)

  function Dot(a: Vec4, b: Vec4): real
  {
    a.x * b.x + a.y * b.y + a.z * b.z + a.w * b.w
  }

  function Transform(m: Mat4, v: Vec4): Vec4
  {
    Vec4(Dot(m.r0, v), Dot(m.r1, v), Dot(m.r2, v), Dot(m.r3, v))
  }

  /** `camera.projectionMatrix * camera.worldToCameraMatrix * new Vector4(p.x, 0, p.z, 1)`:
      the rectangle lies on the plane of height 0. */
  function ClipPosition(camera: Camera, p: Point): Vec4
  {
    Transform(camera.viewProjection, Vec4(p.x, 0.0, p.z, 1.0))
  }

  /** Signed distance of a clip-space point from the `k`-th of the six half-spaces
      the outcode checks; the point violates constraint `k` exactly when it is
      negative. */
  function Margin(camera: Camera, c: Vec4, k: int): real
  {
    match k
    case 0 => c.x + c.w
    case 1 => c.w - c.x
    case 2 => c.y + c.w
    case 3 => c.w - c.y
    case 4 => c.z - camera.nearClipPlane
    case 5 => camera.farClipPlane - c.z
    case _ => 0.0
  }

  /** The outcode bit of constraint `k`. */
  function Bit(k: int): bv8
    requires 0 <= k < 6
  {
    match k
    case 0 => 1
    case 1 => 2
    case 2 => 4
    case 3 => 8
    case 4 => 16
    case _ => 32
  }

  /** `ComputeOutCode`: bits 1/2 for left of `-w`/right of `+w`, 4/8 for below/above,
      16/32 for nearer than the near plane/farther than the far plane. The near and
      far planes are compared with the clip-space `z` as they stand. */
  function ComputeOutCode(camera: Camera, c: Vec4): (code: bv8)
    ensures code <= 63
    ensures code & 1 != 0 <==> c.x < -c.w
    ensures code & 2 != 0 <==> c.x > c.w
    ensures code & 4 != 0 <==> c.y < -c.w
    ensures code & 8 != 0 <==> c.y > c.w
    ensures code & 16 != 0 <==> c.z < camera.nearClipPlane
    ensures code & 32 != 0 <==> c.z > camera.farClipPlane
    ensures code == 0 <==> (-c.w <= c.x <= c.w && -c.w <= c.y <= c.w &&
                            camera.nearClipPlane <= c.z <= camera.farClipPlane)
  {
    (if c.x < -c.w then 1 else 0) |
    (if c.x > c.w then 2 else 0) |
    (if c.y < -c.w then 4 else 0) |
    (if c.y > c.w then 8 else 0) |
    (if c.z < camera.nearClipPlane then 16 else 0) |
    (if c.z > camera.farClipPlane then 32 else 0)
  }

  /** Bit `k` of an outcode is set exactly when constraint `k` is violated. */
  lemma OutCodeBit(camera: Camera, c: Vec4, k: int)
    requires 0 <= k < 6
    ensures ComputeOutCode(camera, c) & Bit(k) != 0 <==> Margin(camera, c, k) < 0.0
  {
  }

  /** The four corners of a horizontal rectangle, in the order `RectInCamera`
      takes them. */
  datatype Quad = Quad(p00: Point, p10: Point, p01: Point, p11: Point)

  /** The axis-aligned rectangle `[x0, x1] x [z0, z1]`. */
  function RectQuad(x0: real, x1: real, z0: real, z1: real): Quad
  {
    Quad(Point(x0, z0), Point(x1, z0), Point(x0, z1), Point(x1, z1))
  }

  /** `_targetCamera`, falling back to `Camera.main`; `None` when neither exists. */
  function ResolveCamera(target: Option<Camera>, main: Option<Camera>): (r: Option<Camera>)
    ensures r.None? <==> target.None? && main.None?
    ensures target.Some? ==> r == target
    ensures target.None? ==> r == main
  {
    if target.Some? then target else main
  }

  function CornerCode(camera: Camera, p: Point): bv8
  {
    ComputeOutCode(camera, ClipPosition(camera, p))
  }

  /** The test proper, for a resolved camera: the rectangle is visible when the
      bitwise AND of `63` and the four corner outcodes is zero. */
  predicate QuadVisible(camera: Camera, q: Quad)
  {
    CodesVisible(camera, ClipPosition(camera, q.p00), ClipPosition(camera, q.p10),
                 ClipPosition(camera, q.p01), ClipPosition(camera, q.p11))
  }

  /** The AND of `63` and the outcodes of four clip-space points is zero. */
  predicate CodesVisible(camera: Camera, c00: Vec4, c10: Vec4, c01: Vec4, c11: Vec4)
  {
    (63 & ComputeOutCode(camera, c00) & ComputeOutCode(camera, c10) &
     ComputeOutCode(camera, c01) & ComputeOutCode(camera, c11)) == 0
  }

  /** `RectInCamera`: no camera means not visible; otherwise the outcode test of
      the resolved camera decides. */
  function RectInCamera(target: Option<Camera>, main: Option<Camera>, q: Quad): (visible: bool)
    ensures ResolveCamera(target, main).None? ==> !visible
  {
    match ResolveCamera(target, main)
    case None => false
    case Some(camera) => QuadVisible(camera, q)
  }

  /** All four corners violate constraint `k`: the rectangle lies entirely outside
      one face of the frustum. */
  predicate AllOutside(camera: Camera, q: Quad, k: int)
  {
    AllViolate(camera, ClipPosition(camera, q.p00), ClipPosition(camera, q.p10),
               ClipPosition(camera, q.p01), ClipPosition(camera, q.p11), k)
  }

  /** Bit `k` is set in all four codes. */
  predicate CommonBit(a: bv8, b: bv8, d: bv8, e: bv8, k: int)
    requires 0 <= k < 6
  {
    a & Bit(k) != 0 && b & Bit(k) != 0 && d & Bit(k) != 0 && e & Bit(k) != 0
  }

  /** No bit among the six is set in all four codes. */
  predicate NoCommonBit(a: bv8, b: bv8, d: bv8, e: bv8)
  {
    forall k | 0 <= k < 6 :: !CommonBit(a, b, d, e, k)
  }

  lemma AndOfCodes(a: bv8, b: bv8, d: bv8, e: bv8)
    ensures (63 & a & b & d & e) == 0 <==> NoCommonBit(a, b, d, e)
  {
    var all := 63 & a & b & d & e;
    forall k | 0 <= k < 6
      ensures CommonBit(a, b, d, e, k) <==> all & Bit(k) != 0
    {
    }
    assert all == 0 <==> forall k | 0 <= k < 6 :: all & Bit(k) == 0 by {
      assert Bit(0) == 1 && Bit(1) == 2 && Bit(2) == 4 && Bit(3) == 8 && Bit(4) == 16 && Bit(5) == 32;
    }
  }

  /** All four clip-space points violate constraint `k`. */
  predicate AllViolate(camera: Camera, c00: Vec4, c10: Vec4, c01: Vec4, c11: Vec4, k: int)
  {
    Margin(camera, c00, k) < 0.0 && Margin(camera, c10, k) < 0.0 &&
    Margin(camera, c01, k) < 0.0 && Margin(camera, c11, k) < 0.0
  }

  /** No constraint is violated by all four clip-space points. */
  predicate NoneAllViolate(camera: Camera, c00: Vec4, c10: Vec4, c01: Vec4, c11: Vec4)
  {
    forall k | 0 <= k < 6 :: !AllViolate(camera, c00, c10, c01, c11, k)
  }

  /** Four codes whose common bits are exactly the constraints all four points
      violate have no common bit exactly when no constraint is violated by all four. */
  lemma CommonBitsIff(a: bv8, b: bv8, d: bv8, e: bv8, camera: Camera, c00: Vec4, c10: Vec4, c01: Vec4, c11: Vec4)
    requires forall k | 0 <= k < 6 :: CommonBit(a, b, d, e, k) <==> AllViolate(camera, c00, c10, c01, c11, k)
    ensures NoCommonBit(a, b, d, e) <==> NoneAllViolate(camera, c00, c10, c01, c11)
  {
  }

  /** The AND of four outcodes is zero exactly when no constraint is violated by
      all four points. */
  lemma OutCodesAndIff(camera: Camera, c00: Vec4, c10: Vec4, c01: Vec4, c11: Vec4)
    ensures CodesVisible(camera, c00, c10, c01, c11) <==> NoneAllViolate(camera, c00, c10, c01, c11)
  {
    var a, b, d, e := ComputeOutCode(camera, c00), ComputeOutCode(camera, c10),
                      ComputeOutCode(camera, c01), ComputeOutCode(camera, c11);
    forall k | 0 <= k < 6
      ensures CommonBit(a, b, d, e, k) <==> AllViolate(camera, c00, c10, c01, c11, k)
    {
      OutCodeBit(camera, c00, k);
      OutCodeBit(camera, c10, k);
      OutCodeBit(camera, c01, k);
      OutCodeBit(camera, c11, k);
    }
    CommonBitsIff(a, b, d, e, camera, c00, c10, c01, c11);
    AndOfCodes(a, b, d, e);
  }

  /** What the AND of outcodes means: a rectangle is rejected exactly when some
      single face of the frustum has all four corners outside it (the
      trivial-reject case of Cohen-Sutherland clipping). */
  lemma QuadVisibleIff(camera: Camera, q: Quad)
    ensures QuadVisible(camera, q) <==> forall k | 0 <= k < 6 :: !AllOutside(camera, q, k)
  {
    var c00, c10, c01, c11 := ClipPosition(camera, q.p00), ClipPosition(camera, q.p10),
                              ClipPosition(camera, q.p01), ClipPosition(camera, q.p11);
    OutCodesAndIff(camera, c00, c10, c01, c11);
    forall k | 0 <= k < 6
      ensures AllOutside(camera, q, k) == AllViolate(camera, c00, c10, c01, c11, k)
    {
    }
  }

  /** A rectangle with one corner whose outcode is 0 is never rejected. */
  lemma CornerInsideVisible(camera: Camera, q: Quad)
    requires CornerCode(camera, q.p00) == 0 || CornerCode(camera, q.p10) == 0 ||
             CornerCode(camera, q.p01) == 0 || CornerCode(camera, q.p11) == 0
    ensures QuadVisible(camera, q)
  {
  }

  /** The coefficients `(a, 0, b, c)` of constraint `k` as an affine function of a
      point on the plane of height 0: each clip coordinate is a row of the
      view-projection matrix applied to `(x, 0, z, 1)`. */
  function FaceCoefficients(camera: Camera, k: int): Vec4
  {
    var m := camera.viewProjection;
    match k
    case 0 => Vec4(m.r0.x + m.r3.x, 0.0, m.r0.z + m.r3.z, m.r0.w + m.r3.w)
    case 1 => Vec4(m.r3.x - m.r0.x, 0.0, m.r3.z - m.r0.z, m.r3.w - m.r0.w)
    case 2 => Vec4(m.r1.x + m.r3.x, 0.0, m.r1.z + m.r3.z, m.r1.w + m.r3.w)
    case 3 => Vec4(m.r3.x - m.r1.x, 0.0, m.r3.z - m.r1.z, m.r3.w - m.r1.w)
    case 4 => Vec4(m.r2.x, 0.0, m.r2.z, m.r2.w - camera.nearClipPlane)
    case 5 => Vec4(-m.r2.x, 0.0, -m.r2.z, camera.farClipPlane - m.r2.w)
    case _ => Vec4(0.0, 0.0, 0.0, 0.0)
  }

  function Affine(f: Vec4, p: Point): real
  {
    f.x * p.x + f.z * p.z + f.w
  }

  /** The clip-space position is affine in the world position, so each margin is
      an affine function of the point. */
  lemma MarginAffine(camera: Camera, k: int, p: Point)
    ensures Margin(camera, ClipPosition(camera, p), k) == Affine(FaceCoefficients(camera, k), p)
  {
  }

  /** An affine function negative at the four corners of a rectangle is negative
      on the whole rectangle. */
  lemma AffineNegativeOnRect(f: Vec4, x0: real, x1: real, z0: real, z1: real, p: Point)
    requires x0 <= p.x <= x1 && z0 <= p.z <= z1
    requires Affine(f, Point(x0, z0)) < 0.0 && Affine(f, Point(x1, z0)) < 0.0
    requires Affine(f, Point(x0, z1)) < 0.0 && Affine(f, Point(x1, z1)) < 0.0
    ensures Affine(f, p) < 0.0
  {
    var a, b := f.x, f.z;
    var xc := if a >= 0.0 then x1 else x0;
    var zc := if b >= 0.0 then z1 else z0;
    if a >= 0.0 {
      assert a * (x1 - p.x) >= 0.0;
    } else {
      assert a * (p.x - x0) <= 0.0;
    }
    if b >= 0.0 {
      assert b * (z1 - p.z) >= 0.0;
    } else {
      assert b * (p.z - z0) <= 0.0;
    }
    assert Affine(f, p) <= Affine(f, Point(xc, zc));
  }

  /** A face of the frustum that has all four corners of a rectangle outside it
      has every point of the rectangle outside it. */
  lemma FaceSeparates(camera: Camera, k: int, x0: real, x1: real, z0: real, z1: real, p: Point)
    requires x0 <= p.x <= x1 && z0 <= p.z <= z1
    requires AllOutside(camera, RectQuad(x0, x1, z0, z1), k)
    ensures Margin(camera, ClipPosition(camera, p), k) < 0.0
  {
    var f := FaceCoefficients(camera, k);
    MarginAffine(camera, k, Point(x0, z0));
    MarginAffine(camera, k, Point(x1, z0));
    MarginAffine(camera, k, Point(x0, z1));
    MarginAffine(camera, k, Point(x1, z1));
    MarginAffine(camera, k, p);
    AffineNegativeOnRect(f, x0, x1, z0, z1, p);
  }

  /** No false negatives: if some point of an axis-aligned rectangle has outcode 0
      (inside all six clip-space bounds), the test does not reject the rectangle. */
  lemma NoFalseNegative(camera: Camera, x0: real, x1: real, z0: real, z1: real, p: Point)
    requires x0 <= p.x <= x1 && z0 <= p.z <= z1
    requires CornerCode(camera, p) == 0
    ensures QuadVisible(camera, RectQuad(x0, x1, z0, z1))
  {
    var q := RectQuad(x0, x1, z0, z1);
    QuadVisibleIff(camera, q);
    forall k | 0 <= k < 6
      ensures !AllOutside(camera, q, k)
    {
      OutCodeBit(camera, ClipPosition(camera, p), k);
      if AllOutside(camera, q, k) {
        FaceSeparates(camera, k, x0, x1, z0, z1, p);
      }
    }
  }
}
