/**
 * The fixed camera (src/camera.rs): an eye at the origin looking down `-z`
 * at an image plane at `z = -1` that spans `[-2, 2] x [-1, 1]`.
 */
module Cameras {
  import opened VecMath
  import opened Rays

  datatype Camera = Camera(lowerLeftCorner: Vec3, horizontal: Vec3, vertical: Vec3, origin: Vec3)

  function New(): Camera {
    Camera(
      Vec3.New(-2.0, -1.0, -1.0),
      Vec3.New(4.0, 0.0, 0.0),
      Vec3.New(0.0, 2.0, 0.0),
      Vec3.New(0.0, 0.0, 0.0))
  }

  /** The ray from the eye through image-plane coordinates `(u, v)`. */
  function GetRay(c: Camera, u: real, v: real): Ray {
    Ray.New(c.origin, c.lowerLeftCorner.Add(c.horizontal.Scale(u)).Add(c.vertical.Scale(v)))
  }

  /**
   * Every ray of the default camera starts at the origin and goes to the
   * point `(-2 + 4u, -1 + 2v, -1)` of the image plane.
   */
  lemma GetRayOfNew(u: real, v: real)
    ensures GetRay(New(), u, v).Origin() == Vec3(0.0, 0.0, 0.0)
    ensures GetRay(New(), u, v).Direction() == Vec3(-2.0 + 4.0 * u, -1.0 + 2.0 * v, -1.0)
    ensures GetRay(New(), u, v).Direction().Z() == -1.0
  {
  }

  /**
   * The corners and the centre of the image: `(0, 0)` is the lower-left
   * corner, `(1, 1)` the upper-right and `(0.5, 0.5)` looks straight down `-z`.
   */
  lemma GetRayCorners()
    ensures GetRay(New(), 0.0, 0.0).Direction() == Vec3(-2.0, -1.0, -1.0)
    ensures GetRay(New(), 1.0, 1.0).Direction() == Vec3(2.0, 1.0, -1.0)
    ensures GetRay(New(), 0.5, 0.5).Direction() == Vec3(0.0, 0.0, -1.0)
  {
    GetRayOfNew(0.0, 0.0);
    GetRayOfNew(1.0, 1.0);
    GetRayOfNew(0.5, 0.5);
  }
}
