/**
 * Axis-aligned box helpers of `final_project/utils.js`: the face coordinates of a box
 * given its centre and size, and the inclusive three-axis overlap test between two boxes,
 * where the first box's bottom face is moved by its vertical velocity.
 * Coordinates are exact reals; floating-point rounding is not modelled.
 */
module Utils {

  datatype Vec3 = Vec3(x: real, y: real, z: real)

  datatype Dimensions = Dimensions(width: real, height: real, depth: real)

  /** A box as `boxCollision` reads it: its six faces and its velocity. */
  datatype Box = Box(right: real, left: real, front: real, back: real,
                     bottom: real, top: real, velocity: Vec3)

  /**
   * `boxLimits`: the faces [right, left, front, back, bottom, top] of the box of the given
   * size centred at `position`. Each pair of opposite faces is centred on the position's
   * coordinate and lies the matching dimension apart.
   */
  function BoxLimits(position: Vec3, dimensions: Dimensions): (r: seq<real>)
    ensures |r| == 6
    ensures r[0] - r[1] == dimensions.width && r[0] + r[1] == 2.0 * position.x
    ensures r[2] - r[3] == dimensions.depth && r[2] + r[3] == 2.0 * position.z
    ensures r[5] - r[4] == dimensions.height && r[4] + r[5] == 2.0 * position.y
    ensures dimensions.width >= 0.0 ==> r[1] <= r[0]
    ensures dimensions.depth >= 0.0 ==> r[3] <= r[2]
    ensures dimensions.height >= 0.0 ==> r[4] <= r[5]
  {
    var right := position.x + dimensions.width / 2.0;
    var left := position.x - dimensions.width / 2.0;
    var front := position.z + dimensions.depth / 2.0;
    var back := position.z - dimensions.depth / 2.0;
    var bottom := position.y - dimensions.height / 2.0;
    var top := position.y + dimensions.height / 2.0;
    [right, left, front, back, bottom, top]
  }

  /** The box with the given faces, as a caller of `boxCollision` would assemble it. */
  function BoxFromLimits(limits: seq<real>, velocity: Vec3): Box
    requires |limits| == 6
  {
    Box(limits[0], limits[1], limits[2], limits[3], limits[4], limits[5], velocity)
  }

  /**
   * `boxCollision`: the x intervals overlap, the z intervals overlap, and on y the first
   * box's bottom moved by its y velocity is at or below the second's top while its top is
   * at or above the second's bottom. All comparisons are inclusive.
   */
  predicate BoxCollision(box1: Box, box2: Box)
  {
    var xCollision := box1.right >= box2.left && box1.left <= box2.right;
    var yCollision := box1.bottom + box1.velocity.y <= box2.top && box1.top >= box2.bottom;
    var zCollision := box1.front >= box2.back && box1.back <= box2.front;
    xCollision && yCollision && zCollision
  }

  // ---------------------------------------------------------------------------------------
  // An independent reading of the overlap test: the two closed boxes share a point.

  predicate InInterval(p: real, lo: real, hi: real)
  {
    lo <= p <= hi
  }

  /** `p` lies in box1 as `boxCollision` sees it: its y range starts at the moved bottom. */
  predicate InSweptBox(p: Vec3, b: Box)
  {
    InInterval(p.x, b.left, b.right) && InInterval(p.y, b.bottom + b.velocity.y, b.top)
    && InInterval(p.z, b.back, b.front)
  }

  predicate InBox(p: Vec3, b: Box)
  {
    InInterval(p.x, b.left, b.right) && InInterval(p.y, b.bottom, b.top)
    && InInterval(p.z, b.back, b.front)
  }

  ghost predicate SharePoint(box1: Box, box2: Box)
  {
    exists p: Vec3 :: InSweptBox(p, box1) && InBox(p, box2)
  }

  /** Every interval of the box is non-empty (for box1, its y interval after the move). */
  predicate WellFormed(b: Box, swept: bool)
  {
    b.left <= b.right && b.back <= b.front
    && (if swept then b.bottom + b.velocity.y else b.bottom) <= b.top
  }

  /** Two non-empty closed intervals meet exactly when each starts no later than the other ends. */
  lemma IntervalsMeet(lo1: real, hi1: real, lo2: real, hi2: real) returns (p: real)
    requires lo1 <= hi1 && lo2 <= hi2
    ensures (hi1 >= lo2 && lo1 <= hi2) ==> InInterval(p, lo1, hi1) && InInterval(p, lo2, hi2)
    ensures (exists q :: InInterval(q, lo1, hi1) && InInterval(q, lo2, hi2)) ==> hi1 >= lo2 && lo1 <= hi2
  {
    p := if lo1 <= lo2 then lo2 else lo1;
  }

  /** The inclusive test holds exactly when the two closed boxes share a point. */
  lemma BoxCollisionIffSharePoint(box1: Box, box2: Box)
    requires WellFormed(box1, true) && WellFormed(box2, false)
    ensures BoxCollision(box1, box2) <==> SharePoint(box1, box2)
  {
    var px := IntervalsMeet(box1.left, box1.right, box2.left, box2.right);
    var py := IntervalsMeet(box1.bottom + box1.velocity.y, box1.top, box2.bottom, box2.top);
    var pz := IntervalsMeet(box1.back, box1.front, box2.back, box2.front);
    if BoxCollision(box1, box2) {
      assert InSweptBox(Vec3(px, py, pz), box1) && InBox(Vec3(px, py, pz), box2);
    }
    if SharePoint(box1, box2) {
      var p: Vec3 :| InSweptBox(p, box1) && InBox(p, box2);
      assert InInterval(p.x, box1.left, box1.right) && InInterval(p.x, box2.left, box2.right);
      assert InInterval(p.y, box1.bottom + box1.velocity.y, box1.top) && InInterval(p.y, box2.bottom, box2.top);
      assert InInterval(p.z, box1.back, box1.front) && InInterval(p.z, box2.back, box2.front);
    }
  }

  /** Faces that merely touch count as a collision: the comparisons are inclusive. */
  lemma TouchingFacesCollide(box1: Box, box2: Box)
    requires WellFormed(box1, true) && WellFormed(box2, false)
    requires box1.right == box2.left
    requires box1.bottom + box1.velocity.y <= box2.top && box1.top >= box2.bottom
    requires box1.front >= box2.back && box1.back <= box2.front
    ensures BoxCollision(box1, box2)
    ensures SharePoint(box1, box2)
  {
    BoxCollisionIffSharePoint(box1, box2);
  }

  /** With no vertical velocity on either box the test does not depend on the argument order. */
  lemma BoxCollisionSymmetric(box1: Box, box2: Box)
    requires box1.velocity.y == 0.0 && box2.velocity.y == 0.0
    ensures BoxCollision(box1, box2) == BoxCollision(box2, box1)
  {
  }

  /**
   * With only the first box at rest the order matters: a second box moving down onto a box
   * at rest collides with it, while the test taken the other way round misses.
   */
  lemma OrderMattersWhenMoving() returns (b1: Box, b2: Box)
    ensures b1.velocity.y == 0.0 && WellFormed(b1, true) && WellFormed(b2, true)
    ensures BoxCollision(b2, b1) && !BoxCollision(b1, b2)
  {
    b1 := Box(1.0, 0.0, 1.0, 0.0, 0.0, 1.0, Vec3(0.0, 0.0, 0.0));
    b2 := Box(1.0, 0.0, 1.0, 0.0, 2.0, 3.0, Vec3(0.0, -2.0, 0.0));
  }

  function Abs(r: real): real
  {
    if r < 0.0 then -r else r
  }

  /**
   * For boxes built by `boxLimits` with no vertical velocity, the test is the familiar
   * centre-distance test: on every axis the centres are at most half the summed sizes apart.
   */
  lemma BoxCollisionOfLimits(p1: Vec3, d1: Dimensions, p2: Vec3, d2: Dimensions, v1: Vec3, v2: Vec3)
    requires v1.y == 0.0
    ensures BoxCollision(BoxFromLimits(BoxLimits(p1, d1), v1), BoxFromLimits(BoxLimits(p2, d2), v2))
      <==> (Abs(p1.x - p2.x) <= (d1.width + d2.width) / 2.0
            && Abs(p1.y - p2.y) <= (d1.height + d2.height) / 2.0
            && Abs(p1.z - p2.z) <= (d1.depth + d2.depth) / 2.0)
  {
  }
}
