/** Integer screen geometry shared by the player, the hitboxes and the placement
    solver of the first puzzle. Screen y grows downward. */
module Geometry {

  /** A screen position; the source keeps it as a two-element list `[x, y]`. */
  datatype Point = Point(x: int, y: int)

  /** Radius of a hitbox circle, also the margin kept from the screen edge. */
  const HitboxRadius: int := 40

  /** Extra space demanded between hitbox centres during placement. */
  const Padding: int := 100

  /** The minimum centre distance handed to the overlap test: radius plus padding. */
  const MinDistance: nat := HitboxRadius + Padding

  /** Half the side of the square used as the collision area of a hitbox. */
  const CollisionHalfSide: int := 40

  /** Squared Euclidean distance; the source takes its square root and compares
      it with a non-negative bound, which is the same test as comparing squares. */
  function Dist2(a: Point, b: Point): int
  {
    (a.x - b.x) * (a.x - b.x) + (a.y - b.y) * (a.y - b.y)
  }

  /** The closed square `[c.x - 40, c.x + 40] x [c.y - 40, c.y + 40]`. */
  predicate InSquare(p: Point, c: Point)
  {
    c.x - CollisionHalfSide <= p.x <= c.x + CollisionHalfSide &&
    c.y - CollisionHalfSide <= p.y <= c.y + CollisionHalfSide
  }

  /** The range the random candidates are drawn from:
      `[40, width - 40] x [40, height - 40]`, both ends included. */
  predicate InBounds(p: Point, width: int, height: int)
  {
    HitboxRadius <= p.x <= width - HitboxRadius &&
    HitboxRadius <= p.y <= height - HitboxRadius
  }

  lemma SquareOfSmall(a: int)
    requires -2 * CollisionHalfSide <= a <= 2 * CollisionHalfSide
    ensures a * a <= 4 * CollisionHalfSide * CollisionHalfSide
  {
    var b := if a >= 0 then a else -a;
    assert a * a == b * b;
    assert b * b <= b * 80 <= 80 * 80;
  }

  /** A point inside two collision squares forces their centres within
      80 units on each axis, so far closer than `MinDistance`. */
  lemma SharedPointMeansClose(p: Point, a: Point, b: Point)
    requires InSquare(p, a) && InSquare(p, b)
    ensures Dist2(a, b) < MinDistance * MinDistance
  {
    SquareOfSmall(a.x - b.x);
    SquareOfSmall(a.y - b.y);
  }
}
