/** Integer plane geometry of the game: points, squared distances and the
    capped step that every mover takes toward its destination. */
module Geometry {

  /** The map is MAX_X by MAX_Y units. */
  const MAX_X: int := 16000
  const MAX_Y: int := 9000
  /** Largest value of a 32-bit signed integer; the "no target yet" distance. */
  const I32_MAX: int := 0x7fff_ffff

  datatype Vec2 = Vec2(x: int, y: int)

  predicate OnMap(p: Vec2) {
    0 <= p.x <= MAX_X && 0 <= p.y <= MAX_Y
  }

  function Sq(n: int): (r: int)
    ensures r >= 0
  {
    n * n
  }

  lemma SqZero(n: int)
    ensures Sq(n) == 0 <==> n == 0
  {
    if n != 0 {
      assert n * n > 0;
    }
  }

  /** Squared Euclidean distance, never negative. */
  function DistSq(a: Vec2, b: Vec2): (r: int)
    ensures r >= 0
  {
    Sq(a.x - b.x) + Sq(a.y - b.y)
  }

  /** The squared distance is zero exactly between equal points. */
  lemma DistSqZero(a: Vec2, b: Vec2)
    ensures DistSq(a, b) == 0 <==> a == b
  {
    SqZero(a.x - b.x);
    SqZero(a.y - b.y);
  }

  lemma DistSqSymmetric(a: Vec2, b: Vec2)
    ensures DistSq(a, b) == DistSq(b, a)
  {
    assert Sq(a.x - b.x) == Sq(b.x - a.x);
    assert Sq(a.y - b.y) == Sq(b.y - a.y);
  }

  lemma {:induction false} SqBounded(n: int, m: int)
    requires 0 <= m && -m <= n <= m
    ensures Sq(n) <= m * m
  {
    if n >= 0 {
      assert n * n <= n * m <= m * m;
    } else {
      assert (-n) * (-n) <= (-n) * m <= m * m;
    }
  }

  /** Two points of the map are never farther apart than the 32-bit range allows:
      every squared distance between on-map points fits in an i32. */
  lemma DistSqFitsI32(a: Vec2, b: Vec2)
    requires OnMap(a) && OnMap(b)
    ensures DistSq(a, b) <= MAX_X * MAX_X + MAX_Y * MAX_Y < I32_MAX
  {
    SqBounded(a.x - b.x, MAX_X);
    SqBounded(a.y - b.y, MAX_Y);
  }

  /** The floating-point half of a capped move: from `from`, a step of length
      `cap` toward `to`, truncated back to integers. It is not modelled; callers
      pass it in. */
  type Stepper = (Vec2, Vec2, int) -> Vec2

  /** A stepper that never carries a mover farther than `cap`. */
  ghost predicate CapRespecting(far: Stepper) {
    forall from: Vec2, to: Vec2, cap: int :: cap >= 0 ==> DistSq(from, far(from, to, cap)) <= cap * cap
  }

  /** Move from `from` toward `to` by at most `cap`: a destination within reach
      is reached exactly, anything farther is left to the stepper. The program
      compares the distance itself with `cap`; since a distance is never
      negative, that test fails for every negative cap, and for a non-negative
      cap it holds exactly when the squared distance is at most `cap * cap`. */
  function MoveCapped(from: Vec2, to: Vec2, cap: int, far: Stepper): (r: Vec2)
    ensures cap >= 0 && DistSq(from, to) <= cap * cap ==> r == to
    ensures cap < 0 ==> r == far(from, to, cap)
    ensures DistSq(from, to) > cap * cap ==> r == far(from, to, cap)
  {
    if cap >= 0 && DistSq(from, to) <= cap * cap then to else far(from, to, cap)
  }

  /** A mover standing on its destination stays there, whatever the
      non-negative cap. */
  lemma MoveCappedArrived(p: Vec2, cap: int, far: Stepper)
    requires cap >= 0
    ensures MoveCapped(p, p, cap, far) == p
  {
    DistSqZero(p, p);
  }

  /** With a stepper that respects the cap, a capped move never goes farther
      than `cap`, and it lands on `to` exactly when `to` is within reach. */
  lemma MoveCappedWithinCap(from: Vec2, to: Vec2, cap: int, far: Stepper)
    requires cap >= 0
    requires CapRespecting(far)
    ensures DistSq(from, MoveCapped(from, to, cap, far)) <= cap * cap
    ensures MoveCapped(from, to, cap, far) == to <==> DistSq(from, to) <= cap * cap
  {
    var r := MoveCapped(from, to, cap, far);
    DistSqZero(from, to);
    if DistSq(from, to) > cap * cap {
      assert DistSq(from, far(from, to, cap)) <= cap * cap;
      assert r != to;
    }
  }
}
