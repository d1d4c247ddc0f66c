/** Integer arithmetic as Rust's `i32` operators compute it: `abs` and the
    truncating remainder `%`, related to Dafny's Euclidean `%`. */
module RustInt {
  function Abs(v: int): nat {
    if v < 0 then -v else v
  }

  /** Rust's `%` on integers: the remainder of a division truncated toward
      zero, so it carries the sign of the dividend. Rust panics on a zero
      divisor, hence the precondition. */
  function TruncRem(a: int, m: int): (r: int)
    requires m != 0
    ensures Abs(r) < Abs(m)
    ensures a >= 0 ==> r >= 0
    ensures a <= 0 ==> r <= 0
  {
    if a >= 0 then a % Abs(m) else -((-a) % Abs(m))
  }

  lemma {:induction false} MulAwayFromZero(d: int, m: int)
    requires m > 0
    ensures d >= 1 ==> d * m >= m
    ensures d <= -1 ==> d * m <= -m
  {
    if d >= 1 {
      assert d * m == (d - 1) * m + m;
      assert (d - 1) * m >= 0;
    } else if d <= -1 {
      assert d * m == (d + 1) * m - m;
      assert (d + 1) * m <= 0;
    }
  }

  /** Euclidean remainders are unique: a value in [0, m) that differs from
      `a` by a multiple of `m` is `a % m`. */
  lemma {:induction false} EuclideanRemUnique(a: int, m: int, q: int, r: int)
    requires m > 0 && 0 <= r < m && a == q * m + r
    ensures a % m == r
  {
    var d := a / m - q;
    assert d * m == r - a % m by {
      assert a == (a / m) * m + a % m;
      assert d * m == (a / m) * m - q * m;
    }
    MulAwayFromZero(d, m);
  }

  /** For a positive divisor the truncated remainder is the Euclidean one,
      shifted down by `m` when the dividend is negative and not a multiple. */
  lemma {:induction false} TruncRemVersusEuclidean(a: int, m: int)
    requires m > 0
    ensures TruncRem(a, m) == if a < 0 && a % m != 0 then a % m - m else a % m
  {
    if a < 0 {
      var k := (-a) % m;
      var q := (-a) / m;
      assert -a == q * m + k;
      if k == 0 {
        EuclideanRemUnique(a, m, -q, 0);
      } else {
        EuclideanRemUnique(a, m, -q - 1, m - k);
      }
    }
  }

}

/** Grid coordinates, the four directions and the wrap-around used by the game
    (src/utils.rs). Everything here is pure. Integers are unbounded: the
    source's `i32` overflow is not modelled. */
module Utils {
  import opened RustInt

  datatype Option<T> = None | Some(value: T) {
    /** Rust's `Option::unwrap_or`. */
    function UnwrapOr(default: T): T {
      match this
      case Some(v) => v
      case None => default
    }
  }

  /** A grid cell as a pair of signed integers; it may lie outside the grid
      until it is translated. */
  datatype Coords = Coords(x: int, y: int)

  datatype Direction = Up | Down | Right | Left

  function Add(a: Coords, b: Coords): Coords {
    Coords(a.x + b.x, a.y + b.y)
  }

  function Sub(a: Coords, b: Coords): Coords {
    Coords(a.x - b.x, a.y - b.y)
  }

  /** The vector pointing the other way. */
  function Neg(c: Coords): Coords {
    Sub(Coords(0, 0), c)
  }

  lemma AddSubCancel(a: Coords, b: Coords)
    ensures Sub(Add(a, b), b) == a
    ensures Add(Sub(a, b), b) == a
  {
  }

  /** One axis of `Coords::translate`: a negative truncated remainder is
      mapped back into range through the remainder of the absolute value. */
  function TranslateAxis(v: int, max: int): (r: int)
    requires max != 0
    ensures max > 0 ==> 0 <= r < max
  {
    if TruncRem(v, max) < 0 then max - TruncRem(Abs(v), max) else TruncRem(v, max)
  }

  /** `Coords::translate`: wraps a coordinate onto a `max` by `max` torus. */
  function Translate(c: Coords, max: int): (r: Coords)
    requires max != 0
    ensures max > 0 ==> 0 <= r.x < max && 0 <= r.y < max
  {
    Coords(TranslateAxis(c.x, max), TranslateAxis(c.y, max))
  }

  lemma {:induction false} TranslateAxisEuclidean(v: int, max: int)
    requires max > 0
    ensures TranslateAxis(v, max) == v % max
  {
    TruncRemVersusEuclidean(v, max);
    TruncRemVersusEuclidean(Abs(v), max);
    if v < 0 && v % max != 0 {
      // -v and v leave remainders that add up to max
      var q := v / max;
      assert v == q * max + v % max;
      EuclideanRemUnique(-v, max, -q - 1, max - v % max);
    }
  }

  /** Despite the truncating `%` and `abs`, translating agrees with the
      Euclidean remainder on both axes. */
  lemma TranslateEuclidean(c: Coords, max: int)
    requires max > 0
    ensures Translate(c, max) == Coords(c.x % max, c.y % max)
  {
    TranslateAxisEuclidean(c.x, max);
    TranslateAxisEuclidean(c.y, max);
  }

  lemma TranslateIdempotent(c: Coords, max: int)
    requires max > 0
    ensures Translate(Translate(c, max), max) == Translate(c, max)
  {
    TranslateEuclidean(c, max);
    TranslateEuclidean(Translate(c, max), max);
    EuclideanRemUnique(c.x % max, max, 0, c.x % max);
    EuclideanRemUnique(c.y % max, max, 0, c.y % max);
  }

  /** A cell already on the grid is left where it is. */
  lemma TranslateFixesGridCells(c: Coords, max: int)
    requires max > 0
    ensures 0 <= c.x < max && 0 <= c.y < max ==> Translate(c, max) == c
  {
    if 0 <= c.x < max && 0 <= c.y < max {
      TranslateEuclidean(c, max);
      EuclideanRemUnique(c.x, max, 0, c.x);
      EuclideanRemUnique(c.y, max, 0, c.y);
    }
  }

  lemma {:induction false} SameRemIff(a: int, b: int, m: int)
    requires m > 0
    ensures a % m == b % m <==> (a - b) % m == 0
  {
    var qa, qb := a / m, b / m;
    assert a == qa * m + a % m;
    assert b == qb * m + b % m;
    if a % m == b % m {
      assert a - b == (qa - qb) * m + 0;
      EuclideanRemUnique(a - b, m, qa - qb, 0);
    } else if (a - b) % m == 0 {
      var k := (a - b) / m;
      assert a - b == k * m;
      assert a == (qb + k) * m + b % m;
      EuclideanRemUnique(a, m, qb + k, b % m);
    }
  }

  /** Two coordinates translate to the same cell exactly when they differ by
      a multiple of `max` on each axis. */
  lemma TranslateSameCell(a: Coords, b: Coords, max: int)
    requires max > 0
    ensures Translate(a, max) == Translate(b, max)
        <==> (a.x - b.x) % max == 0 && (a.y - b.y) % max == 0
  {
    TranslateEuclidean(a, max);
    TranslateEuclidean(b, max);
    SameRemIff(a.x, b.x, max);
    SameRemIff(a.y, b.y, max);
  }

  /** A unit step always lands on a different cell of a grid at least two
      cells wide. */
  lemma StepChangesCell(a: Coords, d: Direction, max: int)
    requires max >= 2
    ensures Translate(Add(a, ToCoords(d)), max) != Translate(a, max)
  {
    TranslateSameCell(Add(a, ToCoords(d)), a, max);
    EuclideanRemUnique(1, max, 0, 1);
    EuclideanRemUnique(-1, max, -1, max - 1);
  }

  lemma TranslateMinusOne()
    ensures Translate(Coords(-1, -1), 10) == Coords(9, 9)
  {
  }

  /** `From<Direction> for Coords`: the unit step of each direction, with the
      y axis growing downwards. */
  function ToCoords(d: Direction): Coords {
    match d
    case Up => Coords(0, -1)
    case Down => Coords(0, 1)
    case Right => Coords(1, 0)
    case Left => Coords(-1, 0)
  }

  /** The reverse heading, as a table independent of the vectors. */
  function Opposite(d: Direction): Direction {
    match d
    case Up => Down
    case Down => Up
    case Right => Left
    case Left => Right
  }

  /** Both tables, one heading at a time. */
  lemma Headings(d: Direction)
    ensures d == Up ==> ToCoords(d) == Coords(0, -1) && Opposite(d) == Down
    ensures d == Down ==> ToCoords(d) == Coords(0, 1) && Opposite(d) == Up
    ensures d == Right ==> ToCoords(d) == Coords(1, 0) && Opposite(d) == Left
    ensures d == Left ==> ToCoords(d) == Coords(-1, 0) && Opposite(d) == Right
  {
  }

  /** The tables of `Headings` restated as one case split over the four
      headings. It adds no fact; lemmas that relate two headings call it on
      one of them so that the solver splits four ways instead of searching
      through implications, which keeps those proofs cheap. */
  lemma HeadingCases(d: Direction)
    ensures || (d == Up && ToCoords(d) == Coords(0, -1) && Opposite(d) == Down)
            || (d == Down && ToCoords(d) == Coords(0, 1) && Opposite(d) == Up)
            || (d == Right && ToCoords(d) == Coords(1, 0) && Opposite(d) == Left)
            || (d == Left && ToCoords(d) == Coords(-1, 0) && Opposite(d) == Right)
  {
    Headings(d);
  }

  /** One step along an axis, defined independently of the directions. */
  predicate IsUnitStep(c: Coords) {
    Abs(c.x) + Abs(c.y) == 1
  }

  lemma ToCoordsIsUnit(d: Direction)
    ensures IsUnitStep(ToCoords(d))
  {
    Headings(d);
  }

  /** The four vectors one step long. */
  lemma UnitStepCases(c: Coords)
    requires IsUnitStep(c)
    ensures c == Coords(0, 1) || c == Coords(0, -1) || c == Coords(1, 0) || c == Coords(-1, 0)
  {
  }

  /** Every unit step is the step of some direction, which `FromCoords`
      recovers from the step's negation. */
  lemma UnitStepHasDirection(c: Coords)
    requires IsUnitStep(c)
    ensures FromCoords(Neg(c)).Some? && ToCoords(FromCoords(Neg(c)).value) == c
  {
    UnitStepCases(c);
    AxisStepHasDirection(c);
  }

  lemma AxisStepHasDirection(c: Coords)
    requires c == Coords(0, 1) || c == Coords(0, -1) || c == Coords(1, 0) || c == Coords(-1, 0)
    ensures FromCoords(Neg(c)).Some? && ToCoords(FromCoords(Neg(c)).value) == c
  {
  }

  /** Distinct directions have distinct unit vectors. */
  lemma ToCoordsInjective(a: Direction, b: Direction)
    ensures ToCoords(a) == ToCoords(b) <==> a == b
  {
    Headings(b);
    HeadingCases(a);
  }

  /** No heading is its own reverse. */
  lemma OppositeDiffers(d: Direction)
    ensures Opposite(d) != d
  {
    Headings(d);
  }

  /** Two unit vectors cancel exactly when the headings are reverses. */
  lemma OppositeSumsToZero(a: Direction, b: Direction)
    ensures Add(ToCoords(a), ToCoords(b)) == Coords(0, 0) <==> b == Opposite(a)
  {
    Headings(b);
    HeadingCases(a);
  }

  /** `Direction::is_same_or_opposite`: equal, or the two unit vectors cancel. */
  function IsSameOrOpposite(a: Direction, b: Direction): bool {
    a == b || Add(ToCoords(a), ToCoords(b)) == Coords(0, 0)
  }

  /** The guard holds exactly for equal and for reversed headings. */
  lemma SameOrOppositeCases(a: Direction, b: Direction)
    ensures IsSameOrOpposite(a, b) <==> (b == a || b == Opposite(a))
  {
    OppositeSumsToZero(a, b);
    if b == a || b == Opposite(a) {
      assert IsSameOrOpposite(a, b);
    } else {
      assert !IsSameOrOpposite(a, b);
    }
  }

  lemma OppositeIsSymmetric(a: Direction, b: Direction)
    ensures b == Opposite(a) <==> a == Opposite(b)
  {
    Headings(b);
    HeadingCases(a);
  }

  /** Two headings are the same or opposite exactly when their unit vectors
      lie on the same axis; in particular the relation is symmetric. */
  lemma SameOrOppositeIffSameAxis(a: Direction, b: Direction)
    ensures IsSameOrOpposite(a, b) <==> (ToCoords(a).x == 0 <==> ToCoords(b).x == 0)
    ensures IsSameOrOpposite(a, b) == IsSameOrOpposite(b, a)
  {
    SameOrOppositeCases(a, b);
    SameOrOppositeCases(b, a);
    OppositeIsSymmetric(a, b);
    Headings(b);
    HeadingCases(a);
  }

  /** `From<Coords> for Option<Direction>`: the direction whose unit vector is
      the NEGATION of `c`, or None for every other coordinate. */
  function FromCoords(c: Coords): Option<Direction> {
    if c == Coords(0, 1) then Some(Up)
    else if c == Coords(0, -1) then Some(Down)
    else if c == Coords(-1, 0) then Some(Right)
    else if c == Coords(1, 0) then Some(Left)
    else None
  }

  /** `FromCoords` yields `d` exactly for the negation of `d`'s unit vector. */
  lemma FromCoordsInverse(c: Coords, d: Direction)
    ensures FromCoords(c) == Some(d) <==> ToCoords(d) == Neg(c)
  {
    if d == Up {
      assert ToCoords(d) == Coords(0, -1);
      assert ToCoords(d) == Neg(c) <==> c == Coords(0, 1);
      assert FromCoords(c) == Some(d) <==> c == Coords(0, 1);
    } else if d == Down {
      assert ToCoords(d) == Coords(0, 1);
      assert ToCoords(d) == Neg(c) <==> c == Coords(0, -1);
      assert FromCoords(c) == Some(d) <==> c == Coords(0, -1);
    } else if d == Right {
      assert ToCoords(d) == Coords(1, 0);
      assert ToCoords(d) == Neg(c) <==> c == Coords(-1, 0);
      assert FromCoords(c) == Some(d) <==> c == Coords(-1, 0);
    } else {
      assert ToCoords(d) == Coords(-1, 0);
      assert ToCoords(d) == Neg(c) <==> c == Coords(1, 0);
      assert FromCoords(c) == Some(d) <==> c == Coords(1, 0);
    }
  }

  /** `FromCoords` gives None exactly for the coordinates that negate no
      direction's unit vector. */
  lemma FromCoordsNone(c: Coords)
    ensures FromCoords(c).None? <==> forall d :: ToCoords(d) != Neg(c)
  {
    forall d
      ensures FromCoords(c) == Some(d) <==> ToCoords(d) == Neg(c)
    {
      FromCoordsInverse(c, d);
    }
  }

  /** A cell that moved from `a` by the unit step of `d` reports `d` when its
      old position minus its new position is converted back. */
  lemma FromCoordsOfStep(a: Coords, d: Direction)
    ensures FromCoords(Sub(a, Add(a, ToCoords(d)))) == Some(d)
  {
    if d == Up {
      assert ToCoords(d) == Coords(0, -1);
    } else if d == Down {
      assert ToCoords(d) == Coords(0, 1);
    } else if d == Right {
      assert ToCoords(d) == Coords(1, 0);
    } else {
      assert ToCoords(d) == Coords(-1, 0);
    }
  }

  lemma FromCoordsOfZero()
    ensures FromCoords(Coords(0, 0)) == None
  {
  }
}
