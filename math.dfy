/**
 * Coordinate arithmetic of the snake board: plain vector addition and the
 * wrap-around ("toroidal") addition that makes the snake re-enter the board
 * from the opposite edge (src/math.ts).
 *
 * JavaScript's `%` truncates toward zero, so its result carries the sign of
 * the dividend; Dafny's `%` is Euclidean. `JsRem` models the JavaScript
 * operator and `Modulo` is the source's `((a % b) + b) % b` built on it.
 */
module Math {

  /** A board coordinate `[row, col]` (the source's `coord2D`). */
  datatype Coord2D = Coord2D(row: int, col: int)

  function Abs(x: int): nat {
    if x < 0 then -x else x
  }

  /** `b` divides `x`. */
  predicate Divides(b: int, x: int)
    requires b != 0
  {
    x % b == 0
  }

  /** The range a floor-style remainder takes: `[0, b)` for a positive
      divisor, `(b, 0]` for a negative one. */
  predicate InFloorRange(r: int, b: int) {
    if b > 0 then 0 <= r < b else b < r <= 0
  }

  // ---------------------------------------------------------------------
  // Integer helper facts (Dafny's `/` and `%` are Euclidean)
  // ---------------------------------------------------------------------

  lemma {:induction false} MulNatAtLeast(b: nat, d: nat)
    requires d >= 1
    ensures b * d >= b
  {
    if d > 1 {
      MulNatAtLeast(b, d - 1);
      assert b * d == b * (d - 1) + b;
    }
  }

  lemma MulAbsAtLeast(b: int, d: int)
    requires d != 0
    ensures Abs(b * d) >= Abs(b)
  {
    MulNatAtLeast(Abs(b), Abs(d));
    assert Abs(b) * Abs(d) == Abs(b * d) by {
      if b < 0 && d < 0 { assert b * d == (-b) * (-d); }
      else if b < 0 { assert b * d == -((-b) * d); }
      else if d < 0 { assert b * d == -(b * (-d)); }
    }
  }

  /** A multiple of `b` whose magnitude is below `|b|` is zero. */
  lemma SmallMultipleIsZero(b: int, x: int)
    requires b != 0 && Divides(b, x) && Abs(x) < Abs(b)
    ensures x == 0
  {
    var q := x / b;
    assert x == b * q;
    if q != 0 {
      MulAbsAtLeast(b, q);
    }
  }

  lemma MultipleDivides(b: int, k: int)
    requires b != 0
    ensures Divides(b, b * k)
  {
    var x := b * k;
    var q, r := x / b, x % b;
    assert x == b * q + r && 0 <= r < Abs(b);
    assert b * (k - q) == r;
    if k - q != 0 {
      MulAbsAtLeast(b, k - q);
    }
  }

  lemma AbsMultipleDivides(b: int, k: int)
    requires b != 0
    ensures Divides(b, Abs(b) * k)
  {
    if b > 0 {
      MultipleDivides(b, k);
    } else {
      assert Abs(b) * k == b * -k;
      MultipleDivides(b, -k);
    }
  }

  lemma DividesSum(b: int, x: int, y: int)
    requires b != 0 && Divides(b, x) && Divides(b, y)
    ensures Divides(b, x + y) && Divides(b, x - y)
  {
    assert x == b * (x / b) && y == b * (y / b);
    assert x + y == b * (x / b + y / b);
    assert x - y == b * (x / b - y / b);
    MultipleDivides(b, x / b + y / b);
    MultipleDivides(b, x / b - y / b);
  }

  // ---------------------------------------------------------------------
  // JavaScript's `%` and the source's `modulo`
  // ---------------------------------------------------------------------

  /** JavaScript's `a % b` on integers: the remainder of the division
      truncated toward zero, with the sign of the dividend `a`.
      (`b == 0` gives NaN in JavaScript and is excluded.) */
  function JsRem(a: int, b: int): (r: int)
    requires b != 0
    ensures a >= 0 ==> 0 <= r < Abs(b)
    ensures a < 0 ==> r <= 0 && -r < Abs(b)
    ensures Divides(b, a - r)
  {
    var m := Abs(b);
    var r := if a >= 0 then a % m else -((-a) % m);
    JsRemCongruent(a, b, r);
    r
  }

  lemma JsRemCongruent(a: int, b: int, r: int)
    requires b != 0
    requires r == if a >= 0 then a % Abs(b) else -((-a) % Abs(b))
    ensures Divides(b, a - r)
  {
    var m := Abs(b);
    if a >= 0 {
      assert a - r == m * (a / m);
      AbsMultipleDivides(b, a / m);
    } else {
      assert (-a) == m * ((-a) / m) + (-a) % m;
      assert a - r == m * -((-a) / m);
      AbsMultipleDivides(b, -((-a) / m));
    }
  }

  /** The source's `modulo(a, b)`, i.e. `((a % b) + b) % b` with JavaScript's
      `%`: a remainder that takes the sign of the divisor, so it is never
      negative for a positive `b`, and is congruent to `a` modulo `b`. */
  function Modulo(a: int, b: int): (r: int)
    requires b != 0
    ensures InFloorRange(r, b)
    ensures Divides(b, a - r)
  {
    var inner := JsRem(a, b);
    var r := JsRem(inner + b, b);
    DividesSum(b, a - inner, inner + b - r);
    assert (a - inner) + (inner + b - r) == (a - r) + b;
    MultipleDivides(b, 1);
    DividesSum(b, (a - r) + b, b);
    r
  }

  /** A value in the floor range that is congruent to `a` is `Modulo(a, b)`:
      the range and the congruence determine the result. */
  lemma {:induction false} ModuloUnique(a: int, b: int, r: int)
    requires b != 0 && InFloorRange(r, b) && Divides(b, a - r)
    ensures Modulo(a, b) == r
  {
    var m := Modulo(a, b);
    DividesSum(b, a - r, a - m);
    assert (a - r) - (a - m) == m - r;
    SmallMultipleIsZero(b, m - r);
  }

  /** For a positive divisor the source's `modulo` is Dafny's Euclidean `%`,
      even though the inner JavaScript `%` truncates toward zero. */
  lemma {:induction false} ModuloIsEuclidean(a: int, b: int)
    requires b > 0
    ensures Modulo(a, b) == a % b
  {
    assert a - a % b == b * (a / b);
    MultipleDivides(b, a / b);
    ModuloUnique(a, b, a % b);
  }

  /** A value already in range is left alone. */
  lemma {:induction false} ModuloOfInRange(a: int, b: int)
    requires b != 0 && InFloorRange(a, b)
    ensures Modulo(a, b) == a
  {
    MultipleDivides(b, 0);
    ModuloUnique(a, b, a);
  }

  lemma {:induction false} ModuloIdempotent(a: int, b: int)
    requires b != 0
    ensures Modulo(Modulo(a, b), b) == Modulo(a, b)
  {
    ModuloOfInRange(Modulo(a, b), b);
  }

  /** Adding a whole number of periods does not change the result. */
  lemma {:induction false} ModuloPeriodic(a: int, k: int, b: int)
    requires b != 0
    ensures Modulo(a + k * b, b) == Modulo(a, b)
  {
    var r := Modulo(a, b);
    MultipleDivides(b, k);
    DividesSum(b, a - r, k * b);
    assert (a - r) + k * b == (a + k * b) - r;
    ModuloUnique(a + k * b, b, r);
  }

  /** Reducing a summand first does not change the reduced sum. */
  lemma {:induction false} ModuloAddReduced(x: int, y: int, b: int)
    requires b != 0
    ensures Modulo(Modulo(x, b) + y, b) == Modulo(x + y, b)
  {
    var mx := Modulo(x, b);
    var r := Modulo(mx + y, b);
    DividesSum(b, x - mx, mx + y - r);
    assert (x - mx) + (mx + y - r) == (x + y) - r;
    ModuloUnique(x + y, b, r);
  }

  // ---------------------------------------------------------------------
  // Vector addition on the plane and on the torus
  // ---------------------------------------------------------------------

  /** The source's `vec2PlaneAdd`: component-wise sum, i.e. the translation
      of `a` by the offset `b`. */
  function PlaneAdd(a: Coord2D, b: Coord2D): (r: Coord2D)
    ensures r.row - a.row == b.row && r.col - a.col == b.col
  {
    Coord2D(a.row + b.row, a.col + b.col)
  }

  function Negate(a: Coord2D): Coord2D {
    Coord2D(-a.row, -a.col)
  }

  /** `PlaneAdd` makes coordinates an abelian group with `(0, 0)` as zero. */
  lemma PlaneAddIsGroup(a: Coord2D, b: Coord2D, c: Coord2D)
    ensures PlaneAdd(a, b) == PlaneAdd(b, a)
    ensures PlaneAdd(PlaneAdd(a, b), c) == PlaneAdd(a, PlaneAdd(b, c))
    ensures PlaneAdd(a, Coord2D(0, 0)) == a
    ensures PlaneAdd(a, Negate(a)) == Coord2D(0, 0)
  {
  }

  /** A coordinate on a `rows` x `cols` board, 0-based. */
  predicate OnBoard(c: Coord2D, rows: int, cols: int) {
    0 <= c.row < rows && 0 <= c.col < cols
  }

  /** The source's `vec2ToroidAdd`: the sum reduced with `modulo` on each
      axis, so a move past an edge re-enters at the opposite edge. With
      positive moduli the result is on the board, and each component is
      congruent to the plain sum. */
  function ToroidAdd(a: Coord2D, b: Coord2D, rowMod: int, colMod: int): (r: Coord2D)
    requires rowMod != 0 && colMod != 0
    ensures rowMod > 0 && colMod > 0 ==> OnBoard(r, rowMod, colMod)
    ensures InFloorRange(r.row, rowMod) && InFloorRange(r.col, colMod)
    ensures Divides(rowMod, a.row + b.row - r.row)
    ensures Divides(colMod, a.col + b.col - r.col)
  {
    Coord2D(Modulo(a.row + b.row, rowMod), Modulo(a.col + b.col, colMod))
  }

  /** The torus sum is the plane sum reduced (Euclidean) on each axis. */
  lemma {:induction false} ToroidAddIsReducedPlaneAdd(a: Coord2D, b: Coord2D, rows: int, cols: int)
    requires rows > 0 && cols > 0
    ensures ToroidAdd(a, b, rows, cols)
         == Coord2D(PlaneAdd(a, b).row % rows, PlaneAdd(a, b).col % cols)
  {
    ModuloIsEuclidean(a.row + b.row, rows);
    ModuloIsEuclidean(a.col + b.col, cols);
  }

  /** Adding `(0, 0)` to a coordinate on the board leaves it unchanged. */
  lemma {:induction false} ToroidAddZero(a: Coord2D, rows: int, cols: int)
    requires rows > 0 && cols > 0 && OnBoard(a, rows, cols)
    ensures ToroidAdd(a, Coord2D(0, 0), rows, cols) == a
  {
    ModuloOfInRange(a.row, rows);
    ModuloOfInRange(a.col, cols);
  }

  /** Two successive moves equal one move by the summed displacement. */
  lemma {:induction false} ToroidAddCompose(a: Coord2D, b: Coord2D, d: Coord2D, rowMod: int, colMod: int)
    requires rowMod != 0 && colMod != 0
    ensures ToroidAdd(ToroidAdd(a, b, rowMod, colMod), d, rowMod, colMod)
         == ToroidAdd(a, PlaneAdd(b, d), rowMod, colMod)
  {
    ModuloAddReduced(a.row + b.row, d.row, rowMod);
    ModuloAddReduced(a.col + b.col, d.col, colMod);
    assert a.row + b.row + d.row == a.row + (b.row + d.row);
    assert a.col + b.col + d.col == a.col + (b.col + d.col);
  }

  /** A move followed by the opposite move returns to the start square. */
  lemma {:induction false} ToroidAddUndo(a: Coord2D, b: Coord2D, rows: int, cols: int)
    requires rows > 0 && cols > 0 && OnBoard(a, rows, cols)
    ensures ToroidAdd(ToroidAdd(a, b, rows, cols), Negate(b), rows, cols) == a
  {
    ToroidAddCompose(a, b, Negate(b), rows, cols);
    assert PlaneAdd(b, Negate(b)) == Coord2D(0, 0);
    ToroidAddZero(a, rows, cols);
  }

  /** Wrap-around at the edges of the 21 x 21 board of the game. */
  lemma {:induction false} ToroidAddWrapsOnBoard21()
    ensures ToroidAdd(Coord2D(0, 0), Coord2D(-1, 0), 21, 21) == Coord2D(20, 0)
    ensures ToroidAdd(Coord2D(20, 0), Coord2D(1, 0), 21, 21) == Coord2D(0, 0)
    ensures ToroidAdd(Coord2D(0, 20), Coord2D(0, 1), 21, 21) == Coord2D(0, 0)
    ensures ToroidAdd(Coord2D(0, 0), Coord2D(0, -1), 21, 21) == Coord2D(0, 20)
  {
    ModuloUnique(-1, 21, 20);
    ModuloUnique(21, 21, 0);
    ModuloOfInRange(0, 21);
    ModuloOfInRange(20, 21);
  }
}
