/**
 The board of the snake game: integer cells on a square grid of `Squares`
 cells per side, and the four movement directions as unit vectors.
 */
module Grid {

  /** Number of cells along each side of the board. */
  const Squares: int := 14

  /** A cell (x, y); x grows to the right, y grows downwards. */
  type Point = (int, int)

  function Add(p: Point, q: Point): Point {
    (p.0 + q.0, p.1 + q.1)
  }

  function Neg(p: Point): Point {
    (-p.0, -p.1)
  }

  /** True iff both coordinates lie in [0, Squares). */
  predicate InGrid(p: Point) {
    0 <= p.0 < Squares && 0 <= p.1 < Squares
  }

  /** The grid together with the ring of cells one step outside it. */
  predicate NearGrid(p: Point) {
    -1 <= p.0 <= Squares && -1 <= p.1 <= Squares
  }

  /** True iff p is one of the four axis-aligned vectors of length one. */
  predicate IsUnit(p: Point) {
    || (p.0 == 0 && (p.1 == 1 || p.1 == -1))
    || (p.1 == 0 && (p.0 == 1 || p.0 == -1))
  }

  /** True iff p and q are neighbouring cells (they share an edge). */
  predicate Adjacent(p: Point, q: Point) {
    IsUnit((q.0 - p.0, q.1 - p.1))
  }

  datatype Direction = Left | Right | Up | Down {

    /** The step a move in this direction adds to the head. */
    function Vector(): (v: Point)
      ensures IsUnit(v)
      ensures this == Left || this == Right <==> v.1 == 0
      ensures this == Right || this == Down <==> v.0 + v.1 == 1
    {
      match this
      case Left => (-1, 0)
      case Right => (1, 0)
      case Up => (0, -1)
      case Down => (0, 1)
    }
  }

  /** Distinct directions move the head differently. */
  lemma VectorInjective(d: Direction, e: Direction)
    ensures d.Vector() == e.Vector() <==> d == e
  {
  }

  /** The four direction vectors are exactly the unit vectors. */
  lemma UnitIsDirection(p: Point)
    ensures IsUnit(p) <==> exists d: Direction :: d.Vector() == p
  {
    if IsUnit(p) {
      if p == (-1, 0) {
        assert Left.Vector() == p;
      } else if p == (1, 0) {
        assert Right.Vector() == p;
      } else if p == (0, -1) {
        assert Up.Vector() == p;
      } else {
        assert Down.Vector() == p;
      }
    }
  }

  /** A unit step from a grid cell lands on the grid or just outside it. */
  lemma UnitStepStaysNear(p: Point, v: Point)
    requires InGrid(p) && IsUnit(v)
    ensures NearGrid(Add(p, v))
    ensures Adjacent(p, Add(p, v))
    ensures Add(p, v) != p
  {
  }
}
