/**
 How large a reachable game can get. The body is a set of distinct board
 cells, so it has at most Squares * Squares of them; the score and the
 coordinates therefore fit the 32-bit score and 16-bit coordinates the game
 stores them in.
 */
module Capacity {
  import opened Grid
  import opened Game
  import opened Invariants

  const I16Min: int := -0x8000
  const I16Max: int := 0x7FFF
  const I32Max: int := 0x7FFF_FFFF

  /** A numbering of the board cells by 0 .. Squares * Squares - 1. */
  function Code(p: Point): int {
    p.0 * Squares + p.1
  }

  /** The integers 0 .. n - 1. */
  function Range(n: nat): (r: set<int>)
    ensures forall c :: c in r <==> 0 <= c < n
  {
    if n == 0 then {} else Range(n - 1) + {n - 1}
  }

  /** The codes of the cells of s. */
  function Codes(s: seq<Point>): set<int> {
    if |s| == 0 then {} else {Code(s[0])} + Codes(s[1..])
  }

  lemma CodeInjective(p: Point, q: Point)
    requires InGrid(p) && InGrid(q) && Code(p) == Code(q)
    ensures p == q
  {
  }

  lemma {:induction false} RangeSize(n: nat)
    ensures |Range(n)| == n
  {
    if n > 0 {
      RangeSize(n - 1);
      assert Range(n) == Range(n - 1) + {n - 1};
    }
  }

  lemma {:induction false} CodesOfDistinct(s: seq<Point>)
    requires AllInGrid(s) && Distinct(s)
    ensures |Codes(s)| == |s|
    ensures Codes(s) <= Range(Squares * Squares)
    decreases |s|
  {
    if |s| > 0 {
      var t := s[1..];
      assert AllInGrid(t) && Distinct(t);
      CodesOfDistinct(t);
      if Code(s[0]) in Codes(t) {
        var j := CodeFrom(t, Code(s[0]));
        CodeInjective(s[0], t[j]);
        assert false;
      }
    }
  }

  /** Some cell of s carries the code c. */
  lemma {:induction false} CodeFrom(s: seq<Point>, c: int) returns (j: nat)
    requires c in Codes(s)
    ensures j < |s| && Code(s[j]) == c
    decreases |s|
  {
    if Code(s[0]) == c {
      j := 0;
    } else {
      var k := CodeFrom(s[1..], c);
      j := k + 1;
    }
  }

  lemma SubsetSize(a: set<int>, b: set<int>)
    requires a <= b
    ensures |a| <= |b|
  {
    assert b == a + (b - a);
    assert a * (b - a) == {};
  }

  /** Pigeonhole: a sequence of distinct board cells has at most Squares * Squares elements. */
  lemma DistinctCellsBounded(s: seq<Point>)
    requires AllInGrid(s) && Distinct(s)
    ensures |s| <= Squares * Squares
  {
    CodesOfDistinct(s);
    RangeSize(Squares * Squares);
    SubsetSize(Codes(s), Range(Squares * Squares));
  }

  /**
   In every reachable state the body has at most Squares * Squares cells,
   the score is at most FruitBonus times that, and every stored coordinate
   fits a 16-bit integer, so neither the coordinates nor the 32-bit score
   can overflow.
   */
  lemma NoOverflow(g: SnakeGame)
    requires Inv(g)
    ensures |g.snake.body| <= Squares * Squares
    ensures 0 <= g.score <= FruitBonus * Squares * Squares <= I32Max
    ensures I16Min <= g.snake.head.0 <= I16Max && I16Min <= g.snake.head.1 <= I16Max
    ensures forall i :: 0 <= i < |g.snake.body| ==>
              I16Min <= g.snake.body[i].0 <= I16Max && I16Min <= g.snake.body[i].1 <= I16Max
  {
    DistinctCellsBounded(g.snake.body);
  }
}
