/** The Hilbert-curve lookup table of a channel: hilbert_rot, hilbert_d2xy and
    the table that the curve mapping fills from them.

    The C loop consumes the index two bits at a time, lowest pair first, with a
    sub-square side s = 1, 2, 4, ... while s < n.  Curve(k, d) is the point the
    loop holds after k rounds; CurveInjective and CurveOnto make it a bijection
    onto the 2^k x 2^k grid. */
module Hilbert {
  import opened Arith

  function Pow2(k: nat): (r: nat)
    ensures r >= 1
  {
    if k == 0 then 1 else 2 * Pow2(k - 1)
  }

  function Pow4(k: nat): (r: nat)
    ensures r >= 1
  {
    if k == 0 then 1 else 4 * Pow4(k - 1)
  }

  lemma {:induction false} Pow4IsSquare(k: nat)
    ensures Pow4(k) == Pow2(k) * Pow2(k)
  {
    if k > 0 {
      Pow4IsSquare(k - 1);
      calc {
        Pow2(k) * Pow2(k);
        (2 * Pow2(k - 1)) * (2 * Pow2(k - 1));
        4 * (Pow2(k - 1) * Pow2(k - 1));
      }
    }
  }

  /** The index d with its low k base-4 digits dropped: the t the loop
      holds after k rounds. */
  function Above(d: nat, k: nat): nat
  {
    DivBounds(d, Pow4(k));
    d / Pow4(k)
  }

  // ---------------------------------------------------------------------
  // hilbert_rot and one round of hilbert_d2xy
  // ---------------------------------------------------------------------

  /** A point (x, y) of the grid. */
  datatype Point = Point(x: int, y: int)

  /** hilbert_rot: rotate/reflect a point of the n x n square according to
      its quadrant bits.  For either choice of bits it maps the square onto
      itself and undoes itself when applied twice. */
  function Rot(n: int, x: int, y: int, rx: int, ry: int): (r: Point)
    ensures 0 <= x < n && 0 <= y < n ==> 0 <= r.x < n && 0 <= r.y < n
  {
    if ry == 0 then
      if rx == 1 then Point(n - 1 - y, n - 1 - x) else Point(y, x)
    else
      Point(x, y)
  }

  lemma RotInvolution(n: int, x: int, y: int, rx: int, ry: int)
    requires rx == 0 || rx == 1
    ensures var r := Rot(n, x, y, rx, ry); Rot(n, r.x, r.y, rx, ry) == Point(x, y)
  {
  }

  /** One round of the loop: quadrant bits from the low two bits of t, rotate
      the point held so far within the side-s square, then move it into its
      quadrant of the side-2s square.
      rx = 1 & (t / 2);  ry = 1 & (t ^ rx). */
  function Lift(s: int, p: Point, t: nat): (r: Point)
    ensures 0 <= p.x < s && 0 <= p.y < s ==> 0 <= r.x < 2 * s && 0 <= r.y < 2 * s
  {
    var rx := (t / 2) % 2;
    var ry := if t % 2 == rx then 0 else 1;
    var q := Rot(s, p.x, p.y, rx, ry);
    Point(q.x + s * rx, q.y + s * ry)
  }

  lemma LiftBits(s: int, p: Point, t: nat, rx: int, ry: int)
    requires rx == (t / 2) % 2 && ry == if t % 2 == rx then 0 else 1
    ensures var r := Rot(s, p.x, p.y, rx, ry); Lift(s, p, t) == Point(r.x + s * rx, r.y + s * ry)
  {
  }

  /** Only the low base-4 digit of t matters to a round. */
  lemma LiftDigit(s: int, p: Point, t: nat)
    ensures Lift(s, p, t) == Lift(s, p, t % 4)
  {
    var a := t / 4;
    var q := t % 4;
    assert t == 4 * a + q;
    assert t / 2 == 2 * a + q / 2;
    assert (t / 2) % 2 == q / 2;
    assert t % 2 == q % 2;
  }

  /** Quadrant digit of the round that moves a point into quadrant (rx, ry):
      the inverse of the bit selection in Lift. */
  function QuadDigit(rx: int, ry: int): (q: nat)
    ensures q < 4
  {
    if rx == 0 then (if ry == 0 then 0 else 1) else (if ry == 0 then 3 else 2)
  }

  lemma QuadBits(rx: int, ry: int)
    requires (rx == 0 || rx == 1) && (ry == 0 || ry == 1)
    ensures var q := QuadDigit(rx, ry);
      (q / 2) % 2 == rx && (if q % 2 == rx then 0 else 1) == ry
  {
    if rx == 0 && ry == 0 {
      assert QuadDigit(rx, ry) == 0;
    } else if rx == 0 {
      assert QuadDigit(rx, ry) == 1;
    } else if ry == 1 {
      assert QuadDigit(rx, ry) == 2;
    } else {
      assert QuadDigit(rx, ry) == 3;
    }
  }

  /** A round read backwards: its digit and the point it started from. */
  datatype Round = Round(digit: nat, from: Point)

  /** The inverse of one round: the digit read off the quadrant of (x, y) and
      the point the round started from. */
  function Unlift(s: int, x: int, y: int): Round
  {
    var rx := if x >= s then 1 else 0;
    var ry := if y >= s then 1 else 0;
    Round(QuadDigit(rx, ry), Rot(s, x - s * rx, y - s * ry, rx, ry))
  }

  lemma LiftUnlift(s: int, x: int, y: int)
    requires 0 <= x < 2 * s && 0 <= y < 2 * s
    ensures var u := Unlift(s, x, y); 0 <= u.from.x < s && 0 <= u.from.y < s
    ensures var u := Unlift(s, x, y); Lift(s, u.from, u.digit) == Point(x, y)
  {
    var rx := if x >= s then 1 else 0;
    var ry := if y >= s then 1 else 0;
    if rx == 1 { assert s * rx == s; } else { assert s * rx == 0; }
    if ry == 1 { assert s * ry == s; } else { assert s * ry == 0; }
    var x0, y0 := x - s * rx, y - s * ry;
    var q := QuadDigit(rx, ry);
    var p := Rot(s, x0, y0, rx, ry);
    RotInvolution(s, x0, y0, rx, ry);
    QuadBits(rx, ry);
    LiftBits(s, p, q, rx, ry);
  }

  lemma UnliftLift(s: int, p: Point, t: nat)
    requires 0 <= p.x < s && 0 <= p.y < s
    ensures Unlift(s, Lift(s, p, t).x, Lift(s, p, t).y) == Round(t % 4, p)
  {
    LiftDigit(s, p, t);
    UnliftLiftDigit(s, p, t % 4);
  }

  lemma UnliftLiftDigit(s: int, p: Point, q: nat)
    requires 0 <= p.x < s && 0 <= p.y < s && q < 4
    ensures Unlift(s, Lift(s, p, q).x, Lift(s, p, q).y) == Round(q, p)
  {
    if q == 0 {
      LiftBits(s, p, 0, 0, 0);
    } else if q == 1 {
      LiftBits(s, p, 1, 0, 1);
    } else if q == 2 {
      LiftBits(s, p, 2, 1, 1);
    } else {
      LiftBits(s, p, 3, 1, 0);
      RotInvolution(s, p.x, p.y, 1, 0);
    }
  }

  /** From the result of a round one can read back both the digit and the
      point it started from. */
  lemma LiftInjective(s: int, p1: Point, p2: Point, t1: nat, t2: nat)
    requires 0 <= p1.x < s && 0 <= p1.y < s && 0 <= p2.x < s && 0 <= p2.y < s
    requires Lift(s, p1, t1) == Lift(s, p2, t2)
    ensures t1 % 4 == t2 % 4 && p1 == p2
  {
    UnliftLift(s, p1, t1);
    UnliftLift(s, p2, t2);
  }

  // ---------------------------------------------------------------------
  // The curve
  // ---------------------------------------------------------------------

  /** The point hilbert_d2xy holds after k rounds for index d: always inside
      the 2^k x 2^k square. */
  function Curve(k: nat, d: nat): (r: Point)
    ensures 0 <= r.x < Pow2(k) && 0 <= r.y < Pow2(k)
  {
    if k == 0 then Point(0, 0)
    else Lift(Pow2(k - 1), Curve(k - 1, d), Above(d, k - 1))
  }

  /** Distinct points come from indices that agree in their low k digits. */
  lemma {:induction false} CurveInjective(k: nat, d1: nat, d2: nat)
    requires Curve(k, d1) == Curve(k, d2)
    ensures d1 % Pow4(k) == d2 % Pow4(k)
  {
    if k > 0 {
      var m := Pow4(k - 1);
      var s := Pow2(k - 1);
      LiftInjective(s, Curve(k - 1, d1), Curve(k - 1, d2), Above(d1, k - 1), Above(d2, k - 1));
      CurveInjective(k - 1, d1, d2);
      LowDigits(d1, d2, m);
    }
  }

  /** The converse: the curve after k rounds sees only the low k base-4
      digits of the index. */
  lemma {:induction false} CurveLow(k: nat, d1: nat, d2: nat)
    requires d1 % Pow4(k) == d2 % Pow4(k)
    ensures Curve(k, d1) == Curve(k, d2)
  {
    if k > 0 {
      var m := Pow4(k - 1);
      LowDigits(d1, d2, m);
      CurveLow(k - 1, d1, d2);
      LiftDigit(Pow2(k - 1), Curve(k - 1, d1), Above(d1, k - 1));
      LiftDigit(Pow2(k - 1), Curve(k - 1, d2), Above(d2, k - 1));
    }
  }

  /** Every point of the 2^k x 2^k square is visited: d is built digit by
      digit from the top, each digit naming the quadrant the point lies in. */
  lemma {:induction false} CurveOnto(k: nat, x: int, y: int) returns (d: nat)
    requires 0 <= x < Pow2(k) && 0 <= y < Pow2(k)
    ensures d < Pow4(k) && Curve(k, d) == Point(x, y)
  {
    if k == 0 {
      d := 0;
    } else {
      var s := Pow2(k - 1);
      var u := Unlift(s, x, y);
      LiftUnlift(s, x, y);
      var low := CurveOnto(k - 1, u.from.x, u.from.y);
      d := Join(u.digit, low, Pow4(k - 1));
      CurveDigit(k, d, u.from);
    }
  }

  /** Round k lifts the point that the first k - 1 rounds reach on the low
      digits of d by the digit of d above them. */
  lemma CurveDigit(k: nat, d: nat, p: Point)
    requires k > 0 && Curve(k - 1, d % Pow4(k - 1)) == p
    ensures Curve(k, d) == Lift(Pow2(k - 1), p, Above(d, k - 1))
  {
    var m := Pow4(k - 1);
    DivModUnique(d % m, m, 0, d % m);
    CurveLow(k - 1, d, d % m);
    CurveTop(k, d, p, Above(d, k - 1));
  }

  /** Round k lifts the point of the first k - 1 rounds by the digit that
      is left of d after them. */
  lemma CurveTop(k: nat, d: nat, p: Point, q: nat)
    requires k > 0 && Curve(k - 1, d) == p && Above(d, k - 1) == q
    ensures Curve(k, d) == Lift(Pow2(k - 1), p, q)
  {
  }

  /** Some index below 4^k is mapped to (x, y). */
  ghost predicate Visited(k: nat, x: int, y: int)
  {
    exists d: nat :: d < Pow4(k) && Curve(k, d) == Point(x, y)
  }

  /** On indices below 4^k the curve is a bijection onto the 2^k x 2^k square. */
  lemma CurveBijection(k: nat)
    ensures forall d: nat :: d < Pow4(k) ==>
      0 <= Curve(k, d).x < Pow2(k) && 0 <= Curve(k, d).y < Pow2(k)
    ensures forall d1: nat, d2: nat :: d1 < Pow4(k) && d2 < Pow4(k) && Curve(k, d1) == Curve(k, d2) ==> d1 == d2
    ensures forall x: int, y: int :: 0 <= x < Pow2(k) && 0 <= y < Pow2(k) ==> Visited(k, x, y)
  {
    forall d1: nat, d2: nat | d1 < Pow4(k) && d2 < Pow4(k) && Curve(k, d1) == Curve(k, d2)
      ensures d1 == d2
    {
      CurveInjective(k, d1, d2);
      DivModUnique(d1, Pow4(k), 0, d1);
      DivModUnique(d2, Pow4(k), 0, d2);
    }
    forall x: int, y: int | 0 <= x < Pow2(k) && 0 <= y < Pow2(k)
      ensures Visited(k, x, y)
    {
      var d := CurveOnto(k, x, y);
    }
  }

  // ---------------------------------------------------------------------
  // hilbert_d2xy
  // ---------------------------------------------------------------------

  /** The number of rounds the loop makes for side n: the least k with
      2^k >= n, counted from k. */
  function LevelsFrom(n: int, k: nat): (r: nat)
    ensures r >= k && Pow2(r) >= n
    ensures forall j :: k <= j < r ==> Pow2(j) < n
    decreases if Pow2(k) < n then n - Pow2(k) else 0
  {
    if Pow2(k) >= n then k else LevelsFrom(n, k + 1)
  }

  function Levels(n: int): nat
  {
    LevelsFrom(n, 0)
  }

  lemma Pow2Monotone(i: nat, j: nat)
    requires i <= j
    ensures Pow2(i) <= Pow2(j)
    decreases j - i
  {
    if i < j { Pow2Monotone(i, j - 1); }
  }

  lemma LevelsFromPow2(k: nat, j: nat)
    requires j <= k
    ensures LevelsFrom(Pow2(k), j) == k
    decreases k - j
  {
    if j < k {
      Pow2Monotone(j + 1, k);
      LevelsFromPow2(k, j + 1);
    }
  }

  lemma LevelsOfPow2(k: nat)
    ensures Levels(Pow2(k)) == k
  {
    LevelsFromPow2(k, 0);
  }

  /** One more round of the loop: the curve at k + 1 levels, and the index
      with one more digit dropped. */
  lemma CurveStep(k: nat, d: nat)
    ensures Curve(k + 1, d) == Lift(Pow2(k), Curve(k, d), Above(d, k))
    ensures Above(d, k + 1) == Above(d, k) / 4
  {
    DivMod4(d, Pow4(k));
  }

  /** hilbert_d2xy: index d on the curve of side n to its (x, y). */
  method D2xy(n: int, d: nat) returns (x: int, y: int)
    ensures Point(x, y) == Curve(Levels(n), d)
  {
    var t := d;
    x, y := 0, 0;
    var s := 1;
    ghost var k: nat := 0;
    while s < n
      invariant s == Pow2(k) && t == Above(d, k)
      invariant Point(x, y) == Curve(k, d)
      invariant LevelsFrom(n, k) == Levels(n)
      decreases n - s
    {
      CurveStep(k, d);
      x, y := D2xyRound(s, x, y, t);
      t := t / 4;
      s := s * 2;
      k := k + 1;
    }
  }

  /** The body of the hilbert_d2xy loop: read the quadrant bits from the low
      digit of t, rotate, and move into that quadrant of the 2s square. */
  method D2xyRound(s: int, x: int, y: int, t: nat) returns (x': int, y': int)
    ensures Point(x', y') == Lift(s, Point(x, y), t)
  {
    var rx := (t / 2) % 2;
    var ry := if t % 2 == rx then 0 else 1;
    var r := Rot(s, x, y, rx, ry);
    x' := r.x + s * rx;
    y' := r.y + s * ry;
  }

  // ---------------------------------------------------------------------
  // The lookup table built by the curve mapping
  // ---------------------------------------------------------------------

  /** The value a uint16_t keeps of an int. */
  function Trunc16(v: int): (r: int)
    ensures 0 <= r < 0x1_0000
    ensures 0 <= v < 0x1_0000 ==> r == v
  {
    if 0 <= v < 0x1_0000 then DivModUnique(v, 0x1_0000, 0, v); v % 0x1_0000
    else v % 0x1_0000
  }

  /** Cell j of the table: a coordinate of index j / 2, x for even j and y
      for odd j. */
  function Cell(n: nat, j: nat): int
  {
    var p := Curve(Levels(n), j / 2);
    Trunc16(if j % 2 == 0 then p.x else p.y)
  }

  /** uint16_t cmap[2 * n * n]: entry 2i is x and 2i+1 is y of index i, each
      truncated to 16 bits. */
  function CurveTable(n: nat): (t: seq<int>)
    ensures |t| == 2 * (n * n)
    ensures forall j :: 0 <= j < |t| ==> 0 <= t[j] < 0x1_0000
  {
    seq(2 * (n * n), j requires 0 <= j => Cell(n, j))
  }

  /** The largest side for which hilbert_d2xy's int index d holds every
      index below side * side without overflow: 2^15 * 2^15 = 2^30. */
  const MaxSide: nat := 0x8000

  /** The point a flat table stores for index i. */
  function Entry(t: seq<int>, i: nat): Point
    requires 2 * i + 1 < |t|
  {
    Point(t[2 * i], t[2 * i + 1])
  }

  lemma TableEntry(n: nat, i: nat)
    requires i < n * n && Pow2(Levels(n)) <= MaxSide
    ensures 2 * i + 1 < |CurveTable(n)|
    ensures Entry(CurveTable(n), i) == Curve(Levels(n), i)
  {
    CellOf(n, 2 * i, i, 0);
    CellOf(n, 2 * i + 1, i, 1);
  }

  /** Cell 2i + b of the table is coordinate b of index i. */
  lemma CellOf(n: nat, j: nat, i: nat, b: nat)
    requires j == 2 * i + b && b < 2
    ensures Cell(n, j) == Trunc16(if b == 0 then Curve(Levels(n), i).x else Curve(Levels(n), i).y)
  {
    DivModUnique(j, 2, i, b);
  }

  /** Some entry below n * n of table t holds (x, y). */
  ghost predicate Stored(t: seq<int>, n: nat, x: int, y: int)
    requires |t| == 2 * (n * n)
  {
    exists i :: 0 <= i < n * n && Entry(t, i) == Point(x, y)
  }

  /** For a side n = 2^k of at most MaxSide, the table visits every cell
      of the n x n grid exactly once. */
  lemma TableBijection(k: nat)
    requires Pow2(k) <= MaxSide
    ensures var n := Pow2(k); var t := CurveTable(n);
      && (forall i :: 0 <= i < n * n ==> 0 <= Entry(t, i).x < n && 0 <= Entry(t, i).y < n)
      && (forall i, j :: 0 <= i < n * n && 0 <= j < n * n && Entry(t, i) == Entry(t, j) ==> i == j)
      && (forall x: int, y: int :: 0 <= x < n && 0 <= y < n ==> Stored(t, n, x, y))
  {
    var n := Pow2(k);
    var t := CurveTable(n);
    LevelsOfPow2(k);
    Pow4IsSquare(k);
    CurveBijection(k);
    forall i | 0 <= i < n * n
      ensures Entry(t, i) == Curve(k, i)
    {
      TableEntry(n, i);
    }
    forall x: int, y: int | 0 <= x < n && 0 <= y < n
      ensures Stored(t, n, x, y)
    {
      assert Visited(k, x, y);
      var d: nat :| d < Pow4(k) && Curve(k, d) == Point(x, y);
      assert Entry(t, d) == Point(x, y);
    }
  }
}
