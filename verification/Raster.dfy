/** Pixels and straight lines: the frame buffer, and Bresenham's loop proved exact. */
module Raster {
  import opened Arithmetic

  /** A C `int`. */
  newtype Int32 = x: int | -0x8000_0000 <= x < 0x8000_0000

  type Color = nat

  function Abs(a: int): nat { if a < 0 then -a else a }

  function Max(a: nat, b: nat): nat { if a >= b then a else b }

  // ---------------------------------------------------------------- the frame buffer

  /** The visible part is w by h; a row takes `pitch` bytes, a pixel one word of four. */
  class Screen {
    const w: nat
    const h: nat
    const pitch: nat
    const fb: array<Color>

    constructor (w: nat, h: nat, pitch: nat, fb: array<Color>)
      requires pitch % 4 == 0 && 4 * w <= pitch && h * pitch <= 4 * fb.Length
      ensures this.w == w && this.h == h && this.pitch == pitch && this.fb == fb && Wf()
    {
      this.w, this.h, this.pitch, this.fb := w, h, pitch, fb;
    }

    ghost predicate Wf() { pitch % 4 == 0 && 4 * w <= pitch && h * pitch <= 4 * fb.Length }

    /** Word i of the frame buffer shows the point (x, y). */
    predicate Shows(i: int, x: int, y: int) { 0 <= x < w && 0 <= y < h && 4 * i == y * pitch + 4 * x }

    /** The word `row[x]` of the row at byte y * pitch. */
    function WordOf(x: int, y: int): int { (y * pitch + 4 * x) / 4 }

    lemma InBuffer(x: int, y: int)
      requires Wf() && 0 <= x < w && 0 <= y < h
      ensures 0 <= WordOf(x, y) < fb.Length && Shows(WordOf(x, y), x, y)
    {
      assert (y + 1) * pitch <= h * pitch;
      assert y * pitch == 4 * (y * (pitch / 4));
    }

    /** Two visible points never share a word. */
    lemma OnePoint(i: int, x: int, y: int, u: int, v: int)
      requires Wf() && Shows(i, x, y) && Shows(i, u, v)
      ensures x == u && y == v
    {
      assert y < v ==> (y + 1) * pitch <= v * pitch;
      assert v < y ==> (v + 1) * pitch <= y * pitch;
    }

    /** `put_px`: exactly the point's word changes, or, off the screen, nothing. */
    method PutPx(x: int, y: int, color: Color)
      requires Wf()
      modifies fb
      ensures forall i | 0 <= i < fb.Length :: fb[i] == if Shows(i, x, y) then color else old(fb[i])
    {
      if 0 <= x < w && 0 <= y < h {
        InBuffer(x, y);
        fb[WordOf(x, y)] := color;
      }
    }
  }

  // ---------------------------------------------------------------- the line, point by point

  datatype Line = Line(x0: int, y0: int, x1: int, y1: int) {
    function Dx(): nat { Abs(x1 - x0) }

    function Dy(): nat { Abs(y1 - y0) }

    function Steps(): nat { Max(Dx(), Dy()) }

    function Sx(): int { if x0 < x1 then 1 else -1 }

    function Sy(): int { if y0 < y1 then 1 else -1 }
  }

  /** Steps on the minor axis after k steps on the major: k * minor / major rounded to the nearest
      integer, halves away from the start. */
  function Minor(k: nat, major: nat, minor: nat): nat {
    if major == 0 then 0 else (2 * minor * k + major) / (2 * major)
  }

  /** Steps in x and y of point k. */
  function Offset(dx: nat, dy: nat, k: nat): (nat, nat) {
    if dx >= dy then (k, Minor(k, dx, dy)) else (Minor(k, dy, dx), k)
  }

  /** Point k of the line. */
  function PointAt(l: Line, k: nat): (int, int) {
    var (a, b) := Offset(l.Dx(), l.Dy(), k);
    (l.x0 + l.Sx() * a, l.y0 + l.Sy() * b)
  }

  /** How far point (k, m) is off the ideal line, times the major side. */
  function Off(major: int, minor: int, m: int, k: int): int { major * m - minor * k }

  /** The rounding in multiplied-out form. */
  lemma MinorIs(k: nat, major: nat, minor: nat, m: nat)
    requires major > 0 && -(major as int) < 2 * Off(major, minor, m, k) <= major
    ensures Minor(k, major, minor) == m
  {
    var n, d := 2 * minor * k + major, 2 * major;
    assert n - m * d == major - 2 * Off(major, minor, m, k);
    DivMod(n, d, m, n - m * d);
  }

  lemma MinorBounds(k: nat, major: nat, minor: nat)
    requires major > 0
    ensures -(major as int) < 2 * Off(major, minor, Minor(k, major, minor), k) <= major
  {
    var n, d := 2 * minor * k + major, 2 * major;
    var m := n / d;
    assert n == m * d + n % d;
    assert n - m * d == major - 2 * Off(major, minor, m, k);
  }

  /** Every point lies within half a pixel of the ideal line, measured on the minor axis: with the
      two sides as fractions of the major axis, twice the distance is at most one pixel. */
  lemma HalfPixel(l: Line, k: nat)
    requires l.Steps() > 0
    ensures var (a, b) := Offset(l.Dx(), l.Dy(), k);
            Abs(2 * Off(l.Dx(), l.Dy(), b, a)) <= l.Steps()
  {
    MinorBounds(k, l.Steps(), if l.Dx() >= l.Dy() then l.Dy() else l.Dx());
    hide Minor;
  }

  /** The line starts and ends on its two points, its points are pairwise different, and each is one
      king's move from the one before: max(|dx|, |dy|) + 1 points, no gap. */
  lemma LineShape(l: Line)
    ensures PointAt(l, 0) == (l.x0, l.y0) && PointAt(l, l.Steps()) == (l.x1, l.y1)
    ensures forall j: nat, k: nat | j < k <= l.Steps() :: PointAt(l, j) != PointAt(l, k)
    ensures forall k: nat | k < l.Steps() :: Adjacent(PointAt(l, k), PointAt(l, k + 1))
  {
    hide Minor, Off;
    var major, minor := l.Steps(), if l.Dx() >= l.Dy() then l.Dy() else l.Dx();
    MinorOfPoint(minor);
    if major > 0 {
      OffAtEnds(major, minor);
      MinorIs(0, major, minor, 0);
      MinorIs(major, major, minor, minor);
      forall k: nat ensures Minor(k, major, minor) <= Minor(k + 1, major, minor) <= Minor(k, major, minor) + 1 {
        MinorNext(k, major, minor);
      }
    }
  }

  /** A king's move. */
  predicate Adjacent(p: (int, int), q: (int, int)) { p != q && Abs(p.0 - q.0) <= 1 && Abs(p.1 - q.1) <= 1 }

  lemma OffAtEnds(major: nat, minor: nat)
    ensures Off(major, minor, 0, 0) == 0 && Off(major, minor, minor, major) == 0
  {
  }

  lemma OffSteps(major: int, minor: int, m: int, k: int)
    ensures Off(major, minor, m + 1, k) == Off(major, minor, m, k) + major
    ensures Off(major, minor, m, k + 1) == Off(major, minor, m, k) - minor
  {
  }

  /** One step further on the major axis the rounded minor axis moves by 0 or 1. */
  lemma MinorNext(k: nat, major: nat, minor: nat)
    requires major > 0 && minor <= major
    ensures Minor(k + 1, major, minor)
         == Minor(k, major, minor)
            + if 2 * (Off(major, minor, Minor(k, major, minor), k) - minor) <= -(major as int) then 1 else 0
  {
    hide Minor, Off;
    MinorBounds(k, major, minor);
    var m := Minor(k, major, minor);
    OffSteps(major, minor, m, k);
    OffSteps(major, minor, m, k + 1);
    if 2 * (Off(major, minor, m, k) - minor) <= -(major as int) {
      MinorIs(k + 1, major, minor, m + 1);
    } else {
      MinorIs(k + 1, major, minor, m);
    }
  }

  lemma MinorOfPoint(minor: nat)
    ensures Minor(0, 0, minor) == 0
  {
  }

  // ---------------------------------------------------------------- Bresenham's loop

  /** The error term of the loop at offset (a, b). */
  function ErrAt(dx: nat, dy: nat, a: nat, b: nat): int { Off(dx, dy, b + 1, a + 1) }

  lemma ErrSteps(dx: nat, dy: nat, a: nat, b: nat)
    ensures ErrAt(dx, dy, a, b) == Off(dx, dy, b, a) + dx - dy
    ensures ErrAt(dx, dy, a + 1, b) == ErrAt(dx, dy, a, b) - dy
    ensures ErrAt(dx, dy, a, b + 1) == ErrAt(dx, dy, a, b) + dx
    ensures ErrAt(dx, dy, 0, 0) == dx - dy
    ensures Off(dy, dx, a, b) == -Off(dx, dy, b, a)
  {
  }

  /** The two comparisons of the loop take exactly the steps of the ideal line. */
  lemma LoopStep(dx: nat, dy: nat, k: nat)
    requires Max(dx, dy) > 0
    ensures var (a, b) := Offset(dx, dy, k);
            var e2 := 2 * ErrAt(dx, dy, a, b);
            && Offset(dx, dy, k + 1) == (a + (if e2 >= -(dy as int) then 1 else 0), b + (if e2 <= dx then 1 else 0))
            && (if dx == 0 || dy == 0 then e2 == 2 * dx - 2 * dy else Abs(e2) <= 3 * Max(dx, dy) - 2)
  {
    hide Minor, Off, ErrAt;
    var (a, b) := Offset(dx, dy, k);
    ErrSteps(dx, dy, a, b);
    if dx >= dy {
      MinorBounds(k, dx, dy);
      MinorNext(k, dx, dy);
      FlatOff(dx, k);
    } else {
      MinorBounds(k, dy, dx);
      MinorNext(k, dy, dx);
      FlatOff(dy, k);
    }
  }

  /** A horizontal or vertical line is never off. */
  lemma FlatOff(major: nat, k: nat)
    requires major > 0
    ensures Minor(k, major, 0) == 0 && Off(major, 0, 0, k) == 0
  {
    MinorIs(k, major, 0, 0);
  }

  /** Word i shows one of the first n points of the line. */
  predicate Drawn(screen: Screen, l: Line, i: int, n: nat) {
    exists k: nat :: k < n && OnPoint(screen, l, i, k)
  }

  predicate OnPoint(screen: Screen, l: Line, i: int, k: nat) {
    screen.Shows(i, PointAt(l, k).0, PointAt(l, k).1)
  }

  lemma DrawnNext(screen: Screen, l: Line, i: int, n: nat)
    ensures Drawn(screen, l, i, n + 1) <==> Drawn(screen, l, i, n) || OnPoint(screen, l, i, n)
  {
    hide OnPoint;
    if OnPoint(screen, l, i, n) {
      assert n < n + 1;
    }
  }

  /** The error term at point k. */
  function ErrOn(dx: nat, dy: nat, k: nat): int {
    var (a, b) := Offset(dx, dy, k);
    ErrAt(dx, dy, a, b)
  }

  function ErrOf(l: Line, k: nat): int { ErrOn(l.Dx(), l.Dy(), k) }

  lemma FirstErr(l: Line)
    ensures ErrOf(l, 0) == l.Dx() - l.Dy()
  {
    hide Off;
    var major, minor := l.Steps(), if l.Dx() >= l.Dy() then l.Dy() else l.Dx();
    MinorOfPoint(minor);
    OffAtEnds(major, minor);
    if major > 0 {
      MinorIs(0, major, minor, 0);
    }
    ErrSteps(l.Dx(), l.Dy(), 0, 0);
  }

  predicate IsInt32(n: int) { -0x8000_0000 <= n < 0x8000_0000 }

  /** Points stay in the box of the two ends. */
  lemma OffsetInBox(dx: nat, dy: nat, k: nat)
    requires k <= Max(dx, dy)
    ensures Offset(dx, dy, k).0 <= dx && Offset(dx, dy, k).1 <= dy
  {
    hide Minor, Off;
    if dx >= dy {
      MinorInBox(k, dx, dy);
    } else {
      MinorInBox(k, dy, dx);
    }
  }

  lemma MinorInBox(k: nat, major: nat, minor: nat)
    requires k <= major
    ensures Minor(k, major, minor) <= minor
  {
    if major > 0 {
      MinorBounds(k, major, minor);
      var m := Minor(k, major, minor);
      hide Minor, Off;
      if m > minor {
        OffOutside(major, minor, m, k);
      }
    }
  }

  lemma OffOutside(major: nat, minor: nat, m: nat, k: nat)
    requires k <= major && m > minor
    ensures Off(major, minor, m, k) >= major
  {
    assert major * m >= major * (minor + 1);
    assert minor * k <= minor * major;
  }


  predicate Between(a: int, b: int, n: int) { a <= n <= b || b <= n <= a }

  // ---------------------------------------------------------------- what fits an int

  /** The largest and the smallest distance from the ideal line that occur on a line with these sides,
      and the smallest at which the loop steps in x; all are multiples of the common divisor. */
  function Highest(dx: nat, dy: nat): int
    requires dx > 0 || dy > 0
  {
    var g, n: int, m: int := Gcd(dx, dy), dx / Gcd(dx, dy), dy / Gcd(dx, dy);
    if dx >= dy then g * (n / 2) else g * ((m - 1) / 2)
  }

  function Lowest(dx: nat, dy: nat): int
    requires dx > 0 || dy > 0
  {
    var g, n: int, m: int := Gcd(dx, dy), dx / Gcd(dx, dy), dy / Gcd(dx, dy);
    if dx >= dy then g * -((n - 1) / 2) else g * -(m / 2)
  }

  function LowestStep(dx: nat, dy: nat): int
    requires dx > 0 || dy > 0
  {
    var g, n: int, m: int := Gcd(dx, dy), dx / Gcd(dx, dy), dy / Gcd(dx, dy);
    if dx >= dy then g * -((n - 1) / 2) else g * ((m + 1) / 2 - n)
  }

  /** What a caller can check before drawing a line with these sides. */
  predicate Fits(dx: nat, dy: nat) {
    && IsInt32(dx) && IsInt32(-(dy as int))
    && (dx > 0 || dy > 0 ==>
          && IsInt32(2 * (Highest(dx, dy) + dx - dy)) && IsInt32(2 * (Lowest(dx, dy) + dx - dy))
          && (dx > 0 ==> IsInt32(LowestStep(dx, dy) + dx - 2 * dy)))
  }

  /** One turn of the loop at point k computes no number outside an `int`. */
  predicate TurnFits(dx: nat, dy: nat, k: nat) {
    var e, e' := ErrOn(dx, dy, k), ErrOn(dx, dy, k + 1);
    IsInt32(2 * e) && IsInt32(e') && (2 * e >= -(dy as int) ==> IsInt32(e - dy))
  }

  /** Nor does any other part of the loop. */
  ghost predicate NoOverflow(dx: nat, dy: nat) {
    IsInt32(dx) && IsInt32(-(dy as int)) && forall k: nat | k < Max(dx, dy) :: TurnFits(dx, dy, k)
  }

  lemma ScaledLe(g: int, a: int, b: int)
    ensures g >= 0 && a <= b ==> g * a <= g * b
    ensures g > 0 && g * a <= g * b ==> a <= b
    ensures g > 0 && g * a < g * b ==> a < b
  {
    if g > 0 && a < b {
      ScaledLess(g, a, b);
    } else if g > 0 && b < a {
      ScaledLess(g, b, a);
    }
  }

  lemma ScaledLess(g: int, a: int, b: int)
    requires g > 0 && a < b
    ensures g * a < g * b
  {
    assert g * b == g * a + g * (b - a);
    AtLeastOnce(g, b - a);
  }

  lemma AtLeastOnce(g: int, d: int)
    requires g > 0 && d > 0
    ensures g * d >= g
  {
    assert g * d == g + g * (d - 1);
  }

  lemma ScaledTwice(g: int, a: int)
    ensures g * (2 * a) == 2 * (g * a) && g * -a == -(g * a)
  {
  }

  lemma ScaledSum(g: int, a: int, b: int)
    ensures g * (a + b) == g * a + g * b && g * (a - b) == g * a - g * b
  {
  }

  /** Distances are multiples of the common divisor. */
  lemma OffScaled(g: int, n: int, m: int, b: int, a: int)
    ensures Off(n * g, m * g, b, a) == g * Off(n, m, b, a)
  {
    assert n * g * b == g * (n * b) && m * g * a == g * (m * a);
  }

  /** The two sides over their common divisor. */
  lemma Factors(dx: nat, dy: nat) returns (g: int, n: int, m: int)
    requires dx > 0 || dy > 0
    ensures g == Gcd(dx, dy) > 0 && n == dx / g >= 0 && m == dy / g >= 0 && dx == g * n && dy == g * m
  {
    var n0, m0, x, y := Bezout(dx, dy);
    g, n, m := Gcd(dx, dy), n0, m0;
    DivMod(dx, g, n, 0);
    DivMod(dy, g, m, 0);
  }

  /** No point is further off than the extremes say. */
  lemma OffBand(dx: nat, dy: nat, k: nat)
    requires dx > 0 || dy > 0
    ensures var (a, b) := Offset(dx, dy, k);
            var f := Off(dx, dy, b, a);
            && Lowest(dx, dy) <= f <= Highest(dx, dy)
            && (2 * (f + dx - dy) >= -(dy as int) && dx > 0 ==> LowestStep(dx, dy) <= f)
  {
    hide Off, Offset;
    var g, n, m := Factors(dx, dy);
    var (a, b) := Offset(dx, dy, k);
    var j := Off(n, m, b, a);
    OffScaled(g, n, m, b, a);
    BandOf(dx, dy, k);
    if dx >= dy {
      Halves(g, n, j);
      ScaledLe(g, j, n / 2);
      ScaledLe(g, -((n - 1) / 2), j);
    } else {
      ScaledTwice(g, j);
      Halves(g, m, -j);
      ScaledLe(g, j, (m - 1) / 2);
      ScaledLe(g, -(m / 2), j);
      SteepStep(g, n, m, j);
    }
  }

  /** A step in x happens only where the distance is large enough. */
  lemma SteepStep(g: int, n: int, m: int, j: int)
    requires g > 0
    ensures 2 * (g * j + g * n - g * m) >= -(g * m) ==> g * ((m + 1) / 2 - n) <= g * j
  {
    ScaledTwice(g, j + n);
    ScaledSum(g, j, n);
    ScaledLe(g, m, 2 * (j + n));
    ScaledLe(g, (m + 1) / 2 - n, j);
  }

  /** The band of a point in terms of both axes. */
  lemma BandOf(dx: nat, dy: nat, k: nat)
    requires dx > 0 || dy > 0
    ensures var (a, b) := Offset(dx, dy, k);
            var f := Off(dx, dy, b, a);
            if dx >= dy then -(dx as int) < 2 * f <= dx else -(dy as int) <= 2 * f < dy
  {
    hide Minor, Off;
    var (a, b) := Offset(dx, dy, k);
    ErrSteps(dx, dy, a, b);
    if dx >= dy {
      MinorBounds(k, dx, dy);
    } else {
      MinorBounds(k, dy, dx);
    }
  }

  /** From a band on multiples of g to one on the factors. */
  lemma Halves(g: int, n: int, j: int)
    requires g > 0 && -(g * n) < 2 * (g * j) <= g * n
    ensures -((n - 1) / 2) <= j <= n / 2
  {
    ScaledTwice(g, j);
    ScaledTwice(g, n);
    ScaledLe(g, 2 * j, n);
    ScaledLe(g, -n, 2 * j);
  }

  /** ... and every multiple within the band occurs. */
  lemma OffOccurs(dx: nat, dy: nat, j: int) returns (k: nat)
    requires dx > 0 || dy > 0
    requires var f := Gcd(dx, dy) * j;
             if dx >= dy then -(dx as int) < 2 * f <= dx else -(dy as int) <= 2 * f < dy
    ensures k < Max(dx, dy)
    ensures var (a, b) := Offset(dx, dy, k); Off(dx, dy, b, a) == Gcd(dx, dy) * j
  {
    hide Off, Minor;
    var g := Gcd(dx, dy);
    var n, m, x, y := Bezout(dx, dy);
    OneTimes(g, n, m, x, y);
    var b;
    if dx >= dy {
      k, b := CombineMajor(dx, dy, g, n, m, x, y, j);
    } else {
      ScaledTwice(g, j);
      k, b := CombineMajor(dy, dx, g, m, n, y, x, -j);
      ErrSteps(dy, dx, k, b);
    }
  }

  lemma OneTimes(g: nat, n: nat, m: nat, x: int, y: int)
    requires g > 0 && x * (n * g) + y * (m * g) == g
    ensures x * n + y * m == 1
  {
    var z := x * n + y * m;
    assert z * g == x * (n * g) + y * (m * g);
    if z > 1 {
      ScaledLess(g, 1, z);
    } else if z < 1 {
      ScaledLess(g, z, 1);
    }
  }

  lemma CombineMajor(major: nat, minor: nat, g: nat, n: nat, m: nat, x: int, y: int, j: int) returns (k: nat, b: nat)
    requires g > 0 && major == n * g && minor == m * g && major > 0 && x * n + y * m == 1
    requires -(major as int) < 2 * (g * j) <= major
    ensures k < major && b == Minor(k, major, minor) && Off(major, minor, b, k) == g * j
  {
    hide Minor;
    var b': int;
    k, b' := Combine(n, m, x, y, j);
    OffScaled(g, n, m, b', k);
    if k > 0 {
      ScaledLe(n, 1, g);
    }
    NotNegative(major, minor, b', k);
    b := b';
    MinorIs(k, major, minor, b);
  }

  lemma NotNegative(major: nat, minor: nat, b: int, k: nat)
    requires major > 0 && 2 * Off(major, minor, b, k) > -(major as int)
    ensures b >= 0
  {
    assert minor * k >= 0;
    ScaledLe(major, b, -1);
  }

  /** The loop stays within `int` exactly on the lines the check lets through. */
  lemma OverflowExactly(dx: nat, dy: nat)
    ensures NoOverflow(dx, dy) <==> Fits(dx, dy)
  {
    if Fits(dx, dy) {
      forall k: nat | k < Max(dx, dy) ensures TurnFits(dx, dy, k) {
        FitsTurn(dx, dy, k);
      }
    }
    if NoOverflow(dx, dy) && (dx > 0 || dy > 0) {
      TurnsFit(dx, dy);
    }
  }

  lemma FitsTurn(dx: nat, dy: nat, k: nat)
    requires Fits(dx, dy) && k < Max(dx, dy)
    ensures TurnFits(dx, dy, k)
  {
    hide Off, Minor, Offset, Highest, Lowest, LowestStep;
    OffBand(dx, dy, k);
    OffBand(dx, dy, k + 1);
    ErrOnIs(dx, dy, k);
    ErrOnIs(dx, dy, k + 1);
    if dx == 0 {
      Upright(dy, k);
    }
  }

  /** On an upright line nothing is ever off. */
  lemma Upright(dy: nat, k: nat)
    requires dy > 0
    ensures ErrOn(0, dy, k) == -(dy as int)
  {
    FlatOff(dy, k);
    ErrOnIs(0, dy, k);
    ErrSteps(0, dy, 0, k);
  }

  lemma ErrOnIs(dx: nat, dy: nat, k: nat)
    ensures var (a, b) := Offset(dx, dy, k); ErrOn(dx, dy, k) == Off(dx, dy, b, a) + dx - dy
  {
    hide Minor, Offset;
    var (a, b) := Offset(dx, dy, k);
    ErrSteps(dx, dy, a, b);
  }

  lemma TurnsFit(dx: nat, dy: nat)
    requires NoOverflow(dx, dy) && (dx > 0 || dy > 0)
    ensures Fits(dx, dy)
  {
    SidesFit(dx, dy);
    hide NoOverflow;
    var g, n, m := Factors(dx, dy);
    if dx >= dy {
      FlatTurns(dx, dy, g, n, m);
    } else {
      SteepTurns(dx, dy, g, n, m);
    }
  }

  lemma FlatTurns(dx: nat, dy: nat, g: int, n: int, m: int)
    requires NoOverflow(dx, dy) && dx > 0 && dx >= dy && g == Gcd(dx, dy) > 0 && dx == g * n && dy == g * m && n >= 0
    ensures IsInt32(2 * (g * (n / 2) + dx - dy))
    ensures IsInt32(2 * (g * -((n - 1) / 2) + dx - dy)) && IsInt32(g * -((n - 1) / 2) + dx - 2 * dy)
  {
    hide NoOverflow, Gcd;
    assert n > 0;
    TurnAt(dx, dy, g, n, n / 2);
    TurnAt(dx, dy, g, n, -((n - 1) / 2));
    FlatStepped(g, n, m);
  }

  /** At the lower end of the band of a flat line the loop steps in x. */
  lemma FlatStepped(g: int, n: int, m: int)
    requires g > 0 && g * m <= g * n
    ensures 2 * (g * -((n - 1) / 2) + g * n - g * m) >= -(g * m)
  {
    ScaledLe(g, m, n);
    var j := -((n - 1) / 2);
    ScaledTwice(g, j + n);
    ScaledSum(g, j, n);
    ScaledLe(g, m, 2 * (j + n));
  }

  lemma SteepTurns(dx: nat, dy: nat, g: int, n: int, m: int)
    requires NoOverflow(dx, dy) && dx < dy && g == Gcd(dx, dy) > 0 && dx == g * n && dy == g * m && n >= 0 && m >= 0
    ensures IsInt32(2 * (g * ((m - 1) / 2) + dx - dy)) && IsInt32(2 * (g * -(m / 2) + dx - dy))
    ensures dx > 0 ==> IsInt32(g * ((m + 1) / 2 - n) + dx - 2 * dy)
  {
    hide NoOverflow, Gcd;
    ScaledLe(g, m, n);
    TurnAt(dx, dy, g, m, (m - 1) / 2);
    TurnAt(dx, dy, g, m, -(m / 2));
    if dx > 0 {
      assert n > 0;
      TurnAt(dx, dy, g, m, (m + 1) / 2 - n);
      SteepStepped(g, n, m);
    }
  }

  lemma SidesFit(dx: nat, dy: nat)
    requires NoOverflow(dx, dy)
    ensures IsInt32(dx) && IsInt32(-(dy as int))
  {
  }

  lemma SteepStepped(g: int, n: int, m: int)
    requires g > 0
    ensures 2 * (g * ((m + 1) / 2 - n) + g * n - g * m) >= -(g * m)
  {
    var j := (m + 1) / 2 - n;
    ScaledTwice(g, j + n);
    ScaledSum(g, j, n);
    ScaledLe(g, m, 2 * (j + n));
  }

  /** A turn whose distance is j times the common divisor. */
  lemma TurnAt(dx: nat, dy: nat, g: nat, n: int, j: int)
    requires NoOverflow(dx, dy) && (dx > 0 || dy > 0) && g == Gcd(dx, dy) > 0 && g * n == Max(dx, dy)
    requires if dx >= dy then -n < 2 * j <= n else -n <= 2 * j < n
    ensures IsInt32(2 * (g * j + dx - dy))
    ensures 2 * (g * j + dx - dy) >= -(dy as int) ==> IsInt32(g * j + dx - 2 * dy)
  {
    hide Off, Minor, Offset;
    ScaledTwice(g, j);
    ScaledTwice(g, n);
    if dx >= dy {
      ScaledLe(g, 2 * j, n);
      ScaledLess(g, -n, 2 * j);
    } else {
      ScaledLess(g, 2 * j, n);
      ScaledLe(g, -n, 2 * j);
    }
    var k := OffOccurs(dx, dy, j);
    ErrOnIs(dx, dy, k);
    assert TurnFits(dx, dy, k);
  }

  /** The longest side that is safe whatever the other side. */
  const LONGEST := 715_827_883

  /** Up to it every line is drawn without overflow, and beyond it there is a line that is not. */
  lemma LongestSide(side: nat)
    ensures (forall other: nat | other <= side :: NoOverflow(side, other) && NoOverflow(other, side)) <==> side <= LONGEST
  {
    if side <= LONGEST {
      forall other: nat | other <= side ensures NoOverflow(side, other) && NoOverflow(other, side) {
        ShortFits(side, other);
        ShortFits(other, side);
      }
    } else {
      SteepOverflows(side);
    }
  }

  lemma ShortFits(dx: nat, dy: nat)
    requires Max(dx, dy) <= LONGEST
    ensures NoOverflow(dx, dy)
  {
    forall k: nat | k < Max(dx, dy) ensures TurnFits(dx, dy, k) {
      hide Off, Minor, Offset;
      LoopStep(dx, dy, k);
      ErrOnIs(dx, dy, k);
      ErrOnIs(dx, dy, k + 1);
      BandOf(dx, dy, k);
      BandOf(dx, dy, k + 1);
    }
  }

  /** On the line from (0, 0) to (n, 1) the doubled error term passes the largest `int` half-way. */
  lemma SteepOverflows(n: nat)
    requires n > LONGEST
    ensures !NoOverflow(n, 1)
  {
    var k := n / 2;
    MinorIs(k, n, 1, if n % 2 == 0 then 1 else 0);
    MinorIs((n + 1) / 2, n, 1, 1);
    ErrSteps(n, 1, (n + 1) / 2, 1);
    assert TurnFits(n, 1, (n + 1) / 2) ==> IsInt32(2 * ErrOn(n, 1, (n + 1) / 2));
  }

  /** A diagonal never overflows, however long. */
  lemma DiagonalFits(n: nat)
    requires IsInt32(n)
    ensures NoOverflow(n, n)
  {
    forall k: nat | k < n ensures TurnFits(n, n, k) {
      MinorIs(k, n, n, k);
      MinorIs(k + 1, n, n, k + 1);
      ErrSteps(n, n, k, k);
      ErrSteps(n, n, k + 1, k + 1);
    }
  }

  /** What one turn of the loop does to the point and the error term. */
  lemma Advance(l: Line, k: nat)
    requires k < l.Steps()
    ensures var dx, dy, e := l.Dx(), l.Dy(), ErrOf(l, k);
            var stepX, stepY := 2 * e >= -(dy as int), 2 * e <= dx;
            && ErrOf(l, k + 1) == e - (if stepX then dy else 0) + (if stepY then dx else 0)
            && PointAt(l, k + 1).0 == PointAt(l, k).0 + (if stepX then l.Sx() else 0)
            && PointAt(l, k + 1).1 == PointAt(l, k).1 + (if stepY then l.Sy() else 0)
            && Between(l.x0, l.x1, PointAt(l, k + 1).0) && Between(l.y0, l.y1, PointAt(l, k + 1).1)
  {
    hide Minor, Off, ErrAt, Offset;
    var dx, dy := l.Dx(), l.Dy();
    var (a, b) := Offset(dx, dy, k);
    LoopStep(dx, dy, k);
    OffsetInBox(dx, dy, k + 1);
    ErrSteps(dx, dy, a, b);
    ErrSteps(dx, dy, a + 1, b);
  }

  /** One point more. */
  method PlotNext(screen: Screen, ghost l: Line, ghost k: nat, x: int, y: int, color: Color)
    requires screen.Wf() && (x, y) == PointAt(l, k)
    modifies screen.fb
    ensures forall i | 0 <= i < screen.fb.Length ::
              screen.fb[i] == if OnPoint(screen, l, i, k) then color else old(screen.fb[i])
    ensures forall i :: Drawn(screen, l, i, k + 1) <==> Drawn(screen, l, i, k) || OnPoint(screen, l, i, k)
  {
    hide Drawn, PointAt, Screen.Shows;
    forall i ensures Drawn(screen, l, i, k + 1) <==> Drawn(screen, l, i, k) || OnPoint(screen, l, i, k) {
      DrawnNext(screen, l, i, k);
    }
    screen.PutPx(x, y, color);
  }

  /** `svga_draw_line`: exactly the words of the line's points change, and no `int` overflows. */
  method DrawLine(screen: Screen, startX: Int32, startY: Int32, x1: Int32, y1: Int32, color: Color)
    requires screen.Wf()
    requires var l := Line(startX as int, startY as int, x1 as int, y1 as int); Fits(l.Dx(), l.Dy())
    modifies screen.fb
    ensures var l := Line(startX as int, startY as int, x1 as int, y1 as int);
            forall i | 0 <= i < screen.fb.Length ::
              screen.fb[i] == if Drawn(screen, l, i, l.Steps() + 1) then color else old(screen.fb[i])
  {
    hide PointAt, ErrOn, Drawn, Fits, OnPoint, Screen.Shows;
    ghost var l := Line(startX as int, startY as int, x1 as int, y1 as int);
    var x0, y0 := startX, startY;
    OverflowExactly(l.Dx(), l.Dy());
    var dx: Int32 := if x1 > x0 then x1 - x0 else x0 - x1;
    var sx: Int32 := if x0 < x1 then 1 else -1;
    var dy: Int32 := if y1 > y0 then y0 - y1 else y1 - y0;
    var sy: Int32 := if y0 < y1 then 1 else -1;
    var err: Int32 := dx + dy;
    ghost var k: nat := 0;
    LineShape(l);
    FirstErr(l);
    assert forall i :: !Drawn(screen, l, i, 0) by { NothingDrawn(screen, l); }
    while true
      invariant k <= l.Steps() && (x0 as int, y0 as int) == PointAt(l, k)
      invariant err as int == ErrOf(l, k)
      invariant forall i | 0 <= i < screen.fb.Length ::
                  screen.fb[i] == if Drawn(screen, l, i, k) then color else old(screen.fb[i])
      decreases l.Steps() - k
    {
      PlotNext(screen, l, k, x0 as int, y0 as int, color);
      if x0 == x1 && y0 == y1 {
        break;
      }
      Advance(l, k);
      assert TurnFits(l.Dx(), l.Dy(), k);
      var e2: Int32 := 2 * err;
      if e2 >= dy {
        err := err + dy;
        x0 := x0 + sx;
      }
      if e2 <= dx {
        err := err + dx;
        y0 := y0 + sy;
      }
      k := k + 1;
    }
  }

  lemma NothingDrawn(screen: Screen, l: Line)
    ensures forall i :: !Drawn(screen, l, i, 0)
  {
  }
}
