/** Circles: the loops that walk a quarter of the circle and turn it, or fill between its arms. */
module Circle {
  import opened Raster

  // ---------------------------------------------------------------- a quarter of the circle

  /** x^2 + y^2 - r^2. */
  function Excess(r: int, x: int, y: int): int { x * x + y * y - r * r }

  /** The error term of the loop at (x, y). */
  function ErrAt(r: int, x: int, y: int): int { Excess(r, x + 1, y + 1) }

  lemma ExcessSteps(r: int, x: int, y: int)
    ensures ErrAt(r, x, y) == Excess(r, x, y) + 2 * x + 2 * y + 2
    ensures ErrAt(r, x, y + 1) == ErrAt(r, x, y) + 2 * (y + 1) + 1
    ensures ErrAt(r, x + 1, y) == ErrAt(r, x, y) + 2 * (x + 1) + 1
    ensures ErrAt(r, -r, 0) == 2 - 2 * r && Excess(r, -r, 0) == 0
  {
  }

  /** One turn of the loop: the two comparisons on the error term, the second after the first has
      moved it. */
  function Next(r: int, x: int, y: int): (int, int) {
    var e2 := ErrAt(r, x, y);
    var y' := if e2 <= y then y + 1 else y;
    (if e2 > x || ErrAt(r, x, y') > y' then x + 1 else x, y')
  }

  /** Within half a pixel or so of the circle: with d the distance of (x, y) from the centre, d - r is
      the excess over d + r, and d is at least the larger of |x| and |y|. */
  predicate Near(r: int, x: int, y: int) { Abs(Excess(r, x, y)) <= Max(Abs(x), Abs(y)) }

  /** A place of the walk. */
  predicate OnArc(r: int, x: int, y: int) { -r <= x <= 0 <= y && Near(r, x, y) }

  lemma StartOnArc(r: int)
    requires r > 0
    ensures OnArc(r, -r, 0)
  {
    ExcessSteps(r, 0, 0);
  }

  /** The walk stays near the circle, and each turn moves right, up, or both. */
  lemma NextNear(r: int, x: int, y: int)
    requires OnArc(r, x, y) && x < 0
    ensures var (x', y') := Next(r, x, y); OnArc(r, x', y') && Adjacent((x, y), (x', y')) && x' >= x && y' >= y
  {
    hide Excess, ErrAt;
    ExcessSteps(r, x, y);
    ExcessSteps(r, x, y + 1);
    ExcessSteps(r, x + 1, y);
    ExcessSteps(r, x + 1, y + 1);
  }

  lemma ArcHeight(r: int, x: int, y: int)
    requires OnArc(r, x, y) && r > 0
    ensures y <= r && (x == 0 ==> y == r)
  {
    hide Excess;
    if y > r {
      TooHigh(r, x, y);
    } else if x == 0 && y < r {
      TooLow(r, y);
    }
  }

  lemma AtLeast(d: nat, s: nat)
    requires d > 0
    ensures d * s >= s
  {
  }

  lemma SquareGap(a: nat, b: nat)
    requires a < b
    ensures b * b >= a * a + a + b
  {
    var d := b - a;
    assert (a + d) * (a + d) == a * a + a * d + d * a + d * d;
    assert d * (a + b) == d * a + d * a + d * d;
    AtLeast(d, a + b);
  }

  lemma TooHigh(r: nat, x: int, y: nat)
    requires y > r
    ensures Excess(r, x, y) >= y + r
  {
    SquareGap(r, y);
  }

  lemma TooLow(r: nat, y: nat)
    requires y < r
    ensures Excess(r, 0, y) <= -(y as int) - r
  {
    SquareGap(y, r);
  }

  /** The places of the walk from (x, y) to where the loop ends, without the last. */
  function Arc(r: int, x: int, y: int): (a: seq<(int, int)>)
    requires r > 0 && OnArc(r, x, y)
    ensures forall k | 0 <= k < |a| :: OnArc(r, a[k].0, a[k].1) && a[k].0 < 0
    ensures x < 0 ==> |a| > 0 && a[0] == (x, y)
    ensures x == 0 ==> a == []
    decreases 2 * r - x - y + if x < 0 then 1 else 0
  {
    if x == 0 then []
    else
      NextNear(r, x, y);
      ArcHeight(r, x, y);
      var (x', y') := Next(r, x, y);
      ArcHeight(r, x', y');
      [(x, y)] + Arc(r, x', y')
  }

  /** All places the loop draws at: the arc, or, for r <= 0, the one place a do-while visits anyway. */
  function Places(r: int): seq<(int, int)> {
    if r <= 0 then [(-r, 0)] else (ExcessSteps(r, 0, 0); Arc(r, -r, 0))
  }

  /** The arc leads from (-r, 0) by king's moves to (0, r), which is a turned copy of its start. */
  lemma {:induction false} ArcShape(r: int, x: int, y: int)
    requires r > 0 && OnArc(r, x, y)
    ensures var a := Arc(r, x, y) + [(0, r)];
            && a[0] == (x, y)
            && forall k | 0 <= k < |a| - 1 :: Adjacent(a[k], a[k + 1]) && a[k].0 <= a[k + 1].0 && a[k].1 <= a[k + 1].1
    decreases 2 * r - x - y + if x < 0 then 1 else 0
  {
    hide Next, Near;
    ArcHeight(r, x, y);
    if x < 0 {
      NextNear(r, x, y);
      var (x', y') := Next(r, x, y);
      ArcHeight(r, x', y');
      ArcShape(r, x', y');
      var a, b := Arc(r, x, y) + [(0, r)], Arc(r, x', y') + [(0, r)];
      assert a == [(x, y)] + b;
      forall k | 0 <= k < |a| - 1
        ensures Adjacent(a[k], a[k + 1]) && a[k].0 <= a[k + 1].0 && a[k].1 <= a[k + 1].1
      {
        if k > 0 {
          assert a[k] == b[k - 1] && a[k + 1] == b[k];
        }
      }
    }
  }

  /** Every number a turn at (x, y) computes fits an `int`: the error term before, between and after the
      two comparisons with what they add, and the coordinates of the points and of the spans. */
  predicate TurnInts(r: int, cx: int, cy: int, x: int, y: int) {
    var e, (x', y') := ErrAt(r, x, y), Next(r, x, y);
    && IsInt32(e) && IsInt32(ErrAt(r, x, y')) && IsInt32(ErrAt(r, x', y'))
    && (e <= y ==> IsInt32(2 * (y + 1) + 1)) && IsInt32(2 * (x + 1) + 1)
    && IsInt32(cx + x) && IsInt32(cx - x) && IsInt32(cx + y) && IsInt32(cx - y) && IsInt32(cx - x + 1)
    && IsInt32(cy + x) && IsInt32(cy - x) && IsInt32(cy + y) && IsInt32(cy - y)
  }

  /** The square around the circle, and one column more, fits. */
  predicate BoxInts(r: int, cx: int, cy: int) {
    IsInt32(cx - r) && IsInt32(cx + r + 1) && IsInt32(cy - r) && IsInt32(cy + r)
  }

  /** No `int` of the loops overflows up to this radius. */
  lemma CircleFits(r: int, cx: int, cy: int, x: int, y: int)
    requires 0 < r <= 715_827_881 && BoxInts(r, cx, cy) && OnArc(r, x, y) && x < 0
    ensures TurnInts(r, cx, cy, x, y)
  {
    hide Excess, ErrAt;
    ArcHeight(r, x, y);
    NextNear(r, x, y);
    var (x', y') := Next(r, x, y);
    ArcHeight(r, x', y');
    ExcessSteps(r, x, y);
    ExcessSteps(r, x', y');
  }

  // ---------------------------------------------------------------- radii that are too large

  /** The walk visits every column. */
  lemma {:induction false} ArcColumn(r: int, x: int, y: int, c: int)
    requires r > 0 && OnArc(r, x, y) && x <= c < 0
    ensures exists k | 0 <= k < |Arc(r, x, y)| :: Arc(r, x, y)[k].0 == c
    decreases 2 * r - x - y + if x < 0 then 1 else 0
  {
    hide Near, Next;
    NextNear(r, x, y);
    ArcHeight(r, x, y);
    var (x', y') := Next(r, x, y);
    ArcHeight(r, x', y');
    var a, b := Arc(r, x, y), Arc(r, x', y');
    assert a == [(x, y)] + b;
    if x == c {
      assert a[0].0 == c;
    } else {
      ArcColumn(r, x', y', c);
      var k :| 0 <= k < |b| && b[k].0 == c;
      assert a[k + 1].0 == c;
    }
  }

  lemma Squares(a: nat, b: nat)
    requires a <= b
    ensures a * a <= b * b
  {
  }

  /** The root of r, not quite. */
  lemma RootBelow(r: nat, s: nat) returns (t: nat)
    requires s * s < r
    ensures s <= t && t * t < r <= (t + 1) * (t + 1)
    decreases r - s
  {
    if r <= (s + 1) * (s + 1) {
      t := s;
    } else {
      t := RootBelow(r, s + 1);
    }
  }

  lemma LowRow(r: int, x: int, y: int, d: int)
    requires 0 <= y <= r - d && d >= 0
    ensures Excess(r, x, y) <= x * x - 2 * (d * r) + d * d
  {
    Squares(y, r - d);
    assert (r - d) * (r - d) == r * r - 2 * (d * r) + d * d;
  }

  lemma HighRows(r: int, x: int)
    ensures Excess(r, x, r) == x * x && ErrAt(r, x, r) == (x + 1) * (x + 1) + 2 * r + 1
    ensures ErrAt(r, x, r - 1) == (x + 1) * (x + 1)
  {
    assert (r + 1) * (r + 1) == r * r + 2 * r + 1;
  }

  lemma SmallRoot(x: int, r: int)
    requires x < 0 && (x + 1) * (x + 1) < r
    ensures -x <= r && x * x == (x + 1) * (x + 1) - 2 * x - 1
  {
  }

  /** Near its end the walk is in row r as soon as x^2 < r ... */
  lemma TopRow(r: int, x: int, y: int)
    requires x < 0 && x * x < r && OnArc(r, x, y)
    ensures y == r && ErrAt(r, x, y) == (x + 1) * (x + 1) + 2 * r + 1
  {
    ArcHeight(r, x, y);
    HighRows(r, x);
    SmallRoot(x - 1, r);
    if y < r {
      LowRow(r, x, y, 1);
    }
    hide Excess, ErrAt;
  }

  /** ... and one row below in the column before that, from where it steps up. */
  lemma RowBelow(r: int, x: int, y: int)
    requires x <= -10 && (x + 1) * (x + 1) < r < x * x && OnArc(r, x, y)
    ensures y == r - 1 && Next(r, x, y).1 == r && ErrAt(r, x, r) == (x + 1) * (x + 1) + 2 * r + 1
  {
    ArcHeight(r, x, y);
    HighRows(r, x);
    SmallRoot(x, r);
    LongColumn(r, x);
    if y < r - 1 {
      LowRow(r, x, y, 2);
    }
    hide Excess, ErrAt;
  }

  lemma LongColumn(r: int, x: int)
    requires x <= -10 && (x + 1) * (x + 1) < r
    ensures -9 * (x + 1) <= (x + 1) * (x + 1)
  {
  }

  lemma SquareAtLeast(x: int, n: int)
    requires 0 <= n <= -x
    ensures x * x >= n * n
  {
    Squares(n, -x);
    assert x * x == (-x) * (-x);
  }

  lemma TopOverflows(r: int, cx: int, cy: int, x: int, y: int)
    requires x <= -26_755 && x * x < r && OnArc(r, x, y) && r >= 715_853_566
    ensures !TurnInts(r, cx, cy, x, y)
  {
    hide Near, Next, ErrAt;
    TopRow(r, x, y);
    SquareAtLeast(x + 1, 26_754);
  }

  lemma BelowOverflows(r: int, cx: int, cy: int, x: int, y: int)
    requires x <= -26_756 && (x + 1) * (x + 1) < r < x * x && OnArc(r, x, y) && r >= 715_830_026
    ensures !TurnInts(r, cx, cy, x, y)
  {
    hide Near, Next, ErrAt;
    RowBelow(r, x, y);
    SquareAtLeast(x + 1, 26_755);
  }

  /** The column where it happens: the last with x^2 >= r, or, if r is a square, the next. */
  lemma FatalColumn(r: int) returns (x: int)
    requires r >= 715_830_026
    ensures -r <= x < 0
    ensures (x <= -26_756 && (x + 1) * (x + 1) < r < x * x) || (x <= -26_755 && x * x < r && r >= 715_853_566)
  {
    assert 26_755 * 26_755 == 715_830_025 && 26_756 * 26_756 == 715_883_536;
    var s: int := RootBelow(r, 26_755);
    assert (-1 - s) * (-1 - s) == (s + 1) * (s + 1) && (0 - s) * (0 - s) == s * s;
    RootSmall(s, r);
    if r < (s + 1) * (s + 1) {
      x := -1 - s;
    } else {
      x := 0 - s;
      Squares(26_756, s + 1);
    }
  }

  lemma RootSmall(s: nat, r: int)
    requires s * s < r
    ensures s < r
  {
  }

  /** From this radius on some `int` of the loops overflows, for every centre. */
  lemma CircleOverflows(r: int, cx: int, cy: int)
    requires r >= 715_830_026
    ensures exists k | 0 <= k < |Places(r)| :: !TurnInts(r, cx, cy, Places(r)[k].0, Places(r)[k].1)
  {
    hide Near, Next, ErrAt, TurnInts;
    var x := FatalColumn(r);
    StartOnArc(r);
    ArcColumn(r, -r, 0, x);
    var ps := Places(r);
    var k :| 0 <= k < |ps| && ps[k].0 == x;
    if x * x < r {
      TopOverflows(r, cx, cy, x, ps[k].1);
    } else {
      BelowOverflows(r, cx, cy, x, ps[k].1);
    }
  }

  // ---------------------------------------------------------------- the outline

  /** Word i shows a place or one of its three quarter turns about the centre. */
  predicate Turned(screen: Screen, i: int, cx: int, cy: int, p: (int, int)) {
    || screen.Shows(i, cx - p.0, cy + p.1) || screen.Shows(i, cx - p.1, cy - p.0)
    || screen.Shows(i, cx + p.0, cy - p.1) || screen.Shows(i, cx + p.1, cy + p.0)
  }

  predicate Outlined(screen: Screen, i: int, cx: int, cy: int, ps: seq<(int, int)>) {
    exists k | 0 <= k < |ps| :: Turned(screen, i, cx, cy, ps[k])
  }

  method PutTurns(screen: Screen, cx: int, cy: int, x: int, y: int, color: Color)
    requires screen.Wf()
    modifies screen.fb
    ensures forall i | 0 <= i < screen.fb.Length ::
              screen.fb[i] == if Turned(screen, i, cx, cy, (x, y)) then color else old(screen.fb[i])
  {
    hide Screen.Shows;
    screen.PutPx(cx - x, cy + y, color);
    screen.PutPx(cx - y, cy - x, color);
    screen.PutPx(cx + x, cy - y, color);
    screen.PutPx(cx + y, cy + x, color);
  }

  lemma OutlinedNext(screen: Screen, i: int, cx: int, cy: int, ps: seq<(int, int)>, p: (int, int))
    ensures Outlined(screen, i, cx, cy, ps + [p]) <==> Outlined(screen, i, cx, cy, ps) || Turned(screen, i, cx, cy, p)
  {
    hide Turned;
    var qs := ps + [p];
    assert qs[|ps|] == p;
    if Outlined(screen, i, cx, cy, ps) {
      var k :| 0 <= k < |ps| && Turned(screen, i, cx, cy, ps[k]);
      assert qs[k] == ps[k];
    }
  }

  /** The step at the end of a turn, shared by both loops. */
  method Step(r: int, x: int, y: int, err: int) returns (x': int, y': int, err': int)
    requires err == ErrAt(r, x, y)
    ensures (x', y') == Next(r, x, y) && err' == ErrAt(r, x', y')
  {
    hide ErrAt;
    x', y', err' := x, y, err;
    ExcessSteps(r, x, y);
    ExcessSteps(r, x, y + 1);
    var e2 := err;
    if e2 <= y {
      y' := y + 1;
      err' := err' + y' * 2 + 1;
    }
    if e2 > x || err' > y' {
      x' := x + 1;
      err' := err' + x' * 2 + 1;
    }
  }

  /** The loop state: what has been visited, and what is still to come. */
  predicate Walking(r: int, x: int, y: int, err: int, done: seq<(int, int)>) {
    && err == ErrAt(r, x, y)
    && (if r > 0 then OnArc(r, x, y) && x < 0 && Places(r) == done + Arc(r, x, y)
        else x == -r && y == 0 && done == [])
  }

  lemma WalkStart(r: int)
    ensures Walking(r, -r, 0, 2 - 2 * r, [])
  {
    ExcessSteps(r, 0, 0);
    assert r > 0 ==> [] + Arc(r, -r, 0) == Arc(r, -r, 0);
  }

  lemma WalkOn(r: int, x: int, y: int, err: int, done: seq<(int, int)>)
    requires Walking(r, x, y, err, done)
    ensures var (x', y') := Next(r, x, y);
            if x' < 0 then Walking(r, x', y', ErrAt(r, x', y'), done + [(x, y)]) && x' + y' > x + y && x' + y' <= r
            else Places(r) == done + [(x, y)]
  {
    hide Near, Next;
    if r > 0 {
      NextNear(r, x, y);
      var (x', y') := Next(r, x, y);
      ArcHeight(r, x', y');
      assert done + Arc(r, x, y) == (done + [(x, y)]) + Arc(r, x', y');
    } else {
      OneTurn(r);
    }
  }

  lemma OneTurn(r: int)
    requires r <= 0
    ensures Next(r, -r, 0).0 > 0
  {
    ExcessSteps(r, -r, 0);
    ExcessSteps(r, -r, 1);
  }

  /** `svga_draw_circle`: exactly the words of the places and their quarter turns change. */
  method DrawCircle(screen: Screen, cx: int, cy: int, r: int, color: Color)
    requires screen.Wf()
    modifies screen.fb
    ensures forall i | 0 <= i < screen.fb.Length ::
              screen.fb[i] == if Outlined(screen, i, cx, cy, Places(r)) then color else old(screen.fb[i])
  {
    hide Places, Turned, Outlined, Walking, Next, ErrAt;
    var x, y, err := -r, 0, 2 - 2 * r;
    ghost var done: seq<(int, int)> := [];
    WalkStart(r);
    NothingOutlined(screen, cx, cy);
    while true
      invariant Walking(r, x, y, err, done)
      invariant forall i | 0 <= i < screen.fb.Length ::
                  screen.fb[i] == if Outlined(screen, i, cx, cy, done) then color else old(screen.fb[i])
      decreases r - x - y
    {
      PutTurns(screen, cx, cy, x, y, color);
      forall i ensures Outlined(screen, i, cx, cy, done + [(x, y)]) <==>
                       Outlined(screen, i, cx, cy, done) || Turned(screen, i, cx, cy, (x, y)) {
        OutlinedNext(screen, i, cx, cy, done, (x, y));
      }
      WalkOn(r, x, y, err, done);
      done := done + [(x, y)];
      WalkErr(r, x, y, err, done[..|done| - 1]);
      x, y, err := Step(r, x, y, err);
      if !(x < 0) {
        break;
      }
    }
  }

  lemma WalkErr(r: int, x: int, y: int, err: int, done: seq<(int, int)>)
    requires Walking(r, x, y, err, done)
    ensures err == ErrAt(r, x, y)
  {
  }

  lemma NothingOutlined(screen: Screen, cx: int, cy: int)
    ensures forall i :: !Outlined(screen, i, cx, cy, [])
  {
  }

  lemma PlaceOnArc(r: int, k: nat)
    requires r > 0 && k < |Places(r)|
    ensures OnArc(r, Places(r)[k].0, Places(r)[k].1) && Places(r)[k].0 < 0 && Places(r)[k].1 <= r
  {
    hide Next;
    ArcHeight(r, Places(r)[k].0, Places(r)[k].1);
  }

  /** Every point drawn lies near the circle. */
  lemma OutlineNear(screen: Screen, i: int, cx: int, cy: int, r: int, u: int, v: int)
    requires screen.Wf() && r > 0 && Outlined(screen, i, cx, cy, Places(r)) && screen.Shows(i, u, v)
    ensures Near(r, u - cx, v - cy)
  {
    hide Screen.Shows, Near, Places;
    var a := Places(r);
    var k :| 0 <= k < |a| && Turned(screen, i, cx, cy, a[k]);
    var (x, y) := a[k];
    PlaceOnArc(r, k);
    NearTurns(r, x, y);
    if screen.Shows(i, cx - x, cy + y) {
      screen.OnePoint(i, u, v, cx - x, cy + y);
    } else if screen.Shows(i, cx - y, cy - x) {
      screen.OnePoint(i, u, v, cx - y, cy - x);
    } else if screen.Shows(i, cx + x, cy - y) {
      screen.OnePoint(i, u, v, cx + x, cy - y);
    } else {
      screen.OnePoint(i, u, v, cx + y, cy + x);
    }
  }

  lemma NearTurns(r: int, x: int, y: int)
    requires Near(r, x, y)
    ensures Near(r, -x, y) && Near(r, -y, -x) && Near(r, x, -y) && Near(r, y, x)
  {
  }

  // ---------------------------------------------------------------- the disc

  /** Word i shows a point of the two rows between the arms at a place. */
  predicate InSpan(screen: Screen, i: int, cx: int, cy: int, p: (int, int)) {
    SpanTo(screen, i, cy, p.1, cx + p.0, cx - p.0 + 1)
  }

  predicate SpanTo(screen: Screen, i: int, cy: int, y: int, lo: int, hi: int) {
    exists xx | lo <= xx < hi :: OnRows(screen, i, cy, y, xx)
  }

  lemma SpanNext(screen: Screen, i: int, cy: int, y: int, lo: int, hi: int)
    requires lo <= hi
    ensures SpanTo(screen, i, cy, y, lo, hi + 1) <==> SpanTo(screen, i, cy, y, lo, hi) || OnRows(screen, i, cy, y, hi)
  {
    hide OnRows;
  }

  predicate OnRows(screen: Screen, i: int, cy: int, y: int, xx: int) {
    screen.Shows(i, xx, cy + y) || screen.Shows(i, xx, cy - y)
  }

  predicate Filled(screen: Screen, i: int, cx: int, cy: int, ps: seq<(int, int)>) {
    exists k | 0 <= k < |ps| :: InSpan(screen, i, cx, cy, ps[k])
  }

  lemma FilledNext(screen: Screen, i: int, cx: int, cy: int, ps: seq<(int, int)>, p: (int, int))
    ensures Filled(screen, i, cx, cy, ps + [p]) <==> Filled(screen, i, cx, cy, ps) || InSpan(screen, i, cx, cy, p)
  {
    hide InSpan;
    var qs := ps + [p];
    assert qs[|ps|] == p;
    if Filled(screen, i, cx, cy, ps) {
      var k :| 0 <= k < |ps| && InSpan(screen, i, cx, cy, ps[k]);
      assert qs[k] == ps[k];
    }
  }

  method PutPair(screen: Screen, cy: int, xx: int, y: int, color: Color)
    requires screen.Wf()
    modifies screen.fb
    ensures forall i | 0 <= i < screen.fb.Length ::
              screen.fb[i] == if OnRows(screen, i, cy, y, xx) then color else old(screen.fb[i])
  {
    hide Screen.Shows;
    screen.PutPx(xx, cy + y, color);
    screen.PutPx(xx, cy - y, color);
  }

  method PutSpan(screen: Screen, cx: int, cy: int, x: int, y: int, color: Color)
    requires screen.Wf()
    modifies screen.fb
    ensures forall i | 0 <= i < screen.fb.Length ::
              screen.fb[i] == if InSpan(screen, i, cx, cy, (x, y)) then color else old(screen.fb[i])
  {
    hide Screen.Shows, SpanTo, OnRows;
    NoSpan(screen, cy, y, cx + x, cx + x);
    var xx := cx + x;
    while xx <= cx - x
      invariant cx + x <= xx && (xx <= cx - x + 1 || xx == cx + x)
      invariant forall i | 0 <= i < screen.fb.Length ::
                  screen.fb[i] == if SpanTo(screen, i, cy, y, cx + x, xx) then color else old(screen.fb[i])
      decreases cx - x - xx
    {
      PutPair(screen, cy, xx, y, color);
      ghost var before, lo := xx, cx + x;
      xx := xx + 1;
      forall i ensures SpanTo(screen, i, cy, y, lo, xx) <==>
                       SpanTo(screen, i, cy, y, lo, before) || OnRows(screen, i, cy, y, before) {
        SpanNext(screen, i, cy, y, lo, before);
      }
    }
    SpanDone(screen, cx, cy, x, y, xx);
  }

  /** `svga_fill_circle`: exactly the words between the arms of all places change. */
  method FillCircle(screen: Screen, cx: int, cy: int, r: int, color: Color)
    requires screen.Wf()
    modifies screen.fb
    ensures forall i | 0 <= i < screen.fb.Length ::
              screen.fb[i] == if Filled(screen, i, cx, cy, Places(r)) then color else old(screen.fb[i])
  {
    hide Places, InSpan, Filled, Walking, Next, ErrAt;
    var x, y, err := -r, 0, 2 - 2 * r;
    ghost var done: seq<(int, int)> := [];
    WalkStart(r);
    NothingFilled(screen, cx, cy);
    while true
      invariant Walking(r, x, y, err, done)
      invariant forall i | 0 <= i < screen.fb.Length ::
                  screen.fb[i] == if Filled(screen, i, cx, cy, done) then color else old(screen.fb[i])
      decreases r - x - y
    {
      PutSpan(screen, cx, cy, x, y, color);
      forall i ensures Filled(screen, i, cx, cy, done + [(x, y)]) <==>
                       Filled(screen, i, cx, cy, done) || InSpan(screen, i, cx, cy, (x, y)) {
        FilledNext(screen, i, cx, cy, done, (x, y));
      }
      WalkOn(r, x, y, err, done);
      WalkErr(r, x, y, err, done);
      done := done + [(x, y)];
      x, y, err := Step(r, x, y, err);
      if !(x < 0) {
        break;
      }
    }
  }

  lemma SpanDone(screen: Screen, cx: int, cy: int, x: int, y: int, xx: int)
    requires xx == if x <= 0 then cx - x + 1 else cx + x
    ensures forall i :: InSpan(screen, i, cx, cy, (x, y)) <==> SpanTo(screen, i, cy, y, cx + x, xx)
  {
  }

  lemma NoSpan(screen: Screen, cy: int, y: int, lo: int, hi: int)
    ensures hi <= lo ==> forall i :: !SpanTo(screen, i, cy, y, lo, hi)
  {
  }

  lemma NothingFilled(screen: Screen, cx: int, cy: int)
    ensures forall i :: !Filled(screen, i, cx, cy, [])
  {
  }

  lemma {:induction false} RowReached(a: seq<(int, int)>, y: int) returns (k: nat)
    requires |a| > 0 && a[0].1 <= y < a[|a| - 1].1
    requires forall j | 0 <= j < |a| - 1 :: Adjacent(a[j], a[j + 1])
    ensures k < |a| - 1 && a[k].1 == y
    decreases |a|
  {
    if a[0].1 == y {
      k := 0;
    } else {
      assert Adjacent(a[0], a[1]);
      forall j | 0 <= j < |a| - 2 ensures Adjacent(a[1..][j], a[1..][j + 1]) {
        assert Adjacent(a[j + 1], a[j + 2]);
      }
      k := RowReached(a[1..], y);
      k := k + 1;
    }
  }

  lemma SquareMono(a: int, b: int)
    requires 0 <= a <= b
    ensures a * a <= b * b
  {
  }

  lemma SquareAbs(a: int)
    ensures Abs(a) * Abs(a) == a * a
  {
  }

  /** The disc: every visible point with dx^2 + dy^2 <= r^2 - r is filled, and no point beyond
      r^2 + r. */
  lemma DiscFilled(screen: Screen, i: int, cx: int, cy: int, r: int, u: int, v: int)
    requires screen.Wf() && r > 0 && screen.Shows(i, u, v)
    ensures Excess(r, u - cx, v - cy) <= -r ==> Filled(screen, i, cx, cy, Places(r))
    ensures Filled(screen, i, cx, cy, Places(r)) ==> Excess(r, u - cx, v - cy) <= r
  {
    hide Screen.Shows;
    if Excess(r, u - cx, v - cy) <= -r {
      InnerFilled(screen, i, cx, cy, r, u, v);
    }
    if Filled(screen, i, cx, cy, Places(r)) {
      OuterBlank(screen, i, cx, cy, r, u, v);
    }
  }

  lemma InnerFilled(screen: Screen, i: int, cx: int, cy: int, r: int, u: int, v: int)
    requires r > 0 && screen.Shows(i, u, v) && Excess(r, u - cx, v - cy) <= -r
    ensures Filled(screen, i, cx, cy, Places(r))
  {
    hide Screen.Shows, Next, Excess, Near, Places;
    var dx, dy := u - cx, v - cy;
    ExcessAbs(r, dx, dy);
    var k := RowOf(r, Abs(dx), Abs(dy));
    var (x, y) := Places(r)[k];
    PlaceOnArc(r, k);
    if Abs(dx) > -x {
      WiderThanArc(r, x, y, Abs(dx));
    }
    assert OnRows(screen, i, cy, y, u);
    assert InSpan(screen, i, cx, cy, Places(r)[k]);
  }

  lemma ExcessAbs(r: int, x: int, y: int)
    ensures Excess(r, Abs(x), Abs(y)) == Excess(r, x, y)
  {
  }

  /** The walk has a place in every row of the inner disc. */
  lemma RowOf(r: int, w: nat, y: nat) returns (k: nat)
    requires r > 0 && Excess(r, w, y) <= -r
    ensures k < |Places(r)| && Places(r)[k].1 == y
  {
    hide Next, Near, Excess;
    if y >= r {
      TooWide(r, w, y);
    }
    StartOnArc(r);
    ArcShape(r, -r, 0);
    k := RowReached(Arc(r, -r, 0) + [(0, r)], y);
  }

  lemma TooWide(r: int, w: nat, y: nat)
    requires y >= r > 0
    ensures Excess(r, w, y) >= 0
  {
    SquareMono(r, y);
  }

  lemma WiderThanArc(r: int, x: int, y: int, w: int)
    requires r > 0 && OnArc(r, x, y) && y <= r && w > -x
    ensures Excess(r, w, y) > -r
  {
    SquareGap(-x, w);
    assert x * x == (-x) * (-x);
  }

  lemma OuterBlank(screen: Screen, i: int, cx: int, cy: int, r: int, u: int, v: int)
    requires screen.Wf() && r > 0 && screen.Shows(i, u, v) && Filled(screen, i, cx, cy, Places(r))
    ensures Excess(r, u - cx, v - cy) <= r
  {
    hide Screen.Shows, Next, Excess, Places;
    var a := Places(r);
    var k :| 0 <= k < |a| && InSpan(screen, i, cx, cy, a[k]);
    var (x, y) := a[k];
    var xx :| cx + x <= xx < cx - x + 1 && OnRows(screen, i, cy, y, xx);
    if screen.Shows(i, xx, cy + y) {
      screen.OnePoint(i, u, v, xx, cy + y);
    } else {
      screen.OnePoint(i, u, v, xx, cy - y);
    }
    PlaceOnArc(r, k);
    Narrower(r, u - cx, v - cy, x, y);
  }

  lemma Narrower(r: int, w: int, v: int, x: int, y: int)
    requires Abs(w) <= -x && Abs(v) == y
    ensures Excess(r, w, v) <= Excess(r, x, y)
  {
    SquareAbs(w);
    SquareAbs(v);
    SquareAbs(x);
    SquareMono(Abs(w), -x);
  }
}
