/** Line of sight: the Bresenham ray `get_line` and the edge-casting
    `visibility` built on it (terminal_engine.py; util.py holds a copy of the
    ray with a larger radius). */
module Line {
  import opened Geometry

  /** The random radius extension as an oracle: `draws(k)` is true when the
      draw made in iteration k lets the ray go on past the radius
      (`random.random() <= extend_prob`). */
  type Draws = nat -> bool

  /** The sight radius `visibility` uses (the default of get_line in
      terminal_engine.py). */
  const EngineSightRadius := 3

  /** The test that ends a ray at cell c in iteration k. */
  predicate Blocks(c: Pair, p1: Pair, obs: set<Pair>, dis: int, extend: bool) {
    c in obs || (DistSq(c, p1) > dis * dis && !extend)
  }

  function StepX(p1: Pair, p2: Pair): int { if p1.x > p2.x then -1 else 1 }
  function StepY(p1: Pair, p2: Pair): int { if p1.y > p2.y then -1 else 1 }

  /** The ray from p1 to p2 is driven along x when the x distance is larger. */
  predicate DrivesX(p1: Pair, p2: Pair) { Abs(p2.x - p1.x) > Abs(p2.y - p1.y) }

  /** How far v lies from `from` counted in the direction of `to`. */
  function Toward(from: int, to: int, v: int): int {
    if from > to then from - v else v - from
  }

  /** The cell `ys` rows and `xs` columns from p1 in the direction of p2. */
  function Offset(p1: Pair, p2: Pair, ys: int, xs: int): Pair {
    Pair(if p1.y > p2.y then p1.y - ys else p1.y + ys,
         if p1.x > p2.x then p1.x - xs else p1.x + xs)
  }

  /** k steps along the driving axis, at most its length, and m steps along
      the other axis, within half a cell of the exact line: the doubled error
      term `dmaj + 2 dmaj m - 2 dmin k` lies in [0, 2 dmaj). */
  predicate Band(dmaj: int, dmin: int, k: int, m: int) {
    0 <= k <= dmaj && -dmaj <= 2 * dmaj * m - 2 * dmin * k < dmaj
  }

  /** Cell c is one of the cells Bresenham's algorithm may visit between p1
      and p2. */
  predicate OnSegment(c: Pair, p1: Pair, p2: Pair) {
    var dx: int, dy: int := Abs(p2.x - p1.x), Abs(p2.y - p1.y);
    if dx > dy then Band(dx, dy, Toward(p1.x, p2.x, c.x), Toward(p1.y, p2.y, c.y))
    else if dy > 0 then Band(dy, dx, Toward(p1.y, p2.y, c.y), Toward(p1.x, p2.x, c.x))
    else c == p1
  }

  /** Consecutive ray cells: one step toward p2 on the driving axis, and no
      step or one step toward p2 on the other. */
  predicate UnitStep(a: Pair, b: Pair, p1: Pair, p2: Pair) {
    if DrivesX(p1, p2) then
      b.x == a.x + StepX(p1, p2) && (b.y == a.y || b.y == a.y + StepY(p1, p2))
    else
      b.y == a.y + StepY(p1, p2) && (b.x == a.x || b.x == a.x + StepX(p1, p2))
  }

  function Major(p1: Pair, p2: Pair): nat {
    if DrivesX(p1, p2) then Abs(p2.x - p1.x) else Abs(p2.y - p1.y)
  }

  function Minor(p1: Pair, p2: Pair): nat {
    if DrivesX(p1, p2) then Abs(p2.y - p1.y) else Abs(p2.x - p1.x)
  }

  /** The cell k steps along the driving axis and m along the other. */
  function Cell(p1: Pair, p2: Pair, k: int, m: int): Pair {
    if DrivesX(p1, p2) then Offset(p1, p2, m, k) else Offset(p1, p2, k, m)
  }

  // ------------------------------------------------------ the ray, as a value

  /** The loop state of `get_line`: the cell `Pair(y, x)` and the error term,
      doubled so that it is a whole number. */
  datatype Cursor = Cursor(cell: Pair, err: int)

  /** The loop state before the first iteration: err = dmaj / 2.0. */
  function Start(p1: Pair, p2: Pair): Cursor {
    Cursor(p1, Major(p1, p2))
  }

  /** One iteration of either loop of `get_line` after the cell is taken:
      subtract the minor distance from the error, step the minor axis and
      add back the major distance if it went negative, then step the major
      axis. */
  function Advance(p1: Pair, p2: Pair, c: Cursor): Cursor {
    var sx, sy := StepX(p1, p2), StepY(p1, p2);
    var e := c.err - 2 * Minor(p1, p2);
    if DrivesX(p1, p2) then
      if e < 0 then Cursor(Pair(c.cell.y + sy, c.cell.x + sx), e + 2 * Major(p1, p2))
      else Cursor(Pair(c.cell.y, c.cell.x + sx), e)
    else
      if e < 0 then Cursor(Pair(c.cell.y + sy, c.cell.x + sx), e + 2 * Major(p1, p2))
      else Cursor(Pair(c.cell.y + sy, c.cell.x), e)
  }

  /** The cells the loop takes from iteration k on, starting in state c: the
      loop ends when the driving axis reaches p2 or the cell blocks, and
      the cell it ends on is appended last. */
  function RayFrom(p1: Pair, p2: Pair, obs: set<Pair>, dis: int, draws: Draws, k: nat, c: Cursor): seq<Pair>
    decreases Major(p1, p2) - k
  {
    if k >= Major(p1, p2) || Blocks(c.cell, p1, obs, dis, draws(k)) then [c.cell]
    else [c.cell] + RayFrom(p1, p2, obs, dis, draws, k + 1, Advance(p1, p2, c))
  }

  /** The list `get_line(p1, p2, obs, dis)` returns. */
  function Ray(p1: Pair, p2: Pair, obs: set<Pair>, dis: int, draws: Draws): seq<Pair> {
    RayFrom(p1, p2, obs, dis, draws, 0, Start(p1, p2))
  }

  /** The part of what `get_line` promises that also holds of every suffix of
      the ray: s is taken from iteration k on. */
  ghost predicate RayTail(s: seq<Pair>, k: nat, p1: Pair, p2: Pair, obs: set<Pair>, dis: int, draws: Draws) {
    && |s| >= 1
    && (forall i :: 0 <= i < |s| - 1 ==> !Blocks(s[i], p1, obs, dis, draws(k + i)))
    && (s[|s| - 1] == p2 || Blocks(s[|s| - 1], p1, obs, dis, draws(k + |s| - 1)))
    && (forall i :: 0 <= i < |s| - 1 ==> UnitStep(s[i], s[i + 1], p1, p2))
    && (forall i :: 0 <= i < |s| ==> OnSegment(s[i], p1, p2))
  }

  /** What `get_line` promises of the ray r it returns. */
  ghost predicate IsRay(r: seq<Pair>, p1: Pair, p2: Pair, obs: set<Pair>, dis: int, draws: Draws) {
    RayTail(r, 0, p1, p2, obs, dis, draws) && r[0] == p1
  }

  /** `get_line(p1, p2, obs, dis)`: the cells from p1 toward p2 up to and
      including the first one that is opaque or (failing the extension draw)
      beyond the radius; a ray that is never stopped ends at p2. */
  method GetLine(p1: Pair, p2: Pair, obs: set<Pair>, dis: int, draws: Draws) returns (r: seq<Pair>)
    ensures r == Ray(p1, p2, obs, dis, draws)
    ensures |r| >= 1 && r[0] == p1
    ensures forall i :: 0 <= i < |r| - 1 ==> !Blocks(r[i], p1, obs, dis, draws(i))
    ensures r[|r| - 1] == p2 || Blocks(r[|r| - 1], p1, obs, dis, draws(|r| - 1))
    ensures forall i :: 0 <= i < |r| - 1 ==> UnitStep(r[i], r[i + 1], p1, p2)
    ensures forall i :: 0 <= i < |r| ==> OnSegment(r[i], p1, p2)
  {
    if Abs(p2.x - p1.x) > Abs(p2.y - p1.y) {
      r := LineAlongX(p1, p2, obs, dis, draws);
    } else {
      r := LineAlongY(p1, p2, obs, dis, draws);
    }
    RayIsRay(p1, p2, obs, dis, draws);
  }

  /** One unblocked iteration of either loop: the cell is taken and the
      rest of the ray continues from the advanced cursor. */
  lemma RayStep(p1: Pair, p2: Pair, obs: set<Pair>, dis: int, draws: Draws, r: seq<Pair>, c: Cursor)
    requires |r| < Major(p1, p2) && !Blocks(c.cell, p1, obs, dis, draws(|r|))
    ensures r + RayFrom(p1, p2, obs, dis, draws, |r|, c) ==
      (r + [c.cell]) + RayFrom(p1, p2, obs, dis, draws, |r| + 1, Advance(p1, p2, c))
  {
    assert RayFrom(p1, p2, obs, dis, draws, |r|, c) ==
      [c.cell] + RayFrom(p1, p2, obs, dis, draws, |r| + 1, Advance(p1, p2, c));
  }

  /** The `dx > dy` branch of `get_line`. */
  method LineAlongX(p1: Pair, p2: Pair, obs: set<Pair>, dis: int, draws: Draws) returns (r: seq<Pair>)
    requires DrivesX(p1, p2)
    ensures r == Ray(p1, p2, obs, dis, draws)
  {
    var y0, x0 := p1.y, p1.x;
    var y1, x1 := p2.y, p2.x;
    r := [];
    var dx: int := Abs(x1 - x0);
    var dy: int := Abs(y1 - y0);
    var x, y := x0, y0;
    var sx := if x0 > x1 then -1 else 1;
    var sy := if y0 > y1 then -1 else 1;
    var err := dx;
    assert dx == Major(p1, p2) && dy == Minor(p1, p2) && sx == StepX(p1, p2) && sy == StepY(p1, p2);
    while x != x1
      invariant 0 <= |r| <= dx && x == (if x0 > x1 then x0 - |r| else x0 + |r|)
      invariant r + RayFrom(p1, p2, obs, dis, draws, |r|, Cursor(Pair(y, x), err)) == Ray(p1, p2, obs, dis, draws)
      decreases dx - |r|
    {
      if Blocks(Pair(y, x), p1, obs, dis, draws(|r|)) {
        break;
      }
      ghost var next := Advance(p1, p2, Cursor(Pair(y, x), err));
      RayStep(p1, p2, obs, dis, draws, r, Cursor(Pair(y, x), err));
      r := r + [Pair(y, x)];
      err := err - 2 * dy;
      if err < 0 {
        y := y + sy;
        err := err + 2 * dx;
      }
      x := x + sx;
      assert Cursor(Pair(y, x), err) == next;
    }
    r := r + [Pair(y, x)];
  }

  /** The `dx <= dy` branch of `get_line`, driven along y. */
  method LineAlongY(p1: Pair, p2: Pair, obs: set<Pair>, dis: int, draws: Draws) returns (r: seq<Pair>)
    requires !DrivesX(p1, p2)
    ensures r == Ray(p1, p2, obs, dis, draws)
  {
    var y0, x0 := p1.y, p1.x;
    var y1, x1 := p2.y, p2.x;
    r := [];
    var dx: int := Abs(x1 - x0);
    var dy: int := Abs(y1 - y0);
    var x, y := x0, y0;
    var sx := if x0 > x1 then -1 else 1;
    var sy := if y0 > y1 then -1 else 1;
    var err := dy;
    assert dy == Major(p1, p2) && dx == Minor(p1, p2) && sx == StepX(p1, p2) && sy == StepY(p1, p2);
    while y != y1
      invariant 0 <= |r| <= dy && y == (if y0 > y1 then y0 - |r| else y0 + |r|)
      invariant r + RayFrom(p1, p2, obs, dis, draws, |r|, Cursor(Pair(y, x), err)) == Ray(p1, p2, obs, dis, draws)
      decreases dy - |r|
    {
      if Blocks(Pair(y, x), p1, obs, dis, draws(|r|)) {
        break;
      }
      ghost var next := Advance(p1, p2, Cursor(Pair(y, x), err));
      RayStep(p1, p2, obs, dis, draws, r, Cursor(Pair(y, x), err));
      r := r + [Pair(y, x)];
      err := err - 2 * dx;
      if err < 0 {
        x := x + sx;
        err := err + 2 * dy;
      }
      y := y + sy;
      assert Cursor(Pair(y, x), err) == next;
    }
    r := r + [Pair(y, x)];
  }

  // ------------------------------------------------ properties of the ray

  /** The loop state after k iterations that stepped the minor axis m
      times: the cell k along the driving axis and m along the other, and
      the doubled error `dmaj + 2 dmaj m - 2 dmin k` in [0, 2 dmaj). */
  ghost predicate Tracked(p1: Pair, p2: Pair, k: int, m: int, c: Cursor) {
    var dmaj, dmin := Major(p1, p2), Minor(p1, p2);
    && 0 <= k <= dmaj && 0 <= m <= dmin
    && c.cell == Cell(p1, p2, k, m)
    && c.err == dmaj + 2 * dmaj * m - 2 * dmin * k
    && 0 <= c.err && (dmaj == 0 || c.err < 2 * dmaj)
  }

  lemma StartTracked(p1: Pair, p2: Pair)
    ensures Tracked(p1, p2, 0, 0, Start(p1, p2))
  {
  }

  /** An iteration keeps the error in range, moves by a unit step and steps
      the minor axis at most as often as its length. */
  lemma AdvanceTracked(p1: Pair, p2: Pair, k: int, m: int, c: Cursor) returns (m': int)
    requires Tracked(p1, p2, k, m, c) && k < Major(p1, p2)
    ensures Tracked(p1, p2, k + 1, m', Advance(p1, p2, c))
    ensures UnitStep(c.cell, Advance(p1, p2, c).cell, p1, p2)
  {
    var dmaj, dmin := Major(p1, p2), Minor(p1, p2);
    MulSucc(2 * dmin, k);
    if c.err - 2 * dmin < 0 {
      MinorStepBound(dmaj, dmin, m, k);
      MulSucc(2 * dmaj, m);
      m' := m + 1;
    } else {
      m' := m;
    }
  }

  /** A tracked state is on the segment, and at the end of the driving axis
      it is p2. */
  lemma TrackedOnSegment(p1: Pair, p2: Pair, k: int, m: int, c: Cursor)
    requires Tracked(p1, p2, k, m, c)
    ensures OnSegment(c.cell, p1, p2)
    ensures k == Major(p1, p2) ==> c.cell == p2
  {
    var dmaj, dmin := Major(p1, p2), Minor(p1, p2);
    if k == dmaj && dmaj > 0 {
      RayEnd(dmaj, dmin, m, 2 * dmaj * m, 2 * dmin * dmaj);
    }
  }

  lemma {:induction false} RayFromTail(p1: Pair, p2: Pair, obs: set<Pair>, dis: int, draws: Draws, k: nat, m: int, c: Cursor)
    requires Tracked(p1, p2, k, m, c)
    ensures RayTail(RayFrom(p1, p2, obs, dis, draws, k, c), k, p1, p2, obs, dis, draws)
    ensures RayFrom(p1, p2, obs, dis, draws, k, c)[0] == c.cell
    decreases Major(p1, p2) - k
  {
    var s := RayFrom(p1, p2, obs, dis, draws, k, c);
    TrackedOnSegment(p1, p2, k, m, c);
    if k < Major(p1, p2) && !Blocks(c.cell, p1, obs, dis, draws(k)) {
      var m' := AdvanceTracked(p1, p2, k, m, c);
      var c' := Advance(p1, p2, c);
      var t := RayFrom(p1, p2, obs, dis, draws, k + 1, c');
      RayFromTail(p1, p2, obs, dis, draws, k + 1, m', c');
      ConsTail(c.cell, t, k, p1, p2, obs, dis, draws);
    }
  }

  /** A cell that does not block, on the segment and one step before a ray
      tail, extends that tail one iteration back. */
  lemma ConsTail(a: Pair, t: seq<Pair>, k: nat, p1: Pair, p2: Pair, obs: set<Pair>, dis: int, draws: Draws)
    requires RayTail(t, k + 1, p1, p2, obs, dis, draws)
    requires !Blocks(a, p1, obs, dis, draws(k)) && OnSegment(a, p1, p2) && UnitStep(a, t[0], p1, p2)
    ensures RayTail([a] + t, k, p1, p2, obs, dis, draws)
  {
    var s := [a] + t;
    assert forall i :: 1 <= i < |s| ==> s[i] == t[i - 1];
  }

  /** `get_line` keeps its promises. */
  lemma RayIsRay(p1: Pair, p2: Pair, obs: set<Pair>, dis: int, draws: Draws)
    ensures IsRay(Ray(p1, p2, obs, dis, draws), p1, p2, obs, dis, draws)
  {
    StartTracked(p1, p2);
    RayFromTail(p1, p2, obs, dis, draws, 0, 0, Start(p1, p2));
  }

  // ------------------------------------------------ arithmetic for the ray

  lemma MulSucc(c: int, n: int)
    ensures c * (n + 1) == c * n + c
  {
  }

  lemma MulMono(a: int, b: int, c: int)
    requires a >= 0 && b <= c
    ensures a * b <= a * c
  {
    assert a * c - a * b == a * (c - b);
  }

  /** In an iteration that steps the minor axis the minor count was still
      below its total: `0 <= m <= dmin` is kept. */
  lemma MinorStepBound(dmaj: int, dmin: int, m: int, k: int)
    requires 0 <= dmin <= dmaj && 0 <= k < dmaj && m >= 0
    requires dmaj + 2 * dmaj * m - 2 * dmin * k - 2 * dmin < 0
    ensures m + 1 <= dmin
  {
    if m >= dmin {
      MulMono(dmaj, dmin, m);
      MulMono(dmin, k + 1, dmaj);
      assert false;
    }
  }

  /** A multiple of d strictly inside (-d - 1, d) is 0 or -d. */
  lemma ProductBand(d: int, t: int)
    requires d > 0 && -d <= d * t < d
    ensures t == 0 || t == -1
  {
    if t >= 1 {
      MulMono(d, 1, t);
    } else if t <= -2 {
      MulMono(d, t, -2);
    }
  }

  /** A ray that reaches the end of its driving axis has also reached the
      end of the other one. */
  lemma RayEnd(dmaj: int, dmin: int, m: int, a: int, b: int)
    requires dmaj > 0 && a == 2 * dmaj * m && b == 2 * dmin * dmaj
    requires 0 <= dmaj + a - b < 2 * dmaj
    ensures m == dmin
  {
    assert a - b == dmaj * (2 * (m - dmin));
    ProductBand(dmaj, 2 * (m - dmin));
  }

  predicate InBox(c: Pair, p1: Pair, p2: Pair) {
    && (if p1.y <= p2.y then p1.y <= c.y <= p2.y else p2.y <= c.y <= p1.y)
    && (if p1.x <= p2.x then p1.x <= c.x <= p2.x else p2.x <= c.x <= p1.x)
  }

  lemma {:induction false} MinorInRange(dmaj: int, dmin: int, m: int, k: int)
    requires 0 <= dmin <= dmaj && dmaj > 0 && 0 <= k <= dmaj
    requires -dmaj <= 2 * dmaj * m - 2 * dmin * k < dmaj
    ensures 0 <= m <= dmin
  {
    if m < 0 {
      MulMono(dmaj, m, -1);
      MulMono(dmin, 0, k);
    }
    if m > dmin {
      MulMono(dmaj, dmin + 1, m);
      MulMono(dmin, k, dmaj);
    }
  }

  /** Every cell of a ray lies in the rectangle spanned by its two ends. */
  lemma {:induction false} OnSegmentInBox(c: Pair, p1: Pair, p2: Pair)
    requires OnSegment(c, p1, p2)
    ensures InBox(c, p1, p2)
  {
    var dx, dy := Abs(p2.x - p1.x), Abs(p2.y - p1.y);
    if dx > dy {
      MinorInRange(dx, dy, Toward(p1.y, p2.y, c.y), Toward(p1.x, p2.x, c.x));
    } else if dy > 0 {
      MinorInRange(dy, dx, Toward(p1.x, p2.x, c.x), Toward(p1.y, p2.y, c.y));
    }
  }

  // ----------------------------------------------------------- visibility

  predicate InGrid(c: Pair, height: int, width: int) {
    0 <= c.y < height && 0 <= c.x < width
  }

  /** The cells `visibility` casts a ray to: every cell of the first and last
      row and of the first and last column. */
  predicate IsEdgeTarget(t: Pair, height: int, width: int) {
    || (0 <= t.x < width && (t.y == 0 || t.y == height - 1))
    || (0 <= t.y < height && (t.x == 0 || t.x == width - 1))
  }

  ghost predicate InsideGrid(vis: set<Pair>, height: int, width: int) {
    forall c :: c in vis ==> InGrid(c, height, width)
  }

  /** Every extension draw succeeds, so no ray is cut short by the radius. */
  ghost predicate AlwaysExtends(draws: Draws) {
    forall k :: draws(k)
  }

  /** One `vis.update(get_line(start, t, obs))`. */
  method AddRay(vis: set<Pair>, start: Pair, t: Pair, obs: set<Pair>, height: int, width: int, draws: Draws)
    returns (vis': set<Pair>)
    requires IsEdgeTarget(t, height, width)
    ensures vis' == vis + set c | c in Ray(start, t, obs, EngineSightRadius, draws)
    ensures vis <= vis' && start in vis'
    ensures InGrid(start, height, width) && InsideGrid(vis, height, width) ==> InsideGrid(vis', height, width)
    ensures obs == {} && AlwaysExtends(draws) ==> t in vis'
  {
    var ray := GetLine(start, t, obs, EngineSightRadius, draws);
    vis' := vis + set c | c in ray;
    if InGrid(start, height, width) && InsideGrid(vis, height, width) {
      RayInGrid(ray, start, t, height, width);
    }
    if obs == {} && AlwaysExtends(draws) {
      assert ray[|ray| - 1] in vis';
    }
  }

  /** A ray from a cell of the grid to an edge cell stays in the grid. */
  lemma RayInGrid(ray: seq<Pair>, start: Pair, t: Pair, height: int, width: int)
    requires InGrid(start, height, width) && IsEdgeTarget(t, height, width)
    requires forall i :: 0 <= i < |ray| ==> OnSegment(ray[i], start, t)
    ensures forall c :: c in ray ==> InGrid(c, height, width)
  {
    forall c | c in ray ensures InGrid(c, height, width) {
      OnSegmentInBox(c, start, t);
    }
  }

  /** Two consecutive casts of `visibility`'s loops. */
  method AddRayPair(vis: set<Pair>, start: Pair, t1: Pair, t2: Pair, obs: set<Pair>, height: int, width: int,
                    d1: Draws, d2: Draws)
    returns (vis': set<Pair>)
    requires IsEdgeTarget(t1, height, width) && IsEdgeTarget(t2, height, width)
    ensures vis <= vis' && start in vis'
    ensures InGrid(start, height, width) && InsideGrid(vis, height, width) ==> InsideGrid(vis', height, width)
    ensures obs == {} && AlwaysExtends(d1) && AlwaysExtends(d2) ==> t1 in vis' && t2 in vis'
  {
    var mid := AddRay(vis, start, t1, obs, height, width, d1);
    vis' := AddRay(mid, start, t2, obs, height, width, d2);
  }

  /** `visibility(obs, start, valid, height, width)`: the union of the rays
      from `start` to every edge cell. Cast number n draws from `draws(n)`. */
  method Visibility(obs: set<Pair>, start: Pair, height: int, width: int, draws: nat -> Draws)
    returns (vis: set<Pair>)
    ensures (height > 0 || width > 0) ==> start in vis
    ensures InGrid(start, height, width) ==> InsideGrid(vis, height, width)
    ensures obs == {} && (forall n :: AlwaysExtends(draws(n))) ==>
      forall t :: IsEdgeTarget(t, height, width) ==> t in vis
  {
    ghost var free := obs == {} && (forall n :: AlwaysExtends(draws(n)));
    ghost var inside := InGrid(start, height, width);
    vis := {};
    var casts: nat := 0;
    var i := 0;
    while i < width
      invariant 0 <= i <= Max(width, 0) && casts == 2 * i
      invariant i > 0 ==> start in vis
      invariant inside ==> InsideGrid(vis, height, width)
      invariant free ==> RowsCovered(vis, i, height)
    {
      assert free ==> AlwaysExtends(draws(casts)) && AlwaysExtends(draws(casts + 1));
      ghost var before := vis;
      vis := AddRayPair(vis, start, Pair(0, i), Pair(height - 1, i), obs, height, width,
                        draws(casts), draws(casts + 1));
      if free {
        RowsGrow(before, vis, i, height);
      }
      casts := casts + 2;
      i := i + 1;
    }
    ghost var rows := vis;
    i := 0;
    while i < height
      invariant 0 <= i <= Max(height, 0) && casts == 2 * Max(width, 0) + 2 * i
      invariant (width > 0 || i > 0) ==> start in vis
      invariant inside ==> InsideGrid(vis, height, width)
      invariant rows <= vis
      invariant free ==> ColumnsCovered(vis, i, width)
    {
      assert free ==> AlwaysExtends(draws(casts)) && AlwaysExtends(draws(casts + 1));
      ghost var before := vis;
      vis := AddRayPair(vis, start, Pair(i, 0), Pair(i, width - 1), obs, height, width,
                        draws(casts), draws(casts + 1));
      if free {
        ColumnsGrow(before, vis, i, width);
      }
      casts := casts + 2;
      i := i + 1;
    }
    if free {
      EdgesCovered(rows, vis, height, width);
    }
  }

  /** The first n cells of the top and bottom rows are in vis. */
  ghost predicate RowsCovered(vis: set<Pair>, n: int, height: int) {
    forall j :: 0 <= j < n ==> Pair(0, j) in vis && Pair(height - 1, j) in vis
  }

  /** The first n cells of the left and right columns are in vis. */
  ghost predicate ColumnsCovered(vis: set<Pair>, n: int, width: int) {
    forall j :: 0 <= j < n ==> Pair(j, 0) in vis && Pair(j, width - 1) in vis
  }

  lemma RowsGrow(before: set<Pair>, vis: set<Pair>, i: int, height: int)
    requires RowsCovered(before, i, height) && before <= vis
    requires Pair(0, i) in vis && Pair(height - 1, i) in vis
    ensures RowsCovered(vis, i + 1, height)
  {
  }

  lemma ColumnsGrow(before: set<Pair>, vis: set<Pair>, i: int, width: int)
    requires ColumnsCovered(before, i, width) && before <= vis
    requires Pair(i, 0) in vis && Pair(i, width - 1) in vis
    ensures ColumnsCovered(vis, i + 1, width)
  {
  }

  lemma EdgesCovered(rows: set<Pair>, vis: set<Pair>, height: int, width: int)
    requires RowsCovered(rows, width, height) && ColumnsCovered(vis, height, width) && rows <= vis
    ensures forall t :: IsEdgeTarget(t, height, width) ==> t in vis
  {
    forall t | IsEdgeTarget(t, height, width) ensures t in vis {
      if 0 <= t.x < width && (t.y == 0 || t.y == height - 1) {
        assert Pair(0, t.x) in rows && Pair(height - 1, t.x) in rows;
      } else {
        assert Pair(t.y, 0) in vis && Pair(t.y, width - 1) in vis;
      }
    }
  }
}
