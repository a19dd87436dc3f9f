/** Grid geometry shared by every part of the engine: integer cells, raw
    (possibly fractional) positions, the rounding that snaps one onto the
    other, the direction tables and the neighbour lists. */
module Geometry {

  /** A grid cell, row first as in the game: `Pair(y, x)`. */
  datatype Pair = Pair(y: int, x: int) {
    function Add(o: Pair): Pair { Pair(y + o.y, x + o.x) }
    function Sub(o: Pair): Pair { Pair(y - o.y, x - o.x) }
  }

  /** A raw position; entities move by fractions of a cell. */
  datatype RealPair = RealPair(y: real, x: real) {
    function Add(o: RealPair): RealPair { RealPair(y + o.y, x + o.x) }
  }

  function ToReal(c: Pair): RealPair { RealPair(c.y as real, c.x as real) }

  /** True when both coordinates are whole numbers. */
  predicate IsIntegral(p: RealPair) {
    p.y.Floor as real == p.y && p.x.Floor as real == p.x
  }

  /** The cell a position with whole coordinates stands for. */
  function ToCell(p: RealPair): (c: Pair)
    requires IsIntegral(p)
    ensures ToReal(c) == p
  {
    Pair(p.y.Floor, p.x.Floor)
  }

  /** Python's `int(v)`: truncation toward zero. */
  function Trunc(v: real): int {
    if v >= 0.0 then v.Floor else -((-v).Floor)
  }

  /** `int(v + .5)`: the nearest whole number for v >= -0.5 (halves go up),
      but one too high for v < -0.5 because the truncation goes toward zero. */
  function Round(v: real): (r: int)
    ensures v >= -0.5 ==> r as real - 0.5 <= v < r as real + 0.5
    ensures v < -0.5 ==> r as real - 1.5 < v <= r as real - 0.5
  {
    Trunc(v + 0.5)
  }

  /** `Pair.rounded`: each coordinate rounded as `Round` does, so a
      position with non-negative coordinates goes to its nearest cell, halves
      rounding up. */
  function Rounded(p: RealPair): (r: Pair)
    ensures p.y >= -0.5 ==> r.y as real - 0.5 <= p.y < r.y as real + 0.5
    ensures p.x >= -0.5 ==> r.x as real - 0.5 <= p.x < r.x as real + 0.5
  {
    Pair(Round(p.y), Round(p.x))
  }

  /** On whole numbers rounding is the identity only from 0 up: -1 becomes 0. */
  lemma RoundWhole(n: int)
    ensures Round(n as real) == if n >= 0 then n else n + 1
  {
  }

  /** Rounding is idempotent exactly for the values it sends to a
      non-negative number. */
  lemma {:induction false} RoundIdempotentIff(v: real)
    ensures Round(Round(v) as real) == Round(v) <==> v > -1.5
  {
    RoundWhole(Round(v));
  }

  /** `rounded` leaves a non-negative cell where it is. */
  lemma RoundedIdentity(c: Pair)
    requires c.y >= 0 && c.x >= 0
    ensures Rounded(ToReal(c)) == c
  {
    RoundWhole(c.y);
    RoundWhole(c.x);
  }

  /** `rounded` is idempotent on every position whose coordinates exceed -1.5,
      in particular on every non-negative one. */
  lemma RoundedIdempotent(p: RealPair)
    requires p.y > -1.5 && p.x > -1.5
    ensures Rounded(ToReal(Rounded(p))) == Rounded(p)
  {
    RoundIdempotentIff(p.y);
    RoundIdempotentIff(p.x);
  }

  // ---------------------------------------------------------------- signs

  /** `sign(x)`. */
  function Sign(v: int): (r: int)
    ensures r == -1 || r == 0 || r == 1
    ensures r < 0 <==> v < 0
    ensures r == 0 <==> v == 0
    ensures r * v == Abs(v)
  {
    if v < 0 then -1 else if v > 0 then 1 else 0
  }

  function Abs(v: int): nat { if v < 0 then -v else v }

  function Max(a: int, b: int): int { if a >= b then a else b }
  function Min(a: int, b: int): int { if a <= b then a else b }

  // ----------------------------------------------------------- directions

  const UP: Dir := 0
  const RIGHT: Dir := 1
  const DOWN: Dir := 2
  const LEFT: Dir := 3

  /** An orthogonal direction code; the direction table has no other key. */
  type Dir = d: int | 0 <= d < 4
  /** An index into the eight-direction list. */
  type Dir8 = d: int | 0 <= d < 8

  /** `get_direction(v)`: unit step of an orthogonal direction. */
  function Direction(d: Dir): (s: Pair)
    ensures Abs(s.y) + Abs(s.x) == 1
  {
    match d
    case 0 => Pair(-1, 0)
    case 1 => Pair(0, 1)
    case 2 => Pair(1, 0)
    case 3 => Pair(0, -1)
  }

  /** `get_direction(v, ortho=False)`: clockwise from up. */
  function Direction8(d: Dir8): (s: Pair)
    ensures Max(Abs(s.y), Abs(s.x)) == 1
  {
    [Pair(-1, 0), Pair(-1, 1), Pair(0, 1), Pair(1, 1),
     Pair(1, 0), Pair(1, -1), Pair(0, -1), Pair(-1, -1)][d]
  }

  /** `get_neighbors(ortho)`, in direction order. */
  function Neighbors(p: Pair, ortho: bool): (ns: seq<Pair>)
    ensures |ns| == if ortho then 4 else 8
  {
    if ortho then seq(4, (d: int) requires 0 <= d < 4 => p.Add(Direction(d)))
    else seq(8, (d: int) requires 0 <= d < 8 => p.Add(Direction8(d)))
  }

  predicate Adjacent4(a: Pair, b: Pair) { Abs(a.y - b.y) + Abs(a.x - b.x) == 1 }
  predicate Adjacent8(a: Pair, b: Pair) { Max(Abs(a.y - b.y), Abs(a.x - b.x)) == 1 }

  /** The four neighbours are exactly the cells one orthogonal step away, and
      the eight neighbours exactly the cells one king's move away; neither
      list repeats a cell. */
  lemma NeighborsExact(p: Pair, q: Pair)
    ensures q in Neighbors(p, true) <==> Adjacent4(p, q)
    ensures q in Neighbors(p, false) <==> Adjacent8(p, q)
    ensures forall i, j :: 0 <= i < j < 4 ==> Neighbors(p, true)[i] != Neighbors(p, true)[j]
    ensures forall i, j :: 0 <= i < j < 8 ==> Neighbors(p, false)[i] != Neighbors(p, false)[j]
  {
    var n4, n8 := Neighbors(p, true), Neighbors(p, false);
    if Adjacent4(p, q) {
      var dy, dx := q.y - p.y, q.x - p.x;
      if dy == -1 { assert q == n4[0]; }
      else if dx == 1 { assert q == n4[1]; }
      else if dy == 1 { assert q == n4[2]; }
      else { assert q == n4[3]; }
    }
    if Adjacent8(p, q) {
      var dy, dx := q.y - p.y, q.x - p.x;
      if dy == -1 && dx == 0 { assert q == n8[0]; }
      else if dy == -1 && dx == 1 { assert q == n8[1]; }
      else if dy == 0 && dx == 1 { assert q == n8[2]; }
      else if dy == 1 && dx == 1 { assert q == n8[3]; }
      else if dy == 1 && dx == 0 { assert q == n8[4]; }
      else if dy == 1 && dx == -1 { assert q == n8[5]; }
      else if dy == 0 && dx == -1 { assert q == n8[6]; }
      else { assert q == n8[7]; }
    }
  }

  /** `direction_to(other)`: the orthogonal direction along the larger
      component of `other - self`; ties and a zero difference go horizontal. */
  function DirectionTo(self: Pair, other: Pair): (r: Dir)
    ensures var diff := other.Sub(self);
      && Dot(Direction(r), diff) == Max(Abs(diff.y), Abs(diff.x))
      && ((r == UP || r == DOWN) <==> Abs(diff.y) > Abs(diff.x))
  {
    var diff := other.Sub(self);
    if Abs(diff.y) > Abs(diff.x) then
      (if Sign(diff.y) == -1 then UP else DOWN)
    else
      (if Sign(diff.x) == -1 then LEFT else RIGHT)
  }

  function Dot(a: Pair, b: Pair): int { a.y * b.y + a.x * b.x }

  /** The step `direction_to` picks points along the larger component of the
      difference, so it makes the most progress any orthogonal step can; it is
      vertical exactly when the vertical component is strictly larger, and a
      zero difference gives RIGHT. */
  lemma DirectionToBest(self: Pair, other: Pair)
    ensures var diff := other.Sub(self); var r := DirectionTo(self, other);
      && Dot(Direction(r), diff) == Max(Abs(diff.y), Abs(diff.x))
      && (forall d: Dir :: Dot(Direction(d), diff) <= Dot(Direction(r), diff))
      && ((r == UP || r == DOWN) <==> Abs(diff.y) > Abs(diff.x))
      && (diff == Pair(0, 0) ==> r == RIGHT)
  {
  }

  // ------------------------------------------------------------ distances

  /** Squared Euclidean distance; the source's square root is monotone, so
      every comparison it makes is the same on squares. */
  function DistSq(a: Pair, b: Pair): nat {
    (a.y - b.y) * (a.y - b.y) + (a.x - b.x) * (a.x - b.x)
  }

  /** `k` steps of `step`. */
  function Scale(k: int, step: Pair): Pair { Pair(k * step.y, k * step.x) }
}
