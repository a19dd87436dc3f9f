/** util.py: its own `BufferedChar.from_string`, a copy of the Bresenham
    ray with the larger radius 8, and `get_breadth`, a greedy best-first
    search over the four-connected grid that records each cell's
    predecessor and then walks the predecessors back to build a path. */
module Util {
  import opened Geometry
  import opened Line
  import opened Input

  // ---------------------------------------------------------- characters

  /** A character to draw, at a raw position. */
  datatype BufferedChar = BufferedChar(pos: RealPair, ch: char, color: int)

  /** `BufferedChar.from_string(st, upper_left, direction, color)`: one
      character per letter, each one step of `direction` past the one
      before. */
  method FromString(st: string, upperLeft: RealPair, direction: Dir, color: int) returns (res: seq<BufferedChar>)
    ensures |res| == |st|
    ensures forall i :: 0 <= i < |st| ==>
      res[i] == BufferedChar(upperLeft.Add(ToReal(Scale(i, Direction(direction)))), st[i], color)
    ensures forall i :: 0 <= i < |res| - 1 ==> res[i + 1].pos == res[i].pos.Add(ToReal(Direction(direction)))
  {
    res := [];
    var p := upperLeft;
    var i := 0;
    while i < |st|
      invariant 0 <= i <= |st| && |res| == i
      invariant p == upperLeft.Add(ToReal(Scale(i, Direction(direction))))
      invariant forall j :: 0 <= j < i ==>
        res[j] == BufferedChar(upperLeft.Add(ToReal(Scale(j, Direction(direction)))), st[j], color)
    {
      res := res + [BufferedChar(p, st[i], color)];
      p := p.Add(ToReal(Direction(direction)));
      i := i + 1;
    }
  }

  // ----------------------------------------------------------------- rays

  /** The default radius of util.py's `get_line`. */
  const UtilSightRadius := 8

  /** `get_line(p1, p2, obs)` of util.py: the same ray with radius 8. */
  method GetLineUtil(p1: Pair, p2: Pair, obs: set<Pair>, draws: Draws) returns (r: seq<Pair>)
    ensures r == Ray(p1, p2, obs, UtilSightRadius, draws)
    ensures |r| >= 1 && r[0] == p1
    ensures forall i :: 0 <= i < |r| - 1 ==> UnitStep(r[i], r[i + 1], p1, p2)
  {
    r := GetLine(p1, p2, obs, UtilSightRadius, draws);
  }

  /** When the radius extension never fires, every cell of the ray but the
      one it stops on lies within squared distance 64 of p1 and is clear. */
  lemma NeverExtendedStaysNear(p1: Pair, p2: Pair, obs: set<Pair>, draws: Draws)
    requires forall k :: !draws(k)
    ensures var r := Ray(p1, p2, obs, UtilSightRadius, draws);
      forall i :: 0 <= i < |r| - 1 ==> DistSq(r[i], p1) <= 64 && r[i] !in obs
  {
    RayIsRay(p1, p2, obs, UtilSightRadius, draws);
    var r := Ray(p1, p2, obs, UtilSightRadius, draws);
    forall i | 0 <= i < |r| - 1
      ensures DistSq(r[i], p1) <= 64 && r[i] !in obs
    {
      assert !Blocks(r[i], p1, obs, UtilSightRadius, draws(0 + i));
    }
  }

  // --------------------------------------------------------------- search

  /** An entry of `prev`: `None` for the start, else the cell expanded when
      this one was recorded. */
  datatype Link = Root | From(cell: Pair)

  /** A heap entry `(priority, cell)`. The source's priority is
      `1 + euclidean(n, finish)`; the squared distance orders the entries the
      same way. */
  datatype Entry = Entry(priority: nat, cell: Pair)

  /** The free cells around `region` are closed off: every four-neighbour of
      a region cell is in the region or an obstacle. */
  ghost predicate Enclosed(region: set<Pair>, obs: set<Pair>) {
    forall c, n :: c in region && Adjacent4(c, n) ==> n in region || n in obs
  }

  /** Every recorded cell but the start links to a cell recorded before it. */
  ghost predicate RankedLinks(prev: map<Pair, Link>, rank: map<Pair, nat>, start: Pair) {
    && start in prev && prev[start] == Root
    && rank.Keys == prev.Keys
    && forall n :: n in prev && n != start ==>
         prev[n].From? && prev[n].cell in prev && rank[prev[n].cell] < rank[n]
  }

  /** What `get_breadth` records: links as above, each to a four-neighbour,
      and no obstacle recorded except possibly the start. */
  ghost predicate Linked(prev: map<Pair, Link>, rank: map<Pair, nat>, start: Pair, obs: set<Pair>) {
    && RankedLinks(prev, rank, start)
    && forall n :: n in prev && n != start ==> Adjacent4(prev[n].cell, n) && n !in obs
  }

  /** The cells waiting in the heap. */
  function Cells(queue: seq<Entry>): set<Pair> {
    set e | e in queue :: e.cell
  }

  /** The heap holds recorded cells, each at most once. */
  ghost predicate Frontier(prev: map<Pair, Link>, queue: seq<Entry>) {
    && (forall i :: 0 <= i < |queue| ==> queue[i].cell in prev)
    && (forall i, j :: 0 <= i < j < |queue| ==> queue[i].cell != queue[j].cell)
  }

  /** Every recorded cell that has left the heap, except `skip`, has had all
      its free neighbours recorded. */
  ghost predicate ExpandedBut(prev: map<Pair, Link>, queue: seq<Entry>, obs: set<Pair>, skip: set<Pair>) {
    forall c, n :: c in prev && c !in Cells(queue) && c !in skip && Adjacent4(c, n) ==> n in obs || n in prev
  }

  /** `order` lists the recorded cells in the order they were recorded. */
  ghost predicate Listed(order: seq<Pair>, prev: map<Pair, Link>) {
    NoRepeats(order) && forall c :: c in order <==> c in prev
  }

  /** The entry at index i has the least priority; the source's tie-break
      compares `Pair` objects, which Python 2 orders arbitrarily. */
  ghost predicate IsMin(queue: seq<Entry>, i: int) {
    0 <= i < |queue| && forall j :: 0 <= j < |queue| ==> queue[i].priority <= queue[j].priority
  }

  function ArgMin(queue: seq<Entry>): (i: nat)
    requires queue != []
    ensures IsMin(queue, i)
  {
    if |queue| == 1 then 0
    else
      var i := ArgMin(queue[..|queue| - 1]);
      if queue[|queue| - 1].priority < queue[i].priority then |queue| - 1 else i
  }

  lemma RemoveAt(queue: seq<Entry>, i: int, prev: map<Pair, Link>)
    requires 0 <= i < |queue| && Frontier(prev, queue)
    ensures var rest := queue[..i] + queue[i + 1..];
      && Frontier(prev, rest)
      && Cells(rest) == Cells(queue) - {queue[i].cell}
  {
    var rest := queue[..i] + queue[i + 1..];
    forall j | 0 <= j < |rest|
      ensures rest[j] == (if j < i then queue[j] else queue[j + 1])
    {
    }
    forall c | c in Cells(queue) - {queue[i].cell}
      ensures c in Cells(rest)
    {
      var e :| e in queue && e.cell == c;
      var j :| 0 <= j < |queue| && queue[j] == e;
      assert rest[if j < i then j else j - 1] == e;
    }
  }

  /** Recording new cells shrinks the part of the region still unrecorded. */
  lemma Shrinks(region: set<Pair>, k: set<Pair>, k': set<Pair>)
    requires k <= k' <= region && k != k'
    ensures |region - k'| < |region - k|
  {
    var x :| x in k' && x !in k;
    var d := (region - k) - (region - k');
    assert x in d;
    assert region - k == (region - k') + d;
    assert (region - k') * d == {};
  }

  /** The search's books: the links, the region, the heap and the order of
      recording agree. */
  ghost predicate Books(start: Pair, obs: set<Pair>, region: set<Pair>, queue: seq<Entry>,
                        prev: map<Pair, Link>, rank: map<Pair, nat>, order: seq<Pair>) {
    Linked(prev, rank, start, obs) && prev.Keys <= region && Frontier(prev, queue) && Listed(order, prev)
  }

  /** Recording a free, unrecorded neighbour `n` of `current` and pushing it
      keeps the books. */
  lemma RecordStep(start: Pair, finish: Pair, obs: set<Pair>, region: set<Pair>, queue: seq<Entry>,
                   prev: map<Pair, Link>, rank: map<Pair, nat>, order: seq<Pair>, current: Pair, n: Pair)
    requires Books(start, obs, region, queue, prev, rank, order) && Enclosed(region, obs)
    requires current in prev && Adjacent4(current, n) && n !in obs && n !in prev
    ensures Books(start, obs, region, queue + [Entry(DistSq(n, finish), n)], prev[n := From(current)],
                  rank[n := rank[current] + 1], order + [n])
    ensures Cells(queue + [Entry(DistSq(n, finish), n)]) == Cells(queue) + {n}
  {
    assert n in region;
    var queue' := queue + [Entry(DistSq(n, finish), n)];
    assert queue'[|queue|].cell == n;
  }

  /** Cells recorded and pushed together leave every expanded cell
      expanded. */
  lemma ExpandedGrow(prev: map<Pair, Link>, queue: seq<Entry>, obs: set<Pair>, skip: set<Pair>, n: Pair, l: Link, e: Entry)
    requires ExpandedBut(prev, queue, obs, skip) && e.cell == n && Cells(queue + [e]) == Cells(queue) + {n}
    ensures ExpandedBut(prev[n := l], queue + [e], obs, skip)
  {
  }

  /** The `for n in current.get_neighbors()` loop: records every free,
      unrecorded neighbour of `current` under it and pushes it, stopping
      right after `finish` is recorded. */
  method Expand(current: Pair, start: Pair, finish: Pair, obs: set<Pair>, ghost region: set<Pair>,
                queue: seq<Entry>, prev: map<Pair, Link>, ghost rank: map<Pair, nat>, ghost order: seq<Pair>)
    returns (queue': seq<Entry>, prev': map<Pair, Link>, ghost rank': map<Pair, nat>, ghost order': seq<Pair>,
             found: bool)
    requires Books(start, obs, region, queue, prev, rank, order) && Enclosed(region, obs)
    requires current in prev && current !in Cells(queue)
    requires ExpandedBut(prev, queue, obs, {current})
    requires finish != start ==> finish !in prev
    ensures Books(start, obs, region, queue', prev', rank', order')
    ensures prev.Keys <= prev'.Keys && (prev'.Keys == prev.Keys ==> queue' == queue)
    ensures found ==> finish != start && finish in prev' && prev'[finish] == From(current)
    ensures found ==> order'[|order'| - 1] == finish
    ensures !found ==> ExpandedBut(prev', queue', obs, {})
    ensures !found ==> (finish != start ==> finish !in prev')
  {
    var ns := Neighbors(current, true);
    queue', prev', rank', order' := queue, prev, rank, order;
    found := false;
    var d := 0;
    while d < 4
      invariant 0 <= d <= 4
      invariant Books(start, obs, region, queue', prev', rank', order')
      invariant prev.Keys <= prev'.Keys && (prev'.Keys == prev.Keys ==> queue' == queue)
      invariant ExpandedBut(prev', queue', obs, {current})
      invariant forall j :: 0 <= j < d ==> ns[j] in obs || ns[j] in prev'
      invariant finish != start ==> finish !in prev'
    {
      var n := ns[d];
      assert n == current.Add(Direction(d));
      if n in obs || n in prev' {
        d := d + 1;
        continue;
      }
      var e := Entry(DistSq(n, finish), n);
      RecordStep(start, finish, obs, region, queue', prev', rank', order', current, n);
      ExpandedGrow(prev', queue', obs, {current}, n, From(current), e);
      queue' := queue' + [e];
      prev' := prev'[n := From(current)];
      rank' := rank'[n := rank'[current] + 1];
      order' := order' + [n];
      if n == finish {
        found := true;
        return;
      }
      d := d + 1;
    }
    forall n | Adjacent4(current, n)
      ensures n in obs || n in prev'
    {
      NeighborsExact(current, n);
      var j :| 0 <= j < 4 && ns[j] == n;
    }
  }

  /** The search loop of `get_breadth`: pops a least-priority entry and
      expands it, until `finish` is recorded or the heap runs dry. Returns
      the predecessor map, the last cell popped, and whether `finish` was
      recorded. The search ends only because the free cells reachable from
      `start` lie in the finite `region`. */
  method Search(start: Pair, finish: Pair, obs: set<Pair>, ghost region: set<Pair>)
    returns (prev: map<Pair, Link>, last: Pair, found: bool, ghost rank: map<Pair, nat>, ghost order: seq<Pair>)
    requires start in region && Enclosed(region, obs)
    ensures Linked(prev, rank, start, obs) && prev.Keys <= region && last in prev
    ensures Listed(order, prev)
    ensures found ==> finish != start && finish in prev && prev[finish] == From(last)
    ensures found ==> order[|order| - 1] == finish
    ensures !found ==> finish != start ==> finish !in prev
    ensures !found ==> forall c, n :: c in prev && Adjacent4(c, n) ==> n in obs || n in prev
  {
    prev := map[start := Root];
    rank := map[start := 0];
    order := [start];
    var queue := [Entry(0, start)];
    assert Cells(queue) == {start};
    last := start;
    found := false;
    while !found && queue != []
      invariant Books(start, obs, region, queue, prev, rank, order) && last in prev
      invariant found ==> finish != start && finish in prev && prev[finish] == From(last)
      invariant found ==> order[|order| - 1] == finish
      invariant !found ==> ExpandedBut(prev, queue, obs, {})
      invariant !found ==> finish != start ==> finish !in prev
      decreases |region - prev.Keys|, |queue|
    {
      var i := ArgMin(queue);
      var current := queue[i].cell;
      RemoveAt(queue, i, prev);
      ghost var before := prev.Keys;
      queue := queue[..i] + queue[i + 1..];
      queue, prev, rank, order, found := Expand(current, start, finish, obs, region, queue, prev, rank, order);
      if prev.Keys != before {
        Shrinks(region, before, prev.Keys);
      }
      last := current;
    }
    if !found {
      assert Cells(queue) == {};
    }
  }

  // ---------------------------------------------------------------- paths

  /** The cells from `start` to `c` along the recorded links. */
  ghost function Trail(prev: map<Pair, Link>, rank: map<Pair, nat>, start: Pair, c: Pair): (t: seq<Pair>)
    requires RankedLinks(prev, rank, start) && c in prev
    ensures |t| >= 1 && t[|t| - 1] == c
    decreases rank[c]
  {
    if c == start then [c] else Trail(prev, rank, start, prev[c].cell) + [c]
  }

  /** A walk from a to b through four-neighbours, clear of obstacles after
      its first cell. */
  ghost predicate FreePath(q: seq<Pair>, a: Pair, b: Pair, obs: set<Pair>) {
    && |q| >= 1 && q[0] == a && q[|q| - 1] == b
    && (forall i :: 0 <= i < |q| - 1 ==> Adjacent4(q[i], q[i + 1]))
    && (forall i :: 0 < i < |q| ==> q[i] !in obs)
  }

  /** The links lead from every recorded cell back to the start along a free
      walk. */
  lemma {:induction false} TrailIsPath(prev: map<Pair, Link>, rank: map<Pair, nat>, start: Pair, obs: set<Pair>, c: Pair)
    requires Linked(prev, rank, start, obs) && c in prev
    ensures FreePath(Trail(prev, rank, start, c), start, c, obs)
    decreases rank[c]
  {
    if c != start {
      var p := prev[c].cell;
      TrailIsPath(prev, rank, start, obs, p);
      var t := Trail(prev, rank, start, p);
      assert Trail(prev, rank, start, c) == t + [c];
    }
  }

  /** A set closed under free four-neighbours that holds the start of a free
      walk holds the whole walk. */
  lemma {:induction false} ClosedHoldsPaths(s: set<Pair>, obs: set<Pair>, q: seq<Pair>, a: Pair, b: Pair)
    requires forall c, n :: c in s && Adjacent4(c, n) ==> n in obs || n in s
    requires FreePath(q, a, b, obs) && a in s
    ensures b in s
    decreases |q|
  {
    if |q| > 1 {
      var q' := q[..|q| - 1];
      ClosedHoldsPaths(s, obs, q', a, q'[|q'| - 1]);
      assert Adjacent4(q[|q| - 2], q[|q| - 1]);
    }
  }

  /** The cells before `c` on its trail. */
  ghost function Before(prev: map<Pair, Link>, rank: map<Pair, nat>, start: Pair, c: Pair): seq<Pair>
    requires RankedLinks(prev, rank, start) && c in prev
  {
    if c == start then [] else Trail(prev, rank, start, prev[c].cell)
  }

  /** The path as util.py:160-164 builds it: `finish`, preceded by the
      links walked back from the predecessor of the last popped cell, so that
      cell itself is left out. */
  ghost function AsWrittenPath(prev: map<Pair, Link>, rank: map<Pair, nat>, start: Pair, last: Pair, finish: Pair): seq<Pair>
    requires RankedLinks(prev, rank, start) && last in prev
  {
    Before(prev, rank, start, last) + [finish]
  }

  /** The reconstruction loop exactly as written. */
  method ReconstructAsWritten(prev: map<Pair, Link>, ghost rank: map<Pair, nat>, start: Pair, last: Pair, finish: Pair)
    returns (pth: seq<Pair>)
    requires RankedLinks(prev, rank, start) && last in prev
    ensures pth == AsWrittenPath(prev, rank, start, last, finish)
  {
    pth := [finish];
    var current := last;
    while current != start
      invariant current in prev
      invariant Before(prev, rank, start, current) + pth == AsWrittenPath(prev, rank, start, last, finish)
      decreases rank[current]
    {
      BeforeStep(prev, rank, start, current, pth);
      current := prev[current].cell;
      pth := [current] + pth;
    }
  }

  lemma BeforeStep(prev: map<Pair, Link>, rank: map<Pair, nat>, start: Pair, c: Pair, pth: seq<Pair>)
    requires RankedLinks(prev, rank, start) && c in prev && c != start
    ensures Before(prev, rank, start, c) + pth ==
      Before(prev, rank, start, prev[c].cell) + ([prev[c].cell] + pth)
  {
    var p := prev[c].cell;
    assert Before(prev, rank, start, c) == Before(prev, rank, start, p) + [p];
  }

  /** Whenever the search finds a `finish` that is not next to `start`, the
      path as written has a step between cells that are not neighbours: the
      skipped cell was the only link between them. Next to `start`, the
      path is `[finish]` alone and misses the start. Either way it is not a
      walk from `start` to `finish`. */
  lemma AsWrittenIsNoWalk(prev: map<Pair, Link>, rank: map<Pair, nat>, start: Pair, obs: set<Pair>, last: Pair, finish: Pair)
    requires Linked(prev, rank, start, obs) && last in prev
    requires finish != start && finish in prev && prev[finish] == From(last)
    ensures !FreePath(AsWrittenPath(prev, rank, start, last, finish), start, finish, obs)
  {
    var w := AsWrittenPath(prev, rank, start, last, finish);
    if last != start {
      var p := prev[last].cell;
      var t := Trail(prev, rank, start, p);
      assert w == t + [finish] && w[|w| - 2] == t[|t| - 1] == p;
      assert rank[p] < rank[last] < rank[finish];
      assert !Adjacent4(p, finish);
    }
  }

  /** The run on a 3 x 5 box walled on its border, from (1, 1) to (1, 3):
      (1, 2) is popped second and records (1, 3); the path as written jumps
      from (1, 1) straight to (1, 3), while walking back from the last
      popped cell itself gives the three-cell walk. */
  lemma BoxExample()
    ensures var prev := map[Pair(1, 1) := Root, Pair(1, 2) := From(Pair(1, 1)), Pair(1, 3) := From(Pair(1, 2))];
      var rank := map[Pair(1, 1) := 0, Pair(1, 2) := 1, Pair(1, 3) := 2];
      && RankedLinks(prev, rank, Pair(1, 1))
      && AsWrittenPath(prev, rank, Pair(1, 1), Pair(1, 2), Pair(1, 3)) == [Pair(1, 1), Pair(1, 3)]
      && Trail(prev, rank, Pair(1, 1), Pair(1, 2)) + [Pair(1, 3)] == [Pair(1, 1), Pair(1, 2), Pair(1, 3)]
  {
    var prev := map[Pair(1, 1) := Root, Pair(1, 2) := From(Pair(1, 1)), Pair(1, 3) := From(Pair(1, 2))];
    var rank := map[Pair(1, 1) := 0, Pair(1, 2) := 1, Pair(1, 3) := 2];
    assert RankedLinks(prev, rank, Pair(1, 1));
    assert Trail(prev, rank, Pair(1, 1), Pair(1, 1)) == [Pair(1, 1)];
    assert Trail(prev, rank, Pair(1, 1), Pair(1, 2)) == [Pair(1, 1), Pair(1, 2)];
  }

  /** The reconstruction loop corrected: the last popped cell is put in
      front of `finish` before walking its links back. */
  method Reconstruct(prev: map<Pair, Link>, ghost rank: map<Pair, nat>, start: Pair, last: Pair, finish: Pair)
    returns (pth: seq<Pair>)
    requires RankedLinks(prev, rank, start) && last in prev
    ensures pth == Trail(prev, rank, start, last) + [finish]
  {
    var current := last;
    pth := [current, finish];
    ghost var rest := [finish];
    while current != start
      invariant current in prev && pth == [current] + rest
      invariant Trail(prev, rank, start, current) + rest == Trail(prev, rank, start, last) + [finish]
      decreases rank[current]
    {
      ghost var c := current;
      current := prev[current].cell;
      assert Trail(prev, rank, start, c) == Trail(prev, rank, start, current) + [c];
      assert Trail(prev, rank, start, current) + ([c] + rest) == Trail(prev, rank, start, c) + rest;
      rest := [c] + rest;
      pth := [current] + pth;
    }
  }

  /** `get_breadth(start, finish, obs)` with the corrected reconstruction:
      when `finish` is found the path is a free walk from `start` to it, and
      when it is not, no free walk reaches it. */
  method GetBreadth(start: Pair, finish: Pair, obs: set<Pair>, ghost region: set<Pair>)
    returns (pth: seq<Pair>, ghost found: bool)
    requires start in region && Enclosed(region, obs)
    ensures |pth| >= 1 && pth[|pth| - 1] == finish
    ensures found ==> FreePath(pth, start, finish, obs)
    ensures !found && finish != start ==> forall q :: !FreePath(q, start, finish, obs)
  {
    var prev, last;
    ghost var rank, order;
    prev, last, found, rank, order := Search(start, finish, obs, region);
    pth := Reconstruct(prev, rank, start, last, finish);
    if found {
      assert Trail(prev, rank, start, finish) == pth;
      TrailIsPath(prev, rank, start, obs, finish);
    } else if finish != start {
      forall q | FreePath(q, start, finish, obs)
        ensures false
      {
        ClosedHoldsPaths(prev.Keys, obs, q, start, finish);
      }
    }
  }
}
