/** One step of the cellular automaton in the demo of curses_wrapper.py:
    `n_count` counts, for every cell, how many live cells list it among their
    eight neighbours, and the next generation is read off those counts. */
module Life {
  import opened Geometry
  import opened Input

  /** `n_count[k]` on a `defaultdict(int)`. */
  function Get(counts: map<Pair, nat>, k: Pair): nat {
    if k in counts then counts[k] else 0
  }

  /** How many entries of `active` are king's-move neighbours of `k`, each
      listed entry counted as often as it is listed. */
  function Count(active: seq<Pair>, k: Pair): nat
  {
    if active == [] then 0
    else Count(active[..|active| - 1], k) + (if Adjacent8(active[|active| - 1], k) then 1 else 0)
  }

  /** The rule of the step: born with exactly 3, surviving with 2, 3 or 4. */
  predicate AliveNext(active: seq<Pair>, k: Pair) {
    var c := Count(active, k);
    (c == 3 && k !in active) || (k in active && 2 <= c <= 4)
  }

  /** The live cells among the eight neighbours of `k`. */
  function LiveNeighbours(active: seq<Pair>, k: Pair): set<Pair> {
    set o | o in active && Adjacent8(o, k)
  }

  /** With no cell listed twice, the count is the number of live neighbours. */
  lemma {:induction false} CountIsLiveNeighbours(active: seq<Pair>, k: Pair)
    requires NoRepeats(active)
    ensures Count(active, k) == |LiveNeighbours(active, k)|
  {
    if active != [] {
      var n := |active| - 1;
      var init, o := active[..n], active[n];
      assert NoRepeats(init);
      CountIsLiveNeighbours(init, k);
      assert active == init + [o];
      assert o !in init;
      if Adjacent8(o, k) {
        assert LiveNeighbours(active, k) == LiveNeighbours(init, k) + {o};
      } else {
        assert LiveNeighbours(active, k) == LiveNeighbours(init, k);
      }
    }
  }

  /** The rule as the demo states it, on a generation without repeats: a dead
      cell with exactly 3 live neighbours is born, a live one with 2, 3 or 4
      survives, and every other cell is dead next. */
  lemma LifeRule(active: seq<Pair>, k: Pair)
    requires NoRepeats(active)
    ensures AliveNext(active, k) <==>
      var n := |LiveNeighbours(active, k)|;
      (k !in active && n == 3) || (k in active && 2 <= n <= 4)
  {
    CountIsLiveNeighbours(active, k);
  }

  /** The inner loop: `n_count[n] += 1` for each of the eight neighbours of
      `o`. */
  method AddNeighbours(counts: map<Pair, nat>, o: Pair) returns (r: map<Pair, nat>)
    ensures forall k :: k in r <==> k in counts || Adjacent8(o, k)
    ensures forall k :: Get(r, k) == Get(counts, k) + (if Adjacent8(o, k) then 1 else 0)
  {
    var ns := Neighbors(o, false);
    forall k
      ensures k in ns <==> Adjacent8(o, k)
    {
      NeighborsExact(o, k);
    }
    NeighborsExact(o, o);
    r := counts;
    var j := 0;
    while j < 8
      invariant 0 <= j <= 8
      invariant forall k :: k in r <==> k in counts || k in ns[..j]
      invariant forall k :: Get(r, k) == Get(counts, k) + (if k in ns[..j] then 1 else 0)
    {
      var n := ns[j];
      assert ns[..j + 1] == ns[..j] + [n];
      assert n !in ns[..j];
      r := r[n := Get(r, n) + 1];
      j := j + 1;
    }
    assert ns[..j] == ns;
  }

  /** The counting loop of the step. */
  method NeighbourCounts(active: seq<Pair>) returns (counts: map<Pair, nat>)
    ensures forall k :: Get(counts, k) == Count(active, k)
    ensures forall k :: k in counts <==> Count(active, k) > 0
  {
    counts := map[];
    var i := 0;
    while i < |active|
      invariant 0 <= i <= |active|
      invariant forall k :: Get(counts, k) == Count(active[..i], k)
      invariant forall k :: k in counts <==> Count(active[..i], k) > 0
    {
      assert active[..i + 1][..i] == active[..i];
      counts := AddNeighbours(counts, active[i]);
      i := i + 1;
    }
    assert active[..i] == active;
  }

  /** One step: the cells alive next, each once, in the counts' (unspecified)
      key order. */
  method Step(active: seq<Pair>) returns (next: seq<Pair>)
    ensures NoRepeats(next)
    ensures forall k :: k in next <==> AliveNext(active, k)
  {
    var counts := NeighbourCounts(active);
    next := [];
    var todo := counts.Keys;
    while todo != {}
      invariant todo <= counts.Keys
      invariant NoRepeats(next)
      invariant forall k :: k in next <==> k in counts.Keys - todo && AliveNext(active, k)
      decreases todo
    {
      var k :| k in todo;
      var c := counts[k];
      assert c == Count(active, k) by {
        assert Get(counts, k) == c;
      }
      assert k !in next;
      if c == 3 && k !in active {
        next := next + [k];
      } else if k in active && 2 <= c <= 4 {
        next := next + [k];
      }
      todo := todo - {k};
    }
  }
}
