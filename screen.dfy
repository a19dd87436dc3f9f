/** What the two diff renderers share: redraw rules, glyphs, the cell a raw
    position is written to, and the screen that a run of writes leaves behind.
    The terminal is modelled as a map from cell to glyph. */
module Screen {
  import opened Geometry

  datatype Option<T> = None | Some(value: T)

  type RuleId = string

  /** A redraw rule: the cells it claims, and the glyph it paints them with. */
  datatype Rule = Rule(test: Pair -> bool, ch: string, color: int)

  /** The character and colour pair shown in one terminal cell. */
  datatype Glyph = Glyph(ch: string, color: int)

  /** What `draw` uses of a buffered character: raw position and glyph. */
  datatype Stamp = Stamp(pos: RealPair, glyph: Glyph)

  /** Which of the two renderers: terminal_engine.py or curses_wrapper.py. */
  datatype Variant = EngineScreen | CursesScreen

  predicate InScreen(c: Pair, height: int, width: int) {
    0 <= c.y < height && 0 <= c.x < width
  }

  predicate IsCorner(c: Pair, height: int, width: int) {
    c == Pair(height - 1, width - 1)
  }

  /** A cell the renderer may hold a glyph for. The engine's renderer keeps
      off the bottom-right cell, where a curses write raises. */
  predicate Writable(v: Variant, c: Pair, height: int, width: int) {
    InScreen(c, height, width) && (v == EngineScreen ==> !IsCorner(c, height, width))
  }

  /** The raw guard of curses_wrapper.py's `_draw_char`. */
  predicate RawInScreen(p: RealPair, height: int, width: int) {
    0.0 <= p.y < height as real && 0.0 <= p.x < width as real
  }

  /** The raw guard of terminal_engine.py's `_draw_char`: in bounds and not
      the bottom-right cell, tested on the unrounded values. */
  predicate RawGuardEngine(p: RealPair, height: int, width: int) {
    RawInScreen(p, height, width) &&
    (p.y < (height - 1) as real || p.x < (width - 1) as real)
  }

  /** The cell a write at raw position `p` lands on, if any. Both renderers
      first test the raw position. The engine's then also keeps the rounded
      cell writable: that is the corrected guard (see `EngineDrawAsWritten`
      for the guard as the source writes it). For curses a rounded cell off
      the screen makes the backend fail, which the renderer swallows: nothing
      is written. */
  function Target(v: Variant, height: int, width: int, p: RealPair): (r: Option<Pair>)
    ensures r.Some? ==> r.value == Rounded(p) && Writable(v, r.value, height, width)
    ensures v == CursesScreen ==>
      (r.Some? <==> RawInScreen(p, height, width) && InScreen(Rounded(p), height, width))
    ensures v == EngineScreen ==>
      (r.Some? <==> RawGuardEngine(p, height, width) && Writable(v, Rounded(p), height, width))
  {
    var c := Rounded(p);
    match v
    case EngineScreen =>
      if RawGuardEngine(p, height, width) && Writable(v, c, height, width) then Some(c) else None
    case CursesScreen =>
      if RawInScreen(p, height, width) && InScreen(c, height, width) then Some(c) else None
  }

  /** Writing a whole cell (as `restore` does) hits that very cell exactly
      when the renderer may write it: for cells rounding is the identity on
      the screen, and off-screen or negative cells are never written. */
  lemma TargetOfCell(v: Variant, height: int, width: int, c: Pair)
    ensures Target(v, height, width, ToReal(c)) ==
      (if Writable(v, c, height, width) then Some(c) else None)
  {
    if c.y >= 0 && c.x >= 0 {
      RoundedIdentity(c);
    }
  }

  /** The curses renderer writes the bottom-right cell; the engine's never does. */
  lemma CornerDiffers(height: int, width: int)
    requires height >= 1 && width >= 1
    ensures Target(CursesScreen, height, width, ToReal(Pair(height - 1, width - 1))) ==
      Some(Pair(height - 1, width - 1))
    ensures Target(EngineScreen, height, width, ToReal(Pair(height - 1, width - 1))) == None
  {
    TargetOfCell(CursesScreen, height, width, Pair(height - 1, width - 1));
    TargetOfCell(EngineScreen, height, width, Pair(height - 1, width - 1));
  }

  // ------------------------------------------- the engine's guard as written

  /** What one `_draw_char` call of terminal_engine.py does: nothing, a write,
      or a curses error that propagates to the caller. */
  datatype Outcome = Skipped | Wrote(cell: Pair) | Raised(cell: Pair)

  /** terminal_engine.py's `_draw_char` as written: the guard looks at the raw
      position, but the rounded cell is written, and curses raises for a cell
      off the window or for the bottom-right cell. */
  function EngineDrawAsWritten(height: int, width: int, p: RealPair): (o: Outcome)
    ensures o.Skipped? <==> !RawGuardEngine(p, height, width)
    ensures o.Wrote? ==> o.cell == Rounded(p) && Writable(EngineScreen, o.cell, height, width)
  {
    if RawGuardEngine(p, height, width) then
      var c := Rounded(p);
      if Writable(EngineScreen, c, height, width) then Wrote(c) else Raised(c)
    else Skipped
  }

  /** The raw guard lets through positions whose rounded cell is the
      bottom-right cell or lies one column past the right edge. */
  lemma EngineGuardLetsThrough(height: int, width: int)
    requires height >= 2 && width >= 2
    ensures EngineDrawAsWritten(height, width, RealPair((height - 1) as real, width as real - 1.4))
      == Raised(Pair(height - 1, width - 1))
    ensures EngineDrawAsWritten(height, width, RealPair(0.0, width as real - 0.4))
      == Raised(Pair(0, width))
  {
    RoundWhole(height - 1);
    RoundWhole(0);
    RoundNear(width as real - 1.4, width - 1);
    RoundNear(width as real - 0.4, width);
  }

  lemma RoundNear(v: real, n: int)
    requires v >= -0.5 && n as real - 0.5 <= v < n as real + 0.5
    ensures Round(v) == n
  {
  }

  /** The corrected guard only turns the source's raised errors into skipped
      writes; and on whole cells, which is what `restore` writes, the source
      never raises, so the two agree there entirely. */
  lemma EngineCorrectionAgrees(height: int, width: int, p: RealPair)
    ensures var o := EngineDrawAsWritten(height, width, p);
      && (o.Wrote? <==> Target(EngineScreen, height, width, p).Some?)
      && (o.Wrote? ==> Target(EngineScreen, height, width, p) == Some(o.cell))
    ensures IsIntegral(p) ==> !EngineDrawAsWritten(height, width, p).Raised?
  {
    if IsIntegral(p) {
      var c := ToCell(p);
      TargetOfCell(EngineScreen, height, width, c);
    }
  }

  // --------------------------------------------------------- screen writes

  function Write(v: Variant, height: int, width: int, screen: map<Pair, Glyph>, s: Stamp): map<Pair, Glyph> {
    var t := Target(v, height, width, s.pos);
    if t.Some? then screen[t.value := s.glyph] else screen
  }

  /** The screen after writing `stamps` in order. */
  function DrawAll(v: Variant, height: int, width: int, screen: map<Pair, Glyph>, stamps: seq<Stamp>): map<Pair, Glyph>
  {
    if stamps == [] then screen
    else Write(v, height, width, DrawAll(v, height, width, screen, stamps[..|stamps| - 1]), stamps[|stamps| - 1])
  }

  /** Index of the last stamp written to cell `c`, or -1. */
  function LastHit(v: Variant, height: int, width: int, stamps: seq<Stamp>, c: Pair): (i: int)
    ensures -1 <= i < |stamps|
    ensures i >= 0 ==> Target(v, height, width, stamps[i].pos) == Some(c)
    ensures forall j :: i < j < |stamps| ==> Target(v, height, width, stamps[j].pos) != Some(c)
  {
    if stamps == [] then -1
    else if Target(v, height, width, stamps[|stamps| - 1].pos) == Some(c) then |stamps| - 1
    else LastHit(v, height, width, stamps[..|stamps| - 1], c)
  }

  /** The last write to a cell wins; a cell no stamp targets keeps its glyph. */
  lemma {:induction false} DrawAllAt(v: Variant, height: int, width: int, screen: map<Pair, Glyph>, stamps: seq<Stamp>, c: Pair)
    ensures var i := LastHit(v, height, width, stamps, c);
      && (c in DrawAll(v, height, width, screen, stamps) <==> c in screen || i >= 0)
      && (i >= 0 ==> DrawAll(v, height, width, screen, stamps)[c] == stamps[i].glyph)
      && (i < 0 && c in screen ==> DrawAll(v, height, width, screen, stamps)[c] == screen[c])
  {
    if stamps != [] {
      DrawAllAt(v, height, width, screen, stamps[..|stamps| - 1], c);
    }
  }

  /** Writes never leave the cells the renderer may write. */
  lemma {:induction false} DrawAllWritable(v: Variant, height: int, width: int, screen: map<Pair, Glyph>, stamps: seq<Stamp>)
    requires forall c :: c in screen ==> Writable(v, c, height, width)
    ensures forall c :: c in DrawAll(v, height, width, screen, stamps) ==> Writable(v, c, height, width)
  {
    if stamps != [] {
      DrawAllWritable(v, height, width, screen, stamps[..|stamps| - 1]);
    }
  }

  /** The cells `draw` marks as drawn: each stamp's rounded position. */
  function RoundedCells(stamps: seq<Stamp>): set<Pair> {
    set s | s in stamps :: Rounded(s.pos)
  }
  /** Drawing one more stamp: one more write, one more drawn cell. */
  lemma DrawOneMore(v: Variant, height: int, width: int, screen: map<Pair, Glyph>, stamps: seq<Stamp>, i: int)
    requires 0 <= i < |stamps|
    ensures DrawAll(v, height, width, screen, stamps[..i + 1]) ==
      Write(v, height, width, DrawAll(v, height, width, screen, stamps[..i]), stamps[i])
    ensures RoundedCells(stamps[..i + 1]) == RoundedCells(stamps[..i]) + {Rounded(stamps[i].pos)}
  {
    assert stamps[..i + 1][..i] == stamps[..i];
    assert stamps[..i + 1] == stamps[..i] + [stamps[i]];
  }


  // ------------------------------------------------------------- repaints

  /** Some rule claims cell `p`. */
  ghost predicate Claimed(rules: map<RuleId, Rule>, p: Pair) {
    exists k :: k in rules && rules[k].test(p)
  }

  /** The glyph a repaint gives `p`: the glyph of the rule that claimed it,
      or the default. */
  function PaintFor(rules: map<RuleId, Rule>, owner: map<Pair, RuleId>, default: Glyph, p: Pair): Glyph {
    if p in owner && owner[p] in rules then Glyph(rules[owner[p]].ch, rules[owner[p]].color)
    else default
  }

  /** `owner` says which rule claimed each repainted cell, and the recorded
      rule assignments are exactly that record: every list non-empty, every
      cell listed once, under its owner. */
  ghost predicate Owns(rules: map<RuleId, Rule>, owner: map<Pair, RuleId>, assignments: map<RuleId, seq<Pair>>) {
    && (forall p :: p in owner ==> owner[p] in rules && rules[owner[p]].test(p))
    && (forall p :: p in owner ==> owner[p] in assignments && p in assignments[owner[p]])
    && (forall k :: k in assignments ==> assignments[k] != [])
    && (forall k, i :: k in assignments && 0 <= i < |assignments[k]| ==>
          assignments[k][i] in owner && owner[assignments[k][i]] == k)
    && (forall k, i, j :: k in assignments && 0 <= i < j < |assignments[k]| ==>
          assignments[k][i] != assignments[k][j])
  }

  /** Recorded assignments belong to live rules and pass their tests. */
  lemma OwnsSound(rules: map<RuleId, Rule>, owner: map<Pair, RuleId>, assignments: map<RuleId, seq<Pair>>)
    requires Owns(rules, owner, assignments)
    ensures assignments.Keys <= rules.Keys
    ensures forall k, i :: k in assignments && 0 <= i < |assignments[k]| ==> rules[k].test(assignments[k][i])
  {
    forall k | k in assignments ensures k in rules {
      var c := assignments[k][0];
      assert c in owner && owner[c] == k;
    }
  }

  /** Recording one more cell under a rule that claims it keeps the record. */
  lemma OwnsAdd(rules: map<RuleId, Rule>, owner: map<Pair, RuleId>, assignments: map<RuleId, seq<Pair>>, pix: Pair, k: RuleId)
    requires Owns(rules, owner, assignments) && pix !in owner && k in rules && rules[k].test(pix)
    ensures var cells := if k in assignments then assignments[k] else [];
      Owns(rules, owner[pix := k], assignments[k := cells + [pix]])
  {
    var cells := if k in assignments then assignments[k] else [];
    var owner', assignments' := owner[pix := k], assignments[k := cells + [pix]];
    forall p | p in owner' ensures owner'[p] in assignments' && p in assignments'[owner'[p]] {
      if p != pix && owner[p] == k {
        assert p in cells;
      }
    }
    forall j, i | j in assignments' && 0 <= i < |assignments'[j]|
      ensures assignments'[j][i] in owner' && owner'[assignments'[j][i]] == j
    {
      if j == k && i < |cells| {
        assert assignments'[j][i] == assignments[j][i];
      }
    }
    forall j, i, l | j in assignments' && 0 <= i < l < |assignments'[j]|
      ensures assignments'[j][i] != assignments'[j][l]
    {
      if j == k && l == |cells| {
        assert assignments[j][i] in owner;
      }
    }
  }

  /** `after` is `before` with every writable cell of `done` repainted. */
  ghost predicate RepaintedOn(v: Variant, height: int, width: int, before: map<Pair, Glyph>, after: map<Pair, Glyph>,
                              done: set<Pair>, rules: map<RuleId, Rule>, owner: map<Pair, RuleId>, default: Glyph) {
    && (forall c :: c in done && Writable(v, c, height, width) ==>
          c in after && after[c] == PaintFor(rules, owner, default, c))
    && (forall c :: !(c in done && Writable(v, c, height, width)) ==>
          (c in after <==> c in before) && (c in after ==> after[c] == before[c]))
  }

  /** Repainting one more cell extends the repainted region by that cell. */
  lemma RepaintStep(v: Variant, height: int, width: int, before: map<Pair, Glyph>, mid: map<Pair, Glyph>,
                    after: map<Pair, Glyph>, done: set<Pair>, pix: Pair, rules: map<RuleId, Rule>,
                    owner: map<Pair, RuleId>, owner': map<Pair, RuleId>, default: Glyph)
    requires RepaintedOn(v, height, width, before, mid, done, rules, owner, default) && pix !in done
    requires forall p :: p in done ==> (p in owner' <==> p in owner) && (p in owner ==> owner'[p] == owner[p])
    requires after == if Writable(v, pix, height, width) then mid[pix := PaintFor(rules, owner', default, pix)] else mid
    ensures RepaintedOn(v, height, width, before, after, done + {pix}, rules, owner', default)
  {
    forall c | c in done + {pix} && Writable(v, c, height, width)
      ensures c in after && after[c] == PaintFor(rules, owner', default, c)
    {
      if c != pix {
        assert PaintFor(rules, owner', default, c) == PaintFor(rules, owner, default, c);
      }
    }
  }

  /** What `restore` has achieved once the cells of `done` are repainted:
      `owner` records a claiming rule for exactly the claimed cells among
      them, the assignments are that record, and the screen shows the
      repaint on those cells and is unchanged elsewhere. */
  ghost predicate RestoredOn(v: Variant, height: int, width: int, rules: map<RuleId, Rule>, default: Glyph,
                             before: map<Pair, Glyph>, after: map<Pair, Glyph>, assignments: map<RuleId, seq<Pair>>,
                             done: set<Pair>, owner: map<Pair, RuleId>) {
    && owner.Keys <= done
    && (forall p :: p in done ==> (p in owner <==> Claimed(rules, p)))
    && Owns(rules, owner, assignments)
    && RepaintedOn(v, height, width, before, after, done, rules, owner, default)
  }

  /** The assignments after recording `pix` under rule `k`. */
  function Record(assignments: map<RuleId, seq<Pair>>, k: RuleId, pix: Pair): map<RuleId, seq<Pair>> {
    assignments[k := (if k in assignments then assignments[k] else []) + [pix]]
  }

  /** One pass of `restore`'s loop for a cell that rule `k` claims: the cell
      shows that rule's glyph and is recorded under `k`. */
  lemma RestoreClaimed(v: Variant, height: int, width: int, rules: map<RuleId, Rule>, default: Glyph,
                       before: map<Pair, Glyph>, mid: map<Pair, Glyph>, assignments: map<RuleId, seq<Pair>>,
                       done: set<Pair>, owner: map<Pair, RuleId>, pix: Pair, k: RuleId)
    requires RestoredOn(v, height, width, rules, default, before, mid, assignments, done, owner)
    requires pix !in done && k in rules && rules[k].test(pix)
    ensures var after := Write(v, height, width, mid, Stamp(ToReal(pix), Glyph(rules[k].ch, rules[k].color)));
      RestoredOn(v, height, width, rules, default, before, after, Record(assignments, k, pix), done + {pix}, owner[pix := k])
    ensures Record(assignments, k, pix).Keys <= rules.Keys
    ensures forall j, i :: j in Record(assignments, k, pix) && 0 <= i < |Record(assignments, k, pix)[j]| ==>
      rules[j].test(Record(assignments, k, pix)[j][i])
  {
    TargetOfCell(v, height, width, pix);
    OwnsAdd(rules, owner, assignments, pix, k);
    OwnsSound(rules, owner[pix := k], Record(assignments, k, pix));
    var after := Write(v, height, width, mid, Stamp(ToReal(pix), Glyph(rules[k].ch, rules[k].color)));
    RepaintStep(v, height, width, before, mid, after, done, pix, rules, owner, owner[pix := k], default);
  }

  /** One pass of `restore`'s loop for a cell no rule claims: the cell shows
      the default glyph and nothing is recorded. */
  lemma RestoreUnclaimed(v: Variant, height: int, width: int, rules: map<RuleId, Rule>, default: Glyph,
                         before: map<Pair, Glyph>, mid: map<Pair, Glyph>, assignments: map<RuleId, seq<Pair>>,
                         done: set<Pair>, owner: map<Pair, RuleId>, pix: Pair)
    requires RestoredOn(v, height, width, rules, default, before, mid, assignments, done, owner)
    requires pix !in done && !Claimed(rules, pix)
    ensures var after := Write(v, height, width, mid, Stamp(ToReal(pix), default));
      RestoredOn(v, height, width, rules, default, before, after, assignments, done + {pix}, owner)
  {
    TargetOfCell(v, height, width, pix);
    var after := Write(v, height, width, mid, Stamp(ToReal(pix), default));
    RepaintStep(v, height, width, before, mid, after, done, pix, rules, owner, owner, default);
  }
}
