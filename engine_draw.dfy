/** The diff renderer of terminal_engine.py: cells drawn this tick are kept
    in `drawn`; at `render`, every cell drawn last tick (and every cell marked
    by a rule change) is repainted from the first rule that claims it, or
    with the default glyph. */
module EngineDraw {
  import opened Geometry
  import opened Screen

  /** A character queued for drawing, at a raw position. */
  datatype BufferedChar = BufferedChar(pos: RealPair, ch: string, color: int, drawPriority: int)

  function StampOf(bc: BufferedChar): Stamp {
    Stamp(bc.pos, Glyph(bc.ch, bc.color))
  }

  function Stamps(chars: seq<BufferedChar>): (s: seq<Stamp>)
    ensures |s| == |chars|
    ensures forall i :: 0 <= i < |chars| ==> s[i] == StampOf(chars[i])
  {
    seq(|chars|, i requires 0 <= i < |chars| => StampOf(chars[i]))
  }

  /** The cells `rule_assignments` lists under `id`; a missing id reads as
      the empty list, as a `defaultdict(list)` does. */
  function Assigned(assignments: map<RuleId, seq<Pair>>, id: RuleId): set<Pair> {
    if id in assignments then set c | c in assignments[id] else {}
  }

  class DrawController {
    const height: int
    const width: int
    var defaultChar: string
    var defaultColor: int
    var rules: map<RuleId, Rule>
    var ruleAssignments: map<RuleId, seq<Pair>>
    var drawn: set<Pair>
    var toRestore: set<Pair>
    var screen: map<Pair, Glyph>

    /** Every list of assigned cells belongs to a live rule whose test the
        cells pass, and nothing was ever written off the screen or to its
        bottom-right cell. */
    ghost predicate Valid()
      reads this`rules, this`ruleAssignments, this`screen
    {
      && ruleAssignments.Keys <= rules.Keys
      && (forall k, i :: k in ruleAssignments && 0 <= i < |ruleAssignments[k]| ==>
            rules[k].test(ruleAssignments[k][i]))
      && (forall c :: c in screen ==> Writable(EngineScreen, c, height, width))
    }

    /** `__init__` followed by `init_screen` on a terminal of the given size. */
    constructor (height: int, width: int)
      ensures Valid()
      ensures this.height == height && this.width == width
      ensures defaultChar == " " && defaultColor == 4
      ensures rules == map[] && ruleAssignments == map[]
      ensures drawn == {} && toRestore == {} && screen == map[]
    {
      this.height := height;
      this.width := width;
      defaultChar := " ";
      defaultColor := 4;
      rules := map[];
      ruleAssignments := map[];
      drawn := {};
      toRestore := {};
      screen := map[];
    }

    method SetDefaultChar(c: string)
      modifies this`defaultChar
      ensures defaultChar == c
    {
      defaultChar := c;
    }

    method SetDefaultColor(co: int)
      modifies this`defaultColor
      ensures defaultColor == co
    {
      defaultColor := co;
    }

    /** Marks the given cells for repainting at the next render. */
    method Update(modified: seq<Pair>)
      modifies this`toRestore
      ensures toRestore == old(toRestore) + set c | c in modified
    {
      toRestore := toRestore + set c | c in modified;
    }

    /** Marks every on-screen cell that passes `test`. */
    method MarkMatching(test: Pair -> bool)
      modifies this`toRestore
      ensures forall c :: c in toRestore <==>
        c in old(toRestore) || (InScreen(c, height, width) && test(c))
    {
      var i := 0;
      while i < height
        invariant 0 <= i <= Max(height, 0)
        invariant forall c :: c in toRestore <==>
          c in old(toRestore) || (0 <= c.y < i && 0 <= c.x < width && test(c))
      {
        var j := 0;
        while j < width
          invariant 0 <= j <= Max(width, 0)
          invariant forall c :: c in toRestore <==>
            c in old(toRestore) || (((0 <= c.y < i && 0 <= c.x < width) || (c.y == i && 0 <= c.x < j)) && test(c))
        {
          if test(Pair(i, j)) {
            toRestore := toRestore + {Pair(i, j)};
          }
          j := j + 1;
        }
        i := i + 1;
      }
    }

    /** `add_rule`: the id must be new (the source asserts it). Without a list
        of modified cells, every on-screen cell the rule claims is marked. */
    method AddRule(id: RuleId, rule: Rule, modified: Option<seq<Pair>>)
      requires Valid() && id !in rules
      modifies this`rules, this`toRestore
      ensures Valid()
      ensures rules == old(rules)[id := rule]
      ensures modified.Some? ==> toRestore == old(toRestore) + set c | c in modified.value
      ensures modified.None? ==> forall c :: c in toRestore <==>
        c in old(toRestore) || (InScreen(c, height, width) && rule.test(c))
    {
      rules := rules[id := rule];
      if modified.None? {
        MarkMatching(rule.test);
      } else {
        Update(modified.value);
      }
    }

    /** `remove_rule`: a known rule disappears and the cells it painted at the
        last restore are marked for repainting; an unknown id changes nothing. */
    method RemoveRule(id: RuleId)
      requires Valid()
      modifies this`rules, this`toRestore, this`ruleAssignments
      ensures Valid()
      ensures rules == old(rules) - {id}
      ensures ruleAssignments == old(ruleAssignments) - {id}
      ensures toRestore == old(toRestore) + (if id in old(rules) then Assigned(old(ruleAssignments), id) else {})
    {
      if id in rules {
        rules := rules - {id};
        toRestore := toRestore + Assigned(ruleAssignments, id);
        ruleAssignments := ruleAssignments - {id};
      }
    }

    /** `update_rule`: remove, then add afresh. */
    method UpdateRule(id: RuleId, rule: Rule, modified: Option<seq<Pair>>)
      requires Valid()
      modifies this`rules, this`toRestore, this`ruleAssignments
      ensures Valid()
      ensures rules == old(rules)[id := rule]
      ensures ruleAssignments == old(ruleAssignments) - {id}
      ensures var freed := if id in old(rules) then Assigned(old(ruleAssignments), id) else {};
        && (modified.Some? ==> toRestore == old(toRestore) + freed + set c | c in modified.value)
        && (modified.None? ==> forall c :: c in toRestore <==>
              c in old(toRestore) || c in freed || (InScreen(c, height, width) && rule.test(c)))
    {
      RemoveRule(id);
      AddRule(id, rule, modified);
    }

    /** `_draw_char` with the corrected guard. */
    method DrawChar(p: RealPair, g: Glyph)
      requires Valid()
      modifies this`screen
      ensures Valid()
      ensures screen == Write(EngineScreen, height, width, old(screen), Stamp(p, g))
    {
      var t := Target(EngineScreen, height, width, p);
      if t.Some? {
        screen := screen[t.value := g];
      }
    }

    /** `full_draw`: marks every on-screen cell. */
    method FullDraw()
      modifies this`toRestore
      ensures forall c :: c in toRestore <==> c in old(toRestore) || InScreen(c, height, width)
    {
      MarkMatching(_ => true);
    }

    function Default(): Glyph
      reads this`defaultChar, this`defaultColor
    {
      Glyph(defaultChar, defaultColor)
    }

    /** The effect of `restore` on the cells of `old(toRestore)`: each one a
        rule claims is recorded under such a rule and shows its glyph, each
        other one shows the default, and every other cell keeps its glyph. */
    twostate predicate Repainted(owner: map<Pair, RuleId>)
      reads this
    {
      RestoredOn(EngineScreen, height, width, rules, Default(), old(screen), screen, ruleAssignments,
                 old(toRestore), owner)
    }

    /** `restore`; the source walks the rules in dictionary order and takes
        the first that claims the cell, and that order is unspecified, so any
        claiming rule may be the one. */
    method Restore() returns (ghost owner: map<Pair, RuleId>)
      requires Valid()
      modifies this`ruleAssignments, this`screen, this`toRestore
      ensures Valid()
      ensures Repainted(owner)
      ensures toRestore == {}
      ensures rules == old(rules) && drawn == old(drawn) && Default() == old(Default())
    {
      ruleAssignments := map[];
      owner := map[];
      var todo := toRestore;
      ghost var all := toRestore;
      while todo != {}
        invariant todo <= all
        invariant Valid()
        invariant RestoredOn(EngineScreen, height, width, rules, Default(), old(screen), screen, ruleAssignments,
                             all - todo, owner)
        decreases todo
      {
        var pix :| pix in todo;
        owner := RestoreCell(pix, old(screen), all - todo, owner);
        todo := todo - {pix};
        assert all - todo == (all - (todo + {pix})) + {pix};
      }
      assert all - todo == all;
      toRestore := {};
    }

    /** One pass of `restore`'s loop: repaints `pix` from a rule that claims
        it, recording the cell under that rule, or with the default. */
    method RestoreCell(pix: Pair, ghost before: map<Pair, Glyph>, ghost done: set<Pair>, ghost owner: map<Pair, RuleId>)
      returns (ghost owner': map<Pair, RuleId>)
      requires Valid() && pix !in done
      requires RestoredOn(EngineScreen, height, width, rules, Default(), before, screen, ruleAssignments, done, owner)
      modifies this`ruleAssignments, this`screen
      ensures Valid()
      ensures RestoredOn(EngineScreen, height, width, rules, Default(), before, screen, ruleAssignments, done + {pix}, owner')
    {
      if k :| k in rules && rules[k].test(pix) {
        RestoreClaimed(EngineScreen, height, width, rules, Default(), before, screen, ruleAssignments, done, owner, pix, k);
        var rule := rules[k];
        DrawChar(ToReal(pix), Glyph(rule.ch, rule.color));
        ruleAssignments := Record(ruleAssignments, k, pix);
        owner' := owner[pix := k];
      } else {
        RestoreUnclaimed(EngineScreen, height, width, rules, Default(), before, screen, ruleAssignments, done, owner, pix);
        DrawChar(ToReal(pix), Default());
        owner' := owner;
      }
    }

    /** `draw`: writes each character, and moves its rounded cell from
        `to_restore` to `drawn`. */
    method Draw(chars: seq<BufferedChar>)
      requires Valid()
      modifies this`screen, this`toRestore, this`drawn
      ensures Valid()
      ensures screen == DrawAll(EngineScreen, height, width, old(screen), Stamps(chars))
      ensures drawn == old(drawn) + RoundedCells(Stamps(chars))
      ensures toRestore == old(toRestore) - RoundedCells(Stamps(chars))
    {
      var stamps := Stamps(chars);
      var i := 0;
      while i < |chars|
        invariant 0 <= i <= |chars|
        invariant Valid()
        invariant screen == DrawAll(EngineScreen, height, width, old(screen), stamps[..i])
        invariant drawn == old(drawn) + RoundedCells(stamps[..i])
        invariant toRestore == old(toRestore) - RoundedCells(stamps[..i])
      {
        var bc := chars[i];
        DrawOneMore(EngineScreen, height, width, old(screen), stamps, i);
        DrawChar(bc.pos, Glyph(bc.ch, bc.color));
        var p := Rounded(bc.pos);
        toRestore := toRestore - {p};
        drawn := drawn + {p};
        i := i + 1;
      }
      assert stamps[..i] == stamps;
    }

    /** `render`: repaint what needs it, then what was drawn this tick is what
        needs repainting next tick. */
    method Render() returns (ghost owner: map<Pair, RuleId>)
      requires Valid()
      modifies this`ruleAssignments, this`screen, this`toRestore, this`drawn
      ensures Valid()
      ensures Repainted(owner)
      ensures toRestore == old(drawn) && drawn == {}
      ensures rules == old(rules) && Default() == old(Default())
    {
      owner := Restore();
      toRestore := drawn;
      drawn := {};
    }
  }
}
