/** base.py: the base entity with its set of buffs. A buff's class is not
    part of this model; a buff is seen only through what the entity calls on
    it (`apply`, `tick`, `get_duration`, `cleanup`), with `tick` taking the
    remaining duration to `tickRule` of it. */
module Base {
  import opened Geometry
  import opened Util

  /** A buff, by the effects the entity can observe: its duration, and how
      often it was applied, ticked and cleaned up. */
  class Buff {
    const tickRule: int -> int
    var duration: int
    var applies: nat
    var ticks: nat
    var cleanups: nat

    constructor (tickRule: int -> int, duration: int)
      ensures this.tickRule == tickRule && this.duration == duration
      ensures applies == 0 && ticks == 0 && cleanups == 0
    {
      this.tickRule := tickRule;
      this.duration := duration;
      applies, ticks, cleanups := 0, 0, 0;
    }

    method Apply()
      modifies this`applies
      ensures applies == old(applies) + 1
    {
      applies := applies + 1;
    }

    method Tick()
      modifies this`duration, this`ticks
      ensures duration == tickRule(old(duration)) && ticks == old(ticks) + 1
    {
      duration := tickRule(duration);
      ticks := ticks + 1;
    }

    method Cleanup()
      modifies this`cleanups
      ensures cleanups == old(cleanups) + 1
    {
      cleanups := cleanups + 1;
    }

    /** The effect of one pass of `Entity.update` on this buff: one tick, and
        one cleanup exactly when the duration is then 0. */
    twostate predicate Updated()
      reads this
    {
      && duration == tickRule(old(duration))
      && ticks == old(ticks) + 1
      && cleanups == old(cleanups) + (if duration == 0 then 1 else 0)
      && applies == old(applies)
    }
  }

  /** The loop of `update` over the buff set, in the set's (unspecified)
      order: each buff is ticked once and, if its duration is then 0, cleaned
      up and put in `toRemove`. */
  method TickBuffs(buffs: set<Buff>) returns (toRemove: set<Buff>)
    modifies buffs
    ensures forall b :: b in buffs ==> b.Updated()
    ensures forall b :: b in toRemove <==> b in buffs && b.duration == 0
  {
    toRemove := {};
    var todo := buffs;
    while todo != {}
      invariant todo <= buffs
      invariant forall b :: b in buffs - todo ==> b.Updated()
      invariant forall b :: b in todo ==> unchanged(b)
      invariant forall b :: b in toRemove <==> b in buffs - todo && b.duration == 0
      decreases todo
    {
      var b :| b in todo;
      b.Tick();
      if b.duration == 0 {
        toRemove := toRemove + {b};
        b.Cleanup();
      }
      todo := todo - {b};
    }
  }

  /** `Entity` of base.py. */
  class Entity {
    var pos: RealPair
    var buffs: set<Buff>

    constructor (pos: RealPair)
      ensures this.pos == pos && buffs == {}
    {
      this.pos := pos;
      buffs := {};
    }

    /** `get_pos`: the rounded raw position, which is the position itself
        when that is a non-negative whole one. */
    function GetPos(): (c: Pair)
      reads this`pos
      ensures IsIntegral(pos) && pos.y >= 0.0 && pos.x >= 0.0 ==> ToReal(c) == pos
    {
      if IsIntegral(pos) && pos.y >= 0.0 && pos.x >= 0.0 then
        RoundedWhole(pos);
        Rounded(pos)
      else
        Rounded(pos)
    }

    /** The default capabilities: transparent, collidable, never dead. */
    predicate IsTransparent()
      ensures IsTransparent()
    {
      true
    }

    predicate IsCollidable()
      ensures IsCollidable()
    {
      true
    }

    predicate IsDead()
      ensures !IsDead()
    {
      false
    }

    /** `copy` hands back the entity itself, not a copy. */
    method Copy() returns (e: Entity)
      ensures e == this
    {
      e := this;
    }

    /** `get_chars`: the one glyph 'E' at the rounded position, colour 0. */
    function GetChars(): (cs: seq<BufferedChar>)
      reads this`pos
      ensures |cs| == 1 && cs[0].pos == ToReal(GetPos()) && cs[0].ch == 'E' && cs[0].color == 0
    {
      [BufferedChar(ToReal(GetPos()), 'E', 0)]
    }

    method SetPos(p: RealPair)
      modifies this`pos
      ensures pos == p
    {
      pos := p;
    }

    /** `update`: every buff is ticked once; those whose duration is then
        exactly 0 are cleaned up once and dropped, and every other buff,
        a negative duration included, stays. */
    method Update()
      modifies this`buffs, buffs
      ensures forall b :: b in old(buffs) ==> b.Updated()
      ensures forall b :: b in buffs <==> b in old(buffs) && b.duration != 0
    {
      var toRemove := TickBuffs(buffs);
      buffs := buffs - toRemove;
    }

    /** `receive_buff`: applies the buff and adds that very object, beside
        any other buff of the same kind. */
    method ReceiveBuff(b: Buff)
      modifies this`buffs, b`applies
      ensures buffs == old(buffs) + {b}
      ensures b.applies == old(b.applies) + 1
    {
      b.Apply();
      buffs := buffs + {b};
    }
  }

  /** Rounding gives back a non-negative whole position. */
  lemma RoundedWhole(p: RealPair)
    requires IsIntegral(p) && p.y >= 0.0 && p.x >= 0.0
    ensures ToReal(Rounded(p)) == p
  {
    RoundedIdentity(ToCell(p));
  }
}
