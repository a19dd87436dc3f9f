/** The simulation side of terminal_engine.py: entities and their per-tick
    rules, the world that holds them, the key-handler registry, and the
    rectangle overlap test used when laying out rooms. */
module Engine {
  import opened Geometry
  import opened Line
  import opened Input

  // ------------------------------------------------------------- constants

  /** Key codes of the curses library on which the player's handlers sit. */
  const KEY_DOWN := 258
  const KEY_UP := 259
  const KEY_LEFT := 260
  const KEY_RIGHT := 261
  const KEY_SPACE := 32

  /** Ticks between two shots. */
  const BASE_ROF := 30
  /** The part of an entity a tick may change. */
  datatype Stats = Stats(pos: RealPair, lastDirection: Dir, rofTimer: int, mood: Mood, outsideVisionCount: int)

  /** What one `update` does to an entity of the given kind (and, for a
      fireball, heading), given the cells visible at the start of the tick
      and the world's size. */
  function Tick(kind: Kind, direction: Dir, s: Stats, visible: set<Pair>, height: int, width: int): (r: Stats)
    ensures r.lastDirection == s.lastDirection
    ensures kind != FireballKind ==> r.pos == s.pos && r.outsideVisionCount == s.outsideVisionCount
    ensures kind != PlayerKind ==> r.rofTimer == s.rofTimer
    ensures kind != SpookerKind ==> r.mood == s.mood
    ensures kind == PlayerKind && s.rofTimer >= 0 ==> 0 <= r.rofTimer && (s.rofTimer > 0 ==> r.rofTimer < s.rofTimer)
    ensures kind == FireballKind ==>
      r.pos == s.pos.Add(FireballStep(direction)) &&
      (r.outsideVisionCount == 0 || r.outsideVisionCount == s.outsideVisionCount + 1)
  {
    match kind
    case PlayerKind => s.(rofTimer := Max(0, s.rofTimer - 1))
    case SpookerKind => s.(mood := if InCells(s.pos, visible) then Hangry else Happy)
    case FireballKind =>
      var p := s.pos.Add(FireballStep(direction));
      s.(pos := p, outsideVisionCount := NextCount(s.outsideVisionCount, Rounded(p), visible, height, width))
    case _ => s
  }

  /** Only a fireball ever dies: once it has been out of sight for more
      than `FIREBALL_PATIENCE` ticks in a row. */
  predicate DeadIn(kind: Kind, s: Stats) {
    kind == FireballKind && s.outsideVisionCount > FIREBALL_PATIENCE
  }

  /** Cells a fireball travels per tick (a float in the source). */
  const FIREBALL_SPEED: real := 0.3
  /** Ticks out of sight after which a fireball is dead. */
  const FIREBALL_PATIENCE := 4

  datatype Kind = BasicKind | PlayerKind | SpookerKind | FireballKind | WallKind

  datatype Mood = Happy | Hangry

  /** What a key handler does when its key is pressed. The player registers
      a move per arrow key and a shot on the space bar; other callbacks are
      told apart by an identifier. */
  datatype Action = MoveAction(d: Dir) | ShootAction | Callback(id: nat)

  datatype KeyHandler = KeyHandler(registree: Entity, key: int, action: Action)

  /** Whether a raw position equals one of the cells: a whole-numbered
      position equals the cell with those coordinates, any other equals none. */
  predicate InCells(p: RealPair, cells: set<Pair>) {
    IsIntegral(p) && ToCell(p) in cells
  }

  /** `pos_in_world`, on raw coordinates. */
  predicate InWorld(p: RealPair, height: int, width: int) {
    0.0 <= p.y < height as real && 0.0 <= p.x < width as real
  }

  /** The step a fireball makes per tick in direction `d`. */
  function FireballStep(d: Dir): RealPair {
    var s := Direction(d);
    RealPair(FIREBALL_SPEED * s.y as real, FIREBALL_SPEED * s.x as real)
  }

  /** A fireball's out-of-sight counter after a tick that left it on `me`. */
  function NextCount(count: int, me: Pair, visible: set<Pair>, height: int, width: int): int {
    if me !in visible || !InWorld(ToReal(me), height, width) then count + 1 else 0
  }

  // -------------------------------------------------------------- entities

  /** An entity of the world. One class stands for the source's Entity and
      its subclasses: `kind` says which, and each subclass's fields are here
      (ignored by the other kinds). */
  class Entity {
    const kind: Kind
    var pos: RealPair
    /** Player. */
    var lastDirection: Dir
    var rofTimer: int
    /** Spooker. */
    var mood: Mood
    /** Fireball. */
    const direction: Dir
    var outsideVisionCount: int

    constructor Plain(pos: RealPair)
      ensures kind == BasicKind && this.pos == pos
    {
      kind := BasicKind;
      this.pos := pos;
      lastDirection, rofTimer, mood, direction, outsideVisionCount := UP, 0, Happy, UP, 0;
    }

    constructor Spooker(pos: RealPair)
      ensures kind == SpookerKind && this.pos == pos && mood == Happy
    {
      kind := SpookerKind;
      this.pos := pos;
      lastDirection, rofTimer, mood, direction, outsideVisionCount := UP, 0, Happy, UP, 0;
    }

    constructor Wall(pos: RealPair)
      ensures kind == WallKind && this.pos == pos
    {
      kind := WallKind;
      this.pos := pos;
      lastDirection, rofTimer, mood, direction, outsideVisionCount := UP, 0, Happy, UP, 0;
    }

    constructor Fireball(pos: RealPair, direction: Dir)
      ensures kind == FireballKind && this.pos == pos && this.direction == direction
      ensures outsideVisionCount == 0
    {
      kind := FireballKind;
      this.pos := pos;
      this.direction := direction;
      lastDirection, rofTimer, mood, outsideVisionCount := UP, 0, Happy, 0;
    }

    /** A player, facing up, ready to shoot, with its five key handlers
        registered in `ctx`. */
    constructor Player(pos: RealPair, ctx: SharedContext)
      requires ctx.Valid()
      modifies ctx
      ensures kind == PlayerKind && this.pos == pos && lastDirection == UP && rofTimer == 0
      ensures ctx.Valid()
      ensures ctx.keyHandlers == old(ctx.keyHandlers)
        [KEY_UP := Handlers(old(ctx.keyHandlers), KEY_UP) + [KeyHandler(this, KEY_UP, MoveAction(UP))]]
        [KEY_RIGHT := Handlers(old(ctx.keyHandlers), KEY_RIGHT) + [KeyHandler(this, KEY_RIGHT, MoveAction(RIGHT))]]
        [KEY_DOWN := Handlers(old(ctx.keyHandlers), KEY_DOWN) + [KeyHandler(this, KEY_DOWN, MoveAction(DOWN))]]
        [KEY_LEFT := Handlers(old(ctx.keyHandlers), KEY_LEFT) + [KeyHandler(this, KEY_LEFT, MoveAction(LEFT))]]
        [KEY_SPACE := Handlers(old(ctx.keyHandlers), KEY_SPACE) + [KeyHandler(this, KEY_SPACE, ShootAction)]]
    {
      kind := PlayerKind;
      this.pos := pos;
      lastDirection, rofTimer, mood, direction, outsideVisionCount := UP, 0, Happy, UP, 0;
      new;
      ctx.RegisterKey(KeyHandler(this, KEY_UP, MoveAction(UP)));
      ctx.RegisterKey(KeyHandler(this, KEY_RIGHT, MoveAction(RIGHT)));
      ctx.RegisterKey(KeyHandler(this, KEY_DOWN, MoveAction(DOWN)));
      ctx.RegisterKey(KeyHandler(this, KEY_LEFT, MoveAction(LEFT)));
      ctx.RegisterKey(KeyHandler(this, KEY_SPACE, ShootAction));
    }

    /** `is_transparent`: spookers and walls block sight, every other kind
        lets it through. */
    predicate IsTransparent()
      ensures IsTransparent() <==> kind in {BasicKind, PlayerKind, FireballKind}
    {
      kind != SpookerKind && kind != WallKind
    }

    /** `is_dead`: only a fireball dies, once it has been out of sight for
        more than `FIREBALL_PATIENCE` ticks in a row. */
    predicate IsDead()
      reads this`pos, this`lastDirection, this`rofTimer, this`mood, this`outsideVisionCount
      ensures IsDead() <==> kind == FireballKind && outsideVisionCount > FIREBALL_PATIENCE
    {
      DeadIn(kind, State())
    }

    function GetStr(): string
      reads this
    {
      match kind
      case BasicKind => "E"
      case PlayerKind => "&"
      case SpookerKind => if mood == Happy then "." else ">"
      case FireballKind => "X"
      case WallKind => "#"
    }

    function GetColorPair(): int
    {
      match kind
      case BasicKind => 0
      case PlayerKind => 2
      case SpookerKind => 0
      case FireballKind => 5
      case WallKind => 3
    }

    method SetPos(p: RealPair)
      modifies this`pos
      ensures pos == p
    {
      pos := p;
    }

    /** The fields a tick may change. */
    function State(): Stats
      reads this`pos, this`lastDirection, this`rofTimer, this`mood, this`outsideVisionCount
    {
      Stats(pos, lastDirection, rofTimer, mood, outsideVisionCount)
    }

    /** One `update` took this entity from its old state to its new one. */
    twostate predicate Ticked(visible: set<Pair>, height: int, width: int)
      reads this
    {
      State() == Tick(kind, direction, old(State()), visible, height, width)
    }

    /** `update`: a player's fire-rate timer runs down to 0; a spooker is
        hangry exactly when it stands on a visible cell; a fireball moves on
        and counts the ticks it spends out of sight or off the world. */
    method Update(visible: set<Pair>, height: int, width: int)
      modifies this`pos, this`rofTimer, this`mood, this`outsideVisionCount
      ensures Ticked(visible, height, width)
    {
      match kind
      case PlayerKind =>
        rofTimer := Max(0, rofTimer - 1);
      case SpookerKind =>
        if InCells(pos, visible) { mood := Hangry; } else { mood := Happy; }
      case FireballKind =>
        SetPos(pos.Add(FireballStep(direction)));
        var me := Rounded(pos);
        if me !in visible || !InWorld(ToReal(me), height, width) {
          outsideVisionCount := outsideVisionCount + 1;
        } else {
          outsideVisionCount := 0;
        }
      case _ =>
    }

    /** `try_move`: the player steps one cell in `direct` exactly when no
        entity stands on the destination and the destination is inside the
        world; only then does it face that way. */
    method TryMove(direct: Dir, w: World)
      requires kind == PlayerKind
      modifies this`pos, this`lastDirection
      ensures var dest := old(pos).Add(ToReal(Direction(direct)));
        var free := old(Occupants(w.entities, dest)) == [] && InWorld(dest, w.height, w.width);
        && (free ==> pos == dest && lastDirection == direct)
        && (!free ==> pos == old(pos) && lastDirection == old(lastDirection))
    {
      var posns := w.Snapshot();
      var newPos := pos.Add(ToReal(Direction(direct)));
      var occupants := if newPos in posns then posns[newPos] else [];
      if |occupants| != 0 || !w.PosInWorld(newPos) {
      } else {
        lastDirection := direct;
        pos := newPos;
      }
    }

    /** `shoot`: with the timer at 0, a fireball appears one cell ahead of
        the player, heading the way the player last moved, and the timer is
        set to `BASE_ROF`; otherwise nothing happens. */
    method Shoot(w: World)
      requires kind == PlayerKind && w.Valid()
      modifies this`rofTimer, w`entities
      ensures w.Valid()
      ensures old(rofTimer) == 0 ==>
        && rofTimer == BASE_ROF
        && |w.entities| == |old(w.entities)| + 1
        && w.entities[..|old(w.entities)|] == old(w.entities)
        && var fb := w.entities[|old(w.entities)|];
           fresh(fb) && fb.kind == FireballKind && fb.direction == lastDirection &&
           fb.pos == pos.Add(ToReal(Direction(lastDirection))) && fb.outsideVisionCount == 0
      ensures old(rofTimer) != 0 ==> rofTimer == old(rofTimer) && w.entities == old(w.entities)
    {
      if rofTimer == 0 {
        var fireballPos := pos.Add(ToReal(Direction(lastDirection)));
        var fb := new Entity.Fireball(fireballPos, lastDirection);
        w.Add(fb);
        rofTimer := BASE_ROF;
      }
    }
  }

  // ----------------------------------------------------- timers, counters

  /** The fire-rate timer after `n` ticks. */
  function Cooldown(t: int, n: nat): int
    decreases n
  {
    if n == 0 then t else Cooldown(Max(0, t - 1), n - 1)
  }

  /** The timer runs down by one per tick and stops at 0. */
  lemma {:induction false} CooldownAfter(t: int, n: nat)
    requires t >= 0
    ensures Cooldown(t, n) == Max(0, t - n)
    decreases n
  {
    if n > 0 {
      CooldownAfter(Max(0, t - 1), n - 1);
    }
  }

  /** After a shot the player can shoot again after exactly `BASE_ROF`
      ticks, not before. */
  lemma ReadyAgain(n: nat)
    ensures Cooldown(BASE_ROF, n) == 0 <==> n >= BASE_ROF
  {
    CooldownAfter(BASE_ROF, n);
  }

  /** A fireball's counter after ticks whose visibility is `seen`. */
  function CountAfter(count: int, seen: seq<bool>): int
  {
    if seen == [] then count
    else if seen[|seen| - 1] then 0
    else CountAfter(count, seen[..|seen| - 1]) + 1
  }

  /** Any visible tick resets the counter, and it then counts the unseen
      ticks since: a fireball is dead exactly when more than
      `FIREBALL_PATIENCE` unseen ticks have passed since it was last seen
      (or since it was fired, starting from 0). */
  lemma {:induction false} CountAfterUnseen(seen: seq<bool>, k: nat)
    requires k <= |seen|
    requires forall i :: |seen| - k <= i < |seen| ==> !seen[i]
    requires k < |seen| ==> seen[|seen| - k - 1]
    ensures CountAfter(0, seen) == k
    ensures CountAfter(0, seen) > FIREBALL_PATIENCE <==> k > FIREBALL_PATIENCE
    decreases k
  {
    if k > 0 {
      CountAfterUnseen(seen[..|seen| - 1], k - 1);
    } else if seen != [] {
      assert seen[|seen| - 1];
    }
  }

  /** The state after one `update` per entry of `vis`, in order; each
      entry is the set of cells visible at the start of that tick. */
  function Ticks(kind: Kind, direction: Dir, s: Stats, vis: seq<set<Pair>>, height: int, width: int): Stats
    decreases |vis|
  {
    if vis == [] then s
    else Tick(kind, direction, Ticks(kind, direction, s, vis[..|vis| - 1], height, width), vis[|vis| - 1], height, width)
  }

  /** One more tick of the timer after `n`. */
  lemma {:induction false} CooldownStep(t: int, n: nat)
    ensures Cooldown(t, n + 1) == Max(0, Cooldown(t, n) - 1)
    decreases n
  {
    if n > 0 {
      CooldownStep(Max(0, t - 1), n - 1);
    }
  }

  /** A player's updates only run its fire-rate timer down: after any run
      of ticks the timer is `Cooldown` of the old one, whatever was visible,
      and nothing else about the player has changed. */
  lemma {:induction false} PlayerTicks(direction: Dir, s: Stats, vis: seq<set<Pair>>, height: int, width: int)
    ensures Ticks(PlayerKind, direction, s, vis, height, width) == s.(rofTimer := Cooldown(s.rofTimer, |vis|))
    decreases |vis|
  {
    if vis != [] {
      PlayerTicks(direction, s, vis[..|vis| - 1], height, width);
      CooldownStep(s.rofTimer, |vis| - 1);
    }
  }

  /** A player that has just shot (timer at `BASE_ROF`) is ready again
      after exactly `BASE_ROF` of its updates. */
  lemma PlayerReadyAgain(direction: Dir, s: Stats, vis: seq<set<Pair>>, height: int, width: int)
    requires s.rofTimer == BASE_ROF
    ensures Ticks(PlayerKind, direction, s, vis, height, width).rofTimer == 0 <==> |vis| >= BASE_ROF
  {
    PlayerTicks(direction, s, vis, height, width);
    ReadyAgain(|vis|);
  }

  /** For each tick of `vis`, whether the fireball ended it on a visible
      cell inside the world. */
  function FireballSeen(direction: Dir, s: Stats, vis: seq<set<Pair>>, height: int, width: int): (r: seq<bool>)
    ensures |r| == |vis|
    decreases |vis|
  {
    if vis == [] then []
    else
      var before := vis[..|vis| - 1];
      var me := Rounded(Ticks(FireballKind, direction, s, before, height, width).pos.Add(FireballStep(direction)));
      FireballSeen(direction, s, before, height, width) + [me in vis[|vis| - 1] && InWorld(ToReal(me), height, width)]
  }

  /** A fireball's updates move it `FIREBALL_SPEED` per tick along its
      heading, and its counter after them is `CountAfter` of what it saw. */
  lemma {:induction false} FireballTicks(direction: Dir, s: Stats, vis: seq<set<Pair>>, height: int, width: int)
    ensures var r := Ticks(FireballKind, direction, s, vis, height, width);
      var step := FireballStep(direction);
      && r.pos == RealPair(s.pos.y + |vis| as real * step.y, s.pos.x + |vis| as real * step.x)
      && r.outsideVisionCount == CountAfter(s.outsideVisionCount, FireballSeen(direction, s, vis, height, width))
      && r.lastDirection == s.lastDirection && r.rofTimer == s.rofTimer && r.mood == s.mood
    decreases |vis|
  {
    if vis != [] {
      var before := vis[..|vis| - 1];
      FireballTicks(direction, s, before, height, width);
      var seen := FireballSeen(direction, s, vis, height, width);
      assert seen[..|vis| - 1] == FireballSeen(direction, s, before, height, width);
    }
  }

  /** A fireball fired with its counter at 0 is dead after its updates
      exactly when more than `FIREBALL_PATIENCE` of the latest ones ended
      out of sight, counting back to the last one that did not. */
  lemma FireballDies(direction: Dir, s: Stats, vis: seq<set<Pair>>, height: int, width: int, k: nat)
    requires s.outsideVisionCount == 0
    requires k <= |vis|
    requires forall i :: |vis| - k <= i < |vis| ==> !FireballSeen(direction, s, vis, height, width)[i]
    requires k < |vis| ==> FireballSeen(direction, s, vis, height, width)[|vis| - k - 1]
    ensures DeadIn(FireballKind, Ticks(FireballKind, direction, s, vis, height, width)) <==> k > FIREBALL_PATIENCE
  {
    FireballTicks(direction, s, vis, height, width);
    CountAfterUnseen(FireballSeen(direction, s, vis, height, width), k);
  }

  // ------------------------------------------------------------------ world

  /** The entities standing exactly on raw position `p`, in list order. */
  function Occupants(es: seq<Entity>, p: RealPair): (r: seq<Entity>)
    reads es
    ensures forall i :: 0 <= i < |r| ==> r[i] in es && r[i].pos == p
    ensures forall i :: 0 <= i < |es| && es[i].pos == p ==> es[i] in r
  {
    if es == [] then []
    else Occupants(es[..|es| - 1], p) + (if es[|es| - 1].pos == p then [es[|es| - 1]] else [])
  }

  lemma OccupantsStep(es: seq<Entity>, i: nat)
    requires i < |es|
    ensures forall p :: Occupants(es[..i + 1], p) == Occupants(es[..i], p) + (if es[i].pos == p then [es[i]] else [])
  {
    assert es[..i + 1][..i] == es[..i];
  }

  /** The entities still alive, in list order. */
  function Survivors(es: seq<Entity>): (r: seq<Entity>)
    reads es
    ensures forall i :: 0 <= i < |r| ==> r[i] in es && !r[i].IsDead()
    ensures forall i :: 0 <= i < |es| && !es[i].IsDead() ==> es[i] in r
    ensures Distinct(es) ==> Distinct(r)
  {
    if es == [] then []
    else Survivors(es[..|es| - 1]) + (if es[|es| - 1].IsDead() then [] else [es[|es| - 1]])
  }

  /** The cells opaque entities block. The source collects their raw
      positions, and a ray's cell only ever equals a whole-numbered one. */
  function Obstacles(es: seq<Entity>): (obs: set<Pair>)
    reads es
    ensures forall c :: c in obs <==>
      exists i :: 0 <= i < |es| && !es[i].IsTransparent() && IsIntegral(es[i].pos) && ToCell(es[i].pos) == c
  {
    if es == [] then {}
    else
      var e := es[|es| - 1];
      Obstacles(es[..|es| - 1]) + (if !e.IsTransparent() && IsIntegral(e.pos) then {ToCell(e.pos)} else {})
  }

  lemma ObstaclesStep(es: seq<Entity>, i: nat)
    requires i < |es|
    ensures Obstacles(es[..i + 1]) == Obstacles(es[..i]) +
      (if !es[i].IsTransparent() && IsIntegral(es[i].pos) then {ToCell(es[i].pos)} else {})
  {
    assert es[..i + 1][..i] == es[..i];
  }

  /** Players stand on whole cells: they start on one and move by whole
      steps. Casting rays from anywhere else would never reach the target
      cell, so `calc_visibility` relies on it. */
  predicate PlayersOnCells(es: seq<Entity>)
    reads es
  {
    forall i :: 0 <= i < |es| && es[i].kind == PlayerKind ==> IsIntegral(es[i].pos)
  }

  predicate Distinct(es: seq<Entity>) {
    forall i, j :: 0 <= i < j < |es| ==> es[i] != es[j]
  }

  /** The entities that are alive with the fields `after`, in list order. */
  function Keep(es: seq<Entity>, after: seq<Stats>): (r: seq<Entity>)
    requires |after| == |es|
    ensures forall i :: 0 <= i < |r| ==> r[i] in es
    ensures Distinct(es) ==> Distinct(r)
  {
    if es == [] then []
    else
      var n := |es| - 1;
      var r0 := Keep(es[..n], after[..n]);
      assert forall i :: 0 <= i < |r0| ==> r0[i] in es[..n];
      r0 + (if DeadIn(es[n].kind, after[n]) then [] else [es[n]])
  }

  lemma KeepStep(es: seq<Entity>, after: seq<Stats>, i: nat, s: Stats)
    requires |after| == i < |es|
    ensures Keep(es[..i + 1], after + [s]) == Keep(es[..i], after) + (if DeadIn(es[i].kind, s) then [] else [es[i]])
  {
    assert es[..i + 1][..i] == es[..i];
    assert (after + [s])[..i] == after;
  }

  /** The first `i` entities whose position in `after` rounds to a visible
      cell. */
  function Flagged(es: seq<Entity>, after: seq<Stats>, i: nat, visible: set<Pair>): set<Entity>
    requires i <= |after| && i <= |es|
  {
    set j | 0 <= j < i && Rounded(after[j].pos) in visible :: es[j]
  }

  lemma FlaggedStep(es: seq<Entity>, after: seq<Stats>, i: nat, visible: set<Pair>, s: Stats)
    requires |after| == i < |es|
    ensures Flagged(es, after + [s], i + 1, visible) ==
      Flagged(es, after, i, visible) + (if Rounded(s.pos) in visible then {es[i]} else {})
  {
  }

  /** Filtering by the entities' current fields is `Survivors`. */
  lemma {:induction false} KeepSurvivors(es: seq<Entity>, after: seq<Stats>)
    requires |after| == |es|
    requires forall j :: 0 <= j < |es| ==> after[j] == es[j].State()
    ensures Keep(es, after) == Survivors(es)
  {
    if es != [] {
      KeepSurvivors(es[..|es| - 1], after[..|es| - 1]);
    }
  }

  class World {
    const height: int
    const width: int
    var entities: seq<Entity>
    var visible: set<Pair>
    var visibleEnt: set<Entity>

    /** Each entity is listed once. */
    ghost predicate Valid()
      reads this
    {
      Distinct(entities)
    }

    constructor (height: int, width: int)
      ensures Valid()
      ensures this.height == height && this.width == width
      ensures entities == [] && visible == {} && visibleEnt == {}
    {
      this.height := height;
      this.width := width;
      entities := [];
      visible := {};
      visibleEnt := {};
    }

    /** `add`: appends the entity. */
    method Add(e: Entity)
      requires Valid() && e !in entities
      modifies this`entities
      ensures Valid()
      ensures entities == old(entities) + [e]
    {
      entities := entities + [e];
    }

    /** `snapshot`: the entities grouped by raw position, each group in list
        order; positions nobody stands on are absent. */
    method Snapshot() returns (snp: map<RealPair, seq<Entity>>)
      ensures forall p :: p in snp ==> snp[p] == Occupants(entities, p) && snp[p] != []
      ensures forall p :: p !in snp ==> Occupants(entities, p) == []
    {
      snp := GroupByPos(entities);
    }

    /** `pos_in_world`. */
    predicate PosInWorld(p: RealPair)
      ensures IsIntegral(p) ==> (PosInWorld(p) <==> 0 <= ToCell(p).y < height && 0 <= ToCell(p).x < width)
    {
      InWorld(p, height, width)
    }

    /** `calc_visibility`: the union of what every player sees, casting rays
        past the opaque entities; `draws` supplies each player's random
        radius extensions. */
    method CalcVisibility(draws: nat -> nat -> Draws)
      requires PlayersOnCells(entities)
      modifies this`visible
      ensures height > 0 || width > 0 ==>
        forall j :: 0 <= j < |entities| && entities[j].kind == PlayerKind ==> ToCell(entities[j].pos) in visible
      ensures (forall j :: 0 <= j < |entities| && entities[j].kind == PlayerKind ==>
                 InGrid(ToCell(entities[j].pos), height, width)) ==>
        InsideGrid(visible, height, width)
      ensures (forall j :: 0 <= j < |entities| ==> entities[j].kind != PlayerKind) ==> visible == {}
    {
      var obs := ObstacleCells(entities);
      visible := SeenByPlayers(entities, obs, height, width, draws);
    }

    /** `update`: every entity takes its tick; those whose rounded position
        (after the tick) is in the current visible set are the visible
        entities, and the dead are dropped, keeping the order of the rest. */
    method Update()
      requires Valid()
      modifies this`entities, this`visibleEnt, entities
      ensures Valid()
      ensures Updated(old(entities), entities, visibleEnt, visible, height, width)
    {
      var survived, viewed := TickAll(entities, visible, height, width);
      entities := survived;
      visibleEnt := viewed;
    }
  }

  /** The entities' fields, in list order. */
  ghost function States(es: seq<Entity>): (r: seq<Stats>)
    reads es
    ensures |r| == |es| && forall j :: 0 <= j < |es| ==> r[j] == es[j].State()
  {
    if es == [] then [] else States(es[..|es| - 1]) + [es[|es| - 1].State()]
  }

  /** The effect of one `World.update` on the entities `es`: each took its
      tick, `survived` lists the living in order, and `viewed` holds those
      whose rounded position after the tick is visible. */
  twostate predicate Updated(es: seq<Entity>, new survived: seq<Entity>, new viewed: set<Entity>,
                             visible: set<Pair>, height: int, width: int)
    reads es
  {
    && (forall j :: 0 <= j < |es| ==> es[j].Ticked(visible, height, width))
    && survived == Survivors(es)
    && (forall e :: e in viewed ==> e in es)
    && (forall j :: 0 <= j < |es| ==> (es[j] in viewed <==> Rounded(es[j].pos) in visible))
  }

  /** What the loop of `World.update` has computed after `i` entities, in
      terms of values: `after` holds the fields the first `i` entities were
      left with by their tick from `before`, and the lists are built from
      those. */
  ghost predicate Books(es: seq<Entity>, before: seq<Stats>, after: seq<Stats>,
                        survived: seq<Entity>, viewed: set<Entity>, i: nat,
                        visible: set<Pair>, height: int, width: int)
  {
    && |after| == i <= |es| == |before|
    && (forall j :: 0 <= j < i ==> after[j] == Tick(es[j].kind, es[j].direction, before[j], visible, height, width))
    && survived == Keep(es[..i], after)
    && viewed == Flagged(es, after, i, visible)
  }

  lemma BooksStep(es: seq<Entity>, before: seq<Stats>, after: seq<Stats>,
                  survived: seq<Entity>, viewed: set<Entity>, i: nat,
                  visible: set<Pair>, height: int, width: int, s: Stats)
    requires Books(es, before, after, survived, viewed, i, visible, height, width)
    requires i < |es| && s == Tick(es[i].kind, es[i].direction, before[i], visible, height, width)
    ensures Books(es, before, after + [s],
                  survived + (if DeadIn(es[i].kind, s) then [] else [es[i]]),
                  viewed + (if Rounded(s.pos) in visible then {es[i]} else {}), i + 1,
                  visible, height, width)
  {
    KeepStep(es, after, i, s);
    FlaggedStep(es, after, i, visible, s);
  }

  /** The loop of `snapshot` over the entities `es`. */
  method GroupByPos(es: seq<Entity>) returns (snp: map<RealPair, seq<Entity>>)
    ensures forall p :: p in snp ==> snp[p] == Occupants(es, p) && snp[p] != []
    ensures forall p :: p !in snp ==> Occupants(es, p) == []
  {
    snp := map[];
    var i := 0;
    while i < |es|
      invariant 0 <= i <= |es|
      invariant forall p :: p in snp ==> snp[p] == Occupants(es[..i], p) && snp[p] != []
      invariant forall p :: p !in snp ==> Occupants(es[..i], p) == []
    {
      var cpy := es[i];
      OccupantsStep(es, i);
      var group := if cpy.pos in snp then snp[cpy.pos] else [];
      snp := snp[cpy.pos := group + [cpy]];
      i := i + 1;
    }
    assert es[..i] == es;
  }

  /** The first loop of `calc_visibility`: the cells of the opaque entities. */
  method ObstacleCells(es: seq<Entity>) returns (obs: set<Pair>)
    ensures obs == Obstacles(es)
  {
    obs := {};
    var i := 0;
    while i < |es|
      invariant 0 <= i <= |es|
      invariant obs == Obstacles(es[..i])
    {
      var e := es[i];
      ObstaclesStep(es, i);
      if !e.IsTransparent() && IsIntegral(e.pos) {
        obs := obs + {ToCell(e.pos)};
      }
      i := i + 1;
    }
    assert es[..i] == es;
  }

  /** The second loop of `calc_visibility`: what the players among `es`
      see past `obs`, each casting its own rays. */
  method SeenByPlayers(es: seq<Entity>, obs: set<Pair>, height: int, width: int, draws: nat -> nat -> Draws)
    returns (vis: set<Pair>)
    requires PlayersOnCells(es)
    ensures height > 0 || width > 0 ==>
      forall j :: 0 <= j < |es| && es[j].kind == PlayerKind ==> ToCell(es[j].pos) in vis
    ensures (forall j :: 0 <= j < |es| && es[j].kind == PlayerKind ==> InGrid(ToCell(es[j].pos), height, width)) ==>
      InsideGrid(vis, height, width)
    ensures (forall j :: 0 <= j < |es| ==> es[j].kind != PlayerKind) ==> vis == {}
  {
    vis := {};
    ghost var allInGrid, anyPlayer := true, false;
    ghost var outside, player := 0, 0;
    var i := 0;
    while i < |es|
      invariant 0 <= i <= |es|
      invariant height > 0 || width > 0 ==>
        forall j :: 0 <= j < i && es[j].kind == PlayerKind ==> ToCell(es[j].pos) in vis
      invariant allInGrid ==> InsideGrid(vis, height, width)
      invariant !allInGrid ==>
        0 <= outside < |es| && es[outside].kind == PlayerKind && !InGrid(ToCell(es[outside].pos), height, width)
      invariant !anyPlayer ==> vis == {}
      invariant anyPlayer ==> 0 <= player < |es| && es[player].kind == PlayerKind
    {
      var pl := es[i];
      if pl.kind == PlayerKind {
        var seen := Visibility(obs, ToCell(pl.pos), height, width, draws(i));
        vis := vis + seen;
        anyPlayer, player := true, i;
        if !InGrid(ToCell(pl.pos), height, width) {
          allInGrid, outside := false, i;
        }
      }
      i := i + 1;
    }
  }

  /** The heap side of the loop of `World.update`: the first `i` entities
      hold their ticked fields `after`, the others still hold `before`. */
  ghost predicate TickedUpTo(es: seq<Entity>, before: seq<Stats>, after: seq<Stats>, i: nat)
    reads es
    requires |after| == i <= |es| == |before|
  {
    forall j :: 0 <= j < |es| ==> es[j].State() == (if j < i then after[j] else before[j])
  }

  /** One pass of the loop of `World.update`: ticks `es[i]` and files it. */
  method TickOne(es: seq<Entity>, i: nat, ghost before: seq<Stats>, ghost after: seq<Stats>,
                 survived: seq<Entity>, viewed: set<Entity>, visible: set<Pair>, height: int, width: int)
    returns (survived': seq<Entity>, viewed': set<Entity>, ghost after': seq<Stats>)
    requires Distinct(es) && i < |es|
    requires Books(es, before, after, survived, viewed, i, visible, height, width)
    requires TickedUpTo(es, before, after, i)
    modifies es[i]
    ensures Books(es, before, after', survived', viewed', i + 1, visible, height, width)
    ensures TickedUpTo(es, before, after', i + 1)
  {
    var e := es[i];
    e.Update(visible, height, width);
    var onView := Rounded(e.pos) in visible;
    var isDead := e.IsDead();
    BooksStep(es, before, after, survived, viewed, i, visible, height, width, e.State());
    survived', viewed' := survived, viewed;
    if onView {
      viewed' := viewed' + {e};
    }
    if !isDead {
      survived' := survived' + [e];
    }
    after' := after + [e.State()];
  }

  /** The loop of `World.update` over the entities `es`. */
  method TickAll(es: seq<Entity>, visible: set<Pair>, height: int, width: int)
    returns (survived: seq<Entity>, viewed: set<Entity>)
    requires Distinct(es)
    modifies es
    ensures Updated(es, survived, viewed, visible, height, width)
    ensures Distinct(survived)
  {
    survived := [];
    viewed := {};
    ghost var before := States(es);
    ghost var after: seq<Stats> := [];
    var i := 0;
    while i < |es|
      invariant 0 <= i <= |es|
      invariant Books(es, before, after, survived, viewed, i, visible, height, width)
      invariant TickedUpTo(es, before, after, i)
    {
      survived, viewed, after := TickOne(es, i, before, after, survived, viewed, visible, height, width);
      i := i + 1;
    }
    assert es[..i] == es;
    KeepSurvivors(es, after);
  }

  // ------------------------------------------------------- key handlers

  /** The handlers under `key`; a missing key reads as the empty list, as a
      `defaultdict(list)` does. */
  function Handlers(registry: map<int, seq<KeyHandler>>, key: int): seq<KeyHandler> {
    if key in registry then registry[key] else []
  }

  predicate FiledByKey(registry: map<int, seq<KeyHandler>>) {
    forall k, i :: k in registry && 0 <= i < |registry[k]| ==> registry[k][i].key == k
  }

  /** `filter` keeping the handlers not registered by `registree`. */
  function WithoutRegistree(hs: seq<KeyHandler>, registree: Entity): (r: seq<KeyHandler>)
    ensures forall i :: 0 <= i < |r| ==> r[i] in hs && r[i].registree != registree
    ensures forall i :: 0 <= i < |hs| && hs[i].registree != registree ==> hs[i] in r
    ensures |r| <= |hs|
  {
    if hs == [] then []
    else
      var last := hs[|hs| - 1];
      WithoutRegistree(hs[..|hs| - 1], registree) + (if last.registree != registree then [last] else [])
  }

  class SharedContext {
    var keyHandlers: map<int, seq<KeyHandler>>

    /** Every handler is filed under its own key. */
    ghost predicate Valid()
      reads this
    {
      FiledByKey(keyHandlers)
    }

    constructor ()
      ensures Valid() && keyHandlers == map[]
    {
      keyHandlers := map[];
    }

    /** `register_key`: appends the handler to its key's list. */
    method RegisterKey(h: KeyHandler)
      requires Valid()
      modifies this
      ensures Valid()
      ensures keyHandlers == old(keyHandlers)[h.key := Handlers(old(keyHandlers), h.key) + [h]]
    {
      keyHandlers := keyHandlers[h.key := Handlers(keyHandlers, h.key) + [h]];
    }

    /** `deregister_key`: drops, from the handler's key only, every handler
        of the same registree. */
    method DeregisterKey(h: KeyHandler)
      requires Valid()
      modifies this
      ensures Valid()
      ensures keyHandlers == old(keyHandlers)[h.key := WithoutRegistree(Handlers(old(keyHandlers), h.key), h.registree)]
    {
      keyHandlers := keyHandlers[h.key := WithoutRegistree(Handlers(keyHandlers, h.key), h.registree)];
    }
  }

  /** The handlers run for the keys of `order`, key after key. */
  function Concat(registry: map<int, seq<KeyHandler>>, order: seq<int>): seq<KeyHandler>
  {
    if order == [] then []
    else Concat(registry, order[..|order| - 1]) + Handlers(registry, order[|order| - 1])
  }

  /** Walking distinct keys, a handler filed under its own key runs as many
      times as it is listed there if its key is walked, and never otherwise. */
  lemma {:induction false} ConcatCounts(registry: map<int, seq<KeyHandler>>, order: seq<int>)
    requires FiledByKey(registry)
    requires NoRepeats(order)
    ensures forall h ::
      multiset(Concat(registry, order))[h] == (if h.key in order then multiset(Handlers(registry, h.key))[h] else 0)
  {
    if order != [] {
      var n := |order| - 1;
      var k := order[n];
      ConcatCounts(registry, order[..n]);
      var hs := Handlers(registry, k);
      forall h
        ensures multiset(Concat(registry, order))[h] ==
          if h.key in order then multiset(Handlers(registry, h.key))[h] else 0
      {
        assert h.key in order <==> h.key in order[..n] || h.key == k by {
          assert order == order[..n] + [k];
        }
        if h.key == k {
          assert h.key !in order[..n];
        } else if h in hs {
          assert false;
        }
      }
    }
  }

  /** The inner loop of `handle_input`: runs the handlers `hs` in order. */
  method RunAll(calls: seq<KeyHandler>, hs: seq<KeyHandler>) returns (calls': seq<KeyHandler>)
    ensures calls' == calls + hs
  {
    calls' := calls;
    var i := 0;
    while i < |hs|
      invariant 0 <= i <= |hs|
      invariant calls' == calls + hs[..i]
    {
      calls' := calls' + [hs[i]];
      assert hs[..i + 1] == hs[..i] + [hs[i]];
      i := i + 1;
    }
    assert hs[..i] == hs;
  }

  /** `handle_input`: reads the pending keys into a set, then runs, once per
      distinct pressed key, every handler filed under it, in list order.
      Returns the handlers run, in order; `order` is the order in which the
      set of keys was walked, each pressed key once. So a handler runs as
      many times as it is listed under its key if that key was pressed
      (however often), and never otherwise. */
  method HandleInput(ctx: SharedContext, input: seq<int>) returns (calls: seq<KeyHandler>, ghost order: seq<int>)
    requires ctx.Valid()
    ensures calls == Concat(ctx.keyHandlers, order)
    ensures NoRepeats(order)
    ensures forall k :: k in order <==> k in Pending(input)
    ensures forall h ::
      multiset(calls)[h] == (if h.key in Pending(input) then multiset(Handlers(ctx.keyHandlers, h.key))[h] else 0)
  {
    var registry := ctx.keyHandlers;
    var pressed := PressedKeys(input);
    calls := [];
    order := [];
    var todo := pressed;
    while todo != {}
      invariant todo <= pressed
      invariant forall k :: k in order <==> k in pressed - todo
      invariant NoRepeats(order)
      invariant calls == Concat(registry, order)
      decreases todo
    {
      SomeKey(todo);
      var k :| k in todo;
      calls := RunAll(calls, Handlers(registry, k));
      assert k !in order;
      ghost var prev := order;
      order := order + [k];
      assert order[..|order| - 1] == prev;
      todo := todo - {k};
    }
    ConcatCounts(registry, order);
  }

  // ------------------------------------------------------------ rectangles

  /** A rectangle by its corners, both included. */
  datatype Rect = Rect(lo: Pair, hi: Pair)

  predicate InRect(c: Pair, r: Rect) {
    r.lo.y <= c.y <= r.hi.y && r.lo.x <= c.x <= r.hi.x
  }

  /** `intersects`: the rectangles overlap on both axes. */
  function Intersects(a: Rect, b: Rect): (r: bool)
    ensures a.lo.y <= a.hi.y && a.lo.x <= a.hi.x && b.lo.y <= b.hi.y && b.lo.x <= b.hi.x ==>
      (r <==> Max(a.lo.y, b.lo.y) <= Min(a.hi.y, b.hi.y) && Max(a.lo.x, b.lo.x) <= Min(a.hi.x, b.hi.x))
  {
    !(a.hi.x < b.lo.x || a.lo.x > b.hi.x || a.hi.y < b.lo.y || a.lo.y > b.hi.y)
  }

  /** Two non-empty rectangles intersect exactly when some cell lies in both,
      and the test is symmetric. */
  lemma IntersectsMeansCommonCell(a: Rect, b: Rect)
    requires a.lo.y <= a.hi.y && a.lo.x <= a.hi.x && b.lo.y <= b.hi.y && b.lo.x <= b.hi.x
    ensures Intersects(a, b) <==> exists c :: InRect(c, a) && InRect(c, b)
    ensures Intersects(a, b) == Intersects(b, a)
  {
    if Intersects(a, b) {
      var c := Pair(Max(a.lo.y, b.lo.y), Max(a.lo.x, b.lo.x));
      assert InRect(c, a) && InRect(c, b);
    }
  }

  /** `intersects_with_any`. */
  method IntersectsWithAny(r: Rect, ls: seq<Rect>) returns (b: bool)
    ensures b <==> exists l :: l in ls && Intersects(r, l)
  {
    for i := 0 to |ls|
      invariant forall j :: 0 <= j < i ==> !Intersects(r, ls[j])
    {
      if Intersects(r, ls[i]) {
        return true;
      }
    }
    return false;
  }
}
