# A terminal roguelike engine, modelled in Dafny

This project models the core of a small Python 2 terminal roguelike engine. The core is four files:

- **terminal_engine.py**:
  - the grid `Pair`;
  - the Bresenham ray `get_line` and the edge-casting `visibility`;
  - the diff renderer `DrawController`;
  - the `World` with its per-tick `update`, `snapshot` and `calc_visibility`;
  - the key-handler registry of `SharedContext`;
  - the entities `Player`, `Spooker`, `Fireball` and `Wall`;
  - the rectangle test `intersects`.
- **curses_wrapper.py**:
  - `sign`, `Pair.rounded` and `direction_to`;
  - `Char.from_string`;
  - the memoising `ColorController`;
  - a second diff renderer;
  - the `KeyboardController`;
  - the step of its cellular-automaton demo.
- **util.py**:
  - `sign` and `BufferedChar.from_string`;
  - a copy of `get_line` with a larger radius;
  - `get_breadth`, a greedy best-first search with a heap and a predecessor map.
- **base.py**: a base `Entity` that ticks and drops its buffs.

Where the source changes state, the model does too. Renderers, controllers, worlds and entities are Dafny classes whose methods change their fields. Each loop is a method with its invariants, proved against a functional specification. Pure code is a set of functions and lemmas.

The modules are:

- `Geometry`: cells `Pair(y, x)` over `int` and raw positions `RealPair` over `real`, since entities move by fractions of a cell. It also holds the rounding `int(v + .5)`, which truncates toward zero, the direction tables, the neighbour lists and `direction_to`.
- `Line`: `get_line` as two loops proved equal to the recursive ray `Ray`. The error term is doubled so that it is a whole number. The random radius extension is an oracle `Draws = nat -> bool`. `visibility` is the union of the rays to all edge cells.
- `Screen`: what both renderers share:
  - the terminal as a map from cell to glyph;
  - the cell a raw position is written to;
  - the screen left behind by a run of writes;
  - the books that `restore` keeps.
- `EngineDraw` and `CursesDraw`: the two `DrawController` classes. The engine's keeps off the bottom-right cell. The curses one writes it and swallows backend errors.
- `Engine`: entities, the world, the key-handler registry and rectangles.
- `Input`: the `getch` polling loop, turning pending keys into a set.
- `Curses`: `ColorController` and `KeyboardController`.
- `Life`: the neighbour-count step of the demo.
- `Util`: `BufferedChar.from_string`, the radius-8 ray and `get_breadth`.
- `Base`: base.py's `Entity` and the buff interface it uses.

Points worth knowing about the code's behaviour:

- `receive_buff` adds the buff object to the entity's set, so a second buff of the same kind is a second object; nothing extends an existing buff's duration (base.py:53-55).
- `update` removes a buff only when its duration is exactly 0, so a buff whose duration has gone negative stays (base.py:33-35).
- `snapshot` builds a fresh map on every call; nothing caches it per tick (terminal_engine.py:362-368).
- `try_move` is blocked by any entity on the destination, collidable or not, and touches no timer (terminal_engine.py:467-483).
- `get_breadth` pushes each cell with priority `1 + euclidean(n, finish)` alone, with no count of the steps taken so far (util.py:150-152).

## Model

| member | source | states |
|---|---|---|
| Geometry.Round | curses_wrapper.py:72-73 | `int(v + .5)` is the nearest whole number for v >= -0.5, with halves going up; below -0.5 it is one too high, because the truncation goes toward zero |
| Geometry.Rounded | terminal_engine.py:52-53 | `rounded` sends a position with coordinates from -0.5 up to the cell within half a cell of it on each axis, halves going up |
| Geometry.RoundWhole | terminal_engine.py:52-53 | on whole numbers, rounding is the identity from 0 up and adds 1 below 0 (`rounded(-1)` is 0) |
| Geometry.RoundIdempotentIff | curses_wrapper.py:72-73 | rounding twice equals rounding once exactly when v > -1.5 |
| Geometry.RoundedIdentity | curses_wrapper.py:72-73 | `rounded` leaves every non-negative cell where it is |
| Geometry.RoundedIdempotent | curses_wrapper.py:72-73 | `rounded` is idempotent on every position with coordinates above -1.5, so on every non-negative one |
| Geometry.Sign | util.py:10-18 | `sign` is -1, 0 or 1, negative iff its argument is, zero iff its argument is, and `sign(v) * v == abs(v)` |
| Geometry.Direction | terminal_engine.py:41-44 | each orthogonal direction is a unit step |
| Geometry.Direction8 | terminal_engine.py:45-46 | each of the eight directions is a king's move |
| Geometry.Neighbors | terminal_engine.py:48-50 | `get_neighbors` yields 4 cells, or 8 with `ortho=False` |
| Geometry.NeighborsExact | terminal_engine.py:41-50 | the 4 neighbours are exactly the cells one orthogonal step away, and the 8 neighbours exactly the cells one king's move away; neither list repeats a cell |
| Geometry.DirectionToBest | curses_wrapper.py:78-90 | `direction_to` steps along the larger component of the difference, so it makes the most progress of any orthogonal step; it is vertical iff the vertical component is strictly larger, and a zero difference gives RIGHT |
| Geometry.DirectionTo | curses_wrapper.py:78-90 | `direction_to` makes as much progress as the larger component of the difference, and is vertical iff the vertical component is strictly larger |
| Line.GetLine | terminal_engine.py:296-327 | the ray starts at p1; no cell before the last is opaque or (failing the draw) beyond the radius; the last cell is p2 or a blocking cell; consecutive cells step once on the driving axis and at most once on the other; every cell lies within half a cell of the exact segment |
| Line.LineAlongX | terminal_engine.py:306-315 | the `dx > dy` loop computes the ray `Ray` |
| Line.LineAlongY | terminal_engine.py:316-325 | the other loop computes the ray `Ray` |
| Line.RayIsRay | terminal_engine.py:296-327 | the ray `Ray` has every property `GetLine` promises |
| Line.AddRay | terminal_engine.py:335 | one `vis.update(get_line(...))` adds the ray's cells, adds `start`, stays in the grid when `start` is in it, and reaches the edge target when nothing blocks |
| Line.AddRayPair | terminal_engine.py:335-336 | two casts together keep what one cast keeps and reach both targets when nothing blocks |
| Line.RayInGrid | terminal_engine.py:329-342 | a ray from a grid cell to an edge cell stays in the grid |
| Line.Visibility | terminal_engine.py:329-342 | `start` is visible in any non-empty grid; from a start inside the grid every visible cell is inside it; with no obstacles and the radius always extended, every edge cell is visible |
| Util.GetLineUtil | util.py:105-136 | util.py's ray is the same ray with radius 8: it starts at p1, and consecutive cells differ by one step on the driving axis and at most one on the other |
| Util.NeverExtendedStaysNear | util.py:118-128 | when the extension never fires, every cell of the ray but the last is within squared distance 64 of p1 and is not an obstacle |
| Util.FromString | util.py:87-95 | one character per letter; the i-th holds `st[i]` and the colour at `upper_left + i·step`; consecutive positions differ by one step of the direction |
| Util.ArgMin | util.py:146 | `heappop` takes an entry of least priority |
| Util.Expand | util.py:148-154 | the neighbour loop records each free, unrecorded four-neighbour under the popped cell and pushes it, and stops right after `finish` is recorded; otherwise every neighbour of the popped cell ends up recorded or an obstacle |
| Util.Search | util.py:139-158 | every recorded cell but the start links to a four-neighbour recorded earlier, and no obstacle is recorded; if `finish` is found, it is linked to the last popped cell and was the last cell recorded; if not, the recorded cells are closed under free four-neighbours and `finish` is not among them |
| Util.TrailIsPath | util.py:141-152 | following the links back from any recorded cell gives a free four-connected walk from `start` |
| Util.ClosedHoldsPaths | util.py:145-158 | a set closed under free four-neighbours holds every cell a free walk from inside it reaches |
| Util.ReconstructAsWritten | util.py:160-164 | the reconstruction as written returns `finish` preceded by the trail of the last popped cell's predecessor, which leaves that cell out |
| Util.AsWrittenIsNoWalk | util.py:160-164 | whenever the search finds `finish`, the path as written is not a free walk from `start` to `finish` |
| Util.BoxExample | util.py:139-164 | on a walled 3 x 5 box from (1, 1) to (1, 3), the path as written is [(1,1), (1,3)] and the corrected one is [(1,1), (1,2), (1,3)] |
| Util.Reconstruct | util.py:160-164 | the corrected reconstruction returns the trail of the last popped cell, followed by `finish` |
| Util.GetBreadth | util.py:139-164 | the path ends with `finish`; if `finish` was found, the path is a free walk from `start` to it; if not, no free walk from `start` reaches it |
| Input.PressedKeys | curses_wrapper.py:280-287 | the pressed set holds exactly the keys `getch` delivers before it reports none pending |
| Screen.Target | curses_wrapper.py:207-213 | a write lands on the rounded cell, on a writable cell only; for curses, exactly when the raw position and the rounded cell are both on the screen; for the engine, exactly when its raw guard passes and the rounded cell is writable |
| Screen.TargetOfCell | terminal_engine.py:155-159 | writing a whole cell hits that very cell exactly when the renderer may write it |
| Screen.CornerDiffers | terminal_engine.py:137 | the curses renderer writes the bottom-right cell; the engine's never does |
| Screen.EngineDrawAsWritten | terminal_engine.py:135-139 | the engine's `_draw_char` as written skips exactly when its raw guard fails; a write it makes lands on a writable rounded cell; every other call raises |
| Screen.EngineGuardLetsThrough | terminal_engine.py:137-139 | the raw guard lets through (h-1, w-1.4), which rounds to the bottom-right cell, and (0, w-0.4), which rounds past the right edge; both raise |
| Screen.EngineCorrectionAgrees | terminal_engine.py:135-139 | the corrected guard writes exactly where the source writes, and the same cell; on whole cells the source never raises |
| Screen.DrawAllAt | terminal_engine.py:163-177 | after a run of writes, a cell shows the glyph of the last write that landed on it, or keeps its old glyph if none did |
| Screen.DrawAllWritable | terminal_engine.py:135-139 | writes never put a glyph on a cell the renderer may not write |
| Screen.OwnsSound | terminal_engine.py:150-156 | every rule id in the recorded assignments is a live rule, and every recorded cell passes that rule's test |
| Screen.RestoreClaimed | terminal_engine.py:152-157 | restoring a cell that a rule claims paints it with that rule's glyph and records it under that rule |
| Screen.RestoreUnclaimed | terminal_engine.py:158-159 | restoring a cell that no rule claims paints the default glyph and records nothing |
| EngineDraw.DrawController.constructor | terminal_engine.py:70-80 | starts with default `' '` and colour 4, no rules, nothing drawn or marked, and a blank screen |
| EngineDraw.DrawController.SetDefaultChar | terminal_engine.py:103-104 | sets the default character |
| EngineDraw.DrawController.SetDefaultColor | terminal_engine.py:106-107 | sets the default colour |
| EngineDraw.DrawController.Update | terminal_engine.py:109-110 | adds the given cells to `to_restore` |
| EngineDraw.DrawController.MarkMatching | terminal_engine.py:116-121 | marks exactly the on-screen cells that pass the test |
| EngineDraw.DrawController.AddRule | terminal_engine.py:112-123 | adds a rule under a new id; marks either the given cells or every on-screen cell the rule claims |
| EngineDraw.DrawController.RemoveRule | terminal_engine.py:129-133 | drops a known rule and its assignments, and marks the cells it painted; an unknown id changes nothing |
| EngineDraw.DrawController.UpdateRule | terminal_engine.py:125-127 | replaces the rule; marks the cells it painted plus the cells `add_rule` marks |
| EngineDraw.DrawController.DrawChar | terminal_engine.py:135-139 | one write with the corrected guard; the screen never holds the bottom-right cell or an off-screen cell |
| EngineDraw.DrawController.FullDraw | terminal_engine.py:141-146 | marks every on-screen cell |
| EngineDraw.DrawController.Restore | terminal_engine.py:148-161 | every marked cell shows the glyph of a rule that claims it and is recorded under that rule, or shows the default; other cells are unchanged; `to_restore` ends empty; the rules and `drawn` are unchanged |
| EngineDraw.DrawController.RestoreCell | terminal_engine.py:151-159 | one pass of `restore`'s loop extends the repainted region by one cell |
| EngineDraw.DrawController.Draw | terminal_engine.py:163-177 | the screen is the run of writes; each character's rounded cell is added to `drawn` and removed from `to_restore` |
| EngineDraw.DrawController.Render | terminal_engine.py:180-184 | repaints as `restore` does; then `to_restore` is the cells drawn this tick and `drawn` is empty |
| CursesDraw.FromString | curses_wrapper.py:106-113 | `len(st)` characters; the i-th holds `st[i]` and the colour at `pos + i·step(direction)` |
| CursesDraw.DrawController.constructor | curses_wrapper.py:143-151 | starts with default `' '`, the colour id given for black on black, no rules, nothing drawn or marked, and a blank screen |
| CursesDraw.DrawController.SetDefaultChar | curses_wrapper.py:171-172 | sets the default character |
| CursesDraw.DrawController.SetDefaultColor | curses_wrapper.py:174-175 | sets the default colour |
| CursesDraw.DrawController.Update | curses_wrapper.py:177-182 | adds the given cells to `to_restore` |
| CursesDraw.DrawController.MarkMatching | curses_wrapper.py:188-193 | marks exactly the on-screen cells that pass the test |
| CursesDraw.DrawController.AddRule | curses_wrapper.py:184-195 | adds a rule under a new id; marks either the given cells or every on-screen cell the rule claims |
| CursesDraw.DrawController.RemoveRule | curses_wrapper.py:201-205 | drops a known rule and its assignments, and marks the cells it painted; an unknown id changes nothing |
| CursesDraw.DrawController.UpdateRule | curses_wrapper.py:197-199 | replaces the rule; marks the cells it painted plus the cells `add_rule` marks |
| CursesDraw.DrawController.DrawChar | curses_wrapper.py:207-213 | one write of a glyph: only on-screen cells, the bottom-right one included; a write that curses refuses changes nothing and raises nothing |
| CursesDraw.DrawController.FullDraw | curses_wrapper.py:215-220 | marks every on-screen cell |
| CursesDraw.DrawController.Restore | curses_wrapper.py:222-235 | every marked cell shows the glyph of a rule that claims it and is recorded under that rule, or shows the default; `to_restore` ends empty |
| CursesDraw.DrawController.RestoreCell | curses_wrapper.py:225-233 | one pass of `_restore`'s loop extends the repainted region by one cell |
| CursesDraw.DrawController.Draw | curses_wrapper.py:237-251 | the screen is the run of writes; each character's rounded cell is added to `drawn` and removed from `to_restore` |
| CursesDraw.DrawController.Render | curses_wrapper.py:253-258 | repaints as `_restore` does; then `to_restore` is the cells drawn since the last render and `drawn` is empty |
| Curses.ColorController.constructor | curses_wrapper.py:116-120 | no pairs yet; the counter starts at 1 |
| Curses.ColorController.GetColor | curses_wrapper.py:128-140 | a known pair gets its old id and nothing changes; a new pair gets the counter's value, which is recorded, and the counter goes up by one |
| Curses.ColorController.IdsDistinct | curses_wrapper.py:128-140 | the ids handed out lie in 1 .. counter-1, and distinct pairs hold distinct ids |
| Curses.KeyboardController.constructor | curses_wrapper.py:267-269 | no callbacks registered |
| Curses.KeyboardController.RegisterKeys | curses_wrapper.py:271-277 | the callback joins the set of every key code of `keyset`; other keys keep their sets |
| Curses.AddToKeys | curses_wrapper.py:276-277 | the registration loop adds the callback under each key code of the string and nowhere else |
| Curses.KeyboardController.GetKeys | curses_wrapper.py:279-291 | one call per pair of a pressed key and a callback registered under it, none repeated, however often the key was pressed |
| Curses.CallAll | curses_wrapper.py:290-291 | the inner loop calls each callback of the key once |
| Life.AddNeighbours | curses_wrapper.py:322-323 | the count of each of the eight neighbours goes up by one, and nothing else changes |
| Life.NeighbourCounts | curses_wrapper.py:320-323 | each cell's count is the number of live entries next to it, and the keys are exactly the cells with a positive count |
| Life.CountIsLiveNeighbours | curses_wrapper.py:320-323 | with no cell listed twice, the count is the number of live eight-neighbours |
| Life.Step | curses_wrapper.py:320-333 | the next generation lists each cell once, and a cell is in it iff it was dead with a count of 3 or alive with a count of 2, 3 or 4 |
| Life.LifeRule | curses_wrapper.py:325-333 | a cell is alive next iff it was dead with exactly 3 live neighbours, or alive with 2, 3 or 4 |
| Base.TickBuffs | base.py:30-35 | every buff is ticked once; exactly those whose duration is then 0 are cleaned up once and reported |
| Base.Entity.constructor | base.py:5-9 | the entity stands at the given position with no buffs |
| Base.Entity.GetPos | base.py:14-15 | the rounded position, which is the raw position itself when that is a non-negative whole one |
| Base.RoundedWhole | base.py:14-15 | rounding gives back a non-negative whole position |
| Base.Entity.IsTransparent | base.py:11-12 | the base entity is transparent |
| Base.Entity.IsCollidable | base.py:47-48 | the base entity is collidable |
| Base.Entity.IsDead | base.py:41-42 | the base entity is never dead |
| Base.Entity.Copy | base.py:38-39 | `copy` returns the very same object |
| Base.Entity.GetChars | base.py:26-27 | one character, 'E' in colour 0, at the rounded position |
| Base.Entity.SetPos | base.py:44-45 | sets the position |
| Base.Entity.Update | base.py:29-36 | every buff is ticked once, and those at exactly 0 are cleaned up once; afterwards the set holds exactly the old buffs whose duration is not 0, negative ones included |
| Base.Entity.ReceiveBuff | base.py:53-55 | the buff is applied once and that object is added to the set, beside any buff of the same kind |
| Engine.Entity.Plain | terminal_engine.py:404-408 | a plain entity at the given position |
| Engine.Entity.Spooker | terminal_engine.py:496-498 | a spooker starts happy |
| Engine.Entity.Wall | terminal_engine.py:543-544 | a wall at the given position |
| Engine.Entity.Fireball | terminal_engine.py:513-517 | a fireball with its heading and an out-of-sight count of 0 |
| Engine.Entity.Player | terminal_engine.py:442-456 | a player facing up and ready to fire; five handlers are appended in the registry: a move on each arrow key and a shot on the space bar |
| Engine.Entity.SetPos | terminal_engine.py:437-438 | sets the position |
| Engine.Entity.Update | terminal_engine.py:491-535 | a player's timer goes down by one but not below 0; a spooker is hangry iff it stands on a visible cell; a fireball moves 0.3 cells, and its count resets if it lands on a visible cell inside the world and otherwise goes up by one; other kinds are unchanged |
| Engine.Tick | terminal_engine.py:491-535 | one tick never turns an entity; only a fireball moves, by one 0.3-cell step along its heading, and its count either resets to 0 or goes up by one; only a player's timer changes, and it goes down, never below 0; only a spooker's mood changes |
| Engine.Entity.IsTransparent | terminal_engine.py:410-547 | basic entities, players and fireballs let sight through; spookers and walls block it |
| Engine.Entity.IsDead | terminal_engine.py:434-540 | an entity is dead iff it is a fireball whose count is above 4 |
| Engine.Entity.TryMove | terminal_engine.py:467-483 | the player moves one step, and faces that way, iff no entity stands on the destination and the destination is inside the world; otherwise nothing changes |
| Engine.Entity.Shoot | terminal_engine.py:485-489 | with the timer at 0, a new fireball is appended one cell ahead, heading the last way moved, and the timer is set to 30; otherwise nothing changes |
| Engine.CooldownAfter | terminal_engine.py:491-492 | after n ticks the timer is max(0, t - n) |
| Engine.ReadyAgain | terminal_engine.py:485-492 | after a shot the player can fire again after exactly 30 ticks, and not before |
| Engine.CountAfterUnseen | terminal_engine.py:524-540 | the count is the number of unseen ticks since the fireball was last seen (or fired); it is dead iff that number exceeds 4 |
| Engine.CooldownStep | terminal_engine.py:491-492 | one more tick takes the timer after n ticks down by one, not below 0 |
| Engine.PlayerTicks | terminal_engine.py:491-492 | a player's run of `update` calls leaves it as it was except for the timer, which is `Cooldown` of the old timer over that many ticks, whatever was visible |
| Engine.PlayerReadyAgain | terminal_engine.py:485-492 | a player whose timer was just set to 30 by a shot is ready again after exactly 30 of its updates, and not before |
| Engine.FireballTicks | terminal_engine.py:524-535 | after n updates a fireball has moved n·0.3 cells along its heading, and its count is `CountAfter` of whether each tick ended on a visible cell inside the world |
| Engine.FireballDies | terminal_engine.py:524-540 | a fireball fired with its count at 0 is dead after its updates iff more than 4 of the latest ticks ended out of sight, counting back to the last one in sight |
| Engine.Occupants | terminal_engine.py:362-368 | the entities standing on a raw position: all of them, and only them |
| Engine.Survivors | terminal_engine.py:389-399 | the living entities: all of them, only them, and no repeats if there were none |
| Engine.Obstacles | terminal_engine.py:370-374 | the obstacle cells are exactly the whole-numbered positions of opaque entities |
| Engine.KeepSurvivors | terminal_engine.py:389-399 | filtering by the fields each entity was left with is the survivor filter |
| Engine.World.constructor | terminal_engine.py:348-355 | an empty world of the given size |
| Engine.World.Add | terminal_engine.py:357-360 | appends the entity |
| Engine.World.Snapshot | terminal_engine.py:362-368 | each raw position maps to the list of its occupants in list order; positions with no occupant are absent |
| Engine.World.PosInWorld | terminal_engine.py:382-383 | a whole-numbered position is in the world iff its cell lies in the height x width grid |
| Engine.GroupByPos | terminal_engine.py:363-366 | the grouping loop builds that map |
| Engine.World.CalcVisibility | terminal_engine.py:370-380 | every player's cell is visible in a non-empty world; with all players inside the grid every visible cell is inside it; with no player nothing is visible |
| Engine.ObstacleCells | terminal_engine.py:371-374 | the first loop collects exactly the obstacle cells |
| Engine.SeenByPlayers | terminal_engine.py:377-380 | the second loop over the players: every player's cell is seen in a non-empty world, every seen cell is inside the grid when the players are, and nothing is seen without a player |
| Engine.World.Update | terminal_engine.py:389-399 | every entity takes its tick once; `entities` becomes the in-order list of those still alive; `visible_ent` holds exactly the entities whose rounded position after the tick is in the visible set |
| Engine.TickOne | terminal_engine.py:392-398 | one pass ticks the entity and files it as alive and visible |
| Engine.TickAll | terminal_engine.py:390-399 | the loop of `update` has the effect of `World.Update`, and keeps the list free of repeats |
| Engine.WithoutRegistree | terminal_engine.py:279 | the `filter` keeps exactly the handlers of other registrees |
| Engine.SharedContext.constructor | terminal_engine.py:253-265 | an empty registry |
| Engine.SharedContext.RegisterKey | terminal_engine.py:270-273 | appends the handler to its key's list |
| Engine.SharedContext.DeregisterKey | terminal_engine.py:275-279 | drops every handler of the same registree from that key's list only |
| Engine.RunAll | terminal_engine.py:242-243 | the inner loop runs a key's handlers in list order |
| Engine.HandleInput | terminal_engine.py:230-243 | the handlers run are the lists of the pressed keys, each key walked once; so a handler runs as often as it is listed under its key if that key was pressed, however many times, and never otherwise |
| Engine.ConcatCounts | terminal_engine.py:240-243 | walking distinct keys runs a handler as often as it is listed under its key if that key is walked, and never otherwise |
| Engine.IntersectsMeansCommonCell | terminal_engine.py:555-564 | two non-empty rectangles intersect iff some cell lies in both, and the test is symmetric |
| Engine.Intersects | terminal_engine.py:555-564 | two non-empty rectangles intersect iff their ranges overlap on both axes |
| Engine.IntersectsWithAny | terminal_engine.py:566-570 | true iff the rectangle intersects some rectangle of the list |

## Left out

- Curses I/O is not modelled. That covers `init_screen`, `addstr`/`addch`, `refresh`, `endwin`, `curses.init_pair` and the colour-pair registration in `init_screen`. The terminal is a map from cell to glyph.
- `getch` polling is an input sequence. A key code of -1, or the end of the sequence, means no key is pending.
- The singleton machinery of `SharedContext` and `ColorController` is not modelled. A context object is passed explicitly, and a second construction does not raise.
- `MainController`, `tock`, `main`, the demo's driver loop, `sleep` and `log` are not modelled. They are process plumbing; only the per-tick and per-step logic is modelled.
- `World.get_draws`, and the engine entities' `get_chars` and `get_draw_priority`, are not modelled. These are display getters; `GetStr` and `GetColorPair` are kept without contracts.
- `get_dungeon` and dungeon.py are not part of this model. They are random layout generation.
- The random radius extension of `get_line` is an oracle, with one draw per loop iteration. Each cast of `visibility`, and each player of `calc_visibility`, has its own oracle.
- Floating point is not modelled:
  - The fireball's speed of 0.3 is an exact real, so float drift is not modelled.
  - `euclidean` is replaced by the squared distance. The square root is monotone, so the heap order is the same.
- Python 2 iteration order is unspecified, and the model picks any element:
  - the rules' dict order in `restore`, so any claiming rule may be the one that paints a cell;
  - the order of `to_restore`, of the buffs, of the pressed keys and of a key's callbacks;
  - the order of the `n_count` keys, so `Life.Step` promises membership and no repeats, not an order.
- Util.ArgMin: heap ties are broken by comparing `Pair` objects, which Python 2 orders arbitrarily. The model takes one fixed least entry, so the recorded path is one of the source's possible paths.
- Util.GetBreadth: the search ends only because the free cells reachable from `start` lie in a finite region closed off by obstacles (`Enclosed`). On an open grid with an unreachable `finish` the source loops forever.
- Util.GetBreadth: when `finish == start`, the model says only that the path ends with `finish`.
- Engine.HandleInput: it returns the handlers in the order they run instead of calling them.
- Curses.KeyboardController.GetKeys: it returns the calls in the order they are made instead of calling them.
- Engine.World.Update: it requires each entity to be listed once. With a repeat, the source ticks that entity twice.
- Engine.World.Add: it requires the entity not to be listed yet, which every caller meets with a fresh object; the source appends without a check.
- Engine.World.CalcVisibility: it requires players to stand on whole cells. That holds in the source, because they start on one and move by whole steps.
- Engine.World.CalcVisibility and Engine.SeenByPlayers: visibility is stated by its guarantees (start cells, grid containment, no player means nothing visible), not as the exact union of rays.
- EngineDraw.DrawController.DrawChar and CursesDraw.DrawController.DrawChar: a glyph's string goes into one cell. The source's `addstr` writes a string of n characters across n cells, starting at the rounded cell. `addch` raises a `TypeError` for an empty or longer string, and the `except curses.error` does not catch it. Every glyph the program draws is one character, so the model does not show either behaviour.
- Line.Visibility: the exact set of visible cells is the union of the `Ray` values. The contract states containment, the start cell, and full coverage when nothing blocks, not the union itself.
- A `defaultdict` lookup that inserts an empty entry is modelled as a lookup that changes nothing (`Handlers`, `Lookup`, `Get`, `Assigned`). The inserted empty lists and sets make no visible difference.
- The buff class is not part of this model. `Base.Buff` stands for it through the four calls the entity makes (`apply`, `tick`, `get_duration`, `cleanup`), with `tick` taking the duration to a rule fixed per buff.
- `Curses.Color`: the colour names are a datatype of the `color_map` keys, so `get_color`'s two asserts are type constraints.
- `Char.__init__` copying its position is not modelled. Positions are values.
- EngineDraw.DrawController and CursesDraw.DrawController: a rule's test is a fixed function of the cell. In the source it is a closure over live state (such as `lambda p: p in self.w.visible`), whose answer can change between two calls of `restore`. So in the model a cell recorded for a rule passes that rule's test now. In the source it only passed at the last `restore`. A rule whose answer changes is modelled by re-registering it with `UpdateRule`.
- CursesDraw.DrawController.Update: the source builds a list of `Pair`s from its argument, then discards it and adds the raw elements to `to_restore`. A plain tuple passed in would make a later `restore` fail on `pix.y`. The model takes cells only, so it does not show that failure.

## Findings

| source | as written | input that shows it | evidently intended | confidence | as-written member | corrected member |
|---|---|---|---|---|---|---|
| util.py:160-164 | the path is rebuilt from the predecessor of the last popped cell, so the cell from which `finish` was recorded is left out | a 3 x 5 box walled on its border, from (1, 1) to (1, 3): the path returned is [(1,1), (1,3)], which jumps over (1, 2) | the path [(1,1), (1,2), (1,3)], built by walking back from the last popped cell itself | not executed | Util.AsWrittenIsNoWalk | Util.GetBreadth |
| terminal_engine.py:137-139 | `_draw_char` tests the raw position against the screen and the bottom-right cell, but writes the rounded cell | a raw position (h-1, w-1.4) passes the guard and rounds to the bottom-right cell (h-1, w-1); (0, w-0.4) rounds to column w; curses raises for both | never write the bottom-right cell or off the screen, by testing the rounded cell | not executed | Screen.EngineGuardLetsThrough | Screen.Target |
