# Snake simulation core, modelled in Dafny

This project models the per-cycle simulation of a grid snake game written
with the Bevy engine (`src/main.rs`). A snake's head moves one cell per
tick of a move timer on a 20x20 arena. Its body segments follow as a
rigid chain. The head eats food on its cell, which makes the body grow by
one segment at the cell the tail just vacated. Leaving the arena or
running into the body ends the game, and the game resets to its starting
snake.

Modules:

- `Grid` (grid.dfy): positions, the four directions, `Opposite`, the unit
  step `Advance` and the arena bounds.
- `Intent` (intent.dfy): the player's intended direction (`handle_movement`)
  and the rule that a tick never reverses the snake.
- `Body` (body.dfy): the rigid-chain shift of the body and the vacated
  tail cell.
- `Food` (food.dfy): which food items a head on a cell eats.
- `World` (world.dfy): the whole game state as a value and `Next`, one
  update cycle as a function. Together with the lemmas about it, `Next` is
  the reference the imperative systems are proved against.
- `SnakeGame` (game.dfy): class `Game`, whose fields are the game state.
  Its methods are the source's systems: `HandleMovement`, `SnakeMovement`,
  `SnakeEating`, `SnakeGrowth`, `FoodSpawner`, `GameOver`. `Step` runs them
  in the order they are registered (src/main.rs:366-372) and is proved
  equal to `World.Next`.

Entity handles become positions in sequences. The head is the object's
own `head`, segment i is `segments[i]` (index 0 is next to the head) and
food item i is `food[i]`. A handle can therefore never be stale, so the
`unwrap()` calls on entity lookups (src/main.rs:185, 216, 226) cannot fail.
The growth event and the game-over event are counters. Within a cycle,
every system that reads an event only asks whether one was sent.
`Step` clears both counters at the end of the cycle. One kind of event
outlives its cycle: a growth event that the food spawner skipped (see
below). The flag `pendingGrowth` records it.

Behaviour of the source kept as written:

- The self-collision test compares the head's position before the move
  with the segments' positions before the move (src/main.rs:190, 218).
  The head therefore enters a segment's cell on one tick, and the game
  ends on the next tick. `Body.EnteringBodyCaughtNextTick` shows that this
  next-tick test always fires when the head enters any segment other than
  the tail (`World.EnteringBodyEndsGameNextTick`). Moving onto the tail's
  old cell is not caught, unless the head eats there: growth then puts
  the new segment on that very cell, and the next tick ends the game
  (`Body.ChasingTailNotCaught`, `World.ChasingTailCaughtOnlyAfterEating`).
- The food spawner tests `timer.finished || growth` (src/main.rs:327), so
  a cycle spawns at most one item. The test short-circuits: when the timer
  finished, the spawner's event reader does not read that cycle's growth
  events. Bevy keeps an event readable during the cycle after the one
  that sent it, so the next cycle reads it and spawns a second item, even
  when its timer did not finish. The model keeps this behaviour with the
  flag `pendingGrowth` (`World.SkippedGrowthSpawnsNextCycle`). An unread
  growth event is dropped after that second cycle, so the flag lasts one
  cycle (`World.PendingGrowthLastsOneCycle`).
- Nothing caps the number of food items: the food timer keeps adding
  items, so the model's food is a sequence of any length.
- Food may appear under the snake. No occupancy check is made.

## Model

| member | source | states |
|---|---|---|
| `Grid.Opposite` | src/main.rs:73-82 | the opposite of a direction is a different direction on the same axis |
| `Grid.OppositeInvolution` | src/main.rs:73-82 | `Opposite` is an involution with no fixed point |
| `Grid.Advance` | src/main.rs:191-204 | the head's step moves exactly one cell along the direction's axis: x grows Right, y grows Up, and the other coordinate is kept |
| `Grid.AdvanceThenBack` | src/main.rs:191-204 | a step followed by a step in the opposite direction returns to the start cell |
| `Grid.AdvanceByDelta` | src/main.rs:191-204 | a step adds the direction's unit displacement: -1 or +1 on x for Left and Right, +1 or -1 on y for Up and Down |
| `Grid.AdvanceStaysNearArena` | src/main.rs:13-16 | a step from inside the arena lands in [-1, 20] on both axes, so the `i32` coordinates cannot overflow |
| `Intent.FirstEligible` | src/main.rs:151-169 | returns the index of the first pressed direction in a priority list that differs from the current direction; no earlier entry qualifies; returns the list length when none qualifies |
| `Intent.ResolveIntent` | src/main.rs:151-169 | the new intent is an eligible pressed direction of least rank in Left, Down, Up, Right; when no pressed direction is eligible, the previous intent is kept |
| `Intent.ResolveIntentInPriorityOrder` | src/main.rs:151-169 | the rank-based intent equals the source's chain of tests in the order Left, Down, Up, Right |
| `Intent.Turn` | src/main.rs:186-189 | the direction taken on a tick is never the reverse of the current direction; it is the intent, or the current direction when the intent reverses |
| `Intent.ReversalRejected` | src/main.rs:186-189 | asking to reverse keeps the current direction |
| `Body.Follow` | src/main.rs:213-227 | the moved body has as many segments as before |
| `Body.FollowAt` | src/main.rs:221-227 | after the shift, segment 0 holds the head's pre-move cell and segment i holds segment i-1's pre-move cell |
| `Body.Vacated` | src/main.rs:221-228 | the recorded last tail position is the last entry of the chain `[last head] + segments`, i.e. the old tail, or the old head for an empty body |
| `Body.FollowThenVacated` | src/main.rs:221-228 | the moved body followed by the recorded last tail position is exactly the old chain, head cell first: no cell is lost or invented |
| `Body.FollowIsShift` | src/main.rs:221-227 | the moved body is the chain `[last head] + segments` cut to the body's length (the `insert(0, ..)` followed by the `zip`) |
| `Body.FollowCells` | src/main.rs:221-227 | every moved segment sits on the old head cell or on an old segment cell |
| `Body.FollowKeepsDistinct` | src/main.rs:213-228 | if the segments were pairwise distinct and the pre-move head was on none of them, the moved segments and the vacated cell are pairwise distinct |
| `Body.EnteringBodyCaughtNextTick` | src/main.rs:213-227 | a head moving onto any segment but the tail lies on a segment after the shift, so the next tick's pre-move comparison fires |
| `Body.ChasingTailNotCaught` | src/main.rs:213-227 | after the shift alone, a head that moved onto the tail's old cell lies on no segment; growth may still put a segment there |
| `Food.Uneaten` | src/main.rs:267-274 | no more food remains than before |
| `Food.EatenCount` | src/main.rs:267-272 | the number of growth events a head on a cell sends is at most the number of food items, and positive exactly when some food lies on that cell |
| `Food.EatingSplitsFood` | src/main.rs:267-274 | the number of growth events equals the number of food items on the head's cell; no food stays on that cell; every other cell keeps its food count; remaining plus eaten equals the old count |
| `Food.EatenIffPresent` | src/main.rs:267-274 | at least one growth event is sent exactly when some food lies on the head's cell; a position remains exactly when it was food not on the head's cell |
| `Food.UneatenWithoutTarget` | src/main.rs:267-274 | with no food on the head's cell, the food is untouched |
| `World.Reset` | src/main.rs:113-129 | the starting snake has one segment, next to the head and not under it, and keeps the given food, last tail and unread-growth flag |
| `World.Collides` | src/main.rs:205-220 | the game-over test of a tick holds exactly when the moved head has x < 0, y < 0, x >= 20 or y >= 20, or the pre-move body contains the pre-move head cell |
| `World.Next` | src/main.rs:366-372 | one cycle (the systems at src/main.rs:149-340 in registered order) adds at most one segment and at most one food item; without a finished move timer head, direction, body and last tail stay; a movement tick records the vacated tail cell; growth is left unread only by a movement tick with the food timer finished |
| `World.InitialValid` | src/main.rs:108-131 | the starting snake satisfies the state invariant (non-empty distinct body, everything in the arena) exactly when all its food lies in the arena; so does the state after game setup |
| `World.NextPreservesValid` | src/main.rs:173-340 | every cycle keeps the state invariant when new food is drawn inside the arena |
| `World.NextNeverReverses` | src/main.rs:186-204 | on a tick that does not end the game, the new direction is not the reverse of the old one and the head moves exactly one cell |
| `World.IdleCycle` | src/main.rs:181-327 | without a finished move timer, head, direction, body and last tail are unchanged; one food item is added when the food timer finished or a growth event of the last cycle was unread, and none is left unread |
| `World.CollisionResets` | src/main.rs:243-253 | a tick whose moved head leaves the arena, or whose pre-move head was on a pre-move segment, leaves no food, one segment at (3,2), and a head at (3,3) with direction and intent Up |
| `World.EatingGrowsByOne` | src/main.rs:264-291 | a tick onto food appends exactly one segment, at the tail's pre-move cell, records that cell as last tail, removes every food item on the head's cell and spawns one replacement |
| `World.SkippedGrowthSpawnsNextCycle` | src/main.rs:318-327 | a cycle that eats while the food timer finishes spawns one item and leaves its growth event unread; the next cycle spawns a second item though its timer did not finish |
| `World.PendingGrowthLastsOneCycle` | src/main.rs:318-327 | a growth event stays unread after a cycle exactly when that cycle ate on a finished move timer with the food timer finished; a non-colliding cycle after it spawns an item |
| `World.EnteringBodyEndsGameNextTick` | src/main.rs:205-227 | a head that moves, without colliding, onto any segment but the tail lies on a segment afterwards, and the next movement tick resets the game whatever the input |
| `World.ChasingTailCaughtOnlyAfterEating` | src/main.rs:213-291 | a head that moves, without colliding, onto the tail's pre-move cell lies on a segment afterwards exactly when food was on that cell |
| `World.HeadAfterTicks` | src/main.rs:191-204 | over a run of movement ticks none of which collides, the final head is the start head plus the sum of the unit steps of the directions taken, one per tick |
| `World.FirstTickScenario` | src/main.rs:173-230 | from the start with no input, one tick moves the head from (3,3) to (3,4) and the segment to (3,3), and records (3,2) as last tail |
| `SnakeGame.Game.constructor` | src/main.rs:93-106 | game setup gives one food item and the starting snake, with no last tail and no events |
| `SnakeGame.Game.SpawnInitialSnake` | src/main.rs:108-131 | the body is one segment at (3,2); the head is at (3,3) with direction and intent Up |
| `SnakeGame.Game.HandleMovement` | src/main.rs:149-171 | the intent becomes `ResolveIntent` of the current direction, the previous intent and the pressed directions |
| `SnakeGame.Game.SnakeMovement` | src/main.rs:173-230 | with the move timer unfinished nothing changes; otherwise the direction turns unless that would reverse it, the head advances one cell, the body shifts, the vacated tail cell is recorded, and one game-over event is sent for leaving the arena plus one for a pre-move head on a pre-move segment |
| `SnakeGame.Game.FollowHead` | src/main.rs:212-228 | segment positions are read before any is overwritten; the body becomes `Follow` of the pre-move head; the last tail is the old tail; one game-over event is sent when the pre-move head was on a segment |
| `SnakeGame.Game.SnakeEating` | src/main.rs:257-275 | with the timer unfinished nothing changes; otherwise the food on the head's cell is removed, other food stays in order, and one growth event is sent per item removed |
| `SnakeGame.Game.SnakeGrowth` | src/main.rs:277-292 | if any growth event was sent, exactly one segment is appended, at the last tail position, which must then be set |
| `SnakeGame.Game.FoodSpawner` | src/main.rs:318-340 | one food item is appended at the given cell when the food timer finished, or else when a growth event was sent this cycle or skipped last cycle, otherwise none; this cycle's growth events stay unread exactly when the timer finished |
| `SnakeGame.Game.GameOver` | src/main.rs:233-255 | after a game-over event, all segments, food and the head are replaced by the starting snake with no food; with no event nothing changes |
| `SnakeGame.Game.MoveEatGrow` | src/main.rs:367-370 | the first four systems in order: the intent is latched; on a finished move timer the snake turns unless that reverses it, steps, shifts and grows by the vacated cell exactly when it ate, the food on the head's cell is removed, and growth and game-over events are sent exactly when food was there and when the tick collides |
| `SnakeGame.Game.Step` | src/main.rs:366-372 | one cycle, with the systems in their registered order, equals `World.Next`; the events are drained; the state invariant is kept |

## Left out

- Rendering and framework wiring: `setup`, `Materials`, sprites, `Size`,
  `size_scaling`, `position_translation`, `ClearColor`, the window and
  `main`'s app building (src/main.rs:84-91, 294-316, 346-377). They are
  floating-point screen conversion and engine plumbing.
- Random food coordinates (src/main.rs:100-103, 334-337). A random `f32`
  in [0, 1) scaled by 20 and truncated always gives a cell inside the arena.
  In the model the cell is a parameter (`foodAt`, `spawnAt`). The
  invariant lemma `World.NextPreservesValid` asks for that cell to be in
  the arena.
- Bevy timers (src/main.rs:326, 342-344, 355-358). The move timer and the
  food timer are reduced to their `finished` flag for the cycle, given as
  booleans.
- Key codes (src/main.rs:152-164). The arrow keys and WASD are reduced to
  the set of pressed directions.
- Deferred `Commands`. Bevy applies spawns and despawns at the end of the
  stage; the model applies them at once. Only a cycle that both ends the
  game and spawns something is affected. In the source, food spawned in
  that cycle is not yet visible to `game_over`, so it survives the reset.
  A segment grown in that cycle also stays in the world as an entity that
  is not in the body list. In the model, the reset leaves no food and no
  such segment.
- Bevy's double-buffered `Events` and per-system `EventReader`s are
  reduced to two counters that `Step` clears at the end of each cycle,
  plus the flag `pendingGrowth`. Every reader in the source only checks
  whether an event is present. The only reader that can leave an event
  unread is the food spawner's, whose test short-circuits on its timer.
  The flag covers that case, which the source's behaviour depends on.
- Several heads. The source loops over all heads, but exactly one exists
  at any time: game setup spawns one, and `game_over` despawns it and
  spawns one. The model has a single head, so those loops have one
  iteration.
- 32-bit coordinates: positions hold unbounded integers, not `i32`.
  `Grid.AdvanceStaysNearArena` and the invariant `World.Valid` show that
  coordinates stay within [-1, 20], so `i32` never wraps. The
  `as u32` casts at src/main.rs:207-208 are applied only to non-negative
  values and are the identity there.
