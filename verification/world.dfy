/**
 * One update cycle of the game as a function on the whole game state.
 * This is the reference the imperative systems in SnakeGame are proved
 * against; the properties of a cycle are proved here.
 */
module World {
  import opened Grid
  import opened Intent
  import opened Body
  import opened Food

  const StartHead: Position := Position(3, 3)
  const StartSegment: Position := Position(3, 2)
  const StartDirection: Direction := Up

  /** The game state between two update cycles. Every event has been read
      by then, except growth events that the food spawner skipped because
      its timer had finished: `pendingGrowth` says whether some are still
      waiting for it (events stay readable for one more cycle). */
  datatype World = World(
    head: Position,
    direction: Direction,
    tryDirection: Direction,
    segments: seq<Position>,
    food: seq<Position>,
    lastTail: Option<Position>,
    pendingGrowth: bool)

  /** What drives one cycle: whether the move timer and the food timer
      finished, the directions held down, and where new food would appear. */
  datatype Tick = Tick(
    moveFinished: bool,
    pressed: set<Direction>,
    foodTimerFinished: bool,
    spawnAt: Position)

  /** The starting snake: head at (3,3) going Up, one segment at (3,2).
      Its head is next to its one segment, not on it, and it carries the
      given food, last tail and unread-growth flag. */
  function Reset(food: seq<Position>, lastTail: Option<Position>, pendingGrowth: bool): (r: World)
    ensures |r.segments| == 1 && Distance(r.head, r.segments[0]) == 1
    ensures r.food == food && r.lastTail == lastTail && r.pendingGrowth == pendingGrowth
  {
    World(StartHead, StartDirection, StartDirection, [StartSegment], food, lastTail, pendingGrowth)
  }

  /** The game-over condition of a movement tick: the moved head is left of,
      below, right of or above the arena, or the body before the move
      contains the head's cell before the move. */
  function Collides(lastHead: Position, movedHead: Position, body: seq<Position>): (r: bool)
    ensures r <==>
      || movedHead.x < 0 || movedHead.y < 0
      || movedHead.x >= ArenaWidth || movedHead.y >= ArenaHeight
      || lastHead in body
  {
    !InArena(movedHead) || lastHead in body
  }

  /** Where the head lands on a movement tick. */
  function MovedHead(w: World, t: Tick): Position {
    Advance(w.head, Turn(w.direction, ResolveIntent(w.direction, w.tryDirection, t.pressed)))
  }

  /** A movement tick of `t` from `w` ends the game. */
  predicate CollidesOn(w: World, t: Tick) {
    Collides(w.head, MovedHead(w, t), w.segments)
  }

  /** The state after one cycle: input, movement, eating, growth, food
      spawning, and the reset when the movement collided. A cycle adds at
      most one segment and at most one food item; without a finished move
      timer the snake stands still; a movement tick records the cell the
      tail vacated, and leaves growth events unread by the food spawner
      only when its timer finished in that cycle. */
  function Next(w: World, t: Tick): (r: World)
    ensures |r.segments| <= |w.segments| + 1 && |r.food| <= |w.food| + 1
    ensures !t.moveFinished ==>
      r.head == w.head && r.direction == w.direction && r.segments == w.segments
      && r.lastTail == w.lastTail && !r.pendingGrowth
    ensures t.moveFinished ==> r.lastTail == Some(Vacated(w.head, w.segments))
    ensures r.pendingGrowth ==> t.moveFinished && t.foodTimerFinished
  {
    var intent := ResolveIntent(w.direction, w.tryDirection, t.pressed);
    if !t.moveFinished then
      // no growth event this cycle; one left over from the last is read now
      w.(tryDirection := intent,
         food := w.food + (if t.foodTimerFinished || w.pendingGrowth then [t.spawnAt] else []),
         pendingGrowth := false)
    else
      var turned := Turn(w.direction, intent);
      var moved := Advance(w.head, turned);
      var vacated := Vacated(w.head, w.segments);
      var ate := moved in w.food;
      if Collides(w.head, moved, w.segments) then
        Reset([], Some(vacated), t.foodTimerFinished && ate)
      else
        World(moved, turned, intent,
              Follow(w.head, w.segments) + (if ate then [vacated] else []),
              Uneaten(w.food, moved) + (if t.foodTimerFinished || ate || w.pendingGrowth then [t.spawnAt] else []),
              Some(vacated),
              t.foodTimerFinished && ate)
  }

  /** The state invariant at cycle boundaries: a non-empty body of pairwise
      distinct segments, and head, segments and food all inside the arena. */
  predicate Valid(w: World) {
    && |w.segments| >= 1
    && Distinct(w.segments)
    && InArena(w.head)
    && (forall p :: p in w.segments ==> InArena(p))
    && (forall p :: p in w.food ==> InArena(p))
  }

  /** The starting snake satisfies the invariant exactly when all its food
      lies in the arena; in particular the state after game setup, with one
      food item at `foodAt`, does. */
  lemma InitialValid(food: seq<Position>, lastTail: Option<Position>, pendingGrowth: bool, foodAt: Position)
    ensures Valid(Reset(food, lastTail, pendingGrowth)) <==> forall p :: p in food ==> InArena(p)
    ensures InArena(foodAt) ==> Valid(Reset([foodAt], None, false))
  {
  }

  /** Every cycle keeps the invariant, provided new food is drawn inside
      the arena. */
  lemma NextPreservesValid(w: World, t: Tick)
    requires Valid(w) && InArena(t.spawnAt)
    ensures Valid(Next(w, t))
  {
    if t.moveFinished {
      var intent := ResolveIntent(w.direction, w.tryDirection, t.pressed);
      var moved := Advance(w.head, Turn(w.direction, intent));
      if !Collides(w.head, moved, w.segments) {
        var vacated := Vacated(w.head, w.segments);
        var moving := Follow(w.head, w.segments);
        FollowKeepsDistinct(w.head, w.segments);
        EatenIffPresent(w.food, moved);
        forall p | p in moving ensures InArena(p) {
          FollowCells(w.head, w.segments, p);
        }
        var w' := Next(w, t);
        if moved in w.food {
          assert w'.segments == moving + [vacated];
        } else {
          assert w'.segments == moving;
        }
      }
    }
  }

  /** A tick never turns the snake around. */
  lemma NextNeverReverses(w: World, t: Tick)
    requires t.moveFinished && !CollidesOn(w, t)
    ensures Next(w, t).direction != Opposite(w.direction)
    ensures Distance(w.head, Next(w, t).head) == 1
  {
  }

  /** Without a finished move timer the snake stands still: only the intent
      is latched, and the food spawner adds one item when its timer finished
      or a growth event of the last cycle was still unread. */
  lemma IdleCycle(w: World, t: Tick)
    requires !t.moveFinished
    ensures var w' := Next(w, t);
      && w'.head == w.head && w'.direction == w.direction
      && w'.segments == w.segments && w'.lastTail == w.lastTail
      && w'.food[..|w.food|] == w.food
      && |w'.food| == |w.food| + (if t.foodTimerFinished || w.pendingGrowth then 1 else 0)
      && !w'.pendingGrowth
  {
  }

  /** A tick that collides — the moved head is outside the arena or the
      pre-move head was on the pre-move body — resets the snake and
      clears all food. */
  lemma CollisionResets(w: World, t: Tick)
    requires t.moveFinished
    requires !InArena(MovedHead(w, t)) || w.head in w.segments
    ensures var w' := Next(w, t);
      && w'.head == StartHead && w'.segments == [StartSegment]
      && w'.direction == Up && w'.tryDirection == Up
      && w'.food == []
  {
  }

  /** A tick that moves onto food grows the body by exactly one segment,
      placed on the cell the tail vacated, removes every food item on that
      cell, and spawns one replacement. */
  lemma EatingGrowsByOne(w: World, t: Tick)
    requires t.moveFinished && |w.segments| >= 1
    requires InArena(MovedHead(w, t)) && w.head !in w.segments && MovedHead(w, t) in w.food
    ensures var w' := Next(w, t);
      && |w'.segments| == |w.segments| + 1
      && w'.segments[|w.segments|] == w.segments[|w.segments| - 1]
      && w'.lastTail == Some(w.segments[|w.segments| - 1])
      && w'.head !in w'.food[..|w'.food| - 1]
      && |w'.food| == |w.food| - multiset(w.food)[w'.head] + 1
      && w'.food[|w'.food| - 1] == t.spawnAt
  {
    var moved := Next(w, t).head;
    EatenIffPresent(w.food, moved);
    EatingSplitsFood(w.food, moved);
  }

  /** The first tick of a new game without input: the head goes from (3,3)
      to (3,4), the segment from (3,2) to (3,3), and (3,2) is recorded as
      the last tail position. */
  lemma FirstTickScenario(food: seq<Position>, t: Tick)
    requires t.moveFinished && t.pressed == {} && !t.foodTimerFinished
    requires Position(3, 4) !in food
    ensures var w' := Next(Reset(food, None, false), t);
      && w'.head == Position(3, 4) && w'.segments == [Position(3, 3)]
      && w'.lastTail == Some(Position(3, 2)) && w'.direction == Up
      && w'.food == food
  {
    UneatenWithoutTarget(food, Position(3, 4));
  }

  /** The food spawner tests its timer first, so in a cycle where the timer
      finished it does not read that cycle's growth events. They are still
      readable in the next cycle, which therefore spawns a second item even
      when the timer has not finished again. */
  lemma SkippedGrowthSpawnsNextCycle(w: World, t1: Tick, t2: Tick)
    requires t1.moveFinished && t1.foodTimerFinished
    requires !CollidesOn(w, t1) && MovedHead(w, t1) in w.food
    requires !t2.moveFinished && !t2.foodTimerFinished
    ensures var w1 := Next(w, t1);
      && w1.food == Uneaten(w.food, w1.head) + [t1.spawnAt]
      && w1.pendingGrowth
      && Next(w1, t2).food == w1.food + [t2.spawnAt]
  {
  }

  /** A growth event waits for the food spawner at most one cycle: it is
      pending after a cycle only when that cycle ate with the food timer
      finished, and the next cycle spawns for it unless that cycle ends
      the game. */
  lemma PendingGrowthLastsOneCycle(w: World, t: Tick)
    ensures Next(w, t).pendingGrowth <==>
      t.moveFinished && t.foodTimerFinished && MovedHead(w, t) in w.food
    ensures w.pendingGrowth && !(t.moveFinished && CollidesOn(w, t)) ==>
      |Next(w, t).food| > 0 && Next(w, t).food[|Next(w, t).food| - 1] == t.spawnAt
  {
  }

  /** A head that moves onto any segment but the tail, without ending the
      game on this tick, lies on a segment afterwards, so the next movement
      tick ends the game whatever the input. */
  lemma EnteringBodyEndsGameNextTick(w: World, t1: Tick, t2: Tick, k: nat)
    requires t1.moveFinished && !CollidesOn(w, t1)
    requires k + 1 < |w.segments| && MovedHead(w, t1) == w.segments[k]
    requires t2.moveFinished
    ensures Next(w, t1).head in Next(w, t1).segments
    ensures Next(Next(w, t1), t2).head == StartHead
    ensures Next(Next(w, t1), t2).segments == [StartSegment]
    ensures Next(Next(w, t1), t2).food == []
  {
    var w1 := Next(w, t1);
    EnteringBodyCaughtNextTick(w.head, w.segments, k);
    assert w1.segments[..|w.segments|] == Follow(w.head, w.segments);
    assert w1.head in w1.segments[..|w.segments|];
  }

  /** A head that moves onto the tail's pre-move cell, without ending the
      game on this tick, lies on a segment afterwards exactly when it ate
      there: the grown segment is placed on that very cell. */
  lemma ChasingTailCaughtOnlyAfterEating(w: World, t: Tick)
    requires t.moveFinished && !CollidesOn(w, t)
    requires |w.segments| >= 1 && Distinct(w.segments)
    requires MovedHead(w, t) == w.segments[|w.segments| - 1]
    ensures Next(w, t).head in Next(w, t).segments <==> MovedHead(w, t) in w.food
  {
    var w1 := Next(w, t);
    ChasingTailNotCaught(w.head, w.segments);
    if MovedHead(w, t) in w.food {
      assert w1.segments[|w.segments|] == w1.head;
    } else {
      assert w1.segments == Follow(w.head, w.segments);
    }
  }

  /** The state after a sequence of cycles. */
  function Run(w: World, ticks: seq<Tick>): World
    decreases |ticks|
  {
    if ticks == [] then w else Run(Next(w, ticks[0]), ticks[1..])
  }

  /** The direction the snake has after each cycle of `ticks`. */
  function Taken(w: World, ticks: seq<Tick>): (ds: seq<Direction>)
    ensures |ds| == |ticks|
    decreases |ticks|
  {
    if ticks == [] then []
    else [Next(w, ticks[0]).direction] + Taken(Next(w, ticks[0]), ticks[1..])
  }

  /** Every cycle of `ticks` is a movement tick that does not end the game. */
  predicate Uninterrupted(w: World, ticks: seq<Tick>)
    decreases |ticks|
  {
    ticks == [] ||
    (ticks[0].moveFinished && !CollidesOn(w, ticks[0]) && Uninterrupted(Next(w, ticks[0]), ticks[1..]))
  }

  function SumX(ds: seq<Direction>): int {
    if ds == [] then 0 else DeltaX(ds[0]) + SumX(ds[1..])
  }

  function SumY(ds: seq<Direction>): int {
    if ds == [] then 0 else DeltaY(ds[0]) + SumY(ds[1..])
  }

  /** Over uninterrupted movement ticks the head ends where the unit steps
      of the directions taken, one per tick, add up to from its start. */
  lemma {:induction false} HeadAfterTicks(w: World, ticks: seq<Tick>)
    requires Uninterrupted(w, ticks)
    ensures Run(w, ticks).head ==
      Position(w.head.x + SumX(Taken(w, ticks)), w.head.y + SumY(Taken(w, ticks)))
    decreases |ticks|
  {
    if ticks != [] {
      var w1 := Next(w, ticks[0]);
      HeadAfterTicks(w1, ticks[1..]);
      AdvanceByDelta(w.head, w1.direction);
    }
  }
}
