/**
 * The game's systems as methods of one state object. Entity handles
 * become positions in sequences: the head is the object's own `head`,
 * segment i is `segments[i]` and food item i is `food[i]`, so a handle
 * can never go stale. Bevy's event queues become two counters that
 * `Step` drains at the end of every cycle, and a flag for the growth
 * events the food spawner has not read yet.
 */
module SnakeGame {
  import opened Grid
  import opened Intent
  import opened Body
  import opened Food
  import W = World

  class Game {
    var head: Position
    var direction: Direction
    var tryDirection: Direction
    /** Body positions, head to tail (index 0 is the segment next to the head). */
    var segments: seq<Position>
    var food: seq<Position>
    var lastTail: Option<Position>
    /** Growth and game-over events sent in the current cycle. */
    var growthEvents: nat
    var gameOverEvents: nat
    /** Growth events of the last cycle that the food spawner skipped; they
        stay readable for this cycle. */
    var pendingGrowth: bool

    /** The game as a value. */
    ghost function State(): W.World
      reads this
    {
      W.World(head, direction, tryDirection, segments, food, lastTail, pendingGrowth)
    }

    /** Between cycles every event has been consumed. */
    ghost predicate AtCycleBoundary()
      reads this
    {
      growthEvents == 0 && gameOverEvents == 0
    }

    /** Game setup: one food item and the starting snake. */
    constructor (foodAt: Position)
      ensures State() == W.Reset([foodAt], None, false)
      ensures AtCycleBoundary()
    {
      food := [foodAt];
      lastTail := None;
      pendingGrowth := false;
      growthEvents, gameOverEvents := 0, 0;
      new;
      SpawnInitialSnake();
    }

    /** One segment at (3,2) as the whole body and a head at (3,3) going Up. */
    method SpawnInitialSnake()
      modifies this`segments, this`head, this`direction, this`tryDirection
      ensures segments == [W.StartSegment] && head == W.StartHead
      ensures direction == W.StartDirection && tryDirection == W.StartDirection
    {
      segments := [W.StartSegment];
      head := W.StartHead;
      direction, tryDirection := W.StartDirection, W.StartDirection;
    }

    /** Latches the player's intent: the first pressed direction in the
        order Left, Down, Up, Right that is not the current direction. */
    method HandleMovement(pressed: set<Direction>)
      modifies this`tryDirection
      ensures tryDirection == ResolveIntent(direction, old(tryDirection), pressed)
    {
      ResolveIntentInPriorityOrder(direction, tryDirection, pressed);
      tryDirection :=
        if direction != Left && Left in pressed then Left
        else if direction != Down && Down in pressed then Down
        else if direction != Up && Up in pressed then Up
        else if direction != Right && Right in pressed then Right
        else tryDirection;
    }

    /** On a finished move timer: turn unless that reverses, step the head,
        signal game over for leaving the arena and for a pre-move head on a
        pre-move segment, shift the body and record the vacated cell. */
    method SnakeMovement(moveFinished: bool)
      modifies this`direction, this`head, this`segments, this`lastTail, this`gameOverEvents
      ensures !moveFinished ==>
        && direction == old(direction) && head == old(head) && segments == old(segments)
        && lastTail == old(lastTail) && gameOverEvents == old(gameOverEvents)
      ensures moveFinished ==>
        && direction == Turn(old(direction), old(tryDirection))
        && head == Advance(old(head), direction)
        && segments == Follow(old(head), old(segments))
        && lastTail == Some(Vacated(old(head), old(segments)))
        && gameOverEvents == old(gameOverEvents)
             + (if !InArena(head) then 1 else 0)
             + (if old(head) in old(segments) then 1 else 0)
      ensures tryDirection == old(tryDirection) && food == old(food)
      ensures growthEvents == old(growthEvents)
    {
      if !moveFinished {
        return;
      }
      var dir := tryDirection;
      if dir != Opposite(direction) {
        direction := dir;
      }
      var lastHeadPos := head;
      match direction {
        case Left => head := head.(x := head.x - 1);
        case Right => head := head.(x := head.x + 1);
        case Up => head := head.(y := head.y + 1);
        case Down => head := head.(y := head.y - 1);
      }
      assert direction == Turn(old(direction), old(tryDirection));
      assert head == Advance(lastHeadPos, direction);
      if head.x < 0 || head.y < 0 || head.x >= ArenaWidth || head.y >= ArenaHeight {
        gameOverEvents := gameOverEvents + 1;
      }
      assert gameOverEvents == old(gameOverEvents) + if !InArena(head) then 1 else 0;
      FollowHead(lastHeadPos);
    }

    /** The body part of a movement tick, given the head's pre-move cell
        `lastHeadPos`: signal game over when that cell holds a segment,
        shift every segment one place along the chain and record the cell
        the tail vacated. */
    method FollowHead(lastHeadPos: Position)
      modifies this`segments, this`lastTail, this`gameOverEvents
      ensures segments == Follow(lastHeadPos, old(segments))
      ensures lastTail == Some(Vacated(lastHeadPos, old(segments)))
      ensures gameOverEvents == old(gameOverEvents) + if lastHeadPos in old(segments) then 1 else 0
    {
      // the positions of all segments, read before any is overwritten
      var positions: seq<Position> := [];
      var i := 0;
      while i < |segments|
        invariant 0 <= i <= |segments|
        invariant positions == segments[..i]
        modifies {}
      {
        positions := positions + [segments[i]];
        i := i + 1;
      }
      if lastHeadPos in positions {
        gameOverEvents := gameOverEvents + 1;
      }
      assert positions == old(segments);
      positions := [lastHeadPos] + positions;
      // segment i takes entry i of the shifted positions
      i := 0;
      while i < |segments|
        invariant 0 <= i <= |segments| == |old(segments)| && |positions| == |segments| + 1
        invariant forall k :: 0 <= k < i ==> segments[k] == positions[k]
        invariant forall k :: i <= k < |segments| ==> segments[k] == old(segments)[k]
        modifies this`segments
      {
        segments := segments[i := positions[i]];
        i := i + 1;
      }
      assert segments == positions[..|old(segments)|];
      FollowIsShift(lastHeadPos, old(segments));
      lastTail := Some(positions[|positions| - 1]);
    }

    /** On a finished move timer: despawn every food item on the head's
        cell, sending one growth event per item. */
    method SnakeEating(moveFinished: bool)
      modifies this`food, this`growthEvents
      ensures !moveFinished ==> food == old(food) && growthEvents == old(growthEvents)
      ensures moveFinished ==>
        && food == Uneaten(old(food), head)
        && growthEvents == old(growthEvents) + EatenCount(old(food), head)
    {
      if !moveFinished {
        return;
      }
      var kept: seq<Position> := [];
      var i := 0;
      while i < |food|
        invariant 0 <= i <= |food| && food == old(food)
        invariant kept == Uneaten(food[..i], head)
        invariant growthEvents == old(growthEvents) + EatenCount(food[..i], head)
        modifies this`growthEvents
      {
        assert food[..i + 1][..i] == food[..i];
        if food[i] == head {
          growthEvents := growthEvents + 1;
        } else {
          kept := kept + [food[i]];
        }
        i := i + 1;
      }
      assert food[..|food|] == food;
      food := kept;
    }

    /** When a growth event was sent this cycle, append one segment at the
        last tail position (which must have been recorded by then). */
    method SnakeGrowth()
      requires growthEvents > 0 ==> lastTail.Some?
      modifies this`segments
      ensures segments == old(segments) + (if growthEvents > 0 then [lastTail.value] else [])
    {
      if growthEvents > 0 {
        segments := segments + [lastTail.value];
      }
    }

    /** Spawn one food item at `at` when the food timer finished or else
        when a growth event is unread (sent this cycle or skipped in the
        last one). A finished timer short-circuits the test, so this
        cycle's growth events are then left unread for the next cycle. */
    method FoodSpawner(foodTimerFinished: bool, at: Position)
      modifies this`food, this`pendingGrowth
      ensures food == old(food) +
        (if foodTimerFinished || growthEvents > 0 || old(pendingGrowth) then [at] else [])
      ensures pendingGrowth <==> foodTimerFinished && growthEvents > 0
    {
      var spawn := foodTimerFinished;
      if !spawn {
        // the reader consumes every unread event
        spawn := pendingGrowth || growthEvents > 0;
      }
      if spawn {
        food := food + [at];
      }
      pendingGrowth := foodTimerFinished && growthEvents > 0;
    }

    /** When a game-over event was sent this cycle, despawn every segment,
        all food and the head, and spawn the starting snake. */
    method GameOver()
      modifies this
      ensures gameOverEvents > 0 ==> State() == W.Reset([], old(lastTail), old(pendingGrowth))
      ensures gameOverEvents == 0 ==> State() == old(State())
      ensures growthEvents == old(growthEvents) && gameOverEvents == old(gameOverEvents)
    {
      if gameOverEvents > 0 {
        segments := [];
        food := [];
        SpawnInitialSnake();
      }
    }

    /** The first four systems of a cycle: input, movement, eating and
        growth. They leave the food spawner and game over to act on the
        events they sent. */
    method MoveEatGrow(moveFinished: bool, pressed: set<Direction>)
      requires AtCycleBoundary()
      modifies this`tryDirection, this`direction, this`head, this`segments, this`lastTail
      modifies this`food, this`growthEvents, this`gameOverEvents
      ensures tryDirection == ResolveIntent(old(direction), old(tryDirection), pressed)
      ensures !moveFinished ==>
        && direction == old(direction) && head == old(head) && segments == old(segments)
        && lastTail == old(lastTail) && food == old(food)
        && growthEvents == 0 && gameOverEvents == 0
      ensures moveFinished ==>
        && direction == Turn(old(direction), tryDirection)
        && head == Advance(old(head), direction)
        && food == Uneaten(old(food), head)
        && (growthEvents > 0 <==> head in old(food))
        && (gameOverEvents > 0 <==> W.Collides(old(head), head, old(segments)))
        && lastTail == Some(Vacated(old(head), old(segments)))
        && segments == Follow(old(head), old(segments))
                       + (if head in old(food) then [Vacated(old(head), old(segments))] else [])
    {
      HandleMovement(pressed);
      SnakeMovement(moveFinished);
      SnakeEating(moveFinished);
      SnakeGrowth();
    }

    /** One update cycle: the systems in their registered order, then the
        events are drained. */
    method Step(moveFinished: bool, pressed: set<Direction>, foodTimerFinished: bool, spawnAt: Position)
      requires AtCycleBoundary()
      modifies this
      ensures AtCycleBoundary()
      ensures State() == W.Next(old(State()), W.Tick(moveFinished, pressed, foodTimerFinished, spawnAt))
      ensures W.Valid(old(State())) && InArena(spawnAt) ==> W.Valid(State())
    {
      ghost var before := State();
      ghost var t := W.Tick(moveFinished, pressed, foodTimerFinished, spawnAt);
      MoveEatGrow(moveFinished, pressed);
      FoodSpawner(foodTimerFinished, spawnAt);
      GameOver();
      growthEvents, gameOverEvents := 0, 0;
      if !moveFinished {
        assert State() == W.Next(before, t);
      } else if W.CollidesOn(before, t) {
        assert State() == W.Next(before, t);
      } else {
        assert State() == W.Next(before, t);
      }
      if W.Valid(before) && InArena(spawnAt) {
        W.NextPreservesValid(before, t);
      }
    }
  }

  /** A client of `Game`: the first tick of a new game, then a tick that
      eats the food placed ahead of the head. */
  method FirstTicks()
  {
    var g := new Game(Position(3, 5));
    g.Step(true, {}, false, Position(7, 7));
    assert g.head == Position(3, 4) && g.segments == [Position(3, 3)];
    assert g.lastTail == Some(Position(3, 2));
    g.Step(true, {}, false, Position(8, 8));
    assert g.head == Position(3, 5);
    assert g.segments == [Position(3, 4), Position(3, 3)];
    assert g.food == [Position(8, 8)] && !g.pendingGrowth;
  }
}
