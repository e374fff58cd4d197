/**
 * Direction intent: which direction the player asks for this cycle, and
 * which direction the snake actually takes on a movement tick.
 */
module Intent {
  import opened Grid

  /** The order in which pressed directions are considered. */
  const Priority: seq<Direction> := [Left, Down, Up, Right]

  /** Rank of a direction in `Priority` (lower is considered first). */
  function Rank(d: Direction): (k: nat)
    ensures k < |Priority| && Priority[k] == d
  {
    match d
    case Left => 0
    case Down => 1
    case Up => 2
    case Right => 3
  }

  /** A pressed direction may become the intent unless the snake already moves that way. */
  predicate Eligible(d: Direction, current: Direction, pressed: set<Direction>) {
    d in pressed && d != current
  }

  /** Index of the first eligible direction of `order`, or `|order|` when there is none. */
  function FirstEligible(order: seq<Direction>, current: Direction, pressed: set<Direction>): (k: nat)
    ensures k <= |order|
    ensures k < |order| ==> Eligible(order[k], current, pressed)
    ensures forall j :: 0 <= j < k ==> !Eligible(order[j], current, pressed)
  {
    if order == [] then 0
    else if Eligible(order[0], current, pressed) then 0
    else 1 + FirstEligible(order[1..], current, pressed)
  }

  /** The new intended direction: the first eligible pressed direction in
      `Priority`, or the previous intent `pending` when none is eligible. */
  function ResolveIntent(current: Direction, pending: Direction, pressed: set<Direction>): (r: Direction)
    ensures (forall d :: !Eligible(d, current, pressed)) ==> r == pending
    ensures (exists d :: Eligible(d, current, pressed)) ==>
              Eligible(r, current, pressed) &&
              forall d :: Eligible(d, current, pressed) ==> Rank(r) <= Rank(d)
  {
    var k := FirstEligible(Priority, current, pressed);
    if k < |Priority| then
      Priority[k]
    else
      assert forall d :: !Eligible(d, current, pressed) by {
        forall d ensures !Eligible(d, current, pressed) { assert Priority[Rank(d)] == d; }
      }
      pending
  }

  /** Resolving the intent is a chain of tests in priority order. */
  lemma ResolveIntentInPriorityOrder(current: Direction, pending: Direction, pressed: set<Direction>)
    ensures ResolveIntent(current, pending, pressed) ==
      if Eligible(Left, current, pressed) then Left
      else if Eligible(Down, current, pressed) then Down
      else if Eligible(Up, current, pressed) then Up
      else if Eligible(Right, current, pressed) then Right
      else pending
  {
    var r := ResolveIntent(current, pending, pressed);
    assert Priority[Rank(r)] == r;
  }

  /** On a movement tick the intent is taken unless it reverses the snake. */
  function Turn(current: Direction, intent: Direction): (r: Direction)
    ensures r != Opposite(current)
    ensures r == intent || (r == current && intent == Opposite(current))
  {
    if intent != Opposite(current) then intent else current
  }

  /** Trying to reverse keeps the current direction (Up stays Up when Down is asked). */
  lemma ReversalRejected(current: Direction)
    ensures Turn(current, Opposite(current)) == current
  {
  }
}
