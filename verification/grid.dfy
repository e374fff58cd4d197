/**
 * The grid the snake lives on: cell positions, the four movement
 * directions, the unit step in each direction and the 20x20 arena.
 */
module Grid {

  /** An optional value (the source's `Option`). */
  datatype Option<T> = None | Some(value: T)

  /** A grid cell. The source stores `i32` coordinates; see `World.Valid`
      and `AdvanceStaysNearArena` for why they never leave [-1, 20]. */
  datatype Position = Position(x: int, y: int)

  datatype Direction = Left | Up | Right | Down

  const ArenaWidth: int := 20
  const ArenaHeight: int := 20

  /** The cell lies inside [0, ArenaWidth) x [0, ArenaHeight). */
  predicate InArena(p: Position) {
    0 <= p.x < ArenaWidth && 0 <= p.y < ArenaHeight
  }

  predicate Horizontal(d: Direction) {
    d == Left || d == Right
  }

  /** The reverse of a direction; it lies on the same axis and differs from it. */
  function Opposite(d: Direction): (r: Direction)
    ensures r != d
    ensures Horizontal(r) == Horizontal(d)
  {
    match d
    case Left => Right
    case Right => Left
    case Up => Down
    case Down => Up
  }

  /** Reversing twice gives back the direction: `Opposite` is an involution. */
  lemma OppositeInvolution(d: Direction)
    ensures Opposite(Opposite(d)) == d
    ensures Opposite(d) != d
  {
  }

  function Abs(n: int): nat {
    if n < 0 then -n else n
  }

  /** Cells a grid step apart (Manhattan distance). */
  function Distance(p: Position, q: Position): nat {
    Abs(p.x - q.x) + Abs(p.y - q.y)
  }

  /** The neighbouring cell in direction `d`: exactly one cell away, on the
      axis of `d`, with x growing to the Right and y growing Up. */
  function Advance(p: Position, d: Direction): (r: Position)
    ensures Distance(p, r) == 1
    ensures Horizontal(d) ==> r.y == p.y
    ensures !Horizontal(d) ==> r.x == p.x
    ensures (d == Right ==> r.x > p.x) && (d == Left ==> r.x < p.x)
    ensures (d == Up ==> r.y > p.y) && (d == Down ==> r.y < p.y)
  {
    match d
    case Left => Position(p.x - 1, p.y)
    case Right => Position(p.x + 1, p.y)
    case Up => Position(p.x, p.y + 1)
    case Down => Position(p.x, p.y - 1)
  }

  /** The displacement of one step in direction `d`, per axis. */
  function DeltaX(d: Direction): int {
    match d
    case Left => -1
    case Right => 1
    case Up => 0
    case Down => 0
  }

  function DeltaY(d: Direction): int {
    match d
    case Left => 0
    case Right => 0
    case Up => 1
    case Down => -1
  }

  /** A step adds the direction's displacement to the cell. */
  lemma AdvanceByDelta(p: Position, d: Direction)
    ensures Advance(p, d) == Position(p.x + DeltaX(d), p.y + DeltaY(d))
  {
  }

  /** A step in the opposite direction undoes a step. */
  lemma AdvanceThenBack(p: Position, d: Direction)
    ensures Advance(Advance(p, d), Opposite(d)) == p
  {
  }

  /** A step from inside the arena lands at most one cell outside it, so
      32-bit coordinates never overflow. */
  lemma AdvanceStaysNearArena(p: Position, d: Direction)
    requires InArena(p)
    ensures -1 <= Advance(p, d).x <= ArenaWidth
    ensures -1 <= Advance(p, d).y <= ArenaHeight
  {
  }
}
