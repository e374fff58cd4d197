/**
 * The snake's body as a rigid chain: on a tick every segment moves into
 * the cell its predecessor (the head, for segment 0) occupied before the
 * tick, and the tail's old cell is vacated.
 */
module Body {
  import opened Grid

  /** The body after one tick when the segment ahead of `body[0]` was at `lead`. */
  function Follow(lead: Position, body: seq<Position>): (r: seq<Position>)
    ensures |r| == |body|
    decreases |body|
  {
    if body == [] then [] else [lead] + Follow(body[0], body[1..])
  }

  /** The cell vacated by the tick: the old tail, or `lead` for an empty body. */
  function Vacated(lead: Position, body: seq<Position>): (r: Position)
    ensures r == ([lead] + body)[|body|]
  {
    if body == [] then lead else body[|body| - 1]
  }

  /** Segment 0 takes the lead's old cell and segment i takes segment i-1's old cell. */
  lemma {:induction false} FollowAt(lead: Position, body: seq<Position>, i: nat)
    requires i < |body|
    ensures Follow(lead, body)[i] == if i == 0 then lead else body[i - 1]
    decreases |body|
  {
    if i > 0 {
      FollowAt(body[0], body[1..], i - 1);
    }
  }

  /** Nothing is lost or created: the moved body followed by the vacated
      cell is exactly the old chain, lead first. */
  lemma {:induction false} FollowThenVacated(lead: Position, body: seq<Position>)
    ensures Follow(lead, body) + [Vacated(lead, body)] == [lead] + body
    decreases |body|
  {
    if body != [] {
      FollowThenVacated(body[0], body[1..]);
      assert Vacated(body[0], body[1..]) == Vacated(lead, body);
      assert [body[0]] + body[1..] == body;
    }
  }

  /** The moved body is the old chain, lead first, cut to the body's length. */
  lemma FollowIsShift(lead: Position, body: seq<Position>)
    ensures Follow(lead, body) == ([lead] + body)[..|body|]
  {
    FollowThenVacated(lead, body);
    assert ([lead] + body)[..|body|] == (Follow(lead, body) + [Vacated(lead, body)])[..|body|];
  }

  /** Every cell of the moved body was the lead's or a segment's before the tick. */
  lemma FollowCells(lead: Position, body: seq<Position>, p: Position)
    requires p in Follow(lead, body)
    ensures p == lead || p in body
  {
    FollowThenVacated(lead, body);
    assert p in [lead] + body;
  }

  predicate Distinct(s: seq<Position>) {
    forall i, j :: 0 <= i < j < |s| ==> s[i] != s[j]
  }

  /** A body whose segments are pairwise distinct stays so when the lead was
      not on it, and the vacated cell is free after the tick. */
  lemma FollowKeepsDistinct(lead: Position, body: seq<Position>)
    requires Distinct(body) && lead !in body
    ensures Distinct(Follow(lead, body) + [Vacated(lead, body)])
    ensures Distinct(Follow(lead, body))
  {
    FollowThenVacated(lead, body);
    var chain := [lead] + body;
    forall i, j | 0 <= i < j < |chain| ensures chain[i] != chain[j] {
      if i == 0 {
        assert chain[j] == body[j - 1];
      } else {
        assert chain[i] == body[i - 1] && chain[j] == body[j - 1];
      }
    }
    var moved := Follow(lead, body);
    assert forall i :: 0 <= i < |moved| ==> moved[i] == chain[i];
  }

  /** Moving the head onto any segment but the tail puts it on a body cell
      after the tick, which the next tick's comparison of the pre-move head
      with the segments detects. */
  lemma EnteringBodyCaughtNextTick(lead: Position, body: seq<Position>, k: nat)
    requires k + 1 < |body|
    ensures body[k] in Follow(lead, body)
  {
    FollowAt(lead, body, k + 1);
  }

  /** The shift alone frees the tail's old cell: after it no segment is
      there. (Growth in the same cycle may put a new segment back on it.) */
  lemma ChasingTailNotCaught(lead: Position, body: seq<Position>)
    requires body != [] && Distinct(body) && lead !in body
    ensures body[|body| - 1] !in Follow(lead, body)
  {
    FollowKeepsDistinct(lead, body);
    var chain := Follow(lead, body) + [Vacated(lead, body)];
    forall i | 0 <= i < |body| ensures Follow(lead, body)[i] != body[|body| - 1] {
      assert chain[i] != chain[|body|];
    }
  }
}
