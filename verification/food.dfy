/**
 * Eating: every food item on the head's cell is removed, one growth
 * event per item removed; the other items stay, in their order.
 */
module Food {
  import opened Grid

  /** The food items not at `at`, in their original order. */
  function Uneaten(food: seq<Position>, at: Position): (r: seq<Position>)
    ensures |r| <= |food|
  {
    if food == [] then []
    else
      var last := food[|food| - 1];
      Uneaten(food[..|food| - 1], at) + (if last == at then [] else [last])
  }

  /** How many food items lie at `at`. */
  function EatenCount(food: seq<Position>, at: Position): (n: nat)
    ensures n <= |food|
    ensures n > 0 <==> at in food
  {
    if food == [] then 0
    else
      assert food == food[..|food| - 1] + [food[|food| - 1]];
      EatenCount(food[..|food| - 1], at) + (if food[|food| - 1] == at then 1 else 0)
  }

  /** Eating splits the food exactly: the items at `at` are counted and gone,
      every other item keeps its multiplicity. */
  lemma {:induction false} EatingSplitsFood(food: seq<Position>, at: Position)
    ensures |Uneaten(food, at)| + EatenCount(food, at) == |food|
    ensures EatenCount(food, at) == multiset(food)[at]
    ensures multiset(Uneaten(food, at))[at] == 0
    ensures forall p :: p != at ==> multiset(Uneaten(food, at))[p] == multiset(food)[p]
  {
    if food != [] {
      var init, last := food[..|food| - 1], food[|food| - 1];
      EatingSplitsFood(init, at);
      assert food == init + [last];
      assert multiset(food) == multiset(init) + multiset{last};
    }
  }

  /** At least one item is eaten exactly when some food lies at `at`, and
      then no food at `at` remains. */
  lemma EatenIffPresent(food: seq<Position>, at: Position)
    ensures EatenCount(food, at) > 0 <==> at in food
    ensures at !in Uneaten(food, at)
    ensures forall p :: p in Uneaten(food, at) <==> p in food && p != at
  {
    EatingSplitsFood(food, at);
    assert at in food <==> at in multiset(food);
    forall p ensures p in Uneaten(food, at) <==> p in food && p != at {
      assert p in Uneaten(food, at) <==> p in multiset(Uneaten(food, at));
      assert p in food <==> p in multiset(food);
    }
  }

  /** Removing food at a cell where there is none leaves the food as it was. */
  lemma {:induction false} UneatenWithoutTarget(food: seq<Position>, at: Position)
    requires at !in food
    ensures Uneaten(food, at) == food
  {
    if food != [] {
      var init, last := food[..|food| - 1], food[|food| - 1];
      assert food == init + [last];
      UneatenWithoutTarget(init, at);
    }
  }
}
