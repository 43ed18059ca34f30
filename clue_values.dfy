/**
 The value pass of the round builder: every clue at position `j` of a
 category in a round whose `id` is `r` is worth `(j + 1) * 100 * (r + 1)`.
 The round's `id` field is used, not its position in the game.
 */
module ClueValues {
  import opened Board

  function ClueValue(row: nat, roundId: int): int {
    (row + 1) * 100 * (roundId + 1)
  }

  /** Every clue carries the value its position and its round's id give it. */
  ghost predicate PositionValues(g: GameData) {
    forall i, k, j | IsCell(g, i, k, j) :: Cell(g, i, k, j).value == ClueValue(j, g.rounds[i].id)
  }

  /** `v` is `g` after the value pass: the values are those of the positions,
      and nothing else differs. */
  ghost predicate ValuesAssigned(g: GameData, v: GameData) {
    SameText(g, v) && SameFlags(g, v) && PositionValues(v)
  }

  /** Values survive a change that keeps the shape and the values. */
  lemma PositionValuesKept(g: GameData, h: GameData)
    requires PositionValues(g) && SameShape(g, h) && SameValues(g, h)
    ensures PositionValues(h)
  {
    forall i, k, j | IsCell(h, i, k, j) ensures Cell(h, i, k, j).value == ClueValue(j, h.rounds[i].id) {
      assert IsSlot(g, i, k);
      assert IsCell(g, i, k, j);
    }
  }

  /** The value pass leaves a game without daily doubles without them. */
  lemma CleanKeptByValues(g: GameData, v: GameData)
    requires ValuesAssigned(g, v) && CleanGame(g)
    ensures CleanGame(v)
  {
    forall i | 0 <= i < |v.rounds| ensures CleanRound(v.rounds[i]) {
      forall k | 0 <= k < |v.rounds[i].categories|
        ensures !v.rounds[i].categories[k].hasDailyDouble
        ensures forall j :: 0 <= j < |v.rounds[i].categories[k].clues| ==> !v.rounds[i].categories[k].clues[j].isDailyDouble
      {
        assert IsSlot(g, i, k);
        forall j | 0 <= j < |v.rounds[i].categories[k].clues| ensures !v.rounds[i].categories[k].clues[j].isDailyDouble {
          assert IsCell(g, i, k, j);
        }
      }
    }
  }

  // The same relation stated level by level, as the loops build it.

  ghost predicate CategoryValued(c: Category, v: Category, roundId: int) {
    && v.(clues := []) == c.(clues := [])
    && |v.clues| == |c.clues|
    && forall j :: 0 <= j < |c.clues| ==> v.clues[j] == c.clues[j].(value := ClueValue(j, roundId))
  }

  ghost predicate RoundValued(r: GameRound, v: GameRound) {
    && v.id == r.id
    && |v.categories| == |r.categories|
    && forall k :: 0 <= k < |r.categories| ==> CategoryValued(r.categories[k], v.categories[k], r.id)
  }

  ghost predicate GameValued(g: GameData, v: GameData) {
    && |v.rounds| == |g.rounds|
    && forall i :: 0 <= i < |g.rounds| ==> RoundValued(g.rounds[i], v.rounds[i])
  }

  /** The level-by-level relation and the cell-wise one are the same. */
  lemma GameValuedIff(g: GameData, v: GameData)
    ensures GameValued(g, v) <==> ValuesAssigned(g, v)
  {
    if ValuesAssigned(g, v) {
      forall i | 0 <= i < |g.rounds| ensures RoundValued(g.rounds[i], v.rounds[i]) {
        forall k | 0 <= k < |g.rounds[i].categories|
          ensures CategoryValued(g.rounds[i].categories[k], v.rounds[i].categories[k], g.rounds[i].id)
        {
          assert IsSlot(g, i, k);
          var c, d := g.rounds[i].categories[k], v.rounds[i].categories[k];
          forall j | 0 <= j < |c.clues| ensures d.clues[j] == c.clues[j].(value := ClueValue(j, g.rounds[i].id)) {
            assert IsCell(g, i, k, j) && IsCell(v, i, k, j);
          }
        }
      }
    }
    if GameValued(g, v) {
      forall i, k | IsSlot(g, i, k) ensures |CategoryAt(g, i, k).clues| == |CategoryAt(v, i, k).clues| {
        assert CategoryValued(CategoryAt(g, i, k), CategoryAt(v, i, k), g.rounds[i].id);
      }
      forall i, k, j | IsCell(v, i, k, j) ensures Cell(v, i, k, j).value == ClueValue(j, v.rounds[i].id) {
        assert CategoryValued(CategoryAt(g, i, k), CategoryAt(v, i, k), g.rounds[i].id);
      }
    }
  }

  /** The value pass over a whole game: a rounds loop, a categories loop and
      a clues loop that rewrite each clue's `value`. */
  method AssignValues(g: GameData) returns (v: GameData)
    ensures ValuesAssigned(g, v)
  {
    var rounds := g.rounds;
    for i := 0 to |rounds|
      invariant |rounds| == |g.rounds|
      invariant forall a :: 0 <= a < i ==> RoundValued(g.rounds[a], rounds[a])
      invariant forall a :: i <= a < |rounds| ==> rounds[a] == g.rounds[a]
    {
      var round := rounds[i];
      var cats := round.categories;
      for k := 0 to |cats|
        invariant |cats| == |round.categories|
        invariant forall b :: 0 <= b < k ==> CategoryValued(round.categories[b], cats[b], round.id)
        invariant forall b :: k <= b < |cats| ==> cats[b] == round.categories[b]
      {
        var clues := cats[k].clues;
        for j := 0 to |clues|
          invariant |clues| == |cats[k].clues|
          invariant forall c :: 0 <= c < j ==> clues[c] == cats[k].clues[c].(value := ClueValue(c, round.id))
          invariant forall c :: j <= c < |clues| ==> clues[c] == cats[k].clues[c]
        {
          clues := clues[j := clues[j].(value := (j + 1) * 100 * (round.id + 1))];
        }
        cats := cats[k := cats[k].(clues := clues)];
      }
      rounds := rounds[i := round.(categories := cats)];
    }
    v := GameData(rounds);
    GameValuedIff(g, v);
  }

  /** The value pass is a function of its input: two results of it agree. */
  lemma {:induction false} ValuesAssignedUnique(g: GameData, v: GameData, w: GameData)
    requires ValuesAssigned(g, v) && ValuesAssigned(g, w)
    ensures v == w
  {
    GameValuedIff(g, v);
    GameValuedIff(g, w);
    forall i | 0 <= i < |g.rounds| ensures v.rounds[i] == w.rounds[i] {
      var r := g.rounds[i];
      forall k | 0 <= k < |r.categories| ensures v.rounds[i].categories[k] == w.rounds[i].categories[k] {
        var c, x, y := r.categories[k], v.rounds[i].categories[k], w.rounds[i].categories[k];
        assert CategoryValued(c, x, r.id) && CategoryValued(c, y, r.id);
        assert x.clues == y.clues;
      }
      assert v.rounds[i].categories == w.rounds[i].categories;
    }
    assert v.rounds == w.rounds;
  }

  /** Running the value pass a second time changes nothing. */
  lemma ValuesAssignedIdempotent(g: GameData, v: GameData, w: GameData)
    requires ValuesAssigned(g, v) && ValuesAssigned(v, w)
    ensures w == v
  {
    assert ValuesAssigned(v, v);
    ValuesAssignedUnique(v, w, v);
  }

  /** In a round with a non-negative id, clues further down a category are
      worth strictly more. */
  lemma ValuesGrowDownColumn(g: GameData, i: nat, k: nat, j1: nat, j2: nat)
    requires PositionValues(g)
    requires IsCell(g, i, k, j2) && j1 < j2 && g.rounds[i].id >= 0
    ensures Cell(g, i, k, j1).value < Cell(g, i, k, j2).value
  {
  }
}
