/**
 Daily-double placement of the round builder. Round number `i` (its
 position in the game) receives `2^i` daily doubles. For each one a
 category is drawn from `[0, 6)` until one without a daily double comes
 up, and then a row is drawn from `[0, 11)`, folded into `[0, 6)`, until a
 clue of that category without a daily double comes up.

 The random source is a sequence of draws in `[0, 1)`, consumed in order.
 Where the source would loop forever (every candidate already taken) the
 model runs out of draws; where it would index past the end of a list it
 reports the missing entry.
 */
module DailyDoubles {
  import opened Board

  /** `2^i`: the number of daily doubles round number `i` receives. */
  function Pow2(i: nat): nat {
    if i == 0 then 1 else 2 * Pow2(i - 1)
  }

  /** Every draw is a value the random source can produce. */
  ghost predicate ValidDraws(draws: seq<real>) {
    forall m :: 0 <= m < |draws| ==> 0.0 <= draws[m] < 1.0
  }

  /** `floor(draw * 6)`: the category a draw picks. */
  function CategorySlot(draw: real): (k: int)
    ensures 0.0 <= draw < 1.0 ==> 0 <= k < 6
  {
    (draw * 6.0).Floor
  }

  /** The row fold: above 8 take away 6, then above 5 take away 3. */
  function FoldRow(d: int): (row: int)
    ensures 0 <= d < 11 ==> 0 <= row < 6
  {
    var e := if d > 8 then d - 6 else d;
    if e > 5 then e - 3 else e
  }

  /** `floor(draw * 11)`, folded: the clue row a draw picks. */
  function ClueSlot(draw: real): (j: int)
    ensures 0.0 <= draw < 1.0 ==> 0 <= j < 6
  {
    FoldRow((draw * 11.0).Floor)
  }

  /** Draws 0 to 5 keep their row, 6 to 8 land on rows 3 to 5 and 9, 10 on rows 3, 4. */
  lemma FoldRowTable(d: int)
    requires 0 <= d < 11
    ensures d <= 5 ==> FoldRow(d) == d
    ensures 6 <= d <= 8 ==> FoldRow(d) == d - 3
    ensures 9 <= d ==> FoldRow(d) == d - 6
  {
  }

  /** How many of the draws `0 .. n - 1` the fold sends to `row`. */
  function RowWeight(row: int, n: nat): nat {
    if n == 0 then 0 else RowWeight(row, n - 1) + (if FoldRow(n - 1) == row then 1 else 0)
  }

  /** Out of the 11 equally likely draws, rows 0 to 2 get one each, rows 3
      and 4 three each and row 5 only two. */
  lemma RowWeights()
    ensures RowWeight(0, 11) == 1 && RowWeight(1, 11) == 1 && RowWeight(2, 11) == 1
    ensures RowWeight(3, 11) == 3 && RowWeight(4, 11) == 3 && RowWeight(5, 11) == 2
  {
  }

  // ---------------------------------------------------------------------
  // One rejection loop

  /** How a rejection loop ended: it found a free candidate, it drew an index
      past the end of the list, or it used up the draws. `next` is the
      position of the first unused draw. */
  datatype Drawn = Found(index: int, next: nat) | OutOfRange(index: int, next: nat) | Exhausted

  /** Every draw in `[lo, hi)` picked an existing candidate that was taken. */
  ghost predicate AllTaken(taken: seq<bool>, slot: real -> int, draws: seq<real>, lo: nat, hi: nat)
    requires hi <= |draws|
  {
    forall m :: lo <= m < hi ==> 0 <= slot(draws[m]) < |taken| && taken[slot(draws[m])]
  }

  /** Draw `slot(draws[pos])` for `pos = from, from + 1, ...` while it names a
      taken candidate. */
  method Redraw(taken: seq<bool>, slot: real -> int, draws: seq<real>, from: nat) returns (d: Drawn)
    requires from <= |draws|
    ensures d.Found? || d.OutOfRange? ==>
              from < d.next <= |draws| && d.index == slot(draws[d.next - 1]) &&
              AllTaken(taken, slot, draws, from, d.next - 1)
    ensures d.Found? ==> 0 <= d.index < |taken| && !taken[d.index]
    ensures d.OutOfRange? ==> !(0 <= d.index < |taken|)
    ensures d.Exhausted? ==> AllTaken(taken, slot, draws, from, |draws|)
  {
    var pos := from;
    while pos < |draws|
      invariant from <= pos <= |draws|
      invariant AllTaken(taken, slot, draws, from, pos)
    {
      var k := slot(draws[pos]);
      pos := pos + 1;
      if !(0 <= k < |taken|) {
        return OutOfRange(k, pos);
      }
      if !taken[k] {
        return Found(k, pos);
      }
    }
    return Exhausted;
  }

  function CategoryFlags(cats: seq<Category>): (flags: seq<bool>)
    ensures |flags| == |cats| && forall k :: 0 <= k < |cats| ==> flags[k] == cats[k].hasDailyDouble
  {
    seq(|cats|, k requires 0 <= k < |cats| => cats[k].hasDailyDouble)
  }

  function ClueFlags(clues: seq<Clue>): (flags: seq<bool>)
    ensures |flags| == |clues| && forall j :: 0 <= j < |clues| ==> flags[j] == clues[j].isDailyDouble
  {
    seq(|clues|, j requires 0 <= j < |clues| => clues[j].isDailyDouble)
  }

  // ---------------------------------------------------------------------
  // What one placement does to a category, a round and a game

  /** `c` with its `hasDailyDouble` set and the clue in row `j` flagged. */
  function FlagClue(c: Category, j: nat): Category
    requires j < |c.clues|
  {
    c.(hasDailyDouble := true, clues := c.clues[j := c.clues[j].(isDailyDouble := true)])
  }

  /** `after` is `before`, which had no daily double, with a daily double put
      on one of its first six clues that was not one. */
  ghost predicate Marked(before: Category, after: Category) {
    !before.hasDailyDouble &&
    exists j :: 0 <= j < 6 && j < |before.clues| && !before.clues[j].isDailyDouble && after == FlagClue(before, j)
  }

  /** Each category is unchanged or, if among the first six, marked. */
  ghost predicate MarkedOrSame(before: seq<Category>, after: seq<Category>) {
    |after| == |before| &&
    forall k :: 0 <= k < |before| ==> after[k] == before[k] || (k < 6 && Marked(before[k], after[k]))
  }

  /** `after` is `before` with exactly `n` of its categories marked. */
  ghost predicate RoundPlaced(before: GameRound, after: GameRound, n: nat) {
    && after.id == before.id
    && MarkedOrSame(before.categories, after.categories)
    && FlaggedCategories(after.categories) == FlaggedCategories(before.categories) + n
  }

  /** Round `i` of `h` is round `i` of `g` with `2^i` categories marked. */
  ghost predicate Placed(g: GameData, h: GameData) {
    |h.rounds| == |g.rounds| &&
    forall i :: 0 <= i < |g.rounds| ==> RoundPlaced(g.rounds[i], h.rounds[i], Pow2(i))
  }

  /** The errors random placement can report for round number `i`: a drawn
      category index past the end of a round with fewer than six categories,
      a drawn row past the end of a category with fewer than six clues, or
      draws used up. A missing round is never one of them. */
  ghost predicate RoundError(r: GameRound, i: nat, e: LoadError) {
    match e
    case MissingRound(_) => false
    case MissingCategory(ri, d) => ri == i && |r.categories| <= d < 6
    case MissingClue(ri, k, d) => ri == i && k < |r.categories| && k < 6 && |r.categories[k].clues| <= d < 6
    case DrawsExhausted => true
  }

  /** The errors random placement can report for a whole game. */
  ghost predicate PlacementError(g: GameData, e: LoadError) {
    e.DrawsExhausted? || (!e.MissingRound? && e.round < |g.rounds| && RoundError(g.rounds[e.round], e.round, e))
  }

  /** Every round has six categories, each with at least six clues: every
      index the draws can name exists. */
  ghost predicate FullBoard(g: GameData) {
    forall i :: 0 <= i < |g.rounds| ==>
      |g.rounds[i].categories| >= 6 &&
      forall k :: 0 <= k < 6 ==> |g.rounds[i].categories[k].clues| >= 6
  }

  /** On a full board random placement can fail only by running out of draws. */
  lemma FullBoardOnlyExhausts(g: GameData, e: LoadError)
    requires FullBoard(g) && PlacementError(g, e)
    ensures e == DrawsExhausted
  {
  }

  /** The errors depend only on the shape of the game. */
  lemma PlacementErrorShape(g: GameData, h: GameData, e: LoadError)
    requires SameShape(g, h) && PlacementError(h, e)
    ensures PlacementError(g, e)
  {
    if !e.DrawsExhausted? {
      assert |g.rounds[e.round].categories| == |h.rounds[e.round].categories|;
      if e.MissingClue? {
        assert IsSlot(g, e.round, e.category);
      }
    }
  }

  // ---------------------------------------------------------------------
  // The placement loops

  /** Place `count` daily doubles in `round`, reading draws from `from` on;
      on success also gives the position of the first unused draw. */
  method PlaceInRound(round: GameRound, roundIndex: nat, count: nat, draws: seq<real>, from: nat)
    returns (res: Result<(GameRound, nat)>)
    requires from <= |draws| && ValidDraws(draws)
    ensures res.Ok? ==> RoundPlaced(round, res.value.0, count) && from <= res.value.1 <= |draws|
    ensures res.Err? ==> RoundError(round, roundIndex, res.error)
  {
    var cats := round.categories;
    var pos := from;
    for dd := 0 to count
      invariant from <= pos <= |draws|
      invariant MarkedOrSame(round.categories, cats)
      invariant FlaggedCategories(cats) == FlaggedCategories(round.categories) + dd
    {
      // Pick a category that has no daily double yet.
      var pick := Redraw(CategoryFlags(cats), CategorySlot, draws, pos);
      if pick.Exhausted? {
        return Err(DrawsExhausted);
      } else if pick.OutOfRange? {
        return Err(MissingCategory(roundIndex, pick.index));
      }
      var k := pick.index;
      assert k < 6 by { assert 0.0 <= draws[pick.next - 1] < 1.0; }
      assert cats[k] == round.categories[k];
      var category := cats[k].(hasDailyDouble := true);

      // Pick a clue of it that is not a daily double yet.
      var row := Redraw(ClueFlags(category.clues), ClueSlot, draws, pick.next);
      if row.Exhausted? {
        return Err(DrawsExhausted);
      } else if row.OutOfRange? {
        return Err(MissingClue(roundIndex, k, row.index));
      }
      var j := row.index;
      assert j < 6 by { assert 0.0 <= draws[row.next - 1] < 1.0; }
      category := category.(clues := category.clues[j := category.clues[j].(isDailyDouble := true)]);

      assert category == FlagClue(round.categories[k], j);
      FlaggedCategoriesUpdate(cats, k, category);
      cats := cats[k := category];
      pos := row.next;
    }
    return Ok((round.(categories := cats), pos));
  }

  /** Place `2^i` daily doubles in round number `i`, for every round in turn. */
  method PlaceDailyDoubles(g: GameData, draws: seq<real>) returns (res: Result<GameData>)
    requires ValidDraws(draws)
    ensures res.Ok? ==> Placed(g, res.value)
    ensures res.Err? ==> PlacementError(g, res.error)
  {
    var rounds := g.rounds;
    var pos: nat := 0;
    for i := 0 to |rounds|
      invariant |rounds| == |g.rounds| && pos <= |draws|
      invariant forall a :: 0 <= a < i ==> RoundPlaced(g.rounds[a], rounds[a], Pow2(a))
      invariant forall a :: i <= a < |rounds| ==> rounds[a] == g.rounds[a]
    {
      var placed := PlaceInRound(rounds[i], i, Pow2(i), draws, pos);
      if placed.Err? {
        return Err(placed.error);
      }
      rounds := rounds[i := placed.value.0];
      pos := placed.value.1;
    }
    return Ok(GameData(rounds));
  }

  /** The fixed placement of debug mode: category 0 of round 0 and its first
      clue are flagged, with no randomness. */
  function DebugPlacement(g: GameData): (r: Result<GameData>)
    ensures r.Ok? <==> |g.rounds| > 0 && |g.rounds[0].categories| > 0 && |g.rounds[0].categories[0].clues| > 0
    ensures r.Err? ==> r.error == (if |g.rounds| == 0 then MissingRound(0)
                                   else if |g.rounds[0].categories| == 0 then MissingCategory(0, 0)
                                   else MissingClue(0, 0, 0))
    ensures r.Ok? ==> SameText(g, r.value) && SameValues(g, r.value)
    ensures r.Ok? ==> forall i, k | IsSlot(g, i, k) ::
                        CategoryAt(r.value, i, k).hasDailyDouble == (CategoryAt(g, i, k).hasDailyDouble || (i == 0 && k == 0))
    ensures r.Ok? ==> forall i, k, j | IsCell(g, i, k, j) ::
                        Cell(r.value, i, k, j).isDailyDouble == (Cell(g, i, k, j).isDailyDouble || (i == 0 && k == 0 && j == 0))
  {
    if |g.rounds| == 0 then Err(MissingRound(0))
    else
      var round := g.rounds[0];
      if |round.categories| == 0 then Err(MissingCategory(0, 0))
      else if |round.categories[0].clues| == 0 then Err(MissingClue(0, 0, 0))
      else Ok(g.(rounds := g.rounds[0 := round.(categories := round.categories[0 := FlagClue(round.categories[0], 0)])]))
  }

  // ---------------------------------------------------------------------
  // Properties of a placement

  /** Across categories that are marked or unchanged, the flagged clues grow
      exactly as much as the flagged categories, and by at most one per
      category among the first six. */
  lemma {:induction false} MarkedOrSameCounts(before: seq<Category>, after: seq<Category>)
    requires MarkedOrSame(before, after)
    ensures FlaggedCategories(before) <= FlaggedCategories(after)
    ensures RoundDailyDoubles(after) - RoundDailyDoubles(before) == FlaggedCategories(after) - FlaggedCategories(before)
    ensures FlaggedCategories(after) - FlaggedCategories(before) <= |before|
    ensures FlaggedCategories(after) - FlaggedCategories(before) <= 6
  {
    if before != [] {
      var n := |before| - 1;
      assert MarkedOrSame(before[..n], after[..n]);
      MarkedOrSameCounts(before[..n], after[..n]);
      if after[n] != before[n] {
        var j :| 0 <= j < 6 && j < |before[n].clues| && !before[n].clues[j].isDailyDouble && after[n] == FlagClue(before[n], j);
        FlaggedCluesUpdate(before[n].clues, j, before[n].clues[j].(isDailyDouble := true));
      }
    }
  }

  /** A round can take at most six daily doubles, and no more than it has categories. */
  lemma RoundPlacedBound(before: GameRound, after: GameRound, n: nat)
    requires RoundPlaced(before, after, n)
    ensures n <= 6 && n <= |before.categories|
    ensures RoundDailyDoubles(after.categories) == RoundDailyDoubles(before.categories) + n
  {
    MarkedOrSameCounts(before.categories, after.categories);
  }

  /** Placement can only finish for a game of at most three rounds: round 3
      would need eight categories among the six that can be drawn. */
  lemma PlacedAtMostThreeRounds(g: GameData, h: GameData)
    requires Placed(g, h)
    ensures |g.rounds| <= 3
  {
    if |g.rounds| > 3 {
      RoundPlacedBound(g.rounds[3], h.rounds[3], Pow2(3));
    }
  }

  /** A round whose daily doubles are exactly as the builder promises: `n`
      flagged categories, `n` flagged clues, at most one per category, and a
      category flagged exactly when one of its clues is. */
  ghost predicate ExactlyPlaced(r: GameRound, n: nat) {
    && FlaggedCategories(r.categories) == n
    && RoundDailyDoubles(r.categories) == n
    && forall k :: 0 <= k < |r.categories| ==>
         FlaggedClues(r.categories[k].clues) <= 1 &&
         (r.categories[k].hasDailyDouble <==> FlaggedClues(r.categories[k].clues) == 1)
  }

  lemma CleanRoundPlaced(before: GameRound, after: GameRound, n: nat)
    requires CleanRound(before) && RoundPlaced(before, after, n)
    ensures ExactlyPlaced(after, n)
  {
    CleanRoundCounts(before.categories);
    RoundPlacedBound(before, after, n);
    forall k | 0 <= k < |after.categories|
      ensures FlaggedClues(after.categories[k].clues) <= 1
      ensures after.categories[k].hasDailyDouble <==> FlaggedClues(after.categories[k].clues) == 1
    {
      var c := before.categories[k];
      FlaggedCluesNone(c.clues);
      if after.categories[k] != c {
        var j :| 0 <= j < 6 && j < |c.clues| && !c.clues[j].isDailyDouble && after.categories[k] == FlagClue(c, j);
        FlaggedCluesUpdate(c.clues, j, c.clues[j].(isDailyDouble := true));
      }
    }
  }

  /** On a game with no flags set, a successful placement gives round `i`
      exactly `2^i` daily doubles, at most one per category. */
  lemma CleanGamePlaced(g: GameData, h: GameData)
    requires CleanGame(g) && Placed(g, h)
    ensures forall i :: 0 <= i < |h.rounds| ==> ExactlyPlaced(h.rounds[i], Pow2(i))
  {
    forall i | 0 <= i < |h.rounds| ensures ExactlyPlaced(h.rounds[i], Pow2(i)) {
      CleanRoundPlaced(g.rounds[i], h.rounds[i], Pow2(i));
    }
  }

  /** Placement changes nothing but the daily-double flags, and those only
      from false to true. */
  lemma PlacedOnlyRaisesFlags(g: GameData, h: GameData)
    requires Placed(g, h)
    ensures SameText(g, h) && SameValues(g, h)
    ensures forall i, k | IsSlot(g, i, k) :: CategoryAt(g, i, k).hasDailyDouble ==> CategoryAt(h, i, k).hasDailyDouble
    ensures forall i, k, j | IsCell(g, i, k, j) :: Cell(g, i, k, j).isDailyDouble ==> Cell(h, i, k, j).isDailyDouble
  {
  }

  /** Only round 0, category 0, clue 0 is a daily double, and only its category is flagged. */
  ghost predicate DebugExact(h: GameData) {
    && (forall i, k | IsSlot(h, i, k) :: CategoryAt(h, i, k).hasDailyDouble <==> i == 0 && k == 0)
    && (forall i, k, j | IsCell(h, i, k, j) :: Cell(h, i, k, j).isDailyDouble <==> i == 0 && k == 0 && j == 0)
  }

  /** On a game with no flags set, debug mode leaves a single daily double at
      the top left of the first round and none anywhere else. */
  lemma CleanDebugPlacement(g: GameData)
    requires CleanGame(g) && DebugPlacement(g).Ok?
    ensures DebugExact(DebugPlacement(g).value)
    ensures ExactlyPlaced(DebugPlacement(g).value.rounds[0], 1)
    ensures forall i :: 1 <= i < |g.rounds| ==> ExactlyPlaced(DebugPlacement(g).value.rounds[i], 0)
  {
    var h := DebugPlacement(g).value;
    forall i, k | IsSlot(h, i, k) ensures CategoryAt(h, i, k).hasDailyDouble <==> i == 0 && k == 0 {
      assert IsSlot(g, i, k);
    }
    forall i, k, j | IsCell(h, i, k, j) ensures Cell(h, i, k, j).isDailyDouble <==> i == 0 && k == 0 && j == 0 {
      assert IsSlot(g, i, k) && IsCell(g, i, k, j);
    }
    var r0 := g.rounds[0];
    assert h.rounds[0] == r0.(categories := r0.categories[0 := FlagClue(r0.categories[0], 0)]);
    assert Marked(r0.categories[0], h.rounds[0].categories[0]);
    FlaggedCategoriesUpdate(r0.categories, 0, FlagClue(r0.categories[0], 0));
    CleanRoundCounts(r0.categories);
    assert RoundPlaced(r0, h.rounds[0], 1);
    CleanRoundPlaced(r0, h.rounds[0], 1);
    forall i | 1 <= i < |g.rounds| ensures ExactlyPlaced(h.rounds[i], 0) {
      assert RoundPlaced(g.rounds[i], h.rounds[i], 0);
      CleanRoundPlaced(g.rounds[i], h.rounds[i], 0);
    }
  }
}
