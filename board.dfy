/**
 The game tree the host controller works on: a game is a list of rounds,
 a round a list of categories, a category a list of clues. These are the
 plain data records the host receives from its data feed; the round builder
 fills in their `value`, `hasDailyDouble` and `isDailyDouble` fields.
 */
module Board {

  datatype Option<T> = None | Some(value: T)

  datatype Clue = Clue(clue: string, question: string, value: int, isAsked: bool, isDailyDouble: bool)

  datatype Category = Category(
    title: string,
    comment: string,
    airDate: string,
    clues: seq<Clue>,
    isAsked: bool,
    hasDailyDouble: bool)

  datatype GameRound = GameRound(id: int, categories: seq<Category>)

  datatype GameData = GameData(rounds: seq<GameRound>)

  /** Why building a round can fail. */
  datatype LoadError =
    | MissingRound(round: nat)                            // `rounds[0]` is undefined
    | MissingCategory(round: nat, draw: int)              // `categories[draw]` is undefined
    | MissingClue(round: nat, category: nat, draw: int)   // `clues[draw]` is undefined
    | DrawsExhausted                                      // a rejection loop used up its random draws

  datatype Result<T> = Ok(value: T) | Err(error: LoadError)

  // ---------------------------------------------------------------------
  // Addressing the tree

  ghost predicate IsSlot(g: GameData, i: int, k: int) {
    0 <= i < |g.rounds| && 0 <= k < |g.rounds[i].categories|
  }

  function CategoryAt(g: GameData, i: int, k: int): Category
    requires IsSlot(g, i, k)
  {
    g.rounds[i].categories[k]
  }

  ghost predicate IsCell(g: GameData, i: int, k: int, j: int) {
    IsSlot(g, i, k) && 0 <= j < |g.rounds[i].categories[k].clues|
  }

  function Cell(g: GameData, i: int, k: int, j: int): Clue
    requires IsCell(g, i, k, j)
  {
    g.rounds[i].categories[k].clues[j]
  }

  /** Both games have the same rounds, categories per round and clues per category. */
  ghost predicate SameShape(g: GameData, h: GameData) {
    && |g.rounds| == |h.rounds|
    && (forall i :: 0 <= i < |g.rounds| ==>
          g.rounds[i].id == h.rounds[i].id &&
          |g.rounds[i].categories| == |h.rounds[i].categories|)
    && (forall i, k | IsSlot(g, i, k) ::
          |CategoryAt(g, i, k).clues| == |CategoryAt(h, i, k).clues|)
  }

  /** Everything but clue values and daily-double flags agrees: titles, comments,
      air dates, clue texts, answers and the `isAsked` flags. */
  ghost predicate SameText(g: GameData, h: GameData) {
    && SameShape(g, h)
    && (forall i, k | IsSlot(g, i, k) ::
          CategoryAt(g, i, k).(clues := [], hasDailyDouble := false) ==
          CategoryAt(h, i, k).(clues := [], hasDailyDouble := false))
    && (forall i, k, j | IsCell(g, i, k, j) ::
          Cell(g, i, k, j).(value := 0, isDailyDouble := false) ==
          Cell(h, i, k, j).(value := 0, isDailyDouble := false))
  }

  ghost predicate SameValues(g: GameData, h: GameData)
    requires SameShape(g, h)
  {
    forall i, k, j | IsCell(g, i, k, j) :: Cell(g, i, k, j).value == Cell(h, i, k, j).value
  }

  ghost predicate SameFlags(g: GameData, h: GameData)
    requires SameShape(g, h)
  {
    && (forall i, k | IsSlot(g, i, k) ::
          CategoryAt(g, i, k).hasDailyDouble == CategoryAt(h, i, k).hasDailyDouble)
    && (forall i, k, j | IsCell(g, i, k, j) ::
          Cell(g, i, k, j).isDailyDouble == Cell(h, i, k, j).isDailyDouble)
  }

  lemma SameTextTrans(g: GameData, h: GameData, e: GameData)
    requires SameText(g, h) && SameText(h, e)
    ensures SameText(g, e)
  {
  }

  // ---------------------------------------------------------------------
  // Daily-double counts, accumulated from the back so that prefixes keep
  // their indices

  /** The number of categories whose `hasDailyDouble` is set. */
  function FlaggedCategories(cats: seq<Category>): nat {
    if cats == [] then 0
    else FlaggedCategories(cats[..|cats| - 1]) + (if cats[|cats| - 1].hasDailyDouble then 1 else 0)
  }

  /** The number of clues whose `isDailyDouble` is set. */
  function FlaggedClues(clues: seq<Clue>): nat {
    if clues == [] then 0
    else FlaggedClues(clues[..|clues| - 1]) + (if clues[|clues| - 1].isDailyDouble then 1 else 0)
  }

  /** The number of daily-double clues over all categories of a round. */
  function RoundDailyDoubles(cats: seq<Category>): nat {
    if cats == [] then 0
    else RoundDailyDoubles(cats[..|cats| - 1]) + FlaggedClues(cats[|cats| - 1].clues)
  }

  /** No flag of the round is set yet. */
  ghost predicate CleanRound(r: GameRound) {
    forall k :: 0 <= k < |r.categories| ==>
      !r.categories[k].hasDailyDouble &&
      forall j :: 0 <= j < |r.categories[k].clues| ==> !r.categories[k].clues[j].isDailyDouble
  }

  ghost predicate CleanGame(g: GameData) {
    forall i :: 0 <= i < |g.rounds| ==> CleanRound(g.rounds[i])
  }

  lemma {:induction false} FlaggedCategoriesUpdate(cats: seq<Category>, k: nat, c: Category)
    requires k < |cats|
    ensures FlaggedCategories(cats[k := c]) ==
            FlaggedCategories(cats) - (if cats[k].hasDailyDouble then 1 else 0) + (if c.hasDailyDouble then 1 else 0)
  {
    var n := |cats| - 1;
    if k == n {
      assert cats[k := c][..n] == cats[..n];
    } else {
      assert cats[k := c][..n] == cats[..n][k := c];
      FlaggedCategoriesUpdate(cats[..n], k, c);
    }
  }

  lemma {:induction false} FlaggedCluesUpdate(clues: seq<Clue>, j: nat, c: Clue)
    requires j < |clues|
    ensures FlaggedClues(clues[j := c]) ==
            FlaggedClues(clues) - (if clues[j].isDailyDouble then 1 else 0) + (if c.isDailyDouble then 1 else 0)
  {
    var n := |clues| - 1;
    if j == n {
      assert clues[j := c][..n] == clues[..n];
    } else {
      assert clues[j := c][..n] == clues[..n][j := c];
      FlaggedCluesUpdate(clues[..n], j, c);
    }
  }

  lemma {:induction false} FlaggedCluesNone(clues: seq<Clue>)
    requires forall j :: 0 <= j < |clues| ==> !clues[j].isDailyDouble
    ensures FlaggedClues(clues) == 0
  {
    if clues != [] {
      FlaggedCluesNone(clues[..|clues| - 1]);
    }
  }

  /** A clean round has no flagged category and no flagged clue. */
  lemma {:induction false} CleanRoundCounts(cats: seq<Category>)
    requires CleanRound(GameRound(0, cats))
    ensures FlaggedCategories(cats) == 0 && RoundDailyDoubles(cats) == 0
  {
    if cats != [] {
      var n := |cats| - 1;
      assert CleanRound(GameRound(0, cats[..n]));
      CleanRoundCounts(cats[..n]);
      FlaggedCluesNone(cats[n].clues);
    }
  }
}
