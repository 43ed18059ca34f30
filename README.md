# Jeffpardy host controller: round building and team registry

This project models the two pieces of logic in the host controller of the
Jeffpardy trivia game (`JeffpardyHostController`) and proves properties of them.

- **Round materialisation** (`onGameDataLoaded`). This runs over the game tree: rounds, then
  categories, then clues. It first gives every clue its point value,
  `(row + 1) * 100 * (round.id + 1)`. It then places the daily doubles.
  - Round number `i` gets `2^i` daily doubles.
  - For each daily double, a category is drawn from `[0, 6)` until one without a daily double
    comes up.
  - Then a row is drawn from `[0, 11)` and folded into `[0, 6)` the way the code folds it.
    Rows are re-drawn until a clue that is not yet a daily double comes up.
  - With the debug flag set, only round 0 / category 0 / clue 0 is flagged.
- **Team registry** (`updateUsers`). The roster of connected players is grouped by team name,
  in roster order. Each team keeps the score it had under the same name in the previous
  registry, or starts at 0. Names missing from the new roster are dropped. `teamCount` is the
  number of teams.

Files, one module each:

- `board.dfy` (`Board`): the game tree's records, how to address them, and daily-double counts.
- `clue_values.dfy` (`ClueValues`): the value pass.
- `daily_doubles.dfy` (`DailyDoubles`): the rejection loops, placement in a round and in a game,
  and the debug placement.
- `teams.dfy` (`Teams`): roster grouping and score carry-over.
- `host_controller.dfy` (`HostController`): the whole load pipeline, and the class
  `JeffpardyHostController` with its `teams`, `teamCount` and `gameData` fields.

How the model stands in for what it cannot see:

- `Math.random()` becomes a sequence `draws` of reals in `[0, 1)`, read in order.
- The debug flag `DailyDouble00` becomes a `debug: bool` parameter.
- The code loops forever when every candidate is already taken. In the model such a loop
  uses up its draws, and placement reports `DrawsExhausted`.
- The code throws a `TypeError` when a drawn index is past the end of `categories` or `clues`.
  The model reports these as `MissingCategory` and `MissingClue`. A drawn index is always in
  `[0, 6)`, so this can only happen in a round with fewer than six categories, or in a
  category with fewer than six clues (`PlacementError`). On a board with enough of both,
  placement can only fail by running out of draws (`FullBoardOnlyExhausts`).
- Debug mode throws when there is no round 0, when that round has no category 0, or when that
  category has no clue 0. The model reports these as `MissingRound(0)`,
  `MissingCategory(0, 0)` and `MissingClue(0, 0, 0)`.

So the model needs no precondition on the number of rounds, categories or clues. It proves
three things about these limits:
- A successful placement gives every round at most 6 daily doubles, and no more than it has
  categories.
- Placement can only finish for games of at most three rounds (`PlacedAtMostThreeRounds`).
- The exact `2^i` count holds whenever the loaded game had no flag set (`CleanGamePlaced`).

In these places the code does something other than its comments, or the usual account of the
game, would suggest. The model follows the code:

- The value uses the round's `id` field, not its position in the game.
- The comment in the source says the bottom three rows get triple weight. The fold in the code
  maps three draws each to rows 3 and 4, but only two (5 and 8) to row 5. `RowWeights` states
  the weights the code actually gives: 1, 1, 1, 3, 3, 2.
- No configuration error is raised before sampling. An impossible placement never ends in the
  source and runs out of draws here.
- `hasDailyDouble` is set by the code itself; it is not derived from the clues. It is proved to
  agree with "exactly one clue of the category is a daily double" when the loaded game had no
  flags set (`CleanRoundPlaced`). When flags are already set, the two can disagree.
- A team dropped from the roster loses its score for good, because `this.teams` is replaced
  wholesale. If the name comes back later, it starts from 0 (`DroppedTeamRestartsAtZero`).

## Model

| member | source | states |
|---|---|---|
| `ClueValues.AssignValues` | src/web/JeffpardyHostController.tsx:90-97 | every clue at row `j` of a round with id `r` gets value `(j+1)*100*(r+1)`; titles, texts, answers, `isAsked` and all daily-double flags are unchanged |
| `ClueValues.ValuesAssignedUnique` | src/web/JeffpardyHostController.tsx:91-97 | the value pass determines its result completely: two results of it on the same game are equal |
| `ClueValues.ValuesAssignedIdempotent` | src/web/JeffpardyHostController.tsx:91-97 | running the value pass on its own output changes nothing |
| `ClueValues.ValuesGrowDownColumn` | src/web/JeffpardyHostController.tsx:93-94 | in a round with non-negative id, each clue is worth strictly more than every clue above it |
| `ClueValues.CleanKeptByValues` | src/web/JeffpardyHostController.tsx:91-97 | the value pass sets no daily-double flag |
| `DailyDoubles.CategorySlot` | src/web/JeffpardyHostController.tsx:114 | `floor(draw*6)` of a draw in `[0,1)` lies in `[0,6)` |
| `DailyDoubles.FoldRow` | src/web/JeffpardyHostController.tsx:124-126 | the fold sends every draw in `[0,11)` to a row in `[0,6)` |
| `DailyDoubles.ClueSlot` | src/web/JeffpardyHostController.tsx:124-126 | the folded `floor(draw*11)` of a draw in `[0,1)` lies in `[0,6)` |
| `DailyDoubles.FoldRowTable` | src/web/JeffpardyHostController.tsx:124-126 | draws 0-5 keep their row, 6-8 go to rows 3-5, and 9-10 go to rows 3-4 |
| `DailyDoubles.RowWeights` | src/web/JeffpardyHostController.tsx:99-127 | of the 11 draws, rows 0-2 get one each, rows 3 and 4 three each, and row 5 two |
| `DailyDoubles.Redraw` | src/web/JeffpardyHostController.tsx:113-127 | a rejection loop takes the first draw that picks a free candidate and reports where it stopped; it fails if a draw picks an index past the list; otherwise every draw it read picked a taken candidate |
| `DailyDoubles.PlaceInRound` | src/web/JeffpardyHostController.tsx:109-129 | on success, exactly `count` categories among the first six go from no daily double to one, each gaining exactly one new daily-double clue in its first six rows; all other categories, and all other fields, are unchanged; on failure, the error is an exhausted draw sequence, or names this round and a drawn category index past the end of a round with fewer than six categories, or a drawn row past the end of a category (among the first six) with fewer than six clues |
| `DailyDoubles.PlaceDailyDoubles` | src/web/JeffpardyHostController.tsx:104-130 | on success, round number `i` is its input round with `2^i` categories marked in this way; on failure, the error is one `PlaceInRound` allows for some round of the game, never a missing round |
| `DailyDoubles.FullBoardOnlyExhausts` | src/web/JeffpardyHostController.tsx:113-127 | when every round has six categories and each of those has six clues, the only error placement can report is that the draws ran out |
| `DailyDoubles.PlacementErrorShape` | src/web/JeffpardyHostController.tsx:113-127 | which placement errors are possible depends only on the shape of the game, so the value pass does not change it |
| `DailyDoubles.DebugPlacement` | src/web/JeffpardyHostController.tsx:131-134 | fails exactly when round 0, its category 0 or that category's clue 0 is missing, naming which; otherwise it raises only that category's and that clue's flags, and nothing else changes |
| `DailyDoubles.MarkedOrSameCounts` | src/web/JeffpardyHostController.tsx:112-128 | placements add as many daily-double clues as daily-double categories, at most one per category and at most six in a round |
| `DailyDoubles.RoundPlacedBound` | src/web/JeffpardyHostController.tsx:107-116 | a round can receive at most 6 daily doubles, and no more than it has categories |
| `DailyDoubles.PlacedAtMostThreeRounds` | src/web/JeffpardyHostController.tsx:105-116 | a placement that finishes has at most three rounds, since round 3 would need 8 of the 6 categories that can be drawn |
| `DailyDoubles.CleanRoundPlaced` | src/web/JeffpardyHostController.tsx:109-129 | starting from no flags, a round that received `n` placements has exactly `n` flagged categories and `n` flagged clues, at most one per category, and a category is flagged iff exactly one of its clues is |
| `DailyDoubles.CleanGamePlaced` | src/web/JeffpardyHostController.tsx:105-129 | starting from no flags, round `i` ends with exactly `2^i` daily doubles, in distinct categories |
| `DailyDoubles.PlacedOnlyRaisesFlags` | src/web/JeffpardyHostController.tsx:113-128 | placement leaves titles, comments, air dates, texts, answers, values and `isAsked` unchanged, and never clears a flag |
| `DailyDoubles.CleanDebugPlacement` | src/web/JeffpardyHostController.tsx:131-134 | starting from no flags, debug mode flags only round 0 / category 0 / clue 0 and that one category; no other round gets a daily double |
| `Teams.Members` | src/web/JeffpardyHostController.tsx:152-160 | a team's list holds only players with that team name |
| `Teams.MembersIff` | src/web/JeffpardyHostController.tsx:152-160 | a player is in a team's list iff it is on the roster with that team name |
| `Teams.MembersEmptyIff` | src/web/JeffpardyHostController.tsx:152-160 | a team's list is empty iff its name is not on the roster |
| `Teams.GroupByTeam` | src/web/JeffpardyHostController.tsx:149-161 | the groups are keyed by exactly the distinct team names of the roster; each group holds that team's players in roster order |
| `Teams.CarryScores` | src/web/JeffpardyHostController.tsx:163-177 | every group gets the previous score of its name, or 0 if the name is new; the count equals the number of groups |
| `Teams.NextTeamsMeaning` | src/web/JeffpardyHostController.tsx:149-180 | a name is a team after the update iff some roster player has it; that team is non-empty, lists its players in roster order, and carries the previous score or 0 |
| `Teams.EmptyRosterNoTeams` | src/web/JeffpardyHostController.tsx:149-161 | an empty roster gives no teams |
| `Teams.DroppedTeamRestartsAtZero` | src/web/JeffpardyHostController.tsx:165-179 | a name missing from one roster starts again at score 0 when it reappears in the next |
| `Teams.KeptTeamKeepsScore` | src/web/JeffpardyHostController.tsx:169-171 | a team name that stays on the roster keeps its score, whatever its players are |
| `HostController.MaterialisedProperties` | src/web/JeffpardyHostController.tsx:90-134 | a loaded game keeps its texts and `isAsked` flags, and every clue has its position's value; non-debug loading succeeds only for at most three rounds; from unflagged input, round `i` has exactly `2^i` daily doubles (non-debug), or only the top-left clue of round 0 is one (debug) |
| `HostController.BuildGame` | src/web/JeffpardyHostController.tsx:90-134 | on success the result is the value pass followed by random or debug placement; in debug mode it succeeds iff round 0 / category 0 / clue 0 exists, and otherwise names the first missing one; outside debug mode it fails only with a placement error of the loaded game |
| `HostController.JeffpardyHostController.constructor` | src/web/JeffpardyHostController.tsx:53-55 | the controller starts with no teams and no game |
| `HostController.JeffpardyHostController.OnGameDataLoaded` | src/web/JeffpardyHostController.tsx:87-139 | on success the built game becomes the current game; on failure the error is one `BuildGame` allows and the current game is unchanged; the teams are never touched |
| `HostController.JeffpardyHostController.UpdateUsers` | src/web/JeffpardyHostController.tsx:146-182 | replaces the registry: keys are exactly the roster's team names, players are in roster order, scores are carried over by name or start at 0, dropped names disappear, `teamCount` equals the number of teams, and the game is untouched |

## Left out

- `loadGameData`: fetching the game over HTTP, or taking it from the debug data source, is I/O. The model starts from the fetched game.
- `Logger.debug` calls are logging only.
- The `hostPage.onGameDataLoaded` and `hostPage.onUpdateTeams` notifications are left out. They are calls into the presentation layer.
- `setCustomGameData` is left out: it is a plain assignment followed by such a notification.
- The methods from `resetBuzzer` to `buzzerTimeout`, and the component setters, are left out. They only forward to the real-time client and to React components. The controller itself holds no buzzer state machine, scoring ledger or view-mode logic, so the model has none either.
- `ScoreboardEntry.tsx` and `JeffpardyCategory.tsx` are render code, and `SeasonManifest.cs` is a data shape. None of them is part of this model.
- The game tree is modelled as values. In the source, the caller's object is changed in place. When the code throws part-way through placement, that object is left half-updated. The model instead returns an error and leaves the controller's game unchanged.
- JavaScript numbers become unbounded integers, so values stay exact where doubles would lose precision. A round `id` that is not an integer is not modelled.
- Team names are keys of a plain JavaScript object. The registry is modelled as a map, so three things are left out: the names the object inherits from its prototype (such as `toString`), the order in which `for ... in` visits the keys, and the `hasOwnProperty` check.
- `IPlayer` is not part of this model. A player is modelled as a name and a team name, and only the team name is read.
- `ITeam.name` is never set by the code, and the model's team record also has no name. It holds a player list and a score.
- `teamCount` is undefined in the source until the first roster update. The model starts it at 0.
- The constructor's `gameCode` argument and the real-time client it creates are left out. The client is a network connection.
- Scores are changed outside the controller: the team objects handed to `hostPage.onUpdateTeams` are updated by the scoreboard. The model has no operation that changes a score. So a controller made by its constructor carries over only zeros. `CarryScores` and `NextTeams` take any previous registry, scores included.
- `DailyDoubles.PlaceInRound`: states which placements can result, not which one a given draw sequence selects. The choice each draw makes is stated one loop at a time by `DailyDoubles.Redraw`.
- `DailyDoubles.PlaceDailyDoubles`: the same as `PlaceInRound`, one round after another. The model proves no property about termination in probability, nor that some draw sequence lets placement succeed.
