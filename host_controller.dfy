/**
 The host controller: it owns the loaded game and the team registry. Loading
 a game runs the value pass and then daily-double placement (or the fixed
 debug placement); a roster update rebuilds the registry.
 */
module HostController {
  import opened Board
  import opened ClueValues
  import opened DailyDoubles
  import opened Teams

  /** `h` is what loading `g` produces: `g` after the value pass, then after
      random placement, or after the fixed placement in debug mode. */
  ghost predicate Materialised(g: GameData, debug: bool, h: GameData) {
    exists v :: ValuesAssigned(g, v) && (if debug then DebugPlacement(v) == Ok(h) else Placed(v, h))
  }

  /** What a loaded game looks like: texts and `isAsked` flags as loaded, every
      clue worth its position's value, and, when the loaded game carried no
      flags, exactly `2^i` daily doubles in round `i` (at most one per
      category), or in debug mode the single one at the top left. */
  lemma MaterialisedProperties(g: GameData, debug: bool, h: GameData)
    requires Materialised(g, debug, h)
    ensures SameText(g, h) && PositionValues(h)
    ensures !debug ==> |g.rounds| <= 3
    ensures CleanGame(g) && !debug ==> forall i :: 0 <= i < |h.rounds| ==> ExactlyPlaced(h.rounds[i], Pow2(i))
    ensures CleanGame(g) && debug ==> DebugExact(h)
  {
    var v :| ValuesAssigned(g, v) && (if debug then DebugPlacement(v) == Ok(h) else Placed(v, h));
    if debug {
      SameTextTrans(g, v, h);
      PositionValuesKept(v, h);
      if CleanGame(g) {
        CleanKeptByValues(g, v);
        CleanDebugPlacement(v);
      }
    } else {
      PlacedOnlyRaisesFlags(v, h);
      SameTextTrans(g, v, h);
      PositionValuesKept(v, h);
      PlacedAtMostThreeRounds(v, h);
      if CleanGame(g) {
        CleanKeptByValues(g, v);
        CleanGamePlaced(v, h);
      }
    }
  }

  /** The errors loading can report: in debug mode the first missing one of
      round 0, its category 0 and that category's clue 0; otherwise a
      placement error of the loaded game. */
  ghost predicate LoadFailure(g: GameData, debug: bool, e: LoadError) {
    if debug then
      e == (if |g.rounds| == 0 then MissingRound(0)
            else if |g.rounds[0].categories| == 0 then MissingCategory(0, 0)
            else MissingClue(0, 0, 0))
    else PlacementError(g, e)
  }

  /** The body of `onGameDataLoaded` up to storing the game: the value pass,
      then placement, with `draws` standing for the successive results of
      the random source and `debug` for the fixed-placement debug flag. */
  method BuildGame(g: GameData, draws: seq<real>, debug: bool) returns (res: Result<GameData>)
    requires ValidDraws(draws)
    ensures res.Ok? ==> Materialised(g, debug, res.value)
    ensures res.Err? ==> LoadFailure(g, debug, res.error)
    ensures debug ==> (res.Ok? <==> |g.rounds| > 0 && |g.rounds[0].categories| > 0 && |g.rounds[0].categories[0].clues| > 0)
  {
    var valued := AssignValues(g);
    if !debug {
      res := PlaceDailyDoubles(valued, draws);
      if res.Err? {
        PlacementErrorShape(g, valued, res.error);
      }
    } else {
      res := DebugPlacement(valued);
      assert IsSlot(g, 0, 0) ==> IsSlot(valued, 0, 0);
    }
  }

  class JeffpardyHostController {
    var teams: map<string, Team>
    var teamCount: nat
    var gameData: Option<GameData>

    /** `teamCount` counts the teams, and every team lists at least one player,
        all of them with that team name. */
    ghost predicate Valid()
      reads this
    {
      && teamCount == |teams.Keys|
      && forall t :: t in teams ==>
           |teams[t].players| > 0 &&
           forall k :: 0 <= k < |teams[t].players| ==> teams[t].players[k].team == t
    }

    constructor ()
      ensures Valid()
      ensures teams == map[] && teamCount == 0 && gameData == None
    {
      teams := map[];
      teamCount := 0;
      gameData := None;
    }

    /** Builds the rounds of `data` and, on success, makes it the current game. */
    method OnGameDataLoaded(data: GameData, draws: seq<real>, debug: bool) returns (res: Result<GameData>)
      requires ValidDraws(draws)
      modifies this
      ensures teams == old(teams) && teamCount == old(teamCount)
      ensures res.Ok? ==> Materialised(data, debug, res.value) && gameData == Some(res.value)
      ensures res.Err? ==> LoadFailure(data, debug, res.error) && gameData == old(gameData)
      ensures debug ==> (res.Ok? <==> |data.rounds| > 0 && |data.rounds[0].categories| > 0 &&
                                      |data.rounds[0].categories[0].clues| > 0)
    {
      res := BuildGame(data, draws, debug);
      if res.Ok? {
        gameData := Some(res.value);
      }
    }

    /** Rebuilds the registry from the roster: one team per distinct team
        name, holding its players in roster order, with the previous score of
        that name or 0; names absent from the roster are dropped. */
    method UpdateUsers(users: seq<Player>)
      modifies this
      ensures Valid() && gameData == old(gameData)
      ensures teams == NextTeams(old(teams), users)
      ensures teams.Keys == TeamNames(users)
      ensures forall t :: t in teams ==>
                teams[t].players == Members(users, t) && teams[t].score == CarriedScore(old(teams), t)
      ensures teamCount == |teams.Keys|
    {
      var grouped := GroupByTeam(users);
      var next, count := CarryScores(teams, grouped);
      teams := next;
      teamCount := count;
      forall t | t in teams ensures |teams[t].players| > 0 {
        MembersEmptyIff(users, t);
      }
    }
  }
}
