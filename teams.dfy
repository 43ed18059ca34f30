/**
 The team registry: the roster of connected players grouped by team name,
 with each team's score carried over from the previous registry.
 */
module Teams {

  /** A connected player; only `team` is read by the registry. */
  datatype Player = Player(name: string, team: string)

  /** A team: its players in roster order and its score. */
  datatype Team = Team(players: seq<Player>, score: int)

  /** The distinct team names of a roster. */
  ghost function TeamNames(users: seq<Player>): set<string> {
    set i | 0 <= i < |users| :: users[i].team
  }

  /** The players of `users` whose team is `team`, in roster order. */
  function Members(users: seq<Player>, team: string): (m: seq<Player>)
    ensures |m| <= |users|
    ensures forall k :: 0 <= k < |m| ==> m[k].team == team
  {
    if users == [] then []
    else
      var last := users[|users| - 1];
      Members(users[..|users| - 1], team) + (if last.team == team then [last] else [])
  }

  /** A player is listed under a team exactly when it is on the roster with that team name. */
  lemma {:induction false} MembersIff(users: seq<Player>, team: string, p: Player)
    ensures p in Members(users, team) <==> p in users && p.team == team
  {
    if users != [] {
      var n := |users| - 1;
      MembersIff(users[..n], team, p);
      assert users == users[..n] + [users[n]];
    }
  }

  /** A team has players exactly when its name occurs on the roster. */
  lemma {:induction false} MembersEmptyIff(users: seq<Player>, team: string)
    ensures Members(users, team) == [] <==> team !in TeamNames(users)
  {
    if users != [] {
      var n := |users| - 1;
      MembersEmptyIff(users[..n], team);
      TeamNamesSnoc(users, n);
    }
  }

  lemma TeamNamesSnoc(users: seq<Player>, n: nat)
    requires n < |users|
    ensures TeamNames(users[..n + 1]) == TeamNames(users[..n]) + {users[n].team}
  {
  }

  /** The score a team starts with: its previous score if the name was
      registered before, and 0 otherwise. */
  function CarriedScore(previous: map<string, Team>, team: string): int {
    if team in previous then previous[team].score else 0
  }

  /** The registry after a roster update. */
  ghost function NextTeams(previous: map<string, Team>, users: seq<Player>): map<string, Team> {
    map t | t in TeamNames(users) :: Team(Members(users, t), CarriedScore(previous, t))
  }

  /** Groups the roster by team name, appending each player to its team's
      list (the `reduce` over the roster). */
  method GroupByTeam(users: seq<Player>) returns (grouped: map<string, seq<Player>>)
    ensures grouped.Keys == TeamNames(users)
    ensures forall t :: t in grouped ==> grouped[t] == Members(users, t)
  {
    grouped := map[];
    if |users| > 0 {
      for i := 0 to |users|
        invariant grouped.Keys == TeamNames(users[..i])
        invariant forall t :: t in grouped ==> grouped[t] == Members(users[..i], t)
      {
        var k := users[i].team;
        if k !in grouped {
          grouped := grouped[k := []];
        }
        grouped := grouped[k := grouped[k] + [users[i]]];
        TeamNamesSnoc(users, i);
        assert users[..i + 1][..i] == users[..i];
        forall t | t in grouped ensures grouped[t] == Members(users[..i + 1], t) {
          if t != k {
            assert t in TeamNames(users[..i]);
          } else if k !in TeamNames(users[..i]) {
            MembersEmptyIff(users[..i], k);
          }
        }
      }
      assert users[..|users|] == users;
    }
  }

  /** Gives every group its carried-over score and counts the groups (the
      `for ... in` loop over the new teams). */
  method CarryScores(previous: map<string, Team>, grouped: map<string, seq<Player>>)
    returns (teams: map<string, Team>, count: nat)
    ensures teams.Keys == grouped.Keys
    ensures forall t :: t in teams ==> teams[t] == Team(grouped[t], CarriedScore(previous, t))
    ensures count == |grouped.Keys|
  {
    teams := map[];
    count := 0;
    var remaining := grouped.Keys;
    while remaining != {}
      invariant remaining <= grouped.Keys
      invariant teams.Keys == grouped.Keys - remaining
      invariant forall t :: t in teams ==> teams[t] == Team(grouped[t], CarriedScore(previous, t))
      invariant count == |teams.Keys|
      decreases remaining
    {
      var key :| key in remaining;
      // Copy the score over from the previous registry.
      var score := if key in previous then previous[key].score else 0;
      teams := teams[key := Team(grouped[key], score)];
      count := count + 1;
      remaining := remaining - {key};
    }
  }

  /** The registry after an update holds exactly the roster's team names, each
      with its players in roster order and its carried-over score. */
  lemma NextTeamsMeaning(previous: map<string, Team>, users: seq<Player>, t: string)
    ensures t in NextTeams(previous, users) <==> exists i :: 0 <= i < |users| && users[i].team == t
    ensures t in NextTeams(previous, users) ==>
              NextTeams(previous, users)[t].players == Members(users, t) &&
              |NextTeams(previous, users)[t].players| > 0 &&
              NextTeams(previous, users)[t].score == (if t in previous then previous[t].score else 0)
  {
  }

  /** An empty roster leaves no teams. */
  lemma EmptyRosterNoTeams(previous: map<string, Team>)
    ensures NextTeams(previous, []) == map[]
  {
  }

  /** A team whose name is missing from one roster loses its score: if the
      name comes back in a later roster, the team starts again from 0. */
  lemma DroppedTeamRestartsAtZero(previous: map<string, Team>, first: seq<Player>, second: seq<Player>, t: string)
    requires t !in TeamNames(first) && t in TeamNames(second)
    ensures t in NextTeams(NextTeams(previous, first), second)
    ensures NextTeams(NextTeams(previous, first), second)[t].score == 0
  {
  }

  /** A team that stays on the roster keeps its score, whatever happens to its
      player list. */
  lemma KeptTeamKeepsScore(previous: map<string, Team>, users: seq<Player>, t: string)
    requires t in previous && t in TeamNames(users)
    ensures NextTeams(previous, users)[t].score == previous[t].score
  {
  }
}
