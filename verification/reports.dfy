/** The read-only views of the team store: the per-team statistics
    (get_team_stats) and the rosters (get_teams_with_members). */
module Reports {
  import opened TeamStore
  import opened Balance

  /* ------------------------------------------------------------ statistics */

  /** The GROUP BY team_number query restricted to teams lo..hi: one
      (team, count) pair per team that has members, in ascending team order. */
  function StatsUpTo(rows: seq<Registration>, lo: int, hi: int): (s: seq<(int, nat)>)
    decreases hi - lo + 1
    ensures forall e :: e in s <==> lo <= e.0 <= hi && e.1 == Count(rows, e.0) && e.1 >= 1
    ensures forall i, j :: 0 <= i < j < |s| ==> s[i].0 < s[j].0
  {
    if hi < lo then []
    else
      var c := Count(rows, hi);
      var s := StatsUpTo(rows, lo, hi - 1);
      if c >= 1 then s + [(hi, c)] else s
  }

  /** get_team_stats: (team, count) for every team with at least one member,
      ascending by team number; empty teams are left out. */
  function GetTeamStats(st: Store): (s: seq<(int, nat)>)
    requires Valid(st)
    ensures forall e :: e in s <==> 1 <= e.0 <= st.numTeams && e.1 == Count(st.rows, e.0) && e.1 >= 1
    ensures forall i, j :: 0 <= i < j < |s| ==> s[i].0 < s[j].0
  {
    StatsUpTo(st.rows, 1, st.numTeams)
  }

  /** The sum of the count column. */
  function SumStats(s: seq<(int, nat)>): nat
  {
    if |s| == 0 then 0 else SumStats(s[..|s| - 1]) + s[|s| - 1].1
  }

  lemma {:induction false} StatsUpToSum(rows: seq<Registration>, lo: int, hi: int)
    decreases hi - lo + 1
    ensures SumStats(StatsUpTo(rows, lo, hi)) == SumCounts(rows, lo, hi)
  {
    if hi >= lo {
      StatsUpToSum(rows, lo, hi - 1);
      if Count(rows, hi) >= 1 {
        SumStatsAppend(StatsUpTo(rows, lo, hi - 1), (hi, Count(rows, hi)));
      }
    }
  }

  lemma SumStatsAppend(s: seq<(int, nat)>, e: (int, nat))
    ensures SumStats(s + [e]) == SumStats(s) + e.1
  {
    assert (s + [e])[..|s|] == s;
  }

  /** The counts of get_team_stats add up to get_total_users. */
  lemma StatsSumToTotal(st: Store)
    requires Valid(st)
    ensures SumStats(GetTeamStats(st)) == GetTotalUsers(st)
  {
    StatsUpToSum(st.rows, 1, st.numTeams);
    CountsSumToTotal(st.rows, st.numTeams);
  }

  /** With three teams, three first-time registrations of distinct users
      leave the statistics at one member in each team. */
  lemma ThreeUsersThreeTeams(st0: Store, reqs: seq<Request>)
    requires Valid(st0) && st0.numTeams == 3 && |st0.rows| == 0
    requires |reqs| == 3 && DistinctUsers(reqs)
    ensures GetTeamStats(Run(st0, reqs)) == [(1, 1), (2, 1), (3, 1)]
  {
    FirstRoundFillsEveryTeam(st0, reqs);
    SingletonStats(Run(st0, reqs));
  }

  lemma SingletonStats(st: Store)
    requires Valid(st) && st.numTeams == 3
    requires forall t :: 1 <= t <= st.numTeams ==> Count(st.rows, t) == 1
    ensures GetTeamStats(st) == [(1, 1), (2, 1), (3, 1)]
  {
    var rows := st.rows;
    StatsStep(rows, 1, 1);
    StatsStep(rows, 1, 2);
    StatsStep(rows, 1, 3);
  }

  /** One unfolding of StatsUpTo for a team with members. */
  lemma StatsStep(rows: seq<Registration>, lo: int, hi: int)
    requires lo <= hi && Count(rows, hi) >= 1
    ensures StatsUpTo(rows, lo, hi) == StatsUpTo(rows, lo, hi - 1) + [(hi, Count(rows, hi))]
  {
  }

  /* --------------------------------------------------------------- rosters */

  /** The names of team t's members in registration order. */
  function Members(rows: seq<Registration>, t: int): (ms: seq<string>)
    ensures |ms| == Count(rows, t)
  {
    if |rows| == 0 then []
    else
      var x := rows[|rows| - 1];
      Members(rows[..|rows| - 1], t) + (if x.team == t then [x.fio] else [])
  }

  lemma MembersAppend(rows: seq<Registration>, x: Registration, t: int)
    ensures Members(rows + [x], t) == Members(rows, t) + (if x.team == t then [x.fio] else [])
  {
    assert (rows + [x])[..|rows|] == rows;
  }

  /** Registration order within a team: the user in row i is listed under
      their own team, at the position given by the number of earlier
      registrations to that team. */
  lemma {:induction false} MemberAt(rows: seq<Registration>, i: int)
    requires 0 <= i < |rows|
    ensures var t := rows[i].team;
      Count(rows[..i], t) < Count(rows, t)
      && Members(rows, t)[Count(rows[..i], t)] == rows[i].fio
  {
    var p := rows[..|rows| - 1];
    var x := rows[|rows| - 1];
    var t := rows[i].team;
    assert rows == p + [x];
    MembersAppend(p, x, t);
    CountAppend(p, x, t);
    if i == |rows| - 1 {
      assert rows[..i] == p;
    } else {
      assert rows[..i] == p[..i];
      assert rows[i] == p[i];
      MemberAt(p, i);
    }
  }

  /** The names column of the table. */
  function FioColumn(rows: seq<Registration>): (names: seq<string>)
    ensures |names| == |rows|
  {
    seq(|rows|, i requires 0 <= i < |rows| => rows[i].fio)
  }

  /** All names listed under teams lo..hi, with multiplicity. */
  function ListedNames(rows: seq<Registration>, lo: int, hi: int): multiset<string>
    decreases hi - lo + 1
  {
    if hi < lo then multiset{} else ListedNames(rows, lo, hi - 1) + multiset(Members(rows, hi))
  }

  lemma {:induction false} ListedNamesAppend(rows: seq<Registration>, x: Registration, lo: int, hi: int)
    decreases hi - lo + 1
    ensures ListedNames(rows + [x], lo, hi)
            == ListedNames(rows, lo, hi) + (if lo <= x.team <= hi then multiset{x.fio} else multiset{})
  {
    if hi >= lo {
      ListedNamesAppend(rows, x, lo, hi - 1);
      MembersAppend(rows, x, hi);
    }
  }

  lemma {:induction false} ListedNamesEmpty(rows: seq<Registration>, lo: int, hi: int)
    requires |rows| == 0
    ensures ListedNames(rows, lo, hi) == multiset{}
    decreases hi - lo + 1
  {
    if hi >= lo {
      ListedNamesEmpty(rows, lo, hi - 1);
    }
  }

  /** The rosters partition the users: taken over all teams, every
      registered user's name is listed exactly once and nothing else is. */
  lemma {:induction false} RostersPartitionUsers(rows: seq<Registration>, n: int)
    requires TeamsInRange(rows, n)
    ensures ListedNames(rows, 1, n) == multiset(FioColumn(rows))
  {
    if |rows| > 0 {
      var p := rows[..|rows| - 1];
      var x := rows[|rows| - 1];
      assert rows == p + [x];
      assert TeamsInRange(p, n);
      assert FioColumn(rows) == FioColumn(p) + [x.fio];
      RostersPartitionUsers(p, n);
      ListedNamesAppend(p, x, 1, n);
    } else {
      ListedNamesEmpty(rows, 1, n);
    }
  }

  /** The rows of the query ordered by team_number and then by
      registered_at, as (team_number, fio) pairs, for teams lo..hi. */
  function OrderedRows(rows: seq<Registration>, lo: int, hi: int): seq<(int, string)>
    decreases hi - lo + 1
  {
    if hi < lo then [] else OrderedRows(rows, lo, hi - 1) + Tagged(hi, Members(rows, hi))
  }

  function Tagged(t: int, names: seq<string>): (ps: seq<(int, string)>)
    ensures |ps| == |names|
  {
    seq(|names|, i requires 0 <= i < |names| => (t, names[i]))
  }

  /** The names tagged with team t in a query result, in result order. */
  function Select(ps: seq<(int, string)>, t: int): seq<string>
  {
    if |ps| == 0 then []
    else
      var p := ps[|ps| - 1];
      Select(ps[..|ps| - 1], t) + (if p.0 == t then [p.1] else [])
  }

  lemma {:induction false} SelectConcat(a: seq<(int, string)>, b: seq<(int, string)>, t: int)
    decreases |b|
    ensures Select(a + b, t) == Select(a, t) + Select(b, t)
  {
    if |b| == 0 {
      assert a + b == a;
    } else {
      var b' := b[..|b| - 1];
      assert (a + b)[..|a + b| - 1] == a + b';
      SelectConcat(a, b', t);
    }
  }

  lemma {:induction false} SelectTagged(u: int, names: seq<string>, t: int)
    decreases |names|
    ensures Select(Tagged(u, names), t) == if u == t then names else []
  {
    if |names| > 0 {
      var names' := names[..|names| - 1];
      assert Tagged(u, names)[..|names| - 1] == Tagged(u, names');
      SelectTagged(u, names', t);
    }
  }

  /** Selecting team t from the ordered query result gives that team's
      members in registration order. */
  lemma {:induction false} SelectOrderedRows(rows: seq<Registration>, lo: int, hi: int, t: int)
    decreases hi - lo + 1
    ensures Select(OrderedRows(rows, lo, hi), t) == if lo <= t <= hi then Members(rows, t) else []
  {
    if hi >= lo {
      SelectOrderedRows(rows, lo, hi - 1, t);
      SelectConcat(OrderedRows(rows, lo, hi - 1), Tagged(hi, Members(rows, hi)), t);
      SelectTagged(hi, Members(rows, hi), t);
    }
  }

  /** get_teams_with_members: walk the ordered query result and append each
      name to its team's list, creating the list on the team's first row.
      The result has a key for exactly the teams with members, and each list
      is that team's members in registration order. */
  method GetTeamsWithMembers(st: Store) returns (teams: map<int, seq<string>>)
    requires Valid(st)
    ensures forall t :: t in teams <==> 1 <= t <= st.numTeams && Count(st.rows, t) >= 1
    ensures forall t :: t in teams ==> teams[t] == Members(st.rows, t)
  {
    var q := OrderedRows(st.rows, 1, st.numTeams);
    teams := map[];
    var i := 0;
    while i < |q|
      invariant 0 <= i <= |q|
      invariant forall t :: t in teams <==> |Select(q[..i], t)| > 0
      invariant forall t :: t in teams ==> teams[t] == Select(q[..i], t)
    {
      var (team, fio) := q[i];
      if team !in teams {
        teams := teams[team := []];
      }
      teams := teams[team := teams[team] + [fio]];
      assert q[..i + 1][..i] == q[..i];
      i := i + 1;
    }
    assert q[..i] == q;
    forall t ensures Select(q, t) == if 1 <= t <= st.numTeams then Members(st.rows, t) else [] {
      SelectOrderedRows(st.rows, 1, st.numTeams, t);
    }
  }
}
