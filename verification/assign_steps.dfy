/** assign_random_team step by step, as the handler computes it: seed a
    count for every team with 0, overwrite the seeds from the GROUP BY
    query, take the minimum of the counts, collect the teams holding it in
    team order, and pick one of them. */
module AssignSteps {
  import opened TeamStore
  import opened Reports

  /** {i: 0 for i in range(1, n + 1)}: every team 1..n seeded with 0. */
  method ZeroCounts(n: int) returns (counts: map<int, nat>)
    ensures forall t :: t in counts <==> 1 <= t <= n
    ensures forall t :: t in counts ==> counts[t] == 0
  {
    counts := map[];
    var i := 1;
    while i <= n
      invariant i <= n + 1 || (n < 1 && i == 1)
      invariant forall t :: t in counts <==> 1 <= t < i
      invariant forall t :: t in counts ==> counts[t] == 0
    {
      counts := counts[i := 0];
      i := i + 1;
    }
  }

  /** team_counts: the zero seeds overwritten with the count of each team
      the GROUP BY query reports. The result holds the true count of every
      team 1..n, empty teams included. */
  method SeedCounts(st: Store) returns (counts: map<int, nat>)
    requires Valid(st)
    ensures forall t :: t in counts <==> 1 <= t <= st.numTeams
    ensures forall t :: 1 <= t <= st.numTeams ==> counts[t] == Count(st.rows, t)
  {
    var n := st.numTeams;
    var rows := st.rows;
    counts := ZeroCounts(n);
    var stats := GetTeamStats(st);
    var k := 0;
    while k < |stats|
      invariant 0 <= k <= |stats|
      invariant forall t :: t in counts <==> 1 <= t <= n
      invariant forall t :: 1 <= t <= n ==>
        counts[t] == if (t, Count(rows, t)) in stats[..k] then Count(rows, t) else 0
    {
      var e := stats[k];
      assert e in stats;
      SeedStep(rows, n, stats, k, counts);
      counts := counts[e.0 := e.1];
      k := k + 1;
    }
    assert stats[..k] == stats;
  }

  /** Overwriting the seed of the k-th reported team extends the invariant of
      SeedCounts from stats[..k] to stats[..k + 1]. */
  lemma SeedStep(rows: seq<Registration>, n: int, stats: seq<(int, nat)>, k: int, counts: map<int, nat>)
    requires 0 <= k < |stats| && stats[k].1 == Count(rows, stats[k].0)
    requires forall t :: 1 <= t <= n ==> t in counts
    requires forall t :: 1 <= t <= n ==>
      counts[t] == if (t, Count(rows, t)) in stats[..k] then Count(rows, t) else 0
    ensures forall t :: 1 <= t <= n ==>
      counts[stats[k].0 := stats[k].1][t]
        == if (t, Count(rows, t)) in stats[..k + 1] then Count(rows, t) else 0
  {
    assert stats[..k + 1] == stats[..k] + [stats[k]];
  }

  /** min(team_counts.values()) over the teams 1..n. */
  method MinOfCounts(counts: map<int, nat>, n: int) returns (m: nat)
    requires n >= 1 && forall t :: 1 <= t <= n ==> t in counts
    ensures forall u :: 1 <= u <= n ==> m <= counts[u]
    ensures exists u :: 1 <= u <= n && m == counts[u]
  {
    m := counts[1];
    var t := 2;
    while t <= n
      invariant 2 <= t <= n + 1
      invariant forall u :: 1 <= u < t ==> m <= counts[u]
      invariant exists u :: 1 <= u < t && m == counts[u]
    {
      if counts[t] < m {
        m := counts[t];
      }
      t := t + 1;
    }
  }

  /** available_teams: the teams whose count equals m, in key order 1..n. */
  method TeamsWithCount(st: Store, counts: map<int, nat>, m: nat) returns (avail: seq<int>)
    requires forall t :: 1 <= t <= st.numTeams ==> t in counts && counts[t] == Count(st.rows, t)
    ensures avail == TeamsHolding(st.rows, 1, st.numTeams, m)
  {
    var n := st.numTeams;
    avail := [];
    var t := 1;
    while t <= n
      invariant 1 <= t <= n + 1 || (n < 1 && t == 1)
      invariant avail + TeamsHolding(st.rows, t, n, m) == TeamsHolding(st.rows, 1, n, m)
    {
      if counts[t] == m {
        avail := avail + [t];
      }
      t := t + 1;
    }
    assert TeamsHolding(st.rows, t, n, m) == [];
  }

  /** The computed team and table are those of the balanced-assignment rule
      Assign, so everything proved about Assign holds of this algorithm. */
  method AssignRandomTeam(st: Store, uid: int, fio: string, draw: nat) returns (r: Assignment)
    requires Valid(st)
    ensures r == Assign(st, uid, fio, draw)
    ensures GetUserInfo(st, uid).None? ==> IsSmallest(st, r.team)
  {
    var existing := GetUserInfo(st, uid);
    if existing.Some? {
      return Assignment(st, existing.value.team);
    }
    var n := st.numTeams;
    var counts := SeedCounts(st);
    var m := MinOfCounts(counts, n);
    assert m == MinCount(st.rows, n) by {
      var w :| 1 <= w <= n && m == counts[w];
      var v :| 1 <= v <= n && MinCount(st.rows, n) == Count(st.rows, v);
      assert m <= counts[v];
    }
    var avail := TeamsWithCount(st, counts, m);
    assert avail == Available(st);
    var team := avail[draw % |avail|];
    r := Assignment(Store(n, st.rows + [Registration(uid, fio, team)]), team);
  }
}
