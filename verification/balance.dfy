/** What repeated assignment does to the table as a whole: the team counts
    always add up to the number of users, and a table built only by
    assign_random_team is balanced (no team is more than one member larger
    than any other). */
module Balance {
  import opened TeamStore

  /** The sum of the counts of teams lo..hi. */
  function SumCounts(rows: seq<Registration>, lo: int, hi: int): nat
    decreases hi - lo + 1
  {
    if hi < lo then 0 else SumCounts(rows, lo, hi - 1) + Count(rows, hi)
  }

  lemma {:induction false} SumCountsAppend(rows: seq<Registration>, x: Registration, lo: int, hi: int)
    decreases hi - lo + 1
    ensures SumCounts(rows + [x], lo, hi)
            == SumCounts(rows, lo, hi) + (if lo <= x.team <= hi then 1 else 0)
  {
    if hi >= lo {
      SumCountsAppend(rows, x, lo, hi - 1);
      CountAppend(rows, x, hi);
    }
  }

  /** When every team number is in 1..n, the counts of teams 1..n add up to
      the number of rows: every user is counted in exactly one team. */
  lemma {:induction false} CountsSumToTotal(rows: seq<Registration>, n: int)
    requires TeamsInRange(rows, n)
    ensures SumCounts(rows, 1, n) == |rows|
  {
    if |rows| > 0 {
      var p := rows[..|rows| - 1];
      var x := rows[|rows| - 1];
      assert rows == p + [x];
      assert TeamsInRange(p, n);
      CountsSumToTotal(p, n);
      SumCountsAppend(p, x, 1, n);
    } else {
      SumCountsEmpty(rows, 1, n);
    }
  }

  lemma {:induction false} SumCountsEmpty(rows: seq<Registration>, lo: int, hi: int)
    requires |rows| == 0
    ensures SumCounts(rows, lo, hi) == 0
    decreases hi - lo + 1
  {
    if hi >= lo {
      SumCountsEmpty(rows, lo, hi - 1);
    }
  }

  /** A registration attempt: the user, the name they confirmed, and the
      outcome of the random pick. */
  datatype Request = Request(userId: int, fio: string, draw: nat)

  /** The table after the requests are handled one after another. */
  function Run(st: Store, reqs: seq<Request>): (r: Store)
    requires Valid(st)
    ensures Valid(r) && r.numTeams == st.numTeams
    decreases |reqs|
  {
    if |reqs| == 0 then st
    else Run(Assign(st, reqs[0].userId, reqs[0].fio, reqs[0].draw).store, reqs[1..])
  }

  /** Assignment keeps a balanced table balanced, whatever the requests. */
  lemma {:induction false} RunPreservesBalance(st: Store, reqs: seq<Request>)
    requires Valid(st) && Balanced(st)
    ensures Balanced(Run(st, reqs))
    decreases |reqs|
  {
    if |reqs| > 0 {
      AssignPreservesBalance(st, reqs[0].userId, reqs[0].fio, reqs[0].draw);
      RunPreservesBalance(Assign(st, reqs[0].userId, reqs[0].fio, reqs[0].draw).store, reqs[1..]);
    }
  }

  /** Every table the bot builds from an empty one is valid and balanced. */
  lemma ReachableIsBalanced(n: int, reqs: seq<Request>)
    requires n >= 1
    ensures Valid(Run(NewStore(n), reqs)) && Balanced(Run(NewStore(n), reqs))
  {
    RunPreservesBalance(NewStore(n), reqs);
  }

  /** The bot's own table of DefaultTeamCount (12) teams stays valid and
      balanced whatever registrations arrive. */
  lemma DefaultTableIsBalanced(reqs: seq<Request>)
    ensures Valid(Run(NewStore(DefaultTeamCount), reqs))
    ensures Balanced(Run(NewStore(DefaultTeamCount), reqs))
    ensures Run(NewStore(DefaultTeamCount), reqs).numTeams == 12
  {
    ReachableIsBalanced(DefaultTeamCount, reqs);
  }

  predicate DistinctUsers(reqs: seq<Request>)
  {
    forall i, j :: 0 <= i < j < |reqs| ==> reqs[i].userId != reqs[j].userId
  }

  predicate AllNew(st: Store, reqs: seq<Request>)
  {
    forall i :: 0 <= i < |reqs| ==> GetUserInfo(st, reqs[i].userId).None?
  }

  /** Requests from distinct, not yet registered users each add one row. */
  lemma RunTotal(st: Store, reqs: seq<Request>)
    requires Valid(st) && DistinctUsers(reqs) && AllNew(st, reqs)
    ensures GetTotalUsers(Run(st, reqs)) == GetTotalUsers(st) + |reqs|
  {
    RunAddsRows(st, reqs);
  }

  lemma {:induction false} RunAddsRows(st: Store, reqs: seq<Request>)
    requires Valid(st) && DistinctUsers(reqs) && AllNew(st, reqs)
    ensures |Run(st, reqs).rows| == |st.rows| + |reqs|
    decreases |reqs|
  {
    if |reqs| > 0 {
      var q := reqs[0];
      var st' := Assign(st, q.userId, q.fio, q.draw).store;
      assert st'.rows == st.rows + [Registration(q.userId, q.fio, Assign(st, q.userId, q.fio, q.draw).team)];
      var rest := reqs[1..];
      assert AllNew(st', rest) by {
        forall i | 0 <= i < |rest| ensures GetUserInfo(st', rest[i].userId).None? {
          assert rest[i] == reqs[i + 1];
          FindAppend(st.rows, Registration(q.userId, q.fio, Assign(st, q.userId, q.fio, q.draw).team), rest[i].userId);
        }
      }
      RunAddsRows(st', rest);
    }
  }

  lemma {:induction false} SumAtLeastOnes(rows: seq<Registration>, lo: int, hi: int, t0: int)
    requires lo <= t0 <= hi
    requires forall t :: lo <= t <= hi ==> Count(rows, t) >= 1
    requires Count(rows, t0) >= 2
    ensures SumCounts(rows, lo, hi) >= hi - lo + 2
    decreases hi - lo
  {
    if t0 < hi {
      SumAtLeastOnes(rows, lo, hi - 1, t0);
    } else {
      SumAtLeast(rows, lo, hi - 1);
    }
  }

  lemma {:induction false} SumAtLeast(rows: seq<Registration>, lo: int, hi: int)
    requires forall t :: lo <= t <= hi ==> Count(rows, t) >= 1
    ensures SumCounts(rows, lo, hi) >= hi - lo + 1
    decreases hi - lo + 1
  {
    if hi >= lo {
      SumAtLeast(rows, lo, hi - 1);
    }
  }

  lemma {:induction false} SumAtMost(rows: seq<Registration>, lo: int, hi: int)
    requires lo <= hi + 1
    requires forall t :: lo <= t <= hi ==> Count(rows, t) <= 1
    ensures SumCounts(rows, lo, hi) <= hi - lo + 1
    decreases hi - lo + 1
  {
    if hi >= lo {
      SumAtMost(rows, lo, hi - 1);
    }
  }

  lemma {:induction false} SumAtMostWithEmpty(rows: seq<Registration>, lo: int, hi: int, t0: int)
    requires lo <= t0 <= hi
    requires forall t :: lo <= t <= hi ==> Count(rows, t) <= 1
    requires Count(rows, t0) == 0
    ensures SumCounts(rows, lo, hi) <= hi - lo
    decreases hi - lo
  {
    if t0 < hi {
      SumAtMostWithEmpty(rows, lo, hi - 1, t0);
    } else {
      SumAtMost(rows, lo, hi - 1);
    }
  }

  /** A balanced table with exactly as many users as teams has one user in
      every team. */
  lemma OnePerTeam(st: Store)
    requires Valid(st) && Balanced(st) && |st.rows| == st.numTeams
    ensures forall t :: 1 <= t <= st.numTeams ==> Count(st.rows, t) == 1
  {
    var n := st.numTeams;
    CountsSumToTotal(st.rows, n);
    var m := MinCount(st.rows, n);
    var w :| 1 <= w <= n && m == Count(st.rows, w);
    if m == 0 {
      assert forall t :: 1 <= t <= n ==> Count(st.rows, t) <= 1 by {
        forall t | 1 <= t <= n ensures Count(st.rows, t) <= 1 {
          assert Count(st.rows, t) <= Count(st.rows, w) + 1;
        }
      }
      SumAtMostWithEmpty(st.rows, 1, n, w);
    } else {
      forall t | 1 <= t <= n ensures Count(st.rows, t) == 1 {
        if Count(st.rows, t) >= 2 {
          SumAtLeastOnes(st.rows, 1, n, t);
        }
      }
    }
  }

  /** Starting from an empty table, as many first-time registrations from
      distinct users as there are teams put exactly one user in each team,
      whichever teams the random picks chose. */
  lemma FirstRoundFillsEveryTeam(st0: Store, reqs: seq<Request>)
    requires Valid(st0) && |st0.rows| == 0
    requires |reqs| == st0.numTeams && DistinctUsers(reqs)
    ensures forall t :: 1 <= t <= st0.numTeams ==> Count(Run(st0, reqs).rows, t) == 1
  {
    assert Balanced(st0);
    assert AllNew(st0, reqs);
    RunTotal(st0, reqs);
    RunPreservesBalance(st0, reqs);
    OnePerTeam(Run(st0, reqs));
  }
}
