/** The team store of the registration bot (TeamManager): one row per user,
    and the balanced-assignment rule that places a new user in a team that
    currently has the fewest members.

    The SQLite table is modelled as a sequence of rows in insertion order.
    The position of a row stands in for its registered_at timestamp: a later
    row was registered later, and rows written within one timestamp second are
    ordered by insertion. */
module TeamStore {

  /** The team count TeamManager is created with. */
  const DefaultTeamCount: int := 12

  datatype Option<T> = None | Some(value: T)

  /** One row of the users table (registered_at is the row's position). */
  datatype Registration = Registration(userId: int, fio: string, team: int)

  /** What get_user_info returns for a registered user: (fio, team_number). */
  datatype UserInfo = UserInfo(fio: string, team: int)

  /** The table together with the configured number of teams. */
  datatype Store = Store(numTeams: int, rows: seq<Registration>)

  /** The outcome of an assignment: the table afterwards and the team returned. */
  datatype Assignment = Assignment(store: Store, team: int)

  /** user_id is the primary key. */
  predicate UniqueIds(rows: seq<Registration>)
  {
    forall i, j :: 0 <= i < j < |rows| ==> rows[i].userId != rows[j].userId
  }

  predicate TeamsInRange(rows: seq<Registration>, n: int)
  {
    forall i :: 0 <= i < |rows| ==> 1 <= rows[i].team <= n
  }

  /** The invariant of the table: at least one team, one row per user, and
      every team number in 1..numTeams. */
  predicate Valid(st: Store)
  {
    st.numTeams >= 1 && UniqueIds(st.rows) && TeamsInRange(st.rows, st.numTeams)
  }

  /** The table as it is first created: no rows. */
  function NewStore(n: int): (st: Store)
    requires n >= 1
    ensures Valid(st) && st.numTeams == n && |st.rows| == 0
  {
    Store(n, [])
  }

  /* ---------------------------------------------------------------- lookup */

  /** The first row for uid, if any. */
  function Find(rows: seq<Registration>, uid: int): (r: Option<UserInfo>)
    ensures r.None? <==> forall i :: 0 <= i < |rows| ==> rows[i].userId != uid
    ensures r.Some? ==> Registration(uid, r.value.fio, r.value.team) in rows
  {
    if |rows| == 0 then None
    else if rows[0].userId == uid then Some(UserInfo(rows[0].fio, rows[0].team))
    else
      var r := Find(rows[1..], uid);
      assert r.Some? ==> Registration(uid, r.value.fio, r.value.team) in rows[1..];
      r
  }

  /** get_user_info: the (fio, team) stored for uid, or nothing. */
  function GetUserInfo(st: Store, uid: int): (r: Option<UserInfo>)
    ensures r.None? <==> forall i :: 0 <= i < |st.rows| ==> st.rows[i].userId != uid
    ensures r.Some? ==> Registration(uid, r.value.fio, r.value.team) in st.rows
  {
    Find(st.rows, uid)
  }

  /** get_total_users: the number of rows. It is zero exactly when no user
      is registered, and every row's user is registered. */
  function GetTotalUsers(st: Store): (n: nat)
    ensures n == 0 <==> forall uid :: GetUserInfo(st, uid).None?
    ensures forall i :: 0 <= i < |st.rows| ==> GetUserInfo(st, st.rows[i].userId).Some?
  {
    if |st.rows| > 0 then
      assert GetUserInfo(st, st.rows[0].userId).Some?;
      |st.rows|
    else |st.rows|
  }

  /** In a valid table the lookup returns exactly the row stored for uid. */
  lemma GetUserInfoExact(st: Store, uid: int, fio: string, team: int)
    requires Valid(st)
    ensures GetUserInfo(st, uid) == Some(UserInfo(fio, team))
            <==> Registration(uid, fio, team) in st.rows
  {
    var r := GetUserInfo(st, uid);
    if Registration(uid, fio, team) in st.rows {
      var i :| 0 <= i < |st.rows| && st.rows[i] == Registration(uid, fio, team);
      assert r.Some?;
      var j :| 0 <= j < |st.rows| && st.rows[j] == Registration(uid, r.value.fio, r.value.team);
      assert i == j;
    }
  }

  /** Appending a row for a new user makes it visible and hides nothing. */
  lemma {:induction false} FindAppend(rows: seq<Registration>, x: Registration, uid: int)
    requires Find(rows, x.userId).None?
    ensures Find(rows + [x], uid)
            == if uid == x.userId then Some(UserInfo(x.fio, x.team)) else Find(rows, uid)
  {
    if |rows| == 0 {
      assert rows + [x] == [x];
    } else {
      assert (rows + [x])[1..] == rows[1..] + [x];
      if rows[0].userId != uid {
        FindAppend(rows[1..], x, uid);
      }
    }
  }

  /* --------------------------------------------------------------- counting */

  /** The team column of the table. */
  function TeamColumn(rows: seq<Registration>): (ts: seq<int>)
    ensures |ts| == |rows|
  {
    seq(|rows|, i requires 0 <= i < |rows| => rows[i].team)
  }

  /** The number of rows whose team is t (the COUNT(*) of GROUP BY team_number). */
  function Count(rows: seq<Registration>, t: int): (c: nat)
    ensures c <= |rows|
  {
    if |rows| == 0 then 0
    else Count(rows[..|rows| - 1], t) + (if rows[|rows| - 1].team == t then 1 else 0)
  }

  /** Count agrees with the multiplicity of t in the team column. */
  lemma {:induction false} CountIsMultiplicity(rows: seq<Registration>, t: int)
    ensures Count(rows, t) == multiset(TeamColumn(rows))[t]
  {
    if |rows| > 0 {
      var p := rows[..|rows| - 1];
      assert TeamColumn(rows) == TeamColumn(p) + [rows[|rows| - 1].team];
      CountIsMultiplicity(p, t);
    }
  }

  lemma CountAppend(rows: seq<Registration>, x: Registration, t: int)
    ensures Count(rows + [x], t) == Count(rows, t) + (if x.team == t then 1 else 0)
  {
    assert (rows + [x])[..|rows|] == rows;
  }

  /** The smallest member count among teams 1..k. */
  function MinCount(rows: seq<Registration>, k: int): (m: nat)
    requires k >= 1
    ensures forall t :: 1 <= t <= k ==> m <= Count(rows, t)
    ensures exists t :: 1 <= t <= k && m == Count(rows, t)
  {
    if k == 1 then Count(rows, 1)
    else
      var m := MinCount(rows, k - 1);
      var c := Count(rows, k);
      if c < m then c else m
  }

  /** The teams among lo..hi holding exactly m members, in ascending order. */
  function TeamsHolding(rows: seq<Registration>, lo: int, hi: int, m: nat): (ts: seq<int>)
    decreases hi - lo + 1
    ensures forall t :: t in ts <==> lo <= t <= hi && Count(rows, t) == m
    ensures forall i :: 0 <= i < |ts| ==> lo <= ts[i]
    ensures forall i, j :: 0 <= i < j < |ts| ==> ts[i] < ts[j]
  {
    if lo > hi then []
    else
      var rest := TeamsHolding(rows, lo + 1, hi, m);
      if Count(rows, lo) == m then [lo] + rest else rest
  }

  /** available_teams: the teams 1..numTeams whose count is the minimum. */
  function Available(st: Store): (ts: seq<int>)
    requires st.numTeams >= 1
    ensures |ts| >= 1
    ensures forall t :: t in ts <==> IsSmallest(st, t)
    ensures forall i, j :: 0 <= i < j < |ts| ==> ts[i] < ts[j]
  {
    var m := MinCount(st.rows, st.numTeams);
    var ts := TeamsHolding(st.rows, 1, st.numTeams, m);
    var w :| 1 <= w <= st.numTeams && m == Count(st.rows, w);
    assert w in ts;
    assert forall t :: t in ts <==> IsSmallest(st, t) by {
      forall t ensures t in ts <==> IsSmallest(st, t) {
        if IsSmallest(st, t) {
          assert Count(st.rows, t) <= Count(st.rows, w);
        }
      }
    }
    ts
  }

  /** Team t is one of the teams 1..numTeams with the fewest members. */
  predicate IsSmallest(st: Store, t: int)
  {
    1 <= t <= st.numTeams &&
    forall u :: 1 <= u <= st.numTeams ==> Count(st.rows, t) <= Count(st.rows, u)
  }

  /** Appending a row for an absent user with an in-range team keeps the table valid. */
  lemma AppendKeepsValid(st: Store, x: Registration)
    requires Valid(st) && GetUserInfo(st, x.userId).None?
    requires 1 <= x.team <= st.numTeams
    ensures Valid(Store(st.numTeams, st.rows + [x]))
  {
    var rows' := st.rows + [x];
    forall i, j | 0 <= i < j < |rows'| ensures rows'[i].userId != rows'[j].userId {
      if j == |st.rows| {
        assert rows'[i] == st.rows[i];
      }
    }
  }

  /* ------------------------------------------------------------- assignment */

  /** assign_random_team. A registered user gets their stored team back and
      the table is unchanged. A new user is put in a team of minimal size:
      `draw` stands for the outcome of random.choice, which may pick any of
      the minimal teams (see AnyMinimalTeamCanBeDrawn). */
  function Assign(st: Store, uid: int, fio: string, draw: nat): (r: Assignment)
    requires Valid(st)
    ensures Valid(r.store) && r.store.numTeams == st.numTeams
    ensures GetUserInfo(st, uid).Some? ==>
      r.store == st && r.team == GetUserInfo(st, uid).value.team
    ensures GetUserInfo(st, uid).None? ==>
      && IsSmallest(st, r.team)
      && r.store.rows == st.rows + [Registration(uid, fio, r.team)]
  {
    match GetUserInfo(st, uid)
    case Some(info) =>
      Assignment(st, info.team)
    case None =>
      var avail := Available(st);
      var team := avail[draw % |avail|];
      assert team in avail;
      AppendKeepsValid(st, Registration(uid, fio, team));
      Assignment(Store(st.numTeams, st.rows + [Registration(uid, fio, team)]), team)
  }

  /** The random pick is unconstrained among the minimal teams: each of them
      is the outcome of some draw. */
  lemma AnyMinimalTeamCanBeDrawn(st: Store, uid: int, fio: string, t: int)
    requires Valid(st) && GetUserInfo(st, uid).None?
    requires IsSmallest(st, t)
    ensures exists draw: nat :: Assign(st, uid, fio, draw).team == t
  {
    var avail := Available(st);
    assert t in avail;
    var k :| 0 <= k < |avail| && avail[k] == t;
    var n := |avail|;
    assert k % n == k by { SmallMod(k, n); }
    assert Assign(st, uid, fio, k).team == avail[k % n];
  }

  /** A draw below the number of candidates picks by position. */
  lemma SmallMod(k: nat, n: nat)
    requires k < n
    ensures k % n == k
  {
  }

  /** After assigning a new user, the lookup returns the submitted name and
      the chosen team, every other user's lookup is unchanged, and the total
      has risen by one. */
  lemma AssignThenLookup(st: Store, uid: int, fio: string, draw: nat)
    requires Valid(st) && GetUserInfo(st, uid).None?
    ensures var r := Assign(st, uid, fio, draw);
      && GetUserInfo(r.store, uid) == Some(UserInfo(fio, r.team))
      && (forall u :: u != uid ==> GetUserInfo(r.store, u) == GetUserInfo(st, u))
      && GetTotalUsers(r.store) == GetTotalUsers(st) + 1
  {
    var r := Assign(st, uid, fio, draw);
    var x := Registration(uid, fio, r.team);
    FindAppend(st.rows, x, uid);
    forall u | u != uid
      ensures GetUserInfo(r.store, u) == GetUserInfo(st, u)
    {
      FindAppend(st.rows, x, u);
    }
  }

  /** Assigning the same user twice returns the same team both times, the
      second call changes nothing, and the total rises by at most one. */
  lemma AssignIdempotent(st: Store, uid: int, fio1: string, fio2: string, d1: nat, d2: nat)
    requires Valid(st)
    ensures var r1 := Assign(st, uid, fio1, d1);
      var r2 := Assign(r1.store, uid, fio2, d2);
      && r2.team == r1.team
      && r2.store == r1.store
      && GetTotalUsers(r2.store) <= GetTotalUsers(st) + 1
  {
    var r1 := Assign(st, uid, fio1, d1);
    if GetUserInfo(st, uid).None? {
      AssignThenLookup(st, uid, fio1, d1);
    }
  }

  /** A new assignment adds one member to the chosen team and leaves every
      other team's count as it was. */
  lemma AssignCounts(st: Store, uid: int, fio: string, draw: nat, t: int)
    requires Valid(st) && GetUserInfo(st, uid).None?
    ensures var r := Assign(st, uid, fio, draw);
      Count(r.store.rows, t) == Count(st.rows, t) + (if t == r.team then 1 else 0)
  {
    var r := Assign(st, uid, fio, draw);
    CountAppend(st.rows, Registration(uid, fio, r.team), t);
  }

  /* ---------------------------------------------------------------- balance */

  /** Every team's size is within one of every other team's size. */
  predicate Balanced(st: Store)
  {
    forall a, b :: 1 <= a <= st.numTeams && 1 <= b <= st.numTeams ==>
      Count(st.rows, a) <= Count(st.rows, b) + 1
  }

  /** The balancing the assignment rule promises: a first-time assignment
      keeps every pair of teams within one member of each other. */
  lemma AssignPreservesBalance(st: Store, uid: int, fio: string, draw: nat)
    requires Valid(st) && Balanced(st)
    ensures Balanced(Assign(st, uid, fio, draw).store)
  {
    if GetUserInfo(st, uid).None? {
      var n := st.numTeams;
      forall a, b | 1 <= a <= n && 1 <= b <= n
        ensures Count(Assign(st, uid, fio, draw).store.rows, a)
                <= Count(Assign(st, uid, fio, draw).store.rows, b) + 1
      {
        AssignKeepsPair(st, uid, fio, draw, a, b);
      }
    }
  }

  /** One pair of teams after a first-time assignment: the chosen team was
      a smallest one, so growing it by one cannot push it more than one
      above any other, and the others were already within one of it. */
  lemma AssignKeepsPair(st: Store, uid: int, fio: string, draw: nat, a: int, b: int)
    requires Valid(st) && Balanced(st) && GetUserInfo(st, uid).None?
    requires 1 <= a <= st.numTeams && 1 <= b <= st.numTeams
    ensures Count(Assign(st, uid, fio, draw).store.rows, a)
            <= Count(Assign(st, uid, fio, draw).store.rows, b) + 1
  {
    var t := Assign(st, uid, fio, draw).team;
    AssignCounts(st, uid, fio, draw, a);
    AssignCounts(st, uid, fio, draw, b);
    assert Count(st.rows, a) <= Count(st.rows, b) + 1;
    assert Count(st.rows, a) <= Count(st.rows, t) + 1;
    assert Count(st.rows, t) <= Count(st.rows, b);
  }
}
