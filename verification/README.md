# Team distributor bot — a Dafny model of its team store

This project models the core of a Telegram bot that registers participants
by full name (ФИО) and spreads them over a fixed number of teams (12 by
default). It covers the following:

- **Team store (`TeamManager`).** The SQLite `users` table is modelled as a
  sequence of rows in insertion order, with one row per user id. The model
  covers the lookup (`get_user_info`), the balanced random assignment
  (`assign_random_team`), the per-team statistics (`get_team_stats`), the
  rosters (`get_teams_with_members`) and the user total (`get_total_users`).
- **Name check.** The full-name check of the conversation (`get_fio`)
  strips the text, then requires at least 5 characters and at least two
  whitespace-separated words. Python's `str.strip` / `str.split` whitespace
  is modelled character by character.
- **Message splitting.** A team list longer than 4000 characters is split
  into 4000-character messages (`show_teams_list`).
- **Registration conversation.** `/start`, the name prompt, the
  confirmation and `/cancel` are modelled as a state value.

`main.py` and `bot.py` contain the same `TeamManager` logic (the copies
differ only in logging) and the same `start` / `get_fio` / `confirm_fio` /
`cancel` transitions. `main.py` additionally has `button_handler`, a second
entry point into the conversation, and `restart_bot`, and its `show_stats`
adds the team count and the average team size to its reply. Rows below cite `main.py`; the corresponding
`bot.py` lines are listed after the table.

Modules:

- `TeamStore` (store.dfy): rows, lookup, counting, the assignment rule, and
  balance preservation.
- `Balance` (balance.dfy):
  - counts summing to the total;
  - runs of many assignments;
  - the first round filling every team.
- `Reports` (reports.dfy): statistics and rosters.
- `AssignSteps` (assign_steps.dfy): `assign_random_team` as the loop
  algorithm it is. It is proved equal to the rule `TeamStore.Assign`.
- `FullName` (names.dfy): strip, split and the name check.
- `MessageChunks` (chunks.dfy): the 4000-character split.
- `Conversation` (conversation.dfy): the handlers as state transitions.
- `Strings` (strings.dfy): string concatenation shared by the above.

Modelling choices:

- **Random choice.** `random.choice` becomes a parameter `draw: nat`, and
  the pick is `available[draw % |available|]`. `AnyMinimalTeamCanBeDrawn`
  shows that every smallest team is the outcome of some draw.
- **Registration time.** A row's position stands for its `registered_at`
  time.
- **Table invariant.** `TeamStore.Valid` is the table invariant: at least
  one team, unique user ids (the primary key), and team numbers in
  1..num_teams. Assignment requires it and preserves it.

## Model

| member | source | states |
|---|---|---|
| TeamStore.NewStore | main.py:76-93 | a freshly created table is empty, has the configured number of teams and satisfies the table invariant |
| TeamStore.GetUserInfo | main.py:99-110 | the lookup returns nothing exactly when no row has the user id; otherwise it returns the name and team of a row stored for that id |
| TeamStore.GetTotalUsers | main.py:190-199 | the total is zero exactly when no user is registered, and every stored row belongs to a registered user; StatsSumToTotal, RunTotal and AssignThenLookup relate it to the statistics and to registration |
| TeamStore.GetUserInfoExact | main.py:86-110 | because user_id is the primary key, the lookup returns (fio, team) if and only if that exact row is in the table |
| TeamStore.CountIsMultiplicity | main.py:125-134 | the per-team count of the GROUP BY query equals the multiplicity of the team number in the team column |
| TeamStore.MinCount | main.py:137 | min(team_counts.values()) is at most every team's count and is the count of some team 1..N |
| TeamStore.Available | main.py:136-138 | available_teams is non-empty, strictly ascending, and holds exactly the teams whose count is minimal |
| TeamStore.Assign | main.py:112-152 | a registered user gets the stored team back and the table is unchanged; a new user is appended with a team of minimal size; the table invariant is kept |
| TeamStore.AnyMinimalTeamCanBeDrawn | main.py:140-141 | every team of minimal size is the outcome of some random draw |
| TeamStore.AssignThenLookup | main.py:99-110 | after a new user is assigned, get_user_info returns the submitted name and chosen team, other users' lookups are unchanged, and the total rises by one |
| TeamStore.AssignIdempotent | main.py:117-122 | assigning the same user again returns the same team and leaves the table unchanged, whatever name or draw is given |
| TeamStore.AssignCounts | main.py:143-147 | a first-time assignment adds one member to the chosen team and no other team's count changes |
| TeamStore.AssignPreservesBalance | main.py:112-141 | the balancing promised by assign_random_team: if no two teams differ by more than one member, that still holds after any assignment |
| Balance.CountsSumToTotal | main.py:174-199 | with every team number in 1..N, the team counts add up to the number of users |
| Balance.Run | main.py:112-152 | a sequence of assignments keeps the table invariant and the number of teams |
| Balance.RunPreservesBalance | main.py:112-152 | balance holds after any sequence of assignments that starts from a balanced table |
| Balance.ReachableIsBalanced | main.py:76-152 | every table built from an empty one by assignments alone is valid and balanced |
| Balance.DefaultTableIsBalanced | main.py:76-79 | the bot's own 12-team table stays valid and balanced whatever registrations arrive |
| Balance.RunTotal | main.py:190-199 | registrations from distinct new users raise get_total_users by their number |
| Balance.OnePerTeam | main.py:136-141 | a balanced table with exactly as many users as teams has one user in every team |
| Balance.FirstRoundFillsEveryTeam | main.py:132-147 | starting from an empty table, N distinct new users land one per team, whatever the random picks |
| Reports.GetTeamStats | main.py:174-188 | the statistics hold (team, count) for exactly the teams 1..N with at least one member, with their true counts, in strictly ascending team order; empty teams are absent |
| Reports.StatsSumToTotal | main.py:174-199 | the counts in get_team_stats add up to get_total_users |
| Reports.ThreeUsersThreeTeams | main.py:112-188 | with three teams, three distinct first-time registrations give statistics [(1,1),(2,1),(3,1)] |
| Reports.Members | main.py:159-169 | a team's roster has as many names as the team's count |
| Reports.MemberAt | main.py:159-163 | rosters keep registration order: the user of row i appears in their team's roster after exactly the earlier registrations to that team |
| Reports.RostersPartitionUsers | main.py:154-172 | over all teams the rosters list every registered name exactly as often as it is registered, and nothing else |
| Reports.SelectOrderedRows | main.py:159-163 | selecting one team from the query ordered by (team_number, registered_at) gives that team's members in registration order |
| Reports.GetTeamsWithMembers | main.py:154-172 | the dictionary has a key exactly for the teams with members, and each list is that team's names in registration order |
| AssignSteps.ZeroCounts | main.py:132 | the seed dictionary has keys exactly 1..N, all mapped to 0 |
| AssignSteps.SeedCounts | main.py:125-134 | after the query results overwrite the seeds, every team 1..N maps to its true count, empty teams to 0 |
| AssignSteps.MinOfCounts | main.py:137 | the computed minimum is at most every count of teams 1..N and equals one of them |
| AssignSteps.TeamsWithCount | main.py:138 | the list comprehension collects, in key order, exactly the teams holding the given count |
| AssignSteps.AssignRandomTeam | main.py:112-152 | the step-by-step algorithm gives the same team and table as the assignment rule, and a new user's team is of minimal size |
| FullName.Strip | main.py:271 | str.strip() returns a slice with only whitespace outside it; it neither starts nor ends with whitespace, and is empty exactly when the text is all whitespace |
| FullName.StripIdempotent | main.py:271 | stripping a stripped text changes nothing |
| FullName.Split | main.py:275 | every word from str.split() is non-empty and has no whitespace |
| FullName.SplitKeepsVisible | main.py:275 | the words from str.split(), joined, are exactly the text's non-whitespace characters in order |
| FullName.SplitTwoWords | main.py:275 | str.split() yields at least two words if and only if two non-whitespace characters are separated by whitespace |
| FullName.StripKeepsTwoWords | main.py:271-275 | stripping does not change whether a text has two words |
| FullName.CheckFio | main.py:269-283 | an accepted name is the stripped text, has at least 5 characters, and has no whitespace at either end |
| FullName.CheckFioAccepts | main.py:271-280 | a name is accepted if and only if its stripped form has at least 5 characters and the text holds two whitespace-separated words |
| FullName.AcceptedNameIsValid | main.py:271-283 | the name kept for confirmation passes the check again unchanged |
| MessageChunks.Chunks | main.py:362 | the comprehension yields ceil(len/4000) parts, each at most 4000 characters |
| MessageChunks.ChunksRoundTrip | main.py:362 | the parts joined give back the text, and no part is empty |
| MessageChunks.Messages | main.py:360-366 | every message sent is at most 4000 characters, together they are exactly the response, and a response of at most 4000 characters is sent as one message |
| Conversation.Start | main.py:213-236 | /start ends the conversation exactly when some row of the table holds the user id, and otherwise waits for a name |
| Conversation.SubmitName | main.py:269-296 | the conversation moves to confirmation exactly when the stripped text has at least 5 characters and the text holds two whitespace-separated words; the kept name is the stripped text; otherwise it asks for the name again |
| Conversation.Confirm | main.py:298-326 | "yes" ends the conversation with the table exactly as assign_random_team(user_id, fio) leaves it: a new user gains one row, under the confirmed name and the assigned team, and a later /start ends at once; any other answer asks for the name again and leaves the table unchanged |
| Conversation.NamesCheckedMeans | main.py:269-307 | in a table whose names all came through get_fio, each stored name passes the full-name check |
| Conversation.ConfirmKeepsNamesChecked | main.py:269-307 | confirming a name that get_fio accepted keeps every stored name a valid full name |

## Lines in bot.py

The same code appears at these lines of `main.py` and `bot.py`:

- constructor (num_teams = 12) and schema: main.py 76-93, bot.py 21-38
- get_user_info: main.py 99-110, bot.py 43-55
- assign_random_team: main.py 112-152, bot.py 57-95
- get_teams_with_members: main.py 154-172, bot.py 97-115
- get_team_stats: main.py 174-188, bot.py 117-131
- get_total_users: main.py 190-199, bot.py 133-142
- start: main.py 213-236, bot.py 147-170
- get_fio: main.py 269-296, bot.py 172-198
- confirm_fio: main.py 298-326, bot.py 200-229
- cancel: main.py 328-336, bot.py 231-239
- message splitting in show_teams_list: main.py 360-366, bot.py 260-266

## Behaviour notes

- **Empty names.** `assign_random_team` does not reject an empty or
  invalid name. The model's `Assign` does not reject one either. Names
  are checked only in `get_fio`, and `ConfirmKeepsNamesChecked` shows
  that this path stores only valid names.
- **Empty teams.** The statistics and the rosters leave out teams with no
  members, because the queries only return teams that have rows.

## Left out

- **SQLite.** Connections, schema creation and commits are not modelled.
  The table is a value, and each TeamManager call is a pure function of it.
- **Concurrency.** Two concurrent `assign_random_team` calls for the same
  new user can race between the check and the insert. The model runs
  calls one after another and does not model the resulting primary-key
  error.
- **Telegram plumbing.** Replies, keyboards, `context.user_data`, the
  `button_handler` dispatch, the admin restart command, the token and the
  Flask keep-alive server are not modelled. None of them affect the
  stored data.
- **Reply texts.** The formatted text of the team list and of the
  statistics is not modelled, including the average team size, which is a
  float. Only the 4000-character split of a finished response is
  modelled.
- **Random distribution.** Only which teams are possible outcomes of
  `random.choice` is modelled, not the probability of each.
- **Timestamps.** `registered_at` has one-second resolution. Rows written
  within the same second are ordered by insertion in the model, but
  SQLite does not guarantee that order.
- **Rows from elsewhere.** Rows written by other means with a team number
  outside 1..num_teams are excluded by `Valid`. `assign_random_team`
  would add such a team to `team_counts` and could pick it.
- **Conversation.Cancel.** It has no contract beyond always ending the
  conversation; clearing `user_data` is framework state.
- **Logging.** The `print` calls (for example main.py lines 97, 121, 151,
  216 and 272) only write to the console and are not modelled.
- **Text.** Python strings are modelled as sequences of code points.
  Whitespace is the set of characters for which `str.isspace()` holds.
