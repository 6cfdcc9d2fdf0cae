# Quest: a verified model of the scavenger-hunt server's core

Quest is a small web game. Players ("moles") look for physical locations. Each
location has a level, a clue and a secret code. A player who types in a
location's code has "found" it. Level-1 locations are always visible. Finding
enough locations of one level unlocks a location of the next level, one at a
time. A shared passphrase gates the whole site. Players register simply by
logging in with a username that is new. A leaderboard ranks players by their
number of finds.

This project models the game logic of `quest.py`. It covers the four database
tables (locations, users, finds, unlocked), the request guards and the handlers
that read and change those tables.

- `quest_types.dfy`: the table rows (`Location`, `User`, `Row`), plus `Option`
  and `Result`.
- `registry.dfy`: looking a player up by username (`get_mole_id`, and the
  first-match lookups behind the guards) and the id a newly inserted user
  receives.
- `progress.dfy`: `get_locations` as a specification. It covers the two LEFT
  JOINs with their exact row multiplicity, grouping by level, the `found` and
  `unlocked` flags, the per-level found count and the list of locked
  candidates. The lemmas relate the grouped view back to the catalog.
- `session_gate.dfy`: the passphrase guard, the credential guard, their
  composition, and the passphrase form handler.
- `unlock_engine.dfy`: a code submission as a transition of the finds and
  unlocked tables (`Submission`), and the lemmas that state what such a
  transition guarantees. The unlock trigger `UnlockDue` is defined by
  repeated subtraction of the threshold; `UnlockDueIsRemainder` proves it
  equal to the handler's remainder test.
- `leaderboard.dfy`: the grouped and counted leaderboard query, with its order.
- `quest.dfy`: the class `QuestStore`. Its fields are the user, find and unlock
  tables, which its methods change in place:
  - `GetLocations` is the grouping loop;
  - `LogIn` holds the login logic, and `AddUser` the insertion of a new user;
  - `SubmitCode` is the code-submission handler, proved equal to `Submission`;
    its second half, `UnlockAfterFind`, is proved equal to `AfterFind`.
  The store invariant `Valid` keeps usernames and ids unique, the catalog in id
  order, and the unlocked table free of duplicates and of level-1 entries.
- `scenarios.dfy`: worked examples, namely a registration followed by a wrong
  password and an empty field, and a three-player leaderboard.

A Python `TypeError` (unpacking a missing row) or `IndexError` that aborts a
request becomes an explicit error value:
- `GetMoleId` returns `None` for an unknown player.
- `Submission` returns `Failure(UnknownLocation)` for an unknown location id.
- `Submission` returns `Failure(NoLockedLocation)` when an unlock is due but the
  next level has no locked location left.

In the last case the finds row inserted just before stays in the tables. The
server shares one connection, nothing rolls back, and so the row is visible to
every later query and is committed by the next commit.

## Model

| member | source | states |
|---|---|---|
| Registry.FindUser | quest.py:94-101 | The user returned is a users row with that username, preceded only by rows with other usernames; there is none exactly when the username is not registered |
| Registry.FindUserUnique | quest.py:100-101 | With unique usernames, the lookup by a player's username returns that player's row |
| Registry.GetMoleId | quest.py:31-35 | An id is returned exactly when the username is registered; it is the id of a row with that username, and with unique usernames it is that player's id |
| Registry.InsertKeepsUnique | quest.py:156-160 | Inserting an unseen username under the next id keeps usernames and ids unique, and looking the name up then finds the new row |
| Registry.MaxUserId | quest.py:158-160 | The largest user id, attained by some row |
| Registry.NextUserId | quest.py:158-160 | The id a new user row receives is not taken: 1 in an empty table, otherwise one above an existing id |
| Progress.Join | quest.py:40-50 | The LEFT JOIN query for one player: at least one row per catalog location, in catalog order; `JoinMember`, `JoinLevels` and `JoinMultiplicity` state which rows and how many |
| Progress.JoinMultiplicity | quest.py:42-47 | A location yields at least one joined row, and exactly one exactly when the player has at most one finds row and at most one unlocked row for it |
| Progress.EntriesAtMember | quest.py:52-55 | A view entry is listed under a level exactly when a joined row of that level carries it |
| Progress.GroupSnoc | quest.py:53-55 | Grouping one more row appends its entry to its level's list, creating the list if absent, and leaves the other levels alone |
| Progress.GroupAt | quest.py:51-64 | The grouping loop's map has exactly the rows' levels as keys, and each level's list holds that level's entries in row order |
| Progress.GroupListsNonEmpty | quest.py:53-55 | Grouping never leaves an empty list under a key |
| Progress.CopiesMember | quest.py:42-47 | A repeated joined row is the only value among its copies, and it is there iff it has at least one copy |
| Progress.JoinMember | quest.py:42-47 | Every joined row is a catalog location with its level and its found and unlocked flags for that player, and every catalog location yields one |
| Progress.JoinLevels | quest.py:42-47 | The joined rows carry exactly the catalog's levels |
| Progress.ViewLevels | quest.py:51-64 | The view's keys are exactly the levels present in the catalog |
| Progress.ViewHasLevel | quest.py:51-64 | The level of every catalog location is a key of the view |
| Progress.ViewListsLocation | quest.py:51-63 | Every catalog location appears, annotated, in the list of its own level |
| Progress.ViewFlags | quest.py:56-62 | Every view entry comes from a catalog location of that level with the same id, name and clue; it is found iff a finds row exists for the pair, and unlocked iff its level is 1 or an unlocked row exists |
| Progress.CountFound | quest.py:206 | The found count of a list is at most its length, and zero iff no entry is found |
| Progress.Candidates | quest.py:214-216 | The locked entries of a list, never more than the list holds; `CandidatesMember` and `FirstCandidate` state which and in what order |
| Progress.CandidatesMember | quest.py:214-216 | An entry is a locked candidate iff it is listed and neither found nor unlocked |
| Progress.FirstCandidate | quest.py:214-217 | The first candidate is the first listed entry that is neither found nor unlocked |
| Progress.CountIncludesFind | quest.py:205-206 | Once the player has a finds row for a location, the found count of its level is at least one |
| Progress.CandidateIsLocked | quest.py:214-216 | A candidate of a level comes from a catalog location of that level above level 1, with neither a finds nor an unlocked row for the player |
| Progress.LockedAtMember | quest.py:214-216 | A location is among the locked locations of a level iff it is a catalog location of that level that is locked for the player |
| Progress.CandidatesFollowCatalog | quest.py:214-216 | The candidates of a level are the level's locked catalog locations in catalog order, each once, whatever the join multiplicity |
| Progress.ViewCandidates | quest.py:214-216 | In the view, the candidates of a level are exactly the annotated locked locations of that level, in catalog order |
| Progress.EntriesWithoutRepeats | quest.py:42-63 | Without repeated rows, a level's joined entries are its catalog locations once each, and its found count is the number of found locations |
| Progress.ViewWithoutRepeats | quest.py:51-63 | Without repeated finds or unlocked rows, the view lists each location of a level once, in catalog order, and the level's found count is the number of its found locations |
| Progress.RepeatedFindCountsTwice | quest.py:200-206 | With two finds rows for one location, the location is listed twice and the level's found count is 2, although one location is found |
| SessionGate.PassphraseGuard | quest.py:74-81 | Admits iff the session holds the configured passphrase; otherwise shows the passphrase form without the incorrect mark |
| SessionGate.Authenticate | quest.py:84-108 | Admits only a session holding a username and a password that match a stored user, and with unique usernames it admits every such session; otherwise shows the login form |
| SessionGate.Guard | quest.py:114-116 | Admits iff both guards admit. When the passphrase guard refuses, the passphrase form is shown; when it admits, the credential guard's verdict (and its login form) is the result. An admitted session's user has a mole id |
| SessionGate.CheckPassphrase | quest.py:126-136 | A wrong passphrase shows the form marked incorrect and leaves the session unchanged; the right one is stored in the session, which then passes the passphrase guard, and the login form is shown |
| SessionGate.CheckPassphraseOpensGuard | quest.py:126-136 | After a correct passphrase, the guards together give the credential guard's verdict on the session |
| UnlockEngine.FindLocation | quest.py:180-184 | The returned location is a catalog row with that id; none is returned iff no catalog row has it |
| UnlockEngine.UnlockDueIsRemainder | quest.py:209-211 | The unlock trigger holds iff the level's found count leaves remainder 0 on division by the threshold |
| UnlockEngine.RemainderAfterSubtraction | quest.py:209-211 | Subtracting the threshold once from a count at least as large leaves its remainder unchanged |
| UnlockEngine.AfterFind | quest.py:204-237 | After a recorded find, the finds table is not changed again; a success is the found card of the location with the level's found count; the only failure is the missing locked location, which changes nothing further |
| UnlockEngine.Submission | quest.py:179-237 | A submission adds at most one finds row and at most one unlocked row, and a failure or a wrong code adds no unlocked row; the lemmas from `SubmissionRejects` to `UnlockRuleNotDue` state exactly which rows and which outcome |
| UnlockEngine.AfterFindShowsUnlock | quest.py:234-236 | The found card names an unlocked location exactly when an unlocked row was added |
| UnlockEngine.AfterFindAddsFirstCandidate | quest.py:208-223 | After a find, the finds table is unchanged and the only row that can be added to unlocked is the first candidate of the next level |
| UnlockEngine.SubmissionRejects | quest.py:179-194 | An unknown id aborts and a wrong code shows the card marked incorrect with the location's clue; neither changes the tables |
| UnlockEngine.SubmissionRecordsFind | quest.py:196-223 | A correct code appends exactly the finds row for that location and player; the unlocked table is unchanged or gains one row for a next-level location the player had neither found nor unlocked |
| UnlockEngine.SubmissionFoundCard | quest.py:204-237 | The found card is the submitted location's id, name and clue; its count is the level's found count in the view recomputed with the new find, so at least one; it names an unlocked location iff an unlocked row was added |
| UnlockEngine.SubmissionKeepsUnlockedWellFormed | quest.py:210-223 | A submission never unlocks a location twice, and only ever unlocks catalog locations above level 1 |
| UnlockEngine.UnlockRule | quest.py:204-217 | An unlock is due iff the level's found count in the view recomputed with the new find is a multiple of the threshold and level + 1 exists in the catalog. The request aborts iff an unlock is due and level + 1 has no locked location left |
| UnlockEngine.UnlockRuleUnlocks | quest.py:204-223 | An unlocked row is added iff an unlock is due and level + 1 still has a locked location |
| UnlockEngine.UnlockRuleTarget | quest.py:204-237 | When an unlock is due and a locked location is left, the row added is the first locked location of level + 1 in catalog order, and the result is the found card, that location with its flags, and the level's found count |
| UnlockEngine.UnlockRuleNotDue | quest.py:204-237 | When no unlock is due, the result is the found card with no unlocked location and the level's found count |
| UnlockEngine.SubmissionIsAfterFind | quest.py:196-217 | A correct code is recorded and then handled on the view recomputed with the find; in that view level + 1 is a key iff the catalog has it, and its candidates are its locked catalog locations |
| UnlockEngine.SubmissionStep | quest.py:196-206 | A correct code is recorded and then handled on the view recomputed with the find, which has the submitted location's level |
| UnlockEngine.NextLevelInView | quest.py:209-216 | In any view, level + 1 is a key iff the catalog has that level, and its candidates are its locked catalog locations in catalog order |
| UnlockEngine.AfterFindRule | quest.py:208-223 | The unlock rule on a given progress view whose next-level candidates are given: when the submission aborts, when a row is added and which, and the result when no unlock is due |
| Leaderboard.Tally | quest.py:247-251 | One standing per player, and with unique usernames no standing occurs twice |
| Leaderboard.FindCount | quest.py:247-250 | A player's count is at most the number of finds rows, and zero iff the player owns none |
| Leaderboard.InsertByCount | quest.py:252 | Inserting into a board sorted by descending count keeps it sorted and adds exactly that standing |
| Leaderboard.InsertKeepsBound | quest.py:252 | Inserting a standing into a board never lifts the board's largest count above a bound both respect |
| Leaderboard.SortByCount | quest.py:252 | The result is sorted by descending count and is a permutation of the input |
| Leaderboard.GetLeaderboard | quest.py:243-255 | One standing per player, sorted by descending number of finds; each player's standing is listed, and every standing is some player's |
| Leaderboard.LeaderboardListsEachPlayerOnce | quest.py:247-251 | Each player's standing occurs exactly once, and every standing with that username carries that player's count |
| Quest.QuestStore.constructor | quest.py:18-20 | A store over a catalog starts with empty users, finds and unlocked tables and satisfies the invariant |
| Quest.QuestStore.GetLocations | quest.py:38-64 | The grouping loop returns exactly the progress view of the player |
| Quest.QuestStore.AddUser | quest.py:156-160 | Inserting a new user appends exactly the row with the next id, changes no other table, keeps the invariant, and the name then looks up to that row |
| Quest.QuestStore.LogIn | quest.py:139-172 | An empty field changes nothing. A new username is inserted with a fresh id and logged in. A registered username with the wrong password is refused. A matching password logs in. A successful login stores the credentials, which then pass the credential guard, and returns the player's view; the invariant is kept |
| Quest.QuestStore.SubmitCode | quest.py:175-238 | The handler's outcome and its new finds and unlocked tables are exactly the submission transition for the player's id; users are unchanged and the invariant is kept |
| Quest.QuestStore.UnlockAfterFind | quest.py:204-223 | The second half of the handler, once the find is stored: its outcome and new unlocked table are exactly `AfterFind` on the recomputed view; users and finds are unchanged |
| Scenarios.ExampleCounts | quest.py:247-251 | Counts of finds per player on a small table |
| Scenarios.LeaderboardExample | quest.py:243-255 | Players with 3, 0 and 1 finds are ranked with 3 first, then 1, then 0 |

## Left out

- Rendering: templates, HTML fragments, `base_url` and the out-of-band count
  span become data values (`Page`, `SubmitOutcome`); no markup is modelled.
- The configuration file parser is left out. The passphrase and the unlock
  threshold are parameters. The threshold is required to be positive, because
  zero would raise an error in Python.
- The form value `id` arrives as a string that SQLite compares to an integer
  column by type affinity. The model takes the id as an integer.
- Durability, `db.commit`, and concurrent requests on the shared connection are
  not modelled. Every handler runs atomically on the in-memory tables.
- `session.permanent`, the Flask secret key, cookie signing and the static file
  route are left out.
- Database setup scripts are left out. The catalog is a constructor argument, in
  id order, with levels of 1 or more.
- Registry.NextUserId: SQLite's rowid choice is modelled as one more than the
  largest id, which agrees with the rowid algorithm as long as no row was ever
  deleted.
- Leaderboard.GetLeaderboard: it requires unique usernames, because the
  `GROUP BY username` groups per player only then; the store invariant keeps
  usernames unique. Ties are listed in table order, an order the query leaves
  unspecified.
- Quest.QuestStore.SubmitCode: it requires the session's user to be registered,
  which the credential guard establishes before the handler runs (see
  `SessionGate.Guard`). It does not model an unregistered user reaching the
  handler.
- The guards in front of `log_in` (the passphrase guard) and of `index` and
  `submit_code` (both guards) are modelled on their own by `SessionGate.Guard`.
  The store's methods start at the point where the guards have admitted the
  request.
- Missing form fields (`passphrase`, `username`, `password`, `id`, `code`)
  raise `KeyError` in the handlers; the model takes every field as present.
- The `print` of the leaderboard to the server's console is left out.
