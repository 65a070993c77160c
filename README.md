# Aegis password manager: store, sessions and authorization rules

This project models the server side of the Aegis password manager in Dafny. The model covers five parts.

- **The SQLite store.** It holds users, teams and password entries across five tables:
  - User, Team and Entry, keyed by rowid;
  - the join tables TeamEntry (one row per entry) and TeamUser (one row per user/team pair).
- **`AegisPasswordDatabase`.** It composes the five tables into user, team and entry aggregates. Each public call runs as a transaction that is rolled back when any step fails.
- **The SQL statement builder.** It produces only placeholder text and binds values by position.
- **The two time-limited token stores.** These are login sessions and e-mail verification codes.
- **The authorization rules of the request handler.** These are the rights check, the last-admin rule and the team-membership edits. Alongside them sit the value types, the JSON projections of a user, and the sign-up page's password-strength test.

The model follows the layers of the source.

- **The tables are classes** whose `rows` field their methods update:
  - User, Team and Entry each map a rowid to its row;
  - TeamUser maps the pair (uid, tid) to the membership;
  - TeamEntry is a sequence of (eid, tid) rows, so `getEntries` keeps row order.
- **`PasswordDatabase.Store`** bundles the rows of the five tables. The `PasswordDatabase` module states what each interface operation does as a function over that store. The round-trip, validity and delete properties are proved about those functions.
- **`AegisPasswordDatabase.AegisPasswordDatabase`** is the class over the five table objects. Its public methods do what the Java does:
  - record the table state (`Begin`);
  - run the helper, whose loops issue the join-table inserts;
  - restore the recorded state when the helper fails (`Rollback`).

  Each public method's `ensures` ties the new state and the result to the matching `PasswordDatabase` function.
- **Randomness and clocks become inputs.** Time is a parameter `now` in milliseconds. A random token is any unused string. A verification code comes from drawn indices into the 62-character code space, and a pigeonhole lemma shows an unused code exists.
- **Request handlers become pure functions.** Each takes the database reads as inputs (`Option` values) and returns the team it would write, or the exception it would throw.

## Model

| member | source | states |
|---|---|---|
| Permissions.Level | src/main/java/model/UserPermissions.java:7-15 | READ, WRITE and ADMIN have levels 0, 1 and 2; only ADMIN reaches 2 |
| Permissions.Name | src/main/java/model/UserPermissions.java:6-15 | the enum names "READ", "WRITE" and "ADMIN" that the rights-failure message prints; none is empty |
| Permissions.NameInjective | src/main/java/server/util/RequestHandler.java:782 | two permissions have the same name exactly when they are the same, so the message tells the required and the held rights apart |
| Permissions.LevelInjective | src/main/java/model/UserPermissions.java:7-9 | two permissions have the same level exactly when they are the same permission |
| Permissions.LevelOrder | src/main/java/model/UserPermissions.java:7-15 | comparing levels orders READ < WRITE < ADMIN and nothing else |
| Model.UserInfo.WithFirstNameAndLastName | src/main/java/model/info/UserInfo.java:75-79 | only the two names change; the other eight fields are kept |
| Model.UserInfo.WithMasterPasswordUpdate | src/main/java/model/info/UserInfo.java:81-84 | names and public key kept; hash, three salts, MAC, IV and private key taken from the request |
| Model.UserInfo.WithPublicKey | src/main/java/model/info/UserInfo.java:89-93 | only the public key changes |
| Model.UserInfo.Equals | src/main/java/model/info/UserInfo.java:112-130 | the field-by-field comparison holds iff the two values are equal |
| Model.NoIDAegisUser.Equals | src/main/java/model/NoIDAegisUser.java:42-53 | info, email and team-map comparison holds iff the values are equal |
| Model.AegisUser.WithUserInfo | src/main/java/model/AegisUser.java:23-25 | replaces the info; email, teams and id are kept |
| Model.AegisUser.WithEmail | src/main/java/model/AegisUser.java:27-29 | replaces the email; info, teams and id are kept |
| Model.AegisUser.Equals | src/main/java/model/AegisUser.java:31-41 | the superclass comparison plus ids holds iff the users are equal |
| Model.NoIDAegisTeam.Equals | src/main/java/model/NoIDAegisTeam.java:38-50 | info, ordered entry list and member map comparison holds iff the values are equal |
| Model.AegisTeam.WithUsers | src/main/java/model/AegisTeam.java:24-26 | replaces the members; info, entries and id are kept |
| Model.AegisTeam.Equals | src/main/java/model/AegisTeam.java:28-38 | the superclass comparison plus ids holds iff the teams are equal |
| Model.SameNamesIsIdentity | src/main/java/model/info/UserInfo.java:75-79 | setting the current names gives back the same value |
| Model.SameUsersIsIdentity | src/main/java/model/AegisTeam.java:24-38 | `t.withUsers(t.users)` equals t |
| Model.MasterPasswordUpdateKeepsPublicPart | src/main/java/model/info/UserInfo.java:81-93 | the update keeps the public key, and a second update overrides the first entirely |
| Responses.ToFullUser | src/main/java/server/json/response/FullUser.java:68-78 | id, names, both key-derivation salts, public key, its MAC, IV and private key are copied |
| Responses.ToPartialUser | src/main/java/server/json/response/PartialUser.java:44-50 | id, names, email and public key are copied |
| Responses.FullUserHidesSecrets | src/main/java/server/json/response/FullUser.java:9-78 | the projection is the same whatever the password hash, master salt, email and teams |
| Responses.PartialUserHidesSecrets | src/main/java/server/json/response/PartialUser.java:9-50 | users that agree on names and public key project alike; hash, salts, MAC, IV, private key and teams do not show |
| Responses.ProjectionsAgree | src/main/java/server/json/response/PartialUser.java:44-50 | both projections report the same id, names and public key |
| Sqlite.NextRowid | src/main/java/database/table/UserTable.java:32-47 | the rowid of a new row is unused, above every rowid in use, and 1 in an empty table |
| Sqlite.MaxExists | src/main/java/database/table/UserTable.java:32-47 | a non-empty table has a largest rowid, from which the next one is taken |
| Sqlite.ToJavaInt | src/main/java/database/table/UserTable.java:40-42 | the `(int)` cast gives a value in the int range that agrees with the long modulo 2^32 |
| Sqlite.FitsInInt | src/main/java/database/table/UserTable.java:40-42 | `ret == (int) ret` holds exactly when ret is between -2^31 and 2^31-1 |
| Sqlite.RowidReuse | src/main/java/database/table/UserTable.java:32-47 | inserting a row and deleting it again hands its rowid to the next insert |
| SQLGenerator.Placeholders | src/main/java/database/SQLGenerator.java:75-77 | one "?" per column |
| SQLGenerator.QCountConcat | src/main/java/database/SQLGenerator.java:44-58 | placeholders of concatenated text add up |
| SQLGenerator.TerminatedSnoc | src/main/java/database/SQLGenerator.java:50-52 | each loop step appends the element and the separator |
| SQLGenerator.JoinIsTerminatedThenLast | src/main/java/database/SQLGenerator.java:44-58 | the joined text is every non-last element with its separator, then the last element |
| SQLGenerator.JoinQCount | src/main/java/database/SQLGenerator.java:44-58 | joining placeholder-free elements yields one separator's placeholders per gap |
| SQLGenerator.PlaceholderJoinCount | src/main/java/database/SQLGenerator.java:76-80 | the joined "?" list holds exactly n placeholders |
| SQLGenerator.WherePlaceholderCount | src/main/java/database/SQLGenerator.java:105-109 | the WHERE text has one placeholder per column, so one parameter per value |
| SQLGenerator.InsertPlaceholderCount | src/main/java/database/SQLGenerator.java:73-80 | the INSERT text has one placeholder per column |
| SQLGenerator.SQLGenerator.constructor | src/main/java/database/SQLGenerator.java:26-32 | the three statement prefixes for the table |
| SQLGenerator.SQLGenerator.ForAllButLast | src/main/java/database/SQLGenerator.java:44-58 | for a non-empty list: init + x0 + a + … + a + xn-1 + b |
| SQLGenerator.SQLGenerator.WhereQuery | src/main/java/database/SQLGenerator.java:100-134 | the check and binding shared by deleteID and getID: fails with the given message iff either list is empty or their lengths differ; otherwise the "c=?" text joined by " and ", with id[i] bound at position i+1 |
| SQLGenerator.SQLGenerator.InsertInto | src/main/java/database/SQLGenerator.java:68-90 | fails with "Invalid insert into" iff no columns; otherwise columns joined by "," then one "?" per column, no value in the text |
| SQLGenerator.SQLGenerator.DeleteID | src/main/java/database/SQLGenerator.java:100-112 | fails iff either list is empty or their lengths differ; otherwise "c=?" per column joined by " and ", parameter i+1 bound to id[i] |
| SQLGenerator.SQLGenerator.GetID | src/main/java/database/SQLGenerator.java:122-134 | the same as DeleteID after the SELECT prefix, failing with "Invalid getID request" |
| UserTable.UserTable.constructor | src/main/java/database/table/UserTable.java:28-30 | attaches to the stored rows of the open file unchanged; the unique email column keeps them valid |
| UserTable.UserTable.AddUser | src/main/java/database/table/UserTable.java:32-47 | a stored email gives the UNIQUE violation and no change; otherwise the row goes under the next rowid, which is returned if it fits in an int |
| UserTable.UserTable.UpdateUser | src/main/java/database/table/UserTable.java:50-58 | delete then insert: the row is replaced under the same id, or dropped with the UNIQUE violation when another row has the email |
| UserTable.UserTable.ReadUser | src/main/java/database/table/UserTable.java:64-75 | the stored email and info with an empty team map, or "User does not exist" |
| UserTable.UserTable.GetID | src/main/java/database/table/UserTable.java:80-91 | the uid of the row with that email, or "User does not exist" |
| UserTable.UserTable.DeleteUser | src/main/java/database/table/UserTable.java:93-97 | exactly that row goes; an absent uid is no error |
| TeamTable.TeamTable.constructor | src/main/java/database/table/TeamTable.java:26-28 | attaches to the stored rows of the open file unchanged |
| TeamTable.TeamTable.AddTeam | src/main/java/database/table/TeamTable.java:30-44 | the info goes under the next rowid, returned if it fits in an int |
| TeamTable.TeamTable.UpdateTeam | src/main/java/database/table/TeamTable.java:47-54 | only that team's row is replaced |
| TeamTable.TeamTable.ReadTeam | src/main/java/database/table/TeamTable.java:59-69 | the stored info, or "Team does not exist" |
| TeamTable.TeamTable.DeleteTeam | src/main/java/database/table/TeamTable.java:71-75 | exactly that row goes |
| EntryTable.EntryTable.constructor | src/main/java/database/table/EntryTable.java:26-28 | attaches to the stored rows of the open file unchanged |
| EntryTable.EntryTable.AddEntry | src/main/java/database/table/EntryTable.java:30-45 | the info goes under the next rowid, returned if it fits in an int |
| EntryTable.EntryTable.UpdateEntry | src/main/java/database/table/EntryTable.java:48-55 | only that entry's row is replaced |
| EntryTable.EntryTable.ReadEntry | src/main/java/database/table/EntryTable.java:60-70 | the stored info, or "Entry does not exist" |
| EntryTable.EntryTable.DeleteEntry | src/main/java/database/table/EntryTable.java:72-76 | exactly that row goes |
| TeamEntryTable.WithoutEntry | src/main/java/database/table/TeamEntryTable.java:75-79 | the rows of other entries, in order |
| TeamEntryTable.WithoutTeam | src/main/java/database/table/TeamEntryTable.java:81-85 | the rows of other teams, in order |
| TeamEntryTable.EntriesOf | src/main/java/database/table/TeamEntryTable.java:63-73 | the eids of the team's rows, in row order |
| TeamEntryTable.TeamOf | src/main/java/database/table/TeamEntryTable.java:46-55 | nothing iff no row has the eid; otherwise the tid of such a row |
| TeamEntryTable.UniqueTeam | src/main/java/database/table/TeamEntryTable.java:89 | with one row per eid, an entry belongs to one team |
| TeamEntryTable.EntriesAgreeWithTeam | src/main/java/database/table/TeamEntryTable.java:46-73 | eid is in getEntries(tid) iff getTeam(eid) is tid |
| TeamEntryTable.UniqueSnoc | src/main/java/database/table/TeamEntryTable.java:33-39 | appending a row for a new eid keeps one row per eid |
| TeamEntryTable.WithoutEntryUnique | src/main/java/database/table/TeamEntryTable.java:75-79 | deleting an entry's row keeps one row per eid |
| TeamEntryTable.WithoutTeamUnique | src/main/java/database/table/TeamEntryTable.java:81-85 | deleting a team's rows keeps one row per eid |
| TeamEntryTable.ReplaceUnique | src/main/java/database/table/TeamEntryTable.java:33-39 | the replacing insert keeps one row per eid |
| TeamEntryTable.EntriesOfSnoc | src/main/java/database/table/TeamEntryTable.java:63-73 | a new last row adds its eid at the end of its team's list only |
| TeamEntryTable.EntriesOfWithoutOther | src/main/java/database/table/TeamEntryTable.java:75-79 | deleting an entry not in the team leaves the team's list as it was |
| TeamEntryTable.WithoutTeamHasNoEntries | src/main/java/database/table/TeamEntryTable.java:81-85 | after deleteTeam the team lists no entries |
| TeamEntryTable.EntriesAfterAdd | src/main/java/database/table/TeamEntryTable.java:33-39 | adding repeat-free eids to a team without rows lists exactly them, in order |
| TeamEntryTable.AddTeamEntriesUnique | src/main/java/database/table/TeamEntryTable.java:33-39 | any sequence of the replacing inserts keeps one row per eid |
| TeamEntryTable.OrphanedEntry | src/main/java/database/table/TeamEntryTable.java:81-85 | after deleteTeam an entry of that team has no team |
| TeamEntryTable.TeamOfReplaced | src/main/java/database/table/TeamEntryTable.java:33-39 | after the replacing insert the entry's team is the new tid |
| TeamEntryTable.Unlisted | src/main/java/database/table/TeamEntryTable.java:63-79 | the elements of a list that are not listed, in their order |
| TeamEntryTable.UnlistedTwice | src/main/java/database/table/TeamEntryTable.java:75-79 | dropping one list of eids and then another is dropping both |
| TeamEntryTable.UnlistedNone | src/main/java/database/table/TeamEntryTable.java:63-73 | dropping no eids keeps the list |
| TeamEntryTable.TeamOfWithoutEntry | src/main/java/database/table/TeamEntryTable.java:46-79 | deleting one entry's row leaves getTeam of every other entry |
| TeamEntryTable.TeamOfWithoutTeam | src/main/java/database/table/TeamEntryTable.java:46-85 | deleting a team's rows leaves getTeam of every entry that was not the team's |
| TeamEntryTable.TeamOfAfterAddUnlisted | src/main/java/database/AegisPasswordDatabase.java:118-120 | the inserts for a list of eids leave getTeam of every unlisted entry |
| TeamEntryTable.EntriesOfWithoutEntry | src/main/java/database/table/TeamEntryTable.java:63-79 | deleting an entry's row takes it, and nothing else, out of every team's list, keeping the order |
| TeamEntryTable.EntriesOfWithoutTeamOther | src/main/java/database/table/TeamEntryTable.java:63-85 | deleting a team's rows leaves every other team's list |
| TeamEntryTable.EntriesOfAfterAddOther | src/main/java/database/AegisPasswordDatabase.java:118-120 | the inserts for a list of eids take those eids out of every other team's list and keep the rest in order |
| TeamEntryTable.AddTeamEntries | src/main/java/database/AegisPasswordDatabase.java:118-120 | after the inserts a row is present iff it is an old row of an unlisted entry or (eid, tid) for a listed eid |
| TeamEntryTable.AddedEntriesBelongToTeam | src/main/java/database/AegisPasswordDatabase.java:118-120 | after the inserts every listed entry belongs to tid |
| TeamEntryTable.TeamEntryTable.constructor | src/main/java/database/table/TeamEntryTable.java:23-25 | attaches to the stored rows of the open file unchanged; the unique eid column keeps one row per eid |
| TeamEntryTable.TeamEntryTable.AddTeamAndEntry | src/main/java/database/table/TeamEntryTable.java:33-39 | any row of the eid is removed and (eid, tid) appended; one row per eid is kept |
| TeamEntryTable.TeamEntryTable.GetTeam | src/main/java/database/table/TeamEntryTable.java:46-55 | fails with "Unable to find entry" iff no row has the eid; otherwise a stored row's tid |
| TeamEntryTable.TeamEntryTable.GetEntries | src/main/java/database/table/TeamEntryTable.java:63-73 | the result-set loop collects exactly EntriesOf(rows, tid) |
| TeamEntryTable.TeamEntryTable.DeleteEntry | src/main/java/database/table/TeamEntryTable.java:75-79 | exactly the entry's row goes |
| TeamEntryTable.TeamEntryTable.DeleteTeam | src/main/java/database/table/TeamEntryTable.java:81-85 | exactly the team's rows go |
| TeamUserTable.ByUser | src/main/java/database/table/TeamUserTable.java:47-58 | tid maps to info iff the row (uid, tid) holds info |
| TeamUserTable.ByTeam | src/main/java/database/table/TeamUserTable.java:60-71 | uid maps to info iff the row (uid, tid) holds info |
| TeamUserTable.MembershipsWithoutUser | src/main/java/database/table/TeamUserTable.java:79-83 | exactly the rows of other users remain, unchanged |
| TeamUserTable.MembershipsWithoutTeam | src/main/java/database/table/TeamUserTable.java:73-77 | exactly the rows of other teams remain, unchanged |
| TeamUserTable.AddUserTeams | src/main/java/database/AegisPasswordDatabase.java:101-103 | one row per team of the map replaces the pair's old row; other rows stay |
| TeamUserTable.AddTeamUsers | src/main/java/database/AegisPasswordDatabase.java:115-117 | one row per member of the map replaces the pair's old row; other rows stay |
| TeamUserTable.NoRowsNoTeams | src/main/java/database/table/TeamUserTable.java:47-58 | a user without rows has no memberships |
| TeamUserTable.NoRowsNoUsers | src/main/java/database/table/TeamUserTable.java:60-71 | a team without rows has no members |
| TeamUserTable.ByUserByTeamSymmetric | src/main/java/database/table/TeamUserTable.java:47-71 | tid ↦ i in getUserPermissions(u) iff u ↦ i in getTeamPermissions(tid) |
| TeamUserTable.ByUserAfterAdd | src/main/java/database/table/TeamUserTable.java:38-58 | after adding a user's teams, the user's memberships are the old ones overridden by them |
| TeamUserTable.ByTeamAfterAdd | src/main/java/database/table/TeamUserTable.java:38-71 | after adding a team's members, the team's members are the old ones overridden by them |
| TeamUserTable.ByUserWithoutOther | src/main/java/database/table/TeamUserTable.java:47-83 | deleting a user's rows leaves every other user's memberships |
| TeamUserTable.ByTeamWithoutUser | src/main/java/database/table/TeamUserTable.java:60-83 | deleting a user's rows removes that user, and only that user, from each team's members |
| TeamUserTable.ByTeamWithoutOther | src/main/java/database/table/TeamUserTable.java:60-77 | deleting a team's rows leaves every other team's members |
| TeamUserTable.ByUserWithoutTeam | src/main/java/database/table/TeamUserTable.java:47-77 | deleting a team's rows removes that team, and only that team, from each user's memberships |
| TeamUserTable.ByUserAfterRewriteOther | src/main/java/database/AegisPasswordDatabase.java:187-196 | deleting and re-adding a user's rows leaves every other user's memberships |
| TeamUserTable.ByTeamAfterAddUser | src/main/java/database/table/TeamUserTable.java:38-71 | adding a user's rows sets that user's entry in the members of each listed team and changes nothing else |
| TeamUserTable.ByTeamAfterUserRewrite | src/main/java/database/AegisPasswordDatabase.java:187-196 | deleting and re-adding a user's rows changes that user's entry, and only it, in each team's members |
| TeamUserTable.ByTeamAfterRewriteOther | src/main/java/database/AegisPasswordDatabase.java:198-211 | deleting and re-adding a team's rows leaves every other team's members |
| TeamUserTable.ByUserAfterAddTeam | src/main/java/database/table/TeamUserTable.java:38-58 | adding a team's rows sets that team's entry in the memberships of each listed user and changes nothing else |
| TeamUserTable.ByUserAfterTeamRewrite | src/main/java/database/AegisPasswordDatabase.java:198-211 | deleting and re-adding a team's rows changes that team's entry, and only it, in each user's memberships |
| TeamUserTable.TeamUserTable.constructor | src/main/java/database/table/TeamUserTable.java:26-28 | attaches to the stored rows of the open file unchanged |
| TeamUserTable.TeamUserTable.AddTeamAndUser | src/main/java/database/table/TeamUserTable.java:38-45 | the row for (uid, tid) is set to info, replacing any old one |
| TeamUserTable.TeamUserTable.GetUserPermissions | src/main/java/database/table/TeamUserTable.java:47-58 | the result-set loop builds exactly ByUser(rows, uid) |
| TeamUserTable.TeamUserTable.GetTeamPermissions | src/main/java/database/table/TeamUserTable.java:60-71 | the result-set loop builds exactly ByTeam(rows, tid) |
| TeamUserTable.TeamUserTable.DeleteTeam | src/main/java/database/table/TeamUserTable.java:73-77 | exactly the team's rows go |
| TeamUserTable.TeamUserTable.DeleteUser | src/main/java/database/table/TeamUserTable.java:79-83 | exactly the user's rows go |
| PasswordDatabase.Empty | src/main/java/database/PasswordDatabase.java:15-21 | the store after reset satisfies the schema constraints |
| PasswordDatabase.ReadUser | src/main/java/database/PasswordDatabase.java:37-41 | a user iff the id is stored, carrying that id |
| PasswordDatabase.ReadUserByEmail | src/main/java/database/PasswordDatabase.java:31-35 | a user iff some row holds the email, carrying that email |
| PasswordDatabase.ReadEntry | src/main/java/database/AegisPasswordDatabase.java:152-156 | an entry iff its Entry row and a TeamEntry row exist |
| PasswordDatabase.ReadTeam | src/main/java/database/PasswordDatabase.java:94-98 | a team iff the id is stored, carrying that id |
| PasswordDatabase.CreateUser | src/main/java/database/PasswordDatabase.java:25-29 | empty iff the email is stored or the new rowid exceeds the int range; empty changes nothing; otherwise exactly one new user id |
| PasswordDatabase.CreateEntry | src/main/java/database/PasswordDatabase.java:60-64 | empty iff the new rowid exceeds the int range, changing nothing; otherwise one new entry id |
| PasswordDatabase.InsertUser | src/main/java/database/AegisPasswordDatabase.java:99-105 | adds exactly the User row under uid; the user's memberships become the old ones overridden by its team map; other users' rows and the other tables stay |
| PasswordDatabase.InsertEntry | src/main/java/database/AegisPasswordDatabase.java:107-111 | adds exactly the Entry row under eid, whose team becomes entry.team; one TeamEntry row per entry is kept; users, teams and memberships stay |
| PasswordDatabase.CreateTeam | src/main/java/database/PasswordDatabase.java:88-92 | empty iff the new rowid exceeds the int range, changing nothing; otherwise one new team id |
| PasswordDatabase.InsertTeam | src/main/java/database/AegisPasswordDatabase.java:113-122 | adds exactly the Team row under tid; its members become the old ones overridden by team.users; every listed entry belongs to tid; one TeamEntry row per entry is kept |
| PasswordDatabase.UpdateUser | src/main/java/database/PasswordDatabase.java:43-49 | true iff the id is stored and no other user has the email; false changes nothing; no id appears or vanishes; other users' rows, their memberships, the teams, entries and TeamEntry rows stay |
| PasswordDatabase.UpdateTeam | src/main/java/database/PasswordDatabase.java:100-106 | true iff the id is stored; false changes nothing; users, entries and team ids stay; other teams' rows and memberships stay; on success a TeamEntry row is present iff it is (eid, team) for a listed eid or an old row of another team for an unlisted eid |
| PasswordDatabase.UpdateEntry | src/main/java/database/PasswordDatabase.java:72-78 | true iff the id is stored; false changes nothing; users, teams, memberships, entry ids and other entries' rows stay; on success the TeamEntry rows are the old rows of other entries plus (id, team) |
| PasswordDatabase.DeleteUser | src/main/java/database/AegisPasswordDatabase.java:238-242 | only that user id goes; other users' rows stay; exactly the memberships of other users remain, unchanged; teams, entries and TeamEntry rows stay |
| PasswordDatabase.DeleteTeam | src/main/java/database/AegisPasswordDatabase.java:244-249 | only that team id goes; other teams' rows stay; exactly the memberships and TeamEntry rows of other teams remain; users and the Entry rows stay |
| PasswordDatabase.DeleteEntry | src/main/java/database/AegisPasswordDatabase.java:251-255 | only that entry id goes; other entries' rows stay; exactly the TeamEntry rows of other entries remain; users, teams and memberships stay |
| PasswordDatabase.EmptyHoldsNothing | src/main/java/database/PasswordDatabase.java:15-21 | after reset no id and no email can be read |
| PasswordDatabase.CreatesPreserveValid | src/main/java/database/table/UserTable.java:99-104 | creates keep emails unique and one TeamEntry row per entry |
| PasswordDatabase.UpdateUserPreservesValid | src/main/java/database/table/UserTable.java:50-58 | updateUser keeps emails unique |
| PasswordDatabase.UpdatesPreserveValid | src/main/java/database/AegisPasswordDatabase.java:198-219 | updateTeam and updateEntry keep the schema constraints |
| PasswordDatabase.DeletesPreserveValid | src/main/java/database/AegisPasswordDatabase.java:238-255 | deletes keep the schema constraints |
| PasswordDatabase.CreateUserReadsBack | src/main/java/database/AegisPasswordDatabase.java:99-145 | the created user reads back with the input's fields and the memberships already in the table plus its own |
| PasswordDatabase.CreateUserRoundTrip | src/main/java/database/AegisPasswordDatabase.java:99-145 | with no orphan memberships, reading the new id gives the input with that id |
| PasswordDatabase.InsertFreshUserReadsBack | src/main/java/database/AegisPasswordDatabase.java:99-105 | inserted under an id with no memberships, a user reads back as given |
| PasswordDatabase.CreateEntryRoundTrip | src/main/java/database/AegisPasswordDatabase.java:107-156 | reading the new id gives the input entry with that id |
| PasswordDatabase.CreateTeamRoundTrip | src/main/java/database/AegisPasswordDatabase.java:113-163 | with no orphan join rows and a repeat-free entry list, reading the new id gives the input team with that id |
| PasswordDatabase.InsertFreshTeamReadsBack | src/main/java/database/AegisPasswordDatabase.java:113-122 | inserted under an id with no join rows, a team reads back as given |
| PasswordDatabase.WithoutTeamIdentity | src/main/java/database/table/TeamEntryTable.java:81-85 | deleting the rows of a team without any changes nothing |
| PasswordDatabase.ReadByEmailAgrees | src/main/java/database/AegisPasswordDatabase.java:141-150 | readUser(email) and readUser(id) give the same user |
| PasswordDatabase.UpdateUserRoundTrip | src/main/java/database/AegisPasswordDatabase.java:187-196 | after a successful update the user reads back equal to the one passed in |
| PasswordDatabase.UpdateTeamRoundTrip | src/main/java/database/AegisPasswordDatabase.java:198-211 | after a successful update a repeat-free team reads back equal to the one passed in |
| PasswordDatabase.UpdateEntryRoundTrip | src/main/java/database/AegisPasswordDatabase.java:213-219 | after a successful update the entry reads back equal to the one passed in |
| PasswordDatabase.UpdateUserFrame | src/main/java/database/AegisPasswordDatabase.java:187-196 | updateUser leaves every other user's read and every entry's read; each team reads as before except that the user's entry among its members is dropped or set to the new membership |
| PasswordDatabase.UpdateTeamFrame | src/main/java/database/AegisPasswordDatabase.java:198-211 | updateTeam leaves every other team's info and members, and takes the listed entries out of its list, keeping the rest in order; each user reads as before except for the membership of this team |
| PasswordDatabase.UpdateTeamMovesEntries | src/main/java/database/AegisPasswordDatabase.java:198-211 | on a valid store, after updateTeam a listed entry belongs to the team, an entry the team held but no longer lists cannot be read, and every other entry reads as before |
| PasswordDatabase.UpdateEntryFrame | src/main/java/database/AegisPasswordDatabase.java:213-219 | updateEntry leaves every other entry's read and every user's read; the entry leaves each team's list and is appended to the list of its new team |
| PasswordDatabase.DeleteUserFrame | src/main/java/database/AegisPasswordDatabase.java:238-242 | deleteUser leaves every other user's read and every entry's read; each team only loses the user from its members |
| PasswordDatabase.DeleteTeamFrame | src/main/java/database/AegisPasswordDatabase.java:244-249 | deleteTeam leaves every other team's read and the read of every entry that was not the team's; each user only loses that membership |
| PasswordDatabase.DeleteEntryFrame | src/main/java/database/AegisPasswordDatabase.java:251-255 | deleteEntry leaves every other entry's read and every user's read; each team only loses the entry from its list |
| PasswordDatabase.DeleteThenReadIsEmpty | src/main/java/database/AegisPasswordDatabase.java:238-270 | after deleteX(k), readX(k) is empty |
| PasswordDatabase.DeleteTeamOrphansEntries | src/main/java/database/AegisPasswordDatabase.java:244-249 | the team's entries keep their Entry rows but can no longer be read |
| PasswordDatabase.MembershipSymmetric | src/main/java/database/AegisPasswordDatabase.java:141-163 | tid ↦ i in readUser(u).teams iff u ↦ i in readTeam(tid).users |
| PasswordDatabase.OrphanMembershipIsInherited | src/main/java/database/AegisPasswordDatabase.java:99-105 | a TeamUser row left under the new user's id, for a team the user did not list, shows up among the new user's teams with its old info |
| AegisPasswordDatabase.AegisPasswordDatabase.constructor | src/main/java/database/AegisPasswordDatabase.java:42-66 | opening a file wraps the five tables around the rows it holds; nothing is created or emptied |
| AegisPasswordDatabase.AegisPasswordDatabase.Reset | src/main/java/database/AegisPasswordDatabase.java:77-96 | every table is emptied |
| AegisPasswordDatabase.AegisPasswordDatabase.Begin | src/main/java/database/AegisPasswordDatabase.java:287-289 | records the state of the five tables |
| AegisPasswordDatabase.AegisPasswordDatabase.Rollback | src/main/java/database/AegisPasswordDatabase.java:291-301 | restores the recorded state |
| AegisPasswordDatabase.AegisPasswordDatabase.AddUserToTeams | src/main/java/database/AegisPasswordDatabase.java:101-103 | the loop leaves the TeamUser rows equal to AddUserTeams |
| AegisPasswordDatabase.AegisPasswordDatabase.AddUsersToTeam | src/main/java/database/AegisPasswordDatabase.java:115-117 | the loop leaves the TeamUser rows equal to AddTeamUsers |
| AegisPasswordDatabase.AegisPasswordDatabase.AddEntriesToTeam | src/main/java/database/AegisPasswordDatabase.java:118-120 | the loop leaves the TeamEntry rows equal to AddTeamEntries, one row per eid |
| AegisPasswordDatabase.AegisPasswordDatabase.CreateUserHelper | src/main/java/database/AegisPasswordDatabase.java:99-105 | succeeds iff createUser does, writing the user's rows under the new id |
| AegisPasswordDatabase.AegisPasswordDatabase.CreateUser | src/main/java/database/AegisPasswordDatabase.java:124-127 | state and result are PasswordDatabase.CreateUser's; a failure is rolled back |
| AegisPasswordDatabase.AegisPasswordDatabase.CreateEntryHelper | src/main/java/database/AegisPasswordDatabase.java:107-111 | succeeds iff createEntry does, writing the entry's rows under the new id |
| AegisPasswordDatabase.AegisPasswordDatabase.CreateEntry | src/main/java/database/AegisPasswordDatabase.java:129-132 | state and result are PasswordDatabase.CreateEntry's |
| AegisPasswordDatabase.AegisPasswordDatabase.CreateTeamHelper | src/main/java/database/AegisPasswordDatabase.java:113-122 | succeeds iff createTeam does, writing the team's rows under the new id |
| AegisPasswordDatabase.AegisPasswordDatabase.CreateTeam | src/main/java/database/AegisPasswordDatabase.java:134-137 | state and result are PasswordDatabase.CreateTeam's |
| AegisPasswordDatabase.AegisPasswordDatabase.ReadUser | src/main/java/database/AegisPasswordDatabase.java:141-145 | equals PasswordDatabase.ReadUser of the current state |
| AegisPasswordDatabase.AegisPasswordDatabase.ReadUserByEmail | src/main/java/database/AegisPasswordDatabase.java:147-150 | equals PasswordDatabase.ReadUserByEmail of the current state |
| AegisPasswordDatabase.AegisPasswordDatabase.ReadEntry | src/main/java/database/AegisPasswordDatabase.java:152-156 | equals PasswordDatabase.ReadEntry of the current state |
| AegisPasswordDatabase.AegisPasswordDatabase.ReadTeam | src/main/java/database/AegisPasswordDatabase.java:158-163 | equals PasswordDatabase.ReadTeam of the current state |
| AegisPasswordDatabase.AegisPasswordDatabase.UpdateUserHelper | src/main/java/database/AegisPasswordDatabase.java:187-196 | passes iff updateUser succeeds, leaving its new state |
| AegisPasswordDatabase.AegisPasswordDatabase.UpdateUser | src/main/java/database/AegisPasswordDatabase.java:221-224 | state and result are PasswordDatabase.UpdateUser's |
| AegisPasswordDatabase.AegisPasswordDatabase.UpdateTeamHelper | src/main/java/database/AegisPasswordDatabase.java:198-211 | passes iff updateTeam succeeds, leaving its new state |
| AegisPasswordDatabase.AegisPasswordDatabase.UpdateTeam | src/main/java/database/AegisPasswordDatabase.java:231-234 | state and result are PasswordDatabase.UpdateTeam's |
| AegisPasswordDatabase.AegisPasswordDatabase.UpdateEntryHelper | src/main/java/database/AegisPasswordDatabase.java:213-219 | passes iff updateEntry succeeds, leaving its new state |
| AegisPasswordDatabase.AegisPasswordDatabase.UpdateEntry | src/main/java/database/AegisPasswordDatabase.java:226-229 | state and result are PasswordDatabase.UpdateEntry's |
| AegisPasswordDatabase.AegisPasswordDatabase.DeleteUser | src/main/java/database/AegisPasswordDatabase.java:257-260 | always true; the state is PasswordDatabase.DeleteUser's |
| AegisPasswordDatabase.AegisPasswordDatabase.DeleteTeam | src/main/java/database/AegisPasswordDatabase.java:267-270 | always true; the state is PasswordDatabase.DeleteTeam's |
| AegisPasswordDatabase.AegisPasswordDatabase.DeleteEntry | src/main/java/database/AegisPasswordDatabase.java:262-265 | always true; the state is PasswordDatabase.DeleteEntry's |
| SessionManager.IsSessionIdValid | src/main/java/server/util/SessionManager.java:103-105 | a session is valid while the clock has not passed its last use, and invalid once MAX_INACTIVE_TIME has elapsed |
| SessionManager.UidOf | src/main/java/server/util/SessionManager.java:73-77 | the uid iff the token is a key, whatever the session's age |
| SessionManager.Touch | src/main/java/server/util/SessionManager.java:127-129 | only the token's entry changes: its last-active time becomes now, its uid is kept |
| SessionManager.Sweep | src/main/java/server/util/SessionManager.java:40-46 | exactly the sessions used less than MAX_INACTIVE_TIME ago remain, unchanged |
| SessionManager.SweepIdempotent | src/main/java/server/util/SessionManager.java:40-46 | a second sweep at the same time removes nothing |
| SessionManager.SweepLater | src/main/java/server/util/SessionManager.java:40-46 | an earlier sweep removes nothing a later one would keep |
| SessionManager.NewSessionSurvives | src/main/java/server/util/SessionManager.java:63-67 | a session issued at now answers with its uid through every sweep before now + MAX_INACTIVE_TIME |
| SessionManager.TouchKeepsAlive | src/main/java/server/util/SessionManager.java:73-77 | a session used at now survives every sweep before now + MAX_INACTIVE_TIME, however old it was |
| SessionManager.StaleSessionAnswers | src/main/java/server/util/SessionManager.java:73-77 | an expired session still answers until a sweep removes it |
| SessionManager.RemoveOnlyThat | src/main/java/server/util/SessionManager.java:84-86 | after removal the token answers nothing and other tokens answer as before |
| SessionManager.SessionManager.constructor | src/main/java/server/util/SessionManager.java:30-35 | no sessions |
| SessionManager.SessionManager.NewToken | src/main/java/server/util/SessionManager.java:91-98 | the token is not in use |
| SessionManager.SessionManager.GenerateSID | src/main/java/server/util/SessionManager.java:63-67 | a fresh token now maps to (uid, now); nothing else changes |
| SessionManager.SessionManager.GetUID | src/main/java/server/util/SessionManager.java:73-77 | returns UidOf and refreshes the entry as Touch does; an absent token changes nothing |
| SessionManager.SessionManager.RemoveSessionID | src/main/java/server/util/SessionManager.java:84-86 | exactly that token goes |
| SessionManager.SessionManager.Reap | src/main/java/server/util/SessionManager.java:40-46 | the loop leaves exactly Sweep of the old sessions |
| VerificationCodeManager.CodeSpaceAt | src/main/java/server/util/VerificationCodeManager.java:17 | character i of the code space is digit i, then A-Z, then a-z |
| VerificationCodeManager.CodeSpaceDistinct | src/main/java/server/util/VerificationCodeManager.java:17 | no character occurs twice in the code space |
| VerificationCodeManager.CodeOf | src/main/java/server/util/VerificationCodeManager.java:98-102 | one code-space character per drawn index |
| VerificationCodeManager.CodeOfIsCode | src/main/java/server/util/VerificationCodeManager.java:17-18 | a built code has length 10 and only code-space characters |
| VerificationCodeManager.CodeOfInjective | src/main/java/server/util/VerificationCodeManager.java:98-102 | different draws build different codes |
| VerificationCodeManager.DigitsOfInjective | src/main/java/server/util/VerificationCodeManager.java:17-18 | below 62^n, different numbers have different base-62 digits |
| VerificationCodeManager.NthCode | src/main/java/server/util/VerificationCodeManager.java:17-18 | every enumerated code is well formed |
| VerificationCodeManager.UnusedCode | src/main/java/server/util/VerificationCodeManager.java:95-106 | with fewer than n ≤ 62^10 codes in use, one of the first n codes is unused, so a retry can succeed |
| VerificationCodeManager.IsVerificationCodeValid | src/main/java/server/util/VerificationCodeManager.java:111-113 | a code is valid while the clock has not passed its issue time, and invalid once MAX_VERIFICATION_TIME has elapsed |
| VerificationCodeManager.EmailOf | src/main/java/server/util/VerificationCodeManager.java:88-90 | the e-mail iff the code is present, whatever its age |
| VerificationCodeManager.Sweep | src/main/java/server/util/VerificationCodeManager.java:40-46 | exactly the codes issued less than MAX_VERIFICATION_TIME ago remain, unchanged |
| VerificationCodeManager.SweepIdempotent | src/main/java/server/util/VerificationCodeManager.java:40-46 | a second sweep at the same time removes nothing |
| VerificationCodeManager.CodeLifetime | src/main/java/server/util/VerificationCodeManager.java:111-113 | a code issued at t answers after a sweep at now iff now < t + MAX_VERIFICATION_TIME; lookups never extend it |
| VerificationCodeManager.RemoveOnlyThat | src/main/java/server/util/VerificationCodeManager.java:80-82 | after removal the code answers nothing and other codes answer as before |
| VerificationCodeManager.VerificationCodeManager.constructor | src/main/java/server/util/VerificationCodeManager.java:30-35 | no codes |
| VerificationCodeManager.VerificationCodeManager.BuildCode | src/main/java/server/util/VerificationCodeManager.java:98-102 | the character loop builds CodeOf(draws), a well-formed code |
| VerificationCodeManager.VerificationCodeManager.NewCode | src/main/java/server/util/VerificationCodeManager.java:95-106 | a well-formed code not in use |
| VerificationCodeManager.VerificationCodeManager.GenerateVerificationCode | src/main/java/server/util/VerificationCodeManager.java:62-67 | a fresh well-formed code now maps to (email, now); nothing else changes |
| VerificationCodeManager.VerificationCodeManager.AddVerificationCode | src/main/java/server/util/VerificationCodeManager.java:72-75 | the code maps to (email, now), inserted or overwritten |
| VerificationCodeManager.VerificationCodeManager.RemoveCode | src/main/java/server/util/VerificationCodeManager.java:80-82 | exactly that code goes |
| VerificationCodeManager.VerificationCodeManager.GetEmail | src/main/java/server/util/VerificationCodeManager.java:88-90 | returns EmailOf and changes nothing |
| VerificationCodeManager.VerificationCodeManager.Reap | src/main/java/server/util/VerificationCodeManager.java:40-46 | the loop leaves exactly Sweep of the old codes |
| RequestHandler.CheckRights | src/main/java/server/util/RequestHandler.java:771-784 | passes iff the user is in the team with at least the required level; each failure carries its message |
| RequestHandler.CheckRightsMonotone | src/main/java/server/util/RequestHandler.java:778 | rights that pass a check pass every lower check |
| RequestHandler.AdminPassesEveryCheck | src/main/java/server/util/RequestHandler.java:771-784 | a team admin passes every check on the team; any member passes READ |
| RequestHandler.Admins | src/main/java/server/util/RequestHandler.java:797 | exactly the members holding ADMIN |
| RequestHandler.CheckAdminDeleteInTeam | src/main/java/server/util/RequestHandler.java:793-804 | refuses, with the only-admin message, iff the user is an admin of the team and it has fewer than two |
| RequestHandler.RefusedIsSoleAdmin | src/main/java/server/util/RequestHandler.java:793-804 | the check refuses exactly the team's sole admin |
| RequestHandler.PassKeepsAnAdmin | src/main/java/server/util/RequestHandler.java:793-804 | when the check passes, removing the user leaves an administered team an admin |
| RequestHandler.ReadAndCheck | src/main/java/server/util/RequestHandler.java:807-809 | passes iff the team reads back and lets the user go |
| RequestHandler.CheckAdminDelete | src/main/java/server/util/RequestHandler.java:805-811 | passes iff every team of the user reads back and lets the user go; a failure is one team's failure |
| RequestHandler.DeleteUserGuard | src/main/java/server/util/RequestHandler.java:248-253 | a user allowed to delete their account is the sole admin of none of their teams |
| RequestHandler.GetUser | src/main/java/server/util/RequestHandler.java:836-838 | the user, or "Unable to locate user." |
| RequestHandler.GetTeam | src/main/java/server/util/RequestHandler.java:850-852 | the team, or "Unable to locate team." |
| RequestHandler.CreateTeam | src/main/java/server/util/RequestHandler.java:590-605 | a team with the given name, no entries, and the caller as its only member, ADMIN with the key |
| RequestHandler.CreatorIsSoleAdmin | src/main/java/server/util/RequestHandler.java:594-601 | the creator is the new team's sole admin |
| RequestHandler.AddUserToTeam | src/main/java/server/util/RequestHandler.java:416-445 | succeeds iff the reads and the ADMIN check pass and the uid is not yet a member; the members gain exactly uid ↦ (permissions, key) |
| RequestHandler.ChangeUserPermissions | src/main/java/server/util/RequestHandler.java:451-490 | succeeds iff the reads pass, the last-admin check passes when demoting, and the uid is a member; only its permission changes |
| RequestHandler.ChangeUserTeamkey | src/main/java/server/util/RequestHandler.java:495-529 | succeeds iff the reads pass and the uid is a member; only its team key changes |
| RequestHandler.DeleteUserFromTeam | src/main/java/server/util/RequestHandler.java:534-560 | succeeds iff the reads and the last-admin check pass; the team loses exactly that member |
| RequestHandler.DeleteUserFromTeamKeepsAnAdmin | src/main/java/server/util/RequestHandler.java:542-547 | removing a member never leaves an administered team without an admin |
| RequestHandler.ChangeUserPermissionsKeepsAnAdmin | src/main/java/server/util/RequestHandler.java:461-477 | changing a permission never leaves an administered team without an admin |
| RequestHandler.AddUserToTeamKeepsAdmins | src/main/java/server/util/RequestHandler.java:426-433 | every admin stays an admin when a member is added |
| RequestHandler.ChangeUserTeamkeyKeepsAdmins | src/main/java/server/util/RequestHandler.java:505-514 | changing a key changes no one's admin status |
| PasswordStrength.Find | src/main/resources/ui/static/script.js:107-108 | no index iff no character is in the class; otherwise the first one that is |
| PasswordStrength.CodeUnits | src/main/resources/ui/static/script.js:105 | one UTF-16 unit for a character of the Basic Multilingual Plane, two for any other |
| PasswordStrength.Utf16Length | src/main/resources/ui/static/script.js:105 | JavaScript's `length`: between |s| and 2|s|, and equal to |s| exactly when every character is in the Basic Multilingual Plane |
| PasswordStrength.Utf16LengthConcat | src/main/resources/ui/static/script.js:105 | the length of a concatenation is the sum of the lengths |
| PasswordStrength.MatchesIffHasClass | src/main/resources/ui/static/script.js:107-108 | `match` succeeds exactly when some character is in the class |
| PasswordStrength.IsPasswordStrong | src/main/resources/ui/static/script.js:104-113 | strong iff the length is at least 16 UTF-16 units, or the password holds a digit, an A-Z letter, an a-z letter and a \W character |
| PasswordStrength.LongIsStrong | src/main/resources/ui/static/script.js:105-106 | any password of at least 16 UTF-16 units is strong |
| PasswordStrength.AstralPasswordIsStrong | src/main/resources/ui/static/script.js:105-106 | eight characters outside the Basic Multilingual Plane already count as 16, so such a password is strong |
| PasswordStrength.ShortStrongIff | src/main/resources/ui/static/script.js:107-112 | a password under 16 UTF-16 units is strong iff it holds a digit, an A-Z letter, an a-z letter and a \W character |
| PasswordStrength.WordCharactersAreWeak | src/main/resources/ui/static/script.js:108 | letters, digits and underscore never meet \W, so short passwords of them are weak |
| PasswordStrength.AppendKeepsStrong | src/main/resources/ui/static/script.js:104-113 | appending characters never turns a strong password weak |

## Left out

- SQL execution and JDBC are not modelled. JDBC, the DDL in AbstractTable.java and result-set iteration are library behaviour. The tables hold their rows directly, and `SQLGenerator` is modelled as its own class, producing the statement text and the bound parameters.
- Serializer.java is not modelled. The info blobs are the typed records themselves, so a decode failure cannot occur.
- Concurrency is not modelled: `synchronized`, ConcurrentHashMap, and the endless reaper threads with their one-second sleeps. The model has sequential calls and one sweep per `Reap`.
- SecureRandom and the clock are not modelled and become inputs:
  - a session token is any unused string, so the 130-bit base-32 format is not modelled;
  - a verification code is built from any drawn indices, so the distribution is not modelled;
  - `System.currentTimeMillis()` is the parameter `now`.
- Error output is not modelled: logging, `System.err` and stack traces are left out.
- Request plumbing is not modelled: cookies, `getUIDFromSID`, HTTP status mapping, and writing the edited team back through `updateTeam` with `throwInternalException`. The handler functions stop at the team they would write.
- The request handlers that are not named above are not modelled (login, user info and entry handlers); `getOrElseString` is not modelled either.
- The records' copies of their own keys are not modelled, nor their `equals`/`hashCode`. This covers the session record's token (SessionManager.java:114, 131-145) and the verification-code record's code. Each copy always equals the map key it is stored under.
- AegisPasswordDatabase.AegisPasswordDatabase.constructor: the rows of the opened file are the parameter `stored`, which must meet the unique constraints the schema enforces. A file whose tables were never created, and a missing JDBC driver, are not modelled.
- AegisPasswordDatabase.AegisPasswordDatabase.Reset: empties the tables and does not model SQLite refusing to drop or create a table.
- AegisPasswordDatabase.AegisPasswordDatabase.Rollback: restores the state recorded in memory, whereas the source relies on the database connection. A failed rollback, which the source only logs, is not modelled.
- VerificationCodeManager.VerificationCodeManager.NewCode: requires fewer than 62^10 codes to be held. With all codes in use the Java retry loop never ends, and the model does not state that non-termination.
- PasswordDatabase.CreateUserRoundTrip: requires that no TeamUser row names a missing user. Without that, the new user also inherits such rows, as PasswordDatabase.CreateUserReadsBack and PasswordDatabase.OrphanMembershipIsInherited state.
- PasswordDatabase.CreateTeamRoundTrip: requires a team list without repeated entries and join rows that name only stored teams. A repeated eid keeps only its last position under `ON CONFLICT REPLACE`.
- PasswordDatabase.UpdateTeamRoundTrip: requires an entry list without repeats, for the same reason.
- PasswordDatabase.UpdateTeamMovesEntries: requires one TeamEntry row per entry, as the eid column's unique constraint guarantees. With two rows for one entry, dropping the newer one can leave the older one readable.
- Sqlite.NextRowid: rowids are the SQLite ones without AUTOINCREMENT, so an id freed by deleting the newest row is handed out again (Sqlite.RowidReuse). The model does not promise that user, team or entry ids are never reused.
