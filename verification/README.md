# Verification of the sign-sighting store

This project models the datastore of the sign-sighting map, the importer that feeds
it, and two pieces of its front end, and proves what they keep over whole runs.

- `Schema.dfy` holds the tables, one sequence a table in primary-key order, and the
  constraints of `internal/db/schema.sql`. `History.dfy` proves that every operation
  keeps them and that history is only ever added to.
- `Import.dfy` describes `ImportSourceRecords`: which runs terminate, after how many
  runs a batch is settled (four, tightly, from separated locations), and when a re-run
  is a no-op. `Filing.dfy` describes the two statements of `InsertSighting`, alone and
  interleaved with other calls and imports, over the rounding law of `Rounding.dfy`.
- `MapView.dfy`, `Flags.dfy` and `Audit.dfy` describe what is derived from the history:
  the markers, the two readings of the flag log, and the audit list; `Shown.dfy` follows
  a report from its filing or import to the map. `Ordering.dfy` is
  what ORDER BY promises. `Calendar.dfy` proves that comparing timestamp texts is
  comparing instants, which is why the tables can hold instants as whole seconds.
- `Identity.dfy` describes the seed, the upsert of users, and the migration off the
  legacy table of subjects.
- `Store.dfy` is the datastore as it is programmed: a `Database` whose tables are fields
  that grow in place and a `Store` with its cached seed, each method proved against the
  specification of its module.
- `Kml.dfy` (with `Text.dfy` and `Selection.dfy`) is the record builder of the importer
  command. `Hsl.dfy` and `Darken.dfy` are the colour conversion and the darkening of
  the base map's roads.

Each SQL statement is one atomic step and each import one transaction. `LIMIT 1`, and
the row SQLite takes for the bare columns of a group whose maximum is reached more
than once, are left open: every result holds for every choice. Coordinates and colour
components are exact reals. The hash of subjects is an arbitrary function; nothing is
assumed of it, and distinct ids are a condition where a result needs them. Clocks and
random seeds are parameters.

Where the code and its documentation differ, the model follows the code:

- The guard at `internal/store/import.go:137-141` names `loc.transpired` and
  `loc.external_id`, which `locations` does not have; it is read as the columns of the
  sighting, which is what the comment above the function describes.
- That guard compares with any earlier sighting at the location, not with the latest
  one. So re-running an unchanged map is not always a no-op (`Import.NoOpIffSettled`
  says exactly when it is), the rule that a sighting is appended when the state differs
  from what was last told holds exactly under `Import.FollowsRuleIff`, and a state
  reported again after its opposite is lost (`Import.FlipBackIsLost`).
- `InsertSighting` looks up at six decimals and stores at seven. Where these disagree it
  answers without an error although nothing was filed, with an id that is not a
  sighting's or is somebody else's (`Filing.FiledIff`, `Filing.TwoCallsShareAnId`), and
  every repetition leaves one more location (`Filing.LoneLocationsPileUp`).
- `InsertSighting` creates the location before it rejects an unknown `Transpired`
  (`Filing.RefusedLeavesNothingIff` says when a refused call leaves nothing), and it
  ignores `LocationID` and `ToExist` of its input.
- Flags are cleared by -1, as the CHECK demands, not by 0 as two comments say.
- The seeding of permissions brings back defaults an operator has deleted, although the
  comment says edits are not reset (`Identity.OpenKeepsPermissionsIff` says when it leaves
  them alone, `Identity.EditStandsIff` which edits stand over a run).

## Model

| member | source | states |
|---|---|---|
| `Rounding.DoubleRounding` | internal/store/store.go:59-60 | Rounding a coordinate to seven digits and then to six gives the six-digit rounding if and only if the fraction of its absolute value in millionths lies outside [0.45, 0.5); same for the cells. |
| `Rounding.RoundIsNearest` | internal/store/store.go:59-60 | Both roundings go to a nearest multiple of a millionth and of a ten-millionth of a degree, and from halfway away from zero. |
| `Rounding.SameCellIsClose` | internal/store/store.go:60-60 | Equal six-digit roundings are equal cells, and coordinates of one cell are at most a millionth of a degree apart. |
| `Import.StepEffect` | internal/store/import.go:93-149 | One pass of the loop leaves the box occupied, creates a location (the record's coordinates, by the importer, at the batch's time) only in an empty box, appends at most one sighting, and only at an in-box location that lacked the record's state and key. |
| `Import.NewKeyIsAppended` | internal/store/import.go:130-142 | If some location of the box has no sighting that carries both the record's key and its state, whoever reported there, the pass appends exactly one sighting and no location. |
| `Import.InBoxMeans` | internal/store/import.go:135-136 | The box reaches 0.000045 degrees to every side of the record, the edges included. |
| `Import.RecordedMeans` | internal/store/import.go:137-141 | The guard holds a location back exactly if a sighting there carries the record's external id and its state, sighted or unknown. |
| `Import.StepFailsIff` | internal/store/import.go:99-145 | A pass fails exactly if it has to insert a row and the importer is no user or the row is a location outside the CHECKed ranges. |
| `Import.RunEffect` | internal/store/import.go:93-149 | A run only appends; afterwards every record's box is occupied; over occupied boxes it creates no location. |
| `Import.RunRecords` | internal/store/import.go:130-142 | After any run each record's state and key is recorded at some location of its box. |
| `Import.RunTells` | internal/store/import.go:130-142 | The same, row by row: after a run there is a sighting with the record's external id and state at a location of its box. |
| `Import.RunAppendsReports` | internal/store/import.go:112-145 | Every sighting a run appends reports one of its records (reporter, time, state, key and traits) at a location of that record's box, and there are no more of them than records. |
| `Import.RunShrinks` | internal/store/import.go:130-142 | A run over occupied boxes records each record at one more location of its box as long as one is left. |
| `Import.NoOpIffSettled` | internal/store/import.go:69-71 | The promise that re-running an unchanged map is a no-op holds exactly when every box is occupied and every location in it already carries the record's state and key. |
| `Import.NoOpMeans` | internal/store/import.go:69-71 | The same, read off the tables: a run changes nothing exactly if every record's box holds a location and every location in it has a sighting with the record's external id and state. |
| `Import.SettledApplies` | internal/store/import.go:99-142 | On such a database the batch succeeds without change for any importer, registered or not. |
| `Import.RerunCharges` | internal/store/import.go:99-145 | A re-run creates no location, its appended sightings are paid for by missing (record, location) pairs, and any change makes their number strictly smaller. |
| `Import.NothingMissingIsSettled` | internal/store/import.go:137-141 | With every box occupied, no missing pair means exactly that a run is a no-op. |
| `Import.RerunsTerminate` | internal/store/import.go:93-149 | From any database, repeating one batch creates no location after the first run and changes nothing any more after as many further runs as pairs were missing. |
| `Import.ConvergesWithin` | internal/store/import.go:93-149 | If no box holds more than n locations after the first run, the database never changes after n runs; one run is enough when each box holds one location. |
| `Import.RunKeepsSeparation` | internal/store/import.go:99-104 | Import keeps all locations more than 0.000045 degrees apart in latitude or longitude. |
| `Import.BoxHoldsFour` | internal/store/import.go:135-136 | Separated locations leave room for at most four in any record's box. |
| `Import.FourRunsSuffice` | internal/store/import.go:93-149 | From separated locations, four runs of a batch suffice for every choice the LIMIT 1 may make. |
| `Import.FourRunsAreNeeded` | internal/store/import.go:130-142 | The bound is tight: with a location at each corner of a box, each of the first four runs appends. |
| `Import.AppendsIffUnrecorded` | internal/store/import.go:99-142 | A pass appends a sighting exactly when the box is empty or some location in it never carried the record's state and key. |
| `Import.FollowsRuleIff` | internal/store/import.go:67-71 | When one pass meets the documented rule, to append only when the reported state differs from what the source last told, for any database: whenever the box is empty, and otherwise exactly if the box is fully recorded just when the last word in it is the record's state. |
| `Import.LoneLocationFollowsRuleIff` | internal/store/import.go:67-71 | At a lone location it meets the rule if and only if the record's state was never told there or is the last word. |
| `Import.ToldOnceIsNotToldAgain` | internal/store/import.go:137-141 | A state once recorded throughout a box leaves no trace when reported again, whatever was reported in between. |
| `Import.FlipBackIsLost` | internal/store/import.go:67-71 | Standing, gone, standing again at a lone location: the third report changes nothing although gone is the last word, which the rule forbids. |
| `Import.FlipBackHappens` | internal/store/import.go:67-71 | It happens wherever a registered importer first reports a sign in an empty box; `Import.FlipBackExample` is one such database. |
| `Import.InRangeBatchCannotFail` | internal/store/import.go:106-108 | For a registered importer only a record outside the CHECKed ranges can make a batch fail. |
| `Import.RerunCannotFail` | internal/store/import.go:106-108 | After one success a registered importer's batch cannot fail. |
| `Import.RunKeepsNoRepeats` | internal/store/import.go:137-141 | No import of any batch tells a state of a key twice at one location. |
| `Import.ToldFourTimesAtMost` | internal/store/import.go:93-149 | Over any sequence of imports from separated locations, whatever their batches and importers, a record's state and key is told at most four times in its box. |
| `Filing.TakenAfterFirst` | internal/store/store.go:56-60 | After the first statement the looked-up cell holds a location exactly when it did before or both coordinates survive double rounding. |
| `Filing.FiledIff` | internal/store/store.go:55-87 | An accepted call appends its sighting, at a location of its cell and answered with its id, exactly if it is covered: the cell held a location or both coordinates survive double rounding. Otherwise all it leaves is a lone location. |
| `Filing.AcceptedIff` | internal/store/store.go:55-87 | A call is answered without an error exactly if it says sighted, missed or removed, its user exists, and its cell is taken or its stored coordinates are in range. |
| `Filing.RefusedHow` | internal/store/store.go:56-73 | Which error a refused call gets: the words are looked at only once the location is there. |
| `Filing.TakenMeans` | internal/store/store.go:60-60 | A cell is taken exactly if some location rounds to the same six decimals. |
| `Filing.FirstAdds` | internal/store/store.go:56-60 | The row that the first statement adds. |
| `Filing.RefusedLeavesNothingIff` | internal/store/store.go:56-73 | A refused call leaves the database as it was exactly if its cell is taken, its stored coordinates are out of range or its user does not exist; otherwise it leaves a location. |
| `Filing.RefusedCallLeavesALocation` | internal/store/store.go:67-73 | A report of "unknown" from a fresh place is refused and leaves a location. |
| `Filing.RefilingLands` | internal/store/store.go:55-87 | Filing at a stored location's own coordinates creates no location and files the sighting unless it is refused, and when it is refused. |
| `Filing.LoneLocationsPileUp` | internal/store/store.go:56-82 | In the failing zone of a free cell n calls, all answered without an error, leave n equal locations and no sighting. |
| `Filing.LoneLocationsHappen` | internal/store/store.go:56-82 | From any database with the cell free, any number of calls of a user in the failing zone are answered without an error. |
| `Filing.ThreeLoneLocations` | internal/store/store.go:56-82 | Three reports from 0.00000045 degrees north of the origin leave three locations and no sighting. |
| `Filing.AppendKeepsOnePerCell` | internal/store/store.go:94-103 | Inserting a location, as InsertCanonical does without looking, keeps one location per cell exactly when the cell is free. |
| `Filing.FirstKeepsOnePerCellIff` | internal/store/store.go:56-60 | The exact condition under which the first statement keeps one location per cell; surviving double rounding is enough. |
| `Filing.EmptyBoxIsFreeCell` | internal/store/import.go:102-103 | The import's emptiness test implies the filing's cell test. |
| `Filing.ImportKeepsOnePerCell` | internal/store/import.go:93-149 | A successful import keeps one location per cell. |
| `Filing.RunKeepsOnePerCell` | internal/store/store.go:56-60 | Every interleaving of surviving calls with imports keeps one location per cell in every state. |
| `Filing.BoxHoldsCells` | internal/store/store.go:60-60 | With one location per cell an import box holds at most 92 times 92 locations. |
| `Filing.ImportsConvergeOverReports` | internal/store/import.go:93-149 | So from any database that users' reports have left with one location per cell, repeated import of a batch is settled after a number of runs that depends on neither the database nor the batch. |
| `Filing.RunKeepsNoRepeats` | internal/store/import.go:137-141 | Over every interleaving of imports of any batches with users' calls and other writers, no two imported sightings agree in location, state and key. |
| `Filing.NothingIsToldTwice` | internal/store/import.go:137-141 | The same, row by row. |
| `Filing.ToldOncePerLocation` | internal/store/import.go:130-142 | So over every such run a record is told no more often than its box holds locations. |
| `Filing.TellingsAreBounded` | internal/store/import.go:93-149 | With one location per cell and calls that survive rounding that is at most 92 times 92, whatever the run. |
| `Filing.CoveredCallsAreFiled` | internal/store/store.go:55-87 | In every state any interleaving of calls and other writers reaches, a call answered without an error that was covered at its first statement (its cell held a location, or its coordinates survive double rounding) owns a sighting with the answered id and its own data in its cell, and no two such calls share one. |
| `Filing.AnyStepMayFollow` | internal/store/store.go:55-87 | The runs spoken of are open to every interleaving: a first or second statement of any call, an import, an InsertCanonical or anything elsewhere may come next. |
| `Filing.TwoCallsShareAnId` | internal/store/store.go:75-86 | Without coverage it fails: a call that files nothing is answered with the id of the location it created, the sighting of the next call rightly gets the same id, and the first call owns no sighting. |
| `Filing.CoverageIsHistory` | internal/store/store.go:56-60 | In every run a call whose coordinates survive double rounding is covered from its first statement on. |
| `Filing.CoveredCallFilesOnce` | internal/store/store.go:75-82 | Whatever runs between its two statements, a covered call of a registered user appends exactly one sighting in its cell. |
| `MapView.AnswerIsUnique` | internal/store/mapping.go:20-34 | The choice among equally late rows of a group is all the query leaves open; it fixes the list of markers. |
| `MapView.OneMarkerPerLocation` | internal/store/mapping.go:31-31 | No location has two markers. |
| `MapView.MarkersMean` | internal/store/mapping.go:20-34 | Read off the tables: a location has a marker exactly when it is in the box with a sighting in the window that is not hidden (and, without missing ones, the latest taken one was sighted or is to exist); the marker shows a latest such sighting and their number. |
| `MapView.MarkersInOrder` | internal/store/mapping.go:33-33 | The latest marker comes first, and of equally late ones that of the smaller location id. |
| `MapView.SeenMeans` | internal/store/mapping.go:28-30 | Which sightings count for a location. |
| `MapView.WithoutMissingIsSublist` | internal/store/mapping.go:32-32 | Without missing ones the answer is exactly the sub-list of the markers that were sighted or are to exist. |
| `MapView.HidingCommutes` | internal/store/mapping.go:30-30 | Leaving out insincere reports is showing everything on the database with the flagged users' sightings deleted. |
| `MapView.SameHiddenSameAnswer` | internal/store/mapping.go:30-30 | Flags matter only through which reporters of sightings have a positive sum. |
| `MapView.BalancedFlagsChangeNothing` | internal/store/store.go:149-162 | Appended flags that cancel out for each reporter leave every map unchanged. |
| `MapView.WiderHasSameLatest` | internal/store/mapping.go:24-31 | A group that is not empty has the same latest rows in any wider window. |
| `MapView.WideningKeepsMarkers` | internal/store/mapping.go:17-33 | An earlier since keeps every marker with its row, status and latest time, and its count does not fall. |
| `MapView.WidePickIsNarrowPick` | internal/store/mapping.go:24-31 | Whatever the wide query took among ties, the narrow one may take as well. |
| `MapView.AggregateOne` | internal/store/mapping.go:24-31 | One step of the pass keeps, for every group, a latest row and the number of rows, whichever of two equally late rows it keeps. |
| `Shown.LastWordIsShown` | internal/store/mapping.go:20-34 | A sighting later than all others at its location is what every map shows there that has it in view and window and does not hide it, whatever the choice among ties. |
| `Shown.CoveredCallIsShown` | internal/store/store.go:75-86 | Over every interleaving, a covered call answered without an error has a sighting with the answered id in its cell, which every such map shows while it is the last word there. |
| `Shown.ImportedReportIsShown` | internal/store/import.go:126-145 | The same for every sighting an import run appends. |
| `Flags.AgreeAfterAppendIff` | internal/db/schema.sql:139-149 | For any history: right after a mark the sum rule and the newest-row rule agree if and only if the sum was not negative, right after a clearing if and only if it was at most one. |
| `Flags.TogglesStayInStep` | internal/webui/static/audit_sightings.html:386-405 | Over every run of toggles on any users each sum stays 0 or 1, and the two rules hide the same users after each. |
| `Flags.StaleReadBreaksAgreement` | internal/webui/static/audit_sightings.html:386-405 | Two dialogs that read before either appends leave, after the next clearing, a user hidden by the sum and cleared by the view. |
| `Flags.DialogReadsTheView` | internal/webui/static/audit_sightings.html:388-388 | The state the dialog takes from the listed flags is what the view says. |
| `Flags.CurrentMeans` | internal/db/schema.sql:139-149 | The view holds a user exactly if the newest of the user's rows of type insincere, by time and then by id, has value 1. |
| `Flags.FlagSumMeans` | internal/store/mapping.go:30-30 | The sum is over the rows of type insincere that target the user. |
| `Audit.ListIsUnique` | internal/store/auditing.go:48-49 | The order decides between any two events, so the list is determined. |
| `Audit.OmittedRankBelow` | internal/store/auditing.go:48-49 | At most 500 events are listed, and one of the window that is left out ranks below each of 500 listed ones by time, type and id. |
| `Audit.ListedInOrder` | internal/store/auditing.go:48-48 | The latest event comes first; at one time sightings before locations; of one type the larger id. |
| `Audit.EventsAreComparable` | internal/store/auditing.go:48-48 | Two different events never tie. |
| `Audit.EveryLocationIsListedOnce` | internal/store/auditing.go:14-29 | Where keys and references hold, each location of the window is exactly one event, with its author. |
| `Audit.EverySightingIsListedOnce` | internal/store/auditing.go:31-47 | And so is each sighting of the window, with its author and its location's coordinates. |
| `Identity.RehashAllIff` | internal/db/db.go:159-165 | The UPDATE loop succeeds exactly when each row finds its id free among the other users at its turn, and then it has rewritten opaque ids and nothing else. |
| `Identity.NoClashSucceeds` | internal/db/db.go:159-165 | With derived ids distinct and none another user's old id, the loop never collides midway, in any order of rows. |
| `Identity.BothOrdersSucceedIffNoClash` | internal/db/db.go:131-165 | The given order and its reverse both succeed if and only if there is no such clash. |
| `Identity.RehashedStaysUnique` | internal/db/schema.sql:54-54 | What the loop lets through has unique opaque ids. |
| `Identity.MigrationEffect` | internal/db/db.go:113-173 | The migration leaves the identical database, or ends with every identity row's user (by the user's last row, if there are several) under the code of its subject and key, other users untouched, all other columns kept and the legacy table gone. |
| `Identity.MigratesIff` | internal/db/db.go:113-173 | The migration succeeds exactly if there is no legacy table, or the seed decodes to a key and no subject is empty (unless there are no rows) and every row meets its id free at its turn. |
| `Identity.MigratedSubjectFindsItsUser` | internal/store/users.go:27-53 | After a successful migration the subject of an identity row resolves to the user the row named, with role, registration and note as they were. |
| `Identity.SeedIsForever` | internal/db/db.go:83-103 | Over every run, with or without a migration in it, the seed never changes after its first creation. |
| `Identity.SameUserIffSameHash` | internal/store/users.go:27-53 | Two resolutions anywhere in a run return the same user exactly when the codes of their subjects under the one key are equal; one subject always gets one user. |
| `Identity.ResolvedUserIsKeyed` | internal/store/users.go:27-53 | A resolution returns the user keyed by the code of its own subject under the decoded seed. |
| `Identity.OpaqueUserIDMeans` | internal/identity/identity.go:45-59 | An id cannot be derived exactly if the seed does not decode, decodes to an empty key, or the subject is empty; otherwise it is the code of the subject under the key. |
| `Identity.HeartbeatTouchesLastSeenOnly` | internal/store/users.go:42-48 | The upsert changes last_seen_at of a returning user alone, or adds a fresh reporter, and touches no other row. |
| `Identity.RolesAndNotesStand` | internal/store/users.go:101-129 | Over every run, migrations included, a role changes only by SetUserRole on that user's id at the time, a note only by SetUserCalled. |
| `Identity.LastSetterStands` | internal/store/users.go:101-129 | Over every run a user has the role and the note last given to it. |
| `Identity.OpenKeepsPermissionsIff` | internal/db/db.go:19-35 | The promise that editing role_permissions is not reset: a successful Open of any database leaves the permissions as they were if and only if no default is missing, and otherwise adds exactly the missing defaults, which are listed role by role. |
| `Identity.EditStandsIff` | internal/db/db.go:176-193 | Over every run, a permission last edited by an operator is there later exactly if the edit granted it, or it is a default and an Open has succeeded since: a revocation is undone by the next restart if and only if it is of a default. |
| `Identity.DeletedDefaultReturns` | internal/db/db.go:176-193 | A new file, its first Open, the revocation of a default, a restart: the default is back. |
| `History.HistoryIsAppendOnly` | internal/db/schema.sql:6-10 | Over every interleaving of all operations the schema's constraints hold in every state, locations, sightings and flags are only ever added, and no user is lost or re-registered. |
| `Store.Database.EnsureSeed` | internal/db/db.go:83-104 | Writes the candidate only if there is no seed, and returns the stored one. |
| `Store.Database.RehashUsers` | internal/db/db.go:159-165 | The row loop: all updates, or the users as before. |
| `Store.Database.DropUserIdentities` | internal/db/db.go:113-174 | The migration with its rollback, as specified. |
| `Store.Database.SeedRolePermissions` | internal/db/db.go:176-193 | Adds exactly the defaults, in whatever order they are ranged over. |
| `Store.Database.Open` | internal/db/db.go:39-69 | Seed, migration and permissions; a failing migration keeps the seed it wrote. |
| `Store.Store.HashSeed` | internal/store/users.go:12-20 | Reads the seed once and then repeats that answer, also when it was an error. |
| `Store.Store.ResolveUser` | internal/store/users.go:27-53 | The upsert under the code of the subject; it fails exactly for a missing or undecodable seed, an empty key or an empty subject, and then changes nothing. |
| `Store.Store.UserByOpaque` | internal/store/users.go:72-79 | The id of the user with that opaque id, or not found. |
| `Store.Store.SetUserRole` | internal/store/users.go:101-114 | Changes the role of the named user alone and reports whether there is one. |
| `Store.Store.SetUserCalled` | internal/store/users.go:116-129 | Changes the note of the user with that id alone and reports whether there is one. |
| `Store.Store.ImportRecord` | internal/store/import.go:93-149 | The two statements of one record, or the error that stops them. |
| `Store.Store.ImportSourceRecords` | internal/store/import.go:84-158 | The batch as specified; an error names the failing record's position, and after an error or a dry run the tables are as before. |
| `Store.Store.InsertSighting` | internal/store/store.go:55-87 | Both statements in a row, with all four outcomes of the call, and an id left open when nothing was filed. |
| `Store.Store.InsertCanonical` | internal/store/store.go:94-103 | One location with the next id, or nothing when a constraint stops it. |
| `Store.Store.MapData` | internal/store/mapping.go:18-58 | The one-pass aggregation with ordered output answers the specification for some legal choice among ties. |
| `Store.Store.SetInsincere` | internal/store/store.go:149-162 | Appends one row of value 1 or -1 for the named user, or nothing when there is no such user or flagger. |
| `Store.Store.ListUserFlags` | internal/store/store.go:204-228 | Exactly the flags of the named user, newest first, each with the opaque id of the user who set it. |
| `Store.Store.AuditEventsSince` | internal/store/auditing.go:11-68 | The first 500 events of the window in descending order. |
| `Calendar.TextOrderIsTimeOrder` | internal/store/store.go:34-34 | For instants of the years 0 to 9999, string comparison of the RFC 3339 texts is comparison of the instants (section 5.1 of RFC 3339), and the texts have one width. |
| `Calendar.EpochOrder` | internal/store/mapping.go:17-17 | Calendar fields compare like epoch seconds, through leap years. |
| `Calendar.TextOrder` | internal/store/mapping.go:17-17 | Texts compare like calendar fields. |
| `Calendar.DateMeans` | internal/store/store.go:34-34 | The text is year, month and day with dashes, T, and the time, 20 characters in all. |
| `Calendar.TimeMeans` | internal/store/store.go:34-34 | The time is hours, minutes and seconds with colons, and Z. |
| `Calendar.NewYearIs` | internal/store/mapping.go:17-17 | The instant at which a year begins, in closed form. |
| `Calendar.DaysBeforeYearIs` | internal/store/mapping.go:17-17 | The closed form counts the leap years. |
| `Calendar.UnixEpoch` | internal/store/mapping.go:17-17 | The count of seconds starts at 1 January 1970. |
| `Calendar.ZeroTime` | internal/store/import.go:96-97 | The time that the import takes for a missing one is 1 January of year 1. |
| `Calendar.MonthTable` | internal/store/mapping.go:17-17 | Each month begins when the one before has run its 28 to 31 days, by the leap-year rule. |
| `Calendar.CivilOf` | internal/store/mapping.go:17-17 | The fields of an instant are a valid date and have that instant as their epoch. |
| `Calendar.CivilOfEpoch` | internal/store/mapping.go:17-17 | A valid date is recovered from its instant. |
| `Kml.BuildRecords` | cmd/import-pirate-map/main.go:155-202 | Folder counts sum to records, discarded and bad coordinates together; every folder is listed with its class and size, the placemarks outside folders last; the records are those of exactly the usable placemarks, each once, in document order. |
| `Kml.ClassifyMeans` | cmd/import-pirate-map/main.go:206-218 | The words that class a folder, in any case, and which class wins. |
| `Kml.RecordMeans` | cmd/import-pirate-map/main.go:170-189 | Every column of a placemark's record, and exactly when there is none. |
| `Kml.DiscardedMeans` | cmd/import-pirate-map/main.go:158-168 | What is counted as discarded. |
| `Kml.LastLineDate` | cmd/import-pirate-map/main.go:260-278 | The date is that of the last line in range that yields one, or none does. |
| `Kml.FirstTupleIsRead` | cmd/import-pirate-map/main.go:291-309 | The first coordinate tuple of a placemark is read, longitude first, with or without an altitude, whatever follows it. |
| `Kml.WrittenDateIsRead` | cmd/import-pirate-map/main.go:267-277 | Every date of 1969 to 2068 written month/day/two-digit year is read back as that day. |
| `Kml.LastDateIsRead` | cmd/import-pirate-map/main.go:265-269 | Of two dates on a line the last is read. |
| `Kml.LinesAreSplit` | cmd/import-pirate-map/main.go:259-259 | Lines joined by HTML breaks fall apart into these lines. |
| `Kml.ObservationDateMeans` | cmd/import-pirate-map/main.go:258-280 | The last of the final five lines that yields a date dates the placemark if it is after the default, which holds otherwise. |
| `Kml.ScanLines` | cmd/import-pirate-map/main.go:258-280 | The backward scan over the final five lines returns the last line's date that yields one if it is after the default, and the default otherwise. |
| `Kml.RecordsAreSound` | cmd/import-pirate-map/main.go:170-189 | Every record passes the range checks of the locations table and is dated no earlier than the default. |
| `Kml.BuiltBatchCannotFail` | cmd/import-pirate-map/main.go:118-121 | For a registered importer no record of a built batch can make the import fail. |
| `Selection.SelectionIsUnique` | cmd/import-pirate-map/main.go:170-189 | The document determines the batch. |
| `Hsl.RoundTrip` | internal/webui/static/app.js:49-62 | For every colour of the gamut the hue is in [0, 360), saturation and lightness are in [0, 100], nothing is divided by zero, and the conversion of section 7.1 of CSS Color Module Level 4 gives the exact colour back. |
| `Hsl.ComputeHsl` | internal/webui/static/app.js:49-62 | The computation with reassigned locals, on any finite or infinite numbers and NaN, is the function proved to round-trip. |
| `Darken.PrintedParsesBack` | internal/webui/static/app.js:78-93 | What darken prints, toHsl reads back: hue, saturation and lightness exactly, and an alpha of the same text. |
| `Darken.PrintedText` | internal/webui/static/app.js:93-93 | The printed text is hsla(h, s%, l%, a). |
| `Darken.RoundedText` | internal/webui/static/app.js:93-93 | The text of a rounded number, of NaN and of the infinities. |
| `Darken.WholePartShows` | internal/webui/static/app.js:93-93 | What is asked can be met for every alpha at once. |
| `Darken.HexColourReadsBack` | internal/webui/static/app.js:67-73 | A colour written as six or eight hex digits reads as the three bytes and the alpha it was written from. |
| `Darken.ShortHexIsDoubled` | internal/webui/static/app.js:67-70 | A colour of three or four hex digits reads as the one with each digit doubled. |
| `Darken.RgbReads` | internal/webui/static/app.js:74-77 | "rgb(r, g, b)" reads as the conversion of the three components, opaque. |
| `Darken.RgbaReads` | internal/webui/static/app.js:74-77 | "rgba(r, g, b, a)" reads with the alpha its last part reads as. |
| `Darken.DecimalReads` | internal/webui/static/app.js:75-75 | Digits, a point and k digits read as the number of all the digits over the k-th power of ten. |
| `Darken.ScalesMean` | internal/webui/static/app.js:75-75 | What being over, or times, the n-th power of ten means. |
| `Darken.ExponentReads` | internal/webui/static/app.js:75-75 | Digits with an exponent, in either case and with any sign, read as their number times or over that power of ten. |
| `Darken.OtherWordsAreNoColour` | internal/webui/static/app.js:65-84 | A text that does not begin like a colour is none. |
| `Darken.LightnessComposesIff` | internal/webui/static/app.js:92-93 | Whatever the first step a, lowering by a, rounding, lowering by b and rounding is lowering by a + b and rounding for every lightness, also through the floor at 0, if and only if b is a natural number. |
| `Darken.DarkenComposesIff` | internal/webui/static/app.js:87-94 | On every nested expression and for any two steps, darkening by a and then by b is darkening by a + b if and only if it is so for the lightness of every colour in it. |
| `Darken.DarkenComposes` | internal/webui/static/app.js:87-94 | So for every natural b it is, on every nested expression. |
| `Darken.DarkenPreserves` | internal/webui/static/app.js:87-94 | Array shape, the text of the alpha, rounded hue and saturation, and everything that is not a colour are preserved; every colour's lightness is lowered by the step, not below 0, and rounded. |
| `Darken.LoweredMeans` | internal/webui/static/app.js:92-93 | The lightness becomes the whole number nearest to the difference, the upper of two, or 0 if the difference is negative. |

## Left out

- HTTP handlers, authentication, logging, static files, command lines, and the fetching and decoding of KML and KMZ files.
- HMAC-SHA256, base64 and random bytes: the hash is an arbitrary function of seed and subject.
- Plus codes, distances and bounding boxes: an external library and transcendental functions.
- `adoptCanonicalTx`, `insertCanonicalTx`, `insertSightingTx`, `InsertReconciliation` and the import statistics other than the number of records: never called, never updated, or aimed at tables that the schema does not have.
- `LocationHistory`, reputation notes, `ListUsers`, `HasPermission` and marker titles: plain queries or string joins.
- The rewriting of descriptions and image URLs by regular expressions in the import: a record carries the traits it ends up with.
- `locations.created_at` as the import writes it (a driver-formatted time rather than RFC 3339 text): the audit list is proved for normalised timestamps.
- Sub-second parts of times, and years beyond 9999.
- Binary floating point: coordinates, SQLite's `round` and colour components are exact reals; the sign of zero is not modelled.
- `Store.Store.MapData`: takes the bounding box as given; the source has no answer for a nil box.
- `Identity.NoClashSucceeds`: is stated for a legacy table with one row a user, whose own schema is not part of the repository; `Identity.RehashAllIff` has no such condition.
- `Identity.BothOrdersSucceedIffNoClash`: the same.
- `Identity.SameUserIffSameHash`: is stated for runs on which the seed is not overwritten through SetConfig, as the schema's note demands, and from the point where the legacy table is gone.
- `Kml.BuildRecords`: takes strconv.ParseFloat, the hashed key and the keyword rules for message and medium as given functions; lower-casing covers ASCII letters.
- `Darken.DarkenComposes`: takes the text of an alpha as a function of which it asks only that its text reads back as a number of the same text; whole numbers of 22 digits and more, which ECMAScript would write with an exponent, are printed in full.
- toHsl is modelled as a function: its reassigned local `hex` is a second binding of the same name.
- The rest of app.js and the other pages.
