# QuickStart workspace ledger in Dafny

This project models the core of QuickStart, a command-line tool that saves named
*workspaces* (lists of files), opens all files of a workspace at once, tracks the
processes it launched, and later terminates them. It covers:

- `WorkspaceManager` in `src/workspace_manager.py`:
  - `create_workspace`, `list_workspaces`, `start_workspace`, `stop_workspace`,
    `get_active_workspaces` and `delete_workspace`.
- The SQLite store behind it, `DatabaseManager` in `src/database_manager.py`:
  - the three tables that `initialize_db` creates (`workspaces`, `workspace_files`,
    `active_processes`), with their defaults, the UNIQUE name and the AUTOINCREMENT keys;
  - the statements the manager runs through `execute_query`, `fetch_one` and `fetch_all`.

Files:

- `wrappers.dfy` (module `Wrappers`): `Option` for NULL columns and empty `fetchone()`,
  `Result` for statements that can raise.
- `database_manager.dfy` (module `Database`): row datatypes, the queries as functions over
  rows, and class `DatabaseManager`. The class holds the three tables as `seq` fields in
  rowid order, plus the `sqlite_sequence` counters that make AUTOINCREMENT ids fresh and
  never reused. Each mutating method is one `execute_query` call, so one transaction: it
  commits its whole effect, or it raises and changes nothing.
- `workspace_manager.dfy` (module `Workspaces`): class `WorkspaceManager`, one method per
  Python method. Each loop of the source is a method with its invariants: inserting
  file rows, launching files, clearing the ledger and building the listing.

The outside world is passed in as parameters:

- The local wall clock `datetime.now()` is an integer `now`; `create_workspace` also uses
  it for the row's `created_at`, which SQLite fills with CURRENT_TIMESTAMP (see "Left out").
- Launching a file (`subprocess.Popen`) is one `Launch` per file: either a pid together
  with the CURRENT_TIMESTAMP that the ledger insert stores as `started_at`
  (`Launch.recordedAt`, not `now`), or an OSError.
- The process table at stop time (`psutil`) is one `Probe` per ledger row. Either the pid
  is gone, or it runs with a list of descendants; then `failsAt` is the position of the
  first terminate call that raises (descendants first, the process itself last).

Deleting a workspace removes only its `workspaces` row. The schema declares
`ON DELETE CASCADE` on `workspace_files`, but `get_connection` never turns on
`PRAGMA foreign_keys`, and SQLite enforces foreign keys only with that pragma. So the file
rows and ledger rows of a deleted workspace stay in their tables. They are never seen
again: ids are never reused, and every query starts from an existing workspace
(`RowsReferToIssuedIds` is kept as an invariant).

The code keeps no usage sessions and no accumulated usage time (no table or column holds
them, and `stop_workspace` records no duration), so the model has neither.

## Model

| member | source | states |
|---|---|---|
| Database.DatabaseManager.constructor | src/database_manager.py:6-7 | The class stands for the database file at `DB_PATH`, and its constructor for that file's first creation: no tables yet, and every AUTOINCREMENT counter is 0. A later `DatabaseManager()` on an existing file is the same object, with its tables |
| Database.DatabaseManager.InitializeDb | src/database_manager.py:9-41 | CREATE TABLE IF NOT EXISTS: the tables exist afterwards; if they existed before, no row and no counter changes (idempotent); otherwise all three tables start empty |
| Database.DatabaseManager.FindWorkspaceId | src/database_manager.py:70-75 | `fetch_one` of the id by name. Before `initialize_db` has created the tables it raises "no such table" (`NoSuchTable`). Otherwise None exactly when no row has the name, and else the id of a row with that name |
| Database.DatabaseManager.FetchFilePaths | src/database_manager.py:63-68 | `fetch_all` of a workspace's paths. Before `initialize_db` has created the tables it raises "no such table" (`NoSuchTable`). Otherwise the paths of exactly the file rows with that workspace id, in table order |
| Database.DatabaseManager.FetchLedger | src/workspace_manager.py:125-128 | The ledger query. Before `initialize_db` has created the tables it raises "no such table" (`NoSuchTable`). Otherwise a row is returned exactly when it is in `active_processes` with that workspace id, in table order |
| Database.DatabaseManager.InsertWorkspace | src/database_manager.py:12-18 | Before `initialize_db` has created the tables it raises "no such table" (`NoSuchTable`) and changes nothing. Once the tables exist, the insert fails with `DuplicateName` and changes nothing exactly when the name is taken (UNIQUE). Otherwise it appends one row under the next AUTOINCREMENT id (returned as `lastrowid`), with `created_at` = now, `last_activated_at` NULL and `activate_count` 0, and leaves the other tables alone |
| Database.DatabaseManager.InsertFile | src/database_manager.py:56-61 | `execute_query` of a file INSERT. Before `initialize_db` has created the tables it raises "no such table" (`NoSuchTable`) and changes nothing. Otherwise it appends one file row under the next id and returns that id; nothing else changes |
| Database.DatabaseManager.InsertProcess | src/database_manager.py:28-36 | Before `initialize_db` has created the tables it raises "no such table" (`NoSuchTable`) and changes nothing. Otherwise it appends one ledger row under the next id, with `started_at` from the store's clock; nothing else changes |
| Database.DatabaseManager.MarkActivated | src/workspace_manager.py:109-112 | The activation UPDATE. Before `initialize_db` has created the tables it raises "no such table" (result false) and changes nothing. Otherwise the workspace table becomes `Activated(old, id, now)`, the keys and UNIQUE names stay valid, and nothing else changes |
| Database.DatabaseManager.DeleteProcess | src/workspace_manager.py:148 | DELETE by ledger id. Before `initialize_db` has created the tables it raises "no such table" (result false) and changes nothing. Otherwise it removes that row, keeps the rest in order and changes nothing else |
| Database.DatabaseManager.DeleteWorkspaceNamed | src/workspace_manager.py:172 | DELETE by name. Before `initialize_db` has created the tables it raises "no such table" (result false) and changes nothing. Otherwise it removes the named row; file and ledger rows stay, because foreign keys are not enforced |
| Database.Filter | src/database_manager.py:63-68 | A WHERE clause: the result holds a row exactly when the table holds it and the row satisfies the clause, and it is no longer than the table |
| Database.IdNamed | src/workspace_manager.py:60 | `SELECT id FROM workspaces WHERE name = ?`: None exactly when no row has the name, otherwise the id of a row with that name |
| Database.PathsOf | src/workspace_manager.py:67 | The file query of a workspace: no more paths than file rows, and every path comes from a file row of that workspace (its other lemmas give the exact contents) |
| Database.LedgerOf | src/workspace_manager.py:125-128 | The ledger query of a workspace: exactly the rows of `active_processes` with that workspace id, in table order |
| Database.Activated | src/workspace_manager.py:109-112 | The activation UPDATE adds, removes and moves no row, and keeps every id, name and creation time (`ActivatedRow` gives the changed columns) |
| Database.FirstIndex | src/database_manager.py:70-75 | `fetchone()`: None exactly when no row matches; otherwise the first matching position |
| Database.ActivatedRow | src/workspace_manager.py:109-112 | The UPDATE bumps `activate_count` by exactly one and sets `last_activated_at` = now on the matching row only; every other row is unchanged |
| Database.ActivatedKeepsKeys | src/database_manager.py:13-14 | The activation UPDATE keeps ids increasing, names UNIQUE and ids within the issued range |
| Database.FilterTwice | src/workspace_manager.py:134-148 | Two successive DELETEs leave what one DELETE with the conjoined condition leaves |
| Database.FilterKeepsAll | src/database_manager.py:63-68 | A WHERE clause that every row satisfies returns the whole table |
| Database.FilterNone | src/database_manager.py:63-68 | A WHERE clause that no row satisfies returns nothing |
| Database.FilterKeepsPairwise | src/database_manager.py:13-14 | Deleting rows keeps the key order and name uniqueness of the remaining rows |
| Database.PathsOfConcat | src/workspace_manager.py:67 | Appending file rows appends their paths to each workspace's path query |
| Database.PathsOfFileRows | src/workspace_manager.py:26-30 | The rows inserted for a path list give back exactly that list for their workspace and nothing for any other |
| Database.PathsOfUnused | src/workspace_manager.py:67 | A workspace id that no file row mentions has no paths |
| Workspaces.WorkspaceManager.constructor | src/workspace_manager.py:10-12 | Building the manager runs `initialize_db` on the store: existing tables and counters are kept as they were; missing tables start empty with every AUTOINCREMENT counter at 0 |
| Workspaces.WorkspaceManager.CreateWorkspace | src/workspace_manager.py:14-35 | Succeeds exactly when the file list is non-empty and the name is free. On failure no table and no counter changes. On success one workspace row is appended under the next id and one file row per path, in order; the workspace counter advances by one, the file counter by the number of paths; the ledger and its counter are untouched |
| Workspaces.WorkspaceManager.InsertFiles | src/workspace_manager.py:26-30 | The file loop appends exactly `FileRows(first id, workspace id, paths)`, advances the file counter by the number of paths, leaves the other counters alone and keeps the store valid |
| Workspaces.CreatedWorkspace | src/workspace_manager.py:21-31 | After a create, the name resolves to the new id; that id is fresh (no earlier workspace had it); the new workspace's paths are exactly the given list, so the listing's file count is its length; every earlier workspace lists as before |
| Workspaces.NewFileRows | src/workspace_manager.py:26-30 | File rows added under a fresh workspace id give that workspace exactly its paths and leave every other workspace's paths unchanged |
| Workspaces.SummaryOf | src/workspace_manager.py:39-43 | One LEFT JOIN row: the workspace's columns with the count of its file rows, which is at most the number of file rows |
| Workspaces.Summaries | src/workspace_manager.py:39-43 | GROUP BY w.id: one summary per workspace row, in table order, carrying its name and activation count |
| Workspaces.ListedBeforeOrders | src/workspace_manager.py:44 | `ListedBefore`, the order of `ORDER BY last_activated_at DESC`, is a total preorder in which NULL comes after every time and later times come first |
| Workspaces.InsertByActivation | src/workspace_manager.py:44-55 | Placing one more summary into the listing makes it one longer and contains that summary (ordering and multiset lemmas below) |
| Workspaces.WorkspaceManager.ListWorkspaces | src/workspace_manager.py:37-56 | The listing is ordered by `last_activated_at` descending, with NULL last. It is a permutation of the per-workspace summaries: one entry per workspace, each with that workspace's file count |
| Workspaces.InsertByActivationSorted | src/workspace_manager.py:44 | Inserting an entry into an ordered listing keeps it ordered by activation time, NULL last |
| Workspaces.InsertByActivationAddsOne | src/workspace_manager.py:47-55 | Inserting adds exactly that one entry (multiset equality) |
| Workspaces.AheadOfAll | src/workspace_manager.py:44 | An entry that must precede the head of an ordered listing precedes all of it |
| Workspaces.ListingCovers | src/workspace_manager.py:39-43 | A listing that is a permutation of the summaries has one entry per workspace and contains exactly the summaries |
| Workspaces.WorkspaceManager.StartWorkspace | src/workspace_manager.py:58-113 | Unknown name or no files: false, nothing changes (`activate_count` is not bumped). Otherwise the workspace is activated once, whatever the launch outcomes; the ledger gains exactly `LaunchRows` (one row per successful launch, in file order) and the ledger counter advances by their number, the other counters unchanged; the result is true exactly when every launch succeeded; if any launch succeeded, the workspace is then active |
| Workspaces.WorkspaceManager.LaunchFiles | src/workspace_manager.py:72-105 | The launch loop: the ledger gains `LaunchRows` for all attempts and its counter advances by their number, and `success` is true exactly when every file launched; the other tables and counters stay as they were |
| Workspaces.LaunchRows | src/workspace_manager.py:72-101 | The rows the loop has inserted after some attempts: consecutive ids from the first one, all for the started workspace |
| Workspaces.LaunchedRows | src/workspace_manager.py:72-101 | The reference definition of the inserted rows: one per successful launch, in file order (its length is the number of successes) |
| Workspaces.WorkspaceManager.RecordLaunch | src/workspace_manager.py:88-105 | One attempt keeps the loop state: a launched file adds its ledger row under the next id; a failed one adds nothing and clears `success` |
| Workspaces.LaunchRowsAreLaunched | src/workspace_manager.py:72-101 | The rows the loop inserts are exactly one row per launched file, in file order, with consecutive ids, carrying the launch's pid and path |
| Workspaces.LaunchRowsCount | src/workspace_manager.py:72-105 | The loop adds at most one row per attempt, and one per attempt exactly when every attempt so far succeeded |
| Workspaces.LaunchedRowsStep | src/workspace_manager.py:88-105 | One more attempt extends the launched rows by that file's row exactly when it launched |
| Workspaces.Successes | src/workspace_manager.py:73-105 | The positions of successful launches: each is a launched position, and there are at most as many as files |
| Workspaces.SuccessesIncreasing | src/workspace_manager.py:73 | Successful positions are listed in file order, each once |
| Workspaces.SuccessesComplete | src/workspace_manager.py:73-101 | Every launched file is among the successes |
| Workspaces.SuccessesAll | src/workspace_manager.py:72-105 | Every file is a success exactly when every launch succeeded |
| Workspaces.LaunchMakesActive | src/workspace_manager.py:98-112 | After at least one successful launch and the activation, the workspace's name is among the active names of the resulting tables |
| Workspaces.LaunchedIsActive | src/workspace_manager.py:155-159 | A workspace that owns a ledger row is active |
| Workspaces.WorkspaceManager.StopWorkspace | src/workspace_manager.py:115-150 | Unknown name: false, nothing changes. No ledger rows: true, nothing changes. Otherwise true: every ledger row of the workspace is deleted whatever termination gave; no other row, table or counter changes; the signalled pids are `Signals` of the fetched rows. Afterwards the name is not active, and every other name is active exactly as before |
| Workspaces.WorkspaceManager.ClearLedger | src/workspace_manager.py:134-148 | The stop loop deletes exactly the fetched rows, terminates each row's process tree in turn, and changes nothing else |
| Workspaces.Terminated | src/workspace_manager.py:136-145 | For one ledger row: nothing when the pid is gone; otherwise a prefix of "descendants, then the process itself", cut exactly at the first terminate call that raises |
| Workspaces.Signals | src/workspace_manager.py:134-145 | The pids terminated over all fetched rows: each one from the process tree of some row |
| Workspaces.ActiveNames | src/workspace_manager.py:155-159 | The DISTINCT JOIN: only names of existing workspaces, and none when the ledger is empty (`ActiveNamesStep` gives the exact contents) |
| Workspaces.TerminateTree | src/workspace_manager.py:136-145 | A gone process gets no signal. A running one has its descendants terminated first and itself last, stopping at the first call that raises: the signals are a prefix of that order, of exactly the length up to the failure |
| Workspaces.SignalsStep | src/workspace_manager.py:134-145 | Stopping one more row appends that row's terminated pids |
| Workspaces.UnlistedStep | src/workspace_manager.py:148 | Deleting the next fetched row by id leaves exactly the ledger rows not fetched so far (ids are unique) |
| Workspaces.UnlistedLedger | src/workspace_manager.py:125-148 | Deleting every fetched row of a workspace leaves exactly the other workspaces' rows, and none of its own |
| Workspaces.StopClearsActivity | src/workspace_manager.py:155-159 | Removing a workspace's ledger rows removes exactly its name from the active names |
| Workspaces.ActiveNamesStep | src/workspace_manager.py:155-159 | One more ledger row adds the name of the workspace it refers to, if there is one, and nothing else |
| Workspaces.SameIdSameRow | src/database_manager.py:13 | The primary key identifies one workspace row |
| Workspaces.SameProcessIdSameRow | src/database_manager.py:30 | The primary key identifies one ledger row |
| Workspaces.WorkspaceManager.GetActiveWorkspaces | src/workspace_manager.py:152-161 | A name is returned exactly when some ledger row refers to a workspace with that name; no name is returned twice |
| Workspaces.WorkspaceManager.DeleteWorkspace | src/workspace_manager.py:163-176 | Unknown name: false, nothing changes. Otherwise true: exactly the named row is removed, every other workspace row stays, and no counter changes (ids stay unused). The name then appears in neither the listing nor the active names |

## Left out

- Process launch and termination are not modelled as system calls. `subprocess.Popen` and
  `psutil` become the `Launch` and `Probe` sequences, so only their effect on the ledger
  is modelled.
- Timestamps are integers: `now` for `created_at` and `last_activated_at`, and
  `Launch.recordedAt` for `started_at`. They are compared as integers; the text format
  SQLite stores them in is not modelled.
- Workspaces.WorkspaceManager.StartWorkspace: requires one launch outcome per stored file,
  because that is the shape of the oracle, not a demand of the source.
- Workspaces.WorkspaceManager.StopWorkspace: requires one probe per ledger row of the
  workspace, for the same reason.
- Workspaces.WorkspaceManager.ListWorkspaces: ties in `last_activated_at` may come out in
  any order in SQLite. The contract states only the ordering and the permutation, not the
  order among ties.
- Workspaces.WorkspaceManager.GetActiveWorkspaces: SQL gives DISTINCT names in no fixed
  order. The contract states the set of names and that there are no repeats, not their order.
- Exceptions from `subprocess.Popen` other than OSError (for instance a ValueError for a
  path with an embedded NUL) are not modelled. In the source such an exception escapes the
  `except OSError`: the ledger rows inserted so far stay, the activation UPDATE is
  skipped, and `start_workspace` raises instead of returning.
- `created_at` and `started_at` come from SQLite's CURRENT_TIMESTAMP, which is UTC, while
  `last_activated_at` comes from `datetime.now()`, which is local time. The model treats
  all of them as one integer time line (`now` and `Launch.recordedAt`), and does not
  model the time zone offset between them.
- Storage failures other than the UNIQUE name violation (disk full, locked database) are not
  modelled. In the source such a failure during `create_workspace` after the workspace
  insert would leave a partial workspace, because every statement commits on its own.
- `activate_count` is an unbounded natural. SQLite's 64-bit integer overflow after 2^63
  activations is not modelled.
- `fetch_all` without ORDER BY is taken to return rows in rowid order, which is what SQLite
  does for these simple scans.
- `src/main.py` (command-line interface, tables, prompts, the no-spaces name rule),
  `src/utils.py` (file picker dialog, local time formatting), `src/config.py` (database
  path) and `setup.py` are not part of this model: they are I/O and presentation.
- Usage sessions and usage time are not modelled: the code has neither.
- Console messages are not modelled: the `print` calls in `src/workspace_manager.py`
  (lines 34, 62, 69, 104, 119, 131, 145, 167 and 175) write text and change no state.
  Only the return values and the tables are modelled.
