/**
 * The SQLite store behind the workspace ledger: the three tables that
 * `initialize_db` creates, and the single statements that the workspace
 * manager runs through `execute_query`, `fetch_one` and `fetch_all`.
 *
 * Every table is a sequence of rows in rowid order.  Each mutating method
 * is one call of `execute_query`, hence one transaction: it either commits
 * its whole effect or, when the statement raises, rolls back and leaves
 * every table as it was.
 */
module Database {
  import opened Wrappers

  /** A row of `workspaces`; `lastActivatedAt` is NULL until the first start. */
  datatype WorkspaceRow = WorkspaceRow(
    id: nat,
    name: string,
    createdAt: int,
    lastActivatedAt: Option<int>,
    activateCount: nat)

  /** A row of `workspace_files`. */
  datatype FileRow = FileRow(id: nat, workspaceId: nat, filePath: string)

  /** A row of `active_processes`, the ledger of launched processes. */
  datatype ProcessRow = ProcessRow(id: nat, workspaceId: nat, pid: int, filePath: string, startedAt: int)

  /**
   * The statement failures modelled: the UNIQUE constraint on
   * `workspaces.name`, and any statement run before `initialize_db` created
   * the tables ("no such table").
   */
  datatype DbError = DuplicateName | NoSuchTable

  // ---------------------------------------------------------------------------
  // Table queries as functions over rows
  // ---------------------------------------------------------------------------

  /** `rel` holds of every two rows taken in table order. */
  ghost predicate Pairwise<T>(s: seq<T>, rel: (T, T) -> bool) {
    forall i, j :: 0 <= i < j < |s| ==> rel(s[i], s[j])
  }

  /** Dropping the first element keeps an ordering. */
  lemma PairwiseTail<T>(s: seq<T>, rel: (T, T) -> bool)
    requires Pairwise(s, rel) && s != []
    ensures Pairwise(s[1..], rel)
  {
    forall i, j | 0 <= i < j < |s| - 1 ensures rel(s[1..][i], s[1..][j]) {
      assert s[1..][i] == s[i + 1] && s[1..][j] == s[j + 1];
    }
  }

  /** An element related to everything in an ordered sequence can go in front of it. */
  lemma PairwiseCons<T>(h: T, t: seq<T>, rel: (T, T) -> bool)
    requires Pairwise(t, rel) && forall x :: x in t ==> rel(h, x)
    ensures Pairwise([h] + t, rel)
  {
    var r := [h] + t;
    forall i, j | 0 <= i < j < |r| ensures rel(r[i], r[j]) {
      assert r[j] == t[j - 1] && r[j] in t;
      if i > 0 {
        assert r[i] == t[i - 1];
      }
    }
  }

  /** The rows of `s` that satisfy `keep`, in table order: a WHERE clause. */
  function Filter<T(!new)>(s: seq<T>, keep: T -> bool): (r: seq<T>)
    ensures |r| <= |s|
    ensures forall x {:trigger x in r} :: x in r <==> x in s && keep(x)
  {
    if s == [] then []
    else
      var init := s[..|s| - 1];
      assert s == init + [s[|s| - 1]];
      Filter(init, keep) + (if keep(s[|s| - 1]) then [s[|s| - 1]] else [])
  }

  /** The position of the first row satisfying `p`: what `fetchone()` returns, or None. */
  function FirstIndex<T>(s: seq<T>, p: T -> bool): (r: Option<nat>)
    ensures r.Some? ==> r.value < |s| && p(s[r.value])
    ensures r.Some? ==> forall k :: 0 <= k < r.value ==> !p(s[k])
    ensures r.None? <==> forall k :: 0 <= k < |s| ==> !p(s[k])
  {
    if s == [] then None
    else if p(s[0]) then Some(0)
    else match FirstIndex(s[1..], p)
      case None => None
      case Some(k) => Some(k + 1)
  }

  /** `SELECT ... FROM workspaces WHERE name = ?`, as a position. */
  function IndexNamed(ws: seq<WorkspaceRow>, name: string): Option<nat> {
    FirstIndex(ws, (w: WorkspaceRow) => w.name == name)
  }

  /** `SELECT id FROM workspaces WHERE name = ?`: None exactly when no row has the name. */
  function IdNamed(ws: seq<WorkspaceRow>, name: string): (r: Option<nat>)
    ensures r.None? <==> forall w :: w in ws ==> w.name != name
    ensures r.Some? ==> exists w :: w in ws && w.name == name && w.id == r.value
  {
    match IndexNamed(ws, name)
    case None => None
    case Some(k) => Some(ws[k].id)
  }

  /**
   * `SELECT file_path FROM workspace_files WHERE workspace_id = ?`: every
   * path returned belongs to a file row of that workspace.
   */
  function PathsOf(files: seq<FileRow>, wid: nat): (r: seq<string>)
    ensures |r| <= |files|
    ensures forall p :: p in r ==> exists f :: f in files && f.workspaceId == wid && f.filePath == p
  {
    if files == [] then []
    else
      var last := files[|files| - 1];
      PathsOf(files[..|files| - 1], wid) + (if last.workspaceId == wid then [last.filePath] else [])
  }

  /** `SELECT id, pid, file_path FROM active_processes WHERE workspace_id = ?`. */
  function LedgerOf(ps: seq<ProcessRow>, wid: nat): (r: seq<ProcessRow>)
    ensures |r| <= |ps|
    ensures forall p :: p in r <==> p in ps && p.workspaceId == wid
  {
    Filter(ps, (p: ProcessRow) => p.workspaceId == wid)
  }

  /** The ledger rows of every workspace except `wid`. */
  function Without(ps: seq<ProcessRow>, wid: nat): seq<ProcessRow> {
    Filter(ps, (p: ProcessRow) => p.workspaceId != wid)
  }

  /** `DELETE FROM workspaces WHERE name = ?`, as the rows that remain. */
  function WithoutName(ws: seq<WorkspaceRow>, name: string): seq<WorkspaceRow> {
    Filter(ws, (w: WorkspaceRow) => w.name != name)
  }

  /** `DELETE FROM active_processes WHERE id = ?`, as the rows that remain. */
  function WithoutRow(ps: seq<ProcessRow>, id: nat): seq<ProcessRow> {
    Filter(ps, (p: ProcessRow) => p.id != id)
  }

  /** The rows of `workspace_files` that an insertion loop adds for `paths`. */
  function FileRows(firstId: nat, wid: nat, paths: seq<string>): (r: seq<FileRow>)
    ensures |r| == |paths|
  {
    seq(|paths|, i requires 0 <= i < |paths| => FileRow(firstId + i, wid, paths[i]))
  }

  /**
   * `UPDATE workspaces SET last_activated_at = ?, activate_count = activate_count + 1 WHERE id = ?`:
   * no row is added, removed or moved, and no id, name or creation time changes.
   */
  function Activated(ws: seq<WorkspaceRow>, wid: nat, now: int): (r: seq<WorkspaceRow>)
    ensures |r| == |ws|
    ensures forall k :: 0 <= k < |ws| ==>
      r[k].id == ws[k].id && r[k].name == ws[k].name && r[k].createdAt == ws[k].createdAt
  {
    seq(|ws|, i requires 0 <= i < |ws| =>
      if ws[i].id == wid
      then ws[i].(lastActivatedAt := Some(now), activateCount := ws[i].activateCount + 1)
      else ws[i])
  }

  /** The activation UPDATE touches neither `id` nor `name`, so the keys stay valid. */
  lemma ActivatedKeepsKeys(ws: seq<WorkspaceRow>, wid: nat, now: int, bound: nat)
    requires Pairwise(ws, KeysOrdered) && forall w :: w in ws ==> 1 <= w.id <= bound
    ensures var r := Activated(ws, wid, now);
      && Pairwise(r, KeysOrdered)
      && forall w :: w in r ==> 1 <= w.id <= bound
  {
    var r := Activated(ws, wid, now);
    assert forall k :: 0 <= k < |r| ==> r[k].id == ws[k].id && r[k].name == ws[k].name;
    forall w | w in r ensures 1 <= w.id <= bound {
      var k :| 0 <= k < |r| && r[k] == w;
      assert ws[k] in ws;
    }
  }

  /** Activating a workspace bumps its own row and leaves every other row as it was. */
  lemma ActivatedRow(ws: seq<WorkspaceRow>, k: nat, now: int)
    requires Pairwise(ws, KeysOrdered) && k < |ws|
    ensures var r := Activated(ws, ws[k].id, now);
      && r[k] == ws[k].(lastActivatedAt := Some(now), activateCount := ws[k].activateCount + 1)
      && (forall j :: 0 <= j < |ws| && j != k ==> r[j] == ws[j])
      && Pairwise(r, KeysOrdered)
  {
  }

  /** AUTOINCREMENT keys increase in table order, and `name` is UNIQUE. */
  predicate KeysOrdered(a: WorkspaceRow, b: WorkspaceRow) {
    a.id < b.id && a.name != b.name
  }

  predicate FileIdsOrdered(a: FileRow, b: FileRow) {
    a.id < b.id
  }

  predicate ProcessIdsOrdered(a: ProcessRow, b: ProcessRow) {
    a.id < b.id
  }

  // ---------------------------------------------------------------------------
  // Lemmas about the queries
  // ---------------------------------------------------------------------------

  lemma {:induction false} FilterConcat<T(!new)>(a: seq<T>, b: seq<T>, keep: T -> bool)
    ensures Filter(a + b, keep) == Filter(a, keep) + Filter(b, keep)
  {
    if b != [] {
      var init := b[..|b| - 1];
      assert (a + b)[..|a + b| - 1] == a + init;
      FilterConcat(a, init, keep);
    } else {
      assert a + b == a;
    }
  }

  /** Two WHERE clauses in turn select what their conjunction `both` selects. */
  lemma {:induction false} FilterTwice<T(!new)>(s: seq<T>, p: T -> bool, q: T -> bool, both: T -> bool)
    requires forall x :: x in s ==> both(x) == (p(x) && q(x))
    ensures Filter(Filter(s, p), q) == Filter(s, both)
  {
    if s != [] {
      var init := s[..|s| - 1];
      var last := s[|s| - 1];
      assert forall x :: x in init ==> x in s;
      FilterTwice(init, p, q, both);
      var tail := if p(last) then [last] else [];
      FilterConcat(Filter(init, p), tail, q);
      assert Filter(tail, q) == (if both(last) then [last] else []) by {
        if p(last) {
          assert [last][..0] == [];
        }
      }
    }
  }

  /** A WHERE clause that no row satisfies selects nothing. */
  lemma {:induction false} FilterNone<T(!new)>(s: seq<T>, keep: T -> bool)
    requires forall x :: x in s ==> !keep(x)
    ensures Filter(s, keep) == []
  {
    if s != [] {
      var init := s[..|s| - 1];
      assert forall x :: x in init ==> x in s;
      FilterNone(init, keep);
    }
  }

  /** A WHERE clause that every row satisfies selects the whole table. */
  lemma {:induction false} FilterKeepsAll<T(!new)>(s: seq<T>, keep: T -> bool)
    requires forall x :: x in s ==> keep(x)
    ensures Filter(s, keep) == s
  {
    if s != [] {
      var init, last := s[..|s| - 1], s[|s| - 1];
      assert forall x :: x in init ==> x in s;
      assert last in s;
      FilterKeepsAll(init, keep);
      assert Filter(s, keep) == init + [last] == s;
    }
  }

  /** A WHERE clause only matters on the rows that are there. */
  lemma {:induction false} FilterSame<T(!new)>(s: seq<T>, p: T -> bool, q: T -> bool)
    requires forall x :: x in s ==> p(x) == q(x)
    ensures Filter(s, p) == Filter(s, q)
  {
    if s != [] {
      var init := s[..|s| - 1];
      assert forall x :: x in init ==> x in s;
      FilterSame(init, p, q);
    }
  }

  /** Deleting rows keeps the rest in their order. */
  lemma {:induction false} FilterKeepsPairwise<T(!new)>(s: seq<T>, keep: T -> bool, rel: (T, T) -> bool)
    requires Pairwise(s, rel)
    ensures Pairwise(Filter(s, keep), rel)
  {
    if s != [] {
      var init := s[..|s| - 1];
      var last := s[|s| - 1];
      FilterKeepsPairwise(init, keep, rel);
      var f := Filter(init, keep);
      forall x | x in f ensures rel(x, last) {
        var i :| 0 <= i < |init| && init[i] == x;
        assert s[i] == x;
      }
      var r := Filter(s, keep);
      forall i, j | 0 <= i < j < |r| ensures rel(r[i], r[j]) {
        if j < |f| {
          assert r[i] == f[i] && r[j] == f[j];
        } else {
          assert r[i] == f[i] && r[j] == last;
          assert f[i] in f;
        }
      }
    }
  }

  /** Appending rows to `workspace_files` appends their paths to each workspace's query. */
  lemma {:induction false} PathsOfConcat(a: seq<FileRow>, b: seq<FileRow>, wid: nat)
    ensures PathsOf(a + b, wid) == PathsOf(a, wid) + PathsOf(b, wid)
  {
    if b != [] {
      var init := b[..|b| - 1];
      assert (a + b)[..|a + b| - 1] == a + init;
      PathsOfConcat(a, init, wid);
    } else {
      assert a + b == a;
    }
  }

  /**
   * The rows inserted for `paths` give back exactly `paths` for their own
   * workspace and nothing for any other.
   */
  lemma {:induction false} PathsOfFileRows(firstId: nat, wid: nat, paths: seq<string>, other: nat)
    ensures PathsOf(FileRows(firstId, wid, paths), wid) == paths
    ensures other != wid ==> PathsOf(FileRows(firstId, wid, paths), other) == []
  {
    if paths != [] {
      var n := |paths| - 1;
      assert FileRows(firstId, wid, paths)[..n] == FileRows(firstId, wid, paths[..n]);
      PathsOfFileRows(firstId, wid, paths[..n], other);
      assert paths[..n] + [paths[n]] == paths;
    }
  }

  /** A workspace id that no file row mentions has no files. */
  lemma {:induction false} PathsOfUnused(files: seq<FileRow>, wid: nat)
    requires forall f :: f in files ==> f.workspaceId != wid
    ensures PathsOf(files, wid) == []
  {
    if files != [] {
      var init := files[..|files| - 1];
      assert forall f :: f in init ==> f in files;
      PathsOfUnused(init, wid);
    }
  }

  // ---------------------------------------------------------------------------
  // The store
  // ---------------------------------------------------------------------------

  /**
   * One SQLite database file.  The `...Seq` counters are the
   * `sqlite_sequence` entries that AUTOINCREMENT keeps: the largest id ever
   * handed out in each table, so a deleted row's id is never reused.
   */
  class DatabaseManager {
    var tablesExist: bool
    var workspaces: seq<WorkspaceRow>
    var workspaceFiles: seq<FileRow>
    var activeProcesses: seq<ProcessRow>
    var workspaceSeq: nat
    var fileSeq: nat
    var processSeq: nat

    /** What the schema enforces: UNIQUE names and fresh, increasing AUTOINCREMENT ids. */
    ghost predicate Valid()
      reads this
    {
      && Pairwise(workspaces, KeysOrdered)
      && (forall w :: w in workspaces ==> 1 <= w.id <= workspaceSeq)
      && Pairwise(workspaceFiles, FileIdsOrdered)
      && (forall f :: f in workspaceFiles ==> 1 <= f.id <= fileSeq)
      && Pairwise(activeProcesses, ProcessIdsOrdered)
      && (forall p :: p in activeProcesses ==> 1 <= p.id <= processSeq)
    }

    /** A handle on a database file that holds no tables yet. */
    constructor ()
      ensures Valid() && !tablesExist
      ensures workspaces == [] && workspaceFiles == [] && activeProcesses == []
      ensures workspaceSeq == 0 && fileSeq == 0 && processSeq == 0
    {
      tablesExist := false;
      workspaces, workspaceFiles, activeProcesses := [], [], [];
      workspaceSeq, fileSeq, processSeq := 0, 0, 0;
    }

    /** `CREATE TABLE IF NOT EXISTS` for the three tables: existing tables and rows are kept. */
    method InitializeDb()
      requires Valid()
      modifies this
      ensures Valid() && tablesExist
      ensures old(tablesExist) ==> unchanged(this)
      ensures !old(tablesExist) ==>
        && workspaces == [] && workspaceFiles == [] && activeProcesses == []
        && workspaceSeq == 0 && fileSeq == 0 && processSeq == 0
    {
      if !tablesExist {
        workspaces, workspaceFiles, activeProcesses := [], [], [];
        workspaceSeq, fileSeq, processSeq := 0, 0, 0;
        tablesExist := true;
      }
    }

    /**
     * `fetch_one("SELECT id FROM workspaces WHERE name = ?")`: None when no
     * row matches; "no such table" before the tables exist.
     */
    method FindWorkspaceId(name: string) returns (r: Result<Option<nat>, DbError>)
      requires Valid()
      ensures r.Failure? <==> !tablesExist
      ensures r.Failure? ==> r.error == NoSuchTable
      ensures r.Success? ==> r.value == IdNamed(workspaces, name)
      ensures r.Success? ==> (r.value.None? <==> forall w :: w in workspaces ==> w.name != name)
      ensures r.Success? && r.value.Some? ==>
        exists w :: w in workspaces && w.name == name && w.id == r.value.value
    {
      if !tablesExist {
        return Failure(NoSuchTable);
      }
      var i := 0;
      while i < |workspaces|
        invariant 0 <= i <= |workspaces|
        invariant forall k :: 0 <= k < i ==> workspaces[k].name != name
      {
        if workspaces[i].name == name {
          return Success(Some(workspaces[i].id));
        }
        i := i + 1;
      }
      r := Success(None);
    }

    /** `fetch_all("SELECT file_path FROM workspace_files WHERE workspace_id = ?")`. */
    method FetchFilePaths(wid: nat) returns (r: Result<seq<string>, DbError>)
      requires Valid()
      ensures r.Failure? <==> !tablesExist
      ensures r.Failure? ==> r.error == NoSuchTable
      ensures r.Success? ==> r.value == PathsOf(workspaceFiles, wid)
      ensures r.Success? ==> |r.value| <= |workspaceFiles|
    {
      if !tablesExist {
        return Failure(NoSuchTable);
      }
      var paths := [];
      var i := 0;
      while i < |workspaceFiles|
        invariant 0 <= i <= |workspaceFiles|
        invariant paths == PathsOf(workspaceFiles[..i], wid)
        invariant |paths| <= i
      {
        assert workspaceFiles[..i + 1][..i] == workspaceFiles[..i];
        if workspaceFiles[i].workspaceId == wid {
          paths := paths + [workspaceFiles[i].filePath];
        }
        i := i + 1;
      }
      assert workspaceFiles[..i] == workspaceFiles;
      r := Success(paths);
    }

    /** `fetch_all("SELECT id, pid, file_path FROM active_processes WHERE workspace_id = ?")`. */
    method FetchLedger(wid: nat) returns (r: Result<seq<ProcessRow>, DbError>)
      requires Valid()
      ensures r.Failure? <==> !tablesExist
      ensures r.Failure? ==> r.error == NoSuchTable
      ensures r.Success? ==> r.value == LedgerOf(activeProcesses, wid)
      ensures r.Success? ==> forall p :: p in r.value <==> p in activeProcesses && p.workspaceId == wid
    {
      if !tablesExist {
        return Failure(NoSuchTable);
      }
      var rows := [];
      var i := 0;
      while i < |activeProcesses|
        invariant 0 <= i <= |activeProcesses|
        invariant rows == LedgerOf(activeProcesses[..i], wid)
      {
        assert activeProcesses[..i + 1][..i] == activeProcesses[..i];
        if activeProcesses[i].workspaceId == wid {
          rows := rows + [activeProcesses[i]];
        }
        i := i + 1;
      }
      assert activeProcesses[..i] == activeProcesses;
      r := Success(rows);
    }

    /**
     * `INSERT INTO workspaces (name) VALUES (?)`: the new row takes the next
     * AUTOINCREMENT id, `created_at` = the store's clock, `last_activated_at`
     * = NULL and `activate_count` = 0.  A taken name violates UNIQUE; before
     * the tables exist there is no table to insert into.  Either way the
     * statement is rolled back and nothing changes.
     */
    method InsertWorkspace(name: string, now: int) returns (r: Result<nat, DbError>)
      requires Valid()
      modifies this
      ensures Valid()
      ensures r.Failure? ==> unchanged(this)
      ensures !old(tablesExist) ==> r == Failure(NoSuchTable)
      ensures old(tablesExist) ==> (r.Failure? <==> IndexNamed(old(workspaces), name).Some?)
      ensures old(tablesExist) && r.Failure? ==> r.error == DuplicateName
      ensures r.Success? ==>
        && r.value == old(workspaceSeq) + 1 == workspaceSeq
        && workspaces == old(workspaces) + [WorkspaceRow(r.value, name, now, None, 0)]
        && workspaceFiles == old(workspaceFiles) && activeProcesses == old(activeProcesses)
        && fileSeq == old(fileSeq) && processSeq == old(processSeq)
        && tablesExist == old(tablesExist)
    {
      if !tablesExist {
        return Failure(NoSuchTable);
      }
      if IndexNamed(workspaces, name).Some? {
        return Failure(DuplicateName);
      }
      var row := WorkspaceRow(workspaceSeq + 1, name, now, None, 0);
      workspaces := workspaces + [row];
      workspaceSeq := workspaceSeq + 1;
      r := Success(workspaceSeq);
    }

    /** `INSERT INTO workspace_files (workspace_id, file_path) VALUES (?, ?)`. */
    method InsertFile(wid: nat, path: string) returns (r: Result<nat, DbError>)
      requires Valid()
      modifies this
      ensures Valid()
      ensures r.Failure? <==> !old(tablesExist)
      ensures r.Failure? ==> r.error == NoSuchTable && unchanged(this)
      ensures r.Success? ==>
        && r.value == old(fileSeq) + 1 == fileSeq
        && workspaceFiles == old(workspaceFiles) + [FileRow(r.value, wid, path)]
        && workspaces == old(workspaces) && activeProcesses == old(activeProcesses)
        && workspaceSeq == old(workspaceSeq) && processSeq == old(processSeq)
        && tablesExist == old(tablesExist)
    {
      if !tablesExist {
        return Failure(NoSuchTable);
      }
      fileSeq := fileSeq + 1;
      workspaceFiles := workspaceFiles + [FileRow(fileSeq, wid, path)];
      r := Success(fileSeq);
    }

    /**
     * `INSERT INTO active_processes (workspace_id, pid, file_path) VALUES (?, ?, ?)`;
     * `startedAt` is the store's clock, the column's CURRENT_TIMESTAMP default.
     */
    method InsertProcess(wid: nat, pid: int, path: string, startedAt: int) returns (r: Result<nat, DbError>)
      requires Valid()
      modifies this
      ensures Valid()
      ensures r.Failure? <==> !old(tablesExist)
      ensures r.Failure? ==> r.error == NoSuchTable && unchanged(this)
      ensures r.Success? ==>
        && r.value == old(processSeq) + 1 == processSeq
        && activeProcesses == old(activeProcesses) + [ProcessRow(r.value, wid, pid, path, startedAt)]
        && workspaces == old(workspaces) && workspaceFiles == old(workspaceFiles)
        && workspaceSeq == old(workspaceSeq) && fileSeq == old(fileSeq)
        && tablesExist == old(tablesExist)
    {
      if !tablesExist {
        return Failure(NoSuchTable);
      }
      processSeq := processSeq + 1;
      activeProcesses := activeProcesses + [ProcessRow(processSeq, wid, pid, path, startedAt)];
      r := Success(processSeq);
    }

    /**
     * `UPDATE workspaces SET last_activated_at = ?, activate_count = activate_count + 1 WHERE id = ?`;
     * false, changing nothing, when there is no table to update.
     */
    method MarkActivated(wid: nat, now: int) returns (ok: bool)
      requires Valid()
      modifies this
      ensures Valid()
      ensures ok <==> old(tablesExist)
      ensures !ok ==> unchanged(this)
      ensures ok ==>
        && workspaces == Activated(old(workspaces), wid, now)
        && workspaceFiles == old(workspaceFiles) && activeProcesses == old(activeProcesses)
        && workspaceSeq == old(workspaceSeq) && fileSeq == old(fileSeq) && processSeq == old(processSeq)
        && tablesExist == old(tablesExist)
    {
      if !tablesExist {
        return false;
      }
      ActivatedKeepsKeys(workspaces, wid, now, workspaceSeq);
      workspaces := Activated(workspaces, wid, now);
      ok := true;
    }

    /**
     * `DELETE FROM active_processes WHERE id = ?`: deleting an id that is gone
     * changes nothing; false, changing nothing, when there is no table.
     */
    method DeleteProcess(id: nat) returns (ok: bool)
      requires Valid()
      modifies this
      ensures Valid()
      ensures ok <==> old(tablesExist)
      ensures !ok ==> unchanged(this)
      ensures ok ==>
        && activeProcesses == WithoutRow(old(activeProcesses), id)
        && workspaces == old(workspaces) && workspaceFiles == old(workspaceFiles)
        && workspaceSeq == old(workspaceSeq) && fileSeq == old(fileSeq) && processSeq == old(processSeq)
        && tablesExist == old(tablesExist)
    {
      if !tablesExist {
        return false;
      }
      FilterKeepsPairwise(activeProcesses, (p: ProcessRow) => p.id != id, ProcessIdsOrdered);
      activeProcesses := WithoutRow(activeProcesses, id);
      ok := true;
    }

    /**
     * `DELETE FROM workspaces WHERE name = ?`.  The connection never turns on
     * `PRAGMA foreign_keys`, so SQLite enforces no foreign key: the
     * workspace's file rows and ledger rows stay where they are.  False,
     * changing nothing, when there is no table.
     */
    method DeleteWorkspaceNamed(name: string) returns (ok: bool)
      requires Valid()
      modifies this
      ensures Valid()
      ensures ok <==> old(tablesExist)
      ensures !ok ==> unchanged(this)
      ensures ok ==>
        && workspaces == WithoutName(old(workspaces), name)
        && workspaceFiles == old(workspaceFiles) && activeProcesses == old(activeProcesses)
        && workspaceSeq == old(workspaceSeq) && fileSeq == old(fileSeq) && processSeq == old(processSeq)
        && tablesExist == old(tablesExist)
    {
      if !tablesExist {
        return false;
      }
      FilterKeepsPairwise(workspaces, (w: WorkspaceRow) => w.name != name, KeysOrdered);
      workspaces := WithoutName(workspaces, name);
      ok := true;
    }
  }
}
