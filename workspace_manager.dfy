/**
 * The workspace ledger: creating a workspace from a list of files,
 * starting it (launch every file, record each launched process), stopping
 * it (terminate every recorded process tree, clear its ledger rows),
 * listing workspaces and deleting one.
 *
 * The operating system is outside the model.  What the launcher reports for
 * each file, and what the process table reports for each recorded pid, are
 * given to `StartWorkspace` and `StopWorkspace` as sequences of outcomes,
 * one per file or per ledger row.  The wall clock is a `now` parameter.
 */
module Workspaces {
  import opened Wrappers
  import opened Database

  // ---------------------------------------------------------------------------
  // The outside world
  // ---------------------------------------------------------------------------

  /**
   * What launching one file gives: a pid together with the store's clock
   * when the ledger row is inserted (the CURRENT_TIMESTAMP default of
   * `started_at`), or an OSError.
   */
  datatype Launch = Launched(pid: int, recordedAt: int) | LaunchFailed

  /**
   * What the process table says about one recorded pid at stop time: it is
   * gone, or it runs with the given descendants (`children(recursive=True)`)
   * and the terminate call at position `failsAt` of "descendants, then the
   * pid itself" is the first that raises (0 also covers the lookup or the
   * child enumeration raising; a position past the end means none raises).
   */
  datatype Probe = NotRunning | Running(descendants: seq<int>, failsAt: nat)

  // ---------------------------------------------------------------------------
  // Starting: the ledger rows a launch loop adds
  // ---------------------------------------------------------------------------

  /** The positions of the files that launched, in file order. */
  function Successes(launches: seq<Launch>): (s: seq<nat>)
    ensures |s| <= |launches|
    ensures forall k :: 0 <= k < |s| ==> s[k] < |launches| && launches[s[k]].Launched?
  {
    if launches == [] then []
    else
      var n := |launches| - 1;
      Successes(launches[..n]) + (if launches[n].Launched? then [n] else [])
  }

  /** `Successes` lists positions in increasing order, so each at most once. */
  lemma {:induction false} SuccessesIncreasing(launches: seq<Launch>)
    ensures forall k, m :: 0 <= k < m < |Successes(launches)| ==> Successes(launches)[k] < Successes(launches)[m]
  {
    if launches != [] {
      var n := |launches| - 1;
      SuccessesIncreasing(launches[..n]);
      var s0 := Successes(launches[..n]);
      var s := Successes(launches);
      assert s == s0 + (if launches[n].Launched? then [n] else []);
      forall k, m | 0 <= k < m < |s| ensures s[k] < s[m] {
        assert s[k] == s0[k] && s0[k] < n;
        if m < |s0| {
          assert s[m] == s0[m];
        } else {
          assert s[m] == n;
        }
      }
    }
  }

  /** Every launched position is in `Successes`. */
  lemma {:induction false} SuccessesComplete(launches: seq<Launch>)
    ensures forall i :: 0 <= i < |launches| && launches[i].Launched? ==> i in Successes(launches)
  {
    if launches != [] {
      var n := |launches| - 1;
      var init := launches[..n];
      SuccessesComplete(init);
      forall i | 0 <= i < n && launches[i].Launched? ensures i in Successes(launches) {
        assert init[i] == launches[i];
      }
    }
  }

  /** Every file launched exactly when every position is a success. */
  lemma {:induction false} SuccessesAll(launches: seq<Launch>)
    ensures |Successes(launches)| == |launches| <==> forall i :: 0 <= i < |launches| ==> launches[i].Launched?
  {
    if launches != [] {
      var n := |launches| - 1;
      var init := launches[..n];
      SuccessesAll(init);
      assert forall i :: 0 <= i < n ==> init[i] == launches[i];
    }
  }

  /**
   * The `active_processes` rows that launching `paths` with outcomes
   * `launches` inserts: one per launched file, in file order, with
   * consecutive AUTOINCREMENT ids from `firstId`.
   */
  function LaunchedRows(firstId: nat, wid: nat, paths: seq<string>, launches: seq<Launch>): (r: seq<ProcessRow>)
    requires |paths| == |launches|
    ensures |r| == |Successes(launches)|
  {
    var s := Successes(launches);
    seq(|s|, k requires 0 <= k < |s| =>
      ProcessRow(firstId + k, wid, launches[s[k]].pid, paths[s[k]], launches[s[k]].recordedAt))
  }

  /** The ledger row one launch attempt records under the next id: none when it failed. */
  function Recorded(id: nat, wid: nat, path: string, launch: Launch): seq<ProcessRow> {
    match launch
    case Launched(pid, at) => [ProcessRow(id, wid, pid, path, at)]
    case LaunchFailed => []
  }

  /** The rows the launch loop has inserted after its first `n` attempts. */
  function LaunchRows(firstId: nat, wid: nat, paths: seq<string>, launches: seq<Launch>, n: nat): (r: seq<ProcessRow>)
    requires |paths| == |launches| && n <= |launches|
    ensures forall k :: 0 <= k < |r| ==> r[k].id == firstId + k && r[k].workspaceId == wid
  {
    if n == 0 then []
    else
      var before := LaunchRows(firstId, wid, paths, launches, n - 1);
      before + Recorded(firstId + |before|, wid, paths[n - 1], launches[n - 1])
  }

  /** Every attempt so far added a row exactly when every file so far launched. */
  lemma {:induction false} LaunchRowsCount(firstId: nat, wid: nat, paths: seq<string>, launches: seq<Launch>, n: nat)
    requires |paths| == |launches| && n <= |launches|
    ensures |LaunchRows(firstId, wid, paths, launches, n)| <= n
    ensures |LaunchRows(firstId, wid, paths, launches, n)| == n <==> forall j :: 0 <= j < n ==> launches[j].Launched?
  {
    if n > 0 {
      LaunchRowsCount(firstId, wid, paths, launches, n - 1);
    }
  }

  /** One more attempt adds a row for the next file exactly when that file launched. */
  lemma LaunchedRowsStep(firstId: nat, wid: nat, paths: seq<string>, launches: seq<Launch>, n: nat)
    requires |paths| == |launches| && 0 < n <= |launches|
    ensures
      var before := LaunchedRows(firstId, wid, paths[..n - 1], launches[..n - 1]);
      LaunchedRows(firstId, wid, paths[..n], launches[..n]) ==
        before + Recorded(firstId + |before|, wid, paths[n - 1], launches[n - 1])
  {
    assert launches[..n][..n - 1] == launches[..n - 1];
    var s := Successes(launches[..n - 1]);
    var s' := Successes(launches[..n]);
    assert s' == s + (if launches[n - 1].Launched? then [n - 1] else []);
    assert forall k :: 0 <= k < |s| ==> s[k] < n - 1;
  }

  /** The loop inserts exactly one row per launched file, in file order, with consecutive ids. */
  lemma {:induction false} LaunchRowsAreLaunched(firstId: nat, wid: nat, paths: seq<string>, launches: seq<Launch>, n: nat)
    requires |paths| == |launches| && n <= |launches|
    ensures LaunchRows(firstId, wid, paths, launches, n) == LaunchedRows(firstId, wid, paths[..n], launches[..n])
  {
    if n > 0 {
      var before := LaunchRows(firstId, wid, paths, launches, n - 1);
      LaunchRowsAreLaunched(firstId, wid, paths, launches, n - 1);
      LaunchedRowsStep(firstId, wid, paths, launches, n);
      calc {
        LaunchRows(firstId, wid, paths, launches, n);
        before + Recorded(firstId + |before|, wid, paths[n - 1], launches[n - 1]);
        LaunchedRows(firstId, wid, paths[..n], launches[..n]);
      }
    }
  }

  // ---------------------------------------------------------------------------
  // Stopping: terminating one recorded process tree
  // ---------------------------------------------------------------------------

  /**
   * The pids whose terminate call returns, in call order, for one ledger
   * row: descendants before the process itself, cut at the first call that
   * raises.
   */
  function Terminated(pid: int, probe: Probe): (r: seq<int>)
    ensures probe.NotRunning? ==> r == []
    ensures probe.Running? ==> r <= probe.descendants + [pid]
    ensures probe.Running? ==> |r| == if probe.failsAt <= |probe.descendants| then probe.failsAt
                                      else |probe.descendants| + 1
  {
    match probe
    case NotRunning => []
    case Running(descendants, failsAt) =>
      var targets := descendants + [pid];
      targets[..if failsAt < |targets| then failsAt else |targets|]
  }

  /** The pids terminated while stopping `rows`, row after row: each from the tree of some row. */
  function Signals(rows: seq<ProcessRow>, probes: seq<Probe>): (r: seq<int>)
    requires |rows| == |probes|
    ensures forall x :: x in r ==> exists i :: 0 <= i < |rows| && x in Terminated(rows[i].pid, probes[i])
  {
    if rows == [] then []
    else
      var n := |rows| - 1;
      Signals(rows[..n], probes[..n]) + Terminated(rows[n].pid, probes[n])
  }

  /**
   * Terminate one recorded process: nothing if it no longer runs; otherwise
   * every descendant first and the process itself last, giving up at the
   * first terminate call that raises.
   */
  method TerminateTree(pid: int, probe: Probe) returns (sent: seq<int>)
    ensures sent == Terminated(pid, probe)
    ensures probe.NotRunning? ==> sent == []
    ensures probe.Running? ==> sent <= probe.descendants + [pid]
    ensures probe.Running? ==> |sent| == if probe.failsAt <= |probe.descendants| then probe.failsAt
                                         else |probe.descendants| + 1
  {
    sent := [];
    match probe
    case NotRunning =>
    case Running(descendants, failsAt) =>
      var i := 0;
      while i < |descendants| && i < failsAt
        invariant 0 <= i <= |descendants| && i <= failsAt
        invariant sent == descendants[..i]
      {
        sent := sent + [descendants[i]];
        i := i + 1;
      }
      if i == |descendants| && i < failsAt {
        sent := sent + [pid];
        assert sent == descendants + [pid];
      } else {
        assert sent == (descendants + [pid])[..i];
      }
  }

  // ---------------------------------------------------------------------------
  // Which workspaces are running
  // ---------------------------------------------------------------------------

  /**
   * `SELECT DISTINCT w.name FROM active_processes ap JOIN workspaces w ON
   * ap.workspace_id = w.id`: the names of workspaces that own a ledger row.
   */
  function ActiveNames(ws: seq<WorkspaceRow>, ps: seq<ProcessRow>): (r: set<string>)
    ensures forall n :: n in r ==> exists w :: w in ws && w.name == n
    ensures ps == [] ==> r == {}
  {
    set p, w | p in ps && w in ws && p.workspaceId == w.id :: w.name
  }

  /** Two workspace rows with the same AUTOINCREMENT id are the same row. */
  lemma SameIdSameRow(ws: seq<WorkspaceRow>, j: nat, k: nat)
    requires Pairwise(ws, KeysOrdered) && j < |ws| && k < |ws| && ws[j].id == ws[k].id
    ensures j == k
  {
  }

  /** Joining one more ledger row adds the name of the workspace it refers to, if any. */
  lemma ActiveNamesStep(ws: seq<WorkspaceRow>, ps: seq<ProcessRow>, p: ProcessRow)
    requires Pairwise(ws, KeysOrdered)
    ensures ActiveNames(ws, ps + [p]) ==
      ActiveNames(ws, ps) + match FirstIndex(ws, (w: WorkspaceRow) => w.id == p.workspaceId)
                            case None => {}
                            case Some(k) => {ws[k].name}
  {
    var found := FirstIndex(ws, (w: WorkspaceRow) => w.id == p.workspaceId);
    forall n | n in ActiveNames(ws, ps + [p])
      ensures n in ActiveNames(ws, ps) || (found.Some? && n == ws[found.value].name)
    {
      var p', w :| p' in ps + [p] && w in ws && p'.workspaceId == w.id && w.name == n;
      if p' in ps {
        assert n in ActiveNames(ws, ps);
      } else {
        var j :| 0 <= j < |ws| && ws[j] == w;
        assert found.Some?;
        SameIdSameRow(ws, j, found.value);
      }
    }
    if found.Some? {
      var k := found.value;
      assert p in ps + [p] && ws[k] in ws;
    }
  }

  /**
   * Clearing one workspace's ledger rows takes exactly its name out of the
   * running set.
   */
  lemma StopClearsActivity(ws: seq<WorkspaceRow>, ps: seq<ProcessRow>, k: nat)
    requires Pairwise(ws, KeysOrdered) && k < |ws|
    ensures ActiveNames(ws, Without(ps, ws[k].id)) == ActiveNames(ws, ps) - {ws[k].name}
  {
    var rest := Without(ps, ws[k].id);
    forall n | n in ActiveNames(ws, rest) ensures n in ActiveNames(ws, ps) && n != ws[k].name {
      var p, w :| p in rest && w in ws && p.workspaceId == w.id && w.name == n;
      var j :| 0 <= j < |ws| && ws[j] == w;
      if j != k {
        assert KeysOrdered(ws[j], ws[k]) || KeysOrdered(ws[k], ws[j]);
      }
    }
    forall n | n in ActiveNames(ws, ps) && n != ws[k].name ensures n in ActiveNames(ws, rest) {
      var p, w :| p in ps && w in ws && p.workspaceId == w.id && w.name == n;
      var j :| 0 <= j < |ws| && ws[j] == w;
      assert j != k;
      if p.workspaceId == ws[k].id {
        SameIdSameRow(ws, j, k);
      }
      assert p in rest;
    }
  }

  /** The rows of `ps` that are not among `done`: the ledger after deleting `done` one by one. */
  function Unlisted(ps: seq<ProcessRow>, done: seq<ProcessRow>): seq<ProcessRow> {
    Filter(ps, (p: ProcessRow) => p !in done)
  }

  /** Deleting one more ledger row by its id removes exactly that row. */
  lemma UnlistedStep(ps: seq<ProcessRow>, done: seq<ProcessRow>, i: nat)
    requires Pairwise(ps, ProcessIdsOrdered) && i < |done| && done[i] in ps
    ensures WithoutRow(Unlisted(ps, done[..i]), done[i].id) == Unlisted(ps, done[..i + 1])
  {
    var next := done[i];
    assert done[..i + 1] == done[..i] + [next];
    forall x | x in ps
      ensures (x !in done[..i + 1]) == (x !in done[..i] && x.id != next.id)
    {
      if x.id == next.id {
        var a :| 0 <= a < |ps| && ps[a] == x;
        var b :| 0 <= b < |ps| && ps[b] == next;
        SameProcessIdSameRow(ps, a, b);
      }
    }
    FilterTwice(ps, (p: ProcessRow) => p !in done[..i], (p: ProcessRow) => p.id != next.id,
                (p: ProcessRow) => p !in done[..i + 1]);
  }

  /** Two ledger rows with the same AUTOINCREMENT id are the same row. */
  lemma SameProcessIdSameRow(ps: seq<ProcessRow>, a: nat, b: nat)
    requires Pairwise(ps, ProcessIdsOrdered) && a < |ps| && b < |ps| && ps[a].id == ps[b].id
    ensures a == b
  {
  }

  /** Deleting every row that the ledger query returned leaves the other workspaces' rows. */
  lemma UnlistedLedger(ps: seq<ProcessRow>, wid: nat)
    ensures Unlisted(ps, LedgerOf(ps, wid)) == Without(ps, wid)
    ensures LedgerOf(Without(ps, wid), wid) == []
  {
    var ledger := LedgerOf(ps, wid);
    FilterSame(ps, (p: ProcessRow) => p !in ledger, (p: ProcessRow) => p.workspaceId != wid);
    FilterNone(Without(ps, wid), (p: ProcessRow) => p.workspaceId == wid);
  }

  lemma SignalsStep(rows: seq<ProcessRow>, probes: seq<Probe>, i: nat)
    requires |rows| == |probes| && i < |rows|
    ensures Signals(rows[..i + 1], probes[..i + 1]) ==
            Signals(rows[..i], probes[..i]) + Terminated(rows[i].pid, probes[i])
  {
    assert rows[..i + 1][..i] == rows[..i] && probes[..i + 1][..i] == probes[..i];
  }

  // ---------------------------------------------------------------------------
  // Listing
  // ---------------------------------------------------------------------------

  /** One entry of `list_workspaces`. */
  datatype WorkspaceSummary = WorkspaceSummary(
    name: string,
    createdAt: int,
    lastActivatedAt: Option<int>,
    activateCount: nat,
    fileCount: nat)

  /** A workspace row joined with the number of its file rows (LEFT JOIN ... count). */
  function SummaryOf(w: WorkspaceRow, files: seq<FileRow>): (s: WorkspaceSummary)
    ensures s.fileCount <= |files|
  {
    WorkspaceSummary(w.name, w.createdAt, w.lastActivatedAt, w.activateCount, |PathsOf(files, w.id)|)
  }

  /** One summary per workspace row, in table order (GROUP BY w.id). */
  function Summaries(ws: seq<WorkspaceRow>, files: seq<FileRow>): (r: seq<WorkspaceSummary>)
    ensures |r| == |ws|
    ensures forall i :: 0 <= i < |ws| ==> r[i].name == ws[i].name && r[i].activateCount == ws[i].activateCount
  {
    seq(|ws|, i requires 0 <= i < |ws| => SummaryOf(ws[i], files))
  }

  /**
   * `ORDER BY last_activated_at DESC`: SQLite ranks NULL below every value,
   * so a more recent activation comes first and never-activated rows last.
   */
  predicate ListedBefore(a: WorkspaceSummary, b: WorkspaceSummary) {
    b.lastActivatedAt.None? ||
    (a.lastActivatedAt.Some? && a.lastActivatedAt.value >= b.lastActivatedAt.value)
  }

  /**
   * `ORDER BY` is a total preorder: every entry may precede itself, of two
   * entries one may precede the other, precedence is transitive, and a
   * never-activated entry comes after every activated one.
   */
  lemma ListedBeforeOrders(a: WorkspaceSummary, b: WorkspaceSummary, c: WorkspaceSummary)
    ensures ListedBefore(a, a)
    ensures ListedBefore(a, b) || ListedBefore(b, a)
    ensures ListedBefore(a, b) && ListedBefore(b, c) ==> ListedBefore(a, c)
    ensures a.lastActivatedAt.None? && b.lastActivatedAt.Some? ==> !ListedBefore(a, b)
    ensures a.lastActivatedAt.Some? && b.lastActivatedAt.Some? ==>
      (ListedBefore(a, b) <==> a.lastActivatedAt.value >= b.lastActivatedAt.value)
  {
  }

  /** Place `s` after every entry that may precede it. */
  function InsertByActivation(rs: seq<WorkspaceSummary>, s: WorkspaceSummary): (r: seq<WorkspaceSummary>)
    ensures |r| == |rs| + 1 && s in r
  {
    if rs == [] then [s]
    else if ListedBefore(rs[0], s) then [rs[0]] + InsertByActivation(rs[1..], s)
    else [s] + rs
  }

  /** Inserting adds exactly the one entry. */
  lemma {:induction false} InsertByActivationAddsOne(rs: seq<WorkspaceSummary>, s: WorkspaceSummary)
    ensures multiset(InsertByActivation(rs, s)) == multiset(rs) + multiset{s}
  {
    if rs != [] && ListedBefore(rs[0], s) {
      InsertByActivationAddsOne(rs[1..], s);
      assert rs == [rs[0]] + rs[1..];
    }
  }

  /** An entry placed ahead of the first of an ordered listing is ahead of all of it. */
  lemma AheadOfAll(rs: seq<WorkspaceSummary>, s: WorkspaceSummary)
    requires Pairwise(rs, ListedBefore) && rs != [] && !ListedBefore(rs[0], s)
    ensures Pairwise([s] + rs, ListedBefore)
  {
    var r := [s] + rs;
    forall i, j | 0 <= i < j < |r| ensures ListedBefore(r[i], r[j]) {
      if i > 0 {
        assert r[i] == rs[i - 1] && r[j] == rs[j - 1];
      } else if j > 1 {
        assert ListedBefore(rs[0], rs[j - 1]);
      }
    }
  }

  /** Inserting keeps the listing ordered. */
  lemma {:induction false} InsertByActivationSorted(rs: seq<WorkspaceSummary>, s: WorkspaceSummary)
    requires Pairwise(rs, ListedBefore)
    ensures Pairwise(InsertByActivation(rs, s), ListedBefore)
  {
    if rs == [] {
    } else if ListedBefore(rs[0], s) {
      var tail := rs[1..];
      PairwiseTail(rs, ListedBefore);
      InsertByActivationSorted(tail, s);
      InsertByActivationAddsOne(tail, s);
      var t := InsertByActivation(tail, s);
      forall x | x in t ensures ListedBefore(rs[0], x) {
        assert x in multiset(t);
        if x != s {
          var j :| 0 <= j < |tail| && tail[j] == x;
          assert rs[j + 1] == x;
        }
      }
      PairwiseCons(rs[0], t, ListedBefore);
    } else {
      AheadOfAll(rs, s);
    }
  }

  lemma SummariesStep(ws: seq<WorkspaceRow>, files: seq<FileRow>, i: nat)
    requires i < |ws|
    ensures Summaries(ws[..i + 1], files) == Summaries(ws[..i], files) + [SummaryOf(ws[i], files)]
  {
  }

  /** A listing with the workspaces' summaries as its entries has one entry per workspace. */
  lemma ListingCovers(rows: seq<WorkspaceSummary>, ws: seq<WorkspaceRow>, files: seq<FileRow>)
    requires multiset(rows) == multiset(Summaries(ws, files))
    ensures |rows| == |ws|
    ensures forall w :: w in ws ==> SummaryOf(w, files) in rows
    ensures forall r :: r in rows ==> exists w :: w in ws && r == SummaryOf(w, files)
  {
    var all := Summaries(ws, files);
    assert |multiset(rows)| == |multiset(all)|;
    forall w | w in ws ensures SummaryOf(w, files) in rows {
      var j :| 0 <= j < |ws| && ws[j] == w;
      assert all[j] in multiset(all);
    }
    forall r | r in rows ensures exists w :: w in ws && r == SummaryOf(w, files) {
      assert r in multiset(all);
      var j :| 0 <= j < |all| && all[j] == r;
      assert ws[j] in ws;
    }
  }

  /** Once one file of a workspace launched, the activated workspace is running. */
  lemma LaunchMakesActive(ws: seq<WorkspaceRow>, ps: seq<ProcessRow>, firstId: nat,
                          paths: seq<string>, launches: seq<Launch>, k: nat, now: int,
                          ws': seq<WorkspaceRow>, ps': seq<ProcessRow>)
    requires k < |ws| && |paths| == |launches|
    requires exists i :: 0 <= i < |launches| && launches[i].Launched?
    requires ws' == Activated(ws, ws[k].id, now)
    requires ps' == ps + LaunchRows(firstId, ws[k].id, paths, launches, |launches|)
    ensures ws[k].name in ActiveNames(ws', ps')
  {
    var wid := ws[k].id;
    var added := LaunchRows(firstId, wid, paths, launches, |launches|);
    LaunchRowsAreLaunched(firstId, wid, paths, launches, |launches|);
    assert paths[..|launches|] == paths && launches[..|launches|] == launches;
    var i :| 0 <= i < |launches| && launches[i].Launched?;
    SuccessesComplete(launches);
    assert i in Successes(launches);
    LaunchedIsActive(Activated(ws, wid, now), ps, added, k);
  }

  /** A workspace that owns a ledger row is running. */
  lemma LaunchedIsActive(ws: seq<WorkspaceRow>, ps: seq<ProcessRow>, added: seq<ProcessRow>, k: nat)
    requires k < |ws| && added != [] && added[0].workspaceId == ws[k].id
    ensures ws[k].name in ActiveNames(ws, ps + added)
  {
    assert added[0] in ps + added && ws[k] in ws;
  }

  // ---------------------------------------------------------------------------
  // The manager
  // ---------------------------------------------------------------------------

  /**
   * The file rows inserted for a fresh workspace id give that workspace
   * exactly its paths and leave every existing workspace's files as they were.
   */
  lemma NewFileRows(files: seq<FileRow>, firstId: nat, wid: nat, paths: seq<string>)
    requires forall f :: f in files ==> f.workspaceId != wid
    ensures PathsOf(files + FileRows(firstId, wid, paths), wid) == paths
    ensures forall other :: other != wid ==>
      PathsOf(files + FileRows(firstId, wid, paths), other) == PathsOf(files, other)
  {
    var added := FileRows(firstId, wid, paths);
    PathsOfConcat(files, added, wid);
    PathsOfFileRows(firstId, wid, paths, wid);
    PathsOfUnused(files, wid);
    forall other | other != wid ensures PathsOf(files + added, other) == PathsOf(files, other) {
      PathsOfConcat(files, added, other);
      PathsOfFileRows(firstId, wid, paths, other);
    }
  }

  /**
   * What `create_workspace` leaves behind: looking the name up finds the
   * new id, which no earlier workspace had; the listing counts exactly the
   * given files for it; and every earlier workspace lists as before.
   */
  lemma CreatedWorkspace(ws0: seq<WorkspaceRow>, files0: seq<FileRow>, wsSeq: nat, fileSeq: nat,
                         name: string, now: int, paths: seq<string>)
    requires forall w :: w in ws0 ==> w.id <= wsSeq
    requires forall f :: f in files0 ==> f.workspaceId <= wsSeq
    requires IdNamed(ws0, name).None?
    ensures
      var row := WorkspaceRow(wsSeq + 1, name, now, None, 0);
      var files := files0 + FileRows(fileSeq + 1, wsSeq + 1, paths);
      && IdNamed(ws0 + [row], name) == Some(wsSeq + 1)
      && (forall w :: w in ws0 ==> w.id != wsSeq + 1)
      && PathsOf(files, wsSeq + 1) == paths
      && SummaryOf(row, files).fileCount == |paths|
      && (forall w :: w in ws0 ==> SummaryOf(w, files) == SummaryOf(w, files0))
  {
    var row := WorkspaceRow(wsSeq + 1, name, now, None, 0);
    var ws := ws0 + [row];
    var found := IndexNamed(ws, name);
    assert ws[|ws0|] == row;
    assert forall k :: 0 <= k < |ws0| ==> ws[k] == ws0[k];
    assert found.Some? && found.value == |ws0|;
    NewFileRows(files0, fileSeq + 1, wsSeq + 1, paths);
  }

  /**
   * Every file row and ledger row refers to a workspace id that was handed
   * out, so a newly created workspace never inherits rows left behind by a
   * deleted one.
   */
  ghost predicate RowsReferToIssuedIds(files: seq<FileRow>, ps: seq<ProcessRow>, workspaceSeq: nat)
  {
    && (forall f :: f in files ==> f.workspaceId <= workspaceSeq)
    && (forall p :: p in ps ==> p.workspaceId <= workspaceSeq)
  }

  class WorkspaceManager {
    const db: DatabaseManager

    ghost predicate Valid()
      reads this, db
    {
      db.Valid() && db.tablesExist && RowsReferToIssuedIds(db.workspaceFiles, db.activeProcesses, db.workspaceSeq)
    }

    /** The paths stored for the workspace called `name`, none if there is no such workspace. */
    ghost function PathsNamed(name: string): seq<string>
      reads this, db
    {
      match IdNamed(db.workspaces, name)
      case None => []
      case Some(wid) => PathsOf(db.workspaceFiles, wid)
    }

    /** The ledger rows of the workspace called `name`, none if there is no such workspace. */
    ghost function LedgerNamed(name: string): seq<ProcessRow>
      reads this, db
    {
      match IdNamed(db.workspaces, name)
      case None => []
      case Some(wid) => LedgerOf(db.activeProcesses, wid)
    }

    /** Open the manager on a database file, creating the tables if they are missing. */
    constructor (store: DatabaseManager)
      requires store.Valid() && RowsReferToIssuedIds(store.workspaceFiles, store.activeProcesses, store.workspaceSeq)
      modifies store
      ensures db == store && Valid()
      ensures old(store.tablesExist) ==> unchanged(store)
      ensures !old(store.tablesExist) ==>
        && store.workspaces == [] && store.workspaceFiles == [] && store.activeProcesses == []
        && store.workspaceSeq == 0 && store.fileSeq == 0 && store.processSeq == 0
    {
      db := store;
      new;
      store.InitializeDb();
    }

    /**
     * Insert the workspace, then one file row per path.  An empty file list
     * or a name that is already taken gives false and changes nothing.
     */
    method CreateWorkspace(name: string, filePaths: seq<string>, now: int) returns (ok: bool)
      requires Valid()
      modifies db
      ensures Valid()
      ensures ok <==> filePaths != [] && IdNamed(old(db.workspaces), name).None?
      ensures !ok ==> unchanged(db)
      ensures ok ==>
        && db.workspaces == old(db.workspaces) + [WorkspaceRow(old(db.workspaceSeq) + 1, name, now, None, 0)]
        && db.workspaceFiles == old(db.workspaceFiles) + FileRows(old(db.fileSeq) + 1, old(db.workspaceSeq) + 1, filePaths)
        && db.activeProcesses == old(db.activeProcesses)
        && db.workspaceSeq == old(db.workspaceSeq) + 1
        && db.fileSeq == old(db.fileSeq) + |filePaths|
        && db.processSeq == old(db.processSeq)
    {
      if filePaths == [] {
        return false;
      }
      var inserted := db.InsertWorkspace(name, now);
      if inserted.Failure? {
        return false;
      }
      InsertFiles(inserted.value, filePaths, name, now, old(db.workspaces), old(db.workspaceFiles),
                  old(db.workspaceSeq), old(db.fileSeq), old(db.processSeq));
      ok := true;
    }

    /**
     * The insertion loop of `create_workspace`: one file row per path, in
     * order.  The ghost parameters name the tables and counters as they were
     * before the workspace row was inserted, so that this contract states the
     * caller's postcondition term for term; deriving it from `old` here
     * instead costs the verifier far more.
     */
    method InsertFiles(wid: nat, filePaths: seq<string>, ghost name: string, ghost now: int,
                       ghost ws0: seq<WorkspaceRow>, ghost files0: seq<FileRow>,
                       ghost wsSeq0: nat, ghost fileSeq0: nat, ghost processSeq0: nat)
      requires Valid() && wid == wsSeq0 + 1 == db.workspaceSeq
      requires db.workspaces == ws0 + [WorkspaceRow(wid, name, now, None, 0)]
      requires db.workspaceFiles == files0 && db.fileSeq == fileSeq0 && db.processSeq == processSeq0
      modifies db
      ensures Valid()
      ensures db.workspaces == ws0 + [WorkspaceRow(wsSeq0 + 1, name, now, None, 0)]
      ensures db.workspaceFiles == files0 + FileRows(fileSeq0 + 1, wsSeq0 + 1, filePaths)
      ensures db.activeProcesses == old(db.activeProcesses)
      ensures db.workspaceSeq == wsSeq0 + 1 && db.fileSeq == fileSeq0 + |filePaths| && db.processSeq == processSeq0
    {
      var i := 0;
      while i < |filePaths|
        invariant 0 <= i <= |filePaths|
        invariant Valid()
        invariant db.workspaceFiles == files0 + FileRows(fileSeq0 + 1, wid, filePaths[..i])
        invariant db.fileSeq == fileSeq0 + i
        invariant db.workspaces == old(db.workspaces) && db.activeProcesses == old(db.activeProcesses)
        invariant db.workspaceSeq == old(db.workspaceSeq) && db.processSeq == old(db.processSeq)
      {
        var _ := db.InsertFile(wid, filePaths[i]);
        assert FileRows(fileSeq0 + 1, wid, filePaths[..i + 1]) ==
               FileRows(fileSeq0 + 1, wid, filePaths[..i]) + [FileRow(fileSeq0 + 1 + i, wid, filePaths[i])];
        i := i + 1;
      }
      assert filePaths[..i] == filePaths;
    }

    /**
     * Every workspace with its file count, most recently activated first and
     * never-activated ones last.
     */
    method ListWorkspaces() returns (rows: seq<WorkspaceSummary>)
      requires Valid()
      ensures Pairwise(rows, ListedBefore)
      ensures multiset(rows) == multiset(Summaries(db.workspaces, db.workspaceFiles))
      ensures |rows| == |db.workspaces|
      ensures forall w :: w in db.workspaces ==> SummaryOf(w, db.workspaceFiles) in rows
      ensures forall r :: r in rows ==> exists w :: w in db.workspaces && r == SummaryOf(w, db.workspaceFiles)
    {
      var ws, files := db.workspaces, db.workspaceFiles;
      rows := [];
      var i := 0;
      while i < |ws|
        invariant 0 <= i <= |ws|
        invariant Pairwise(rows, ListedBefore)
        invariant multiset(rows) == multiset(Summaries(ws[..i], files))
      {
        var w := ws[i];
        var paths := db.FetchFilePaths(w.id);
        var entry := WorkspaceSummary(w.name, w.createdAt, w.lastActivatedAt, w.activateCount, |paths.value|);
        InsertByActivationSorted(rows, entry);
        InsertByActivationAddsOne(rows, entry);
        SummariesStep(ws, files, i);
        rows := InsertByActivation(rows, entry);
        i := i + 1;
      }
      assert ws[..i] == ws;
      ListingCovers(rows, ws, files);
    }

    /**
     * Launch every file of the workspace, recording a ledger row for each
     * launch that succeeds and carrying on after one that fails; then count
     * the activation, whatever the launches gave.  True when every file
     * launched.  An unknown name or a workspace without files gives false
     * and changes nothing.
     */
    method StartWorkspace(name: string, launches: seq<Launch>, now: int) returns (success: bool)
      requires Valid()
      requires |launches| == |PathsNamed(name)|
      modifies db
      ensures Valid()
      ensures old(PathsNamed(name)) == [] ==> !success && unchanged(db)
      ensures IdNamed(old(db.workspaces), name).None? ==> !success && unchanged(db)
      ensures old(PathsNamed(name)) != [] ==>
        var k := IndexNamed(old(db.workspaces), name).value;
        var wid := old(db.workspaces)[k].id;
        && success == (forall i :: 0 <= i < |launches| ==> launches[i].Launched?)
        && db.workspaces == Activated(old(db.workspaces), wid, now)
        && db.workspaceFiles == old(db.workspaceFiles)
        && db.activeProcesses ==
             old(db.activeProcesses) + LaunchRows(old(db.processSeq) + 1, wid, old(PathsNamed(name)), launches, |launches|)
        && db.workspaceSeq == old(db.workspaceSeq) && db.fileSeq == old(db.fileSeq)
        && db.processSeq ==
             old(db.processSeq) + |LaunchRows(old(db.processSeq) + 1, wid, old(PathsNamed(name)), launches, |launches|)|
        && ((exists i :: 0 <= i < |launches| && launches[i].Launched?) ==>
              name in ActiveNames(db.workspaces, db.activeProcesses))
    {
      var found := db.FindWorkspaceId(name);
      if found.value.None? {
        assert old(PathsNamed(name)) == [];
        return false;
      }
      var wid := found.value.value;
      var fetched := db.FetchFilePaths(wid);
      var paths := fetched.value;
      assert paths == PathsNamed(name);
      if paths == [] {
        assert old(PathsNamed(name)) == [];
        return false;
      }
      ghost var k := IndexNamed(db.workspaces, name).value;
      ghost var firstId := db.processSeq + 1;
      ghost var ps0 := db.activeProcesses;
      assert wid == old(db.workspaces)[k].id;
      success := LaunchFiles(wid, paths, launches);
      ghost var ps1 := db.activeProcesses;
      var _ := db.MarkActivated(wid, now);
      assert db.activeProcesses == ps1 == ps0 + LaunchRows(firstId, wid, paths, launches, |launches|);
      assert ps0 == old(db.activeProcesses) && firstId == old(db.processSeq) + 1;
      assert paths == old(PathsNamed(name));
      assert db.activeProcesses == old(db.activeProcesses) + LaunchRows(old(db.processSeq) + 1, wid, old(PathsNamed(name)), launches, |launches|);
      if exists j :: 0 <= j < |launches| && launches[j].Launched? {
        LaunchMakesActive(old(db.workspaces), old(db.activeProcesses), firstId, paths, launches, k, now,
                          db.workspaces, db.activeProcesses);
      }
    }

    /**
     * The launch loop of `start_workspace`: try every file in order, insert a
     * ledger row for each one that launched, and remember whether any failed.
     */
    method LaunchFiles(wid: nat, paths: seq<string>, launches: seq<Launch>) returns (success: bool)
      requires Valid() && wid <= db.workspaceSeq && |paths| == |launches|
      modifies db
      ensures Valid()
      ensures success == forall i :: 0 <= i < |launches| ==> launches[i].Launched?
      ensures db.activeProcesses == old(db.activeProcesses) + LaunchRows(old(db.processSeq) + 1, wid, paths, launches, |launches|)
      ensures db.workspaces == old(db.workspaces) && db.workspaceFiles == old(db.workspaceFiles)
      ensures db.workspaceSeq == old(db.workspaceSeq) && db.fileSeq == old(db.fileSeq)
      ensures db.processSeq == old(db.processSeq) + |LaunchRows(old(db.processSeq) + 1, wid, paths, launches, |launches|)|
    {
      success := true;
      ghost var firstId, ps0 := db.processSeq + 1, db.activeProcesses;
      var i := 0;
      while i < |paths|
        invariant 0 <= i <= |paths|
        invariant Launching(wid, paths, launches, i, firstId, ps0, success)
        invariant db.workspaces == old(db.workspaces) && db.workspaceFiles == old(db.workspaceFiles)
        invariant db.workspaceSeq == old(db.workspaceSeq) && db.fileSeq == old(db.fileSeq)
      {
        success := RecordLaunch(wid, paths, launches, i, firstId, ps0, success);
        i := i + 1;
      }
      LaunchRowsCount(firstId, wid, paths, launches, i);
    }

    /** The state of the launch loop after its first `i` attempts. */
    ghost predicate Launching(wid: nat, paths: seq<string>, launches: seq<Launch>, i: nat,
                              firstId: nat, ps0: seq<ProcessRow>, success: bool)
      reads this, db
    {
      && Valid() && wid <= db.workspaceSeq && |paths| == |launches| && i <= |launches|
      && db.activeProcesses == ps0 + LaunchRows(firstId, wid, paths, launches, i)
      && db.processSeq == firstId - 1 + |LaunchRows(firstId, wid, paths, launches, i)|
      && |LaunchRows(firstId, wid, paths, launches, i)| <= i
      && success == (|LaunchRows(firstId, wid, paths, launches, i)| == i)
    }

    /** One iteration of the launch loop: a launched file gets a ledger row under the next id. */
    method RecordLaunch(wid: nat, paths: seq<string>, launches: seq<Launch>, i: nat,
                        ghost firstId: nat, ghost ps0: seq<ProcessRow>, success: bool)
      returns (success': bool)
      requires i < |launches| && Launching(wid, paths, launches, i, firstId, ps0, success)
      modifies db
      ensures Launching(wid, paths, launches, i + 1, firstId, ps0, success')
      ensures db.workspaces == old(db.workspaces) && db.workspaceFiles == old(db.workspaceFiles)
      ensures db.workspaceSeq == old(db.workspaceSeq) && db.fileSeq == old(db.fileSeq)
    {
      ghost var before := LaunchRows(firstId, wid, paths, launches, i);
      match launches[i] {
        case Launched(pid, at) =>
          var _ := db.InsertProcess(wid, pid, paths[i], at);
          success' := success;
        case LaunchFailed =>
          success' := false;
      }
      assert db.activeProcesses == (ps0 + before) + Recorded(firstId + |before|, wid, paths[i], launches[i]);
    }

    /**
     * Terminate every recorded process of the workspace (its descendants
     * first) and delete every one of its ledger rows, whether or not the
     * termination worked.  An unknown name gives false and changes nothing;
     * a workspace with no ledger rows gives true and changes nothing.
     * `signalled` lists the pids whose terminate call returned, in order.
     */
    method StopWorkspace(name: string, probes: seq<Probe>) returns (found: bool, signalled: seq<int>)
      requires Valid()
      requires |probes| == |LedgerNamed(name)|
      modifies db
      ensures Valid()
      ensures found <==> IdNamed(old(db.workspaces), name).Some?
      ensures !found ==> unchanged(db) && signalled == []
      ensures found && old(LedgerNamed(name)) == [] ==> unchanged(db) && signalled == []
      ensures found ==>
        && db.workspaces == old(db.workspaces) && db.workspaceFiles == old(db.workspaceFiles)
        && db.workspaceSeq == old(db.workspaceSeq) && db.fileSeq == old(db.fileSeq)
        && db.processSeq == old(db.processSeq)
        && db.activeProcesses == Without(old(db.activeProcesses), IdNamed(old(db.workspaces), name).value)
        && LedgerOf(db.activeProcesses, IdNamed(old(db.workspaces), name).value) == []
        && signalled == Signals(old(LedgerNamed(name)), probes)
      ensures name !in ActiveNames(db.workspaces, db.activeProcesses)
      ensures forall n :: n != name ==>
        (n in ActiveNames(db.workspaces, db.activeProcesses) <==> n in old(ActiveNames(db.workspaces, db.activeProcesses)))
    {
      var id := db.FindWorkspaceId(name);
      if id.value.None? {
        return false, [];
      }
      found := true;
      var wid := id.value.value;
      ghost var k := IndexNamed(db.workspaces, name).value;
      ghost var ps0 := db.activeProcesses;
      var fetched := db.FetchLedger(wid);
      var rows := fetched.value;
      StopClearsActivity(db.workspaces, ps0, k);
      if rows == [] {
        FilterKeepsAll(ps0, (p: ProcessRow) => p.workspaceId != wid);
        return true, [];
      }
      signalled := ClearLedger(rows, probes);
      UnlistedLedger(ps0, wid);
    }

    /**
     * The stop loop of `stop_workspace`: for every fetched ledger row, try
     * to terminate its process tree, then delete the row by its id whatever
     * the termination gave.
     */
    method ClearLedger(rows: seq<ProcessRow>, probes: seq<Probe>) returns (signalled: seq<int>)
      requires Valid() && |rows| == |probes|
      requires forall r :: r in rows ==> r in db.activeProcesses
      modifies db
      ensures Valid()
      ensures db.activeProcesses == Unlisted(old(db.activeProcesses), rows)
      ensures signalled == Signals(rows, probes)
      ensures db.workspaces == old(db.workspaces) && db.workspaceFiles == old(db.workspaceFiles)
      ensures db.workspaceSeq == old(db.workspaceSeq) && db.fileSeq == old(db.fileSeq) && db.processSeq == old(db.processSeq)
    {
      ghost var ps0 := db.activeProcesses;
      FilterKeepsAll(ps0, (p: ProcessRow) => p !in rows[..0]);
      signalled := [];
      var i := 0;
      while i < |rows|
        invariant 0 <= i <= |rows|
        invariant Valid()
        invariant db.activeProcesses == Unlisted(ps0, rows[..i])
        invariant signalled == Signals(rows[..i], probes[..i])
        invariant db.workspaces == old(db.workspaces) && db.workspaceFiles == old(db.workspaceFiles)
        invariant db.workspaceSeq == old(db.workspaceSeq) && db.fileSeq == old(db.fileSeq)
        invariant db.processSeq == old(db.processSeq)
      {
        var sent := TerminateTree(rows[i].pid, probes[i]);
        SignalsStep(rows, probes, i);
        signalled := signalled + sent;
        UnlistedStep(ps0, rows, i);
        var _ := db.DeleteProcess(rows[i].id);
        i := i + 1;
      }
      assert rows[..i] == rows && probes[..i] == probes;
    }

    /** The names of the workspaces that own at least one ledger row, each once. */
    method GetActiveWorkspaces() returns (names: seq<string>)
      requires Valid()
      ensures forall n :: n in names <==> n in ActiveNames(db.workspaces, db.activeProcesses)
      ensures forall i, j :: 0 <= i < j < |names| ==> names[i] != names[j]
    {
      names := [];
      var i := 0;
      while i < |db.activeProcesses|
        invariant 0 <= i <= |db.activeProcesses|
        invariant forall n :: n in names <==> n in ActiveNames(db.workspaces, db.activeProcesses[..i])
        invariant forall a, b :: 0 <= a < b < |names| ==> names[a] != names[b]
      {
        var p := db.activeProcesses[i];
        ActiveNamesStep(db.workspaces, db.activeProcesses[..i], p);
        assert db.activeProcesses[..i + 1] == db.activeProcesses[..i] + [p];
        var owner := FirstIndex(db.workspaces, (w: WorkspaceRow) => w.id == p.workspaceId);
        if owner.Some? && db.workspaces[owner.value].name !in names {
          names := names + [db.workspaces[owner.value].name];
        }
        i := i + 1;
      }
      assert db.activeProcesses[..i] == db.activeProcesses;
    }

    /**
     * Delete the workspace row.  An unknown name gives false and changes
     * nothing.  Its file rows and ledger rows stay behind (no foreign key is
     * enforced), but no workspace refers to them any more.
     */
    method DeleteWorkspace(name: string) returns (ok: bool)
      requires Valid()
      modifies db
      ensures Valid()
      ensures ok <==> IdNamed(old(db.workspaces), name).Some?
      ensures !ok ==> unchanged(db)
      ensures ok ==>
        && db.workspaces == WithoutName(old(db.workspaces), name)
        && db.workspaceFiles == old(db.workspaceFiles)
        && db.activeProcesses == old(db.activeProcesses)
        && db.workspaceSeq == old(db.workspaceSeq) && db.fileSeq == old(db.fileSeq)
        && db.processSeq == old(db.processSeq)
      ensures forall w :: w in db.workspaces ==> w.name != name
      ensures forall w :: w in old(db.workspaces) && w.name != name ==> w in db.workspaces
      ensures name !in ActiveNames(db.workspaces, db.activeProcesses)
    {
      var id := db.FindWorkspaceId(name);
      if id.value.None? {
        return false;
      }
      var _ := db.DeleteWorkspaceNamed(name);
      ok := true;
    }
  }
}
