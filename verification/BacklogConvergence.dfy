/** What repeated syncs converge to, and what no run of syncs and file edits can undo. */
module BacklogConvergence {
  import opened Text
  import opened BacklogSync

  // ---------------------------------------------------------------------
  // One sync in closed form
  // ---------------------------------------------------------------------

  /** A file in works/tasks/ whose frontmatter still names a sprint. */
  predicate Misplaced(f: TaskFile) {
    f.fm.Some? && GetDirLocation(f.path).inBacklogTasks && NormalizeSprintField(Field(f.fm.value, "sprint")) != ""
  }

  function SyncedFile(f: TaskFile): TaskFile {
    if Misplaced(f) then f.(fm := Some(f.fm.value["sprint" := "backlog"])) else f
  }

  function SyncedStatus(loc: DirLocation, dbStatus: string, fileStatus: string): string {
    if fileStatus == "" then dbStatus
    else if InSprintCompleted(loc) then (if fileStatus == "done" then "done" else dbStatus)
    else if IsTaskStatusRegression(dbStatus, fileStatus) then dbStatus
    else fileStatus
  }

  function SyncedRow(f: TaskFile, db: Option<TaskRow>): Option<TaskRow> {
    if f.fm.None? then db
    else if db.None? then Some(InsertedRow(f.fm.value, f.path))
    else
      var loc := GetDirLocation(f.path);
      var sprint := CanonicalSprint(loc, f.fm.value);
      Some(TaskRow(
        SyncedStatus(loc, db.value.status, Field(f.fm.value, "status")),
        if Misplaced(f) || NormalizeSprintField(db.value.sprint) != sprint then sprint else db.value.sprint,
        f.path))
  }

  function SyncedListing(s: TaskState): bool {
    if s.listed then InBacklog(s) || !InCompleted(s) || !DbDone(s)
    else InBacklog(s) && s.file.value.fm.Some?
         && Field(s.file.value.fm.value, "sprint") == "" && Field(s.file.value.fm.value, "status") == "todo"
  }

  function Synced(s: TaskState, onDisk: set<Path>): TaskState {
    if s.file.Some? then TaskState(Some(SyncedFile(s.file.value)), SyncedRow(s.file.value, s.db), SyncedListing(s))
    else if s.db.Some? && !s.listed && !ExistsInWorktrees(s.db.value.filePath, onDisk) then s.(db := None)
    else s
  }

  lemma {:induction false} FixAllSum(s: TaskState, a: seq<Issue>, b: seq<Issue>)
    ensures FixAll(s, a + b) == FixAll(FixAll(s, a), b)
    decreases |b|
  {
    hide FixTask;
    if b == [] {
      assert a + b == a;
    } else {
      var n := |b| - 1;
      FixAllSum(s, a, b[..n]);
      assert (a + b)[..|a| + n] == a + b[..n];
    }
  }

  lemma FixAtMostOne(s: TaskState, issues: seq<Issue>)
    requires |issues| <= 1
    ensures FixAll(s, issues) == if issues != [] && issues[0].autoFixable then FixTask(s, issues[0].kind) else s
  {
  }

  lemma FixLocation(tid: string, s: TaskState)
    ensures FixAll(s, LocationIssues(tid, s))
      == if s.file.Some? && Misplaced(s.file.value) then FixTask(s, LocationMismatch) else s
  {
  }

  /** The database repairs were computed from `s`, but run on `t`. */
  lemma FixDb(tid: string, s: TaskState, t: TaskState)
    requires s.file.Some? && (t.db.Some? <==> s.db.Some?) && (s.db.Some? ==> t.db.value.status == s.db.value.status)
    ensures FixAll(t, DbIssues(tid, s)) == t.(db :=
      if s.file.value.fm.None? then t.db
      else if s.db.None? then Some(InsertedRow(s.file.value.fm.value, s.file.value.path))
      else
        var loc := GetDirLocation(s.file.value.path);
        var sprint := CanonicalSprint(loc, s.file.value.fm.value);
        Some(TaskRow(
          SyncedStatus(loc, s.db.value.status, Field(s.file.value.fm.value, "status")),
          if NormalizeSprintField(s.db.value.sprint) != sprint then sprint else t.db.value.sprint,
          if s.db.value.filePath != s.file.value.path then s.file.value.path else t.db.value.filePath)))
  {
    hide FixAll, GetDirLocation, NormalizeSprintField, SyncedStatus, StatusIssue;
    var f := s.file.value;
    if s.db.None? || f.fm.None? {
      FixAtMostOne(t, DbIssues(tid, s));
    } else {
      var loc := GetDirLocation(f.path);
      var row := s.db.value;
      var status := Field(f.fm.value, "status");
      var sprint := CanonicalSprint(loc, f.fm.value);
      var a := if status != "" && row.status != status then [StatusIssue(tid, loc, row.status, status)] else [];
      var b := if NormalizeSprintField(row.sprint) != sprint then [Issue(Task(tid), SprintMismatch(sprint), true)] else [];
      var c := if row.filePath != f.path then [Issue(Task(tid), PathMismatch(f.path), true)] else [];
      assert DbIssues(tid, s) == a + b + c;
      FixAllSum(t, a + b, c);
      FixAllSum(t, a, b);
      FixStatus(tid, t, loc, row.status, status);
      FixAtMostOne(FixAll(t, a), b);
      FixAtMostOne(FixAll(t, a + b), c);
    }
  }

  lemma FixStatus(tid: string, t: TaskState, loc: DirLocation, dbStatus: string, fileStatus: string)
    requires t.db.Some? && t.db.value.status == dbStatus
    ensures FixAll(t, if fileStatus != "" && dbStatus != fileStatus then [StatusIssue(tid, loc, dbStatus, fileStatus)] else [])
      == t.(db := Some(t.db.value.(status := SyncedStatus(loc, dbStatus, fileStatus))))
  {
  }

  /** A sync is the closed form. */
  lemma SyncInClosedForm(tid: string, s: TaskState, onDisk: set<Path>)
    ensures SyncTask(tid, s, onDisk) == Synced(s, onDisk)
  {
    hide FixAll, GetDirLocation, NormalizeSprintField, LocationIssues, DbIssues, SyncedStatus;
    var loc, db, md := LocationIssues(tid, s), DbIssues(tid, s), BacklogIssues(tid, s);
    var fm, orphan := ParseIssues(tid, s), OrphanIssues(tid, s, onDisk);
    FixAllSum(s, loc, db);
    FixAllSum(s, loc + db, md);
    FixAllSum(s, loc + db + md, fm);
    FixAllSum(s, loc + db + md + fm, orphan);
    FixLocation(tid, s);
    var s1 := FixAll(s, loc);
    if s.file.Some? {
      FixDb(tid, s, s1);
    } else {
      NoFileNoDbIssues(tid, s, s1);
    }
    var s2 := FixAll(s1, db);
    FixAtMostOne(s2, md);
    var s3 := FixAll(s2, md);
    FixAtMostOne(s3, fm);
    FixAtMostOne(s3, orphan);
    BacklogIsNotCompleted(s);
  }

  lemma NoFileNoDbIssues(tid: string, s: TaskState, t: TaskState)
    requires s.file.None?
    ensures FixAll(t, DbIssues(tid, s)) == t
  {
  }

  lemma BacklogIsNotCompleted(s: TaskState)
    ensures !(InBacklog(s) && InCompleted(s))
  {
  }

  // ---------------------------------------------------------------------
  // Convergence
  // ---------------------------------------------------------------------

  predicate Quiet(tid: string, s: TaskState, onDisk: set<Path>) {
    forall i | i in TaskIssues(tid, s, onDisk) :: !i.autoFixable
  }

  /** The two snapshots that one pass works from are out of date: a row is inserted
      with the sprint that the location repair has just cleared, or a status becomes
      done after BACKLOG.md asked whether it was. */
  predicate NeedsSecondPass(s: TaskState) {
    && s.file.Some? && s.file.value.fm.Some?
    && ((s.db.None? && Misplaced(s.file.value))
        || (s.listed && InCompleted(s) && !DbDone(s) && Field(s.file.value.fm.value, "status") == "done"))
  }

  /** Quiet, said about the stores instead of about the issue list. */
  predicate Settled(s: TaskState, onDisk: set<Path>) {
    if s.file.None? then s.db.None? || s.listed || ExistsInWorktrees(s.db.value.filePath, onDisk)
    else
      var f := s.file.value;
      && !Misplaced(f)
      && SyncedListing(s) == s.listed
      && (f.fm.Some? ==>
            && s.db.Some?
            && s.db.value.filePath == f.path
            && NormalizeSprintField(s.db.value.sprint) == CanonicalSprint(GetDirLocation(f.path), f.fm.value)
            && SyncedStatus(GetDirLocation(f.path), s.db.value.status, Field(f.fm.value, "status")) == s.db.value.status)
  }

  lemma QuietIsSettled(tid: string, s: TaskState, onDisk: set<Path>)
    ensures Quiet(tid, s, onDisk) <==> Settled(s, onDisk)
  {
    hide GetDirLocation, NormalizeSprintField, IsTaskStatusRegression;
    var loc, db, md := LocationIssues(tid, s), DbIssues(tid, s), BacklogIssues(tid, s);
    var fm, orphan := ParseIssues(tid, s), OrphanIssues(tid, s, onDisk);
    assert Quiet(tid, s, onDisk) <==> AllManual(loc) && AllManual(db) && AllManual(md) && AllManual(fm) && AllManual(orphan);
    BacklogIsNotCompleted(s);
    LocationManual(tid, s);
    if s.file.Some? && s.file.value.fm.Some? { DbManual(tid, s); }
  }

  predicate AllManual(issues: seq<Issue>) {
    forall i | i in issues :: !i.autoFixable
  }

  lemma LocationManual(tid: string, s: TaskState)
    ensures AllManual(LocationIssues(tid, s)) <==> s.file.None? || !Misplaced(s.file.value)
  {
  }

  lemma DbManual(tid: string, s: TaskState)
    requires s.file.Some? && s.file.value.fm.Some?
    ensures AllManual(DbIssues(tid, s)) <==>
      var f := s.file.value;
      && s.db.Some?
      && s.db.value.filePath == f.path
      && NormalizeSprintField(s.db.value.sprint) == CanonicalSprint(GetDirLocation(f.path), f.fm.value)
      && SyncedStatus(GetDirLocation(f.path), s.db.value.status, Field(f.fm.value, "status")) == s.db.value.status
  {
  }

  lemma StatusSettles(loc: DirLocation, dbStatus: string, fileStatus: string)
    ensures SyncedStatus(loc, SyncedStatus(loc, dbStatus, fileStatus), fileStatus) == SyncedStatus(loc, dbStatus, fileStatus)
    ensures SyncedStatus(loc, dbStatus, "done") == "done"
  {
  }

  /** One pass is enough for a task exactly when neither snapshot goes stale. */
  lemma OnePassSettlesExactly(s: TaskState, onDisk: set<Path>)
    ensures Settled(Synced(s, onDisk), onDisk) <==> !NeedsSecondPass(s)
  {
    hide GetDirLocation, TaskStatusRank;
    if s.file.Some? && s.file.value.fm.Some? {
      var loc := GetDirLocation(s.file.value.path);
      var status := Field(s.file.value.fm.value, "status");
      BacklogIsNotCompleted(s);
      if s.db.Some? { StatusSettles(loc, s.db.value.status, status); }
    }
  }

  lemma SettledIsFixed(s: TaskState, onDisk: set<Path>)
    requires Settled(s, onDisk)
    ensures Synced(s, onDisk) == s && !NeedsSecondPass(s)
  {
  }

  lemma OnePassRemovesNeed(s: TaskState, onDisk: set<Path>)
    ensures !NeedsSecondPass(Synced(s, onDisk))
  {
  }

  /** One sync leaves nothing auto-fixable exactly when neither snapshot went stale. */
  lemma OnePassExactly(tid: string, s: TaskState, onDisk: set<Path>)
    ensures Quiet(tid, SyncTask(tid, s, onDisk), onDisk) <==> !NeedsSecondPass(s)
  {
    hide Quiet, Settled, NeedsSecondPass, Synced, SyncTask;
    SyncInClosedForm(tid, s, onDisk);
    QuietIsSettled(tid, Synced(s, onDisk), onDisk);
    OnePassSettlesExactly(s, onDisk);
  }

  /** On stores whose listing is a set of IDs two syncs converge: nothing auto-fixable is left and a
      third changes nothing, even if the set of worktree paths changed between the runs. */
  lemma TwoPassesConverge(tid: string, s: TaskState, disk1: set<Path>, disk2: set<Path>)
    ensures var s2 := SyncTask(tid, SyncTask(tid, s, disk1), disk2);
      Quiet(tid, s2, disk2) && SyncTask(tid, s2, disk2) == s2
  {
    hide Quiet, Settled, NeedsSecondPass, Synced, SyncTask;
    var s1 := Synced(s, disk1);
    var s2 := Synced(s1, disk2);
    SyncInClosedForm(tid, s, disk1);
    SyncInClosedForm(tid, s1, disk2);
    SyncInClosedForm(tid, s2, disk2);
    OnePassRemovesNeed(s, disk1);
    OnePassSettlesExactly(s1, disk2);
    QuietIsSettled(tid, s2, disk2);
    SettledIsFixed(s2, disk2);
  }

  /** Both ways of needing the second pass occur. */
  lemma SecondPassIsNeeded()
    ensures NeedsSecondPass(TaskState(
      Some(TaskFile(["works", "tasks", "T1-a.md"], Some(map["sprint" := "sprint-5"]))), None, false))
    ensures NeedsSecondPass(TaskState(
      Some(TaskFile(["works", "tasks", "completed", "T1-a.md"], Some(map["status" := "done"]))),
      Some(TaskRow("todo", "", ["works", "tasks", "completed", "T1-a.md"])), true))
  {
  }

  /** The same on the stores: the third run finds only issues for a human, and
      leaves every task as the second run left it. */
  method ThirdSyncIsIdle(w: Workspace) returns (issues: seq<Issue>)
    modifies w
    ensures forall t :: forall i | i in Of(issues, Task(t)) :: !i.autoFixable
    ensures forall t :: w.TaskOf(t) == SyncTask(t, SyncTask(t, old(w.TaskOf(t)), w.onDisk), w.onDisk)
  {
    hide Quiet, SyncTask, TaskIssues, Of, SyncSprint, SprintIssues;
    ghost var disk := w.onDisk;
    issues := w.Sync(false);
    issues := w.Sync(false);
    label second:
    issues := w.Sync(false);
    forall t ensures forall i | i in Of(issues, Task(t)) :: !i.autoFixable
      ensures w.TaskOf(t) == old@second(w.TaskOf(t))
    {
      TwoPassesConverge(t, old(w.TaskOf(t)), disk, disk);
      QuietIssues(t, old@second(w.TaskOf(t)), disk);
    }
  }

  lemma QuietIssues(tid: string, s: TaskState, onDisk: set<Path>)
    requires Quiet(tid, s, onDisk)
    ensures forall i | i in TaskIssues(tid, s, onDisk) :: !i.autoFixable
  {
  }

  // ---------------------------------------------------------------------
  // No regression over runs
  // ---------------------------------------------------------------------

  /** A sync never changes where a file is, and of its fields at most `sprint`. */
  lemma SyncKeepsFileStatus(tid: string, s: TaskState, onDisk: set<Path>)
    ensures var t := SyncTask(tid, s, onDisk);
      && (t.file.Some? <==> s.file.Some?)
      && (s.file.Some? ==>
            && t.file.value.path == s.file.value.path
            && (t.file.value.fm.Some? <==> s.file.value.fm.Some?)
            && (s.file.value.fm.Some? ==> forall k | k != "sprint" ::
                  Field(t.file.value.fm.value, k) == Field(s.file.value.fm.value, k)))
  {
    SyncInClosedForm(tid, s, onDisk);
  }

  /** A task goes from todo to in-progress, in either spelling, to done. */
  predicate InProgress(st: string) {
    st == "in-progress" || st == "in_progress"
  }

  predicate InWorkflow(st: string) {
    st == "todo" || InProgress(st) || st == "done"
  }

  predicate Earlier(a: string, b: string) {
    (a == "todo" && (InProgress(b) || b == "done")) || (InProgress(a) && b == "done")
  }

  /** From `before` to `after` a task falls back in the workflow, or out of it. */
  predicate FallsBack(before: string, after: string) {
    Earlier(after, before) || (InWorkflow(before) && !InWorkflow(after))
  }

  predicate UnderCompletedSprint(p: Path) {
    |p| == 6 && p[0] == "works" && p[1] == "sprints" && p[2] == "completed" && p[4] == "tasks"
  }

  /** The file carries a status outside the workflow. */
  predicate StrayFile(f: Option<TaskFile>) {
    f.Some? && f.value.fm.Some?
    && Field(f.value.fm.value, "status") != "" && !InWorkflow(Field(f.value.fm.value, "status"))
  }

  /** For a file outside the completed sprints: the row's status stays when the file's stands earlier
      in the workflow, and otherwise becomes the file's. */
  lemma StatusFollowsFile(tid: string, s: TaskState, onDisk: set<Path>)
    requires s.file.Some? && s.file.value.fm.Some? && s.db.Some? && !UnderCompletedSprint(s.file.value.path)
    ensures var before, status := s.db.value.status, Field(s.file.value.fm.value, "status");
      SyncTask(tid, s, onDisk).db.Some?
      && SyncTask(tid, s, onDisk).db.value.status == if status == "" || Earlier(status, before) then before else status
  {
    hide SyncTask;
    SyncInClosedForm(tid, s, onDisk);
  }

  /** A sync makes a row fall back exactly when it was in the workflow and the file carries a status
      outside of it, except under a completed sprint. */
  lemma FallsBackExactly(tid: string, s: TaskState, onDisk: set<Path>)
    requires s.db.Some? && SyncTask(tid, s, onDisk).db.Some?
    ensures FallsBack(s.db.value.status, SyncTask(tid, s, onDisk).db.value.status)
      <==> InWorkflow(s.db.value.status) && StrayFile(s.file) && !UnderCompletedSprint(s.file.value.path)
  {
    hide SyncTask;
    SyncInClosedForm(tid, s, onDisk);
    if s.file.Some? && s.file.value.fm.Some? && !UnderCompletedSprint(s.file.value.path) { StatusFollowsFile(tid, s, onDisk); }
  }

  datatype Event = SyncRun(onDisk: set<Path>) | Edit(file: Option<TaskFile>)

  function Step(tid: string, s: TaskState, e: Event): TaskState {
    match e
    case SyncRun(onDisk) => SyncTask(tid, s, onDisk)
    case Edit(file) => s.(file := file)
  }

  function Run(tid: string, s: TaskState, events: seq<Event>): TaskState {
    if events == [] then s else Step(tid, Run(tid, s, events[..|events| - 1]), events[|events| - 1])
  }

  /** Over any run of syncs and edits whose file statuses belong to the workflow, the status of a
      database row that stays in place never falls back. */
  lemma {:induction false} NoStatusRegression(tid: string, s: TaskState, events: seq<Event>)
    requires !StrayFile(s.file) && forall e | e in events :: e.Edit? ==> !StrayFile(e.file)
    requires forall n | 0 <= n <= |events| :: Run(tid, s, events[..n]).db.Some?
    ensures !StrayFile(Run(tid, s, events).file)
    ensures s.db.Some? && Run(tid, s, events).db.Some?
    ensures !FallsBack(s.db.value.status, Run(tid, s, events).db.value.status)
    decreases |events|
  {
    hide SyncTask;
    assert events[..|events|] == events && events[..0] == [];
    if events != [] {
      var n := |events| - 1;
      var before := events[..n];
      forall k | 0 <= k <= n ensures before[..k] == events[..k] {}
      NoStatusRegression(tid, s, before);
      var t := Run(tid, s, before);
      if events[n].SyncRun? {
        FallsBackExactly(tid, t, events[n].onDisk);
        SyncKeepsFileStatus(tid, t, events[n].onDisk);
      }
      NeverBackTwice(s.db.value.status, t.db.value.status, Run(tid, s, events).db.value.status);
    }
  }

  lemma NeverBackTwice(a: string, b: string, c: string)
    requires !FallsBack(a, b) && !FallsBack(b, c)
    ensures !FallsBack(a, c)
  {
  }

  // ---------------------------------------------------------------------
  // Sprints
  // ---------------------------------------------------------------------

  predicate Stale(sid: string, f: SprintFile, row: SprintRow) {
    row.title == "" || row.title == sid || row.startedAt == "" || (f.folder == CompletedFolder && row.completedAt == "")
  }

  predicate TitleDiffers(sid: string, f: SprintFile, row: SprintRow) {
    TrimSpace(f.title) != "" && row.title != "" && row.title != sid && row.title != TrimSpace(f.title)
  }

  predicate FolderBehind(f: SprintFile, row: SprintRow) {
    row.status != "" && row.status != FolderName(f.folder) && !IsSprintStatusRegression(row.status, FolderName(f.folder))
  }

  /** One sync of a sprint row, column by column. */
  function SyncedSprintRow(sid: string, f: SprintFile, row: SprintRow): SprintRow {
    var title := Default(f.title, f.heading);
    SprintRow(
      if Stale(sid, f, row) && title != "" then title
      else if TitleDiffers(sid, f, row) then TrimSpace(f.title) else row.title,
      if FolderBehind(f, row) then FolderName(f.folder) else row.status,
      if f.folderPath != [] && (FolderBehind(f, row) || row.folderPath != []) then f.folderPath else row.folderPath,
      if Stale(sid, f, row) then Default(row.startedAt, f.started) else row.startedAt,
      if Stale(sid, f, row) then Default(row.completedAt, f.completed) else row.completedAt)
  }

  function SyncedSprint(sid: string, s: SprintState): SprintState {
    if s.file.None? then s
    else if s.db.None? then FixSprint(sid, s, SprintMissing(s.file.value))
    else s.(db := Some(SyncedSprintRow(sid, s.file.value, s.db.value)))
  }

  lemma {:induction false} FixSprintAllSum(sid: string, s: SprintState, a: seq<Issue>, b: seq<Issue>)
    ensures FixSprintAll(sid, s, a + b) == FixSprintAll(sid, FixSprintAll(sid, s, a), b)
    decreases |b|
  {
    hide FixSprint;
    if b == [] {
      assert a + b == a;
    } else {
      var n := |b| - 1;
      FixSprintAllSum(sid, s, a, b[..n]);
      assert (a + b)[..|a| + n] == a + b[..n];
    }
  }

  lemma FixSprintAtMostOne(sid: string, s: SprintState, issues: seq<Issue>)
    requires |issues| <= 1
    ensures FixSprintAll(sid, s, issues)
      == if issues != [] && issues[0].autoFixable then FixSprint(sid, s, issues[0].kind) else s
  {
  }

  lemma FixTitleAndFolder(sid: string, s: SprintState)
    requires s.file.Some? && s.db.Some?
    ensures var f := s.file.value; var row := s.db.value;
      var a := if TitleDiffers(sid, f, row) then [Issue(Sprint(sid), SprintTitleMismatch(f), true)] else [];
      var b := if row.folderPath != [] && row.folderPath != f.folderPath
        then [Issue(Sprint(sid), SprintFolderMismatch(f), true)] else [];
      FixSprintAll(sid, s, a + b) == s.(db := Some(row.(
        title := if TitleDiffers(sid, f, row) then TrimSpace(f.title) else row.title,
        folderPath := if row.folderPath != [] && f.folderPath != [] then f.folderPath else row.folderPath)))
  {
    hide FixSprintAll, TrimSpace;
    var f, row := s.file.value, s.db.value;
    var a := if TitleDiffers(sid, f, row) then [Issue(Sprint(sid), SprintTitleMismatch(f), true)] else [];
    var b := if row.folderPath != [] && row.folderPath != f.folderPath
      then [Issue(Sprint(sid), SprintFolderMismatch(f), true)] else [];
    FixSprintAllSum(sid, s, a, b);
    FixSprintAtMostOne(sid, s, a);
    FixSprintAtMostOne(sid, FixSprintAll(sid, s, a), b);
  }

  lemma FixFolderStatus(sid: string, f: SprintFile, row: SprintRow, t: SprintState)
    requires t.db.Some?
    ensures FixSprintAll(sid, t, if row.status != "" && row.status != FolderName(f.folder) then
          [if IsSprintStatusRegression(row.status, FolderName(f.folder)) then Issue(Sprint(sid), SprintStatusRegression, false)
           else Issue(Sprint(sid), SprintStatusFileAbsent(f), true)]
        else [])
      == if FolderBehind(f, row) then t.(db := Some(SetMetadata(t.db.value, "", f.folderPath, FolderName(f.folder)))) else t
  {
  }

  lemma SprintSyncInClosedForm(sid: string, s: SprintState)
    ensures SyncSprint(sid, s) == SyncedSprint(sid, s)
  {
    hide FixSprintAll, TrimSpace, IsSprintStatusRegression;
    if s.file.None? || s.db.None? {
      FixSprintAtMostOne(sid, s, SprintIssues(sid, s));
    } else {
      var f := s.file.value;
      var row := s.db.value;
      var ab := (if TitleDiffers(sid, f, row) then [Issue(Sprint(sid), SprintTitleMismatch(f), true)] else [])
        + if row.folderPath != [] && row.folderPath != f.folderPath
          then [Issue(Sprint(sid), SprintFolderMismatch(f), true)] else [];
      var c := if row.status != "" && row.status != FolderName(f.folder) then
          [if IsSprintStatusRegression(row.status, FolderName(f.folder)) then Issue(Sprint(sid), SprintStatusRegression, false)
           else Issue(Sprint(sid), SprintStatusFileAbsent(f), true)]
        else [];
      var d := if Stale(sid, f, row) then [Issue(Sprint(sid), SprintMetadataStale(f), true)] else [];
      assert SprintIssues(sid, s) == ab + c + d;
      FixSprintAllSum(sid, s, ab + c, d);
      FixSprintAllSum(sid, s, ab, c);
      FixTitleAndFolder(sid, s);
      var s2 := FixSprintAll(sid, s, ab);
      FixFolderStatus(sid, f, row, s2);
      var s3 := FixSprintAll(sid, s2, c);
      FixSprintAtMostOne(sid, s3, d);
    }
  }

  /** A sprint goes from backlog to active to completed. */
  predicate EarlierSprint(a: string, b: string) {
    (a == "backlog" && (b == "active" || b == "completed")) || (a == "active" && b == "completed")
  }

  /** A sprint's row is never removed. Its status stays when it is empty or ahead of the folder that the
      sprint is in, and otherwise becomes that folder's name. */
  lemma SprintNeverRegresses(sid: string, s: SprintState)
    requires s.db.Some?
    ensures SyncSprint(sid, s).db.Some? && SyncSprint(sid, s).file == s.file
    ensures !EarlierSprint(SyncSprint(sid, s).db.value.status, s.db.value.status)
    ensures s.file.Some? ==>
      var before := s.db.value.status;
      var folder := match s.file.value.folder
        case ActiveFolder => "active"
        case BacklogFolder => "backlog"
        case CompletedFolder => "completed";
      SyncSprint(sid, s).db.value.status == if before == "" || EarlierSprint(folder, before) then before else folder
  {
    hide SyncSprint, TrimSpace;
    SprintSyncInClosedForm(sid, s);
  }

  /** A frontmatter title that is the sprint's own ID with blanks around it: the
      title repair trims it to the ID, which the next run takes for a missing title. */
  predicate TitleOscillates(sid: string, s: SprintState) {
    && s.file.Some?
    && var f := s.file.value;
    && TrimSpace(f.title) == sid != f.title && sid != ""
    && (f.started != "" || (s.db.Some? && s.db.value.startedAt != ""))
    && (f.folder != CompletedFolder || f.completed != "" || (s.db.Some? && s.db.value.completedAt != ""))
  }

  /** Two syncs settle a sprint's row exactly when its title does not oscillate. */
  lemma SprintsSettleExactly(sid: string, s: SprintState)
    ensures var s2 := SyncSprint(sid, SyncSprint(sid, s)); SyncSprint(sid, s2) == s2 <==> !TitleOscillates(sid, s)
  {
    hide SyncSprint, TrimSpace, IsSprintStatusRegression, SyncedSprintRow, TitleOscillates;
    SprintSyncInClosedForm(sid, s);
    SprintSyncInClosedForm(sid, SyncedSprint(sid, s));
    SprintSyncInClosedForm(sid, SyncedSprint(sid, SyncedSprint(sid, s)));
    if s.file.Some? {
      if s.db.None? { InsertSettles(sid, s); } else { RowSettles(sid, s.file.value, s.db.value); }
    } else {
      assert !TitleOscillates(sid, s) by { NoFileNoTitle(sid, s); }
    }
  }

  function SyncedTimes(sid: string, s: SprintState, n: nat): SprintState {
    if n == 0 then s else SyncSprint(sid, SyncedTimes(sid, s, n - 1))
  }

  lemma OscillationStays(sid: string, s: SprintState)
    requires TitleOscillates(sid, s)
    ensures TitleOscillates(sid, SyncSprint(sid, s))
  {
    hide SyncSprint, TrimSpace, IsSprintStatusRegression;
    SprintSyncInClosedForm(sid, s);
  }

  lemma {:induction false} OscillatesAfter(sid: string, s: SprintState, n: nat)
    requires TitleOscillates(sid, s)
    ensures TitleOscillates(sid, SyncedTimes(sid, s, n))
  {
    hide SyncSprint, TitleOscillates;
    if n > 0 {
      OscillatesAfter(sid, s, n - 1);
      OscillationStays(sid, SyncedTimes(sid, s, n - 1));
    }
  }

  /** A title that oscillates does so for ever: from the third sync on, every one changes the row. */
  lemma NeverSettles(sid: string, s: SprintState, n: nat)
    requires TitleOscillates(sid, s) && n >= 2
    ensures SyncedTimes(sid, s, n + 1) != SyncedTimes(sid, s, n)
  {
    hide SyncSprint, TitleOscillates;
    OscillatesAfter(sid, s, n - 2);
    SprintsSettleExactly(sid, SyncedTimes(sid, s, n - 2));
    assert SyncedTimes(sid, s, n - 1) == SyncSprint(sid, SyncedTimes(sid, s, n - 2));
  }

  /** Such a sprint. */
  lemma PaddedTitleNeverSettles(n: nat)
    requires n >= 2
    ensures var s := SprintState(
        Some(SprintFile(ActiveFolder, ["works", "sprints", "active", "s1"], " s1", "", "2026-01-01", "")), None);
      SyncedTimes("s1", s, n + 1) != SyncedTimes("s1", s, n)
  {
    var s := SprintState(
      Some(SprintFile(ActiveFolder, ["works", "sprints", "active", "s1"], " s1", "", "2026-01-01", "")), None);
    assert TrimLeft(" s1", IsSpace) == "s1" by { assert " s1"[1..] == "s1"; }
    assert TitleOscillates("s1", s);
    hide TitleOscillates, SyncSprint;
    NeverSettles("s1", s, n);
  }

  lemma NoFileNoTitle(sid: string, s: SprintState)
    requires s.file.None?
    ensures !TitleOscillates(sid, s)
  {
  }

  lemma RowSettles(sid: string, f: SprintFile, row: SprintRow)
    ensures var r2 := SyncedSprintRow(sid, f, SyncedSprintRow(sid, f, row));
      SyncedSprintRow(sid, f, r2) == r2 <==> !TitleOscillates(sid, SprintState(Some(f), Some(row)))
  {
  }

  lemma InsertSettles(sid: string, s: SprintState)
    requires s.file.Some? && s.db.None?
    ensures var s2 := SyncedSprint(sid, SyncedSprint(sid, s));
      SyncedSprint(sid, s2) == s2 <==> !TitleOscillates(sid, s)
  {
  }

}
