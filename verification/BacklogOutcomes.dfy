/** What one sync of pkg/backlog/backlog.go does to each store, column by column, for files in each
    place of the tree; and which issues it leaves to a human. */
module BacklogOutcomes {
  import opened Text
  import opened BacklogSync
  import opened BacklogConvergence

  // ---- places and sprint fields ----

  predicate InTasks(p: Path) {
    |p| == 3 && p[0] == "works" && p[1] == "tasks"
  }

  predicate InTasksCompleted(p: Path) {
    |p| == 4 && p[0] == "works" && p[1] == "tasks" && p[2] == "completed"
  }

  /** Under a sprint that is in the given folder. */
  predicate UnderSprint(p: Path, folder: string) {
    |p| == 6 && p[0] == "works" && p[1] == "sprints" && p[2] == folder && p[4] == "tasks"
  }

  /** What counts as naming no sprint. */
  predicate NoSprint(v: string) {
    v == "" || v == "backlog" || v == "~" || v == "null" || v == "<nil>"
  }

  function FieldOr(fm: Fields, key: string, other: string): string {
    if key in fm && fm[key] != "" then fm[key] else other
  }

  lemma FieldIs(fm: Fields, key: string)
    ensures Field(fm, key) == FieldOr(fm, key, "")
  {
  }

  lemma SprintFieldIs(v: string)
    ensures NormalizeSprintField(v) == if NoSprint(v) then "" else v
  {
  }

  // ---- the file ----

  /** A file in works/tasks/ that names a sprint is made to name the backlog; nothing else happens to files. */
  lemma FileOutcome(tid: string, s: TaskState, onDisk: set<Path>)
    ensures SyncTask(tid, s, onDisk).file ==
      if s.file.Some? && s.file.value.fm.Some? && InTasks(s.file.value.path)
         && !NoSprint(FieldOr(s.file.value.fm.value, "sprint", ""))
      then Some(TaskFile(s.file.value.path, Some(s.file.value.fm.value["sprint" := "backlog"])))
      else s.file
  {
    hide SyncTask;
    SyncInClosedForm(tid, s, onDisk);
    if s.file.Some? && s.file.value.fm.Some? { FieldIs(s.file.value.fm.value, "sprint"); }
  }

  // ---- the row ----

  /** A row is inserted for a file with readable frontmatter that has none: its status, todo if it has
      none, its sprint unless it names none, and its path. */
  lemma RowIsInserted(tid: string, s: TaskState, onDisk: set<Path>)
    requires s.file.Some? && s.db.None?
    ensures SyncTask(tid, s, onDisk).db ==
      if s.file.value.fm.None? then None
      else
        var fm := s.file.value.fm.value;
        var sprint := FieldOr(fm, "sprint", "");
        Some(TaskRow(FieldOr(fm, "status", "todo"), if NoSprint(sprint) then "" else sprint, s.file.value.path))
  {
    hide SyncTask;
    SyncInClosedForm(tid, s, onDisk);
  }

  /** An existing row gets the path of its file. Its sprint becomes the file's, none for a file in
      works/tasks/; one way of naming none is as good as another, unless the file was made to name the backlog. */
  lemma RowIsUpdated(tid: string, s: TaskState, onDisk: set<Path>)
    requires s.file.Some? && s.file.value.fm.Some? && s.db.Some?
    ensures var r, row, f := SyncTask(tid, s, onDisk).db, s.db.value, s.file.value;
      var sprint := FieldOr(f.fm.value, "sprint", "");
      && r.Some? && r.value.filePath == f.path
      && r.value.sprint ==
           if InTasks(f.path) || NoSprint(sprint) then
             if NoSprint(row.sprint) && !(InTasks(f.path) && !NoSprint(sprint)) then row.sprint else ""
           else sprint
  {
    hide SyncTask, SyncedStatus;
    SyncInClosedForm(tid, s, onDisk);
    SprintFieldIs(s.db.value.sprint);
    FieldIs(s.file.value.fm.value, "sprint");
    SprintFieldIs(FieldOr(s.file.value.fm.value, "sprint", ""));
    hide NormalizeSprintField, FieldOr, Field;
  }

  /** Under a completed sprint a row becomes done when the file is, and otherwise keeps its status. */
  lemma StatusUnderCompleted(tid: string, s: TaskState, onDisk: set<Path>)
    requires s.file.Some? && s.file.value.fm.Some? && s.db.Some? && UnderSprint(s.file.value.path, "completed")
    ensures SyncTask(tid, s, onDisk).db.Some?
      && SyncTask(tid, s, onDisk).db.value.status ==
           if FieldOr(s.file.value.fm.value, "status", "") == "done" then "done" else s.db.value.status
  {
    hide SyncTask;
    SyncInClosedForm(tid, s, onDisk);
  }

  /** Without a readable file a row stays as it is, unless there is no file at all, no line in
      BACKLOG.md, and its path is empty or in no worktree: then it is deleted. */
  lemma RowWithoutFile(tid: string, s: TaskState, onDisk: set<Path>)
    requires s.db.Some? && (s.file.None? || s.file.value.fm.None?)
    ensures SyncTask(tid, s, onDisk).db ==
      if s.file.None? && !s.listed && (s.db.value.filePath == [] || s.db.value.filePath !in onDisk) then None else s.db
  {
    hide SyncTask;
    SyncInClosedForm(tid, s, onDisk);
  }

  // ---- the listing ----

  /** A line in BACKLOG.md goes when the file lies with the completed ones and the row was done. One is
      added for a todo in works/tasks/ whose sprint field is empty. */
  lemma ListingOutcome(tid: string, s: TaskState, onDisk: set<Path>)
    ensures SyncTask(tid, s, onDisk).listed ==
      if s.listed then
        !(s.file.Some? && (InTasksCompleted(s.file.value.path) || UnderSprint(s.file.value.path, "completed"))
          && s.db.Some? && s.db.value.status == "done")
      else
        s.file.Some? && InTasks(s.file.value.path) && s.file.value.fm.Some?
        && FieldOr(s.file.value.fm.value, "sprint", "") == "" && FieldOr(s.file.value.fm.value, "status", "") == "todo"
  {
    hide SyncTask;
    SyncInClosedForm(tid, s, onDisk);
  }

  // ---- the report ----

  predicate Readable(s: TaskState) {
    s.file.Some? && s.file.value.fm.Some?
  }

  function FileField(s: TaskState, key: string): string
    requires Readable(s)
  {
    FieldOr(s.file.value.fm.value, key, "")
  }

  /** The status that the file gives is not the row's. */
  predicate StatusDiffers(s: TaskState) {
    Readable(s) && s.db.Some? && FileField(s, "status") != "" && FileField(s, "status") != s.db.value.status
  }

  /** The sprint that the row should have. */
  function WantedSprint(s: TaskState): string
    requires Readable(s)
  {
    if InTasks(s.file.value.path) || NoSprint(FileField(s, "sprint")) then "" else FileField(s, "sprint")
  }

  /** When an issue of this kind is reported, and whether it is left to a human. */
  predicate Reported(kind: Kind, auto: bool, s: TaskState, onDisk: set<Path>) {
    var done := s.db.Some? && s.db.value.status == "done";
    match kind
    case LocationMismatch =>
      Readable(s) &&
      if auto then InTasks(s.file.value.path) && !NoSprint(FileField(s, "sprint"))
      else
        var p := s.file.value.path;
        && |p| == 6 && p[0] == "works" && p[1] == "sprints" && p[4] == "tasks" && p[2] != "completed"
        && (FileField(s, "status") == "done" || FileField(s, "status") == "absorbed")
    case DbMissingTask(fm, path) =>
      s.file.Some? && s.db.None? && s.file.value == TaskFile(path, fm) && (auto <==> fm.Some?)
    case FileStatusStale => StatusDiffers(s) && !auto && UnderSprint(s.file.value.path, "completed") && done
    case CompletedAnomaly =>
      StatusDiffers(s) && UnderSprint(s.file.value.path, "completed") && !done && (auto <==> FileField(s, "status") == "done")
    case StatusRegression =>
      StatusDiffers(s) && !auto && !UnderSprint(s.file.value.path, "completed")
      && Earlier(FileField(s, "status"), s.db.value.status)
    case StatusMismatch(status) =>
      StatusDiffers(s) && auto && !UnderSprint(s.file.value.path, "completed")
      && status == FileField(s, "status") && !Earlier(status, s.db.value.status)
    case SprintMismatch(sprint) =>
      Readable(s) && s.db.Some? && auto && sprint == WantedSprint(s)
      && sprint != if NoSprint(s.db.value.sprint) then "" else s.db.value.sprint
    case PathMismatch(actual) => Readable(s) && s.db.Some? && auto && actual == s.file.value.path != s.db.value.filePath
    case StaleCompleted =>
      s.listed && auto && done
      && s.file.Some? && (InTasksCompleted(s.file.value.path) || UnderSprint(s.file.value.path, "completed"))
    case MissingFile =>
      s.listed && !auto && (s.file.Some? ==>
        !InTasks(s.file.value.path)
        && !(done && (InTasksCompleted(s.file.value.path) || UnderSprint(s.file.value.path, "completed"))))
    case MissingEntry =>
      !s.listed && auto && Readable(s) && InTasks(s.file.value.path)
      && FileField(s, "sprint") == "" && FileField(s, "status") == "todo"
    case ParseError => !auto && s.file.Some? && s.file.value.fm.None?
    case OrphanTask =>
      auto && s.file.None? && s.db.Some? && !s.listed && (s.db.value.filePath == [] || s.db.value.filePath !in onDisk)
    case _ => false
  }

  /** The report about a task, kind by kind. */
  lemma ReportExactly(tid: string, s: TaskState, onDisk: set<Path>, i: Issue)
    ensures i in TaskIssues(tid, s, onDisk) <==> i.subject == Task(tid) && Reported(i.kind, i.autoFixable, s, onDisk)
  {
    LocationReport(tid, s, i, onDisk);
    DbReport(tid, s, i, onDisk);
    OtherReports(tid, s, i, onDisk);
    hide LocationIssues, DbIssues, BacklogIssues, ParseIssues, OrphanIssues, Reported;
  }

  lemma LocationReport(tid: string, s: TaskState, i: Issue, onDisk: set<Path>)
    ensures i in LocationIssues(tid, s) <==>
      i.subject == Task(tid) && i.kind.LocationMismatch? && Reported(i.kind, i.autoFixable, s, onDisk)
  {
  }

  predicate AboutRow(kind: Kind) {
    kind.DbMissingTask? || kind.FileStatusStale? || kind.CompletedAnomaly? || kind.StatusRegression?
    || kind.StatusMismatch? || kind.SprintMismatch? || kind.PathMismatch?
  }

  predicate AboutStatus(kind: Kind) {
    kind.FileStatusStale? || kind.CompletedAnomaly? || kind.StatusRegression? || kind.StatusMismatch?
  }

  lemma StatusReport(tid: string, s: TaskState, i: Issue, onDisk: set<Path>)
    requires Readable(s) && s.db.Some?
    ensures var status := FileField(s, "status");
      status != "" && s.db.value.status != status
      && i == StatusIssue(tid, GetDirLocation(s.file.value.path), s.db.value.status, status)
      <==> i.subject == Task(tid) && AboutStatus(i.kind) && Reported(i.kind, i.autoFixable, s, onDisk)
  {
  }

  lemma SprintAndPathReport(tid: string, s: TaskState, i: Issue, onDisk: set<Path>)
    requires Readable(s) && s.db.Some?
    ensures var sprint, row := CanonicalSprint(GetDirLocation(s.file.value.path), s.file.value.fm.value), s.db.value;
      || (NormalizeSprintField(row.sprint) != sprint && i == Issue(Task(tid), SprintMismatch(sprint), true))
      || (row.filePath != s.file.value.path && i == Issue(Task(tid), PathMismatch(s.file.value.path), true))
      <==> i.subject == Task(tid) && (i.kind.SprintMismatch? || i.kind.PathMismatch?) && Reported(i.kind, i.autoFixable, s, onDisk)
  {
    SprintFieldIs(FileField(s, "sprint"));
    FieldIs(s.file.value.fm.value, "sprint");
    SprintFieldIs(s.db.value.sprint);
    hide NormalizeSprintField, NoSprint, FieldOr, Field;
  }

  lemma MissingReport(tid: string, s: TaskState, i: Issue, onDisk: set<Path>)
    requires s.file.Some? ==> s.db.None?
    ensures i in DbIssues(tid, s) <==> i.subject == Task(tid) && AboutRow(i.kind) && Reported(i.kind, i.autoFixable, s, onDisk)
  {
    hide NoSprint, FieldOr, InTasks, UnderSprint;
  }

  lemma DbReport(tid: string, s: TaskState, i: Issue, onDisk: set<Path>)
    ensures i in DbIssues(tid, s) <==>
      i.subject == Task(tid) && AboutRow(i.kind) && Reported(i.kind, i.autoFixable, s, onDisk)
  {
    if s.file.None? || s.db.None? {
      MissingReport(tid, s, i, onDisk);
    } else if s.file.value.fm.None? {
      UnreadableReport(tid, s, i, onDisk);
    } else {
      StatusReport(tid, s, i, onDisk);
      SprintAndPathReport(tid, s, i, onDisk);
      MissingIsNot(s, i, onDisk);
      FieldIs(s.file.value.fm.value, "status");
      hide Reported, StatusIssue, GetDirLocation, CanonicalSprint, NormalizeSprintField, FieldOr, Field;
    }
  }

  lemma UnreadableReport(tid: string, s: TaskState, i: Issue, onDisk: set<Path>)
    requires s.file.Some? && s.file.value.fm.None? && s.db.Some?
    ensures i !in DbIssues(tid, s) && (AboutRow(i.kind) ==> !Reported(i.kind, i.autoFixable, s, onDisk))
  {
  }

  lemma MissingIsNot(s: TaskState, i: Issue, onDisk: set<Path>)
    requires s.db.Some?
    ensures i.kind.DbMissingTask? ==> !Reported(i.kind, i.autoFixable, s, onDisk)
  {
  }

  lemma OtherReports(tid: string, s: TaskState, i: Issue, onDisk: set<Path>)
    ensures i in BacklogIssues(tid, s) + ParseIssues(tid, s) + OrphanIssues(tid, s, onDisk) <==>
      i.subject == Task(tid) && !AboutRow(i.kind) && !i.kind.LocationMismatch? && Reported(i.kind, i.autoFixable, s, onDisk)
  {
  }

  // ---- sprints ----

  function NameOf(f: Folder): string {
    match f
    case ActiveFolder => "active"
    case BacklogFolder => "backlog"
    case CompletedFolder => "completed"
  }

  /** The row of a sprint that had none: the title, else the heading, else the ID; folder and dates as scanned. */
  lemma SprintIsInserted(sid: string, f: SprintFile)
    ensures SyncSprint(sid, SprintState(Some(f), None)) == SprintState(Some(f), Some(SprintRow(
      if f.title != "" then f.title else if f.heading != "" then f.heading else sid,
      NameOf(f.folder), f.folderPath, f.started, f.completed)))
  {
    hide SyncSprint;
    SprintSyncInClosedForm(sid, SprintState(Some(f), None));
  }

  /** A row without a file is left alone. Otherwise: if the row has no title but its ID, or lacks a date
      that it should have, the dates are filled in and the title is taken over as it is written; else a
      different title is taken over without the blanks around it. The folder path is corrected where there is one. */
  lemma SprintIsUpdated(sid: string, f: SprintFile, row: SprintRow)
    ensures var r := SyncSprint(sid, SprintState(Some(f), Some(row)));
      var stale := row.title == "" || row.title == sid || row.startedAt == ""
        || (NameOf(f.folder) == "completed" && row.completedAt == "");
      var title := if f.title != "" then f.title else f.heading;
      && r.db.Some?
      && r.db.value.title ==
           (if stale && title != "" then title
            else if TrimSpace(f.title) != "" && row.title != "" && row.title != sid then TrimSpace(f.title)
            else row.title)
      && r.db.value.startedAt == (if row.startedAt == "" && stale then f.started else row.startedAt)
      && r.db.value.completedAt == (if row.completedAt == "" && stale then f.completed else row.completedAt)
      && r.db.value.folderPath ==
           if f.folderPath != [] && (row.folderPath != [] || r.db.value.status != row.status) then f.folderPath else row.folderPath
    ensures SyncSprint(sid, SprintState(None, Some(row))) == SprintState(None, Some(row))
  {
    hide SyncSprint, TrimSpace;
    SprintSyncInClosedForm(sid, SprintState(Some(f), Some(row)));
    SprintSyncInClosedForm(sid, SprintState(None, Some(row)));
  }

  /** The only issue about a sprint that is left to a human: the row is ahead of the folder. */
  lemma SprintReport(sid: string, s: SprintState, i: Issue)
    ensures i in SprintIssues(sid, s) && !i.autoFixable <==>
      i == Issue(Sprint(sid), SprintStatusRegression, false)
      && s.file.Some? && s.db.Some? && EarlierSprint(NameOf(s.file.value.folder), s.db.value.status)
  {
    hide TrimSpace;
  }
}
