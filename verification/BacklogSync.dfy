/** `Sync` of pkg/backlog/backlog.go: detect on a snapshot, then repair in issue
    order, over three stores: task files, database rows and BACKLOG.md rows.

    The model keys each store by task ID (IDs are unique, and a BACKLOG.md row
    names one task), and a database write always succeeds. */
module BacklogSync {
  import opened Text

  /** A repository-relative path, split at '/'; [] is the empty string. */
  type Path = seq<string>

  /** Frontmatter as `fmString` reads it: a missing or null field is "". */
  type Fields = map<string, string>

  function Field(fm: Fields, key: string): string {
    if key in fm then fm[key] else ""
  }

  /** `fm` is None when the frontmatter does not parse. */
  datatype TaskFile = TaskFile(path: Path, fm: Option<Fields>)
  datatype TaskRow = TaskRow(status: string, sprint: string, filePath: Path)

  // ---- locations, normal forms, ranks ----

  datatype DirLocation = DirLocation(
    inBacklogTasks: bool, inTasksCompleted: bool, inSprintTasks: bool, sprintId: string, sprintStatus: string)

  function GetDirLocation(p: Path): DirLocation {
    var inSprint := |p| == 6 && p[0] == "works" && p[1] == "sprints" && p[4] == "tasks";
    DirLocation(
      |p| == 3 && p[0] == "works" && p[1] == "tasks",
      |p| == 4 && p[0] == "works" && p[1] == "tasks" && p[2] == "completed",
      inSprint,
      if inSprint then p[3] else "",
      if inSprint then p[2] else "")
  }

  predicate InSprintCompleted(loc: DirLocation) {
    loc.inSprintTasks && loc.sprintStatus == "completed"
  }

  function NormalizeSprintField(s: string): string {
    if s == "backlog" || s == "~" || s == "null" || s == "<nil>" then "" else s
  }

  function TaskStatusRank(s: string): int {
    if s == "todo" then 0
    else if s == "in-progress" || s == "in_progress" then 1
    else if s == "done" then 2
    else -1
  }

  predicate IsTaskStatusRegression(dbStatus: string, fileStatus: string) {
    var d := TaskStatusRank(dbStatus);
    var f := TaskStatusRank(fileStatus);
    d >= 0 && f >= 0 && d > f
  }

  function SprintStatusRank(s: string): int {
    if s == "backlog" then 0 else if s == "active" then 1 else if s == "completed" then 2 else -1
  }

  predicate IsSprintStatusRegression(dbStatus: string, fileStatus: string) {
    var d := SprintStatusRank(dbStatus);
    var f := SprintStatusRank(fileStatus);
    d >= 0 && f >= 0 && d > f
  }

  // ---- sprints ----

  datatype Folder = ActiveFolder | BacklogFolder | CompletedFolder

  function FolderName(f: Folder): string {
    match f
    case ActiveFolder => "active"
    case BacklogFolder => "backlog"
    case CompletedFolder => "completed"
  }

  /** A scanned SPRINT.md.  `title` is the frontmatter title, `heading` the title
      found in the body; `started` and `completed` are the dates the scan resolves
      from frontmatter, git and file times. */
  datatype SprintFile = SprintFile(
    folder: Folder, folderPath: Path, title: string, heading: string, started: string, completed: string)
  datatype SprintRow = SprintRow(
    title: string, status: string, folderPath: Path, startedAt: string, completedAt: string)

  // ---- issues ----

  datatype Subject = Task(id: string) | Sprint(id: string)
  datatype Kind =
    | LocationMismatch
    | DbMissingTask(fm: Option<Fields>, path: Path)
    | FileStatusStale
    | CompletedAnomaly
    | StatusRegression
    | StatusMismatch(fileStatus: string)
    | SprintMismatch(fileSprint: string)
    | PathMismatch(actual: Path)
    | StaleCompleted
    | MissingFile
    | MissingEntry
    | ParseError
    | OrphanTask
    | SprintMissing(info: SprintFile)
    | SprintTitleMismatch(info: SprintFile)
    | SprintFolderMismatch(info: SprintFile)
    | SprintStatusFileAbsent(info: SprintFile)
    | SprintStatusRegression
    | SprintMetadataStale(info: SprintFile)
  datatype Issue = Issue(subject: Subject, kind: Kind, autoFixable: bool)

  /** The issues about one subject, in order. */
  function Of(issues: seq<Issue>, who: Subject): seq<Issue> {
    if issues == [] then []
    else
      var last := issues[|issues| - 1];
      Of(issues[..|issues| - 1], who) + if last.subject == who then [last] else []
  }

  // ---------------------------------------------------------------------
  // Meaning: what one sync does to one task
  // ---------------------------------------------------------------------

  /** Everything the three stores know about one task. */
  datatype TaskState = TaskState(file: Option<TaskFile>, db: Option<TaskRow>, listed: bool)

  function LocationIssues(tid: string, s: TaskState): (r: seq<Issue>)
    ensures forall i | i in r :: i.subject == Task(tid)
  {
    if s.file.None? || s.file.value.fm.None? then []
    else
      var loc := GetDirLocation(s.file.value.path);
      var fm := s.file.value.fm.value;
      var status := Field(fm, "status");
      (if loc.inBacklogTasks && NormalizeSprintField(Field(fm, "sprint")) != ""
       then [Issue(Task(tid), LocationMismatch, true)] else [])
      + (if loc.inSprintTasks && (status == "done" || status == "absorbed") && loc.sprintStatus != "completed"
         then [Issue(Task(tid), LocationMismatch, false)] else [])
  }

  function StatusIssue(tid: string, loc: DirLocation, dbStatus: string, fileStatus: string): Issue {
    if InSprintCompleted(loc) then
      if dbStatus == "done" then Issue(Task(tid), FileStatusStale, false)
      else Issue(Task(tid), CompletedAnomaly, fileStatus == "done")
    else if IsTaskStatusRegression(dbStatus, fileStatus) then Issue(Task(tid), StatusRegression, false)
    else Issue(Task(tid), StatusMismatch(fileStatus), true)
  }

  /** The sprint the database should hold for a file. */
  function CanonicalSprint(loc: DirLocation, fm: Fields): string {
    if loc.inBacklogTasks then "" else NormalizeSprintField(Field(fm, "sprint"))
  }

  function DbIssues(tid: string, s: TaskState): (r: seq<Issue>)
    ensures forall i | i in r :: i.subject == Task(tid)
  {
    if s.file.None? then []
    else
      var f := s.file.value;
      if s.db.None? then [Issue(Task(tid), DbMissingTask(f.fm, f.path), f.fm.Some?)]
      else if f.fm.None? then []
      else
        var loc := GetDirLocation(f.path);
        var row := s.db.value;
        var status := Field(f.fm.value, "status");
        var sprint := CanonicalSprint(loc, f.fm.value);
        (if status != "" && row.status != status then [StatusIssue(tid, loc, row.status, status)] else [])
        + (if NormalizeSprintField(row.sprint) != sprint then [Issue(Task(tid), SprintMismatch(sprint), true)] else [])
        + (if row.filePath != f.path then [Issue(Task(tid), PathMismatch(f.path), true)] else [])
  }

  predicate DbDone(s: TaskState) {
    s.db.Some? && s.db.value.status == "done"
  }

  predicate InBacklog(s: TaskState) {
    s.file.Some? && GetDirLocation(s.file.value.path).inBacklogTasks
  }

  predicate InCompleted(s: TaskState) {
    s.file.Some? && var loc := GetDirLocation(s.file.value.path); loc.inTasksCompleted || InSprintCompleted(loc)
  }

  function BacklogIssues(tid: string, s: TaskState): (r: seq<Issue>)
    ensures forall i | i in r :: i.subject == Task(tid)
  {
    if s.listed then
      if InBacklog(s) then []
      else if InCompleted(s) && DbDone(s) then [Issue(Task(tid), StaleCompleted, true)]
      else [Issue(Task(tid), MissingFile, false)]
    else if InBacklog(s) && s.file.value.fm.Some? && Field(s.file.value.fm.value, "sprint") == ""
            && Field(s.file.value.fm.value, "status") == "todo"
    then [Issue(Task(tid), MissingEntry, true)]
    else []
  }

  function ParseIssues(tid: string, s: TaskState): (r: seq<Issue>)
    ensures forall i | i in r :: i.subject == Task(tid)
  {
    if s.file.Some? && s.file.value.fm.None? then [Issue(Task(tid), ParseError, false)] else []
  }

  predicate ExistsInWorktrees(p: Path, onDisk: set<Path>) {
    p != [] && p in onDisk
  }

  function OrphanIssues(tid: string, s: TaskState, onDisk: set<Path>): (r: seq<Issue>)
    ensures forall i | i in r :: i.subject == Task(tid)
  {
    if s.db.Some? && s.file.None? && !s.listed && !ExistsInWorktrees(s.db.value.filePath, onDisk)
    then [Issue(Task(tid), OrphanTask, true)] else []
  }

  /** Everything one detection reports about a task, in the order of Sync. */
  function TaskIssues(tid: string, s: TaskState, onDisk: set<Path>): seq<Issue> {
    LocationIssues(tid, s) + DbIssues(tid, s) + BacklogIssues(tid, s) + ParseIssues(tid, s)
    + OrphanIssues(tid, s, onDisk)
  }

  function Default(s: string, d: string): string {
    if s == "" then d else s
  }

  function InsertedRow(fm: Fields, path: Path): TaskRow {
    TaskRow(Default(Field(fm, "status"), "todo"), NormalizeSprintField(Field(fm, "sprint")), path)
  }

  function SetField(s: TaskState, key: string, value: string): TaskState {
    if s.file.Some? && s.file.value.fm.Some?
    then s.(file := Some(s.file.value.(fm := Some(s.file.value.fm.value[key := value]))))
    else s
  }

  function SetStatus(s: TaskState, status: string): TaskState {
    if s.db.Some? then s.(db := Some(s.db.value.(status := status))) else s
  }

  function SetSprint(s: TaskState, sprint: string): TaskState {
    if s.db.Some? then s.(db := Some(s.db.value.(sprint := sprint))) else s
  }

  function SetPath(s: TaskState, path: Path): TaskState {
    if s.db.Some? then s.(db := Some(s.db.value.(filePath := path))) else s
  }

  /** The repair of one issue. */
  function FixTask(s: TaskState, kind: Kind): TaskState {
    match kind
    case LocationMismatch => SetSprint(SetField(s, "sprint", "backlog"), "")
    case DbMissingTask(fm, path) => if fm.Some? && s.db.None? then s.(db := Some(InsertedRow(fm.value, path))) else s
    case FileStatusStale => SetField(s, "status", "done")
    case CompletedAnomaly => SetStatus(s, "done")
    case StatusMismatch(status) => if status == "" then s else SetStatus(s, status)
    case SprintMismatch(sprint) => SetSprint(s, sprint)
    case PathMismatch(path) => SetPath(s, path)
    case StaleCompleted => s.(listed := false)
    case MissingEntry => s.(listed := true)
    case OrphanTask => s.(db := None)
    case _ => s
  }

  function FixAll(s: TaskState, issues: seq<Issue>): TaskState {
    if issues == [] then s
    else
      var last := issues[|issues| - 1];
      var t := FixAll(s, issues[..|issues| - 1]);
      if last.autoFixable then FixTask(t, last.kind) else t
  }

  /** One non-dry sync, seen from one task. */
  function SyncTask(tid: string, s: TaskState, onDisk: set<Path>): TaskState {
    FixAll(s, TaskIssues(tid, s, onDisk))
  }

  // ---------------------------------------------------------------------
  // Meaning: what one sync does to one sprint
  // ---------------------------------------------------------------------

  datatype SprintState = SprintState(file: Option<SprintFile>, db: Option<SprintRow>)

  function SprintIssues(sid: string, s: SprintState): (r: seq<Issue>)
    ensures forall i | i in r :: i.subject == Sprint(sid)
  {
    if s.file.None? then []
    else
      var f := s.file.value;
      if s.db.None? then [Issue(Sprint(sid), SprintMissing(f), true)]
      else
        var row := s.db.value;
        var title := TrimSpace(f.title);
        (if title != "" && row.title != "" && row.title != sid && row.title != title
         then [Issue(Sprint(sid), SprintTitleMismatch(f), true)] else [])
        + (if row.folderPath != [] && row.folderPath != f.folderPath
           then [Issue(Sprint(sid), SprintFolderMismatch(f), true)] else [])
        + (if row.status != "" && row.status != FolderName(f.folder) then
             [if IsSprintStatusRegression(row.status, FolderName(f.folder))
              then Issue(Sprint(sid), SprintStatusRegression, false)
              else Issue(Sprint(sid), SprintStatusFileAbsent(f), true)]
           else [])
        + (if row.title == "" || row.title == sid || row.startedAt == ""
              || (f.folder == CompletedFolder && row.completedAt == "")
           then [Issue(Sprint(sid), SprintMetadataStale(f), true)] else [])
  }

  /** UpdateSprintMetadata: empty arguments leave a column alone. */
  function SetMetadata(r: SprintRow, title: string, folderPath: Path, status: string): SprintRow {
    r.(title := Default(title, r.title),
       folderPath := if folderPath == [] then r.folderPath else folderPath,
       status := Default(status, r.status))
  }

  function FixSprint(sid: string, s: SprintState, kind: Kind): SprintState {
    match kind
    case SprintMissing(f) =>
      if s.db.Some? then s
      else s.(db := Some(SprintRow(Default(Default(f.title, f.heading), sid), FolderName(f.folder),
                                   f.folderPath, f.started, f.completed)))
    case SprintTitleMismatch(f) =>
      if s.db.Some? && TrimSpace(f.title) != "" then s.(db := Some(SetMetadata(s.db.value, TrimSpace(f.title), [], "")))
      else s
    case SprintFolderMismatch(f) =>
      if s.db.Some? then s.(db := Some(SetMetadata(s.db.value, "", f.folderPath, ""))) else s
    case SprintStatusFileAbsent(f) =>
      if s.db.Some? then s.(db := Some(SetMetadata(s.db.value, "", f.folderPath, FolderName(f.folder)))) else s
    case SprintMetadataStale(f) =>
      if s.db.None? then s
      else
        var r := SetMetadata(s.db.value, Default(f.title, f.heading), [], "");
        s.(db := Some(r.(startedAt := Default(r.startedAt, f.started), completedAt := Default(r.completedAt, f.completed))))
    case _ => s
  }

  function FixSprintAll(sid: string, s: SprintState, issues: seq<Issue>): SprintState {
    if issues == [] then s
    else
      var last := issues[|issues| - 1];
      var t := FixSprintAll(sid, s, issues[..|issues| - 1]);
      if last.autoFixable then FixSprint(sid, t, last.kind) else t
  }

  function SyncSprint(sid: string, s: SprintState): SprintState {
    FixSprintAll(sid, s, SprintIssues(sid, s))
  }

  // ---------------------------------------------------------------------
  // The stores and the engine
  // ---------------------------------------------------------------------

  class Workspace {
    var files: map<string, TaskFile>
    var rows: map<string, TaskRow>
    var listed: set<string>
    var sprintFiles: map<string, SprintFile>
    var sprintRows: map<string, SprintRow>
    /** Paths that exist in some git worktree. */
    var onDisk: set<Path>

    function TaskOf(tid: string): TaskState
      reads this
    {
      TaskState(if tid in files then Some(files[tid]) else None,
                if tid in rows then Some(rows[tid]) else None, tid in listed)
    }

    function SprintOf(sid: string): SprintState
      reads this
    {
      SprintState(if sid in sprintFiles then Some(sprintFiles[sid]) else None,
                  if sid in sprintRows then Some(sprintRows[sid]) else None)
    }

    method CheckFileLocations() returns (issues: seq<Issue>)
      ensures forall who :: Of(issues, who) == if who.Task? then LocationIssues(who.id, TaskOf(who.id)) else []
    {
      hide Of, GetDirLocation, NormalizeSprintField;
      issues := [];
      var todo := files.Keys;
      OfNothing();
      while todo != {}
        invariant todo <= files.Keys
        invariant forall who ::
          Of(issues, who) == if who.Task? && who.id !in todo then LocationIssues(who.id, TaskOf(who.id)) else []
      {
        var tid :| tid in todo;
        todo := todo - {tid};
        ghost var before := issues;
        var f := files[tid];
        if f.fm.Some? {
          var loc := GetDirLocation(f.path);
          var status := Field(f.fm.value, "status");
          if loc.inBacklogTasks && NormalizeSprintField(Field(f.fm.value, "sprint")) != "" {
            issues := issues + [Issue(Task(tid), LocationMismatch, true)];
          }
          if loc.inSprintTasks && (status == "done" || status == "absorbed") && loc.sprintStatus != "completed" {
            issues := issues + [Issue(Task(tid), LocationMismatch, false)];
          }
        }
        OfBlock(before, LocationIssues(tid, TaskOf(tid)), Task(tid));
        assert issues == before + LocationIssues(tid, TaskOf(tid));
      }
    }

    method CheckDBVsFrontmatter() returns (issues: seq<Issue>)
      ensures forall who :: Of(issues, who) == if who.Task? then DbIssues(who.id, TaskOf(who.id)) else []
    {
      hide Of, DbIssues;
      issues := [];
      var todo := files.Keys;
      OfNothing();
      NoDbIssuesWithoutFile();
      while todo != {}
        invariant todo <= files.Keys
        invariant forall who ::
          Of(issues, who) == if who.Task? && who.id !in todo then DbIssues(who.id, TaskOf(who.id)) else []
      {
        var tid :| tid in todo;
        todo := todo - {tid};
        var found := CheckTaskVsDB(tid);
        OfBlock(issues, found, Task(tid));
        issues := issues + found;
      }
    }

    lemma NoDbIssuesWithoutFile()
      ensures forall tid | tid !in files :: DbIssues(tid, TaskOf(tid)) == []
    {
    }

    /** One turn of the loop over the task files. */
    method CheckTaskVsDB(tid: string) returns (found: seq<Issue>)
      requires tid in files
      ensures found == DbIssues(tid, TaskOf(tid))
    {
      hide GetDirLocation, NormalizeSprintField, IsTaskStatusRegression;
      found := [];
      var f := files[tid];
      if tid !in rows {
        return [Issue(Task(tid), DbMissingTask(f.fm, f.path), f.fm.Some?)];
      }
      if f.fm.None? {
        return;
      }
      var row := rows[tid];
      var status := Field(f.fm.value, "status");
      var sprint := NormalizeSprintField(Field(f.fm.value, "sprint"));
      var loc := GetDirLocation(f.path);
      if loc.inBacklogTasks {
        sprint := "";
      }
      if status != "" && row.status != status {
        if loc.inSprintTasks && loc.sprintStatus == "completed" && row.status == "done" {
          found := found + [Issue(Task(tid), FileStatusStale, false)];
        } else if loc.inSprintTasks && loc.sprintStatus == "completed" && row.status != "done" {
          found := found + [Issue(Task(tid), CompletedAnomaly, status == "done")];
        } else if IsTaskStatusRegression(row.status, status) {
          found := found + [Issue(Task(tid), StatusRegression, false)];
        } else {
          found := found + [Issue(Task(tid), StatusMismatch(status), true)];
        }
      }
      assert found == if status != "" && row.status != status then [StatusIssue(tid, loc, row.status, status)] else [];
      if NormalizeSprintField(row.sprint) != sprint {
        found := found + [Issue(Task(tid), SprintMismatch(sprint), true)];
      }
      if row.filePath != f.path {
        found := found + [Issue(Task(tid), PathMismatch(f.path), true)];
      }
    }

    /** Two loops as in the source: over the rows listed in BACKLOG.md, then over
        the files that lie in works/tasks/. */
    method CheckBacklogMDVsFiles() returns (issues: seq<Issue>)
      ensures forall who :: Of(issues, who) == if who.Task? then BacklogIssues(who.id, TaskOf(who.id)) else []
    {
      hide Of, GetDirLocation;
      issues := [];
      var todo := listed;
      OfNothing();
      while todo != {}
        invariant todo <= listed
        invariant forall who ::
          Of(issues, who) == if who.Task? && who.id in listed - todo then BacklogIssues(who.id, TaskOf(who.id)) else []
      {
        var tid :| tid in todo;
        todo := todo - {tid};
        ghost var before := issues;
        var s := TaskOf(tid);
        if !InBacklog(s) {
          if InCompleted(s) && DbDone(s) {
            issues := issues + [Issue(Task(tid), StaleCompleted, true)];
          } else {
            issues := issues + [Issue(Task(tid), MissingFile, false)];
          }
        }
        OfBlock(before, BacklogIssues(tid, TaskOf(tid)), Task(tid));
        assert issues == before + BacklogIssues(tid, TaskOf(tid));
      }
      todo := files.Keys - listed;
      while todo != {}
        invariant todo <= files.Keys - listed
        invariant forall who ::
          Of(issues, who) == if who.Task? && who.id !in todo then BacklogIssues(who.id, TaskOf(who.id)) else []
      {
        var tid :| tid in todo;
        todo := todo - {tid};
        ghost var before := issues;
        var f := files[tid];
        if GetDirLocation(f.path).inBacklogTasks && f.fm.Some?
           && Field(f.fm.value, "sprint") == "" && Field(f.fm.value, "status") == "todo" {
          issues := issues + [Issue(Task(tid), MissingEntry, true)];
        }
        OfBlock(before, BacklogIssues(tid, TaskOf(tid)), Task(tid));
        assert issues == before + BacklogIssues(tid, TaskOf(tid));
      }
    }

    method CheckFrontmatterParseErrors() returns (issues: seq<Issue>)
      ensures forall who :: Of(issues, who) == if who.Task? then ParseIssues(who.id, TaskOf(who.id)) else []
    {
      hide Of;
      issues := [];
      var todo := files.Keys;
      OfNothing();
      while todo != {}
        invariant todo <= files.Keys
        invariant forall who ::
          Of(issues, who) == if who.Task? && who.id !in todo then ParseIssues(who.id, TaskOf(who.id)) else []
      {
        var tid :| tid in todo;
        todo := todo - {tid};
        ghost var before := issues;
        if files[tid].fm.None? {
          issues := issues + [Issue(Task(tid), ParseError, false)];
        }
        OfBlock(before, ParseIssues(tid, TaskOf(tid)), Task(tid));
        assert issues == before + ParseIssues(tid, TaskOf(tid));
      }
    }

    method CheckDBOrphanTasks() returns (issues: seq<Issue>)
      ensures forall who :: Of(issues, who) == if who.Task? then OrphanIssues(who.id, TaskOf(who.id), onDisk) else []
    {
      hide Of;
      issues := [];
      var todo := rows.Keys;
      OfNothing();
      while todo != {}
        invariant todo <= rows.Keys
        invariant forall who ::
          Of(issues, who) == if who.Task? && who.id !in todo then OrphanIssues(who.id, TaskOf(who.id), onDisk) else []
      {
        var tid :| tid in todo;
        todo := todo - {tid};
        ghost var before := issues;
        if tid !in files && tid !in listed && !ExistsInWorktrees(rows[tid].filePath, onDisk) {
          issues := issues + [Issue(Task(tid), OrphanTask, true)];
        }
        OfBlock(before, OrphanIssues(tid, TaskOf(tid), onDisk), Task(tid));
        assert issues == before + OrphanIssues(tid, TaskOf(tid), onDisk);
      }
    }

    method CheckDBVsSprintFiles() returns (issues: seq<Issue>)
      ensures forall who :: Of(issues, who) == if who.Sprint? then SprintIssues(who.id, SprintOf(who.id)) else []
    {
      hide Of, SprintIssues;
      issues := [];
      var todo := sprintFiles.Keys;
      OfNothing();
      NoSprintIssuesWithoutFile();
      while todo != {}
        invariant todo <= sprintFiles.Keys
        invariant forall who ::
          Of(issues, who) == if who.Sprint? && who.id !in todo then SprintIssues(who.id, SprintOf(who.id)) else []
      {
        var sid :| sid in todo;
        todo := todo - {sid};
        var found := CheckSprintVsDB(sid);
        OfBlock(issues, found, Sprint(sid));
        issues := issues + found;
      }
    }

    lemma NoSprintIssuesWithoutFile()
      ensures forall sid | sid !in sprintFiles :: SprintIssues(sid, SprintOf(sid)) == []
    {
    }

    /** One turn of the loop over the sprint files. */
    method CheckSprintVsDB(sid: string) returns (found: seq<Issue>)
      requires sid in sprintFiles
      ensures found == SprintIssues(sid, SprintOf(sid))
    {
      hide TrimSpace, IsSprintStatusRegression;
      found := [];
      var f := sprintFiles[sid];
      if sid !in sprintRows {
        return [Issue(Sprint(sid), SprintMissing(f), true)];
      }
      var row := sprintRows[sid];
      var title := TrimSpace(f.title);
      if title != "" && row.title != "" && row.title != sid && row.title != title {
        found := found + [Issue(Sprint(sid), SprintTitleMismatch(f), true)];
      }
      if row.folderPath != [] && row.folderPath != f.folderPath {
        found := found + [Issue(Sprint(sid), SprintFolderMismatch(f), true)];
      }
      if row.status != "" && row.status != FolderName(f.folder) {
        if IsSprintStatusRegression(row.status, FolderName(f.folder)) {
          found := found + [Issue(Sprint(sid), SprintStatusRegression, false)];
        } else {
          found := found + [Issue(Sprint(sid), SprintStatusFileAbsent(f), true)];
        }
      }
      var titleStale := row.title == "" || row.title == sid;
      var completedMissing := f.folder == CompletedFolder && row.completedAt == "";
      var startedMissing := row.startedAt == "";
      if !titleStale && !completedMissing && !startedMissing {
        return;
      }
      found := found + [Issue(Sprint(sid), SprintMetadataStale(f), true)];
    }

    // ---- store operations ----

    /** UPDATE ... WHERE task_id = ?: a missing row is left missing. */
    method UpdateTaskDirect(tid: string, status: Option<string>, sprint: Option<string>, path: Option<Path>)
      modifies this`rows
      ensures rows == if tid !in old(rows) then old(rows) else old(rows)[tid := TaskRow(
        if status.Some? then status.value else old(rows)[tid].status,
        if sprint.Some? then sprint.value else old(rows)[tid].sprint,
        if path.Some? then path.value else old(rows)[tid].filePath)]
    {
      if tid in rows {
        var row := rows[tid];
        if status.Some? { row := row.(status := status.value); }
        if sprint.Some? { row := row.(sprint := sprint.value); }
        if path.Some? { row := row.(filePath := path.value); }
        rows := rows[tid := row];
      }
    }

    /** INSERT OR IGNORE. */
    method UpsertTaskInsert(tid: string, row: TaskRow)
      modifies this`rows
      ensures rows == if tid in old(rows) then old(rows) else old(rows)[tid := row]
    {
      if tid !in rows { rows := rows[tid := row]; }
    }

    method UpdateTaskFrontmatter(tid: string, key: string, value: string)
      modifies this`files
      ensures files == if tid in old(files) && old(files)[tid].fm.Some?
        then old(files)[tid := old(files)[tid].(fm := Some(old(files)[tid].fm.value[key := value]))] else old(files)
    {
      if tid in files && files[tid].fm.Some? {
        files := files[tid := files[tid].(fm := Some(files[tid].fm.value[key := value]))];
      }
    }

    method UpdateSprintMetadata(sid: string, title: string, folderPath: Path, status: string)
      modifies this`sprintRows
      ensures sprintRows == if sid !in old(sprintRows) then old(sprintRows)
        else old(sprintRows)[sid := SetMetadata(old(sprintRows)[sid], title, folderPath, status)]
    {
      if sid in sprintRows {
        var r := sprintRows[sid];
        if title != "" { r := r.(title := title); }
        if folderPath != [] { r := r.(folderPath := folderPath); }
        if status != "" { r := r.(status := status); }
        sprintRows := sprintRows[sid := r];
      }
    }

    // ---- repair ----

    method FixTaskIssue(tid: string, kind: Kind)
      modifies this`files, this`rows, this`listed
      ensures forall t :: TaskOf(t) == if t == tid then FixTask(old(TaskOf(t)), kind) else old(TaskOf(t))
    {
      match kind
      case DbMissingTask(fm, path) =>
        if fm.Some? {
          var status := Field(fm.value, "status");
          if status == "" { status := "todo"; }
          UpsertTaskInsert(tid, TaskRow(status, NormalizeSprintField(Field(fm.value, "sprint")), path));
        }
      case StatusMismatch(status) =>
        if status != "" { UpdateTaskDirect(tid, Some(status), None, None); }
      case CompletedAnomaly => UpdateTaskDirect(tid, Some("done"), None, None);
      case FileStatusStale => UpdateTaskFrontmatter(tid, "status", "done");
      case SprintMismatch(sprint) => UpdateTaskDirect(tid, None, Some(sprint), None);
      case LocationMismatch =>
        UpdateTaskFrontmatter(tid, "sprint", "backlog");
        UpdateTaskDirect(tid, None, Some(""), None);
      case PathMismatch(path) => UpdateTaskDirect(tid, None, None, Some(path));
      case OrphanTask => rows := map t | t in rows && t != tid :: rows[t];
      case StaleCompleted => listed := listed - {tid};
      case MissingEntry => listed := listed + {tid};
      case _ =>
    }

    method FixSprintIssue(sid: string, kind: Kind)
      modifies this`sprintRows
      ensures forall t :: SprintOf(t) == if t == sid then FixSprint(t, old(SprintOf(t)), kind) else old(SprintOf(t))
    {
      match kind
      case SprintMissing(f) =>
        if sid !in sprintRows {
          var title := f.title;
          if title == "" { title := f.heading; }
          if title == "" { title := sid; }
          sprintRows := sprintRows[sid := SprintRow(title, FolderName(f.folder), f.folderPath, f.started, f.completed)];
        }
      case SprintTitleMismatch(f) =>
        if TrimSpace(f.title) != "" { UpdateSprintMetadata(sid, TrimSpace(f.title), [], ""); }
      case SprintFolderMismatch(f) => UpdateSprintMetadata(sid, "", f.folderPath, "");
      case SprintStatusFileAbsent(f) => UpdateSprintMetadata(sid, "", f.folderPath, FolderName(f.folder));
      case SprintMetadataStale(f) =>
        UpdateSprintMetadata(sid, Default(f.title, f.heading), [], "");
        if sid in sprintRows {
          var r := sprintRows[sid];
          if r.startedAt == "" { r := r.(startedAt := f.started); }
          if r.completedAt == "" { r := r.(completedAt := f.completed); }
          sprintRows := sprintRows[sid := r];
        }
      case _ =>
    }

    method ApplyFixes(issues: seq<Issue>)
      modifies this`files, this`rows, this`listed, this`sprintRows
      ensures forall t :: TaskOf(t) == FixAll(old(TaskOf(t)), Of(issues, Task(t)))
      ensures forall t :: SprintOf(t) == FixSprintAll(t, old(SprintOf(t)), Of(issues, Sprint(t)))
    {
      hide FixTask, FixSprint, FixAll, FixSprintAll, Of;
      OfNothing();
      forall t { FixNothing(old(TaskOf(t)), t, old(SprintOf(t))); }
      for i := 0 to |issues|
        invariant forall t :: TaskOf(t) == FixAll(old(TaskOf(t)), Of(issues[..i], Task(t)))
        invariant forall t :: SprintOf(t) == FixSprintAll(t, old(SprintOf(t)), Of(issues[..i], Sprint(t)))
      {
        var iss := issues[i];
        OfNext(issues, i);
        if iss.autoFixable {
          match iss.subject
          case Task(tid) => FixTaskIssue(tid, iss.kind);
          case Sprint(sid) => FixSprintIssue(sid, iss.kind);
        }
        forall t ensures TaskOf(t) == FixAll(old(TaskOf(t)), Of(issues[..i + 1], Task(t))) {
          FixNext(old(TaskOf(t)), Of(issues[..i], Task(t)), iss);
        }
        forall t ensures SprintOf(t) == FixSprintAll(t, old(SprintOf(t)), Of(issues[..i + 1], Sprint(t))) {
          FixSprintNext(t, old(SprintOf(t)), Of(issues[..i], Sprint(t)), iss);
        }
      }
      assert issues[..|issues|] == issues;
    }

    /** One run.  What it reports and what it leaves behind is, task by task and
        sprint by sprint, a function of what that task or sprint looked like. */
    method Sync(dryRun: bool) returns (issues: seq<Issue>)
      modifies this`files, this`rows, this`listed, this`sprintRows
      ensures forall t :: Of(issues, Task(t)) == TaskIssues(t, old(TaskOf(t)), onDisk)
      ensures forall t :: Of(issues, Sprint(t)) == SprintIssues(t, old(SprintOf(t)))
      ensures forall t :: TaskOf(t) == if dryRun then old(TaskOf(t)) else SyncTask(t, old(TaskOf(t)), onDisk)
      ensures forall t :: SprintOf(t) == if dryRun then old(SprintOf(t)) else SyncSprint(t, old(SprintOf(t)))
    {
      hide FixAll, FixSprintAll, LocationIssues, DbIssues, BacklogIssues, ParseIssues, OrphanIssues, SprintIssues, Of;
      var loc := CheckFileLocations();
      var db := CheckDBVsFrontmatter();
      var md := CheckBacklogMDVsFiles();
      var fm := CheckFrontmatterParseErrors();
      var sp := CheckDBVsSprintFiles();
      var orphan := CheckDBOrphanTasks();
      issues := loc + db + md + fm + sp + orphan;
      OfSum(loc, db);
      OfSum(loc + db, md);
      OfSum(loc + db + md, fm);
      OfSum(loc + db + md + fm, sp);
      OfSum(loc + db + md + fm + sp, orphan);
      if !dryRun {
        ApplyFixes(issues);
      }
    }
  }

  lemma FixNothing(s: TaskState, sid: string, p: SprintState)
    ensures FixAll(s, []) == s && FixSprintAll(sid, p, []) == p
  {
  }

  lemma FixNext(s: TaskState, issues: seq<Issue>, last: Issue)
    ensures issues + [] == issues
    ensures FixAll(s, issues + [last])
            == if last.autoFixable then FixTask(FixAll(s, issues), last.kind) else FixAll(s, issues)
  {
  }

  lemma FixSprintNext(sid: string, s: SprintState, issues: seq<Issue>, last: Issue)
    ensures issues + [] == issues
    ensures FixSprintAll(sid, s, issues + [last])
            == if last.autoFixable then FixSprint(sid, FixSprintAll(sid, s, issues), last.kind)
               else FixSprintAll(sid, s, issues)
  {
  }

  lemma OfNext(issues: seq<Issue>, i: nat)
    requires i < |issues|
    ensures forall who ::
      Of(issues[..i + 1], who) == Of(issues[..i], who) + if issues[i].subject == who then [issues[i]] else []
  {
    assert issues[..i + 1][..i] == issues[..i];
  }

  lemma {:induction false} OfSum(a: seq<Issue>, b: seq<Issue>)
    ensures forall who :: Of(a + b, who) == Of(a, who) + Of(b, who)
    decreases |b|
  {
    if b == [] {
      assert a + b == a;
    } else {
      var n := |b| - 1;
      OfSum(a, b[..n]);
      assert (a + b)[..|a| + n] == a + b[..n];
    }
  }

  lemma OfNothing()
    ensures forall who :: Of([], who) == []
  {
  }

  /** Appending a block of issues about one subject. */
  lemma OfBlock(issues: seq<Issue>, block: seq<Issue>, who: Subject)
    requires forall i | i in block :: i.subject == who
    ensures forall w :: Of(issues + block, w) == Of(issues, w) + if w == who then block else []
  {
    if block == [] {
      assert issues + block == issues;
    } else {
      var n := |block| - 1;
      OfBlock(issues, block[..n], who);
      assert (issues + block)[..|issues| + n] == issues + block[..n];
      assert block == block[..n] + [block[n]];
    }
  }
}
