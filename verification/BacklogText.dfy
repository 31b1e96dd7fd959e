/** Whole syncs on the text of BACKLOG.md: a condition on the file that adding and removing rows
    keep, and under which what the detector reads from the text is the set of IDs that the engine
    of pkg/backlog/backlog.go reasons about. */
module BacklogText {
  import opened Text
  import opened Lines
  import opened Decimal
  import opened BacklogTable
  import opened BacklogRows
  import S = BacklogSync
  import C = BacklogConvergence

  // ---- tidy files ----

  /** A line carries the marker of a task exactly when the detector reads the task's ID from it. */
  ghost predicate Clean(line: string) {
    !EndsInCR(line) && forall id | IsTaskId(id) :: Contains(line, Marker(id)) <==> RowId(line) == Some(id)
  }

  /** The columns of the first table, if there is one. */
  function Layout(lines: seq<string>): Option<seq<string>> {
    if HasTable(lines) then
      var header := lines[FirstFrom(lines, IsHeader, 0)];
      HeaderHasId(header);
      Some(Columns(header))
    else None
  }

  function RowIn(layout: Option<seq<string>>, t: Task): string {
    match layout
    case None => DefaultRow(t)
    case Some(cols) => Row(cols, t)
  }

  /** Every line is clean, and the header is not read as a task. */
  ghost predicate TidyLines(lines: seq<string>) {
    && (forall k | 0 <= k < |lines| :: Clean(lines[k]))
    && (HasTable(lines) ==> RowId(lines[FirstFrom(lines, IsHeader, 0)]) == None)
  }

  ghost predicate Tidy(content: string) {
    TidyLines(SplitLines(content))
  }

  /** The row of the task is one clean line that is read as the task. */
  ghost predicate Fits(layout: Option<seq<string>>, t: Task) {
    var row := RowIn(layout, t);
    IsTaskId(t.id) && OneLine(row) && Clean(row) && RowId(row) == Some(t.id) && (layout == None ==> !IsHeader(row))
  }

  lemma NewRowIsRowIn(lines: seq<string>, t: Task)
    ensures NewRow(lines, t) == RowIn(Layout(lines), t)
  {
    hide IsHeader, Columns;
  }

  lemma EmptyIsClean()
    ensures Clean("") && RowId("") == None && !IsHeader("")
  {
    forall id | IsTaskId(id) ensures !Contains("", Marker(id)) { assert |Marker(id)| > 0; }
  }

  /** A file without digits, such as one with an empty table, is tidy and lists nothing. */
  lemma FreshIsTidy(content: string)
    requires '\r' !in content && forall c | c in content :: !IsDigit(c)
    ensures Tidy(content) && forall id :: !Lists(RawLines(content), id)
  {
    hide IsHeader, IsDigit, RowId, Clean;
    var lines := SplitLines(content);
    forall k | 0 <= k < |lines| ensures Clean(lines[k]) && RowId(lines[k]) == None && RowId(RawLines(content)[k]) == None {
      var run := RawLines(content)[k];
      forall c | c !in content ensures c !in run { CutChars(content, '\n', c); }
      DigitlessIsClean(run);
      assert DropCR(run) == run;
    }
  }

  lemma DigitlessIsClean(line: string)
    requires '\r' !in line && forall c | c in line :: !IsDigit(c)
    ensures Clean(line) && RowId(line) == None
  {
    IdHasDigit(line);
    hide RowId, IsDigit, Contains, Marker, IsTaskId;
    forall id | IsTaskId(id) ensures !Contains(line, Marker(id)) { MarkerHasDigit(line, id); }
  }

  lemma IdHasDigit(line: string)
    ensures RowId(line).Some? ==> exists c | c in line :: IsDigit(c)
  {
    if RowId(line).Some? {
      var x := FindId(line).value;
      hide FindId, IsDigit;
      assert IsDigit(line[x.i + 1]);
    }
  }

  lemma MarkerHasDigit(line: string, id: string)
    requires IsTaskId(id)
    ensures Contains(line, Marker(id)) ==> exists c | c in line :: IsDigit(c)
  {
    hide IsDigit;
    if Contains(line, Marker(id)) {
      var j :| 0 <= j <= |line| && At(line, j, Marker(id));
      AtChars(line, j, Marker(id));
      assert line[j + 3] == Marker(id)[3] == id[1];
    }
  }

  // ---- the row of an ordinary task ----

  /** Where the table starts with the ID and no value holds a bar, the row fits exactly when no cell
      holds the ID of another task. */
  lemma FitsExactly(cols: seq<string>, t: Task)
    requires cols != [] && cols[0] == "id" && IsTaskId(t.id) && NoBarIn(cols, t) && OneLine(Row(cols, t))
    ensures Fits(Some(cols), t) <==> forall k | 0 <= k < |cols| && IsTaskId(Cell(cols[k], t)) :: Cell(cols[k], t) == t.id
  {
    hide RowId, Row, IsTaskId, Contains, Marker, Cell, IsHeader, EndsInCR;
    FirstColumnExactly(cols, t);
    RowEndsInBar(cols, t);
    var row, cells := Row(cols, t), Cells(cols, t);
    assert forall k | 0 <= k < |cols| :: cells[k] == Cell(cols[k], t);
    forall id | IsTaskId(id) ensures Contains(row, Marker(id)) <==> id in cells { MarkersAreCells(cols, t, id); }
    IdCell(t);
    assert cells[0] == t.id;
  }

  lemma RowEndsInBar(cols: seq<string>, t: Task)
    ensures !EndsInCR(Row(cols, t))
  {
  }

  lemma IdCell(t: Task)
    ensures Cell("id", t) == t.id
  {
  }

  lemma MarkersAreCells(cols: seq<string>, t: Task, id: string)
    requires cols != [] && NoBarIn(cols, t) && IsTaskId(id)
    ensures Contains(Row(cols, t), Marker(id)) <==> id in Cells(cols, t)
  {
    TaskIdHasNoBar(id);
    var cells, row := Cells(cols, t), Row(cols, t);
    assert forall k | 0 <= k < |cells| :: cells[k] == Cell(cols[k], t);
    hide Cut, JoinCells, Cell, IsTaskId;
    if id in cells {
      var k :| 0 <= k < |cells| && cells[k] == id;
      CellIsFramed(cells, k);
      var pre, post :| row == pre + Marker(id) + post;
      ContainsPart(pre, Marker(id), post);
    }
    if Contains(row, Marker(id)) {
      var j :| 0 <= j <= |row| && At(row, j, Marker(id));
      MarkerIsPart(row, j, id);
      RowReadsBack(cells);
      var k :| 1 <= k < |SplitBar(row)| - 1 && SplitBar(row)[k] == " " + id + " ";
      assert " " + cells[k - 1] + " " == " " + id + " ";
      SameInside(cells[k - 1], id);
    }
  }

  lemma SameInside(a: string, b: string)
    requires " " + a + " " == " " + b + " "
    ensures a == b
  {
    assert a == (" " + a + " ")[1..|a| + 1];
    assert b == (" " + b + " ")[1..|b| + 1];
  }

  lemma MarkerIsPart(row: string, j: nat, id: string)
    requires '|' !in id && At(row, j, Marker(id))
    ensures exists k | 1 <= k < |SplitBar(row)| - 1 :: SplitBar(row)[k] == " " + id + " "
  {
    hide Cut;
    var n := j + |id| + 3;
    AtChars(row, j, Marker(id));
    assert row[j + 1..n] == " " + id + " " by {
      forall k | 0 <= k < |id| + 2 ensures row[j + 1 + k] == (" " + id + " ")[k] {
        assert Marker(id)[k + 1] == (" " + id + " ")[k];
      }
    }
    assert row[j] == Marker(id)[0] && row[n] == Marker(id)[|id| + 3];
    BarsEnclose(row, j, n);
  }

  // ---- adding a row ----

  /** The lines of the file once a row is in: the old ones, the row, and perhaps an empty line. */
  lemma LinesAdded(content: string, t: Task)
    requires Tidy(content) && Fits(Layout(SplitLines(content)), t)
    ensures var lines, row, more := SplitLines(content), RowIn(Layout(SplitLines(content)), t), SplitLines(Added(content, t));
      && (forall k | 0 <= k < |more| :: more[k] in lines || more[k] == row || more[k] == "")
      && (HasTable(lines) ==> forall k | 0 <= k <= FirstFrom(lines, IsHeader, 0) :: k < |more| && more[k] == lines[k])
  {
    var lines, row := SplitLines(content), RowIn(Layout(SplitLines(content)), t);
    NewRowIsRowIn(lines, t);
    hide Clean, RowId, RawLines, IsHeader, RowFor, Cut, JoinLines, DropCRs, Layout, RowIn, SplitLines;
    if HasTable(lines) {
      LinesWithTable(content, t);
      PutIn(lines, Place(lines, FirstFrom(lines, IsHeader, 0)), row);
    } else {
      assert !EndsInCR(row) by { RowHasNoCR(content, t); }
      CutPlain(row, '\n');
      LinesAppended(content, row);
      AppendedLines(content, row);
      assert SplitLines(Added(content, t)) == DropCRs(RawLines(Added(content, t))) by { SplitIsDrop(Added(content, t)); }
    }
  }

  lemma SplitIsDrop(content: string)
    ensures SplitLines(content) == DropCRs(RawLines(content))
  {
  }

  lemma RowHasNoCR(content: string, t: Task)
    requires Fits(Layout(SplitLines(content)), t)
    ensures !EndsInCR(RowIn(Layout(SplitLines(content)), t)) && OneLine(RowIn(Layout(SplitLines(content)), t))
  {
    hide Layout, RowIn, SplitLines, RowId, Contains, EndsInCR, IsTaskId, IsHeader, Marker;
  }

  lemma PutIn(lines: seq<string>, p: nat, row: string)
    requires p <= |lines|
    ensures var more := lines[..p] + ([row] + lines[p..]);
      && (forall k | 0 <= k < |more| :: more[k] in lines || more[k] == row)
      && forall k | 0 <= k < p :: more[k] == lines[k]
  {
  }

  lemma LinesWithTable(content: string, t: Task)
    requires Tidy(content) && HasTable(SplitLines(content)) && Fits(Layout(SplitLines(content)), t)
    ensures var lines, row := SplitLines(content), RowIn(Layout(SplitLines(content)), t);
      var p := Place(lines, FirstFrom(lines, IsHeader, 0));
      SplitLines(Added(content, t)) == lines[..p] + ([row] + lines[p..])
  {
    var lines, row := SplitLines(content), RowIn(Layout(SplitLines(content)), t);
    NewRowIsRowIn(lines, t);
    RowHasNoCR(content, t);
    SplitOneLine(content);
    NoCRs(content);
    hide Tidy, Fits, RawLines, IsHeader, RowFor, Cut, JoinLines, DropCR, Layout, RowIn, EndsInCR, Contains;
    var p := Place(lines, FirstFrom(lines, IsHeader, 0));
    var more := lines[..p] + ([row] + lines[p..]);
    CutPlain(row, '\n');
    LinesWithRow(lines[..p], row, lines[p..]);
    assert RawLines(Added(content, t)) == more;
    forall k | 0 <= k < |more| ensures !EndsInCR(more[k]) { }
    DropCRsExactly(more);
  }

  lemma NoCRs(content: string)
    requires Tidy(content)
    ensures forall k | 0 <= k < |SplitLines(content)| :: !EndsInCR(SplitLines(content)[k])
  {
    hide SplitLines, Contains, RowId, IsTaskId, EndsInCR, IsHeader;
  }

  lemma AppendedLines(content: string, row: string)
    requires !EndsInCR(row)
    ensures var lines, more := SplitLines(content), DropCRs(Cut(content, '\n') + [row]);
      forall k | 0 <= k < |more| :: more[k] in lines || more[k] == row || more[k] == ""
  {
    var runs := Cut(content, '\n');
    assert DropCR(row) == row && DropCR("") == "";
    hide Cut, DropCR;
    var lines, more := SplitLines(content), DropCRs(runs + [row]);
    forall k | 0 <= k < |runs| ensures more[k] in lines || more[k] == "" {
      if k < |RawLines(content)| { assert lines[k] == DropCR(RawLines(content)[k]) == more[k]; }
    }
  }

  /** An added row leaves the file tidy, and the detector reads one ID more. */
  lemma AddKeepsTidy(content: string, t: Task)
    requires Tidy(content) && Fits(Layout(SplitLines(content)), t)
    ensures Tidy(Added(content, t)) && Layout(SplitLines(Added(content, t))) == Layout(SplitLines(content))
    ensures forall id :: Lists(RawLines(Added(content, t)), id) <==> Lists(RawLines(content), id) || id == t.id
  {
    var lines, row, more := SplitLines(content), RowIn(Layout(SplitLines(content)), t), SplitLines(Added(content, t));
    LinesAdded(content, t);
    EmptyIsClean();
    NewRowIsRowIn(lines, t);
    CutPlain(row, '\n');
    hide Clean, RowId, RawLines, IsHeader, RowIn, Cut, Added, SplitLines, IsTaskId;
    SameLayout(lines, more, row);
    forall id { AddedIsListedExactly(content, t, id); }
    assert [row][0] == row;
  }

  /** The first table stays the first. */
  lemma SameLayout(lines: seq<string>, more: seq<string>, row: string)
    requires forall k | 0 <= k < |more| :: more[k] in lines || more[k] == row || more[k] == ""
    requires HasTable(lines) ==> forall k | 0 <= k <= FirstFrom(lines, IsHeader, 0) :: k < |more| && more[k] == lines[k]
    requires (!HasTable(lines) ==> !IsHeader(row)) && !IsHeader("")
    ensures Layout(more) == Layout(lines)
    ensures HasTable(more) <==> HasTable(lines)
    ensures HasTable(lines) ==> more[FirstFrom(more, IsHeader, 0)] == lines[FirstFrom(lines, IsHeader, 0)]
  {
    hide IsHeader, Columns;
    if HasTable(lines) {
      var h := FirstFrom(lines, IsHeader, 0);
      assert more[h] == lines[h];
      assert FirstFrom(more, IsHeader, 0) == h;
    }
  }

  // ---- removing rows ----

  lemma {:induction false} WithoutIsPart(lines: seq<string>, marker: string, x: string)
    requires x in Without(lines, marker)
    ensures x in lines && !Contains(x, marker)
  {
    hide Contains;
    var n := |lines| - 1;
    if x in Without(lines[..n], marker) { WithoutIsPart(lines[..n], marker, x); }
  }

  /** The first table stays if its header does. */
  lemma LayoutWithout(lines: seq<string>, marker: string)
    requires HasTable(lines) ==> !Contains(lines[FirstFrom(lines, IsHeader, 0)], marker)
    ensures var rest := Without(lines, marker);
      && Layout(rest) == Layout(lines) && (HasTable(rest) <==> HasTable(lines))
      && (HasTable(lines) ==> rest[FirstFrom(rest, IsHeader, 0)] == lines[FirstFrom(lines, IsHeader, 0)])
  {
    hide Contains, IsHeader, Columns, Without;
    var rest := Without(lines, marker);
    forall k | 0 <= k < |rest| ensures rest[k] in lines { WithoutIsPart(lines, marker, rest[k]); }
    if HasTable(lines) {
      var h := FirstFrom(lines, IsHeader, 0);
      HeaderStays(lines, marker, h);
      var n := |Without(lines[..h], marker)|;
      forall k | 0 <= k < n ensures !IsHeader(rest[k]) {
        WithoutIsPart(lines[..h], marker, rest[k]);
      }
      assert FirstFrom(rest, IsHeader, 0) == n;
    }
  }

  lemma HeaderStays(lines: seq<string>, marker: string, h: nat)
    requires h < |lines| && !Contains(lines[h], marker)
    ensures var rest, front := Without(lines, marker), Without(lines[..h], marker);
      |front| < |rest| && rest[|front|] == lines[h] && forall k | 0 <= k < |front| :: rest[k] == front[k]
  {
    assert Without([lines[h]], marker) == [lines[h]] by { assert [lines[h]][..0] == []; }
    hide Contains, Without;
    assert lines == lines[..h] + ([lines[h]] + lines[h + 1..]);
    WithoutSum([lines[h]], lines[h + 1..], marker);
    WithoutSum(lines[..h], [lines[h]] + lines[h + 1..], marker);
  }

  /** A removal leaves the file tidy, and the detector reads one ID less. */
  lemma RemoveKeepsTidy(content: string, id: string)
    requires Tidy(content) && IsTaskId(id)
    ensures Tidy(Removed(content, id)) && Layout(SplitLines(Removed(content, id))) == Layout(SplitLines(content))
    ensures forall other :: Lists(RawLines(Removed(content, id)), other) <==> Lists(RawLines(content), other) && other != id
  {
    var lines, marker := SplitLines(content), Marker(id);
    var rest := Without(lines, marker);
    LinesRemoved(content, id);
    assert forall k | 0 <= k < |lines| :: Contains(lines[k], marker) <==> RowId(lines[k]) == Some(id);
    hide RowId, RawLines, IsHeader, Removed, SplitLines, Contains, Marker, IsTaskId, Without, Clean;
    forall k | 0 <= k < |rest| ensures Clean(rest[k]) { WithoutIsPart(lines, marker, rest[k]); }
    LayoutWithout(lines, marker);
    forall other { RemovedIsListedExactly(content, id, other); }
    forall other { ScanListsSame(content, other); }
  }

  lemma LinesRemoved(content: string, id: string)
    requires Tidy(content)
    ensures SplitLines(Removed(content, id)) == Without(SplitLines(content), Marker(id))
  {
    var lines, marker := SplitLines(content), Marker(id);
    assert forall k | 0 <= k < |lines| :: !EndsInCR(lines[k]);
    SplitOneLine(content);
    hide Clean, RowId, RawLines, IsHeader, Contains, Marker, JoinLines, EndsInCR, Without;
    var rest := Without(lines, marker);
    WithoutExactly(lines, marker);
    WithoutPart(lines, marker);
    RawLinesOfAll(rest);
    forall k | 0 <= k < |rest| ensures !EndsInCR(rest[k]) { WithoutIsPart(lines, marker, rest[k]); }
    DropCRsExactly(rest);
  }

  // ---- any run of edits ----

  datatype Edit = Add(t: Task) | Remove(id: string)

  function EditedOnce(content: string, e: Edit): string {
    match e
    case Add(t) => Added(content, t)
    case Remove(id) => Removed(content, id)
  }

  function Edited(content: string, edits: seq<Edit>): string {
    if edits == [] then content
    else EditedOnce(Edited(content, edits[..|edits| - 1]), edits[|edits| - 1])
  }

  /** Whether an ID is listed after the edits: the last one that concerns it decides. */
  function ListedAfter(was: bool, edits: seq<Edit>, id: string): bool {
    if edits == [] then was
    else
      match edits[|edits| - 1]
      case Add(t) => t.id == id || ListedAfter(was, edits[..|edits| - 1], id)
      case Remove(x) => x != id && ListedAfter(was, edits[..|edits| - 1], id)
  }

  ghost predicate Allowed(layout: Option<seq<string>>, e: Edit) {
    match e
    case Add(t) => Fits(layout, t)
    case Remove(id) => IsTaskId(id)
  }

  /** In a tidy file the text and the set of listed IDs stay in step, whatever the edits. */
  lemma {:induction false} EditsKeepListing(content: string, edits: seq<Edit>)
    requires Tidy(content) && forall e | e in edits :: Allowed(Layout(SplitLines(content)), e)
    ensures Tidy(Edited(content, edits)) && Layout(SplitLines(Edited(content, edits))) == Layout(SplitLines(content))
    ensures forall id :: Lists(RawLines(Edited(content, edits)), id) <==> ListedAfter(Lists(RawLines(content), id), edits, id)
  {
    hide Tidy, Fits, Layout, SplitLines, RawLines, Lists, Added, Removed, IsTaskId;
    if edits != [] {
      var front, e := edits[..|edits| - 1], edits[|edits| - 1];
      EditsKeepListing(content, front);
      assert Allowed(Layout(SplitLines(content)), e);
      match e
      case Add(t) => AddKeepsTidy(Edited(content, front), t);
      case Remove(id) => RemoveKeepsTidy(Edited(content, front), id);
    }
  }

  // ---- whole syncs ----

  function TaskFrom(id: string, fm: S.Fields): Task {
    Task(id, S.Field(fm, "title"), S.Field(fm, "type"), S.Field(fm, "estimate"), S.Field(fm, "priority"))
  }

  /** The row of a task from its front matter, without a table. */
  lemma TaskWritten(id: string, fm: S.Fields)
    requires "title" in fm && "type" in fm && "estimate" in fm && "priority" in fm
    ensures DefaultRow(TaskFrom(id, fm)) == "| " + id + " | " + fm["title"] + " | " + fm["estimate"] + " | " + fm["type"]
      + " | " + fm["priority"] + " | \U{2014} |"
  {
  }

  /** What the repair of an issue does to BACKLOG.md. */
  function EditOf(iss: S.Issue, files: map<string, S.TaskFile>): (r: seq<Edit>)
    ensures |r| <= 1
  {
    if !iss.autoFixable || iss.subject.Sprint? then []
    else
      var id := iss.subject.id;
      match iss.kind
      case StaleCompleted => [Remove(id)]
      case MissingEntry => if id in files && files[id].fm.Some? then [Add(TaskFrom(id, files[id].fm.value))] else []
      case _ => []
  }

  function EditsOf(issues: seq<S.Issue>, files: map<string, S.TaskFile>): seq<Edit> {
    if issues == [] then []
    else EditsOf(issues[..|issues| - 1], files) + EditOf(issues[|issues| - 1], files)
  }

  lemma {:induction false} ListedAfterSum(was: bool, a: seq<Edit>, b: seq<Edit>, id: string)
    requires |b| <= 1
    ensures ListedAfter(was, a + b, id) == ListedAfter(ListedAfter(was, a, id), b, id)
  {
    if b == [] { assert a + b == a; } else { assert (a + b)[..|a|] == a && b[..0] == []; }
  }

  /** Of the edits those of one task do to its listing what its repairs do. */
  lemma {:induction false} EditsMatch(issues: seq<S.Issue>, files: map<string, S.TaskFile>, id: string, s: S.TaskState)
    requires forall i | i in S.Of(issues, S.Task(id)) && i.kind.MissingEntry? :: id in files && files[id].fm.Some?
    ensures ListedAfter(s.listed, EditsOf(issues, files), id) == S.FixAll(s, S.Of(issues, S.Task(id))).listed
  {
    if issues != [] {
      var front, last := issues[..|issues| - 1], issues[|issues| - 1];
      EditsMatch(front, files, id, s);
      hide EditsOf, S.FixAll;
      assert EditsOf(issues, files) == EditsOf(front, files) + EditOf(last, files) by { EditsOfNext(issues, files); }
      ListedAfterSum(s.listed, EditsOf(front, files), EditOf(last, files), id);
      S.FixNext(s, S.Of(front, S.Task(id)), last);
      EditMatches(last, files, id, S.FixAll(s, S.Of(front, S.Task(id))));
    }
  }

  lemma EditsOfNext(issues: seq<S.Issue>, files: map<string, S.TaskFile>)
    requires issues != []
    ensures EditsOf(issues, files) == EditsOf(issues[..|issues| - 1], files) + EditOf(issues[|issues| - 1], files)
  {
  }

  lemma EditMatches(iss: S.Issue, files: map<string, S.TaskFile>, id: string, s: S.TaskState)
    requires iss.subject == S.Task(id) && iss.kind.MissingEntry? ==> id in files && files[id].fm.Some?
    ensures ListedAfter(s.listed, EditOf(iss, files), id) ==
      if iss.subject == S.Task(id) && iss.autoFixable then S.FixTask(s, iss.kind).listed else s.listed
  {
  }

  /** The engine's set of listed IDs is what the detector reads from the file. */
  ghost predicate InStep(listed: set<string>, content: string) {
    forall id :: Lists(RawLines(content), id) <==> id in listed
  }

  /** A file in works/tasks/ with readable frontmatter: only such a task is ever given a row. */
  predicate InBacklog(files: map<string, S.TaskFile>, id: string) {
    id in files && files[id].fm.Some? && S.GetDirLocation(files[id].path).inBacklogTasks
  }

  ghost predicate AllFit(files: map<string, S.TaskFile>, layout: Option<seq<string>>) {
    forall id | InBacklog(files, id) :: Fits(layout, TaskFrom(id, files[id].fm.value))
  }

  lemma {:induction false} InOf(issues: seq<S.Issue>, iss: S.Issue)
    requires iss in issues
    ensures iss in S.Of(issues, iss.subject)
  {
    var front := issues[..|issues| - 1];
    if iss in front { InOf(front, iss); }
  }

  predicate AboutListing(iss: S.Issue) {
    iss.kind.StaleCompleted? || iss.kind.MissingEntry?
  }

  /** Only one of the checks reports issues about the listing. */
  lemma ListingIssues(id: string, s: S.TaskState, onDisk: set<S.Path>, iss: S.Issue)
    requires iss in S.TaskIssues(id, s, onDisk) && AboutListing(iss)
    ensures iss.kind.StaleCompleted? ==> s.listed
    ensures iss.kind.MissingEntry? ==> s.file.Some? && s.file.value.fm.Some? && S.InBacklog(s)
  {
    LocationHasNone(id, s, iss);
    DbHasNone(id, s, iss);
    OthersHaveNone(id, s, onDisk, iss);
    BacklogHasThese(id, s, iss);
    hide S.LocationIssues, S.DbIssues, S.BacklogIssues, S.ParseIssues, S.OrphanIssues, AboutListing;
  }

  lemma LocationHasNone(id: string, s: S.TaskState, iss: S.Issue)
    ensures iss in S.LocationIssues(id, s) ==> !AboutListing(iss)
  {
    hide S.GetDirLocation, S.NormalizeSprintField;
  }

  lemma DbHasNone(id: string, s: S.TaskState, iss: S.Issue)
    ensures iss in S.DbIssues(id, s) ==> !AboutListing(iss)
  {
    hide S.GetDirLocation, S.NormalizeSprintField, S.IsTaskStatusRegression, S.CanonicalSprint;
  }

  lemma OthersHaveNone(id: string, s: S.TaskState, onDisk: set<S.Path>, iss: S.Issue)
    ensures iss in S.ParseIssues(id, s) || iss in S.OrphanIssues(id, s, onDisk) ==> !AboutListing(iss)
  {
  }

  lemma BacklogHasThese(id: string, s: S.TaskState, iss: S.Issue)
    ensures iss in S.BacklogIssues(id, s) ==>
      if iss.kind.StaleCompleted? then s.listed else iss.kind.MissingEntry? ==> s.file.Some? && s.file.value.fm.Some? && S.InBacklog(s)
  {
    hide S.GetDirLocation;
  }

  lemma ListedIsTaskId(lines: seq<string>, id: string)
    requires Lists(lines, id)
    ensures IsTaskId(id)
  {
    var k :| 0 <= k < |lines| && RowId(lines[k]) == Some(id);
    var line := lines[k];
    var x := FindId(line).value;
    hide FindId, IsDigit;
    forall j | 1 <= j < |id| ensures IsDigit(id[j]) { assert id[j] == line[x.i + j]; }
  }

  lemma {:induction false} EditsAllowed(issues: seq<S.Issue>, files: map<string, S.TaskFile>, layout: Option<seq<string>>)
    requires AllFit(files, layout)
    requires forall i | i in issues && i.subject.Task? && i.kind.StaleCompleted? :: IsTaskId(i.subject.id)
    requires forall i | i in issues && i.subject.Task? && i.kind.MissingEntry? :: InBacklog(files, i.subject.id)
    ensures forall e | e in EditsOf(issues, files) :: Allowed(layout, e)
  {
    hide Fits, IsTaskId, S.GetDirLocation;
    if issues != [] { EditsAllowed(issues[..|issues| - 1], files, layout); }
  }

  lemma SameRow(id: string, s: S.TaskState, onDisk: set<S.Path>)
    requires s.file.Some? && s.file.value.fm.Some?
    ensures var t := S.SyncTask(id, s, onDisk);
      t.file.Some? && t.file.value.fm.Some? && t.file.value.path == s.file.value.path
      && TaskFrom(id, t.file.value.fm.value) == TaskFrom(id, s.file.value.fm.value)
  {
    hide S.SyncTask;
    C.SyncKeepsFileStatus(id, s, onDisk);
  }

  lemma SameFiles(id: string, s: S.TaskState, onDisk: set<S.Path>)
    requires S.SyncTask(id, s, onDisk).file.Some? && S.SyncTask(id, s, onDisk).file.value.fm.Some?
    ensures s.file.Some? && s.file.value.fm.Some?
  {
    hide S.SyncTask;
    C.SyncKeepsFileStatus(id, s, onDisk);
  }

  /** One run, with the repairs of BACKLOG.md made on its text. */
  method SyncOnText(w: S.Workspace, b: BacklogFile) returns (issues: seq<S.Issue>)
    requires Tidy(b.content) && InStep(w.listed, b.content) && AllFit(w.files, Layout(SplitLines(b.content)))
    modifies w`files, w`rows, w`listed, w`sprintRows, b
    ensures Tidy(b.content) && InStep(w.listed, b.content) && AllFit(w.files, Layout(SplitLines(b.content)))
    ensures b.content == Edited(old(b.content), EditsOf(issues, old(w.files)))
    ensures forall t :: S.Of(issues, S.Task(t)) == S.TaskIssues(t, old(w.TaskOf(t)), w.onDisk)
    ensures forall t :: w.TaskOf(t) == S.SyncTask(t, old(w.TaskOf(t)), w.onDisk)
  {
    hide Tidy, Layout, SplitLines, RawLines, S.TaskIssues, Added, Removed, S.Of, Fits, Lists, S.SyncTask, S.GetDirLocation;
    var files := w.files;
    issues := w.Sync(false);
    RepairText(b, issues, files);
    ghost var was, layout := old(b.content), Layout(SplitLines(old(b.content)));
    forall i | i in issues && i.subject.Task? && i.kind.StaleCompleted? ensures IsTaskId(i.subject.id) {
      InOf(issues, i);
      ListingIssues(i.subject.id, old(w.TaskOf(i.subject.id)), w.onDisk, i);
      ListedIsTaskId(RawLines(was), i.subject.id);
    }
    forall i | i in issues && i.subject.Task? && i.kind.MissingEntry? ensures InBacklog(files, i.subject.id) {
      InOf(issues, i);
      ListingIssues(i.subject.id, old(w.TaskOf(i.subject.id)), w.onDisk, i);
    }
    EditsAllowed(issues, files, layout);
    EditsKeepListing(was, EditsOf(issues, files));
    forall t ensures Lists(RawLines(b.content), t) <==> t in w.listed {
      forall i | i in S.Of(issues, S.Task(t)) && i.kind.MissingEntry? ensures t in files && files[t].fm.Some? {
        ListingIssues(t, old(w.TaskOf(t)), w.onDisk, i);
      }
      EditsMatch(issues, files, t, old(w.TaskOf(t)));
      SyncIsFixAll(t, old(w.TaskOf(t)), w.onDisk);
      assert w.TaskOf(t).listed <==> t in w.listed;
    }
    forall t | InBacklog(w.files, t) ensures Fits(layout, TaskFrom(t, w.files[t].fm.value)) {
      assert w.TaskOf(t).file == Some(w.files[t]);
      SameFiles(t, old(w.TaskOf(t)), w.onDisk);
      SameRow(t, old(w.TaskOf(t)), w.onDisk);
    }
  }

  lemma SyncIsFixAll(id: string, s: S.TaskState, onDisk: set<S.Path>)
    ensures S.SyncTask(id, s, onDisk) == S.FixAll(s, S.TaskIssues(id, s, onDisk))
  {
  }

  /** The repairs of the issues that concern BACKLOG.md, in order. */
  method RepairText(b: BacklogFile, issues: seq<S.Issue>, files: map<string, S.TaskFile>)
    modifies b
    ensures b.content == Edited(old(b.content), EditsOf(issues, files))
  {
    hide EditOf, EditedOnce;
    for i := 0 to |issues|
      invariant b.content == Edited(old(b.content), EditsOf(issues[..i], files))
    {
      assert issues[..i + 1][..i] == issues[..i];
      EditedNext(old(b.content), EditsOf(issues[..i], files), EditOf(issues[i], files));
      RepairOne(b, issues[i], files);
    }
    assert issues[..|issues|] == issues;
  }

  method RepairOne(b: BacklogFile, iss: S.Issue, files: map<string, S.TaskFile>)
    modifies b
    ensures b.content == var e := EditOf(iss, files); if e == [] then old(b.content) else EditedOnce(old(b.content), e[0])
  {
    hide Added, Removed;
    if iss.autoFixable && iss.subject.Task? {
      var id := iss.subject.id;
      if iss.kind.StaleCompleted? {
        var removed := b.RemoveFromBacklogMD(id);
      } else if iss.kind.MissingEntry? && id in files && files[id].fm.Some? {
        b.UpdateBacklogMD(TaskFrom(id, files[id].fm.value));
      }
    }
  }

  lemma EditedNext(content: string, edits: seq<Edit>, more: seq<Edit>)
    requires |more| <= 1
    ensures Edited(content, edits + more) ==
      if more == [] then Edited(content, edits) else EditedOnce(Edited(content, edits), more[0])
  {
    if more == [] { assert edits + more == edits; } else { assert (edits + more)[..|edits|] == edits; }
  }

  lemma {:induction false} NothingFixedNoEdits(issues: seq<S.Issue>, files: map<string, S.TaskFile>)
    requires forall i | i in issues && i.subject.Task? :: !i.autoFixable
    ensures EditsOf(issues, files) == []
  {
    if issues != [] { NothingFixedNoEdits(issues[..|issues| - 1], files); }
  }

  /** On the text: after two runs a third leaves BACKLOG.md as it is, byte for byte, and finds only
      issues for a human. */
  method ThirdSyncLeavesText(w: S.Workspace, b: BacklogFile) returns (issues: seq<S.Issue>, second: string)
    requires Tidy(b.content) && InStep(w.listed, b.content) && AllFit(w.files, Layout(SplitLines(b.content)))
    modifies w`files, w`rows, w`listed, w`sprintRows, b
    ensures b.content == second && Tidy(b.content) && InStep(w.listed, b.content)
    ensures forall i | i in issues && i.subject.Task? :: !i.autoFixable
    ensures forall t :: w.TaskOf(t) == S.SyncTask(t, S.SyncTask(t, old(w.TaskOf(t)), w.onDisk), w.onDisk)
  {
    hide Tidy, Layout, SplitLines, RawLines, S.TaskIssues, S.Of, Fits, Lists, S.SyncTask, AllFit, InStep, C.Quiet;
    ghost var disk := w.onDisk;
    issues := SyncOnText(w, b);
    issues := SyncOnText(w, b);
    second := b.content;
    ghost var files := w.files;
    label two:
    issues := SyncOnText(w, b);
    forall t ensures w.TaskOf(t) == old@two(w.TaskOf(t)) && C.Quiet(t, old@two(w.TaskOf(t)), disk) {
      C.TwoPassesConverge(t, old(w.TaskOf(t)), disk, disk);
    }
    forall i | i in issues && i.subject.Task? ensures !i.autoFixable {
      InOf(issues, i);
      C.QuietIssues(i.subject.id, old@two(w.TaskOf(i.subject.id)), disk);
    }
    NothingFixedNoEdits(issues, files);
    assert Edited(second, []) == second;
  }
}
