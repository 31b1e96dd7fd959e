/** Rows of works/tasks/BACKLOG.md, pkg/fileutil/fileutil.go: adding a task's row in the
    column order of the existing header, and removing every row that names the task. */
module BacklogTable {
  import opened Text
  import opened Lines

  // ---- lines ----

  function DropCR(line: string): (r: string)
    ensures OneLine(line) ==> OneLine(r)
  {
    if line != [] && line[|line| - 1] == '\r' then line[..|line| - 1] else line
  }

  function DropCRs(lines: seq<string>): (r: seq<string>)
    ensures |r| == |lines|
  {
    seq(|lines|, i requires 0 <= i < |lines| => DropCR(lines[i]))
  }

  /** The scanner drops one carriage return from each line. */
  function SplitLines(s: string): seq<string> {
    DropCRs(RawLines(s))
  }

  // ---- the header ----

  function SplitBar(s: string): seq<string> {
    Cut(s, '|')
  }

  predicate IsHeader(line: string) {
    Contains(line, "| ID |") || Contains(Lower(line), "| id |")
  }

  function Column(part: string): string {
    Lower(TrimSpace(Trim(TrimSpace(part), c => c == '*')))
  }

  function Columns(header: string): seq<string>
    requires |SplitBar(header)| >= 2
  {
    var parts := SplitBar(header);
    seq(|parts| - 2, i requires 0 <= i < |parts| - 2 => Column(parts[i + 1]))
  }

  lemma BarsEnclose(s: string, j: nat, n: nat)
    requires j < n < |s| && s[j] == '|' == s[n] && '|' !in s[j + 1..n]
    ensures exists k | 1 <= k < |SplitBar(s)| - 1 :: SplitBar(s)[k] == s[j + 1..n]
  {
    var pre, cell, post := s[..j], s[j + 1..n], s[n + 1..];
    assert s == pre + ['|'] + (cell + ['|'] + post);
    CutSum(pre, '|', cell + ['|'] + post);
    CutSum(cell, '|', post);
    CutPlain(cell, '|');
    assert SplitBar(s) == Cut(pre, '|') + ([cell] + Cut(post, '|'));
    assert SplitBar(s)[|Cut(pre, '|')|] == cell;
  }

  lemma AtChars(s: string, j: int, t: string)
    requires At(s, j, t)
    ensures forall k | 0 <= k < |t| :: s[j + k] == t[k]
  {
  }

  /** A header always has an "id" column, in whatever position and letter case. */
  lemma HeaderHasId(line: string)
    requires IsHeader(line)
    ensures |SplitBar(line)| >= 2 && exists k | 0 <= k < |Columns(line)| :: Columns(line)[k] == "id"
  {
    var j: nat;
    var upper, lower := "| ID |", "| id |";
    assert upper[0] == lower[0] == upper[5] == lower[5] == '|' && upper[1] == lower[1] == upper[4] == lower[4] == ' ';
    assert upper[2] == 'I' && upper[3] == 'D' && lower[2] == 'i' && lower[3] == 'd';
    if Contains(line, upper) {
      j :| 0 <= j <= |line| && At(line, j, upper);
      AtChars(line, j, upper);
    } else {
      j :| 0 <= j <= |Lower(line)| && At(Lower(line), j, lower);
      AtChars(Lower(line), j, lower);
    }
    HeaderAt(line, j);
  }

  lemma HeaderAt(line: string, j: nat)
    requires j + 6 <= |line|
    requires line[j] == '|' && line[j + 1] == ' ' && line[j + 4] == ' ' && line[j + 5] == '|'
    requires LowerChar(line[j + 2]) == 'i' && LowerChar(line[j + 3]) == 'd'
    ensures |SplitBar(line)| >= 2 && exists k | 0 <= k < |Columns(line)| :: Columns(line)[k] == "id"
  {
    var cell := [' ', line[j + 2], line[j + 3], ' '];
    assert line[j + 1..j + 5] == cell;
    BarsEnclose(line, j, j + 5);
    var k :| 1 <= k < |SplitBar(line)| - 1 && SplitBar(line)[k] == cell;
    CellIsId(line[j + 2], line[j + 3]);
    assert Columns(line)[k - 1] == "id";
  }

  lemma CellIsId(i: char, d: char)
    requires LowerChar(i) == 'i' && LowerChar(d) == 'd'
    ensures Column([' ', i, d, ' ']) == "id"
  {
    var s := [i, d];
    assert [' ', i, d, ' '][1..] == s + " " && (s + " ")[..2] == s;
    assert TrimLeft([' ', i, d, ' '], IsSpace) == s + " ";
    assert TrimRight(s + " ", IsSpace) == s;
  }

  // ---- the row ----

  const DASH := "\U{2014}"

  datatype Task = Task(id: string, title: string, kind: string, estimate: string, priority: string)

  function Cell(col: string, t: Task): string {
    match col
    case "id" => t.id
    case "title" => t.title
    case "estimate" => t.estimate
    case "size" => t.estimate
    case "type" => t.kind
    case "priority" => t.priority
    case _ => DASH
  }

  function Cells(cols: seq<string>, t: Task): seq<string> {
    seq(|cols|, i requires 0 <= i < |cols| => Cell(cols[i], t))
  }

  /** `strings.Join(cells, " | ")`. */
  function JoinCells(cells: seq<string>): string {
    if cells == [] then "" else if |cells| == 1 then cells[0]
    else cells[0] + " | " + JoinCells(cells[1..])
  }

  function Row(cols: seq<string>, t: Task): string {
    "| " + JoinCells(Cells(cols, t)) + " |"
  }

  function Marker(id: string): string {
    "| " + id + " |"
  }

  lemma ContainsPart(pre: string, t: string, post: string)
    ensures Contains(pre + t + post, t)
  {
    assert At(pre + t + post, |pre|, t);
  }

  lemma {:induction false} CellIsFramed(cells: seq<string>, k: nat)
    requires k < |cells|
    ensures exists pre, post :: "| " + JoinCells(cells) + " |" == pre + Marker(cells[k]) + post
  {
    var row := "| " + JoinCells(cells) + " |";
    if |cells| == 1 {
      assert row == "" + Marker(cells[0]) + "";
    } else {
      var rest := "| " + JoinCells(cells[1..]) + " |";
      assert row == "| " + cells[0] + " " + rest;
      if k == 0 {
        assert row == "" + Marker(cells[0]) + rest[1..];
      } else {
        CellIsFramed(cells[1..], k - 1);
        var pre, post :| rest == pre + Marker(cells[1..][k - 1]) + post;
        assert row == ("| " + cells[0] + " " + pre) + Marker(cells[k]) + post;
      }
    }
  }

  /** Whatever the column order, the row carries the marker by which it is removed. */
  lemma RowHasMarker(header: string, t: Task)
    requires IsHeader(header)
    ensures |SplitBar(header)| >= 2 && Contains(Row(Columns(header), t), Marker(t.id))
  {
    HeaderHasId(header);
    var cols := Columns(header);
    var k :| 0 <= k < |cols| && cols[k] == "id";
    CellIsFramed(Cells(cols, t), k);
    var pre, post :| Row(cols, t) == pre + Marker(Cells(cols, t)[k]) + post;
    ContainsPart(pre, Marker(t.id), post);
  }

  /** No value that a column uses holds a bar. */
  predicate NoBarIn(cols: seq<string>, t: Task) {
    forall k | 0 <= k < |cols| :: '|' !in Cell(cols[k], t)
  }

  /** The row has at least one cell per column of the header, and exactly one if and only if no value
      that a column uses holds a bar; then each cell holds the value that the column is named after. */
  lemma RowLinesUp(header: string, t: Task)
    requires IsHeader(header)
    ensures |SplitBar(header)| >= 2
    ensures var cols, parts := Columns(header), SplitBar(Row(Columns(header), t));
      && |parts| >= |SplitBar(header)|
      && (|parts| == |SplitBar(header)| <==> NoBarIn(cols, t))
      && (NoBarIn(cols, t) ==> forall k | 0 <= k < |cols| :: Holds(parts[k + 1], cols[k], t))
  {
    HeaderHasId(header);
    var cols := Columns(header);
    var cells := Cells(cols, t);
    hide Cut, JoinCells, IsHeader, Column;
    BarsOfRow(cells);
    assert NoBarIn(cols, t) <==> forall k | 0 <= k < |cells| :: '|' !in cells[k] by {
      assert forall k | 0 <= k < |cols| :: cells[k] == Cell(cols[k], t);
    }
    if NoBarIn(cols, t) {
      RowReadsBack(cells);
      forall k | 0 <= k < |cols| ensures Holds(SplitBar(Row(cols, t))[k + 1], cols[k], t) {
        assert SplitBar(Row(cols, t))[k + 1] == " " + cells[k] + " ";
        assert cells[k] == Cell(cols[k], t);
      }
    }
  }

  predicate Holds(cell: string, column: string, t: Task) {
    && (column == "id" ==> cell == " " + t.id + " ")
    && (column == "title" ==> cell == " " + t.title + " ")
    && (column == "type" ==> cell == " " + t.kind + " ")
    && (column in ["estimate", "size"] ==> cell == " " + t.estimate + " ")
    && (column == "priority" ==> cell == " " + t.priority + " ")
    && (column !in ["id", "title", "type", "estimate", "size", "priority"] ==> cell == " " + DASH + " ")
  }

  /** So a title with a bar pushes the cells behind it out of their columns. */
  lemma BarTitleAddsCells(header: string, t: Task)
    requires IsHeader(header) && |SplitBar(header)| >= 2 && "title" in Columns(header) && '|' in t.title
    ensures |SplitBar(Row(Columns(header), t))| > |SplitBar(header)|
  {
    RowLinesUp(header, t);
    hide IsHeader, Column, Cut, JoinCells;
    var k :| 0 <= k < |Columns(header)| && Columns(header)[k] == "title";
    assert '|' in Cell(Columns(header)[k], t);
  }

  lemma {:induction false} PartsAreBars(s: string)
    ensures |SplitBar(s)| == 1 + multiset(s)['|']
  {
    if s != "" {
      assert s == [s[0]] + s[1..];
      PartsAreBars(s[1..]);
    }
  }

  lemma BarsOfRow(cells: seq<string>)
    requires cells != []
    ensures var parts := SplitBar("| " + JoinCells(cells) + " |");
      |parts| >= |cells| + 2 && (|parts| == |cells| + 2 <==> forall k | 0 <= k < |cells| :: '|' !in cells[k])
  {
    hide Cut, JoinCells;
    PartsAreBars("| " + JoinCells(cells) + " |");
    BarsOfCells(cells);
  }

  lemma {:induction false} BarsOfCells(cells: seq<string>)
    requires cells != []
    ensures multiset(JoinCells(cells))['|'] >= |cells| - 1
    ensures multiset(JoinCells(cells))['|'] == |cells| - 1 <==> forall k | 0 <= k < |cells| :: '|' !in cells[k]
  {
    if |cells| > 1 {
      var rest := cells[1..];
      BarsOfCells(rest);
      assert JoinCells(cells) == cells[0] + " | " + JoinCells(rest);
      hide JoinCells;
      assert multiset(cells[0] + " | " + JoinCells(rest))['|'] == multiset(cells[0])['|'] + 1 + multiset(JoinCells(rest))['|'];
      assert forall k | 1 <= k < |cells| :: cells[k] == rest[k - 1];
      assert forall k | 0 <= k < |rest| :: rest[k] == cells[k + 1];
    }
  }

  lemma RowReadsBack(cells: seq<string>)
    requires cells != [] && forall i | 0 <= i < |cells| :: '|' !in cells[i]
    ensures var r := SplitBar("| " + JoinCells(cells) + " |");
      |r| == |cells| + 2 && forall i | 0 <= i < |cells| :: r[i + 1] == " " + cells[i] + " "
  {
    hide Cut, JoinCells;
    CellsReadBack(cells);
    CutPlain("", '|');
    CutSum("", '|', " " + JoinCells(cells) + " |");
    assert "| " + JoinCells(cells) + " |" == "" + ['|'] + (" " + JoinCells(cells) + " |");
  }

  lemma {:induction false} CellsReadBack(cells: seq<string>)
    requires cells != [] && forall i | 0 <= i < |cells| :: '|' !in cells[i]
    ensures var r := Cut(" " + JoinCells(cells) + " |", '|');
      |r| == |cells| + 1 && forall i | 0 <= i < |cells| :: r[i] == " " + cells[i] + " "
  {
    hide Cut;
    var text, first := " " + JoinCells(cells) + " |", " " + cells[0] + " ";
    CutPlain(first, '|');
    if |cells| == 1 {
      CutPlain("", '|');
      CutSum(first, '|', "");
      assert text == first + ['|'] + "";
    } else {
      var rest := " " + JoinCells(cells[1..]) + " |";
      CutSum(first, '|', rest);
      assert text == first + ['|'] + rest;
      CellsReadBack(cells[1..]);
    }
  }

  // ---- adding and removing ----

  predicate IsSection(line: string) {
    HasPrefix(line, "## ")
  }

  /** Where the row goes: before the first section heading below the table, else at the end. */
  function Place(lines: seq<string>, header: nat): (p: nat)
    requires header < |lines|
    ensures header < p <= |lines|
    ensures forall j | header + 2 <= j < p :: !IsSection(lines[j])
    ensures p < |lines| ==> header + 2 <= p && IsSection(lines[p])
  {
    var start := if header + 2 <= |lines| then header + 2 else |lines|;
    var i := FirstFrom(lines, IsSection, start);
    if i >= 0 then i else |lines|
  }

  predicate HasTable(lines: seq<string>) {
    FirstFrom(lines, IsHeader, 0) >= 0
  }

  /** The row in the column order of the first table. */
  function RowFor(lines: seq<string>, t: Task): (row: string)
    requires HasTable(lines)
    ensures Contains(row, Marker(t.id)) && row[|row| - 1] == '|'
  {
    var header := lines[FirstFrom(lines, IsHeader, 0)];
    RowHasMarker(header, t);
    Row(Columns(header), t)
  }

  function DefaultRow(t: Task): string {
    "| " + t.id + " | " + t.title + " | " + t.estimate + " | " + t.kind + " | " + t.priority + " | " + DASH + " |"
  }

  function Added(content: string, t: Task): string {
    var lines := SplitLines(content);
    if !HasTable(lines) then
      content + "\n" + DefaultRow(t) + "\n"
    else
      var p := Place(lines, FirstFrom(lines, IsHeader, 0));
      JoinLines(lines[..p] + [RowFor(lines, t)] + lines[p..])
  }

  function Without(lines: seq<string>, marker: string): seq<string> {
    if lines == [] then []
    else
      var n := |lines| - 1;
      Without(lines[..n], marker) + if Contains(lines[n], marker) then [] else [lines[n]]
  }

  predicate Mentions(lines: seq<string>, marker: string) {
    exists i | 0 <= i < |lines| :: Contains(lines[i], marker)
  }

  function Removed(content: string, id: string): string {
    var lines := SplitLines(content);
    if Mentions(lines, Marker(id)) then JoinLines(Without(lines, Marker(id))) else content
  }

  method FindHeader(lines: seq<string>) returns (headerIdx: int, headerCols: seq<string>)
    ensures headerIdx == FirstFrom(lines, IsHeader, 0)
    ensures headerIdx >= 0 ==> |SplitBar(lines[headerIdx])| >= 2 && headerCols == Columns(lines[headerIdx])
  {
    hide IsHeader, Column, Cut;
    headerCols := [];
    for i := 0 to |lines|
      invariant forall j | 0 <= j < i :: !IsHeader(lines[j])
    {
      if IsHeader(lines[i]) {
        HeaderHasId(lines[i]);
        var parts := SplitBar(lines[i]);
        for p := 1 to |parts| - 1
          invariant headerCols == Columns(lines[i])[..p - 1]
        {
          headerCols := headerCols + [Column(parts[p])];
        }
        return i, headerCols;
      }
    }
    return -1, [];
  }

  method MakeRow(headerCols: seq<string>, t: Task) returns (newRow: string)
    ensures newRow == Row(headerCols, t)
  {
    hide JoinCells;
    var colValues := map["id" := t.id, "title" := t.title, "estimate" := t.estimate, "size" := t.estimate,
      "type" := t.kind, "priority" := t.priority, "depends" := DASH, "depends_on" := DASH,
      "note" := DASH, "notes" := DASH];
    var cells: seq<string> := [];
    for c := 0 to |headerCols|
      invariant cells == Cells(headerCols, t)[..c]
    {
      var col := headerCols[c];
      cells := cells + [if col in colValues then colValues[col] else DASH];
    }
    assert Cells(headerCols, t)[..|headerCols|] == Cells(headerCols, t);
    return "| " + JoinCells(cells) + " |";
  }

  method FindPlace(lines: seq<string>, headerIdx: nat) returns (insertIdx: int)
    requires headerIdx < |lines|
    ensures (if insertIdx >= 0 then insertIdx else |lines|) == Place(lines, headerIdx)
  {
    hide HasPrefix;
    var inTable := false;
    for i := 0 to |lines|
      invariant inTable <==> i > headerIdx
      invariant forall j | headerIdx + 2 <= j < i :: !IsSection(lines[j])
    {
      if i == headerIdx { inTable := true; }
      if inTable && i > headerIdx + 1 && HasPrefix(lines[i], "## ") {
        return i;
      }
    }
    return -1;
  }

  class BacklogFile {
    var content: string

    method UpdateBacklogMD(t: Task)
      modifies this
      ensures content == Added(old(content), t)
    {
      hide SplitLines, JoinLines, IsHeader, Columns, Row, Place;
      var lines := SplitLines(content);
      var headerIdx, headerCols := FindHeader(lines);
      if headerIdx < 0 {
        content := content + "\n" + DefaultRow(t) + "\n";
        return;
      }
      var newRow := MakeRow(headerCols, t);
      assert newRow == RowFor(lines, t);
      var insertIdx := FindPlace(lines, headerIdx);
      ghost var split := Place(lines, headerIdx);
      if insertIdx >= 0 {
        lines := lines[..insertIdx] + [newRow] + lines[insertIdx..];
      } else {
        assert lines + [newRow] == lines[..split] + [newRow] + lines[split..];
        lines := lines + [newRow];
      }
      content := JoinLines(lines);
    }

    method RemoveFromBacklogMD(id: string) returns (removed: bool)
      modifies this
      ensures content == Removed(old(content), id)
      ensures removed <==> Mentions(SplitLines(old(content)), Marker(id))
    {
      hide SplitLines, JoinLines, Contains, Marker;
      var lines, marker := SplitLines(content), Marker(id);
      var newLines: seq<string> := [];
      removed := false;
      for i := 0 to |lines|
        invariant newLines == Without(lines[..i], marker)
        invariant removed <==> exists j | 0 <= j < i :: Contains(lines[j], marker)
      {
        assert lines[..i + 1][..i] == lines[..i];
        if Contains(lines[i], marker) {
          removed := true;
          continue;
        }
        newLines := newLines + [lines[i]];
      }
      assert lines[..|lines|] == lines;
      if !removed { return; }
      content := JoinLines(newLines);
    }
  }

  // ---- one undoes the other ----

  lemma {:induction false} WithoutSum(a: seq<string>, b: seq<string>, marker: string)
    ensures Without(a + b, marker) == Without(a, marker) + Without(b, marker)
  {
    if b == [] {
      assert a + b == a;
    } else {
      var n := |b| - 1;
      assert (a + b)[..|a| + n] == a + b[..n];
      WithoutSum(a, b[..n], marker);
    }
  }

  /** Only lines with the marker go; all of them do. */
  lemma {:induction false} WithoutExactly(lines: seq<string>, marker: string)
    ensures |Without(lines, marker)| == |lines| ==> Without(lines, marker) == lines
    ensures |Without(lines, marker)| <= |lines|
    ensures Without(lines, marker) == lines <==> !Mentions(lines, marker)
    ensures Without(lines, marker) == [] <==> forall i | 0 <= i < |lines| :: Contains(lines[i], marker)
  {
    hide Contains;
    if lines != [] {
      var n := |lines| - 1;
      assert lines == lines[..n] + [lines[n]];
      WithoutExactly(lines[..n], marker);
    }
  }

  predicate EndsInCR(line: string) {
    line != [] && line[|line| - 1] == '\r'
  }

  lemma DropCRKeeps(line: string, marker: string)
    requires Contains(DropCR(line), marker)
    ensures Contains(line, marker)
  {
    var d := DropCR(line);
    var i :| 0 <= i <= |d| && At(d, i, marker);
    assert line[i..i + |marker|] == d[i..i + |marker|];
    assert At(line, i, marker);
  }

  /** The lines that a scan of the file finds once a row is in. */
  lemma LinesWithRow(a: seq<string>, row: string, b: seq<string>)
    requires forall i | 0 <= i < |a| :: OneLine(a[i])
    requires forall i | 0 <= i < |b| :: OneLine(b[i])
    ensures RawLines(JoinLines(a + [row] + b)) == a + (Cut(row, '\n') + b)
  {
    JoinLinesOfRow(a, row, b);
    hide RawLines, Cut, JoinLines;
    RawLinesOfJoin(a, row + "\n" + JoinLines(b));
    RawLinesOfSum(row, JoinLines(b));
    RawLinesOfAll(b);
  }

  lemma JoinLinesOfRow(a: seq<string>, row: string, b: seq<string>)
    ensures JoinLines(a + [row] + b) == JoinLines(a) + (row + "\n" + JoinLines(b))
  {
    assert JoinLines([row]) == row + "\n";
    hide JoinLines;
    JoinLinesOfSum(a + [row], b);
    JoinLinesOfSum(a, [row]);
  }

  /** The pieces into which a scan breaks the row: one, unless a cell holds a newline. */
  function RowPieces(row: string): seq<string> {
    DropCRs(Cut(row, '\n'))
  }

  /** Where the file has a table and no line naming the task, removing what was added restores
      the lines exactly when none of them ends in a carriage return and every piece of the row
      carries the marker, whatever the order of the columns. */
  lemma AddThenRemoveExactly(content: string, t: Task)
    requires HasTable(SplitLines(content)) && !Mentions(SplitLines(content), Marker(t.id))
    ensures var lines := SplitLines(content);
      var pieces := RowPieces(RowFor(lines, t));
      Removed(Added(content, t), t.id) == JoinLines(lines) <==>
        && (forall i | 0 <= i < |lines| :: !EndsInCR(lines[i]))
        && (forall i | 0 <= i < |pieces| :: Contains(pieces[i], Marker(t.id)))
  {
    hide Contains, IsHeader, RowFor, Marker, Cut, RawLines;
    var lines := SplitLines(content);
    var p := Place(lines, FirstFrom(lines, IsHeader, 0));
    assert forall i | 0 <= i < |lines| :: OneLine(lines[i]);
    assert lines == lines[..p] + lines[p..];
    RowOutExactly(lines[..p], RowFor(lines, t), lines[p..], t.id);
  }

  lemma RowOutExactly(a: seq<string>, row: string, b: seq<string>, id: string)
    requires forall i | 0 <= i < |a + b| :: OneLine((a + b)[i])
    requires !Mentions(a + b, Marker(id))
    ensures Removed(JoinLines(a + [row] + b), id) == JoinLines(a + b) <==>
      && (forall i | 0 <= i < |a + b| :: !EndsInCR((a + b)[i]))
      && (forall i | 0 <= i < |RowPieces(row)| :: Contains(RowPieces(row)[i], Marker(id)))
  {
    hide Contains, Marker, Cut, RawLines, JoinLines, Without, DropCR, Mentions;
    var marker, pieces, all := Marker(id), RowPieces(row), a + b;
    var found := SplitLines(JoinLines(a + [row] + b));
    var left := DropCRs(a) + (Without(pieces, marker) + DropCRs(b));
    RowFound(a, row, b, marker);
    WithoutExactly(found, marker);
    WithoutExactly(pieces, marker);
    WithoutPart(found, marker);
    RawLinesOfAll(all);
    RawLinesOfAll(left);
    RawLinesOfAll(found);
    if left == all {
      assert |Without(pieces, marker)| == 0;
    }
    if Without(pieces, marker) == [] {
      assert left == DropCRs(all);
      DropCRsExactly(all);
    }
  }

  lemma DropCRsExactly(lines: seq<string>)
    ensures DropCRs(lines) == lines <==> forall i | 0 <= i < |lines| :: !EndsInCR(lines[i])
  {
  }

  lemma RowFound(a: seq<string>, row: string, b: seq<string>, marker: string)
    requires forall i | 0 <= i < |a + b| :: OneLine((a + b)[i])
    requires !Mentions(a + b, marker)
    ensures var found := SplitLines(JoinLines(a + [row] + b));
      && found == DropCRs(a) + (RowPieces(row) + DropCRs(b))
      && Without(found, marker) == DropCRs(a) + (Without(RowPieces(row), marker) + DropCRs(b))
  {
    hide Contains, Cut, RawLines, JoinLines, Without, DropCRs;
    var all := a + b;
    forall i | 0 <= i < |a| ensures a[i] == all[i] { }
    forall i | 0 <= i < |b| ensures b[i] == all[|a| + i] { }
    LinesWithRow(a, row, b);
    DropCRsOfSum(a, Cut(row, '\n') + b);
    DropCRsOfSum(Cut(row, '\n'), b);
    WithoutUnmentioned(a, marker);
    WithoutUnmentioned(b, marker);
    WithoutSum(RowPieces(row), DropCRs(b), marker);
    WithoutSum(DropCRs(a), RowPieces(row) + DropCRs(b), marker);
  }

  lemma DropCRsOfSum(a: seq<string>, b: seq<string>)
    ensures DropCRs(a + b) == DropCRs(a) + DropCRs(b)
  {
  }

  lemma WithoutUnmentioned(lines: seq<string>, marker: string)
    requires forall i | 0 <= i < |lines| :: !Contains(lines[i], marker)
    ensures Without(DropCRs(lines), marker) == DropCRs(lines)
  {
    hide Contains, Without, DropCR;
    forall i | 0 <= i < |lines| ensures !Contains(DropCR(lines[i]), marker) {
      if Contains(DropCR(lines[i]), marker) { DropCRKeeps(lines[i], marker); }
    }
    WithoutExactly(DropCRs(lines), marker);
  }

  lemma {:induction false} WithoutPart(lines: seq<string>, marker: string)
    requires forall i | 0 <= i < |lines| :: OneLine(lines[i])
    ensures forall i | 0 <= i < |Without(lines, marker)| :: OneLine(Without(lines, marker)[i])
  {
    if lines != [] { WithoutPart(lines[..|lines| - 1], marker); }
  }

  /** A task whose values hold no newline comes out without a trace. */
  lemma RowRoundTrip(content: string, t: Task)
    requires HasTable(SplitLines(content)) && !Mentions(SplitLines(content), Marker(t.id))
    requires forall i | 0 <= i < |SplitLines(content)| :: !EndsInCR(SplitLines(content)[i])
    requires OneLine(RowFor(SplitLines(content), t))
    ensures SplitLines(Removed(Added(content, t), t.id)) == SplitLines(content)
  {
    hide RowFor, Cut, IsHeader;
    var lines := SplitLines(content);
    var row := RowFor(lines, t);
    CutPlain(row, '\n');
    AddThenRemoveExactly(content, t);
    RawLinesOfAll(lines);
    assert DropCRs(lines) == lines;
  }
}
