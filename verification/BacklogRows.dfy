/** What the detector of pkg/backlog/backlog.go sees of the rows that pkg/fileutil/fileutil.go adds
    and removes. The detector takes a task ID from the first cell of a line; a row is added in the
    column order of the header, and removed by the marker `| ID |` wherever it stands. */
module BacklogRows {
  import opened Text
  import opened Lines
  import opened Decimal
  import opened BacklogTable

  // ---- the detector ----

  /** Where the ID starts and ends, and where the bar behind it stands. */
  datatype Span = Span(i: nat, e: nat, f: nat)

  /** `^\|\s*(T\d+)\s*\|` matches a line like this. */
  predicate IdAt(line: string, x: Span) {
    && 0 < x.i && x.i + 1 < x.e <= x.f < |line|
    && line[0] == '|' && (forall k | 1 <= k < x.i :: Blank(line[k])) && line[x.i] == 'T'
    && (forall k | x.i < k < x.e :: IsDigit(line[k]))
    && (forall k | x.e <= k < x.f :: Blank(line[k])) && line[x.f] == '|'
  }

  function FindId(line: string): (x: Option<Span>)
    ensures x.Some? ==> IdAt(line, x.value)
  {
    if line == "" || line[0] != '|' then None
    else
      var i := BlanksEnd(line, 1);
      if i >= |line| || line[i] != 'T' then None
      else
        var e := DigitsEnd(line, i + 1);
        if e == i + 1 then None
        else
          var f := BlanksEnd(line, e);
          if f >= |line| || line[f] != '|' then None else Some(Span(i, e, f))
  }

  lemma FindIdFinds(line: string, x: Span)
    requires IdAt(line, x)
    ensures FindId(line) == Some(x)
  {
    BlankOrNot();
    assert !Blank('T') && !IsDigit('T');
    hide Blank, IsDigit, BlanksEnd, DigitsEnd;
    BlanksEndIs(line, 1, x.i);
    assert x.e < x.f ==> Blank(line[x.e]);
    DigitsEndIs(line, x.i + 1, x.e);
    BlanksEndIs(line, x.e, x.f);
  }

  /** The ID that the detector reads from a line. */
  function RowId(line: string): Option<string> {
    match FindId(line)
    case None => None
    case Some(x) => Some(line[x.i..x.e])
  }

  /** A match depends on the text up to its last bar only. */
  lemma IdAtStart(line: string, n: nat, x: Span)
    requires n <= |line| && x.f < n
    ensures IdAt(line[..n], x) <==> IdAt(line, x)
  {
    hide Blank, IsDigit;
    var start := line[..n];
    assert forall k | 0 <= k < n :: start[k] == line[k];
  }

  /** Only the text up to the second bar matters. */
  lemma RowIdOfStart(line: string, n: nat)
    requires n <= |line|
    ensures RowId(line[..n]).Some? ==> RowId(line) == RowId(line[..n])
    ensures FindId(line).Some? && FindId(line).value.f < n ==> RowId(line) == RowId(line[..n])
  {
    hide FindId, IdAt;
    var start := line[..n];
    if FindId(start).Some? {
      var x := FindId(start).value;
      SpanBounds(start, x);
      IdAtStart(line, n, x);
      FindIdFinds(line, x);
      assert start[x.i..x.e] == line[x.i..x.e];
    } else if FindId(line).Some? && FindId(line).value.f < n {
      var x := FindId(line).value;
      IdAtStart(line, n, x);
      FindIdFinds(start, x);
    }
  }

  lemma SpanBounds(line: string, x: Span)
    requires IdAt(line, x)
    ensures 0 < x.i && x.i + 1 < x.e <= x.f < |line| && line[x.f] == '|'
  {
  }

  /** The detector reads the ID from some line. */
  predicate Lists(lines: seq<string>, id: string) {
    exists k | 0 <= k < |lines| :: RowId(lines[k]) == Some(id)
  }

  lemma DropCRKeepsId(line: string)
    ensures RowId(DropCR(line)) == RowId(line)
  {
    hide FindId, IdAt;
    if EndsInCR(line) {
      if FindId(line).Some? { SpanBounds(line, FindId(line).value); }
      RowIdOfStart(line, |line| - 1);
    }
  }

  lemma ScanListsSame(content: string, id: string)
    ensures Lists(SplitLines(content), id) <==> Lists(RawLines(content), id)
  {
    hide RowId, RawLines, DropCR;
    var raw := RawLines(content);
    forall k | 0 <= k < |raw| ensures RowId(SplitLines(content)[k]) == RowId(raw[k]) { DropCRKeepsId(raw[k]); }
  }

  // ---- a row that is added ----

  /** The text of the row that is added. */
  function NewRow(lines: seq<string>, t: Task): string {
    if HasTable(lines) then RowFor(lines, t) else DefaultRow(t)
  }

  /** After an add the detector sees what it saw before and what it reads from the lines of the row. */
  lemma AddedIsListedExactly(content: string, t: Task, id: string)
    ensures Lists(RawLines(Added(content, t)), id) <==>
      Lists(RawLines(content), id) || Lists(Cut(NewRow(SplitLines(content), t), '\n'), id)
  {
    hide RowId, RawLines, IsHeader, RowFor, Cut, JoinLines, SplitLines;
    ScanListsSame(content, id);
    var lines, row := SplitLines(content), NewRow(SplitLines(content), t);
    if HasTable(lines) {
      var p := Place(lines, FirstFrom(lines, IsHeader, 0));
      SplitOneLine(content);
      LinesWithRow(lines[..p], row, lines[p..]);
      ListsOfSum(lines[..p], Cut(row, '\n') + lines[p..], id);
      ListsOfSum(Cut(row, '\n'), lines[p..], id);
      ListsOfSum(lines[..p], lines[p..], id);
      assert lines == lines[..p] + lines[p..];
    } else {
      LinesAppended(content, row);
      ListsOfSum(Cut(content, '\n'), Cut(row, '\n'), id);
      EmptyListsNothing(content, id);
    }
  }

  lemma LinesAppended(content: string, row: string)
    ensures RawLines(content + "\n" + row + "\n") == Cut(content, '\n') + Cut(row, '\n')
  {
    hide RawLines;
    assert content + "\n" + row + "\n" == content + "\n" + (row + "\n");
    RawLinesOfSum(content, row + "\n");
    RawLinesOfSum(row, "");
  }

  lemma EmptyListsNothing(content: string, id: string)
    ensures Lists(Cut(content, '\n'), id) <==> Lists(RawLines(content), id)
  {
    var runs := Cut(content, '\n');
    assert RowId("") == None;
    hide RowId, Cut;
    if Lists(runs, id) {
      var k :| 0 <= k < |runs| && RowId(runs[k]) == Some(id);
      assert RawLines(content)[k] == runs[k];
    }
  }

  /** Where there is no table the detector finds the added row under its ID. */
  lemma DefaultRowIsRead(t: Task)
    requires IsTaskId(t.id)
    ensures RowId(DefaultRow(t)) == Some(t.id)
  {
    IdInFront(DefaultRow(t), t.id);
  }

  lemma IdInFront(row: string, id: string)
    requires IsTaskId(id) && "| " + id + " |" <= row
    ensures RowId(row) == Some(id)
  {
    var start := "| " + id + " |";
    assert PaddedAt(id, id, 0);
    ValueIsId(id, id, start, 1);
    hide RowId, IsTaskId;
    assert row[..|start|] == start;
    RowIdOfStart(row, |start|);
  }

  lemma SplitOneLine(content: string)
    ensures forall k | 0 <= k < |SplitLines(content)| :: OneLine(SplitLines(content)[k])
  {
    hide RawLines;
  }

  lemma ListsOfSum(a: seq<string>, b: seq<string>, id: string)
    ensures Lists(a + b, id) <==> Lists(a, id) || Lists(b, id)
  {
    hide RowId;
    var s := a + b;
    if Lists(a, id) {
      var k :| 0 <= k < |a| && RowId(a[k]) == Some(id);
      assert s[k] == a[k];
    }
    if Lists(b, id) {
      var k :| 0 <= k < |b| && RowId(b[k]) == Some(id);
      assert s[|a| + k] == b[k];
    }
  }

  predicate IsTaskId(id: string) {
    |id| > 1 && id[0] == 'T' && forall k | 1 <= k < |id| :: IsDigit(id[k])
  }

  /** The part of a value before its first bar. */
  function BeforeBar(v: string): (u: string)
    ensures '|' !in u && ('|' !in v ==> u == v)
  {
    v[..CharFrom(v, '|', 0)]
  }

  /** The text of a cell up to its first bar: its own, or else the one behind the cell. */
  function FirstCell(v: string): string {
    "| " + BeforeBar(v) + if '|' in v then "|" else " |"
  }

  /** Of the row only the text up to its second bar counts. */
  lemma FirstCellDecides(cols: seq<string>, t: Task)
    requires cols != []
    ensures RowId(Row(cols, t)) == RowId(FirstCell(Cell(cols[0], t)))
  {
    var start, row := FirstCell(Cell(cols[0], t)), Row(cols, t);
    RowStarts(cols, t);
    FirstCellBars(Cell(cols[0], t));
    hide RowId, Row, FirstCell;
    assert row[..|start|] == start;
    BarEndsId(row, |start|);
  }

  lemma RowStarts(cols: seq<string>, t: Task)
    requires cols != []
    ensures FirstCell(Cell(cols[0], t)) <= Row(cols, t)
  {
    var v := Cell(cols[0], t);
    assert Cells(cols, t)[0] == v;
    assert "| " + v + " |" <= Row(cols, t);
    hide Row;
    var u := BeforeBar(v);
    if '|' in v { assert v[..|u| + 1] == u + "|"; }
  }

  lemma FirstCellBars(v: string)
    ensures var s := FirstCell(v);
      |s| > 1 && s[|s| - 1] == '|' && forall k | 1 <= k < |s| - 1 :: s[k] != '|'
  {
    hide BeforeBar;
    var s, u := FirstCell(v), BeforeBar(v);
    forall k | 2 <= k < |u| + 2 ensures s[k] != '|' { assert s[k] == u[k - 2]; }
  }

  /** Where the text before n holds no bar but the first and the last, the ID ends there. */
  lemma BarEndsId(row: string, n: nat)
    requires 1 < n <= |row| && row[n - 1] == '|' && forall k | 1 <= k < n - 1 :: row[k] != '|'
    ensures RowId(row) == RowId(row[..n])
  {
    hide FindId, IdAt;
    if FindId(row).Some? { FirstBar(row, FindId(row).value, n); }
    RowIdOfStart(row, n);
  }

  lemma FirstBar(row: string, x: Span, n: nat)
    requires IdAt(row, x) && 1 < n <= |row| && row[n - 1] == '|'
    requires forall k | 1 <= k < n - 1 :: row[k] != '|'
    ensures x.f == n - 1
  {
    BlankOrNot();
    hide Blank, IsDigit;
  }

  /** A value that is the ID but for blanks around it. */
  predicate Padded(v: string, id: string) {
    exists i | 0 <= i <= |v| :: PaddedAt(v, id, i)
  }

  predicate PaddedAt(v: string, id: string, i: nat) {
    && At(v, i, id) && (forall k | 0 <= k < i :: Blank(v[k]))
    && forall k | i + |id| <= k < |v| :: Blank(v[k])
  }

  /** The detector finds an added row under its ID exactly when the value that stands in the first
      column is the ID, up to the first bar of the value and but for blanks: that is when the header's
      first column is `id`, or another value happens to start like that. */
  lemma FirstColumnExactly(cols: seq<string>, t: Task)
    requires cols != [] && IsTaskId(t.id)
    ensures RowId(Row(cols, t)) == Some(t.id) <==> Padded(BeforeBar(Cell(cols[0], t)), t.id)
    ensures cols[0] == "id" ==> RowId(Row(cols, t)) == Some(t.id)
  {
    var v := Cell(cols[0], t);
    TaskIdHasNoBar(t.id);
    FirstCellDecides(cols, t);
    hide RowId, Row, IsTaskId;
    ValueIsId(BeforeBar(v), t.id, FirstCell(v), if '|' in v then 0 else 1);
    if v == t.id { assert PaddedAt(v, t.id, 0); }
  }

  lemma TaskIdHasNoBar(id: string)
    requires IsTaskId(id)
    ensures '|' !in id
  {
    assert !IsDigit('|');
  }

  /** So a title that starts with the ID and a bar is read as the ID, though the value is another. */
  lemma BarTitleIsRead()
    ensures var t := Task("T1", "T1 | x", "", "", "");
      RowId(Row(["title", "id"], t)) == Some("T1") && !Padded(t.title, "T1")
  {
    var t := Task("T1", "T1 | x", "", "", "");
    assert t.title[3] == '|' && BeforeBar(t.title) == "T1 " by { CharFromIs(t.title, '|', 0, 3); }
    assert PaddedAt("T1 ", "T1", 0);
    hide RowId, Row;
    FirstColumnExactly(["title", "id"], t);
    forall i | 0 <= i <= 6 ensures !PaddedAt(t.title, "T1", i) {
      assert t.title[0] == 'T' && !Blank('T') && !Blank('|');
    }
  }

  /** A line that consists of a bar, a blank, the value v, g blanks and a bar. */
  predicate Boxed(v: string, line: string, g: nat) {
    && |line| == |v| + g + 3 && line[0] == '|' == line[|v| + g + 2] && line[1] == ' '
    && (forall k {:trigger line[k]} | 2 <= k < |v| + 2 :: line[k] == v[k - 2])
    && forall k | |v| + 2 <= k < |v| + g + 2 :: line[k] == ' '
  }

  lemma ValueIsId(v: string, id: string, line: string, g: nat)
    requires IsTaskId(id) && '|' !in v && Boxed(v, line, g)
    ensures RowId(line) == Some(id) <==> Padded(v, id)
  {
    hide RowId, IsTaskId, PaddedAt, IdAt, Boxed;
    if Padded(v, id) {
      var i :| 0 <= i <= |v| && PaddedAt(v, id, i);
      PaddedIsRead(v, id, line, g, i);
    }
    if RowId(line) == Some(id) { ReadIsPadded(v, id, line, g); }
  }

  lemma PaddedIsRead(v: string, id: string, line: string, g: nat, i: nat)
    requires IsTaskId(id) && PaddedAt(v, id, i) && Boxed(v, line, g)
    ensures RowId(line) == Some(id)
  {
    assert Blank(' ');
    AtChars(v, i, id);
    hide Blank, IsDigit;
    forall k | i + 2 <= k < i + 2 + |id| ensures line[k] == id[k - i - 2] {
      assert v[i + (k - i - 2)] == id[k - i - 2];
    }
    assert line[i + 2..i + 2 + |id|] == id;
    var x := Span(i + 2, i + 2 + |id|, |v| + g + 2);
    assert IdAt(line, x);
    hide IdAt;
    FindIdFinds(line, x);
  }

  lemma ReadIsPadded(v: string, id: string, line: string, g: nat)
    requires '|' !in v && RowId(line) == Some(id) && Boxed(v, line, g)
    ensures Padded(v, id)
  {
    var x := FindId(line).value;
    assert Blank(' ') && !Blank('T') && !IsDigit(' ');
    hide Blank, IsDigit, FindId;
    FirstBar(line, x, |v| + g + 3);
    assert x.i >= 2 && x.e <= |v| + 2 by { assert x.i != 1 && IsDigit(line[x.e - 1]); }
    assert v[x.i - 2..x.i - 2 + |id|] == id by {
      forall k | 0 <= k < |id| ensures v[x.i - 2 + k] == id[k] { assert line[x.i + k] == id[k]; }
    }
    forall k | 0 <= k < x.i - 2 ensures Blank(v[k]) { assert line[k + 2] == v[k]; }
    forall k | x.e - 2 <= k < |v| ensures Blank(v[k]) { assert line[k + 2] == v[k]; }
    assert PaddedAt(v, id, x.i - 2);
  }

  // ---- rows that are removed ----

  /** The detector reads the ID from some line that does not carry the marker. */
  predicate KeepsLine(lines: seq<string>, marker: string, id: string) {
    exists k | 0 <= k < |lines| :: RowId(lines[k]) == Some(id) && !Contains(lines[k], marker)
  }

  lemma {:induction false} ListsOfWithout(lines: seq<string>, marker: string, id: string)
    ensures Lists(Without(lines, marker), id) <==> KeepsLine(lines, marker, id)
  {
    hide RowId, Contains;
    if lines != [] {
      var n := |lines| - 1;
      ListsOfWithout(lines[..n], marker, id);
      KeepsNext(lines, marker, id);
      hide KeepsLine;
      ListsOfSum(Without(lines[..n], marker), if Contains(lines[n], marker) then [] else [lines[n]], id);
    }
  }

  lemma KeepsNext(lines: seq<string>, marker: string, id: string)
    requires lines != []
    ensures var n := |lines| - 1;
      && (KeepsLine(lines, marker, id) <==>
            KeepsLine(lines[..n], marker, id) || (RowId(lines[n]) == Some(id) && !Contains(lines[n], marker)))
      && (Lists(if Contains(lines[n], marker) then [] else [lines[n]], id) <==>
            RowId(lines[n]) == Some(id) && !Contains(lines[n], marker))
  {
    hide RowId, Contains;
    var n := |lines| - 1;
    if KeepsLine(lines[..n], marker, id) {
      var k :| 0 <= k < n && RowId(lines[..n][k]) == Some(id) && !Contains(lines[..n][k], marker);
      assert lines[k] == lines[..n][k];
    }
    assert RowId(lines[n]) == Some(id) && !Contains(lines[n], marker) ==> Lists([lines[n]], id) by {
      assert [lines[n]][0] == lines[n];
    }
  }

  /** After a removal the detector sees an ID exactly if it read it from a line without the marker. */
  lemma RemovedIsListedExactly(content: string, id: string, other: string)
    ensures Lists(RawLines(Removed(content, id)), other) <==> KeepsLine(SplitLines(content), Marker(id), other)
  {
    hide RowId, RawLines, JoinLines, Contains, Marker, SplitLines;
    var lines, marker := SplitLines(content), Marker(id);
    if Mentions(lines, marker) {
      SplitOneLine(content);
      WithoutPart(lines, marker);
      RawLinesOfAll(Without(lines, marker));
    } else {
      WithoutExactly(lines, marker);
      ScanListsSame(content, other);
    }
    ListsOfWithout(lines, marker, other);
  }

  /** Removing takes exactly this ID off the list if and only if no line that is read as the ID lacks
      the marker, and every other ID keeps a line without it: not, say, the line of a task that
      depends on this one. */
  lemma RemovedTakesOneExactly(content: string, id: string)
    ensures var lines := SplitLines(content);
      (forall other :: Lists(RawLines(Removed(content, id)), other) <==> Lists(RawLines(content), other) && other != id)
      <==>
      !KeepsLine(lines, Marker(id), id)
      && forall other | other != id && Lists(lines, other) :: KeepsLine(lines, Marker(id), other)
  {
    hide RowId, RawLines, Removed, Contains, Marker, SplitLines;
    forall other { RemovedIsListedExactly(content, id, other); }
    forall other { ScanListsSame(content, other); }
  }

  // ---- files for which detector and editor never agree ----

  /** What a task needs to be added again and again: a table in whose column order its row is one
      line that is not read as its ID, and no line that is. */
  predicate Overlooked(content: string, t: Task) {
    var lines := SplitLines(content);
    && HasTable(lines) && OneLine(RowFor(lines, t)) && RowId(RowFor(lines, t)) != Some(t.id)
    && !Lists(RawLines(content), t.id) && forall k | 0 <= k < |lines| :: !EndsInCR(lines[k])
  }

  function AddedTimes(content: string, t: Task, n: nat): string {
    if n == 0 then content else Added(AddedTimes(content, t, n - 1), t)
  }

  /** Such a task is added by every sync for ever: each time one more line, and never listed. */
  lemma {:induction false} OverlookedForEver(content: string, t: Task, n: nat)
    requires Overlooked(content, t)
    ensures Overlooked(AddedTimes(content, t, n), t)
    ensures |SplitLines(AddedTimes(content, t, n))| == |SplitLines(content)| + n
  {
    hide Overlooked, SplitLines;
    if n > 0 {
      OverlookedForEver(content, t, n - 1);
      OverlookedAgain(AddedTimes(content, t, n - 1), t);
    }
  }

  lemma OverlookedAgain(content: string, t: Task)
    requires Overlooked(content, t)
    ensures Overlooked(Added(content, t), t) && |SplitLines(Added(content, t))| == |SplitLines(content)| + 1
  {
    hide RowId, RawLines, IsHeader, RowFor, Cut, JoinLines, DropCR;
    var lines, row := SplitLines(content), RowFor(SplitLines(content), t);
    var h := FirstFrom(lines, IsHeader, 0);
    var p := Place(lines, h);
    SplitOneLine(content);
    LinesWithRow(lines[..p], row, lines[p..]);
    CutPlain(row, '\n');
    var more := lines[..p] + ([row] + lines[p..]);
    assert RawLines(Added(content, t)) == more by { assert lines[..p] + [row] + lines[p..] == more; }
    assert forall k | 0 <= k < |more| :: !EndsInCR(more[k]);
    DropCRsExactly(more);
    assert SplitLines(Added(content, t)) == more;
    AddedIsListedExactly(content, t, t.id);
    assert [row][0] == row;
    SameHeader(lines, more, h, t);
  }

  /** The first table decides the columns, and a row below it changes nothing about that. */
  lemma SameHeader(lines: seq<string>, more: seq<string>, h: nat, t: Task)
    requires HasTable(lines) && h == FirstFrom(lines, IsHeader, 0)
    requires h < |more| && forall k | 0 <= k <= h :: more[k] == lines[k]
    ensures HasTable(more) && RowFor(more, t) == RowFor(lines, t)
  {
    hide IsHeader, Row, Columns;
    assert FirstFrom(more, IsHeader, 0) == h;
  }

  /** A row that is read as T1 and does not carry the marker is never removed. */
  lemma NarrowRowStays()
    ensures Lists(RawLines("|T1|\n"), "T1") && Removed("|T1|\n", "T1") == "|T1|\n"
  {
    NarrowRow();
    hide RowId, Contains, RawLines, Marker;
    var lines := ["|T1|"];
    assert RawLines("|T1|\n") == lines;
    assert SplitLines("|T1|\n") == lines by { assert DropCR("|T1|") == "|T1|"; }
    assert RowId(lines[0]) == Some("T1");
  }

  lemma NarrowRow()
    ensures RawLines("|T1|\n") == ["|T1|"] && RowId("|T1|") == Some("T1") && !Contains("|T1|", Marker("T1"))
  {
    OneLineFile("|T1|");
    hide RawLines;
    assert "|T1|" + "\n" == "|T1|\n";
    assert IdAt("|T1|", Span(1, 3, 3));
    hide IdAt, FindId;
    FindIdFinds("|T1|", Span(1, 3, 3));
    assert "|T1|"[1..3] == "T1";
    assert |Marker("T1")| == 6;
  }

  /** So it goes with every table whose first column holds another value, such as `| Title | ID |`. */
  lemma OtherFirstColumn(first: string, t: Task)
    requires '|' !in first && OneLine(first) && IsTaskId(t.id)
    requires OneLine(t.id) && OneLine(Cell(Column(first), t)) && !Padded(BeforeBar(Cell(Column(first), t)), t.id)
    requires RowId("|" + first + "| ID |") != Some(t.id)
    ensures Overlooked("|" + first + "| ID |\n", t)
  {
    hide Cut, Columns, RowId, Row, IsHeader, IsTaskId, Padded, BeforeBar, Cell, Column, Overlooked;
    var header := "|" + first + "| ID |";
    HeaderOf(first);
    FirstColumnExactly(Columns(header), t);
    TwoCells(header, Column(first), t);
    assert header[|header| - 1] == '|';
    OverlookedFile(header, t);
    assert "|" + first + "| ID |\n" == header + "\n";
  }

  lemma OverlookedFile(header: string, t: Task)
    requires IsHeader(header) && OneLine(header) && !EndsInCR(header) && |SplitBar(header)| >= 2
    requires OneLine(Row(Columns(header), t)) && RowId(Row(Columns(header), t)) != Some(t.id)
    requires RowId(header) != Some(t.id)
    ensures Overlooked(header + "\n", t)
  {
    hide Cut, Columns, RowId, Row, IsHeader, RawLines;
    OneLineFile(header);
    var lines := [header];
    assert lines[0] == header && FirstFrom(lines, IsHeader, 0) == 0;
  }

  lemma OneLineFile(line: string)
    requires OneLine(line) && !EndsInCR(line)
    ensures RawLines(line + "\n") == [line] && SplitLines(line + "\n") == [line]
  {
    RawLinesOfAll([line]);
    hide RawLines;
    assert JoinLines([line]) == line + "\n";
  }

  lemma HeaderOf(first: string)
    requires '|' !in first && OneLine(first)
    ensures var header := "|" + first + "| ID |";
      IsHeader(header) && OneLine(header) && |SplitBar(header)| >= 2 && Columns(header) == [Column(first), "id"]
  {
    var header := "|" + first + "| ID |";
    assert At(header, |first| + 1, "| ID |");
    HeaderParts(first);
    BacklogTable.CellIsId('I', 'D');
    hide Cut, Column, IsHeader, At;
    assert Contains(header, "| ID |");
  }

  lemma HeaderParts(first: string)
    requires '|' !in first
    ensures Cut("|" + first + "| ID |", '|') == ["", first, " ID ", ""]
  {
    IdParts();
    hide Cut;
    FirstPart(first, " ID |");
    FirstPart("", first + ['|'] + " ID |");
    assert "|" + first + "| ID |" == "" + ['|'] + (first + ['|'] + " ID |");
  }

  lemma IdParts()
    ensures Cut(" ID |", '|') == [" ID ", ""]
  {
    FirstPart(" ID ", "");
    CutPlain("", '|');
    hide Cut;
    assert " ID |" == " ID " + ['|'] + "";
  }

  lemma FirstPart(a: string, rest: string)
    requires '|' !in a
    ensures Cut(a + ['|'] + rest, '|') == [a] + Cut(rest, '|')
  {
    hide Cut;
    CutPlain(a, '|');
    CutSum(a, '|', rest);
  }

  lemma TwoCells(header: string, first: string, t: Task)
    requires |SplitBar(header)| >= 2 && Columns(header) == [first, "id"]
    requires OneLine(Cell(first, t)) && OneLine(t.id)
    ensures OneLine(Row(Columns(header), t))
  {
    hide Columns, SplitBar;
    var cells := Cells([first, "id"], t);
    assert cells == [Cell(first, t), t.id];
    assert JoinCells(cells) == cells[0] + " | " + JoinCells(cells[1..]);
  }
}
