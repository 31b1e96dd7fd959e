/** Front matter and BACKLOG.md rows as they are written, pkg/fileutil/fileutil.go. */
module DocumentExamples {
  import opened Text
  import opened Lines
  import F = Frontmatter
  import opened BacklogTable

  // ---- front matter ----

  /** Between lines of three dashes stands the YAML, and behind the second one the body. */
  lemma SplitWritten(raw: string, body: string)
    requires !Contains(raw, "\n---")
    ensures F.Split("---" + raw + "\n---\n" + body) == Some((raw, body))
  {
    F.SplitExactly("---" + raw + "\n---\n" + body, raw, body);
    assert "---" + raw + "\n---\n" + body == "---" + raw + "\n---" + "\n" + body;
  }

  /** A text that does not start with three dashes, or has no second line of them, is all body. */
  lemma NoFrontMatter(codec: F.Codec, content: string)
    requires !("---" <= content) || !Contains(content[3..], "\n---")
    ensures F.Parse(codec, content) == F.Document(map[], content)
  {
    if "---" <= content {
      var rest := content[3..];
      var i := F.IndexFrom(rest, "\n---", 0);
      assert i >= 0 ==> At(rest, i, "\n---") && 0 <= i <= |rest|;
    }
  }

  /** The dates of three fields lose their time of day; every other value stays. */
  lemma DatesExactly(fm: F.Fields, k: string)
    requires k in fm
    ensures k in F.Coerced(fm) && F.Coerced(fm).Keys == fm.Keys
    ensures F.Coerced(fm)[k] == match fm[k]
      case Time(day, _) => if k == "created" || k == "started" || k == "completed" then F.Node(day) else fm[k]
      case _ => fm[k]
  {
  }

  /** An update of a document: the YAML of its fields with the new ones put over them, then the body as it was. */
  lemma UpdateWritten(codec: F.Codec, raw: string, body: string, fm: F.Fields, fields: F.Fields, yaml: string)
    requires !Contains(raw, "\n---") && codec.parse(raw) == F.Mapping(fm)
    requires codec.emit(F.Coerced(fm + fields)) == yaml + "\n" && (yaml != "" ==> yaml[|yaml| - 1] != '\n')
    ensures F.Updated(codec, "---" + raw + "\n---\n" + body, fields) == "---\n" + yaml + "\n---\n" + body
  {
    SplitWritten(raw, body);
    TrimsNewline(yaml);
  }

  lemma TrimsNewline(yaml: string)
    requires yaml != "" ==> yaml[|yaml| - 1] != '\n'
    ensures TrimRight(yaml + "\n", c => c == '\n') == yaml
  {
    assert (yaml + "\n")[..|yaml|] == yaml;
  }

  /** YAML that does not parse leaves the document alone. */
  lemma BrokenYamlStays(codec: F.Codec, raw: string, body: string, fields: F.Fields)
    requires !Contains(raw, "\n---") && codec.parse(raw) == F.Invalid
    ensures F.Updated(codec, "---" + raw + "\n---\n" + body, fields) == "---" + raw + "\n---\n" + body
  {
    SplitWritten(raw, body);
  }

  // ---- rows ----

  /** The row under the columns that a new BACKLOG.md has; without a table it is the same. */
  lemma RowWritten(t: Task)
    ensures Row(["id", "title", "size", "type", "priority", "depends"], t) ==
      "| " + t.id + " | " + t.title + " | " + t.estimate + " | " + t.kind + " | " + t.priority + " | \U{2014} |"
    ensures DefaultRow(t) == Row(["id", "title", "size", "type", "priority", "depends"], t)
  {
    CellsWritten(t);
    JoinSix(Cells(["id", "title", "size", "type", "priority", "depends"], t));
  }

  lemma CellsWritten(t: Task)
    ensures Cells(["id", "title", "size", "type", "priority", "depends"], t)
      == [t.id, t.title, t.estimate, t.kind, t.priority, "\U{2014}"]
  {
  }

  lemma JoinSix(c: seq<string>)
    requires |c| == 6
    ensures JoinCells(c) == c[0] + " | " + c[1] + " | " + c[2] + " | " + c[3] + " | " + c[4] + " | " + c[5]
  {
    assert JoinCells(c[5..]) == c[5];
    JoinNext(c, 4);
    JoinNext(c, 3);
    JoinNext(c, 2);
    JoinNext(c, 1);
    JoinNext(c, 0);
    assert c[0..] == c;
  }

  lemma JoinNext(c: seq<string>, i: nat)
    requires i + 1 < |c|
    ensures JoinCells(c[i..]) == c[i] + " | " + JoinCells(c[i + 1..])
  {
    assert c[i..][1..] == c[i + 1..];
  }

  /** A line is a header exactly when it has a cell `| id |`, in any letter case. */
  lemma HeaderExactly(line: string)
    ensures IsHeader(line) <==> exists pre, post :: Lower(line) == pre + "| id |" + post
  {
    var l := Lower(line);
    if Contains(line, "| ID |") {
      var i :| 0 <= i <= |line| && At(line, i, "| ID |");
      AtChars(line, i, "| ID |");
      assert "| ID |"[2] == 'I' && "| ID |"[3] == 'D' && "| id |"[2] == 'i' && "| id |"[3] == 'd';
      assert l[i..i + 6] == "| id |" by { LowerMarker(line, i); }
      assert At(l, i, "| id |");
    }
    if Contains(l, "| id |") {
      var i :| 0 <= i <= |l| && At(l, i, "| id |");
      assert l == l[..i] + "| id |" + l[i + 6..];
    }
    if exists pre, post :: l == pre + "| id |" + post {
      var pre, post :| l == pre + "| id |" + post;
      ContainsPart(pre, "| id |", post);
    }
  }

  lemma LowerMarker(line: string, i: nat)
    requires i + 6 <= |line| && line[i..i + 6] == "| ID |"
    ensures Lower(line)[i..i + 6] == "| id |"
  {
    var l := Lower(line);
    forall k | 0 <= k < 6 ensures l[i + k] == "| id |"[k] { assert line[i + k] == "| ID |"[k]; }
  }

  /** A column is named by its cell in lower case, without the blanks and asterisks around it. */
  lemma ColumnExactly(pre: string, left: string, word: string, right: string, post: string)
    requires (forall c | c in pre :: c in WHITE_SPACE) && (forall c | c in post :: c in WHITE_SPACE)
    requires (forall c | c in left :: c == '*') && (forall c | c in right :: c == '*')
    requires word != "" && word[0] !in WHITE_SPACE && word[|word| - 1] !in WHITE_SPACE
    requires word[0] != '*' && word[|word| - 1] != '*'
    ensures Column(pre + (left + word + right) + post) == Lower(word)
  {
    var mid := left + word + right;
    assert '*' !in WHITE_SPACE by { SpacesAre(); }
    assert left != "" ==> mid[0] in left;
    assert right != "" ==> mid[|mid| - 1] in right;
    TrimSpaceExactly(pre + mid + post, pre, mid, post);
    assert mid == left + (word + right);
    TrimLeftDrops(left, word + right, c => c == '*');
    TrimRightDrops(word, right, c => c == '*');
    TrimSpaceExactly(word, "", word, "");
    hide Lower, TrimSpace;
  }

  /** The whole edit: the row goes behind the lines of the table, before the next section. */
  lemma AddedWritten(above: seq<string>, header: string, divider: string, rows: seq<string>, below: seq<string>, t: Task)
    requires forall line | line in above :: !IsHeader(line)
    requires IsHeader(header) && |SplitBar(header)| >= 2
    requires forall line | line in rows :: !("## " <= line)
    requires below == [] || "## " <= below[0]
    requires forall line | line in above + [header, divider] + rows + below :: OneLine(line) && !EndsInCR(line)
    ensures Added(JoinLines(above + [header, divider] + rows + below), t)
      == JoinLines(above + [header, divider] + rows + [Row(Columns(header), t)] + below)
  {
    hide IsHeader, Columns, SplitBar, Row, JoinLines, RawLines;
    var lines := above + [header, divider] + rows + below;
    var h, p := |above|, |above| + 2 + |rows|;
    LinesReadBack(lines);
    assert lines[h] == header && forall k | 0 <= k < h :: lines[k] == above[k];
    assert FirstFrom(lines, IsHeader, 0) == h;
    forall k | h + 2 <= k < p ensures !IsSection(lines[k]) { assert lines[k] == rows[k - h - 2] && rows[k - h - 2] in rows; }
    assert p < |lines| ==> lines[p] == below[0];
    assert Place(lines, h) == p;
    assert lines[..p] == above + [header, divider] + rows && lines[p..] == below;
  }

  lemma LinesReadBack(lines: seq<string>)
    requires forall line | line in lines :: OneLine(line) && !EndsInCR(line)
    ensures SplitLines(JoinLines(lines)) == lines
  {
    hide RawLines;
    RawLinesOfAll(lines);
    DropCRsExactly(lines);
  }

  /** What a removal leaves: the lines without the ID as a cell of its own, in their order. */
  lemma RemovedWritten(before: seq<string>, line: string, after: seq<string>, id: string)
    requires forall l | l in before + [line] + after :: OneLine(l) && !EndsInCR(l)
    requires Contains(line, "| " + id + " |") && forall l | l in before + after :: !Contains(l, "| " + id + " |")
    ensures Removed(JoinLines(before + [line] + after), id) == JoinLines(before + after)
  {
    hide Contains, JoinLines, RawLines, Without, SplitLines;
    var lines, marker := before + [line] + after, "| " + id + " |";
    LinesReadBack(lines);
    assert lines[|before|] == line;
    OneLeaves(before, line, after, marker);
  }

  lemma OneLeaves(before: seq<string>, line: string, after: seq<string>, marker: string)
    requires Contains(line, marker) && forall l | l in before + after :: !Contains(l, marker)
    ensures Without(before + [line] + after, marker) == before + after
  {
    OneWithout(line, marker);
    hide Contains, Without;
    forall k | 0 <= k < |before| ensures !Contains(before[k], marker) { assert before[k] in before + after; }
    forall k | 0 <= k < |after| ensures !Contains(after[k], marker) { assert after[k] in before + after; }
    WithoutExactly(before, marker);
    WithoutExactly(after, marker);
    WithoutSum(before + [line], after, marker);
    WithoutSum(before, [line], marker);
    assert before + [] == before;
  }

  lemma OneWithout(line: string, marker: string)
    requires Contains(line, marker)
    ensures Without([line], marker) == []
  {
    assert [line][..0] == [];
  }
}
