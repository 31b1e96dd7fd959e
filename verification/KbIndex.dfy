/** The knowledge-base index, pkg/kb/kb.go: card counts of a scan are written into the rows of
    INDEX.md, the total line is refreshed and rows are added for files that have none. */
module KbIndex {
  import opened Text
  import opened Lines
  import opened Decimal
  import opened KbRows

  /** Cards found per file, and the title of each file's first card. */
  type Cards = n: nat | n <= MAX64
  type Counts = map<string, Cards>
  type OneLiner = s: string | OneLine(s)
  type Titles = map<string, OneLiner>

  function Scanned(counts: Counts, path: string): nat {
    if path in counts then counts[path] else 0
  }

  /** What a count reads as once it is printed. */
  lemma CountReadsBack(n: Cards)
    ensures IsNumber(NatText(n)) && NatValue(NatText(n)) == n
  {
    NatRoundTrip(n);
  }

  function NewRow(path: string, counts: Counts, titles: Titles): string {
    RowText(path, NatText(Scanned(counts, path)), if path in titles then titles[path] else DisplayName(path))
  }

  function NewRows(paths: seq<string>, counts: Counts, titles: Titles): (r: seq<string>)
    ensures |r| == |paths|
  {
    seq(|paths|, i requires 0 <= i < |paths| => NewRow(paths[i], counts, titles))
  }

  // ---- the total ----

  ghost function Sum(counts: Counts): nat
    decreases |counts|
  {
    if counts == map[] then 0
    else
      var k :| k in counts;
      counts[k] + Sum(counts - {k})
  }

  /** Any key may be taken first. */
  lemma {:induction false} SumFrom(counts: Counts, k: string)
    requires k in counts
    ensures Sum(counts) == counts[k] + Sum(counts - {k})
    decreases |counts|
  {
    var j :| j in counts && Sum(counts) == counts[j] + Sum(counts - {j});
    if j != k {
      SumFrom(counts - {j}, k);
      SumFrom(counts - {k}, j);
      assert counts - {j} - {k} == counts - {k} - {j};
    }
  }

  method SumCounts(counts: Counts) returns (total: nat)
    ensures total == Sum(counts)
  {
    total := 0;
    var rest := counts;
    while rest != map[]
      invariant total + Sum(rest) == Sum(counts)
      invariant forall k | k in rest :: k in counts && rest[k] == counts[k]
      decreases |rest|
    {
      var k :| k in rest;
      SumFrom(rest, k);
      total := total + counts[k];
      rest := rest - {k};
    }
  }

  const TOTAL := "**Total cards**:"

  predicate IsTotal(line: string) {
    TOTAL <= line &&
    var k := BlanksEnd(line, |TOTAL|);
    k < |line| && IsDigit(line[k])
  }

  function TotalLine(total: nat, today: OneLiner): string {
    TOTAL + " " + NatText(total) + " (as of " + today + ")"
  }

  lemma TotalLineIsTotal(total: nat, today: OneLiner)
    ensures IsTotal(TotalLine(total, today)) && OneLine(TotalLine(total, today))
  {
    var t, n := TotalLine(total, today), NatText(total);
    assert n[0] in n && !IsDigit('\n');
    assert t[|TOTAL|] == ' ' && t[|TOTAL| + 1] == n[0];
    BlankOrNot();
    assert BlanksEnd(t, |TOTAL|) == |TOTAL| + 1;
  }

  function WithTotal(lines: seq<string>, total: string): seq<string> {
    var i := FirstFrom(lines, IsTotal, 0);
    if i >= 0 then lines[i := total]
    else (if lines != [] && lines[|lines| - 1] != "" then lines + [""] else lines) + [total]
  }

  method ReplaceTotal(lines: seq<string>, totalLine: string) returns (r: seq<string>)
    ensures r == WithTotal(lines, totalLine)
  {
    hide IsTotal;
    r := lines;
    var totalReplaced := false;
    for i := 0 to |lines|
      invariant r == lines && !totalReplaced
      invariant forall j | 0 <= j < i :: !IsTotal(lines[j])
    {
      if IsTotal(r[i]) {
        r := r[i := totalLine];
        totalReplaced := true;
        return;
      }
    }
    if !totalReplaced {
      if |r| > 0 && r[|r| - 1] != "" {
        r := r + [""];
      }
      r := r + [totalLine];
    }
  }

  // ---- the rows ----

  predicate Stale(line: string, counts: Counts) {
    IsRow(line) && CountOf(line) != Scanned(counts, PathOf(line))
  }

  function Recounted(line: string, counts: Counts): string {
    if Stale(line, counts) then ReplaceCounts(line, NatText(Scanned(counts, PathOf(line)))) else line
  }

  function RecountedRows(lines: seq<string>, counts: Counts): (r: seq<string>)
    ensures |r| == |lines|
  {
    seq(|lines|, i requires 0 <= i < |lines| => Recounted(lines[i], counts))
  }

  function UpdatedPaths(lines: seq<string>, counts: Counts): seq<string> {
    if lines == [] then []
    else
      var n := |lines| - 1;
      UpdatedPaths(lines[..n], counts) + if Stale(lines[n], counts) then [PathOf(lines[n])] else []
  }

  predicate Names(line: string, path: string) {
    IsRow(line) && PathOf(line) == path
  }

  predicate HasRow(lines: seq<string>, path: string) {
    exists i | 0 <= i < |lines| :: Names(lines[i], path)
  }

  function Missing(lines: seq<string>, counts: Counts): set<string> {
    set p | p in counts && !HasRow(lines, p)
  }

  method RecountRows(lines: seq<string>, counts: Counts)
    returns (r: seq<string>, filesUpdated: seq<string>, rowsFound: set<string>)
    ensures r == RecountedRows(lines, counts)
    ensures filesUpdated == UpdatedPaths(lines, counts)
    ensures forall p :: p in rowsFound <==> HasRow(lines, p)
  {
    hide IsRow, PathOf, CountOf, ReplaceCounts, NatText;
    r, filesUpdated, rowsFound := lines, [], {};
    for i := 0 to |lines|
      invariant |r| == |lines|
      invariant forall j | 0 <= j < |lines| :: r[j] == if j < i then Recounted(lines[j], counts) else lines[j]
      invariant filesUpdated == UpdatedPaths(lines[..i], counts)
      invariant forall p :: p in rowsFound <==> exists j | 0 <= j < i :: Names(lines[j], p)
    {
      assert lines[..i + 1][..i] == lines[..i];
      var line := r[i];
      if !IsRow(line) { continue; }
      var relPath := PathOf(line);
      rowsFound := rowsFound + {relPath};
      var newCount := if relPath in counts then counts[relPath] else 0;
      if newCount != CountOf(line) {
        r := r[i := ReplaceCounts(line, NatText(newCount))];
        filesUpdated := filesUpdated + [relPath];
      }
    }
    assert lines[..|lines|] == lines;
  }

  // ---- adding rows ----

  predicate AtMost(a: string, b: string) {
    !Less(b, a)
  }

  lemma AtMostTransitive(a: string, b: string, c: string)
    requires AtMost(a, b) && AtMost(b, c)
    ensures AtMost(a, c)
  {
    LessTotal(a, b);
    LessTotal(b, c);
    if Less(c, a) {
      if a == b || b == c {
      } else {
        LessTransitive(a, b, c);
        LessTransitive(a, c, a);
        LessIrreflexive(a);
      }
    }
  }

  /** The first i strings are the least ones, in order. */
  ghost predicate Front(s: seq<string>, i: nat) {
    forall k, m | 0 <= k < i && k < m < |s| :: AtMost(s[k], s[m])
  }

  ghost predicate LeastSoFar(s: seq<string>, i: nat, j: nat)
    requires i < j <= |s|
  {
    forall m | i < m < j :: AtMost(s[i], s[m])
  }

  function Exchanged(s: seq<string>, i: nat, j: nat): seq<string>
    requires i < j < |s|
  {
    if Less(s[j], s[i]) then s[i := s[j]][j := s[i]] else s
  }

  /** A sorted permutation, computed in place by exchanges. */
  method SortedStrings(ss: seq<string>) returns (r: seq<string>)
    ensures multiset(r) == multiset(ss)
    ensures forall i, j | 0 <= i < j < |r| :: AtMost(r[i], r[j])
  {
    var sorted := new string[|ss|](i requires 0 <= i < |ss| => ss[i]);
    assert sorted[..] == ss;
    for i := 0 to sorted.Length
      invariant multiset(sorted[..]) == multiset(ss) && Front(sorted[..], i)
    {
      assert LeastSoFar(sorted[..], i, i + 1);
      hide Front, LeastSoFar, Less;
      for j := i + 1 to sorted.Length
        invariant multiset(sorted[..]) == multiset(ss) && Front(sorted[..], i) && LeastSoFar(sorted[..], i, j)
      {
        ghost var was := sorted[..];
        ExchangeStep(was, i, j);
        if Less(sorted[j], sorted[i]) {
          sorted[i], sorted[j] := sorted[j], sorted[i];
        }
        assert sorted[..] == Exchanged(was, i, j);
      }
      FrontGrows(sorted[..], i);
    }
    return sorted[..];
  }

  lemma FrontGrows(s: seq<string>, i: nat)
    requires i < |s| && Front(s, i) && LeastSoFar(s, i, |s|)
    ensures Front(s, i + 1)
  {
  }

  lemma ExchangeStep(s: seq<string>, i: nat, j: nat)
    requires i < j < |s| && Front(s, i) && LeastSoFar(s, i, j)
    ensures var t := Exchanged(s, i, j);
      multiset(t) == multiset(s) && Front(t, i) && LeastSoFar(t, i, j + 1)
  {
    hide Less;
    var t := Exchanged(s, i, j);
    if Less(s[j], s[i]) {
      LessAtMost(s[j], s[i]);
      forall m | i < m < j ensures AtMost(t[i], t[m]) { AtMostTransitive(s[j], s[i], s[m]); }
      forall k, m | 0 <= k < i && k < m < |t| ensures AtMost(t[k], t[m]) {
        assert AtMost(s[k], s[if m == i then j else if m == j then i else m]);
      }
    }
  }

  lemma LessAtMost(a: string, b: string)
    requires Less(a, b)
    ensures AtMost(a, b)
  {
  }

  predicate IsDivider(line: string) {
    HasPrefix(TrimSpace(line), "|---")
  }

  /** Below the last row, else below the first divider, else at the end. */
  function Place(lines: seq<string>): (p: nat)
    ensures p <= |lines|
  {
    var divider := FirstFrom(lines, IsDivider, 0);
    if LastWhere(lines, IsRow) >= 0 then LastWhere(lines, IsRow) + 1 else if divider >= 0 then divider + 1 else |lines|
  }

  function WithRows(lines: seq<string>, rows: seq<string>): seq<string> {
    Filled(lines, Place(lines), rows)
  }

  method AddRows(lines: seq<string>, paths: seq<string>, counts: Counts, titles: Titles) returns (r: seq<string>)
    ensures r == WithRows(lines, NewRows(paths, counts, titles))
  {
    hide NewRow, Filled, IsRow, IsDivider;
    r := lines;
    FilledWithNone(lines, Place(lines));
    var lastTableRowIdx := FindLastRow(lines);
    ghost var at, rows := Place(lines), NewRows(paths, counts, titles);
    assert forall k | 0 <= k < |paths| :: rows[k] == NewRow(paths[k], counts, titles);
    hide NewRows, Place;
    assert rows[..0] == [];
    for n := 0 to |paths|
      invariant r == Filled(lines, at, rows[..n])
      invariant if n == 0 then r == lines && lastTableRowIdx == LastWhere(lines, IsRow) else lastTableRowIdx == at + n - 1
    {
      FilledOneMore(lines, at, rows, n);
      r, lastTableRowIdx := AddRow(r, lastTableRowIdx, NewRow(paths[n], counts, titles));
    }
    assert rows[..|paths|] == rows;
  }

  /** One row more, below the given last row or where the first row of a table goes. */
  method AddRow(lines: seq<string>, lastTableRowIdx: int, newRow: string) returns (r: seq<string>, last: nat)
    requires -1 <= lastTableRowIdx < |lines| && (lastTableRowIdx == -1 ==> LastWhere(lines, IsRow) == -1)
    ensures last == if lastTableRowIdx >= 0 then lastTableRowIdx + 1 else Place(lines)
    ensures last <= |lines| && r == Filled(lines, last, [newRow])
  {
    if lastTableRowIdx >= 0 {
      last := lastTableRowIdx + 1;
      r := lines[..last] + [newRow] + lines[last..];
      return;
    }
    for i := 0 to |lines|
      invariant forall j | 0 <= j < i :: !IsDivider(lines[j])
    {
      if IsDivider(lines[i]) {
        return lines[..i + 1] + [newRow] + lines[i + 1..], i + 1;
      }
    }
    assert lines[..|lines|] == lines && lines[|lines|..] == [];
    return lines + [newRow], |lines|;
  }

  function Filled(lines: seq<string>, at: nat, rows: seq<string>): seq<string>
    requires at <= |lines|
  {
    lines[..at] + rows + lines[at..]
  }

  lemma FilledWithNone(lines: seq<string>, at: nat)
    requires at <= |lines|
    ensures Filled(lines, at, []) == lines
  {
  }

  lemma FilledOneMore(lines: seq<string>, at: nat, rows: seq<string>, n: nat)
    requires at <= |lines| && n < |rows|
    ensures var r := Filled(lines, at, rows[..n]);
      |r| == |lines| + n && Filled(lines, at, rows[..n + 1]) == Filled(r, at + n, [rows[n]])
  {
  }

  method FindLastRow(lines: seq<string>) returns (lastTableRowIdx: int)
    ensures lastTableRowIdx == LastWhere(lines, IsRow)
  {
    hide IsRow;
    lastTableRowIdx := -1;
    for i := 0 to |lines|
      invariant lastTableRowIdx < i && (lastTableRowIdx == -1 || (lastTableRowIdx >= 0 && IsRow(lines[lastTableRowIdx])))
      invariant forall j | lastTableRowIdx < j < i :: !IsRow(lines[j])
    {
      if IsRow(lines[i]) { lastTableRowIdx := i; }
    }
  }

  // ---- the whole recount ----

  function Refreshed(lines: seq<string>, counts: Counts, total: string): seq<string> {
    WithTotal(RecountedRows(lines, counts), total)
  }

  /** The lines that are written. A new row whose path holds a newline is one of them all the same. */
  ghost function IndexLines(lines: seq<string>, counts: Counts, titles: Titles, today: OneLiner): seq<string> {
    WithRows(Refreshed(lines, counts, TotalLine(Sum(counts), today)),
      NewRows(SortedKeys(Missing(lines, counts)), counts, titles))
  }

  ghost function Index(content: string, counts: Counts, titles: Titles, today: OneLiner): string {
    JoinLines(IndexLines(RawLines(content), counts, titles, today))
  }

  class IndexFile {
    var content: string

    method RecountIndex(counts: Counts, titles: Titles, today: OneLiner)
      returns (filesUpdated: seq<string>, addedToIndex: seq<string>)
      modifies this
      ensures content == Index(old(content), counts, titles, today)
      ensures filesUpdated == UpdatedPaths(RawLines(old(content)), counts)
      ensures addedToIndex == SortedKeys(Missing(RawLines(old(content)), counts))
    {
      hide NewRows, TotalLine, WithTotal, Sum, RecountedRows, WithRows, UpdatedPaths, HasRow, RawLines, JoinLines;
      var totalCards := SumCounts(counts);
      ghost var was := RawLines(content);
      var lines, rowsFound;
      lines, filesUpdated, rowsFound := RecountRows(RawLines(content), counts);
      lines := ReplaceTotal(lines, TotalLine(totalCards, today));
      var missingInIndex: seq<string> := [];
      var rest := counts.Keys;
      while rest != {}
        invariant rest <= counts.Keys
        invariant forall p :: p in missingInIndex <==> p in counts && p !in rest && p !in rowsFound
        invariant Distinct(missingInIndex)
      {
        var p :| p in rest;
        rest := rest - {p};
        if p !in rowsFound { missingInIndex := missingInIndex + [p]; }
      }
      var sorted := SortedStrings(missingInIndex);
      SortedIsListing(missingInIndex, sorted, Missing(was, counts));
      lines := AddRows(lines, sorted, counts, titles);
      content := JoinLines(lines);
      addedToIndex := sorted;
    }
  }

  ghost predicate Distinct(ss: seq<string>) {
    forall i, j | 0 <= i < j < |ss| :: ss[i] != ss[j]
  }

  /** Distinct strings, sorted, are the ascending listing of their set, in whatever order they came. */
  lemma SortedIsListing(ss: seq<string>, sorted: seq<string>, keys: set<string>)
    requires Distinct(ss) && (forall p :: p in ss <==> p in keys)
    requires multiset(sorted) == multiset(ss) && forall i, j | 0 <= i < j < |sorted| :: AtMost(sorted[i], sorted[j])
    ensures sorted == SortedKeys(keys)
  {
    hide Less;
    forall p ensures p in sorted <==> p in ss {
      assert p in sorted <==> p in multiset(sorted);
      assert p in ss <==> p in multiset(ss);
    }
    DistinctCounts(ss);
    forall i, j | 0 <= i < j < |sorted| ensures Less(sorted[i], sorted[j]) {
      if sorted[i] == sorted[j] { TwiceCounts(sorted, i, j); }
      LessTotal(sorted[i], sorted[j]);
    }
    AscendingUnique(sorted, SortedKeys(keys));
  }

  lemma {:induction false} DistinctCounts(ss: seq<string>)
    requires Distinct(ss)
    ensures forall p :: multiset(ss)[p] <= 1
  {
    if ss != [] {
      var n := |ss| - 1;
      assert ss == ss[..n] + [ss[n]];
      DistinctCounts(ss[..n]);
      assert ss[n] !in multiset(ss[..n]);
    }
  }

  lemma TwiceCounts(ss: seq<string>, i: nat, j: nat)
    requires i < j < |ss| && ss[i] == ss[j]
    ensures multiset(ss)[ss[i]] >= 2
  {
    assert ss == ss[..i] + [ss[i]] + ss[i + 1..j] + [ss[j]] + ss[j + 1..];
  }

  // ---- what a recount leaves in each line ----

  ghost predicate AllLines(lines: seq<string>) {
    forall i | 0 <= i < |lines| :: OneLine(lines[i])
  }

  /** A row that is rewritten and keeps its count, because the scan for counts does not reach it. */
  predicate Stuck(line: string, counts: Counts) {
    Stale(line, counts) && !Reached(line)
  }

  ghost predicate AllReached(lines: seq<string>, counts: Counts) {
    forall i | 0 <= i < |lines| :: !Stuck(lines[i], counts)
  }

  ghost predicate CountsAgree(lines: seq<string>, counts: Counts) {
    forall i | 0 <= i < |lines| :: !Stale(lines[i], counts)
  }

  /** The first total line, the one that a reader and the next run find, is this one. */
  ghost predicate FirstTotalIs(lines: seq<string>, total: string) {
    exists t | 0 <= t < |lines| :: lines[t] == total && forall j | 0 <= j < t :: !IsTotal(lines[j])
  }

  lemma RowIsNoTotal(line: string)
    ensures IsRow(line) ==> !IsTotal(line)
  {
    hide CellAt, ReadRow;
  }

  lemma RecountedAgrees(line: string, counts: Counts)
    requires OneLine(line)
    ensures var r := Recounted(line, counts);
      && OneLine(r) && (Stale(r, counts) <==> Stuck(line, counts)) && (IsTotal(r) <==> IsTotal(line))
      && forall p :: Names(r, p) <==> Names(line, p)
  {
    hide IsRow, PathOf, DigitsOf, ReplaceCounts, Reached, IsTotal, NatText, NatValue, Scanned, IsNumber;
    if Stale(line, counts) {
      var n := Scanned(counts, PathOf(line));
      ScannedIsCards(counts, PathOf(line));
      CountReadsBack(n);
      RowRewritten(line, NatText(n));
      ReplaceOneLine(line, NatText(n));
      RowIsNoTotal(line);
      RowIsNoTotal(Recounted(line, counts));
    }
  }

  lemma ScannedIsCards(counts: Counts, path: string)
    ensures Scanned(counts, path) <= MAX64
  {
  }

  lemma RefreshedAgrees(lines: seq<string>, counts: Counts, total: string)
    requires AllLines(lines) && IsTotal(total) && OneLine(total)
    ensures var r := Refreshed(lines, counts, total);
      && AllLines(r) && FirstTotalIs(r, total) && (CountsAgree(r, counts) <==> AllReached(lines, counts))
      && forall p :: HasRow(r, p) <==> HasRow(lines, p)
  {
    hide IsTotal, Stale, Names, Stuck, OneLine;
    var mid, r := RecountedRows(lines, counts), Refreshed(lines, counts, total);
    forall i | 0 <= i < |lines|
      ensures OneLine(mid[i]) && (Stale(mid[i], counts) <==> Stuck(lines[i], counts))
      ensures forall p :: Names(mid[i], p) <==> Names(lines[i], p)
    {
      RecountedAgrees(lines[i], counts);
    }
    hide Recounted, RecountedRows;
    WithTotalAgrees(mid, counts, total);
    forall p ensures HasRow(mid, p) <==> HasRow(lines, p) {
      if HasRow(lines, p) {
        var i :| 0 <= i < |lines| && Names(lines[i], p);
        assert Names(mid[i], p);
      }
    }
  }

  /** Neither a total line nor an empty one is a row. */
  lemma PlainLines(total: string, counts: Counts)
    requires IsTotal(total)
    ensures !Stale(total, counts) && !Stale("", counts) && forall p :: !Names(total, p) && !Names("", p)
    ensures OneLine("") && !IsTotal("")
  {
    RowIsNoTotal(total);
  }

  lemma WithTotalAgrees(mid: seq<string>, counts: Counts, total: string)
    requires AllLines(mid) && IsTotal(total) && OneLine(total)
    ensures var r := WithTotal(mid, total);
      && AllLines(r) && FirstTotalIs(r, total) && (CountsAgree(r, counts) <==> CountsAgree(mid, counts))
      && forall p :: HasRow(r, p) <==> HasRow(mid, p)
  {
    PlainLines(total, counts);
    hide IsTotal, Stale, Names, OneLine;
    var t := FirstFrom(mid, IsTotal, 0);
    if t >= 0 {
      TotalPut(mid, t, counts, total);
    } else {
      TotalAppended(mid, if mid != [] && mid[|mid| - 1] != "" then [""] else [], counts, total);
      assert mid + [] == mid;
    }
  }

  lemma TotalPut(mid: seq<string>, t: nat, counts: Counts, total: string)
    requires t < |mid| && IsTotal(mid[t]) && (forall j | 0 <= j < t :: !IsTotal(mid[j]))
    requires AllLines(mid) && IsTotal(total) && OneLine(total)
    ensures var r := mid[t := total];
      && AllLines(r) && FirstTotalIs(r, total) && (CountsAgree(r, counts) <==> CountsAgree(mid, counts))
      && forall p :: HasRow(r, p) <==> HasRow(mid, p)
  {
    PlainLines(total, counts);
    PlainLines(mid[t], counts);
    hide IsTotal, Stale, Names, OneLine;
    var r := mid[t := total];
    assert r[t] == total;
    if CountsAgree(r, counts) {
      forall i | 0 <= i < |mid| ensures !Stale(mid[i], counts) { assert i != t ==> r[i] == mid[i]; }
    }
    forall p ensures HasRow(r, p) <==> HasRow(mid, p) {
      if HasRow(mid, p) {
        var i :| 0 <= i < |mid| && Names(mid[i], p);
        assert Names(r[i], p);
      }
      if HasRow(r, p) {
        var i :| 0 <= i < |r| && Names(r[i], p);
        assert Names(mid[i], p);
      }
    }
  }

  lemma TotalAppended(mid: seq<string>, gap: seq<string>, counts: Counts, total: string)
    requires (gap == [] || gap == [""]) && forall j | 0 <= j < |mid| :: !IsTotal(mid[j])
    requires AllLines(mid) && IsTotal(total) && OneLine(total)
    ensures var r := mid + gap + [total];
      && AllLines(r) && FirstTotalIs(r, total) && (CountsAgree(r, counts) <==> CountsAgree(mid, counts))
      && forall p :: HasRow(r, p) <==> HasRow(mid, p)
  {
    PlainLines(total, counts);
    hide IsTotal, Stale, Names, OneLine;
    var front := mid + gap;
    if gap == [] { assert front == mid; } else { LineAppended(mid, "", counts); }
    LineAppended(front, total, counts);
    assert (front + [total])[|front|] == total && forall j | 0 <= j < |front| :: (front + [total])[j] == front[j];
  }

  lemma LineAppended(lines: seq<string>, line: string, counts: Counts)
    requires AllLines(lines) && OneLine(line) && !Stale(line, counts) && forall p :: !Names(line, p)
    ensures var r := lines + [line];
      AllLines(r) && (CountsAgree(r, counts) <==> CountsAgree(lines, counts)) && forall p :: HasRow(r, p) <==> HasRow(lines, p)
  {
    hide Stale, Names, OneLine;
    var r := lines + [line];
    if CountsAgree(r, counts) {
      forall i | 0 <= i < |lines| ensures !Stale(lines[i], counts) { assert r[i] == lines[i]; }
    }
    forall p ensures HasRow(r, p) <==> HasRow(lines, p) {
      if HasRow(lines, p) {
        var i :| 0 <= i < |lines| && Names(lines[i], p);
        assert r[i] == lines[i];
      }
    }
  }

  /** Lines put in between keep every row, agreeing counts and, if none is a total, the first total. */
  lemma FilledAgrees(lines: seq<string>, at: nat, rows: seq<string>, counts: Counts, total: string)
    requires at <= |lines|
    ensures var r := Filled(lines, at, rows);
      && (forall p :: HasRow(r, p) <==> HasRow(lines, p) || HasRow(rows, p))
      && (CountsAgree(r, counts) <==> CountsAgree(lines, counts) && CountsAgree(rows, counts))
      && (FirstTotalIs(lines, total) && (forall i | 0 <= i < |rows| :: !IsTotal(rows[i])) ==> FirstTotalIs(r, total))
  {
    hide Stale, IsTotal, Names;
    var r, n := Filled(lines, at, rows), |rows|;
    FilledAt(lines, at, rows);
    hide Filled;
    if FirstTotalIs(lines, total) && forall i | 0 <= i < |rows| :: !IsTotal(rows[i]) {
      var t :| 0 <= t < |lines| && lines[t] == total && forall j | 0 <= j < t :: !IsTotal(lines[j]);
      assert r[if t < at then t else t + n] == total;
    }
    forall p ensures HasRow(r, p) <==> HasRow(lines, p) || HasRow(rows, p) {
      FilledRows(lines, at, rows, r, p);
    }
    if CountsAgree(r, counts) {
      forall i | 0 <= i < |lines| ensures !Stale(lines[i], counts) { assert r[if i < at then i else i + n] == lines[i]; }
      forall i | 0 <= i < n ensures !Stale(rows[i], counts) { assert r[at + i] == rows[i]; }
    }
  }

  lemma FilledAt(lines: seq<string>, at: nat, rows: seq<string>)
    requires at <= |lines|
    ensures var r := Filled(lines, at, rows);
      |r| == |lines| + |rows|
      && (forall i | 0 <= i < at :: r[i] == lines[i])
      && (forall i {:trigger r[i]} | at <= i < at + |rows| :: r[i] == rows[i - at])
      && (forall i {:trigger r[i]} | at + |rows| <= i < |r| :: r[i] == lines[i - |rows|])
  {
  }

  lemma FilledRows(lines: seq<string>, at: nat, rows: seq<string>, r: seq<string>, p: string)
    requires at <= |lines| && |r| == |lines| + |rows|
    requires forall i | 0 <= i < at :: r[i] == lines[i]
    requires forall i {:trigger r[i]} | at <= i < at + |rows| :: r[i] == rows[i - at]
    requires forall i {:trigger r[i]} | at + |rows| <= i < |r| :: r[i] == lines[i - |rows|]
    ensures HasRow(r, p) <==> HasRow(lines, p) || HasRow(rows, p)
  {
    hide Names;
    if HasRow(lines, p) {
      var i :| 0 <= i < |lines| && Names(lines[i], p);
      var k := if i < at then i else i + |rows|;
      assert r[k] == lines[i];
    }
    if HasRow(rows, p) {
      var i :| 0 <= i < |rows| && Names(rows[i], p);
      var k := at + i;
      assert r[k] == rows[k - at];
    }
  }

  // ---- the index agrees with the scan ----

  predicate AllReadable(paths: set<string>) {
    forall p | p in paths :: Readable(p)
  }

  /** The new row of a readable path: one line, with its path and count, and no total. */
  lemma NewRowReads(path: string, counts: Counts, titles: Titles)
    requires Readable(path)
    ensures var r := NewRow(path, counts, titles);
      OneLine(r) && Names(r, path) && !Stale(r, counts) && !IsTotal(r)
  {
    ScannedIsCards(counts, path);
    CountReadsBack(Scanned(counts, path));
    NewRowOneLine(path, counts, titles);
    hide RowText, NatText, NatValue, Reached, IsTotal, DigitsOf, PathOf, IsRow, Label;
    PrintedReadsBack(path, NatText(Scanned(counts, path)), if path in titles then titles[path] else DisplayName(path));
    RowIsNoTotal(NewRow(path, counts, titles));
  }

  lemma NewRowOneLine(path: string, counts: Counts, titles: Titles)
    requires OneLine(path)
    ensures OneLine(NewRow(path, counts, titles))
  {
    CutChars(path, '/', '\n');
    CountReadsBack(0);
    assert !IsDigit('\n');
    assert OneLine(NatText(Scanned(counts, path)));
    hide NatText;
    assert OneLine(Category(path)) && OneLine(DisplayName(path));
  }

  lemma NewRowsRead(paths: seq<string>, counts: Counts, titles: Titles)
    requires forall p | p in paths :: Readable(p)
    ensures var rows := NewRows(paths, counts, titles);
      && AllLines(rows) && CountsAgree(rows, counts)
      && (forall i | 0 <= i < |rows| :: !IsTotal(rows[i]))
      && forall p :: HasRow(rows, p) <==> p in paths
  {
    hide Names, Stale, Reached, IsTotal, OneLine, Readable, NewRow;
    var rows := NewRows(paths, counts, titles);
    forall i | 0 <= i < |rows|
      ensures OneLine(rows[i]) && Names(rows[i], paths[i]) && !Stale(rows[i], counts) && !IsTotal(rows[i])
    {
      NewRowReads(paths[i], counts, titles);
    }
    forall p ensures HasRow(rows, p) <==> p in paths {
      if p in paths {
        var i :| 0 <= i < |paths| && paths[i] == p;
        assert Names(rows[i], p);
      }
      if HasRow(rows, p) {
        var i :| 0 <= i < |rows| && Names(rows[i], p);
        NamesOne(rows[i], p, paths[i]);
      }
    }
  }

  lemma NamesOne(line: string, p: string, q: string)
    requires Names(line, p) && Names(line, q)
    ensures p == q
  {
  }

  /** The lines of the written file when it is read again. */
  lemma Reread(lines: seq<string>, at: nat, rows: seq<string>)
    requires AllLines(lines) && at <= |lines|
    ensures RawLines(JoinLines(Filled(lines, at, rows))) == Filled(lines, at, Pieces(rows))
  {
    hide RawLines, JoinLines;
    RawLinesOfTexts(lines[..at] + rows + lines[at..]);
    PiecesOfSum(lines[..at] + rows, lines[at..]);
    PiecesOfSum(lines[..at], rows);
    PiecesOfLines(lines[..at]);
    PiecesOfLines(lines[at..]);
  }

  /** Read again after the run: when all names that were added read back, there is a row for exactly
      the files that had one or have cards, and the total line states the sum. Every row states the
      number of cards scanned in its file, 0 when there are none, exactly when all counts are reached. */
  lemma IndexAgrees(content: string, counts: Counts, titles: Titles, today: OneLiner)
    requires AllReadable(Missing(RawLines(content), counts))
    ensures var lines, again := RawLines(content), RawLines(Index(content, counts, titles, today));
      && again == IndexLines(lines, counts, titles, today)
      && FirstTotalIs(again, TotalLine(Sum(counts), today))
      && (CountsAgree(again, counts) <==> AllReached(lines, counts))
      && forall p :: HasRow(again, p) <==> HasRow(lines, p) || p in counts
  {
    hide RawLines, JoinLines, NewRows, TotalLine, Sum, HasRow, CountsAgree, Refreshed, Filled, Place;
    var lines, total := RawLines(content), TotalLine(Sum(counts), today);
    TotalLineIsTotal(Sum(counts), today);
    RefreshedAgrees(lines, counts, total);
    var mid, missing := Refreshed(lines, counts, total), Missing(lines, counts);
    var rows := NewRows(SortedKeys(missing), counts, titles);
    NewRowsRead(SortedKeys(missing), counts, titles);
    FilledAgrees(mid, Place(mid), rows, counts, total);
    Reread(mid, Place(mid), rows);
    PiecesOfLines(rows);
  }

  /** A row for the path, with this count. */
  ghost predicate HasCount(lines: seq<string>, path: string, n: nat) {
    exists i | 0 <= i < |lines| :: Names(lines[i], path) && CountOf(lines[i]) == n
  }

  /** A row for the path that states the right count or gets it. */
  ghost predicate Settled(lines: seq<string>, path: string, counts: Counts) {
    exists i | 0 <= i < |lines| :: Names(lines[i], path) && !Stuck(lines[i], counts)
  }

  lemma SettledHasCount(lines: seq<string>, path: string, counts: Counts, total: string)
    requires AllLines(lines) && Settled(lines, path, counts) && IsTotal(total)
    ensures HasCount(Refreshed(lines, counts, total), path, Scanned(counts, path))
  {
    hide IsRow, PathOf, CountOf, Scanned, Reached, IsTotal;
    var i :| 0 <= i < |lines| && Names(lines[i], path) && !Stuck(lines[i], counts);
    RecountedAgrees(lines[i], counts);
    var mid := RecountedRows(lines, counts);
    assert Names(mid[i], path) && CountOf(mid[i]) == Scanned(counts, path);
    hide Recounted, RecountedRows;
    RowStays(mid, total, i);
  }

  lemma RowStays(mid: seq<string>, total: string, i: nat)
    requires i < |mid| && IsRow(mid[i])
    ensures i < |WithTotal(mid, total)| && WithTotal(mid, total)[i] == mid[i]
  {
    hide IsRow, IsTotal;
    RowIsNoTotal(mid[i]);
  }

  /** Whatever other names there are: a file whose row could be settled, or that had none and whose
      name reads back, has a row with the right count afterwards. */
  lemma ReadableHasCount(content: string, counts: Counts, titles: Titles, today: OneLiner, path: string)
    requires Settled(RawLines(content), path, counts) || (path in Missing(RawLines(content), counts) && Readable(path))
    ensures HasCount(RawLines(Index(content, counts, titles, today)), path, Scanned(counts, path))
  {
    hide RawLines, JoinLines, TotalLine, Sum, HasRow, CountsAgree, Refreshed, Filled, Place, Readable, Names, Settled, Missing;
    var lines, total := RawLines(content), TotalLine(Sum(counts), today);
    TotalLineIsTotal(Sum(counts), today);
    RefreshedAgrees(lines, counts, total);
    var mid, missing := Refreshed(lines, counts, total), Missing(lines, counts);
    var paths := SortedKeys(missing);
    var rows := NewRows(paths, counts, titles);
    Reread(mid, Place(mid), rows);
    if Settled(lines, path, counts) {
      SettledHasCount(lines, path, counts, total);
    } else {
      var i :| 0 <= i < |paths| && paths[i] == path;
      NewRowReads(path, counts, titles);
      CutPlain(rows[i], '\n');
      PiecesKept(rows, i, rows[i]);
      RowIsCounted(Pieces(rows), rows[i], path, counts);
    }
    CountKept(mid, Place(mid), Pieces(rows), path, Scanned(counts, path));
  }

  lemma RowIsCounted(lines: seq<string>, line: string, path: string, counts: Counts)
    requires line in lines && Names(line, path) && !Stale(line, counts)
    ensures HasCount(lines, path, Scanned(counts, path))
  {
  }

  lemma CountKept(lines: seq<string>, at: nat, rows: seq<string>, path: string, n: nat)
    requires at <= |lines| && (HasCount(lines, path, n) || HasCount(rows, path, n))
    ensures HasCount(Filled(lines, at, rows), path, n)
  {
    hide IsRow, PathOf, CountOf;
    var r := Filled(lines, at, rows);
    FilledAt(lines, at, rows);
    hide Filled;
    if HasCount(lines, path, n) {
      var i :| 0 <= i < |lines| && Names(lines[i], path) && CountOf(lines[i]) == n;
      assert r[if i < at then i else i + |rows|] == lines[i];
    } else {
      var i :| 0 <= i < |rows| && Names(rows[i], path) && CountOf(rows[i]) == n;
      assert r[at + i] == rows[i];
    }
  }

  // ---- the second run ----

  /** A name that holds a ')' or a newline is never read from any line. */
  lemma NeverRead(lines: seq<string>, path: string)
    requires AllLines(lines) && (')' in path || !OneLine(path))
    ensures !HasRow(lines, path)
  {
    hide IsRow, PathOf;
    forall i | 0 <= i < |lines| ensures !Names(lines[i], path) {
      if IsRow(lines[i]) { ReadPathPlain(lines[i]); }
    }
  }

  /** Of the other names that do not read back, the row of none is read as one that is not longer. */
  lemma UnreadableNamesLonger(path: string, counts: Counts, titles: Titles, other: string)
    requires !Readable(path) && ')' !in path && OneLine(path) && |other| <= |path|
    ensures !Names(NewRow(path, counts, titles), other)
  {
    ScannedIsCards(counts, path);
    CountReadsBack(Scanned(counts, path));
    if path == "" { EmptyIsUnbracketed(); }
    hide RowText, NatText, NatValue, Bracketed, Label, IsRow, PathOf, IsNumber;
    if IsRow(NewRow(path, counts, titles)) {
      UnreadableReadsLonger(path, NatText(Scanned(counts, path)),
        if path in titles then titles[path] else DisplayName(path));
    }
  }

  lemma EmptyIsUnbracketed()
    ensures !Bracketed(Label(""))
  {
    assert Cut("", '/') == [[]];
    OrdinaryNames("");
  }

  /** If some name does not read back, some name is missing again: one that can never be read, or
      else the shortest one. */
  lemma SomeStaysMissing(paths: seq<string>, counts: Counts, titles: Titles, bad: string)
    returns (u: string)
    requires bad in paths && !Readable(bad)
    ensures u in paths && !HasRow(Pieces(NewRows(paths, counts, titles)), u)
  {
    hide Readable, NewRow, Names, IsRow, PathOf;
    var rows := NewRows(paths, counts, titles);
    if exists p | p in paths :: ')' in p || !OneLine(p) {
      u :| u in paths && (')' in u || !OneLine(u));
      forall i | 0 <= i < |Pieces(rows)| ensures OneLine(Pieces(rows)[i]) { InPieces(rows, Pieces(rows)[i]); }
      NeverRead(Pieces(rows), u);
    } else {
      u := ShortestBad(paths, bad);
      forall i | 0 <= i < |rows| ensures OneLine(rows[i]) && !Names(rows[i], u) {
        NewRowOneLine(paths[i], counts, titles);
        if Readable(paths[i]) {
          NewRowReads(paths[i], counts, titles);
          if Names(rows[i], u) { NamesOne(rows[i], u, paths[i]); }
        } else {
          UnreadableNamesLonger(paths[i], counts, titles, u);
        }
      }
      PiecesOfLines(rows);
    }
  }

  lemma {:induction false} ShortestBad(paths: seq<string>, bad: string) returns (u: string)
    requires bad in paths && !Readable(bad)
    ensures u in paths && !Readable(u)
    ensures forall p | p in paths && !Readable(p) :: |u| <= |p|
    decreases |bad|
  {
    hide Readable;
    if p :| p in paths && !Readable(p) && |p| < |bad| {
      u := ShortestBad(paths, p);
    } else {
      u := bad;
    }
  }

  /** A second run on the same day changes nothing, updates nothing and adds nothing exactly when
      every name that was added reads back and every wrong count was reached. If some name does not
      read back, it changes the file. */
  lemma SecondRunIsIdleExactly(content: string, counts: Counts, titles: Titles, today: OneLiner)
    ensures var lines, r := RawLines(content), Index(content, counts, titles, today);
      && (Index(r, counts, titles, today) == r && UpdatedPaths(RawLines(r), counts) == [] && Missing(RawLines(r), counts) == {}
          <==> AllReadable(Missing(lines, counts)) && AllReached(lines, counts))
      && (!AllReadable(Missing(lines, counts)) ==> Index(r, counts, titles, today) != r)
  {
    hide RawLines, JoinLines, NewRows, TotalLine, Sum, HasRow, Readable, SortedKeys, AllReached;
    var lines := RawLines(content);
    if AllReadable(Missing(lines, counts)) {
      SecondRunIdle(content, counts, titles, today);
    } else {
      var bad :| bad in Missing(lines, counts) && !Readable(bad);
      SecondRunAdds(content, counts, titles, today, bad);
    }
  }

  lemma SecondRunIdle(content: string, counts: Counts, titles: Titles, today: OneLiner)
    requires AllReadable(Missing(RawLines(content), counts))
    ensures var r := Index(content, counts, titles, today);
      && Missing(RawLines(r), counts) == {}
      && (UpdatedPaths(RawLines(r), counts) == [] <==> AllReached(RawLines(content), counts))
      && (AllReached(RawLines(content), counts) ==> Index(r, counts, titles, today) == r)
  {
    hide RawLines, JoinLines, TotalLine, Sum, HasRow, Readable, CountsAgree, FirstTotalIs, AllReadable, AllReached;
    hide IndexLines, UpdatedPaths;
    var r := Index(content, counts, titles, today);
    IndexAgrees(content, counts, titles, today);
    assert Missing(RawLines(r), counts) == {};
    UpdatedExactly(RawLines(r), counts);
    if AllReached(RawLines(content), counts) { NothingToDo(RawLines(r), counts, titles, today); }
  }

  lemma NothingToDo(lines: seq<string>, counts: Counts, titles: Titles, today: OneLiner)
    requires FirstTotalIs(lines, TotalLine(Sum(counts), today)) && CountsAgree(lines, counts)
    requires Missing(lines, counts) == {}
    ensures IndexLines(lines, counts, titles, today) == lines
  {
    hide TotalLine, Sum, Missing, CountsAgree, FirstTotalIs, Filled, Place, Refreshed;
    TotalLineIsTotal(Sum(counts), today);
    RefreshedAlready(lines, counts, TotalLine(Sum(counts), today));
    SortedKeysEmpty({});
    FilledWithNone(lines, Place(lines));
    assert NewRows([], counts, titles) == [];
  }

  lemma SortedKeysEmpty(keys: set<string>)
    ensures SortedKeys(keys) == [] <==> keys == {}
  {
    var r := SortedKeys(keys);
    assert r != [] ==> r[0] in r;
    assert forall k | k in keys :: k in r;
  }

  lemma RefreshedAlready(lines: seq<string>, counts: Counts, total: string)
    requires IsTotal(total) && FirstTotalIs(lines, total) && CountsAgree(lines, counts)
    ensures Refreshed(lines, counts, total) == lines
  {
    hide IsTotal, Stale;
    assert RecountedRows(lines, counts) == lines;
  }

  lemma {:induction false} UpdatedExactly(lines: seq<string>, counts: Counts)
    ensures UpdatedPaths(lines, counts) == [] <==> CountsAgree(lines, counts)
  {
    hide Stale;
    if lines != [] {
      var front := lines[..|lines| - 1];
      UpdatedExactly(front, counts);
      if CountsAgree(lines, counts) {
        forall i | 0 <= i < |front| ensures !Stale(front[i], counts) { assert front[i] == lines[i]; }
      }
    }
  }

  lemma SecondRunAdds(content: string, counts: Counts, titles: Titles, today: OneLiner, bad: string)
    requires bad in Missing(RawLines(content), counts) && !Readable(bad)
    ensures var r := Index(content, counts, titles, today); Index(r, counts, titles, today) != r
  {
    hide RawLines, JoinLines, NewRows, TotalLine, Sum, HasRow, Readable, CountsAgree, Filled, Place, Refreshed;
    var lines, total := RawLines(content), TotalLine(Sum(counts), today);
    TotalLineIsTotal(Sum(counts), today);
    RefreshedAgrees(lines, counts, total);
    var mid, paths := Refreshed(lines, counts, total), SortedKeys(Missing(lines, counts));
    var rows := NewRows(paths, counts, titles);
    var r := Index(content, counts, titles, today);
    var again := RawLines(r);
    Reread(mid, Place(mid), rows);
    var u := SomeStaysMissing(paths, counts, titles, bad);
    FilledAgrees(mid, Place(mid), Pieces(rows), counts, total);
    assert u in Missing(again, counts);
    LongerWithRows(again, counts, titles, today);
  }

  /** A run that misses a file writes more lines than it read. */
  lemma LongerWithRows(lines: seq<string>, counts: Counts, titles: Titles, today: OneLiner)
    requires Missing(lines, counts) != {}
    ensures |RawLines(JoinLines(IndexLines(lines, counts, titles, today)))| > |lines|
  {
    hide RawLines, JoinLines, TotalLine, Sum, HasRow, RecountedRows, Place, IsTotal, Missing, NewRow;
    SortedKeysEmpty(Missing(lines, counts));
    var written := IndexLines(lines, counts, titles, today);
    assert |written| > |lines|;
    RawLinesOfTexts(written);
  }

  /** A file name with a closing parenthesis does not read back: every run adds its row again. */
  lemma ClosingParenthesisIsAddedAgain(titles: Titles, today: OneLiner)
    ensures var counts: Counts := map["a).md" := 1];
      var r := Index("", counts, titles, today); Index(r, counts, titles, today) != r
  {
    var counts: Counts := map["a).md" := 1];
    assert "a).md"[1] == ')';
    NoLines();
    hide RawLines;
    assert "a).md" in Missing([], counts) && !Readable("a).md");
    SecondRunIsIdleExactly("", counts, titles, today);
  }

  lemma NoLines()
    ensures RawLines("") == []
  {
  }

  /** So is one with a newline, whose row is torn apart. */
  lemma NewlineIsAddedAgain(titles: Titles, today: OneLiner)
    ensures var counts: Counts := map["a\nb.md" := 1];
      var r := Index("", counts, titles, today); Index(r, counts, titles, today) != r
  {
    var counts: Counts := map["a\nb.md" := 1];
    assert "a\nb.md"[1] == '\n';
    NoLines();
    hide RawLines;
    assert "a\nb.md" in Missing([], counts) && !Readable("a\nb.md");
    SecondRunIsIdleExactly("", counts, titles, today);
  }
}
