/** Lines of the knowledge-base index as they are written, pkg/kb/kb.go. */
module KbExamples {
  import opened Text
  import opened Lines
  import opened Decimal
  import opened KbRows
  import opened KbIndex

  // ---- rows ----

  predicate AllBlank(s: string) {
    forall c | c in s :: Blank(c)
  }

  /** The parts of a row: category, link and count, with blanks between them. */
  datatype Parts = Parts(
    category: string, gap: string, shown: string, path: string, left: string, before: string, digits: string,
    behind: string, rest: string)

  predicate RowParts(p: Parts) {
    && p.category != "" && '|' !in p.category && p.shown != "" && ']' !in p.shown && p.path != "" && ')' !in p.path
    && IsNumber(p.digits) && AllBlank(p.gap) && AllBlank(p.left) && AllBlank(p.before) && AllBlank(p.behind)
  }

  function LinkText(p: Parts, tail: string): string {
    "|" + (p.gap + ("[" + (p.shown + ("](" + (p.path + (")" + tail))))))
  }

  function CountText(p: Parts): string {
    p.left + ("|" + (p.before + (p.digits + (p.behind + ("|" + p.rest)))))
  }

  function Assembled(p: Parts): string {
    "|" + (p.category + LinkText(p, CountText(p)))
  }

  /** A line is a row for a path with a count exactly when it is put together from such parts. */
  lemma RowExactly(line: string, path: string, digits: string)
    ensures IsRow(line) && PathOf(line) == path && DigitsOf(line) == digits <==>
      exists p :: RowParts(p) && p.path == path && p.digits == digits && line == Assembled(p)
  {
    hide IsRow, PathOf, DigitsOf, RowParts, Assembled;
    if IsRow(line) && PathOf(line) == path && DigitsOf(line) == digits { var p := PartsOf(line); }
    if exists p :: RowParts(p) && p.path == path && p.digits == digits && line == Assembled(p) {
      var p :| RowParts(p) && p.path == path && p.digits == digits && line == Assembled(p);
      AssembledReads(p);
    }
  }

  lemma PartsOf(line: string) returns (p: Parts)
    requires IsRow(line)
    ensures RowParts(p) && line == Assembled(p) && p.path == PathOf(line) && p.digits == DigitsOf(line)
  {
    hide *;
    var x := ReadIsSpotted(line);
    ReadsMeans(line, line[x.link.q + 2..x.link.r], line[x.count.d..x.count.e], x.count.d);
    p := PartsAt(line, x);
  }

  lemma ReadsMeans(line: string, path: string, digits: string, n: nat)
    requires IsRow(line) && Reads(line, path, digits, n)
    ensures PathOf(line) == path && DigitsOf(line) == digits
  {
    hide IsRow, PathOf, DigitsOf, OwnCount;
  }

  lemma PartsAt(line: string, x: Spots) returns (p: Parts)
    requires Spotted(line, x)
    ensures RowParts(p) && line == Assembled(p)
    ensures x.link.q + 2 < x.link.r < x.count.d < x.count.e < |line|
    ensures p.path == line[x.link.q + 2..x.link.r] && p.digits == line[x.count.d..x.count.e]
  {
    hide *;
    SpotsInOrder(line, x);
    BarIsBehind(line, x.j);
    p := Parts(line[1..x.j], line[x.j + 1..x.link.n], line[x.link.n + 1..x.link.q], line[x.link.q + 2..x.link.r],
      line[x.link.r + 1..x.count.m], line[x.count.m + 1..x.count.d], line[x.count.d..x.count.e],
      line[x.count.e..x.count.f], line[x.count.f + 1..]);
    CategoryPart(line, x, p);
    LinkParts(line, x, p);
    CountParts(line, x, p);
    PartsFit(line, p, x.j, x.link.r);
  }

  lemma BarIsBehind(line: string, j: nat)
    requires Barred(line, j)
    ensures j >= 2
  {
  }

  lemma PartsFit(line: string, p: Parts, j: nat, r: nat)
    requires j < r < |line| && line[0..] == "|" + (p.category + line[j..])
    requires line[j..] == LinkText(p, line[r + 1..]) && line[r + 1..] == CountText(p)
    requires p.category != "" && '|' !in p.category && LinkIsFine(p) && CountIsFine(p)
    ensures RowParts(p) && line == Assembled(p)
  {
    hide LinkText, CountText, IsNumber, AllBlank;
    assert line[0..] == line;
  }

  predicate LinkIsFine(p: Parts) {
    AllBlank(p.gap) && p.shown != "" && ']' !in p.shown && p.path != "" && ')' !in p.path
  }

  predicate CountIsFine(p: Parts) {
    IsNumber(p.digits) && AllBlank(p.left) && AllBlank(p.before) && AllBlank(p.behind)
  }

  lemma CategoryPart(line: string, x: Spots, p: Parts)
    requires Barred(line, x.j) && p.category == line[1..x.j]
    ensures line[0..] == "|" + (p.category + line[x.j..]) && p.category != "" && '|' !in p.category
  {
    Cut2(line, 1, x.j);
    assert line[0..] == [line[0]] + line[1..];
  }

  /** A slice and what follows it. */
  lemma Cut2(line: string, a: nat, b: nat)
    requires a <= b <= |line|
    ensures line[a..b] + line[b..] == line[a..]
    ensures a < |line| ==> [line[a]] + line[a + 1..] == line[a..]
  {
  }

  /** Where the marks of the link stand, and what is between them. */
  predicate LinkSlices(line: string, j: nat, l: Link, p: Parts) {
    && j < l.n && l.n < l.q && l.q + 1 < l.r < |line|
    && line[j] == '|' && line[l.n] == '[' && line[l.q] == ']' && line[l.q + 1] == '(' && line[l.r] == ')'
    && p.gap == line[j + 1..l.n] && p.shown == line[l.n + 1..l.q] && p.path == line[l.q + 2..l.r]
  }

  predicate CountSlices(line: string, i: nat, c: Count, p: Parts) {
    && i <= c.m < c.d <= c.e <= c.f < |line| && line[c.m] == '|' == line[c.f]
    && p.left == line[i..c.m] && p.before == line[c.m + 1..c.d] && p.digits == line[c.d..c.e] && p.behind == line[c.e..c.f]
  }

  lemma LinkParts(line: string, x: Spots, p: Parts)
    requires LinkFrom(line, x.j, x.link) && p.gap == line[x.j + 1..x.link.n] && p.shown == line[x.link.n + 1..x.link.q]
    requires p.path == line[x.link.q + 2..x.link.r]
    ensures line[x.j..] == LinkText(p, line[x.link.r + 1..]) && LinkIsFine(p)
  {
    LinkChars(line, x.j, x.link, p);
    LinkJoined(line, x.j, x.link, p);
  }

  lemma LinkChars(line: string, j: nat, l: Link, p: Parts)
    requires LinkSlices(line, j, l, p)
    ensures LinkFrom(line, j, l) <==> LinkIsFine(p)
  {
    hide Blank;
    assert forall k {:trigger line[k]} | j < k < l.n :: line[k] == p.gap[k - j - 1];
    assert forall k {:trigger line[k]} | l.n < k < l.q :: line[k] == p.shown[k - l.n - 1];
    assert forall k {:trigger line[k]} | l.q + 2 <= k < l.r :: line[k] == p.path[k - l.q - 2];
    if LinkIsFine(p) {
      forall k | j < k < l.n ensures Blank(line[k]) { assert p.gap[k - j - 1] in p.gap; }
      forall k | l.n < k < l.q ensures line[k] != ']' { assert p.shown[k - l.n - 1] in p.shown; }
      forall k | l.q + 2 <= k < l.r ensures line[k] != ')' { assert p.path[k - l.q - 2] in p.path; }
    }
  }

  lemma LinkJoined(line: string, j: nat, l: Link, p: Parts)
    requires LinkSlices(line, j, l, p)
    ensures line[j..] == LinkText(p, line[l.r + 1..])
  {
    hide *;
    SlicesInOrder(line, j, l, p);
    MarksInOrder(line, j, l, p);
    SevenSlices(line, j, j + 1, l.n, l.n + 1, l.q, l.q + 2, l.r, l.r + 1);
    LinkTextIs(p, line[l.r + 1..], line[j..j + 1], line[l.n..l.n + 1], line[l.q..l.q + 2], line[l.r..l.r + 1]);
  }

  lemma SlicesInOrder(line: string, j: nat, l: Link, p: Parts)
    requires LinkSlices(line, j, l, p)
    ensures j < l.n && l.n < l.q && l.q + 1 < l.r < |line|
    ensures p.gap == line[j + 1..l.n] && p.shown == line[l.n + 1..l.q] && p.path == line[l.q + 2..l.r]
  {
  }

  lemma MarksInOrder(line: string, j: nat, l: Link, p: Parts)
    requires LinkSlices(line, j, l, p)
    ensures j < l.n && l.n < l.q && l.q + 1 < l.r < |line|
    ensures line[j..j + 1] == "|" && line[l.n..l.n + 1] == "[" && line[l.q..l.q + 2] == "](" && line[l.r..l.r + 1] == ")"
  {
  }

  lemma LinkTextIs(p: Parts, tail: string, bar: string, open: string, middle: string, close: string)
    requires bar == "|" && open == "[" && middle == "](" && close == ")"
    ensures LinkText(p, tail) == bar + (p.gap + (open + (p.shown + (middle + (p.path + (close + tail))))))
  {
  }

  lemma Slice(line: string, a: nat, b: nat)
    requires a <= b <= |line|
    ensures line[a..b] + line[b..] == line[a..]
  {
  }

  lemma SevenSlices(line: string, a: nat, b: nat, c: nat, d: nat, e: nat, f: nat, g: nat, h: nat)
    requires a <= b <= c <= d <= e <= f <= g <= h <= |line|
    ensures line[a..] ==
      line[a..b] + (line[b..c] + (line[c..d] + (line[d..e] + (line[e..f] + (line[f..g] + (line[g..h] + line[h..]))))))
  {
    Slice(line, g, h);
    Slice(line, f, g);
    Slice(line, e, f);
    Slice(line, d, e);
    Slice(line, c, d);
    Slice(line, b, c);
    Slice(line, a, b);
  }

  lemma CountParts(line: string, x: Spots, p: Parts)
    requires x.link.r < |line| && CountAt(line, x.link.r + 1, x.count) && p.left == line[x.link.r + 1..x.count.m]
    requires p.before == line[x.count.m + 1..x.count.d] && p.digits == line[x.count.d..x.count.e]
    requires p.behind == line[x.count.e..x.count.f] && p.rest == line[x.count.f + 1..]
    ensures line[x.link.r + 1..] == CountText(p) && CountIsFine(p)
  {
    CountChars(line, x.link.r + 1, x.count, p);
    CountJoined(line, x.link.r + 1, x.count, p);
  }

  lemma CountChars(line: string, i: nat, c: Count, p: Parts)
    requires CountSlices(line, i, c, p)
    ensures CountAt(line, i, c) <==> CountIsFine(p)
  {
    hide Blank, IsDigit;
    assert forall k {:trigger line[k]} | i <= k < c.m :: line[k] == p.left[k - i];
    assert forall k {:trigger line[k]} | c.m < k < c.d :: line[k] == p.before[k - c.m - 1];
    assert forall k {:trigger line[k]} | c.d <= k < c.e :: line[k] == p.digits[k - c.d];
    assert forall k {:trigger line[k]} | c.e <= k < c.f :: line[k] == p.behind[k - c.e];
    if CountIsFine(p) {
      forall k | i <= k < c.m ensures Blank(line[k]) { assert p.left[k - i] in p.left; }
      forall k | c.m < k < c.d ensures Blank(line[k]) { assert p.before[k - c.m - 1] in p.before; }
      forall k | c.d <= k < c.e ensures IsDigit(line[k]) { assert p.digits[k - c.d] in p.digits; }
      forall k | c.e <= k < c.f ensures Blank(line[k]) { assert p.behind[k - c.e] in p.behind; }
    }
  }

  lemma CountJoined(line: string, i: nat, c: Count, p: Parts)
    requires CountSlices(line, i, c, p) && p.rest == line[c.f + 1..]
    ensures line[i..] == CountText(p)
  {
    CountInOrder(line, i, c, p);
    hide *;
    SevenSlices(line, i, c.m, c.m + 1, c.d, c.e, c.f, c.f + 1, c.f + 1);
    CountTextIs(p, line[c.m..c.m + 1], line[c.f..c.f + 1], line[c.f + 1..c.f + 1]);
  }

  lemma CountInOrder(line: string, i: nat, c: Count, p: Parts)
    requires CountSlices(line, i, c, p)
    ensures i <= c.m < c.d <= c.e <= c.f < |line| && line[c.m..c.m + 1] == "|" == line[c.f..c.f + 1]
    ensures p.left == line[i..c.m] && p.before == line[c.m + 1..c.d] && p.digits == line[c.d..c.e] && p.behind == line[c.e..c.f]
  {
  }

  lemma CountTextIs(p: Parts, bar: string, last: string, nothing: string)
    requires bar == "|" == last && nothing == ""
    ensures CountText(p) == p.left + (bar + (p.before + (p.digits + (p.behind + (last + (nothing + p.rest))))))
  {
    assert nothing + p.rest == p.rest;
  }

  lemma AssembledReads(p: Parts)
    requires RowParts(p)
    ensures var line := Assembled(p); IsRow(line) && PathOf(line) == p.path && DigitsOf(line) == p.digits
  {
    var line, j := Assembled(p), |p.category| + 1;
    var l := Link(j + 1 + |p.gap|, j + 2 + |p.gap| + |p.shown|, j + 4 + |p.gap| + |p.shown| + |p.path|);
    PartsAreFine(p);
    hide *;
    CategoryReads(p, line, j);
    LinkReads(p, line, j, l);
    var c := CountReads(p, line, l.r + 1);
    RowAtPlaces(line, j, l, c);
  }

  lemma RowAtPlaces(line: string, j: nat, l: Link, c: Count)
    requires Barred(line, j) && LinkFrom(line, j, l) && CountAt(line, l.r + 1, c)
    ensures l.q + 2 < l.r < c.d < c.e < |line|
    ensures IsRow(line) && PathOf(line) == line[l.q + 2..l.r] && DigitsOf(line) == line[c.d..c.e]
  {
    hide IsRow, PathOf, DigitsOf, OwnCount, Barred, LinkFrom, CountAt;
    SpottedReads(line, Spots(j, l, c));
  }

  lemma PartsAreFine(p: Parts)
    requires RowParts(p)
    ensures p.category != "" && '|' !in p.category && LinkIsFine(p) && CountIsFine(p)
  {
    hide IsNumber, AllBlank;
  }

  /** The line goes on with this part. */
  lemma Starts(line: string, a: nat, part: string, tail: string)
    requires a <= |line| && line[a..] == part + tail
    ensures a + |part| <= |line| && line[a + |part|..] == tail && line[a..a + |part|] == part
  {
  }

  lemma SevenStarts(line: string, a: nat, p: string, q: string, r: string, s: string, t: string, u: string, v: string, w: string)
    requires a <= |line| && line[a..] == p + (q + (r + (s + (t + (u + (v + w))))))
    ensures var b := a + |p|; var c := b + |q|; var d := c + |r|; var e := d + |s|; var f := e + |t|; var g := f + |u|; var h := g + |v|;
      && h <= |line| && line[a..b] == p && line[b..c] == q && line[c..d] == r && line[d..e] == s && line[e..f] == t
      && line[f..g] == u && line[g..h] == v && line[h..] == w
  {
    var b := a + |p|;
    Starts(line, a, p, q + (r + (s + (t + (u + (v + w))))));
    Starts(line, b, q, r + (s + (t + (u + (v + w)))));
    var c := b + |q|;
    Starts(line, c, r, s + (t + (u + (v + w))));
    var d := c + |r|;
    Starts(line, d, s, t + (u + (v + w)));
    var e := d + |s|;
    Starts(line, e, t, u + (v + w));
    var f := e + |t|;
    Starts(line, f, u, v + w);
    Starts(line, f + |u|, v, w);
  }

  lemma MarkReads(line: string, a: nat, c: string)
    requires c != "" && a + |c| <= |line| && line[a..a + |c|] == c
    ensures line[a] == c[0] && (|c| > 1 ==> line[a + 1] == c[1])
  {
    assert line[a] == line[a..a + |c|][0] && (|c| > 1 ==> line[a + 1] == line[a..a + |c|][1]);
  }

  lemma CategoryReads(p: Parts, line: string, j: nat)
    requires line == Assembled(p) && j == |p.category| + 1 && p.category != "" && '|' !in p.category
    ensures j < |line| && line[j..] == LinkText(p, CountText(p)) && Barred(line, j)
  {
    var rest := LinkText(p, CountText(p));
    assert line[0..] == "|" + (p.category + rest);
    Starts(line, 0, "|", p.category + rest);
    Starts(line, 1, p.category, rest);
    assert rest[0] == '|';
    hide LinkText, CountText, Assembled;
    assert line[j..][0] == '|';
    forall k | 1 <= k < j ensures line[k] != '|' { assert line[k] == line[1..j][k - 1] && line[k] in p.category; }
  }

  lemma LinkReads(p: Parts, line: string, j: nat, l: Link)
    requires j < |line| && line[j..] == LinkText(p, CountText(p)) && LinkIsFine(p)
    requires l == Link(j + 1 + |p.gap|, j + 2 + |p.gap| + |p.shown|, j + 4 + |p.gap| + |p.shown| + |p.path|)
    ensures LinkFrom(line, j, l) && l.r < |line| && line[l.r + 1..] == CountText(p) && line[l.q + 2..l.r] == p.path
  {
    hide CountText, LinkIsFine, LinkFrom;
    SevenStarts(line, j, "|", p.gap, "[", p.shown, "](", p.path, ")", CountText(p));
    hide LinkText;
    MarkReads(line, j, "|");
    MarkReads(line, l.n, "[");
    MarkReads(line, l.q, "](");
    MarkReads(line, l.r, ")");
    LinkChars(line, j, l, p);
  }

  lemma CountReads(p: Parts, line: string, i: nat) returns (c: Count)
    requires i <= |line| && line[i..] == CountText(p) && CountIsFine(p)
    ensures CountAt(line, i, c) && line[c.d..c.e] == p.digits
  {
    hide CountIsFine, CountAt;
    var m := i + |p.left|;
    var d := m + 1 + |p.before|;
    var e := d + |p.digits|;
    var f := e + |p.behind|;
    c := Count(m, d, e, f);
    assert "|" + p.rest == "|" + ("" + p.rest) by { assert "" + p.rest == p.rest; }
    SevenStarts(line, i, p.left, "|", p.before, p.digits, p.behind, "|", "", p.rest);
    hide CountText;
    MarkReads(line, m, "|");
    MarkReads(line, f, "|");
    CountChars(line, i, c, p);
  }

  /** The row that is printed for a file in a folder, described by its first title or else by its name. */
  lemma NewRowWritten(dir: string, folders: string, name: string, counts: Counts, titles: Titles)
    requires '/' !in dir && '/' !in name && (folders == "" || folders[|folders| - 1] == '/')
    requires dir + "/" + folders + name + ".md" in counts
    ensures var path := dir + "/" + folders + name + ".md";
      NewRow(path, counts, titles) == "| " + dir + " | [" + name + "](" + path + ") | " + NatText(counts[path]) + " | "
        + (if path in titles then titles[path] else name) + " |"
  {
    var path := dir + "/" + folders + name + ".md";
    CellsOfPath(dir, folders, name);
    hide NatText, Category, DisplayName;
    Flattened(dir, name, path, NatText(counts[path]), if path in titles then titles[path] else name);
  }

  lemma Flattened(dir: string, name: string, path: string, digits: string, title: string)
    ensures "| " + (dir + " | [" + name) + "](" + path + ") | " + digits + " | " + title + " |"
      == "| " + dir + " | [" + name + "](" + path + ") | " + digits + " | " + title + " |"
  {
  }

  /** A count beyond the 64-bit numbers reads as the largest of them. */
  lemma CountIsClamped(line: string)
    requires IsRow(line)
    ensures CountOf(line) == if NatValue(DigitsOf(line)) > 9223372036854775807 then 9223372036854775807 else NatValue(DigitsOf(line))
  {
    hide IsRow, DigitsOf, NatValue;
  }

  // ---- the total ----

  lemma TotalWritten(total: nat, today: OneLiner)
    ensures TotalLine(total, today) == "**Total cards**: " + NatText(total) + " (as of " + today + ")"
  {
    hide NatText;
    assert "**Total cards**:" + " " == "**Total cards**: ";
  }

  /** A total line starts like one, with a digit behind the blanks. */
  lemma TotalExactly(line: string)
    ensures IsTotal(line) <==> exists gap, d, rest ::
      AllBlank(gap) && IsDigit(d) && line == "**Total cards**:" + gap + [d] + rest
  {
    var n := |"**Total cards**:"|;
    if IsTotal(line) {
      var k := BlanksEnd(line, n);
      var gap, rest := line[n..k], line[k + 1..];
      hide Blank, IsDigit;
      assert line[..n] == "**Total cards**:";
      assert line == line[..n] + gap + [line[k]] + rest;
      assert AllBlank(gap);
      assert line == "**Total cards**:" + gap + [line[k]] + rest;
    }
    if exists gap, d, rest :: AllBlank(gap) && IsDigit(d) && line == "**Total cards**:" + gap + [d] + rest {
      var gap, d, rest :| AllBlank(gap) && IsDigit(d) && line == "**Total cards**:" + gap + [d] + rest;
      BlankOrNot();
      hide Blank, IsDigit;
      var k := n + |gap|;
      assert line[..n] == "**Total cards**:" && line[k] == d;
      forall i | n <= i < k ensures Blank(line[i]) { assert line[i] == gap[i - n] && gap[i - n] in gap; }
      BlanksEndIs(line, n, k);
    }
  }

  /** The first total line is replaced; without one the total comes last, behind an empty line. */
  lemma TotalPlaced(above: seq<string>, line: string, below: seq<string>, total: string)
    requires (forall l | l in above :: !IsTotal(l)) && IsTotal(line)
    ensures WithTotal(above + [line] + below, total) == above + [total] + below
    ensures WithTotal([], total) == [total]
    ensures above != [] ==> WithTotal(above, total) == if above[|above| - 1] == "" then above + [total] else above + ["", total]
  {
    hide IsTotal;
    var lines := above + [line] + below;
    assert lines[|above|] == line && forall k | 0 <= k < |above| :: lines[k] == above[k];
    assert FirstFrom(lines, IsTotal, 0) == |above|;
    assert FirstFrom(above, IsTotal, 0) == -1;
    assert above + [""] + [total] == above + ["", total];
  }

  /** The total is the sum of all counts. */
  lemma TotalAdds(counts: Counts, path: string, n: Cards)
    requires path !in counts
    ensures Sum(map[]) == 0 && Sum(counts[path := n]) == n + Sum(counts)
  {
    var more := counts[path := n];
    SumFrom(more, path);
    assert more - {path} == counts;
  }

  // ---- the place of new rows ----

  /** New rows go behind the last row; without rows behind the first divider; else to the end. */
  lemma PlaceWritten(above: seq<string>, line: string, below: seq<string>)
    requires forall l | l in below :: !IsRow(l)
    ensures IsRow(line) ==> Place(above + [line] + below) == |above| + 1
    ensures (forall l | l in above :: !IsRow(l)) && !IsRow(line) ==>
      && ("|---" <= TrimSpace(line) && (forall l | l in above :: !("|---" <= TrimSpace(l))) ==>
            Place(above + [line] + below) == |above| + 1)
      && ((forall l | l in above + [line] + below :: !("|---" <= TrimSpace(l))) ==>
            Place(above + [line] + below) == |above| + 1 + |below|)
  {
    hide IsRow, TrimSpace;
    var lines, n := above + [line] + below, |above|;
    assert lines[n] == line && (forall k | 0 <= k < n :: lines[k] == above[k]);
    forall k | n < k < |lines| ensures !IsRow(lines[k]) { assert lines[k] == below[k - n - 1] && below[k - n - 1] in below; }
    if IsRow(line) { assert LastWhere(lines, IsRow) == n; }
    if (forall l | l in above :: !IsRow(l)) && !IsRow(line) {
      assert forall k | 0 <= k < |lines| :: !IsRow(lines[k]);
      assert LastWhere(lines, IsRow) == -1;
      if "|---" <= TrimSpace(line) && (forall l | l in above :: !("|---" <= TrimSpace(l))) {
        assert FirstFrom(lines, IsDivider, 0) == n;
      }
      if forall l | l in lines :: !("|---" <= TrimSpace(l)) { assert FirstFrom(lines, IsDivider, 0) == -1; }
    }
  }
}
