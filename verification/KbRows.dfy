/** Rows of the knowledge-base index, pkg/kb/kb.go, as text: a reader for the row pattern, the
    rewriting of card counts, the row that is printed for a new file, and exactly when that row
    can be read back. */
module KbRows {
  import opened Text
  import opened Lines
  import opened Decimal

  // ---- the row pattern ----

  /** `| [label](path)`: '[' at n, "](" at q, ')' at r. */
  datatype Link = Link(n: nat, q: nat, r: nat)

  /** `| count |`: the first bar at m, the digits from d to e, the last bar at f. */
  datatype Count = Count(m: nat, d: nat, e: nat, f: nat)

  datatype Cell = Cell(link: Link, count: Count)

  /** A link matches at the start of s: the label ends at its first ']', the path at its first ')'. */
  predicate LinkAt(s: string, l: Link) {
    && 0 < l.n && l.n + 1 < l.q && l.q + 2 < l.r < |s|
    && s[0] == '|' && (forall k | 1 <= k < l.n :: Blank(s[k])) && s[l.n] == '['
    && (forall k | l.n < k < l.q :: s[k] != ']') && s[l.q] == ']' && s[l.q + 1] == '('
    && (forall k | l.q + 2 <= k < l.r :: s[k] != ')') && s[l.r] == ')'
  }

  /** A count matches from position i on. */
  predicate CountAt(s: string, i: nat, c: Count) {
    && i <= c.m < c.d < c.e <= c.f < |s|
    && (forall k | i <= k < c.m :: Blank(s[k])) && s[c.m] == '|'
    && (forall k | c.m < k < c.d :: Blank(s[k])) && (forall k | c.d <= k < c.e :: IsDigit(s[k]))
    && (forall k | c.e <= k < c.f :: Blank(s[k])) && s[c.f] == '|'
  }

  predicate CellAt(s: string, c: Cell) {
    LinkAt(s, c.link) && CountAt(s, c.link.r + 1, c.count)
  }

  function ReadLink(s: string): (l: Option<Link>)
    ensures l.Some? ==> LinkAt(s, l.value)
  {
    if s == "" || s[0] != '|' then None
    else
      var n := BlanksEnd(s, 1);
      if n >= |s| || s[n] != '[' then None
      else
        var q := CharFrom(s, ']', n + 1);
        if q == n + 1 || q + 1 >= |s| || s[q + 1] != '(' then None
        else
          var r := CharFrom(s, ')', q + 2);
          if r == q + 2 || r >= |s| then None else Some(Link(n, q, r))
  }

  function ReadCount(s: string, i: nat): (c: Option<Count>)
    requires i <= |s|
    ensures c.Some? ==> CountAt(s, i, c.value)
  {
    var m := BlanksEnd(s, i);
    if m >= |s| || s[m] != '|' then None
    else
      var d := BlanksEnd(s, m + 1);
      var e := DigitsEnd(s, d);
      if e == d then None
      else
        var f := BlanksEnd(s, e);
        if f >= |s| || s[f] != '|' then None else Some(Count(m, d, e, f))
  }

  /** The link and count cells, `| [label](path) | count |`, at the start of s. */
  function ReadCell(s: string): (c: Option<Cell>)
    ensures c.Some? ==> CellAt(s, c.value)
  {
    match ReadLink(s)
    case None => None
    case Some(l) =>
      match ReadCount(s, l.r + 1)
      case None => None
      case Some(c) => Some(Cell(l, c))
  }

  lemma ReadLinkFinds(s: string, l: Link)
    requires LinkAt(s, l)
    ensures ReadLink(s) == Some(l)
  {
    BlankOrNot();
    hide Blank, BlanksEnd, CharFrom;
    BlanksEndIs(s, 1, l.n);
    CharFromIs(s, ']', l.n + 1, l.q);
    CharFromIs(s, ')', l.q + 2, l.r);
  }

  lemma ReadCountFinds(s: string, i: nat, c: Count)
    requires CountAt(s, i, c)
    ensures ReadCount(s, i) == Some(c)
  {
    CountRuns(s, i, c);
    hide CountAt, Blank, IsDigit, BlanksEnd, DigitsEnd;
  }

  lemma CountRuns(s: string, i: nat, c: Count)
    requires CountAt(s, i, c)
    ensures i <= c.m < c.d < c.e <= c.f < |s| && s[c.m] == '|' == s[c.f]
    ensures BlanksEnd(s, i) == c.m && BlanksEnd(s, c.m + 1) == c.d && DigitsEnd(s, c.d) == c.e && BlanksEnd(s, c.e) == c.f
  {
    BlankOrNot();
    hide Blank, IsDigit, BlanksEnd, DigitsEnd;
    BlanksEndIs(s, i, c.m);
    assert IsDigit(s[c.d]);
    BlanksEndIs(s, c.m + 1, c.d);
    assert c.e < c.f ==> Blank(s[c.e]);
    DigitsEndIs(s, c.d, c.e);
    BlanksEndIs(s, c.e, c.f);
  }

  /** A text matches in at most one way, and the reader finds it. */
  lemma ReadCellFinds(s: string, c: Cell)
    requires CellAt(s, c)
    ensures ReadCell(s) == Some(c)
  {
    hide LinkAt, CountAt, ReadLink, ReadCount;
    ReadLinkFinds(s, c.link);
    ReadCountFinds(s, c.link.r + 1, c.count);
  }

  lemma NoCell(s: string)
    requires s == "" || s[0] != '|'
    ensures ReadCell(s) == None
  {
  }

  function PathIn(s: string, c: Cell): string
    requires CellAt(s, c)
  {
    s[c.link.q + 2..c.link.r]
  }

  function DigitsIn(s: string, c: Cell): (t: string)
    requires CellAt(s, c)
    ensures IsNumber(t)
  {
    s[c.count.d..c.count.e]
  }

  predicate IsNumber(t: string) {
    t != "" && forall c | c in t :: IsDigit(c)
  }

  /** A row: the category cell ends at bar j, the link and count cells follow. */
  datatype Row = Row(j: nat, cell: Cell)

  predicate RowAt(line: string, row: Row) {
    && 2 <= row.j < |line| && line[0] == '|' == line[row.j] && (forall k | 1 <= k < row.j :: line[k] != '|')
    && CellAt(line[row.j..], row.cell)
  }

  function ReadRow(line: string): (r: Option<Row>)
    ensures r.Some? ==> RowAt(line, r.value)
  {
    if line == "" || line[0] != '|' then None
    else
      var j := CharFrom(line, '|', 1);
      if j < 2 || j >= |line| then None
      else match ReadCell(line[j..])
        case None => None
        case Some(cell) => Some(Row(j, cell))
  }

  lemma ReadRowFinds(line: string, row: Row)
    requires RowAt(line, row)
    ensures ReadRow(line) == Some(row)
  {
    assert CharFrom(line, '|', 1) == row.j;
    ReadCellFinds(line[row.j..], row.cell);
  }

  predicate IsRow(line: string) {
    ReadRow(line).Some?
  }

  function PathOf(line: string): string
    requires IsRow(line)
  {
    var row := ReadRow(line).value;
    PathIn(line[row.j..], row.cell)
  }

  function DigitsOf(line: string): (t: string)
    requires IsRow(line)
    ensures IsNumber(t)
  {
    var row := ReadRow(line).value;
    DigitsIn(line[row.j..], row.cell)
  }

  /** `strconv.Atoi` with its error ignored: the nearest 64-bit number. */
  function CountOf(line: string): nat
    requires IsRow(line)
  {
    var n := NatValue(DigitsOf(line));
    if n > MAX64 then MAX64 else n
  }

  // ---- rewriting counts ----

  function WithDigits(s: string, c: Cell, digits: string): string
    requires c.count.d <= c.count.e <= c.count.f < |s|
  {
    s[..c.count.d] + digits + s[c.count.e..c.count.f + 1]
  }

  /** A match at the start with other digits, else the first character; and how much that covers. */
  function RewriteHead(s: string, digits: string): (r: (string, nat))
    requires s != ""
    ensures 0 < r.1 <= |s|
  {
    match ReadCell(s)
    case Some(c) => (WithDigits(s, c, digits), c.count.f + 1)
    case None => ([s[0]], 1)
  }

  /** `_countReplaceRE.ReplaceAllString`: the digits of every match, from the left. */
  function ReplaceCounts(s: string, digits: string): string
    decreases |s|
  {
    if s == "" then ""
    else RewriteHead(s, digits).0 + ReplaceCounts(s[RewriteHead(s, digits).1..], digits)
  }

  /** Where the row's own digits start. */
  function OwnCount(line: string): nat
    requires IsRow(line)
  {
    var row := ReadRow(line).value;
    row.j + row.cell.count.d
  }

  /** Some match that the scan of s meets has its digits at n. */
  predicate Hits(s: string, n: int)
    decreases |s|
  {
    s != "" && n >= 0 &&
    match ReadCell(s)
    case Some(c) => n == c.count.d || Hits(s[c.count.f + 1..], n - (c.count.f + 1))
    case None => Hits(s[1..], n - 1)
  }

  /** The scan rewrites the row's own count. */
  predicate Reached(line: string)
    requires IsRow(line)
  {
    Hits(line, OwnCount(line))
  }

  /** The leftmost match of the count pattern ends in the row's own count. It does unless the
      category starts with a link of its own. */
  predicate Straight(line: string) {
    match (ReadRow(line), ReadCell(line))
    case (Some(row), Some(c)) => c.count.d == row.j + row.cell.count.d
    case _ => true
  }

  lemma {:induction false} ReplaceStep(s: string, digits: string)
    requires s != "" && ReadCell(s) == None
    ensures ReplaceCounts(s, digits) == [s[0]] + ReplaceCounts(s[1..], digits)
  {
    hide ReadCell, CellAt;
  }

  lemma {:induction false} ReplaceMatch(s: string, c: Cell, digits: string)
    requires ReadCell(s) == Some(c)
    ensures c.link.r < c.count.d < c.count.e <= c.count.f < |s|
    ensures ReplaceCounts(s, digits) == WithDigits(s, c, digits) + ReplaceCounts(s[c.count.f + 1..], digits)
  {
    hide *;
    HeadMatch(s, c, digits);
    ReplaceHead(s, digits);
  }

  lemma HeadMatch(s: string, c: Cell, digits: string)
    requires ReadCell(s) == Some(c)
    ensures c.link.r < c.count.d < c.count.e <= c.count.f < |s|
    ensures RewriteHead(s, digits) == (WithDigits(s, c, digits), c.count.f + 1)
  {
    hide ReadCell, CellAt, WithDigits;
    CellBounds(s, c);
  }

  lemma {:induction false} ReplaceHead(s: string, digits: string)
    requires s != ""
    ensures ReplaceCounts(s, digits) == RewriteHead(s, digits).0 + ReplaceCounts(s[RewriteHead(s, digits).1..], digits)
  {
    hide RewriteHead;
  }

  lemma {:induction false} ReplaceSkips(s: string, digits: string, j: nat)
    requires j <= |s| && forall k | 0 <= k < j :: s[k] != '|'
    ensures ReplaceCounts(s, digits) == s[..j] + ReplaceCounts(s[j..], digits)
    decreases j
  {
    hide ReadCell, ReplaceCounts;
    if j > 0 {
      NoCell(s);
      ReplaceStep(s, digits);
      ReplaceSkips(s[1..], digits, j - 1);
      SkipOne(s, ReplaceCounts(s[j..], digits), j);
    } else {
      assert s[..0] == "" && s[0..] == s;
    }
  }

  lemma SkipOne(s: string, rest: string, j: nat)
    requires 0 < j <= |s|
    ensures s[1..][j - 1..] == s[j..]
    ensures [s[0]] + (s[1..][..j - 1] + rest) == s[..j] + rest
  {
  }

  lemma CellBounds(s: string, c: Cell)
    requires CellAt(s, c)
    ensures c.link.r < c.count.d < c.count.e <= c.count.f < |s|
  {
  }

  lemma {:induction false} ReplaceOneLine(s: string, digits: string)
    requires OneLine(s) && IsNumber(digits)
    ensures OneLine(ReplaceCounts(s, digits))
    decreases |s|
  {
    hide ReadCell, CellAt, ReplaceCounts, WithDigits;
    if s == "" {
      assert ReplaceCounts(s, digits) == "" by { ReplaceNothing(digits); }
    } else {
      match ReadCell(s)
      case Some(c) =>
        ReplaceMatch(s, c, digits);
        ReplaceOneLine(s[c.count.f + 1..], digits);
        WithDigitsOneLine(s, c, digits);
      case None =>
        ReplaceStep(s, digits);
        ReplaceOneLine(s[1..], digits);
    }
  }

  lemma ReplaceNothing(digits: string)
    ensures ReplaceCounts("", digits) == ""
  {
  }

  lemma WithDigitsOneLine(s: string, c: Cell, digits: string)
    requires OneLine(s) && IsNumber(digits) && c.count.d <= c.count.e <= c.count.f < |s|
    ensures OneLine(WithDigits(s, c, digits))
  {
    assert !IsDigit('\n');
  }

  // ---- what rewriting leaves of a row ----

  /** A row by positions in its line. */
  datatype Spots = Spots(j: nat, link: Link, count: Count)

  /** A link matches from bar j on. */
  predicate LinkFrom(line: string, j: nat, l: Link) {
    && j < l.n && l.n + 1 < l.q && l.q + 2 < l.r < |line|
    && line[j] == '|' && (forall k | j < k < l.n :: Blank(line[k])) && line[l.n] == '['
    && (forall k | l.n < k < l.q :: line[k] != ']') && line[l.q] == ']' && line[l.q + 1] == '('
    && (forall k | l.q + 2 <= k < l.r :: line[k] != ')') && line[l.r] == ')'
  }

  predicate Spotted(line: string, x: Spots) {
    Barred(line, x.j) && LinkFrom(line, x.j, x.link) && CountAt(line, x.link.r + 1, x.count)
  }

  /** The category runs from the first bar to j. */
  predicate Barred(line: string, j: nat) {
    2 <= j < |line| && line[0] == '|' && forall k | 1 <= k < j :: line[k] != '|'
  }

  /** x lies j places further on than l. */
  predicate LinkBehind(l: Link, x: Link, j: int) {
    x.n == l.n + j && x.q == l.q + j && x.r == l.r + j
  }

  predicate CountBehind(c: Count, x: Count, j: int) {
    x.m == c.m + j && x.d == c.d + j && x.e == c.e + j && x.f == c.f + j
  }

  lemma LinkAtStart(s: string, l: Link)
    ensures LinkAt(s, l) <==> LinkFrom(s, 0, l)
  {
  }

  /** What matches in a text matches in another that reads the same g places further on. */
  lemma LinkMoves(line: string, j: nat, l: Link, t: string, i: nat, x: Link, g: int)
    requires LinkFrom(line, j, l) && i == j + g && LinkBehind(l, x, g) && x.r < |t|
    requires forall k {:trigger t[k]} | i <= k <= x.r :: t[k] == line[k - g]
    ensures LinkFrom(t, i, x)
  {
    hide Blank;
  }

  lemma CountMoves(line: string, j: nat, c: Count, t: string, i: nat, x: Count, g: int)
    requires CountAt(line, j, c) && i == j + g && CountBehind(c, x, g) && x.f < |t|
    requires forall k {:trigger t[k]} | i <= k <= x.f :: t[k] == line[k - g]
    ensures CountAt(t, i, x)
  {
    hide Blank, IsDigit;
  }

  lemma LinkInLine(line: string, j: nat, l: Link, x: Link)
    requires j <= |line| && LinkBehind(l, x, j)
    ensures LinkAt(line[j..], l) <==> LinkFrom(line, j, x)
  {
    LinkAtStart(line[j..], l);
    LinkEnds(line, j, x);
    LinkEnds(line[j..], 0, l);
    hide LinkAt, LinkFrom;
    if LinkAt(line[j..], l) { LinkMoves(line[j..], 0, l, line, j, x, j); }
    if LinkFrom(line, j, x) { LinkMoves(line, j, x, line[j..], 0, l, -1 * j); }
  }

  lemma LinkEnds(line: string, j: nat, l: Link)
    ensures LinkFrom(line, j, l) ==> j < l.n && l.n + 1 < l.q && l.q + 2 < l.r < |line|
  {
  }

  lemma CountInLine(line: string, j: nat, i: nat, c: Count, x: Count)
    requires j <= |line| && CountBehind(c, x, j)
    ensures CountAt(line[j..], i, c) <==> CountAt(line, j + i, x)
  {
    hide Blank, IsDigit;
    if CountAt(line[j..], i, c) { CountMoves(line[j..], i, c, line, j + i, x, j); }
    if CountAt(line, j + i, x) { CountMoves(line, j + i, x, line[j..], i, c, -1 * j); }
  }

  /** The line is a row with this path and these digits at n. */
  predicate Reads(line: string, path: string, digits: string, n: nat) {
    IsRow(line) && PathOf(line) == path && DigitsOf(line) == digits && OwnCount(line) == n
  }

  lemma RowReads(line: string, row: Row, x: Spots)
    requires ReadRow(line) == Some(row)
    requires x.j == row.j && LinkBehind(row.cell.link, x.link, x.j) && CountBehind(row.cell.count, x.count, x.j)
    ensures x.link.q + 2 < x.link.r < x.count.d < x.count.e < |line|
    ensures Reads(line, line[x.link.q + 2..x.link.r], line[x.count.d..x.count.e], x.count.d)
  {
    var j, l, c := row.j, row.cell.link, row.cell.count;
    hide ReadRow, IsNumber, Blank, IsDigit;
    SliceOfRest(line, j, l.q + 2, l.r);
    SliceOfRest(line, j, c.d, c.e);
  }

  lemma SliceOfRest(s: string, j: nat, a: nat, b: nat)
    requires j <= |s| && a <= b <= |s| - j
    ensures s[j..][a..b] == s[j + a..j + b]
  {
  }

  /** A row is a category, a link and a count. */
  lemma RowIsSpotted(line: string, row: Row, x: Spots)
    requires x.j == row.j && LinkBehind(row.cell.link, x.link, x.j) && CountBehind(row.cell.count, x.count, x.j)
    ensures RowAt(line, row) <==> Spotted(line, x)
  {
    if row.j <= |line| {
      LinkInLine(line, row.j, row.cell.link, x.link);
      CountInLine(line, row.j, row.cell.link.r + 1, row.cell.count, x.count);
      LinkAtBar(line[row.j..], row.cell.link);
    }
    hide LinkAt, LinkFrom, CountAt;
  }

  lemma LinkAtBar(s: string, l: Link)
    ensures LinkAt(s, l) ==> s != "" && s[0] == '|'
  {
  }

  lemma SpottedReads(line: string, x: Spots)
    requires Spotted(line, x)
    ensures x.link.q + 2 < x.link.r < x.count.d < x.count.e < |line|
    ensures Reads(line, line[x.link.q + 2..x.link.r], line[x.count.d..x.count.e], x.count.d)
  {
    hide Spotted, RowAt, ReadRow, Reads;
    SpotsInOrder(line, x);
    var j, l, c := x.j, x.link, x.count;
    var row := Row(j, Cell(Link(l.n - j, l.q - j, l.r - j), Count(c.m - j, c.d - j, c.e - j, c.f - j)));
    RowIsSpotted(line, row, x);
    ReadRowFinds(line, row);
    RowReads(line, row, x);
  }

  lemma ReadIsSpotted(line: string) returns (x: Spots)
    requires IsRow(line)
    ensures Spotted(line, x) && x.link.q + 2 < x.link.r < x.count.d < x.count.e < |line|
    ensures Reads(line, line[x.link.q + 2..x.link.r], line[x.count.d..x.count.e], x.count.d)
  {
    hide Spotted, RowAt, ReadRow, Reads;
    var row := ReadRow(line).value;
    var j, l, c := row.j, row.cell.link, row.cell.count;
    x := Spots(j, Link(j + l.n, j + l.q, j + l.r), Count(j + c.m, j + c.d, j + c.e, j + c.f));
    RowIsSpotted(line, row, x);
    RowReads(line, row, x);
  }

  lemma SpotsInOrder(line: string, x: Spots)
    requires Spotted(line, x)
    ensures x.j < x.link.n < x.link.q && x.link.q + 2 < x.link.r < x.count.m < x.count.d < x.count.e <= x.count.f < |line|
    ensures Barred(line, x.j) && LinkFrom(line, x.j, x.link) && CountAt(line, x.link.r + 1, x.count)
  {
    hide Blank, IsDigit;
  }

  /** A count that follows a ')'. */
  predicate Counted(line: string, p: nat, c: Count) {
    p < |line| && line[p] == ')' && CountAt(line, p + 1, c)
  }

  function Put(line: string, c: Count, digits: string): string
    requires c.d <= c.e <= |line|
  {
    line[..c.d] + digits + line[c.e..]
  }

  lemma PutAt(line: string, c: Count, digits: string)
    requires c.d <= c.e <= |line|
    ensures var t, g := Put(line, c, digits), |digits|;
      && |t| == |line| - (c.e - c.d) + g
      && (forall k | 0 <= k < c.d :: t[k] == line[k])
      && (forall k {:trigger t[k]} | c.d <= k < c.d + g :: t[k] == digits[k - c.d])
      && (forall k {:trigger t[k]} | c.d + g <= k < |t| :: t[k] == line[k - c.d - g + c.e])
  {
  }

  /** A count before the row's own stands in the label: the category holds no bar, the path no ')'. */
  lemma CountInLabel(line: string, x: Spots, p: nat, c: Count)
    requires Spotted(line, x) && Counted(line, p, c) && c.d < x.count.d
    ensures x.link.n + 1 < c.d < c.e <= c.f < x.link.q
  {
    BlankOrNot();
    hide Blank, IsDigit, LinkFrom;
    SpotsInOrder(line, x);
    CountsApart(line, p + 1, c, x.link.r + 1, x.count);
    assert line[c.m] == '|';
    assert c.m >= x.j;
    BehindOpening(line, x.j, x.link, p, c);
    BeforeClosing(line, x.j, x.link, p, c);
  }

  /** Of two counts the earlier ends before the later, but for a shared bar. */
  lemma CountsApart(line: string, i: nat, c: Count, j: nat, x: Count)
    requires CountAt(line, i, c) && CountAt(line, j, x) && c.d < x.d
    ensures c.f <= x.m
  {
    BlankOrNot();
    hide Blank, IsDigit;
    assert line[x.m] == '|' && IsDigit(line[c.d]);
  }

  lemma BehindOpening(line: string, j: nat, l: Link, p: nat, c: Count)
    requires LinkFrom(line, j, l) && Counted(line, p, c) && c.m >= j
    ensures c.m > l.n
  {
    BlankOrNot();
    hide Blank, IsDigit;
    assert line[c.m] == '|' && IsDigit(line[c.d]) && line[l.n] == '[';
  }

  lemma BeforeClosing(line: string, j: nat, l: Link, p: nat, c: Count)
    requires LinkFrom(line, j, l) && Counted(line, p, c) && l.n < c.m && c.m <= l.r
    ensures c.f < l.q
  {
    BlankOrNot();
    hide Blank, IsDigit;
    assert line[c.m] == '|' && line[l.q] == ']' && line[l.q + 1] == '(' && line[p] == ')';
    assert c.m < l.q;
  }

  /** Digits in a label leave it a label. */
  lemma LabelGrows(line: string, t: string, j: nat, l: Link, c: Count, digits: string)
    requires LinkFrom(line, j, l) && l.n + 1 < c.d < c.e < l.q && IsNumber(digits) && t == Put(line, c, digits)
    ensures var g := |digits| - (c.e - c.d);
      LinkFrom(t, j, Link(l.n, l.q + g, l.r + g)) && t[l.q + g + 2..l.r + g] == line[l.q + 2..l.r]
  {
    PutAt(line, c, digits);
    hide Put, Blank;
    assert !IsDigit(']');
    forall k | c.d <= k < c.d + |digits| ensures t[k] != ']' { assert digits[k - c.d] in digits; }
    hide IsDigit, IsNumber;
    forall k | l.q + (|digits| - (c.e - c.d)) + 2 <= k < l.r + (|digits| - (c.e - c.d)) ensures t[k] != ')' {
      assert line[k - (|digits| - (c.e - c.d))] != ')';
    }
  }

  lemma BarsBeforePut(line: string, t: string, j: nat, c: Count, digits: string)
    requires Barred(line, j) && j < c.d <= c.e < |line| && t == Put(line, c, digits)
    ensures Barred(t, j)
  {
    PutAt(line, c, digits);
    hide Put;
  }

  lemma LinkBeforePut(line: string, t: string, j: nat, l: Link, c: Count, digits: string)
    requires LinkFrom(line, j, l) && l.r < c.d <= c.e < |line| && t == Put(line, c, digits)
    ensures LinkFrom(t, j, l) && t[l.q + 2..l.r] == line[l.q + 2..l.r]
  {
    PutAt(line, c, digits);
    hide Put, Blank;
  }

  lemma CountBeforePut(line: string, t: string, i: nat, x: Count, c: Count, digits: string)
    requires CountAt(line, i, x) && x.f < c.d <= c.e < |line| && t == Put(line, c, digits)
    ensures CountAt(t, i, x) && t[x.d..x.e] == line[x.d..x.e]
  {
    PutAt(line, c, digits);
    hide Put, Blank, IsDigit;
  }

  lemma CountBehindPut(line: string, t: string, i: nat, x: Count, c: Count, digits: string, y: Count, g: int)
    requires CountAt(line, i, x) && c.d <= c.e <= i && t == Put(line, c, digits)
    requires g == |digits| - (c.e - c.d) && CountBehind(x, y, g)
    ensures i + g >= 0 && CountAt(t, i + g, y) && t[y.d..y.e] == line[x.d..x.e]
  {
    hide Put, CountAt;
    CountInOrder(line, i, x);
    PutAt(line, c, digits);
    CountMoves(line, i, x, t, i + g, y, g);
    SliceMoves(line, t, x.d, x.e, g);
  }

  lemma SliceMoves(line: string, t: string, a: nat, b: nat, g: int)
    requires a <= b <= |line| && 0 <= a + g && b + g <= |t|
    requires forall k {:trigger t[k]} | a + g <= k < b + g :: t[k] == line[k - g]
    ensures t[a + g..b + g] == line[a..b]
  {
  }

  lemma CountGrows(line: string, t: string, i: nat, c: Count, digits: string, y: Count)
    requires CountAt(line, i, c) && IsNumber(digits) && t == Put(line, c, digits)
    requires y == c.(e := c.d + |digits|, f := c.f - c.e + c.d + |digits|)
    ensures CountAt(t, i, y) && t[y.d..y.e] == digits
  {
    PutAt(line, c, digits);
    hide Put, Blank;
    forall k | c.d <= k < c.d + |digits| ensures IsDigit(t[k]) { assert digits[k - c.d] in digits; }
    hide IsDigit, IsNumber;
  }

  lemma SpotsAreRow(t: string, j: nat, l: Link, c: Count)
    requires Barred(t, j) && LinkFrom(t, j, l) && CountAt(t, l.r + 1, c)
    ensures l.q + 2 < l.r < c.d < c.e < |t|
    ensures Reads(t, t[l.q + 2..l.r], t[c.d..c.e], c.d)
  {
    hide Barred, LinkFrom, CountAt, Reads;
    SpottedReads(t, Spots(j, l, c));
  }

  lemma PutInLabel(line: string, x: Spots, c: Count, digits: string)
    requires Spotted(line, x) && x.link.n + 1 < c.d < c.e <= c.f < x.link.q && IsNumber(digits)
    ensures x.link.q + 2 < x.link.r < x.count.d < x.count.e < |line|
    ensures Reads(Put(line, c, digits), line[x.link.q + 2..x.link.r], line[x.count.d..x.count.e],
      x.count.d + |digits| - (c.e - c.d))
  {
    hide Barred, LinkFrom, CountAt, IsNumber, Reads, Put, Spotted;
    SpotsInOrder(line, x);
    var t, g, l, y := Put(line, c, digits), |digits| - (c.e - c.d), x.link, x.count;
    var link, count := Link(l.n, l.q + g, l.r + g), Count(y.m + g, y.d + g, y.e + g, y.f + g);
    LabelGrows(line, t, x.j, l, c, digits);
    CountBehindPut(line, t, l.r + 1, y, c, digits, count, g);
    BarsBeforePut(line, t, x.j, c, digits);
    SpotsAreRow(t, x.j, link, count);
  }

  /** A count behind the row's own leaves the row as it is. */
  lemma PutBehind(line: string, x: Spots, p: nat, c: Count, digits: string)
    requires Spotted(line, x) && Counted(line, p, c) && x.count.d < c.d
    ensures c.d <= c.e <= |line| && x.link.q + 2 < x.link.r < x.count.d < x.count.e < |line|
    ensures Reads(Put(line, c, digits), line[x.link.q + 2..x.link.r], line[x.count.d..x.count.e], x.count.d)
  {
    hide Barred, LinkFrom, CountAt, Reads, Put, Spotted;
    SpotsInOrder(line, x);
    CountsApart(line, x.link.r + 1, x.count, p + 1, c);
    CountInOrder(line, p + 1, c);
    var t := Put(line, c, digits);
    CountBeforePut(line, t, x.link.r + 1, x.count, c, digits);
    LinkBeforePut(line, t, x.j, x.link, c, digits);
    BarsBeforePut(line, t, x.j, c, digits);
    SpotsAreRow(t, x.j, x.link, x.count);
  }

  lemma CountInOrder(line: string, i: nat, c: Count)
    requires CountAt(line, i, c)
    ensures i <= c.m < c.d < c.e <= c.f < |line|
  {
  }

  lemma PutOwn(line: string, x: Spots, p: nat, c: Count, digits: string)
    requires Spotted(line, x) && Counted(line, p, c) && x.count.d == c.d && IsNumber(digits)
    ensures c.d <= c.e <= |line| && x.link.q + 2 < x.link.r < |line|
    ensures Reads(Put(line, c, digits), line[x.link.q + 2..x.link.r], digits, c.d)
  {
    hide Barred, LinkFrom, CountAt, IsNumber, Reads, Spotted;
    SpotsInOrder(line, x);
    SameEnds(line, x.link.r + 1, x.count, p + 1, c);
    assert Put(line, c, digits) == Put(line, x.count, digits);
    hide Put;
    var t := Put(line, c, digits);
    var y := x.count.(e := c.d + |digits|, f := c.f - c.e + c.d + |digits|);
    CountGrows(line, t, x.link.r + 1, x.count, digits, y);
    LinkBeforePut(line, t, x.j, x.link, c, digits);
    BarsBeforePut(line, t, x.j, c, digits);
    SpotsAreRow(t, x.j, x.link, y);
  }

  /** Counts with their digits at one place agree from there on. */
  lemma SameEnds(line: string, i: nat, c: Count, j: nat, x: Count)
    requires CountAt(line, i, c) && CountAt(line, j, x) && c.d == x.d
    ensures c.e == x.e && c.f == x.f
  {
    BlankOrNot();
    hide Blank, IsDigit;
    assert forall k | c.d <= k < c.e :: IsDigit(line[k]);
    assert forall k | x.d <= k < x.e :: IsDigit(line[k]);
    assert c.e < c.f ==> Blank(line[c.e]);
    assert x.e < x.f ==> Blank(line[x.e]);
  }

  /** One match of the scan, behind text that the scan has passed. */
  lemma MatchRewritten(pre: string, s: string, c: Cell, digits: string)
    requires IsRow(pre + s) && ReadCell(s) == Some(c) && IsNumber(digits)
    ensures c.count.d < c.count.e <= c.count.f < |s|
    ensures var line, done := pre + s, pre + WithDigits(s, c, digits);
      var t, n := done + s[c.count.f + 1..], OwnCount(line) - |pre|;
      && IsRow(t) && PathOf(t) == PathOf(line)
      && DigitsOf(t) == (if n == c.count.d then digits else DigitsOf(line))
      && if n <= c.count.d then OwnCount(t) < |done| else OwnCount(t) - |done| == n - (c.count.f + 1)
  {
    hide IsNumber, ReadCell, ReadRow, CellAt, WithDigits, Put, Counted, Spotted, IsRow, PathOf, DigitsOf, OwnCount;
    CellBounds(s, c);
    var line, k, b := pre + s, c.count, |pre|;
    var own := Count(b + k.m, b + k.d, b + k.e, b + k.f);
    MatchIsCounted(pre, s, c, own);
    WithDigitsIsPut(pre, s, c, digits, own);
    var x := ReadIsSpotted(line);
    if x.count.d == own.d {
      PutOwn(line, x, b + c.link.r, own, digits);
    } else if x.count.d < own.d {
      PutBehind(line, x, b + c.link.r, own, digits);
    } else {
      CountInLabel(line, x, b + c.link.r, own);
      PutInLabel(line, x, own, digits);
    }
  }

  lemma MatchIsCounted(pre: string, s: string, c: Cell, own: Count)
    requires CellAt(s, c) && CountBehind(c.count, own, |pre|)
    ensures Counted(pre + s, |pre| + c.link.r, own)
  {
    CellBounds(s, c);
    assert (pre + s)[|pre| + c.link.r] == s[c.link.r] == ')';
    hide LinkAt, CountAt;
    CountMoves(s, c.link.r + 1, c.count, pre + s, |pre| + c.link.r + 1, own, |pre|);
  }

  lemma WithDigitsIsPut(pre: string, s: string, c: Cell, digits: string, own: Count)
    requires c.count.d < c.count.e <= c.count.f < |s| && CountBehind(c.count, own, |pre|)
    ensures pre + WithDigits(s, c, digits) + s[c.count.f + 1..] == Put(pre + s, own, digits)
    ensures |WithDigits(s, c, digits)| == c.count.f + 1 - (c.count.e - c.count.d) + |digits|
  {
    var b, k := |pre|, c.count;
    assert (pre + s)[..b + k.d] == pre + s[..k.d] && (pre + s)[b + k.e..] == s[k.e..k.f + 1] + s[k.f + 1..];
  }

  /** The row t has the path of the row line, and the new count if hit, else the same. */
  predicate Kept(line: string, t: string, digits: string, hit: bool) {
    && IsRow(line) && IsRow(t) && PathOf(t) == PathOf(line)
    && DigitsOf(t) == if hit then digits else DigitsOf(line)
  }

  lemma MatchKept(pre: string, s: string, c: Cell, digits: string)
    requires IsRow(pre + s) && ReadCell(s) == Some(c) && IsNumber(digits)
    ensures c.count.d < c.count.e <= c.count.f < |s|
    ensures var done, rest := pre + WithDigits(s, c, digits), s[c.count.f + 1..];
      && IsRow(done + rest) && Kept(pre + s, done + rest, digits, OwnCount(pre + s) - |pre| == c.count.d)
      && (Hits(s, OwnCount(pre + s) - |pre|) <==>
          OwnCount(pre + s) - |pre| == c.count.d || Hits(rest, OwnCount(done + rest) - |done|))
  {
    hide IsRow, PathOf, DigitsOf, OwnCount, ReadCell, CellAt, IsNumber, WithDigits, Hits;
    MatchRewritten(pre, s, c, digits);
    var done, rest, n := pre + WithDigits(s, c, digits), s[c.count.f + 1..], OwnCount(pre + s) - |pre|;
    HitsHead(s, n);
    NoHitBefore(rest, n - (c.count.f + 1));
    NoHitBefore(rest, OwnCount(done + rest) - |done|);
  }

  lemma {:induction false} RestRewritten(pre: string, s: string, digits: string)
    requires IsRow(pre + s) && IsNumber(digits)
    ensures Kept(pre + s, pre + ReplaceCounts(s, digits), digits, Hits(s, OwnCount(pre + s) - |pre|))
    decreases |s|
  {
    hide *;
    if s == "" {
      NothingRewritten(pre, s, digits);
    } else {
      match ReadCell(s)
      case Some(c) =>
        MatchKept(pre, s, c, digits);
        ReplaceMatch(s, c, digits);
        var done, rest := pre + WithDigits(s, c, digits), s[c.count.f + 1..];
        RestRewritten(done, rest, digits);
        assert done + ReplaceCounts(rest, digits) == pre + ReplaceCounts(s, digits);
        KeptTwice(pre + s, done + rest, pre + ReplaceCounts(s, digits), digits,
          OwnCount(pre + s) - |pre| == c.count.d, Hits(rest, OwnCount(done + rest) - |done|));
      case None =>
        ReplaceStep(s, digits);
        HitsHead(s, OwnCount(pre + s) - |pre|);
        NoHitBefore(s[1..], OwnCount(pre + s) - |pre| - 1);
        OneMore(pre, s, s[1..]);
        OneMore(pre, s, ReplaceCounts(s[1..], digits));
        RestRewritten(pre + [s[0]], s[1..], digits);
    }
  }

  lemma NothingRewritten(pre: string, s: string, digits: string)
    requires IsRow(pre + s) && s == ""
    ensures Kept(pre + s, pre + ReplaceCounts(s, digits), digits, Hits(s, OwnCount(pre + s) - |pre|))
  {
    ReplaceNothing(digits);
    hide IsRow, PathOf, DigitsOf, OwnCount;
  }

  lemma KeptTwice(line: string, mid: string, t: string, digits: string, first: bool, second: bool)
    requires Kept(line, mid, digits, first) && Kept(mid, t, digits, second)
    ensures Kept(line, t, digits, first || second)
  {
    hide IsRow, PathOf, DigitsOf;
  }

  lemma OneMore(pre: string, s: string, rest: string)
    requires s != ""
    ensures pre + [s[0]] + rest == pre + ([s[0]] + rest) && [s[0]] + s[1..] == s
  {
  }

  lemma NoHitBefore(s: string, n: int)
    ensures Hits(s, n) ==> n >= 0
  {
  }

  /** Rewriting keeps the path of every row. The row has the new count exactly when the scan reaches
      its own, and keeps the old one otherwise. */
  lemma RowRewritten(line: string, digits: string)
    requires IsRow(line) && IsNumber(digits)
    ensures var t := ReplaceCounts(line, digits);
      IsRow(t) && PathOf(t) == PathOf(line) && DigitsOf(t) == if Reached(line) then digits else DigitsOf(line)
  {
    hide IsRow, PathOf, DigitsOf, OwnCount, ReplaceCounts, Hits, IsNumber;
    assert "" + line == line && "" + ReplaceCounts(line, digits) == ReplaceCounts(line, digits);
    RestRewritten("", line, digits);
  }

  /** Where the first match ends in the row's own count, the scan reaches it. */
  lemma StraightIsReached(line: string)
    requires IsRow(line) && Straight(line)
    ensures Reached(line)
  {
    hide ReadCell, CellAt, Hits;
    var row := ReadRow(line).value;
    var own := line[row.j..];
    ReadCellFinds(own, row.cell);
    match ReadCell(line)
    case Some(c) => HitsHead(line, OwnCount(line));
    case None =>
      HitsHead(own, row.cell.count.d);
      HitsHead(line, OwnCount(line));
      HitsSkips(line[1..], OwnCount(line) - 1, row.j - 1);
      assert line[1..][row.j - 1..] == own;
  }

  lemma {:induction false} HitsHead(s: string, n: int)
    requires s != ""
    ensures match ReadCell(s)
      case Some(c) => Hits(s, n) <==> n >= 0 && (n == c.count.d || Hits(s[c.count.f + 1..], n - (c.count.f + 1)))
      case None => Hits(s, n) <==> n >= 0 && Hits(s[1..], n - 1)
  {
    hide ReadCell, CellAt;
  }

  lemma {:induction false} HitsSkips(s: string, n: nat, j: nat)
    requires j <= |s| && j <= n && forall k | 0 <= k < j :: s[k] != '|'
    ensures Hits(s, n) <==> Hits(s[j..], n - j)
    decreases j
  {
    hide ReadCell, Hits;
    if j > 0 {
      NoCell(s);
      HitsHead(s, n);
      HitsSkips(s[1..], n - 1, j - 1);
      assert s[1..][j - 1..] == s[j..];
    } else {
      assert s[0..] == s;
    }
  }

  // ---- the row of a new file ----

  function Category(path: string): string {
    if |Cut(path, '/')| > 1 then Cut(path, '/')[0] else "uncategorized"
  }

  function TrimSuffix(s: string, t: string): string {
    if |t| <= |s| && s[|s| - |t|..] == t then s[..|s| - |t|] else s
  }

  function DisplayName(path: string): string {
    var parts := Cut(path, '/');
    TrimSuffix(parts[|parts| - 1], ".md")
  }

  /** A file lies in the category of its outermost folder and is shown by its bare name. */
  lemma CellsOfPath(dir: string, folders: string, name: string)
    requires '/' !in dir && '/' !in name && (folders == "" || folders[|folders| - 1] == '/')
    ensures Category(dir + "/" + folders + name + ".md") == dir
    ensures DisplayName(dir + "/" + folders + name + ".md") == name
    ensures Category(name + ".md") == "uncategorized" && DisplayName(name + ".md") == name
  {
    var file := name + ".md";
    assert file[|file| - 3..] == ".md" && file[..|file| - 3] == name;
    assert dir + "/" + folders + name + ".md" == dir + ['/'] + (folders + file);
    CutPlain(dir, '/');
    CutPlain(file, '/');
    CutSum(dir, '/', folders + file);
    if folders == "" {
      assert folders + file == file;
    } else {
      assert folders + file == folders[..|folders| - 1] + ['/'] + file;
      CutSum(folders[..|folders| - 1], '/', file);
    }
  }

  /** What stands before the path: the category cell and the label. */
  function Label(path: string): string {
    Category(path) + " | [" + DisplayName(path)
  }

  function RowText(path: string, digits: string, description: string): string {
    "| " + Label(path) + "](" + path + ") | " + digits + " | " + description + " |"
  }

  /** Behind the first bar come blanks, '[', and a label that is not empty and holds no ']'. */
  predicate Bracketed(x: string) {
    var u := CharFrom(x, '|', 0);
    u < |x| &&
    var n := BlanksEnd(x, u + 1);
    n + 1 < |x| && x[n] == '[' && forall k | n < k < |x| :: x[k] != ']'
  }

  /** The path has no ')' and no newline, and the label is the label: for a category without a bar
      that is a display name that is not empty and holds no ']'. */
  predicate Readable(path: string) {
    path != "" && ')' !in path && '\n' !in path && Bracketed(Label(path))
  }

  lemma OrdinaryNames(path: string)
    requires '|' !in Category(path)
    ensures Bracketed(Label(path)) <==> DisplayName(path) != "" && ']' !in DisplayName(path)
  {
    var c, d, x := Category(path), DisplayName(path), Label(path);
    BlankOrNot();
    hide Blank, BlanksEnd, CharFrom, Category, DisplayName;
    assert forall k | 0 <= k < |c| :: x[k] == c[k];
    CharFromIs(x, '|', 0, |c| + 1) by { assert x[|c|] == ' ' && x[|c| + 1] == '|'; }
    BlanksEndIs(x, |c| + 2, |c| + 3) by { assert x[|c| + 2] == ' ' && x[|c| + 3] == '['; SpaceIsBlank(); }
    assert forall k | 0 <= k < |d| :: x[|c| + 4 + k] == d[k];
    if Bracketed(x) {
      forall k | 0 <= k < |d| ensures d[k] != ']' { assert x[|c| + 4 + k] != ']'; }
    }
    if ']' !in d {
      forall k | |c| + 3 < k < |x| ensures x[k] != ']' { assert x[k] == d[k - |c| - 4]; }
    }
  }

  lemma SpaceIsBlank()
    ensures Blank(' ')
  {
  }

  // ---- reading the printed row ----

  /** t starts like a printed row with this label, path and count. */
  predicate Printed(t: string, x: string, path: string, digits: string) {
    var p := |x| + 4;
    var b := p + |path|;
    var e := b + 4 + |digits|;
    && |t| > e + 1 && t[0] == '|' && t[1] == ' '
    && (forall k {:trigger t[k]} | 2 <= k < p - 2 :: t[k] == x[k - 2]) && t[p - 2] == ']' && t[p - 1] == '('
    && (forall k {:trigger t[k]} | p <= k < b :: t[k] == path[k - p]) && t[b] == ')'
    && t[b + 1] == ' ' && t[b + 2] == '|' && t[b + 3] == ' '
    && (forall k {:trigger t[k]} | b + 4 <= k < e :: t[k] == digits[k - b - 4])
    && t[e] == ' ' && t[e + 1] == '|'
  }

  lemma RowTextPrinted(path: string, digits: string, description: string)
    ensures Printed(RowText(path, digits, description), Label(path), path, digits)
  {
    hide Label;
  }

  /** The count cells of a printed row, seen from bar j on. */
  function PrintedCount(x: string, path: string, digits: string, j: nat): Count
    requires j <= |x| + 2
  {
    var b := |x| + 4 + |path| - j;
    Count(b + 2, b + 4, b + 4 + |digits|, b + 5 + |digits|)
  }

  lemma PrintedCountAt(t: string, x: string, path: string, digits: string, j: nat)
    requires Printed(t, x, path, digits) && IsNumber(digits) && j <= |x| + 2
    ensures CountAt(t[j..], |x| + 5 + |path| - j, PrintedCount(x, path, digits, j))
    ensures t[j..][PrintedCount(x, path, digits, j).d..PrintedCount(x, path, digits, j).e] == digits
  {
    var own, c := t[j..], PrintedCount(x, path, digits, j);
    SpaceIsBlank();
    hide Blank;
    assert own[c.m - 1] == t[j + c.m - 1] && own[c.m] == t[j + c.m] && own[c.d - 1] == t[j + c.d - 1];
    assert own[c.e] == t[j + c.e] && own[c.f] == t[j + c.f];
    forall k | c.d <= k < c.e ensures own[k] == digits[k - c.d] && IsDigit(own[k]) {
      assert own[k] == t[j + k] && digits[k - c.d] in digits;
    }
  }

  lemma PrintedCountWhole(t: string, x: string, path: string, digits: string)
    requires Printed(t, x, path, digits) && IsNumber(digits)
    ensures CountAt(t, |x| + 5 + |path|, PrintedCount(x, path, digits, 0))
  {
    hide Printed, IsNumber, CountAt;
    PrintedCountAt(t, x, path, digits, 0);
    assert t[0..] == t;
  }

  lemma PrintedLinkAt(t: string, x: string, path: string, digits: string, u: nat, n: nat)
    requires Printed(t, x, path, digits) && path != "" && ')' !in path
    requires u < n && n + 1 < |x| && x[u] == '|' && (forall k | u < k < n :: Blank(x[k])) && x[n] == '['
    requires forall k | n < k < |x| :: x[k] != ']'
    ensures LinkAt(t[u + 2..], Link(n - u, |x| - u, |x| + 2 + |path| - u))
    ensures t[u + 2..][|x| - u + 2..|x| + 2 + |path| - u] == path
  {
    hide Blank;
    var own := t[u + 2..];
    assert forall k {:trigger own[k]} | 0 <= k < |own| :: own[k] == t[u + 2 + k];
    forall k | 1 <= k < n - u ensures Blank(own[k]) { assert own[k] == x[u + k]; }
    forall k | n - u < k < |x| - u ensures own[k] != ']' { assert own[k] == x[u + k]; }
    forall k | |x| - u + 2 <= k < |x| + 2 + |path| - u
      ensures own[k] == path[k - (|x| - u + 2)] && own[k] != ')'
    {
      assert path[k - (|x| - u + 2)] in path;
    }
    assert own[0] == x[u] && own[n - u] == x[n];
  }

  /** A readable row reads back with its path and count, and its count can be rewritten. */
  lemma PrintedReadsBack(path: string, digits: string, description: string)
    requires Readable(path) && IsNumber(digits)
    ensures var t := RowText(path, digits, description);
      IsRow(t) && PathOf(t) == path && DigitsOf(t) == digits && Reached(t)
  {
    var t, x := RowText(path, digits, description), Label(path);
    RowTextPrinted(path, digits, description);
    hide RowText, Printed, IsNumber, LinkAt, CountAt, ReadCell, Label;
    var u := CharFrom(x, '|', 0);
    var n := BlanksEnd(x, u + 1);
    PrintedLinkAt(t, x, path, digits, u, n);
    PrintedCountAt(t, x, path, digits, u + 2);
    var row := Row(u + 2, Cell(Link(n - u, |x| - u, |x| + 2 + |path| - u), PrintedCount(x, path, digits, u + 2)));
    PrintedBars(t, x, path, digits, u);
    ReadRowFinds(t, row);
    PrintedStraight(t, path, digits, row);
    StraightIsReached(t);
  }

  lemma PrintedBars(t: string, x: string, path: string, digits: string, u: nat)
    requires Printed(t, x, path, digits) && u < |x| && x[u] == '|' && forall k | 0 <= k < u :: x[k] != '|'
    ensures |t| > u + 2 && t[0] == '|' == t[u + 2] && forall k | 1 <= k < u + 2 :: t[k] != '|'
  {
    forall k | 1 <= k < u + 2 ensures t[k] != '|' { assert k >= 2 ==> t[k] == x[k - 2]; }
  }

  lemma PrintedStraight(t: string, path: string, digits: string, row: Row)
    requires Printed(t, Label(path), path, digits) && IsNumber(digits) && ')' !in path
    requires ReadRow(t) == Some(row) && row.j <= |Label(path)| + 2
    requires row.cell.count == PrintedCount(Label(path), path, digits, row.j)
    ensures Straight(t)
  {
    hide Printed, IsNumber, Label, LinkAt, CountAt, ReadCell, ReadCount, ReadRow, RowAt;
    if ReadCell(t).Some? {
      var c, x := ReadCell(t).value, Label(path);
      LabelChars(path);
      PrintedFirstParen(t, x, path, digits, c.link);
      PrintedCountWhole(t, x, path, digits);
      ReadCountFinds(t, |x| + 5 + |path|, PrintedCount(x, path, digits, 0));
      ReadCountFinds(t, |x| + 5 + |path|, c.count);
    }
  }

  lemma LabelChars(path: string)
    requires ')' !in path
    ensures ')' !in Label(path) && exists k | 0 <= k < |Label(path)| :: !Blank(Label(path)[k])
  {
    CutChars(path, '/', ')');
    assert !Blank('|') && Label(path)[|Category(path)| + 1] == '|';
    assert ')' !in Category(path) && ')' !in DisplayName(path);
  }

  /** A link that starts at the first character runs to the ')' behind the path. */
  lemma PrintedFirstParen(t: string, x: string, path: string, digits: string, l: Link)
    requires Printed(t, x, path, digits) && ')' !in path && ')' !in x && LinkAt(t, l)
    requires exists k | 0 <= k < |x| :: !Blank(x[k])
    ensures l.r == |x| + 4 + |path|
  {
    hide Blank;
    var k :| 0 <= k < |x| && !Blank(x[k]);
    assert t[k + 2] == x[k];
    assert l.n <= k + 2;
    assert l.q <= |x| + 2;
    var b := |x| + 4 + |path|;
    forall i | 0 <= i < b ensures t[i] != ')' {
      assert i < 2 || (i < |x| + 2 && x[i - 2] in x) || i < |x| + 4 || path[i - |x| - 4] in path;
    }
  }

  /** What a row is read as never holds a ')'. */
  lemma ReadPathPlain(line: string)
    requires IsRow(line)
    ensures ')' !in PathOf(line) && (OneLine(line) ==> OneLine(PathOf(line)))
  {
    var row := ReadRow(line).value;
    var own := line[row.j..];
    assert PathOf(line) == own[row.cell.link.q + 2..row.cell.link.r];
    hide CountAt, ReadRow;
  }

  /** A row that was printed with a label that does not end where it should is no row, or is read
      with a longer path. */
  lemma UnreadableReadsLonger(path: string, digits: string, description: string)
    requires ')' !in path && IsNumber(digits) && !Bracketed(Label(path))
    requires IsRow(RowText(path, digits, description))
    ensures |PathOf(RowText(path, digits, description))| > |path|
  {
    hide RowText, Label, Printed, IsNumber, LinkAt, CountAt, ReadRow, ReadCell, Bracketed;
    var t, x := RowText(path, digits, description), Label(path);
    RowTextPrinted(path, digits, description);
    LabelChars(path);
    LabelOpens(path);
    var row := ReadRow(t).value;
    var u := CharFrom(x, '|', 0);
    PrintedBars(t, x, path, digits, u);
    assert row.j == u + 2;
    LinkOfLabel(t, x, path, digits, u, row.cell.link);
    PathLength(t);
  }

  lemma PathLength(line: string)
    requires IsRow(line)
    ensures var l := ReadRow(line).value.cell.link; |PathOf(line)| == l.r - (l.q + 2)
  {
    hide CountAt, ReadRow;
  }

  /** Behind the first bar of a label there is a '['. */
  lemma LabelOpens(path: string)
    ensures var x := Label(path); var u := CharFrom(x, '|', 0);
      u < |x| && exists k | u < k < |x| :: x[k] == '['
  {
    hide Category, DisplayName;
    var c, x := Category(path), Label(path);
    assert x[|c| + 1] == '|' && x[|c| + 3] == '[';
  }

  lemma LinkOfLabel(t: string, x: string, path: string, digits: string, u: nat, l: Link)
    requires Printed(t, x, path, digits) && ')' !in path && ')' !in x
    requires u == CharFrom(x, '|', 0) < |x| && LinkAt(t[u + 2..], l) && !Bracketed(x)
    requires exists k | u < k < |x| :: x[k] == '['
    ensures l.r - (l.q + 2) > |path|
  {
    var own := t[u + 2..];
    OwnLabel(t, x, path, digits, u);
    hide Printed, Blank, Bracketed;
    OpeningIsNext(own, x, u, l);
    LabelCloses(own, x, u, l);
    assert l.r >= |x| - u + 2 + |path| by { hide CharFrom; }
  }

  /** A printed row seen from its second bar on: the label goes on up to its end, and the first ')'
      stands behind the path. */
  lemma OwnLabel(t: string, x: string, path: string, digits: string, u: nat)
    requires Printed(t, x, path, digits) && ')' !in path && ')' !in x && u < |x|
    ensures var own := t[u + 2..];
      && |own| > |x| - u + 2 + |path|
      && (forall k | 0 <= k < |x| - u :: own[k] == x[u + k]) && own[|x| - u] == ']'
      && forall k | 0 <= k < |x| - u + 2 + |path| :: own[k] != ')'
  {
    var own, z := t[u + 2..], |x| - u;
    assert forall k {:trigger own[k]} | 0 <= k < |own| :: own[k] == t[u + 2 + k];
    forall i | 0 <= i < z + 2 + |path| ensures own[i] != ')' {
      assert i < z ==> x[u + i] in x;
      assert z + 2 <= i ==> own[i] == path[i - z - 2] && path[i - z - 2] in path;
    }
  }

  lemma OpeningIsNext(own: string, x: string, u: nat, l: Link)
    requires u < |x| && LinkAt(own, l) && |own| >= |x| - u && forall k | 0 <= k < |x| - u :: own[k] == x[u + k]
    requires exists k | u < k < |x| :: x[k] == '['
    ensures l.n < |x| - u
  {
    BlankOrNot();
    hide Blank;
    var k :| u < k < |x| && x[k] == '[';
    assert own[k - u] == '[';
  }

  lemma LabelCloses(own: string, x: string, u: nat, l: Link)
    requires u == CharFrom(x, '|', 0) < |x| && LinkAt(own, l) && l.n < |x| - u < |own|
    requires (forall k | 0 <= k < |x| - u :: own[k] == x[u + k]) && own[|x| - u] == ']'
    ensures l.q <= |x| - u && (l.q == |x| - u ==> Bracketed(x))
  {
    BlankOrNot();
    hide Blank, BlanksEnd, CharFrom;
    if l.q == |x| - u {
      forall k | u + 1 <= k < |x| ensures x[k] == own[k - u] { assert own[k - u] == x[u + (k - u)]; }
      BlanksEndIs(x, u + 1, u + l.n);
    }
  }

  /** The printed row of a path reads back with this path exactly when the path is readable. */
  lemma RowReadsBackExactly(path: string, digits: string, description: string)
    requires path != "" && IsNumber(digits) && OneLine(path)
    ensures var t := RowText(path, digits, description);
      (IsRow(t) && PathOf(t) == path && DigitsOf(t) == digits) <==> Readable(path)
  {
    hide RowText, IsRow, PathOf, DigitsOf, Bracketed, Label;
    var t := RowText(path, digits, description);
    if Readable(path) { PrintedReadsBack(path, digits, description); }
    if IsRow(t) && PathOf(t) == path {
      ReadPathPlain(t);
      if !Bracketed(Label(path)) { UnreadableReadsLonger(path, digits, description); }
    }
  }

  /** A row whose category starts with a link of its own. */
  function Crooked(digit: string): string {
    "|[a](|[)|" + digit + "|y](p)|7|"
  }

  /** Not every row's count is reached: here the count pattern meets the 5 first, and goes on behind it,
      so the row is rewritten and still states its old count. */
  lemma CrookedRowKeepsItsCount()
    ensures ReplaceCounts(Crooked("5"), "9") == Crooked("9")
    ensures forall d | d == "5" || d == "9" ::
      IsRow(Crooked(d)) && PathOf(Crooked(d)) == "p" && DigitsOf(Crooked(d)) == "7"
    ensures !Reached(Crooked("5"))
  {
    assert IsNumber("5") && IsNumber("9") && "7" != "9";
    hide *;
    CrookedRow("5");
    CrookedRow("9");
    CrookedReplaced();
    RowRewritten(Crooked("5"), "9");
  }

  lemma CrookedReplaced()
    ensures ReplaceCounts(Crooked("5"), "9") == Crooked("9")
  {
    CrookedCell();
    NothingToReplace();
    CrookedParts();
    hide ReplaceCounts, ReadCell, CellAt, Crooked;
    ReplaceMatch(Crooked("5"), Cell(Link(1, 3, 7), Count(8, 9, 10, 10)), "9");
  }

  lemma CrookedParts()
    ensures var line := Crooked("5");
      |line| == 19 && line[..9] + "9" + line[10..11] + line[11..] == Crooked("9") && line[11..] == "y](p)|7|"
  {
    var line := Crooked("5");
    assert line[..9] == "|[a](|[)|" && line[10..11] == "|" && line[11..] == "y](p)|7|";
  }

  lemma CrookedRow(digit: string)
    requires |digit| == 1 && IsNumber(digit)
    ensures IsRow(Crooked(digit)) && PathOf(Crooked(digit)) == "p" && DigitsOf(Crooked(digit)) == "7"
  {
    var line := Crooked(digit);
    var own := "|[)|" + digit + "|y](p)|7|";
    var c := Cell(Link(1, 7, 10), Count(11, 12, 13, 13));
    assert line[5..] == own && own[9..10] == "p" && own[12..13] == "7";
    assert own[4] == digit[0] && digit[0] in digit;
    assert LinkAt(own, c.link);
    assert CountAt(own, 11, c.count);
    hide LinkAt, CountAt, ReadCell, ReadRow;
    ReadRowFinds(line, Row(5, c));
  }

  lemma CrookedCell()
    ensures ReadCell(Crooked("5")) == Some(Cell(Link(1, 3, 7), Count(8, 9, 10, 10)))
  {
    var line := Crooked("5");
    assert LinkAt(line, Link(1, 3, 7));
    assert CountAt(line, 8, Count(8, 9, 10, 10));
    hide LinkAt, CountAt, ReadCell;
    ReadCellFinds(line, Cell(Link(1, 3, 7), Count(8, 9, 10, 10)));
  }

  lemma NothingToReplace()
    ensures ReplaceCounts("y](p)|7|", "9") == "y](p)|7|"
  {
    hide *;
    var rest, tail := "y](p)|7|", "|7|";
    assert rest[..5] == "y](p)" && rest[5..] == tail && tail[1..] == "7|" && "7|"[1..] == "|" && "|"[1..] == "";
    assert forall k | 0 <= k < 5 :: rest[k] != '|';
    NoCellLeft();
    ReplaceNothing("9");
    ReplaceSkips(rest, "9", 5);
    ReplaceStep(tail, "9");
    ReplaceSkips("7|", "9", 1);
    ReplaceStep("|", "9");
  }

  lemma NoCellLeft()
    ensures ReadCell("|7|") == None && ReadCell("|") == None
  {
    assert !Blank('7') && BlanksEnd("|7|", 1) == 1;
  }
}
