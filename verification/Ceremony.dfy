/** Ceremony sections of SPRINT.md, pkg/sprint/ceremony_template.go: the section templates that
    are missing are put behind the "Done Criteria" section, or at the end of the document. */
module Ceremony {
  import opened Text

  // ---- the section patterns ----

  /** The alternatives at the end of a section pattern: plain words, and "Phase" with a number. */
  datatype Word = Plain(text: string) | Phase(digit: char)

  const RETRO := [Plain("KPT"), Plain("Retro"), Plain("retro"), Phase('5')]
  const LESSONS := [Plain("KB"), Plain("Learned"), Plain("learned"), Phase('6')]
  const FOLLOW_UP := [
    Plain("Follow-up"), Plain("follow-up"), Plain("Followup"), Plain("followup"), Phase('9')]

  /** The word stands at q and ends before e. */
  predicate WordAt(s: string, q: nat, w: Word, e: nat)
    requires q <= e <= |s|
  {
    match w
    case Plain(text) => s[q..e] == text
    case Phase(digit) =>
      && q + 5 < e && s[q..q + 5] == "Phase" && s[e - 1] == digit
      && forall k | q + 5 <= k < e - 1 :: Blank(s[k])
  }

  predicate LineStart(s: string, i: int) {
    0 <= i <= |s| && (i == 0 || s[i - 1] == '\n')
  }

  predicate HeadingAt(s: string, i: int) {
    LineStart(s, i) && i + 2 < |s| && s[i] == '#' == s[i + 1] && Blank(s[i + 2])
  }

  /** A match from i to e: the heading mark, blanks up to p, one line's text up to q, the word. */
  predicate Span(s: string, words: seq<Word>, i: nat, p: nat, q: nat, e: nat)
    requires i <= p <= q <= e <= |s|
  {
    && HeadingAt(s, i) && i + 3 <= p
    && (forall k | i + 2 <= k < p :: Blank(s[k]))
    && (forall k | p <= k < q :: s[k] != '\n')
    && exists w | w in words :: WordAt(s, q, w, e)
  }

  predicate Matches(s: string, words: seq<Word>) {
    exists i, p, q, e | 0 <= i <= |s| && i <= p <= |s| && p <= q <= |s| && q <= e <= |s| ::
      Span(s, words, i, p, q, e)
  }

  // ---- the missing sections ----

  const RETRO_HEADING := "## Retrospective (KPT)"
  const LESSONS_HEADING := "## Lessons Learned"
  const FOLLOW_UP_HEADING := "## Follow-up Tasks"

  /** The template texts below the headings; each ends with a newline. */
  datatype Bodies = Bodies(retro: string, lessons: string, followUp: string) {
    predicate Valid() {
      EndsLine(retro) && EndsLine(lessons) && EndsLine(followUp)
    }
  }

  predicate EndsLine(s: string) {
    s != [] && s[|s| - 1] == '\n'
  }

  function Section(s: string, words: seq<Word>, heading: string, body: string): string {
    if Matches(s, words) then "" else heading + body
  }

  function MissingSections(s: string, b: Bodies): string {
    Section(s, RETRO, RETRO_HEADING, b.retro)
    + Section(s, LESSONS, LESSONS_HEADING, b.lessons)
    + Section(s, FOLLOW_UP, FOLLOW_UP_HEADING, b.followUp)
  }

  // ---- the place ----

  function LastNewline(s: string, i: nat, r: nat): (p: int)
    requires i <= r <= |s|
    ensures p == -1 || (i <= p < r && s[p] == '\n')
  {
    if i == r then -1 else if s[r - 1] == '\n' then r - 1 else LastNewline(s, i, r - 1)
  }

  /** Where a "Done Criteria" heading that starts at i ends, or -1: trailing blanks belong to it
      as far as a line end, and the longest such run is taken. */
  function AnchorEnd(s: string, i: nat): (e: int)
    requires i <= |s|
    ensures e == -1 || (i <= e <= |s| && (e < |s| ==> s[e] == '\n'))
  {
    if !HeadingAt(s, i) then -1
    else
      var done := BlanksEnd(s, i + 2);
      if !At(s, done, "Done") then -1
      else
        var criteria := BlanksEnd(s, done + 4);
        if criteria == done + 4 || !At(s, criteria, "Criteria") then -1
        else
          var r := BlanksEnd(s, criteria + 8);
          if r == |s| then r else LastNewline(s, criteria + 8, r)
  }

  function FindAnchor(s: string, i: nat): (e: int)
    requires i <= |s|
    ensures e == -1 || (i <= e <= |s| && (e < |s| ==> s[e] == '\n'))
    decreases |s| - i
  {
    if AnchorEnd(s, i) >= 0 then AnchorEnd(s, i) else if i == |s| then -1 else FindAnchor(s, i + 1)
  }

  function NextHeading(s: string, i: nat): (n: int)
    requires i <= |s|
    ensures n == -1 || (i <= n < |s| && HeadingAt(s, n))
    ensures forall k | i <= k <= |s| && HeadingAt(s, k) :: 0 <= n <= k
    decreases |s| - i
  {
    if HeadingAt(s, i) then i else if i == |s| then -1 else NextHeading(s, i + 1)
  }

  /** Right before the first heading below the anchor, or the end of the document. */
  function InsertAt(s: string): (at: nat)
    ensures at <= |s| && (at < |s| ==> at > 0 && HeadingAt(s, at))
    ensures var e := FindAnchor(s, 0); e >= 0 ==> e <= at && forall k | e < k < at :: !HeadingAt(s, k)
  {
    var e := FindAnchor(s, 0);
    if e < 0 then |s|
    else
      var rest := s[e..];
      var n := NextHeading(rest, 0);
      HeadingsBelow(s, e);
      if n >= 0 then e + n else |s|
  }

  /** The search in the rest of the document finds the document's own headings. */
  lemma HeadingsBelow(s: string, e: nat)
    requires e <= |s| && (e < |s| ==> s[e] == '\n')
    ensures forall k | 0 <= k <= |s| - e :: HeadingAt(s[e..], k) ==> k > 0
    ensures forall k | e < k <= |s| :: HeadingAt(s, k) <==> HeadingAt(s[e..], k - e)
  {
  }

  /** The newlines that make the text end with a blank line. */
  function Padding(s: string): string {
    if |s| >= 2 && s[|s| - 2..] == "\n\n" then "" else if EndsLine(s) then "\n" else "\n\n"
  }

  function EnsureTrailingNewline(s: string): string {
    s + Padding(s)
  }

  function AppendAfterAnchor(content: string, toAppend: string): string {
    var e := FindAnchor(content, 0);
    if e < 0 then content
    else
      var rest := content[e..];
      var next := NextHeading(rest, 0);
      var insertAt := if next >= 0 then e + next else |content|;
      EnsureTrailingNewline(content[..insertAt]) + toAppend + content[insertAt..]
  }

  /** Inserting below the anchor never leaves the text as it was. */
  lemma AppendedAt(s: string, toAppend: string)
    requires toAppend != "" && FindAnchor(s, 0) >= 0
    ensures AppendAfterAnchor(s, toAppend) == Inserted(s, InsertAt(s), Padding(s[..InsertAt(s)]) + toAppend)
    ensures |AppendAfterAnchor(s, toAppend)| > |s|
  {
    hide HeadingAt, Padding, FindAnchor, NextHeading;
  }

  /** Without an anchor the place is the end of the document. */
  lemma AppendedAtEnd(s: string, toAppend: string)
    requires FindAnchor(s, 0) < 0
    ensures EnsureTrailingNewline(s) + toAppend == Inserted(s, InsertAt(s), Padding(s[..InsertAt(s)]) + toAppend)
  {
  }

  function Inserted(s: string, at: nat, block: string): string
    requires at <= |s|
  {
    s[..at] + block + s[at..]
  }

  class SprintDocument {
    var content: string

    method EnsureCeremonySections(b: Bodies)
      modifies this
      ensures content == Ensured(old(content), b)
    {
      hide MissingSections, InsertAt, Padding, Inserted, FindAnchor, NextHeading, EnsureTrailingNewline;
      var toAppend := MissingSections(content, b);
      if toAppend == "" { return; }
      var newContent := AppendAfterAnchor(content, toAppend);
      if FindAnchor(content, 0) >= 0 { AppendedAt(content, toAppend); } else { AppendedAtEnd(content, toAppend); }
      hide AppendAfterAnchor;
      if newContent == content {
        newContent := EnsureTrailingNewline(content) + toAppend;
      }
      content := newContent;
    }
  }

  /** The block of new sections with the newlines put before it. */
  function Block(s: string, b: Bodies): string {
    Padding(s[..InsertAt(s)]) + MissingSections(s, b)
  }

  /** The whole operation: one block inserted at one place, or nothing at all. */
  function Ensured(s: string, b: Bodies): string {
    if MissingSections(s, b) == "" then s else Inserted(s, InsertAt(s), Block(s, b))
  }

  // ---- what it achieves ----

  predicate ReadsSame(s: string, i: nat, e: nat, t: string, d: nat) {
    e <= |s| && e + d <= |t| && forall k | i <= k < e :: t[k + d] == s[k]
  }

  lemma WordMoves(s: string, t: string, q: nat, w: Word, e: nat, d: nat)
    requires q <= e && ReadsSame(s, q, e, t, d) && WordAt(s, q, w, e)
    ensures WordAt(t, q + d, w, e + d)
  {
    match w
    case Plain(text) =>
      assert t[q + d..e + d] == s[q..e];
    case Phase(digit) =>
      assert t[q + d..q + d + 5] == s[q..q + 5];
      forall k | q + d + 5 <= k < e + d - 1 ensures Blank(t[k]) { assert t[k - d + d] == s[k - d]; }
      assert t[e - 1 + d] == s[e - 1];
  }

  /** A match is moved by d characters, to a text that reads the same there. */
  lemma SpanMoves(s: string, t: string, words: seq<Word>, i: nat, p: nat, q: nat, e: nat, d: nat)
    requires i <= p <= q <= e <= |s| && Span(s, words, i, p, q, e)
    requires ReadsSame(s, i, e, t, d) && LineStart(t, i + d) && i + 2 < e
    ensures Matches(t, words)
  {
    hide WordAt, Blank;
    var w :| w in words && WordAt(s, q, w, e);
    WordMoves(s, t, q, w, e, d);
    forall k | i + d + 2 <= k < p + d ensures Blank(t[k]) { assert t[k - d + d] == s[k - d]; }
    forall k | p + d <= k < q + d ensures t[k] != '\n' { assert t[k - d + d] == s[k - d]; }
    assert HeadingAt(t, i + d) by {
      assert t[i + d] == s[i] && t[i + 1 + d] == s[i + 1] && t[i + 2 + d] == s[i + 2];
    }
    assert Span(t, words, i + d, p + d, q + d, e + d);
  }

  /** No word starts with a blank, and none runs over the start of a heading. */
  predicate Proper(words: seq<Word>) {
    forall i | 0 <= i < |words| :: ProperWord(words[i])
  }

  predicate ProperWord(w: Word) {
    match w
    case Plain(text) => text != [] && !Blank(text[0]) && '#' !in text && '\n' !in text
    case Phase(digit) => digit != '#' && !Blank(digit)
  }

  /** A match across the start of another heading is also a match of that heading. */
  lemma SpanFromHeading(s: string, words: seq<Word>, i: nat, p: nat, q: nat, e: nat, at: nat)
    requires i <= p <= q <= e <= |s| && Span(s, words, i, p, q, e)
    requires i < at < e && HeadingAt(s, at) && Proper(words)
    ensures at + 3 <= q && Span(s, words, at, at + 3, q, e)
  {
  }

  /** Inserting a block at a heading or at the end loses no match. */
  lemma StillMatches(s: string, words: seq<Word>, at: nat, block: string)
    requires Matches(s, words) && Proper(words) && EndsLine(block)
    requires at <= |s| && (at < |s| ==> HeadingAt(s, at))
    ensures Matches(s[..at] + block + s[at..], words)
  {
    var t := s[..at] + block + s[at..];
    assert ReadsSame(s, 0, at, t, 0) && ReadsSame(s, at, |s|, t, |block|) && t[at + |block| - 1] == '\n';
    MatchSurvives(s, t, words, at, |block|);
  }

  lemma MatchSurvives(s: string, t: string, words: seq<Word>, at: nat, n: nat)
    requires Matches(s, words) && Proper(words)
    requires at <= |s| && (at < |s| ==> HeadingAt(s, at))
    requires ReadsSame(s, 0, at, t, 0) && ReadsSame(s, at, |s|, t, n) && n > 0 && t[at + n - 1] == '\n'
    ensures Matches(t, words)
  {
    var i, p, q, e :| 0 <= i <= |s| && i <= p <= |s| && p <= q <= |s| && q <= e <= |s| && Span(s, words, i, p, q, e);
    hide Matches, Proper, Span, ReadsSame, HeadingAt;
    SpanSurvives(s, t, words, at, n, i, p, q, e);
  }

  lemma SpanSurvives(s: string, t: string, words: seq<Word>, at: nat, n: nat, i: nat, p: nat, q: nat, e: nat)
    requires i <= p <= q <= e <= |s| && Span(s, words, i, p, q, e) && Proper(words)
    requires at <= |s| && (at < |s| ==> HeadingAt(s, at))
    requires ReadsSame(s, 0, at, t, 0) && ReadsSame(s, at, |s|, t, n) && n > 0 && t[at + n - 1] == '\n'
    ensures Matches(t, words)
  {
    hide Matches, Proper, Blank, WordAt;
    WordIsLong(s, words, i, p, q, e);
    if e <= at {
      SpanMoves(s, t, words, i, p, q, e, 0);
    } else if i < at {
      SpanFromHeading(s, words, i, p, q, e, at);
      SpanMoves(s, t, words, at, at + 3, q, e, n);
    } else {
      SpanMoves(s, t, words, i, p, q, e, n);
    }
  }

  lemma WordIsLong(s: string, words: seq<Word>, i: nat, p: nat, q: nat, e: nat)
    requires i <= p <= q <= e <= |s| && Span(s, words, i, p, q, e)
    ensures i + 2 < e && LineStart(s, i)
  {
  }

  /** The heading carries one of its pattern's words. */
  predicate Titled(words: seq<Word>, heading: string, w: string, off: nat) {
    && Proper(words) && Plain(w) in words && 3 <= off && At(heading, off, w)
    && heading[0] == '#' == heading[1] && heading[2] == ' '
    && forall k | 3 <= k < off :: heading[k] != '\n'
  }

  lemma HeadingsTitled()
    ensures Titled(RETRO, RETRO_HEADING, "Retro", 3)
    ensures Titled(LESSONS, LESSONS_HEADING, "Learned", 11)
    ensures Titled(FOLLOW_UP, FOLLOW_UP_HEADING, "Follow-up", 3)
  {
    RetroTitled();
    LessonsTitled();
    FollowUpTitled();
  }

  lemma PatternsProper()
    ensures Proper(RETRO) && Proper(LESSONS) && Proper(FOLLOW_UP)
  {
  }

  lemma RetroTitled()
    ensures Titled(RETRO, RETRO_HEADING, "Retro", 3)
  {
    PatternsProper();
    hide Proper;
    HeadingTitled(RETRO, 1, RETRO_HEADING, "", "Retro", "spective (KPT)");
  }

  lemma LessonsTitled()
    ensures Titled(LESSONS, LESSONS_HEADING, "Learned", 11)
  {
    PatternsProper();
    hide Proper;
    HeadingTitled(LESSONS, 1, LESSONS_HEADING, "Lessons ", "Learned", "");
  }

  lemma FollowUpTitled()
    ensures Titled(FOLLOW_UP, FOLLOW_UP_HEADING, "Follow-up", 3)
  {
    PatternsProper();
    hide Proper;
    HeadingTitled(FOLLOW_UP, 0, FOLLOW_UP_HEADING, "", "Follow-up", " Tasks");
  }

  lemma HeadingTitled(words: seq<Word>, i: nat, heading: string, lead: string, w: string, rest: string)
    requires Proper(words) && i < |words| && words[i] == Plain(w)
    requires heading == "## " + lead + w + rest && '\n' !in lead
    ensures Titled(words, heading, w, 3 + |lead|)
  {
    hide Proper;
    assert heading[3 + |lead|..3 + |lead| + |w|] == w;
    forall k | 3 <= k < 3 + |lead| ensures heading[k] != '\n' { assert heading[k] == lead[k - 3]; }
  }

  /** A heading that carries one of the words matches wherever it starts a line. */
  lemma HeadingMatches(pre: string, heading: string, post: string, words: seq<Word>, w: string, off: nat)
    requires EndsLine(pre)
    requires Titled(words, heading, w, off)
    ensures Matches(pre + heading + post, words)
  {
    var t, n := pre + heading + post, |pre|;
    assert t[n..n + |heading|] == heading;
    assert t[n + off..n + off + |w|] == heading[off..off + |w|];
    assert WordAt(t, n + off, Plain(w), n + off + |w|);
    assert forall k | 3 <= k < off :: t[n + k] == heading[k];
    forall k | n + 3 <= k < n + off ensures t[k] != '\n' { assert t[k] == heading[k - n]; }
    assert Span(t, words, n, n + 3, n + off, n + off + |w|);
  }

  /** Afterwards all three sections are there. */
  lemma AllSectionsPresent(s: string, b: Bodies)
    requires b.Valid()
    ensures Matches(Ensured(s, b), RETRO) && Matches(Ensured(s, b), LESSONS) && Matches(Ensured(s, b), FOLLOW_UP)
  {
    HeadingsTitled();
    hide InsertAt, Padding, Section, Matches, Titled;
    var x := Section(s, RETRO, RETRO_HEADING, b.retro);
    var y := Section(s, LESSONS, LESSONS_HEADING, b.lessons);
    var z := Section(s, FOLLOW_UP, FOLLOW_UP_HEADING, b.followUp);
    SectionEndsLine(s, RETRO, RETRO_HEADING, b.retro);
    SectionEndsLine(s, LESSONS, LESSONS_HEADING, b.lessons);
    SectionEndsLine(s, FOLLOW_UP, FOLLOW_UP_HEADING, b.followUp);
    if MissingSections(s, b) != "" {
      var at, pad := InsertAt(s), Padding(s[..InsertAt(s)]);
      PaddingEndsLine(s[..at]);
      Regroup(pad, x, y, z);
      hide Ensured, EndsLine;
      assert Matches(s[..at] + (pad + (x + y + z)) + s[at..], RETRO) by {
        SectionPresent(s, at, pad, RETRO, RETRO_HEADING, b.retro, y + z, "Retro", 3);
      }
      assert Matches(s[..at] + (pad + (x + y + z)) + s[at..], LESSONS) by {
        LineStays(s[..at], pad, x);
        SectionPresent(s, at, pad + x, LESSONS, LESSONS_HEADING, b.lessons, z, "Learned", 11);
      }
      assert Matches(s[..at] + (pad + (x + y + z)) + s[at..], FOLLOW_UP) by {
        LineStays(s[..at], pad, x);
        LineStays(s[..at], pad + x, y);
        SectionPresent(s, at, pad + x + y, FOLLOW_UP, FOLLOW_UP_HEADING, b.followUp, "", "Follow-up", 3);
      }
    }
  }

  lemma Regroup(pad: string, x: string, y: string, z: string)
    ensures pad + (x + y + z) == pad + x + (y + z) == (pad + x) + y + z == (pad + x + y) + z + ""
    ensures x + y + z != "" && (x == "" || EndsLine(x)) && (y == "" || EndsLine(y)) && (z == "" || EndsLine(z))
      ==> EndsLine(pad + (x + y + z))
  {
  }

  lemma LineStays(s: string, pre: string, x: string)
    requires EndsLine(s + pre) && (x == "" || EndsLine(x))
    ensures EndsLine(s + (pre + x))
  {
  }

  lemma SectionEndsLine(s: string, words: seq<Word>, heading: string, body: string)
    requires EndsLine(body)
    ensures var x := Section(s, words, heading, body); if Matches(s, words) then x == "" else EndsLine(x)
  {
  }

  /** A section that was missing is found by its heading, another one where it was before. */
  lemma SectionPresent(s: string, at: nat, pre: string, words: seq<Word>, heading: string, body: string,
                       post: string, w: string, off: nat)
    requires at <= |s| && (at < |s| ==> HeadingAt(s, at))
    requires EndsLine(s[..at] + pre)
    requires EndsLine(pre + Section(s, words, heading, body) + post)
    requires Titled(words, heading, w, off)
    ensures Matches(s[..at] + (pre + Section(s, words, heading, body) + post) + s[at..], words)
  {
    hide Matches, Proper, At;
    if Matches(s, words) {
      StillMatches(s, words, at, pre + Section(s, words, heading, body) + post);
    } else {
      HeadingMatches(s[..at] + pre, heading, body + post + s[at..], words, w, off);
      assert s[..at] + (pre + (heading + body) + post) + s[at..]
          == (s[..at] + pre) + heading + (body + post + s[at..]);
    }
  }

  lemma PaddingEndsLine(s: string)
    ensures EndsLine(s + Padding(s)) && |Padding(s)| <= 2
    ensures |s + Padding(s)| >= 2 && (s + Padding(s))[|s + Padding(s)| - 2] == '\n'
  {
  }

  /** A second call changes nothing. */
  lemma EnsuredTwice(s: string, b: Bodies)
    requires b.Valid()
    ensures Ensured(Ensured(s, b), b) == Ensured(s, b)
  {
    AllSectionsPresent(s, b);
  }

  /** The original is the new text with one block taken out: at most two newlines and the
      templates of exactly the sections that were missing. It stands at the end or right before
      a heading, with no other heading between it and the anchor. */
  lemma InsertOnly(s: string, b: Bodies)
    ensures var at, t, n := InsertAt(s), Ensured(s, b), |Ensured(s, b)| - |s|;
      && n >= 0 && at + n <= |t|
      && s == t[..at] + t[at + n..]
      && t[at..at + n] == if t == s then "" else Padding(s[..at]) + MissingSections(s, b)
    ensures forall c | c in Padding(s[..InsertAt(s)]) :: c == '\n'
    ensures |Padding(s[..InsertAt(s)])| <= 2
  {
    hide InsertAt, MissingSections;
    Excised(s, InsertAt(s), Block(s, b));
    Excised(s, InsertAt(s), "");
    assert Inserted(s, InsertAt(s), "") == s;
  }

  lemma Excised(s: string, at: nat, block: string)
    requires at <= |s|
    ensures var t := Inserted(s, at, block);
      s == t[..at] + t[at + |block|..] && t[at..at + |block|] == block && |t| == |s| + |block|
  {
  }
}
