/** The section patterns of pkg/sprint/ceremony_template.go word by word, and the document that comes out. */
module CeremonyExamples {
  import opened Text
  import opened Ceremony

  // ---- what the patterns look for ----

  /** "Phase", then blanks, then the digit. */
  predicate HasPhase(s: string, digit: char) {
    exists i | 0 <= i <= |s| :: At(s, i, "Phase") && BlanksEnd(s, i + 5) < |s| && s[BlanksEnd(s, i + 5)] == digit
  }

  /** A match needs one of the words. */
  lemma MatchNeedsWord(s: string)
    ensures Matches(s, RETRO) ==> Contains(s, "KPT") || Contains(s, "Retro") || Contains(s, "retro") || HasPhase(s, '5')
    ensures Matches(s, LESSONS) ==> Contains(s, "KB") || Contains(s, "Learned") || Contains(s, "learned") || HasPhase(s, '6')
    ensures Matches(s, FOLLOW_UP) ==>
      Contains(s, "Follow-up") || Contains(s, "follow-up") || Contains(s, "Followup") || Contains(s, "followup")
      || HasPhase(s, '9')
  {
    hide Contains, HasPhase;
    if Matches(s, RETRO) { var w := WordOf(s, RETRO); }
    if Matches(s, LESSONS) { var w := WordOf(s, LESSONS); }
    if Matches(s, FOLLOW_UP) { var w := WordOf(s, FOLLOW_UP); }
  }

  lemma WordOf(s: string, words: seq<Word>) returns (w: Word)
    requires Matches(s, words) && forall x | x in words && x.Phase? :: !Blank(x.digit)
    ensures w in words && match w case Plain(text) => Contains(s, text) case Phase(digit) => HasPhase(s, digit)
  {
    hide WordAt, HeadingAt, Blank, Contains, HasPhase;
    var i, p, q, e :| 0 <= i <= |s| && i <= p <= |s| && p <= q <= |s| && q <= e <= |s| && Span(s, words, i, p, q, e);
    w :| w in words && WordAt(s, q, w, e);
    WordIsThere(s, q, w, e);
  }

  lemma WordIsThere(s: string, q: nat, w: Word, e: nat)
    requires q <= e <= |s| && WordAt(s, q, w, e) && (w.Phase? ==> !Blank(w.digit))
    ensures match w case Plain(text) => Contains(s, text) case Phase(digit) => HasPhase(s, digit)
  {
    match w
    case Plain(text) => assert At(s, q, text);
    case Phase(digit) =>
      assert At(s, q, "Phase");
      hide Blank;
      BlanksEndIs(s, q + 5, e - 1);
  }

  /** A line that starts with two number signs and a blank, and holds a word further on, is a match. */
  lemma WordMatches(pre: string, gap: string, text: string, w: Word, word: string, post: string, words: seq<Word>)
    requires pre == "" || pre[|pre| - 1] == '\n'
    requires gap != "" && (forall c | c in gap :: Blank(c)) && '\n' !in text
    requires w in words && match w
      case Plain(t) => word == t
      case Phase(digit) => exists blanks :: word == "Phase" + blanks + [digit] && forall c | c in blanks :: Blank(c)
    ensures Matches(pre + "##" + gap + text + word + post, words)
  {
    var s := pre + "##" + gap + text + word + post;
    var i := |pre|;
    var p := i + 2 + |gap|;
    var q := p + |text|;
    var e := q + |word|;
    assert s[i] == '#' == s[i + 1] && forall k | i + 2 <= k < p :: s[k] == gap[k - i - 2];
    assert forall k | p <= k < q :: s[k] == text[k - p];
    assert s[q..e] == word;
    assert WordAt(s, q, w, e) by {
      if w.Phase? {
        var blanks :| word == "Phase" + blanks + [w.digit] && forall c | c in blanks :: Blank(c);
        assert word[..5] == "Phase" && s[q..q + 5] == word[..5];
        forall k | q + 5 <= k < e - 1 ensures Blank(s[k]) { assert s[k] == word[k - q] == blanks[k - q - 5]; }
        assert s[e - 1] == word[|word| - 1];
      }
    }
    assert p >= i + 3;
    assert forall k | i + 2 <= k < p :: Blank(s[k]) by {
      forall k | i + 2 <= k < p ensures Blank(s[k]) { assert gap[k - i - 2] in gap; }
    }
    assert forall k | p <= k < q :: s[k] != '\n' by {
      forall k | p <= k < q ensures s[k] != '\n' { assert text[k - p] in text; }
    }
    hide WordAt, Blank;
    assert Span(s, words, i, p, q, e);
  }

  lemma TheWords()
    ensures Plain("KPT") in RETRO && Plain("Retro") in RETRO && Plain("retro") in RETRO && Phase('5') in RETRO
    ensures Plain("KB") in LESSONS && Plain("Learned") in LESSONS && Plain("learned") in LESSONS && Phase('6') in LESSONS
    ensures Plain("Follow-up") in FOLLOW_UP && Plain("follow-up") in FOLLOW_UP && Plain("Followup") in FOLLOW_UP
    ensures Plain("followup") in FOLLOW_UP && Phase('9') in FOLLOW_UP
  {
    assert RETRO[0] == Plain("KPT") && RETRO[1] == Plain("Retro") && RETRO[2] == Plain("retro") && RETRO[3] == Phase('5');
    assert LESSONS[0] == Plain("KB") && LESSONS[1] == Plain("Learned") && LESSONS[2] == Plain("learned") && LESSONS[3] == Phase('6');
    assert FOLLOW_UP[0] == Plain("Follow-up") && FOLLOW_UP[1] == Plain("follow-up") && FOLLOW_UP[2] == Plain("Followup");
    assert FOLLOW_UP[3] == Plain("followup") && FOLLOW_UP[4] == Phase('9');
  }

  // ---- the document ----

  /** What separates the sections from the text before them: enough newlines for an empty line. */
  lemma PaddingWritten(s: string)
    ensures Padding(s + "\n\n") == "" && (s == "" || s[|s| - 1] != '\n' ==> Padding(s + "\n") == "\n")
    ensures s == "" || s[|s| - 1] != '\n' ==> Padding(s) == "\n\n"
  {
    assert (s + "\n\n")[|s|..] == "\n\n";
    if s == "" || s[|s| - 1] != '\n' {
      assert |s| >= 1 ==> (s + "\n")[|s| - 1..][0] == s[|s| - 1];
      assert |s| >= 2 ==> s[|s| - 2..][1] == s[|s| - 1];
    }
  }

  /** A document without headings gets all three sections at its end. */
  lemma SectionsWritten(s: string, b: Bodies)
    requires b.Valid() && '#' !in s
    ensures Ensured(s, b) == s + Padding(s) + "## Retrospective (KPT)" + b.retro + "## Lessons Learned" + b.lessons
      + "## Follow-up Tasks" + b.followUp
  {
    NoHeadings(s);
    NoAnchor(s, 0);
    hide Matches, FindAnchor, Padding;
    assert s[..|s|] == s && s[|s|..] == "";
    var h, i, j := RETRO_HEADING, LESSONS_HEADING, FOLLOW_UP_HEADING;
    Regrouped(s, Padding(s), h, b.retro, i, b.lessons, j, b.followUp);
    NotEmpty(h, b.retro, i, b.lessons, j, b.followUp, b);
  }

  lemma NotEmpty(h: string, r: string, i: string, l: string, j: string, f: string, b: Bodies)
    requires b.Valid() && r == b.retro
    ensures h + r + (i + l) + (j + f) != ""
  {
  }

  lemma Regrouped(s: string, pad: string, h: string, r: string, i: string, l: string, j: string, f: string)
    ensures s + (pad + (h + r + (i + l) + (j + f))) + "" == s + pad + h + r + i + l + j + f
  {
  }

  lemma NoHeadings(s: string)
    requires '#' !in s
    ensures forall words :: !Matches(s, words)
  {
    forall words ensures !Matches(s, words) {
      forall i, p, q, e | 0 <= i <= |s| && i <= p <= |s| && p <= q <= |s| && q <= e <= |s| ensures !Span(s, words, i, p, q, e) {
        assert i < |s| ==> s[i] in s;
      }
    }
  }

  lemma {:induction false} NoAnchor(s: string, i: nat)
    requires '#' !in s && i <= |s|
    ensures FindAnchor(s, i) == -1
    decreases |s| - i
  {
    assert i < |s| ==> s[i] in s;
    if i < |s| { NoAnchor(s, i + 1); }
  }

  const DONE_CRITERIA := "## Done Criteria\n"

  /** The sections go behind the text below "## Done Criteria": before the next heading, or at the end. */
  lemma AnchorWritten(pre: string, mid: string, below: string)
    requires '#' !in pre && '#' !in mid && (pre == "" || pre[|pre| - 1] == '\n') && (mid == "" || mid[|mid| - 1] == '\n')
    requires below == "" || "## " <= below
    ensures InsertAt(pre + DONE_CRITERIA + mid + below) == |pre| + 17 + |mid|
  {
    AnchorChars(pre, mid, below);
    hide *;
    InsertAtNext(pre + DONE_CRITERIA + mid + below, |pre|, |pre| + 17 + |mid|);
  }

  lemma InsertAtNext(s: string, n: nat, at: nat)
    requires n + 17 <= at <= |s| && (n == 0 || s[n - 1] == '\n') && s[n] == '#' == s[n + 1] && s[n + 2] == ' '
    requires At(s, n + 3, "Done") && s[n + 7] == ' ' && At(s, n + 8, "Criteria") && s[n + 16] == '\n' == s[at - 1]
    requires forall k | 0 <= k < at && k != n && k != n + 1 :: s[k] != '#'
    requires at < |s| ==> |s| > at + 2 && s[at] == '#' == s[at + 1] && s[at + 2] == ' '
    ensures InsertAt(s) == at
  {
    FirstHeading(s, n, at);
    hide HeadingAt, FindAnchor, InsertAt;
    AnchorFound(s, n);
    AnchorIsFirst(s, n, 0);
    EndBefore(s, n, at);
    hide AnchorEnd;
    var e, p := FindAnchor(s, 0), InsertAt(s);
    assert n + 16 <= e <= at && e <= p;
    HeadingsHaveMarks(s, p);
  }

  lemma HeadingsHaveMarks(s: string, p: nat)
    ensures HeadingAt(s, p) ==> p < |s| && s[p] == '#'
  {
  }

  lemma FirstHeading(s: string, n: nat, at: nat)
    requires n + 17 <= at <= |s| && (n == 0 || s[n - 1] == '\n') && s[n] == '#' == s[n + 1] && s[n + 2] == ' '
    requires s[at - 1] == '\n' && (at < |s| ==> |s| > at + 2 && s[at] == '#' == s[at + 1] && s[at + 2] == ' ')
    requires forall k | 0 <= k < at && k != n && k != n + 1 :: s[k] != '#'
    ensures HeadingAt(s, n) && (at < |s| ==> HeadingAt(s, at)) && forall k | 0 <= k < n :: !HeadingAt(s, k)
  {
  }

  lemma AnchorChars(pre: string, mid: string, below: string)
    requires '#' !in pre && '#' !in mid && (pre == "" || pre[|pre| - 1] == '\n') && (mid == "" || mid[|mid| - 1] == '\n')
    requires below == "" || "## " <= below
    ensures var s, n, at := pre + DONE_CRITERIA + mid + below, |pre|, |pre| + 17 + |mid|;
      && |s| >= at && (n == 0 || s[n - 1] == '\n') && s[n] == '#' == s[n + 1] && s[n + 2] == ' '
      && At(s, n + 3, "Done") && s[n + 7] == ' ' && At(s, n + 8, "Criteria") && s[n + 16] == '\n' == s[at - 1]
      && (forall k | 0 <= k < at && k != n && k != n + 1 :: s[k] != '#')
      && (below == "" ==> |s| == at)
      && (below != "" ==> |s| > at + 2 && s[at] == '#' == s[at + 1] && s[at + 2] == ' ')
  {
    DoneChars();
    FourParts(pre, DONE_CRITERIA, mid, below);
  }

  /** The characters of the heading, wherever it stands. */
  predicate IsDone(d: string) {
    && |d| == 17 && d[0] == '#' == d[1] && d[2] == ' ' == d[7] && d[16] == '\n'
    && d[3..7] == "Done" && d[8..16] == "Criteria" && forall k | 2 <= k < 17 :: d[k] != '#'
  }

  lemma DoneChars()
    ensures IsDone(DONE_CRITERIA)
  {
    assert DONE_CRITERIA[3..7] == "Done" && DONE_CRITERIA[8..16] == "Criteria";
  }

  lemma FourParts(pre: string, d: string, mid: string, below: string)
    requires '#' !in pre && '#' !in mid && (pre == "" || pre[|pre| - 1] == '\n') && (mid == "" || mid[|mid| - 1] == '\n')
    requires (below == "" || "## " <= below) && IsDone(d)
    ensures var s, n, at := pre + d + mid + below, |pre|, |pre| + 17 + |mid|;
      && |s| >= at && (n == 0 || s[n - 1] == '\n') && s[n] == '#' == s[n + 1] && s[n + 2] == ' '
      && At(s, n + 3, "Done") && s[n + 7] == ' ' && At(s, n + 8, "Criteria") && s[n + 16] == '\n' == s[at - 1]
      && (forall k | 0 <= k < at && k != n && k != n + 1 :: s[k] != '#')
      && (below == "" ==> |s| == at)
      && (below != "" ==> |s| > at + 2 && s[at] == '#' == s[at + 1] && s[at + 2] == ' ')
  {
    var s, n, at := pre + d + mid + below, |pre|, |pre| + 17 + |mid|;
    assert forall k | 0 <= k < n :: s[k] == pre[k];
    assert forall k {:trigger s[k]} | n <= k < n + 17 :: s[k] == d[k - n];
    assert forall k {:trigger s[k]} | n + 17 <= k < at :: s[k] == mid[k - n - 17];
    assert forall k {:trigger s[k]} | at <= k < |s| :: s[k] == below[k - at];
    forall k | 0 <= k < at && k != n && k != n + 1 ensures s[k] != '#' {
      if k < n { assert pre[k] in pre; }
      if n + 17 <= k { assert mid[k - n - 17] in mid; }
    }
    assert s[n + 3..n + 7] == d[3..7] && s[n + 8..n + 16] == d[8..16];
    assert below != "" ==> below[0] == '#' == below[1] && below[2] == ' ';
  }

  lemma AnchorFound(s: string, n: nat)
    requires n + 17 <= |s| && HeadingAt(s, n) && s[n + 2] == ' ' == s[n + 7] && s[n + 16] == '\n'
    requires At(s, n + 3, "Done") && At(s, n + 8, "Criteria")
    ensures AnchorEnd(s, n) >= n + 16
  {
    AnchorBlanks(s, n);
    LastNewlineFinds(s, n + 16, BlanksEnd(s, n + 16), n + 16);
    hide BlanksEnd, LastNewline;
  }

  lemma AnchorBlanks(s: string, n: nat)
    requires n + 17 <= |s| && s[n + 2] == ' ' == s[n + 7] && s[n + 16] == '\n'
    requires At(s, n + 3, "Done") && At(s, n + 8, "Criteria")
    ensures BlanksEnd(s, n + 2) == n + 3 && BlanksEnd(s, n + 7) == n + 8 && BlanksEnd(s, n + 16) >= n + 17
  {
    assert s[n + 3] == s[n + 3..n + 7][0] == 'D' && s[n + 8] == s[n + 8..n + 16][0] == 'C';
    BlanksEndIs(s, n + 2, n + 3);
    BlanksEndIs(s, n + 7, n + 8);
    assert BlanksEnd(s, n + 16) == BlanksEnd(s, n + 17);
  }

  lemma {:induction false} LastNewlineFinds(s: string, i: nat, r: nat, k: nat)
    requires i <= k < r <= |s| && s[k] == '\n'
    ensures LastNewline(s, i, r) >= k
    decreases r
  {
    if s[r - 1] != '\n' { LastNewlineFinds(s, i, r - 1, k); }
  }

  lemma {:induction false} AnchorIsFirst(s: string, n: nat, i: nat)
    requires i <= n <= |s| && AnchorEnd(s, n) >= 0 && forall k | i <= k < n :: !HeadingAt(s, k)
    ensures FindAnchor(s, i) == AnchorEnd(s, n)
    decreases n - i
  {
    hide HeadingAt;
    if i < n {
      assert AnchorEnd(s, i) == -1;
      AnchorIsFirst(s, n, i + 1);
    }
  }

  /** The match of the heading ends before the next one. */
  lemma EndBefore(s: string, n: nat, at: nat)
    requires n + 17 <= at <= |s| && (at < |s| ==> s[at] == '#') && s[n + 2] == ' ' == s[n + 7] && s[n + 16] == '\n'
    requires At(s, n + 3, "Done") && At(s, n + 8, "Criteria")
    ensures AnchorEnd(s, n) <= at
  {
    AnchorBlanks(s, n);
    var r := BlanksEnd(s, n + 16);
    assert at < |s| ==> !Blank(s[at]);
    hide BlanksEnd, LastNewline, Blank;
    assert r <= at;
  }
}
