/** Splitting a text into lines and joining lines again, as the `splitLines` and `joinLines`
    of pkg/kb and pkg/fileutil do, up to what each of them trims from a line. */
module Lines {
  import opened Text

  function DropLastEmpty(runs: seq<string>): seq<string>
    requires runs != []
  {
    if runs[|runs| - 1] == [] then runs[..|runs| - 1] else runs
  }

  /** The runs between newlines; no empty run after a final newline. */
  function RawLines(s: string): (r: seq<string>)
    ensures forall i | 0 <= i < |r| :: '\n' !in r[i]
  {
    DropLastEmpty(Cut(s, '\n'))
  }

  predicate OneLine(s: string) {
    '\n' !in s
  }

  function JoinLines(lines: seq<string>): string {
    if lines == [] then "" else lines[0] + "\n" + JoinLines(lines[1..])
  }

  lemma RawLinesOfSum(s: string, t: string)
    ensures RawLines(s + "\n") == Cut(s, '\n')
    ensures RawLines(s + "\n" + t) == RawLines(s + "\n") + RawLines(t)
  {
    hide Cut, DropLastEmpty;
    CutPlain("", '\n');
    CutSum(s, '\n', "");
    assert s + "\n" + "" == s + "\n";
    CutSum(s, '\n', t);
    DropLastOfSum(Cut(s, '\n'), Cut(t, '\n'));
    DropLastOfSum(Cut(s, '\n'), [[]]);
  }

  lemma DropLastOfSum(a: seq<string>, b: seq<string>)
    requires b != []
    ensures DropLastEmpty(a + b) == a + DropLastEmpty(b)
    ensures b == [[]] ==> DropLastEmpty(a + b) == a
  {
    assert (a + b)[..|a + b| - 1] == a + b[..|b| - 1];
  }

  lemma {:induction false} RawLinesOfJoin(lines: seq<string>, t: string)
    requires forall i | 0 <= i < |lines| :: OneLine(lines[i])
    ensures RawLines(JoinLines(lines) + t) == lines + RawLines(t)
  {
    hide RawLines;
    if lines == [] {
      assert JoinLines(lines) + t == t;
    } else {
      var rest := JoinLines(lines[1..]) + t;
      assert JoinLines(lines) + t == lines[0] + "\n" + rest;
      RawLinesOfSum(lines[0], rest);
      CutPlain(lines[0], '\n');
      RawLinesOfJoin(lines[1..], t);
    }
  }

  lemma {:induction false} JoinLinesOfSum(a: seq<string>, b: seq<string>)
    ensures JoinLines(a + b) == JoinLines(a) + JoinLines(b)
  {
    if a == [] {
      assert a + b == b;
    } else {
      assert (a + b)[1..] == a[1..] + b;
      JoinLinesOfSum(a[1..], b);
    }
  }

  lemma RawLinesOfAll(lines: seq<string>)
    requires forall i | 0 <= i < |lines| :: OneLine(lines[i])
    ensures RawLines(JoinLines(lines)) == lines
  {
    RawLinesOfJoin(lines, "");
    assert JoinLines(lines) + "" == JoinLines(lines);
  }

  /** The lines that a list of texts becomes once it has been written and is read again. */
  function Pieces(texts: seq<string>): (r: seq<string>)
    ensures |r| >= |texts|
  {
    if texts == [] then [] else Cut(texts[0], '\n') + Pieces(texts[1..])
  }

  lemma {:induction false} RawLinesOfTexts(texts: seq<string>)
    ensures RawLines(JoinLines(texts)) == Pieces(texts)
  {
    hide RawLines;
    if texts == [] {
      RawLinesOfAll([]);
    } else {
      RawLinesOfSum(texts[0], JoinLines(texts[1..]));
      RawLinesOfTexts(texts[1..]);
    }
  }

  lemma {:induction false} PiecesOfSum(a: seq<string>, b: seq<string>)
    ensures Pieces(a + b) == Pieces(a) + Pieces(b)
  {
    if a == [] {
      assert a + b == b;
    } else {
      assert (a + b)[1..] == a[1..] + b;
      PiecesOfSum(a[1..], b);
    }
  }

  lemma {:induction false} PiecesOfLines(lines: seq<string>)
    requires forall i | 0 <= i < |lines| :: OneLine(lines[i])
    ensures Pieces(lines) == lines
  {
    if lines != [] {
      CutPlain(lines[0], '\n');
      PiecesOfLines(lines[1..]);
    }
  }

  /** Each piece is a line of one of the texts. */
  lemma {:induction false} InPieces(texts: seq<string>, piece: string)
    requires piece in Pieces(texts)
    ensures OneLine(piece) && exists i | 0 <= i < |texts| :: piece in Cut(texts[i], '\n')
  {
    if piece in Cut(texts[0], '\n') {
    } else {
      InPieces(texts[1..], piece);
      var i :| 0 <= i < |texts| - 1 && piece in Cut(texts[1..][i], '\n');
      assert texts[i + 1] == texts[1..][i];
    }
  }

  /** The lines of a text at its place among the pieces. */
  lemma {:induction false} PiecesKept(texts: seq<string>, i: nat, piece: string)
    requires i < |texts| && piece in Cut(texts[i], '\n')
    ensures piece in Pieces(texts)
  {
    if i > 0 { PiecesKept(texts[1..], i - 1, piece); }
  }

}
