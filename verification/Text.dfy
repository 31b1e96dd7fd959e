/** String helpers shared by the models of the Go packages: the ASCII part of
    Go's `strings` functions, and the code-point order that `sort.Strings`
    and `<` use (UTF-8 byte order and code-point order agree). */
module Text {

  datatype Option<+T> = None | Some(value: T)

  // ---- case and space (ASCII) ----

  function LowerChar(c: char): char {
    if 'A' <= c <= 'Z' then (c as int + 32) as char else c
  }

  function UpperChar(c: char): char {
    if 'a' <= c <= 'z' then (c as int - 32) as char else c
  }

  function Lower(s: string): (r: string)
    ensures |r| == |s|
  {
    seq(|s|, i requires 0 <= i < |s| => LowerChar(s[i]))
  }

  function Upper(s: string): (r: string)
    ensures |r| == |s|
  {
    seq(|s|, i requires 0 <= i < |s| => UpperChar(s[i]))
  }

  const UPPER_LETTERS := "ABCDEFGHIJKLMNOPQRSTUVWXYZ"
  const LOWER_LETTERS := "abcdefghijklmnopqrstuvwxyz"

  /** Each letter has its counterpart at the same place of the other alphabet, and nothing else changes. */
  lemma LetterCase(c: char)
    ensures forall i | 0 <= i < 26 && UPPER_LETTERS[i] == c :: LowerChar(c) == LOWER_LETTERS[i] && UpperChar(c) == c
    ensures forall i | 0 <= i < 26 && LOWER_LETTERS[i] == c :: UpperChar(c) == UPPER_LETTERS[i] && LowerChar(c) == c
    ensures c !in UPPER_LETTERS && c !in LOWER_LETTERS ==> LowerChar(c) == c == UpperChar(c)
  {
    UpperCodes();
    LowerCodes();
    var upper, lower := UPPER_LETTERS, LOWER_LETTERS;
    if 65 <= c as int < 91 { assert upper[c as int - 65] == c; }
    if 97 <= c as int < 123 { assert lower[c as int - 97] == c; }
  }

  lemma UpperCodes()
    ensures |UPPER_LETTERS| == 26 && forall i | 0 <= i < 26 :: UPPER_LETTERS[i] as int == 65 + i
  {
  }

  lemma LowerCodes()
    ensures |LOWER_LETTERS| == 26 && forall i | 0 <= i < 26 :: LOWER_LETTERS[i] as int == 97 + i
  {
  }

  predicate IsSpace(c: char) {
    c == ' ' || c == '\t' || c == '\n' || c == '\r' || c as int == 11 || c as int == 12
  }

  /** `strings.TrimLeftFunc` / `TrimRightFunc` / `TrimFunc`. */
  function TrimLeft(s: string, drop: char -> bool): string {
    if s != [] && drop(s[0]) then TrimLeft(s[1..], drop) else s
  }

  function TrimRight(s: string, drop: char -> bool): string {
    if s != [] && drop(s[|s| - 1]) then TrimRight(s[..|s| - 1], drop) else s
  }

  function Trim(s: string, drop: char -> bool): string {
    TrimRight(TrimLeft(s, drop), drop)
  }

  function TrimSpace(s: string): string {
    Trim(s, IsSpace)
  }

  /** Trimming takes all white space from both ends and nothing else. */
  lemma TrimSpaceExactly(s: string, pre: string, mid: string, post: string)
    requires s == pre + mid + post
    requires (forall c | c in pre :: c in WHITE_SPACE) && (forall c | c in post :: c in WHITE_SPACE)
    requires mid != "" ==> mid[0] !in WHITE_SPACE && mid[|mid| - 1] !in WHITE_SPACE
    ensures TrimSpace(s) == mid
  {
    SpacesAre();
    hide IsSpace;
    if mid == "" {
      assert s == (pre + post) + "";
      TrimLeftDrops(pre + post, "", IsSpace);
      assert TrimRight("", IsSpace) == "";
    } else {
      assert s == pre + (mid + post);
      TrimLeftDrops(pre, mid + post, IsSpace);
      TrimRightDrops(mid, post, IsSpace);
    }
  }

  /** Space, tab, newline, vertical tab, form feed and carriage return. */
  const WHITE_SPACE: string := " \t\n\U{b}\U{c}\r"

  lemma SpacesAre()
    ensures forall c :: IsSpace(c) <==> c in WHITE_SPACE
  {
    assert WHITE_SPACE[3] as int == 11 && WHITE_SPACE[4] as int == 12;
  }

  lemma {:induction false} TrimLeftDrops(pre: string, rest: string, drop: char -> bool)
    requires (forall c | c in pre :: drop(c)) && (rest != "" ==> !drop(rest[0]))
    ensures TrimLeft(pre + rest, drop) == rest
  {
    if pre == "" {
      assert pre + rest == rest;
    } else {
      assert (pre + rest)[1..] == pre[1..] + rest;
      TrimLeftDrops(pre[1..], rest, drop);
    }
  }

  lemma {:induction false} TrimRightDrops(rest: string, post: string, drop: char -> bool)
    requires (forall c | c in post :: drop(c)) && rest != "" && !drop(rest[|rest| - 1])
    ensures TrimRight(rest + post, drop) == rest
  {
    if post == "" {
      assert rest + post == rest;
    } else {
      var n := |post| - 1;
      assert (rest + post)[..|rest| + n] == rest + post[..n];
      TrimRightDrops(rest, post[..n], drop);
    }
  }

  // ---- substrings ----

  predicate At(s: string, i: int, t: string) {
    0 <= i <= |s| - |t| && s[i..i + |t|] == t
  }

  predicate Contains(s: string, t: string) {
    exists i | 0 <= i <= |s| :: At(s, i, t)
  }

  predicate HasPrefix(s: string, t: string) {
    t <= s
  }

  /** `strings.Split` at one character. */
  function Cut(s: string, c: char): (r: seq<string>)
    ensures r != [] && forall i | 0 <= i < |r| :: c !in r[i]
  {
    if s == [] then [[]]
    else
      var r := Cut(s[1..], c);
      if s[0] == c then [[]] + r else [[s[0]] + r[0]] + r[1..]
  }

  lemma {:induction false} CutSum(s: string, c: char, t: string)
    ensures Cut(s + [c] + t, c) == Cut(s, c) + Cut(t, c)
  {
    if s == [] {
      assert s + [c] + t == [c] + t;
    } else {
      assert (s + [c] + t)[1..] == s[1..] + [c] + t;
      CutSum(s[1..], c, t);
    }
  }

  lemma {:induction false} CutPlain(s: string, c: char)
    requires c !in s
    ensures Cut(s, c) == [s]
  {
    if s != [] {
      assert s == [s[0]] + s[1..];
      CutPlain(s[1..], c);
    }
  }

  lemma {:induction false} CutChars(s: string, c: char, x: char)
    requires x !in s
    ensures forall i | 0 <= i < |Cut(s, c)| :: x !in Cut(s, c)[i]
  {
    if s != "" {
      assert s == [s[0]] + s[1..];
      CutChars(s[1..], c, x);
    }
  }

  // ---- regular expressions ----

  /** What `\s` matches in a Go regular expression. */
  predicate Blank(c: char) {
    c == ' ' || c == '\t' || c == '\n' || c == '\r' || c as int == 12
  }

  /** Where the run of blanks that starts at i ends. */
  function BlanksEnd(s: string, i: nat): (r: nat)
    requires i <= |s|
    ensures i <= r <= |s| && (forall k | i <= k < r :: Blank(s[k])) && (r < |s| ==> !Blank(s[r]))
    decreases |s| - i
  {
    if i < |s| && Blank(s[i]) then BlanksEnd(s, i + 1) else i
  }

  lemma BlanksEndIs(s: string, i: nat, r: nat)
    requires i <= r <= |s| && (forall k | i <= k < r :: Blank(s[k])) && (r < |s| ==> !Blank(s[r]))
    ensures BlanksEnd(s, i) == r
  {
    hide Blank;
  }

  /** Where the character occurs next, or the end. */
  function CharFrom(s: string, c: char, i: nat): (r: nat)
    requires i <= |s|
    ensures i <= r <= |s| && (forall k | i <= k < r :: s[k] != c) && (r < |s| ==> s[r] == c)
    decreases |s| - i
  {
    if i < |s| && s[i] != c then CharFrom(s, c, i + 1) else i
  }

  lemma CharFromIs(s: string, c: char, i: nat, r: nat)
    requires i <= r < |s| && (forall k | i <= k < r :: s[k] != c) && s[r] == c
    ensures CharFrom(s, c, i) == r
  {
  }

  // ---- lists ----

  /** The first position from i on whose element passes, or -1. */
  function FirstFrom<T>(xs: seq<T>, pass: T -> bool, i: nat): (r: int)
    requires i <= |xs|
    ensures r == -1 || (i <= r < |xs| && pass(xs[r]))
    ensures forall j | i <= j < |xs| && pass(xs[j]) :: 0 <= r <= j
    decreases |xs| - i
  {
    if i == |xs| then -1 else if pass(xs[i]) then i else FirstFrom(xs, pass, i + 1)
  }

  /** The last position whose element passes, or -1. */
  function LastWhere<T>(xs: seq<T>, pass: T -> bool): (r: int)
    ensures r == -1 || (0 <= r < |xs| && pass(xs[r]))
    ensures forall j | 0 <= j < |xs| && pass(xs[j]) :: j <= r
  {
    if xs == [] then -1
    else if pass(xs[|xs| - 1]) then |xs| - 1
    else LastWhere(xs[..|xs| - 1], pass)
  }

  // ---- order of strings ----

  /** Go's `a < b` on strings. */
  predicate Less(a: string, b: string) {
    b != [] && (a == [] || a[0] < b[0] || (a[0] == b[0] && Less(a[1..], b[1..])))
  }

  lemma {:induction false} LessIrreflexive(a: string)
    ensures !Less(a, a)
  {
    if a != [] { LessIrreflexive(a[1..]); }
  }

  lemma {:induction false} LessTransitive(a: string, b: string, c: string)
    requires Less(a, b) && Less(b, c)
    ensures Less(a, c)
  {
    if a != [] && a[0] == b[0] == c[0] { LessTransitive(a[1..], b[1..], c[1..]); }
  }

  lemma {:induction false} LessTotal(a: string, b: string)
    ensures Less(a, b) || a == b || Less(b, a)
  {
    if a != [] && b != [] && a[0] == b[0] {
      LessTotal(a[1..], b[1..]);
      assert a == [a[0]] + a[1..] && b == [b[0]] + b[1..];
    }
  }

  /** Dictionary order: at the first difference the smaller character decides, or the shorter string. */
  lemma {:induction false} LessExactly(a: string, b: string)
    ensures Less(a, b) <==> exists i | 0 <= i <= |a| && i <= |b| :: FirstSmaller(a, b, i)
  {
    if a != [] && b != [] && a[0] == b[0] {
      LessExactly(a[1..], b[1..]);
      if i :| 0 <= i <= |a| && i <= |b| && FirstSmaller(a, b, i) {
        assert i > 0;
        assert a[1..][..i - 1] == a[..i][1..] == b[..i][1..] == b[1..][..i - 1];
        assert FirstSmaller(a[1..], b[1..], i - 1);
      }
      if i :| 0 <= i < |a| && i < |b| && FirstSmaller(a[1..], b[1..], i) {
        assert a[..i + 1] == [a[0]] + a[1..][..i] && b[..i + 1] == [b[0]] + b[1..][..i];
        assert FirstSmaller(a, b, i + 1);
      }
    } else {
      assert a[..0] == b[..0] == [];
      if i :| 0 <= i <= |a| && i <= |b| && FirstSmaller(a, b, i) {
        SamePrefix(a, b, i);
      }
      assert Less(a, b) ==> FirstSmaller(a, b, 0);
    }
  }

  lemma SamePrefix(a: string, b: string, i: nat)
    requires i <= |a| && i <= |b| && a[..i] == b[..i]
    ensures i > 0 ==> a[0] == b[0]
  {
    if i > 0 { assert a[..i][0] == b[..i][0]; }
  }

  predicate FirstSmaller(a: string, b: string, i: nat)
    requires i <= |a| && i <= |b|
  {
    a[..i] == b[..i] && i < |b| && (i == |a| || a[i] < b[i])
  }

  /** A string comes behind its proper prefixes. */
  lemma PrefixIsLess(a: string, b: string)
    requires a <= b && a != b
    ensures Less(a, b)
  {
    LessExactly(a, b);
    assert FirstSmaller(a, b, |a|);
  }

  ghost predicate Ascending(ss: seq<string>) {
    forall i, j | 0 <= i < j < |ss| :: Less(ss[i], ss[j])
  }

  /** A finite set of strings has only one strictly ascending listing, so a sort's
      result does not depend on the order in which the keys were collected. */
  lemma {:induction false} AscendingUnique(a: seq<string>, b: seq<string>)
    requires Ascending(a) && Ascending(b)
    requires forall s :: s in a <==> s in b
    ensures a == b
  {
    assert a != [] ==> a[0] in a;
    assert b != [] ==> b[0] in b;
    if a != [] {
      if a[0] != b[0] {
        LessIrreflexive(a[0]);
        LessTransitive(a[0], b[0], a[0]);
      }
      forall s ensures s in a[1..] <==> s in b[1..] {
        TailMembers(a, s);
        TailMembers(b, s);
      }
      AscendingUnique(a[1..], b[1..]);
      assert a == [a[0]] + a[1..] && b == [b[0]] + b[1..];
    }
  }

  lemma TailMembers(a: seq<string>, s: string)
    requires Ascending(a) && a != []
    ensures s in a[1..] <==> s in a && s != a[0]
  {
    LessIrreflexive(a[0]);
    assert a == [a[0]] + a[1..];
  }

  /** Puts a new key at its place in an ascending list. */
  function InsertKey(ss: seq<string>, k: string): (r: seq<string>)
    ensures forall s :: s in r <==> s in ss || s == k
  {
    if ss == [] then [k]
    else if Less(k, ss[0]) then [k] + ss
    else
      assert ss == [ss[0]] + ss[1..];
      [ss[0]] + InsertKey(ss[1..], k)
  }

  lemma {:induction false} InsertKeyAscending(ss: seq<string>, k: string)
    requires Ascending(ss) && k !in ss
    ensures Ascending(InsertKey(ss, k))
  {
    var r := InsertKey(ss, k);
    if ss != [] {
      if Less(k, ss[0]) {
        forall j | 0 < j < |ss| ensures Less(k, ss[j]) { LessTransitive(k, ss[0], ss[j]); }
      } else {
        LessTotal(k, ss[0]);
        InsertKeyAscending(ss[1..], k);
        forall j | 1 <= j < |r| ensures Less(ss[0], r[j]) {
          assert r[j] in InsertKey(ss[1..], k);
          if r[j] != k {
            var i :| 0 <= i < |ss[1..]| && ss[1..][i] == r[j];
            assert Less(ss[0], ss[i + 1]);
          }
        }
      }
    }
  }

  ghost predicate IsListing(r: seq<string>, keys: set<string>) {
    Ascending(r) && forall k :: k in r <==> k in keys
  }

  lemma {:induction false} CanSort(keys: set<string>)
    ensures exists r :: IsListing(r, keys)
  {
    if keys == {} {
      assert IsListing([], keys);
    } else {
      var k :| k in keys;
      CanSort(keys - {k});
      var rest :| IsListing(rest, keys - {k});
      InsertKeyAscending(rest, k);
      assert IsListing(InsertKey(rest, k), keys);
    }
  }

  /** The ascending listing of a set of keys. */
  ghost function SortedKeys(keys: set<string>): (r: seq<string>)
    ensures Ascending(r) && forall k :: k in r <==> k in keys
  {
    CanSort(keys);
    var r :| IsListing(r, keys);
    r
  }

  /** `sort.Strings` on keys collected in any order. */
  method SortKeys(keys: seq<string>) returns (r: seq<string>)
    requires forall i, j | 0 <= i < j < |keys| :: keys[i] != keys[j]
    ensures r == SortedKeys(set k | k in keys)
  {
    r := [];
    for i := 0 to |keys|
      invariant Ascending(r)
      invariant forall s :: s in r <==> s in keys[..i]
    {
      InsertKeyAscending(r, keys[i]);
      r := InsertKey(r, keys[i]);
    }
    AscendingUnique(r, SortedKeys(set k | k in keys));
  }
}
