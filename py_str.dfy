/**
 * The Python string operations the converter relies on, modelled on `seq<char>`:
 * `str.strip()` (and the truthiness test on its result), `str.replace`, `str.split`
 * with an explicit separator, `str.join` and `os.path.basename` (POSIX flavour).
 */
module PyStr {

  /** The code points for which `str.isspace()` holds: the characters `str.strip()` removes by default. */
  const WhitespaceCodePoints: set<int> :=
    {0x09, 0x0A, 0x0B, 0x0C, 0x0D, 0x1C, 0x1D, 0x1E, 0x1F, 0x20, 0x85, 0xA0, 0x1680,
     0x2000, 0x2001, 0x2002, 0x2003, 0x2004, 0x2005, 0x2006, 0x2007, 0x2008, 0x2009, 0x200A,
     0x2028, 0x2029, 0x202F, 0x205F, 0x3000}

  /** `c.isspace()`. */
  predicate IsSpace(c: char) {
    c as int in WhitespaceCodePoints
  }

  /** `s.lstrip()`. */
  function LStrip(s: string): string
    decreases |s|
  {
    if s != [] && IsSpace(s[0]) then LStrip(s[1..]) else s
  }

  /** `s.rstrip()`. */
  function RStrip(s: string): string
    decreases |s|
  {
    if s != [] && IsSpace(s[|s| - 1]) then RStrip(s[..|s| - 1]) else s
  }

  /** `s.strip()`. */
  function Strip(s: string): string {
    RStrip(LStrip(s))
  }

  /** `s.lstrip()` is the longest suffix of `s` that does not start with whitespace. */
  lemma {:induction false} LStripTrims(s: string)
    ensures var r := LStrip(s);
      && |r| <= |s| && r == s[|s| - |r|..]
      && (forall j :: 0 <= j < |s| - |r| ==> IsSpace(s[j]))
      && (r != [] ==> !IsSpace(r[0]))
    decreases |s|
  {
    if s != [] && IsSpace(s[0]) {
      LStripTrims(s[1..]);
    }
  }

  /** `s.rstrip()` is the longest prefix of `s` that does not end with whitespace. */
  lemma {:induction false} RStripTrims(s: string)
    ensures var r := RStrip(s);
      && |r| <= |s| && r == s[..|r|]
      && (forall j :: |r| <= j < |s| ==> IsSpace(s[j]))
      && (r != [] ==> !IsSpace(r[|r| - 1]))
    decreases |s|
  {
    if s != [] && IsSpace(s[|s| - 1]) {
      RStripTrims(s[..|s| - 1]);
    }
  }

  /** Every character of `line` is whitespace. */
  predicate IsBlank(line: string) {
    forall c <- line :: IsSpace(c)
  }

  /** `line.strip()` is the empty (falsy) string exactly when the line is blank. */
  lemma StripEmptyIffBlank(line: string)
    ensures Strip(line) == [] <==> IsBlank(line)
  {
    if IsBlank(line) {
      BlankStripsToEmpty(line);
    } else {
      var c :| c in line && !IsSpace(c);
      var j :| 0 <= j < |line| && line[j] == c;
      StripKeepsNonSpace(line, j);
    }
  }

  lemma BlankStripsToEmpty(line: string)
    requires IsBlank(line)
    ensures Strip(line) == []
  {
    LStripTrims(line);
    assert forall j :: 0 <= j < |line| ==> line[j] in line;
  }

  lemma StripKeepsNonSpace(line: string, j: nat)
    requires j < |line| && !IsSpace(line[j])
    ensures Strip(line) != []
  {
    LStripTrims(line);
    var l := LStrip(line);
    RStripTrims(l);
    var d := |line| - |l|;
    assert j >= d && l[j - d] == line[j];
  }

  // ---------------------------------------------------------------------------
  // str.replace

  /** `pat` occurs in `s` at index `i`. */
  predicate OccursAt(s: string, pat: string, i: int) {
    0 <= i && i + |pat| <= |s| && s[i..i + |pat|] == pat
  }

  /** `pat in s`. */
  predicate Contains(s: string, pat: string) {
    exists i | 0 <= i <= |s| :: OccursAt(s, pat, i)
  }

  /**
   * `s.replace(pat, rep)`: scans left to right and replaces every non-overlapping
   * occurrence of `pat`. Only non-empty patterns are modelled.
   */
  function Replace(s: string, pat: string, rep: string): string
    requires pat != []
    decreases |s|
  {
    if |s| < |pat| then s
    else if s[..|pat|] == pat then rep + Replace(s[|pat|..], pat, rep)
    else [s[0]] + Replace(s[1..], pat, rep)
  }

  /** `s.count(pat)`: the number of occurrences `Replace` replaces, found by the same scan. */
  function Matches(s: string, pat: string): nat
    requires pat != []
    decreases |s|
  {
    if |s| < |pat| then 0
    else if s[..|pat|] == pat then 1 + Matches(s[|pat|..], pat)
    else Matches(s[1..], pat)
  }

  /** An occurrence in the tail of `s` is an occurrence in `s`, one index further. */
  lemma OccursInTail(s: string, pat: string, i: int)
    requires s != [] && 0 <= i
    ensures OccursAt(s[1..], pat, i) <==> OccursAt(s, pat, i + 1)
  {
    if 0 <= i && i + |pat| <= |s| - 1 {
      assert s[1..][i..i + |pat|] == s[i + 1..i + 1 + |pat|];
    }
  }

  /** The scan finds at least one occurrence exactly when `pat` occurs in `s`. */
  lemma {:induction false} MatchesPositiveIffContains(s: string, pat: string)
    requires pat != []
    ensures Matches(s, pat) > 0 <==> Contains(s, pat)
    decreases |s|
  {
    if |s| < |pat| {
    } else if s[..|pat|] == pat {
      assert OccursAt(s, pat, 0);
    } else {
      MatchesPositiveIffContains(s[1..], pat);
      forall i | 0 < i <= |s| ensures OccursAt(s, pat, i) ==> Contains(s[1..], pat) {
        OccursInTail(s, pat, i - 1);
      }
      if Contains(s[1..], pat) {
        var j :| 0 <= j <= |s| - 1 && OccursAt(s[1..], pat, j);
        OccursInTail(s, pat, j);
      }
    }
  }

  /** Each replacement changes the length by `|rep| - |pat|`. */
  lemma MultiplyOneMore(m: int, d: int)
    ensures (1 + m) * d == d + m * d
  {
  }

  lemma {:induction false} ReplaceLength(s: string, pat: string, rep: string)
    requires pat != []
    ensures |Replace(s, pat, rep)| == |s| + Matches(s, pat) * (|rep| - |pat|)
    decreases |s|
  {
    if |s| < |pat| {
    } else if s[..|pat|] == pat {
      var t := s[|pat|..];
      ReplaceLength(t, pat, rep);
      var m, d := Matches(t, pat), |rep| - |pat|;
      MultiplyOneMore(m, d);
    } else {
      ReplaceLength(s[1..], pat, rep);
      assert |Replace(s, pat, rep)| == 1 + |Replace(s[1..], pat, rep)|;
    }
  }

  /** Without an occurrence of `pat`, `s.replace(pat, rep)` is `s` itself. */
  lemma {:induction false} ReplaceWithoutMatch(s: string, pat: string, rep: string)
    requires pat != [] && !Contains(s, pat)
    ensures Replace(s, pat, rep) == s
    decreases |s|
  {
    if |s| < |pat| {
    } else if s[..|pat|] == pat {
      assert OccursAt(s, pat, 0);
    } else {
      forall j | 0 <= j <= |s| - 1 ensures !OccursAt(s[1..], pat, j) {
        OccursInTail(s, pat, j);
      }
      ReplaceWithoutMatch(s[1..], pat, rep);
    }
  }

  /** Replacing an occurrence by a different string of the same length changes the string. */
  lemma {:induction false} ReplaceChanges(s: string, pat: string, rep: string)
    requires pat != [] && |rep| == |pat| && rep != pat && Contains(s, pat)
    ensures Replace(s, pat, rep) != s
    decreases |s|
  {
    var i :| 0 <= i <= |s| && OccursAt(s, pat, i);
    var r := Replace(s, pat, rep);
    if s[..|pat|] == pat {
      assert r[..|pat|] == rep;
    } else {
      assert i != 0;
      OccursInTail(s, pat, i - 1);
      ReplaceChanges(s[1..], pat, rep);
      assert r[1..] == Replace(s[1..], pat, rep);
    }
  }

  /** Removing `pat` never lengthens `s`, and keeps its length exactly when `pat` does not occur in `s`. */
  lemma RemoveLength(s: string, pat: string)
    requires pat != []
    ensures |Replace(s, pat, [])| <= |s|
    ensures |Replace(s, pat, [])| == |s| <==> !Contains(s, pat)
  {
    ReplaceLength(s, pat, []);
    MatchesPositiveIffContains(s, pat);
    var m := Matches(s, pat);
    if m > 0 {
      RemovingShrinks(m, |pat|);
    }
  }

  lemma RemovingShrinks(m: int, n: int)
    requires m > 0 && n > 0
    ensures m * (0 - n) <= 0 - n
  {
  }

  /** Removing `pat` (replacing it by the empty string) leaves `s` unchanged exactly when `pat` does not occur in `s`. */
  lemma RemoveIsIdentityIff(s: string, pat: string)
    requires pat != []
    ensures Replace(s, pat, []) == s <==> !Contains(s, pat)
  {
    RemoveLength(s, pat);
    if !Contains(s, pat) {
      ReplaceWithoutMatch(s, pat, []);
    }
  }

  /** Removing `p` and then `q` leaves `s` unchanged exactly when neither occurs in `s`. */
  lemma RemoveBothIsIdentityIff(s: string, p: string, q: string)
    requires p != [] && q != []
    ensures Replace(Replace(s, p, []), q, []) == s <==> !Contains(s, p) && !Contains(s, q)
  {
    var t := Replace(s, p, []);
    RemoveLength(s, p);
    RemoveLength(t, q);
    if !Contains(s, p) {
      ReplaceWithoutMatch(s, p, []);
      RemoveIsIdentityIff(s, q);
    }
  }

  /** The first character of `pat` does not reappear later in `pat`, so two occurrences of `pat` never overlap. */
  predicate HeadOccursOnce(pat: string) {
    pat != [] && forall j :: 0 < j < |pat| ==> pat[j] != pat[0]
  }

  /** A string without the first character of `pat` does not contain `pat`. */
  lemma WithoutHeadNoMatch(s: string, pat: string)
    requires pat != [] && pat[0] !in s
    ensures !Contains(s, pat)
  {
    forall i | 0 <= i <= |s| ensures !OccursAt(s, pat, i) {
      if i + |pat| <= |s| {
        assert s[i..i + |pat|][0] == s[i];
      }
    }
  }

  /** Prefixing `b` with characters other than `pat[0]` creates no occurrence of `pat`. */
  lemma ConcatNoMatch(a: string, b: string, pat: string)
    requires pat != [] && pat[0] !in a && !Contains(b, pat)
    ensures !Contains(a + b, pat)
  {
    var s := a + b;
    forall i | 0 <= i <= |s| ensures !OccursAt(s, pat, i) {
      if i + |pat| <= |s| {
        if i < |a| {
          assert s[i..i + |pat|][0] == a[i];
        } else {
          assert s[i..i + |pat|] == b[i - |a|..i - |a| + |pat|];
          assert !OccursAt(b, pat, i - |a|);
        }
      }
    }
  }

  /** Dropping the first character of a string creates no occurrence of `pat`. */
  lemma TailNoMatch(x: string, pat: string)
    requires x != [] && !Contains(x, pat)
    ensures !Contains(x[1..], pat)
  {
    forall j | 0 <= j <= |x| - 1 ensures !OccursAt(x[1..], pat, j) {
      OccursInTail(x, pat, j);
    }
  }

  /** A `pat` whose first character does not recur that does not occur in a non-empty `x` does not start `x + pat + y`. */
  lemma NoMatchAtStart(x: string, pat: string, y: string)
    requires x != [] && HeadOccursOnce(pat) && !Contains(x, pat)
    ensures (x + pat + y)[..|pat|] != pat
  {
    var s := x + pat + y;
    if |x| >= |pat| {
      assert s[..|pat|] == x[..|pat|];
      assert !OccursAt(x, pat, 0);
    } else {
      assert s[..|pat|][|x|] == pat[0] != pat[|x|];
    }
  }

  /**
   * When the first occurrence of a `pat` whose first character does not recur in `x + pat + y` is the one after `x`,
   * it is replaced and the scan resumes on `y`.
   */
  lemma {:induction false} ReplaceAtFirstMatch(x: string, pat: string, rep: string, y: string)
    requires HeadOccursOnce(pat) && !Contains(x, pat)
    ensures Replace(x + pat + y, pat, rep) == x + rep + Replace(y, pat, rep)
    decreases |x|
  {
    if x == [] {
      ReplaceAtStart(pat, rep, y);
      assert x + pat + y == pat + y && x + rep == rep;
    } else {
      NoMatchAtStart(x, pat, y);
      TailNoMatch(x, pat);
      ReplaceAtFirstMatch(x[1..], pat, rep, y);
      ReplaceSkipsHead(x, pat, rep, y);
      var r := Replace(y, pat, rep);
      assert [x[0]] + (x[1..] + rep + r) == x + rep + r;
    }
  }

  /** An occurrence at the start is replaced and the scan resumes after it. */
  lemma ReplaceAtStart(pat: string, rep: string, y: string)
    requires pat != []
    ensures Replace(pat + y, pat, rep) == rep + Replace(y, pat, rep)
  {
    var s := pat + y;
    assert s[..|pat|] == pat && s[|pat|..] == y;
  }

  /** Without an occurrence at the start, the first character is kept and the scan moves on by one. */
  lemma ReplaceSkipsHead(x: string, pat: string, rep: string, y: string)
    requires x != [] && pat != [] && (x + pat + y)[..|pat|] != pat
    ensures Replace(x + pat + y, pat, rep) == [x[0]] + Replace(x[1..] + pat + y, pat, rep)
  {
    var s := x + pat + y;
    assert s[0] == x[0] && s[1..] == x[1..] + pat + y;
  }

  /** Removing a `pat` whose first character does not recur from `stem + pat`, where `stem` holds no `pat`, gives `stem` back. */
  lemma RemoveFinalMatch(stem: string, pat: string)
    requires HeadOccursOnce(pat) && !Contains(stem, pat)
    ensures Replace(stem + pat, pat, []) == stem
  {
    ReplaceAtFirstMatch(stem, pat, [], []);
    assert stem + pat + [] == stem + pat && stem + [] + [] == stem;
  }

  /** Removing a `pat` whose first character does not recur from `pat + rest`, where `rest` holds no `pat`, gives `rest` back. */
  lemma RemoveInitialMatch(pat: string, rest: string)
    requires HeadOccursOnce(pat) && !Contains(rest, pat)
    ensures Replace(pat + rest, pat, []) == rest
  {
    ReplaceAtFirstMatch([], pat, [], rest);
    assert [] + pat + rest == pat + rest;
    ReplaceWithoutMatch(rest, pat, []);
  }

  // ---------------------------------------------------------------------------
  // str.join and str.split

  /** `sep.join(pieces)`. */
  function Join(pieces: seq<string>, sep: string): string
    decreases |pieces|
  {
    if pieces == [] then []
    else if |pieces| == 1 then pieces[0]
    else pieces[0] + sep + Join(pieces[1..], sep)
  }

  /**
   * `s.split(sep)` for a one-character separator: always at least one piece, no piece
   * contains the separator, and joining the pieces with the separator gives `s` back.
   */
  function Split(s: string, sep: char): (pieces: seq<string>)
    ensures |pieces| >= 1
    ensures forall piece <- pieces :: sep !in piece
    ensures Join(pieces, [sep]) == s
    decreases |s|
  {
    if s == [] then [[]]
    else
      var rest := Split(s[1..], sep);
      if s[0] == sep then
        assert Join([[]] + rest, [sep]) == [sep] + s[1..];
        [[]] + rest
      else
        var pieces := [[s[0]] + rest[0]] + rest[1..];
        assert Join(pieces, [sep]) == [s[0]] + Join(rest, [sep]);
        assert forall piece <- pieces :: sep !in piece by {
          forall piece <- pieces ensures sep !in piece {
            if piece != pieces[0] {
              assert piece in rest;
            }
          }
        }
        pieces
  }

  /** A piece without the separator, followed by the separator, splits off as one piece. */
  lemma {:induction false} SplitAfterPiece(x: string, sep: char, t: string)
    requires sep !in x
    ensures Split(x + [sep] + t, sep) == [x] + Split(t, sep)
    decreases |x|
  {
    var s := x + [sep] + t;
    if x == [] {
      assert s[1..] == t;
    } else {
      assert s[1..] == x[1..] + [sep] + t;
      SplitAfterPiece(x[1..], sep, t);
      assert [x[0]] + x[1..] == x;
    }
  }

  /** A piece without the separator is split into itself. */
  lemma {:induction false} SplitWithoutSep(x: string, sep: char)
    requires sep !in x
    ensures Split(x, sep) == [x]
    decreases |x|
  {
    if x != [] {
      SplitWithoutSep(x[1..], sep);
    }
  }

  /** Splitting a join of separator-free pieces gives the pieces back. */
  lemma {:induction false} SplitJoin(pieces: seq<string>, sep: char)
    requires |pieces| >= 1
    requires forall piece <- pieces :: sep !in piece
    ensures Split(Join(pieces, [sep]), sep) == pieces
    decreases |pieces|
  {
    if |pieces| == 1 {
      SplitWithoutSep(pieces[0], sep);
    } else {
      SplitJoin(pieces[1..], sep);
      SplitAfterPiece(pieces[0], sep, Join(pieces[1..], [sep]));
    }
  }

  // ---------------------------------------------------------------------------
  // os.path.basename

  /** The index just after the last `/` of `path` (0 when there is none). */
  function LastSlashEnd(path: string): (k: nat)
    ensures k <= |path|
    ensures k > 0 ==> path[k - 1] == '/'
    ensures forall j :: k <= j < |path| ==> path[j] != '/'
    decreases |path|
  {
    if path == [] then 0
    else if path[|path| - 1] == '/' then |path|
    else LastSlashEnd(path[..|path| - 1])
  }

  /** `os.path.basename(path)` on POSIX: the part after the last `/`. */
  function Basename(path: string): string {
    path[LastSlashEnd(path)..]
  }

  /** The basename is the longest suffix of the path without a `/`. */
  lemma BasenameIsLastComponent(path: string)
    ensures var name := Basename(path);
      && '/' !in name
      && |name| <= |path| && name == path[|path| - |name|..]
      && (|name| < |path| ==> path[|path| - |name| - 1] == '/')
  {
    var k := LastSlashEnd(path);
    assert forall i :: 0 <= i < |path| - k ==> path[k..][i] == path[k + i];
  }

  /** A path without `/` is its own basename. */
  lemma BasenameOfPlainName(name: string)
    requires '/' !in name
    ensures Basename(name) == name
  {
    assert forall j :: 0 <= j < |name| ==> name[j] in name;
  }

  /** The basename of `dir/name` is `name` when `name` holds no `/`. */
  lemma {:induction false} BasenameAfterDirectory(dir: string, name: string)
    requires '/' !in name
    ensures Basename(dir + "/" + name) == name
    decreases |name|
  {
    var path := dir + "/" + name;
    if name == [] {
      assert path[|path| - 1] == '/';
    } else {
      var init := name[..|name| - 1];
      assert name[|name| - 1] in name;
      assert path[..|path| - 1] == dir + "/" + init;
      assert forall i :: 0 <= i < |init| ==> init[i] == name[i];
      BasenameAfterDirectory(dir, init);
      assert LastSlashEnd(path) == |dir| + 1;
    }
  }
}
