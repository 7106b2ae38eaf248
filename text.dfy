/**
 * The few Python string operations the pipeline relies on, over `string`
 * (a sequence of characters): `str.strip`, `str.startswith`,
 * `str.endswith`, `str.split` with a one-character separator, joining with
 * a one-character separator (awk's `OFS`), `str.replace`, and iterating
 * over the lines of a text file.
 */
module Text {

  /** The characters Python's `str.isspace` accepts. */
  predicate IsSpace(c: char) {
    || c == ' ' || '\t' <= c <= '\r' || '\U{1C}' <= c <= '\U{1F}'
    || c == '\U{85}' || c == '\U{A0}' || c == '\U{1680}'
    || '\U{2000}' <= c <= '\U{200A}' || c == '\U{2028}' || c == '\U{2029}'
    || c == '\U{202F}' || c == '\U{205F}' || c == '\U{3000}'
  }

  predicate StartsWith(s: string, prefix: string) {
    |prefix| <= |s| && s[..|prefix|] == prefix
  }

  predicate EndsWith(s: string, suffix: string) {
    |suffix| <= |s| && s[|s| - |suffix|..] == suffix
  }

  /** `s.lstrip()`: the leading white space is removed, and only that. */
  function LStrip(s: string): (r: string)
    ensures |r| <= |s| && r == s[|s| - |r|..]
    ensures forall i :: 0 <= i < |s| - |r| ==> IsSpace(s[i])
    ensures r == [] || !IsSpace(r[0])
    decreases |s|
  {
    if |s| > 0 && IsSpace(s[0]) then LStrip(s[1..]) else s
  }

  /** `s.rstrip()`: the trailing white space is removed, and only that. */
  function RStrip(s: string): (r: string)
    ensures |r| <= |s| && r == s[..|r|]
    ensures forall i :: |r| <= i < |s| ==> IsSpace(s[i])
    ensures r == [] || !IsSpace(r[|r| - 1])
    decreases |s|
  {
    if |s| > 0 && IsSpace(s[|s| - 1]) then RStrip(s[..|s| - 1]) else s
  }

  /** `s.strip()`. */
  function Strip(s: string): string {
    RStrip(LStrip(s))
  }

  /** `s.strip() == ""` holds exactly when every character of `s` is white space. */
  lemma StripEmptyIff(s: string)
    ensures Strip(s) == [] <==> forall i :: 0 <= i < |s| ==> IsSpace(s[i])
  {
    var l := LStrip(s);
    if Strip(s) == [] {
      assert l == [];
    } else {
      var r := Strip(s);
      assert r == l[..|r|];
      assert !IsSpace(s[|s| - |l|]);
    }
  }

  /** Stripping leaves a string that starts with a non-space character unchanged at the front. */
  lemma LStripKeeps(s: string)
    requires |s| > 0 && !IsSpace(s[0])
    ensures LStrip(s) == s
  {
  }

  /**
   * Right-stripping `p + q` never reaches into `p` when `q` holds a
   * non-space character.
   */
  lemma {:induction false} RStripAppend(p: string, q: string, k: nat)
    requires k < |q| && !IsSpace(q[k])
    ensures RStrip(p + q) == p + RStrip(q)
    decreases |q|
  {
    var s := p + q;
    if IsSpace(s[|s| - 1]) {
      assert k < |q| - 1;
      assert s[..|s| - 1] == p + q[..|q| - 1];
      RStripAppend(p, q[..|q| - 1], k);
    }
  }

  /** The first position of `c` in `s`. */
  function IndexOf(s: string, c: char): (i: nat)
    requires c in s
    ensures i < |s| && s[i] == c && c !in s[..i]
  {
    if s[0] == c then 0 else 1 + IndexOf(s[1..], c)
  }

  /** The pieces joined back with `c` between them, as awk's `print` does with `OFS`. */
  function JoinOn(parts: seq<string>, c: char): string {
    if |parts| == 0 then []
    else if |parts| == 1 then parts[0]
    else parts[0] + [c] + JoinOn(parts[1..], c)
  }

  /**
   * `s.split(c)` in Python (and awk's `split(s, f, c)` on a non-empty `s`):
   * the maximal pieces between occurrences of `c`, at least one.
   */
  function Split(s: string, c: char): (parts: seq<string>)
    ensures |parts| >= 1
    ensures forall i :: 0 <= i < |parts| ==> c !in parts[i]
    ensures JoinOn(parts, c) == s
    decreases |s|
  {
    if c !in s then [s]
    else
      var i := IndexOf(s, c);
      assert s == s[..i] + [c] + s[i + 1..];
      [s[..i]] + Split(s[i + 1..], c)
  }

  /** Splitting `a + [c] + b` where `a` has no `c` yields `a`, then the pieces of `b`. */
  lemma SplitCons(a: string, c: char, b: string)
    requires c !in a
    ensures Split(a + [c] + b, c) == [a] + Split(b, c)
  {
    var s := a + [c] + b;
    assert s[|a|] == c;
    var i := IndexOf(s, c);
    assert forall j :: 0 <= j < |a| ==> s[j] == a[j];
    assert i <= |a| by {
      assert forall j :: 0 <= j < i ==> s[..i][j] == s[j];
    }
    assert s[..i] == a;
    assert s[i + 1..] == b;
  }

  /** Splitting a join gives back the pieces when none contains the separator. */
  lemma {:induction false} SplitJoin(parts: seq<string>, c: char)
    requires |parts| >= 1
    requires forall i :: 0 <= i < |parts| ==> c !in parts[i]
    ensures Split(JoinOn(parts, c), c) == parts
  {
    if |parts| > 1 {
      var rest := JoinOn(parts[1..], c);
      JoinOnCons(parts, c);
      assert forall i :: 0 <= i < |parts[1..]| ==> c !in parts[1..][i] by {
        assert forall i :: 0 <= i < |parts[1..]| ==> parts[1..][i] == parts[i + 1];
      }
      SplitJoin(parts[1..], c);
      SplitCons(parts[0], c, rest);
      assert parts == [parts[0]] + parts[1..];
    }
  }

  /** Joining at least two pieces: the first, the separator, then the rest joined. */
  lemma JoinOnCons(parts: seq<string>, c: char)
    requires |parts| >= 2
    ensures JoinOn(parts, c) == parts[0] + [c] + JoinOn(parts[1..], c)
  {
  }

  /** A joined line holds a character only if a piece or the separator does. */
  lemma {:induction false} JoinOnExcludes(parts: seq<string>, c: char, x: char)
    requires x != c
    requires forall i :: 0 <= i < |parts| ==> x !in parts[i]
    ensures x !in JoinOn(parts, c)
  {
    if |parts| > 1 {
      JoinOnExcludes(parts[1..], c, x);
    }
  }

  /** Every character of a piece is a character of the joined line. */
  lemma {:induction false} PiecesWithin(parts: seq<string>, c: char, x: char)
    requires x !in JoinOn(parts, c)
    ensures forall i :: 0 <= i < |parts| ==> x !in parts[i]
  {
    if |parts| > 1 {
      assert JoinOn(parts, c) == parts[0] + [c] + JoinOn(parts[1..], c);
      PiecesWithin(parts[1..], c, x);
      assert forall i :: 1 <= i < |parts| ==> parts[i] == parts[1..][i - 1];
    }
  }

  /** `pat` occurs in `s` starting at position `i`. */
  predicate OccursAt(s: string, pat: string, i: int) {
    0 <= i && i + |pat| <= |s| && s[i..i + |pat|] == pat
  }

  predicate Occurs(s: string, pat: string) {
    exists i | 0 <= i <= |s| :: OccursAt(s, pat, i)
  }

  /**
   * `s.replace(pat, rep)` in Python: every occurrence of `pat`, found left to
   * right without overlap, is replaced by `rep`.
   */
  function ReplaceAll(s: string, pat: string, rep: string): string
    requires |pat| > 0
    decreases |s|
  {
    if |s| < |pat| then s
    else if s[..|pat|] == pat then rep + ReplaceAll(s[|pat|..], pat, rep)
    else [s[0]] + ReplaceAll(s[1..], pat, rep)
  }

  /** `pat` overlaps itself nowhere: no proper suffix of it is also a prefix of it. */
  predicate Borderless(pat: string) {
    forall k :: 0 < k < |pat| ==> pat[k..] != pat[..|pat| - k]
  }

  /** Replacing leaves a string without any occurrence of `pat` unchanged. */
  lemma {:induction false} ReplaceAllAbsent(s: string, pat: string, rep: string)
    requires |pat| > 0 && !Occurs(s, pat)
    ensures ReplaceAll(s, pat, rep) == s
    decreases |s|
  {
    if |s| >= |pat| {
      assert !OccursAt(s, pat, 0);
      assert s[..|pat|] != pat;
      if OccursAt(s[1..], pat, 0) {
        assert 0 + |pat| <= |s[1..]|;
      }
      AbsentInTail(s, pat);
      ReplaceAllAbsent(s[1..], pat, rep);
    }
  }

  /**
   * When `pat` overlaps itself nowhere and `a` holds no occurrence of it,
   * the first occurrence in `a + pat + b` is the one after `a`: it is
   * replaced, and replacing goes on in `b`. So every occurrence is replaced,
   * left to right.
   */
  lemma {:induction false} ReplaceAllCons(a: string, pat: string, rep: string, b: string)
    requires |pat| > 0 && Borderless(pat) && !Occurs(a, pat)
    ensures ReplaceAll(a + pat + b, pat, rep) == a + rep + ReplaceAll(b, pat, rep)
    decreases |a|
  {
    var s := a + pat + b;
    if |a| == 0 {
      assert s == pat + b;
      assert s[..|pat|] == pat && s[|pat|..] == b;
    } else {
      NoMatchAtStart(a, pat);
      assert s[..|pat|] == (a + pat)[..|pat|];
      AbsentInTail(a, pat);
      assert s[1..] == a[1..] + pat + b;
      ReplaceAllCons(a[1..], pat, rep, b);
      assert ReplaceAll(s, pat, rep) == [s[0]] + ReplaceAll(s[1..], pat, rep);
      assert s[0] == a[0] && a == [a[0]] + a[1..];
    }
  }

  /** The case of one final occurrence: `stem + pat` becomes `stem + rep`. */
  lemma ReplaceAllSuffix(stem: string, pat: string, rep: string)
    requires |pat| > 0 && Borderless(pat) && !Occurs(stem, pat)
    ensures ReplaceAll(stem + pat, pat, rep) == stem + rep
  {
    ReplaceAllCons(stem, pat, rep, []);
    assert stem + pat + [] == stem + pat;
    assert stem + rep + [] == stem + rep;
  }

  /** Under the conditions above, `stem + pat` does not start with `pat` when `stem` is not empty. */
  lemma NoMatchAtStart(stem: string, pat: string)
    requires |pat| > 0 && Borderless(pat) && !Occurs(stem, pat) && |stem| > 0
    ensures (stem + pat)[..|pat|] != pat
  {
    var s := stem + pat;
    var n := |pat|;
    if |stem| >= n {
      assert stem[0..0 + n] == s[..n];
      assert !OccursAt(stem, pat, 0);
    } else {
      var k := |stem|;
      assert s[k..n] == pat[..n - k];
      assert pat[k..] != pat[..n - k];
    }
  }

  /** An occurrence in the tail of a string is an occurrence in the string. */
  lemma AbsentInTail(s: string, pat: string)
    requires |s| > 0 && !Occurs(s, pat)
    ensures !Occurs(s[1..], pat)
  {
    forall i | 0 <= i <= |s[1..]| && OccursAt(s[1..], pat, i) ensures OccursAt(s, pat, i + 1) {
      assert s[1..][i..i + |pat|] == s[i + 1..i + 1 + |pat|];
    }
  }

  /** A replacement that lengthens the text changes it exactly when `pat` occurs. */
  lemma {:induction false} ReplaceAllChangesIff(s: string, pat: string, rep: string)
    requires |pat| > 0 && |rep| > |pat|
    ensures ReplaceAll(s, pat, rep) == s <==> !Occurs(s, pat)
  {
    if Occurs(s, pat) {
      ReplaceAllGrows(s, pat, rep);
    } else {
      ReplaceAllAbsent(s, pat, rep);
    }
  }

  lemma {:induction false} ReplaceAllGrows(s: string, pat: string, rep: string)
    requires |pat| > 0 && |rep| > |pat|
    ensures |ReplaceAll(s, pat, rep)| >= |s|
    ensures Occurs(s, pat) ==> |ReplaceAll(s, pat, rep)| > |s|
    decreases |s|
  {
    if |s| >= |pat| {
      if s[..|pat|] == pat {
        ReplaceAllGrows(s[|pat|..], pat, rep);
      } else {
        ReplaceAllGrows(s[1..], pat, rep);
        if Occurs(s, pat) {
          var i :| 0 <= i <= |s| && OccursAt(s, pat, i);
          var n := |pat|;
          assert i != 0;
          assert s[1..][i - 1..i - 1 + n] == s[i..i + n];
          assert OccursAt(s[1..], pat, i - 1);
        }
      }
    }
  }

  /** A replacement keeps out every character that neither `s` nor `rep` holds. */
  lemma {:induction false} ReplaceAllExcludes(s: string, pat: string, rep: string, x: char)
    requires |pat| > 0 && x !in s && x !in rep
    ensures x !in ReplaceAll(s, pat, rep)
    decreases |s|
  {
    if |s| >= |pat| {
      if s[..|pat|] == pat {
        ReplaceAllExcludes(s[|pat|..], pat, rep, x);
      } else {
        ReplaceAllExcludes(s[1..], pat, rep, x);
      }
    }
  }

  /** Concatenation regroups freely. */
  lemma AppendAssoc<T>(a: seq<T>, b: seq<T>, c: seq<T>)
    ensures a + b + c == a + (b + c)
  {
  }

  /** The characters of the pieces one after another. */
  function Concat(ss: seq<string>): string {
    if ss == [] then [] else ss[0] + Concat(ss[1..])
  }

  /** A line as a text file yields it: ends with `\n` and holds no other `\n`. */
  predicate CompleteLine(line: string) {
    |line| > 0 && line[|line| - 1] == '\n' && '\n' !in line[..|line| - 1]
  }

  /** A text's last line: non-empty, with no `\n` before its final character. */
  predicate LastLine(line: string) {
    |line| > 0 && '\n' !in line[..|line| - 1]
  }

  /**
   * The lines `for line in f` yields for a file with text `t`: each line keeps
   * its `\n`; a last line without one is yielded as it is.
   */
  function Lines(t: string): (ls: seq<string>)
    ensures Concat(ls) == t
    ensures forall i :: 0 <= i < |ls| ==> |ls[i]| > 0
    ensures forall i :: 0 <= i < |ls| - 1 ==> CompleteLine(ls[i])
    ensures |ls| > 0 ==> LastLine(ls[|ls| - 1])
    decreases |t|
  {
    if t == [] then []
    else if '\n' !in t then
      assert t[..|t| - 1] <= t;
      [t]
    else
      var i := IndexOf(t, '\n');
      var first, rest := t[..i + 1], Lines(t[i + 1..]);
      assert t == first + t[i + 1..];
      assert first[..i] == t[..i];
      LinesOfCons(first, rest);
      [first] + rest
  }

  /** A complete line put in front of the lines of a text keeps them the lines of a text. */
  lemma LinesOfCons(first: string, rest: seq<string>)
    requires CompleteLine(first)
    requires forall i :: 0 <= i < |rest| ==> |rest[i]| > 0
    requires forall i :: 0 <= i < |rest| - 1 ==> CompleteLine(rest[i])
    requires |rest| > 0 ==> LastLine(rest[|rest| - 1])
    ensures Concat([first] + rest) == first + Concat(rest)
    ensures forall i :: 0 <= i < |rest| + 1 ==> |([first] + rest)[i]| > 0
    ensures forall i :: 0 <= i < |rest| ==> CompleteLine(([first] + rest)[i])
    ensures LastLine(([first] + rest)[|rest|])
  {
    var ls := [first] + rest;
    assert ls[0] == first && ls[1..] == rest;
    assert forall i :: 1 <= i < |rest| + 1 ==> ls[i] == rest[i - 1];
  }

  /** Reading back lines that were written whole gives the same lines. */
  lemma {:induction false} LinesConcat(ls: seq<string>)
    requires forall i :: 0 <= i < |ls| ==> CompleteLine(ls[i])
    ensures Lines(Concat(ls)) == ls
  {
    if ls != [] {
      assert Concat(ls) == ls[0] + Concat(ls[1..]);
      LinesCons(ls[0], Concat(ls[1..]));
      LinesConcat(ls[1..]);
      assert ls == [ls[0]] + ls[1..];
    }
  }

  /** A complete line in front of a text is read as that line, then the lines of the text. */
  lemma LinesCons(l: string, rest: string)
    requires CompleteLine(l)
    ensures Lines(l + rest) == [l] + Lines(rest)
  {
    var t := l + rest;
    assert t[|l| - 1] == '\n';
    var i := IndexOf(t, '\n');
    assert forall j :: 0 <= j < |l| - 1 ==> t[j] == l[..|l| - 1][j];
    assert i == |l| - 1 by {
      assert forall j :: 0 <= j < i ==> t[..i][j] == t[j];
    }
    assert t[..i + 1] == l;
    assert t[i + 1..] == rest;
  }
}
