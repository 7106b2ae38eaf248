/**
 * Python's `os.path.basename`, `os.path.dirname` and `os.path.join` on POSIX
 * paths, and the facts the pipeline needs about how they fit together.
 */
module Paths {
  import opened Text

  /** The position just after the last `/` of `p`, or 0 when there is none. */
  function Cut(p: string): (c: nat)
    ensures c <= |p|
    ensures '/' !in p[c..]
    ensures c > 0 ==> p[c - 1] == '/'
    decreases |p|
  {
    if p == [] then 0
    else if p[|p| - 1] == '/' then |p|
    else
      var c := Cut(p[..|p| - 1]);
      assert p[c..] == p[..|p| - 1][c..] + [p[|p| - 1]];
      c
  }

  /** `os.path.basename(p)`: what follows the last `/`. */
  function Basename(p: string): (b: string)
    ensures '/' !in b && EndsWith(p, b)
  {
    p[Cut(p)..]
  }

  predicate AllSlashes(s: string) {
    forall i :: 0 <= i < |s| ==> s[i] == '/'
  }

  /** `s.rstrip("/")`. */
  function RStripSlashes(s: string): (r: string)
    ensures |r| <= |s| && r == s[..|r|] && (r == [] || r[|r| - 1] != '/')
    ensures forall i :: |r| <= i < |s| ==> s[i] == '/'
    decreases |s|
  {
    if |s| > 0 && s[|s| - 1] == '/' then RStripSlashes(s[..|s| - 1]) else s
  }

  /**
   * `os.path.dirname(p)`: everything up to the last `/`, without the
   * trailing slashes unless it is made of slashes only.
   */
  function Dirname(p: string): string {
    var head := p[..Cut(p)];
    if head != [] && !AllSlashes(head) then RStripSlashes(head) else head
  }

  /** `os.path.join(a, b)` with two arguments. */
  function Join(a: string, b: string): string {
    if StartsWith(b, "/") then b
    else if a == [] || EndsWith(a, "/") then a + b
    else a + "/" + b
  }

  /**
   * No two slashes in a row after the first character (the form
   * `os.path.abspath` gives, which keeps a leading `//`).
   */
  predicate Normal(p: string) {
    forall k :: 1 <= k < |p| - 1 ==> !(p[k] == '/' && p[k + 1] == '/')
  }

  lemma NoLeadingSlash(b: string)
    requires '/' !in b
    ensures !StartsWith(b, "/")
  {
    if |b| > 0 {
      assert b[0] in b;
    }
  }

  /**
   * In a normal path whose head up to the last `/` is not all slashes, that
   * `/` is the only trailing one, and the directory is what precedes it.
   */
  lemma DirnameOfNormal(p: string)
    requires Normal(p) && Cut(p) > 0 && !AllSlashes(p[..Cut(p)])
    ensures Dirname(p) == p[..Cut(p) - 1] && !EndsWith(p[..Cut(p) - 1], "/")
  {
    var c := Cut(p);
    var head := p[..c];
    assert (c == 1 || (c == 2 && p[0] == '/')) ==> AllSlashes(head);
    assert c > 2 ==> p[c - 2] != '/';
    assert head[..c - 1] == p[..c - 1];
  }

  /** Joining the directory and the base name of a normal path gives the path back. */
  lemma JoinDirnameBasename(p: string)
    requires Normal(p)
    ensures Join(Dirname(p), Basename(p)) == p
  {
    NoLeadingSlash(Basename(p));
    if Cut(p) == 0 {
      assert p[..0] == [] && p[0..] == p;
    } else if AllSlashes(p[..Cut(p)]) {
      JoinUnderSlashes(p);
    } else {
      JoinUnderDirectory(p);
    }
  }

  /** A path under a directory made of slashes only: the directory keeps its slashes. */
  lemma JoinUnderSlashes(p: string)
    requires Cut(p) > 0 && AllSlashes(p[..Cut(p)]) && !StartsWith(p[Cut(p)..], "/")
    ensures Join(Dirname(p), Basename(p)) == p
  {
    var c := Cut(p);
    assert p[..c][c - 1] == '/';
    assert p == p[..c] + p[c..];
    assert EndsWith(p[..c], "/");
  }

  /** A path under a named directory: the join puts back the one `/` between them. */
  lemma JoinUnderDirectory(p: string)
    requires Normal(p) && Cut(p) > 0 && !AllSlashes(p[..Cut(p)]) && !StartsWith(p[Cut(p)..], "/")
    ensures Join(Dirname(p), Basename(p)) == p
  {
    var c := Cut(p);
    DirnameOfNormal(p);
    Around(p, c - 1);
    assert [p[c - 1]] == "/";
  }

  lemma Around<T>(s: seq<T>, i: int)
    requires 0 <= i < |s|
    ensures s == s[..i] + [s[i]] + s[i + 1..]
  {
  }

  /** Appending a name without `/` leaves the directory alone and extends the base name. */
  lemma AppendName(p: string, x: string)
    requires '/' !in x
    ensures Cut(p + x) == Cut(p)
    ensures Dirname(p + x) == Dirname(p)
    ensures Basename(p + x) == Basename(p) + x
    ensures Normal(p) ==> Normal(p + x)
    decreases |x|
  {
    if x != [] {
      var y := x[..|x| - 1];
      assert (p + x)[..|p + x| - 1] == p + y;
      assert x[|x| - 1] in x;
      assert (p + x)[|p + x| - 1] == x[|x| - 1] != '/';
      AppendName(p, y);
      assert Cut(p + x) == Cut(p + y);
      assert (p + x)[..Cut(p + x)] == p[..Cut(p)];
      assert (p + x)[Cut(p)..] == Basename(p) + x;
      if Normal(p) {
        forall k | 1 <= k < |p + x| - 1 ensures !((p + x)[k] == '/' && (p + x)[k + 1] == '/') {
          if k + 1 < |p + x| - 1 {
            assert (p + x)[k] == (p + y)[k] && (p + x)[k + 1] == (p + y)[k + 1];
          } else {
            assert (p + x)[k + 1] == x[|x| - 1];
          }
        }
      }
    } else {
      assert p + x == p;
    }
  }

  /** The base name of a join with a name without `/` is that name. */
  lemma BasenameJoin(d: string, n: string)
    requires '/' !in n
    ensures Basename(Join(d, n)) == n
  {
    NoLeadingSlash(n);
    var sep := if d == [] || EndsWith(d, "/") then d else d + "/";
    assert Join(d, n) == sep + n;
    assert sep == [] || sep[|sep| - 1] == '/';
    AppendName(sep, n);
    assert Cut(sep) == |sep|;
  }
}
