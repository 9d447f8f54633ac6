/**
 * The string operations the syncer applies to paths: Python's
 * `str.split('/')`, and the POSIX `os.path.join`, `os.path.dirname` and
 * `os.path.basename` for a single separator `/`.
 */
module Paths {

  /** `s.split('/')`: the pieces between separators, empty ones included. */
  function Split(s: string): (parts: seq<string>)
    ensures |parts| >= 1
    ensures forall i :: 0 <= i < |parts| ==> '/' !in parts[i]
    decreases |s|
  {
    if s == [] then [[]]
    else
      var rest := Split(s[1..]);
      if s[0] == '/' then [[]] + rest
      else [[s[0]] + rest[0]] + rest[1..]
  }

  /** `'/'.join(parts)`. */
  function Join(parts: seq<string>): string
    requires |parts| >= 1
    decreases |parts|
  {
    if |parts| == 1 then parts[0] else parts[0] + "/" + Join(parts[1..])
  }

  /** Splitting and joining again gives back the string. */
  lemma {:induction false} JoinSplit(s: string)
    ensures Join(Split(s)) == s
    decreases |s|
  {
    if s != [] {
      JoinSplit(s[1..]);
      var rest := Split(s[1..]);
      if s[0] == '/' {
        assert Split(s)[1..] == rest;
      } else {
        var head := [s[0]] + rest[0];
        assert Split(s) == [head] + rest[1..];
        if |rest| == 1 {
          assert Join(Split(s)) == head;
        } else {
          assert Join(Split(s)) == head + "/" + Join(rest[1..]);
          assert Join(rest) == rest[0] + "/" + Join(rest[1..]);
        }
      }
    }
  }

  /** A piece without separator splits to itself. */
  lemma {:induction false} SplitPiece(a: string)
    requires '/' !in a
    ensures Split(a) == [a]
    decreases |a|
  {
    if a != [] {
      assert a[0] in a;
      assert '/' !in a[1..] by {
        forall i | 0 <= i < |a[1..]| ensures a[1..][i] != '/' { assert a[1..][i] == a[i + 1]; }
      }
      SplitPiece(a[1..]);
      assert [a[0]] + a[1..] == a;
    }
  }

  /** A piece without separator, a separator and a rest split to the piece followed by the rest's pieces. */
  lemma {:induction false} SplitCons(a: string, b: string)
    requires '/' !in a
    ensures Split(a + "/" + b) == [a] + Split(b)
    decreases |a|
  {
    var s := a + "/" + b;
    if a == [] {
      assert s[0] == '/' && s[1..] == b;
    } else {
      assert a[0] in a;
      assert '/' !in a[1..] by {
        forall i | 0 <= i < |a[1..]| ensures a[1..][i] != '/' { assert a[1..][i] == a[i + 1]; }
      }
      assert s[1..] == a[1..] + "/" + b;
      SplitCons(a[1..], b);
      assert [a[0]] + a[1..] == a;
    }
  }

  /** Joining separator-free pieces and splitting again gives back the pieces. */
  lemma {:induction false} SplitJoin(parts: seq<string>)
    requires |parts| >= 1
    requires forall i :: 0 <= i < |parts| ==> '/' !in parts[i]
    ensures Split(Join(parts)) == parts
    decreases |parts|
  {
    if |parts| == 1 {
      SplitPiece(parts[0]);
    } else {
      SplitJoin(parts[1..]);
      SplitCons(parts[0], Join(parts[1..]));
      assert [parts[0]] + parts[1..] == parts;
    }
  }

  /** `os.path.join(a, b)`: an absolute `b` replaces `a`; no separator is doubled. */
  function PathJoin(a: string, b: string): (p: string)
    ensures |b| > 0 && b[0] == '/' ==> p == b
    ensures (|b| == 0 || b[0] != '/') ==> p == a + b || p == a + "/" + b
    ensures (|b| == 0 || b[0] != '/') ==> (p == a + "/" + b <==> a != [] && a[|a| - 1] != '/')
  {
    if |b| > 0 && b[0] == '/' then b
    else if a == [] || a[|a| - 1] == '/' then a + b
    else a + "/" + b
  }

  /** The index just past the last separator of `p`, 0 when there is none. */
  function SlashEnd(p: string): (k: nat)
    ensures k <= |p|
    ensures k > 0 ==> p[k - 1] == '/'
    ensures forall i :: k <= i < |p| ==> p[i] != '/'
    decreases |p|
  {
    if p == [] then 0
    else if p[|p| - 1] == '/' then |p|
    else SlashEnd(p[..|p| - 1])
  }

  predicate AllSlashes(s: string)
  {
    forall i :: 0 <= i < |s| ==> s[i] == '/'
  }

  /** `s.rstrip('/')`. */
  function RStripSlashes(s: string): (r: string)
    ensures |r| <= |s| && r == s[..|r|]
    ensures r == [] || r[|r| - 1] != '/'
    ensures AllSlashes(s[|r|..])
    decreases |s|
  {
    if s != [] && s[|s| - 1] == '/' then
      var r := RStripSlashes(s[..|s| - 1]);
      assert s[|r|..] == s[..|s| - 1][|r|..] + [s[|s| - 1]];
      r
    else s
  }

  /** `os.path.dirname(p)`: everything up to the last separator, trailing separators removed unless that is all there is. */
  function DirName(p: string): (d: string)
    ensures |d| <= |p| && d == p[..|d|]
    ensures d == [] || d[|d| - 1] != '/' || AllSlashes(d)
    ensures d == [] <==> SlashEnd(p) == 0
    ensures |d| <= SlashEnd(p) && AllSlashes(p[|d|..SlashEnd(p)])
    ensures AllSlashes(d) ==> |d| == SlashEnd(p)
  {
    var head := p[..SlashEnd(p)];
    if head != [] && !AllSlashes(head) then RStripSlashes(head) else head
  }

  /** `os.path.basename(p)`: everything after the last separator. */
  function BaseName(p: string): (b: string)
    ensures '/' !in b
    ensures |b| <= |p| && b == p[|p| - |b|..]
    ensures |b| < |p| ==> p[|p| - |b| - 1] == '/'
  {
    p[SlashEnd(p)..]
  }

  /** A separator-free tail after a separator leaves the last separator where it was. */
  lemma {:induction false} SlashEndAppend(x: string, n: string)
    requires x != [] && x[|x| - 1] == '/'
    requires '/' !in n
    ensures SlashEnd(x + n) == |x|
    decreases |n|
  {
    if n == [] {
      assert x + n == x;
    } else {
      var s := x + n;
      assert s[|s| - 1] == n[|n| - 1] && n[|n| - 1] in n;
      assert s[..|s| - 1] == x + n[..|n| - 1];
      var m := n[..|n| - 1];
      assert '/' !in m by {
        forall i | 0 <= i < |m| ensures m[i] != '/' { assert m[i] == n[i] && n[i] in n; }
      }
      SlashEndAppend(x, n[..|n| - 1]);
    }
  }

  /**
   * A name joined under a directory has that directory as its dirname and the name
   * as its basename, for every directory that does not end in a separator (or
   * consists only of separators, like the root).
   */
  lemma {:induction false} DirNameBaseNameOfJoin(d: string, n: string)
    requires n != [] && '/' !in n
    requires d == [] || d[|d| - 1] != '/' || AllSlashes(d)
    ensures DirName(PathJoin(d, n)) == d
    ensures BaseName(PathJoin(d, n)) == n
  {
    assert n[0] in n;
    var p := PathJoin(d, n);
    if d == [] {
      assert p == n;
    } else if d[|d| - 1] == '/' {
      assert p == d + n;
      SlashEndAppend(d, n);
      assert p[..|d|] == d && p[|d|..] == n;
    } else {
      var x := d + "/";
      assert p == x + n;
      SlashEndAppend(x, n);
      assert p[..|x|] == x && p[|x|..] == n;
      assert !AllSlashes(x) by { assert x[|d| - 1] == d[|d| - 1]; }
      assert x[..|x| - 1] == d;
      assert RStripSlashes(x) == RStripSlashes(d) == d;
    }
  }
}
