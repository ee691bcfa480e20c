/**
  Absolute POSIX paths as sequences of name components, with the two operations of
  Node's `path` module the program relies on: `path.relative` and `path.resolve`.
 */
module Paths {

  /** An absolute path: the names from the filesystem root down (`/a/b` is `["a", "b"]`). */
  type Path = seq<string>

  /** A name a directory entry can have: not empty, not `.` or `..`, no separator. */
  predicate IsName(c: string)
  {
    c != "" && c != "." && c != ".." && '/' !in c
  }

  /** A normalised path or relative path: every component is a plain name. */
  predicate IsNormal(p: seq<string>)
  {
    forall i :: 0 <= i < |p| ==> IsName(p[i])
  }

  /** `p` lies strictly inside directory `dir`. */
  predicate IsUnder(dir: Path, p: Path)
  {
    |dir| < |p| && p[..|dir|] == dir
  }

  /** Length of the longest common leading run of components. */
  function CommonLength(a: Path, b: Path): (r: nat)
    ensures r <= |a| && r <= |b|
    ensures a[..r] == b[..r]
    ensures r < |a| && r < |b| ==> a[r] != b[r]
  {
    if |a| == 0 || |b| == 0 || a[0] != b[0] then 0
    else
      var r := 1 + CommonLength(a[1..], b[1..]);
      assert a[..r] == [a[0]] + a[1..][..r - 1];
      assert b[..r] == [b[0]] + b[1..][..r - 1];
      r
  }

  /** `k` parent steps: `../../..`. */
  function Ups(k: nat): seq<string>
  {
    seq(k, _ => "..")
  }

  /** `path.relative(from, to)`: climb out of `from` to the common ancestor, then descend to `to`. */
  function Relative(from: Path, to: Path): seq<string>
  {
    var c := CommonLength(from, to);
    Ups(|from| - c) + to[c..]
  }

  /** One component of `path.resolve`: `..` goes up (the root is its own parent), `.` and empty stay, a name goes down. */
  function StepInto(base: Path, c: string): Path
  {
    if c == ".." then (if base == [] then [] else base[..|base| - 1])
    else if c == "." || c == "" then base
    else base + [c]
  }

  /** `path.resolve(base, rel)` for a relative `rel`. */
  function Resolve(base: Path, rel: seq<string>): Path
    decreases |rel|
  {
    if rel == [] then base else Resolve(StepInto(base, rel[0]), rel[1..])
  }

  /** The path as the string Node hands around: `/a/b/c`. */
  function PathString(p: Path): string
  {
    if p == [] then "/" else Joined(p)
  }

  function Joined(p: Path): string
  {
    if p == [] then "" else Joined(p[..|p| - 1]) + "/" + p[|p| - 1]
  }

  predicate EndsWith(s: string, suffix: string)
  {
    |suffix| <= |s| && s[|s| - |suffix|..] == suffix
  }

  lemma {:induction false} ResolveAppend(base: Path, x: seq<string>, y: seq<string>)
    ensures Resolve(base, x + y) == Resolve(Resolve(base, x), y)
    decreases |x|
  {
    if x == [] {
      assert x + y == y;
    } else {
      assert (x + y)[1..] == x[1..] + y;
      ResolveAppend(StepInto(base, x[0]), x[1..], y);
    }
  }

  lemma {:induction false} ResolveUps(base: Path, k: nat)
    requires k <= |base|
    ensures Resolve(base, Ups(k)) == base[..|base| - k]
    decreases k
  {
    if k > 0 {
      assert Ups(k)[1..] == Ups(k - 1);
      var up := base[..|base| - 1];
      ResolveUps(up, k - 1);
      assert up[..|up| - (k - 1)] == base[..|base| - k];
    }
  }

  /** Resolving plain names just appends them. */
  lemma {:induction false} ResolveNames(base: Path, names: seq<string>)
    requires IsNormal(names)
    ensures Resolve(base, names) == base + names
    decreases |names|
  {
    if names != [] {
      assert IsName(names[0]);
      ResolveNames(base + [names[0]], names[1..]);
      assert base + [names[0]] + names[1..] == base + names;
    }
  }

  /** `path.resolve(from, path.relative(from, to)) == to` for a normalised `to`. */
  lemma ResolveRelative(from: Path, to: Path)
    requires IsNormal(to)
    ensures Resolve(from, Relative(from, to)) == to
  {
    var c := CommonLength(from, to);
    var tail := to[c..];
    NormalSuffix(to, c);
    ResolveAppend(from, Ups(|from| - c), tail);
    ResolveUps(from, |from| - c);
    assert from[..|from| - (|from| - c)] == from[..c] == to[..c];
    ResolveNames(from[..c], tail);
    assert to[..c] + tail == to;
  }

  /** Inside `dir`, the relative path is just the trailing components. */
  lemma RelativeUnder(dir: Path, p: Path)
    requires IsUnder(dir, p)
    ensures Relative(dir, p) == p[|dir|..]
  {
    assert Ups(0) == [];
  }

  /** Normal paths have normal trailing parts. */
  lemma NormalSuffix(p: seq<string>, k: nat)
    requires IsNormal(p) && k <= |p|
    ensures IsNormal(p[k..])
  {
    forall i | 0 <= i < |p[k..]| ensures IsName(p[k..][i]) {
      assert p[k..][i] == p[k + i];
    }
  }

  /**
    A suffix test on the whole path string that contains no separator only ever looks
    at the last name: `"/src/a.ts".endsWith(".ts")` iff `"a.ts".endsWith(".ts")`.
   */
  lemma EndsWithSeesLastName(p: Path, suffix: string)
    requires p != [] && '/' !in suffix
    ensures EndsWith(PathString(p), suffix) <==> EndsWith(p[|p| - 1], suffix)
  {
    var name := p[|p| - 1];
    var s := PathString(p);
    var head := Joined(p[..|p| - 1]) + "/";
    assert s == head + name;
    if EndsWith(s, suffix) && |suffix| > |name| {
      SeparatorInSuffix(head, name, suffix);
      assert false;
    }
    if EndsWith(s, suffix) {
      assert s[|s| - |suffix|..] == name[|name| - |suffix|..];
    }
    if EndsWith(name, suffix) {
      assert s[|s| - |suffix|..] == name[|name| - |suffix|..];
    }
  }

  lemma SeparatorInSuffix(head: string, name: string, suffix: string)
    requires head != [] && head[|head| - 1] == '/'
    requires |name| < |suffix| && EndsWith(head + name, suffix)
    ensures '/' in suffix
  {
    var s := head + name;
    var k := |suffix| - |name| - 1;
    assert s[|s| - |name| - 1] == '/';
    assert suffix[k] == s[|s| - |suffix|..][k];
  }
}
