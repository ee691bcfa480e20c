/**
  `getFilePaths` and `getSpecificFiles`: a depth-first enumeration of every
  non-directory entry below a directory, and a filter over that enumeration.
  The directory listing the filesystem would return is given as a tree.
 */
module Walker {
  import opened Paths
  import opened Results

  /** One directory entry, in the order `opendir` returns them. `File` is any entry that is not a directory. */
  datatype Node = File(name: string) | Dir(name: string, children: seq<Node>)

  /** What a real listing guarantees: plain names, unique among siblings, in every directory. */
  predicate WellFormed(entries: seq<Node>)
    decreases entries
  {
    && (forall i :: 0 <= i < |entries| ==> IsName(entries[i].name))
    && (forall i, j :: 0 <= i < j < |entries| ==> entries[i].name != entries[j].name)
    && (forall i :: 0 <= i < |entries| && entries[i].Dir? ==> WellFormed(entries[i].children))
  }

  /** The paths yielded for the entries of directory `dir`, in order. */
  function Walk(dir: Path, entries: seq<Node>): seq<Path>
    decreases entries
  {
    if entries == [] then []
    else Walk(dir, entries[..|entries| - 1]) + WalkNode(dir, entries[|entries| - 1])
  }

  /** A non-directory entry is yielded itself; a directory is descended into at once. */
  function WalkNode(dir: Path, n: Node): seq<Path>
    decreases n
  {
    match n
    case File(name) => [dir + [name]]
    case Dir(name, children) => Walk(dir + [name], children)
  }

  /** `rel` names a non-directory entry of the tree `entries`. */
  predicate IsFileAt(entries: seq<Node>, rel: seq<string>)
    decreases entries
  {
    exists i :: 0 <= i < |entries| && IsFileAtNode(entries[i], rel)
  }

  predicate IsFileAtNode(n: Node, rel: seq<string>)
    decreases n
  {
    && |rel| > 0
    && n.name == rel[0]
    && (if |rel| == 1 then n.File? else n.Dir? && IsFileAt(n.children, rel[1..]))
  }

  ghost predicate NoDuplicates<T>(s: seq<T>)
  {
    forall i, j :: 0 <= i < j < |s| ==> s[i] != s[j]
  }

  /** The source's generator: read entries one by one, recurse into directories, yield the rest. */
  method GetFilePaths(dir: Path, entries: seq<Node>) returns (paths: seq<Path>)
    ensures paths == Walk(dir, entries)
    decreases entries
  {
    paths := [];
    var i := 0;
    while i < |entries|
      invariant i <= |entries|
      invariant paths == Walk(dir, entries[..i])
    {
      assert entries[..i + 1][..i] == entries[..i];
      var entry := entries[i];
      match entry {
        case Dir(name, children) =>
          var sub := GetFilePaths(dir + [name], children);
          paths := paths + sub;
        case File(name) =>
          paths := paths + [dir + [name]];
      }
      i := i + 1;
    }
    assert entries[..i] == entries;
  }

  /** The elements of `ps` that `pred` accepts, in order. */
  function Filter(pred: Path -> bool, ps: seq<Path>): seq<Path>
  {
    if ps == [] then []
    else Filter(pred, ps[..|ps| - 1]) + (if pred(ps[|ps| - 1]) then [ps[|ps| - 1]] else [])
  }

  /** `getSpecificFiles(pred, dir)`: what the walk yields, with the paths `pred` rejects skipped. */
  method GetSpecificFiles(pred: Path -> bool, dir: Path, entries: seq<Node>) returns (paths: seq<Path>)
    ensures paths == Filter(pred, Walk(dir, entries))
  {
    var all := GetFilePaths(dir, entries);
    paths := [];
    var i := 0;
    while i < |all|
      invariant i <= |all|
      invariant paths == Filter(pred, all[..i])
    {
      assert all[..i + 1][..i] == all[..i];
      if pred(all[i]) {
        paths := paths + [all[i]];
      }
      i := i + 1;
    }
    assert all[..i] == all;
  }

  /** The predicate the program passes: `!ext || filePath.endsWith("." + ext)`; an empty `ext` is falsy and keeps everything. */
  predicate KeepExt(ext: Option<string>, p: Path)
  {
    ext.None? || ext.value == "" || EndsWith(PathString(p), "." + ext.value)
  }

  /** Every path the walk yields lies strictly inside `dir`. */
  lemma {:induction false} WalkUnder(dir: Path, entries: seq<Node>)
    ensures forall p :: p in Walk(dir, entries) ==> IsUnder(dir, p)
    decreases entries
  {
    if entries != [] {
      WalkUnder(dir, entries[..|entries| - 1]);
      WalkNodeUnder(dir, entries[|entries| - 1]);
    }
  }

  lemma {:induction false} WalkNodeUnder(dir: Path, n: Node)
    ensures forall p :: p in WalkNode(dir, n) ==> IsUnder(dir, p)
    decreases n
  {
    if n.Dir? {
      WalkUnder(dir + [n.name], n.children);
      forall p | p in WalkNode(dir, n) ensures IsUnder(dir, p) {
        assert IsUnder(dir + [n.name], p);
        assert p[..|dir|] == p[..|dir| + 1][..|dir|];
      }
    }
  }

  /**
    Exactly the non-directory entries are yielded: a path comes out of the walk iff it
    lies inside `dir` and names a non-directory entry of the tree; directories are never
    yielded themselves and are always entered.
   */
  lemma {:induction false} WalkExact(dir: Path, entries: seq<Node>, p: Path)
    ensures p in Walk(dir, entries) <==> IsUnder(dir, p) && IsFileAt(entries, p[|dir|..])
    decreases entries
  {
    if entries != [] {
      var init, last := entries[..|entries| - 1], entries[|entries| - 1];
      WalkExact(dir, init, p);
      WalkNodeExact(dir, last, p);
      if IsUnder(dir, p) {
        IsFileAtSplit(entries, p[|dir|..]);
      }
    }
  }

  /** An entry of a listing is an entry of all but its last element, or that last element. */
  lemma IsFileAtSplit(entries: seq<Node>, rel: seq<string>)
    requires entries != []
    ensures IsFileAt(entries, rel)
        <==> IsFileAt(entries[..|entries| - 1], rel) || IsFileAtNode(entries[|entries| - 1], rel)
  {
    var init := entries[..|entries| - 1];
    if IsFileAt(entries, rel) {
      var i :| 0 <= i < |entries| && IsFileAtNode(entries[i], rel);
      if i < |init| {
        assert init[i] == entries[i];
      }
    }
    if IsFileAt(init, rel) {
      var i :| 0 <= i < |init| && IsFileAtNode(init[i], rel);
      assert entries[i] == init[i];
    }
  }

  lemma {:induction false} WalkNodeExact(dir: Path, n: Node, p: Path)
    ensures p in WalkNode(dir, n) <==> IsUnder(dir, p) && IsFileAtNode(n, p[|dir|..])
    decreases n
  {
    match n
    case File(name) =>
      if IsUnder(dir, p) && IsFileAtNode(n, p[|dir|..]) {
        assert p == p[..|dir|] + p[|dir|..];
        assert p[|dir|..] == [name];
      }
    case Dir(name, children) =>
      var sub := dir + [name];
      WalkExact(sub, children, p);
      if IsUnder(sub, p) {
        assert p[..|dir|] == p[..|sub|][..|dir|];
        assert p[|dir|..][1..] == p[|sub|..];
        assert p[|dir|..][0] == p[..|sub|][|dir|];
      }
      if IsUnder(dir, p) && IsFileAtNode(n, p[|dir|..]) {
        assert p[|dir|..][1..] == p[|sub|..];
        assert p[..|sub|] == p[..|dir|] + [p[|dir|..][0]];
      }
  }

  lemma NoDuplicatesAppend<T>(a: seq<T>, b: seq<T>)
    requires NoDuplicates(a) && NoDuplicates(b)
    requires forall x :: x in a ==> x !in b
    ensures NoDuplicates(a + b)
  {
    forall i, j | 0 <= i < j < |a + b| ensures (a + b)[i] != (a + b)[j] {
      if i < |a| && j >= |a| {
        assert (a + b)[i] in a;
        assert (a + b)[j] == b[j - |a|];
      }
    }
  }

  /** In a well-formed tree every file is yielded exactly once. */
  lemma {:induction false} WalkNoDuplicates(dir: Path, entries: seq<Node>)
    requires WellFormed(entries)
    ensures NoDuplicates(Walk(dir, entries))
    decreases entries
  {
    if entries != [] {
      var init, last := entries[..|entries| - 1], entries[|entries| - 1];
      assert WellFormed(init) by {
        forall i | 0 <= i < |init| ensures init[i] == entries[i] { }
      }
      WalkNoDuplicates(dir, init);
      WalkNodeNoDuplicates(dir, last);
      forall p | p in Walk(dir, init) ensures p !in WalkNode(dir, last) {
        WalkExact(dir, init, p);
        WalkNodeExact(dir, last, p);
        var i :| 0 <= i < |init| && IsFileAtNode(init[i], p[|dir|..]);
        assert init[i] == entries[i];
      }
      NoDuplicatesAppend(Walk(dir, init), WalkNode(dir, last));
    }
  }

  lemma {:induction false} WalkNodeNoDuplicates(dir: Path, n: Node)
    requires n.Dir? ==> WellFormed(n.children)
    ensures NoDuplicates(WalkNode(dir, n))
    decreases n
  {
    if n.Dir? {
      WalkNoDuplicates(dir + [n.name], n.children);
    }
  }

  /** In a well-formed tree under a normalised directory every yielded path is normalised. */
  lemma {:induction false} WalkNormal(dir: Path, entries: seq<Node>)
    requires IsNormal(dir) && WellFormed(entries)
    ensures forall p :: p in Walk(dir, entries) ==> IsNormal(p)
    decreases entries
  {
    if entries != [] {
      var init, last := entries[..|entries| - 1], entries[|entries| - 1];
      assert WellFormed(init) by {
        forall i | 0 <= i < |init| ensures init[i] == entries[i] { }
      }
      WalkNormal(dir, init);
      assert IsName(last.name);
      if last.Dir? {
        WalkNormal(dir + [last.name], last.children);
      }
    }
  }

  /** A path passes the filter iff it is in the list and the predicate accepts it; order and uniqueness are kept. */
  lemma {:induction false} FilterExact(pred: Path -> bool, ps: seq<Path>)
    ensures forall p :: p in Filter(pred, ps) <==> p in ps && pred(p)
    ensures NoDuplicates(ps) ==> NoDuplicates(Filter(pred, ps))
    decreases |ps|
  {
    if ps != [] {
      var init := ps[..|ps| - 1];
      FilterExact(pred, init);
      assert ps == init + [ps[|ps| - 1]];
      if NoDuplicates(ps) {
        assert NoDuplicates(init);
        if pred(ps[|ps| - 1]) {
          NoDuplicatesAppend(Filter(pred, init), [ps[|ps| - 1]]);
        } else {
          assert Filter(pred, ps) == Filter(pred, init);
        }
      }
    }
  }

  /** A predicate that accepts everything keeps the whole list. */
  lemma {:induction false} FilterAll(pred: Path -> bool, ps: seq<Path>)
    requires forall p :: pred(p)
    ensures Filter(pred, ps) == ps
    decreases |ps|
  {
    if ps != [] {
      FilterAll(pred, ps[..|ps| - 1]);
      assert ps[..|ps| - 1] + [ps[|ps| - 1]] == ps;
    }
  }

  /** With no extension (or an empty one) every file is kept; otherwise only names ending in `.ext`. */
  lemma KeepExtMeaning(ext: Option<string>, p: Path)
    requires p != []
    requires ext.Some? ==> '/' !in ext.value
    ensures ext.None? || ext.value == "" ==> KeepExt(ext, p)
    ensures ext.Some? && ext.value != "" ==> (KeepExt(ext, p) <==> EndsWith(p[|p| - 1], "." + ext.value))
  {
    if ext.Some? && ext.value != "" {
      assert '/' !in "." + ext.value;
      EndsWithSeesLastName(p, "." + ext.value);
    }
  }
}
