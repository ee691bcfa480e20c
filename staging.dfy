/**
  The staging store: the hidden `.replace-rr` directory in the working directory that
  mirrors the target tree. Conversion writes only here; reads prefer the staged copy;
  the commit moves every staged file onto the original it came from.
  The filesystem is two maps from absolute paths to file contents.
 */
module Staging {
  import opened Results
  import opened Paths

  /** `BUFFER_PATH = path.resolve(process.cwd(), './.replace-rr')`. */
  function BufferRoot(cwd: Path): Path
  {
    cwd + [".replace-rr"]
  }

  /** `getBufferPath(rootDir, originFilePath)`: the same relative path, re-rooted under the staging root. */
  function GetBufferPath(bufferRoot: Path, root: Path, p: Path): Path
  {
    Resolve(bufferRoot, Relative(root, p))
  }

  /** Where the commit moves staged file `k`: `path.resolve(originalPath, path.relative(BUFFER_PATH, k))`. */
  function CommitTarget(bufferRoot: Path, root: Path, k: Path): Path
  {
    Resolve(root, Relative(bufferRoot, k))
  }

  /** `k` is a file path inside the staging root with a normalised relative part. */
  predicate IsStagingPath(bufferRoot: Path, k: Path)
  {
    |bufferRoot| < |k| && k[..|bufferRoot|] == bufferRoot && IsNormal(k[|bufferRoot|..])
  }

  /** The content of entry `k`, if there is one. */
  function Entry(m: map<Path, string>, k: Path): Option<string>
  {
    if k in m then Some(m[k]) else None
  }

  /** The message Node gives `readFile` for a missing file. */
  function NoSuchFile(p: Path): string
  {
    "ENOENT: no such file or directory, open '" + PathString(p) + "'"
  }

  /** `getFileContent(bufferPath, originalFilePath)` on the two maps. */
  function ReadCurrent(buffer: map<Path, string>, original: map<Path, string>, bufferPath: Path, originalPath: Path): Result<string>
  {
    if bufferPath in buffer then Ok(buffer[bufferPath])
    else if originalPath in original then Ok(original[originalPath])
    else Err(NoSuchFile(originalPath))
  }

  /** A file strictly inside `root` is staged strictly inside the staging root, at the same relative path. */
  lemma BufferPathUnder(bufferRoot: Path, root: Path, p: Path)
    requires IsUnder(root, p) && IsNormal(p)
    ensures GetBufferPath(bufferRoot, root, p) == bufferRoot + p[|root|..]
    ensures IsStagingPath(bufferRoot, GetBufferPath(bufferRoot, root, p))
  {
    RelativeUnder(root, p);
    NormalSuffix(p, |root|);
    ResolveNames(bufferRoot, p[|root|..]);
    assert (bufferRoot + p[|root|..])[|bufferRoot|..] == p[|root|..];
  }

  /**
    The relative path survives the round trip, `relative(BUFFER, getBufferPath(root, p)) == relative(root, p)`,
    so the commit moves every staged copy exactly onto the file it was made from.
   */
  lemma BufferPathRoundTrip(bufferRoot: Path, root: Path, p: Path)
    requires IsUnder(root, p) && IsNormal(p)
    ensures Relative(bufferRoot, GetBufferPath(bufferRoot, root, p)) == Relative(root, p)
    ensures CommitTarget(bufferRoot, root, GetBufferPath(bufferRoot, root, p)) == p
  {
    BufferPathUnder(bufferRoot, root, p);
    var rel := p[|root|..];
    var bp := bufferRoot + rel;
    RelativeUnder(root, p);
    RelativeUnder(bufferRoot, bp);
    assert bp[|bufferRoot|..] == rel;
    NormalSuffix(p, |root|);
    ResolveNames(root, rel);
    TargetOfSource(bufferRoot, root, p);
  }

  /** Re-rooting under `root` what was re-rooted under the staging root gives the path back. */
  lemma TargetOfSource(bufferRoot: Path, root: Path, q: Path)
    requires IsUnder(root, q)
    ensures root + (bufferRoot + q[|root|..])[|bufferRoot|..] == q
  {
    assert (bufferRoot + q[|root|..])[|bufferRoot|..] == q[|root|..];
    assert q[..|root|] + q[|root|..] == q;
  }

  /** The commit target of a staging path lies inside `root`, and its staging counterpart is that path. */
  lemma SourceOfTarget(bufferRoot: Path, root: Path, k: Path)
    requires |bufferRoot| < |k| && k[..|bufferRoot|] == bufferRoot
    ensures IsUnder(root, root + k[|bufferRoot|..])
    ensures bufferRoot + (root + k[|bufferRoot|..])[|root|..] == k
  {
    assert (root + k[|bufferRoot|..])[|root|..] == k[|bufferRoot|..];
    assert (root + k[|bufferRoot|..])[..|root|] == root;
    assert k[..|bufferRoot|] + k[|bufferRoot|..] == k;
  }

  /** Distinct files have distinct staging paths, so jobs on different files never touch the same entry. */
  lemma BufferPathDistinct(bufferRoot: Path, root: Path, p: Path, q: Path)
    requires IsUnder(root, p) && IsNormal(p) && IsUnder(root, q) && IsNormal(q)
    requires p != q
    ensures GetBufferPath(bufferRoot, root, p) != GetBufferPath(bufferRoot, root, q)
  {
    BufferPathUnder(bufferRoot, root, p);
    BufferPathUnder(bufferRoot, root, q);
    TargetOfSource(bufferRoot, root, p);
    TargetOfSource(bufferRoot, root, q);
  }

  /** The commit target of a staging path, in closed form. */
  lemma CommitTargetOf(bufferRoot: Path, root: Path, k: Path)
    requires IsStagingPath(bufferRoot, k)
    ensures CommitTarget(bufferRoot, root, k) == root + k[|bufferRoot|..]
  {
    RelativeUnder(bufferRoot, k);
    ResolveNames(root, k[|bufferRoot|..]);
  }

  /**
    The entry at `q` after `replaceOriginWithBuffer(root)` has moved `staged` onto the target
    tree: a path inside `root` whose staging counterpart holds a file takes that file's content;
    every other path keeps what `original` had.
   */
  function CommittedEntry(original: map<Path, string>, staged: map<Path, string>, bufferRoot: Path, root: Path, q: Path): Option<string>
  {
    if IsUnder(root, q) && bufferRoot + q[|root|..] in staged then Some(staged[bufferRoot + q[|root|..]])
    else Entry(original, q)
  }

  /** Partway through the commit: every staged file not in `pending` has been moved, nothing else has changed. */
  ghost predicate CommittedExcept(original: map<Path, string>, before: map<Path, string>, staged: map<Path, string>,
                                  pending: set<Path>, bufferRoot: Path, root: Path)
  {
    forall q :: Entry(original, q) ==
      (if IsUnder(root, q) && bufferRoot + q[|root|..] in staged && bufferRoot + q[|root|..] !in pending
       then Some(staged[bufferRoot + q[|root|..]]) else Entry(before, q))
  }

  /** Moving one more staged file `k` onto its target keeps the commit on track. */
  lemma CommitOne(original: map<Path, string>, before: map<Path, string>, staged: map<Path, string>,
                  pending: set<Path>, bufferRoot: Path, root: Path, k: Path)
    requires CommittedExcept(original, before, staged, pending, bufferRoot, root)
    requires k in pending && k in staged && |bufferRoot| < |k| && k[..|bufferRoot|] == bufferRoot
    ensures CommittedExcept(original[root + k[|bufferRoot|..] := staged[k]], before, staged, pending - {k}, bufferRoot, root)
  {
    var target := root + k[|bufferRoot|..];
    var next := original[target := staged[k]];
    forall q ensures Entry(next, q) ==
      (if IsUnder(root, q) && bufferRoot + q[|root|..] in staged && bufferRoot + q[|root|..] !in pending - {k}
       then Some(staged[bufferRoot + q[|root|..]]) else Entry(before, q))
    {
      if IsUnder(root, q) {
        TargetOfSource(bufferRoot, root, q);
      }
      if q == target {
        SourceOfTarget(bufferRoot, root, k);
      }
    }
  }

  /** The filesystem the run sees: the original tree, the staging tree, and whether the staging root exists. */
  class Store {
    const bufferRoot: Path
    var original: map<Path, string>
    var buffer: map<Path, string>
    var bufferExists: bool

    /** Staged entries only exist inside an existing staging root. */
    ghost predicate Valid()
      reads this
    {
      && (buffer != map[] ==> bufferExists)
      && forall k :: k in buffer ==> |bufferRoot| < |k| && k[..|bufferRoot|] == bufferRoot && IsNormal(k[|bufferRoot|..])
    }

    /** A store as a run finds it, with whatever a previous interrupted run left in the staging root. */
    constructor (bufferRoot: Path, original: map<Path, string>, stale: map<Path, string>, staleExists: bool)
      requires stale != map[] ==> staleExists
      requires forall k :: k in stale ==> |bufferRoot| < |k| && k[..|bufferRoot|] == bufferRoot && IsNormal(k[|bufferRoot|..])
      ensures Valid()
      ensures this.bufferRoot == bufferRoot && this.original == original
      ensures buffer == stale && bufferExists == staleExists
    {
      this.bufferRoot := bufferRoot;
      this.original := original;
      this.buffer := stale;
      this.bufferExists := staleExists;
    }

    /** `clearBuffer`: remove the staging root, if it exists, with everything in it. */
    method ClearBuffer()
      requires Valid()
      modifies this
      ensures Valid()
      ensures !bufferExists && buffer == map[]
      ensures original == old(original)
    {
      if bufferExists {
        buffer := map[];
        bufferExists := false;
      }
    }

    /** `initBuffer`: clear any stale staging root, then create it empty. */
    method InitBuffer()
      requires Valid()
      modifies this
      ensures Valid()
      ensures bufferExists && buffer == map[]
      ensures original == old(original)
    {
      ClearBuffer();
      bufferExists := true;
    }

    /** `writeBuffer(bufferPath, data)`: create the parent directories as needed, then overwrite the entry. */
    method WriteBuffer(bufferPath: Path, data: string)
      requires Valid() && IsStagingPath(bufferRoot, bufferPath)
      modifies this
      ensures Valid()
      ensures buffer == old(buffer)[bufferPath := data]
      ensures bufferExists
      ensures original == old(original)
    {
      bufferExists := true;
      buffer := buffer[bufferPath := data];
    }

    /** `getFileContent(bufferPath, originalFilePath)`: the staged copy if there is one, else the original. */
    method GetFileContent(bufferPath: Path, originalPath: Path) returns (r: Result<string>)
      ensures bufferPath in buffer ==> r == Ok(buffer[bufferPath])
      ensures bufferPath !in buffer && originalPath in original ==> r == Ok(original[originalPath])
      ensures bufferPath !in buffer && originalPath !in original ==> r == Err(NoSuchFile(originalPath))
    {
      if bufferPath in buffer {
        r := Ok(buffer[bufferPath]);
      } else if originalPath in original {
        r := Ok(original[originalPath]);
      } else {
        r := Err(NoSuchFile(originalPath));
      }
    }

    /**
      `replaceOriginWithBuffer(originalPath)`: walk the staging tree and rename every staged file
      onto the same relative path under `root`. The staging tree is empty afterwards.
     */
    method ReplaceOriginWithBuffer(root: Path)
      requires Valid()
      modifies this
      ensures Valid()
      ensures forall q :: Entry(original, q) == CommittedEntry(old(original), old(buffer), bufferRoot, root, q)
      ensures buffer == map[] && bufferExists == old(bufferExists)
    {
      ghost var staged := buffer;
      ghost var before := original;
      while buffer != map[]
        invariant buffer.Keys <= staged.Keys
        invariant forall k :: k in buffer ==> buffer[k] == staged[k]
        invariant CommittedExcept(original, before, staged, buffer.Keys, bufferRoot, root)
        invariant bufferExists == old(bufferExists)
        invariant Valid()
        decreases |buffer|
      {
        var k :| k in buffer;
        ghost var pending := buffer.Keys;
        var target := CommitTarget(bufferRoot, root, k);
        CommitTargetOf(bufferRoot, root, k);
        CommitOne(original, before, staged, buffer.Keys, bufferRoot, root, k);
        original := original[target := buffer[k]];
        buffer := buffer - {k};
        assert buffer.Keys == pending - {k};
      }
    }
  }
}
