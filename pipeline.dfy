/**
  The whole run: create the staging root, list the target files, convert them with the
  matchers the keys give, commit the staged files when the check passes, and remove the
  staging root in every case.
 */
module Pipeline {
  import opened Results
  import opened Paths
  import opened Matching
  import opened Keys
  import opened Walker
  import opened Staging
  import opened Substitution
  import opened Engine

  /** The predicate `startConversioin` hands to `getSpecificFiles`. */
  function ExtFilter(ext: Option<string>): Path -> bool
  {
    p => KeepExt(ext, p)
  }

  /** `originFilePaths`: the files the run converts, in walk order. */
  function Found(root: Path, tree: seq<Node>, ext: Option<string>): seq<Path>
  {
    Filter(ExtFilter(ext), Walk(root, tree))
  }

  /** The staging store once every job has run, starting from the empty staging root `initBuffer` leaves. */
  function Staged(original: map<Path, string>, bufferRoot: Path, root: Path, tree: seq<Node>, ext: Option<string>,
                  keys: seq<string>, from: string, to: string, ins: Insertion): map<Path, string>
    requires |keys| > 0
  {
    PassesBuffer(Context(bufferRoot, root, from, to, ins), original, map[], Matchers(keys), Found(root, tree, ext))
  }

  /** The settled outcomes of all those jobs. */
  function Settled(original: map<Path, string>, bufferRoot: Path, root: Path, tree: seq<Node>, ext: Option<string>,
                   keys: seq<string>, from: string, to: string, ins: Insertion): seq<Outcome>
    requires |keys| > 0
  {
    PassesOutcomes(Context(bufferRoot, root, from, to, ins), original, map[], Matchers(keys), Found(root, tree, ext))
  }

  /**
    Filter correctness: a path is converted iff it names a non-directory entry of the tree inside
    `root` and passes the extension filter; each such file is listed exactly once.
   */
  lemma FoundExact(root: Path, tree: seq<Node>, ext: Option<string>)
    requires IsNormal(root) && WellFormed(tree)
    ensures forall q :: q in Found(root, tree, ext) <==> IsUnder(root, q) && IsFileAt(tree, q[|root|..]) && KeepExt(ext, q)
    ensures InRoot(root, Found(root, tree, ext)) && NoDuplicates(Found(root, tree, ext))
  {
    var all := Walk(root, tree);
    var found := Found(root, tree, ext);
    FilterExact(ExtFilter(ext), all);
    WalkUnder(root, tree);
    WalkNormal(root, tree);
    WalkNoDuplicates(root, tree);
    forall q ensures q in found <==> IsUnder(root, q) && IsFileAt(tree, q[|root|..]) && KeepExt(ext, q) {
      WalkExact(root, tree, q);
    }
    forall i | 0 <= i < |found| ensures IsUnder(root, found[i]) && IsNormal(found[i]) {
      assert found[i] in found;
    }
  }

  /** A listed file's staging entry ends as its original content with every matcher applied, or absent if it had none. */
  lemma StagedListed(original: map<Path, string>, bufferRoot: Path, root: Path, tree: seq<Node>, ext: Option<string>,
                     keys: seq<string>, from: string, to: string, ins: Insertion, q: Path)
    requires IsNormal(root) && WellFormed(tree) && |keys| > 0 && IsUnder(root, q) && q in Found(root, tree, ext)
    ensures Entry(Staged(original, bufferRoot, root, tree, ext, keys, from, to, ins), bufferRoot + q[|root|..])
         == if q in original then Some(ConvertAll(ins, Matchers(keys), original[q], from, to)) else None
  {
    var c := Context(bufferRoot, root, from, to, ins);
    var files := Found(root, tree, ext);
    var ms := Matchers(keys);
    MatchersShape(keys);
    FoundExact(root, tree, ext);
    var i :| 0 <= i < |files| && files[i] == q;
    BufferPathUnder(bufferRoot, root, q);
    PassesAtFile(c, original, map[], ms, files, i);
    FoldFromOriginal(ins, ms, Entry(original, q), from, to);
  }

  /** A path inside `root` that is not listed has no staging entry. */
  lemma StagedUnlisted(original: map<Path, string>, bufferRoot: Path, root: Path, tree: seq<Node>, ext: Option<string>,
                       keys: seq<string>, from: string, to: string, ins: Insertion, q: Path)
    requires IsNormal(root) && WellFormed(tree) && |keys| > 0 && IsUnder(root, q) && q !in Found(root, tree, ext)
    ensures bufferRoot + q[|root|..] !in Staged(original, bufferRoot, root, tree, ext, keys, from, to, ins)
  {
    var c := Context(bufferRoot, root, from, to, ins);
    var files := Found(root, tree, ext);
    var k := bufferRoot + q[|root|..];
    FoundExact(root, tree, ext);
    TargetOfSource(bufferRoot, root, q);
    forall i | 0 <= i < |files| ensures BufferPath(c, files[i]) != k {
      BufferPathUnder(bufferRoot, root, files[i]);
      TargetOfSource(bufferRoot, root, files[i]);
    }
    PassesElsewhere(c, original, map[], Matchers(keys), files, k);
  }

  /**
    What a committed run leaves at path `q`: a listed file that existed is replaced by its content
    with every matcher applied in order; every other path, inside or outside `root`, is as it was.
   */
  lemma RunEffect(original: map<Path, string>, bufferRoot: Path, root: Path, tree: seq<Node>, ext: Option<string>,
                  keys: seq<string>, from: string, to: string, ins: Insertion, q: Path)
    requires IsNormal(root) && WellFormed(tree) && |keys| > 0
    ensures CommittedEntry(original, Staged(original, bufferRoot, root, tree, ext, keys, from, to, ins), bufferRoot, root, q)
         == if q in Found(root, tree, ext) && q in original then Some(ConvertAll(ins, Matchers(keys), original[q], from, to))
            else Entry(original, q)
  {
    FoundExact(root, tree, ext);
    if IsUnder(root, q) {
      TargetOfSource(bufferRoot, root, q);
      if q in Found(root, tree, ext) {
        StagedListed(original, bufferRoot, root, tree, ext, keys, from, to, ins, q);
      } else {
        StagedUnlisted(original, bufferRoot, root, tree, ext, keys, from, to, ins, q);
      }
    }
  }

  /**
    Identity law for the whole run: with `from == to` a committed run leaves every path as it was,
    with literal insertion always, and as written whenever `from` or every key is free of `$`.
   */
  lemma RunIdentity(original: map<Path, string>, bufferRoot: Path, root: Path, tree: seq<Node>, ext: Option<string>,
                    keys: seq<string>, from: string, ins: Insertion, q: Path)
    requires IsNormal(root) && WellFormed(tree) && |keys| > 0
    requires ins.Literal? || '$' !in from || forall k :: k in keys ==> '$' !in k
    ensures CommittedEntry(original, Staged(original, bufferRoot, root, tree, ext, keys, from, from, ins), bufferRoot, root, q)
         == Entry(original, q)
  {
    RunEffect(original, bufferRoot, root, tree, ext, keys, from, from, ins, q);
    if q in original {
      MatchersFromKeys(keys);
      ConvertAllIdentity(ins, Matchers(keys), original[q], from);
    }
  }

  /** Without `$` in `to`, the run as written and the run with literal insertion commit the same tree. */
  lemma RunWithoutDollar(original: map<Path, string>, bufferRoot: Path, root: Path, tree: seq<Node>, ext: Option<string>,
                         keys: seq<string>, from: string, to: string, q: Path)
    requires IsNormal(root) && WellFormed(tree) && |keys| > 0
    requires '$' !in to
    ensures CommittedEntry(original, Staged(original, bufferRoot, root, tree, ext, keys, from, to, Expanded), bufferRoot, root, q)
         == CommittedEntry(original, Staged(original, bufferRoot, root, tree, ext, keys, from, to, Literal), bufferRoot, root, q)
  {
    RunEffect(original, bufferRoot, root, tree, ext, keys, from, to, Expanded, q);
    RunEffect(original, bufferRoot, root, tree, ext, keys, from, to, Literal, q);
    if q in original {
      ConvertAllWithoutDollar(Matchers(keys), original[q], from, to);
    }
  }

  /** Every job of the run succeeds iff every listed file is present in the original tree. */
  lemma SettledMeaning(original: map<Path, string>, bufferRoot: Path, root: Path, tree: seq<Node>, ext: Option<string>,
                       keys: seq<string>, from: string, to: string, ins: Insertion)
    requires IsNormal(root) && WellFormed(tree) && |keys| > 0
    ensures AllFulfilled(Settled(original, bufferRoot, root, tree, ext, keys, from, to, ins))
        <==> forall q :: q in Found(root, tree, ext) ==> q in original
  {
    var files := Found(root, tree, ext);
    FoundExact(root, tree, ext);
    MatchersShape(keys);
    OutcomesFromEmpty(Context(bufferRoot, root, from, to, ins), original, Matchers(keys), files);
    assert (forall q :: q in files ==> q in original) <==> (forall i :: 0 <= i < |files| ==> files[i] in original);
  }

  /** `startConversioin`: collect the files, then take the single-key or the multi-key path. */
  method StartConversion(store: Store, root: Path, tree: seq<Node>, ext: Option<string>, keys: seq<string>, from: string, to: string, ins: Insertion)
    returns (result: seq<Outcome>, settled: seq<Outcome>)
    requires store.Valid() && store.bufferExists && IsNormal(root) && WellFormed(tree) && |keys| > 0
    modifies store
    ensures store.Valid() && store.bufferExists && store.original == old(store.original)
    ensures store.buffer == PassesBuffer(Context(store.bufferRoot, root, from, to, ins), store.original, old(store.buffer), Matchers(keys), Found(root, tree, ext))
    ensures settled == PassesOutcomes(Context(store.bufferRoot, root, from, to, ins), store.original, old(store.buffer), Matchers(keys), Found(root, tree, ext))
    ensures result == []
  {
    var originFilePaths := GetSpecificFiles(ExtFilter(ext), root, tree);
    FoundExact(root, tree, ext);
    var progress;
    if |keys| > 1 {
      result, settled, progress := ConversionWithMultiKeys(store, root, keys, from, to, ins, originFilePaths);
    } else {
      result, settled, progress := ConversionWithSingleKey(store, root, keys[0], from, to, ins, originFilePaths);
    }
  }

  /**
    The program's main block as written. `checkConversionResult` sees the always-empty `result`,
    so the staged files are committed even when jobs were rejected.
   */
  method Run(store: Store, root: Path, tree: seq<Node>, ext: Option<string>, keys: seq<string>, from: string, to: string)
    returns (committed: bool)
    requires store.Valid() && IsNormal(root) && WellFormed(tree) && |keys| > 0
    modifies store
    ensures store.Valid() && !store.bufferExists && store.buffer == map[]
    ensures committed
    ensures forall q ::
      Entry(store.original, q) == CommittedEntry(old(store.original), Staged(old(store.original), store.bufferRoot, root, tree, ext, keys, from, to, Expanded), store.bufferRoot, root, q)
  {
    store.InitBuffer();
    var result, settled := StartConversion(store, root, tree, ext, keys, from, to, Expanded);
    var check := CheckConversionResult(result);
    committed := false;
    match check {
      case Ok(passed) =>
        if passed {
          store.ReplaceOriginWithBuffer(root);
          committed := true;
        }
      case Err(_) =>
    }
    store.ClearBuffer();
  }

  /**
    The run as evidently intended: the outcomes of every chunk are collected and checked, so the
    commit happens iff every job succeeded, and otherwise the original tree is left exactly as it was.
   */
  method RunChecked(store: Store, root: Path, tree: seq<Node>, ext: Option<string>, keys: seq<string>, from: string, to: string)
    returns (committed: bool)
    requires store.Valid() && IsNormal(root) && WellFormed(tree) && |keys| > 0
    modifies store
    ensures store.Valid() && !store.bufferExists && store.buffer == map[]
    ensures committed <==> forall q :: q in Found(root, tree, ext) ==> q in old(store.original)
    ensures committed ==> forall q ::
      Entry(store.original, q) == CommittedEntry(old(store.original), Staged(old(store.original), store.bufferRoot, root, tree, ext, keys, from, to, Literal), store.bufferRoot, root, q)
    ensures !committed ==> store.original == old(store.original)
  {
    store.InitBuffer();
    var result, settled := StartConversion(store, root, tree, ext, keys, from, to, Literal);
    SettledMeaning(store.original, store.bufferRoot, root, tree, ext, keys, from, to, Literal);
    var check := CheckConversionResult(settled);
    committed := false;
    match check {
      case Ok(passed) =>
        if passed {
          store.ReplaceOriginWithBuffer(root);
          committed := true;
        }
      case Err(_) =>
    }
    store.ClearBuffer();
  }

  lemma OneFileWalk()
    ensures Walk(["r"], [File("a")]) == [["r", "a"]]
  {
    var tree := [File("a")];
    assert tree[..0] == [];
    assert ["r"] + ["a"] == ["r", "a"];
    assert WalkNode(["r"], File("a")) == [["r", "a"]];
  }

  /** The one-file tree `/r/a` lists exactly `/r/a`. */
  lemma OneFileFound()
    ensures Found(["r"], [File("a")], None) == [["r", "a"]]
  {
    OneFileWalk();
    var all := [["r", "a"]];
    assert all[..0] == [];
    assert ExtFilter(None)(all[0]);
  }

  /** With nothing on disk, converting `/r/a` with the key `k` settles as one rejection. */
  lemma OneFileRejected()
    ensures Settled(map[], ["w"], ["r"], [File("a")], None, ["k"], "x", "y", Expanded) == [Rejected(NoSuchFile(["r", "a"]))]
  {
    var c := Context(["w"], ["r"], "x", "y", Expanded);
    var tree := [File("a")];
    var files := [["r", "a"]];
    assert IsName("a") && IsNormal(["r"]);
    assert WellFormed(tree);
    FoundExact(["r"], tree, None);
    OneFileFound();
    assert Matchers(["k"]) == [["k"]];
    OnePass(c, map[], map[], ["k"], files);
    ChunkOutcomeAt(c, map[], map[], Converter(Expanded, ["k"], "x", "y"), files, 0);
  }

  /**
    The dropped `concat` in action: the tree lists `/r/a` but reading it fails. The job is rejected,
    yet the check `Run` performs on the empty `result` passes.
   */
  lemma RejectionIsIgnored()
    ensures Settled(map[], ["w"], ["r"], [File("a")], None, ["k"], "x", "y", Expanded) == [Rejected(NoSuchFile(["r", "a"]))]
    ensures CheckConversionResult(Settled(map[], ["w"], ["r"], [File("a")], None, ["k"], "x", "y", Expanded)).Err?
    ensures CheckConversionResult([]) == Ok(true)
  {
    OneFileRejected();
  }
}
