/**
  The conversion engine: `conversionFile` on one file, `conversionFiles` on a chunk of
  files, and the two drivers that run every matcher over every file chunk.
  Each job reads the current content (staged copy first, then the original),
  converts it and writes the result to the staging store.

  What a run does is given first as functions over the two maps (the specification),
  then as the imperative methods on a `Store` that are proved to follow it.
 */
module Engine {
  import opened Results
  import opened Paths
  import opened Chunking
  import opened Matching
  import opened Substitution
  import opened Keys
  import opened Staging
  import opened Walker

  /** `PromiseSettledResult<boolean>`: a job fulfils (always with `true`) or is rejected with its error's message. */
  datatype Outcome = Fulfilled | Rejected(reason: string)

  /**
    What stays fixed during a run: the staging root, the target directory, the two option strings,
    and how `to` is inserted (`Expanded` is what the program does).
   */
  datatype Context = Context(bufferRoot: Path, root: Path, from: string, to: string, ins: Insertion)

  /** Files the jobs can run on: strictly inside `root`, with normalised paths. */
  predicate InRoot(root: Path, files: seq<Path>)
  {
    forall i :: 0 <= i < |files| ==> IsUnder(root, files[i]) && IsNormal(files[i])
  }

  predicate AllFulfilled(os: seq<Outcome>)
  {
    forall i :: 0 <= i < |os| ==> os[i].Fulfilled?
  }

  /** One conversion pass of matcher `m`, as the function a job applies to the content it read. */
  function Converter(ins: Insertion, m: Matcher, from: string, to: string): string -> string
  {
    s => Pass(ins, m, s, from, to)
  }

  function BufferPath(c: Context, p: Path): Path
  {
    GetBufferPath(c.bufferRoot, c.root, p)
  }

  /** The staging store after `conversionFile(root, p, m, from, to)`: the converted content is written when the read succeeds. */
  function JobBuffer(c: Context, original: map<Path, string>, buffer: map<Path, string>, conv: string -> string, p: Path): map<Path, string>
  {
    match ReadCurrent(buffer, original, BufferPath(c, p), p)
    case Ok(s) => buffer[BufferPath(c, p) := conv(s)]
    case Err(_) => buffer
  }

  /** How the job settles: fulfilled after a successful read, rejected with the read's error otherwise. */
  function JobOutcome(c: Context, original: map<Path, string>, buffer: map<Path, string>, p: Path): Outcome
  {
    match ReadCurrent(buffer, original, BufferPath(c, p), p)
    case Ok(_) => Fulfilled
    case Err(e) => Rejected(e)
  }

  /** The staging store after the jobs on `files` have run one after another. */
  function ChunkBuffer(c: Context, original: map<Path, string>, buffer: map<Path, string>, conv: string -> string, files: seq<Path>): map<Path, string>
  {
    if files == [] then buffer
    else JobBuffer(c, original, ChunkBuffer(c, original, buffer, conv, files[..|files| - 1]), conv, files[|files| - 1])
  }

  /** The settled results of those jobs, one per file, in file order. */
  function ChunkOutcomes(c: Context, original: map<Path, string>, buffer: map<Path, string>, conv: string -> string, files: seq<Path>): (r: seq<Outcome>)
    ensures |r| == |files|
  {
    if files == [] then []
    else
      var init := files[..|files| - 1];
      ChunkOutcomes(c, original, buffer, conv, init) + [JobOutcome(c, original, ChunkBuffer(c, original, buffer, conv, init), files[|files| - 1])]
  }

  /** The staging store after every matcher of `ms` has been run over all of `files`, matcher after matcher. */
  function PassesBuffer(c: Context, original: map<Path, string>, buffer: map<Path, string>, ms: seq<Matcher>, files: seq<Path>): map<Path, string>
  {
    if ms == [] then buffer
    else ChunkBuffer(c, original, PassesBuffer(c, original, buffer, ms[..|ms| - 1], files), Converter(c.ins, ms[|ms| - 1], c.from, c.to), files)
  }

  /** The settled results of all those jobs, pass after pass. */
  function PassesOutcomes(c: Context, original: map<Path, string>, buffer: map<Path, string>, ms: seq<Matcher>, files: seq<Path>): seq<Outcome>
  {
    if ms == [] then []
    else
      var init := ms[..|ms| - 1];
      PassesOutcomes(c, original, buffer, init, files)
        + ChunkOutcomes(c, original, PassesBuffer(c, original, buffer, init, files), Converter(c.ins, ms[|ms| - 1], c.from, c.to), files)
  }

  /** One job seen from one file: the staged copy is converted if there is one, else the original, else nothing is written. */
  function Step(staged: Option<string>, orig: Option<string>, conv: string -> string): Option<string>
  {
    if staged.Some? then Some(conv(staged.value))
    else if orig.Some? then Some(conv(orig.value))
    else None
  }

  /** The staged entry of one file after the jobs of every pass in `ms`. */
  function FoldSteps(ins: Insertion, ms: seq<Matcher>, staged: Option<string>, orig: Option<string>, from: string, to: string): Option<string>
  {
    if ms == [] then staged
    else Step(FoldSteps(ins, ms[..|ms| - 1], staged, orig, from, to), orig, Converter(ins, ms[|ms| - 1], from, to))
  }

  /** The content of one file after each matcher of `ms` has converted it in turn. */
  function ConvertAll(ins: Insertion, ms: seq<Matcher>, s: string, from: string, to: string): string
  {
    if ms == [] then s
    else Pass(ins, ms[|ms| - 1], ConvertAll(ins, ms[..|ms| - 1], s, from, to), from, to)
  }

  /**
    `checkConversionResult`: the first rejected job is rethrown as `new Error(reason)`, whose message
    is the reason's string form `Error: <message>`; with no rejected job the check passes.
   */
  function CheckConversionResult(results: seq<Outcome>): (r: Result<bool>)
    ensures r.Ok? <==> AllFulfilled(results)
    ensures r.Ok? ==> r.value
    ensures r.Err? ==> exists i :: 0 <= i < |results| && results[i].Rejected? &&
                                   AllFulfilled(results[..i]) && r.message == "Error: " + results[i].reason
  {
    if results == [] then Ok(true)
    else if results[0].Rejected? then
      assert AllFulfilled(results[..0]);
      Err("Error: " + results[0].reason)
    else
      var r := CheckConversionResult(results[1..]);
      if r.Err? then
        var i :| 0 <= i < |results[1..]| && results[1..][i].Rejected?
          && AllFulfilled(results[1..][..i]) && r.message == "Error: " + results[1..][i].reason;
        assert results[1..][..i] == results[1..i + 1];
        assert AllFulfilled(results[..i + 1]);
        r
      else
        r
  }

  lemma AllFulfilledAppend(a: seq<Outcome>, b: seq<Outcome>)
    ensures AllFulfilled(a + b) <==> AllFulfilled(a) && AllFulfilled(b)
  {
    forall i | 0 <= i < |b| ensures (a + b)[|a| + i] == b[i] {
    }
    forall i | 0 <= i < |a| ensures (a + b)[i] == a[i] {
    }
  }

  /** Running the jobs of `x + y` leaves the store that the jobs of `y` leave after those of `x`. */
  lemma {:induction false} ChunkAppendBuffer(c: Context, original: map<Path, string>, buffer: map<Path, string>, conv: string -> string, x: seq<Path>, y: seq<Path>)
    ensures ChunkBuffer(c, original, buffer, conv, x + y) == ChunkBuffer(c, original, ChunkBuffer(c, original, buffer, conv, x), conv, y)
    decreases |y|
  {
    if y == [] {
      assert x + y == x;
    } else {
      var y' := y[..|y| - 1];
      assert (x + y)[..|x + y| - 1] == x + y';
      assert (x + y)[|x + y| - 1] == y[|y| - 1];
      ChunkAppendBuffer(c, original, buffer, conv, x, y');
    }
  }

  /** The outcomes of the jobs of `x + y` are those of `x` followed by those of `y` run on what `x` left. */
  lemma {:induction false} ChunkAppendOutcomes(c: Context, original: map<Path, string>, buffer: map<Path, string>, conv: string -> string, x: seq<Path>, y: seq<Path>)
    ensures ChunkOutcomes(c, original, buffer, conv, x + y)
         == ChunkOutcomes(c, original, buffer, conv, x) + ChunkOutcomes(c, original, ChunkBuffer(c, original, buffer, conv, x), conv, y)
    decreases |y|
  {
    if y == [] {
      assert x + y == x;
    } else {
      var y' := y[..|y| - 1];
      assert (x + y)[..|x + y| - 1] == x + y';
      assert (x + y)[|x + y| - 1] == y[|y| - 1];
      ChunkAppendOutcomes(c, original, buffer, conv, x, y');
      ChunkAppendBuffer(c, original, buffer, conv, x, y');
    }
  }

  /** A job on another file does not touch entry `k`. */
  lemma {:induction false} ChunkElsewhere(c: Context, original: map<Path, string>, buffer: map<Path, string>, conv: string -> string, files: seq<Path>, k: Path)
    requires forall i :: 0 <= i < |files| ==> BufferPath(c, files[i]) != k
    ensures Entry(ChunkBuffer(c, original, buffer, conv, files), k) == Entry(buffer, k)
    decreases |files|
  {
    if files != [] {
      var init := files[..|files| - 1];
      assert forall i :: 0 <= i < |init| ==> init[i] == files[i];
      ChunkElsewhere(c, original, buffer, conv, init, k);
    }
  }

  /** Extending the set of files that are not `p` keeps their staging paths away from `p`'s. */
  lemma OthersElsewhere(c: Context, files: seq<Path>, p: Path)
    requires InRoot(c.root, files) && IsUnder(c.root, p) && IsNormal(p)
    requires forall i :: 0 <= i < |files| ==> files[i] != p
    ensures forall i :: 0 <= i < |files| ==> BufferPath(c, files[i]) != BufferPath(c, p)
  {
    forall i | 0 <= i < |files| ensures BufferPath(c, files[i]) != BufferPath(c, p) {
      BufferPathDistinct(c.bufferRoot, c.root, files[i], p);
    }
  }

  /** The one job on `p` sets `p`'s staging entry by `Step`. */
  lemma JobEntry(c: Context, original: map<Path, string>, buffer: map<Path, string>, conv: string -> string, p: Path)
    ensures Entry(JobBuffer(c, original, buffer, conv, p), BufferPath(c, p))
         == Step(Entry(buffer, BufferPath(c, p)), Entry(original, p), conv)
  {
  }

  /** The chunk's loop taken one file further: the jobs on `files[..i + 1]` are those on `files[..i]` and then job `i`. */
  lemma ChunkStep(c: Context, original: map<Path, string>, buffer: map<Path, string>, conv: string -> string, files: seq<Path>, i: nat)
    requires i < |files|
    ensures ChunkBuffer(c, original, buffer, conv, files[..i + 1])
         == JobBuffer(c, original, ChunkBuffer(c, original, buffer, conv, files[..i]), conv, files[i])
    ensures ChunkOutcomes(c, original, buffer, conv, files[..i + 1])
         == ChunkOutcomes(c, original, buffer, conv, files[..i])
          + [JobOutcome(c, original, ChunkBuffer(c, original, buffer, conv, files[..i]), files[i])]
  {
    assert files[..i + 1][..i] == files[..i];
  }

  /** Outcome `i` of a chunk is the outcome of job `i` on the store the earlier jobs left. */
  lemma OutcomeIsJob(c: Context, original: map<Path, string>, buffer: map<Path, string>, conv: string -> string, files: seq<Path>, i: nat)
    requires i < |files|
    ensures ChunkOutcomes(c, original, buffer, conv, files)[i]
         == JobOutcome(c, original, ChunkBuffer(c, original, buffer, conv, files[..i]), files[i])
  {
    var x, y := files[..i + 1], files[i + 1..];
    assert files == x + y;
    ChunkAppendOutcomes(c, original, buffer, conv, x, y);
    ChunkStep(c, original, buffer, conv, files, i);
  }

  /** Up to and including job `i`, only that job touches `files[i]`'s staging entry. */
  lemma PrefixAtFile(c: Context, original: map<Path, string>, buffer: map<Path, string>, conv: string -> string, files: seq<Path>, i: nat)
    requires InRoot(c.root, files) && NoDuplicates(files) && i < |files|
    ensures Entry(ChunkBuffer(c, original, buffer, conv, files[..i + 1]), BufferPath(c, files[i]))
         == Step(Entry(buffer, BufferPath(c, files[i])), Entry(original, files[i]), conv)
  {
    var p := files[i];
    var bp := BufferPath(c, p);
    var before := ChunkBuffer(c, original, buffer, conv, files[..i]);
    forall j | 0 <= j < i ensures files[..i][j] != p && IsUnder(c.root, files[..i][j]) && IsNormal(files[..i][j]) {
      assert files[..i][j] == files[j];
    }
    OthersElsewhere(c, files[..i], p);
    ChunkElsewhere(c, original, buffer, conv, files[..i], bp);
    ChunkStep(c, original, buffer, conv, files, i);
    JobEntry(c, original, before, conv, p);
  }

  /** In a chunk of distinct files, the job on `files[i]` is the only one that touches its staging entry. */
  lemma ChunkAtFile(c: Context, original: map<Path, string>, buffer: map<Path, string>, conv: string -> string, files: seq<Path>, i: nat)
    requires InRoot(c.root, files) && NoDuplicates(files) && i < |files|
    ensures Entry(ChunkBuffer(c, original, buffer, conv, files), BufferPath(c, files[i]))
         == Step(Entry(buffer, BufferPath(c, files[i])), Entry(original, files[i]), conv)
  {
    var p, x, y := files[i], files[..i + 1], files[i + 1..];
    var bp := BufferPath(c, p);
    PrefixAtFile(c, original, buffer, conv, files, i);
    assert files == x + y;
    ChunkAppendBuffer(c, original, buffer, conv, x, y);
    SuffixElsewhere(c, original, ChunkBuffer(c, original, buffer, conv, x), conv, files, i);
  }

  /** The jobs after job `i` of a chunk of distinct files leave `files[i]`'s staging entry alone. */
  lemma SuffixElsewhere(c: Context, original: map<Path, string>, buffer: map<Path, string>, conv: string -> string, files: seq<Path>, i: nat)
    requires InRoot(c.root, files) && NoDuplicates(files) && i < |files|
    ensures Entry(ChunkBuffer(c, original, buffer, conv, files[i + 1..]), BufferPath(c, files[i])) == Entry(buffer, BufferPath(c, files[i]))
  {
    var p, y := files[i], files[i + 1..];
    forall j | 0 <= j < |y| ensures y[j] != p && IsUnder(c.root, y[j]) && IsNormal(y[j]) {
      assert y[j] == files[i + 1 + j];
    }
    OthersElsewhere(c, y, p);
    ChunkElsewhere(c, original, buffer, conv, y, BufferPath(c, p));
  }

  /** Job `i` of a chunk of distinct files reads what was there before the chunk: it fails iff neither copy exists. */
  lemma ChunkOutcomeAt(c: Context, original: map<Path, string>, buffer: map<Path, string>, conv: string -> string, files: seq<Path>, i: nat)
    requires InRoot(c.root, files) && NoDuplicates(files) && i < |files|
    ensures ChunkOutcomes(c, original, buffer, conv, files)[i]
         == if BufferPath(c, files[i]) in buffer || files[i] in original then Fulfilled else Rejected(NoSuchFile(files[i]))
  {
    OutcomeIsJob(c, original, buffer, conv, files, i);
    assert forall j :: 0 <= j < i ==> files[..i][j] == files[j];
    OthersElsewhere(c, files[..i], files[i]);
    ChunkElsewhere(c, original, buffer, conv, files[..i], BufferPath(c, files[i]));
  }

  /** Over all passes, a file's staging entry evolves by `FoldSteps` alone. */
  lemma {:induction false} PassesAtFile(c: Context, original: map<Path, string>, buffer: map<Path, string>, ms: seq<Matcher>, files: seq<Path>, i: nat)
    requires InRoot(c.root, files) && NoDuplicates(files) && i < |files|
    ensures Entry(PassesBuffer(c, original, buffer, ms, files), BufferPath(c, files[i]))
         == FoldSteps(c.ins, ms, Entry(buffer, BufferPath(c, files[i])), Entry(original, files[i]), c.from, c.to)
    decreases |ms|
  {
    if ms != [] {
      var init := ms[..|ms| - 1];
      PassesAtFile(c, original, buffer, init, files, i);
      ChunkAtFile(c, original, PassesBuffer(c, original, buffer, init, files), Converter(c.ins, ms[|ms| - 1], c.from, c.to), files, i);
    }
  }

  /** No pass touches an entry that is no file's staging path. */
  lemma {:induction false} PassesElsewhere(c: Context, original: map<Path, string>, buffer: map<Path, string>, ms: seq<Matcher>, files: seq<Path>, k: Path)
    requires forall i :: 0 <= i < |files| ==> BufferPath(c, files[i]) != k
    ensures Entry(PassesBuffer(c, original, buffer, ms, files), k) == Entry(buffer, k)
    decreases |ms|
  {
    if ms != [] {
      var init := ms[..|ms| - 1];
      PassesElsewhere(c, original, buffer, init, files, k);
      ChunkElsewhere(c, original, PassesBuffer(c, original, buffer, init, files), Converter(c.ins, ms[|ms| - 1], c.from, c.to), files, k);
    }
  }

  /**
    Starting from an empty staging store, a file present in the original ends up staged with every
    matcher applied in order; a missing file is never staged.
   */
  lemma {:induction false} FoldFromOriginal(ins: Insertion, ms: seq<Matcher>, orig: Option<string>, from: string, to: string)
    ensures orig.None? ==> FoldSteps(ins, ms, None, orig, from, to) == None
    ensures orig.Some? && |ms| > 0 ==> FoldSteps(ins, ms, None, orig, from, to) == Some(ConvertAll(ins, ms, orig.value, from, to))
    decreases |ms|
  {
    if ms != [] {
      var init := ms[..|ms| - 1];
      FoldFromOriginal(ins, init, orig, from, to);
    }
  }

  /**
    Identity law for a whole run: with `from == to` every matcher leaves a file as it was,
    for the passes as written whenever `from` or every key is free of `$`.
   */
  lemma {:induction false} ConvertAllIdentity(ins: Insertion, ms: seq<Matcher>, s: string, from: string)
    requires ins.Literal? || '$' !in from || forall i :: 0 <= i < |ms| ==> DollarFree(ms[i])
    ensures ConvertAll(ins, ms, s, from, from) == s
    decreases |ms|
  {
    if ms != [] {
      ConvertAllIdentity(ins, ms[..|ms| - 1], s, from);
      PassIdentity(ins, ms[|ms| - 1], s, from);
    }
  }

  /** Without `$` in `to`, the passes as written and the literal passes convert every content alike. */
  lemma {:induction false} ConvertAllWithoutDollar(ms: seq<Matcher>, s: string, from: string, to: string)
    requires '$' !in to
    ensures ConvertAll(Expanded, ms, s, from, to) == ConvertAll(Literal, ms, s, from, to)
    decreases |ms|
  {
    if ms != [] {
      var init, last := ms[..|ms| - 1], ms[|ms| - 1];
      ConvertAllWithoutDollar(init, s, from, to);
      PassWithoutDollar(Expanded, last, ConvertAll(Expanded, init, s, from, to), from, to);
    }
  }

  /**
    Starting from an empty staging store, every job of every pass is fulfilled iff every file
    is present in the original tree: a missing file is rejected on each pass, a present one never.
   */
  lemma {:induction false} OutcomesFromEmpty(c: Context, original: map<Path, string>, ms: seq<Matcher>, files: seq<Path>)
    requires InRoot(c.root, files) && NoDuplicates(files) && |ms| > 0
    ensures AllFulfilled(PassesOutcomes(c, original, map[], ms, files))
        <==> forall i :: 0 <= i < |files| ==> files[i] in original
    decreases |ms|
  {
    var init, last := ms[..|ms| - 1], ms[|ms| - 1];
    var before := PassesBuffer(c, original, map[], init, files);
    var conv := Converter(c.ins, last, c.from, c.to);
    var chunk := ChunkOutcomes(c, original, before, conv, files);
    forall i | 0 <= i < |files| ensures chunk[i].Fulfilled? <==> files[i] in original {
      ChunkOutcomeAt(c, original, before, conv, files, i);
      PassesAtFile(c, original, map[], init, files, i);
      FoldFromOriginal(c.ins, init, Entry(original, files[i]), c.from, c.to);
    }
    AllFulfilledAppend(PassesOutcomes(c, original, map[], init, files), chunk);
    if init != [] {
      OutcomesFromEmpty(c, original, init, files);
    }
  }

  /** `genSpinnerUpdater(total)`: the progress counter behind the spinner. */
  class Progress {
    const total: int
    var done: int

    constructor (total: int)
      ensures this.total == total && done == 0
    {
      this.total := total;
      done := 0;
    }

    /** The updater closure: count `chunkSize` more jobs as done. */
    method Update(chunkSize: int)
      modifies this
      ensures done == old(done) + chunkSize
    {
      done := done + chunkSize;
    }
  }

  /**
    `conversionFile(rootDir, filePath, keyRexp, from, to)`. With `ins == Expanded` the rewrite is
    `subStr.replaceAll(from, to)` as JavaScript evaluates it; `Literal` inserts `to` as it is.
   */
  method ConversionFile(store: Store, root: Path, m: Matcher, from: string, to: string, ins: Insertion, p: Path) returns (o: Outcome)
    requires store.Valid() && store.bufferExists && IsUnder(root, p) && IsNormal(p)
    modifies store
    ensures store.Valid() && store.bufferExists && store.original == old(store.original)
    ensures store.buffer == JobBuffer(Context(store.bufferRoot, root, from, to, ins), store.original, old(store.buffer), Converter(ins, m, from, to), p)
    ensures o == JobOutcome(Context(store.bufferRoot, root, from, to, ins), store.original, old(store.buffer), p)
  {
    var bufferPath := GetBufferPath(store.bufferRoot, root, p);
    BufferPathUnder(store.bufferRoot, root, p);
    var content := store.GetFileContent(bufferPath, p);
    match content {
      case Ok(s) =>
        store.WriteBuffer(bufferPath, Pass(ins, m, s, from, to));
        o := Fulfilled;
      case Err(e) =>
        o := Rejected(e);
    }
  }

  /** `conversionFiles`: the jobs of one chunk, settled in order. The concurrent jobs touch distinct entries, so they run one after another here. */
  method ConversionFiles(store: Store, root: Path, m: Matcher, from: string, to: string, ins: Insertion, files: seq<Path>) returns (settled: seq<Outcome>)
    requires store.Valid() && store.bufferExists && InRoot(root, files)
    modifies store
    ensures store.Valid() && store.bufferExists && store.original == old(store.original)
    ensures store.buffer == ChunkBuffer(Context(store.bufferRoot, root, from, to, ins), store.original, old(store.buffer), Converter(ins, m, from, to), files)
    ensures settled == ChunkOutcomes(Context(store.bufferRoot, root, from, to, ins), store.original, old(store.buffer), Converter(ins, m, from, to), files)
  {
    ghost var c := Context(store.bufferRoot, root, from, to, ins);
    ghost var original, start := store.original, store.buffer;
    ghost var conv := Converter(ins, m, from, to);
    settled := [];
    var i := 0;
    while i < |files|
      invariant i <= |files|
      invariant store.Valid() && store.bufferExists && store.original == original
      invariant store.buffer == ChunkBuffer(c, original, start, conv, files[..i])
      invariant settled == ChunkOutcomes(c, original, start, conv, files[..i])
    {
      ChunkStep(c, original, start, conv, files, i);
      var o := ConversionFile(store, root, m, from, to, ins, files[i]);
      settled := settled + [o];
      i := i + 1;
    }
    assert files[..i] == files;
  }

  /** The chunks of an in-root file list lie in the root as well. */
  lemma ChunksInRoot(root: Path, files: seq<Path>)
    requires InRoot(root, files)
    ensures forall j :: 0 <= j < |Chunks(CHUNK_COUNT, files)| ==> InRoot(root, Chunks(CHUNK_COUNT, files)[j])
  {
    var cs := Chunks(CHUNK_COUNT, files);
    ChunksFlatten(CHUNK_COUNT, files);
    forall j, k | 0 <= j < |cs| && 0 <= k < |cs[j]| ensures IsUnder(root, cs[j][k]) && IsNormal(cs[j][k]) {
      FlattenMember(cs, j, k);
    }
  }

  /** The chunked loop over `fileChunks[..j + 1]` adds the jobs of chunk `j` to those of the earlier chunks. */
  lemma FlattenStep<T>(cs: seq<seq<T>>, j: nat)
    requires j < |cs|
    ensures Flatten(cs[..j + 1]) == Flatten(cs[..j]) + cs[j]
  {
    assert cs[..j + 1][..j] == cs[..j];
  }

  /** The jobs of `fileChunks[..j + 1]` are those of the earlier chunks, then those of chunk `j`. */
  lemma NextChunk(c: Context, original: map<Path, string>, buffer: map<Path, string>, conv: string -> string, fileChunks: seq<seq<Path>>, j: nat)
    requires j < |fileChunks|
    ensures ChunkBuffer(c, original, buffer, conv, Flatten(fileChunks[..j + 1]))
         == ChunkBuffer(c, original, ChunkBuffer(c, original, buffer, conv, Flatten(fileChunks[..j])), conv, fileChunks[j])
    ensures ChunkOutcomes(c, original, buffer, conv, Flatten(fileChunks[..j + 1]))
         == ChunkOutcomes(c, original, buffer, conv, Flatten(fileChunks[..j]))
          + ChunkOutcomes(c, original, ChunkBuffer(c, original, buffer, conv, Flatten(fileChunks[..j])), conv, fileChunks[j])
    ensures |Flatten(fileChunks[..j + 1])| == |Flatten(fileChunks[..j])| + |fileChunks[j]|
  {
    FlattenStep(fileChunks, j);
    ChunkAppendBuffer(c, original, buffer, conv, Flatten(fileChunks[..j]), fileChunks[j]);
    ChunkAppendOutcomes(c, original, buffer, conv, Flatten(fileChunks[..j]), fileChunks[j]);
  }

  /**
    The `for (const fileChunk of fileChunks)` loop both drivers run for one matcher: each chunk's
    jobs settle before the next chunk starts, and the spinner advances by the chunk's size.
   */
  method RunPass(store: Store, progress: Progress, root: Path, m: Matcher, from: string, to: string, ins: Insertion, fileChunks: seq<seq<Path>>)
    returns (settled: seq<Outcome>)
    requires store.Valid() && store.bufferExists
    requires forall j :: 0 <= j < |fileChunks| ==> InRoot(root, fileChunks[j])
    modifies store, progress
    ensures store.Valid() && store.bufferExists && store.original == old(store.original)
    ensures store.buffer == ChunkBuffer(Context(store.bufferRoot, root, from, to, ins), store.original, old(store.buffer), Converter(ins, m, from, to), Flatten(fileChunks))
    ensures settled == ChunkOutcomes(Context(store.bufferRoot, root, from, to, ins), store.original, old(store.buffer), Converter(ins, m, from, to), Flatten(fileChunks))
    ensures progress.done == old(progress.done) + |Flatten(fileChunks)|
  {
    ghost var c := Context(store.bufferRoot, root, from, to, ins);
    ghost var original, start, done := store.original, store.buffer, progress.done;
    ghost var conv := Converter(ins, m, from, to);
    settled := [];
    var j := 0;
    while j < |fileChunks|
      invariant j <= |fileChunks|
      invariant store.Valid() && store.bufferExists && store.original == original
      invariant store.buffer == ChunkBuffer(c, original, start, conv, Flatten(fileChunks[..j]))
      invariant settled == ChunkOutcomes(c, original, start, conv, Flatten(fileChunks[..j]))
      invariant progress.done == done + |Flatten(fileChunks[..j])|
    {
      NextChunk(c, original, start, conv, fileChunks, j);
      var chunkResult := ConversionFiles(store, root, m, from, to, ins, fileChunks[j]);
      settled := settled + chunkResult;
      progress.Update(|fileChunks[j]|);
      j := j + 1;
    }
    assert fileChunks[..j] == fileChunks;
  }

  /** A single pass is a `PassesBuffer` with one matcher. */
  lemma OnePass(c: Context, original: map<Path, string>, buffer: map<Path, string>, m: Matcher, files: seq<Path>)
    ensures PassesBuffer(c, original, buffer, [m], files) == ChunkBuffer(c, original, buffer, Converter(c.ins, m, c.from, c.to), files)
    ensures PassesOutcomes(c, original, buffer, [m], files) == ChunkOutcomes(c, original, buffer, Converter(c.ins, m, c.from, c.to), files)
  {
    assert [m][..0] == [];
  }

  /** Adding pass `ms[i]` to the passes before it. */
  lemma NextPass(c: Context, original: map<Path, string>, buffer: map<Path, string>, ms: seq<Matcher>, files: seq<Path>, i: nat)
    requires i < |ms|
    ensures PassesBuffer(c, original, buffer, ms[..i + 1], files)
         == ChunkBuffer(c, original, PassesBuffer(c, original, buffer, ms[..i], files), Converter(c.ins, ms[i], c.from, c.to), files)
    ensures PassesOutcomes(c, original, buffer, ms[..i + 1], files)
         == PassesOutcomes(c, original, buffer, ms[..i], files)
          + ChunkOutcomes(c, original, PassesBuffer(c, original, buffer, ms[..i], files), Converter(c.ins, ms[i], c.from, c.to), files)
  {
    assert ms[..i + 1][..i] == ms[..i];
  }

  /** The `for (const keyChunk of keyChunks)` loop: one pass per key batch, each over every file chunk. */
  method RunPasses(store: Store, progress: Progress, root: Path, keyChunks: seq<Matcher>, from: string, to: string, ins: Insertion,
                   files: seq<Path>, fileChunks: seq<seq<Path>>)
    returns (settled: seq<Outcome>)
    requires store.Valid() && store.bufferExists && Flatten(fileChunks) == files
    requires forall j :: 0 <= j < |fileChunks| ==> InRoot(root, fileChunks[j])
    modifies store, progress
    ensures store.Valid() && store.bufferExists && store.original == old(store.original)
    ensures store.buffer == PassesBuffer(Context(store.bufferRoot, root, from, to, ins), store.original, old(store.buffer), keyChunks, files)
    ensures settled == PassesOutcomes(Context(store.bufferRoot, root, from, to, ins), store.original, old(store.buffer), keyChunks, files)
    ensures progress.done == old(progress.done) + |keyChunks| * |files|
  {
    ghost var c := Context(store.bufferRoot, root, from, to, ins);
    ghost var original, start, done := store.original, store.buffer, progress.done;
    settled := [];
    var i := 0;
    while i < |keyChunks|
      invariant i <= |keyChunks|
      invariant store.Valid() && store.bufferExists && store.original == original
      invariant store.buffer == PassesBuffer(c, original, start, keyChunks[..i], files)
      invariant settled == PassesOutcomes(c, original, start, keyChunks[..i], files)
      invariant progress.done == done + i * |files|
    {
      NextPass(c, original, start, keyChunks, files, i);
      var chunkResult := RunPass(store, progress, root, keyChunks[i], from, to, ins, fileChunks);
      settled := settled + chunkResult;
      assert (i + 1) * |files| == i * |files| + |files|;
      i := i + 1;
    }
    assert keyChunks[..i] == keyChunks;
  }

  /**
    `conversionWithSingleKey`: the key as the only matcher, run over the file chunks.
    `result.concat(chunkResult)` returns a new array that is dropped, so `result` stays empty;
    `settled` is what the chunks returned, in order.
   */
  method ConversionWithSingleKey(store: Store, root: Path, key: string, from: string, to: string, ins: Insertion, files: seq<Path>)
    returns (result: seq<Outcome>, settled: seq<Outcome>, progress: Progress)
    requires store.Valid() && store.bufferExists && InRoot(root, files)
    modifies store
    ensures fresh(progress)
    ensures store.Valid() && store.bufferExists && store.original == old(store.original)
    ensures store.buffer == PassesBuffer(Context(store.bufferRoot, root, from, to, ins), store.original, old(store.buffer), [[key]], files)
    ensures settled == PassesOutcomes(Context(store.bufferRoot, root, from, to, ins), store.original, old(store.buffer), [[key]], files)
    ensures result == []
    ensures progress.total == |files| && progress.done == progress.total
  {
    result := [];
    progress := new Progress(|files|);
    progress.Update(0);
    var m: Matcher := [key];
    var partitioned := PartitionAll(CHUNK_COUNT, files);
    var fileChunks := partitioned.value;
    ChunksFlatten(CHUNK_COUNT, files);
    ChunksInRoot(root, files);
    settled := RunPass(store, progress, root, m, from, to, ins, fileChunks);
    OnePass(Context(store.bufferRoot, root, from, to, ins), store.original, old(store.buffer), m, files);
  }

  /**
    `conversionWithMultiKeys`: sort the keys longest first, cut them into batches of 50, and run
    each batch, as one matcher, over every file chunk. `result` stays empty as in the single-key case.
   */
  method ConversionWithMultiKeys(store: Store, root: Path, keys: seq<string>, from: string, to: string, ins: Insertion, files: seq<Path>)
    returns (result: seq<Outcome>, settled: seq<Outcome>, progress: Progress)
    requires store.Valid() && store.bufferExists && InRoot(root, files)
    modifies store
    ensures fresh(progress)
    ensures store.Valid() && store.bufferExists && store.original == old(store.original)
    ensures store.buffer == PassesBuffer(Context(store.bufferRoot, root, from, to, ins), store.original, old(store.buffer), KeyBatches(keys), files)
    ensures settled == PassesOutcomes(Context(store.bufferRoot, root, from, to, ins), store.original, old(store.buffer), KeyBatches(keys), files)
    ensures result == []
    ensures progress.total == |KeyBatches(keys)| * |files| && progress.done == progress.total
  {
    result := [];
    var sortedKeys := SortByLength(keys);
    var keyPartition := PartitionAll(CHUNK_COUNT, sortedKeys);
    var keyChunks := keyPartition.value;
    var filePartition := PartitionAll(CHUNK_COUNT, files);
    var fileChunks := filePartition.value;
    ChunksFlatten(CHUNK_COUNT, files);
    ChunksInRoot(root, files);
    progress := new Progress(|keyChunks| * |files|);
    progress.Update(0);
    settled := RunPasses(store, progress, root, keyChunks, from, to, ins, files, fileChunks);
  }
}
