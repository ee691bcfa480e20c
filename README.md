# replace-rf in Dafny

replace-rf is a command-line tool that rewrites a source tree in place. Every file under
`--dir` (optionally only those ending in `.<ext>`) is scanned for the given `--keys`.
Inside each occurrence of a key, and only there, every occurrence of `--from` is replaced
by `--to`. The converted files are first written to a hidden staging directory
`.replace-rr` in the working directory. Once the run is over, they are moved onto the
originals and the staging directory is removed.

The model follows the program's structure:

| module | what it models |
|---|---|
| `Results` | a thrown error as `Err(message)`, and JavaScript's string form of an integer |
| `Chunking` | `partitionAll` and the chunk size 50 |
| `Paths` | absolute paths as name sequences, with `path.relative`, `path.resolve` and the string form |
| `Walker` | `getFilePaths` (depth-first directory walk), `getSpecificFiles` and the extension predicate |
| `Matching` | the global alternation expression built from literal keys: leftmost match, first alternative, no overlap, the empty-match step |
| `Substitution` | `sub.replaceAll(from, to)`, both literal and with JavaScript's `$` replacement patterns, and one conversion pass |
| `Keys` | the stable longest-first sort of the keys, key batches of 50 and the matchers a run applies |
| `Staging` | the staging store as a `Store` class over two maps, with `initBuffer`, `clearBuffer`, `writeBuffer`, `getFileContent`, `getBufferPath` and `replaceOriginWithBuffer` |
| `Engine` | `conversionFile`, `conversionFiles`, the spinner counter and the single-key and multi-key drivers, all proved against specification functions over the two maps |
| `Pipeline` | `startConversioin` and the main block, as written and as evidently intended |
| `Scenarios` | concrete runs: the documented examples, the empty key and cumulative batching |

Each imperative method is proved to leave the state that a specification function
(`JobBuffer`, `ChunkBuffer`, `PassesBuffer`, `CommittedEntry`) computes. The lemmas then
state what those functions mean for one file, for one path, or for the whole run.

The code and the written description of the tool disagree in two places. In both, the run as
written (`Pipeline.Run`) follows the code, and `Pipeline.RunChecked` models the evidently
intended behaviour.

- **`$` patterns.** The description says `--to` replaces `--from`. The code calls
  `subStr.replaceAll(from, to)` with a string `to`, so JavaScript expands `$$`, `$&`, `` $` ``
  and `$'` in it. The insertion mode `Substitution.Insertion` makes this explicit: `Run` converts
  with `Expanded` (JavaScript's evaluation) and `RunChecked` with `Literal`. The two agree
  whenever `to` contains no `$` (`Pipeline.RunWithoutDollar`), and both keep the identity law
  for keys without `$` (`Pipeline.RunIdentity`). With key `foo`, `o` to `$$` turns `foobar`
  into `f$$bar` as written, not `f$$$$bar`. That gap is the first finding below.
- **Failed files.** The description says no original is touched when any file fails to convert.
  The code, however, checks the always-empty `result` array, because `result.concat(chunkResult)`
  returns a new array that is thrown away. So it commits whatever was staged. That gap is the
  second finding below.

## Model

| member | source | states |
|---|---|---|
| Results.IntToString | src/main.ts:187 | the text of the number in the error message is its decimal notation: non-empty, `-` first exactly when the number is negative, and the digits (without a leading zero) denote the absolute value |
| Chunking.PartitionAll | src/main.ts:185-196 | a non-positive `n` gives the error `invalid agument:<n>`; otherwise the loop returns exactly the chunk list `Chunks(n, coll)` |
| Chunking.ChunksFlatten | src/main.ts:185-196 | concatenating the chunks gives back the input list: nothing is lost, duplicated or reordered |
| Chunking.ChunksShape | src/main.ts:185-196 | every chunk is non-empty with at most `n` elements, and every chunk but the last has exactly `n` |
| Chunking.ChunksCount | src/main.ts:185-196 | there are ceil(len / n) chunks |
| Paths.CommonLength | src/main.ts:61 | the common-prefix length used by `path.relative` is the longest prefix the two paths share |
| Paths.ResolveRelative | src/main.ts:61-62 | resolving the relative path from `from` to a normalised `to` gives `to` back |
| Paths.RelativeUnder | src/main.ts:61 | for a path inside a directory, the relative path is its trailing names |
| Paths.EndsWithSeesLastName | src/main.ts:289 | a suffix without `/` matches the full path string iff it matches the file's own name |
| Walker.GetFilePaths | src/main.ts:106-125 | the generator's loop yields exactly the walk `Walk(dir, entries)`: files in listing order, each directory expanded where it appears |
| Walker.GetSpecificFiles | src/main.ts:127-138 | the paths yielded are the walk filtered by `pred`, in walk order |
| Walker.WalkUnder | src/main.ts:106-125 | every yielded path lies strictly inside the walked directory |
| Walker.WalkExact | src/main.ts:106-125 | a path is yielded iff it lies inside the directory and names a non-directory entry of the tree; directories are never yielded |
| Walker.WalkNoDuplicates | src/main.ts:106-125 | in a tree with unique sibling names, no path is yielded twice |
| Walker.WalkNormal | src/main.ts:111 | every yielded path consists of plain names only |
| Walker.FilterExact | src/main.ts:127-138 | a path survives the filter iff it was listed and `pred` accepts it; a duplicate-free list stays duplicate-free |
| Walker.FilterAll | src/main.ts:127-138 | a predicate that accepts everything keeps the list unchanged |
| Walker.KeepExtMeaning | src/main.ts:289 | a missing or empty `ext` keeps every file; otherwise a file is kept iff its name ends in `.<ext>` |
| Matching.FirstMatch | src/main.ts:264 | the chosen alternative matches at the position, and no earlier alternative does; `None` only when no alternative matches |
| Matching.SegmentsText | src/main.ts:177 | the scan's matches and the characters between them spell the content back unchanged |
| Matching.SegmentsHits | src/main.ts:177 | every match the scan reports is one of the keys |
| Matching.SegmentsScanned | src/main.ts:177 | conversely, each piece is what the matcher finds at its offset: a match is the alternative `FirstMatch` chooses there, and a plain character is one where no key matches, or the one copied after an empty match |
| Matching.NoOccurrenceNoHit | src/main.ts:177 | where no key occurs in the content, the scan reports no match |
| Matching.LongestMatchWins | src/main.ts:256-264 | with alternatives longest first, the chosen match is at least as long as every key that matches there |
| Substitution.ReplaceAllIdentity | src/main.ts:178 | replacing `from` by itself changes nothing, the empty `from` included |
| Substitution.ReplaceAllAbsent | src/main.ts:178 | where a non-empty `from` does not occur, nothing is replaced |
| Substitution.NoDollarIsLiteral | src/main.ts:178 | a replacement string without `$` is inserted as it is |
| Substitution.JsAgreesWithoutDollar | src/main.ts:178 | without `$` in `to`, `replaceAll` as JavaScript evaluates it equals the literal replacement |
| Substitution.DollarBreaksIdentity | src/main.ts:178 | JavaScript's `"$$".replaceAll("$$", "$$")` is `"$"`, while the literal replacement gives back `"$$"`; only a match that holds `$` is affected |
| Substitution.ConvertJsAgreesWithoutDollar | src/main.ts:177-179 | without `$` in `to`, the conversion pass as written equals the literal one |
| Substitution.ReplaceAllJsIdentity | src/main.ts:178 | JavaScript's `sub.replaceAll(from, from)` gives `sub` back whenever `from` or `sub` holds no `$` |
| Substitution.ConvertJsIdentity | src/main.ts:177-179 | identity law for the pass as written: with `from == to` the content is unchanged whenever `from` or every key holds no `$` |
| Substitution.ConvertIdentity | src/main.ts:177-179 | identity law: with `from == to` a pass leaves any content unchanged |
| Substitution.PassWithoutDollar | src/main.ts:177-179 | without `$` in `to`, a pass in either insertion mode is the literal pass |
| Substitution.PassIdentity | src/main.ts:177-179 | identity law for a pass in either mode: with literal insertion always, and as written whenever `from` or every key contains no `$` |
| Substitution.ConvertWithoutMatches | src/main.ts:177-179 | content in which no key occurs is left unchanged, whatever `from` and `to` are |
| Substitution.ConvertKeysWithoutFrom | src/main.ts:177-179 | only text inside matches is rewritten: if no key contains `from`, the pass changes nothing |
| Keys.InsertByLength | src/main.ts:256 | inserting a key adds exactly that key and keeps a longest-first list longest-first |
| Keys.SortByLength | src/main.ts:256 | the sorted keys are a permutation of the keys, ordered by non-increasing length |
| Keys.SortIsStable | src/main.ts:256 | keys of equal length keep their input order |
| Keys.ChunksNonIncreasing | src/main.ts:257 | every batch of the sorted keys is itself longest-first |
| Keys.MatchersShape | src/main.ts:256-264 | one key gives the single matcher of that key; more keys give ceil(n / 50) batches of 1 to 50 keys that together list the sorted keys, each longest-first |
| Keys.MatchersFromKeys | src/main.ts:256-264 | every key of every matcher a run applies is one of the given keys |
| Keys.BatchPrefersLongest | src/main.ts:256-264 | in every batch matcher of a run, the chosen match is the longest key that matches at that position |
| Keys.ReportedMatchIsLongest | src/main.ts:256-264 | every match the scan of a batch reports matches at its offset, and no key of the batch that matches there is longer |
| Staging.BufferPathUnder | src/main.ts:60-63 | a file inside the target directory is staged inside the staging root at the same relative path |
| Staging.BufferPathRoundTrip | src/main.ts:60-80 | the staged copy's path relative to the staging root equals the file's path relative to the target, so the commit moves it exactly onto the file it came from |
| Staging.BufferPathDistinct | src/main.ts:60-63 | distinct files have distinct staging paths |
| Staging.SourceOfTarget | src/main.ts:74-75 | a staged path's commit target lies inside the target directory and stages back to that staged path |
| Staging.CommitTargetOf | src/main.ts:74-75 | the commit target of a staged file is the target directory plus the staged file's relative path |
| Staging.CommitOne | src/main.ts:73-76 | renaming one more staged file keeps the partial commit consistent: moved files hold their staged content and nothing else changed |
| Staging.Store.constructor | src/main.ts:17 | a store with the given staging root and original tree, holding whatever staging content a previous run left |
| Staging.Store.ClearBuffer | src/main.ts:36-40 | afterwards the staging root does not exist and holds nothing; the original tree is unchanged |
| Staging.Store.InitBuffer | src/main.ts:42-50 | afterwards the staging root exists and is empty, stale content included; the original tree is unchanged |
| Staging.Store.WriteBuffer | src/main.ts:52-58 | the staged entry is set to the data, and no other entry or original changes |
| Staging.Store.GetFileContent | src/main.ts:158-166 | the staged copy wins; otherwise the original; a missing file gives Node's `ENOENT` message |
| Staging.Store.ReplaceOriginWithBuffer | src/main.ts:65-80 | every path inside the target whose staged counterpart exists takes the staged content; every other path keeps its content; the staging tree ends empty |
| Engine.CheckConversionResult | src/main.ts:305-313 | a list passes iff every job was fulfilled; otherwise the error is `Error: <reason>` of the first rejected job |
| Engine.AllFulfilledAppend | src/main.ts:305-313 | a concatenation is all-fulfilled iff both parts are |
| Engine.ChunkAppendBuffer | src/main.ts:208-214 | running the jobs of `x + y` equals running those of `y` after those of `x` |
| Engine.ChunkAppendOutcomes | src/main.ts:208-214 | the outcomes of `x + y` are those of `x`, then those of `y` on the store `x` left |
| Engine.ChunkElsewhere | src/main.ts:175-181 | jobs on other files never touch an entry that is not their staging path |
| Engine.ChunkAtFile | src/main.ts:201-215 | in a chunk of distinct files, a file's staged entry ends as one conversion of what it read |
| Engine.ChunkOutcomeAt | src/main.ts:201-215 | a job in a chunk fails iff neither the staged copy nor the original of its file existed before the chunk |
| Engine.PassesAtFile | src/main.ts:263-277 | over all passes, a file's staged entry evolves by the per-file fold `FoldSteps` alone |
| Engine.PassesElsewhere | src/main.ts:263-277 | no pass touches an entry that is no file's staging path |
| Engine.FoldFromOriginal | src/main.ts:263-277 | starting from an empty staging tree, a file's staged entry is every matcher applied in order to its original, or absent when there is no original |
| Engine.ConvertAllIdentity | src/main.ts:263-277 | with `from == to`, applying every matcher leaves the content unchanged: with literal insertion always, and as written whenever `from` or every key of every matcher contains no `$` |
| Engine.ConvertAllWithoutDollar | src/main.ts:263-277 | without `$` in `to`, applying every matcher as written equals applying them with literal insertion |
| Engine.OutcomesFromEmpty | src/main.ts:263-277 | from an empty staging tree, every job of every pass succeeds iff every listed file exists |
| Engine.Progress.constructor | src/main.ts:217-219 | the counter starts at zero jobs done out of `total` |
| Engine.Progress.Update | src/main.ts:220-223 | each call adds `chunkSize` to the jobs done |
| Engine.ConversionFile | src/main.ts:168-183 | reads the staged copy or else the original, converts it in the given insertion mode (`Expanded` is JavaScript's `replaceAll`) and writes it to the file's staging path; a failed read writes nothing and rejects with the read's message |
| Engine.ConversionFiles | src/main.ts:201-215 | the chunk's jobs leave the store `ChunkBuffer` describes and settle with `ChunkOutcomes`, one per file in order |
| Engine.RunPass | src/main.ts:266-276 | the chunked loop over all file chunks equals one pass over the whole file list, and the counter advances by the number of files |
| Engine.RunPasses | src/main.ts:263-277 | one pass per key batch, each starting from the store the previous left, so batches accumulate; the counter advances by batches times files |
| Engine.ConversionWithSingleKey | src/main.ts:226-246 | the single key is the only matcher; the returned `result` is empty; the counter ends at its total |
| Engine.ConversionWithMultiKeys | src/main.ts:250-280 | the passes are the sorted batches of 50 in order; the returned `result` is empty; the counter ends at batches times files |
| Pipeline.FoundExact | src/main.ts:284-293 | a path is converted iff it names a file of the tree inside `--dir` and passes the extension filter; each is listed once |
| Pipeline.StagedListed | src/main.ts:263-277 | a listed file's staged entry is its original with every matcher applied, or absent when it had no original |
| Pipeline.StagedUnlisted | src/main.ts:284-303 | a path inside `--dir` that is not listed gets no staged entry |
| Pipeline.RunEffect | src/main.ts:317-335 | after the commit, every listed file that existed holds its converted content, and every other path is as before |
| Pipeline.RunIdentity | src/main.ts:317-335 | identity law for the whole run: with `from == to` the commit leaves every path as it was, with literal insertion always and as written whenever `from` or every key contains no `$` |
| Pipeline.RunWithoutDollar | src/main.ts:317-335 | without `$` in `to`, the run as written and the literal run commit the same content at every path |
| Pipeline.SettledMeaning | src/main.ts:305-313 | every job of the run succeeds iff every listed file exists |
| Pipeline.StartConversion | src/main.ts:284-303 | the files are collected by the filter, then the single-key or multi-key path runs the matchers `Matchers(keys)`; the returned list is empty |
| Pipeline.Run | src/main.ts:317-335 | as written: files are converted with JavaScript's `$` expansion, the check always passes, every staged file is committed, and the staging root is removed |
| Pipeline.RunChecked | src/main.ts:317-335 | as evidently intended: `to` is inserted literally; commit iff every listed file exists, otherwise the original tree is unchanged; the staging root is removed in every case |
| Pipeline.OneFileRejected | src/main.ts:158-166 | converting the one-file tree `/r/a` with nothing on disk settles as one `ENOENT` rejection |
| Pipeline.RejectionIsIgnored | src/main.ts:274 | that rejection would fail the check, yet the check the program runs on its empty `result` passes |
| Scenarios.MatchScopedSubstitution | src/main.ts:177-179 | key `foo_bar`, `_` to `-`: `x_foo_bar_y` becomes `x_foo-bar_y`, so the underscores outside the match are kept |
| Scenarios.FooBar | src/main.ts:177-179 | key `foo`, `o` to `0`: `foobar` becomes `f00bar` |
| Scenarios.LongestMatchPrecedence | src/main.ts:256-264 | keys `ab`, `abc` sort to `abc`, `ab`, and `abcabc` is matched as two `abc` |
| Scenarios.DollarExpandedRun | src/main.ts:177-179 | as written, key `foo` with `o` to `$$` turns `foobar` into `f$$bar`: each inserted `$$` becomes `$` |
| Scenarios.DollarInsertedLiterally | src/main.ts:177-179 | with `to` inserted literally, the same run gives `f$$$$bar`: every `o` in the match becomes `$$` |
| Scenarios.FromAcrossMatchBoundary | src/main.ts:177-179 | a `from` that straddles the end of a match is not replaced |
| Scenarios.EmptyKey | src/main.ts:177-179 | the empty key matches at every position and at the end: with `from` empty and `to` `-`, `ab` becomes `-a-b-` |
| Scenarios.FirstBatch | src/main.ts:263-277 | the first batch `xa` turns `xa` into `xaa` |
| Scenarios.SecondBatch | src/main.ts:263-277 | the second batch `aa` then turns `xaa` into `xaaaa` |
| Scenarios.SecondBatchAlone | src/main.ts:263-277 | the second batch alone leaves the original `xa` unchanged |
| Scenarios.CumulativeBatching | src/main.ts:263-277 | batches compound, as written and with literal insertion: a later batch sees and can match the output of an earlier one |

## Left out

- File system I/O is modelled as two maps from absolute paths to contents: the original tree and the staging tree. Permissions, symbolic links, file kinds other than regular files and directories, and any read error other than a missing file are not modelled.
- The staging root is treated as disjoint from the target tree. The walk does not see `.replace-rr` even if it lies inside `--dir`.
- Failures of `fs.rm`, `fs.mkdir`, `fs.writeFile` and `fs.rename` are not modelled, so neither are the messages `Can't clear …`, `Failed to write buffer to …` and `Failed to replace the original path with a buffer.` (src/main.ts:28-34, 42-50, 77-79).
- Staging.Store.ReplaceOriginWithBuffer: moves the staged files in an unspecified order and states only the final state; renaming cannot fail here.
- Concurrency: `Promise.allSettled` runs the jobs of a chunk concurrently. Jobs on distinct files touch distinct staging entries (`Staging.BufferPathDistinct`), so they are run one after another in list order, and the outcomes follow that order, as `allSettled` does.
- Regular expressions: keys are treated as literal strings, so metacharacters in the keys are not modelled. In particular a key such as `\$\$`, whose matches hold `$` and for which the identity law fails as written (`Substitution.DollarBreaksIdentity`), is outside the model; a literal key `$$` would in the program be the pattern `/$$/g`, which matches only the empty string at the end. JavaScript strings are modelled as sequences of characters, not UTF-16 code units. The joined pattern text `(k0|k1|…)` is not built; the matcher is the list of alternatives.
- Generator laziness (`for await` over async generators) is flattened into lists; the order of the paths is kept.
- `getPercent` and the spinner text (src/main.ts:198-199, 222) are left out because they are display only. The counter behind them is modelled by `Engine.Progress`.
- The command line (commander), `chalk`, `ora`, `readPackageInfo` and `console` output (src/main.ts:87-104, 140-156, 295-296, 320-334) are left out because they are I/O and presentation.
- JavaScript's `number` is modelled as `int` in `Chunking.PartitionAll` and `Results.IntToString`: fractional, NaN and exponent-form values are not modelled, since the only chunk size passed is the constant 50 and the only number printed is that argument.
- `keys.sort` also reorders `options.keys` in place. Nothing reads the keys afterwards, so the model sorts a copy.
- Pipeline.StartConversion: requires at least one key, which `--keys <keys...>` as a required option guarantees. With an empty list the program would take the single-key path with `keys[0]` undefined, and `new RegExp(undefined, 'g')` is the empty pattern, which matches the empty string at every position as the empty key does (`Scenarios.EmptyKey`).

## Findings

| source | as written | input that shows it | evidently intended | confidence | as-written member | corrected member |
|---|---|---|---|---|---|---|
| src/main.ts:177-179 | `sub.replaceAll(from, to)` with a string `to` expands the `$$`, `$&`, `` $` `` and `$'` replacement patterns | key `foo`, `from` `o`, `to` `$$`, file content `foobar`: the file becomes `f$$bar` instead of `f$$$$bar` | `to` inserted as given, so every `o` in a match becomes `$$` | not executed | Scenarios.DollarExpandedRun | Scenarios.DollarInsertedLiterally |
| src/main.ts:274 | `result.concat(chunkResult)` discards its return value, so `checkConversionResult` always sees an empty list and the commit happens even when jobs were rejected | tree `/r/a` listed but unreadable (missing): the job is rejected, yet the check passes and the run commits | collect all outcomes (`result.push(...chunkResult)`), so that any rejected job stops the commit | not executed | Pipeline.RejectionIsIgnored | Pipeline.RunChecked |
