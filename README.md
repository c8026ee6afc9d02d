# dedup-copy: the deduplicating copy, modelled in Dafny

`dedupFS` walks a source tree and copies every file to the same relative
path under a destination directory, but only the first file of each
content. Every file after that with a content it has already seen is
skipped. Directories, empty files and any path ending in `.DS_Store` are
passed over. The run keeps two byte counters, `copied` and `skipped`. The
first error of any kind stops the walk. The error is then wrapped once more
and returned together with the counters accumulated so far. `main` turns
the result into an error, a "nothing happened" outcome or a summary.

The model has six modules:

- `Paths` (paths.dfy) holds the string operations the callback uses:
  - `TrimPrefix` and `HasSuffix`;
  - the relative path `RelPath`;
  - `Dir`, `Base` and `Join` on clean `/`-separated paths;
  - the destination path `DestPath`, which is `Join(Join(outDir, Dir(rel)), Base(rel))`.
- `Dedup` (dedup.dfy) is the run as a state machine:
  - the walk is a sequence of entries: a listing error, a directory, or a file with its bytes and the failure, if any, that the filesystem holds for it;
  - the state is the index from digest to relative path, the two counters and the destination files by path;
  - `Step` is the callback on one entry and `CopyOut` is its second half;
  - `Run` is the walk up to the first failure;
  - `StageWords`, `Words`, `Message` and `RunError` build the error texts;
  - reference definitions say what a run should achieve without mentioning the index: `EligibleBytes`, `Seen`, `FirstPos`, `FirstIndex`, `FirstDests`, `FirstBytes` and `RepeatBytes`.
- `DedupProperties` (properties.dfy) holds the lemmas: fail-fast, byte accounting, first-seen-wins, and the shape of the destination tree.
- `Engine` (engine.dfy) is `dedupFS` itself, in imperative form:
  - a run object owns the index and the counters that the callback captures;
  - its `Visit` and `CopyOut` methods update them and the destination in place;
  - `DedupFS` loops over the walk and returns at the first failure;
  - each method is proved equal to the `Dedup` function it implements.
- `Report` (report.dfy) is `main`'s reading of the result.
- `Scenario` (scenario.dfy) is the repository's own test: seven files, among them a duplicate, an empty file and two `.DS_Store` files. It is proved end to end for any source directory and any destination directory other than the root.

The SHA-256 digest is a parameter `hash` of the configuration. The
properties that talk about file contents rather than digests assume that
it is injective, and no other property does.

## Model

| member | source | states |
|---|---|---|
| Paths.TrimPrefix | main.go:76 | a source path that starts with the prefix is that prefix followed by the result; a path without the prefix is returned unchanged |
| Paths.RelPathUnderRoot | main.go:76 | a file at `inDir/rel` gets relative path `rel`; the walk root itself, which lacks the `inDir/` prefix, keeps its full path |
| Paths.RelPathInjective | main.go:76 | two different source paths below `inDir/` get different relative paths |
| Paths.DirBaseSplit | main.go:103-104 | on a clean relative path, `Base` is a single name, and `Dir` + "/" + `Base` is the path again (or `Dir` is "." and `Base` is the whole path) |
| Paths.JoinRel | main.go:103 | `filepath.Join` of a directory and a relative element puts exactly one separator between them |
| Paths.JoinTwice | main.go:103-108 | joining a directory and then a file name onto `outDir` gives `outDir/dir/name` |
| Paths.DestPathUnder | main.go:103-108 | the destination of a clean relative path `rel` is `outDir/rel` (`/rel` when `outDir` is the root) |
| Paths.DestPathInjective | main.go:103-108 | different clean relative paths get different destinations |
| Dedup.CopyOut | main.go:99-127 | once a new digest is indexed: a seek, mkdir or create failure stops the walk with the destination untouched; a copy failure stops it with the bytes written so far, a prefix of the content, stored at `outDir/relPath`; a sync failure stops it with the whole content stored there; without a failure the whole content is written there and only then added to `copied`; it goes through exactly when there is no failure; the index and `skipped` never change here |
| Dedup.Step | main.go:72-129 | a listing error stops the walk; a directory, an empty file or a `.DS_Store` path changes nothing; the walk stops exactly at a listing error, at an open or hash failure, and at any failure of a file whose digest is new, with that failure's stage and reason; an open or hash failure changes nothing; a known digest adds the size to `skipped` and changes nothing else; a new digest is recorded for this relative path whether or not the copy then fails, and is never overwritten; a copy that goes through adds the size to `copied` and writes the whole content to its destination; a failing step leaves both counters as they were |
| Dedup.StageWords | main.go:83-125 | none of the seven texts for a failing file operation contains a colon |
| Dedup.Words | main.go:73-125 | none of the eight failure texts of the callback contains a colon |
| Dedup.Message | main.go:73-125 | an error text is the failure's text, then ": ", then the underlying error's text unchanged |
| Dedup.RunError | main.go:131-133 | `dedupFS` returns an error exactly when the walk failed, and it is "failed somewhere along the copy process: " followed by the callback's error text |
| Dedup.Run | main.go:71-130 | over a walk, the index only grows and neither counter decreases |
| DedupProperties.FailureIsFinal | main.go:71-130 | once a prefix of the walk has failed, the later entries change nothing |
| DedupProperties.FirstFailure | main.go:71-135 | a failed run is a successful prefix plus one failing entry, and it returns the counters accumulated before that entry |
| DedupProperties.CleanWalkSucceeds | main.go:71-130 | a walk with no listing error and no failing file operation runs to the end without error |
| DedupProperties.RunExtend | main.go:71-130 | a run one entry longer takes exactly one more step from where the shorter run ended, unless that run had failed |
| DedupProperties.ByteAccounting | main.go:92-127 | after a successful run, `copied + skipped` grew by exactly the total size of the eligible files |
| DedupProperties.FirstAndRepeatCoverEligible | main.go:92-97 | every eligible file is either the first of its digest or a repeat, and the two byte totals add up to the eligible bytes |
| DedupProperties.SeenSnoc | main.go:92-97 | the digests met grow by the last file's digest exactly when that file is eligible |
| DedupProperties.FirstIndexSnoc | main.go:92-97 | the reference index grows by the last file exactly when its digest is new, and earlier entries are kept |
| DedupProperties.FirstDestsSnoc | main.go:103-109 | the reference set of destinations grows by the last file's destination exactly when its digest is new |
| DedupProperties.FirstSeenWins | main.go:92-127 | after a successful run from an empty index, the index maps each digest to the relative path of its first file, `copied` is the size of those first files and `skipped` the size of all later ones |
| DedupProperties.StepFiles | main.go:92-127 | a step that goes through changes the destination only by writing a file with a new digest, whole, to its destination |
| DedupProperties.FirstCopyKept | main.go:92-127 | after the last file's step, every digest met so far, the last file's included, has its first file's content at that file's destination |
| DedupProperties.HoldsFirstCopiesSnoc | main.go:92-127 | writing the last file when its digest is new keeps the destination holding exactly the first copies |
| DedupProperties.DestinationHoldsFirstCopies | main.go:92-127 | after a successful run, the destination holds the first file of every digest, whole, at its destination, plus what was there before and unchanged; it holds nothing else |
| DedupProperties.OneFilePerDigest | main.go:92-109 | two different digests end up at two different destinations with different contents |
| DedupProperties.DuplicateLeavesDestination | main.go:92-96 | a file whose digest an earlier file has never touches its own destination path |
| DedupProperties.DistinctDestsAt | main.go:103-108 | with distinct destinations, two eligible files at different positions have different destinations |
| DedupProperties.NotAFirstDest | main.go:103-108 | a path that is no first file's destination is not among the first destinations |
| DedupProperties.EveryContentCopied | main.go:92-127 | with an injective digest, every eligible file's content is in the destination, at the destination of the first file with that content |
| DedupProperties.WalkDestinations | main.go:76-108 | for a walk of distinct clean file paths below `inDir`, every file's copy lands at `outDir/relPath` (`/relPath` when `outDir` is the root) and no two files share a destination |
| DedupProperties.MessageInjective | main.go:73-125 | two failures with the same error text have the same failure text and the same underlying error |
| Engine.MemFs.constructor | main.go:48 | the destination side of the filesystem starts with the given files |
| Engine.DedupRun.constructor | main.go:67-69 | a run starts with an empty index and zero counters |
| Engine.DedupRun.Visit | main.go:71-129 | the callback on one entry moves the run object from a state to exactly the state `Step` gives, and it returns `Step`'s failure |
| Engine.DedupRun.CopyOut | main.go:99-129 | the second half of the callback moves the run object to exactly the state `Dedup.CopyOut` gives |
| Engine.DedupFS | main.go:48-136 | returns the counters and the destination of `Run` over the walk, and, when the run failed, the step's message wrapped as "failed somewhere along the copy process: …" |
| Report.Finish | main.go:29-41 | an error becomes "Error doing dedup: …"; with no error, `copied == 0` is the "nothing happened" outcome; otherwise a summary of `copied/1024` and `skipped/1024`; the exit code is 0 exactly when there is no error and `copied > 0` |
| Report.NothingToCopy | main.go:29-79 | a walk of only directories, empty files and `.DS_Store` files changes nothing and ends as "nothing happened" |
| Report.SomethingCopied | main.go:35-41 | a successful run over a walk with at least one eligible file ends in a summary |
| Report.FirstBytesPositive | main.go:92-127 | a walk with an eligible file has a positive number of first-copy bytes |
| Scenario.InjectiveDistinct | main_test.go:29-35 | an injective digest tells apple, banana and carrot apart |
| Scenario.RunOn | main.go:71-130 | a step that goes through extends a successful run by one entry |
| Scenario.CopiedPath | main.go:76-108 | a file at `src/d/b` is eligible, is indexed as `d/b` and is copied to `dest/d/b` |
| Scenario.CopyStep | main.go:92-127 | a new-digest file without a failure at `src/d/b` is indexed as `d/b`, counted, and written whole to `dest/d/b` |
| Scenario.SuffixUnder | main.go:77 | whether `root/d/b` ends in `.DS_Store` depends on the name `b` alone, whatever its length |
| Scenario.DsStoreStep | main.go:77-79 | a file whose name ends in `.DS_Store` is passed over with nothing changed |
| Scenario.StepDsStore | main_test.go:34-35 | both `.DS_Store` and `._.DS_Store` are passed over |
| Scenario.StepFirstApple | main_test.go:29 | the first apple is copied to `dest/dir1/apple.txt` |
| Scenario.StepBanana | main_test.go:30 | the banana is copied to `dest/dir1/banana.txt` |
| Scenario.StepSecondApple | main_test.go:31 | the second apple is a duplicate, and its 5 bytes are skipped |
| Scenario.StepCarrot | main_test.go:32 | the carrot is copied to `dest/dir2/carrot.txt` |
| Scenario.WalkPrefix | main_test.go:29-37 | every prefix of the walk runs through to the expected state |
| Scenario.DedupTree | main_test.go:37-65 | the run succeeds with `copied = 17` and `skipped = 5`; the destination holds exactly `dir1/apple.txt`, `dir1/banana.txt` and `dir2/carrot.txt`, with their contents; `main` reports a summary |

## Left out

- Command-line parsing, the usage check and the printing in `main` are left out. The float64 percentage is floating point, so it is left out too. `Report.Finish` keeps the outcome and the `/1024` quotients.
- `main` labels these quotients "MB", but they are bytes divided by 1024. The model keeps the arithmetic and names the fields KB.
- `filepath.Abs` on both directories is left out, because it depends on the working directory and the operating system. Both roots are taken as already absolute, and the error it can return is not modelled.
- `filepath.Clean` is left out. `Dir`, `Base` and `Join` are exact for clean paths only, which is what the walker hands to the callback.
- SHA-256, the hasher reset and the hex formatting are left out. The digest is an abstract function. Contents are told apart only where `Injective(hash)` is assumed.
- The afero filesystem and the walk order are left out. The walk is a given sequence of entries. Every failure of an open, read, seek, mkdir, create, copy or sync is an injected fault on the entry, and listing errors are `Unreadable` entries.
- Directories created in the destination are not modelled. The destination is a map from file path to bytes.
- The momentarily empty file between `Create` and the copy is not stored. Every path after `Create` stores either a prefix of the content or all of it.
- Closing files, the deferred close logging and the verbose output are left out, because they have no effect on the counters, the index or the destination.
- The counters are unbounded naturals, so the overflow of Go's `int64` counters is not modelled.
- File sizes are the lengths of the contents. `dedupFS` filters and counts with the size the walk reports. For a symbolic link that is the link's own size, not its target's, so a link is counted differently from what it reads. Links are not modelled.
- The source and destination trees are taken to be disjoint: writing a copy never changes a file of the walk. With the destination inside the source, or equal to it, `Create` can truncate a file that was just hashed, and the copy then writes fewer bytes than `copied` grows by. This case is not modelled.
- Go strings are bytes, while paths here are sequences of characters. Path names that are not valid UTF-8 cannot be represented.
- The Windows path normalisation of the test helper is left out. The scenario uses `/` paths.
- `Scenario.DedupTree` states the test for any source directory and for a destination other than the root. `/src` and `/dest` are one instance; the test's own literals are not restated.
