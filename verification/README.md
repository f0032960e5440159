# textory history pipeline, modelled in Dafny

textory measures how a LaTeX document grows over the history of its git
repository. For every commit, oldest first, it reuses the commit's PDF from
a cache directory or builds it: it copies the repository into a temporary
workspace, checks the commit out there, runs latexmk and moves the PDF into
the cache. It then counts the PDF's pages and appends a row
`timestamp,commit id,page count` to `textory_data.csv` below the header
`Timestamp,Commit Hash,Page Count`.

The model has four modules:

- `Wrappers` (wrappers.dfy): the `Option` type.
- `Naming` (naming.dfy): the layout of the output directory (`cache`,
  `textory_data.csv`, `textory_report.html`), the stem/extension split behind
  `with_extension("pdf")`, the artifact path a build leaves in the workspace,
  the decimal rendering of the walk index, and the cache file name
  `thesis_<index>-<first 7 characters of the id>.pdf`.
- `Tree` (tree.dfy): file-system trees (`File`, `Socket` for an entry that is
  not a regular file, `Dir` as a map from names to entries), lookup, file
  removal, and `copy_repo` as a recursive method. It loops over a directory's
  entries in an unspecified order, as `read_dir` does, and its result is
  proved equal to the specification `Filtered`.
- `History` (history.dfy): the per-commit loop of `main`. The specification
  functions `Step`, `RunFrom` and `Run` describe it. The method
  `ProcessHistory` is the loop itself, proved equal to `Run`. The lemmas state
  what a run promises: the file is append-only, rows follow walk order, ids
  that cannot be resolved are skipped, the cache only grows, a build happens
  only on a miss, and a second run does no builds.

External effects become parameters of the `Env` value. These are the
repository's working tree (one value for the whole run), `git checkout` and `latexmk` (each given a tree,
returning the resulting tree or a failure), and the PDF page counter (given
the PDF's bytes, returning a count or a failure). The revision walk is a
sequence of entries: a walk error, an id that cannot be resolved to a
commit, or a commit with its id and time. `Env` also carries the command
line (`Args`); the cache directory `CacheDir(args)` is a map from the file
names `CacheKey(index, id)` to contents, so a cached PDF's path is
`CachePdfPath(args, index, id)`. Three of the printed progress messages
become a log of events: the error for an id that cannot be resolved
(`LookupError`), "Using cached PDF" (`CacheHit`) and "Compiling..."
(`CacheMiss`); "no build" means "no `CacheMiss` event".

The source converts the commit time with `seconds() as u64` and adds it to
the Unix epoch. A negative commit time wraps to a huge unsigned value, and
the addition then panics. The model treats this as a run that aborts with
`TimeOverflow`, so rows hold non-negative times.

## Model

| member | source | states |
|---|---|---|
| `Naming.LastDot` | src/main.rs:187 | the position found is a non-leading '.' with no '.' after it; when none is found, s[1..n] holds no '.' |
| `Naming.WithExtensionSplits` | src/main.rs:187 | replacing the extension keeps the file stem, and the extension read back is exactly the new one |
| `Naming.WithExtensionIdempotent` | src/main.rs:187 | replacing the extension twice gives the same name as replacing it once |
| `Naming.ArtifactPathShape` | src/main.rs:187-189 | the PDF path lies inside the workspace, in the entry file's directory, with the entry's stem and the extension "pdf" |
| `Naming.DecimalString` | src/main.rs:87 | the rendered index is a non-empty string of decimal digits, one digit exactly for indices below 10, and has no leading zero |
| `Naming.DecimalRoundTrip` | src/main.rs:87 | reading the rendered index back as a decimal number gives the index |
| `Naming.DecimalInjective` | src/main.rs:87 | two indices render the same exactly when they are equal |
| `Naming.ShortHash` | src/main.rs:84 | The result has exactly 7 characters and is a prefix of the 40-character displayed commit id. |
| `Naming.CacheFileNameInjective` | src/main.rs:84-87 | for short hashes of one length, two cache file names are equal exactly when both the indices and the short hashes are equal |
| `Naming.CachePdfPathCollision` | src/main.rs:34-36 | two cached artifacts share a path exactly when their walk positions are equal and their ids share the first 7 characters; so the path depends on that pair alone |
| `Naming.OutputLayout` | src/main.rs:33-43 | the cache directory, data file and report are distinct entries of the output directory, and every cached PDF lies in the cache directory and differs from the data file and the report |
| `Tree.CopyRepo` | src/main.rs:133-150 | the copy succeeds exactly when the source is a directory and every entry copied as a file is a regular file; the copy is then `Filtered(source)` |
| `Tree.LookupFiltered` | src/main.rs:133-150 | a lookup in the copy gives the copy of what the same lookup finds in the source, except that non-directories named `fsmonitor--daemon.ipc` are absent |
| `Tree.CopyFaithful` | src/main.rs:140-147 | the copy has the same files with the same contents under the same relative names, except files named `fsmonitor--daemon.ipc`, and has the same directories; an entry named `fsmonitor--daemon.ipc` can only be a directory |
| `Tree.CopyHasNoSockets` | src/main.rs:143-146 | a successful copy contains only regular files and directories |
| `Tree.RemoveFileEffect` | src/main.rs:102 | after removing the PDF from the workspace, nothing remains at or below its path, and every path neither above nor below it is unchanged |
| `History.Build` | src/main.rs:91-103 | a miss leaves the data file and the messages alone; when it succeeds the key is cached and no other cache entry changes; when it fails the cache is unchanged |
| `History.ProcessHistory` | src/main.rs:76-123 | the loop writes the header, processes the walk in order and returns the cache, data file, messages and outcome of the run `Run` |
| `History.StepOutput` | src/main.rs:79-122 | one iteration appends to the data file only: a failed step appends nothing and fails with WalkFailed exactly on a walk error; an unresolved id never fails; a resolved commit that succeeds has its key cached and appends exactly one row, holding its id, its time and the cached PDF's page count |
| `History.StepCache` | src/main.rs:84-103 | one iteration only adds cache entries, only under the commit's own key; a hit, a walk error or an unresolved id changes neither cache nor workspace; a PDF built on a miss stays cached when its page count or the time conversion then fails |
| `History.StepLog` | src/main.rs:79-120 | one iteration prints nothing for a walk error, a lookup error for an unresolved id, and a hit or a miss for a resolved commit, according to whether its key was cached |
| `History.StepFailsOnlyOnFailure` | src/main.rs:94-116 | a resolved commit's step fails only on a negative commit time, an uncountable cached PDF, or on a miss an uncopyable repository, a failed checkout or build, a missing PDF file or an uncountable built PDF |
| `History.HitDoesNotBuild` | src/main.rs:89-90 | on a hit the result depends neither on the repository nor on the checkout and build tools, so nothing is copied, checked out or compiled |
| `History.MissStartsFresh` | src/main.rs:94-102 | on a miss the result does not depend on the previous workspace; on success the cached PDF is the file the build left in a fresh copy checked out at the commit, and the workspace is that tree without the PDF |
| `History.RunFromExtends` | src/main.rs:79-123 | from any point, the data file and the log are only appended to, and cache entries are never changed or removed |
| `History.RunFromMisses` | src/main.rs:89-95 | from any point, no key cached on arrival is compiled, and no key is compiled twice |
| `History.RunFromStops` | src/main.rs:79-121 | from any point, the run gets through no walk error: it stops at the first one, with WalkFailed, or earlier at a resolved commit whose processing failed, never at an unresolved id |
| `History.RunFromRows` | src/main.rs:79-121 | from any point, exactly one row is appended per resolved commit processed, in walk order, and nothing but rows |
| `History.RunFromPages` | src/main.rs:105-116 | from any point, the row of each resolved commit processed comes after one row per earlier resolved commit and holds the page count the page counter reads from that commit's cached PDF, which stays in the cache |
| `History.RunFromCaches` | src/main.rs:84-103 | from any point, every entry added to the cache is named after a resolved commit the run reached: one it got through or the one it stopped at |
| `History.RunFromChronological` | src/main.rs:110-116 | appending the rows of an oldest-first walk to a chronological file keeps the file chronological |
| `History.RerunFrom` | src/main.rs:89-90 | rerunning a completed walk over the cache it left hits the cache on every commit: no compilation, cache and workspace unchanged, the same rows appended |
| `History.RerunDoesNoBuilds` | src/main.rs:89-103 | a second run over the same walk, using the cache the first completed run left, completes with no compilation, an unchanged cache and an identical data file |
| `History.RunOutput` | src/main.rs:76-121 | the data file holds the header once, first, followed by one row per resolved commit processed, in walk order; unresolved ids are skipped without stopping the run, and a walk error stops it |
| `History.RunFromCompletes` | src/main.rs:79-123 | from any point, when the tools never fail and the rest of the walk has no error and no negative commit time, the run reaches the end of the walk |
| `History.RunCompletes` | src/main.rs:76-123 | when the tools never fail and the walk has no error and no negative commit time, the run completes and writes one row per resolved commit of the whole walk, in walk order, skipping unresolved ids |
| `History.RunPages` | src/main.rs:84-116 | the row of the resolved commit at walk position w is the one after the header and the rows of the resolved commits before w, and holds the page count of that commit's PDF, which the cache holds at the end of the run |
| `History.RunChronological` | src/main.rs:61 | when the walk lists commits oldest first, the rows of the data file are in non-decreasing time order |
| `History.RunCache` | src/main.rs:89-103 | a run keeps every cached PDF, caches the PDF of every resolved commit processed, adds only PDFs of resolved commits up to the position where it stopped, compiles only keys that were not cached at the start, and compiles each key at most once |

## Left out

- Opening the repository and setting up the revision walk (src/main.rs:58-61): the walk is an input sequence, and its oldest-first order is a hypothesis (`OldestFirst`) of the lemma about row order.
- `git checkout`, `latexmk` and PDF loading (src/main.rs:152-195): these are external processes and a library. They are oracles in `Env` that either succeed with a result or fail. The truncation of the page count to `u32` belongs to the oracle.
- Absolute entry-file paths: `Path::join` with an absolute path discards the workspace. The model joins components, so the entry file is taken relative to the repository.
- `Path::with_extension` is modelled on components: the stem is the name up to its last non-leading '.'. The special names `.` and `..` are not modelled.
- RFC 3339 formatting of the commit time (src/main.rs:106-113): rows keep the time in seconds. The range limit of chrono's conversion for times far in the future is not modelled.
- I/O errors of `create_dir_all`, `read_dir`, `exists`, `remove_dir_all`, `remove_file` and of writing the data file: the model lets them succeed. A copy fails only when the repository path is not a directory (`read_dir`, src/main.rs:135) or when an entry it copies as a file is not a regular file.
- An output directory inside the repository: the working tree is assumed not to change during the run, so the output directory is assumed to lie outside `repo_path`. Otherwise each copy on a miss (src/main.rs:97) would also copy the cache and the partly written `textory_data.csv`, and the workspace would not be `Filtered` of one fixed tree.
- The partial workspace that a failed copy leaves behind: after `CopyFailed` the model has no workspace.
- Symbolic links, which `is_dir` and `fs::copy` follow.
- The overwrite prompts and `process::exit` (src/main.rs:64-75, src/main.rs:201-215): the data file is created empty and given its header.
- The other printed messages ("Processing commit", "Checking out commit", the checkout and compile error output, "Successfully compiled") and logging.
- The report (`write_report`, src/main.rs:197-217) and its embedded HTML template. `ReportFile` is modelled only as a path.
- Concurrent runs against one cache directory.
