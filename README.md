# dumbsync manifest pipeline, modelled in Dafny

dumbsync publishes a directory tree over plain HTTP. `generate` writes a
manifest `.dumbsync` at the root of the tree, one line `<hex digest> <path>`
per file. `aggregate` fetches that manifest from a base URL, walks the local
tree and classifies every path as `Local` (only here), `Remote` (only in the
manifest), `Uptodate` (both, same digest) or `Outdated` (both, different
digest). `download` then decides, per path, to do nothing, to delete the
local file (with `--purge`) or to create its parent directories and fetch it.

This project models that pipeline from `dumbsync/src/lib.rs`:

- `types.dfy`: `Option`, `Result`, paths as strings, `HexDigest` (64
  lower-case hex digits, what `Hash::to_hex` prints) and the two errors the
  core reports.
- `text.dfy`: first/last occurrence search and `Lines`, the behaviour of
  Rust's `str::lines` on `\n`.
- `manifest.dfy`: the line format, the line parser (`splitn(2, " ")`), the
  document parser, serialisation, and `Generate`, the accumulating loop of
  `generate`, with the serialise/parse round trip.
- `base_url.dfy`: the trailing-slash normalisation done in `aggregate` and
  in `download`, and the merge step of `Url::join` that explains why it is
  needed.
- `reconciliation.dfy`: `DumbItem`, `Aggregate` (the imperative loop over
  manifest lines with a map and a shrinking local list, then the loop
  marking leftovers `Local`), proved equal to the declarative outcome
  `Reconciled`, and the classification lemmas.
- `file_paths.dfy`, `executor.dfy`: `PathBuf::join`, `Path::parent`, the
  per-item decision of `process_item` and the per-path plan of `download`.
  `ProcessItemAsWritten` is `process_item` (lines 38-67) as written;
  `ProcessItem`, and `Download` built on it, are the corrected versions
  from the Findings rows for lines 50 and 56-62: the purge removes
  `target/path`, and a path that is absolute or has a `..` component is
  refused.

The hash of a file and the HTTP GET of the manifest are parameters:
`digest: Path -> Option<HexDigest>` stands for `hash_file(target/path)`
followed by `to_hex` (`None` is an I/O error), and
`fetch: string -> Option<string>` for the GET of the manifest URL followed
by reading its body (`None` is a body that cannot be read as a string: the
response of `call()` is used whatever its status, so only `into_string`
can fail). The walked tree is the sequence `localFiles` of
relative paths. The loop body of `aggregate` (lines 103-119) is the method
`ProcessLine`, called once per line by `Aggregate`; the final loop
(lines 123-125) is the method `MarkLocal`.

`Generate` is the loop of `generate` over the list it is given; the walk
of the source hands it every file of the directory, including a
`.dumbsync` left by an earlier run. `WithoutManifest` is that walk minus
the manifest file, the list the regeneration lemmas use (see Findings).
`download` normalises its URL like `aggregate` (lines 137-140); `Download`
uses the same `WithTrailingSlash`.

Duplicate manifest paths are handled as the code does, not by a policy:
a later line naming a path that an earlier line already consumed from the
local list records `Remote`, overwriting the earlier status.

## Model

| member | source | states |
|---|---|---|
| `Text.IndexOf` | dumbsync/src/lib.rs:104 | the split position is the first space of the line: it holds a space and nothing before it does |
| `Text.Lines` | dumbsync/src/lib.rs:102 | the manifest is cut into lines none of which contains a line feed |
| `Text.LinesCons` | dumbsync/src/lib.rs:102 | a line without a line feed, followed by one, comes back whole as the first line and the rest is split independently |
| `Manifest.ParseLine` | dumbsync/src/lib.rs:103-106 | a line yields an entry exactly when it contains a space; the digest part has no space and digest, one space and path rebuild the line, so the path may itself contain spaces |
| `Manifest.ParseFormattedLine` | dumbsync/src/lib.rs:104-106 | a digest without spaces followed by a space and any path parses back to that digest and path |
| `Manifest.ParseFormattedFront` | dumbsync/src/lib.rs:103-106 | a formatted line in front of any document parses to its entry followed by the entries of the rest |
| `Manifest.ParsedEntriesAppend` | dumbsync/src/lib.rs:102-106 | lines are parsed independently: the entries of two blocks of lines are the entries of each, concatenated |
| `Manifest.SerializeAppend` | dumbsync/src/lib.rs:171 | appending one file's line to the accumulated text serialises the extended entry list |
| `Manifest.ParseSerialize` | dumbsync/src/lib.rs:171 | parsing the serialised manifest returns the same entries in the same order, when digests have no space or line feed and paths no line feed |
| `Manifest.Generate` | dumbsync/src/lib.rs:152-177 | succeeds exactly when every file can be hashed and then returns the serialisation of one entry per file in walk order; otherwise reports the first file that could not be hashed |
| `Manifest.WithoutManifest` | dumbsync/src/lib.rs:153-171 | keeps exactly the walked files other than `.dumbsync`, keeps the list unchanged when it holds no manifest file (a first generation), and keeps the files distinct when they were |
| `Manifest.ListedManifestParsesBack` | dumbsync/src/lib.rs:171 | the manifest built from the walk without the manifest file parses back entry for entry |
| `Manifest.GeneratedManifestParsesBack` | dumbsync/src/lib.rs:171 | a manifest written by generate parses back to exactly the recorded (digest, path) pairs when no path contains a line feed |
| `BaseUrl.TrailingSlashNormalizes` | dumbsync/src/lib.rs:75-78 | the normalised URL ends with `/`, extends the given URL by at most that character, leaves a URL already ending in `/` unchanged and is idempotent |
| `BaseUrl.NormalizeBaseUrl` | dumbsync/src/lib.rs:75-78 | the in-place update of the URL string yields the normalised URL |
| `BaseUrl.ResolveAgainstDirectory` | dumbsync/src/lib.rs:99 | joining a relative path to a base ending in `/` appends it |
| `BaseUrl.NormalizedBaseKeepsUrl` | dumbsync/src/lib.rs:75-79 | after normalisation the whole given URL is a prefix of every joined URL |
| `BaseUrl.UnnormalizedBaseDropsLastSegment` | dumbsync/src/lib.rs:76-79 | for a base whose path has a non-empty last segment (not ending in `/`, last `/` not part of the `//` before the host), the join keeps only the directory part up to the last `/`, drops the non-empty last segment, and so differs from the join after normalisation |
| `Reconciliation.Retain` | dumbsync/src/lib.rs:109 | removes every copy of the matched path from the local list and nothing else (as multisets) |
| `Reconciliation.FirstHashFailure` | dumbsync/src/lib.rs:111 | finds the first manifest entry whose local file had to be hashed and could not be, and that no earlier entry failed |
| `Reconciliation.ConsumeEntry` | dumbsync/src/lib.rs:108-119 | one classified entry keeps the loop's invariant: map keys are the paths seen, statuses agree with the reference classification, the local list is the local paths not yet seen |
| `Reconciliation.ProcessLine` | dumbsync/src/lib.rs:103-119 | one line either extends the classification consistently or fails exactly when its path is still local and cannot be hashed, reporting that path |
| `Reconciliation.ClassificationComplete` | dumbsync/src/lib.rs:123-125 | marking the leftover local paths `Local` completes the reference classification |
| `Reconciliation.MarkLocal` | dumbsync/src/lib.rs:123-125 | after the manifest loop, recording every local path the manifest did not name as `Local` yields exactly the reference classification |
| `Reconciliation.Aggregate` | dumbsync/src/lib.rs:69-128 | fails when the manifest at `<base>/.dumbsync` cannot be fetched; otherwise returns exactly the reference outcome for the local paths and the parsed manifest |
| `Reconciliation.ReconciledClassifies` | dumbsync/src/lib.rs:108-125 | for a manifest naming each path once: fails exactly when a local and remote path cannot be hashed; the keys are the union of local and remote paths; local-only is `Local`, remote-only is `Remote`, both is `Uptodate` exactly when the manifest digest equals the local hex digest and `Outdated` otherwise |
| `Reconciliation.RepeatedPathIsRemote` | dumbsync/src/lib.rs:108-118 | a path the manifest names twice ends up `Remote`, even when it is local |
| `Reconciliation.InSyncTreeIsUptodate` | dumbsync/src/lib.rs:108-116 | a tree holding exactly the manifest's files with the recorded digests classifies everything `Uptodate` |
| `Reconciliation.ListedEntriesInSync` | dumbsync/src/lib.rs:169-171 | the entries built from the walk without the manifest file name each path once, cover exactly the listed files, and record the hash each still has after the manifest is written |
| `Reconciliation.RegeneratedTreeIsUptodate` | dumbsync/src/lib.rs:112-113 | a tree holding exactly the files listed without the manifest file reconciles to all `Uptodate` against that manifest, even with the hashes after the manifest write, which may change only the manifest file |
| `Reconciliation.StaleManifestEntryIsOutdated` | dumbsync/src/lib.rs:156-175 | as written, when the walked files include `.dumbsync` and the write changes its hash, a client holding the whole tree finds `.dumbsync` `Outdated` |
| `FilePaths.JoinRelativeStaysUnder` | dumbsync/src/lib.rs:57 | joining a relative path keeps the target as prefix and the path as suffix |
| `FilePaths.Parent` | dumbsync/src/lib.rs:58-61 | no parent for the empty path and the root; the empty path exactly for a single component without `/`; otherwise a proper prefix that is `/` or ends right before the last `/`, followed only by the last component |
| `FilePaths.ParentOfJoin` | dumbsync/src/lib.rs:57-59 | the parent of `target` joined with a single component is `target` itself |
| `Executor.PurgeAsWrittenMissesTarget` | dumbsync/src/lib.rs:47-51 | as written, purging local-only `a.txt` of target `/srv/mirror` removes `a.txt`, not `/srv/mirror/a.txt` |
| `Executor.ManifestPathEscapesAsWritten` | dumbsync/src/lib.rs:56-62 | as written, the manifest path `/etc/x` is written to `/etc/x` and `../../etc/x` to `/srv/mirror/../../etc/x` for target `/srv/mirror`; neither path is confined |
| `Executor.ProcessItemDecides` | dumbsync/src/lib.rs:45-64 | `Uptodate` does nothing; `Local` is removed only under purge; `Remote` and `Outdated` are fetched from the base joined with the path into `target/path`, after creating a proper-prefix parent (`target` itself for a top-level file); a path that is absolute or has a `..` component is refused instead; every file removed or written is `target` joined with a confined path, so `target` is its prefix |
| `Executor.DownloadPlan` | dumbsync/src/lib.rs:131-149 | the corrected `download`: every classified path gets an action; with purge exactly the confined `Local` paths are removed, without it none; exactly the confined `Remote` and `Outdated` paths are fetched, from the normalised URL followed by the path; the others are refused; `Uptodate` does nothing |
| `Executor.UptodateNeedsNothing` | dumbsync/src/lib.rs:46 | a classification that is all `Uptodate` plans no action for any path |
| `Executor.RegeneratedTreeNeedsNothing` | dumbsync/src/lib.rs:143-146 | syncing a tree holding the listed files against the manifest built without the manifest file succeeds and plans no action, even after the manifest write |
| `Executor.StaleManifestRefetched` | dumbsync/src/lib.rs:53-63 | as written, `process_item` on a client holding the whole regenerated tree fetches `.dumbsync` again, from the normalised URL into `target/.dumbsync` |

## Findings

| source | as written | input that shows it | evidently intended | confidence | as-written member | corrected member |
|---|---|---|---|---|---|---|
| dumbsync/src/lib.rs:156-175 | `generate` walks its whole directory, so the manifest lists the `.dumbsync` of the previous run with that file's digest, then overwrites the file | a directory already holding a `.dumbsync`, regenerated: the new manifest lists the old manifest's digest, the served `.dumbsync` has a different one, so a client holding the tree sees it `Outdated` and fetches it on every sync | skip the output file in the walk, so that a synced tree converges to all `Uptodate` | medium, not executed | `Reconciliation.StaleManifestEntryIsOutdated` (with `Executor.StaleManifestRefetched`) | `Reconciliation.RegeneratedTreeIsUptodate` (over `Manifest.WithoutManifest`, with `Executor.RegeneratedTreeNeedsNothing`) |
| dumbsync/src/lib.rs:56-62 | the output file is `target.join(path)` for whatever path the manifest names; `PathBuf::join` replaces `target` with an absolute path and keeps `..` components | manifest line `<digest> /etc/x` or `<digest> ../../etc/x` with target `/srv/mirror`: the file written is `/etc/x` or `/srv/mirror/../../etc/x` | act only on relative paths without `..` components and report the others | medium, not executed | `Executor.ManifestPathEscapesAsWritten` (over `Executor.ProcessItemAsWritten`) | `Executor.ProcessItemDecides` (over `Executor.ProcessItem`, used by `Executor.Download`) |
| dumbsync/src/lib.rs:50 | the purge calls `fs::remove_file(path)` on the path relative to the root, so it deletes relative to the process's working directory | target `/srv/mirror`, local-only file `a.txt`, `--purge`: removes `./a.txt` instead of `/srv/mirror/a.txt` | remove `target.join(path)`, the file the download branch (line 57) would write | high, not executed | `Executor.PurgeAsWrittenMissesTarget` (over `Executor.ProcessItemAsWritten`) | `Executor.ProcessItemDecides` (over `Executor.ProcessItem`, used by `Executor.Download`) |

## Left out

- BLAKE3 hashing and buffered reading in `hash_file` (lines 25-30): a foreign library and file I/O; the digest is the parameter `digest`.
- The HTTP requests of `download_file` and of the manifest fetch (lines 32-36, 100-101): network I/O; the manifest body is the parameter `fetch`, file downloads are described by the `Fetch` action.
- Directory walking and `diff_paths` (lines 81-97, 156-168), including walk errors and the fallback to the absolute path: filesystem enumeration; the walked files are an input sequence.
- `Url::parse` and its failure (lines 79, 141), and `Url::join` beyond the merge of a plain relative path: percent-encoding, `..` segments, queries and paths that parse as absolute URLs are not modelled.
- `ResolveRelative` applies the merge of section 5.2.3 of RFC 3986 to the whole URL string rather than to its parsed path, so a base with no path after the host (`https://host`, whose parsed path is `/`) is outside the model; the program only joins against bases ending in `/`, where this makes no difference.
- `str::lines` stripping a `\r` before a line feed: lines are split on `\n` only.
- `generate` checking `is_file()` and hashing the relative path (lines 169-170), which depends on the working directory, and writing the manifest file (line 175): filesystem behaviour; `Generate` returns the text it would write rather than the file path.
- The parallel `par_iter` and the `expect` panic of `download` (lines 143-146), the failures of `create_dir_all`, `File::create` and `remove_file`, and the `println!` logging: concurrency and I/O; `Download` returns the action chosen for each path.
- `PathBuf` equality by components, Windows prefixes, and `Path::parent` on paths with trailing or repeated separators: paths are compared and split as plain strings, so `Parent` of `a/b/` is `a/b` where `Path::parent` gives `a`.
- `Confined` is a lexical check: symbolic links inside `target` that lead out of it are not modelled.
- `dumbsync-cli/src/main.rs`: argument parsing and `unwrap` wiring, no logic of its own.
