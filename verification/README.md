# pkg producer — a Dafny model

This project models the core of pkg's `lib/producer.js`. That file turns a baseline Node.js binary and a list of *stripes* (files or buffers to embed) into one executable. It does this in three steps:

1. It streams the baseline binary, then every stripe's bytes (the *payload*), then a *prelude*. The prelude is a JavaScript template into which the virtual filesystem index, the entry point and the symbolic links are substituted.
2. While streaming, it keeps the index `vfs[snap][store] = [offset, length]`, where offsets are relative to the payload start.
3. It then patches five marker regions of the baseline inside the output: the bakery table of node options, and the payload and prelude positions and sizes.

Native addons (`.node` files) may first be swapped for a platform-specific build. That build is fetched by an external tool and cached next to the addon.

Everything is pure Dafny over immutable values:

- Bytes are `seq<byte>`.
- The filesystem is a `map<string, Bytes>`.
- Each stream is a sequence concatenation.
- The `Multistream` factory callback is an explicit step function over a record of its closure variables.

Modules, in dependency order:

| file | module | what it holds |
|---|---|---|
| common.dfy | `Common` | bytes, `Option`, `Either`, the error kinds, `Result`, literal-to-bytes, `repeat` |
| search.dfy | `Search` | `Buffer.indexOf` / `String.indexOf` (first occurrence) |
| decimal.dfy | `Decimal` | `Number.prototype.toString` for non-negative integers, and its inverse |
| placeholders.dfy | `Placeholders` | locating the five markers and patching them in place |
| encoders.dfy | `Encoders` | the bakery table, first-occurrence substitution, the prelude wrapper |
| resolver.dfy | `Resolver` | `nativePrebuildInstall`: version tag, cache name, backup / fetch / restore |
| assembler.dfy | `Assembler` | stripe dispatch, the segment state machine, the vfs index and its reference definition |
| producer.dfy | `Producer` | `producer` end to end, with the layout and patch theorems |

Collaborators that the producer calls but does not define are fields of `Assembler.Env` and carry no properties:

- `snapshotify`, `isDotNODE`, `STORE_BLOB`, `STORE_CONTENT`;
- `fabricateTwice`;
- the three `JSON.stringify` calls;
- `findPackageJson`;
- the `prebuild-install` run.

The state machine and its reference are related in one place. `Assembler.RunStripes` proves that running the factory callback from the stripe phase equals the reference: `DispatchAll` dispatches the stripes one by one, `Payload` concatenates their bytes, and `Index` folds the counted pieces into the ledger. The layout, vfs and patch theorems in `Producer` are all stated against that reference.

Where the documented design and the code differ, the model follows the code:

- **Malformed version tag.** The resolver throws (lib/producer.js:142-144), but the dispatcher catches the throw (lib/producer.js:288-290). The original addon is then streamed; the build is not aborted.
- **Missing marker.** It is reported only when patching (lib/producer.js:26), after the whole output has been streamed.
- **Skipped stripes.** A stripe the fabricator rejects still gets its empty inner map in the index (lib/producer.js:186).
- **Oversized value.** It fails with the `RangeError` of `repeat` with a negative count (lib/producer.js:29), not with an explicit check. Nothing is ever truncated.
- **Stripe clone.** The stripe copy is a shallow clone (lib/producer.js:242), so an input stripe that already carries `skip` keeps it. Such a stripe is streamed but never recorded. `Producer.PreSkippedMisplacesPrelude` shows that PRELUDE_POSITION then falls short of the prelude. The placement theorems therefore assume `Fresh` stripes, meaning none is marked skipped.

## Model

| member | source | states |
|---|---|---|
| Search.IndexOf | lib/producer.js:19-20 | `indexOf` answers the least position where the pattern occurs, and "none" exactly when it occurs nowhere |
| Decimal.ValueOfText | lib/producer.js:27 | the decimal numeral written for a number reads back as that number |
| Decimal.TextFits | lib/producer.js:27-29 | a numeral fits in `k` characters exactly when the number is below 10^k |
| Placeholders.PatternSizes | lib/producer.js:34-54 | the marker capacities are 201 bytes for the bakery and 22, 18, 22, 18 for the four numbers |
| Placeholders.Discover | lib/producer.js:17-22 | a found marker is the first occurrence of its pattern, holds the pattern at its position and has the pattern's length as size; not found means the pattern occurs nowhere |
| Placeholders.DiscoverAll | lib/producer.js:34-54 | each of the five markers is located with its own pattern and padder, and lies inside the binary |
| Placeholders.WriteAt | lib/producer.js:31 | a positional write puts the data at the position, keeps every other byte, and extends the file with zeros past its end |
| Placeholders.Padded | lib/producer.js:29-30 | the patch is the value followed by padder bytes, exactly the marker's size long |
| Placeholders.Inject | lib/producer.js:24-32 | one patch succeeds exactly when the marker was found, the value fits and the write succeeds; otherwise it fails with an assertion, a range error or an I/O error and changes nothing; on success the window holds the padded value and no other byte changes |
| Placeholders.InjectSeq | lib/producer.js:56-90 | a chain of patches never shortens the file, and an empty chain never fails |
| Placeholders.InjectAll | lib/producer.js:56-90 | `injectPlaceholders` never shortens the file, and when it fails some one of the five writes would fail on its own |
| Placeholders.InjectSeqSucceeds | lib/producer.js:56-90 | a chain of patches succeeds exactly when every write in it would succeed on its own |
| Placeholders.InjectSeqStopsAtFirstError | lib/producer.js:56-90 | the first failing write ends the chain with its error, and the file holds only the earlier writes |
| Placeholders.InjectSeqKeepsSuffix | lib/producer.js:56-90 | patching windows inside the first `n` bytes keeps the length and every byte from `n` on, whatever the outcome |
| Placeholders.InjectSeqLength | lib/producer.js:56-90 | patching windows inside the file keeps its length |
| Placeholders.InjectSeqOutside | lib/producer.js:56-90 | a byte outside every window of the chain is unchanged |
| Placeholders.FirstWindowSurvives | lib/producer.js:56-90 | the first write's window survives later writes to disjoint windows |
| Placeholders.InjectSeqWindows | lib/producer.js:56-90 | with pairwise disjoint windows, every window of a successful chain holds its own padded value |
| Placeholders.PatchOrderCovers | lib/producer.js:56-90 | the chain patches each of the five markers exactly once |
| Placeholders.InjectAllSucceeds | lib/producer.js:56-90 | `injectPlaceholders` succeeds exactly when each of the five writes would succeed |
| Placeholders.InjectAllWindows | lib/producer.js:56-90 | with non-overlapping markers and every write able to succeed, `injectPlaceholders` succeeds and leaves every value, padded, in its marker |
| Placeholders.InjectAllOutside | lib/producer.js:56-90 | `injectPlaceholders` changes no byte outside the five marker windows |
| Encoders.BakeryValue | lib/producer.js:92-102 | no bakes give an empty table; otherwise its length is the sum of the name lengths plus one per name plus one, it ends in a NUL, and each name sits, followed by a NUL, at the offset where the earlier names and their terminators end |
| Encoders.ReadTerminated | lib/producer.js:92-102 | reading NUL-terminated names back from the table recovers the list |
| Encoders.BakeryRoundTrip | lib/producer.js:92-102 | a table padded with NULs to any capacity reads back as the list of names (names non-empty and NUL-free) |
| Encoders.ReplaceFirst | lib/producer.js:104-106 | without the token the text is returned unchanged; otherwise only its first occurrence is replaced, verbatim, and the text before and after is kept |
| Encoders.ReplaceFirstUndo | lib/producer.js:104-106 | putting the token back where the replacement went restores the original text |
| Encoders.ReplaceFirstKeepsLater | lib/producer.js:104-106 | later occurrences of the token survive, shifted by the change in length |
| Encoders.FillPreludeInOrder | lib/producer.js:307-319 | when each token's first occurrence is where the template puts it, the file system, entry point and links land in the three token slots, in that order |
| Encoders.FillPrelude | lib/producer.js:307-319 | a template holding none of the three tokens is used as it is; the result is at most the template plus the three values long, and at least the template minus the three tokens |
| Encoders.WrapPrelude | lib/producer.js:108-112 | the prelude buffer is the fixed function header, the text, then a newline and `})` |
| Encoders.UnwrapWrap | lib/producer.js:108-112 | the text is recovered from the wrapped buffer |
| Resolver.AfterLastSlash | lib/producer.js:141 | the part after the last slash is the longest slash-free suffix of the path; it is empty when the path ends in a slash |
| Resolver.Basename | lib/producer.js:141 | `path.basename` drops trailing slashes first, so its result is slash-free and no longer than the path |
| Resolver.BasenameOfPath | lib/producer.js:141 | the basename of `dir/name` and of `dir/name/` is `name`, for any non-empty slash-free name |
| Resolver.VersionField | lib/producer.js:141 | the second `-` field of the basename, when there is one, holds neither a dash nor a slash |
| Resolver.VersionOfPath | lib/producer.js:141 | a binary named `a-v-rest` (fields free of dashes and slashes) in any directory yields `v` as its version field |
| Resolver.CacheName | lib/producer.js:151 | the cache name starts with the addon path and is two separator dots longer than the addon path, platform and version together |
| Resolver.CacheNameInjective | lib/producer.js:151 | for one addon, dot-free platforms never share a cache name: the name determines the platform and the version |
| Resolver.ToolPlatform | lib/producer.js:128-132 | macos becomes `darwin`, win becomes `win32` and linux stays `linux`; every other key interpolates as `undefined` |
| Resolver.ToolPlatformDistinct | lib/producer.js:128-132 | two keys that map to the same defined tool platform are the same key |
| Resolver.Split | lib/producer.js:141 | `split` yields at least one field and no field contains the separator |
| Resolver.JoinSplit | lib/producer.js:141 | joining the fields of a split restores the string |
| Resolver.SplitJoin | lib/producer.js:141 | splitting the join of separator-free fields restores the fields |
| Resolver.VersionTagShape | lib/producer.js:142 | an accepted tag is `v` followed by three dot-separated digit runs |
| Resolver.VersionTagAccepts | lib/producer.js:142 | every `v` plus three dot-separated digit runs is accepted |
| Resolver.Fetch | lib/producer.js:155-166 | a fetch succeeds exactly when the addon or its backup exists and the tool installs a build; it then answers the cache name and leaves that file on disk |
| Resolver.Resolve | lib/producer.js:134-167 | a successful resolution names a file that exists |
| Resolver.FetchFailureOnlyBacksUp | lib/producer.js:155-165 | on a failed fetch only the addon and its backup can differ: an existing backup is kept, a new one holds the addon's original bytes, no other file appears or changes, and the addon holds its original bytes or what the failed tool run left in it |
| Resolver.CrashLeavesAddon | lib/producer.js:155-165 | a tool run that fails after overwriting the addon is not undone: the error is reported, the addon keeps the bytes the run left behind, and the backup holds the original bytes |
| Resolver.FetchSuccess | lib/producer.js:155-166 | a successful fetch stores the tool's output under the cache name and restores the addon from the backup |
| Resolver.ResultIsCacheName | lib/producer.js:141-154 | a successful resolution had a valid tag and answers `nodeFile.platform.version` |
| Resolver.FailureOnlyBacksUp | lib/producer.js:134-167 | on a failed resolution only the addon and its backup can differ, as for a failed fetch; the addon holds its original bytes unless the tool was reached and failed after writing to it |
| Resolver.MalformedTagThrows | lib/producer.js:141-145 | a missing or malformed version field throws the "Couldn't find node version" error and touches nothing |
| Resolver.CacheMissFetches | lib/producer.js:139-166 | on a cache miss with a project directory and a valid tag, the resolution succeeds exactly when the addon or its backup exists and the tool installs a build, and then answers the cache name |
| Resolver.CacheHitChangesNothing | lib/producer.js:139-154 | with a project directory and a valid version tag, an existing cache file `nodeFile.platform.version` is the answer, and the disk is left as it was |
| Resolver.NamesDistinct | lib/producer.js:151-156 | the cache name, the backup name and the addon name are pairwise different |
| Resolver.FreshFetchRestoresAddon | lib/producer.js:155-166 | with no stale backup, a fresh fetch leaves the addon with its original bytes, the backup holding them too, and the tool's output under the cache name; nothing else changes |
| Resolver.RestoredMap | lib/producer.js:155-166 | the backup, fetch and restore sequence adds exactly the backup and cache files and leaves the addon with its original bytes |
| Resolver.CacheIgnoresArch | lib/producer.js:151-154 | the arch is not part of the cache name: once a build was obtained, a target differing only in arch gets the same file back without the tool running and without touching the disk |
| Assembler.InitVfs | lib/producer.js:182-187 | the initial index has an empty inner map for exactly the normalized stripe paths |
| Assembler.SnapLinks | lib/producer.js:189-194 | every link in the table points at the normalized target of some entry |
| Assembler.SnapLinksKeys | lib/producer.js:189-194 | the link table's keys are exactly the normalized link sources |
| Assembler.SnapLinksLastWins | lib/producer.js:189-194 | a source maps to the normalized target of the last entry with that normalized source |
| Assembler.Dispatch | lib/producer.js:245-298 | only a blob buffer can be skipped; a buffer stripe never aborts and leaves the disk alone |
| Assembler.Record | lib/producer.js:230-236 | recording fails exactly when the path has no inner map; otherwise the path and store hold the range from the old offset with the given length, every other path and store keeps its entry or its absence, the paths are kept and the offset advances by the length |
| Assembler.ReadStripeFile | lib/producer.js:279-295 | a file stripe is never skipped and fails only with an I/O error; a file that is not a native addon streams exactly its bytes, leaving the disk alone, and fails exactly when it is missing |
| Assembler.Step | lib/producer.js:219-327 | every emitted segment lowers the count of segments to come by one, keeps the index's paths and never moves the offset back; the factory ends exactly when the count reaches three |
| Assembler.Run | lib/producer.js:219-327 | a finished stream extends what was written before, ends with the count at least three and keeps the index's paths |
| Assembler.DispatchAll | lib/producer.js:238-298 | a successful dispatch yields one piece per stripe |
| Assembler.RunStripes | lib/producer.js:229-324 | from the stripe phase the state machine fails exactly when a dispatch aborts, and otherwise appends the pieces' bytes and the prelude, leaves the index at the reference fold and sets PAYLOAD_SIZE, PRELUDE_POSITION and the prelude meter from it |
| Assembler.DispatchBuffer | lib/producer.js:264-265 | a non-blob buffer is streamed unchanged |
| Assembler.DispatchBlob | lib/producer.js:245-262 | a blob buffer streams the fabricator's output, and is skipped exactly when the fabricator fails |
| Assembler.DispatchRejectsOutput | lib/producer.js:268-276 | a file stripe naming the output aborts the build with the "Trying to take executable into executable" report |
| Assembler.DispatchBadStripe | lib/producer.js:245-298 | a stripe with neither a buffer nor a non-empty file is the "producer: bad stripe" assertion failure |
| Assembler.DispatchPlainFile | lib/producer.js:278-295 | an ordinary content file streams its bytes, or fails with an I/O error when it is missing |
| Assembler.DispatchWrongStore | lib/producer.js:278 | a file stripe whose store is not the content store is an assertion failure |
| Assembler.DispatchNativeFallback | lib/producer.js:279-295 | when the platform build cannot be obtained, the error is swallowed and the addon file is streamed as it is on disk afterwards: its original bytes unless the tool failed after writing to it; no file other than the addon and its backup changes |
| Assembler.DispatchStreamsCrashLeftovers | lib/producer.js:158-165 | when the tool fails after overwriting the addon, the stripe streams the bytes it left behind, not the original addon |
| Assembler.DispatchNativeResolved | lib/producer.js:279-287 | when the platform build is obtained, its bytes are streamed instead of the addon |
| Assembler.DispatchAllPieces | lib/producer.js:238-265 | pieces follow stripes one for one with the same normalized path and store; a counted piece was not skipped on input, and one not skipped on input is counted unless it streamed nothing |
| Assembler.IndexTrack | lib/producer.js:230-236 | the running offset ends at the total counted length |
| Assembler.IndexKeys | lib/producer.js:230-236 | recording adds no path beyond the existing ones |
| Assembler.IndexUntouched | lib/producer.js:230-236 | an entry no counted piece writes keeps its initial state |
| Assembler.IndexLast | lib/producer.js:230-236 | an entry holds the range of the last counted piece with its path and store: the counted length before it, then its byte count |
| Assembler.IndexOnlyPieces | lib/producer.js:230-236 | every changed entry was written by some counted piece with that path and store |
| Assembler.CountedWithinPayload | lib/producer.js:230-236 | the counted length never exceeds the payload length |
| Assembler.AlignedCountsPayload | lib/producer.js:230-236 | when every piece with bytes is counted, the counted length is the payload length |
| Assembler.PayloadSlice | lib/producer.js:230-236 | when every piece with bytes is counted, a piece's recorded offset is where its bytes sit in the payload |
| Producer.Assemble | lib/producer.js:208-209 | a missing baseline fails with an I/O error, and every found marker lies inside the baseline |
| Producer.Settle | lib/producer.js:332-358 | on success the output file holds the patched bytes |
| Producer.Produce | lib/producer.js:169-361 | a successful build leaves the patched output on disk; a missing baseline fails the build with an I/O error |
| Producer.AssembleLayout | lib/producer.js:219-301 | the stream is baseline, then payload, then prelude; PAYLOAD_POSITION is the baseline length, PAYLOAD_SIZE the counted length, PRELUDE_POSITION their sum and PRELUDE_SIZE the prelude's length; a failing dispatch fails the build with its error |
| Producer.BaselineSegments | lib/producer.js:210-227 | the first two segments are the baseline and an empty one, PAYLOAD_POSITION is then the baseline's length, and the stripes start from the initial index with nothing tracked |
| Producer.RunFromStart | lib/producer.js:219-301 | run from the start, the stream fails with the first dispatch error, and otherwise emits baseline, payload and prelude with the positions and sizes of the reference index |
| Producer.AssembledPrefix | lib/producer.js:208-221 | the streamed output begins with the baseline, so every found marker lies inside it |
| Producer.PreludeWhereRecorded | lib/producer.js:299-301 | with fresh stripes, PRELUDE_POSITION is PAYLOAD_POSITION plus PAYLOAD_SIZE and is exactly where the prelude starts, and the prelude fills the rest of the output |
| Producer.PreSkippedMisplacesPrelude | lib/producer.js:229-243 | a stripe that arrives marked skipped still streams its bytes, so PRELUDE_POSITION falls short of the prelude |
| Producer.VfsLocatesContent | lib/producer.js:230-236 | with fresh stripes, the entry of the last stripe for a path and store points, from PAYLOAD_POSITION, at exactly that stripe's bytes |
| Producer.VfsPaths | lib/producer.js:182-187 | the index's paths are exactly the normalized paths of all stripes, skipped or not |
| Producer.VfsEntriesFromStripes | lib/producer.js:253-258 | every store entry was written by a counted stripe with that path and store, so a skipped stripe leaves no entry |
| Producer.LedgerEntriesFromStripes | lib/producer.js:253-258 | the same for the reference index built from the dispatched pieces |
| Producer.NumberFits | lib/producer.js:24-32 | a number fits its marker exactly when the marker was found and the number is below 10 to the marker's size |
| Producer.SettleSucceeds | lib/producer.js:332-358 | settling succeeds exactly when the write stream reports no error, the output opens and closes, and all five patches succeed |
| Producer.ProduceSucceeds | lib/producer.js:329-358 | the build succeeds exactly when assembly succeeds, the write stream reports no error, the output opens and closes, and all five patches succeed |
| Producer.PatchKeepsStream | lib/producer.js:336-358 | when the output opens and closes and all five writes succeed, the build succeeds, keeps the streamed length, and everything from the payload on is as streamed |
| Producer.PatchWritesValues | lib/producer.js:340-349 | with non-overlapping markers and all writes succeeding, the build succeeds and each value sits, padded, in its marker's window of the output |
| Producer.PatchOnlyWindows | lib/producer.js:340-357 | when the build succeeds, every byte outside the five marker windows is as streamed |

## Left out

- Streams are modelled as sequence concatenation, with `meter.bytes` taken as the length of the segment last piped through a meter. Back-pressure, chunking and event ordering are not modelled.
- I/O failures are inputs, not modelled behaviour. A missing file is an `Io` error, and `Faults` says which of the output's write stream, open, the five writes and close report an error. What is left on disk after a failed build is not modelled; `Produce` reports only the error.
- `execSync` of `prebuild-install` is an arbitrary function from its command line to an outcome: either it installed bytes in the addon file, or it failed, possibly after overwriting the addon file with some bytes. Other files the tool may write are not modelled. The outcome depends only on the command line and working directory, not on the disk, so two addons of one project are given the same outcome by one tool function.
- `findPackageJson` (lib/producer.js:114-126) is an uninterpreted lookup, `projectDir`. The directory walk is not modelled.
- `snapshotify`, `isDotNODE`, the store constants, `fabricateTwice` and `JSON.stringify` are uninterpreted, as are the key order and escaping of the JSON texts.
- `log.warn` and `log.debug` are left out, as is the `Buffer.alloc` runtime check (lib/producer.js:171-175).
- An exception thrown inside a callback is an error outcome of the build. Whether Node reports it as a rejection or as an uncaught exception is not distinguished.
- UTF-8 encoding of strings into buffers is left out. Literals are ASCII, and names, templates and JSON are byte sequences.
- `Number.prototype.toString` is modelled for non-negative integers only. Exponent notation from 1e21 up is not modelled. Offsets and sizes are byte counts, which the model takes to stay within JavaScript's safe-integer range (below 2^53, far below 1e21), so the numbers written into the markers never reach that notation.
- `path.basename` is the POSIX one. Windows separators are not modelled.
- `platform[...]` answers `"undefined"` for every key other than macos, win and linux. Prototype keys such as `constructor` are not modelled.
- The output path is compared with stripe files by string equality only, as in the code. Aliasing through links or relative paths is not modelled.
- Assembler.Dispatch: the message of the `assert.strictEqual` failure is not the one Node generates. The model only records that it is an assertion failure.
- The caller's stripe list and stripe objects are never mutated. This holds by construction, since every value is immutable, and is not stated as a lemma.
- `Assembler.Step` has an unreachable TypeError branch, for recording a path with no inner map. It is excluded by proof (`Flush(...).Some?` in `Assembler.RunStripes`) rather than by a separate lemma.
