# ReplayBug: a model of its core, with proofs

A Dafny 4.11 model of the parts of ReplayBug that carry state or rewrite what they are given, and proofs about
all inputs, all interleavings and all reachable states of that model.

- **Artifact store** (`ArtifactStore`, `PowerLoss`, `DirectoryLoss`, `LocalStorage`, `ByteStreams`, `StorageKeys`,
  `Paths`). Many clients put, get, test and delete on one file system, one call at a time, with partial writes, failing
  calls, processes that die and power that goes, taking along what was not synced of files and of directories.
  The store refines a map from keys to bytes whose only atomic points are rename and unlink. The same code as one
  caller runs it is a class whose file-system calls may fail or do less than asked; its life is a run of the store.
- **Source-map upload** (`UploadPlan`, `UploadServer`, `UploadProtocol`, `UploadCommand`, `ReleaseUploads`, `Scanner`,
  `ScanResult`, `MapReferences`). Interleaved runs of the command against a server that refuses a manifest with a path
  twice, canonicalizes every path once more and stores an artifact only if its path is free; one run alone, and again;
  the server's records beside its files; and the directory walk and asset association that feed it.
- **Event stream** (`EventStream`). The reconnecting stream as a state machine driven by any order of frames, errors,
  timers and `close`, and as the class of its closure variables.
- **Paths and texts** (`PercentDecoding`, `ArtifactPaths`, `SymlinkGuard`, `Utf8`, `Truncate`, `Slug`, `Json`,
  `Sanitize`). Canonical upload paths with bounded decoding, containment with and without symbolic links, truncation to
  UTF-8 bytes, slugs, and payload redaction.
- **Smaller cores** (`SenderPool`, `QueryKeys`, `Sorting`). The cooperative senders of the benchmark and the serialized
  query keys.

JavaScript strings are sequences of UTF-16 code units, lone surrogates included (`JsText`). `toLowerCase`, `toUpperCase`,
SHA-256, `JSON.parse` and the string redactor are parameters; where a result needs something of them, such as that
lower-casing leaves lower-case ASCII alone or that redacting is idempotent, it is a hypothesis.

`dafny verify dfyconfig.toml` checks the whole project.

## Where code and comments differ

The model follows the code.

- `truncateToBytes` says it looks for the largest boundary within the budget. It bisects a predicate that is not
  monotone and can miss it; `Truncate.LargestBoundaryKeptIff` gives the exact condition and `LargestBoundaryMissed` a
  case. It is to truncate to a number of bytes, and the appended ellipsis can take the result over it
  (`ExceedsBudgetIff`, `BudgetExceededExample`).
- `canonicalizeArtifactPath` decodes at most three rounds, so its results need not be fixed points, and
  `resolveArtifactUploadPath`, which canonicalizes again, can resolve another path than the one returned
  (`ArtifactPaths.CanonicalIsFixedIff`, `ResolvesToItselfIff`, `UnsettledExample`).
- Percent-encoded variants of `..` are to be refused, `%2e%2e/x` and `%252e%252e/x` among them. If `x` is malformed
  nothing is decoded and the path is judged as it stands, so `%2e%2e/%.map` is accepted
  (`ArtifactPaths.EscapedDotsAcceptedIff`, `EscapedDotsExample`).
- `assertNoSymlinkEscape` also rejects paths below a regular file, although no link is involved
  (`SymlinkGuard.GuardIsCompleteIff`, `FileInTheWay`).
- The scanner is never to upload what a link outside the root points to. It asks the guard about the canonical path of a
  file and uploads the file under its own path, so a link whose name decodes to another name is uploaded
  (`Scanner.EncodedLinkIsCollected`). Names that canonicalization leaves alone are safe; for every other name that
  the guard can accept there is a file system on which it is not (`Scanner.CandidateIsContained`,
  `SymlinkGuard.CheckedUnderOwnNameIff`).
- `resolveMapRelativeReference` is said to give null for absolute and escaping references. It takes an absolute one from
  the directory of its map, as if it were relative, and an escaping one from the root (`MapReferences.OutsideReferenceIs`,
  `RefusedIff`, `OutsideReferencesResolve`).
- `exists` and `delete` are to give false and `get` a not-found error when nothing is stored at a key. Below a key that is
  stored they throw, and where another key has its directory `delete` throws and `get` gives a stream that breaks
  (`ArtifactStore.ResponsesMatch`, `ResponsesAfterRun`, `KeyBelowKeyFails`, `KeyAboveKeyFails`); with canonical keys that
  cannot happen (`CanonicalKeysNeverFail`).
- A directory whose files have two names for one canonical path, as `a.map` and `%61.map`, can never be uploaded: the
  scan has the path twice and the server refuses the manifest (`Scanner.TwoNamesOnePath`,
  `ScanResult.TwoNamesRepeatAPath`, `UploadProtocol.RepeatedPathIsNeverUploaded`).
- Running again with unchanged files is to upload nothing. The server canonicalizes each path once more and answers
  under the result, while the planner looks for the path that was sent, so files whose paths that changes are uploaded in
  every run (`UploadCommand.RunTwice`, `UploadServer.SettledIff`).
- When stored content differs a run is to abort before it uploads anything. If the server's path for a file is not the
  one sent, the preflight shows no conflict; the upload is refused later, after others were made
  (`UploadCommand.TakenIsPlannedIff`, `UnseenConflict`, `RunSourcemapsUpload`).
- A run that returns normally is to have stored what it scanned. If the server's path for one file is the path sent for
  another, the client can take the verdict on the first for one on the second and leave that out
  (`UploadProtocol.AlwaysStoresAllIff`, `ShadowedExample`, `Scanner.ShadowingDirectory`).
- A failed insert is to leave neither files without records nor records without files. The file it deletes can be the
  one that another record names: paths of one release with equal bytes share a storage key
  (`ReleaseUploads.RecordsAlwaysHoldIff`).
- Filter states are to be cached independently. Two of them can share a cache key (`QueryKeys.SearchCollides`);
  `CollidesInTypeIff` and `IssuesCollideIff` say exactly when.

## Model

| member | source | states |
|---|---|---|
| ArtifactStore.StepKeepsInv | packages/artifacts/src/local-storage.ts:96-202 | Every file-system call, source item and failure of any client keeps the store in order: names and inodes match one to one, each running put owns its own temp file holding exactly what it has written, no file being written is read |
| ArtifactStore.StepRefines | packages/artifacts/src/local-storage.ts:96-202 | One step of the file system is one step, or none, of a plain map from keys to bytes; the only ones that change the map are a successful rename and an unlink |
| ArtifactStore.RunRefines | packages/artifacts/src/local-storage.ts:96-202 | Over every interleaving, with partial writes, failures and crashes, the files at valid keys are those of the map after the same puts and deletes |
| ArtifactStore.StoredFileIsOnePut | packages/artifacts/src/local-storage.ts:9-13 | In every reachable state the file at a key is the whole byte sequence of one put that reached its rename, the last operation on that key: never a prefix or a mixture |
| ArtifactStore.StoredFileMatchesKey | packages/artifacts/src/local-storage.ts:11-13 | If callers put content only under canonical keys carrying its digest, every stored file has the digest its key names, whoever renamed last |
| ArtifactStore.ResponsesMatch | packages/artifacts/src/local-storage.ts:155-201 | What exists, delete, get and put report, by what the map says at that moment; a call fails if and only if a stored key lies on the way to its own, or, for a delete, its own is a directory; a stream opened after a delete breaks, it does not turn into a not-found answer |
| ArtifactStore.StartsIff | packages/artifacts/src/local-storage.ts:96-169 | A put or a get goes on exactly if its first lookup gives neither an error nor not-found |
| ArtifactStore.MkdirSucceedsIff | packages/artifacts/src/local-storage.ts:102-102 | Making the directories of a key succeeds exactly if all of them are there afterwards |
| ArtifactStore.KeyBelowKeyFails | packages/artifacts/src/local-storage.ts:36-38 | After a put of `a`, asking for, deleting, getting and putting `a/b` all fail; ENOTDIR is not taken for missing |
| ArtifactStore.ResponsesAfterRun | packages/artifacts/src/local-storage.ts:155-201 | What delete and get report after any run, by what was done in it: the map that the puts and deletes leave and the directories that the puts have made |
| ArtifactStore.MadeIsAbovePut | packages/artifacts/src/local-storage.ts:102-102 | Where a put has made a directory, the key of the put lies below |
| ArtifactStore.KeyAboveKeyFails | packages/artifacts/src/local-storage.ts:155-201 | After a put of `a/b`, deleting `a` fails, and getting it gives a stream that breaks |
| ArtifactStore.CanonicalKeysNeverFail | packages/artifacts/src/local-storage.ts:155-201 | If only canonical keys are put, then in every reachable state no call on a canonical key fails because of another key |
| ArtifactStore.StreamDeliversSnapshot | packages/artifacts/src/local-storage.ts:155-169 | An opened stream delivers exactly the bytes its key had when it was opened, whatever is put, deleted or written meanwhile and in whatever pieces it is read |
| ArtifactStore.TempsBelongToRunningPuts | packages/artifacts/src/local-storage.ts:133-151 | Over every run in which removals succeed and no process dies, each temp file present belongs to a put still running: every put that ended renamed or removed its own |
| ArtifactStore.RenameTriedAtMostSixTimes | packages/artifacts/src/local-storage.ts:59-79 | In every interleaving a put calls rename at most six times |
| ArtifactStore.PutsEndAsTold | packages/artifacts/src/local-storage.ts:59-153 | In every interleaving a put removes its temp file, or has failed, only because opening, its source, a write or the sync failed, a rename failed for good, or six failed for now; after fewer it tries again; and it is stored exactly after a rename that succeeded |
| ArtifactStore.WriterOk | packages/artifacts/src/local-storage.ts:117-130 | A partial write moves bytes from the rest of the chunk to the file; nothing is lost or repeated |
| PowerLoss.StepKeepsInv | packages/artifacts/src/local-storage.ts:117-138 | With outages that cut files back to what was synced, every file but a temp file stays synced to its end, and so does a temp file once it is to be renamed |
| PowerLoss.RunRefines | packages/artifacts/src/local-storage.ts:96-202 | If directories are durable at once: over every run with outages at any moment the files at valid keys are those of the map after the same puts and deletes |
| PowerLoss.NoKeyHoldsACutFile | packages/artifacts/src/local-storage.ts:9-11 | If directories are durable at once: however often the power goes, the file at a key is the whole content of the last put on it, never cut off |
| PowerLoss.UnsyncedIsCut | packages/artifacts/src/local-storage.ts:131-131 | An outage can leave of any file no more than was synced |
| DirectoryLoss.KeyHoldsSomePut | packages/artifacts/src/local-storage.ts:131-138 | With directories that are never synced and fall back, each by itself, to anything they held since the last outage: a key holds the whole content of some put on it or nothing, in every state of every run |
| DirectoryLoss.StepKeepsInv | packages/artifacts/src/local-storage.ts:96-202 | Calls and such outages keep: every file that any past directory names under a key is synced to its end, written by nobody and some put's whole content, and a file is only ever named in one directory |
| DirectoryLoss.OutageMayKeepNames | packages/artifacts/src/local-storage.ts:131-138 | The outages of `PowerLoss`, which lose no name, are among these |
| ArtifactStore.SpecHoldsLastPut | packages/artifacts/src/types.ts:18-43 | The map holds for a key exactly the content of the last put on it, if nothing touched the key afterwards |
| LocalStorage.LocalArtifactStorage.Put | packages/artifacts/src/local-storage.ts:96-153 | One put from start to end: success stores the concatenation of all chunks and reports its digest and size; failure changes no file, unless removing the temp file fails too, and each error has its cause: directories not made, the temp file not opened, a source, write or sync that failed, renames given up; an invalid key touches nothing; all it does is a run of one new client of the store |
| LocalStorage.LocalArtifactStorage.PutVia | packages/artifacts/src/local-storage.ts:105-152 | From the temp file on, with cleanup on every exit: the content is stored, or no file has changed but the temp file, which is removed or counted as abandoned; and which error it is, by what failed |
| LocalStorage.LocalArtifactStorage.FileIsLastPut | packages/artifacts/src/local-storage.ts:9-13 | Whatever the object was asked to do, the file at a key is the whole content of the last put on it |
| LocalStorage.LocalArtifactStorage.WriteChunk | packages/artifacts/src/local-storage.ts:117-130 | However few bytes each write takes, the whole chunk is appended to the temp file and no other file changes |
| LocalStorage.LocalArtifactStorage.Fill | packages/artifacts/src/local-storage.ts:112-132 | Everything the source yields is hashed, counted and written to the temp file; or the put fails because the source, a write or the sync did |
| LocalStorage.LocalArtifactStorage.RenameWithRetry | packages/artifacts/src/local-storage.ts:59-79 | The file is moved whole or not at all; every call but the last failed for now; without success the last one failed for good, or it was the sixth |
| LocalStorage.LocalArtifactStorage.TempFileName | packages/artifacts/src/local-storage.ts:29-34 | The name differs from every name given out before, whatever the random parts |
| LocalStorage.LocalArtifactStorage.Exists | packages/artifacts/src/local-storage.ts:171-185 | Answers as the interleaved store does in the same state; true exactly if a file stands at the key; invalid keys are refused |
| LocalStorage.LocalArtifactStorage.Delete | packages/artifacts/src/local-storage.ts:187-201 | Is one delete of the interleaved store and answers as it does; removes the file of the key and nothing else |
| LocalStorage.LocalArtifactStorage.Get | packages/artifacts/src/local-storage.ts:155-169 | Fails, is absent or opens as the interleaved store does; a stream of exactly the stored bytes in pieces of any size, cut off and failing if and only if not all of them can be read; for a directory a stream that fails |
| LocalStorage.TempNamesDistinct | packages/artifacts/src/local-storage.ts:29-34 | Two puts of one process never share a temp name, whatever the random parts |
| LocalStorage.TempIsNoKey | packages/artifacts/src/local-storage.ts:103-103 | No temp file lies where a valid key does |
| LocalStorage.PutThenRead | packages/artifacts/src/load.ts:25-55 | What was put is what a capped read returns, if and only if all of it can be read and the reported size fits under the cap |
| ByteStreams.HashStream | packages/artifacts/src/hash.ts:33-44 | Digest and size of the concatenation, independent of the chunking; the same values a put reports |
| ByteStreams.ReadArtifactToBuffer | packages/artifacts/src/load.ts:25-55 | Under any chunking: all bytes if they fit under the cap, otherwise a too-large error; never more than the cap is kept |
| StorageKeys.ParseBuild | packages/artifacts/src/storage-keys.ts:67-123 | A key can be built exactly from two UUIDs and a hash, is then valid, and parses back to them |
| StorageKeys.IsKeyIff | packages/artifacts/src/storage-keys.ts:35-66 | Exactly which texts are keys: 1 to 1024 units, 1 to 8 segments of 1 to 128 letters, digits, underscores and hyphens, the first a letter or digit |
| StorageKeys.IsUuidIff | packages/artifacts/src/storage-keys.ts:22-23 | A UUID is five groups of 8, 4, 4, 4 and 12 hexadecimal digits in either case, with hyphens between |
| StorageKeys.BuildParse | packages/artifacts/src/storage-keys.ts:67-123 | Building undoes parsing |
| StorageKeys.CanonicalKeysArePrefixFree | packages/artifacts/src/storage-keys.ts:67-88 | No canonical key is a proper prefix of another, as text or as a path |
| StorageKeys.ResolvedKey | packages/artifacts/src/storage-keys.ts:131-144 | Below any root a valid key resolves to the root followed by exactly its segments; the escape test never fires |
| StorageKeys.ResolveInjective | packages/artifacts/src/storage-keys.ts:131-144 | Distinct valid keys have distinct locations |
| Paths.ResolveAppends | packages/artifacts/src/storage-keys.ts:133-133 | POSIX path.resolve of ordinary segments below any root, relative or absolute, appends exactly those segments |
| Paths.ResolveRelative | packages/artifacts/src/storage-keys.ts:131-133 | A root that is not absolute is taken from the working directory, an absolute one is not |
| Paths.ResolveDots | packages/artifacts/src/storage-keys.ts:133-133 | `..` is the directory above and stays at the root, `.` and the empty text are the directory itself |
| Paths.EscapesIff | packages/artifacts/src/storage-keys.ts:134-142 | The three-way test on path.relative is exactly 'not below the root' |
| PercentDecoding.DecodePercentEncodings | packages/artifacts/src/artifact-paths.ts:83-100 | The loop with its early returns is three rounds of decoding |
| PercentDecoding.DecodesIff | packages/artifacts/src/artifact-paths.ts:89-91 | decodeURIComponent decodes exactly the texts that an encoder can write, to what they were written for: any characters, and all percent signs, as the UTF-8 octets in hexadecimal, each digit in either case |
| PercentDecoding.DecodeUndoesEscaping | packages/artifacts/src/artifact-paths.ts:89-91 | Whatever is escaped in this way, with digits from a table, is given back |
| PercentDecoding.DecodeShortens | packages/artifacts/src/artifact-paths.ts:90-94 | decodeURIComponent leaves text without a percent sign alone and strictly shortens all other text it accepts |
| PercentDecoding.RoundsReachFixpoint | packages/artifacts/src/artifact-paths.ts:76-100 | Rounds reach the fixed point of decoding exactly for the texts that have come to rest |
| PercentDecoding.SlashedAtRest | packages/artifacts/src/artifact-paths.ts:131-131 | Replacing backslashes never changes whether decoding has come to rest |
| ArtifactPaths.CanonicalizeArtifactPath | packages/artifacts/src/artifact-paths.ts:110-170 | The method with its checks in order and its optional containment proof computes the specified verdict |
| ArtifactPaths.CollectSegments | packages/artifacts/src/artifact-paths.ts:142-161 | The segment loop stops at the first objection and otherwise collects every segment |
| ArtifactPaths.AcceptedIff | packages/artifacts/src/artifact-paths.ts:110-170 | Accepted are exactly the non-empty inputs without control characters that decode to a safe relative path |
| ArtifactPaths.AcceptedIsSafe | packages/artifacts/src/artifact-paths.ts:110-170 | The result is the decoded input with POSIX separators: no empty, dot or reserved segment, no backslash, drive, control character or over-length |
| ArtifactPaths.DeviceNamesAreRefused | packages/artifacts/src/artifact-paths.ts:26-63 | A path that decodes to one with a device name in it, in any case and with any extension, is refused |
| ArtifactPaths.DeviceNameIff | packages/artifacts/src/artifact-paths.ts:32-56 | The reserved segments are exactly those whose part before the first dot spells one of the 22 names, in any case |
| ArtifactPaths.EscapedDotsAcceptedIff | packages/artifacts/src/artifact-paths.ts:76-100 | `%2e%2e/x`, in capitals or not, is refused for every `x` that decodes; if `x` does not, nothing is decoded and the path is accepted whenever it is safe as it stands |
| ArtifactPaths.TwiceEscapedDotsAcceptedIff | packages/artifacts/src/artifact-paths.ts:76-100 | The same for `%252e%252e/x`, with one round more |
| ArtifactPaths.EscapedDotsExample | packages/artifacts/src/artifact-paths.ts:76-82 | `%2e%2e/%.map` is accepted, undecoded |
| ArtifactPaths.FixedPointIff | packages/artifacts/src/artifact-paths.ts:110-170 | The fixed points are exactly the safe paths that no decoding round changes |
| ArtifactPaths.CanonicalIsFixedIff | packages/artifacts/src/artifact-paths.ts:83-170 | An accepted result is accepted again unchanged if and only if decoding came to rest within three rounds; otherwise a second call rejects or shortens it |
| ArtifactPaths.UnsettledExample | packages/artifacts/src/artifact-paths.ts:83-100 | %25252561.map becomes %61.map, which becomes a.map on a second call |
| ArtifactPaths.ThreeLayers | packages/artifacts/src/artifact-paths.ts:83-100 | A percent sign encoded three times over outlasts the three rounds, whatever follows it |
| ArtifactPaths.SixLayers | packages/artifacts/src/artifact-paths.ts:83-100 | A name encoded seven times over is canonicalized to the same name encoded four times, and so to a path that is no fixed point either |
| ArtifactPaths.FullDecodingIsIdempotent | packages/artifacts/src/artifact-paths.ts:76-100 | Decoding to the fixed point instead would make canonicalization idempotent on every input, and agrees with it wherever decoding settles |
| ArtifactPaths.ResolvedUpload | packages/artifacts/src/artifact-paths.ts:179-200 | Resolving appends exactly the segments of the re-canonicalized path; the escape test never fires |
| ArtifactPaths.ResolvesToItselfIff | packages/artifacts/src/artifact-paths.ts:186-200 | A canonical path resolves to its own segments exactly if its decoding had settled |
| ArtifactPaths.UploadLocationsInjective | packages/artifacts/src/artifact-paths.ts:179-200 | Settled canonical paths that resolve to the same absolute path are the same path |
| SymlinkGuard.AssertNoSymlinkEscape | packages/artifacts/src/artifact-paths.ts:213-259 | The level-by-level walk computes the specified verdict |
| SymlinkGuard.GuardIsSound | packages/artifacts/src/artifact-paths.ts:202-259 | If the guard returns on any static file system with links, every level of the path that exists has a real path, and it lies inside the real root; if the root has no real path, no level can be looked up |
| SymlinkGuard.GuardAcceptsIff | packages/artifacts/src/artifact-paths.ts:203-256 | On every file system with links: a safe path is accepted if and only if its levels exist inside the real root, through links or not, down to the last or to the first that is missing; it is an escape exactly if the first other level exists outside |
| SymlinkGuard.MissingBelow | packages/artifacts/src/artifact-paths.ts:235-239 | What is missing stays missing further down, links or not, so stopping at the first missing level loses nothing |
| SymlinkGuard.GuardIsCompleteIff | packages/artifacts/src/artifact-paths.ts:231-258 | On a readable tree without links a canonicalizable path is accepted if and only if no regular file stands at the root or above its last level; otherwise it is refused as unprovable |
| SymlinkGuard.FileInTheWay | packages/artifacts/src/artifact-paths.ts:235-241 | With `/r/d` a file, the path `d/x` below `/r` is refused although no link is involved |
| SymlinkGuard.CheckedUnderOwnNameIff | packages/cli/src/scanner.ts:258-283 | A file checked under its canonical path and used under its own is inside the root on every file system that the guard accepts, if and only if canonicalization leaves its path alone (or refuses the result) |
| SymlinkGuard.EncodedLinkEscapes | packages/cli/src/scanner.ts:265-268 | With `/r/%61.map` a link to a file outside `/r`, the guard accepts `a.map` |
| UploadPlan.PlanUploads | packages/cli/src/commands.ts:128-148 | The map and the three lists built in loops: each artifact goes by the last verdict for its path, default upload, in scan order |
| UploadPlan.PlanIsPartition | packages/cli/src/commands.ts:122-148 | Every scanned artifact is in exactly one list, as often as it was scanned |
| UploadPlan.WellPlannedIffConsistent | packages/cli/src/commands.ts:128-148 | Given any one result for each artifact, the planner follows all of them if and only if equal paths have equal verdicts |
| UploadPlan.InconsistentResultsMisplan | packages/cli/src/commands.ts:132-135 | Of two results for one path, both artifacts go by the second |
| UploadPlan.LastResultDecides | packages/cli/src/commands.ts:128-148 | The last result for a path decides whatever the results are; without one the artifact is uploaded |
| UploadServer.CheckArtifactPreflight | apps/api/src/services/artifacts.ts:199-245 | The loops of the preflight: a manifest is refused if a path is not canonicalizable or two entries have one canonical path, and otherwise each entry is answered under its canonical path |
| UploadServer.RepeatsAreRefused | apps/api/src/services/artifacts.ts:224-232 | A manifest with a path twice is refused |
| UploadServer.FoundVerdict | packages/cli/src/commands.ts:132-138 | The verdict a client finds under a path is the server's on the one entry whose canonical path that is, and upload if there is none |
| UploadServer.VerdictUnshadowed | apps/api/src/services/artifacts.ts:282-328 | If no other entry's canonical path is the path of an entry, the client goes by the verdict on that entry, or uploads it if canonicalization changes its path |
| UploadServer.SettledIff | apps/api/src/services/artifacts.ts:282-328 | The server leaves a scanned path alone if and only if its decoding came to rest in the client's three rounds |
| UploadProtocol.StoredNeverChanges | packages/api-client/src/schema.d.ts:3491-3491 | Over every run of every client, with lost answers, crashes and late requests, the hash stored for a path never changes |
| UploadProtocol.DoneMeansStored | packages/cli/src/commands.ts:161-243 | A client that returns normally has its release confirmed and scanned no path twice, and everything it scanned that no other entry shadows is stored under its scanned hash, at the path the server gives it, whatever others do |
| UploadProtocol.AlwaysStoresAllIff | packages/cli/src/commands.ts:161-243 | For every accepted manifest: in all runs a normal return means that everything scanned is stored, if and only if no entry's canonical path on the server is the path sent for another |
| UploadProtocol.ShadowedExample | packages/cli/src/commands.ts:128-148 | The manifest `%61.map`, `%25252561.map` is accepted, has no path twice, and is one for which a normal return can leave a file out |
| UploadProtocol.RepeatedPathIsNeverUploaded | apps/api/src/services/artifacts.ts:224-232 | A client that scanned a path twice never returns normally and sends no artifact in its whole run |
| UploadProtocol.RefusedSendsNothing | packages/cli/src/commands.ts:186-195 | A client whose manifest the server refuses sends no artifact in its whole run |
| UploadProtocol.StepKeepsInv | packages/cli/src/commands.ts:161-243 | Each step of each client keeps: past the preflight the manifest was accepted and what nothing shadows is stored or planned for upload, and what has been uploaded is stored |
| UploadProtocol.AbortedSentNothing | packages/cli/src/commands.ts:197-222 | A client that aborts on conflicts has sent no artifact in its whole run |
| UploadProtocol.FailureHasCause | packages/cli/src/commands.ts:161-243 | In every run a client aborts, or fails without a failed request, only if the server refuses its manifest or something it scanned meets other content in store |
| UploadProtocol.ConflictIsConfirmed | packages/cli/src/commands.ts:261-273 | Whoever has met a version conflict finds the release in the list, and goes on |
| UploadProtocol.StoredComesFrom | packages/db/src/schema.ts:414-417 | Nothing is ever in store that no client has sent |
| UploadCommand.RunSourcemapsUpload | packages/cli/src/commands.ts:161-243 | One run alone: it fails if and only if a request fails, the manifest is refused, or an artifact without a reported conflict is to go where other content is stored; success means that no path was scanned twice, that what was uploaded and what was present is all that was scanned, that everything no other entry shadows is stored, and that the release is reported as created exactly if it was new; a conflict or a refused manifest changes nothing; a failed request leaves a first part of the plan |
| UploadCommand.RunTwice | packages/cli/src/commands.ts:161-243 | After a success an unchanged run meets no conflict and succeeds unless a request fails; if nothing is shadowed it uploads exactly the artifacts whose paths the server changes, so none if and only if all are settled, and changes nothing |
| UploadCommand.PlanOfScan | packages/cli/src/commands.ts:128-148 | If nothing is shadowed, what is planned for each artifact, by whether its path is settled and what is stored there: the unsettled are uploaded whatever is stored |
| UploadCommand.NoConflictAgain | packages/cli/src/commands.ts:197-222 | A plan without conflicts, carried out, leaves none to be planned, whatever is shadowed |
| UploadCommand.TakenIsPlannedIff | packages/cli/src/commands.ts:197-222 | If nothing is shadowed, the plan uploads to a place that holds other content if and only if some path that the server changes leads to one |
| UploadCommand.UnseenConflict | packages/cli/src/commands.ts:216-221 | A file scanned as `%61.map` that differs from the stored `a.map` is such a case |
| UploadCommand.OnlyUnsettledAgain | packages/cli/src/commands.ts:128-148 | Once everything is stored, exactly the unsettled artifacts are planned for upload, in scan order |
| UploadCommand.CreateOrConfirmRelease | packages/cli/src/commands.ts:251-276 | Confirmed exactly if no request failed, after a version conflict too; reported as created exactly if the release did not exist before |
| ReleaseUploads.RecordsAlwaysHoldIff | apps/api/src/services/artifacts.ts:593-709 | Over every interleaving of uploads each record names a stored file of its content, if and only if no request can delete the file of another: with failing inserts, if no two share a key; without, if none of two sharing a key for different paths shares its path with a third of other content |
| ReleaseUploads.SafeIffContentsDiffer | packages/artifacts/src/storage-keys.ts:67-88 | With failing inserts that is, if and only if no two requests bring the same content to one release |
| ReleaseUploads.FailedInsertRun | apps/api/src/services/artifacts.ts:650-653 | Of any two requests with one key, one can delete the file that the other has recorded, when its insert fails |
| ReleaseUploads.LostRaceRun | apps/api/src/services/artifacts.ts:681-709 | Without any failure, a request that loses the race for its path can delete the file that another path's record names |
| ReleaseUploads.StepKeepsInv | apps/api/src/services/artifacts.ts:593-709 | For requests in that condition each step keeps: the file of a recorded request is stored, and one removing its file is no danger to a record |
| ReleaseUploads.RequestsAreAnswered | apps/api/src/services/artifacts.ts:609-660 | In every run a request that is answered well has its content recorded at its path, and one that is not has met a record of other content there, unless its file or its insert failed or its process died |
| ReleaseUploads.RecordsNeverChange | apps/api/src/services/artifacts.ts:54-56 | Over every run records stay as they are |
| ReleaseUploads.RequestsFollowCourse | apps/api/src/services/artifacts.ts:609-709 | Over every run a request looks, puts its file, inserts its record and, only after a failed insert or a race lost to other content, removes the file, in at most five steps |
| ReleaseUploads.FirstLookSettles | apps/api/src/services/artifacts.ts:609-615 | A record that is there at the first look settles the request, and nothing is put |
| EventStream.RunValid | apps/web/lib/realtime.ts:228-341 | In every reachable state an open stream has exactly one of a live source and a pending timer, every other source has been closed, a closed stream has neither, connected or degraded means no failures and a live source, and only well-formed updates of this project were delivered |
| EventStream.InitiallyConnecting | apps/web/lib/realtime.ts:233-257 | A new stream is connecting, with its first source and nothing else |
| EventStream.StaleIsIgnored | apps/web/lib/realtime.ts:262-297 | Events of superseded sources, of cleared timers and after close change nothing and deliver nothing |
| EventStream.ClosedSourcesStayClosed | apps/web/lib/realtime.ts:294-305 | A closed source never becomes current again |
| EventStream.ClosedForEver | apps/web/lib/realtime.ts:323-336 | After close nothing happens any more, whatever still arrives |
| EventStream.FailuresCountErrors | apps/web/lib/realtime.ts:266-306 | failures is the number of current-source errors since the last ready frame |
| EventStream.FrameDecides | apps/web/lib/realtime.ts:262-281 | In every state with a live source a frame whose status is `degraded` or `connected` gives that status and no failures, and any other frame changes neither |
| EventStream.StatusIsLastWord | apps/web/lib/realtime.ts:256-281 | In every reachable state the status is degraded or connected exactly as the last ready frame of the live source said since it was opened; without one it is connecting before the first error and reconnecting after |
| EventStream.UpdateIsDelivered | apps/web/lib/realtime.ts:278-281 | An update that the live source sends is delivered, if it is well formed and of this project |
| EventStream.DeliversUpdates | apps/web/lib/realtime.ts:278-281 | Over every run exactly the updates in frames of sources that were live are delivered, in order |
| EventStream.ReportsOnce | apps/web/lib/realtime.ts:239-242 | An event reports one status or, if it changes nothing, none |
| EventStream.DelaysInMs | apps/web/lib/realtime.ts:224-229 | The waits are 1, 2, 4, 8 and 16 seconds, and 30 from then on |
| EventStream.DelayIsCappedDoubling | apps/web/lib/realtime.ts:308-311 | The k-th retry waits min(1000 * 2^(k-1), 30000) ms; the cap of the exponent never matters |
| EventStream.DelaysNondecreasing | apps/web/lib/realtime.ts:306-316 | Until a ready frame arrives waits never get shorter |
| EventStream.ParsedIsWellFormed | apps/web/lib/realtime.ts:123-184 | Whatever passes the filter is well formed and of this project |
| EventStream.KnownTypes | apps/web/lib/realtime.ts:69-80 | The ten types of updates |
| EventStream.RenderedUpdateIsParsedIff | apps/web/lib/realtime.ts:123-184 | An update survives the wire unchanged if and only if it is well formed and of this project |
| EventStream.ProjectEventStream.constructor | apps/web/lib/realtime.ts:231-320 | The stream starts connecting, with its first source |
| EventStream.ProjectEventStream.HandleData | apps/web/lib/realtime.ts:262-281 | A frame acts as specified, delivers at most one update and never touches timer or source |
| EventStream.ProjectEventStream.HandleError | apps/web/lib/realtime.ts:294-317 | An error of the current source closes it, counts, reports and sets the timer as specified |
| EventStream.ProjectEventStream.HandleTimer | apps/web/lib/realtime.ts:313-316 | A timer opens the next source |
| EventStream.ProjectEventStream.Close | apps/web/lib/realtime.ts:323-336 | close is idempotent and leaves neither timer nor source |
| Truncate.TruncateToBytes | packages/db/src/sanitize.ts:214-232 | The input if it fits, otherwise its first k code points within the budget, without a leading byte order mark, and an ellipsis |
| Truncate.TruncateIdempotent | packages/db/src/sanitize.ts:214-232 | Truncating twice is truncating once, for every string and every budget, although the bisected predicate is not monotone |
| Truncate.SearchAgrees | packages/db/src/sanitize.ts:220-230 | A byte string that agrees up to the result and decodes nowhere after it takes the same decision at every midpoint |
| Truncate.LargestBoundaryKeptIff | packages/db/src/sanitize.ts:219-230 | The largest boundary within the budget is found if and only if no midpoint probed on the way falls inside a code point |
| Truncate.SearchDense | packages/db/src/sanitize.ts:219-230 | The whole budget is used when every position up to it is a boundary |
| Truncate.LargestBoundaryMissed | packages/db/src/sanitize.ts:219-230 | Three four-byte characters with a budget of ten bytes keep nothing although eight bytes fit |
| Truncate.TruncatedSize | packages/db/src/sanitize.ts:231-231 | A shortened result takes three bytes more than what was kept, minus a dropped byte order mark |
| Truncate.SearchEndsAtIff | packages/db/src/sanitize.ts:220-230 | The search ends at a position if and only if the midpoints tried up to it end a code point and the others do not |
| Truncate.ExceedsBudgetIff | packages/db/src/sanitize.ts:214-231 | The result takes more bytes than the budget if and only if the input did not fit and the budget is negative, or the probes lead into its last three bytes (or, after a byte order mark, it is below three) |
| Truncate.AsciiExceedsBudget | packages/db/src/sanitize.ts:219-231 | Every ASCII text that does not fit ends up three bytes over the budget |
| Truncate.BudgetExceededExample | packages/db/src/sanitize.ts:231-231 | `abcd` cut to 3 bytes takes 6 |
| Utf8.DecodePrefix | packages/db/src/sanitize.ts:223-229 | A prefix of an encoded string decodes exactly if it ends at a code point, and then to those code points |
| Utf8.DecodeEncode | packages/db/src/sanitize.ts:215-216 | Fatal UTF-8 decoding undoes encoding |
| Utf8.EncodeDecode | packages/db/src/sanitize.ts:225-225 | Whatever decodes is the shortest encoding of the result |
| Utf8.Examples | packages/db/src/sanitize.ts:215-216 | The examples of section 7 of RFC 3629 |
| Slug.NormalizeSlugValue | packages/contracts/src/slug.ts:37-57 | The single pass over code points equals trim, lower-case, separators to hyphens, drop the rest, collapse, strip, for any lower-casing |
| Slug.NormalizedIsSlug | packages/contracts/src/slug.ts:32-36 | Every result is empty or a slug: groups of lower-case letters and digits separated by single hyphens |
| Slug.SlugIsNormal | packages/contracts/src/slug.ts:32-36 | Every slug is its own normal form, so the image is exactly these |
| Slug.NormalizeIdempotent | packages/contracts/src/slug.ts:37-57 | Normalizing twice is normalizing once |
| Slug.WordsAreJoined | packages/contracts/src/slug.ts:11-57 | The result is the words of the trimmed and lower-cased text, its letters and digits between separators, joined by single hyphens |
| Slug.AsciiWords | packages/contracts/src/slug.ts:37-39 | Of ASCII text, the words in lower case |
| Slug.MyApp | packages/contracts/src/slug.ts:37-57 | `My App` becomes `my-app` |
| Slug.TrimRemoves | packages/contracts/src/slug.ts:11-38 | Trimming removes the white space at both ends, all of it and nothing else |
| Sanitize.BoundedDepth | packages/db/src/sanitize.ts:263-285 | However deep the input, the output nests at most eight levels |
| Sanitize.OutputIsRedacted | packages/db/src/sanitize.ts:257-285 | At every depth the mark stands under every sensitive key |
| Sanitize.CutMarkerIsNotSensitive | packages/db/src/sanitize.ts:160-190 | The key of the depth marker is not sensitive |
| Sanitize.IsSensitiveIff | packages/db/src/sanitize.ts:160-190 | A key is sensitive if and only if, lower-cased, it is one of the words or ends in one after an underscore |
| Sanitize.SensitiveWords | packages/db/src/sanitize.ts:162-188 | The words |
| Sanitize.SanitizedAt | packages/db/src/sanitize.ts:263-285 | Along any path without sensitive keys, down to the cut, the output holds the sanitized value of the same place of the input, and no other places |
| Sanitize.ShapeIsKept | packages/db/src/sanitize.ts:263-285 | Above the cut places, key sets, array lengths and other scalars are kept and strings redacted; below a sensitive key stands the mark, at the cut the marker object |
| Sanitize.SanitizeIdempotentIff | packages/db/src/sanitize.ts:263-285 | Sanitizing is idempotent on all values if and only if the string redactor is |
| Sanitize.SanitizeEventPayload | packages/db/src/sanitize.ts:291-325 | The method with its loops computes the sanitized value with the specified truncations |
| Sanitize.TruncatedFieldByField | packages/db/src/sanitize.ts:296-322 | Only the six named fields can change after sanitizing, each in its own way; no field is added or lost |
| Sanitize.ElementByElement | packages/db/src/sanitize.ts:306-316 | Each argument is shortened by itself if it is a string, and `values` are cut element by element |
| Sanitize.LegacyFramesAt | packages/db/src/sanitize.ts:318-322 | In the object of the older shape the `values` are cut, and nothing else changes |
| Sanitize.ShortenedMessageSize | packages/db/src/sanitize.ts:296-304 | A message takes at most three bytes more than the limit; one that fits is kept |
| Sanitize.EventPayloadIsRedacted | packages/db/src/sanitize.ts:287-325 | The truncations uncover nothing: every sensitive key of the outcome is redacted at every depth |
| Sanitize.TruncateFramesInValues | packages/db/src/sanitize.ts:238-255 | The loop cuts the frames of each element and leaves the rest |
| Sanitize.FramesAreBounded | packages/db/src/sanitize.ts:234-255 | A frame list is cut to its first hundred entries, anything else stays, and twice is once |
| Sanitize.FramesInValuesIdempotent | packages/db/src/sanitize.ts:238-255 | Cutting a whole list twice is cutting it once; no element is added or dropped |
| Scanner.Walker.Walk | packages/cli/src/scanner.ts:163-221 | The recursive walk terminates on every finite directory graph and gathers exactly what its specification says |
| Scanner.DirectoryListedOnce | packages/cli/src/scanner.ts:179-185 | Each real directory is read at most once, and none that was visited before |
| Scanner.EveryDirectoryListedOnce | packages/cli/src/scanner.ts:163-221 | On every finite graph, with aliases and cycles, every reachable real directory is read under exactly one of the paths that lead to it |
| Scanner.FileUnderOnePath | packages/cli/src/scanner.ts:163-221 | With aliases and cycles, every file and link in every reachable real directory is handled under exactly one path |
| Scanner.DirectoryWarns | packages/cli/src/scanner.ts:163-221 | On every finite graph the walk warns exactly of the directories it comes to and cannot resolve, of those it cannot read, and of the entries it skips, for the reason in `EntryWarnings` |
| Scanner.EntryWarnings | packages/cli/src/scanner.ts:228-273 | Why a file or link is skipped: inaccessible, dangling, a link to a directory or to no file, or a path that the rules or the guard refuse |
| Scanner.DirectoryCycles | packages/cli/src/scanner.ts:170-185 | Every directory the walk comes to and can resolve is listed or reported as a cycle, and only one that leads to a visited directory is |
| Scanner.WalkFindsExactly | packages/cli/src/scanner.ts:163-283 | Without aliases the candidates are exactly the reachable files, and links to files, that pass the path rules and the symlink guard and have a relevant extension |
| Scanner.CandidateIsLegitimate | packages/cli/src/scanner.ts:228-283 | Every candidate is a file or a link to one, with a safe canonical path that the symlink guard accepted and a relevant extension |
| Scanner.ExtensionDecides | packages/cli/src/scanner.ts:274-282 | If path and place are accepted, a file becomes a map, an asset or nothing, by `.map`, `.js`, `.mjs` and `.cjs` and no other extension |
| Scanner.ExtensionIs | packages/cli/src/scanner.ts:292-299 | The extension is what follows the last dot of the last segment, with the dot, if that is neither first nor last |
| Scanner.CandidateIsContained | packages/cli/src/scanner.ts:8-13 | Every candidate is a file with a real path; a regular file is inside the root, and so is a link whose path is safe and has nothing to decode |
| Scanner.EncodedLinkIsCollected | packages/cli/src/scanner.ts:258-283 | The scan collects a link to a file outside the root if its name changes when it is canonicalized, as `%61.map` does |
| Scanner.EncodedLinkGraph | packages/cli/src/scanner.ts:163-221 | There is such a directory, and its listing and kinds are those of the file system |
| Scanner.TwoNamesOnePath | packages/cli/src/scanner.ts:258-283 | The files `a.map` and `%61.map` of one directory become two candidates with one canonical path |
| Scanner.ShadowingDirectory | packages/cli/src/scanner.ts:258-283 | The files `%25252561.map` and `%25252525252561.map` of one directory become candidates with the paths `%61.map` and `%25252561.map` |
| Scanner.TwoFilesGraph | packages/cli/src/scanner.ts:163-221 | There are such directories, and their listings and kinds are those of the file system |
| ScanResult.ScanSourcemaps | packages/cli/src/scanner.ts:113-150 | The loops over the candidates return all maps and the tied assets with their sizes and digests, in some path-sorted order |
| ScanResult.OutputIs | packages/cli/src/scanner.ts:114-150 | The artifacts are all maps and exactly the assets tied to one of them, each as often as it was found |
| ScanResult.TwoNamesRepeatAPath | packages/cli/src/scanner.ts:137-150 | Two maps with one canonical path make a manifest with a path twice |
| ScanResult.SendsMapIff | packages/cli/src/commands.ts:169-170 | There is a source map to upload if and only if one was found |
| ScanResult.AssetBesideMapIsSent | packages/cli/src/scanner.ts:124-127 | An asset is sent, as an asset, if the map of its name and `.map` was found |
| MapReferences.ResolvedReferenceIsSafe | packages/cli/src/scanner.ts:344-382 | Every reference that resolves is a safe relative path |
| MapReferences.SiblingReference | packages/cli/src/scanner.ts:367-381 | A plain file name resolves to the canonical path of the file beside the map |
| MapReferences.SiblingIsDecoded | packages/cli/src/scanner.ts:377-381 | So `%61.js` beside `a.map` stands for `a.js` |
| MapReferences.RefusedIff | packages/cli/src/scanner.ts:349-382 | A reference gives null if and only if it is empty or remote, or its target, normalized from the root, is the root or not a safe path once decoded; otherwise it gives that path |
| MapReferences.HasSchemeIff | packages/cli/src/scanner.ts:361-363 | Remote by scheme are exactly the references that begin with a letter, then letters, digits, plus, dot and hyphen, then a colon |
| MapReferences.BeforeQueryIs | packages/cli/src/scanner.ts:353-360 | What is followed of a reference is all of it, trimmed, up to the first question mark or number sign |
| MapReferences.EscapeGuardNeverFires | packages/cli/src/scanner.ts:373-375 | No normalized absolute path begins with '..', so the guard against escaping references never fires |
| MapReferences.OutsideReferenceIs | packages/cli/src/scanner.ts:344-348 | The target of an absolute reference is that of the reference without its slash; the target of an escaping one is what follows its last step out, taken from the root |
| MapReferences.AbsoluteReferenceIsRelative | packages/cli/src/scanner.ts:364-372 | From a map in any directory `/x` means the same as `x` |
| MapReferences.EscapingResolves | packages/cli/src/scanner.ts:370-376 | `../name` from a map at the root escapes and resolves to `name` |
| MapReferences.AbsoluteResolves | packages/cli/src/scanner.ts:364-376 | `/name` resolves to the file `name` beside the map, wherever the map is |
| MapReferences.OutsideReferencesResolve | packages/cli/src/scanner.ts:344-348 | `../x.js` and `/x.js` from `a.map` resolve to `x.js`, and `/x.js` from `d/a.map` to `d/x.js`, where null is promised |
| SenderPool.CreateBatches | scripts/benchmark-ingest.ts:583-591 | The batches are consecutive, full but for the last, and cover exactly the requested events |
| SenderPool.EventInOneBatch | scripts/benchmark-ingest.ts:583-591 | Each requested event is in exactly one batch and no other event is in any |
| SenderPool.CompletedRun | scripts/benchmark-ingest.ts:592-611 | Under every interleaving of at least one sender, at completion every batch was sent exactly once and recorded once, as its request was answered; the failures are as many as the requests that failed, the events accepted those of the batches answered well, and exactly the requested ones if no request failed |
| SenderPool.RecordsAreAnswers | scripts/benchmark-ingest.ts:599-605 | Over every run a batch is a success or a failure exactly as the request of the sender that waited for it was answered, in that order |
| SenderPool.AcceptedAreAnswered | scripts/benchmark-ingest.ts:599-602 | Over every run the events accepted are those of the batches answered well |
| SenderPool.CompletedCounts | scripts/benchmark-ingest.ts:592-611 | At completion successes and failures together are as many as the batches |
| SenderPool.RunsAreBounded | scripts/benchmark-ingest.ts:594-607 | Every run of the pool is finite, with an explicit bound |
| SenderPool.ProgressIff | scripts/benchmark-ingest.ts:594-610 | The pool can always go on, unless all senders have finished; there is no deadlock |
| SenderPool.CanComplete | scripts/benchmark-ingest.ts:592-611 | From every state of the pool, whatever was answered so far, some run leads to completion |
| QueryKeys.OrderDoesNotMatter | apps/web/lib/queries.ts:146-158 | The same fields in any order give the same text |
| QueryKeys.SerializeOne | apps/web/lib/queries.ts:147-158 | One field is key, equals sign and value, with truth values spelled out; a value that is neither text, number nor truth value is left out |
| QueryKeys.SerializeTwo | apps/web/lib/queries.ts:154-158 | Two fields are written in key order with an ampersand between, whichever came first |
| QueryKeys.SerializeInjective | apps/web/lib/queries.ts:147-158 | If keys contain neither = nor & and no value has a = after an &, equal texts mean equal fields up to String() |
| QueryKeys.CollidesWithCleanIff | apps/web/lib/queries.ts:147-158 | A state shares its text with a different state of that kind if and only if one of its values has a = after an & and the keys of the pieces with a = ascend |
| QueryKeys.CollidesIff | apps/web/lib/queries.ts:81-83 | A state shares its text with a different state of any keys and values if and only if a piece with a = has a key greater than the first |
| QueryKeys.TwoFieldsCollide | apps/web/lib/queries.ts:147-158 | Every state with two fields or more shares its text with a different one |
| QueryKeys.SharesTextIff | apps/web/lib/queries.ts:147-158 | The states with a text are exactly the ways of taking its pieces together |
| QueryKeys.CollidesInTypeIff | apps/web/lib/queries.ts:81-101 | A state shares its text with a different state of a given parameter type if and only if another way of taking the pieces together ascends and is of that type |
| QueryKeys.CleanCollidesInTypeIff | apps/web/lib/queries.ts:81-101 | If no value has a = after an &, that is if and only if some field but the last takes any text |
| QueryKeys.IssuesCollideIff | apps/web/lib/queries.ts:165-183 | For the parameters of the issue list: if and only if one of its text fields comes before another field; with limit and order alone it cannot happen |
| QueryKeys.FreeIssueFields | apps/web/lib/queries.ts:165-183 | The fields of the issue list that take any text |
| QueryKeys.ListedIssueWords | apps/web/lib/queries.ts:165-183 | What its other fields take |
| QueryKeys.SearchCollides | apps/web/lib/queries.ts:81-88 | In the issue list a search for `x&release=y` has the cache key of a search for `x` in release `y` |
| QueryKeys.ListKeysDistinct | apps/web/lib/queries.ts:87-101 | Clean filter states share a cache key only if project, list and fields are the same |

## Left out

- ArtifactStore.StoredFileIsOnePut: a crash is the death of a process; loss of power is in `PowerLoss`.
- PowerLoss.NoKeyHoldsACutFile: renames, removals and new directories are durable when they return. The source does not sync directories; what then remains true is in `DirectoryLoss`.
- DirectoryLoss.KeyHoldsSomePut: one directory falls back as a whole, and an inode outlasts the outage if a directory names it.
- ArtifactStore.StepRefines: mkdir is one step, and failures of stat and unlink other than by a file in the way or a directory in place, which change nothing, are not actions.
- LocalStorage.LocalArtifactStorage.Put: non-byte chunks and the closing of the handle are not modelled, and the retry delays have no duration.
- UploadProtocol.DoneMeansStored: releases and artifacts are never deleted, and the files a client scanned do not change while it runs.
- UploadServer.CheckArtifactPreflight: refusals for the number, type, size or hash form of entries are failed requests.
- ReleaseUploads.RecordsAlwaysHoldIff: an insert that reports a failure has not made the record; records and releases are never deleted; staging and the checks before the first look-up are not modelled.
- UploadCommand.RunSourcemapsUpload: printed summaries, warnings and JSON output are not modelled, and a scan that fails is no run.
- SymlinkGuard.GuardIsSound: the file system is static during the walk, paths are POSIX and case-sensitive, and Windows junctions are not modelled.
- EventStream.RunValid: callbacks do not call back into the stream and sources do not throw when created.
- Scanner.WalkFindsExactly: the directory graph and the file system are static.
- Scanner.CandidateIsContained: kinds and listings are those of one file system without mounts; aliases and cycles of directories are treated apart, on any finite graph.
- QueryKeys.IssuesCollideIff: `String()` of a number is given, and holds no `&`; the other parameter types are not spelled out.
- Sanitize.SanitizeIdempotentIff: a key named `__proto__` is treated like any other, and key order in objects is not modelled.
- The `typeof` checks for inputs that are not strings: inputs are strings by type.
- `buildStreamUrl`, `normalizeBase` and the native EventSource: URL parsing and I/O.
- `sanitizeString`, `sanitizeUrl`, `sanitizeContext` and `sanitizeBatchRequest`: regular-expression redactors, and copies of simpler shape than the payload redactor.
- Safety checks on the artifact root, source-map validation and upload policy: finite case tables.
- `readMapFileHint` and `readSourceMappingTarget`: what a file says is given, not read.
- HTTP clients and servers, SQL, the web interface, the outbox and worker pipeline, credentials and access rules: I/O, declarations or fixed tables.
- A repaired boundary search for `truncateToBytes`: not part of the repository.
