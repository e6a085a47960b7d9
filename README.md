# FileSystemBinaryDataManager, modelled in Dafny

This project models n8n's disk-backed binary data store, the class
`FileSystemBinaryDataManager` in `packages/core/src/BinaryDataManager/FileSystem.ts`.
The store keeps the payloads of workflow executions as files directly under a storage
directory. Each payload is named by an identifier: the execution id (or another prefix)
followed by a uuid. A `.metadata` file sits next to each payload.

Files are deleted later, driven by two kinds of marker file:

- A deletion marker, `meta/binarymeta_<executionId>_<expiry>`, is written by
  `markDataForDeletionByExecutionId`.
- A persistence marker, `persistMeta/persistedmeta_<executionId>_<expiry>`, is written
  when data is stored. Its expiry is the next full hour plus the persisted-data TTL.

A sweep (`deleteMarkedFilesByMeta`) reads a marker directory. For the first due marker
of each execution id, other than names `Object.prototype` answers for, it calls
`deleteBinaryDataByExecutionId` with the execution id it reads from the marker's name, and
removes the marker once that call succeeds; the other due markers are removed without a
call. That call removes every file whose name contains the id, so it can also take files
of other executions whose ids contain it.
`persistBinaryDataForExecutionId` removes an execution's persistence markers, so no
persistence marker of its own triggers a deletion of its data any more. Its files can
still go when another execution's data is deleted.

Every path built from an identifier or an execution id goes through `resolveStoragePath`.
It joins the path segments onto the storage path and refuses any result whose path
relative to the storage path starts with `..`. The marker paths built from listed names,
the directory getters and the source of a copy do not go through it.

The files of the project:

- `results.dfy`: the `Result` type and the errors the store raises.
- `text.dfy`: the JavaScript string operations the store relies on: `split`,
  `startsWith`, substring search (what the pattern `${executionId}_*` matches),
  integer-to-string conversion, `parseInt(s, 10)` with NaN, and UTF-8 encoding.
- `paths.dfy`: Node's POSIX `path.join`/`path.normalize`/`path.relative`,
  `resolveStoragePath`, and the file, directory or nothing that a resolved path names.
- `markers.dfy`: the marker names, how the sweep reads them back, the hour-aligned expiry,
  and the keys of `Object.prototype` that `execsAdded` answers for before anything is set.
- `storage.dfy`: the directory tree as a value (`Disk`: three maps from file name to
  bytes), the `fs/promises` calls, and one function per operation giving its effect and
  result. The lemmas state what each operation promises.
- `sweep.dfy`: the sweep as a fold over the directory listing, and its effects.
- `manager.dfy`: the class itself. Its constant fields are the storage path and the two
  TTLs. Its mutable `map` fields are the three directories. Its methods update those maps
  step by step, including the loops of the sweep, of `deleteBinaryDataByExecutionId` and
  of `persistBinaryDataForExecutionId`. Each method is proved to produce the new state and
  result given by its function in `storage.dfy` or `sweep.dfy`. Each method also keeps
  `Valid()`: every file of the store has a name the store can address again.

The clock reading (`Date.now()`), the uuid token, the contents of a file copied in from
outside, and the listing `fs.readdir` returns for a marker directory are all parameters.
A TTL is given in minutes and kept in milliseconds.

Source paths below are relative to the repository root. All cited lines are in
`packages/core/src/BinaryDataManager/FileSystem.ts`.

## Model

| member | source | states |
|---|---|---|
| Paths.ResolvedPathStaysInside | packages/core/src/BinaryDataManager/FileSystem.ts:240-245 | resolveStoragePath succeeds exactly when the joined path lies under the storage directory and its first segment below it does not start with ".."; a successful result is the joined path |
| Paths.RelativeStartsWithDots | packages/core/src/BinaryDataManager/FileSystem.ts:242 | path.relative(storagePath, p) starts with ".." exactly when p is not under the storage directory or its first segment below it starts with ".." |
| Paths.ResolveSegments | packages/core/src/BinaryDataManager/FileSystem.ts:240-245 | joining plain segments whose first does not start with ".." resolves to the storage directory followed by those segments |
| Paths.ResolveRootFileName | packages/core/src/BinaryDataManager/FileSystem.ts:240-245 | a plain name resolves to the file of that name directly in the storage directory |
| Paths.ResolveMarkerDirectory | packages/core/src/BinaryDataManager/FileSystem.ts:174-176 | `meta` and `persistMeta` resolve to directories, not files |
| Paths.ResolveMarkerFile | packages/core/src/BinaryDataManager/FileSystem.ts:240-245 | a plain name under `meta` or `persistMeta` resolves to the marker file of that name |
| Paths.DotDotNameRejected | packages/core/src/BinaryDataManager/FileSystem.ts:242-243 | a legitimate name that merely starts with "..", such as "..foo", is refused with "Invalid path detected" |
| Paths.ParentTraversalRejected | packages/core/src/BinaryDataManager/FileSystem.ts:242-243 | an identifier "../x" is refused unless x is the storage directory's own name, which leads back into it |
| Paths.LocatedFileName | packages/core/src/BinaryDataManager/FileSystem.ts:240-245 | whatever resolves to a file has a plain name, and a payload's name is one the store can resolve again |
| Paths.Normalize | packages/core/src/BinaryDataManager/FileSystem.ts:241 | path.normalize leaves no segment that is empty, "." or ".." |
| Paths.Join | packages/core/src/BinaryDataManager/FileSystem.ts:241 | path.join gives a normalised path: no segment is empty, "." or ".." |
| Paths.Relative | packages/core/src/BinaryDataManager/FileSystem.ts:242 | path.relative from a directory to a path under it is the rest of that path, joined with "/" |
| Paths.ResolveStoragePath | packages/core/src/BinaryDataManager/FileSystem.ts:240-245 | a path resolveStoragePath lets through lies inside the storage directory; the only failure is "Invalid path detected" |
| Paths.CommonPrefixLength | packages/core/src/BinaryDataManager/FileSystem.ts:242 | the common prefix path.relative strips is common to both paths and cannot be extended |
| Text.Split | packages/core/src/BinaryDataManager/FileSystem.ts:131 | `split('_')` gives at least one piece, no piece holds '_', and joining the pieces with '_' gives back the name |
| Text.SplitAround | packages/core/src/BinaryDataManager/FileSystem.ts:131 | splitting at a separator splits the two sides independently |
| Text.ParseIntOfIntToString | packages/core/src/BinaryDataManager/FileSystem.ts:137 | parseInt(…, 10) reads back every integer that JavaScript prints into a marker name |
| Text.ParseIntOfNonNumeric | packages/core/src/BinaryDataManager/FileSystem.ts:137-139 | a timestamp that does not start with a sign, a digit or white space parses to NaN |
| Text.ParseInt | packages/core/src/BinaryDataManager/FileSystem.ts:137 | parseInt(s, 10) gives a number exactly when, after leading white space, s starts with a digit or with a sign followed by a digit; a negative number only after "-" |
| Text.ParseDigits | packages/core/src/BinaryDataManager/FileSystem.ts:137 | the digits at the start give a number exactly when there is at least one, and it is never negative |
| Text.LeadingDigits | packages/core/src/BinaryDataManager/FileSystem.ts:137 | parseInt reads the longest run of decimal digits at the start |
| Text.Utf8EncodeInjective | packages/core/src/BinaryDataManager/FileSystem.ts:56-64 | no two texts share a UTF-8 encoding, so the metadata file's bytes determine the JSON text written |
| Text.EncodeCharDecodes | packages/core/src/BinaryDataManager/FileSystem.ts:56-60 | the lead byte of each encoded character gives its length, and the bytes decode back to the character |
| Text.Utf8Encode | packages/core/src/BinaryDataManager/FileSystem.ts:56-60 | text written to a file becomes between one and four bytes per character, and only empty text becomes no bytes |
| Markers.DateValueText | packages/core/src/BinaryDataManager/FileSystem.ts:90-92 | the expiry text of a deletion marker holds neither "_" nor "/" |
| Markers.DateValueTextParses | packages/core/src/BinaryDataManager/FileSystem.ts:90-92 | parseInt reads a Date's value back from its text, and NaN from the "NaN" of a time no Date can hold |
| Markers.DeletionMarkerName | packages/core/src/BinaryDataManager/FileSystem.ts:92 | split on "_", a deletion marker gives back its prefix, execution id and expiry text when the id holds no "_" |
| Markers.PersistExpiry | packages/core/src/BinaryDataManager/FileSystem.ts:109-111 | the expiry less the persisted-data TTL is a whole hour, after now and at most an hour later |
| Markers.PersistMarkerName | packages/core/src/BinaryDataManager/FileSystem.ts:113-116 | split on "_", a persistence marker gives back its prefix, execution id and expiry text when the id holds no "_" |
| Markers.ParseMarkerName | packages/core/src/BinaryDataManager/FileSystem.ts:131-137 | the prefix read is the start of the name, neither field read holds "_", and a name without "_" reads as prefix only with a NaN timestamp |
| Markers.Expired | packages/core/src/BinaryDataManager/FileSystem.ts:131-139 | a due marker starts with the prefix looked for and holds a "_" |
| Markers.TimeAtNextHour | packages/core/src/BinaryDataManager/FileSystem.ts:109-110 | timeAtNextHour is a multiple of HOUR with now < timeAtNextHour <= now + HOUR |
| Markers.SameHourSameExpiry | packages/core/src/BinaryDataManager/FileSystem.ts:109-111 | every persistence marker written within one hour bucket gets the same expiry |
| Markers.DeletionMarkerRoundTrip | packages/core/src/BinaryDataManager/FileSystem.ts:131-137 | the sweep reads a deletion marker back as its prefix, its execution id and its expiry, when the id holds no '_' and a Date can hold the expiry |
| Markers.DeletionMarkerDue | packages/core/src/BinaryDataManager/FileSystem.ts:131-139 | a deletion marker is due exactly when its expiry lies before the sweep's time, and it names its own execution |
| Markers.UnrepresentableExpiryNeverDue | packages/core/src/BinaryDataManager/FileSystem.ts:137-139 | an expiry beyond what a Date can hold is written as "NaN", and that marker is never due |
| Markers.PersistMarkerDue | packages/core/src/BinaryDataManager/FileSystem.ts:131-139 | a persistence marker is due exactly when its expiry lies before the sweep's time, and it names its own execution |
| Markers.UnderscoreIdMisread | packages/core/src/BinaryDataManager/FileSystem.ts:131-137 | for an execution id a_b, the sweep takes a for the execution and parses b as the timestamp, ignoring the real expiry |
| Markers.PersistPrefixSelectsExecution | packages/core/src/BinaryDataManager/FileSystem.ts:191 | for ids without '_', the prefix `persistedmeta_<id>_` matches a persistence marker exactly when the marker belongs to that execution |
| Markers.MarkerNamesAreSegments | packages/core/src/BinaryDataManager/FileSystem.ts:89-95 | marker names are single path segments when the execution id holds no '/' |
| Storage.ReadFile | packages/core/src/BinaryDataManager/FileSystem.ts:233-234 | fs.readFile succeeds exactly when a file of that name exists at the location, and otherwise fails with a file-system error |
| Storage.WriteFile | packages/core/src/BinaryDataManager/FileSystem.ts:228 | fs.writeFile either fails and changes nothing, or the file reads back as the bytes written |
| Storage.RemoveFile | packages/core/src/BinaryDataManager/FileSystem.ts:216 | fs.rm succeeds exactly when the file can be read, and afterwards it cannot |
| Storage.GetFileSize | packages/core/src/BinaryDataManager/FileSystem.ts:44-47 | getFileSize succeeds exactly when retrieval does, and gives the number of bytes retrieval gives |
| Storage.StoreBinaryMetadata | packages/core/src/BinaryDataManager/FileSystem.ts:56-60 | a failed write changes nothing; after a successful one getBinaryMetadata gives the UTF-8 encoding of the JSON text |
| Storage.GetBinaryMetadata | packages/core/src/BinaryDataManager/FileSystem.ts:62-64 | for an addressable name, the bytes of `<identifier>.metadata` in the storage directory, or an error when there is no such file |
| Storage.AddBinaryIdToPersistMeta | packages/core/src/BinaryDataManager/FileSystem.ts:108-122 | a failure changes nothing; on success a persistence marker can be read at this hour's path |
| Storage.SaveToLocalStorage | packages/core/src/BinaryDataManager/FileSystem.ts:227-229 | a failure changes nothing; on success retrieving the identifier gives the bytes saved |
| Storage.CopyFileToLocalStorage | packages/core/src/BinaryDataManager/FileSystem.ts:223-225 | a failure changes nothing; on success the source was readable and retrieving the identifier gives its bytes |
| Storage.StoreBinaryData | packages/core/src/BinaryDataManager/FileSystem.ts:66-71 | on success the answer is `executionId + token` and retrieving it gives the stored bytes |
| Storage.CopyBinaryFile | packages/core/src/BinaryDataManager/FileSystem.ts:49-54 | on success the answer is `executionId + token`, the source was readable, and retrieving the answer gives its bytes |
| Storage.RetrieveBinaryDataByIdentifier | packages/core/src/BinaryDataManager/FileSystem.ts:231-238 | retrieval fails only with "Invalid path detected" or "Error finding file", and otherwise gives what reading the resolved file gives |
| Storage.MarkDataForDeletionByExecutionId | packages/core/src/BinaryDataManager/FileSystem.ts:89-95 | a failure changes nothing; on success the deletion marker's path reads back as an empty file |
| Storage.DuplicateBinaryDataByIdentifier | packages/core/src/BinaryDataManager/FileSystem.ts:160-168 | a failure changes nothing; on success the answer is `prefix + token` and retrieving it gives what retrieving the original gives |
| Storage.DeleteBinaryDataByExecutionId | packages/core/src/BinaryDataManager/FileSystem.ts:170-182 | no marker changes, no file is added to the storage directory, and the call succeeds exactly when the id is part of neither marker directory's name |
| Storage.DeleteBinaryDataByIdentifier | packages/core/src/BinaryDataManager/FileSystem.ts:184-186 | a failure changes nothing; on success retrieving the identifier fails with "Error finding file" |
| Storage.PersistBinaryDataForExecutionId | packages/core/src/BinaryDataManager/FileSystem.ts:188-201 | succeeds, changes no payload and no deletion marker, and keeps exactly the persistence markers without the execution's prefix, unchanged |
| Storage.TtlMillis | packages/core/src/BinaryDataManager/FileSystem.ts:22-28 | a TTL in minutes becomes a whole number of minutes in milliseconds |
| Storage.GenerateFileName | packages/core/src/BinaryDataManager/FileSystem.ts:203-205 | an identifier is the prefix followed by the token |
| Storage.StoreEffect | packages/core/src/BinaryDataManager/FileSystem.ts:66-71 | storing under a plain identifier answers `executionId + token`, writes exactly the payload, adds the persistence marker holding the identifier only if absent, and changes nothing else |
| Storage.StoreThenRetrieve | packages/core/src/BinaryDataManager/FileSystem.ts:66-79 | after any successful store, retrieving the identifier gives exactly the stored bytes, and the file size is their number |
| Storage.CopyOfReadableSource | packages/core/src/BinaryDataManager/FileSystem.ts:49-54 | copying a readable file in behaves exactly as storing its bytes |
| Storage.CopyOfUnreadableSource | packages/core/src/BinaryDataManager/FileSystem.ts:49-54 | an unreadable source fails the copy, and the persistence marker written before it stays |
| Storage.RetrieveAbsent | packages/core/src/BinaryDataManager/FileSystem.ts:231-238 | retrieval gives the stored payload, fails with "Error finding file" for an absent one, and with "Invalid path detected" for a name starting with ".." |
| Storage.MetadataRoundTrip | packages/core/src/BinaryDataManager/FileSystem.ts:56-64 | metadata is read back as the UTF-8 encoding of its JSON text, and as the encoding of no other text; writing it touches only `<identifier>.metadata` |
| Storage.PersistMarkerWritten | packages/core/src/BinaryDataManager/FileSystem.ts:108-122 | the persistence marker is written, holding the identifier, only when no file exists at its path; nothing else changes |
| Storage.PersistMarkerIdempotent | packages/core/src/BinaryDataManager/FileSystem.ts:108-122 | a second persistence marker in the same hour bucket finds the first and changes nothing |
| Storage.MarkAddsOneEmptyMarker | packages/core/src/BinaryDataManager/FileSystem.ts:89-95 | marking adds exactly one empty file `binarymeta_<id>_<now + TTL>` to `meta/`; payloads and other markers are untouched |
| Storage.DuplicateEffect | packages/core/src/BinaryDataManager/FileSystem.ts:160-168 | duplication answers `prefix + token`, holding the original's bytes; the original, metadata and markers are unchanged; a missing original is an error that changes nothing |
| Storage.DuplicateIdentifier | packages/core/src/BinaryDataManager/FileSystem.ts:160-168 | any successful duplication answers `prefix + token`, and retrieving it gives what retrieving the original gives |
| Storage.DeleteByExecutionEffect | packages/core/src/BinaryDataManager/FileSystem.ts:170-182 | deleting by execution id removes exactly the files of the storage directory whose names contain the id, leaves the markers alone, and fails exactly when the id is part of `meta` or `persistMeta` |
| Storage.DeleteByExecutionRemovesStored | packages/core/src/BinaryDataManager/FileSystem.ts:170-182 | every payload and metadata file stored for an execution goes when its data is deleted |
| Storage.DeleteByExecutionReachesOthers | packages/core/src/BinaryDataManager/FileSystem.ts:171-176 | substring matching reaches other executions: deleting execution "1" removes every payload of execution "21" |
| Storage.DeleteByIdentifierEffect | packages/core/src/BinaryDataManager/FileSystem.ts:184-186 | deleting by identifier removes exactly that payload; a missing payload is an error |
| Storage.PersistClearsOwnMarkers | packages/core/src/BinaryDataManager/FileSystem.ts:188-201 | for ids without '_', persisting removes a persistence marker exactly when it belongs to that execution, leaves every other file as it was, and succeeds |
| Storage.ResolvedAddressable | packages/core/src/BinaryDataManager/FileSystem.ts:240-245 | every location resolveStoragePath lets through may be written without leaving a file the store cannot address |
| Sweep.SweepStep | packages/core/src/BinaryDataManager/FileSystem.ts:131-152 | a marker that is not due changes nothing; a due one adds its execution id to `execsAdded` at most once and never one Object.prototype answers for; a failure is never undone |
| Sweep.SweepNames | packages/core/src/BinaryDataManager/FileSystem.ts:124-158 | the sweep starts at most one data deletion per listed name |
| Sweep.DeleteMarkedFilesByMeta | packages/core/src/BinaryDataManager/FileSystem.ts:124-158 | the sweep succeeds exactly when no due execution's id is part of a marker directory's name, and leaves exactly the files of the storage directory containing no due execution's id |
| Sweep.SweepStepRoot | packages/core/src/BinaryDataManager/FileSystem.ts:143-151 | each step keeps the storage directory equal to its files containing no id deleted so far |
| Sweep.DeleteMarkedFiles | packages/core/src/BinaryDataManager/FileSystem.ts:97-99 | the sweep of `meta/` succeeds exactly when no due execution's id is part of a marker directory's name, and leaves exactly the payload files containing no due execution's id |
| Sweep.DeleteMarkedPersistedFiles | packages/core/src/BinaryDataManager/FileSystem.ts:101-106 | the same for the sweep of `persistMeta/`, with the executions its due persistence markers name |
| Sweep.Init | packages/core/src/BinaryDataManager/FileSystem.ts:40-41 | the persisted sweep runs only after the first succeeded: a failed first sweep is the outcome, and a successful init implies a successful first sweep |
| Sweep.InitClearsDueMarkers | packages/core/src/BinaryDataManager/FileSystem.ts:30-42 | after a successful init no deletion marker is due at the first sweep's time and no persistence marker at the second's |
| Sweep.SweepDeletesEachDueExecutionOnce | packages/core/src/BinaryDataManager/FileSystem.ts:128-152 | the sweep calls deleteBinaryDataByExecutionId exactly once for each execution id named by a due marker, apart from names Object.prototype answers for, and for no other id; which files each call removes is Sweep.SweepRoot's part |
| Sweep.SweepRoot | packages/core/src/BinaryDataManager/FileSystem.ts:124-158 | the files left are exactly those containing no deleted execution's id; the other marker directory is untouched |
| Sweep.SweepResult | packages/core/src/BinaryDataManager/FileSystem.ts:147-157 | the sweep succeeds exactly when no deleted execution's id is part of a marker directory's name |
| Sweep.SweepStepMarkers | packages/core/src/BinaryDataManager/FileSystem.ts:131-152 | one step removes its marker exactly when the marker is due and its execution was already handled, answers through Object.prototype, or has data whose deletion succeeds |
| Sweep.SweepMarkers | packages/core/src/BinaryDataManager/FileSystem.ts:124-158 | only listed, due markers go, contents unchanged; a due marker stays only when its execution's data deletion failed (not conversely: a later marker of an execution already handled goes alone even then) |
| Sweep.SweepKeepsExactlyUndue | packages/core/src/BinaryDataManager/FileSystem.ts:124-158 | a sweep that succeeded leaves exactly the markers that were not due |
| Sweep.DeleteMarkedFilesEffect | packages/core/src/BinaryDataManager/FileSystem.ts:97-99 | deleteMarkedFiles: markers that are not due stay, no marker changes, a due marker that stays names an execution whose data deletion failed, the files containing a due execution's id go and no others, persistence markers are untouched, the outcome is an error exactly when a deletion failed, and on success exactly the markers not due remain |
| Sweep.DeleteMarkedPersistedFilesEffect | packages/core/src/BinaryDataManager/FileSystem.ts:101-106 | deleteMarkedPersistedFiles: the same over persistence markers, deleting the data of the executions they name too; deletion markers are untouched |
| Sweep.SweepFacts | packages/core/src/BinaryDataManager/FileSystem.ts:124-158 | the facts both sweeps share, for one marker directory listed by fs.readdir |
| Sweep.MarkedExecutionIsSwept | packages/core/src/BinaryDataManager/FileSystem.ts:89-99 | a deletion marker of a plain execution id is due for every sweep after its expiry, which removes every file stored for that execution |
| Sweep.MarkerSurvivesUntilDue | packages/core/src/BinaryDataManager/FileSystem.ts:89-95 | a deletion marker survives every sweep up to its expiry |
| Manager.FileSystemBinaryDataManager.constructor | packages/core/src/BinaryDataManager/FileSystem.ts:22-28 | keeps the storage path and both TTLs, converted from minutes to milliseconds |
| Manager.FileSystemBinaryDataManager.GetFileSize | packages/core/src/BinaryDataManager/FileSystem.ts:44-47 | the size of a payload is the number of bytes retrieval gives |
| Manager.FileSystemBinaryDataManager.StoreBinaryMetadata | packages/core/src/BinaryDataManager/FileSystem.ts:56-60 | new state as Storage.StoreBinaryMetadata; on success getBinaryMetadata gives the UTF-8 of the JSON text |
| Manager.FileSystemBinaryDataManager.GetBinaryMetadata | packages/core/src/BinaryDataManager/FileSystem.ts:62-64 | the bytes of `<identifier>.metadata`, or the error reading it gives |
| Manager.FileSystemBinaryDataManager.AddBinaryIdToPersistMeta | packages/core/src/BinaryDataManager/FileSystem.ts:108-122 | computes the hour-aligned expiry and writes the marker only if absent, as Storage.AddBinaryIdToPersistMeta |
| Manager.FileSystemBinaryDataManager.SaveToLocalStorage | packages/core/src/BinaryDataManager/FileSystem.ts:227-229 | writes the payload at the resolved path |
| Manager.FileSystemBinaryDataManager.CopyFileToLocalStorage | packages/core/src/BinaryDataManager/FileSystem.ts:223-225 | writes the outside file's bytes at the resolved path, or fails with the read error |
| Manager.FileSystemBinaryDataManager.StoreBinaryData | packages/core/src/BinaryDataManager/FileSystem.ts:66-71 | new state as Storage.StoreBinaryData; on success the answer is `executionId + token`, and retrieving it gives the stored bytes |
| Manager.FileSystemBinaryDataManager.CopyBinaryFile | packages/core/src/BinaryDataManager/FileSystem.ts:49-54 | new state and answer as Storage.CopyBinaryFile |
| Manager.FileSystemBinaryDataManager.RetrieveBinaryDataByIdentifier | packages/core/src/BinaryDataManager/FileSystem.ts:77-79 | the payload; "Invalid path detected" escapes the try, and any read failure becomes "Error finding file" |
| Manager.FileSystemBinaryDataManager.MarkDataForDeletionByExecutionId | packages/core/src/BinaryDataManager/FileSystem.ts:89-95 | writes the empty deletion marker, as Storage.MarkDataForDeletionByExecutionId |
| Manager.FileSystemBinaryDataManager.DuplicateBinaryDataByIdentifier | packages/core/src/BinaryDataManager/FileSystem.ts:160-168 | resolves both paths, then copies the bytes, as Storage.DuplicateBinaryDataByIdentifier |
| Manager.FileSystemBinaryDataManager.DeleteBinaryDataByExecutionId | packages/core/src/BinaryDataManager/FileSystem.ts:170-182 | a loop over the storage directory's listing that removes every name containing the id, and fails if that includes a marker directory, as Storage.DeleteBinaryDataByExecutionId |
| Manager.FileSystemBinaryDataManager.RemoveIfMatching | packages/core/src/BinaryDataManager/FileSystem.ts:174-180 | one listed name: removed when it contains the id, leaving the markers alone; the call fails exactly when the name is a marker directory |
| Manager.FileSystemBinaryDataManager.DeleteBinaryDataByIdentifier | packages/core/src/BinaryDataManager/FileSystem.ts:184-186 | removes the payload, as Storage.DeleteBinaryDataByIdentifier |
| Manager.FileSystemBinaryDataManager.PersistBinaryDataForExecutionId | packages/core/src/BinaryDataManager/FileSystem.ts:188-201 | a loop over `persistMeta/` that removes the names with the execution's prefix, as Storage.PersistBinaryDataForExecutionId |
| Manager.FileSystemBinaryDataManager.DeleteMarkedFilesByMeta | packages/core/src/BinaryDataManager/FileSystem.ts:124-158 | a loop over the listing with `execsAdded`, whose state after each marker is the sweep's fold over the listing so far |
| Manager.FileSystemBinaryDataManager.RemoveMarker | packages/core/src/BinaryDataManager/FileSystem.ts:215-217 | removes one listed marker from its directory and nothing else |
| Manager.FileSystemBinaryDataManager.DeleteMarkedFiles | packages/core/src/BinaryDataManager/FileSystem.ts:97-99 | the sweep of `meta/` with prefix `binarymeta` |
| Manager.FileSystemBinaryDataManager.DeleteMarkedPersistedFiles | packages/core/src/BinaryDataManager/FileSystem.ts:101-106 | the sweep of `persistMeta/` with prefix `persistedmeta` |
| Manager.FileSystemBinaryDataManager.Init | packages/core/src/BinaryDataManager/FileSystem.ts:30-42 | both sweeps in turn; the second runs only once the first succeeded |

## Left out

- `getBinaryStream` (line 73-75): stream chunking is I/O, not state.
- `getBinaryPath` and `getMetadataPath` (lines 81-87) are modelled as the locations
  `Storage.BinaryLocation` and `Storage.MetadataLocation`, not as path strings.
- The purge timers `setInterval` of `init` (lines 31-34) are left out. The `mkdir` calls
  (lines 37-38) are also left out: the model's two marker directories always exist.
- Concurrency: the deletions that `Promise.all` awaits (lines 157, 181, 199) run in
  listing order in the model, each data deletion before its marker's. One effect of
  running them at once is not captured. When two due executions' ids both occur in one
  file name, both sweeps' `fs.rm` calls race on that file, and the loser fails.
- I/O failures other than those the model derives: a missing file, a directory, a missing
  parent directory (except for `fs.cp`, which creates it). Retrying at the next sweep is left out for the same reason.
- The uuid, the clock, the contents of a file copied in, and the order of `fs.readdir` are
  parameters. The model does not decode JSON or UTF-8, so `getBinaryMetadata` answers the
  file's bytes, and `JSON.stringify` is the caller's text.
- Regular expressions: `new RegExp(`${executionId}_*`)` is modelled as "the name contains
  the id". This is exact only for ids without regular-expression syntax, so the methods
  that build the pattern require `RegexSafe`.
- Storage layout: the storage path is taken as absolute, resolved against "/". The
  directory tree holds files only, directly in the storage directory or in the two
  marker directories (`Storage.ValidDisk`).
- Numbers: times and TTLs are integers, printed as JavaScript prints integers below 1e21.
  Fractional TTLs and precision loss above 2^53 are left out. `Date.now()` is taken as
  non-negative, so the truncating `%` of line 110 only meets non-negative operands.
- Storage.CopyFileToLocalStorage: `fs.cp` creates a missing parent directory of its
  target (an identifier such as "sub/x"); the model's tree has no subdirectories, so it
  fails there. `copyBinaryFile` never reaches that case, because the persistence marker
  for such an execution id lies under a missing directory too and its write fails first.
- Manager.FileSystemBinaryDataManager.CopyFileToLocalStorage: the same `fs.cp` gap as
  Storage.CopyFileToLocalStorage, which it equals.
- Data of a persisted execution is not protected from `deleteBinaryDataByExecutionId` calls
  for other executions whose ids occur in its file names (Storage.DeleteByExecutionReachesOthers).
- Markers.DateValueText: only states the characters of the text; what parseInt reads back
  from it is Markers.DateValueTextParses.
- Storage.GetFileSize: `fs.stat` gives a size for a directory too; the model fails there,
  as it does for a missing file.
- Manager.FileSystemBinaryDataManager.GetFileSize: `fs.stat` gives a size for a directory
  too; the model fails there, as it does for a missing file.
- Manager.FileSystemBinaryDataManager.constructor: takes the directory tree already on
  disk as a parameter, and requires that tree to hold only files the store can address.
- Manager.FileSystemBinaryDataManager.DeleteBinaryDataByExecutionId: requires the id to
  be free of regular-expression syntax (see above).
- Manager.FileSystemBinaryDataManager.DeleteMarkedFilesByMeta: requires the listing to
  name each file of the directory once, as `fs.readdir` does.
- Manager.FileSystemBinaryDataManager.DeleteMarkedFilesByMeta: also requires every due
  marker's execution id to be free of regular-expression syntax.
