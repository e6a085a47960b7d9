/** The store's directory tree and what each operation of FileSystemBinaryDataManager
    (FileSystem.ts) does to it, as functions of the configuration, the disk before the call,
    and the clock reading and uuid token the call uses. */
module Storage {
  import opened Text
  import opened Results
  import opened Paths
  import opened Markers

  type Bytes = seq<byte>

  /** The files of one directory, by name. */
  type Dir = map<string, Bytes>

  /** The storage directory: payload and `.metadata` files directly in it, and the files of
      its two marker directories. */
  datatype Disk = Disk(root: Dir, meta: Dir, persistMeta: Dir) {

    function Files(place: Place): Dir {
      match place
      case RootDir => root
      case MetaDir => meta
      case PersistMetaDir => persistMeta
    }

    function WithFiles(place: Place, files: Dir): (d: Disk)
      ensures d.Files(place) == files
      ensures forall other: Place | other != place :: d.Files(other) == Files(other)
    {
      match place
      case RootDir => this.(root := files)
      case MetaDir => this.(meta := files)
      case PersistMetaDir => this.(persistMeta := files)
    }
  }

  /** The manager's configuration, the two TTLs already in milliseconds. */
  datatype Config = Config(storagePath: string, binaryDataTTL: int, persistedDataTTL: int)

  /** What an operation that changes the disk leaves behind: the disk, and the value or the
      error the operation settles with. An operation that fails part-way keeps the writes it
      made before failing. */
  datatype Outcome<T> = Outcome(disk: Disk, result: Result<T>)

  /** A TTL given in minutes, in milliseconds (lines 24-27). */
  function TtlMillis(minutes: int): (ms: int)
    ensures minutes >= 0 ==> ms >= minutes
    ensures ms / Minute == minutes && ms % Minute == 0
  {
    minutes * Minute
  }

  // ----- the fs/promises calls -----

  /** fs.readFile: the bytes of a file; a directory or a missing file is an error. */
  function ReadFile(d: Disk, loc: Location): (r: Result<Bytes>)
    ensures r.Ok? <==> loc.File? && loc.name in d.Files(loc.place)
    ensures r.Err? ==> r.error == FsError
  {
    if loc.File? && loc.name in d.Files(loc.place) then Ok(d.Files(loc.place)[loc.name])
    else Err(FsError)
  }

  /** fs.writeFile: creates or replaces a file; a directory, or a path whose parent
      directory does not exist, is an error. */
  function WriteFile(d: Disk, loc: Location, content: Bytes): (o: Outcome<()>)
    ensures o.result.Err? ==> o.disk == d
    ensures o.result.Ok? ==> ReadFile(o.disk, loc) == Ok(content)
  {
    if loc.File? then Outcome(d.WithFiles(loc.place, d.Files(loc.place)[loc.name := content]), Ok(()))
    else Outcome(d, Err(FsError))
  }

  /** fs.rm without `recursive`: removes a file; a directory or a missing file is an error. */
  function RemoveFile(d: Disk, loc: Location): (o: Outcome<()>)
    ensures o.result.Ok? <==> ReadFile(d, loc).Ok?
    ensures ReadFile(o.disk, loc).Err?
  {
    if loc.File? && loc.name in d.Files(loc.place) then
      Outcome(d.WithFiles(loc.place, d.Files(loc.place) - {loc.name}), Ok(()))
    else Outcome(d, Err(FsError))
  }

  // ----- names and paths (lines 81-87, 203-205) -----

  /** generateFileName: the prefix followed by a fresh token. */
  function GenerateFileName(prefix: string, token: string): (id: string)
    ensures StartsWith(id, prefix) && id[|prefix|..] == token
  {
    prefix + token
  }

  /** getBinaryPath. */
  function BinaryLocation(c: Config, identifier: string): Result<Location> {
    ResolveLocation(c.storagePath, [identifier])
  }

  /** getMetadataPath: the identifier with ".metadata" appended. */
  function MetadataLocation(c: Config, identifier: string): Result<Location> {
    ResolveLocation(c.storagePath, [identifier + ".metadata"])
  }

  /** Where markDataForDeletionByExecutionId writes at time `now`. */
  function DeletionMarkerLocation(c: Config, executionId: string, now: nat): Result<Location> {
    ResolveLocation(c.storagePath, [MetaDirName, DeletionMarkerName(executionId, now + c.binaryDataTTL)])
  }

  /** Where addBinaryIdToPersistMeta writes at time `now`. */
  function PersistMarkerLocation(c: Config, executionId: string, now: nat): Result<Location> {
    ResolveLocation(c.storagePath,
      [PersistMetaDirName, PersistMarkerName(executionId, PersistExpiry(now, c.persistedDataTTL))])
  }

  // ----- the operations -----

  /** getFileSize: the size of the payload in bytes. */
  function GetFileSize(c: Config, d: Disk, identifier: string): (r: Result<nat>)
    ensures r.Ok? <==> RetrieveBinaryDataByIdentifier(c, d, identifier).Ok?
    ensures r.Ok? ==> r.value == |RetrieveBinaryDataByIdentifier(c, d, identifier).value|
  {
    var loc :- BinaryLocation(c, identifier);
    var bytes :- ReadFile(d, loc);
    Ok(|bytes|)
  }

  /** storeBinaryMetadata: writes the metadata's JSON text, UTF-8 encoded, next to the payload. */
  function StoreBinaryMetadata(c: Config, d: Disk, identifier: string, json: string): (o: Outcome<()>)
    ensures o.result.Err? ==> o.disk == d
    ensures o.result.Ok? ==> GetBinaryMetadata(c, o.disk, identifier) == Ok(Utf8Encode(json))
  {
    match MetadataLocation(c, identifier)
    case Err(e) => Outcome(d, Err(e))
    case Ok(loc) => WriteFile(d, loc, Utf8Encode(json))
  }

  /** getBinaryMetadata: the bytes of the metadata file. */
  function GetBinaryMetadata(c: Config, d: Disk, identifier: string): (r: Result<Bytes>)
    ensures RootFileName(identifier + ".metadata") ==>
      r == if identifier + ".metadata" in d.root then Ok(d.root[identifier + ".metadata"]) else Err(FsError)
  {
    assert RootFileName(identifier + ".metadata") ==>
      MetadataLocation(c, identifier) == Ok(File(RootDir, identifier + ".metadata")) by {
      if RootFileName(identifier + ".metadata") {
        ResolveRootFileName(c.storagePath, identifier + ".metadata");
      }
    }
    var loc :- MetadataLocation(c, identifier);
    ReadFile(d, loc)
  }

  /** addBinaryIdToPersistMeta: when the execution's persistence marker for this hour does
      not exist yet, creates it holding the identifier. */
  function AddBinaryIdToPersistMeta(c: Config, d: Disk, executionId: string, identifier: string, now: nat): (o: Outcome<()>)
    ensures o.result.Err? ==> o.disk == d
    ensures o.result.Ok? ==>
      PersistMarkerLocation(c, executionId, now).Ok? &&
      ReadFile(o.disk, PersistMarkerLocation(c, executionId, now).value).Ok?
  {
    match PersistMarkerLocation(c, executionId, now)
    case Err(e) => Outcome(d, Err(e))
    case Ok(loc) =>
      if ReadFile(d, loc).Ok? then Outcome(d, Ok(())) else WriteFile(d, loc, Utf8Encode(identifier))
  }

  /** saveToLocalStorage. */
  function SaveToLocalStorage(c: Config, d: Disk, data: Bytes, identifier: string): (o: Outcome<()>)
    ensures o.result.Err? ==> o.disk == d
    ensures o.result.Ok? ==> RetrieveBinaryDataByIdentifier(c, o.disk, identifier) == Ok(data)
  {
    match BinaryLocation(c, identifier)
    case Err(e) => Outcome(d, Err(e))
    case Ok(loc) => WriteFile(d, loc, data)
  }

  /** copyFileToLocalStorage: `source` is what reading the outside file gives. */
  function CopyFileToLocalStorage(c: Config, d: Disk, source: Result<Bytes>, identifier: string): (o: Outcome<()>)
    ensures o.result.Err? ==> o.disk == d
    ensures o.result.Ok? ==> source.Ok? && RetrieveBinaryDataByIdentifier(c, o.disk, identifier) == source
  {
    match BinaryLocation(c, identifier)
    case Err(e) => Outcome(d, Err(e))
    case Ok(loc) =>
      match source
      case Err(e) => Outcome(d, Err(e))
      case Ok(bytes) => WriteFile(d, loc, bytes)
  }

  /** The identifier once the second step of a store has succeeded. */
  function Settle(o: Outcome<()>, identifier: string): Outcome<string> {
    Outcome(o.disk, if o.result.Ok? then Ok(identifier) else Err(o.result.error))
  }

  /** storeBinaryData: a new identifier from the execution id and the token, the persistence
      marker, then the payload. */
  function StoreBinaryData(c: Config, d: Disk, data: Bytes, executionId: string, token: string, now: nat): (o: Outcome<string>)
    ensures o.result.Ok? ==>
      o.result.value == executionId + token &&
      RetrieveBinaryDataByIdentifier(c, o.disk, o.result.value) == Ok(data)
  {
    var identifier := GenerateFileName(executionId, token);
    var marked := AddBinaryIdToPersistMeta(c, d, executionId, identifier, now);
    if marked.result.Err? then Outcome(marked.disk, Err(marked.result.error))
    else Settle(SaveToLocalStorage(c, marked.disk, data, identifier), identifier)
  }

  /** copyBinaryFile: as storeBinaryData, with the payload copied from a file outside the store. */
  function CopyBinaryFile(c: Config, d: Disk, source: Result<Bytes>, executionId: string, token: string, now: nat): (o: Outcome<string>)
    ensures o.result.Ok? ==>
      o.result.value == executionId + token && source.Ok? &&
      RetrieveBinaryDataByIdentifier(c, o.disk, o.result.value) == source
  {
    var identifier := GenerateFileName(executionId, token);
    var marked := AddBinaryIdToPersistMeta(c, d, executionId, identifier, now);
    if marked.result.Err? then Outcome(marked.disk, Err(marked.result.error))
    else Settle(CopyFileToLocalStorage(c, marked.disk, source, identifier), identifier)
  }

  /** retrieveBinaryDataByIdentifier: the payload; an unreadable one is "Error finding file". */
  function RetrieveBinaryDataByIdentifier(c: Config, d: Disk, identifier: string): (r: Result<Bytes>)
    ensures r.Err? ==> r.error == InvalidPath || r.error == ErrorFindingFile
    ensures r.Ok? ==> BinaryLocation(c, identifier).Ok? && ReadFile(d, BinaryLocation(c, identifier).value) == r
  {
    match BinaryLocation(c, identifier)
    case Err(e) => Err(e)
    case Ok(loc) => if ReadFile(d, loc).Ok? then ReadFile(d, loc) else Err(ErrorFindingFile)
  }

  /** markDataForDeletionByExecutionId: an empty deletion marker expiring one TTL from now. */
  function MarkDataForDeletionByExecutionId(c: Config, d: Disk, executionId: string, now: nat): (o: Outcome<()>)
    ensures o.result.Err? ==> o.disk == d
    ensures o.result.Ok? ==>
      DeletionMarkerLocation(c, executionId, now).Ok? &&
      ReadFile(o.disk, DeletionMarkerLocation(c, executionId, now).value) == Ok([])
  {
    match DeletionMarkerLocation(c, executionId, now)
    case Err(e) => Outcome(d, Err(e))
    case Ok(loc) => WriteFile(d, loc, [])
  }

  /** duplicateBinaryDataByIdentifier: copies the payload under a new identifier made from
      `prefix` and the token. */
  function DuplicateBinaryDataByIdentifier(c: Config, d: Disk, binaryDataId: string, prefix: string, token: string): (o: Outcome<string>)
    ensures o.result.Err? ==> o.disk == d
    ensures o.result.Ok? ==>
      o.result.value == prefix + token &&
      RetrieveBinaryDataByIdentifier(c, o.disk, prefix + token) == RetrieveBinaryDataByIdentifier(c, d, binaryDataId)
  {
    var newId := GenerateFileName(prefix, token);
    var source := BinaryLocation(c, binaryDataId);
    var target := BinaryLocation(c, newId);
    if source.Err? then Outcome(d, Err(source.error))
    else if target.Err? then Outcome(d, Err(target.error))
    else match ReadFile(d, source.value)
      case Err(e) => Outcome(d, Err(e))
      case Ok(bytes) => Settle(WriteFile(d, target.value, bytes), newId)
  }

  /** The files of the storage directory whose names do not contain `executionId`. */
  function RootFilesWithout(root: Dir, executionId: string): Dir {
    map f | f in root && !Contains(f, executionId) :: root[f]
  }

  /** fs.rm of the marker directories fails, and so does deleteBinaryDataByExecutionId
      whenever the execution id is part of either directory's name. */
  predicate DeletionFails(executionId: string) {
    Contains(MetaDirName, executionId) || Contains(PersistMetaDirName, executionId)
  }

  /** deleteBinaryDataByExecutionId: the listing of the storage directory holds its files and
      the two marker directories; every name containing the execution id is removed, and the
      call fails when that includes a marker directory, after the files are gone. */
  function DeleteBinaryDataByExecutionId(c: Config, d: Disk, executionId: string): (o: Outcome<()>)
    ensures o.disk.meta == d.meta && o.disk.persistMeta == d.persistMeta
    ensures o.disk.root.Keys <= d.root.Keys
    ensures o.result.Ok? <==> !DeletionFails(executionId)
  {
    Outcome(d.(root := RootFilesWithout(d.root, executionId)),
      if DeletionFails(executionId) then Err(FsError) else Ok(()))
  }

  /** deleteBinaryDataByIdentifier. */
  function DeleteBinaryDataByIdentifier(c: Config, d: Disk, identifier: string): (o: Outcome<()>)
    ensures o.result.Err? ==> o.disk == d
    ensures o.result.Ok? ==> RetrieveBinaryDataByIdentifier(c, o.disk, identifier) == Err(ErrorFindingFile)
  {
    match BinaryLocation(c, identifier)
    case Err(e) => Outcome(d, Err(e))
    case Ok(loc) => RemoveFile(d, loc)
  }

  /** The prefix of the persistence markers of an execution. */
  function PersistMarkerPrefix(executionId: string): string {
    PersistedMetaFilePrefix + "_" + executionId + "_"
  }

  /** persistBinaryDataForExecutionId: removes the persistence markers of the execution. */
  function PersistBinaryDataForExecutionId(c: Config, d: Disk, executionId: string): (o: Outcome<()>)
    ensures o.result.Ok? && o.disk.root == d.root && o.disk.meta == d.meta
    ensures forall f | f in o.disk.persistMeta ::
      f in d.persistMeta && o.disk.persistMeta[f] == d.persistMeta[f] && !StartsWith(f, PersistMarkerPrefix(executionId))
    ensures forall f | f in d.persistMeta && !StartsWith(f, PersistMarkerPrefix(executionId)) :: f in o.disk.persistMeta
  {
    var prefix := PersistMarkerPrefix(executionId);
    Outcome(d.(persistMeta := map f | f in d.persistMeta && !StartsWith(f, prefix) :: d.persistMeta[f]), Ok(()))
  }

  // ----- what the store keeps true of its directories -----

  /** Every file directly in the storage directory has a name the store can address, and
      every marker a plain name. */
  predicate ValidDisk(d: Disk) {
    && (forall f | f in d.root :: RootFileName(f))
    && (forall f | f in d.meta :: IsSegment(f))
    && (forall f | f in d.persistMeta :: IsSegment(f))
  }

  /** A location a file may be created at without breaking ValidDisk. */
  predicate Addressable(loc: Location) {
    loc.File? ==> IsSegment(loc.name) && (loc.place == RootDir ==> RootFileName(loc.name))
  }

  /** Every location resolveStoragePath lets through is one the store may write. */
  lemma ResolvedAddressable(storagePath: string, args: seq<string>)
    requires ResolveLocation(storagePath, args).Ok?
    ensures Addressable(ResolveLocation(storagePath, args).value)
  {
    if ResolveLocation(storagePath, args).value.File? {
      LocatedFileName(storagePath, args);
    }
  }

  /** Writing at an addressable location and removing any file keep the directories valid. */
  lemma WriteAndRemoveKeepValid(d: Disk, loc: Location, content: Bytes)
    requires ValidDisk(d)
    ensures Addressable(loc) ==> ValidDisk(WriteFile(d, loc, content).disk)
    ensures ValidDisk(RemoveFile(d, loc).disk)
  {
  }

  // ----- lemmas -----

  /** The persistence marker for `now` names a file of the persistMeta directory. */
  lemma PersistMarkerLocated(c: Config, executionId: string, now: nat)
    requires '/' !in executionId
    ensures PersistMarkerLocation(c, executionId, now) ==
      Ok(File(PersistMetaDir, PersistMarkerName(executionId, PersistExpiry(now, c.persistedDataTTL))))
  {
    var expiry := PersistExpiry(now, c.persistedDataTTL);
    MarkerNamesAreSegments(executionId, expiry);
    ResolveMarkerFile(c.storagePath, PersistMetaDirName, PersistMarkerName(executionId, expiry));
  }

  /** Whatever location a successful store used, the payload can be read back from it. */
  lemma StoreThenRetrieve(c: Config, d: Disk, data: Bytes, executionId: string, token: string, now: nat)
    ensures var o := StoreBinaryData(c, d, data, executionId, token, now);
      o.result.Ok? ==>
        && o.result.value == executionId + token
        && RetrieveBinaryDataByIdentifier(c, o.disk, executionId + token) == Ok(data)
        && GetFileSize(c, o.disk, executionId + token) == Ok(|data|)
  {
  }

  /** Storing under a plain identifier succeeds, writes exactly the payload and, unless this
      hour's marker exists already, the persistence marker holding the identifier. */
  lemma StoreEffect(c: Config, d: Disk, data: Bytes, executionId: string, token: string, now: nat)
    requires RootFileName(executionId + token) && '/' !in executionId
    ensures var o := StoreBinaryData(c, d, data, executionId, token, now);
      var marker := PersistMarkerName(executionId, PersistExpiry(now, c.persistedDataTTL));
      && o.result == Ok(executionId + token)
      && o.disk.root == d.root[executionId + token := data]
      && o.disk.meta == d.meta
      && o.disk.persistMeta ==
        (if marker in d.persistMeta then d.persistMeta else d.persistMeta[marker := Utf8Encode(executionId + token)])
  {
    var identifier := executionId + token;
    PersistMarkerWritten(c, d, executionId, identifier, now);
    var marked := AddBinaryIdToPersistMeta(c, d, executionId, identifier, now);
    ResolveRootFileName(c.storagePath, identifier);
    assert BinaryLocation(c, identifier) == Ok(File(RootDir, identifier));
    assert SaveToLocalStorage(c, marked.disk, data, identifier) ==
      Outcome(marked.disk.(root := marked.disk.root[identifier := data]), Ok(()));
  }

  /** copyBinaryFile stores what a readable source holds exactly as storeBinaryData would. */
  lemma CopyOfReadableSource(c: Config, d: Disk, bytes: Bytes, executionId: string, token: string, now: nat)
    ensures CopyBinaryFile(c, d, Ok(bytes), executionId, token, now) ==
      StoreBinaryData(c, d, bytes, executionId, token, now)
  {
    var identifier := executionId + token;
    var marked := AddBinaryIdToPersistMeta(c, d, executionId, identifier, now);
    assert CopyFileToLocalStorage(c, marked.disk, Ok(bytes), identifier) ==
      SaveToLocalStorage(c, marked.disk, bytes, identifier);
  }

  /** An unreadable source fails the copy after the persistence marker has been written. */
  lemma CopyOfUnreadableSource(c: Config, d: Disk, error: Error, executionId: string, token: string, now: nat)
    requires BinaryLocation(c, executionId + token).Ok?
    requires AddBinaryIdToPersistMeta(c, d, executionId, executionId + token, now).result.Ok?
    ensures CopyBinaryFile(c, d, Err(error), executionId, token, now) ==
      Outcome(AddBinaryIdToPersistMeta(c, d, executionId, executionId + token, now).disk, Err(error))
  {
    var identifier := executionId + token;
    var marked := AddBinaryIdToPersistMeta(c, d, executionId, identifier, now);
    assert CopyFileToLocalStorage(c, marked.disk, Err(error), identifier) == Outcome(marked.disk, Err(error));
  }

  /** Retrieving an identifier with no payload fails with "Error finding file", and one that
      leaves the storage directory fails with "Invalid path detected". */
  lemma RetrieveAbsent(c: Config, d: Disk, identifier: string)
    ensures RootFileName(identifier) && identifier !in d.root ==>
      RetrieveBinaryDataByIdentifier(c, d, identifier) == Err(ErrorFindingFile)
    ensures RootFileName(identifier) && identifier in d.root ==>
      RetrieveBinaryDataByIdentifier(c, d, identifier) == Ok(d.root[identifier])
    ensures StartsWith(identifier, "..") && identifier != ".." && '/' !in identifier ==>
      RetrieveBinaryDataByIdentifier(c, d, identifier) == Err(InvalidPath)
  {
    if RootFileName(identifier) {
      ResolveRootFileName(c.storagePath, identifier);
    }
    if StartsWith(identifier, "..") && identifier != ".." && '/' !in identifier {
      DotDotNameRejected(c.storagePath, identifier);
    }
  }

  /** The metadata written for an identifier is read back as the UTF-8 encoding of its JSON
      text, which no other text shares, and writing it touches nothing but the metadata
      file. */
  lemma MetadataRoundTrip(c: Config, d: Disk, identifier: string, json: string, other: string)
    ensures StoreBinaryMetadata(c, d, identifier, json).result.Ok? ==>
      GetBinaryMetadata(c, StoreBinaryMetadata(c, d, identifier, json).disk, identifier) == Ok(Utf8Encode(json))
    ensures var o := StoreBinaryMetadata(c, d, identifier, json);
      o.result.Ok? && GetBinaryMetadata(c, o.disk, identifier) == Ok(Utf8Encode(other)) ==> other == json
    ensures RootFileName(identifier + ".metadata") ==>
      StoreBinaryMetadata(c, d, identifier, json) ==
        Outcome(d.(root := d.root[identifier + ".metadata" := Utf8Encode(json)]), Ok(()))
  {
    if RootFileName(identifier + ".metadata") {
      ResolveRootFileName(c.storagePath, identifier + ".metadata");
    }
    Utf8EncodeInjective(json, other);
  }

  /** A second persistence marker in the same hour bucket finds the first and changes nothing. */
  lemma PersistMarkerIdempotent(c: Config, d: Disk, executionId: string, id1: string, id2: string, now1: nat, now2: nat)
    requires now1 / Hour == now2 / Hour
    requires AddBinaryIdToPersistMeta(c, d, executionId, id1, now1).result.Ok?
    ensures var first := AddBinaryIdToPersistMeta(c, d, executionId, id1, now1).disk;
      AddBinaryIdToPersistMeta(c, first, executionId, id2, now2) == Outcome(first, Ok(()))
  {
    SameHourSameExpiry(now1, now2, c.persistedDataTTL);
  }

  /** The persistence marker is written only when absent, holds the identifier, and nothing
      else changes. */
  lemma PersistMarkerWritten(c: Config, d: Disk, executionId: string, identifier: string, now: nat)
    requires '/' !in executionId
    ensures var marker := PersistMarkerName(executionId, PersistExpiry(now, c.persistedDataTTL));
      AddBinaryIdToPersistMeta(c, d, executionId, identifier, now) ==
        Outcome(if marker in d.persistMeta then d
                else d.(persistMeta := d.persistMeta[marker := Utf8Encode(identifier)]), Ok(()))
  {
    PersistMarkerLocated(c, executionId, now);
  }

  /** Marking an execution adds exactly one empty deletion marker expiring one TTL from now;
      payloads and other markers are untouched. */
  lemma MarkAddsOneEmptyMarker(c: Config, d: Disk, executionId: string, now: nat)
    requires '/' !in executionId
    ensures MarkDataForDeletionByExecutionId(c, d, executionId, now) ==
      Outcome(d.(meta := d.meta[DeletionMarkerName(executionId, now + c.binaryDataTTL) := []]), Ok(()))
  {
    var name := DeletionMarkerName(executionId, now + c.binaryDataTTL);
    MarkerNamesAreSegments(executionId, now + c.binaryDataTTL);
    ResolveMarkerFile(c.storagePath, MetaDirName, name);
  }

  /** Duplication yields the new identifier `prefix + token`, holding the same bytes; the
      original and every other file, metadata included, stay as they were. A missing original
      is an error that changes nothing. */
  lemma DuplicateEffect(c: Config, d: Disk, binaryDataId: string, prefix: string, token: string)
    requires RootFileName(binaryDataId) && RootFileName(prefix + token)
    ensures var o := DuplicateBinaryDataByIdentifier(c, d, binaryDataId, prefix, token);
      if binaryDataId in d.root then
        && o.result == Ok(prefix + token)
        && o.disk == d.(root := d.root[prefix + token := d.root[binaryDataId]])
        && o.disk.root[binaryDataId] == d.root[binaryDataId]
        && (prefix + token + ".metadata" in o.disk.root <==> prefix + token + ".metadata" in d.root)
      else o == Outcome(d, Err(FsError))
  {
    ResolveRootFileName(c.storagePath, binaryDataId);
    ResolveRootFileName(c.storagePath, prefix + token);
  }

  /** Any successful duplication answers with `prefix + token`. */
  lemma DuplicateIdentifier(c: Config, d: Disk, binaryDataId: string, prefix: string, token: string)
    requires DuplicateBinaryDataByIdentifier(c, d, binaryDataId, prefix, token).result.Ok?
    ensures DuplicateBinaryDataByIdentifier(c, d, binaryDataId, prefix, token).result.value == prefix + token
    ensures RetrieveBinaryDataByIdentifier(c, DuplicateBinaryDataByIdentifier(c, d, binaryDataId, prefix, token).disk, prefix + token)
      == RetrieveBinaryDataByIdentifier(c, d, binaryDataId)
  {
  }

  /** Deleting by execution id removes exactly the files whose names contain it, never a
      marker, and fails exactly when the id is part of a marker directory's name. */
  lemma DeleteByExecutionEffect(c: Config, d: Disk, executionId: string, f: string)
    ensures var o := DeleteBinaryDataByExecutionId(c, d, executionId);
      && (f in o.disk.root <==> f in d.root && !Contains(f, executionId))
      && (f in o.disk.root ==> o.disk.root[f] == d.root[f])
      && o.disk.meta == d.meta && o.disk.persistMeta == d.persistMeta
      && (o.result.Ok? <==> !Contains(MetaDirName, executionId) && !Contains(PersistMetaDirName, executionId))
  {
  }

  /** Every file stored for an execution, payload or metadata, goes when the execution's
      data is deleted. */
  lemma DeleteByExecutionRemovesStored(c: Config, d: Disk, executionId: string, token: string)
    ensures executionId + token !in DeleteBinaryDataByExecutionId(c, d, executionId).disk.root
    ensures executionId + token + ".metadata" !in DeleteBinaryDataByExecutionId(c, d, executionId).disk.root
  {
    assert OccursAt(executionId + token, executionId, 0);
    assert OccursAt(executionId + token + ".metadata", executionId, 0);
  }

  /** Matching by substring reaches other executions: deleting the data of execution "1"
      also removes every payload of execution "21". */
  lemma DeleteByExecutionReachesOthers(c: Config, d: Disk, token: string)
    ensures "21" + token !in DeleteBinaryDataByExecutionId(c, d, "1").disk.root
  {
    assert OccursAt("21" + token, "1", 1);
  }

  /** Deleting by identifier removes exactly that payload; a missing one is an error. */
  lemma DeleteByIdentifierEffect(c: Config, d: Disk, identifier: string)
    requires RootFileName(identifier)
    ensures DeleteBinaryDataByIdentifier(c, d, identifier) ==
      if identifier in d.root then Outcome(d.(root := d.root - {identifier}), Ok(()))
      else Outcome(d, Err(FsError))
  {
    ResolveRootFileName(c.storagePath, identifier);
  }

  /** Persisting an execution removes exactly the persistence markers with its prefix; for
      execution ids without '_' these are exactly its own markers. Payloads and deletion
      markers are untouched. */
  lemma PersistClearsOwnMarkers(c: Config, d: Disk, executionId: string, other: string, expiry: int)
    requires '_' !in executionId && '_' !in other
    ensures var o := PersistBinaryDataForExecutionId(c, d, executionId);
      var marker := PersistMarkerName(other, expiry);
      && o.result == Ok(())
      && o.disk.root == d.root && o.disk.meta == d.meta
      && (marker in o.disk.persistMeta <==> marker in d.persistMeta && other != executionId)
      && (forall f | f in o.disk.persistMeta :: f in d.persistMeta && o.disk.persistMeta[f] == d.persistMeta[f])
  {
    PersistPrefixSelectsExecution(executionId, other, expiry);
  }
}
