/** The class FileSystemBinaryDataManager (FileSystem.ts:17-246): its configuration, and the
    three directories under its storage path, which its operations update in place. Each
    operation is proved to have the effect the functions of the Storage and Sweep modules
    give it, and to keep every file of the store addressable. */
module Manager {
  import opened Text
  import opened Results
  import opened Paths
  import opened Markers
  import opened Storage
  import opened Sweep

  /** What is left of the storage directory's files `root0` while the names in `pending`
      are still to be looked at by deleteBinaryDataByExecutionId. */
  function Remaining(root0: Dir, pending: set<string>, executionId: string): Dir {
    map f | f in root0 && (f in pending || !Contains(f, executionId)) :: root0[f]
  }

  lemma RemainingStep(root0: Dir, pending: set<string>, name: string, executionId: string)
    requires name in pending
    ensures Remaining(root0, pending - {name}, executionId) ==
      if name in root0 && Contains(name, executionId) then Remaining(root0, pending, executionId) - {name}
      else Remaining(root0, pending, executionId)
  {
  }

  class FileSystemBinaryDataManager {
    const storagePath: string
    /** ttl.binaryData, in milliseconds. */
    const binaryDataTTL: int
    /** ttl.persistedData, in milliseconds. */
    const persistedDataTTL: int

    /** The payload and `.metadata` files directly in the storage directory. */
    var root: Dir
    /** The deletion markers, in `meta/`. */
    var meta: Dir
    /** The persistence markers, in `persistMeta/`. */
    var persistMeta: Dir

    function State(): Disk
      reads this
    {
      Disk(root, meta, persistMeta)
    }

    function Configuration(): Config {
      Config(storagePath, binaryDataTTL, persistedDataTTL)
    }

    ghost predicate Valid()
      reads this
    {
      ValidDisk(State())
    }

    /** The TTLs are given in minutes and kept in milliseconds (lines 22-28). The directory
        tree already on disk is `existing`; the constructor itself touches nothing. */
    constructor(localStoragePath: string, binaryDataTTLMinutes: int, persistedBinaryDataTTLMinutes: int, existing: Disk)
      requires ValidDisk(existing)
      ensures storagePath == localStoragePath
      ensures binaryDataTTL == TtlMillis(binaryDataTTLMinutes)
      ensures persistedDataTTL == TtlMillis(persistedBinaryDataTTLMinutes)
      ensures State() == existing && Valid()
    {
      storagePath := localStoragePath;
      binaryDataTTL := binaryDataTTLMinutes * Minute;
      persistedDataTTL := persistedBinaryDataTTLMinutes * Minute;
      root := existing.root;
      meta := existing.meta;
      persistMeta := existing.persistMeta;
    }

    // ----- the fs/promises calls, on this store's directories -----

    method ReadFileAt(loc: Location) returns (r: Result<Bytes>)
      ensures r == ReadFile(State(), loc)
    {
      if loc.File? {
        var files := match loc.place
          case RootDir => root
          case MetaDir => meta
          case PersistMetaDir => persistMeta;
        if loc.name in files {
          return Ok(files[loc.name]);
        }
      }
      return Err(FsError);
    }

    method WriteFileAt(loc: Location, content: Bytes) returns (r: Result<()>)
      requires Valid() && Addressable(loc)
      modifies this
      ensures Valid()
      ensures Outcome(State(), r) == WriteFile(old(State()), loc, content)
    {
      WriteAndRemoveKeepValid(State(), loc, content);
      if !loc.File? {
        return Err(FsError);
      }
      match loc.place {
        case RootDir => root := root[loc.name := content];
        case MetaDir => meta := meta[loc.name := content];
        case PersistMetaDir => persistMeta := persistMeta[loc.name := content];
      }
      r := Ok(());
    }

    method RemoveFileAt(loc: Location) returns (r: Result<()>)
      requires Valid()
      modifies this
      ensures Valid()
      ensures Outcome(State(), r) == RemoveFile(old(State()), loc)
    {
      WriteAndRemoveKeepValid(State(), loc, []);
      var present := ReadFileAt(loc);
      if present.Err? {
        return Err(FsError);
      }
      match loc.place {
        case RootDir => root := root - {loc.name};
        case MetaDir => meta := meta - {loc.name};
        case PersistMetaDir => persistMeta := persistMeta - {loc.name};
      }
      r := Ok(());
    }

    // ----- the operations -----

    /** getFileSize (lines 44-47). */
    method GetFileSize(identifier: string) returns (r: Result<nat>)
      ensures r == Storage.GetFileSize(Configuration(), State(), identifier)
      ensures r.Ok? ==>
        && Storage.RetrieveBinaryDataByIdentifier(Configuration(), State(), identifier).Ok?
        && r.value == |Storage.RetrieveBinaryDataByIdentifier(Configuration(), State(), identifier).value|
    {
      var path := ResolveLocation(storagePath, [identifier]);
      if path.Err? {
        return Err(path.error);
      }
      var bytes := ReadFileAt(path.value);
      if bytes.Err? {
        return Err(bytes.error);
      }
      return Ok(|bytes.value|);
    }

    /** storeBinaryMetadata (lines 56-60). */
    method StoreBinaryMetadata(identifier: string, json: string) returns (r: Result<()>)
      requires Valid()
      modifies this
      ensures Valid()
      ensures Outcome(State(), r) == Storage.StoreBinaryMetadata(Configuration(), old(State()), identifier, json)
      ensures r.Ok? ==> Storage.GetBinaryMetadata(Configuration(), State(), identifier) == Ok(Utf8Encode(json))
    {
      MetadataRoundTrip(Configuration(), State(), identifier, json, json);
      var path := ResolveLocation(storagePath, [identifier + ".metadata"]);
      if path.Err? {
        return Err(path.error);
      }
      ResolvedAddressable(storagePath, [identifier + ".metadata"]);
      r := WriteFileAt(path.value, Utf8Encode(json));
    }

    /** getBinaryMetadata (lines 62-64), without the JSON decoding. */
    method GetBinaryMetadata(identifier: string) returns (r: Result<Bytes>)
      ensures r == Storage.GetBinaryMetadata(Configuration(), State(), identifier)
    {
      var path := ResolveLocation(storagePath, [identifier + ".metadata"]);
      if path.Err? {
        return Err(path.error);
      }
      r := ReadFileAt(path.value);
    }

    /** addBinaryIdToPersistMeta (lines 108-122). */
    method AddBinaryIdToPersistMeta(executionId: string, identifier: string, now: nat) returns (r: Result<()>)
      requires Valid()
      modifies this
      ensures Valid()
      ensures Outcome(State(), r) ==
        Storage.AddBinaryIdToPersistMeta(Configuration(), old(State()), executionId, identifier, now)
    {
      ghost var expected := Storage.AddBinaryIdToPersistMeta(Configuration(), State(), executionId, identifier, now);
      var timeAtNextHour := now + Hour - now % Hour;
      var timeoutTime := timeAtNextHour + persistedDataTTL;
      assert timeoutTime == PersistExpiry(now, persistedDataTTL);
      var args := [PersistMetaDirName, PersistMarkerName(executionId, timeoutTime)];
      var filePath := ResolveLocation(storagePath, args);
      assert filePath == PersistMarkerLocation(Configuration(), executionId, now);
      if filePath.Err? {
        return Err(filePath.error);
      }
      var existing := ReadFileAt(filePath.value);
      if existing.Ok? {
        assert expected == Outcome(State(), Ok(()));
        return Ok(());
      }
      assert expected == WriteFile(State(), filePath.value, Utf8Encode(identifier));
      ResolvedAddressable(storagePath, args);
      r := WriteFileAt(filePath.value, Utf8Encode(identifier));
    }

    /** saveToLocalStorage (lines 227-229). */
    method SaveToLocalStorage(data: Bytes, identifier: string) returns (r: Result<()>)
      requires Valid()
      modifies this
      ensures Valid()
      ensures Outcome(State(), r) == Storage.SaveToLocalStorage(Configuration(), old(State()), data, identifier)
    {
      var path := ResolveLocation(storagePath, [identifier]);
      if path.Err? {
        return Err(path.error);
      }
      ResolvedAddressable(storagePath, [identifier]);
      r := WriteFileAt(path.value, data);
    }

    /** copyFileToLocalStorage (lines 223-225); `source` is what reading the outside file gives. */
    method CopyFileToLocalStorage(source: Result<Bytes>, identifier: string) returns (r: Result<()>)
      requires Valid()
      modifies this
      ensures Valid()
      ensures Outcome(State(), r) == Storage.CopyFileToLocalStorage(Configuration(), old(State()), source, identifier)
    {
      var path := ResolveLocation(storagePath, [identifier]);
      if path.Err? {
        return Err(path.error);
      }
      if source.Err? {
        return Err(source.error);
      }
      ResolvedAddressable(storagePath, [identifier]);
      r := WriteFileAt(path.value, source.value);
    }

    /** storeBinaryData (lines 66-71): the identifier is the execution id followed by the
        token, and what was stored is read back unchanged. */
    method StoreBinaryData(data: Bytes, executionId: string, token: string, now: nat) returns (r: Result<string>)
      requires Valid()
      modifies this
      ensures Valid()
      ensures Outcome(State(), r) == Storage.StoreBinaryData(Configuration(), old(State()), data, executionId, token, now)
      ensures r.Ok? ==>
        && r.value == executionId + token
        && Storage.RetrieveBinaryDataByIdentifier(Configuration(), State(), r.value) == Ok(data)
    {
      StoreThenRetrieve(Configuration(), State(), data, executionId, token, now);
      var binaryDataId := GenerateFileName(executionId, token);
      var marked := AddBinaryIdToPersistMeta(executionId, binaryDataId, now);
      if marked.Err? {
        return Err(marked.error);
      }
      var saved := SaveToLocalStorage(data, binaryDataId);
      if saved.Err? {
        return Err(saved.error);
      }
      return Ok(binaryDataId);
    }

    /** copyBinaryFile (lines 49-54). */
    method CopyBinaryFile(source: Result<Bytes>, executionId: string, token: string, now: nat) returns (r: Result<string>)
      requires Valid()
      modifies this
      ensures Valid()
      ensures Outcome(State(), r) == Storage.CopyBinaryFile(Configuration(), old(State()), source, executionId, token, now)
    {
      var binaryDataId := GenerateFileName(executionId, token);
      var marked := AddBinaryIdToPersistMeta(executionId, binaryDataId, now);
      if marked.Err? {
        return Err(marked.error);
      }
      var copied := CopyFileToLocalStorage(source, binaryDataId);
      if copied.Err? {
        return Err(copied.error);
      }
      return Ok(binaryDataId);
    }

    /** retrieveBinaryDataByIdentifier and retrieveFromLocalStorage (lines 77-79, 231-238). */
    method RetrieveBinaryDataByIdentifier(identifier: string) returns (r: Result<Bytes>)
      ensures r == Storage.RetrieveBinaryDataByIdentifier(Configuration(), State(), identifier)
    {
      var filePath := ResolveLocation(storagePath, [identifier]);
      if filePath.Err? {
        return Err(filePath.error);
      }
      var bytes := ReadFileAt(filePath.value);
      if bytes.Err? {
        return Err(ErrorFindingFile);
      }
      return bytes;
    }

    /** markDataForDeletionByExecutionId (lines 89-95). */
    method MarkDataForDeletionByExecutionId(executionId: string, now: nat) returns (r: Result<()>)
      requires Valid()
      modifies this
      ensures Valid()
      ensures Outcome(State(), r) ==
        Storage.MarkDataForDeletionByExecutionId(Configuration(), old(State()), executionId, now)
    {
      var tt := now + binaryDataTTL;
      var args := [MetaDirName, DeletionMarkerName(executionId, tt)];
      var path := ResolveLocation(storagePath, args);
      assert path == DeletionMarkerLocation(Configuration(), executionId, now);
      if path.Err? {
        return Err(path.error);
      }
      ResolvedAddressable(storagePath, args);
      r := WriteFileAt(path.value, []);
    }

    /** duplicateBinaryDataByIdentifier (lines 160-168). */
    method DuplicateBinaryDataByIdentifier(binaryDataId: string, prefix: string, token: string) returns (r: Result<string>)
      requires Valid()
      modifies this
      ensures Valid()
      ensures Outcome(State(), r) ==
        Storage.DuplicateBinaryDataByIdentifier(Configuration(), old(State()), binaryDataId, prefix, token)
    {
      var newBinaryDataId := GenerateFileName(prefix, token);
      var source := ResolveLocation(storagePath, [binaryDataId]);
      if source.Err? {
        return Err(source.error);
      }
      var target := ResolveLocation(storagePath, [newBinaryDataId]);
      if target.Err? {
        return Err(target.error);
      }
      var bytes := ReadFileAt(source.value);
      if bytes.Err? {
        return Err(bytes.error);
      }
      ResolvedAddressable(storagePath, [newBinaryDataId]);
      var written := WriteFileAt(target.value, bytes.value);
      if written.Err? {
        return Err(written.error);
      }
      return Ok(newBinaryDataId);
    }

    /** deleteBinaryDataByExecutionId (lines 170-182): every name listed in the storage
        directory that the pattern `${executionId}_*` matches is removed. For an id with no
        character of regular-expression syntax the pattern matches exactly the names that
        contain the id. */
    method DeleteBinaryDataByExecutionId(executionId: string) returns (r: Result<()>)
      requires Valid() && RegexSafe(executionId)
      modifies this
      ensures Valid()
      ensures Outcome(State(), r) == Storage.DeleteBinaryDataByExecutionId(Configuration(), old(State()), executionId)
    {
      var root0 := root;
      var filenames := root.Keys + {MetaDirName, PersistMetaDirName};
      var pending := filenames;
      var failed := false;
      while pending != {}
        invariant Valid()
        invariant pending <= filenames
        invariant meta == old(meta) && persistMeta == old(persistMeta)
        invariant root == Remaining(root0, pending, executionId)
        invariant failed <==>
          (MetaDirName !in pending && Contains(MetaDirName, executionId)) ||
          (PersistMetaDirName !in pending && Contains(PersistMetaDirName, executionId))
        decreases pending
      {
        var filename :| filename in pending;
        RemainingStep(root0, pending, filename, executionId);
        var failedHere := RemoveIfMatching(filename, executionId);
        failed := failed || failedHere;
        pending := pending - {filename};
      }
      assert root == RootFilesWithout(root0, executionId);
      r := if failed then Err(FsError) else Ok(());
    }

    /** One name of the listing in deleteBinaryDataByExecutionId: removed when it contains
        the execution id; removing a marker directory fails. */
    method RemoveIfMatching(filename: string, executionId: string) returns (failed: bool)
      requires Valid()
      requires filename in root || filename == MetaDirName || filename == PersistMetaDirName
      modifies this
      ensures Valid()
      ensures meta == old(meta) && persistMeta == old(persistMeta)
      ensures root == if filename in old(root) && Contains(filename, executionId) then old(root) - {filename} else old(root)
      ensures failed <==> filename !in old(root) && Contains(filename, executionId)
    {
      failed := false;
      if Contains(filename, executionId) {
        var path := ResolveLocation(storagePath, [filename]);
        if filename in root {
          ResolveRootFileName(storagePath, filename);
          var removed := RemoveFileAt(path.value);
        } else {
          ResolveMarkerDirectory(storagePath, filename);
          var removed := RemoveFileAt(path.value);
          failed := true;
        }
      }
    }

    /** deleteBinaryDataByIdentifier and deleteFromLocalStorage (lines 184-186, 219-221). */
    method DeleteBinaryDataByIdentifier(identifier: string) returns (r: Result<()>)
      requires Valid()
      modifies this
      ensures Valid()
      ensures Outcome(State(), r) == Storage.DeleteBinaryDataByIdentifier(Configuration(), old(State()), identifier)
    {
      var path := ResolveLocation(storagePath, [identifier]);
      if path.Err? {
        return Err(path.error);
      }
      r := RemoveFileAt(path.value);
    }

    /** persistBinaryDataForExecutionId (lines 188-201). */
    method PersistBinaryDataForExecutionId(executionId: string) returns (r: Result<()>)
      requires Valid()
      modifies this
      ensures Valid()
      ensures Outcome(State(), r) == Storage.PersistBinaryDataForExecutionId(Configuration(), old(State()), executionId)
    {
      var prefix := PersistedMetaFilePrefix + "_" + executionId + "_";
      var persist0 := persistMeta;
      var metaFiles := persistMeta.Keys;
      var pending := metaFiles;
      while pending != {}
        invariant Valid()
        invariant pending <= metaFiles
        invariant root == old(root) && meta == old(meta)
        invariant persistMeta == map f | f in persist0 && (f in pending || !StartsWith(f, prefix)) :: persist0[f]
        decreases pending
      {
        var curr :| curr in pending;
        pending := pending - {curr};
        if StartsWith(curr, prefix) {
          var removed := RemoveFileAt(File(PersistMetaDir, curr));
        }
      }
      r := Ok(());
    }

    /** deleteMarkedFilesByMeta (lines 124-158), over the directory's listing. */
    method DeleteMarkedFilesByMeta(place: Place, filePrefix: string, now: int, listing: seq<string>) returns (r: Result<()>)
      requires Valid() && place != RootDir
      requires IsListing(listing, State().Files(place))
      requires forall f | f in listing && Expired(f, filePrefix, now) :: RegexSafe(MarkerExecutionId(f))
      modifies this
      ensures Valid()
      ensures Outcome(State(), r) ==
        Sweep.DeleteMarkedFilesByMeta(Configuration(), old(State()), place, filePrefix, now, listing)
    {
      var execsAdded: seq<string> := [];
      var ok := true;
      for i := 0 to |listing|
        invariant Valid()
        invariant SweepState(State(), execsAdded, ok) ==
          SweepNames(Configuration(), old(State()), place, filePrefix, now, listing[..i])
      {
        var curr := listing[i];
        assert listing[..i + 1] == listing[..i] + [curr];
        ghost var before := SweepState(State(), execsAdded, ok);
        var fields := ParseMarkerName(curr);
        if fields.prefix == filePrefix && fields.timestamp.LessThan(now) {
          var executionId := fields.executionId;
          if executionId in execsAdded || executionId in ObjectPrototypeKeys {
            RemoveMarker(place, curr);
          } else {
            execsAdded := execsAdded + [executionId];
            assert curr in listing && Expired(curr, filePrefix, now);
            var deleted := DeleteBinaryDataByExecutionId(executionId);
            if deleted.Ok? {
              RemoveMarker(place, curr);
            } else {
              ok := false;
            }
          }
        }
        assert SweepState(State(), execsAdded, ok) ==
          SweepStep(Configuration(), before, place, filePrefix, now, curr);
      }
      assert listing[..|listing|] == listing;
      ghost var s := SweepNames(Configuration(), old(State()), place, filePrefix, now, listing);
      assert Sweep.DeleteMarkedFilesByMeta(Configuration(), old(State()), place, filePrefix, now, listing) ==
        Outcome(s.disk, if s.ok then Ok(()) else Err(FsError));
      r := if ok then Ok(()) else Err(FsError);
    }

    /** deleteMetaFileByPath (lines 215-217) for a marker taken from the directory's listing. */
    method RemoveMarker(place: Place, name: string)
      requires Valid() && place != RootDir
      modifies this
      ensures Valid()
      ensures State() == Sweep.RemoveMarker(old(State()), place, name)
    {
      if place == MetaDir {
        meta := meta - {name};
      } else {
        persistMeta := persistMeta - {name};
      }
    }

    /** deleteMarkedFiles (lines 97-99). */
    method DeleteMarkedFiles(now: int, listing: seq<string>) returns (r: Result<()>)
      requires Valid() && IsListing(listing, meta)
      requires forall f | f in listing && Expired(f, MetaFilePrefix, now) :: RegexSafe(MarkerExecutionId(f))
      modifies this
      ensures Valid()
      ensures Outcome(State(), r) == Sweep.DeleteMarkedFiles(Configuration(), old(State()), now, listing)
    {
      r := DeleteMarkedFilesByMeta(MetaDir, MetaFilePrefix, now, listing);
    }

    /** deleteMarkedPersistedFiles (lines 101-106). */
    method DeleteMarkedPersistedFiles(now: int, listing: seq<string>) returns (r: Result<()>)
      requires Valid() && IsListing(listing, persistMeta)
      requires forall f | f in listing && Expired(f, PersistedMetaFilePrefix, now) :: RegexSafe(MarkerExecutionId(f))
      modifies this
      ensures Valid()
      ensures Outcome(State(), r) == Sweep.DeleteMarkedPersistedFiles(Configuration(), old(State()), now, listing)
    {
      r := DeleteMarkedFilesByMeta(PersistMetaDir, PersistedMetaFilePrefix, now, listing);
    }

    /** init (lines 30-42) without the purge timers; the marker directories exist already. */
    method Init(now1: int, metaListing: seq<string>, now2: int, persistListing: seq<string>) returns (r: Result<()>)
      requires Valid() && IsListing(metaListing, meta) && IsListing(persistListing, persistMeta)
      requires forall f | f in metaListing && Expired(f, MetaFilePrefix, now1) :: RegexSafe(MarkerExecutionId(f))
      requires forall f | f in persistListing && Expired(f, PersistedMetaFilePrefix, now2) :: RegexSafe(MarkerExecutionId(f))
      modifies this
      ensures Valid()
      ensures Outcome(State(), r) == Sweep.Init(Configuration(), old(State()), now1, metaListing, now2, persistListing)
    {
      ghost var before := State();
      r := DeleteMarkedFiles(now1, metaListing);
      DeleteMarkedFilesEffect(Configuration(), before, now1, metaListing, "");
      if r.Err? {
        return;
      }
      r := DeleteMarkedPersistedFiles(now2, persistListing);
    }
  }
}
