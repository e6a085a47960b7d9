/** deleteMarkedFilesByMeta (FileSystem.ts:124-158) and its two wrappers (lines 97-106): the
    sweep over a marker directory's listing. The fan-out of deletions that the source awaits
    with Promise.all is taken in listing order, each data deletion before its marker's. */
module Sweep {
  import opened Text
  import opened Results
  import opened Paths
  import opened Markers
  import opened Storage

  /** The sweep part-way through the listing: the disk, the executions whose data it has
      deleted in order (the keys set in `execsAdded`), and whether every deletion so far
      succeeded. */
  datatype SweepState = SweepState(disk: Disk, deletions: seq<string>, ok: bool)

  function RemoveMarker(d: Disk, place: Place, name: string): Disk {
    d.WithFiles(place, d.Files(place) - {name})
  }

  /** One marker of the listing. One that is not due is skipped. A due marker whose
      execution is already in `execsAdded`, or answers there through Object.prototype, is
      removed alone; otherwise the execution's data is deleted and the marker removed once
      that succeeded. */
  function SweepStep(c: Config, s: SweepState, place: Place, prefix: string, now: int, name: string): (t: SweepState)
    ensures !Expired(name, prefix, now) ==> t == s
    ensures || t.deletions == s.deletions
            || (&& Expired(name, prefix, now)
                && MarkerExecutionId(name) !in s.deletions && MarkerExecutionId(name) !in ObjectPrototypeKeys
                && t.deletions == s.deletions + [MarkerExecutionId(name)])
    ensures t.ok ==> s.ok
  {
    if !Expired(name, prefix, now) then s
    else
      var executionId := MarkerExecutionId(name);
      if executionId in s.deletions || executionId in ObjectPrototypeKeys then
        s.(disk := RemoveMarker(s.disk, place, name))
      else
        var o := DeleteBinaryDataByExecutionId(c, s.disk, executionId);
        if o.result.Ok? then SweepState(RemoveMarker(o.disk, place, name), s.deletions + [executionId], s.ok)
        else SweepState(o.disk, s.deletions + [executionId], false)
  }

  /** The sweep over the names of a listing, in order. */
  function SweepNames(c: Config, d: Disk, place: Place, prefix: string, now: int, names: seq<string>): (s: SweepState)
    ensures |s.deletions| <= |names|
    decreases |names|
  {
    if names == [] then SweepState(d, [], true)
    else SweepStep(c, SweepNames(c, d, place, prefix, now, names[..|names| - 1]), place, prefix, now, names[|names| - 1])
  }

  /** deleteMarkedFilesByMeta over `listing`, the directory's names as fs.readdir gives them. */
  function DeleteMarkedFilesByMeta(c: Config, d: Disk, place: Place, prefix: string, now: int, listing: seq<string>): (o: Outcome<()>)
    ensures o.result.Ok? <==> forall e | e in DueExecutions(listing, prefix, now) :: !DeletionFails(e)
    ensures place != RootDir ==> o.disk.root == RootAfterDeletion(d.root, DueExecutions(listing, prefix, now))
  {
    var s := SweepNames(c, d, place, prefix, now, listing);
    SweepDeletesEachDueExecutionOnce(c, d, place, prefix, now, listing);
    SweepResult(c, d, place, prefix, now, listing);
    assert place != RootDir ==> s.disk.root == RootAfterDeletion(d.root, Elements(s.deletions)) by {
      if place != RootDir {
        SweepRoot(c, d, place, prefix, now, listing);
      }
    }
    Outcome(s.disk, if s.ok then Ok(()) else Err(FsError))
  }

  /** deleteMarkedFiles: the sweep of the deletion markers. */
  function DeleteMarkedFiles(c: Config, d: Disk, now: int, listing: seq<string>): (o: Outcome<()>)
    ensures o.result.Ok? <==> forall e | e in DueExecutions(listing, MetaFilePrefix, now) :: !DeletionFails(e)
    ensures o.disk.root == RootAfterDeletion(d.root, DueExecutions(listing, MetaFilePrefix, now))
  {
    DeleteMarkedFilesByMeta(c, d, MetaDir, MetaFilePrefix, now, listing)
  }

  /** deleteMarkedPersistedFiles: the same sweep over the persistence markers, which deletes
      the data of the executions they name as well. */
  function DeleteMarkedPersistedFiles(c: Config, d: Disk, now: int, listing: seq<string>): (o: Outcome<()>)
    ensures o.result.Ok? <==> forall e | e in DueExecutions(listing, PersistedMetaFilePrefix, now) :: !DeletionFails(e)
    ensures o.disk.root == RootAfterDeletion(d.root, DueExecutions(listing, PersistedMetaFilePrefix, now))
  {
    DeleteMarkedFilesByMeta(c, d, PersistMetaDir, PersistedMetaFilePrefix, now, listing)
  }

  /** init without the purge timers: both sweeps, the second only once the first succeeded.
      The two sweeps read the clock separately. */
  function Init(c: Config, d: Disk, now1: int, metaListing: seq<string>, now2: int, persistListing: seq<string>): (o: Outcome<()>)
    ensures o.result.Ok? ==> DeleteMarkedFiles(c, d, now1, metaListing).result.Ok?
    ensures DeleteMarkedFiles(c, d, now1, metaListing).result.Err? ==> o == DeleteMarkedFiles(c, d, now1, metaListing)
  {
    var first := DeleteMarkedFiles(c, d, now1, metaListing);
    if first.result.Err? then first else DeleteMarkedPersistedFiles(c, first.disk, now2, persistListing)
  }

  // ----- what the sweep does -----

  /** The executions whose data the sweep deletes: those a due marker names, except the
      names a plain JavaScript object already answers for. */
  function DueExecutions(names: seq<string>, prefix: string, now: int): set<string> {
    (set f | f in names && Expired(f, prefix, now) :: MarkerExecutionId(f)) - ObjectPrototypeKeys
  }

  function Elements(s: seq<string>): set<string> {
    set x | x in s
  }

  predicate Distinct(s: seq<string>) {
    forall i, j | 0 <= i < j < |s| :: s[i] != s[j]
  }

  predicate ContainsNone(f: string, executionIds: set<string>) {
    forall e | e in executionIds :: !Contains(f, e)
  }

  /** The files of the storage directory left once the data of `executionIds` is deleted. */
  function RootAfterDeletion(root: Dir, executionIds: set<string>): Dir {
    map f | f in root && ContainsNone(f, executionIds) :: root[f]
  }

  lemma DueExecutionsOfSnoc(names: seq<string>, name: string, prefix: string, now: int)
    ensures DueExecutions(names + [name], prefix, now) ==
      DueExecutions(names, prefix, now) +
      (if Expired(name, prefix, now) && MarkerExecutionId(name) !in ObjectPrototypeKeys
       then {MarkerExecutionId(name)} else {})
  {
    var all := names + [name];
    forall e | e in DueExecutions(all, prefix, now)
      ensures e in DueExecutions(names, prefix, now) || (e == MarkerExecutionId(name) && Expired(name, prefix, now))
    {
      var f :| f in all && Expired(f, prefix, now) && MarkerExecutionId(f) == e;
      if f != name {
        assert f in names;
      }
    }
    forall e | e in DueExecutions(names, prefix, now) ensures e in DueExecutions(all, prefix, now) {
      var f :| f in names && Expired(f, prefix, now) && MarkerExecutionId(f) == e;
      assert f in all;
    }
    if Expired(name, prefix, now) {
      assert name in all;
    }
  }

  /** Each due execution's data deletion is started exactly once: the sweep calls
      deleteBinaryDataByExecutionId once for every due execution id and for no other id.
      Which files each call takes (every name containing the id) is SweepRoot's part. */
  lemma {:induction false} SweepDeletesEachDueExecutionOnce(c: Config, d: Disk, place: Place, prefix: string, now: int, names: seq<string>)
    ensures var s := SweepNames(c, d, place, prefix, now, names);
      Distinct(s.deletions) && Elements(s.deletions) == DueExecutions(names, prefix, now)
    decreases |names|
  {
    if names != [] {
      var init := names[..|names| - 1];
      var name := names[|names| - 1];
      assert names == init + [name];
      SweepDeletesEachDueExecutionOnce(c, d, place, prefix, now, init);
      DueExecutionsOfSnoc(init, name, prefix, now);
      var s := SweepNames(c, d, place, prefix, now, init);
      var e := MarkerExecutionId(name);
      if Expired(name, prefix, now) && e !in s.deletions && e !in ObjectPrototypeKeys {
        var t := SweepStep(c, s, place, prefix, now, name);
        assert t.deletions == s.deletions + [e];
        assert Elements(t.deletions) == Elements(s.deletions) + {e};
      }
    }
  }

  lemma RootAfterOneMore(root: Dir, executionIds: set<string>, e: string)
    ensures RootFilesWithout(RootAfterDeletion(root, executionIds), e) == RootAfterDeletion(root, executionIds + {e})
  {
  }

  /** The sweep leaves exactly the files of the storage directory that contain no deleted
      execution's id; it touches no other marker directory. */
  lemma {:induction false} SweepRoot(c: Config, d: Disk, place: Place, prefix: string, now: int, names: seq<string>)
    requires place != RootDir
    ensures var s := SweepNames(c, d, place, prefix, now, names);
      && s.disk.root == RootAfterDeletion(d.root, Elements(s.deletions))
      && forall other: Place | other != place && other != RootDir :: s.disk.Files(other) == d.Files(other)
    decreases |names|
  {
    if names == [] {
      assert RootAfterDeletion(d.root, {}) == d.root;
    } else {
      var init := names[..|names| - 1];
      var name := names[|names| - 1];
      SweepRoot(c, d, place, prefix, now, init);
      var s := SweepNames(c, d, place, prefix, now, init);
      SweepStepRoot(c, d.root, s, place, prefix, now, name);
      SweepStepMarkers(c, s, place, prefix, now, name);
    }
  }

  /** One step of the sweep keeps the storage directory equal to what is left once the data
      of the executions deleted so far is gone. */
  lemma SweepStepRoot(c: Config, root: Dir, s: SweepState, place: Place, prefix: string, now: int, name: string)
    requires place != RootDir
    requires s.disk.root == RootAfterDeletion(root, Elements(s.deletions))
    ensures var t := SweepStep(c, s, place, prefix, now, name);
      t.disk.root == RootAfterDeletion(root, Elements(t.deletions))
  {
    var t := SweepStep(c, s, place, prefix, now, name);
    var e := MarkerExecutionId(name);
    if Expired(name, prefix, now) && e !in s.deletions && e !in ObjectPrototypeKeys {
      var o := DeleteBinaryDataByExecutionId(c, s.disk, e);
      assert t.disk.root == o.disk.root == RootFilesWithout(s.disk.root, e);
      assert t.deletions == s.deletions + [e];
      RootAfterOneMore(root, Elements(s.deletions), e);
      assert Elements(s.deletions + [e]) == Elements(s.deletions) + {e};
    } else {
      assert t.disk.root == s.disk.root && t.deletions == s.deletions;
    }
  }

  /** The sweep succeeds exactly when no deleted execution's id is part of a marker
      directory's name. */
  lemma {:induction false} SweepResult(c: Config, d: Disk, place: Place, prefix: string, now: int, names: seq<string>)
    ensures var s := SweepNames(c, d, place, prefix, now, names);
      s.ok <==> forall e | e in s.deletions :: !DeletionFails(e)
    decreases |names|
  {
    if names != [] {
      var init := names[..|names| - 1];
      SweepResult(c, d, place, prefix, now, init);
    }
  }

  /** One step of the sweep removes its marker, unless the marker is not due or its
      execution's data deletion failed; the other directories outside the storage directory
      are untouched. */
  lemma SweepStepMarkers(c: Config, s: SweepState, place: Place, prefix: string, now: int, name: string)
    requires place != RootDir
    ensures var t := SweepStep(c, s, place, prefix, now, name);
      var e := MarkerExecutionId(name);
      && t.disk.Files(place) ==
        (if Expired(name, prefix, now) && (e in s.deletions || e in ObjectPrototypeKeys || !DeletionFails(e))
         then s.disk.Files(place) - {name} else s.disk.Files(place))
      && forall other: Place | other != place && other != RootDir :: t.disk.Files(other) == s.disk.Files(other)
  {
    var e := MarkerExecutionId(name);
    if Expired(name, prefix, now) && !(e in s.deletions || e in ObjectPrototypeKeys) {
      var o := DeleteBinaryDataByExecutionId(c, s.disk, e);
      assert o.disk.Files(place) == s.disk.Files(place);
      assert forall other: Place | other != RootDir :: o.disk.Files(other) == s.disk.Files(other);
    }
  }

  /** What becomes of the markers: only names of the listing go, only due ones, and a due
      one stays only when its execution's data deletion failed. */
  lemma {:induction false} SweepMarkers(c: Config, d: Disk, place: Place, prefix: string, now: int, names: seq<string>, f: string)
    requires place != RootDir
    ensures var after := SweepNames(c, d, place, prefix, now, names).disk.Files(place);
      && (f in after ==> f in d.Files(place) && after[f] == d.Files(place)[f])
      && (f in d.Files(place) && !(f in names && Expired(f, prefix, now)) ==> f in after)
      && (f in names && Expired(f, prefix, now) && f in after ==>
            DeletionFails(MarkerExecutionId(f)) && MarkerExecutionId(f) !in ObjectPrototypeKeys)
    decreases |names|
  {
    if names != [] {
      var init := names[..|names| - 1];
      var name := names[|names| - 1];
      assert names == init + [name];
      SweepMarkers(c, d, place, prefix, now, init, f);
      var s := SweepNames(c, d, place, prefix, now, init);
      SweepStepMarkers(c, s, place, prefix, now, name);
      if f in init {
        assert f in names;
      }
    }
  }

  // ----- the sweep over a whole directory -----

  /** What fs.readdir gives for a directory: each of its names once. */
  predicate IsListing(listing: seq<string>, dir: Dir) {
    Distinct(listing) && Elements(listing) == dir.Keys
  }

  /** deleteMarkedFiles: every deletion marker due at `now` goes, unless its execution's data
      could not be deleted; the others stay; the storage directory keeps exactly the files
      containing no due execution's id; persistence markers are untouched; and the sweep
      succeeds exactly when every due execution's data could be deleted. */
  lemma DeleteMarkedFilesEffect(c: Config, d: Disk, now: int, listing: seq<string>, f: string)
    requires IsListing(listing, d.meta)
    ensures var o := DeleteMarkedFiles(c, d, now, listing);
      var due := DueExecutions(listing, MetaFilePrefix, now);
      && o.disk.root == RootAfterDeletion(d.root, due)
      && o.disk.persistMeta == d.persistMeta
      && (f in d.meta && !Expired(f, MetaFilePrefix, now) ==> f in o.disk.meta)
      && (f in o.disk.meta ==> f in d.meta && o.disk.meta[f] == d.meta[f])
      && (f in o.disk.meta && Expired(f, MetaFilePrefix, now) ==>
            DeletionFails(MarkerExecutionId(f)) && MarkerExecutionId(f) !in ObjectPrototypeKeys)
      && (o.result.Ok? <==> forall e | e in due :: !DeletionFails(e))
      && (o.result.Ok? ==> o.disk.meta == map g | g in d.meta && !Expired(g, MetaFilePrefix, now) :: d.meta[g])
  {
    SweepFacts(c, d, MetaDir, MetaFilePrefix, now, listing, f);
    var s := SweepNames(c, d, MetaDir, MetaFilePrefix, now, listing);
    assert DeleteMarkedFiles(c, d, now, listing) == Outcome(s.disk, if s.ok then Ok(()) else Err(FsError));
    assert s.disk.Files(PersistMetaDir) == d.Files(PersistMetaDir);
  }

  /** deleteMarkedPersistedFiles: the same, over the persistence markers, and it deletes the
      data of the executions they name; deletion markers are untouched. */
  lemma DeleteMarkedPersistedFilesEffect(c: Config, d: Disk, now: int, listing: seq<string>, f: string)
    requires IsListing(listing, d.persistMeta)
    ensures var o := DeleteMarkedPersistedFiles(c, d, now, listing);
      var due := DueExecutions(listing, PersistedMetaFilePrefix, now);
      && o.disk.root == RootAfterDeletion(d.root, due)
      && o.disk.meta == d.meta
      && (f in d.persistMeta && !Expired(f, PersistedMetaFilePrefix, now) ==> f in o.disk.persistMeta)
      && (f in o.disk.persistMeta ==> f in d.persistMeta && o.disk.persistMeta[f] == d.persistMeta[f])
      && (f in o.disk.persistMeta && Expired(f, PersistedMetaFilePrefix, now) ==>
            DeletionFails(MarkerExecutionId(f)) && MarkerExecutionId(f) !in ObjectPrototypeKeys)
      && (o.result.Ok? <==> forall e | e in due :: !DeletionFails(e))
      && (o.result.Ok? ==>
            o.disk.persistMeta == map g | g in d.persistMeta && !Expired(g, PersistedMetaFilePrefix, now) :: d.persistMeta[g])
  {
    SweepFacts(c, d, PersistMetaDir, PersistedMetaFilePrefix, now, listing, f);
    var s := SweepNames(c, d, PersistMetaDir, PersistedMetaFilePrefix, now, listing);
    assert DeleteMarkedPersistedFiles(c, d, now, listing) == Outcome(s.disk, if s.ok then Ok(()) else Err(FsError));
    assert s.disk.Files(MetaDir) == d.Files(MetaDir);
  }

  /** The facts both sweeps share, for one marker directory. */
  lemma SweepFacts(c: Config, d: Disk, place: Place, prefix: string, now: int, listing: seq<string>, f: string)
    requires place != RootDir
    requires IsListing(listing, d.Files(place))
    ensures var s := SweepNames(c, d, place, prefix, now, listing);
      var due := DueExecutions(listing, prefix, now);
      && s.disk.root == RootAfterDeletion(d.root, due)
      && (forall other: Place | other != place && other != RootDir :: s.disk.Files(other) == d.Files(other))
      && (f in d.Files(place) && !Expired(f, prefix, now) ==> f in s.disk.Files(place))
      && (f in s.disk.Files(place) ==> f in d.Files(place) && s.disk.Files(place)[f] == d.Files(place)[f])
      && (f in s.disk.Files(place) && Expired(f, prefix, now) ==>
            DeletionFails(MarkerExecutionId(f)) && MarkerExecutionId(f) !in ObjectPrototypeKeys)
      && (s.ok <==> forall e | e in due :: !DeletionFails(e))
      && (s.ok ==> s.disk.Files(place) == map g | g in d.Files(place) && !Expired(g, prefix, now) :: d.Files(place)[g])
  {
    var s := SweepNames(c, d, place, prefix, now, listing);
    SweepDeletesEachDueExecutionOnce(c, d, place, prefix, now, listing);
    SweepRoot(c, d, place, prefix, now, listing);
    SweepResult(c, d, place, prefix, now, listing);
    SweepMarkers(c, d, place, prefix, now, listing, f);
    assert f in d.Files(place) ==> f in Elements(listing);
    if s.ok {
      SweepKeepsExactlyUndue(c, d, place, prefix, now, listing);
    }
  }

  /** A sweep that succeeded leaves exactly the markers that were not due. */
  lemma SweepKeepsExactlyUndue(c: Config, d: Disk, place: Place, prefix: string, now: int, listing: seq<string>)
    requires place != RootDir
    requires IsListing(listing, d.Files(place))
    requires SweepNames(c, d, place, prefix, now, listing).ok
    ensures SweepNames(c, d, place, prefix, now, listing).disk.Files(place) ==
      map g | g in d.Files(place) && !Expired(g, prefix, now) :: d.Files(place)[g]
  {
    var s := SweepNames(c, d, place, prefix, now, listing);
    var due := DueExecutions(listing, prefix, now);
    var kept := map g | g in d.Files(place) && !Expired(g, prefix, now) :: d.Files(place)[g];
    SweepDeletesEachDueExecutionOnce(c, d, place, prefix, now, listing);
    SweepResult(c, d, place, prefix, now, listing);
    forall g | g in d.Files(place) || g in s.disk.Files(place)
      ensures g in s.disk.Files(place) <==> g in kept
      ensures g in kept ==> s.disk.Files(place)[g] == kept[g]
    {
      SweepMarkers(c, d, place, prefix, now, listing, g);
      if g in d.Files(place) && Expired(g, prefix, now) {
        assert g in Elements(listing);
        var e := MarkerExecutionId(g);
        if e !in ObjectPrototypeKeys {
          assert e in due;
          assert e in Elements(s.deletions);
          assert !DeletionFails(e);
        }
      }
    }
    assert s.disk.Files(place) == kept;
  }

  /** End to end: a deletion marker for a plain execution id is found by every later sweep,
      which removes every file stored for that execution. */
  lemma MarkedExecutionIsSwept(c: Config, d: Disk, executionId: string, token: string, markedAt: nat, now: int, listing: seq<string>)
    requires '_' !in executionId && '/' !in executionId && executionId !in ObjectPrototypeKeys
    requires -MaxTimeValue <= markedAt + c.binaryDataTTL <= MaxTimeValue
    requires markedAt + c.binaryDataTTL < now
    requires DeletionMarkerName(executionId, markedAt + c.binaryDataTTL) in d.meta
    requires IsListing(listing, d.meta)
    ensures executionId in DueExecutions(listing, MetaFilePrefix, now)
    ensures executionId + token !in DeleteMarkedFiles(c, d, now, listing).disk.root
    ensures executionId + token + ".metadata" !in DeleteMarkedFiles(c, d, now, listing).disk.root
  {
    var name := DeletionMarkerName(executionId, markedAt + c.binaryDataTTL);
    DeletionMarkerDue(executionId, markedAt + c.binaryDataTTL, now);
    assert name in Elements(listing);
    assert name in listing;
    SweepRoot(c, d, MetaDir, MetaFilePrefix, now, listing);
    SweepDeletesEachDueExecutionOnce(c, d, MetaDir, MetaFilePrefix, now, listing);
    assert OccursAt(executionId + token, executionId, 0);
    assert OccursAt(executionId + token + ".metadata", executionId, 0);
  }

  /** A deletion marker is left alone by every sweep before its expiry. */
  lemma MarkerSurvivesUntilDue(c: Config, d: Disk, executionId: string, expiry: int, now: int, listing: seq<string>)
    requires '_' !in executionId
    requires -MaxTimeValue <= expiry <= MaxTimeValue && now <= expiry
    requires DeletionMarkerName(executionId, expiry) in d.meta
    requires IsListing(listing, d.meta)
    ensures DeletionMarkerName(executionId, expiry) in DeleteMarkedFiles(c, d, now, listing).disk.meta
  {
    DeletionMarkerDue(executionId, expiry, now);
    SweepMarkers(c, d, MetaDir, MetaFilePrefix, now, listing, DeletionMarkerName(executionId, expiry));
  }

  /** init, once both sweeps succeeded, leaves no deletion marker due at the first sweep's
      time and no persistence marker due at the second's. */
  lemma InitClearsDueMarkers(c: Config, d: Disk, now1: int, metaListing: seq<string>, now2: int, persistListing: seq<string>)
    requires IsListing(metaListing, d.meta) && IsListing(persistListing, d.persistMeta)
    ensures var o := Init(c, d, now1, metaListing, now2, persistListing);
      o.result.Ok? ==>
        && (forall f | f in o.disk.meta :: !Expired(f, MetaFilePrefix, now1))
        && (forall f | f in o.disk.persistMeta :: !Expired(f, PersistedMetaFilePrefix, now2))
  {
    var first := DeleteMarkedFiles(c, d, now1, metaListing);
    DeleteMarkedFilesEffect(c, d, now1, metaListing, "");
    if first.result.Ok? {
      DeleteMarkedPersistedFilesEffect(c, first.disk, now2, persistListing, "");
    }
  }
}
