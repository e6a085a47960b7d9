/** Node's POSIX `path.join` and `path.relative`, and the store's `resolveStoragePath`
    (FileSystem.ts:240-245), which joins segments onto the storage path and refuses any
    result whose path relative to the storage path starts with "..". Paths are taken as
    absolute: a relative storage path is resolved against a working directory of "/". */
module Paths {
  import opened Text
  import opened Results

  /** A name that normalisation keeps as a segment of a path. */
  predicate IsSegment(s: string) {
    s != "" && s != "." && s != ".." && '/' !in s
  }

  predicate AllSegments(ss: seq<string>) {
    forall i | 0 <= i < |ss| :: IsSegment(ss[i])
  }

  /** One step of normalising an absolute path: "" and "." vanish, ".." drops the last
      segment (at "/" it stays at "/"), any other name is appended. */
  function Collapse(stack: seq<string>, part: string): seq<string> {
    if part == "" || part == "." then stack
    else if part == ".." then (if stack == [] then [] else stack[..|stack| - 1])
    else stack + [part]
  }

  function CollapseAll(stack: seq<string>, parts: seq<string>): seq<string>
    decreases |parts|
  {
    if parts == [] then stack else CollapseAll(Collapse(stack, parts[0]), parts[1..])
  }

  /** A normalised absolute path: its segments below "/", and whether it ends in "/". */
  datatype NormalPath = NormalPath(segments: seq<string>, trailingSlash: bool)

  /** path.normalize, for a path taken as absolute. */
  function Normalize(path: string): (p: NormalPath)
    ensures AllSegments(p.segments)
  {
    CollapseAllSegments([], Split(path, '/'));
    var segments := CollapseAll([], Split(path, '/'));
    NormalPath(segments, segments != [] && path != [] && path[|path| - 1] == '/')
  }

  /** path.join's first step: the non-empty arguments with "/" between them. */
  function JoinArgs(args: seq<string>): string {
    if args == [] then ""
    else if args[0] == "" then JoinArgs(args[1..])
    else if JoinArgs(args[1..]) == "" then args[0]
    else args[0] + "/" + JoinArgs(args[1..])
  }

  /** path.join(...args): a normalised path, in which no segment is empty, "." or "..". */
  function Join(args: seq<string>): (p: NormalPath)
    ensures AllSegments(p.segments)
  {
    Normalize(JoinArgs(args))
  }

  /** The length of the longest common prefix of two paths. */
  function CommonPrefixLength(a: seq<string>, b: seq<string>): (k: nat)
    ensures k <= |a| && k <= |b| && a[..k] == b[..k]
    ensures k < |a| && k < |b| ==> a[k] != b[k]
  {
    if a == [] || b == [] || a[0] != b[0] then 0
    else
      var k := 1 + CommonPrefixLength(a[1..], b[1..]);
      assert a[..k] == [a[0]] + a[1..][..k - 1];
      assert b[..k] == [b[0]] + b[1..][..k - 1];
      k
  }

  /** path.relative(from, to) for two normalised absolute paths: one ".." for every segment
      of `from` below the common prefix, then the rest of `to`. */
  function Relative(from: seq<string>, to: seq<string>): (r: string)
    ensures |from| <= |to| && to[..|from|] == from ==> r == JoinWith(to[|from|..], '/')
  {
    var k := CommonPrefixLength(from, to);
    assert |from| <= |to| && to[..|from|] == from ==> seq(|from| - k, _ => "..") + to[k..] == to[|from|..] by {
      if |from| <= |to| && to[..|from|] == from {
        assert seq(|from| - k, _ => "..") == [];
      }
    }
    JoinWith(seq(|from| - k, _ => "..") + to[k..], '/')
  }

  /** The storage directory, as path.relative sees it. */
  function StorageRoot(storagePath: string): seq<string> {
    Normalize(storagePath).segments
  }

  /** `segments` lies under `root`, and the first segment below `root`, if any, does not
      start with "..": exactly the paths resolveStoragePath lets through. */
  predicate Inside(root: seq<string>, segments: seq<string>) {
    && |root| <= |segments| && segments[..|root|] == root
    && (|segments| > |root| ==> !StartsWith(segments[|root|], ".."))
  }

  /** resolveStoragePath(...args) of a store whose storage path is `storagePath`. */
  function ResolveStoragePath(storagePath: string, args: seq<string>): (r: Result<NormalPath>)
    ensures r.Ok? ==> Inside(StorageRoot(storagePath), r.value.segments)
    ensures r.Err? ==> r.error == InvalidPath
  {
    var returnPath := Join([storagePath] + args);
    RelativeStartsWithDots(StorageRoot(storagePath), returnPath.segments);
    if StartsWith(Relative(StorageRoot(storagePath), returnPath.segments), "..") then Err(InvalidPath)
    else Ok(returnPath)
  }

  // ----- what a resolved path names -----

  const MetaDirName := "meta"
  const PersistMetaDirName := "persistMeta"

  /** The three directories of the store: payloads and metadata, deletion markers,
      persistence markers. */
  datatype Place = RootDir | MetaDir | PersistMetaDir

  /** What a path under the storage directory names: a file in one of the three
      directories, one of the directories themselves, or nothing a file can live at
      (a deeper path, or a file name written with a trailing "/"). */
  datatype Location = File(place: Place, name: string) | Directory | NoFile

  function Locate(storagePath: string, p: NormalPath): Location {
    var root := StorageRoot(storagePath);
    if !(|root| <= |p.segments| && p.segments[..|root|] == root) then NoFile
    else
      var rest := p.segments[|root|..];
      if rest == [] || rest == [MetaDirName] || rest == [PersistMetaDirName] then Directory
      else if p.trailingSlash then NoFile
      else if |rest| == 1 then File(RootDir, rest[0])
      else if |rest| == 2 && rest[0] == MetaDirName then File(MetaDir, rest[1])
      else if |rest| == 2 && rest[0] == PersistMetaDirName then File(PersistMetaDir, rest[1])
      else NoFile
  }

  /** Where resolveStoragePath(...args) points. */
  function ResolveLocation(storagePath: string, args: seq<string>): Result<Location> {
    var p :- ResolveStoragePath(storagePath, args);
    Ok(Locate(storagePath, p))
  }

  /** A name that can be a file directly in the storage directory. */
  predicate RootFileName(name: string) {
    IsSegment(name) && !StartsWith(name, "..") && name != MetaDirName && name != PersistMetaDirName
  }

  // ----- lemmas -----

  lemma {:induction false} CollapseAllAppend(stack: seq<string>, a: seq<string>, b: seq<string>)
    ensures CollapseAll(stack, a + b) == CollapseAll(CollapseAll(stack, a), b)
    decreases |a|
  {
    if a == [] {
      assert a + b == b;
    } else {
      assert (a + b)[0] == a[0];
      assert (a + b)[1..] == a[1..] + b;
      CollapseAllAppend(Collapse(stack, a[0]), a[1..], b);
    }
  }

  lemma {:induction false} CollapseAllSegments(stack: seq<string>, parts: seq<string>)
    requires AllSegments(stack)
    requires forall i | 0 <= i < |parts| :: '/' !in parts[i]
    ensures AllSegments(CollapseAll(stack, parts))
    decreases |parts|
  {
    if parts != [] {
      CollapseAllSegments(Collapse(stack, parts[0]), parts[1..]);
    }
  }

  lemma {:induction false} CollapseAllOfSegments(stack: seq<string>, parts: seq<string>)
    requires AllSegments(parts)
    ensures CollapseAll(stack, parts) == stack + parts
    decreases |parts|
  {
    if parts != [] {
      CollapseAllOfSegments(stack + [parts[0]], parts[1..]);
      assert stack + [parts[0]] + parts[1..] == stack + parts;
    }
  }

  function SplitAll(args: seq<string>): seq<string> {
    if args == [] then [] else Split(args[0], '/') + SplitAll(args[1..])
  }

  lemma {:induction false} SplitAllOfSegments(args: seq<string>)
    requires AllSegments(args)
    ensures SplitAll(args) == args
  {
    if args != [] {
      SplitWithoutSeparator(args[0], '/');
      SplitAllOfSegments(args[1..]);
    }
  }

  /** Normalising the joined string is normalising its arguments' pieces one after another. */
  lemma {:induction false} CollapseJoinArgs(stack: seq<string>, args: seq<string>)
    ensures CollapseAll(stack, Split(JoinArgs(args), '/')) == CollapseAll(stack, SplitAll(args))
    decreases args
  {
    if args == [] {
    } else if args[0] == "" {
      CollapseJoinArgs(stack, args[1..]);
    } else {
      var rest := args[1..];
      var first := Split(args[0], '/');
      CollapseAllAppend(stack, first, SplitAll(rest));
      CollapseJoinArgs(CollapseAll(stack, first), rest);
      if JoinArgs(rest) == "" {
        assert Split("", '/') == [""];
      } else {
        SplitAround(args[0], '/', JoinArgs(rest));
        CollapseAllAppend(stack, first, Split(JoinArgs(rest), '/'));
      }
    }
  }

  /** The joined string ends with the last argument, when that is not empty. */
  lemma {:induction false} JoinArgsEndsWithLast(args: seq<string>)
    requires args != [] && args[|args| - 1] != ""
    ensures var j, last := JoinArgs(args), args[|args| - 1];
      |last| <= |j| && j[|j| - |last|..] == last
  {
    if |args| > 1 {
      var rest := args[1..];
      assert rest[|rest| - 1] == args[|args| - 1];
      JoinArgsEndsWithLast(rest);
    }
  }

  /** The segments of the joined path, when the arguments are plain segments. */
  lemma JoinSegmentsPath(storagePath: string, args: seq<string>)
    requires AllSegments(args)
    ensures CollapseAll([], Split(JoinArgs([storagePath] + args), '/')) == StorageRoot(storagePath) + args
  {
    var all := [storagePath] + args;
    CollapseJoinArgs([], all);
    assert all[0] == storagePath && all[1..] == args;
    assert SplitAll(all) == Split(storagePath, '/') + SplitAll(args);
    SplitAllOfSegments(args);
    CollapseAllAppend([], Split(storagePath, '/'), args);
    CollapseAllOfSegments(StorageRoot(storagePath), args);
  }

  /** Joining plain segments onto the storage path appends them to the storage directory. */
  lemma JoinSegments(storagePath: string, args: seq<string>)
    requires args != [] && AllSegments(args)
    ensures Join([storagePath] + args) == NormalPath(StorageRoot(storagePath) + args, false)
  {
    var all := [storagePath] + args;
    var joined := JoinArgs(all);
    JoinSegmentsPath(storagePath, args);
    assert all[|all| - 1] == args[|args| - 1];
    JoinArgsEndsWithLast(all);
    var last := args[|args| - 1];
    assert IsSegment(last);
    assert joined[|joined| - 1] == last[|last| - 1];
    assert last[|last| - 1] != '/';
  }

  /** Plain segments whose first does not start with ".." resolve below the storage path. */
  lemma ResolveSegments(storagePath: string, args: seq<string>)
    requires args != [] && AllSegments(args) && !StartsWith(args[0], "..")
    ensures ResolveStoragePath(storagePath, args) == Ok(NormalPath(StorageRoot(storagePath) + args, false))
  {
    var root := StorageRoot(storagePath);
    JoinSegments(storagePath, args);
    RelativeStartsWithDots(root, root + args);
    assert (root + args)[..|root|] == root;
    assert (root + args)[|root|] == args[0];
  }

  lemma JoinWithStartsWithDots(parts: seq<string>)
    ensures StartsWith(JoinWith(parts, '/'), "..") <==> parts != [] && StartsWith(parts[0], "..")
  {
    if |parts| > 1 {
      var j := JoinWith(parts, '/');
      assert j == parts[0] + "/" + JoinWith(parts[1..], '/');
      if |parts[0]| < 2 {
        assert j[|parts[0]|] == '/';
      } else {
        assert j[..2] == parts[0][..2];
      }
    }
  }

  /** path.relative starts with ".." exactly when the target is not inside. */
  lemma RelativeStartsWithDots(from: seq<string>, to: seq<string>)
    ensures StartsWith(Relative(from, to), "..") <==> !Inside(from, to)
  {
    var k := CommonPrefixLength(from, to);
    var parts := seq(|from| - k, _ => "..") + to[k..];
    JoinWithStartsWithDots(parts);
    if k == |from| {
      assert parts == to[k..];
    } else {
      assert parts[0] == "..";
      if k < |to| {
        assert from[k] != to[k];
        assert |from| <= |to| ==> to[..|from|][k] != from[k];
      }
    }
  }

  /** Path containment: resolveStoragePath lets a path through exactly when it lies under
      the storage directory and the name directly below it does not start with "..". */
  lemma ResolvedPathStaysInside(storagePath: string, args: seq<string>)
    ensures ResolveStoragePath(storagePath, args).Ok? <==>
      Inside(StorageRoot(storagePath), Join([storagePath] + args).segments)
    ensures ResolveStoragePath(storagePath, args).Ok? ==>
      ResolveStoragePath(storagePath, args).value == Join([storagePath] + args)
  {
    RelativeStartsWithDots(StorageRoot(storagePath), Join([storagePath] + args).segments);
  }

  /** A name that can be a file in the storage directory resolves to that file. */
  lemma ResolveRootFileName(storagePath: string, name: string)
    requires RootFileName(name)
    ensures ResolveStoragePath(storagePath, [name]) == Ok(NormalPath(StorageRoot(storagePath) + [name], false))
    ensures ResolveLocation(storagePath, [name]) == Ok(File(RootDir, name))
  {
    var root := StorageRoot(storagePath);
    ResolveSegments(storagePath, [name]);
    assert (root + [name])[..|root|] == root;
    assert (root + [name])[|root|..] == [name];
  }

  /** The two marker directories resolve to directories, not files. */
  lemma ResolveMarkerDirectory(storagePath: string, dir: string)
    requires dir == MetaDirName || dir == PersistMetaDirName
    ensures ResolveLocation(storagePath, [dir]) == Ok(Directory)
  {
    assert dir[0] != '.';
    ResolveSegments(storagePath, [dir]);
    LocateMarkerDirectory(storagePath, dir);
  }

  lemma LocateMarkerDirectory(storagePath: string, dir: string)
    requires dir == MetaDirName || dir == PersistMetaDirName
    ensures Locate(storagePath, NormalPath(StorageRoot(storagePath) + [dir], false)) == Directory
  {
    var root := StorageRoot(storagePath);
    var p := NormalPath(root + [dir], false);
    assert p.segments[..|root|] == root;
    assert p.segments[|root|..] == [dir];
  }

  /** A plain name inside one of the marker directories resolves to that marker file. */
  lemma ResolveMarkerFile(storagePath: string, dir: string, name: string)
    requires dir == MetaDirName || dir == PersistMetaDirName
    requires IsSegment(name)
    ensures ResolveLocation(storagePath, [dir, name]) ==
      Ok(File(if dir == MetaDirName then MetaDir else PersistMetaDir, name))
  {
    assert dir[0] != '.';
    ResolveSegments(storagePath, [dir, name]);
    LocateMarkerFile(storagePath, dir, name);
  }

  lemma LocateMarkerFile(storagePath: string, dir: string, name: string)
    requires dir == MetaDirName || dir == PersistMetaDirName
    requires IsSegment(name)
    ensures Locate(storagePath, NormalPath(StorageRoot(storagePath) + [dir, name], false)) ==
      File(if dir == MetaDirName then MetaDir else PersistMetaDir, name)
  {
    var root := StorageRoot(storagePath);
    var p := NormalPath(root + [dir, name], false);
    var rest := p.segments[|root|..];
    assert p.segments[..|root|] == root;
    assert rest == [dir, name];
    assert MetaDirName != PersistMetaDirName;
  }

  /** A legitimate file name that merely starts with ".." (such as "..foo") is refused too. */
  lemma DotDotNameRejected(storagePath: string, name: string)
    requires StartsWith(name, "..") && name != ".." && '/' !in name
    ensures ResolveStoragePath(storagePath, [name]) == Err(InvalidPath)
  {
    var root := StorageRoot(storagePath);
    JoinSegments(storagePath, [name]);
    RelativeStartsWithDots(root, root + [name]);
    assert (root + [name])[..|root|] == root;
    assert (root + [name])[|root|] == name;
  }

  /** An identifier that climbs out of the storage directory is refused: "../x" names a
      sibling of the storage directory unless x is the storage directory's own name. */
  lemma ParentTraversalRejected(storagePath: string, name: string)
    requires StorageRoot(storagePath) != [] && IsSegment(name)
    requires name != StorageRoot(storagePath)[|StorageRoot(storagePath)| - 1]
    ensures ResolveStoragePath(storagePath, ["../" + name]) == Err(InvalidPath)
  {
    var root := StorageRoot(storagePath);
    var segments := root[..|root| - 1] + [name];
    JoinParent(storagePath, name);
    assert [storagePath] + ["../" + name] == [storagePath, "../" + name];
    RelativeStartsWithDots(root, segments);
    assert segments[|root| - 1] != root[|root| - 1];
  }

  /** path.join(storagePath, "../" + name) replaces the last segment of the storage
      directory by `name`. */
  lemma JoinParent(storagePath: string, name: string)
    requires StorageRoot(storagePath) != [] && IsSegment(name)
    ensures Join([storagePath, "../" + name]).segments ==
      StorageRoot(storagePath)[..|StorageRoot(storagePath)| - 1] + [name]
  {
    var root := StorageRoot(storagePath);
    var all := [storagePath, "../" + name];
    CollapseJoinArgs([], all);
    assert all[1..] == ["../" + name];
    SplitWithoutSeparator(name, '/');
    assert "../" + name == ".." + ['/'] + name;
    SplitAround("..", '/', name);
    SplitWithoutSeparator("..", '/');
    assert Split("../" + name, '/') == ["..", name];
    assert SplitAll(all[1..]) == ["..", name] + SplitAll([]);
    assert SplitAll(all) == Split(storagePath, '/') + ["..", name];
    CollapseAllAppend([], Split(storagePath, '/'), ["..", name]);
    var segments := root[..|root| - 1] + [name];
    assert Collapse(root, "..") == root[..|root| - 1];
    assert CollapseAll(root, ["..", name]) == CollapseAll(root[..|root| - 1], [name]);
    assert CollapseAll(root[..|root| - 1], [name]) == CollapseAll(segments, []);
  }

  /** Whatever resolves to a file has a plain name, and a file directly in the storage
      directory has a name that can live there: the store never creates a file it could not
      address again. */
  lemma LocatedFileName(storagePath: string, args: seq<string>)
    requires ResolveLocation(storagePath, args).Ok?
    requires ResolveLocation(storagePath, args).value.File?
    ensures IsSegment(ResolveLocation(storagePath, args).value.name)
    ensures ResolveLocation(storagePath, args).value.place == RootDir ==>
      RootFileName(ResolveLocation(storagePath, args).value.name)
  {
    var root := StorageRoot(storagePath);
    var all := [storagePath] + args;
    ResolvedPathStaysInside(storagePath, args);
    CollapseAllSegments([], Split(JoinArgs(all), '/'));
    var segments := Join(all).segments;
    assert segments[|root|..][0] == segments[|root|];
    if |segments| > |root| + 1 {
      assert segments[|root|..][1] == segments[|root| + 1];
    }
  }
}
