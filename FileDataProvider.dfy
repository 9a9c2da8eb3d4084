/**
 * FileDataProvider: resolves a list of path segments from a base directory,
 * entering zip archives on the way, and lists the immediate children of the
 * position it ends at.
 *
 * The storage is a tree of entries. A regular file records what the
 * content-type probe reports for it and, when it is a readable zip archive,
 * the root directory that the zip file system exposes. The probe of a path at
 * which nothing exists is an oracle of the provider (`probeMissing`).
 *
 * The walker (`Walk`, `Dispatch`, `ListZipArchive`, `ListRarArchive`) follows
 * the source's loop and indirect recursion; it is proved equal to the
 * recursive reference definition `Locate`/`Enter` followed by `Finish`, about
 * which the lemmas below state what the resolver promises.
 *
 * `FileSystems.newFileSystem(zipPath, loader)` is modelled on the JDK 8 zip
 * file-system provider: it refuses (UnsupportedOperationException, so no
 * provider is found) a path that is not on the default file system, a
 * directory, and a file whose content is not a zip archive unless its name ends
 * with ".zip" or ".jar"; it throws FileSystemNotFoundException when nothing
 * exists at the path, ZipError for a ".zip" or ".jar" file that is not a zip
 * archive, and an I/O error for a path below a regular file.
 */
module FileDataProvider {
  import opened Wrappers

  // ---------------------------------------------------------------------------
  // Data model
  // ---------------------------------------------------------------------------

  /** The type reported for every directory, without probing it. */
  const DirectoryType: string := "directory"

  /** The type reported when the probe yields nothing. */
  const UnknownType: string := "<unknown_type>"

  /** The handler methods the dispatch table can name. */
  datatype Handler = ZipArchive | RarArchive

  /** `typeToHandler`: the MIME types whose files are expandable, with their handler. */
  const TypeToHandler: map<string, Handler> := map[
    "application/zip" := ZipArchive,
    "application/java-archive" := ZipArchive,
    "application/x-java-archive" := ZipArchive,
    "application/x-rar" := RarArchive,
    "application/x-rar-compressed" := RarArchive
  ]

  /**
   * An entry of a file system. `probed` is what the content-type probe reports
   * for a regular file; `archive` is the zip file system opened on the file, or
   * None when its content is not a zip archive that can be read.
   */
  datatype Entry =
    | Dir(children: seq<Child>)
    | RegularFile(probed: Option<string>, archive: Option<ZipFileSystem>)

  /** A zip file system: the children of its root directory `/`. */
  datatype ZipFileSystem = ZipFileSystem(root: seq<Child>)

  /** A named child of a directory (its file name and the entry itself). */
  datatype Child = Child(name: string, entry: Entry)

  /**
   * Where a resolved path points: an existing entry; nothing, with the path's
   * last name; or nothing on the default file system because an ancestor of
   * the path is a regular file, which the operating system reports as "not a
   * directory" rather than "no such file".
   */
  datatype Position = At(entry: Entry) | Missing(name: string) | BelowFile(name: string)

  /**
   * The provider: the entry at `basePath`, and what the content-type probe
   * reports for a path where nothing exists, given the path's last name.
   */
  datatype Provider = Provider(base: Entry, probeMissing: string -> Option<string>)

  /** The record returned for each listed child. */
  datatype FileData = FileData(path: string, fileType: string, isExpandable: bool)

  /** The exceptions `list` can end with. */
  datatype Failure =
    | FileNotFound        // FileNotFoundException: nothing exists at the final position
    | NotDirectory        // NotDirectoryException from Files.list: the final position is a file or below one
    | Unsupported         // UnsupportedOperationException: a rar archive, or no zip provider accepts the path
    | ArchiveNotFound     // FileSystemNotFoundException from the zip provider: nothing exists at a zip-typed path
    | CorruptArchive      // ZipError from the zip provider: a ".zip" or ".jar" file that is not a zip archive
    | ArchiveAccessError  // the zip provider's I/O error: a zip-typed path below a regular file

  type Outcome = Result<seq<FileData>, Failure>

  // ---------------------------------------------------------------------------
  // Classification
  // ---------------------------------------------------------------------------

  /** `Path.getType`: "directory" for a directory, else the probe's answer or UnknownType. */
  function GetType(p: Provider, pos: Position): string {
    match pos
    case At(Dir(_)) => DirectoryType
    case At(RegularFile(probed, _)) => probed.GetOr(UnknownType)
    case Missing(name) => p.probeMissing(name).GetOr(UnknownType)
    case BelowFile(name) => p.probeMissing(name).GetOr(UnknownType)
  }

  /** `Path.isExpandable`: a directory, or a type that is a key of the dispatch table. */
  predicate IsExpandable(p: Provider, pos: Position) {
    (pos.At? && pos.entry.Dir?) || GetType(p, pos) in TypeToHandler
  }

  /** The classifier's layers: a directory is never probed, and a table key never names a directory. */
  lemma GetTypeLayers(p: Provider, pos: Position)
    ensures pos.At? && pos.entry.Dir? ==> GetType(p, pos) == DirectoryType && IsExpandable(p, pos)
    ensures pos.At? && pos.entry.RegularFile? ==>
              GetType(p, pos) == (if pos.entry.probed.Some? then pos.entry.probed.value else UnknownType)
    ensures GetType(p, pos) in TypeToHandler ==> !(pos.At? && pos.entry.Dir?)
  {
  }

  /**
   * A regular file is expandable exactly when its probed type is a key of the
   * table: zip and jar types, and the rar types too, whose handler always fails.
   */
  lemma FileExpandableIffTableKey(p: Provider, probed: Option<string>, archive: Option<ZipFileSystem>)
    ensures IsExpandable(p, At(RegularFile(probed, archive))) <==> probed.Some? && probed.value in TypeToHandler
    ensures probed == Some("application/x-rar") ==> IsExpandable(p, At(RegularFile(probed, archive)))
  {
    assert UnknownType !in TypeToHandler;
  }

  // ---------------------------------------------------------------------------
  // Resolving one segment, and the listing at the end
  // ---------------------------------------------------------------------------

  /** The entry of the first child called `name`, if any. */
  function Lookup(children: seq<Child>, name: string): Option<Entry> {
    if children == [] then None
    else if children[0].name == name then Some(children[0].entry)
    else Lookup(children[1..], name)
  }

  /**
   * Lookup finds an entry exactly when some child has that name, and the
   * entry it finds is the first such child's.
   */
  lemma {:induction false} LookupFinds(children: seq<Child>, name: string)
    ensures Lookup(children, name).Some? <==> exists k :: 0 <= k < |children| && children[k].name == name
    ensures Lookup(children, name).Some? ==>
              exists k :: 0 <= k < |children| && children[k].name == name &&
                          children[k].entry == Lookup(children, name).value &&
                          forall j :: 0 <= j < k ==> children[j].name != name
    decreases |children|
  {
    if children != [] && children[0].name != name {
      var rest := children[1..];
      LookupFinds(rest, name);
      if exists k :: 0 <= k < |children| && children[k].name == name {
        var k :| 0 <= k < |children| && children[k].name == name;
        assert rest[k - 1].name == name;
      }
      if Lookup(rest, name).Some? {
        var k :| 0 <= k < |rest| && rest[k].name == name && rest[k].entry == Lookup(rest, name).value &&
                 forall j :: 0 <= j < k ==> rest[j].name != name;
        assert children[k + 1] == rest[k];
        forall j | 0 <= j < k + 1
          ensures children[j].name != name
        {
          if j > 0 {
            assert children[j] == rest[j - 1];
          }
        }
      }
    }
  }

  /**
   * `path.resolve(segment)`: the child of that name when `pos` is a directory
   * that has one. Below a regular file nothing exists: inside a zip file system
   * that is simply a missing entry, on the default file system it is a path
   * below a file.
   */
  function Step(pos: Position, segment: string, inArchive: bool): Position {
    match pos
    case At(Dir(children)) =>
      (match Lookup(children, segment)
       case Some(e) => At(e)
       case None => Missing(segment))
    case At(RegularFile(_, _)) => if inArchive then Missing(segment) else BelowFile(segment)
    case Missing(_) => Missing(segment)
    case BelowFile(_) => BelowFile(segment)
  }

  /**
   * The record for one listed child. Its path is `origin + "/" + name`: for the
   * empty origin of a root listing this gives "/name", although the root
   * listing test (FileDataProviderTest.kt, lines 23-37) expects plain "name".
   */
  function ChildData(p: Provider, origin: string, c: Child): FileData {
    FileData(origin + "/" + c.name, GetType(p, At(c.entry)), IsExpandable(p, At(c.entry)))
  }

  /** One record per child, in the listing's order. */
  function Entries(p: Provider, origin: string, children: seq<Child>): seq<FileData> {
    seq(|children|, k requires 0 <= k < |children| => ChildData(p, origin, children[k]))
  }

  /**
   * The end of the walk: nothing there (`Files.notExists`), a file or a path
   * below one (`Files.list` refuses it), or the records of a directory's children.
   */
  function ListAt(p: Provider, origin: string, pos: Position): Outcome {
    match pos
    case Missing(_) => Failure(FileNotFound)
    case BelowFile(_) => Failure(NotDirectory)
    case At(RegularFile(_, _)) => Failure(NotDirectory)
    case At(Dir(children)) => Success(Entries(p, origin, children))
  }

  // ---------------------------------------------------------------------------
  // Reference definition of the walk
  // ---------------------------------------------------------------------------

  /** Where a walk ends: a position (and whether it is inside an archive), or a failure on the way. */
  datatype Walked = Reached(pos: Position, inArchive: bool) | Stopped(failure: Failure)

  /**
   * Walks `rest` from `pos`. A segment that lands on a type of the table hands
   * the segments after it to that type's handler; otherwise the walk goes on
   * from there. Every call consumes a segment before any recursion.
   */
  function Locate(p: Provider, pos: Position, rest: seq<string>, inArchive: bool): Walked
    decreases |rest|, 0
  {
    if rest == [] then Reached(pos, inArchive)
    else
      var sub := Step(pos, rest[0], inArchive);
      var t := GetType(p, sub);
      if t in TypeToHandler then Enter(p, TypeToHandler[t], sub, rest[0], rest[1..], inArchive)
      else Locate(p, sub, rest[1..], inArchive)
  }

  /** The name ends with ".zip" or ".jar", the names for which the zip provider reports a damaged archive. */
  predicate ZipOrJarName(name: string) {
    (|name| >= 4 && name[|name| - 4..] == ".zip") || (|name| >= 4 && name[|name| - 4..] == ".jar")
  }

  /**
   * A handler applied to `target`, whose last name is `name`, with the
   * remaining segments. The rar handler always fails. The zip provider refuses
   * a path inside an archive, a directory, and a file that is no zip archive
   * unless it is named like one; it fails on its own for a missing path, a
   * path below a file, and a damaged ".zip" or ".jar"; otherwise the walk
   * resumes at the archive's root with the same remaining segments.
   */
  function Enter(p: Provider, h: Handler, target: Position, name: string, rest: seq<string>, inArchive: bool): Walked
    decreases |rest|, 1
  {
    match h
    case RarArchive => Stopped(Unsupported)
    case ZipArchive =>
      if inArchive then Stopped(Unsupported)
      else
        match target
        case Missing(_) => Stopped(ArchiveNotFound)
        case BelowFile(_) => Stopped(ArchiveAccessError)
        case At(Dir(_)) => Stopped(Unsupported)
        case At(RegularFile(_, None)) => if ZipOrJarName(name) then Stopped(CorruptArchive) else Stopped(Unsupported)
        case At(RegularFile(_, Some(fs))) => Locate(p, At(Dir(fs.root)), rest, true)
  }

  /** The outcome of a walk, with the records' paths built from `origin`. */
  function Finish(p: Provider, origin: string, w: Walked): Outcome {
    match w
    case Reached(pos, _) => ListAt(p, origin, pos)
    case Stopped(f) => Failure(f)
  }

  /** `origin`: the segments joined with "/" (left to right, as the `reduce` does); "" when there are none. */
  function Join(segments: seq<string>): string {
    if |segments| == 0 then ""
    else if |segments| == 1 then segments[0]
    else Join(segments[..|segments| - 1]) + "/" + segments[|segments| - 1]
  }

  /** What `list(pathSegments)` returns or throws. */
  function Resolved(p: Provider, segments: seq<string>): Outcome {
    Finish(p, Join(segments), Locate(p, At(p.base), segments, false))
  }

  // ---------------------------------------------------------------------------
  // The walker as the source runs it
  // ---------------------------------------------------------------------------

  /** Public `list(pathSegments)`: builds the origin and walks from the base directory. */
  method List(p: Provider, pathSegments: seq<string>) returns (r: Outcome)
    ensures r == Resolved(p, pathSegments)
  {
    var origin := Join(pathSegments);
    r := Walk(p, origin, At(p.base), pathSegments, 0, false);
  }

  /**
   * Private `list(origin, currentBase, iterator)`. The shared iterator is the
   * index `next` into `segments`; a handler receives the index just past the
   * segment it was found at.
   */
  method Walk(p: Provider, origin: string, currentBase: Position, segments: seq<string>, start: nat, inArchive: bool)
    returns (r: Outcome)
    requires start <= |segments|
    ensures r == Finish(p, origin, Locate(p, currentBase, segments[start..], inArchive))
    decreases |segments| - start, 1
  {
    var path := currentBase;
    var next := start;
    while next < |segments|
      invariant start <= next <= |segments|
      invariant Locate(p, currentBase, segments[start..], inArchive) == Locate(p, path, segments[next..], inArchive)
      decreases |segments| - next
    {
      var name := segments[next];
      var subPath := Step(path, name, inArchive);
      next := next + 1;
      assert segments[next - 1..][1..] == segments[next..];
      var t := GetType(p, subPath);
      if t in TypeToHandler {
        r := Dispatch(p, TypeToHandler[t], origin, subPath, name, segments, next, inArchive);
        return;
      }
      path := subPath;
    }
    r := ListAt(p, origin, path);
  }

  /** Invoking the handler the table maps the type to. */
  method Dispatch(p: Provider, h: Handler, origin: string, target: Position, name: string,
                  segments: seq<string>, next: nat, inArchive: bool)
    returns (r: Outcome)
    requires next <= |segments|
    ensures r == Finish(p, origin, Enter(p, h, target, name, segments[next..], inArchive))
    decreases |segments| - next, 3
  {
    match h
    case ZipArchive =>
      r := ListZipArchive(p, origin, target, name, segments, next, inArchive);
    case RarArchive =>
      r := ListRarArchive(p, origin, target, segments, next);
  }

  /**
   * `listZipArchive`: opens the zip file system and re-enters the walker at its
   * root "/" with the same iterator and the same origin. Only a refusal of
   * every provider is turned into UnsupportedOperationException; the zip
   * provider's own exceptions pass through.
   */
  method ListZipArchive(p: Provider, origin: string, zipPath: Position, zipName: string,
                        segments: seq<string>, next: nat, inArchive: bool)
    returns (r: Outcome)
    requires next <= |segments|
    ensures r == Finish(p, origin, Enter(p, ZipArchive, zipPath, zipName, segments[next..], inArchive))
    decreases |segments| - next, 2
  {
    if inArchive {
      // not on the default file system: ProviderNotFoundException, rethrown as UnsupportedOperationException
      return Failure(Unsupported);
    }
    match zipPath
    case Missing(_) =>
      r := Failure(ArchiveNotFound);
    case BelowFile(_) =>
      r := Failure(ArchiveAccessError);
    case At(Dir(_)) =>
      r := Failure(Unsupported);
    case At(RegularFile(_, None)) =>
      r := if ZipOrJarName(zipName) then Failure(CorruptArchive) else Failure(Unsupported);
    case At(RegularFile(_, Some(fs))) =>
      r := Walk(p, origin, At(Dir(fs.root)), segments, next, true);
  }

  /** `listRarArchive`: not implemented, so it always fails. */
  method ListRarArchive(p: Provider, origin: string, rarPath: Position, segments: seq<string>, next: nat)
    returns (r: Outcome)
    ensures r == Failure(Unsupported)
  {
    r := Failure(Unsupported);
  }

  // ---------------------------------------------------------------------------
  // Properties of the walk
  // ---------------------------------------------------------------------------

  /** With no segments the origin is "" and the base directory's children are listed, as "/name". */
  lemma EmptySegmentsListBase(p: Provider)
    ensures Join([]) == ""
    ensures Resolved(p, []) == ListAt(p, "", At(p.base))
    ensures p.base.Dir? ==>
              Resolved(p, []).Success? && |Resolved(p, []).value| == |p.base.children| &&
              forall k :: 0 <= k < |p.base.children| ==> Resolved(p, []).value[k].path == "/" + p.base.children[k].name
  {
  }

  /** Continuing a walk after its first part. */
  function Then(p: Provider, w: Walked, more: seq<string>): Walked {
    match w
    case Reached(pos, inArchive) => Locate(p, pos, more, inArchive)
    case Stopped(f) => Stopped(f)
  }

  /** Walking `a + b` is walking `a`, then `b` from where it ended. */
  lemma {:induction false} LocateAppend(p: Provider, pos: Position, a: seq<string>, b: seq<string>, inArchive: bool)
    ensures Locate(p, pos, a + b, inArchive) == Then(p, Locate(p, pos, a, inArchive), b)
    decreases |a|, 0
  {
    if a == [] {
      assert a + b == b;
    } else {
      assert (a + b)[0] == a[0];
      assert (a + b)[1..] == a[1..] + b;
      var sub := Step(pos, a[0], inArchive);
      var t := GetType(p, sub);
      if t in TypeToHandler {
        EnterAppend(p, TypeToHandler[t], sub, a[0], a[1..], b, inArchive);
      } else {
        LocateAppend(p, sub, a[1..], b, inArchive);
      }
    }
  }

  /** The handler's part of LocateAppend. */
  lemma {:induction false} EnterAppend(p: Provider, h: Handler, target: Position, name: string,
                                       a: seq<string>, b: seq<string>, inArchive: bool)
    ensures Enter(p, h, target, name, a + b, inArchive) == Then(p, Enter(p, h, target, name, a, inArchive), b)
    decreases |a|, 1
  {
    if h.ZipArchive? && !inArchive && target.At? && target.entry.RegularFile? && target.entry.archive.Some? {
      LocateAppend(p, At(Dir(target.entry.archive.value.root)), a, b, true);
    }
  }

  /** Splitting `segments` at `k` for LocateAppend. */
  lemma SplitAt(p: Provider, segments: seq<string>, k: nat)
    requires k <= |segments|
    ensures Locate(p, At(p.base), segments, false) == Then(p, Locate(p, At(p.base), segments[..k], false), segments[k..])
  {
    assert segments[..k] + segments[k..] == segments;
    LocateAppend(p, At(p.base), segments[..k], segments[k..], false);
  }

  /** Where the walk of `list` stands after the first `k` segments. */
  function WalkedTo(p: Provider, segments: seq<string>, k: nat): Walked
    requires k <= |segments|
  {
    Locate(p, At(p.base), segments[..k], false)
  }

  /** The position segment `k` resolves to from where the walk stands after the segments before it. */
  function NextPosition(p: Provider, segments: seq<string>, k: nat): Position
    requires k < |segments| && WalkedTo(p, segments, k).Reached?
  {
    Step(WalkedTo(p, segments, k).pos, segments[k], WalkedTo(p, segments, k).inArchive)
  }

  /** The whole walk, seen from segment `k`: a handler takes over there, or the walk goes on past it. */
  lemma ContinueAt(p: Provider, segments: seq<string>, k: nat)
    requires k < |segments| && WalkedTo(p, segments, k).Reached?
    ensures var ia := WalkedTo(p, segments, k).inArchive;
            var sub := NextPosition(p, segments, k);
            var t := GetType(p, sub);
            Locate(p, At(p.base), segments, false) ==
              if t in TypeToHandler then Enter(p, TypeToHandler[t], sub, segments[k], segments[k + 1..], ia)
              else Locate(p, sub, segments[k + 1..], ia)
  {
    SplitAt(p, segments, k);
    var rest := segments[k..];
    assert rest[0] == segments[k];
    assert rest[1..] == segments[k + 1..];
  }

  /** A segment of a rar type makes the whole call fail, at any depth and whatever follows it. */
  lemma RarSegmentUnsupported(p: Provider, segments: seq<string>, k: nat)
    requires k < |segments| && WalkedTo(p, segments, k).Reached?
    requires GetType(p, NextPosition(p, segments, k)) in TypeToHandler
    requires TypeToHandler[GetType(p, NextPosition(p, segments, k))] == RarArchive
    ensures Resolved(p, segments) == Failure(Unsupported)
  {
    ContinueAt(p, segments, k);
  }

  /** A zip segment reached inside an archive makes the whole call fail: nested archives cannot be opened. */
  lemma NestedZipUnsupported(p: Provider, segments: seq<string>, k: nat)
    requires k < |segments| && WalkedTo(p, segments, k).Reached?
    requires WalkedTo(p, segments, k).inArchive
    requires GetType(p, NextPosition(p, segments, k)) in TypeToHandler
    requires TypeToHandler[GetType(p, NextPosition(p, segments, k))] == ZipArchive
    ensures Resolved(p, segments) == Failure(Unsupported)
  {
    ContinueAt(p, segments, k);
  }

  /**
   * A zip archive reached outside any archive is entered at its root with the
   * segments after it, and the records' paths still come from the full origin.
   */
  lemma ZipReentersAtArchiveRoot(p: Provider, segments: seq<string>, k: nat, root: seq<Child>)
    requires k < |segments| && WalkedTo(p, segments, k).Reached?
    requires !WalkedTo(p, segments, k).inArchive
    requires NextPosition(p, segments, k).At? && NextPosition(p, segments, k).entry.RegularFile?
    requires NextPosition(p, segments, k).entry.archive == Some(ZipFileSystem(root))
    requires GetType(p, NextPosition(p, segments, k)) in TypeToHandler
    requires TypeToHandler[GetType(p, NextPosition(p, segments, k))] == ZipArchive
    ensures Resolved(p, segments) == Finish(p, Join(segments), Locate(p, At(Dir(root)), segments[k + 1..], true))
  {
    ContinueAt(p, segments, k);
  }

  /**
   * A zip-typed file outside any archive that holds no readable zip archive
   * fails with the zip provider's ZipError when it is named ".zip" or ".jar",
   * and with UnsupportedOperationException otherwise.
   */
  lemma UnreadableZipByName(p: Provider, segments: seq<string>, k: nat)
    requires k < |segments| && WalkedTo(p, segments, k).Reached?
    requires !WalkedTo(p, segments, k).inArchive
    requires NextPosition(p, segments, k).At? && NextPosition(p, segments, k).entry.RegularFile?
    requires NextPosition(p, segments, k).entry.archive.None?
    requires GetType(p, NextPosition(p, segments, k)) in TypeToHandler
    requires TypeToHandler[GetType(p, NextPosition(p, segments, k))] == ZipArchive
    ensures ZipOrJarName(segments[k]) ==> Resolved(p, segments) == Failure(CorruptArchive)
    ensures !ZipOrJarName(segments[k]) ==> Resolved(p, segments) == Failure(Unsupported)
  {
    ContinueAt(p, segments, k);
  }

  /** The failures a handler can end a walk with: never FileNotFound or NotDirectory. */
  const HandlerFailures: set<Failure> := {Unsupported, ArchiveNotFound, CorruptArchive, ArchiveAccessError}

  /** A walk stops early only because of a handler. */
  lemma {:induction false} LocateStops(p: Provider, pos: Position, rest: seq<string>, inArchive: bool)
    ensures Locate(p, pos, rest, inArchive).Stopped? ==> Locate(p, pos, rest, inArchive).failure in HandlerFailures
    ensures Locate(p, pos, rest, inArchive).Stopped? ==>
              Locate(p, pos, rest, inArchive).failure != FileNotFound &&
              Locate(p, pos, rest, inArchive).failure != NotDirectory
    decreases |rest|, 0
  {
    if rest != [] {
      var sub := Step(pos, rest[0], inArchive);
      var t := GetType(p, sub);
      if t in TypeToHandler {
        EnterStops(p, TypeToHandler[t], sub, rest[0], rest[1..], inArchive);
      } else {
        LocateStops(p, sub, rest[1..], inArchive);
      }
    }
  }

  /** The handler's part of LocateStops. */
  lemma {:induction false} EnterStops(p: Provider, h: Handler, target: Position, name: string,
                                      rest: seq<string>, inArchive: bool)
    ensures Enter(p, h, target, name, rest, inArchive).Stopped? ==>
              Enter(p, h, target, name, rest, inArchive).failure in HandlerFailures
    decreases |rest|, 1
  {
    if h.ZipArchive? && !inArchive && target.At? && target.entry.RegularFile? && target.entry.archive.Some? {
      LocateStops(p, At(Dir(target.entry.archive.value.root)), rest, true);
    }
  }

  /**
   * The outcome is decided at the final position: nothing there gives
   * FileNotFound, a file or a path below one gives NotDirectory, a directory
   * gives one record per child with the path `origin + "/" + name`; any other
   * outcome is a handler's.
   */
  lemma OutcomeAtFinalPosition(p: Provider, segments: seq<string>)
    ensures var w := Locate(p, At(p.base), segments, false);
            (Resolved(p, segments) == Failure(FileNotFound) <==> w.Reached? && w.pos.Missing?) &&
            (Resolved(p, segments) == Failure(NotDirectory) <==>
               w.Reached? && (w.pos.BelowFile? || (w.pos.At? && w.pos.entry.RegularFile?))) &&
            (Resolved(p, segments).Success? <==> w.Reached? && w.pos.At? && w.pos.entry.Dir?)
    ensures var w := Locate(p, At(p.base), segments, false);
            Resolved(p, segments).Success? ==>
              var children := w.pos.entry.children;
              |Resolved(p, segments).value| == |children| &&
              forall k :: 0 <= k < |children| ==>
                Resolved(p, segments).value[k] ==
                FileData(Join(segments) + "/" + children[k].name, GetType(p, At(children[k].entry)),
                         IsExpandable(p, At(children[k].entry)))
  {
    LocateStops(p, At(p.base), segments, false);
  }

  /**
   * Once a segment names nothing, so do all later ones: the walk ends at a
   * missing position, or fails in the handler of a type the probe reported for
   * a missing name; the zip provider's FileSystemNotFoundException only outside
   * archives. When no later name is probed as a table type the walk ends at
   * the last name.
   */
  lemma {:induction false} MissingNeverRecovers(p: Provider, name: string, rest: seq<string>, inArchive: bool)
    ensures var w := Locate(p, Missing(name), rest, inArchive);
            (w.Reached? && w.pos.Missing? && w.inArchive == inArchive) ||
            w == Stopped(Unsupported) || (w == Stopped(ArchiveNotFound) && !inArchive)
    ensures (forall j :: 0 <= j < |rest| ==> GetType(p, Missing(rest[j])) !in TypeToHandler) ==>
              Locate(p, Missing(name), rest, inArchive) == Reached(Missing(if rest == [] then name else rest[|rest| - 1]), inArchive)
    decreases |rest|
  {
    if rest != [] {
      var sub := Step(Missing(name), rest[0], inArchive);
      assert sub == Missing(rest[0]);
      var t := GetType(p, sub);
      if t in TypeToHandler {
        assert Enter(p, TypeToHandler[t], sub, rest[0], rest[1..], inArchive) in
               {Stopped(Unsupported), Stopped(ArchiveNotFound)};
      } else {
        MissingNeverRecovers(p, rest[0], rest[1..], inArchive);
        if forall j :: 0 <= j < |rest| ==> GetType(p, Missing(rest[j])) !in TypeToHandler {
          forall j | 0 <= j < |rest[1..]|
            ensures GetType(p, Missing(rest[1..][j])) !in TypeToHandler
          {
            assert rest[1..][j] == rest[j + 1];
          }
          if rest[1..] != [] {
            assert rest[1..][|rest[1..]| - 1] == rest[|rest| - 1];
          }
        }
      }
    }
  }

  /**
   * Below a regular file on the default file system nothing is ever found
   * again: the walk ends below the file, or fails in the handler of a type the
   * probe reported for a name there (the zip provider's I/O error only outside
   * archives). When no later name is probed as a table type the walk ends
   * below the file.
   */
  lemma {:induction false} BelowFileNeverRecovers(p: Provider, name: string, rest: seq<string>, inArchive: bool)
    ensures var w := Locate(p, BelowFile(name), rest, inArchive);
            (w.Reached? && w.pos.BelowFile? && w.inArchive == inArchive) ||
            w == Stopped(Unsupported) || (w == Stopped(ArchiveAccessError) && !inArchive)
    ensures (forall j :: 0 <= j < |rest| ==> GetType(p, BelowFile(rest[j])) !in TypeToHandler) ==>
              Locate(p, BelowFile(name), rest, inArchive).Reached? &&
              Locate(p, BelowFile(name), rest, inArchive).pos.BelowFile?
    decreases |rest|
  {
    if rest != [] {
      var sub := Step(BelowFile(name), rest[0], inArchive);
      assert sub == BelowFile(rest[0]);
      var t := GetType(p, sub);
      if t in TypeToHandler {
        assert Enter(p, TypeToHandler[t], sub, rest[0], rest[1..], inArchive) in
               {Stopped(Unsupported), Stopped(ArchiveAccessError)};
      } else {
        BelowFileNeverRecovers(p, rest[0], rest[1..], inArchive);
        if forall j :: 0 <= j < |rest| ==> GetType(p, BelowFile(rest[j])) !in TypeToHandler {
          forall j | 0 <= j < |rest[1..]|
            ensures GetType(p, BelowFile(rest[1..][j])) !in TypeToHandler
          {
            assert rest[1..][j] == rest[j + 1];
          }
        }
      }
    }
  }

  /**
   * A segment that names nothing ends the call in FileNotFound, in
   * UnsupportedOperationException, or — for a name the probe types as a zip
   * archive outside any archive — in the zip provider's
   * FileSystemNotFoundException. With no later name probed as a table type it
   * is FileNotFound.
   */
  lemma MissingSegmentFails(p: Provider, segments: seq<string>, k: nat)
    requires k < |segments| && WalkedTo(p, segments, k).Reached?
    requires NextPosition(p, segments, k).Missing?
    ensures Resolved(p, segments) in {Failure(FileNotFound), Failure(Unsupported), Failure(ArchiveNotFound)}
    ensures !WalkedTo(p, segments, k).inArchive && GetType(p, NextPosition(p, segments, k)) in TypeToHandler &&
            TypeToHandler[GetType(p, NextPosition(p, segments, k))] == ZipArchive ==>
              Resolved(p, segments) == Failure(ArchiveNotFound)
    ensures (forall j :: k <= j < |segments| ==> GetType(p, Missing(segments[j])) !in TypeToHandler) ==>
              Resolved(p, segments) == Failure(FileNotFound)
  {
    ContinueAt(p, segments, k);
    var w := WalkedTo(p, segments, k);
    var sub := NextPosition(p, segments, k);
    assert sub == Missing(segments[k]);
    var t := GetType(p, sub);
    if t in TypeToHandler {
      assert Enter(p, TypeToHandler[t], sub, segments[k], segments[k + 1..], w.inArchive) in
             {Stopped(Unsupported), Stopped(ArchiveNotFound)};
    } else {
      var rest := segments[k + 1..];
      MissingNeverRecovers(p, segments[k], rest, w.inArchive);
      if forall j :: k <= j < |segments| ==> GetType(p, Missing(segments[j])) !in TypeToHandler {
        forall j | 0 <= j < |rest|
          ensures GetType(p, Missing(rest[j])) !in TypeToHandler
        {
          assert rest[j] == segments[k + 1 + j];
        }
      }
    }
  }

  /**
   * A path that goes on past a regular file (no table type) fails. Outside an
   * archive it ends in NotDirectory — the operating system reports "not a
   * directory", so `Files.notExists` is false and `Files.list` refuses it —
   * unless a later name is probed as a table type; inside an archive the
   * entry is simply missing.
   */
  lemma PastRegularFile(p: Provider, segments: seq<string>, k: nat)
    requires k < |segments| && WalkedTo(p, segments, k).Reached?
    requires WalkedTo(p, segments, k).pos.At? && WalkedTo(p, segments, k).pos.entry.RegularFile?
    ensures !WalkedTo(p, segments, k).inArchive ==>
              Resolved(p, segments) in {Failure(NotDirectory), Failure(Unsupported), Failure(ArchiveAccessError)}
    ensures !WalkedTo(p, segments, k).inArchive &&
            (forall j :: k <= j < |segments| ==> GetType(p, BelowFile(segments[j])) !in TypeToHandler) ==>
              Resolved(p, segments) == Failure(NotDirectory)
    ensures WalkedTo(p, segments, k).inArchive ==>
              Resolved(p, segments) in {Failure(FileNotFound), Failure(Unsupported)}
  {
    ContinueAt(p, segments, k);
    var w := WalkedTo(p, segments, k);
    var sub := NextPosition(p, segments, k);
    var t := GetType(p, sub);
    var rest := segments[k + 1..];
    if w.inArchive {
      assert sub == Missing(segments[k]);
      if t in TypeToHandler {
        assert Enter(p, TypeToHandler[t], sub, segments[k], rest, true) == Stopped(Unsupported);
      } else {
        MissingNeverRecovers(p, segments[k], rest, true);
      }
    } else {
      assert sub == BelowFile(segments[k]);
      if t in TypeToHandler {
        assert Enter(p, TypeToHandler[t], sub, segments[k], rest, false) in
               {Stopped(Unsupported), Stopped(ArchiveAccessError)};
      } else {
        BelowFileNeverRecovers(p, segments[k], rest, false);
        if forall j :: k <= j < |segments| ==> GetType(p, BelowFile(segments[j])) !in TypeToHandler {
          forall j | 0 <= j < |rest|
            ensures GetType(p, BelowFile(rest[j])) !in TypeToHandler
          {
            assert rest[j] == segments[k + 1 + j];
          }
        }
      }
    }
  }

  // ---------------------------------------------------------------------------
  // Origin and output paths
  // ---------------------------------------------------------------------------

  /** Joining a first segment onto the rest. */
  lemma {:induction false} JoinCons(s: string, rest: seq<string>)
    requires rest != []
    ensures Join([s] + rest) == s + "/" + Join(rest)
    decreases |rest|
  {
    var all := [s] + rest;
    if |rest| > 1 {
      assert all[..|all| - 1] == [s] + rest[..|rest| - 1];
      JoinCons(s, rest[..|rest| - 1]);
    } else {
      assert all == [s, rest[0]];
    }
  }

  /** Entering a plain subdirectory of the base lists its children as "segment/name". */
  lemma SubdirectoryPaths(p: Provider, segment: string, children: seq<Child>)
    requires p.base.Dir? && Lookup(p.base.children, segment) == Some(Dir(children))
    ensures Resolved(p, [segment]) == Success(Entries(p, segment, children))
    ensures forall k :: 0 <= k < |children| ==> Resolved(p, [segment]).value[k].path == segment + "/" + children[k].name
  {
    assert [segment][1..] == [];
    assert Step(At(p.base), segment, false) == At(Dir(children));
    assert DirectoryType !in TypeToHandler;
    assert Locate(p, At(p.base), [segment], false) == Reached(At(Dir(children)), false);
  }

  /**
   * Crossing into a zip archive is transparent in the output: when the walk
   * enters an archive at segment `k` and the call succeeds, the records are
   * those of the directory reached inside the archive, and every path starts
   * with the whole requested path, not with the archive-internal one.
   */
  lemma PathsThroughArchive(p: Provider, segments: seq<string>, k: nat, root: seq<Child>)
    requires k < |segments| && WalkedTo(p, segments, k).Reached?
    requires !WalkedTo(p, segments, k).inArchive
    requires NextPosition(p, segments, k).At? && NextPosition(p, segments, k).entry.RegularFile?
    requires NextPosition(p, segments, k).entry.archive == Some(ZipFileSystem(root))
    requires GetType(p, NextPosition(p, segments, k)) in TypeToHandler
    requires TypeToHandler[GetType(p, NextPosition(p, segments, k))] == ZipArchive
    requires Resolved(p, segments).Success?
    ensures var w := Locate(p, At(Dir(root)), segments[k + 1..], true);
            w.Reached? && w.pos.At? && w.pos.entry.Dir? &&
            Resolved(p, segments) == Success(Entries(p, Join(segments), w.pos.entry.children))
    ensures forall i :: 0 <= i < |Resolved(p, segments).value| ==>
              Join(segments) + "/" <= Resolved(p, segments).value[i].path
  {
    ZipReentersAtArchiveRoot(p, segments, k, root);
    var w := Locate(p, At(Dir(root)), segments[k + 1..], true);
    var es := Resolved(p, segments).value;
    forall i | 0 <= i < |es|
      ensures Join(segments) + "/" <= es[i].path
    {
      assert es[i].path == Join(segments) + "/" + w.pos.entry.children[i].name;
    }
  }

  // ---------------------------------------------------------------------------
  // Distinct output paths
  // ---------------------------------------------------------------------------

  /** No two children of one directory share a name. */
  predicate DistinctNames(children: seq<Child>) {
    forall i, j :: 0 <= i < j < |children| ==> children[i].name != children[j].name
  }

  /** Every directory, including each archive's root, has distinct child names. */
  predicate WellFormed(e: Entry)
    decreases e, 1
  {
    match e
    case Dir(children) => WellFormedChildren(children)
    case RegularFile(_, Some(fs)) => WellFormedChildren(fs.root)
    case RegularFile(_, None) => true
  }

  /** The children of one directory have distinct names and are well formed. */
  predicate WellFormedChildren(children: seq<Child>)
    decreases children, 0
  {
    DistinctNames(children) && forall k :: 0 <= k < |children| ==> WellFormed(children[k].entry)
  }

  /** The positions a walk passes through stay well formed. */
  lemma {:induction false} LocateWellFormed(p: Provider, pos: Position, rest: seq<string>, inArchive: bool)
    requires pos.At? ==> WellFormed(pos.entry)
    ensures var w := Locate(p, pos, rest, inArchive); w.Reached? && w.pos.At? ==> WellFormed(w.pos.entry)
    decreases |rest|, 0
  {
    if rest != [] {
      var sub := Step(pos, rest[0], inArchive);
      if pos.At? && pos.entry.Dir? {
        LookupFinds(pos.entry.children, rest[0]);
      }
      assert sub.At? ==> WellFormed(sub.entry);
      var t := GetType(p, sub);
      if t in TypeToHandler {
        EnterWellFormed(p, TypeToHandler[t], sub, rest[0], rest[1..], inArchive);
      } else {
        LocateWellFormed(p, sub, rest[1..], inArchive);
      }
    }
  }

  /** The handler's part of LocateWellFormed. */
  lemma {:induction false} EnterWellFormed(p: Provider, h: Handler, target: Position, name: string,
                                           rest: seq<string>, inArchive: bool)
    requires target.At? ==> WellFormed(target.entry)
    ensures var w := Enter(p, h, target, name, rest, inArchive); w.Reached? && w.pos.At? ==> WellFormed(w.pos.entry)
    decreases |rest|, 1
  {
    if h.ZipArchive? && !inArchive && target.At? && target.entry.RegularFile? && target.entry.archive.Some? {
      LocateWellFormed(p, At(Dir(target.entry.archive.value.root)), rest, true);
    }
  }

  /** In a well-formed tree the paths of one listing are pairwise distinct. */
  lemma ListedPathsDistinct(p: Provider, segments: seq<string>)
    requires WellFormed(p.base)
    requires Resolved(p, segments).Success?
    ensures forall i, j :: 0 <= i < j < |Resolved(p, segments).value| ==>
              Resolved(p, segments).value[i].path != Resolved(p, segments).value[j].path
  {
    OutcomeAtFinalPosition(p, segments);
    LocateWellFormed(p, At(p.base), segments, false);
    var es := Resolved(p, segments).value;
    var children := Locate(p, At(p.base), segments, false).pos.entry.children;
    var prefix := Join(segments) + "/";
    forall i, j | 0 <= i < j < |es|
      ensures es[i].path != es[j].path
    {
      assert es[i].path == prefix + children[i].name;
      assert es[j].path == prefix + children[j].name;
      assert (prefix + children[i].name)[|prefix|..] == children[i].name;
      assert (prefix + children[j].name)[|prefix|..] == children[j].name;
    }
  }

  // ---------------------------------------------------------------------------
  // A sample tree: the outcomes the test suite expects
  // ---------------------------------------------------------------------------

  /** The sample probe for a path where nothing exists: by name, ".jar" as a Java archive. */
  function SampleProbe(name: string): Option<string> {
    if |name| >= 4 && name[|name| - 4..] == ".jar" then Some("application/java-archive") else None
  }

  /**
   * A base directory with a subdirectory holding one text file, a zip archive
   * holding one directory, an image, a rar archive, and a zip archive holding
   * another zip archive.
   */
  function SampleProvider(): Provider {
    Provider(
      Dir([
        Child("Inner directory", Dir([Child("test-txt", RegularFile(Some("text/plain"), None))])),
        Child("test-zip.zip", RegularFile(Some("application/zip"), Some(ZipFileSystem([Child("Inner directory", Dir([]))])))),
        Child("test-image.jpg", RegularFile(Some("image/jpeg"), None)),
        Child("rar-archive.rar", RegularFile(Some("application/x-rar-compressed"), None)),
        Child("zip-with-inner-zip.zip",
              RegularFile(Some("application/zip"),
                          Some(ZipFileSystem([Child("test-zip.zip", RegularFile(Some("application/zip"), None))]))))
      ]),
      SampleProbe)
  }

  /** Listing the subdirectory gives its one file, under "Inner directory/". */
  lemma SampleSubdirectory()
    ensures Resolved(SampleProvider(), ["Inner directory"]) == Success([FileData("Inner directory/test-txt", "text/plain", false)])
  {
    var p := SampleProvider();
    var inner := [Child("test-txt", RegularFile(Some("text/plain"), None))];
    SubdirectoryPaths(p, "Inner directory", inner);
    var es := Entries(p, "Inner directory", inner);
    assert es[0] == FileData("Inner directory/test-txt", "text/plain", false);
    assert es == [FileData("Inner directory/test-txt", "text/plain", false)];
  }

  /** The walk to the sample zip archive ends at the root of its zip file system. */
  lemma SampleZipWalk()
    ensures Locate(SampleProvider(), At(SampleProvider().base), ["test-zip.zip"], false) ==
            Reached(At(Dir([Child("Inner directory", Dir([]))])), true)
  {
    var p := SampleProvider();
    var segments := ["test-zip.zip"];
    var zipRoot := [Child("Inner directory", Dir([]))];
    var zip := RegularFile(Some("application/zip"), Some(ZipFileSystem(zipRoot)));
    assert Lookup(p.base.children, "test-zip.zip") == Some(zip);
    assert segments[1..] == [];
  }

  /** Listing the zip archive gives the directory inside it, under "test-zip.zip/". */
  lemma SampleZip()
    ensures Resolved(SampleProvider(), ["test-zip.zip"]) == Success([FileData("test-zip.zip/Inner directory", DirectoryType, true)])
  {
    var zipRoot := [Child("Inner directory", Dir([]))];
    SampleZipWalk();
    assert Join(["test-zip.zip"]) == "test-zip.zip";
    assert Entries(SampleProvider(), "test-zip.zip", zipRoot) == [FileData("test-zip.zip/Inner directory", DirectoryType, true)] by {
      var zs := Entries(SampleProvider(), "test-zip.zip", zipRoot);
      assert zs[0] == FileData("test-zip.zip/Inner directory", DirectoryType, true);
    }
  }

  /** A plain file cannot be listed. */
  lemma SampleImage()
    ensures Resolved(SampleProvider(), ["test-image.jpg"]) == Failure(NotDirectory)
  {
    var p := SampleProvider();
    assert Step(At(p.base), "test-image.jpg", false) == At(RegularFile(Some("image/jpeg"), None));
    assert "image/jpeg" !in TypeToHandler;
  }

  /** A path below a plain file is not a directory either: it is not reported as missing. */
  lemma SampleBelowImage()
    ensures Resolved(SampleProvider(), ["test-image.jpg", "x"]) == Failure(NotDirectory)
  {
    var p := SampleProvider();
    var segments := ["test-image.jpg", "x"];
    assert Step(At(p.base), segments[0], false) == At(RegularFile(Some("image/jpeg"), None));
    assert "image/jpeg" !in TypeToHandler;
    assert segments[1..] == ["x"];
    assert Step(At(RegularFile(Some("image/jpeg"), None)), "x", false) == BelowFile("x");
    assert SampleProbe("x") == None;
    assert UnknownType !in TypeToHandler;
  }

  /** A rar archive is expandable but cannot be listed. */
  lemma SampleRar()
    ensures Resolved(SampleProvider(), ["rar-archive.rar"]) == Failure(Unsupported)
  {
    var p := SampleProvider();
    assert Step(At(p.base), "rar-archive.rar", false) == At(RegularFile(Some("application/x-rar-compressed"), None));
  }

  /** A zip archive inside a zip archive cannot be opened. */
  lemma SampleNestedZip()
    ensures Resolved(SampleProvider(), ["zip-with-inner-zip.zip", "test-zip.zip"]) == Failure(Unsupported)
  {
    var p := SampleProvider();
    var innerRoot := [Child("test-zip.zip", RegularFile(Some("application/zip"), None))];
    var segments := ["zip-with-inner-zip.zip", "test-zip.zip"];
    assert Step(At(p.base), segments[0], false) == At(RegularFile(Some("application/zip"), Some(ZipFileSystem(innerRoot))));
    assert segments[1..] == ["test-zip.zip"];
    assert Locate(p, At(p.base), segments, false) == Locate(p, At(Dir(innerRoot)), ["test-zip.zip"], true);
    assert Step(At(Dir(innerRoot)), "test-zip.zip", true) == At(RegularFile(Some("application/zip"), None));
  }

  /** A name that does not exist, and that the probe does not type, is not found. */
  lemma SampleMissing()
    ensures Resolved(SampleProvider(), ["this file doesn't exist"]) == Failure(FileNotFound)
  {
    var p := SampleProvider();
    assert Step(At(p.base), "this file doesn't exist", false) == Missing("this file doesn't exist");
    assert SampleProbe("this file doesn't exist") == None;
    assert UnknownType !in TypeToHandler;
  }

  /**
   * A missing name that the probe types as a Java archive reaches the zip
   * handler, and the zip provider's FileSystemNotFoundException ends the call:
   * it is not a FileNotFoundException.
   */
  lemma SampleMissingJar()
    ensures Resolved(SampleProvider(), ["doesnt-exist.jar"]) == Failure(ArchiveNotFound)
  {
    var p := SampleProvider();
    assert Step(At(p.base), "doesnt-exist.jar", false) == Missing("doesnt-exist.jar");
    assert SampleProbe("doesnt-exist.jar") == Some("application/java-archive");
  }

  /**
   * The root listing: five records, paths "/name" as the code builds them,
   * and their expandability (every entry except the image).
   */
  lemma SampleRoot()
    ensures Resolved(SampleProvider(), []).Success? && |Resolved(SampleProvider(), []).value| == 5
    ensures forall k :: 0 <= k < 5 ==> Resolved(SampleProvider(), []).value[k].path == "/" + SampleProvider().base.children[k].name
    ensures Resolved(SampleProvider(), []).value[0].isExpandable && Resolved(SampleProvider(), []).value[1].isExpandable
    ensures !Resolved(SampleProvider(), []).value[2].isExpandable
    ensures Resolved(SampleProvider(), []).value[3].isExpandable && Resolved(SampleProvider(), []).value[4].isExpandable
  {
    EmptySegmentsListBase(SampleProvider());
    assert "image/jpeg" !in TypeToHandler;
  }

  /** The five root paths written out. */
  lemma SampleRootPaths()
    ensures Resolved(SampleProvider(), []).Success? && |Resolved(SampleProvider(), []).value| == 5
    ensures Resolved(SampleProvider(), []).value[0].path == "/Inner directory"
    ensures Resolved(SampleProvider(), []).value[1].path == "/test-zip.zip"
    ensures Resolved(SampleProvider(), []).value[2].path == "/test-image.jpg"
    ensures Resolved(SampleProvider(), []).value[3].path == "/rar-archive.rar"
    ensures Resolved(SampleProvider(), []).value[4].path == "/zip-with-inner-zip.zip"
  {
    SampleRoot();
    var children := SampleProvider().base.children;
    assert children[0].name == "Inner directory" && children[1].name == "test-zip.zip";
    assert children[2].name == "test-image.jpg" && children[3].name == "rar-archive.rar";
    assert children[4].name == "zip-with-inner-zip.zip";
  }
}
