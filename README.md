# File tree browser core, in Dafny

This project models the two halves of a small file-browsing service and proves properties of both.

**FileDataProvider** (`FileDataProvider.dfy`) is the server-side Kotlin class. It resolves a list of path segments from a base directory and lists the children of the resulting directory as `FileData(path, type, isExpandable)` records. On the way it may enter zip archives: a MIME type found in the dispatch table `typeToHandler` hands the remaining segments to a handler. The zip handler opens a zip file system and re-enters the walker at its root. The rar handler always fails.
- The storage is a tree of `Entry` values.
- A regular file carries what the content-type probe reports for it. When the file is a readable zip archive, it also carries the root of the zip file system opened on it.
- A path where nothing exists is probed by name, through an oracle in the `Provider`.
- The walker follows the source's loop and its indirect recursion through the handlers: `Walk`, `Dispatch`, `ListZipArchive`, `ListRarArchive`. The shared iterator becomes an index into the segment list.
- Each method is proved equal to a recursive reference definition, `Locate`/`Enter` followed by `Finish`. The lemmas about that definition state what the walk promises.

**FileTree** (`FileTree.dfy`) is the browser-side `getIndexedFileDataTree`. It is a tree of file-data nodes together with an index from path to node, which `add`, `set` and `clear` keep in step with the tree.
- Node objects live in a store `cells` and are named by address. The index and a parent's `children` therefore share objects, as JavaScript references do.
- Every child address is larger than its parent's, so the object graph has no cycles. A ghost `parent` sequence records the single holder of each child.
- The class invariant `Valid` has four parts:
  - every index entry is an object filed under its own path;
  - the root is indexed;
  - the children of every indexed expandable object are indexed;
  - the store is acyclic, and each child has a single holder.
- Each method states its new state in terms of `Collect`, the map that `index(node)` builds. The lemmas relate `Collect` to the node values (`Tree`), to reachability from the root, and to the keys that `set` and `clear` drop.

`Wrappers.dfy` holds the `Option` and `Result` types.

Two points of `fileTree.js` are modelled as intended, with a comment at each place:
- `set` and `clear` call a bare `get(...)`, which names no function in scope. The model calls the tree's own `get`.
- `index` and `removeFromIndex` test `fileData.expandable`, while the node records built elsewhere in the file carry `isExpandable`. Both are the single flag `FileData.expandable`.

How the two programs behave where that matters here:
- There is no outcome for an invalid path. A path that names nothing ends in FileNotFound (`Files.notExists`). A plain file fails with NotDirectory, the exception `Files.list` throws. A name below a plain file also gives NotDirectory outside an archive: the operating system reports "not a directory", so `Files.notExists` is false and `Files.list` throws.
- `FileData` has the three fields of the data class.
- The zip handler's answers follow the JDK 8 zip file-system provider, which `FileSystems.newFileSystem(path, loader)` reaches for a path of the default file system:
  - a path inside a zip archive is not of the default file system, so no provider accepts it, giving Unsupported;
  - a missing path raises `FileSystemNotFoundException` (ArchiveNotFound). This is not an `UnsupportedOperationException`, so it escapes the handler;
  - a path below a plain file raises the `IOException` of the access check (ArchiveAccessError);
  - a directory, or a file that is not a readable zip archive and whose name does not end in ".zip" or ".jar", is refused by the provider, giving Unsupported;
  - a file that is not a readable zip archive but whose name ends in ".zip" or ".jar" gives the provider's `ZipError` (CorruptArchive).
- A root listing (no segments) builds each path as `"$origin/${name}"` with the empty origin, which gives `"/name"`. The repository's own root-listing test expects `"name"`. The model follows the code (`EmptySegmentsListBase`, `SampleRoot`, `SampleRootPaths`).
- The server test that requests "/doesnt-exist.jar" expects a NotFound status. When the content-type probe types a missing path by its ".jar" name, as `SampleProbe` does, the walk hands it to the zip handler, and the outcome is ArchiveNotFound (`SampleMissingJar`). The server maps only `UnsupportedOperationException`, `FileNotFoundException` and `NotDirectoryException` to statuses. The outcome depends on the platform's probe, so it is recorded here and not as a defect.

## Model

| member | source | states |
|---|---|---|
| FileDataProvider.GetTypeLayers | file-tree-data-provider/src/main/kotlin/ru/kozobrodov/filetreedataprovider/FileDataProvider.kt:143-147 | a directory's type is "directory" (no probing); a regular file's type is its probed type or "<unknown_type>"; a table type never belongs to a directory |
| FileDataProvider.FileExpandableIffTableKey | file-tree-data-provider/src/main/kotlin/ru/kozobrodov/filetreedataprovider/FileDataProvider.kt:129-130 | a regular file is expandable iff its probed type is a key of typeToHandler; so a rar file is expandable |
| FileDataProvider.LookupFinds | file-tree-data-provider/src/main/kotlin/ru/kozobrodov/filetreedataprovider/FileDataProvider.kt:62 | resolving a name finds an entry iff some child has that name; the entry found is that of the first child with the name |
| FileDataProvider.List | file-tree-data-provider/src/main/kotlin/ru/kozobrodov/filetreedataprovider/FileDataProvider.kt:30-39 | the public list builds the origin by joining the segments with "/" (empty origin for no segments), starts the walk at the base, and returns exactly the reference outcome Resolved |
| FileDataProvider.Walk | file-tree-data-provider/src/main/kotlin/ru/kozobrodov/filetreedataprovider/FileDataProvider.kt:55-81 | the private list's loop (a handler type hands over the index just past its segment; otherwise the walk moves on; at the end a missing path, a file or a directory decides) equals Finish of the reference walk from the current base over the remaining segments |
| FileDataProvider.Dispatch | file-tree-data-provider/src/main/kotlin/ru/kozobrodov/filetreedataprovider/FileDataProvider.kt:63-66 | invoking the handler the table names equals Finish of the reference handler step on the remaining segments |
| FileDataProvider.ListZipArchive | file-tree-data-provider/src/main/kotlin/ru/kozobrodov/filetreedataprovider/FileDataProvider.kt:95-109 | the zip handler equals the reference handler step: inside an archive Unsupported; outside, a missing path ArchiveNotFound, a path below a file ArchiveAccessError, a directory Unsupported, an unreadable file CorruptArchive for a ".zip"/".jar" name and Unsupported otherwise, and a readable archive the walk over the same remaining segments from its root with the same origin |
| FileDataProvider.ListRarArchive | file-tree-data-provider/src/main/kotlin/ru/kozobrodov/filetreedataprovider/FileDataProvider.kt:111-119 | the rar handler always fails with Unsupported |
| FileDataProvider.EmptySegmentsListBase | file-tree-data-provider/src/main/kotlin/ru/kozobrodov/filetreedataprovider/FileDataProvider.kt:35-38 | with no segments, the origin is "" and the base directory is listed, one record per child with path "/" + name |
| FileDataProvider.LocateAppend | file-tree-data-provider/src/main/kotlin/ru/kozobrodov/filetreedataprovider/FileDataProvider.kt:61-69 | walking a + b is walking a, then b from where a ended (a stop stays a stop): every step consumes one segment of the shared iterator |
| FileDataProvider.RarSegmentUnsupported | file-tree-data-provider/src/main/kotlin/ru/kozobrodov/filetreedataprovider/FileDataProvider.kt:111-119 | a segment of a rar type, reached at any depth, makes the whole call fail with Unsupported whatever follows |
| FileDataProvider.NestedZipUnsupported | file-tree-data-provider/src/main/kotlin/ru/kozobrodov/filetreedataprovider/FileDataProvider.kt:104-107 | a zip segment reached inside a zip archive makes the whole call fail with Unsupported |
| FileDataProvider.ZipReentersAtArchiveRoot | file-tree-data-provider/src/main/kotlin/ru/kozobrodov/filetreedataprovider/FileDataProvider.kt:101-102 | a zip archive reached outside any archive is entered at its root "/" with exactly the segments after it, and the records keep the full origin |
| FileDataProvider.UnreadableZipByName | file-tree-data-provider/src/main/kotlin/ru/kozobrodov/filetreedataprovider/FileDataProvider.kt:101-107 | a file of a zip type, reached outside an archive, that is not a readable zip archive makes the whole call fail with CorruptArchive when its name ends in ".zip" or ".jar", and with Unsupported otherwise |
| FileDataProvider.LocateStops | file-tree-data-provider/src/main/kotlin/ru/kozobrodov/filetreedataprovider/FileDataProvider.kt:61-69 | a walk stops early only in a handler, so only with Unsupported or one of the zip provider's errors (ArchiveNotFound, CorruptArchive, ArchiveAccessError), never with FileNotFound or NotDirectory |
| FileDataProvider.OutcomeAtFinalPosition | file-tree-data-provider/src/main/kotlin/ru/kozobrodov/filetreedataprovider/FileDataProvider.kt:70-80 | FileNotFound iff the walk ends where nothing exists; NotDirectory iff it ends at a file or below one; success iff it ends at a directory, with exactly one record per child: path origin + "/" + name, its type and its expandability |
| FileDataProvider.MissingNeverRecovers | file-tree-data-provider/src/main/kotlin/ru/kozobrodov/filetreedataprovider/FileDataProvider.kt:62-68 | once a segment names nothing, every later position is missing too, unless a later name probes as a table type: then a rar type or an archive-internal zip type stops with Unsupported and a zip type outside an archive with ArchiveNotFound; with no such name the walk ends missing at the last name |
| FileDataProvider.BelowFileNeverRecovers | file-tree-data-provider/src/main/kotlin/ru/kozobrodov/filetreedataprovider/FileDataProvider.kt:62-68 | once a segment lies below a plain file, every later position does too, unless a later name probes as a table type: then Unsupported, or ArchiveAccessError for a zip type outside an archive; with no such name the walk ends below a file |
| FileDataProvider.MissingSegmentFails | file-tree-data-provider/src/main/kotlin/ru/kozobrodov/filetreedataprovider/FileDataProvider.kt:70-71 | a segment that names nothing ends the call in FileNotFound, Unsupported or ArchiveNotFound; ArchiveNotFound when it probes as a zip type outside an archive; FileNotFound when no name from there on probes as a table type |
| FileDataProvider.PastRegularFile | file-tree-data-provider/src/main/kotlin/ru/kozobrodov/filetreedataprovider/FileDataProvider.kt:62-72 | a segment after a plain file ends the call, outside an archive, in NotDirectory, Unsupported or ArchiveAccessError, and in NotDirectory when no later name probes as a table type; inside an archive in FileNotFound or Unsupported |
| FileDataProvider.JoinCons | file-tree-data-provider/src/main/kotlin/ru/kozobrodov/filetreedataprovider/FileDataProvider.kt:31-34 | the origin of s followed by more segments is s + "/" + the origin of the rest |
| FileDataProvider.SubdirectoryPaths | file-tree-data-provider/src/main/kotlin/ru/kozobrodov/filetreedataprovider/FileDataProvider.kt:72-80 | listing a plain subdirectory of the base gives its children's records with paths segment + "/" + name |
| FileDataProvider.PathsThroughArchive | file-tree-data-provider/src/main/kotlin/ru/kozobrodov/filetreedataprovider/FileDataProvider.kt:95-103 | when a walk that crosses into a zip archive succeeds, the walk inside the archive ends at a directory, the records are exactly its children's under the requested origin, and every path starts with the requested segments joined by "/" and a "/", not with the archive-internal path |
| FileDataProvider.ListedPathsDistinct | file-tree-data-provider/src/main/kotlin/ru/kozobrodov/filetreedataprovider/FileDataProvider.kt:72-80 | when every directory has distinct child names, the records of one listing have pairwise distinct paths |
| FileDataProvider.SampleSubdirectory | file-tree-data-provider/src/test/kotlin/ru/kozobrodov/filetreedataprovider/FileDataProviderTest.kt:41-46 | listing "Inner directory" gives its one file, "Inner directory/test-txt" |
| FileDataProvider.SampleZip | file-tree-data-provider/src/test/kotlin/ru/kozobrodov/filetreedataprovider/FileDataProviderTest.kt:48-54 | listing a zip archive gives the directory inside it, "test-zip.zip/Inner directory", expandable |
| FileDataProvider.SampleImage | file-tree-data-provider/src/test/kotlin/ru/kozobrodov/filetreedataprovider/FileDataProviderTest.kt:56-61 | listing a plain file fails with NotDirectory |
| FileDataProvider.SampleBelowImage | file-tree-data-provider/src/main/kotlin/ru/kozobrodov/filetreedataprovider/FileDataProvider.kt:62-72 | listing a name below a plain file fails with NotDirectory |
| FileDataProvider.SampleRar | file-tree-data-provider/src/test/kotlin/ru/kozobrodov/filetreedataprovider/FileDataProviderTest.kt:63-68 | listing a rar archive fails with Unsupported |
| FileDataProvider.SampleNestedZip | file-tree-data-provider/src/test/kotlin/ru/kozobrodov/filetreedataprovider/FileDataProviderTest.kt:70-75 | listing a zip inside a zip fails with Unsupported |
| FileDataProvider.SampleMissing | file-tree-data-provider/src/test/kotlin/ru/kozobrodov/filetreedataprovider/FileDataProviderTest.kt:77-82 | listing a name that does not exist fails with FileNotFound |
| FileDataProvider.SampleMissingJar | server/src/test/kotlin/ServerTest.kt:81-88 | listing a missing name that the probe types as a Java archive fails with ArchiveNotFound, the zip provider's FileSystemNotFoundException |
| FileDataProvider.SampleRoot | file-tree-data-provider/src/test/kotlin/ru/kozobrodov/filetreedataprovider/FileDataProviderTest.kt:21-38 | the root listing has one record per entry of the base, five in all, each with path "/" + the entry's name as the code builds it (the test expects the bare name); the directory and the three archive records are expandable and the image record is not |
| FileDataProvider.SampleRootPaths | file-tree-data-provider/src/test/kotlin/ru/kozobrodov/filetreedataprovider/FileDataProviderTest.kt:21-38 | the five root paths are "/Inner directory", "/test-zip.zip", "/test-image.jpg", "/rar-archive.rar" and "/zip-with-inner-zip.zip" |
| FileTree.CollectKeys | frontend/js/fileTree.js:15-21 | the keys index(node) adds are exactly the node's path and, through expandable nodes, the paths below it |
| FileTree.CollectClosed | frontend/js/fileTree.js:15-21 | when the paths index(node) visits are distinct, the entries it adds file the node under its own path and file every child of an expandable indexed node as well |
| FileTree.RoutesAreIndexed | frontend/js/fileTree.js:29 | in a valid index, every node reachable from the root through expandable nodes is filed under its own path |
| FileTree.DroppedKeysBelow | frontend/js/fileTree.js:22-28 | the keys removed for the children of an indexed node are entries for its descendants only, so neither that node's own key nor the root's is removed |
| FileTree.IndexFreshNode | frontend/js/fileTree.js:48-49 | indexing a new node whose paths are distinct and unused keeps the index valid, files the node, keeps every old entry, and adds exactly the node's paths |
| FileTree.AttachChild | frontend/js/fileTree.js:50 | pushing an indexed node that no one holds yet onto a node's children keeps the tree valid and leaves the pushed subtree as it was |
| FileTree.ReplaceChildren | frontend/js/fileTree.js:57-63 | dropping the old children's keys, then giving a node new children with distinct, unused paths and indexing them, keeps the tree valid and the node indexed |
| FileTree.ExactIffRoutes | frontend/js/fileTree.js:15-21 | in a valid index, every entry being attached by the recorded parents is the same as every entry being the end of a route from the root through expandable nodes |
| FileTree.RouteAttached | frontend/js/fileTree.js:15-21 | the end of every route from the root through expandable nodes is attached to the root by the recorded parents |
| FileTree.AttachedRoute | frontend/js/fileTree.js:15-21 | every node attached to the root by the recorded parents is the end of a route from the root |
| FileTree.CollectAttached | frontend/js/fileTree.js:15-21 | every entry index(node) builds for an attached node is attached |
| FileTree.RootIndex | frontend/js/fileTree.js:29 | index(root) gives a valid and exact index |
| FileTree.AttachedSurvives | frontend/js/fileTree.js:57-63 | when only the children of q change, a node that was attached stays attached unless its chain of holders went through a child of q |
| FileTree.AttachKeepsExact | frontend/js/fileTree.js:48-50 | pushing a freshly indexed node onto an indexed expandable parent keeps the index exact |
| FileTree.ReplaceKeepsExact | frontend/js/fileTree.js:57-63 | replacing the children of an indexed node that is expandable, or leaving it with none, and indexing the new children keeps the index exact |
| FileTree.SetBelowFileDetaches | frontend/js/fileTree.js:57-63 | placing one or more nodes under an indexed node that is not expandable and indexing them leaves entries that are not reachable: the index is no longer exact |
| FileTree.AddWithoutParentDetaches | frontend/js/fileTree.js:48-49 | indexing a node that is attached to nothing leaves an unreachable entry |
| FileTree.AttachBelowFileDetaches | frontend/js/fileTree.js:48-50 | pushing an indexed node onto a node that is not expandable leaves that entry unreachable |
| FileTree.IndexedFileDataTree.constructor | frontend/js/fileTree.js:9-29 | the new tree has the given root, its index is exactly what index(root) builds, the invariant holds, and the index is exact: every entry is reachable from the root |
| FileTree.IndexedFileDataTree.IndexNode | frontend/js/fileTree.js:15-21 | index(node) adds the node under its path and, when expandable, indexes each child in order (later entries override) |
| FileTree.IndexedFileDataTree.RemoveFromIndex | frontend/js/fileTree.js:22-28 | removeFromIndex(node) deletes exactly the keys index(node) would add |
| FileTree.IndexedFileDataTree.Get | frontend/js/fileTree.js:36-43 | get(path) returns a node iff the path is indexed, and the node returned carries that path; otherwise null |
| FileTree.IndexedFileDataTree.Add | frontend/js/fileTree.js:48-51 | add indexes the node and its subtree, then, when the parent path is indexed, appends the node as the parent's last child, leaving the earlier children and every other node unchanged; the invariant is kept; exactness is kept when the parent is indexed and expandable, and lost when the parent is missing or not expandable |
| FileTree.IndexedFileDataTree.RemoveChildrenFromIndex | frontend/js/fileTree.js:59-60 | when the node is expandable, the keys of its children's subtrees are removed; otherwise the index is unchanged |
| FileTree.IndexedFileDataTree.PlaceChildren | frontend/js/fileTree.js:61 | the node's children become exactly the given nodes; its own data and every other existing node are unchanged |
| FileTree.IndexedFileDataTree.IndexChildren | frontend/js/fileTree.js:62 | each child of the node is indexed in order |
| FileTree.IndexedFileDataTree.Set | frontend/js/fileTree.js:57-63 | on an indexed parent: the old children's keys are removed when it is expandable; its children become exactly nodes; nodes are indexed; the parent's own entry survives; the keys become the old keys minus the dropped ones plus the new nodes' paths; on a missing parent nothing changes; exactness is kept on a missing or expandable parent or with no nodes, and lost when nodes are placed under a parent that is not expandable |
| FileTree.IndexedFileDataTree.Clear | frontend/js/fileTree.js:69-74 | on an indexed parent: the old children's keys are removed when it is expandable, it is left with zero children, and its own entry survives; on a missing parent the index is unchanged; exactness is kept |

## Left out

- The JDK calls (`Files.isDirectory`, `Files.notExists`, `Files.list`, `Files.probeContentType`, `FileSystems.newFileSystem`) are not executed. They become the fields of the `Entry` tree plus the `probeMissing` oracle. That oracle sees only the last name of a missing path, not the whole path.
- The zip file-system provider is modelled by its answers only, as listed above for JDK 8. Zip decoding is not modelled; other JDK versions, whose providers may answer differently (for instance, on a path inside an archive), are not modelled.
- Resources are not modelled: closing the zip file system and the directory stream (`use`).
- Platform path separators, absolute segments and `..` are not modelled. `resolve` is a lookup of one child by name, and the origin is joined with "/".
- Listing order is the order of the children in the tree; the order of `Files.list` is unspecified.
- The `basePath` string is not modelled: the provider holds the base entry directly.
- `Server.kt`, the UI state holder, `localStorage`, ajax and jQuery are not part of this model.
- The `console.error` message of `get` is left out.
- FileTree.IndexedFileDataTree.Add: requires that the new node's paths are distinct and not yet in the index, and that the parent path is not among them. The source places no such demand. Without it, later entries would silently overwrite live ones, or the node would be pushed into its own subtree, which creates a cycle.
- FileTree.IndexedFileDataTree.Set: requires that the new nodes' paths are distinct, and that none of them is a live key that stays after the old children's keys are dropped. The reason is the same as for Add.
- FileTree.IndexedFileDataTree.constructor: requires that the root's indexed paths are distinct. The source does not check this.
- Failures are outcomes, not exceptions:
  - add on a parent path that is not indexed fails in the source after indexing. Here `ok` is false, and the new entries stay in the index while the node is attached nowhere.
  - set and clear on a parent path that is not indexed fail before any change; `ok` is false.
- Nodes passed to the constructor, add and set are values placed in the store as fresh objects. A caller that keeps a reference to the `nodes` array it passed to set and mutates it later is not modelled: that aliasing would reach the tree in the source.
- FileTree.IndexedFileDataTree.Add: on a parent that is missing or not expandable, the source still indexes the new subtree, so the index holds entries that no route from the root reaches. The model keeps this behaviour: the invariant `Valid` still holds, and the ensures state that exactness (`Exact`) is lost.
- FileTree.IndexedFileDataTree.Set: on a parent that is not expandable, the source indexes the new nodes, so the index holds entries that no route reaches. The model keeps this too, and the ensures state that exactness is lost whenever nodes is not empty.
- The index of `fileTree.js` is a plain object (line 14), modelled as a `map<string, nat>`. The model drops what that object inherits: `get("constructor")` returns an inherited function instead of null (lines 37-38), and "__proto__" cannot be stored as a key. The paths the server sends always contain "/", so they never collide with these names.
