# SAFFAL path resolution, modelled in Dafny

SAFFAL's `UtilsSAF` puts filesystem paths on top of Android's Storage Access
Framework. Under that framework an app reaches documents only through a granted
document tree, one child name at a time. `UtilsSAF` keeps one granted root:
a tree URI plus the filesystem path it stands for, `treeRoot.rootPath`.
An absolute path is cut into segment names below that root (`getParts`).
The names are then looked up one by one from the tree root (`getDocumentFile`).
Missing directories can be created along the way (`createPaths`).
A single file or directory can be created under an existing parent (`createFile`, `createPath`).

This project models that layer.

- `outcomes.dfy` (module `Outcomes`): the Java `null` result as `Option`, and the
  `NullPointerException`s the layer lets escape as `Result`'s `Err`:
  - `OutsideRoot`: `getParts` returned null for a path outside the root, and the caller read `parts.length`.
  - `NoParent`: `File.getParent` returned null.
- `path_parts.dfy` (module `PathParts`): string-level operations.
  - `getParts`: the `startsWith` test, dropping the root plus one character, and Java's `split("\\/", -1)`. The split is `Split`, with its inverse `Join`.
  - The normalisation and parent/name split that `java.io.File` performs for `createFile` and `createPath`.
- `document_tree.dfy` (module `DocumentTree`): the document tree as a value.
  - Nodes are a map from ids to nodes. Each node has a kind (directory, or file with a MIME type) and a map from child names to ids.
  - `findFile` is an exact-name lookup (`Find`). `createDirectory` and `createFile` are `Create`: they add a fresh node, or fail.
  - The two walks are `Walk` (read-only) and `MakeDirs` (creating).
- `utils_saf.dfy` (module `Saf`):
  - The functions `Resolve`, `MakePath` and `CreateAt` specify `getDocumentFile`, `createPaths` and `createFile`/`createPath` over a tree value. Lemmas about them state the properties.
  - The class `UtilsSaf` holds `UtilsSAF`'s static state: the tree, its root node and `rootPath`.
  - Its methods follow the Java loops and calls step by step. Each is proved equal to its specification function. `GetDocumentFile` has no `modifies` clause, so it cannot change the tree.

The model keeps the code's own error behaviour:

- An out-of-root path is not rejected with a dedicated error. `getParts` returns null, and its callers then throw on `parts.length`.
- `createPaths` reports a refused creation and an existing file in the same way, with `null`.
- `createFile` and `createPath` also return `null` when the parent is missing.

The platform's decision to create a node is an oracle parameter, `grants: (NodeId, string) -> bool`. Storage full and permission revoked are both cases of a refused grant.

## Model

| member | source | states |
|---|---|---|
| `PathParts.GetParts` | saffal/src/main/java/com/opentouchgaming/saffal/UtilsSAF.java:301-321 | None exactly when the path does not start with the root; `Some([])` exactly for the root itself; for a longer path a non-empty list of separator-free names whose join is the path minus its first `rootPath.length()+1` characters |
| `Saf.UtilsSaf.IsInSafRoot` | saffal/src/main/java/com/opentouchgaming/saffal/UtilsSAF.java:159-162 | true exactly when getParts yields a result: the same prefix test |
| `PathParts.Split` | saffal/src/main/java/com/opentouchgaming/saffal/UtilsSAF.java:314 | `split("\\/", -1)` gives at least one segment and no segment contains `/` |
| `PathParts.JoinSplit` | saffal/src/main/java/com/opentouchgaming/saffal/UtilsSAF.java:313-314 | joining the split segments with `/` gives back the relative path exactly |
| `PathParts.SplitJoin` | saffal/src/main/java/com/opentouchgaming/saffal/UtilsSAF.java:314 | splitting a join of separator-free segments gives back the segments, so the split loses nothing |
| `PathParts.SplitConcat` | saffal/src/main/java/com/opentouchgaming/saffal/UtilsSAF.java:314 | a `/` between two strings splits into the segments of each, keeping empty ones |
| `PathParts.SkippedCharacter` | saffal/src/main/java/com/opentouchgaming/saffal/UtilsSAF.java:311-314 | the character after the root is dropped whatever it is; root plus one character gives `[""]` |
| `PathParts.SplitTrailing` | saffal/src/main/java/com/opentouchgaming/saffal/UtilsSAF.java:314 | for every string, a trailing `/` adds exactly one empty segment after its segments |
| `PathParts.SplitRepeated` | saffal/src/main/java/com/opentouchgaming/saffal/UtilsSAF.java:314 | for every two strings, `//` between them leaves one empty segment between their segments |
| `PathParts.TrailingSeparator` | saffal/src/main/java/com/opentouchgaming/saffal/UtilsSAF.java:311-314 | below the root, `a/` gives the segments `a` and `""` |
| `PathParts.RepeatedSeparator` | saffal/src/main/java/com/opentouchgaming/saffal/UtilsSAF.java:311-314 | below the root, `a//b` gives the segments `a`, `""` and `b` |
| `PathParts.FileName` | saffal/src/main/java/com/opentouchgaming/saffal/UtilsSAF.java:186-188 | `File.getName`: the separator-free suffix after the last `/`, and the whole path when it has no `/` |
| `PathParts.FileParent` | saffal/src/main/java/com/opentouchgaming/saffal/UtilsSAF.java:186-187 | `File.getParent`: null exactly when there is no `/` or the path is `/`; otherwise a non-empty string shorter than the path, and the path is parent, `/`, name (or `/` then name when the parent is `/`) |
| `PathParts.NormalizeSpec` | saffal/src/main/java/com/opentouchgaming/saffal/UtilsSAF.java:186-188 | `new File(filePath)` on a Unix path gives a normal path, with no repeated `/` and no trailing `/` except for `/` itself; it keeps every other character in order and keeps a leading `/`; a normal path is left as it is, so normalising twice is normalising once |
| `PathParts.NormalizeRules` | saffal/src/main/java/com/opentouchgaming/saffal/UtilsSAF.java:186-188 | the two rules `new File(filePath)` applies: a run of `/` between two parts becomes exactly one `/`, and a trailing `/` after a non-empty path is dropped; with `NormalUnchanged` these determine the normalised path of every string |
| `PathParts.NormalUnchanged` | saffal/src/main/java/com/opentouchgaming/saffal/UtilsSAF.java:186 | `java.io.File` keeps a path with no repeated or trailing `/` exactly as given |
| `PathParts.ParentParts` | saffal/src/main/java/com/opentouchgaming/saffal/UtilsSAF.java:185-192 | for a path strictly below a non-empty root, the parent's segments followed by the file name are the path's segments |
| `DocumentTree.IsDirectory` | saffal/src/main/java/com/opentouchgaming/saffal/UtilsSAF.java:250 | `isDirectory()` is false exactly for a file, and in a well-formed tree a file has no children, so no lookup below it succeeds |
| `DocumentTree.Find` | saffal/src/main/java/com/opentouchgaming/saffal/UtilsSAF.java:290 | `findFile`: null exactly when no child has that exact name; a found child exists in the tree |
| `DocumentTree.Create` | saffal/src/main/java/com/opentouchgaming/saffal/UtilsSAF.java:243 | `createDirectory`/`createFile`: on failure the tree is unchanged; on success exactly one fresh node of the requested kind, found under the requested name, below a directory where that name was missing; success exactly when the provider may create there, and the new tree is then exactly one `Add` of that child, so nothing else changes |
| `DocumentTree.Walk` | saffal/src/main/java/com/opentouchgaming/saffal/UtilsSAF.java:286-298 | the node reached by exact-name lookups in order, which exists in the tree, or null at the first miss |
| `DocumentTree.WalkExtends` | saffal/src/main/java/com/opentouchgaming/saffal/UtilsSAF.java:240-243 | creating children never changes where a successful walk ends |
| `DocumentTree.WalkConcat` | saffal/src/main/java/com/opentouchgaming/saffal/UtilsSAF.java:286-296 | a walk over two lists of names is the walk over the first continued over the second |
| `DocumentTree.Step` | saffal/src/main/java/com/opentouchgaming/saffal/UtilsSAF.java:240-255 | one createPaths iteration: it returns null exactly when the child exists and is a file or is missing and the provider refuses to create it; an existing child or a failure leaves the tree unchanged; a missing child that is created is exactly one `Add` of a directory under that name; success yields a directory found under that name; anything new lies on that one name |
| `DocumentTree.MakeDirs` | saffal/src/main/java/com/opentouchgaming/saffal/UtilsSAF.java:238-258 | the createPaths loop keeps the tree well formed, keeps every existing node, kind and child, adds only directories, and returns a directory on success |
| `DocumentTree.MakeDirsGrowsAlong` | saffal/src/main/java/com/opentouchgaming/saffal/UtilsSAF.java:238-258 | the createPaths loop adds nothing off its path: every new node is what a non-empty prefix of the names reaches, and every new link is the next name below such a node, so at most one directory per name |
| `DocumentTree.CreateGrows` | saffal/src/main/java/com/opentouchgaming/saffal/UtilsSAF.java:243 | a creation adds only the new child and its one link under the parent |
| `DocumentTree.MakeDirsReaches` | saffal/src/main/java/com/opentouchgaming/saffal/UtilsSAF.java:238-258 | on success the returned node is what a read-only walk of the names finds in the new tree, through directories only |
| `DocumentTree.MakeDirsExisting` | saffal/src/main/java/com/opentouchgaming/saffal/UtilsSAF.java:240-255 | over names that already exist as directories nothing is created and the existing node is returned |
| `DocumentTree.MakeDirsBlockedByFile` | saffal/src/main/java/com/opentouchgaming/saffal/UtilsSAF.java:248-253 | when all the names lead exactly to a file, the result is null and nothing is created |
| `DocumentTree.MakeDirsBlockedAt` | saffal/src/main/java/com/opentouchgaming/saffal/UtilsSAF.java:248-253 | when any non-empty prefix of the names already leads to a file, the result is null and nothing is created, before or after that segment |
| `DocumentTree.MakeDirsStops` | saffal/src/main/java/com/opentouchgaming/saffal/UtilsSAF.java:240-253 | a failed walk did the work of some first `k` names, all kept (no rollback), then failed at name `k` because that child is a file or its creation was refused, and touched nothing after it |
| `Saf.Resolve` | saffal/src/main/java/com/opentouchgaming/saffal/UtilsSAF.java:261-299 | getDocumentFile throws exactly for a path outside the root; a found node exists; the root path resolves to the tree root |
| `Saf.MakePath` | saffal/src/main/java/com/opentouchgaming/saffal/UtilsSAF.java:232-259 | createPaths throws exactly outside the root, and then changes nothing; otherwise it keeps every node and child, adds only directories, each new node and link lies on the path's own segments, and a returned node is a directory |
| `Saf.CreateAt` | saffal/src/main/java/com/opentouchgaming/saffal/UtilsSAF.java:178-230 | createFile/createPath either leave the tree unchanged or return the one fresh node, named and placed by the normalised path's name and parent, which is the only node added; old nodes and links kept; a path outside the root throws and changes nothing, and any throw changes nothing |
| `Saf.CreateAtThrows` | saffal/src/main/java/com/opentouchgaming/saffal/UtilsSAF.java:181-192 | the three throwing paths exactly: the out-of-root exception when the path is outside the root, or is missing and its parent is outside the root; the null-parent exception exactly when the path is missing and `File.getParent` is null |
| `Saf.CreateAtExisting` | saffal/src/main/java/com/opentouchgaming/saffal/UtilsSAF.java:180-183 | a node already at the path is returned whatever its kind, and the tree is unchanged |
| `Saf.CreateAtParentMissing` | saffal/src/main/java/com/opentouchgaming/saffal/UtilsSAF.java:192-202 | a parent that does not resolve is not created: null and the tree unchanged |
| `Saf.CreateAtAddsChild` | saffal/src/main/java/com/opentouchgaming/saffal/UtilsSAF.java:192-202 | with the path missing and the parent found, exactly one fresh child of the requested kind, named by the last path component, is added under the parent, or nothing changes if the provider refuses |
| `Saf.CreateAtFinds` | saffal/src/main/java/com/opentouchgaming/saffal/UtilsSAF.java:178-203 | for a normal path strictly below the root, the node createFile or createPath returns is what getDocumentFile then finds |
| `Saf.CreateAtIdempotent` | saffal/src/main/java/com/opentouchgaming/saffal/UtilsSAF.java:178-203 | for a normal path strictly below the root, a second createFile or createPath returns the same node with the tree unchanged |
| `Saf.CreateAtTrailingSeparator` | saffal/src/main/java/com/opentouchgaming/saffal/UtilsSAF.java:205-230 | with a trailing `/` createPath is not idempotent: `/r/a/` under an empty root `/r` creates `a`, getDocumentFile then looks up `a` and `""` and does not find it, and a second call asks the root for `a` again and gets null |
| `Saf.MakePathIdempotent` | saffal/src/main/java/com/opentouchgaming/saffal/UtilsSAF.java:232-259 | on success getDocumentFile then finds the returned node through directories only, and a second createPaths returns it again with the tree unchanged |
| `Saf.MakePathRejectsFile` | saffal/src/main/java/com/opentouchgaming/saffal/UtilsSAF.java:248-253 | a path that already names a file makes createPaths return null and create nothing, unlike createPath |
| `Saf.MakePathBlockedAt` | saffal/src/main/java/com/opentouchgaming/saffal/UtilsSAF.java:236-253 | when some non-empty prefix of the path's segments already leads to a file, createPaths returns null and creates nothing |
| `Saf.MakePathUnderFile` | saffal/src/main/java/com/opentouchgaming/saffal/UtilsSAF.java:236-253 | for any path below a path that names a file, createPaths returns null and creates nothing |
| `Saf.MakePathStops` | saffal/src/main/java/com/opentouchgaming/saffal/UtilsSAF.java:240-253 | a null from createPaths comes from one failing segment, which is an existing file or a refused creation, after the directories for the segments before it were kept |
| `Saf.UtilsSaf.constructor` | saffal/src/main/java/com/opentouchgaming/saffal/UtilsSAF.java:63-66 | setTreeRoot installs the granted tree, root and root path |
| `Saf.UtilsSaf.GetDocumentFile` | saffal/src/main/java/com/opentouchgaming/saffal/UtilsSAF.java:281-298 | the loop returns exactly `Resolve` of the current tree and changes nothing |
| `Saf.UtilsSaf.CreateChild` | saffal/src/main/java/com/opentouchgaming/saffal/UtilsSAF.java:224 | the provider call changes the tree exactly as `Create` says |
| `Saf.UtilsSaf.CreatePaths` | saffal/src/main/java/com/opentouchgaming/saffal/UtilsSAF.java:232-259 | the loop leaves the tree and result exactly as `MakePath` says, keeping the root binding |
| `Saf.UtilsSaf.CreateNode` | saffal/src/main/java/com/opentouchgaming/saffal/UtilsSAF.java:205-230 | the shared body of createFile and createPath leaves the tree and result exactly as `CreateAt` says |
| `Saf.UtilsSaf.CreateFile` | saffal/src/main/java/com/opentouchgaming/saffal/UtilsSAF.java:178-203 | `CreateAt` with a file of MIME type `"plain"` |
| `Saf.UtilsSaf.CreatePath` | saffal/src/main/java/com/opentouchgaming/saffal/UtilsSAF.java:205-230 | `CreateAt` with a directory |

## Left out

- `openDocumentTree`: it starts the Android document-tree picker, which is a UI flow.
- `saveTreeRoot` and `loadTreeRoot`: they are SharedPreferences I/O, and `Uri.parse` is a foreign call.
- `ready`, `setContext` and `getContentResolver`: they are null checks and assignments of the ambient `Context`.
- `getInputStream`, `getParcelDescriptor` and the `DBG` logging: they are stream, file-descriptor and log I/O.
- The commented-out direct-URI lookup in `getDocumentFile`: it is dead code.
- The tree URI: the model takes the root node of the granted tree directly, in place of `DocumentFile.fromTreeUri(context, treeRoot.uri)`.
- Concurrency: the static root binding is never replaced during an operation.
- Why the provider refuses a creation: this is the `grants` oracle and is not modelled further. The oracle is consulted only for directory parents and missing names.
- Name collisions: the real provider may create a renamed sibling when the name is taken. The model refuses instead. This only matters for paths whose parent/name split disagrees with `getParts`: trailing or repeated `/`, a character after the root that is not `/`, or an empty root path. With the empty root, `/a` has the parent `/`, and `getParts` turns `/` into the single name `""`, so the parent resolves to a child named `""` rather than to the root. The model's provider also creates a child under the empty name `""` exactly as given, which is the name a trailing or repeated `/` makes `createPaths` pass to `createDirectory`. So `Saf.MakePathIdempotent` holds on a path such as `/r/a/` only because a directory literally named `""` is created and then found. A real provider may reject or rename such a name.
- `PathParts.Normalize`: it follows what `java.io.File` does to a Unix path: repeated `/` become one, and a trailing `/` is dropped. `java.io.File` itself is not part of this model, and other platforms' path rules are not modelled.
- `Saf.CreateAtIdempotent`: it is stated only for normal paths strictly below a non-empty root with a real `/` after the root. Such a path has no empty segment below the root, so its parent and name taken by `java.io.File` agree with `getParts`. On other paths the source is not idempotent, and `Saf.CreateAtTrailingSeparator` shows this for a trailing `/`.
- Strings: the model's strings are sequences of Unicode scalar values, while Java's `length()` and `substring` count UTF-16 code units. So `PathParts.GetParts` differs for a character outside the Basic Multilingual Plane right after the root. Java skips only its high surrogate and keeps the low surrogate at the start of the first name; the model drops the whole character.
- `DocumentTree.MakeDirs`: the bound on what the loop adds is proved as the separate lemma `DocumentTree.MakeDirsGrowsAlong` rather than as an `ensures` of the function, because proving it inside the function's own contract is too costly for the verifier.
- The unbound state: before `setTreeRoot` has run, `treeRoot` is null, and `isInSAFRoot`, `getParts` and `getDocumentFile` throw a `NullPointerException`. A `UtilsSaf` always holds a root binding from its constructor, so this exception is not modelled.
