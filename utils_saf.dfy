/** UtilsSAF's path-to-document layer: an absolute path below the granted
    root path is turned into segment names and walked, one exact-name child
    lookup at a time, from the root of the granted document tree. */
module Saf {
  import opened Outcomes
  import opened PathParts
  import opened DocumentTree

  /** The MIME type createFile passes to the provider. */
  const MimeType: string := "plain"

  /** UtilsSAF.getDocumentFile as a function of the tree: the node at `path`,
      None (Java null) at the first missing segment, or the exception of a
      path outside the root. */
  function Resolve(t: Tree, root: NodeId, rootPath: string, path: string): (r: Result<Option<NodeId>>)
    requires WellFormed(t) && root in t.nodes
    ensures r.Err? <==> !(rootPath <= path)
    ensures r.Err? ==> r.error == OutsideRoot
    ensures r.Ok? && r.value.Some? ==> r.value.value in t.nodes
    ensures path == rootPath ==> r == Ok(Some(root))
  {
    match GetParts(path, rootPath)
    case None => Err(OutsideRoot)
    case Some(parts) => Ok(Walk(t, root, parts))
  }

  /** UtilsSAF.createPaths as a function of the tree: the new tree and the
      node at `path`, None (Java null) when a creation is refused or an
      existing segment is a file, or the exception of a path outside the root. */
  function MakePath(t: Tree, root: NodeId, rootPath: string, path: string, grants: Grants)
    : (res: (Tree, Result<Option<NodeId>>))
    requires WellFormed(t) && root in t.nodes && IsDirectory(t, root)
    ensures WellFormed(res.0) && Extends(t, res.0) && AddsOnlyDirectories(t, res.0)
    ensures res.1.Err? <==> !(rootPath <= path)
    ensures res.1.Err? ==> res.0 == t
    ensures res.1.Ok? && res.1.value.Some? ==>
      res.1.value.value in res.0.nodes && IsDirectory(res.0, res.1.value.value)
    ensures res.1.Ok? ==> GrowsOnlyAlong(t, res.0, root, GetParts(path, rootPath).value)
  {
    match GetParts(path, rootPath)
    case None => (t, Err(OutsideRoot))
    case Some(parts) =>
      MakeDirsGrowsAlong(t, root, parts, grants);
      var (t', node) := MakeDirs(t, root, parts, grants);
      (t', Ok(node))
  }

  /** UtilsSAF.createFile (kind a document) and UtilsSAF.createPath (kind a
      directory) as a function of the tree: the node already at `path`, else
      one new child under the node at the parent path, both taken from the
      path as java.io.File normalises it. */
  function CreateAt(t: Tree, root: NodeId, rootPath: string, path: string, kind: Kind, grants: Grants)
    : (res: (Tree, Result<Option<NodeId>>))
    requires WellFormed(t) && root in t.nodes
    ensures WellFormed(res.0) && Extends(t, res.0)
    ensures res.0 == t || (res.1 == Ok(Some(t.next)) && res.0.nodes.Keys == t.nodes.Keys + {t.next})
    ensures res.1.Ok? && res.1.value.Some? ==> res.1.value.value in res.0.nodes
    ensures !(rootPath <= path) ==> res == (t, Err(OutsideRoot))
    ensures res.1.Err? ==> res.0 == t
  {
    match Resolve(t, root, rootPath, path)
    case Err(e) => (t, Err(e))
    case Ok(Some(existing)) => (t, Ok(Some(existing)))
    case Ok(None) =>
      match FileParent(Normalize(path))
      case None => (t, Err(NoParent))
      case Some(parent) =>
        match Resolve(t, root, rootPath, parent)
        case Err(e) => (t, Err(e))
        case Ok(None) => (t, Ok(None))
        case Ok(Some(p)) =>
          var (t', created) := Create(t, p, FileName(Normalize(path)), kind, grants);
          (t', Ok(created))
  }

  /** A node already at the path is returned whatever its kind, and nothing
      changes: createFile and createPath never overwrite. */
  lemma CreateAtExisting(t: Tree, root: NodeId, rootPath: string, path: string, kind: Kind, grants: Grants)
    requires WellFormed(t) && root in t.nodes
    requires Resolve(t, root, rootPath, path).Ok? && Resolve(t, root, rootPath, path).value.Some?
    ensures CreateAt(t, root, rootPath, path, kind, grants) == (t, Resolve(t, root, rootPath, path))
  {
  }

  /** A parent that does not resolve is not created: the result is None and
      the tree is unchanged. */
  lemma CreateAtParentMissing(t: Tree, root: NodeId, rootPath: string, path: string, kind: Kind, grants: Grants)
    requires WellFormed(t) && root in t.nodes
    requires Resolve(t, root, rootPath, path) == Ok(None)
    requires FileParent(Normalize(path)).Some? && Resolve(t, root, rootPath, FileParent(Normalize(path)).value) == Ok(None)
    ensures CreateAt(t, root, rootPath, path, kind, grants) == (t, Ok(None))
  {
  }

  /** When the path is missing and its parent resolves, exactly one child of
      the requested kind, named by the last path component, is added under
      the parent, unless the provider refuses and nothing changes. */
  lemma CreateAtAddsChild(t: Tree, root: NodeId, rootPath: string, path: string, kind: Kind, grants: Grants)
    requires WellFormed(t) && root in t.nodes
    requires Resolve(t, root, rootPath, path) == Ok(None)
    requires FileParent(Normalize(path)).Some?
    requires Resolve(t, root, rootPath, FileParent(Normalize(path)).value).Ok?
    requires Resolve(t, root, rootPath, FileParent(Normalize(path)).value).value.Some?
    ensures var parent := Resolve(t, root, rootPath, FileParent(Normalize(path)).value).value.value;
      var (t', r) := CreateAt(t, root, rootPath, path, kind, grants);
      if CanCreate(t, parent, FileName(Normalize(path)), grants) then
        && r == Ok(Some(t.next)) && t.next !in t.nodes
        && t'.nodes.Keys == t.nodes.Keys + {t.next}
        && t'.nodes[t.next] == Node(kind, map[])
        && Find(t', parent, FileName(Normalize(path))) == Some(t.next)
        && t' == Add(t, parent, FileName(Normalize(path)), kind)
      else
        t' == t && r == Ok(None)
  {
  }

  /** createFile and createPath throw in exactly three cases, and then change
      nothing: the path is outside the root; the path is missing and
      File.getParent gives null; or the path is missing and its parent lies
      outside the root. */
  lemma CreateAtThrows(t: Tree, root: NodeId, rootPath: string, path: string, kind: Kind, grants: Grants)
    requires WellFormed(t) && root in t.nodes
    ensures CreateAt(t, root, rootPath, path, kind, grants).1 == Err(OutsideRoot) <==>
      || !(rootPath <= path)
      || (&& Resolve(t, root, rootPath, path) == Ok(None)
          && FileParent(Normalize(path)).Some? && !(rootPath <= FileParent(Normalize(path)).value))
    ensures CreateAt(t, root, rootPath, path, kind, grants).1 == Err(NoParent) <==>
      Resolve(t, root, rootPath, path) == Ok(None) && FileParent(Normalize(path)).None?
  {
  }

  /** For a normal path strictly below the root, the node createFile or
      createPath returns is what getDocumentFile then finds. */
  lemma CreateAtFinds(t: Tree, root: NodeId, rootPath: string, path: string, kind: Kind, grants: Grants)
    requires WellFormed(t) && root in t.nodes
    requires StrictlyBelow(path, rootPath) && IsNormal(path)
    requires CreateAt(t, root, rootPath, path, kind, grants).1.Ok?
    requires CreateAt(t, root, rootPath, path, kind, grants).1.value.Some?
    ensures Resolve(CreateAt(t, root, rootPath, path, kind, grants).0, root, rootPath, path)
      == CreateAt(t, root, rootPath, path, kind, grants).1
  {
    NormalUnchanged(path);
    if Resolve(t, root, rootPath, path) == Ok(None) {
      ParentParts(path, rootPath);
      var parentPath := FileParent(path).value;
      var parent := Resolve(t, root, rootPath, parentPath).value.value;
      CreateAtAddsChild(t, root, rootPath, path, kind, grants);
      ChildFound(t, root, rootPath, parentPath, parent, path, FileName(path), kind);
    }
  }

  /** After adding `name` under the node at `parentPath`, a path whose segments
      are the parent's followed by `name` resolves to the new node. */
  lemma ChildFound(t: Tree, root: NodeId, rootPath: string, parentPath: string, parent: NodeId,
                   path: string, name: string, kind: Kind)
    requires WellFormed(t) && root in t.nodes
    requires Resolve(t, root, rootPath, parentPath) == Ok(Some(parent))
    requires IsDirectory(t, parent) && name !in t.nodes[parent].children
    requires GetParts(path, rootPath) == Some(GetParts(parentPath, rootPath).value + [name])
    ensures Resolve(Add(t, parent, name, kind), root, rootPath, path) == Ok(Some(t.next))
  {
    var t' := Add(t, parent, name, kind);
    var parentParts := GetParts(parentPath, rootPath).value;
    WalkExtends(t, t', root, parentParts);
    WalkConcat(t', root, parentParts, [name]);
    assert [name][1..] == [];
    assert Walk(t', parent, [name]) == Find(t', parent, name);
  }

  /** For a normal path strictly below the root, a second createFile or
      createPath returns the same node and changes nothing. */
  lemma CreateAtIdempotent(t: Tree, root: NodeId, rootPath: string, path: string, kind: Kind,
                           grants: Grants, grants': Grants)
    requires WellFormed(t) && root in t.nodes
    requires StrictlyBelow(path, rootPath) && IsNormal(path)
    requires CreateAt(t, root, rootPath, path, kind, grants).1.Ok?
    requires CreateAt(t, root, rootPath, path, kind, grants).1.value.Some?
    ensures CreateAt(CreateAt(t, root, rootPath, path, kind, grants).0, root, rootPath, path, kind, grants')
      == CreateAt(t, root, rootPath, path, kind, grants)
  {
    CreateAtFinds(t, root, rootPath, path, kind, grants);
  }

  /** java.io.File turns "/r/a/" into "/r/a", whose parent is "/r" and whose
      name is "a". */
  lemma TrailingSeparatorSplit()
    ensures Normalize("/r/a/") == "/r/a"
    ensures FileParent("/r/a") == Some("/r") && FileName("/r/a") == "a"
  {
    var path := "/r/a/";
    assert NoRepeatedSeparator(path) by {
      forall i | 0 <= i < |path| - 1
        ensures !(path[i] == Separator && path[i + 1] == Separator)
      {
        assert path[1] == 'r' && path[3] == 'a';
      }
    }
    assert path[..4] == "/r/a";
    assert "/r/a"[..3] == "/r/";
    assert LastSeparator("/r/") == 2;
    assert "/r/a"[..2] == "/r" && "/r/a"[3..] == "a";
  }

  /** getParts keeps the empty segment after a trailing separator. */
  lemma TrailingSeparatorParts()
    ensures GetParts("/r/a/", "/r") == Some(["a", ""])
  {
    assert "/r/a/" == "/r" + [Separator] + "a/";
    SkippedCharacter("/r", Separator, "a/");
    SplitSingle("a");
    SplitTrailing("a");
    assert "a" + [Separator] == "a/";
    assert ["a"] + [""] == ["a", ""];
  }

  /** A granted tree holding only its root directory, node 0. */
  const EmptyRoot: Tree := Tree(map[0 := Node(Directory, map[])], 1)

  /** In the empty tree "/r/a/" is missing and "/r" is the root. */
  lemma EmptyRootResolves()
    ensures WellFormed(EmptyRoot) && 0 in EmptyRoot.nodes && IsDirectory(EmptyRoot, 0)
    ensures "a" !in EmptyRoot.nodes[0].children
    ensures Resolve(EmptyRoot, 0, "/r", "/r/a/") == Ok(None)
    ensures Resolve(EmptyRoot, 0, "/r", "/r") == Ok(Some(0))
  {
    TrailingSeparatorParts();
    assert Find(EmptyRoot, 0, "a") == None;
  }

  /** The first createPath("/r/a/") under an empty root "/r" creates "a". */
  lemma TrailingSeparatorFirst(grants: Grants)
    requires grants(0, "a")
    ensures CreateAt(EmptyRoot, 0, "/r", "/r/a/", Directory, grants) == (Add(EmptyRoot, 0, "a", Directory), Ok(Some(1)))
  {
    EmptyRootResolves();
    TrailingSeparatorSplit();
    assert Create(EmptyRoot, 0, "a", Directory, grants) == (Add(EmptyRoot, 0, "a", Directory), Some(1));
  }

  /** With a trailing separator createPath is not idempotent: "/r/a/" creates
      "a" under the root, but getDocumentFile then looks up "a" and "" and
      does not find it, and a second call asks the root for "a" again. */
  lemma CreateAtTrailingSeparator(grants: Grants, grants': Grants)
    requires grants(0, "a")
    ensures var first := CreateAt(EmptyRoot, 0, "/r", "/r/a/", Directory, grants);
      && first.1 == Ok(Some(1))
      && Resolve(first.0, 0, "/r", "/r/a/") == Ok(None)
      && CreateAt(first.0, 0, "/r", "/r/a/", Directory, grants') == (first.0, Ok(None))
  {
    TrailingSeparatorFirst(grants);
    EmptyRootResolves();
    TrailingSeparatorSplit();
    TrailingSeparatorParts();
    var t1 := Add(EmptyRoot, 0, "a", Directory);
    assert Resolve(t1, 0, "/r", "/r/a/") == Ok(None) by {
      assert Find(t1, 0, "a") == Some(1);
      assert Find(t1, 1, "") == None;
      assert ["a", ""][1..] == [""];
      assert Walk(t1, 1, [""]) == None;
    }
    assert Resolve(t1, 0, "/r", "/r") == Ok(Some(0));
    assert !CanCreate(t1, 0, "a", grants');
  }

  /** On success createPaths returns what getDocumentFile then finds, every
      node on the way below the root is a directory, and a second call returns
      the same node and changes nothing. */
  lemma MakePathIdempotent(t: Tree, root: NodeId, rootPath: string, path: string,
                           grants: Grants, grants': Grants)
    requires WellFormed(t) && root in t.nodes && IsDirectory(t, root)
    requires MakePath(t, root, rootPath, path, grants).1.Ok?
    requires MakePath(t, root, rootPath, path, grants).1.value.Some?
    ensures Resolve(MakePath(t, root, rootPath, path, grants).0, root, rootPath, path)
      == MakePath(t, root, rootPath, path, grants).1
    ensures DirectoriesAlong(MakePath(t, root, rootPath, path, grants).0, root, GetParts(path, rootPath).value)
    ensures MakePath(MakePath(t, root, rootPath, path, grants).0, root, rootPath, path, grants')
      == MakePath(t, root, rootPath, path, grants)
  {
    var parts := GetParts(path, rootPath).value;
    MakeDirsReaches(t, root, parts, grants);
    var t' := MakeDirs(t, root, parts, grants).0;
    MakeDirsExisting(t', root, parts, grants');
  }

  /** Unlike createPath, createPaths rejects a path that already names a file:
      it returns None and creates nothing. */
  lemma MakePathRejectsFile(t: Tree, root: NodeId, rootPath: string, path: string, grants: Grants)
    requires WellFormed(t) && root in t.nodes && IsDirectory(t, root)
    requires Resolve(t, root, rootPath, path).Ok? && Resolve(t, root, rootPath, path).value.Some?
    requires !IsDirectory(t, Resolve(t, root, rootPath, path).value.value)
    ensures MakePath(t, root, rootPath, path, grants) == (t, Ok(None))
  {
    var parts := GetParts(path, rootPath).value;
    if parts != [] {
      MakeDirsBlockedByFile(t, root, parts, grants);
    }
  }

  /** createPaths fails at an intermediate file: when the first `j` segments
      already lead to a file, the result is None and nothing is created. */
  lemma MakePathBlockedAt(t: Tree, root: NodeId, rootPath: string, path: string, j: nat, grants: Grants)
    requires WellFormed(t) && root in t.nodes && IsDirectory(t, root)
    requires GetParts(path, rootPath).Some? && 0 < j <= |GetParts(path, rootPath).value|
    requires Walk(t, root, GetParts(path, rootPath).value[..j]).Some?
    requires !IsDirectory(t, Walk(t, root, GetParts(path, rootPath).value[..j]).value)
    ensures MakePath(t, root, rootPath, path, grants) == (t, Ok(None))
  {
    MakeDirsBlockedAt(t, root, GetParts(path, rootPath).value, j, grants);
  }

  /** The same in terms of paths: below a path that names a file, createPaths
      returns None and creates nothing. */
  lemma MakePathUnderFile(t: Tree, root: NodeId, rootPath: string, file: string, rest: string, grants: Grants)
    requires WellFormed(t) && root in t.nodes && IsDirectory(t, root)
    requires rootPath <= file && |file| > |rootPath|
    requires Resolve(t, root, rootPath, file).Ok? && Resolve(t, root, rootPath, file).value.Some?
    requires !IsDirectory(t, Resolve(t, root, rootPath, file).value.value)
    ensures MakePath(t, root, rootPath, file + [Separator] + rest, grants) == (t, Ok(None))
  {
    var n := |rootPath|;
    var path := file + [Separator] + rest;
    var head := GetParts(file, rootPath).value;
    assert path[..n] == rootPath;
    assert path[n + 1..] == file[n + 1..] + [Separator] + rest;
    SplitConcat(file[n + 1..], rest);
    assert GetParts(path, rootPath).value[..|head|] == head;
    MakePathBlockedAt(t, root, rootPath, path, |head|, grants);
  }

  /** A failed createPaths stops at one segment: the segments before it have
      been walked or created as directories and stay, and nothing after it is
      touched. */
  lemma MakePathStops(t: Tree, root: NodeId, rootPath: string, path: string, grants: Grants)
    returns (k: nat)
    requires WellFormed(t) && root in t.nodes && IsDirectory(t, root)
    requires MakePath(t, root, rootPath, path, grants).1 == Ok(None)
    ensures var parts := GetParts(path, rootPath).value;
      && k < |parts|
      && MakeDirs(t, root, parts[..k], grants).1.Some?
      && Step(MakeDirs(t, root, parts[..k], grants).0, MakeDirs(t, root, parts[..k], grants).1.value,
              parts[k], grants).1.None?
      && Step(MakeDirs(t, root, parts[..k], grants).0, MakeDirs(t, root, parts[..k], grants).1.value,
              parts[k], grants).0 == MakePath(t, root, rootPath, path, grants).0
      && StepFails(MakeDirs(t, root, parts[..k], grants).0, MakeDirs(t, root, parts[..k], grants).1.value,
                   parts[k], grants)
  {
    k := MakeDirsStops(t, root, GetParts(path, rootPath).value, grants);
  }

  /** The static state of UtilsSAF: the granted tree root (DocumentFile.fromTreeUri
      on treeRoot.uri), its filesystem path treeRoot.rootPath, and the
      provider's document tree that the creating operations change. */
  class UtilsSaf {
    var tree: Tree
    var root: NodeId
    var rootPath: string

    ghost predicate Valid()
      reads this
    {
      WellFormed(tree) && root in tree.nodes && IsDirectory(tree, root)
    }

    /** UtilsSAF.setTreeRoot with a new TreeRoot(uri, rootPath). */
    constructor (granted: Tree, grantedRoot: NodeId, grantedPath: string)
      requires WellFormed(granted) && grantedRoot in granted.nodes && IsDirectory(granted, grantedRoot)
      ensures Valid()
      ensures tree == granted && root == grantedRoot && rootPath == grantedPath
    {
      tree := granted;
      root := grantedRoot;
      rootPath := grantedPath;
    }

    /** UtilsSAF.isInSAFRoot: the same prefix test getParts makes. */
    function IsInSafRoot(path: string): (inRoot: bool)
      reads this
      ensures inRoot <==> GetParts(path, rootPath).Some?
    {
      rootPath <= path
    }

    /** UtilsSAF.getDocumentFile: walks the tree from the root without changing it. */
    method GetDocumentFile(filePath: string) returns (r: Result<Option<NodeId>>)
      requires Valid()
      ensures r == Resolve(tree, root, rootPath, filePath)
    {
      var parts := GetParts(filePath, rootPath);
      if parts.None? {
        return Err(OutsideRoot);
      }
      var names := parts.value;
      var document := root;
      var i := 0;
      while i < |names|
        invariant 0 <= i <= |names|
        invariant document in tree.nodes
        invariant Walk(tree, root, names) == Walk(tree, document, names[i..])
      {
        DropTail(names, i);
        var next := Find(tree, document, names[i]);
        if next.None? {
          return Ok(None);
        }
        document := next.value;
        i := i + 1;
      }
      assert names[i..] == [];
      return Ok(Some(document));
    }

    /** DocumentFile.createDirectory / DocumentFile.createFile on `parent`. */
    method CreateChild(parent: NodeId, name: string, kind: Kind, grants: Grants) returns (child: Option<NodeId>)
      requires Valid() && parent in tree.nodes
      modifies this
      ensures Valid() && root == old(root) && rootPath == old(rootPath)
      ensures (tree, child) == Create(old(tree), parent, name, kind, grants)
    {
      var res := Create(tree, parent, name, kind, grants);
      tree := res.0;
      child := res.1;
    }

    /** UtilsSAF.createPaths: walks the path from the root, creating each
      missing directory, and returns None at a refused creation or at an
      existing file, keeping the directories already created. */
    method CreatePaths(filePath: string, grants: Grants) returns (r: Result<Option<NodeId>>)
      requires Valid()
      modifies this
      ensures Valid() && root == old(root) && rootPath == old(rootPath)
      ensures (tree, r) == MakePath(old(tree), root, rootPath, filePath, grants)
    {
      var parts := GetParts(filePath, rootPath);
      if parts.None? {
        return Err(OutsideRoot);
      }
      var names := parts.value;
      ghost var start := tree;
      var document := root;
      var i := 0;
      while i < |names|
        invariant 0 <= i <= |names|
        invariant Valid() && root == old(root) && rootPath == old(rootPath)
        invariant document in tree.nodes && IsDirectory(tree, document)
        invariant MakeDirs(start, root, names, grants) == MakeDirs(tree, document, names[i..], grants)
      {
        ghost var before := tree;
        DropTail(names, i);
        MakeDirsCons(before, document, names[i..], grants);
        var next := Find(tree, document, names[i]);
        if next.None? {
          next := CreateChild(document, names[i], Directory, grants);
          if next.None? {
            return Ok(None);
          }
        } else if !IsDirectory(tree, next.value) {
          return Ok(None);
        }
        assert (tree, next) == Step(before, document, names[i], grants);
        document := next.value;
        i := i + 1;
      }
      assert names[i..] == [];
      return Ok(Some(document));
    }

    /** UtilsSAF.createFile and UtilsSAF.createPath: the existing node, or one
      new child of `kind` under the parent, which must already resolve. */
    method CreateNode(filePath: string, kind: Kind, grants: Grants) returns (r: Result<Option<NodeId>>)
      requires Valid()
      modifies this
      ensures Valid() && root == old(root) && rootPath == old(rootPath)
      ensures (tree, r) == CreateAt(old(tree), root, rootPath, filePath, kind, grants)
    {
      var existing := GetDocumentFile(filePath);
      if existing != Ok(None) {
        return existing;
      }
      var file := Normalize(filePath);
      var parent := FileParent(file);
      if parent.None? {
        return Err(NoParent);
      }
      var parentDoc := GetDocumentFile(parent.value);
      match parentDoc
      case Err(e) =>
        r := Err(e);
      case Ok(None) =>
        r := Ok(None);
      case Ok(Some(p)) =>
        var created := CreateChild(p, FileName(file), kind, grants);
        r := Ok(created);
    }

    /** UtilsSAF.createFile: a plain file at `filePath` unless a node is there. */
    method CreateFile(filePath: string, grants: Grants) returns (r: Result<Option<NodeId>>)
      requires Valid()
      modifies this
      ensures Valid() && root == old(root) && rootPath == old(rootPath)
      ensures (tree, r) == CreateAt(old(tree), root, rootPath, filePath, Document(MimeType), grants)
    {
      r := CreateNode(filePath, Document(MimeType), grants);
    }

    /** UtilsSAF.createPath: one directory at `filePath` unless a node is there. */
    method CreatePath(filePath: string, grants: Grants) returns (r: Result<Option<NodeId>>)
      requires Valid()
      modifies this
      ensures Valid() && root == old(root) && rootPath == old(rootPath)
      ensures (tree, r) == CreateAt(old(tree), root, rootPath, filePath, Directory, grants)
    {
      r := CreateNode(filePath, Directory, grants);
    }
  }
}
