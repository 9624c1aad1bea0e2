/** The document tree the platform grants, as the path layer sees it through
    DocumentFile: nodes reached from a parent by exact child name
    (DocumentFile.findFile), and new children made by
    DocumentFile.createDirectory and DocumentFile.createFile, which the
    provider may refuse. */
module DocumentTree {
  import opened Outcomes

  type NodeId = nat

  /** A directory, or a file with its MIME type. */
  datatype Kind = Directory | Document(mimeType: string)

  datatype Node = Node(kind: Kind, children: map<string, NodeId>)

  /** The provider's nodes, and the id the next created node receives. */
  datatype Tree = Tree(nodes: map<NodeId, Node>, next: NodeId)

  /** Every id is below `next`, every child exists, and files have no children. */
  ghost predicate WellFormed(t: Tree) {
    && (forall id :: id in t.nodes ==> id < t.next)
    && (forall id, name :: id in t.nodes && name in t.nodes[id].children ==>
          t.nodes[id].children[name] in t.nodes)
    && (forall id :: id in t.nodes && t.nodes[id].kind.Document? ==> t.nodes[id].children == map[])
  }

  /** DocumentFile.isDirectory: anything else is a file, which in a
      well-formed tree has no children, so no lookup below it succeeds. */
  predicate IsDirectory(t: Tree, id: NodeId): (isDir: bool)
    requires id in t.nodes
    ensures isDir <==> !t.nodes[id].kind.Document?
    ensures !isDir && WellFormed(t) ==> t.nodes[id].children == map[]
  {
    t.nodes[id].kind == Directory
  }

  /** Every entry of `m` is in `m'` with the same value. */
  ghost predicate SubMap(m: map<string, NodeId>, m': map<string, NodeId>) {
    forall name :: name in m ==> name in m' && m'[name] == m[name]
  }

  /** `t'` keeps every node of `t` with its kind and its children; it may only
      add nodes and add children under missing names. */
  ghost predicate Extends(t: Tree, t': Tree) {
    && t.next <= t'.next
    && forall id :: id in t.nodes ==>
         && id in t'.nodes
         && t'.nodes[id].kind == t.nodes[id].kind
         && SubMap(t.nodes[id].children, t'.nodes[id].children)
  }

  /** Every node `t'` has and `t` has not is a directory. */
  ghost predicate AddsOnlyDirectories(t: Tree, t': Tree) {
    forall id :: id in t'.nodes && id !in t.nodes ==> t'.nodes[id].kind == Directory
  }

  /** Extension is transitive. */
  lemma ExtendsTransitive(t0: Tree, t1: Tree, t2: Tree)
    requires Extends(t0, t1) && Extends(t1, t2)
    ensures Extends(t0, t2)
  {
    forall id | id in t0.nodes
      ensures SubMap(t0.nodes[id].children, t2.nodes[id].children)
    {
      assert SubMap(t0.nodes[id].children, t1.nodes[id].children);
      assert SubMap(t1.nodes[id].children, t2.nodes[id].children);
    }
  }

  /** DocumentFile.findFile: the child of `parent` with exactly this name. */
  function Find(t: Tree, parent: NodeId, name: string): (child: Option<NodeId>)
    requires WellFormed(t) && parent in t.nodes
    ensures child.Some? ==> child.value in t.nodes
    ensures child.None? <==> name !in t.nodes[parent].children
  {
    if name in t.nodes[parent].children then Some(t.nodes[parent].children[name]) else None
  }

  /** An extended tree still finds every child the old one found. */
  lemma FindExtends(t: Tree, t': Tree, parent: NodeId, name: string)
    requires WellFormed(t) && WellFormed(t') && Extends(t, t') && parent in t.nodes
    requires Find(t, parent, name).Some?
    ensures Find(t', parent, name) == Find(t, parent, name)
  {
    assert SubMap(t.nodes[parent].children, t'.nodes[parent].children);
  }

  /** Whether the provider creates `name` under `parent`: the oracle for
      storage and permission failures. */
  type Grants = (NodeId, string) -> bool

  /** The provider creates a child only under a directory, only under a name
      not yet taken, and only when it grants the request. */
  predicate CanCreate(t: Tree, parent: NodeId, name: string, grants: Grants)
    requires parent in t.nodes
  {
    IsDirectory(t, parent) && name !in t.nodes[parent].children && grants(parent, name)
  }

  /** A fresh node of `kind` linked under `parent` as `name`. */
  function Add(t: Tree, parent: NodeId, name: string, kind: Kind): (t': Tree)
    requires WellFormed(t) && parent in t.nodes && IsDirectory(t, parent)
    requires name !in t.nodes[parent].children
    ensures WellFormed(t') && Extends(t, t')
    ensures t.next !in t.nodes && t'.nodes.Keys == t.nodes.Keys + {t.next}
    ensures t'.nodes[t.next] == Node(kind, map[])
    ensures Find(t', parent, name) == Some(t.next)
    ensures forall id :: id in t.nodes && id != parent ==> t'.nodes[id] == t.nodes[id]
    ensures t'.nodes[parent].children.Keys == t.nodes[parent].children.Keys + {name}
  {
    var p := t.nodes[parent];
    var children' := p.children[name := t.next];
    var nodes' := t.nodes[parent := Node(p.kind, children')][t.next := Node(kind, map[])];
    var t' := Tree(nodes', t.next + 1);
    assert t.next !in t.nodes;
    assert nodes'[parent] == Node(p.kind, children');
    assert SubMap(p.children, children');
    assert forall id :: id in t.nodes && id != parent ==> nodes'[id] == t.nodes[id];
    t'
  }

  /** DocumentFile.createDirectory / DocumentFile.createFile: the new tree and
      the new node, or the unchanged tree and None (Java null). */
  function Create(t: Tree, parent: NodeId, name: string, kind: Kind, grants: Grants): (res: (Tree, Option<NodeId>))
    requires WellFormed(t) && parent in t.nodes
    ensures WellFormed(res.0) && Extends(t, res.0)
    ensures res.1.None? ==> res.0 == t
    ensures res.1.Some? ==>
      && IsDirectory(t, parent) && name !in t.nodes[parent].children
      && res.1.value !in t.nodes && res.0.nodes.Keys == t.nodes.Keys + {res.1.value}
      && res.0.nodes[res.1.value] == Node(kind, map[])
      && Find(res.0, parent, name) == res.1
    ensures res.1.Some? <==> CanCreate(t, parent, name, grants)
    ensures res.1.Some? ==> res.0 == Add(t, parent, name, kind)
  {
    if CanCreate(t, parent, name, grants) then (Add(t, parent, name, kind), Some(t.next)) else (t, None)
  }

  /** The node reached from `from` by looking up each name in turn, or None at
      the first name that is missing. */
  function Walk(t: Tree, from: NodeId, parts: seq<string>): (node: Option<NodeId>)
    requires WellFormed(t) && from in t.nodes
    ensures node.Some? ==> node.value in t.nodes
    decreases |parts|
  {
    if parts == [] then Some(from)
    else
      match Find(t, from, parts[0])
      case None => None
      case Some(child) => Walk(t, child, parts[1..])
  }

  /** A walk over `p + q` is the walk over `p` continued over `q`. */
  lemma {:induction false} WalkConcat(t: Tree, from: NodeId, p: seq<string>, q: seq<string>)
    requires WellFormed(t) && from in t.nodes
    ensures Walk(t, from, p + q) ==
      match Walk(t, from, p)
      case None => None
      case Some(mid) => Walk(t, mid, q)
    decreases |p|
  {
    if p == [] {
      assert p + q == q;
    } else {
      assert (p + q)[0] == p[0] && (p + q)[1..] == p[1..] + q;
      match Find(t, from, p[0])
      case None =>
      case Some(child) => WalkConcat(t, child, p[1..], q);
    }
  }

  /** Adding nodes and children never breaks a walk that succeeded. */
  lemma {:induction false} WalkExtends(t: Tree, t': Tree, from: NodeId, parts: seq<string>)
    requires WellFormed(t) && WellFormed(t') && Extends(t, t') && from in t.nodes
    requires Walk(t, from, parts).Some?
    ensures Walk(t', from, parts) == Walk(t, from, parts)
    decreases |parts|
  {
    if parts != [] {
      var child := Find(t, from, parts[0]).value;
      FindExtends(t, t', from, parts[0]);
      WalkExtends(t, t', child, parts[1..]);
    }
  }

  /** Every node the walk passes through after `from` exists and is a directory. */
  ghost predicate DirectoriesAlong(t: Tree, from: NodeId, parts: seq<string>)
    requires WellFormed(t) && from in t.nodes
    decreases |parts|
  {
    parts == [] ||
    match Find(t, from, parts[0])
    case None => false
    case Some(child) => IsDirectory(t, child) && DirectoriesAlong(t, child, parts[1..])
  }

  /** Every node `t'` has beyond `t` is reached from `from` by a non-empty
      prefix of `parts`. */
  ghost predicate NewNodesAlong(t: Tree, t': Tree, from: NodeId, parts: seq<string>)
    requires WellFormed(t') && from in t'.nodes
  {
    forall id :: id in t'.nodes && id !in t.nodes ==>
      exists j :: 0 < j <= |parts| && Walk(t', from, parts[..j]) == Some(id)
  }

  /** Every link `t'` has beyond `t` joins the node a prefix of `parts`
      reaches to the name that follows that prefix. */
  ghost predicate NewLinksAlong(t: Tree, t': Tree, from: NodeId, parts: seq<string>)
    requires WellFormed(t') && from in t'.nodes
  {
    forall id, name ::
      (id in t'.nodes && name in t'.nodes[id].children && !(id in t.nodes && name in t.nodes[id].children)) ==>
      exists j :: 0 <= j < |parts| && Walk(t', from, parts[..j]) == Some(id) && parts[j] == name
  }

  /** Everything `t'` has beyond `t` lies on the walk over `parts` from `from`. */
  ghost predicate GrowsOnlyAlong(t: Tree, t': Tree, from: NodeId, parts: seq<string>)
    requires WellFormed(t') && from in t'.nodes
  {
    NewNodesAlong(t, t', from, parts) && NewLinksAlong(t, t', from, parts)
  }

  /** A tree grows along any names over itself. */
  lemma GrowsNothing(t: Tree, from: NodeId, parts: seq<string>)
    requires WellFormed(t) && from in t.nodes
    ensures GrowsOnlyAlong(t, t, from, parts)
  {
  }

  /** A creation adds only the new child and its link under `parent`. */
  lemma CreateGrows(t: Tree, parent: NodeId, name: string, kind: Kind, grants: Grants)
    requires WellFormed(t) && parent in t.nodes
    ensures GrowsOnlyAlong(t, Create(t, parent, name, kind, grants).0, parent, [name])
  {
    var t' := Create(t, parent, name, kind, grants).0;
    if CanCreate(t, parent, name, grants) {
      assert [name][..1] == [name] && [name][..0] == [];
      assert Walk(t', parent, [name]) == Some(t.next);
    }
  }

  /** With `from` linked to `child` by `name`, a walk over `name` then a
      prefix of `rest` is the walk over that prefix from `child`. */
  lemma WalkPrefixCons(t: Tree, from: NodeId, name: string, child: NodeId, rest: seq<string>, k: nat)
    requires WellFormed(t) && from in t.nodes && Find(t, from, name) == Some(child) && k <= |rest|
    ensures Walk(t, from, ([name] + rest)[..k + 1]) == Walk(t, child, rest[..k])
  {
    var parts := [name] + rest;
    assert parts[..k + 1][0] == name && parts[..k + 1][1..] == rest[..k];
  }

  /** NewNodesAlong composes over `[name] + rest` through the child `name` reaches. */
  lemma NewNodesAlongCons(t: Tree, t1: Tree, t2: Tree, from: NodeId, name: string, child: NodeId, rest: seq<string>)
    requires WellFormed(t1) && WellFormed(t2) && Extends(t1, t2) && from in t1.nodes
    requires NewNodesAlong(t, t1, from, [name])
    requires Find(t1, from, name) == Some(child) && NewNodesAlong(t1, t2, child, rest)
    ensures NewNodesAlong(t, t2, from, [name] + rest)
  {
    var parts := [name] + rest;
    FindExtends(t1, t2, from, name);
    forall id | id in t2.nodes && id !in t.nodes
      ensures exists j :: 0 < j <= |parts| && Walk(t2, from, parts[..j]) == Some(id)
    {
      if id in t1.nodes {
        var j1 :| 0 < j1 <= 1 && Walk(t1, from, [name][..j1]) == Some(id);
        WalkPrefixCons(t1, from, name, child, [], 0);
        assert [name] + [] == [name];
        WalkPrefixCons(t2, from, name, child, rest, 0);
        assert Walk(t2, from, parts[..1]) == Some(id);
      } else {
        var j :| 0 < j <= |rest| && Walk(t2, child, rest[..j]) == Some(id);
        WalkPrefixCons(t2, from, name, child, rest, j);
      }
    }
  }

  /** NewLinksAlong composes over `[name] + rest` through the child `name` reaches. */
  lemma NewLinksAlongCons(t: Tree, t1: Tree, t2: Tree, from: NodeId, name: string, child: NodeId, rest: seq<string>)
    requires WellFormed(t1) && WellFormed(t2) && Extends(t1, t2) && from in t1.nodes
    requires NewLinksAlong(t, t1, from, [name])
    requires Find(t1, from, name) == Some(child) && NewLinksAlong(t1, t2, child, rest)
    ensures NewLinksAlong(t, t2, from, [name] + rest)
  {
    var parts := [name] + rest;
    FindExtends(t1, t2, from, name);
    forall id, n | id in t2.nodes && n in t2.nodes[id].children && !(id in t.nodes && n in t.nodes[id].children)
      ensures exists j :: 0 <= j < |parts| && Walk(t2, from, parts[..j]) == Some(id) && parts[j] == n
    {
      if id in t1.nodes && n in t1.nodes[id].children {
        var j1 :| 0 <= j1 < 1 && Walk(t1, from, [name][..j1]) == Some(id) && [name][j1] == n;
        assert [name][..j1] == [] && parts[..0] == [];
        assert Walk(t2, from, parts[..0]) == Some(id) && parts[0] == n;
      } else {
        var j :| 0 <= j < |rest| && Walk(t2, child, rest[..j]) == Some(id) && rest[j] == n;
        WalkPrefixCons(t2, from, name, child, rest, j);
        assert parts[j + 1] == n;
      }
    }
  }

  /** Growth along `[name]` followed by growth along `rest` from the child is
      growth along `[name] + rest`. */
  lemma GrowsAlongCons(t: Tree, t1: Tree, t2: Tree, from: NodeId, name: string, child: NodeId, rest: seq<string>)
    requires WellFormed(t1) && WellFormed(t2) && Extends(t1, t2) && from in t1.nodes
    requires GrowsOnlyAlong(t, t1, from, [name])
    requires Find(t1, from, name) == Some(child) && GrowsOnlyAlong(t1, t2, child, rest)
    ensures GrowsOnlyAlong(t, t2, from, [name] + rest)
  {
    NewNodesAlongCons(t, t1, t2, from, name, child, rest);
    NewLinksAlongCons(t, t1, t2, from, name, child, rest);
  }

  /** Why an iteration of createPaths returns null: the child exists and is a
      file, or it is missing and the provider does not create it. */
  predicate StepFails(t: Tree, d: NodeId, name: string, grants: Grants)
    requires WellFormed(t) && d in t.nodes
  {
    || (Find(t, d, name).Some? && !IsDirectory(t, Find(t, d, name).value))
    || (Find(t, d, name).None? && !CanCreate(t, d, name, grants))
  }

  /** One iteration of UtilsSAF.createPaths at directory `d`: an existing
      directory child is entered, an existing file child aborts with None, and
      a missing child is created as a directory unless the provider refuses. */
  function Step(t: Tree, d: NodeId, name: string, grants: Grants): (res: (Tree, Option<NodeId>))
    requires WellFormed(t) && d in t.nodes
    ensures WellFormed(res.0) && Extends(t, res.0) && AddsOnlyDirectories(t, res.0)
    ensures res.1.Some? ==>
      && res.1.value in res.0.nodes && IsDirectory(res.0, res.1.value)
      && Find(res.0, d, name) == res.1
    ensures Find(t, d, name).Some? ==> res.0 == t
    ensures res.1.None? ==> res.0 == t
    ensures Find(t, d, name).None? && res.1.Some? ==> res.0 == Add(t, d, name, Directory)
    ensures GrowsOnlyAlong(t, res.0, d, [name])
    ensures res.1.None? <==> StepFails(t, d, name, grants)
  {
    match Find(t, d, name)
    case Some(child) => if IsDirectory(t, child) then (t, Some(child)) else (t, None)
    case None =>
      CreateGrows(t, d, name, Directory, grants);
      Create(t, d, name, Directory, grants)
  }

  /** The loop of UtilsSAF.createPaths from `from`: one Step per name, stopping
      with None at the first step that fails and keeping what was created. */
  function MakeDirs(t: Tree, from: NodeId, parts: seq<string>, grants: Grants): (res: (Tree, Option<NodeId>))
    requires WellFormed(t) && from in t.nodes && IsDirectory(t, from)
    ensures WellFormed(res.0) && Extends(t, res.0) && AddsOnlyDirectories(t, res.0)
    ensures res.1.Some? ==> res.1.value in res.0.nodes && IsDirectory(res.0, res.1.value)
    decreases |parts|
  {
    if parts == [] then (t, Some(from))
    else
      var first := Step(t, from, parts[0], grants);
      if first.1.None? then (first.0, None)
      else
        var res := MakeDirs(first.0, first.1.value, parts[1..], grants);
        ExtendsTransitive(t, first.0, res.0);
        res
  }

  /** The createPaths loop adds nothing off its path: every new directory is
      the node some prefix of the names reaches, and every new link is the
      next name below such a node, so at most one directory per name. */
  lemma {:induction false} MakeDirsGrowsAlong(t: Tree, from: NodeId, parts: seq<string>, grants: Grants)
    requires WellFormed(t) && from in t.nodes && IsDirectory(t, from)
    ensures GrowsOnlyAlong(t, MakeDirs(t, from, parts, grants).0, from, parts)
    decreases |parts|
  {
    if parts == [] {
      GrowsNothing(t, from, parts);
    } else {
      var first := Step(t, from, parts[0], grants);
      if first.1.None? {
        GrowsNothing(t, from, parts);
      } else {
        MakeDirsCons(t, from, parts, grants);
        var res := MakeDirs(first.0, first.1.value, parts[1..], grants);
        MakeDirsGrowsAlong(first.0, first.1.value, parts[1..], grants);
        GrowsAlongCons(t, first.0, res.0, from, parts[0], first.1.value, parts[1..]);
        assert [parts[0]] + parts[1..] == parts;
      }
    }
  }

  /** The walk over `[name] + rest` is one Step and then the walk over `rest`. */
  lemma MakeDirsCons(t: Tree, from: NodeId, parts: seq<string>, grants: Grants)
    requires WellFormed(t) && from in t.nodes && IsDirectory(t, from) && parts != []
    ensures var first := Step(t, from, parts[0], grants);
      MakeDirs(t, from, parts, grants) ==
        if first.1.None? then (first.0, None) else MakeDirs(first.0, first.1.value, parts[1..], grants)
  {
  }

  /** The first `k + 1` elements are the head followed by the first `k` of the tail. */
  lemma PrefixTail<T>(s: seq<T>, k: nat)
    requires k < |s|
    ensures s[..k + 1][0] == s[0] && s[..k + 1][1..] == s[1..][..k]
  {
  }

  /** Dropping `i` elements and then one more drops `i + 1`. */
  lemma DropTail<T>(s: seq<T>, i: nat)
    requires i < |s|
    ensures s[i..][0] == s[i] && s[i..][1..] == s[i + 1..]
  {
  }

  /** A prefix of `k + 1` names is one Step and then a prefix of `k` names. */
  lemma MakeDirsPrefix(t: Tree, from: NodeId, parts: seq<string>, k: nat, grants: Grants)
    requires WellFormed(t) && from in t.nodes && IsDirectory(t, from) && k < |parts|
    requires Step(t, from, parts[0], grants).1.Some?
    ensures var first := Step(t, from, parts[0], grants);
      MakeDirs(t, from, parts[..k + 1], grants) == MakeDirs(first.0, first.1.value, parts[1..][..k], grants)
  {
    var prefix := parts[..k + 1];
    PrefixTail(parts, k);
    MakeDirsCons(t, from, prefix, grants);
  }

  /** On success the returned node is what a read-only walk now finds, through
      directories only. */
  lemma {:induction false} MakeDirsReaches(t: Tree, from: NodeId, parts: seq<string>, grants: Grants)
    requires WellFormed(t) && from in t.nodes && IsDirectory(t, from)
    requires MakeDirs(t, from, parts, grants).1.Some?
    ensures Walk(MakeDirs(t, from, parts, grants).0, from, parts) == MakeDirs(t, from, parts, grants).1
    ensures DirectoriesAlong(MakeDirs(t, from, parts, grants).0, from, parts)
    decreases |parts|
  {
    if parts != [] {
      var t' := MakeDirs(t, from, parts, grants).0;
      var first := Step(t, from, parts[0], grants);
      MakeDirsReaches(first.0, first.1.value, parts[1..], grants);
      FindExtends(first.0, t', from, parts[0]);
    }
  }

  /** Over a path that already exists as directories nothing is created and
      the existing node is returned. */
  lemma {:induction false} MakeDirsExisting(t: Tree, from: NodeId, parts: seq<string>, grants: Grants)
    requires WellFormed(t) && from in t.nodes && IsDirectory(t, from)
    requires Walk(t, from, parts).Some? && DirectoriesAlong(t, from, parts)
    ensures MakeDirs(t, from, parts, grants) == (t, Walk(t, from, parts))
    decreases |parts|
  {
    if parts != [] {
      MakeDirsExisting(t, Find(t, from, parts[0]).value, parts[1..], grants);
    }
  }

  /** When the existing names lead exactly to a file, nothing is created and
      the result is None. */
  lemma {:induction false} MakeDirsBlockedByFile(t: Tree, from: NodeId, parts: seq<string>, grants: Grants)
    requires WellFormed(t) && from in t.nodes && IsDirectory(t, from)
    requires |parts| > 0 && Walk(t, from, parts).Some? && !IsDirectory(t, Walk(t, from, parts).value)
    ensures MakeDirs(t, from, parts, grants) == (t, None)
    decreases |parts|
  {
    var child := Find(t, from, parts[0]).value;
    if |parts| > 1 && IsDirectory(t, child) {
      MakeDirsBlockedByFile(t, child, parts[1..], grants);
    }
  }

  /** When some non-empty prefix of the names already leads to a file, the loop
      fails there: nothing is created, before or after that segment. */
  lemma {:induction false} MakeDirsBlockedAt(t: Tree, from: NodeId, parts: seq<string>, j: nat, grants: Grants)
    requires WellFormed(t) && from in t.nodes && IsDirectory(t, from)
    requires 0 < j <= |parts| && Walk(t, from, parts[..j]).Some?
    requires !IsDirectory(t, Walk(t, from, parts[..j]).value)
    ensures MakeDirs(t, from, parts, grants) == (t, None)
    decreases j
  {
    WalkPrefixFirst(t, from, parts, j);
    var child := Find(t, from, parts[0]).value;
    MakeDirsCons(t, from, parts, grants);
    if IsDirectory(t, child) {
      assert Step(t, from, parts[0], grants) == (t, Some(child));
      MakeDirsBlockedAt(t, child, parts[1..], j - 1, grants);
    }
  }

  /** A walk over a non-empty prefix takes the first name and then walks the
      rest of the prefix. */
  lemma WalkPrefixFirst(t: Tree, from: NodeId, parts: seq<string>, j: nat)
    requires WellFormed(t) && from in t.nodes
    requires 0 < j <= |parts| && Walk(t, from, parts[..j]).Some?
    ensures Find(t, from, parts[0]).Some?
    ensures Walk(t, from, parts[..j]) == Walk(t, Find(t, from, parts[0]).value, parts[1..][..j - 1])
    ensures j == 1 ==> Walk(t, from, parts[..j]) == Find(t, from, parts[0])
  {
    PrefixTail(parts, j - 1);
    assert parts[1..][..0] == [];
  }

  /** A failed createPaths has done exactly the work of the first `k` names,
      whose directories remain, and then failed at name `k`. */
  lemma {:induction false} MakeDirsStops(t: Tree, from: NodeId, parts: seq<string>, grants: Grants)
    returns (k: nat)
    requires WellFormed(t) && from in t.nodes && IsDirectory(t, from)
    requires MakeDirs(t, from, parts, grants).1.None?
    ensures k < |parts| && MakeDirs(t, from, parts[..k], grants).1.Some?
    ensures Step(MakeDirs(t, from, parts[..k], grants).0, MakeDirs(t, from, parts[..k], grants).1.value,
                 parts[k], grants) == MakeDirs(t, from, parts, grants)
    ensures StepFails(MakeDirs(t, from, parts[..k], grants).0, MakeDirs(t, from, parts[..k], grants).1.value,
                      parts[k], grants)
    decreases |parts|
  {
    assert parts != [];
    var first := Step(t, from, parts[0], grants);
    if first.1.None? {
      k := 0;
      assert parts[..0] == [];
    } else {
      var j := MakeDirsStops(first.0, first.1.value, parts[1..], grants);
      k := j + 1;
      MakeDirsPrefix(t, from, parts, j, grants);
      MakeDirsCons(t, from, parts, grants);
      assert parts[k] == parts[1..][j];
    }
  }
}
