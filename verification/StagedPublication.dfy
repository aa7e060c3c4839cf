/** Publishing a staged runtime into an existing package directory: every conflict is found first, and then
    only what is missing is added. */
module StagedPublication {
  import opened Bytes
  import opened FileTree
  import opened Options
  import opened Sequences

  /** A staged entry to publish; a file stands with the content the staging directory holds for it. */
  datatype Asset =
    | DirAsset(path: Path)
    | FileAsset(path: Path, content: Bytes)
    | LinkAsset(path: Path, target: string)

  /** What `lstat` and a read say about a path of the package directory. */
  datatype Entry = IsDir | IsFile(content: Bytes) | IsLink(target: string) | IsOther

  type Tree = map<Path, Entry>

  // ---------- Listing the staging directory ----------

  /** Every entry, a directory right before what it holds. */
  function Assets(entries: seq<Named>, parent: Path): seq<Asset> {
    if entries == [] then [] else Own(entries[0].node, parent + [entries[0].name]) + Assets(entries[1..], parent)
  }

  function Own(node: Node, path: Path): seq<Asset> {
    match node
    case File(content, _) => [FileAsset(path, content)]
    case Link(target) => [LinkAsset(path, target)]
    case Special => []
    case Dir(entries) => [DirAsset(path)] + Assets(entries, path)
  }

  predicate Supported(entries: seq<Named>) {
    forall i | 0 <= i < |entries| :: SupportedNode(entries[i].node)
  }

  predicate SupportedNode(node: Node) {
    !node.Special? && (node.Dir? ==> Supported(node.entries))
  }

  lemma {:induction false} AssetsConcat(a: seq<Named>, b: seq<Named>, parent: Path)
    ensures Assets(a + b, parent) == Assets(a, parent) + Assets(b, parent)
    decreases |a|
  {
    if a == [] {
      assert a + b == b;
    } else {
      assert (a + b)[1..] == a[1..] + b;
      AssetsConcat(a[1..], b, parent);
    }
  }

  lemma {:induction false} OneMoreEntry(entries: seq<Named>, parent: Path, i: nat)
    requires i < |entries|
    ensures Assets(entries[..i + 1], parent)
         == Assets(entries[..i], parent) + Own(entries[i].node, parent + [entries[i].name])
    ensures Supported(entries[..i + 1]) <==> Supported(entries[..i]) && SupportedNode(entries[i].node)
  {
    var own := Own(entries[i].node, parent + [entries[i].name]);
    assert entries[..i + 1] == entries[..i] + [entries[i]];
    AssetsConcat(entries[..i], [entries[i]], parent);
    assert Assets([entries[i]], parent) == own + Assets([], parent) == own;
    assert entries[..i + 1][i] == entries[i] && forall j | 0 <= j < i :: entries[..i][j] == entries[..i + 1][j];
  }

  /** `stagedAssets`; none if an entry is neither a directory, a file nor a link. */
  method StagedAssets(entries: seq<Named>, parent: Path) returns (assets: Option<seq<Asset>>)
    ensures assets.Some? <==> Supported(entries)
    ensures assets.Some? ==> assets.value == Assets(entries, parent)
    decreases entries
  {
    var listed: seq<Asset> := [];
    for i := 0 to |entries|
      invariant listed == Assets(entries[..i], parent)
      invariant Supported(entries[..i])
    {
      var node, path := entries[i].node, parent + [entries[i].name];
      OneMoreEntry(entries, parent, i);
      match node {
        case Dir(inner) =>
          ghost var before := listed;
          listed := listed + [DirAsset(path)];
          var below := StagedAssets(inner, path);
          if below.None? {
            return None;
          }
          Regroup(before, [DirAsset(path)], below.value);
          listed := listed + below.value;
        case File(content, _) => listed := listed + [FileAsset(path, content)];
        case Link(target) => listed := listed + [LinkAsset(path, target)];
        case Special => return None;
      }
    }
    assert entries[..|entries|] == entries;
    assets := Some(listed);
  }

  /** What a node is published as. */
  function AssetOf(node: Node, path: Path): Asset
    requires !node.Special?
  {
    match node
    case File(content, _) => FileAsset(path, content)
    case Link(target) => LinkAsset(path, target)
    case Dir(_) => DirAsset(path)
  }

  /** The listing has every staged node, at its path. */
  lemma {:induction false} ListingIsComplete(entries: seq<Named>, parent: Path, path: Path)
    requires Supported(entries) && NodeAt(entries, path).Some?
    ensures !NodeAt(entries, path).value.Special?
    ensures AssetOf(NodeAt(entries, path).value, parent + path) in Assets(entries, parent)
    decreases |path|, |entries|
  {
    if entries[0].name != path[0] {
      ListingIsComplete(entries[1..], parent, path);
    } else if |path| == 1 {
      assert parent + path == parent + [entries[0].name];
    } else {
      ListingIsComplete(entries[0].node.entries, parent + [entries[0].name], path[1..]);
      assert (parent + [entries[0].name]) + path[1..] == parent + path;
    }
  }

  /** A node stands at the asset's path below `parent`, and is published as this asset. */
  predicate Stands(entries: seq<Named>, parent: Path, a: Asset) {
    parent <= a.path &&
    var node := NodeAt(entries, a.path[|parent|..]);
    node.Some? && !node.value.Special? && a == AssetOf(node.value, a.path)
  }

  /** And nothing else: each asset is a staged node. */
  lemma {:induction false} ListingIsSound(entries: seq<Named>, parent: Path, a: Asset)
    requires WellNamed(entries) && a in Assets(entries, parent)
    ensures Stands(entries, parent, a)
    decreases entries
  {
    var first := entries[0];
    var own := parent + [first.name];
    if a in Assets(entries[1..], parent) {
      ListingIsSound(entries[1..], parent, a);
      AssetsAreWithin(entries[1..], parent);
      var i :| 0 <= i < |entries[1..]| && entries[1..][i].name == a.path[|parent|];
      assert entries[i + 1].name != first.name;
    } else if first.node.Dir? && a in Assets(first.node.entries, own) {
      ListingIsSound(first.node.entries, own, a);
      AssetsAreWithin(first.node.entries, own);
      StandsInside(entries, parent, a);
    } else {
      assert a == AssetOf(first.node, own) && own[|parent|..] == [first.name];
    }
  }

  lemma StandsInside(entries: seq<Named>, parent: Path, a: Asset)
    requires entries != [] && entries[0].node.Dir?
    requires var own := parent + [entries[0].name];
             Stands(entries[0].node.entries, own, a) && |a.path| > |own|
    ensures Stands(entries, parent, a)
  {
    var own := parent + [entries[0].name];
    assert a.path[..|parent|] == own[..|parent|] == parent;
    assert a.path[|parent|] == own[|parent|] == entries[0].name;
    assert a.path[|parent|..][1..] == a.path[|own|..];
  }

  function Parent(path: Path): Path
    requires path != []
  {
    path[..|path| - 1]
  }

  ghost predicate DistinctPaths(assets: seq<Asset>) {
    forall i, j | 0 <= i < j < |assets| :: assets[i].path != assets[j].path
  }

  /** Each asset lies directly in `root` or in a directory listed before it. */
  ghost predicate ParentsFirst(assets: seq<Asset>, root: Path) {
    forall i | 0 <= i < |assets| ::
      assets[i].path != [] &&
      (Parent(assets[i].path) == root || DirAsset(Parent(assets[i].path)) in assets[..i])
  }

  /** Each path goes through one of the names of a directory. */
  ghost predicate Within(assets: seq<Asset>, parent: Path, entries: seq<Named>) {
    forall a <- assets ::
      && |a.path| > |parent| && a.path[..|parent|] == parent
      && exists i :: 0 <= i < |entries| && entries[i].name == a.path[|parent|]
  }

  lemma {:induction false} AssetsAreWithin(entries: seq<Named>, parent: Path)
    ensures Within(Assets(entries, parent), parent, entries)
    decreases entries
  {
    if entries != [] {
      AssetsAreWithin(entries[1..], parent);
      OwnIsUnder(entries[0].node, parent + [entries[0].name]);
      forall a <- Assets(entries, parent)
        ensures && |a.path| > |parent| && a.path[..|parent|] == parent
                && exists i :: 0 <= i < |entries| && entries[i].name == a.path[|parent|]
      {
        if a in Own(entries[0].node, parent + [entries[0].name]) {
          var own := parent + [entries[0].name];
          assert a.path[..|own|] == own;
          assert a.path[..|parent|] == own[..|parent|] == parent && a.path[|parent|] == own[|parent|];
        } else {
          var i :| 0 <= i < |entries[1..]| && entries[1..][i].name == a.path[|parent|];
          assert entries[i + 1].name == a.path[|parent|];
        }
      }
    }
  }

  lemma {:induction false} OwnIsUnder(node: Node, path: Path)
    ensures forall a <- Own(node, path) :: path <= a.path
    decreases node
  {
    if node.Dir? {
      AssetsAreWithin(node.entries, path);
      forall a <- Assets(node.entries, path)
        ensures path <= a.path
      {
        assert a.path[..|path|] == path;
      }
    }
  }

  lemma {:induction false} AssetsAreDistinct(entries: seq<Named>, parent: Path)
    requires WellNamed(entries)
    ensures DistinctPaths(Assets(entries, parent))
    decreases entries
  {
    if entries != [] {
      var own, rest := Own(entries[0].node, parent + [entries[0].name]), Assets(entries[1..], parent);
      AssetsAreDistinct(entries[1..], parent);
      OwnIsDistinct(entries[0].node, parent + [entries[0].name]);
      OwnIsUnder(entries[0].node, parent + [entries[0].name]);
      AssetsAreWithin(entries[1..], parent);
      forall a <- own, b <- rest
        ensures a.path != b.path
      {
        assert a.path[|parent|] == entries[0].name;
        var i :| 0 <= i < |entries[1..]| && entries[1..][i].name == b.path[|parent|];
        assert entries[i + 1].name != entries[0].name;
      }
      DistinctConcat(own, rest);
    }
  }

  lemma {:induction false} OwnIsDistinct(node: Node, path: Path)
    requires node.Dir? ==> WellNamed(node.entries)
    ensures DistinctPaths(Own(node, path))
    decreases node
  {
    if node.Dir? {
      AssetsAreDistinct(node.entries, path);
      AssetsAreWithin(node.entries, path);
      DistinctConcat([DirAsset(path)], Assets(node.entries, path));
    }
  }

  lemma DistinctConcat(a: seq<Asset>, b: seq<Asset>)
    requires DistinctPaths(a) && DistinctPaths(b)
    requires forall x <- a, y <- b :: x.path != y.path
    ensures DistinctPaths(a + b)
  {
  }

  lemma {:induction false} AssetsHaveParentsFirst(entries: seq<Named>, parent: Path)
    ensures ParentsFirst(Assets(entries, parent), parent)
    decreases entries
  {
    if entries != [] {
      AssetsHaveParentsFirst(entries[1..], parent);
      OwnHasParentsFirst(entries[0].node, parent, entries[0].name);
      ParentsFirstConcat(Own(entries[0].node, parent + [entries[0].name]), Assets(entries[1..], parent), parent);
    }
  }

  lemma {:induction false} OwnHasParentsFirst(node: Node, parent: Path, name: string)
    ensures ParentsFirst(Own(node, parent + [name]), parent)
    decreases node
  {
    var path := parent + [name];
    assert Parent(path) == parent;
    if node.Dir? {
      var inner, all := Assets(node.entries, path), Own(node, path);
      AssetsHaveParentsFirst(node.entries, path);
      forall i | 0 <= i < |all|
        ensures all[i].path != []
        ensures Parent(all[i].path) == parent || DirAsset(Parent(all[i].path)) in all[..i]
      {
        if i > 0 {
          assert all[i] == inner[i - 1] && all[..i] == [DirAsset(path)] + inner[..i - 1];
        }
      }
    }
  }

  lemma ParentsFirstConcat(a: seq<Asset>, b: seq<Asset>, root: Path)
    requires ParentsFirst(a, root) && ParentsFirst(b, root)
    ensures ParentsFirst(a + b, root)
  {
    forall i | 0 <= i < |a + b|
      ensures (a + b)[i].path != []
      ensures Parent((a + b)[i].path) == root || DirAsset(Parent((a + b)[i].path)) in (a + b)[..i]
    {
      if i < |a| {
        assert (a + b)[i] == a[i] && (a + b)[..i] == a[..i];
      } else {
        assert (a + b)[i] == b[i - |a|] && (a + b)[..i] == a + b[..i - |a|];
      }
    }
  }

  // ---------- Preflight and installation ----------

  /** The package already holds the asset: same kind, and same target or digest. */
  predicate Holds(tree: Tree, a: Asset, digest: Bytes -> string) {
    a.path in tree &&
    match a
    case DirAsset(path) => tree[path].IsDir?
    case FileAsset(path, content) => tree[path].IsFile? && digest(tree[path].content) == digest(content)
    case LinkAsset(path, target) => tree[path] == IsLink(target)
  }

  /** Every asset whose place is taken is held there already. */
  ghost predicate NoConflict(tree: Tree, assets: seq<Asset>, digest: Bytes -> string) {
    forall a <- assets :: a.path in tree ==> Holds(tree, a, digest)
  }

  lemma NoConflictYet(tree: Tree, assets: seq<Asset>, digest: Bytes -> string, i: nat)
    requires i < |assets| && NoConflict(tree, assets[..i], digest)
    ensures assets[i] in assets
    ensures NoConflict(tree, assets[..i + 1], digest)
       <==> (assets[i].path in tree ==> Holds(tree, assets[i], digest))
  {
    assert assets[..i + 1] == assets[..i] + [assets[i]];
    assert assets[..i + 1][i] == assets[i];
  }

  function Missing(tree: Tree, assets: seq<Asset>): seq<Asset> {
    if assets == [] then []
    else (if assets[0].path in tree then [] else [assets[0]]) + Missing(tree, assets[1..])
  }

  function EntryOf(a: Asset): Entry {
    match a
    case DirAsset(_) => IsDir
    case FileAsset(_, content) => IsFile(content)
    case LinkAsset(_, target) => IsLink(target)
  }

  /** Making a directory or link, or copying a file, needs a directory around it and nothing in its place. */
  predicate CanAdd(tree: Tree, a: Asset) {
    && a.path != [] && a.path !in tree
    && Parent(a.path) in tree && tree[Parent(a.path)].IsDir?
  }

  /** The tree after adding assets in order, or none at the first that cannot be added. */
  function Added(tree: Tree, assets: seq<Asset>): Option<Tree>
    decreases |assets|
  {
    if assets == [] then Some(tree)
    else if CanAdd(tree, assets[0]) then Added(tree[assets[0].path := EntryOf(assets[0])], assets[1..])
    else None
  }

  /** The file system takes an asset if and only if its place is free and lies in a directory. */
  lemma {:induction false} AddsExactly(tree: Tree, a: Asset)
    ensures Added(tree, [a]).Some? <==>
            |a.path| > 0 && a.path !in tree && Parent(a.path) in tree && tree[Parent(a.path)] == IsDir
    ensures Added(tree, [a]).Some? ==>
              Added(tree, [a]).value == tree[a.path := match a
                                                       case DirAsset(_) => IsDir
                                                       case FileAsset(_, content) => IsFile(content)
                                                       case LinkAsset(_, target) => IsLink(target)]
  {
    assert [a][1..] == [];
  }

  class PackageDirectory {
    var tree: Tree

    constructor (start: Tree)
      ensures tree == start
    {
      tree := start;
    }

    /** `preflightStagedAssets`: the assets to add, or the first one that would replace something else. */
    method Preflight(assets: seq<Asset>, digest: Bytes -> string)
      returns (missing: seq<Asset>, conflict: Option<Asset>)
      ensures conflict.None? <==> NoConflict(tree, assets, digest)
      ensures conflict.None? ==> missing == Missing(tree, assets)
      ensures conflict.Some? ==> conflict.value in assets && conflict.value.path in tree
                                 && !Holds(tree, conflict.value, digest)
    {
      missing := [];
      ghost var all := Missing(tree, assets);
      for i := 0 to |assets|
        invariant missing + Missing(tree, assets[i..]) == all
        invariant NoConflict(tree, assets[..i], digest)
      {
        var asset := assets[i];
        MissingFrom(tree, assets, i);
        NoConflictYet(tree, assets, digest, i);
        if asset.path !in tree {
          Regroup(missing, [asset], Missing(tree, assets[i + 1..]));
          missing := missing + [asset];
        } else {
          Unprefixed(Missing(tree, assets[i + 1..]));
          var existing := tree[asset.path];
          match asset {
            case DirAsset(_) =>
              if !existing.IsDir? {
                return [], Some(asset);
              }
            case LinkAsset(_, target) =>
              if !existing.IsLink? || existing.target != target {
                return [], Some(asset);
              }
            case FileAsset(_, content) =>
              if !existing.IsFile? || digest(content) != digest(existing.content) {
                return [], Some(asset);
              }
          }
        }
      }
      assert assets[..|assets|] == assets;
      conflict := None;
    }

    /** `installMissingStagedAssets`; stops at the first operation the file system refuses. */
    method InstallMissing(missing: seq<Asset>) returns (ok: bool)
      modifies this
      ensures ok <==> Added(old(tree), missing).Some?
      ensures ok ==> tree == Added(old(tree), missing).value
    {
      for i := 0 to |missing|
        invariant Added(old(tree), missing) == Added(tree, missing[i..])
      {
        assert missing[i..][0] == missing[i] && missing[i..][1..] == missing[i + 1..];
        if !CanAdd(tree, missing[i]) {
          return false;
        }
        tree := tree[missing[i].path := EntryOf(missing[i])];
      }
      return true;
    }
  }

  // ---------- Publication is a conservative merge ----------

  /** Nothing old changed, nothing but assets was added, and every asset is there. */
  ghost predicate Merged(before: Tree, assets: seq<Asset>, digest: Bytes -> string, after: Tree) {
    && (forall p <- before :: p in after && after[p] == before[p])
    && (forall p <- after :: p in before || exists a <- assets :: a.path == p && after[p] == EntryOf(a))
    && (forall a <- assets :: Holds(after, a, digest))
    && (forall a <- assets :: a.path !in before ==> after[a.path] == EntryOf(a))
  }

  /** What holds once the first assets have been dealt with. */
  lemma {:induction false} AddingRest(before: Tree, assets: seq<Asset>, digest: Bytes -> string, i: nat, tree: Tree)
    requires i <= |assets| && DistinctPaths(assets) && ParentsFirst(assets, [])
    requires [] in before && before[[]].IsDir?
    requires NoConflict(before, assets, digest)
    requires Merged(before, assets[..i], digest, tree)
    ensures Added(tree, Missing(before, assets[i..])).Some?
    ensures Merged(before, assets, digest, Added(tree, Missing(before, assets[i..])).value)
    decreases |assets| - i
  {
    if i == |assets| {
      assert assets[..i] == assets;
    } else {
      assert assets[i] in assets;
      var next := AddNext(before, assets, digest, i, tree);
      AddingRest(before, assets, digest, i + 1, next);
    }
  }

  lemma AddNext(before: Tree, assets: seq<Asset>, digest: Bytes -> string, i: nat, tree: Tree) returns (next: Tree)
    requires i < |assets| && DistinctPaths(assets) && ParentsFirst(assets, [])
    requires [] in before && before[[]].IsDir?
    requires assets[i].path in before ==> Holds(before, assets[i], digest)
    requires Merged(before, assets[..i], digest, tree)
    ensures Merged(before, assets[..i + 1], digest, next)
    ensures Added(tree, Missing(before, assets[i..])) == Added(next, Missing(before, assets[i + 1..]))
  {
    var a := assets[i];
    MissingFrom(before, assets, i);
    AddedFirst(tree, a, Missing(before, assets[i + 1..]));
    assert assets[..i + 1] == assets[..i] + [a];
    if a.path in before {
      next := tree;
      MergedWithHeld(before, assets[..i], digest, tree, a);
    } else {
      next := tree[a.path := EntryOf(a)];
      NewCanBeAdded(before, assets, digest, i, tree);
      MergedWithAdded(before, assets[..i], digest, tree, a);
    }
  }

  lemma {:induction false} MissingFrom(before: Tree, assets: seq<Asset>, i: nat)
    requires i < |assets|
    ensures Missing(before, assets[i..])
         == (if assets[i].path in before then [] else [assets[i]]) + Missing(before, assets[i + 1..])
  {
    assert assets[i..][0] == assets[i] && assets[i..][1..] == assets[i + 1..];
  }

  lemma {:induction false} AddedFirst(tree: Tree, a: Asset, rest: seq<Asset>)
    ensures [] + rest == rest
    ensures CanAdd(tree, a) ==> Added(tree, [a] + rest) == Added(tree[a.path := EntryOf(a)], rest)
  {
    assert ([a] + rest)[1..] == rest;
  }

  lemma MergedWithHeld(before: Tree, done: seq<Asset>, digest: Bytes -> string, tree: Tree, a: Asset)
    requires Merged(before, done, digest, tree) && a.path in before && Holds(before, a, digest)
    ensures Merged(before, done + [a], digest, tree)
  {
    assert forall d <- done :: d in done + [a];
  }

  lemma MergedWithAdded(before: Tree, done: seq<Asset>, digest: Bytes -> string, tree: Tree, a: Asset)
    requires Merged(before, done, digest, tree) && a.path !in tree
    ensures Merged(before, done + [a], digest, tree[a.path := EntryOf(a)])
  {
    var more, next := done + [a], tree[a.path := EntryOf(a)];
    assert a in more && forall d <- done :: d in more;
    AddedIsHeld(tree, a, digest);
    forall d <- done
      ensures Holds(next, d, digest) && next[d.path] == tree[d.path]
    {
      assert Holds(tree, d, digest);
    }
  }

  lemma AddedIsHeld(tree: Tree, a: Asset, digest: Bytes -> string)
    ensures Holds(tree[a.path := EntryOf(a)], a, digest)
  {
  }

  /** A missing asset finds its directory in place and its own place free. */
  lemma NewCanBeAdded(before: Tree, assets: seq<Asset>, digest: Bytes -> string, i: nat, tree: Tree)
    requires i < |assets| && DistinctPaths(assets) && ParentsFirst(assets, [])
    requires [] in before && before[[]].IsDir?
    requires Merged(before, assets[..i], digest, tree) && assets[i].path !in before
    ensures CanAdd(tree, assets[i])
  {
    var a := assets[i];
    forall d <- assets[..i]
      ensures d.path != a.path
    {
      var j :| 0 <= j < i && assets[j] == d;
    }
    if Parent(a.path) != [] {
      assert Holds(tree, DirAsset(Parent(a.path)), digest);
    }
  }

  /** If the preflight finds no conflict and the package directory stays as it is, adding the missing assets
      never meets a missing directory or an existing target, changes no old entry, and leaves a tree with
      every staged entry of the same kind and target or digest, and nothing else new. */
  lemma {:induction false} PublicationMerges(staged: seq<Named>, tree: Tree, digest: Bytes -> string)
    requires WellNamed(staged) && [] in tree && tree[[]].IsDir?
    requires NoConflict(tree, Assets(staged, []), digest)
    ensures var after := Added(tree, Missing(tree, Assets(staged, [])));
            after.Some? && Merged(tree, Assets(staged, []), digest, after.value)
  {
    var assets := Assets(staged, []);
    AssetsAreDistinct(staged, []);
    AssetsHaveParentsFirst(staged, []);
    assert assets[..0] == [] && assets[0..] == assets;
    AddingRest(tree, assets, digest, 0, tree);
  }

  /** Publishing the same staging directory again finds no conflict and nothing to add. */
  lemma {:induction false} PublishingAgainAddsNothing(assets: seq<Asset>, tree: Tree, digest: Bytes -> string)
    requires forall a <- assets :: Holds(tree, a, digest)
    ensures Missing(tree, assets) == []
    decreases |assets|
  {
    if assets != [] {
      assert assets[0] in assets;
      PublishingAgainAddsNothing(assets[1..], tree, digest);
    }
  }

  /** `preflightStagedAssets` and `installMissingStagedAssets`, as `installManagedRuntimeNow` runs them on an
      existing package directory. */
  method Publish(staged: seq<Named>, package: PackageDirectory, digest: Bytes -> string) returns (ok: bool)
    requires WellNamed(staged) && [] in package.tree && package.tree[[]].IsDir?
    modifies package
    ensures ok <==> Supported(staged) && NoConflict(old(package.tree), Assets(staged, []), digest)
    ensures if ok then Merged(old(package.tree), Assets(staged, []), digest, package.tree)
            else package.tree == old(package.tree)
  {
    var assets := StagedAssets(staged, []);
    if assets.None? {
      return false;
    }
    var missing, conflict := package.Preflight(assets.value, digest);
    if conflict.Some? {
      return false;
    }
    PublicationMerges(staged, package.tree, digest);
    ok := package.InstallMissing(missing);
  }
}
