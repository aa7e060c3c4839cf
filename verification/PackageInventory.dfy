/** The inventory of a runtime package: listing a package tree, checking an inventory, and checking that the
    two agree. */
module PackageInventory {
  import opened Bytes
  import opened FileTree
  import opened Options

  datatype Result<+T> = Ok(value: T) | Error

  datatype PackageFile = PackageFile(path: Path, size: nat, sha256: string, executable: bool)

  const INVENTORY := "inventory.json"

  // ---------- Paths ----------

  predicate IsPathChar(c: char) {
    || 'A' <= c <= 'Z' || 'a' <= c <= 'z' || '0' <= c <= '9'
    || c in {'_', '@', '.', '+', ' ', '-'}
  }

  predicate IsPathPart(part: string) {
    part != "" && part != "." && part != ".." && forall c <- part :: IsPathChar(c)
  }

  /** `packagePath`; the text of a path is never empty, so it has at least one component. */
  predicate IsPackagePath(path: Path) {
    path != [] && forall part <- path :: IsPathPart(part)
  }

  /** The components of an accepted path: none empty, none of dots, and only ASCII letters and digits and six other
      characters. */
  lemma PackagePathExactly(path: Path)
    ensures IsPackagePath(path) <==>
            && path != []
            && forall part <- path ::
                 && |part| > 0 && part != "." && part != ".."
                 && forall c <- part ::
                      || 48 <= c as int <= 57 || 65 <= c as int <= 90 || 97 <= c as int <= 122
                      || c in ['_', '@', '.', '+', ' ', '-']
  {
    if !IsPackagePath(path) && path != [] {
      var part :| part in path && !IsPathPart(part);
    }
  }

  // ---------- Listing ----------

  function Describe(path: Path, node: Node, digest: Bytes -> string): PackageFile
    requires node.File?
  {
    PackageFile(path, |node.content|, digest(node.content), node.executable)
  }

  function Walk(entries: seq<Named>, prefix: Path, digest: Bytes -> string): Result<seq<PackageFile>>
    decreases entries
  {
    if entries == [] then Ok([])
    else
      var first, rest := WalkEntry(entries[0].node, prefix + [entries[0].name], digest),
                         Walk(entries[1..], prefix, digest);
      if first.Ok? && rest.Ok? then Ok(first.value + rest.value) else Error
  }

  function WalkEntry(node: Node, path: Path, digest: Bytes -> string): Result<seq<PackageFile>>
    decreases node
  {
    if !IsPackagePath(path) then Error
    else if path == [INVENTORY] then Ok([])
    else
      match node
      case Dir(entries) => Walk(entries, path, digest)
      case File(_, _) => Ok([Describe(path, node, digest)])
      case Link(_) => Error
      case Special => Error
  }

  lemma {:induction false} WalkConcat(a: seq<Named>, b: seq<Named>, prefix: Path, digest: Bytes -> string)
    ensures Walk(a + b, prefix, digest) ==
            if Walk(a, prefix, digest).Ok? && Walk(b, prefix, digest).Ok?
            then Ok(Walk(a, prefix, digest).value + Walk(b, prefix, digest).value) else Error
    decreases |a|
  {
    if a == [] {
      assert a + b == b;
      if Walk(b, prefix, digest).Ok? {
        assert [] + Walk(b, prefix, digest).value == Walk(b, prefix, digest).value;
      }
    } else {
      assert (a + b)[1..] == a[1..] + b;
      WalkConcat(a[1..], b, prefix, digest);
      var first := WalkEntry(a[0].node, prefix + [a[0].name], digest);
      if first.Ok? && Walk(a[1..], prefix, digest).Ok? && Walk(b, prefix, digest).Ok? {
        assert (first.value + Walk(a[1..], prefix, digest).value) + Walk(b, prefix, digest).value
            == first.value + (Walk(a[1..], prefix, digest).value + Walk(b, prefix, digest).value);
      }
    }
  }

  lemma {:induction false} WalkOne(e: Named, prefix: Path, digest: Bytes -> string)
    ensures Walk([e], prefix, digest) == WalkEntry(e.node, prefix + [e.name], digest)
  {
    assert [e][1..] == [];
    var first := WalkEntry(e.node, prefix + [e.name], digest);
    if first.Ok? {
      assert first.value + [] == first.value;
    }
  }

  /** `packageFiles`. */
  method PackageFiles(entries: seq<Named>, prefix: Path, digest: Bytes -> string)
    returns (listed: Result<seq<PackageFile>>)
    ensures listed == Walk(entries, prefix, digest)
    decreases entries
  {
    var files: seq<PackageFile> := [];
    for i := 0 to |entries|
      invariant Walk(entries[..i], prefix, digest) == Ok(files)
    {
      var path := prefix + [entries[i].name];
      assert entries[..i + 1] == entries[..i] + [entries[i]];
      assert entries == entries[..i + 1] + entries[i + 1..];
      WalkConcat(entries[..i + 1], entries[i + 1..], prefix, digest);
      WalkConcat(entries[..i], [entries[i]], prefix, digest);
      WalkOne(entries[i], prefix, digest);
      if !IsPackagePath(path) {
        return Error;
      }
      if path == [INVENTORY] {
        assert files + [] == files;
        continue;
      }
      match entries[i].node {
        case Dir(inner) =>
          var below := PackageFiles(inner, path, digest);
          if below.Error? {
            return Error;
          }
          files := files + below.value;
        case File(_, _) => files := files + [Describe(path, entries[i].node, digest)];
        case Link(_) => return Error;
        case Special => return Error;
      }
    }
    assert entries[..|entries|] == entries;
    listed := Ok(files);
  }

  // ---------- What the listing has ----------

  /** The file a tree has at a path below a prefix, if it is listed there. */
  function FileAt(entries: seq<Named>, prefix: Path, path: Path, digest: Bytes -> string): Option<PackageFile> {
    var node := NodeAt(entries, path);
    if node.Some? && node.value.File? && !(prefix == [] && path[0] == INVENTORY) then
      Some(Describe(prefix + path, node.value, digest))
    else None
  }

  lemma {:induction false} WalkIsComplete(entries: seq<Named>, prefix: Path, path: Path, digest: Bytes -> string)
    requires Walk(entries, prefix, digest).Ok? && FileAt(entries, prefix, path, digest).Some?
    ensures FileAt(entries, prefix, path, digest).value in Walk(entries, prefix, digest).value
    decreases |path|, |entries|
  {
    var own := prefix + [entries[0].name];
    if entries[0].name != path[0] {
      WalkIsComplete(entries[1..], prefix, path, digest);
    } else if |path| == 1 {
      assert prefix + path == own;
      assert own[|prefix|] == path[0];
    } else {
      assert own[|prefix|] == path[0];
      assert own + path[1..] == prefix + path;
      WalkIsComplete(entries[0].node.entries, own, path[1..], digest);
    }
  }

  /** A listed file is the tree's file at its path. */
  ghost predicate IsListed(entries: seq<Named>, prefix: Path, digest: Bytes -> string, f: PackageFile) {
    && prefix <= f.path && |f.path| > |prefix|
    && (exists i :: 0 <= i < |entries| && entries[i].name == f.path[|prefix|])
    && FileAt(entries, prefix, f.path[|prefix|..], digest) == Some(f)
  }

  lemma {:induction false} WalkIsSound(entries: seq<Named>, prefix: Path, digest: Bytes -> string, f: PackageFile)
    requires WellNamed(entries) && Walk(entries, prefix, digest).Ok? && f in Walk(entries, prefix, digest).value
    ensures IsListed(entries, prefix, digest, f)
    decreases entries
  {
    var node, own := entries[0].node, prefix + [entries[0].name];
    if f in WalkEntry(node, own, digest).value {
      if node.File? {
        ListedHere(entries, prefix, digest, f);
      } else {
        WalkIsSound(node.entries, own, digest, f);
        ListedBelow(entries, prefix, digest, f);
      }
    } else {
      WalkIsSound(entries[1..], prefix, digest, f);
      ListedLater(entries, prefix, digest, f);
    }
  }

  lemma ListedHere(entries: seq<Named>, prefix: Path, digest: Bytes -> string, f: PackageFile)
    requires entries != [] && entries[0].node.File? && prefix + [entries[0].name] != [INVENTORY]
    requires f == Describe(prefix + [entries[0].name], entries[0].node, digest)
    ensures IsListed(entries, prefix, digest, f)
  {
    assert f.path[|prefix|..] == [entries[0].name];
    assert entries[0].name == f.path[|prefix|];
    if prefix == [] {
      assert f.path == [entries[0].name];
    }
  }

  lemma ListedBelow(entries: seq<Named>, prefix: Path, digest: Bytes -> string, f: PackageFile)
    requires entries != [] && entries[0].node.Dir? && prefix + [entries[0].name] != [INVENTORY]
    requires IsListed(entries[0].node.entries, prefix + [entries[0].name], digest, f)
    ensures IsListed(entries, prefix, digest, f)
  {
    var own, path := prefix + [entries[0].name], f.path[|prefix|..];
    assert f.path[|prefix|] == own[|prefix|] == entries[0].name;
    assert path[0] == entries[0].name && path[1..] == f.path[|own|..];
    assert f.path[..|prefix|] == own[..|prefix|] == prefix;
    assert prefix + path == f.path == own + path[1..];
    assert NodeAt(entries, path) == NodeAt(entries[0].node.entries, path[1..]);
    assert prefix == [] ==> own == [path[0]];
  }

  lemma {:induction false} ListedLater(entries: seq<Named>, prefix: Path, digest: Bytes -> string, f: PackageFile)
    requires entries != [] && WellNamed(entries) && IsListed(entries[1..], prefix, digest, f)
    ensures IsListed(entries, prefix, digest, f)
  {
    var i :| 0 <= i < |entries[1..]| && entries[1..][i].name == f.path[|prefix|];
    assert entries[i + 1].name == f.path[|prefix|] && entries[i + 1].name != entries[0].name;
    assert f.path[|prefix|..][0] == f.path[|prefix|];
  }

  ghost predicate DistinctPaths(files: seq<PackageFile>) {
    forall i, j | 0 <= i < j < |files| :: files[i].path != files[j].path
  }

  lemma DistinctConcat(a: seq<PackageFile>, b: seq<PackageFile>)
    requires DistinctPaths(a) && DistinctPaths(b)
    requires forall x <- a, y <- b :: x.path != y.path
    ensures DistinctPaths(a + b)
  {
  }

  lemma {:induction false} WalkIsDistinct(entries: seq<Named>, prefix: Path, digest: Bytes -> string)
    requires WellNamed(entries) && Walk(entries, prefix, digest).Ok?
    ensures DistinctPaths(Walk(entries, prefix, digest).value)
    decreases entries
  {
    if entries != [] {
      var node, own := entries[0].node, prefix + [entries[0].name];
      var a, b := WalkEntry(node, own, digest).value, Walk(entries[1..], prefix, digest).value;
      WalkIsDistinct(entries[1..], prefix, digest);
      if node.Dir? && own != [INVENTORY] {
        WalkIsDistinct(node.entries, own, digest);
      }
      forall x <- a, y <- b
        ensures x.path != y.path
      {
        if node.Dir? {
          WalkIsSound(node.entries, own, digest, x);
        }
        assert x.path[|prefix|] == own[|prefix|] == entries[0].name;
        WalkIsSound(entries[1..], prefix, digest, y);
        var i :| 0 <= i < |entries[1..]| && entries[1..][i].name == y.path[|prefix|];
        assert entries[i + 1].name != entries[0].name;
      }
      DistinctConcat(a, b);
    }
  }

  // ---------- The inventory ----------

  /** An inventory file entry as its JSON has it; a value of a wrong type or a number that is no safe integer
      makes it malformed. */
  datatype RawFile = MalformedFile | RawFile(path: Path, size: int, sha256: string, executable: bool)

  datatype RawInventory = MalformedInventory | RawInventory(version: int, target: string, files: seq<RawFile>)

  const MAX_SAFE_INTEGER := 0x1f_ffff_ffff_ffff

  const TARGETS := {"macos-arm64", "linux-x64"}

  predicate IsSha256(s: string) {
    |s| == 64 && forall c <- s :: 'a' <= c <= 'f' || '0' <= c <= '9'
  }

  predicate IsFileEntry(raw: RawFile) {
    && raw.RawFile?
    && 0 <= raw.size <= MAX_SAFE_INTEGER
    && IsSha256(raw.sha256)
    && IsPackagePath(raw.path)
    && raw.path != [INVENTORY]
  }

  function FileOf(raw: RawFile): PackageFile
    requires IsFileEntry(raw)
  {
    PackageFile(raw.path, raw.size, raw.sha256, raw.executable)
  }

  /** An acceptable inventory: a known shape, at least one file, each file well formed and no path twice. */
  ghost predicate IsInventory(raw: RawInventory) {
    && raw.RawInventory? && raw.version == 1 && raw.target in TARGETS && raw.files != []
    && (forall i | 0 <= i < |raw.files| :: IsFileEntry(raw.files[i]))
    && (forall i, j | 0 <= i < j < |raw.files| :: raw.files[i].path != raw.files[j].path)
  }

  function FilesOf(raw: RawInventory): (files: seq<PackageFile>)
    requires IsInventory(raw)
    ensures DistinctPaths(files)
  {
    seq(|raw.files|, i requires 0 <= i < |raw.files| => FileOf(raw.files[i]))
  }

  /** The checks on one file entry. */
  method ParseFile(entry: RawFile) returns (file: Option<PackageFile>)
    ensures file.Some? <==> IsFileEntry(entry)
    ensures file.Some? ==> file.value == FileOf(entry)
  {
    if !entry.RawFile? || entry.size < 0 || 9007199254740991 < entry.size || |entry.sha256| != 64 {
      return None;
    }
    var isHex := forall c <- entry.sha256 :: ('a' <= c && c <= 'f') || ('0' <= c && c <= '9');
    if !isHex || !IsPackagePath(entry.path) || entry.path == ["inventory.json"] {
      return None;
    }
    return Some(PackageFile(entry.path, entry.size, entry.sha256, entry.executable));
  }

  /** `parseInventory`. */
  method ParseInventory(raw: RawInventory) returns (parsed: Result<seq<PackageFile>>)
    ensures parsed.Ok? <==> IsInventory(raw)
    ensures parsed.Ok? ==> parsed.value == FilesOf(raw)
  {
    if !raw.RawInventory? || raw.version != 1 || (raw.target != "macos-arm64" && raw.target != "linux-x64")
       || |raw.files| == 0 {
      return Error;
    }
    var files: seq<PackageFile> := [];
    var paths: set<Path> := {};
    for i := 0 to |raw.files|
      invariant |files| == i
      invariant forall j | 0 <= j < i :: IsFileEntry(raw.files[j]) && files[j] == FileOf(raw.files[j])
      invariant forall j, k | 0 <= j < k < i :: raw.files[j].path != raw.files[k].path
      invariant forall p :: p in paths <==> exists j :: 0 <= j < i && files[j].path == p
    {
      var file := ParseFile(raw.files[i]);
      if file.None? || file.value.path in paths {
        return Error;
      }
      paths := paths + {file.value.path};
      files := files + [file.value];
    }
    parsed := Ok(files);
  }

  // ---------- Verification ----------

  /** The file an inventory has at a path, if any. */
  function Expected(files: seq<PackageFile>, path: Path): Option<PackageFile> {
    if files == [] then None else if files[0].path == path then Some(files[0]) else Expected(files[1..], path)
  }

  lemma {:induction false} ExpectedFinds(files: seq<PackageFile>, f: PackageFile)
    requires DistinctPaths(files)
    ensures Expected(files, f.path) == Some(f) <==> f in files
    decreases |files|
  {
    if files != [] {
      ExpectedFinds(files[1..], f);
      if files[0].path == f.path && files[0] != f {
        assert f !in files[1..];
      }
    }
  }

  /** The end of `verifyInventory`: equal lengths, and every listed file as the inventory has it. */
  method CompareFiles(actual: seq<PackageFile>, expected: seq<PackageFile>) returns (same: bool)
    requires DistinctPaths(actual) && DistinctPaths(expected)
    ensures same <==> forall f :: f in actual <==> f in expected
  {
    SameLength(actual, expected);
    if |actual| != |expected| {
      return false;
    }
    for i := 0 to |actual|
      invariant forall f <- actual[..i] :: f in expected
    {
      assert actual[..i + 1] == actual[..i] + [actual[i]];
      ExpectedFinds(expected, actual[i]);
      if Expected(expected, actual[i].path) != Some(actual[i]) {
        assert actual[i] in actual;
        return false;
      }
    }
    assert actual[..|actual|] == actual;
    return true;
  }

  function Members(files: seq<PackageFile>): (members: set<PackageFile>)
    ensures forall f :: f in members <==> f in files
  {
    set f <- files :: f
  }

  lemma {:induction false} DistinctCount(files: seq<PackageFile>)
    requires DistinctPaths(files)
    ensures |Members(files)| == |files|
    decreases |files|
  {
    if files != [] {
      DistinctCount(files[1..]);
      assert files == [files[0]] + files[1..] && files[0] !in files[1..];
      var members := {files[0]} + Members(files[1..]);
      assert forall f :: f in Members(files) <==> f in members;
      assert Members(files) == members;
    }
  }

  /** As many on both sides and one side within the other: the same on both. */
  lemma SameLength(a: seq<PackageFile>, b: seq<PackageFile>)
    requires DistinctPaths(a) && DistinctPaths(b)
    ensures (forall f :: f in a <==> f in b) ==> |a| == |b|
    ensures |a| == |b| && (forall f <- a :: f in b) ==> forall f :: f in a <==> f in b
  {
    DistinctCount(a);
    DistinctCount(b);
    if forall f :: f in a <==> f in b {
      assert Members(a) == Members(b);
    }
    if |a| == |b| && forall f <- a :: f in b {
      assert Members(a) <= Members(b);
      SubsetOfSameSize(Members(a), Members(b));
      assert forall f <- b :: f in Members(b);
    }
  }

  lemma SubsetOfSameSize<T>(a: set<T>, b: set<T>)
    requires a <= b && |a| == |b|
    ensures a == b
  {
    assert |b - a| == |b| - |a|;
  }

  /** Tree and inventory are the same map from paths to size, digest and executable bit. */
  ghost predicate Agree(entries: seq<Named>, files: seq<PackageFile>, digest: Bytes -> string) {
    forall path :: FileAt(entries, [], path, digest) == Expected(files, path)
  }

  lemma {:induction false} ListsAgree(entries: seq<Named>, files: seq<PackageFile>, digest: Bytes -> string)
    requires WellNamed(entries) && Walk(entries, [], digest).Ok? && DistinctPaths(files)
    ensures (forall f :: f in Walk(entries, [], digest).value <==> f in files) <==> Agree(entries, files, digest)
  {
    var actual := Walk(entries, [], digest).value;
    forall f: PackageFile
      ensures f in actual <==> FileAt(entries, [], f.path, digest) == Some(f)
      ensures f in files <==> Expected(files, f.path) == Some(f)
    {
      ExpectedFinds(files, f);
      if f in actual {
        WalkIsSound(entries, [], digest, f);
        assert f.path[0..] == f.path;
      } else if FileAt(entries, [], f.path, digest) == Some(f) {
        WalkIsComplete(entries, [], f.path, digest);
      }
    }
    forall path: Path
      ensures FileAt(entries, [], path, digest).Some? ==> FileAt(entries, [], path, digest).value.path == path
      ensures Expected(files, path).Some? ==> Expected(files, path).value.path == path
    {
      assert [] + path == path;
      ExpectedHasPath(files, path);
    }
    if forall f :: f in actual <==> f in files {
      forall path: Path
        ensures FileAt(entries, [], path, digest) == Expected(files, path)
      {
        var x, y := FileAt(entries, [], path, digest), Expected(files, path);
        assert x.Some? ==> x.value in actual && x.value in files;
        assert y.Some? ==> y.value in files && y.value in actual;
      }
    }
  }

  lemma {:induction false} ExpectedHasPath(files: seq<PackageFile>, path: Path)
    ensures Expected(files, path).Some? ==> Expected(files, path).value.path == path
    decreases |files|
  {
    if files != [] {
      ExpectedHasPath(files[1..], path);
    }
  }

  /** What `verifyInventory` accepts: the pinned inventory file, well formed, and in agreement with a package
      that can be listed. */
  ghost predicate Verifies(entries: seq<Named>, trusted: string, digest: Bytes -> string,
                           decode: Bytes -> Option<RawInventory>) {
    && var file := NodeAt(entries, [INVENTORY]);
    && file.Some? && file.value.File?
    && IsSha256(trusted) && digest(file.value.content) == trusted
    && var raw := decode(file.value.content);
    && raw.Some? && IsInventory(raw.value)
    && Walk(entries, [], digest).Ok?
    && Agree(entries, FilesOf(raw.value), digest)
  }

  /** `verifyInventory` on a package directory, with `decode` the JSON of a text. */
  method VerifyInventory(entries: seq<Named>, trusted: string, digest: Bytes -> string,
                         decode: Bytes -> Option<RawInventory>) returns (verified: Result<seq<PackageFile>>)
    requires WellNamed(entries)
    ensures verified.Ok? <==> Verifies(entries, trusted, digest, decode)
    ensures verified.Ok? ==> verified.value == FilesOf(decode(NodeAt(entries, [INVENTORY]).value.content).value)
  {
    var file := NodeAt(entries, [INVENTORY]);
    if file.None? || !file.value.File? || !IsSha256(trusted) || digest(file.value.content) != trusted {
      return Error;
    }
    var raw := decode(file.value.content);
    if raw.None? {
      return Error;
    }
    var inventory := ParseInventory(raw.value);
    if inventory.Error? {
      return Error;
    }
    var actual := PackageFiles(entries, [], digest);
    if actual.Error? {
      return Error;
    }
    WalkIsDistinct(entries, [], digest);
    ListsAgree(entries, inventory.value, digest);
    var same := CompareFiles(actual.value, inventory.value);
    verified := if same then inventory else Error;
  }

  // ---------- A generated inventory verifies ----------

  function RawFiles(files: seq<PackageFile>): seq<RawFile> {
    seq(|files|, i requires 0 <= i < |files| =>
          RawFile(files[i].path, files[i].size, files[i].sha256, files[i].executable))
  }

  /** The tree with its inventory written, in the place where the listing has it. */
  function WithInventory(before: seq<Named>, after: seq<Named>, content: Bytes, executable: bool): seq<Named> {
    before + [Named(INVENTORY, File(content, executable))] + after
  }

  lemma {:induction false} ListedPathsAreAccepted(entries: seq<Named>, prefix: Path, digest: Bytes -> string)
    requires Walk(entries, prefix, digest).Ok?
    ensures forall f <- Walk(entries, prefix, digest).value ::
              IsPackagePath(f.path) && (exists path :: FileSize(f, digest, path))
    decreases entries
  {
    if entries != [] {
      ListedPathsAreAccepted(entries[1..], prefix, digest);
      var node, own := entries[0].node, prefix + [entries[0].name];
      if node.Dir? && own != [INVENTORY] {
        ListedPathsAreAccepted(node.entries, own, digest);
      } else if node.File? && own != [INVENTORY] {
        assert FileSize(Describe(own, node, digest), digest, node.content);
      }
    }
  }

  /** The file is listed for this content. */
  predicate FileSize(f: PackageFile, digest: Bytes -> string, content: Bytes) {
    f.size == |content| && f.sha256 == digest(content)
  }

  lemma {:induction false} WalkSkipsInventory(before: seq<Named>, after: seq<Named>, content: Bytes, executable: bool,
                                              digest: Bytes -> string)
    ensures Walk(WithInventory(before, after, content, executable), [], digest) == Walk(before + after, [], digest)
  {
    var own := Named(INVENTORY, File(content, executable));
    WalkConcat(before + [own], after, [], digest);
    WalkConcat(before, [own], [], digest);
    WalkConcat(before, after, [], digest);
    WalkOne(own, [], digest);
    assert [] + [INVENTORY] == [INVENTORY];
    assert IsPackagePath([INVENTORY]) by {
      InventoryNameIsAccepted();
    }
    if Walk(before, [], digest).Ok? {
      assert Walk(before, [], digest).value + [] == Walk(before, [], digest).value;
    }
  }

  lemma InventoryNameIsAccepted()
    ensures IsPathPart(INVENTORY)
  {
    assert |INVENTORY| == 14;
    assert forall i | 0 <= i < |INVENTORY| :: IsPathChar(INVENTORY[i]);
  }

  lemma {:induction false} InventoryIsFound(before: seq<Named>, after: seq<Named>, content: Bytes, executable: bool)
    requires forall e <- before :: e.name != INVENTORY
    ensures NodeAt(WithInventory(before, after, content, executable), [INVENTORY]) == Some(File(content, executable))
    decreases |before|
  {
    var all := WithInventory(before, after, content, executable);
    if before != [] {
      assert before[0] in before;
      assert all[1..] == WithInventory(before[1..], after, content, executable);
      InventoryIsFound(before[1..], after, content, executable);
    }
  }

  lemma {:induction false} WrittenInventoryVerifies(
      before: seq<Named>, after: seq<Named>, executable: bool, target: string, digest: Bytes -> string,
      encode: RawInventory -> Bytes, decode: Bytes -> Option<RawInventory>)
    requires WellNamed(before + after) && forall e <- before + after :: e.name != INVENTORY
    requires Walk(before + after, [], digest).Ok? && Walk(before + after, [], digest).value != []
    requires target in TARGETS
    requires forall b :: IsSha256(digest(b))
    requires forall f <- Walk(before + after, [], digest).value :: f.size <= MAX_SAFE_INTEGER
    requires forall raw | IsInventory(raw) :: decode(encode(raw)) == Some(raw)
    ensures var raw := RawInventory(1, target, RawFiles(Walk(before + after, [], digest).value));
            var content := encode(raw);
            Verifies(WithInventory(before, after, content, executable), digest(content), digest, decode)
  {
    var files := Walk(before + after, [], digest).value;
    var raw := RawInventory(1, target, RawFiles(files));
    var content := encode(raw);
    var entries := WithInventory(before, after, content, executable);
    assert forall e <- before :: e in before + after;
    InventoryIsFound(before, after, content, executable);
    WalkSkipsInventory(before, after, content, executable, digest);
    ListedFilesAreEntries(before + after, digest);
    assert FilesOf(raw) == files;
    WithInventoryIsNamed(before, after, content, executable);
    ListsAgree(entries, files, digest);
  }

  /** No inventory yet, or a regular file in its place, which writing replaces without changing its mode. */
  predicate IsOldInventory(existing: seq<Named>) {
    existing == [] || (|existing| == 1 && existing[0].name == INVENTORY && existing[0].node.File?)
  }

  /** An inventory generated from any tree that can be listed and is not empty, written into that tree over an
      inventory that may be there, verifies against it: for every digest that yields hex text and every JSON
      codec that reads well-formed inventories back as they were written. */
  lemma {:induction false} GeneratedInventoryVerifies(
      before: seq<Named>, existing: seq<Named>, after: seq<Named>, target: string, digest: Bytes -> string,
      encode: RawInventory -> Bytes, decode: Bytes -> Option<RawInventory>)
    requires WellNamed(before + existing + after) && IsOldInventory(existing)
    requires forall e <- before + after :: e.name != INVENTORY
    requires var listed := Walk(before + existing + after, [], digest);
             listed.Ok? && listed.value != [] && forall f <- listed.value :: f.size <= MAX_SAFE_INTEGER
    requires target in TARGETS
    requires forall b :: IsSha256(digest(b))
    requires forall raw | IsInventory(raw) :: decode(encode(raw)) == Some(raw)
    ensures var files := Walk(before + existing + after, [], digest).value;
            var content := encode(RawInventory(1, target, RawFiles(files)));
            var executable := existing != [] && existing[0].node.executable;
            Verifies(WithInventory(before, after, content, executable), digest(content), digest, decode)
  {
    WithoutInventory(before, existing, after, digest);
    WrittenInventoryVerifies(before, after, existing != [] && existing[0].node.executable, target, digest,
                             encode, decode);
  }

  lemma {:induction false} WithoutInventory(before: seq<Named>, existing: seq<Named>, after: seq<Named>,
                                            digest: Bytes -> string)
    requires WellNamed(before + existing + after) && IsOldInventory(existing)
    ensures WellNamed(before + after)
    ensures Walk(before + existing + after, [], digest) == Walk(before + after, [], digest)
  {
    if existing == [] {
      assert before + existing + after == before + after;
    } else {
      var all, rest := before + existing + after, before + after;
      WalkSkipsInventory(before, after, existing[0].node.content, existing[0].node.executable, digest);
      assert existing == [Named(INVENTORY, File(existing[0].node.content, existing[0].node.executable))];
      forall i | 0 <= i < |rest|
        ensures rest[i] == all[if i < |before| then i else i + 1]
      {
      }
      assert WellNamed(rest);
    }
  }

  /** Whatever a walk lists can stand in an inventory. */
  lemma {:induction false} ListedFilesAreEntries(entries: seq<Named>, digest: Bytes -> string)
    requires WellNamed(entries) && Walk(entries, [], digest).Ok?
    requires forall b :: IsSha256(digest(b))
    requires forall f <- Walk(entries, [], digest).value :: f.size <= MAX_SAFE_INTEGER
    ensures DistinctPaths(Walk(entries, [], digest).value)
    ensures var raw := RawFiles(Walk(entries, [], digest).value);
            forall i | 0 <= i < |raw| :: IsFileEntry(raw[i])
  {
    var files := Walk(entries, [], digest).value;
    ListedPathsAreAccepted(entries, [], digest);
    WalkIsDistinct(entries, [], digest);
    forall i | 0 <= i < |files|
      ensures IsFileEntry(RawFiles(files)[i])
    {
      assert files[i] in files;
      InventoryIsNotListed(entries, digest, files[i]);
    }
  }

  lemma {:induction false} InventoryIsNotListed(entries: seq<Named>, digest: Bytes -> string, f: PackageFile)
    requires WellNamed(entries) && Walk(entries, [], digest).Ok? && f in Walk(entries, [], digest).value
    ensures f.path != [INVENTORY]
  {
    WalkIsSound(entries, [], digest, f);
    assert f.path[0..] == f.path;
  }

  lemma {:induction false} WithInventoryIsNamed(before: seq<Named>, after: seq<Named>, content: Bytes, executable: bool)
    requires WellNamed(before + after) && forall e <- before + after :: e.name != INVENTORY
    ensures WellNamed(WithInventory(before, after, content, executable))
  {
    var all, entries := before + after, WithInventory(before, after, content, executable);
    forall i, j | 0 <= i < j < |entries|
      ensures entries[i].name != entries[j].name
    {
      var i', j' := if i < |before| then i else i - 1, if j < |before| then j else j - 1;
      assert i != |before| ==> entries[i] == all[i'] && all[i'] in all;
      assert j != |before| ==> entries[j] == all[j'] && all[j'] in all;
    }
    forall i | 0 <= i < |entries|
      ensures entries[i].node.Dir? ==> WellNamed(entries[i].node.entries)
    {
      assert i < |before| ==> entries[i] == all[i];
      assert i > |before| ==> entries[i] == all[i - 1];
    }
  }
}
