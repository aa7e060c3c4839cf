/** Extracting a release archive into a staging directory: which paths and link targets are accepted, and
    where resolving them can lead. */
module ArchiveExtraction {
  import opened Bytes
  import opened Options
  import opened Sequences
  import opened Text

  /** An absolute location, by its components. */
  type Path = seq<string>

  datatype Entry = Directory | File(content: Bytes) | Link(target: string)

  type FileSystem = map<Path, Entry>

  // ---------- Accepted paths ----------

  datatype Destination = Unsafe | Removed | Below(parts: seq<string>)

  function Slashed(s: string): string {
    seq(|s|, i requires 0 <= i < |s| => if s[i] == '\\' then '/' else s[i])
  }

  predicate IsLetter(c: char) {
    'a' <= c <= 'z' || 'A' <= c <= 'Z'
  }

  /** Empty, with a NUL, absolute, or with a drive letter. */
  predicate IsAbsoluteOrBad(s: string) {
    || s == ""
    || '\0' in s
    || s[0] == '/'
    || (|s| >= 3 && IsLetter(s[0]) && s[1] == ':' && s[2] == '/')
  }

  predicate IsDots(part: string) {
    part == "." || part == ".."
  }

  function NonEmpty(parts: seq<string>): (kept: seq<string>)
    ensures forall p :: p in kept <==> p in parts && p != ""
  {
    if parts == [] then [] else (if parts[0] == "" then [] else [parts[0]]) + NonEmpty(parts[1..])
  }

  predicate HasDots(parts: seq<string>) {
    exists p <- parts :: IsDots(p)
  }

  /** `archiveDestination`, relative to the staging directory; the root directory is never accepted as one. */
  function ArchiveDestination(root: Path, archivePath: string, stripComponents: nat): (d: Destination)
    ensures d.Below? ==> d.parts != []
  {
    var normalized := Slashed(archivePath);
    if IsAbsoluteOrBad(normalized) then Unsafe
    else
      var components := NonEmpty(Split(normalized, '/'));
      if HasDots(components) then Unsafe
      else if |components| <= stripComponents then Removed
      else if root == [] then Unsafe
      else Below(components[stripComponents..])
  }

  /** `archiveLinkTarget`: the normalised target, if it is accepted. */
  function ArchiveLinkTarget(root: Path, linkTarget: Option<string>): Option<string> {
    var normalized := if linkTarget.Some? then Slashed(linkTarget.value) else "";
    if IsAbsoluteOrBad(normalized) then None
    else if HasDots(Split(normalized, '/')) then None
    else if root == [] then None
    else Some(normalized)
  }

  // ---------- Resolving a path ----------

  datatype Resolution = Found(path: Path) | Failed

  /** Pathname resolution (section 4.13 of XBD in POSIX.1-2017) from a directory: `.` stays, `..` goes up,
      a link is replaced by its target, an absolute target starts at the top, and only so many links are
      followed. */
  function Resolve(fs: FileSystem, cur: Path, rest: seq<string>, links: nat): Resolution
    decreases links, |rest|
  {
    if rest == [] then Found(cur)
    else if rest[0] == "" || rest[0] == "." then Resolve(fs, cur, rest[1..], links)
    else if rest[0] == ".." then Resolve(fs, if cur == [] then [] else cur[..|cur| - 1], rest[1..], links)
    else
      var next := cur + [rest[0]];
      if next !in fs then Failed
      else
        match fs[next]
        case Directory => Resolve(fs, next, rest[1..], links)
        case File(_) => if rest[1..] == [] then Found(next) else Failed
        case Link(target) =>
          if links == 0 then Failed
          else Resolve(fs, if target != "" && target[0] == '/' then [] else cur,
                       Split(target, '/') + rest[1..], links - 1)
  }

  /** Every location the resolution passes. */
  function Passed(fs: FileSystem, cur: Path, rest: seq<string>, links: nat): seq<Path>
    decreases links, |rest|
  {
    [cur] +
    if rest == [] then []
    else if rest[0] == "" || rest[0] == "." then Passed(fs, cur, rest[1..], links)
    else if rest[0] == ".." then Passed(fs, if cur == [] then [] else cur[..|cur| - 1], rest[1..], links)
    else
      var next := cur + [rest[0]];
      if next !in fs then []
      else
        match fs[next]
        case Directory => Passed(fs, next, rest[1..], links)
        case File(_) => [next]
        case Link(target) =>
          if links == 0 then []
          else Passed(fs, if target != "" && target[0] == '/' then [] else cur,
                      Split(target, '/') + rest[1..], links - 1)
  }

  predicate IsInside(root: Path, path: Path) {
    root <= path
  }

  /** A relative target that never goes up. */
  predicate IsSafeTarget(target: string) {
    (target == "" || target[0] != '/') && !HasDots(Split(target, '/'))
  }

  /** Every link inside the root has a safe target. */
  ghost predicate SafeLinks(root: Path, fs: FileSystem) {
    forall p <- fs :: IsInside(root, p) && fs[p].Link? ==> IsSafeTarget(fs[p].target)
  }

  lemma {:induction false} SafeLinkHasNoDots(target: string, rest: seq<string>)
    requires IsSafeTarget(target) && !HasDots(rest)
    ensures !HasDots(Split(target, '/') + rest)
  {
  }

  lemma {:induction false} PassingStaysInside(root: Path, fs: FileSystem, cur: Path, rest: seq<string>, links: nat)
    requires SafeLinks(root, fs) && IsInside(root, cur) && !HasDots(rest)
    ensures forall p <- Passed(fs, cur, rest, links) :: IsInside(root, p)
    decreases links, |rest|
  {
    if rest != [] {
      assert rest[0] in rest && !HasDots(rest[1..]);
      var next := cur + [rest[0]];
      if rest[0] == "" {
        PassingStaysInside(root, fs, cur, rest[1..], links);
      } else if next in fs {
        match fs[next]
        case Directory => PassingStaysInside(root, fs, next, rest[1..], links);
        case File(_) =>
        case Link(target) =>
          if links > 0 {
            SafeLinkHasNoDots(target, rest[1..]);
            PassingStaysInside(root, fs, cur, Split(target, '/') + rest[1..], links - 1);
          }
      }
    }
  }

  lemma {:induction false} FoundIsPassed(fs: FileSystem, cur: Path, rest: seq<string>, links: nat)
    requires Resolve(fs, cur, rest, links).Found?
    ensures Resolve(fs, cur, rest, links).path in Passed(fs, cur, rest, links)
    decreases links, |rest|
  {
    if rest == [] {
    } else if rest[0] == "" || rest[0] == "." {
      FoundIsPassed(fs, cur, rest[1..], links);
    } else if rest[0] == ".." {
      FoundIsPassed(fs, if cur == [] then [] else cur[..|cur| - 1], rest[1..], links);
    } else {
      match fs[cur + [rest[0]]]
      case Directory => FoundIsPassed(fs, cur + [rest[0]], rest[1..], links);
      case File(_) =>
      case Link(target) =>
        FoundIsPassed(fs, if target != "" && target[0] == '/' then [] else cur, Split(target, '/') + rest[1..],
                      links - 1);
    }
  }

  /** An accepted path, resolved through any number of links, never leaves the root. */
  lemma {:induction false} ResolvingStaysInside(root: Path, fs: FileSystem, cur: Path, rest: seq<string>, links: nat)
    requires SafeLinks(root, fs) && IsInside(root, cur) && !HasDots(rest)
    ensures forall p <- Passed(fs, cur, rest, links) :: IsInside(root, p)
    ensures Resolve(fs, cur, rest, links).Found? ==> IsInside(root, Resolve(fs, cur, rest, links).path)
  {
    PassingStaysInside(root, fs, cur, rest, links);
    if Resolve(fs, cur, rest, links).Found? {
      FoundIsPassed(fs, cur, rest, links);
    }
  }

  // ---------- Writing into the staging directory ----------

  /** How many links the system follows before it gives up. */
  const LINK_LIMIT: nat := 40

  /** `mkdirSync` with `recursive`: the new file system, and the directory reached if all went well. */
  function MakeDirectories(fs: FileSystem, cur: Path, parts: seq<string>): (FileSystem, Option<Path>)
    decreases |parts|
  {
    if parts == [] then (fs, Some(cur))
    else
      var next := cur + [parts[0]];
      if next !in fs then MakeDirectories(fs[next := Directory], next, parts[1..])
      else
        match fs[next]
        case Directory => MakeDirectories(fs, next, parts[1..])
        case File(_) => (fs, None)
        case Link(_) =>
          var target := Resolve(fs, cur, [parts[0]], LINK_LIMIT);
          if target.Found? && target.path in fs && fs[target.path].Directory? then
            MakeDirectories(fs, target.path, parts[1..])
          else (fs, None)
  }

  /** Writing a file, after making the directories around it. */
  function PutFile(fs: FileSystem, root: Path, parts: seq<string>, content: Bytes): (FileSystem, bool)
    requires parts != []
  {
    var (made, directory) := MakeDirectories(fs, root, parts[..|parts| - 1]);
    if directory.None? then (made, false)
    else
      var path := directory.value + [parts[|parts| - 1]];
      if path in made && !made[path].File? then (made, false) else (made[path := File(content)], true)
  }

  /** Making a link, after making the directories around it. */
  function PutLink(fs: FileSystem, root: Path, parts: seq<string>, target: string): (FileSystem, bool)
    requires parts != []
  {
    var (made, directory) := MakeDirectories(fs, root, parts[..|parts| - 1]);
    if directory.None? then (made, false)
    else
      var path := directory.value + [parts[|parts| - 1]];
      if path in made then (made, false) else (made[path := Link(target)], true)
  }

  /** Nothing outside the root was added, changed or removed. */
  ghost predicate OutsideKept(root: Path, before: FileSystem, after: FileSystem) {
    forall p | !IsInside(root, p) :: (p in after <==> p in before) && (p in before ==> after[p] == before[p])
  }

  ghost predicate NoLinks(root: Path, fs: FileSystem) {
    forall p <- fs :: IsInside(root, p) ==> !fs[p].Link?
  }

  /** The file at a location, if there is one. */
  function FileAt(fs: FileSystem, path: Path): Option<Bytes> {
    if path in fs && fs[path].File? then Some(fs[path].content) else None
  }

  /** Entries were added, none of them a file; nothing was changed or removed. */
  ghost predicate OnlyAdded(before: FileSystem, after: FileSystem) {
    && (forall p <- before :: p in after && after[p] == before[p])
    && (forall p <- after :: p in before || !after[p].File?)
  }

  lemma {:induction false} MakingDirectoriesStaysInside(root: Path, fs: FileSystem, cur: Path, parts: seq<string>)
    requires SafeLinks(root, fs) && IsInside(root, cur) && !HasDots(parts)
    ensures var (made, directory) := MakeDirectories(fs, cur, parts);
            && SafeLinks(root, made) && OutsideKept(root, fs, made)
            && (NoLinks(root, fs) ==> NoLinks(root, made))
            && (directory.Some? ==> IsInside(root, directory.value))
    decreases |parts|
  {
    if parts != [] {
      assert parts[0] in parts && forall p <- parts[1..] :: p in parts;
      var next := cur + [parts[0]];
      if next !in fs {
        MakingDirectoriesStaysInside(root, fs[next := Directory], next, parts[1..]);
      } else if fs[next].Directory? {
        MakingDirectoriesStaysInside(root, fs, next, parts[1..]);
      } else if fs[next].Link? {
        ResolvingStaysInside(root, fs, cur, [parts[0]], LINK_LIMIT);
        var target := Resolve(fs, cur, [parts[0]], LINK_LIMIT);
        if target.Found? {
          MakingDirectoriesStaysInside(root, fs, target.path, parts[1..]);
        }
      }
    }
  }

  /** Making directories only adds directories; while there are no links, it makes exactly the path asked for. */
  lemma {:induction false} MakingDirectoriesOnlyAdds(root: Path, fs: FileSystem, cur: Path, parts: seq<string>)
    ensures var (made, directory) := MakeDirectories(fs, cur, parts);
            && OnlyAdded(fs, made)
            && (NoLinks(root, fs) && IsInside(root, cur) && directory.Some? ==>
                  directory.value == cur + parts
                  && (parts != [] ==> cur + parts in made && made[cur + parts] == Directory))
    decreases |parts|
  {
    if parts == [] {
      assert cur + parts == cur;
    } else {
      var next := cur + [parts[0]];
      assert next + parts[1..] == cur + parts;
      if next !in fs {
        MakingDirectoriesOnlyAdds(root, fs[next := Directory], next, parts[1..]);
      } else if fs[next].Directory? {
        MakingDirectoriesOnlyAdds(root, fs, next, parts[1..]);
      } else if fs[next].Link? {
        var target := Resolve(fs, cur, [parts[0]], LINK_LIMIT);
        if target.Found? {
          MakingDirectoriesOnlyAdds(root, fs, target.path, parts[1..]);
        }
      }
    }
  }

  lemma PutFileStaysInside(root: Path, fs: FileSystem, parts: seq<string>, content: Bytes)
    requires SafeLinks(root, fs) && parts != [] && !HasDots(parts)
    ensures var (after, _) := PutFile(fs, root, parts, content);
            SafeLinks(root, after) && OutsideKept(root, fs, after) && (NoLinks(root, fs) ==> NoLinks(root, after))
  {
    assert forall p <- parts[..|parts| - 1] :: p in parts;
    MakingDirectoriesStaysInside(root, fs, root, parts[..|parts| - 1]);
    var (_, directory) := MakeDirectories(fs, root, parts[..|parts| - 1]);
    if directory.Some? {
      assert IsInside(root, directory.value + [parts[|parts| - 1]]);
    }
  }

  /** While there are no links, writing a file changes that file and no other. */
  lemma PutFileWrites(root: Path, fs: FileSystem, parts: seq<string>, content: Bytes)
    requires NoLinks(root, fs) && parts != []
    ensures var (after, written) := PutFile(fs, root, parts, content);
            written ==>
              && (forall p <- fs :: p in after && (after[p] == fs[p] || fs[p].File?))
              && (forall p: Path :: FileAt(after, p) == if p == root + parts then Some(content) else FileAt(fs, p))
  {
    MakingDirectoriesOnlyAdds(root, fs, root, parts[..|parts| - 1]);
    var (made, directory) := MakeDirectories(fs, root, parts[..|parts| - 1]);
    if directory.Some? {
      assert directory.value + [parts[|parts| - 1]] == root + parts;
    }
  }

  lemma PutLinkStaysInside(root: Path, fs: FileSystem, parts: seq<string>, target: string)
    requires SafeLinks(root, fs) && parts != [] && !HasDots(parts) && IsSafeTarget(target)
    ensures var (after, _) := PutLink(fs, root, parts, target);
            SafeLinks(root, after) && OutsideKept(root, fs, after)
  {
    assert forall p <- parts[..|parts| - 1] :: p in parts;
    MakingDirectoriesStaysInside(root, fs, root, parts[..|parts| - 1]);
    var (_, directory) := MakeDirectories(fs, root, parts[..|parts| - 1]);
    if directory.Some? {
      assert IsInside(root, directory.value + [parts[|parts| - 1]]);
    }
  }

  /** An accepted destination lies strictly below the root, without dots. */
  lemma DestinationIsBelow(root: Path, archivePath: string, stripComponents: nat)
    ensures var d := ArchiveDestination(root, archivePath, stripComponents);
            d.Below? ==>
              && d.parts != [] && !HasDots(d.parts) && "" !in d.parts
              && root < root + d.parts
  {
    var d := ArchiveDestination(root, archivePath, stripComponents);
    if d.Below? {
      var components := NonEmpty(Split(Slashed(archivePath), '/'));
      assert forall p <- d.parts :: p in components;
    }
  }

  // ---------- Extraction ----------

  datatype Kind = DirectoryEntry | FileEntry(content: Bytes) | LinkEntry(linkName: Option<string>) | Metadata | Unknown

  datatype ArchiveEntry = ArchiveEntry(name: string, kind: Kind)

  datatype PendingLink = PendingLink(parts: seq<string>, target: string)

  /** The staging directory, the links put off to the end, and whether an entry has failed. */
  datatype Extraction = Extraction(fs: FileSystem, links: seq<PendingLink>, ok: bool)

  /** One entry of the archive; after a failure the rest is only skipped over. */
  function Take(x: Extraction, root: Path, stripComponents: nat, entry: ArchiveEntry): Extraction {
    var destination := ArchiveDestination(root, entry.name, stripComponents);
    if !x.ok then x
    else if destination.Unsafe? then x.(ok := false)
    else
      match entry.kind
      case Metadata => x
      case Unknown => x.(ok := false)
      case DirectoryEntry =>
        if destination.Removed? then x
        else
          var (made, directory) := MakeDirectories(x.fs, root, destination.parts);
          x.(fs := made, ok := directory.Some?)
      case FileEntry(content) =>
        if destination.Removed? then x.(ok := false)
        else
          var (after, written) := PutFile(x.fs, root, destination.parts, content);
          x.(fs := after, ok := written)
      case LinkEntry(linkName) =>
        var target := ArchiveLinkTarget(root, linkName);
        if destination.Removed? || target.None? then x.(ok := false)
        else x.(links := x.links + [PendingLink(destination.parts, target.value)])
  }

  function TakeAll(x: Extraction, root: Path, stripComponents: nat, entries: seq<ArchiveEntry>): Extraction {
    if entries == [] then x
    else
      Take(TakeAll(x, root, stripComponents, entries[..|entries| - 1]), root, stripComponents, entries[|entries| - 1])
  }

  /** The links at the end, up to the first that fails. */
  function LinkAll(fs: FileSystem, root: Path, links: seq<PendingLink>): (FileSystem, bool)
    requires forall l <- links :: l.parts != []
    decreases |links|
  {
    if links == [] then (fs, true)
    else
      var (after, linked) := PutLink(fs, root, links[0].parts, links[0].target);
      if linked then LinkAll(after, root, links[1..]) else (after, false)
  }

  ghost predicate SafePending(links: seq<PendingLink>) {
    forall l <- links :: l.parts != [] && !HasDots(l.parts) && "" !in l.parts && IsSafeTarget(l.target)
  }

  lemma TakeStaysInside(x: Extraction, root: Path, stripComponents: nat, entry: ArchiveEntry)
    requires NoLinks(root, x.fs) && SafePending(x.links)
    ensures var after := Take(x, root, stripComponents, entry);
            OutsideKept(root, x.fs, after.fs) && NoLinks(root, after.fs) && SafePending(after.links)
  {
    DestinationIsBelow(root, entry.name, stripComponents);
    var destination := ArchiveDestination(root, entry.name, stripComponents);
    if destination.Below? {
      MakingDirectoriesStaysInside(root, x.fs, root, destination.parts);
      if entry.kind.FileEntry? {
        PutFileStaysInside(root, x.fs, destination.parts, entry.kind.content);
      }
    }
  }

  lemma {:induction false} TakingAllStaysInside(start: FileSystem, root: Path, stripComponents: nat,
                                                entries: seq<ArchiveEntry>)
    requires NoLinks(root, start)
    ensures var x := TakeAll(Extraction(start, [], true), root, stripComponents, entries);
            OutsideKept(root, start, x.fs) && NoLinks(root, x.fs) && SafePending(x.links)
    decreases |entries|
  {
    if entries != [] {
      TakingAllStaysInside(start, root, stripComponents, entries[..|entries| - 1]);
      TakeStaysInside(TakeAll(Extraction(start, [], true), root, stripComponents, entries[..|entries| - 1]),
                      root, stripComponents, entries[|entries| - 1]);
    }
  }

  lemma {:induction false} LinkingStaysInside(fs: FileSystem, root: Path, links: seq<PendingLink>)
    requires SafeLinks(root, fs) && SafePending(links)
    ensures var (after, _) := LinkAll(fs, root, links);
            SafeLinks(root, after) && OutsideKept(root, fs, after)
    decreases |links|
  {
    if links != [] {
      assert links[0] in links;
      PutLinkStaysInside(root, fs, links[0].parts, links[0].target);
      var (after, linked) := PutLink(fs, root, links[0].parts, links[0].target);
      if linked {
        LinkingStaysInside(after, root, links[1..]);
      }
    }
  }

  /** `extractTarGz`: directories and files as they come, links at the end. */
  method ExtractTarGz(start: FileSystem, root: Path, entries: seq<ArchiveEntry>, stripComponents: nat)
    returns (fs: FileSystem, ok: bool)
    requires NoLinks(root, start)
    ensures (fs, ok) == Extracted(start, root, stripComponents, entries)
  {
    TakingAllStaysInside(start, root, stripComponents, entries);
    var x := Extraction(start, [], true);
    for i := 0 to |entries|
      invariant x == TakeAll(Extraction(start, [], true), root, stripComponents, entries[..i])
    {
      assert entries[..i + 1][..i] == entries[..i];
      x := Take(x, root, stripComponents, entries[i]);
    }
    assert entries[..|entries|] == entries;
    if !x.ok {
      return x.fs, false;
    }
    fs := x.fs;
    for i := 0 to |x.links|
      invariant LinkAll(x.fs, root, x.links) == LinkAll(fs, root, x.links[i..])
    {
      assert x.links[i] in x.links;
      var (after, linked) := PutLink(fs, root, x.links[i].parts, x.links[i].target);
      fs := after;
      if !linked {
        return fs, false;
      }
    }
    return fs, true;
  }

  /** What an extraction leaves, and whether it succeeds. */
  ghost function Extracted(start: FileSystem, root: Path, stripComponents: nat, entries: seq<ArchiveEntry>)
    : (FileSystem, bool)
    requires NoLinks(root, start)
  {
    TakingAllStaysInside(start, root, stripComponents, entries);
    var x := TakeAll(Extraction(start, [], true), root, stripComponents, entries);
    if x.ok then LinkAll(x.fs, root, x.links) else (x.fs, false)
  }

  /** However an extraction ends, everything outside the staging directory is as it was, every link inside
      has a safe target, and an accepted path followed through the extracted links, with any limit on their
      number, never leaves the staging directory. */
  lemma {:induction false} ExtractionStaysInside(start: FileSystem, root: Path, stripComponents: nat,
                                                 entries: seq<ArchiveEntry>,
                                                 archivePath: string, links: nat)
    requires NoLinks(root, start)
    ensures var (fs, _) := Extracted(start, root, stripComponents, entries);
            && OutsideKept(root, start, fs) && SafeLinks(root, fs)
            && var destination := ArchiveDestination(root, archivePath, stripComponents);
               destination.Below? ==>
                 && (forall p <- Passed(fs, root, destination.parts, links) :: IsInside(root, p))
                 && var resolved := Resolve(fs, root, destination.parts, links);
                    resolved.Found? ==> IsInside(root, resolved.path)
  {
    TakingAllStaysInside(start, root, stripComponents, entries);
    var x := TakeAll(Extraction(start, [], true), root, stripComponents, entries);
    if x.ok {
      LinkingStaysInside(x.fs, root, x.links);
    }
    var (fs, _) := Extracted(start, root, stripComponents, entries);
    var destination := ArchiveDestination(root, archivePath, stripComponents);
    DestinationIsBelow(root, archivePath, stripComponents);
    if destination.Below? {
      ResolvingStaysInside(root, fs, root, destination.parts, links);
    }
  }

  // ---------- What is extracted ----------

  /** Whether an entry puts a file at a location. */
  predicate Ships(root: Path, stripComponents: nat, entry: ArchiveEntry, path: Path) {
    var destination := ArchiveDestination(root, entry.name, stripComponents);
    entry.kind.FileEntry? && destination.Below? && root + destination.parts == path
  }

  /** The content of the last file the archive puts at a location. */
  function Shipped(root: Path, stripComponents: nat, entries: seq<ArchiveEntry>, path: Path): Option<Bytes> {
    if entries == [] then None
    else
      var entry := entries[|entries| - 1];
      if Ships(root, stripComponents, entry, path) then Some(entry.kind.content)
      else Shipped(root, stripComponents, entries[..|entries| - 1], path)
  }

  /** The link an entry asks for, if it is for an accepted one. */
  function LinkOf(root: Path, stripComponents: nat, entry: ArchiveEntry): seq<PendingLink> {
    var destination := ArchiveDestination(root, entry.name, stripComponents);
    if entry.kind.LinkEntry? && destination.Below? && ArchiveLinkTarget(root, entry.kind.linkName).Some? then
      [PendingLink(destination.parts, ArchiveLinkTarget(root, entry.kind.linkName).value)]
    else []
  }

  /** The links of the archive, in order. */
  function Promised(root: Path, stripComponents: nat, entries: seq<ArchiveEntry>): seq<PendingLink> {
    if entries == [] then []
    else
      Promised(root, stripComponents, entries[..|entries| - 1])
      + LinkOf(root, stripComponents, entries[|entries| - 1])
  }

  ghost predicate FilesAre(root: Path, stripComponents: nat, entries: seq<ArchiveEntry>, fs: FileSystem) {
    forall p | IsInside(root, p) :: FileAt(fs, p) == Shipped(root, stripComponents, entries, p)
  }

  /** The directory an entry makes, if it is for one. */
  ghost predicate DirectoryIsMade(root: Path, stripComponents: nat, entry: ArchiveEntry, fs: FileSystem) {
    var d := ArchiveDestination(root, entry.name, stripComponents);
    entry.kind.DirectoryEntry? && d.Below? ==> root + d.parts in fs && fs[root + d.parts] == Directory
  }

  ghost predicate DirectoriesStay(before: FileSystem, after: FileSystem) {
    forall p <- before :: before[p] == Directory ==> p in after && after[p] == Directory
  }

  /** An entry that is taken changes at most the one file it carries, makes its directory, and leaves the
      directories there were. */
  lemma TakeExtracts(x: Extraction, root: Path, stripComponents: nat, entry: ArchiveEntry)
    requires NoLinks(root, x.fs) && Take(x, root, stripComponents, entry).ok
    ensures var after := Take(x, root, stripComponents, entry);
            && (forall p: Path :: FileAt(after.fs, p) ==
                  if Ships(root, stripComponents, entry, p) then Some(entry.kind.content) else FileAt(x.fs, p))
            && DirectoryIsMade(root, stripComponents, entry, after.fs)
            && DirectoriesStay(x.fs, after.fs)
  {
    var destination := ArchiveDestination(root, entry.name, stripComponents);
    DestinationIsBelow(root, entry.name, stripComponents);
    if entry.kind.DirectoryEntry? && destination.Below? {
      MakingDirectoriesOnlyAdds(root, x.fs, root, destination.parts);
    }
    if entry.kind.FileEntry? && destination.Below? {
      PutFileWrites(root, x.fs, destination.parts, entry.kind.content);
    }
  }

  lemma {:induction false} TakingAllExtracts(start: FileSystem, root: Path, stripComponents: nat,
                                             entries: seq<ArchiveEntry>)
    requires NoLinks(root, start) && FilesAre(root, stripComponents, [], start)
    ensures var x := TakeAll(Extraction(start, [], true), root, stripComponents, entries);
            x.ok ==>
              && FilesAre(root, stripComponents, entries, x.fs)
              && (forall e <- entries :: DirectoryIsMade(root, stripComponents, e, x.fs))
              && x.links == Promised(root, stripComponents, entries)
    decreases |entries|
  {
    if entries != [] {
      var front, entry := entries[..|entries| - 1], entries[|entries| - 1];
      assert entries == front + [entry];
      TakingAllExtracts(start, root, stripComponents, front);
      TakingAllStaysInside(start, root, stripComponents, front);
      var x := TakeAll(Extraction(start, [], true), root, stripComponents, front);
      var after := Take(x, root, stripComponents, entry);
      assert after == TakeAll(Extraction(start, [], true), root, stripComponents, entries);
      if after.ok {
        TakeExtracts(x, root, stripComponents, entry);
        TakeAddsLink(x, root, stripComponents, entry);
        LaterLinks(root, stripComponents, front, entry);
        forall p | IsInside(root, p)
          ensures FileAt(after.fs, p) == Shipped(root, stripComponents, entries, p)
        {
          LaterFile(root, stripComponents, front, entry, p);
        }
      }
    }
  }

  lemma {:induction false} LaterFile(root: Path, stripComponents: nat, front: seq<ArchiveEntry>, entry: ArchiveEntry,
                                     p: Path)
    ensures Shipped(root, stripComponents, front + [entry], p) ==
            if Ships(root, stripComponents, entry, p) then Some(entry.kind.content)
            else Shipped(root, stripComponents, front, p)
  {
    assert (front + [entry])[..|front|] == front;
  }

  lemma TakeAddsLink(x: Extraction, root: Path, stripComponents: nat, entry: ArchiveEntry)
    requires Take(x, root, stripComponents, entry).ok
    ensures Take(x, root, stripComponents, entry).links == x.links + LinkOf(root, stripComponents, entry)
  {
    assert x.links + [] == x.links;
  }

  lemma {:induction false} LaterLinks(root: Path, stripComponents: nat, front: seq<ArchiveEntry>, entry: ArchiveEntry)
    ensures Promised(root, stripComponents, front + [entry])
         == Promised(root, stripComponents, front) + LinkOf(root, stripComponents, entry)
  {
    assert (front + [entry])[..|front|] == front;
  }

  // ---------- Where the links are ----------

  /** More links to follow do not change what is found. */
  lemma {:induction false} ResolveWithMore(fs: FileSystem, cur: Path, rest: seq<string>, n: nat, m: nat)
    requires n <= m && Resolve(fs, cur, rest, n).Found?
    ensures Resolve(fs, cur, rest, m) == Resolve(fs, cur, rest, n)
    decreases n, |rest|
  {
    if rest != [] {
      if rest[0] == "" || rest[0] == "." {
        ResolveWithMore(fs, cur, rest[1..], n, m);
      } else if rest[0] == ".." {
        ResolveWithMore(fs, if cur == [] then [] else cur[..|cur| - 1], rest[1..], n, m);
      } else {
        match fs[cur + [rest[0]]]
        case Directory => ResolveWithMore(fs, cur + [rest[0]], rest[1..], n, m);
        case File(_) =>
        case Link(target) =>
          ResolveWithMore(fs, if target != "" && target[0] == '/' then [] else cur,
                          Split(target, '/') + rest[1..], n - 1, m - 1);
      }
    }
  }

  ghost predicate Keeps(before: FileSystem, after: FileSystem) {
    forall p <- before :: p in after && after[p] == before[p]
  }

  /** Nor do further entries. */
  lemma {:induction false} ResolveKept(fs: FileSystem, after: FileSystem, cur: Path, rest: seq<string>, n: nat)
    requires Keeps(fs, after) && Resolve(fs, cur, rest, n).Found?
    ensures Resolve(after, cur, rest, n) == Resolve(fs, cur, rest, n)
    decreases n, |rest|
  {
    if rest != [] {
      if rest[0] == "" || rest[0] == "." {
        ResolveKept(fs, after, cur, rest[1..], n);
      } else if rest[0] == ".." {
        ResolveKept(fs, after, if cur == [] then [] else cur[..|cur| - 1], rest[1..], n);
      } else {
        match fs[cur + [rest[0]]]
        case Directory => ResolveKept(fs, after, cur + [rest[0]], rest[1..], n);
        case File(_) =>
        case Link(target) =>
          ResolveKept(fs, after, if target != "" && target[0] == '/' then [] else cur,
                      Split(target, '/') + rest[1..], n - 1);
      }
    }
  }

  /** A path that leads to a directory, and on from there. */
  lemma {:induction false} ResolveThen(fs: FileSystem, cur: Path, first: seq<string>, rest: seq<string>, n: nat, m: nat)
    requires Resolve(fs, cur, first, n).Found?
    requires var t := Resolve(fs, cur, first, n).path;
             (t in fs ==> !fs[t].File?) && Resolve(fs, t, rest, m).Found?
    ensures Resolve(fs, cur, first + rest, n + m) == Resolve(fs, Resolve(fs, cur, first, n).path, rest, m)
    decreases n, |first|
  {
    if first == [] {
      assert first + rest == rest;
      ResolveWithMore(fs, cur, rest, m, n + m);
    } else {
      var all := first + rest;
      assert all != [] && all[0] == first[0] && all[1..] == first[1..] + rest;
      if first[0] == "" || first[0] == "." {
        ResolveThen(fs, cur, first[1..], rest, n, m);
      } else if first[0] == ".." {
        ResolveThen(fs, if cur == [] then [] else cur[..|cur| - 1], first[1..], rest, n, m);
      } else {
        match fs[cur + [first[0]]]
        case Directory => ResolveThen(fs, cur + [first[0]], first[1..], rest, n, m);
        case File(_) =>
        case Link(target) =>
          ResolveThen(fs, if target != "" && target[0] == '/' then [] else cur, Split(target, '/') + first[1..], rest,
                      n - 1, m);
          Regroup(Split(target, '/'), first[1..], rest);
      }
    }
  }

  /** The directory that was made is the one the path leads to, links included. */
  lemma {:induction false} MadeIsResolved(root: Path, fs: FileSystem, cur: Path, parts: seq<string>) returns (n: nat)
    requires !HasDots(parts) && "" !in parts && MakeDirectories(fs, cur, parts).1.Some?
    ensures var (made, directory) := MakeDirectories(fs, cur, parts);
            Resolve(made, cur, parts, n) == Found(directory.value)
    decreases |parts|
  {
    var (made, directory) := MakeDirectories(fs, cur, parts);
    n := 0;
    if parts != [] {
      assert parts[0] in parts && forall p <- parts[1..] :: p in parts;
      MakingDirectoriesOnlyAdds(root, fs, cur, parts);
      var next := cur + [parts[0]];
      if next !in fs {
        n := MadeIsResolved(root, fs[next := Directory], next, parts[1..]);
        MakingDirectoriesOnlyAdds(root, fs[next := Directory], next, parts[1..]);
      } else if fs[next].Directory? {
        n := MadeIsResolved(root, fs, next, parts[1..]);
      } else {
        var target := Resolve(fs, cur, [parts[0]], LINK_LIMIT);
        var m := MadeIsResolved(root, fs, target.path, parts[1..]);
        ResolveKept(fs, made, cur, [parts[0]], LINK_LIMIT);
        ResolveThen(made, cur, [parts[0]], parts[1..], LINK_LIMIT, m);
        assert [parts[0]] + parts[1..] == parts;
        n := LINK_LIMIT + m;
      }
    }
  }

  /** A link of the archive stands where its path leads, inside the root. */
  ghost predicate IsPlaced(root: Path, fs: FileSystem, l: PendingLink) {
    l.parts != [] && exists n: nat :: IsPlacedVia(root, fs, l, n)
  }

  ghost predicate IsPlacedVia(root: Path, fs: FileSystem, l: PendingLink, n: nat)
    requires l.parts != []
  {
    var last := |l.parts| - 1;
    var directory := Resolve(fs, root, l.parts[..last], n);
    directory.Found? && IsLinkAt(root, fs, directory.path + [l.parts[last]], l)
  }

  ghost predicate IsLinkAt(root: Path, fs: FileSystem, path: Path, l: PendingLink) {
    IsInside(root, path) && path in fs && fs[path] == Link(l.target)
  }

  lemma {:induction false} PutLinkPlaces(root: Path, fs: FileSystem, l: PendingLink)
    requires SafeLinks(root, fs) && l.parts != [] && !HasDots(l.parts) && "" !in l.parts
    ensures var (after, linked) := PutLink(fs, root, l.parts, l.target);
            OnlyAdded(fs, after) && (linked ==> IsPlaced(root, after, l))
  {
    var last := |l.parts| - 1;
    var front := l.parts[..last];
    assert forall p <- front :: p in l.parts;
    MakingDirectoriesOnlyAdds(root, fs, root, front);
    MakingDirectoriesStaysInside(root, fs, root, front);
    var (after, linked) := PutLink(fs, root, l.parts, l.target);
    if linked {
      var (made, directory) := MakeDirectories(fs, root, front);
      var n := MadeIsResolved(root, fs, root, front);
      assert Keeps(made, after);
      ResolveKept(made, after, root, front, n);
      assert IsLinkAt(root, after, directory.value + [l.parts[last]], l);
      assert IsPlacedVia(root, after, l, n);
    }
  }

  lemma {:induction false} LinkingOnlyAdds(fs: FileSystem, root: Path, links: seq<PendingLink>)
    requires SafeLinks(root, fs) && SafePending(links)
    ensures var (after, linked) := LinkAll(fs, root, links);
            OnlyAdded(fs, after) && (linked ==> forall l <- links :: IsPlaced(root, after, l))
    decreases |links|
  {
    if links != [] {
      var l := links[0];
      assert l in links;
      PutLinkPlaces(root, fs, l);
      PutLinkStaysInside(root, fs, l.parts, l.target);
      var (next, linked) := PutLink(fs, root, l.parts, l.target);
      if linked {
        LinkingOnlyAdds(next, root, links[1..]);
        PlacedStays(root, next, LinkAll(next, root, links[1..]).0, l);
        assert links == [l] + links[1..];
      }
    }
  }

  lemma {:induction false} PlacedStays(root: Path, before: FileSystem, after: FileSystem, l: PendingLink)
    requires OnlyAdded(before, after) && IsPlaced(root, before, l)
    ensures IsPlaced(root, after, l)
  {
    var n: nat :| IsPlacedVia(root, before, l, n);
    ResolveKept(before, after, root, l.parts[..|l.parts| - 1], n);
    assert IsPlacedVia(root, after, l, n);
  }

  /** Every link inside the root comes from the archive. */
  ghost predicate LinksAreShipped(root: Path, fs: FileSystem, links: seq<PendingLink>) {
    forall p <- fs | IsInside(root, p) && fs[p].Link? :: exists l <- links :: fs[p] == Link(l.target)
  }

  lemma {:induction false} LinkingShips(fs: FileSystem, root: Path, done: seq<PendingLink>, links: seq<PendingLink>)
    requires SafeLinks(root, fs) && SafePending(links) && LinksAreShipped(root, fs, done)
    ensures LinksAreShipped(root, LinkAll(fs, root, links).0, done + links)
    decreases |links|
  {
    if links == [] {
      assert done + links == done;
    } else {
      var l := links[0];
      assert l in links && done + links == (done + [l]) + links[1..];
      MakingDirectoriesAddsNoLinks(fs, root, l.parts[..|l.parts| - 1]);
      PutLinkStaysInside(root, fs, l.parts, l.target);
      var (next, linked) := PutLink(fs, root, l.parts, l.target);
      forall p <- next | IsInside(root, p) && next[p].Link?
        ensures exists k <- done + [l] :: next[p] == Link(k.target)
      {
        if p in fs && fs[p] == next[p] {
          var k :| k in done && fs[p] == Link(k.target);
          assert k in done + [l];
        } else {
          assert l in done + [l];
        }
      }
      if linked {
        LinkingShips(next, root, done + [l], links[1..]);
      } else {
        assert forall k <- done + [l] :: k in done + links;
      }
    }
  }

  lemma {:induction false} MakingDirectoriesAddsNoLinks(fs: FileSystem, cur: Path, parts: seq<string>)
    ensures var (made, _) := MakeDirectories(fs, cur, parts);
            forall p <- made | made[p].Link? :: p in fs && fs[p] == made[p]
    decreases |parts|
  {
    if parts != [] {
      var next := cur + [parts[0]];
      if next !in fs {
        MakingDirectoriesAddsNoLinks(fs[next := Directory], next, parts[1..]);
      } else if fs[next].Directory? {
        MakingDirectoriesAddsNoLinks(fs, next, parts[1..]);
      } else if fs[next].Link? {
        var target := Resolve(fs, cur, [parts[0]], LINK_LIMIT);
        if target.Found? {
          MakingDirectoriesAddsNoLinks(fs, target.path, parts[1..]);
        }
      }
    }
  }

  /** A successful extraction into a directory without files leaves exactly the files of the archive there, the
      last one where several share a place, with every directory of the archive, every link where its path
      leads, and no other link. */
  lemma {:induction false} ExtractionIsFaithful(start: FileSystem, root: Path, stripComponents: nat,
                                                entries: seq<ArchiveEntry>)
    requires NoLinks(root, start) && forall p | IsInside(root, p) :: FileAt(start, p).None?
    ensures var (fs, ok) := Extracted(start, root, stripComponents, entries);
            ok ==>
              && FilesAre(root, stripComponents, entries, fs)
              && (forall e <- entries :: DirectoryIsMade(root, stripComponents, e, fs))
              && (forall l <- Promised(root, stripComponents, entries) :: IsPlaced(root, fs, l))
              && LinksAreShipped(root, fs, Promised(root, stripComponents, entries))
  {
    TakingAllStaysInside(start, root, stripComponents, entries);
    TakingAllExtracts(start, root, stripComponents, entries);
    var x := TakeAll(Extraction(start, [], true), root, stripComponents, entries);
    if x.ok {
      LinkedFaithfully(x.fs, root, x.links);
      FilesStay(x.fs, LinkAll(x.fs, root, x.links).0, root, stripComponents, entries);
    }
  }

  lemma {:induction false} LinkedFaithfully(fs: FileSystem, root: Path, links: seq<PendingLink>)
    requires NoLinks(root, fs) && SafePending(links)
    ensures var (after, linked) := LinkAll(fs, root, links);
            && OnlyAdded(fs, after) && LinksAreShipped(root, after, links)
            && (linked ==> forall l <- links :: IsPlaced(root, after, l))
  {
    LinkingOnlyAdds(fs, root, links);
    LinkingShips(fs, root, [], links);
    assert [] + links == links;
  }

  lemma FilesStay(before: FileSystem, after: FileSystem, root: Path, stripComponents: nat, entries: seq<ArchiveEntry>)
    requires OnlyAdded(before, after)
    ensures FilesAre(root, stripComponents, entries, before) ==> FilesAre(root, stripComponents, entries, after)
    ensures forall e | DirectoryIsMade(root, stripComponents, e, before) ::
              DirectoryIsMade(root, stripComponents, e, after)
  {
    forall p: Path
      ensures FileAt(after, p) == FileAt(before, p)
    {
    }
  }
}
