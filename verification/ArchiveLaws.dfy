/** Where the entries of a release archive go, and when its extraction succeeds, told from their names alone. */
module ArchiveLaws {
  import opened Bytes
  import opened Options
  import opened Sequences
  import opened Text
  import opened ArchiveExtraction

  // ---------- Reading a name ----------

  predicate IsSeparator(c: char) {
    c == '/' || c == '\\'
  }

  /** The first n characters are a name that ends there. */
  ghost predicate IsRun(path: string, n: nat) {
    && 0 < n <= |path|
    && (forall i | 0 <= i < n :: !IsSeparator(path[i]))
    && (n < |path| ==> IsSeparator(path[n]))
  }

  /** The names in a path, between any number of separators. */
  ghost predicate Spells(path: string, names: seq<string>)
    decreases |path|
  {
    if path == "" then names == []
    else if IsSeparator(path[0]) then Spells(path[1..], names)
    else exists n: nat :: IsRun(path, n) && names != [] && names[0] == path[..n] && Spells(path[n..], names[1..])
  }

  function NamesIn(path: string): seq<string> {
    NonEmpty(Split(Slashed(path), '/'))
  }

  lemma SlashedTail(path: string, n: nat)
    requires n <= |path|
    ensures Slashed(path)[n..] == Slashed(path[n..])
  {
  }

  lemma {:induction false} SeparatorGoes(path: string)
    requires path != "" && IsSeparator(path[0])
    ensures NamesIn(path) == NamesIn(path[1..])
  {
    SlashedTail(path, 1);
    var parts := Split(Slashed(path[1..]), '/');
    assert Split(Slashed(path), '/') == [[]] + parts;
    assert ([[]] + parts)[1..] == parts;
  }

  lemma {:induction false} SplitOfName(s: string, parts: seq<string>)
    requires s != "" && s[0] != '/' && parts == Split(s[1..], '/')
    ensures Split(s, '/') == [[s[0]] + parts[0]] + parts[1..]
    ensures NonEmpty(Split(s, '/')) == [[s[0]] + parts[0]] + NonEmpty(parts[1..])
  {
    assert ([[s[0]] + parts[0]] + parts[1..])[1..] == parts[1..];
  }

  lemma {:induction false} RunGoesFirst(path: string, n: nat)
    requires IsRun(path, n)
    ensures NamesIn(path) == [path[..n]] + NamesIn(path[n..])
    decreases n
  {
    var parts := Split(Slashed(path[1..]), '/');
    FirstGoes(path, parts);
    if n == 1 {
      assert parts[0] == [];
      Unprefixed(NonEmpty(parts[1..]));
      assert path[..1] == [path[0]] + parts[0];
    } else {
      RunGoesOn(path, n);
      RunGoesFirst(path[1..], n - 1);
      TailGoes(path, n, parts);
      assert path[..n] == [path[0]] + path[1..n];
    }
  }

  lemma {:induction false} FirstGoes(path: string, parts: seq<string>)
    requires path != "" && !IsSeparator(path[0]) && parts == Split(Slashed(path[1..]), '/')
    ensures NamesIn(path) == [[path[0]] + parts[0]] + NonEmpty(parts[1..])
    ensures NamesIn(path[1..]) == (if parts[0] == "" then [] else [parts[0]]) + NonEmpty(parts[1..])
  {
    SlashedTail(path, 1);
    SplitOfName(Slashed(path), parts);
  }

  lemma {:induction false} TailGoes(path: string, n: nat, parts: seq<string>)
    requires 1 < n <= |path| && parts != []
    requires (if parts[0] == "" then [] else [parts[0]]) + NonEmpty(parts[1..])
          == [path[1..][..n - 1]] + NamesIn(path[1..][n - 1..])
    requires parts[0] != ""
    ensures parts[0] == path[1..n] && NonEmpty(parts[1..]) == NamesIn(path[n..])
  {
    assert path[1..][n - 1..] == path[n..] && path[1..][..n - 1] == path[1..n];
    FirstOfEqual(parts[0], NonEmpty(parts[1..]), path[1..n], NamesIn(path[n..]));
  }

  lemma RunGoesOn(path: string, n: nat)
    requires IsRun(path, n) && n > 1
    ensures IsRun(path[1..], n - 1)
  {
  }

  lemma FirstOfEqual<T>(a: T, as_: seq<T>, b: T, bs: seq<T>)
    requires [a] + as_ == [b] + bs
    ensures a == b && as_ == bs
  {
    assert ([a] + as_)[0] == a && ([b] + bs)[0] == b;
    assert ([a] + as_)[1..] == as_ && ([b] + bs)[1..] == bs;
  }

  /** Every path spells exactly one list of names. */
  lemma {:induction false} SpellsExactly(path: string, names: seq<string>)
    ensures Spells(path, names) <==> names == NamesIn(path)
    decreases |path|
  {
    if path == "" {
      assert Slashed(path) == [] && Split([], '/') == [[]];
    } else if IsSeparator(path[0]) {
      SeparatorGoes(path);
      SpellsExactly(path[1..], names);
    } else {
      var m := FirstRun(path);
      forall n | IsRun(path, n)
        ensures n == m
      {
      }
      RunGoesFirst(path, m);
      if names != [] {
        SpellsExactly(path[m..], names[1..]);
        assert names == [names[0]] + names[1..];
        assert ([path[..m]] + NamesIn(path[m..]))[1..] == NamesIn(path[m..]);
      }
    }
  }

  lemma {:induction false} FirstRun(path: string) returns (n: nat)
    requires path != "" && !IsSeparator(path[0])
    ensures IsRun(path, n)
    decreases |path|
  {
    n := 1;
    if |path| > 1 && !IsSeparator(path[1]) {
      var m := FirstRun(path[1..]);
      n := m + 1;
      assert forall i | 0 < i < n :: path[i] == path[1..][i - 1];
    }
  }

  // ---------- Destinations ----------

  /** A letter, by its ASCII code. */
  predicate IsAsciiLetter(c: char) {
    65 <= c as int <= 90 || 97 <= c as int <= 122
  }

  /** Empty, with a NUL, absolute in either notation, or with a drive letter. */
  ghost predicate IsForeign(path: string) {
    || path == ""
    || (exists i | 0 <= i < |path| :: path[i] == '\0')
    || IsSeparator(path[0])
    || (|path| >= 3 && IsAsciiLetter(path[0]) && path[1] == ':' && IsSeparator(path[2]))
  }

  lemma ForeignIsBad(path: string)
    ensures IsForeign(path) <==> IsAbsoluteOrBad(Slashed(path))
  {
    var s := Slashed(path);
    assert |s| == |path| && forall i | 0 <= i < |path| :: s[i] == if path[i] == '\\' then '/' else path[i];
    if '\0' in s {
      var i :| 0 <= i < |s| && s[i] == '\0';
      assert path[i] == '\0';
    }
    if i :| 0 <= i < |path| && path[i] == '\0' {
      assert s[i] == '\0';
    }
  }

  /** Some name leads to the same directory or up. */
  ghost predicate HasDotNames(names: seq<string>) {
    exists k | 0 <= k < |names| :: names[k] == "." || names[k] == ".."
  }

  lemma DotNamesAreDots(names: seq<string>)
    ensures HasDotNames(names) <==> HasDots(names)
  {
    if p :| p in names && IsDots(p) {
      var k :| 0 <= k < |names| && names[k] == p;
    }
    if k :| 0 <= k < |names| && (names[k] == "." || names[k] == "..") {
      assert IsDots(names[k]);
    }
  }

  /** Which paths are refused, which are removed by stripping, and where the others lead. */
  lemma {:induction false} DestinationExactly(root: Path, path: string, stripComponents: nat, names: seq<string>)
    requires Spells(path, names)
    ensures var d := ArchiveDestination(root, path, stripComponents);
            if IsForeign(path) || HasDotNames(names) then d == Unsafe
            else if |names| <= stripComponents then d == Removed
            else if root == [] then d == Unsafe
            else d == Below(names[stripComponents..])
  {
    SpellsExactly(path, names);
    ForeignIsBad(path);
    DotNamesAreDots(names);
  }

  // ---------- Plain names ----------

  /** A name that needs no care: not empty, no dots, no separator, no NUL. */
  ghost predicate IsPlain(name: string) {
    && name != "" && name != "." && name != ".."
    && forall c <- name :: c != '/' && c != '\\' && c != '\0'
  }

  ghost predicate ArePlain(names: seq<string>) {
    && names != []
    && (forall name <- names :: IsPlain(name))
    && !(|names| > 1 && |names[0]| == 2 && IsAsciiLetter(names[0][0]) && names[0][1] == ':')
  }

  lemma {:induction false} JoinedSpells(names: seq<string>)
    requires forall name <- names :: IsPlain(name)
    ensures Spells(Join(names, "/"), names)
    ensures forall c <- Join(names, "/") :: c != '\0'
    decreases |names|
  {
    if |names| == 1 {
      NameSpells(names[0], "", []);
      Unsuffixed(names[0]);
      assert [names[0]] + [] == names;
    } else if |names| > 1 {
      JoinedSpells(names[1..]);
      var rest := Join(names[1..], "/");
      assert (names[0] + "/") + rest == names[0] + ("/" + rest);
      assert ("/" + rest)[1..] == rest;
      NameSpells(names[0], "/" + rest, names[1..]);
      assert [names[0]] + names[1..] == names;
    }
  }

  lemma {:induction false} NameSpells(name: string, rest: string, names: seq<string>)
    requires IsPlain(name) && Spells(rest, names) && (rest != "" ==> IsSeparator(rest[0]))
    ensures Spells(name + rest, [name] + names)
  {
    var path, n := name + rest, |name|;
    assert forall i | 0 <= i < n :: path[i] == name[i] && name[i] in name;
    assert path[..n] == name && path[n..] == rest && ([name] + names)[1..] == names;
    assert IsRun(path, n);
  }

  lemma {:induction false} JoinedIsNotForeign(names: seq<string>)
    requires ArePlain(names)
    ensures !IsForeign(Join(names, "/"))
  {
    JoinedSpells(names);
    var path := Join(names, "/");
    var first := names[0];
    assert first in names && first[0] in first;
    assert |names| > 1 ==> path == first + "/" + Join(names[1..], "/");
    assert path[0] == first[0] && !IsSeparator(path[0]);
    PlainHasNoNul(path);
    if |first| == 1 {
      assert |names| > 1 && |path| >= 3 ==> path[1] == '/';
      assert |names| == 1 ==> path == first;
    } else if |first| == 2 {
      assert path[1] == first[1];
      assert |names| == 1 ==> path == first;
    } else {
      assert path[2] == first[2] && first[2] in first;
    }
  }

  lemma PlainHasNoNul(path: string)
    requires forall c <- path :: c != '\0'
    ensures !exists i | 0 <= i < |path| :: path[i] == '\0'
  {
    forall i | 0 <= i < |path|
      ensures path[i] != '\0'
    {
      assert path[i] in path;
    }
  }

  lemma PlainHasNoDots(names: seq<string>)
    requires ArePlain(names)
    ensures !HasDotNames(names)
  {
    forall k | 0 <= k < |names|
      ensures names[k] != "." && names[k] != ".."
    {
      assert IsPlain(names[k]);
    }
  }

  /** A path of plain names goes where its names behind the stripped ones say; if there are none, nowhere. */
  lemma {:induction false} PlainDestination(root: Path, stripped: seq<string>, rest: seq<string>)
    requires root != [] && ArePlain(stripped + rest)
    ensures ArchiveDestination(root, Join(stripped + rest, "/"), |stripped|)
         == if rest == [] then Removed else Below(rest)
  {
    var names := stripped + rest;
    JoinedSpells(names);
    JoinedIsNotForeign(names);
    PlainHasNoDots(names);
    DestinationExactly(root, Join(names, "/"), |stripped|, names);
    assert names[|stripped|..] == rest;
  }

  /** A shorter path leaves nothing. */
  lemma {:induction false} ShortPathIsRemoved(root: Path, names: seq<string>, stripComponents: nat)
    requires ArePlain(names) && |names| <= stripComponents
    ensures ArchiveDestination(root, Join(names, "/"), stripComponents) == Removed
  {
    JoinedSpells(names);
    JoinedIsNotForeign(names);
    PlainHasNoDots(names);
    DestinationExactly(root, Join(names, "/"), stripComponents, names);
  }

  // ---------- Link targets ----------

  /** The target with every backslash turned. */
  ghost predicate IsTurned(target: string, turned: string) {
    && |turned| == |target|
    && forall i | 0 <= i < |target| :: turned[i] == if target[i] == '\\' then '/' else target[i]
  }

  lemma {:induction false} NonEmptyDots(parts: seq<string>)
    ensures HasDots(NonEmpty(parts)) <==> HasDots(parts)
  {
  }

  /** Which targets are refused, and what becomes of the others. */
  lemma {:induction false} LinkTargetExactly(root: Path, target: string, names: seq<string>)
    requires Spells(target, names)
    ensures var accepted := ArchiveLinkTarget(root, Some(target));
            && (accepted.None? <==> IsForeign(target) || HasDotNames(names) || root == [])
            && (accepted.Some? ==> IsTurned(target, accepted.value))
    ensures ArchiveLinkTarget(root, None) == None
  {
    SpellsExactly(target, names);
    ForeignIsBad(target);
    DotNamesAreDots(names);
    NonEmptyDots(Split(Slashed(target), '/'));
  }

  // ---------- What stands where after an extraction ----------

  /** No later entry brings a file to the same place. */
  ghost predicate IsLastFile(entries: seq<ArchiveEntry>, k: nat, stripComponents: nat, rest: seq<string>) {
    forall j, names | k < j < |entries| && entries[j].kind.FileEntry? && Spells(entries[j].name, names) ::
      |names| <= stripComponents || names[stripComponents..] != rest
  }

  /** After a successful extraction a file stands where the names behind the stripped ones say, with the content
      of the last such entry. */
  lemma {:induction false} FileStands(start: FileSystem, root: Path, entries: seq<ArchiveEntry>, k: nat,
                                      stripped: seq<string>, rest: seq<string>, content: Bytes)
    requires NoLinks(root, start) && forall p | IsInside(root, p) :: FileAt(start, p).None?
    requires root != [] && rest != [] && ArePlain(stripped + rest)
    requires k < |entries| && entries[k] == ArchiveEntry(Join(stripped + rest, "/"), FileEntry(content))
    requires IsLastFile(entries, k, |stripped|, rest)
    ensures var (fs, ok) := Extracted(start, root, |stripped|, entries);
            ok ==> root + rest in fs && fs[root + rest] == File(content)
  {
    var (fs, ok) := Extracted(start, root, |stripped|, entries);
    if ok {
      ExtractionIsFaithful(start, root, |stripped|, entries);
      PlainDestination(root, stripped, rest);
      ShippedLast(root, |stripped|, entries, k, rest, |entries|);
      assert entries[..|entries|] == entries;
      assert FileAt(fs, root + rest) == Some(content);
    }
  }

  lemma BehindRoot(root: Path)
    ensures forall a: seq<string>, b: seq<string> | root + a == root + b :: a == b
  {
    forall a: seq<string>, b: seq<string> | root + a == root + b
      ensures a == b
    {
      assert (root + a)[|root|..] == a && (root + b)[|root|..] == b;
    }
  }

  lemma {:induction false} ShippedLast(root: Path, stripComponents: nat, entries: seq<ArchiveEntry>, k: nat,
                                       rest: seq<string>, n: nat)
    requires k < n <= |entries| && IsLastFile(entries, k, stripComponents, rest)
    requires Ships(root, stripComponents, entries[k], root + rest)
    ensures Shipped(root, stripComponents, entries[..n], root + rest) == Some(entries[k].kind.content)
    decreases n
  {
    assert entries[..n][..n - 1] == entries[..n - 1];
    if k < n - 1 {
      ShippedLast(root, stripComponents, entries, k, rest, n - 1);
      var names := NamesIn(entries[n - 1].name);
      SpellsExactly(entries[n - 1].name, names);
      DestinationExactly(root, entries[n - 1].name, stripComponents, names);
      BehindRoot(root);
    }
  }

  /** And so do a directory and a link. */
  lemma {:induction false} DirectoryStands(start: FileSystem, root: Path, entries: seq<ArchiveEntry>, k: nat,
                                           stripped: seq<string>, rest: seq<string>)
    requires NoLinks(root, start) && forall p | IsInside(root, p) :: FileAt(start, p).None?
    requires root != [] && rest != [] && ArePlain(stripped + rest)
    requires k < |entries| && entries[k] == ArchiveEntry(Join(stripped + rest, "/"), DirectoryEntry)
    ensures var (fs, ok) := Extracted(start, root, |stripped|, entries);
            ok ==> root + rest in fs && fs[root + rest] == Directory
  {
    var (fs, ok) := Extracted(start, root, |stripped|, entries);
    if ok {
      ExtractionIsFaithful(start, root, |stripped|, entries);
      PlainDestination(root, stripped, rest);
      assert DirectoryIsMade(root, |stripped|, entries[k], fs);
    }
  }

  lemma {:induction false} LinkStands(start: FileSystem, root: Path, entries: seq<ArchiveEntry>, k: nat,
                                      stripped: seq<string>, rest: seq<string>, target: string)
    requires NoLinks(root, start) && forall p | IsInside(root, p) :: FileAt(start, p).None?
    requires root != [] && rest != [] && ArePlain(stripped + rest)
    requires k < |entries| && entries[k] == ArchiveEntry(Join(stripped + rest, "/"), LinkEntry(Some(target)))
    requires ArchiveLinkTarget(root, Some(target)).Some?
    ensures var (fs, ok) := Extracted(start, root, |stripped|, entries);
            ok ==> IsPlaced(root, fs, PendingLink(rest, ArchiveLinkTarget(root, Some(target)).value))
  {
    var (fs, ok) := Extracted(start, root, |stripped|, entries);
    if ok {
      ExtractionIsFaithful(start, root, |stripped|, entries);
      PlainDestination(root, stripped, rest);
      PromisedHas(root, |stripped|, entries, k, |entries|);
      assert entries[..|entries|] == entries;
      assert LinkOf(root, |stripped|, entries[k])
          == [PendingLink(rest, ArchiveLinkTarget(root, Some(target)).value)];
    }
  }

  lemma {:induction false} PromisedHas(root: Path, stripComponents: nat, entries: seq<ArchiveEntry>, k: nat, n: nat)
    requires k < n <= |entries|
    ensures forall l <- LinkOf(root, stripComponents, entries[k]) :: l in Promised(root, stripComponents, entries[..n])
    decreases n
  {
    assert entries[..n][..n - 1] == entries[..n - 1];
    if k < n - 1 {
      PromisedHas(root, stripComponents, entries, k, n - 1);
    }
  }

  // ---------- When an extraction succeeds ----------

  datatype Place = DirectoryPlace | FilePlace | LinkPlace

  /** Something the archive puts behind the root, by its names and what it is. */
  datatype Item = Item(names: seq<string>, place: Place)

  /** Nothing lies below a file or a link, no directory has the place of one, and a link has its place alone. */
  ghost predicate Fit(items: seq<Item>) {
    && (forall i <- items :: i.names != [])
    && (forall i <- items, j <- items | !i.place.DirectoryPlace? ::
          !(i.names < j.names) && (j.place.DirectoryPlace? ==> i.names != j.names))
    && (forall i, j | 0 <= i < j < |items| && items[i].names == items[j].names ::
          !items[i].place.LinkPlace? && !items[j].place.LinkPlace?)
  }

  /** Everything below the root comes from the items: directories on the way, files, and the links made. */
  ghost predicate Tidy(root: Path, fs: FileSystem, items: seq<Item>, links: seq<seq<string>>) {
    forall p <- fs | root < p :: IsFrom(root, p, fs[p], items, links)
  }

  ghost predicate IsFrom(root: Path, p: Path, e: Entry, items: seq<Item>, links: seq<seq<string>>)
    requires root < p
  {
    var names := p[|root|..];
    match e
    case Directory => exists i <- items :: names < i.names || (names == i.names && i.place.DirectoryPlace?)
    case File(_) => exists i <- items :: names == i.names && i.place.FilePlace?
    case Link(_) => names in links
  }

  /** With nothing but directories on the way, they are made, and nothing else changes. */
  lemma {:induction false} DirectoriesAreMade(fs: FileSystem, cur: Path, parts: seq<string>)
    requires forall k | 0 < k <= |parts| :: cur + parts[..k] in fs ==> fs[cur + parts[..k]] == Directory
    ensures var (made, directory) := MakeDirectories(fs, cur, parts);
            && directory == Some(cur + parts)
            && (forall p <- made :: (p in fs && made[p] == fs[p]) || IsOnWay(cur, parts, p, made[p]))
    decreases |parts|
  {
    if parts == [] {
      assert cur + parts == cur;
    } else {
      var next := cur + [parts[0]];
      var with := if next in fs then fs else fs[next := Directory];
      assert parts[..1] == [parts[0]];
      OneStepOn(cur, parts);
      DirectoriesAreMade(with, next, parts[1..]);
      assert IsOnWay(cur, parts, next, Directory);
    }
  }

  ghost predicate IsOnWay(cur: Path, parts: seq<string>, p: Path, e: Entry) {
    e == Directory && exists k | 0 < k <= |parts| :: p == cur + parts[..k]
  }

  lemma OneStepOn(cur: Path, parts: seq<string>)
    requires parts != []
    ensures (cur + [parts[0]]) + parts[1..] == cur + parts
    ensures forall k | 0 < k <= |parts[1..]| :: (cur + [parts[0]]) + parts[1..][..k] == cur + parts[..k + 1]
    ensures forall p, e :: IsOnWay(cur + [parts[0]], parts[1..], p, e) ==> IsOnWay(cur, parts, p, e)
  {
    forall k | 0 < k <= |parts[1..]|
      ensures (cur + [parts[0]]) + parts[1..][..k] == cur + parts[..k + 1]
    {
      assert parts[..k + 1] == [parts[0]] + parts[1..][..k];
    }
  }

  /** Where an item of a fitting archive leads, there are only directories on the way. */
  lemma WayIsClear(root: Path, fs: FileSystem, items: seq<Item>, links: seq<seq<string>>, i: Item, parts: seq<string>)
    requires Fit(items) && i in items && Tidy(root, fs, items, links)
    requires forall l <- links :: Item(l, LinkPlace) in items
    requires parts <= i.names && (parts == i.names ==> i.place.DirectoryPlace?)
    ensures forall k | 0 < k <= |parts| :: root + parts[..k] in fs ==> fs[root + parts[..k]] == Directory
  {
    forall k | 0 < k <= |parts| && root + parts[..k] in fs
      ensures fs[root + parts[..k]] == Directory
    {
      var p := root + parts[..k];
      assert p[|root|..] == parts[..k] == i.names[..k];
      assert IsFrom(root, p, fs[p], items, links);
      assert k < |i.names| ==> i.names[..k] < i.names;
      assert k == |i.names| ==> i.names[..k] == i.names;
    }
  }

  lemma {:induction false} StaysTidy(root: Path, fs: FileSystem, items: seq<Item>, links: seq<seq<string>>, i: Item,
                                     parts: seq<string>)
    requires Fit(items) && i in items && Tidy(root, fs, items, links)
    requires forall l <- links :: Item(l, LinkPlace) in items
    requires parts <= i.names && (parts == i.names ==> i.place.DirectoryPlace?)
    ensures var (made, directory) := MakeDirectories(fs, root, parts);
            directory == Some(root + parts) && Tidy(root, made, items, links)
            && forall p <- made :: (p in fs && made[p] == fs[p]) || IsOnWay(root, parts, p, made[p])
  {
    WayIsClear(root, fs, items, links, i, parts);
    DirectoriesAreMade(fs, root, parts);
    var (made, _) := MakeDirectories(fs, root, parts);
    forall p <- made | root < p
      ensures IsFrom(root, p, made[p], items, links)
    {
      if IsOnWay(root, parts, p, made[p]) {
        var k :| 0 < k <= |parts| && p == root + parts[..k];
        assert p[|root|..] == i.names[..k];
        assert k < |i.names| ==> i.names[..k] < i.names;
        assert k == |i.names| ==> i.names[..k] == i.names;
      }
    }
  }

  lemma FileIsPut(root: Path, fs: FileSystem, items: seq<Item>, links: seq<seq<string>>, names: seq<string>,
                  content: Bytes)
    requires Fit(items) && Item(names, FilePlace) in items && Tidy(root, fs, items, links)
    requires names != [] && forall l <- links :: Item(l, LinkPlace) in items
    ensures var (after, written) := PutFile(fs, root, names, content);
            written && Tidy(root, after, items, links)
  {
    var last := |names| - 1;
    StaysTidy(root, fs, items, links, Item(names, FilePlace), names[..last]);
    var (made, _) := MakeDirectories(fs, root, names[..last]);
    var p := (root + names[..last]) + [names[last]];
    assert p == root + names && p[|root|..] == names;
    if p in made {
      PlaceOfLeaf(root, made, items, links, Item(names, FilePlace), p);
    }
  }

  lemma PlaceOfLeaf(root: Path, fs: FileSystem, items: seq<Item>, links: seq<seq<string>>, i: Item, p: Path)
    requires Fit(items) && i in items && !i.place.DirectoryPlace? && Tidy(root, fs, items, links)
    requires forall l <- links :: Item(l, LinkPlace) in items
    requires root < p && p[|root|..] == i.names && p in fs
    ensures if i.place.FilePlace? then fs[p].File? else i.names in links
  {
    assert IsFrom(root, p, fs[p], items, links);
    var at :| 0 <= at < |items| && items[at] == i;
    if fs[p].Link? {
      var other :| 0 <= other < |items| && items[other] == Item(i.names, LinkPlace);
    } else if fs[p].File? {
      var j :| j in items && j.names == i.names && j.place.FilePlace?;
      var other :| 0 <= other < |items| && items[other] == j;
    }
  }

  lemma LinkIsPut(root: Path, fs: FileSystem, items: seq<Item>, links: seq<seq<string>>, names: seq<string>,
                  target: string)
    requires Fit(items) && Item(names, LinkPlace) in items && Tidy(root, fs, items, links)
    requires names != [] && names !in links && forall l <- links :: Item(l, LinkPlace) in items
    ensures var (after, linked) := PutLink(fs, root, names, target);
            linked && Tidy(root, after, items, links + [names])
  {
    var last := |names| - 1;
    StaysTidy(root, fs, items, links, Item(names, LinkPlace), names[..last]);
    var (made, _) := MakeDirectories(fs, root, names[..last]);
    var p := (root + names[..last]) + [names[last]];
    assert p == root + names && p[|root|..] == names;
    if p in made {
      PlaceOfLeaf(root, made, items, links, Item(names, LinkPlace), p);
    }
  }

  /** What an entry puts behind the root, if anything. */
  function ItemOf(stripComponents: nat, e: ArchiveEntry): seq<Item> {
    var names := NamesIn(e.name);
    if |names| <= stripComponents then []
    else
      match e.kind
      case DirectoryEntry => [Item(names[stripComponents..], DirectoryPlace)]
      case FileEntry(_) => [Item(names[stripComponents..], FilePlace)]
      case LinkEntry(_) => [Item(names[stripComponents..], LinkPlace)]
      case Metadata => []
      case Unknown => []
  }

  function ItemsIn(stripComponents: nat, entries: seq<ArchiveEntry>): seq<Item> {
    if entries == [] then []
    else ItemsIn(stripComponents, entries[..|entries| - 1]) + ItemOf(stripComponents, entries[|entries| - 1])
  }

  /** An entry of a known kind, with a name and a link target that are not refused; only a directory may be stripped
      away. */
  ghost predicate IsSound(root: Path, stripComponents: nat, e: ArchiveEntry) {
    && !IsForeign(e.name) && !HasDotNames(NamesIn(e.name)) && !e.kind.Unknown?
    && (e.kind.FileEntry? || e.kind.LinkEntry? ==> |NamesIn(e.name)| > stripComponents)
    && (e.kind.LinkEntry? ==> ArchiveLinkTarget(root, e.kind.linkName).Some?)
  }

  function LinkNames(items: seq<Item>): seq<seq<string>> {
    if items == [] then []
    else
      var last := items[|items| - 1];
      LinkNames(items[..|items| - 1]) + if last.place.LinkPlace? then [last.names] else []
  }

  lemma {:induction false} LinkNamesAre(items: seq<Item>)
    requires forall i, j | 0 <= i < j < |items| && items[i].names == items[j].names ::
               !items[i].place.LinkPlace? && !items[j].place.LinkPlace?
    ensures forall l <- LinkNames(items) :: Item(l, LinkPlace) in items
    ensures forall i, j | 0 <= i < j < |LinkNames(items)| :: LinkNames(items)[i] != LinkNames(items)[j]
    decreases |items|
  {
    if items != [] {
      var front, last := items[..|items| - 1], items[|items| - 1];
      LinkNamesAre(front);
      assert last in items && forall i <- front :: i in items;
      forall k | 0 <= k < |LinkNames(front)|
        ensures last.place.LinkPlace? ==> LinkNames(front)[k] != last.names
      {
        var at :| 0 <= at < |front| && front[at] == Item(LinkNames(front)[k], LinkPlace);
        assert items[at] == front[at];
      }
    }
  }

  lemma {:induction false} LinkNamesMore(items: seq<Item>, more: seq<Item>)
    requires |more| <= 1
    ensures LinkNames(items + more) == LinkNames(items) + LinkNames(more)
  {
    if more == [] {
      Unsuffixed(items);
      Unsuffixed(LinkNames(items));
    } else {
      assert (items + more)[..|items + more| - 1] == items;
      assert more[..0] == [] && LinkNames(more) == [] + if more[0].place.LinkPlace? then [more[0].names] else [];
    }
  }

  /** The names of the links put off to the end. */
  function NamesOf(links: seq<PendingLink>): seq<seq<string>> {
    seq(|links|, i requires 0 <= i < |links| => links[i].parts)
  }

  /** One sound entry is taken. */
  lemma EntryIsTaken(root: Path, x: Extraction, stripComponents: nat, items: seq<Item>, e: ArchiveEntry)
    requires root != [] && x.ok && IsSound(root, stripComponents, e)
    requires Fit(items) && Tidy(root, x.fs, items, []) && forall i <- ItemOf(stripComponents, e) :: i in items
    ensures var after := Take(x, root, stripComponents, e);
            && after.ok && Tidy(root, after.fs, items, [])
            && NamesOf(after.links) == NamesOf(x.links) + LinkNames(ItemOf(stripComponents, e))
  {
    var names := NamesIn(e.name);
    SpellsExactly(e.name, names);
    DestinationExactly(root, e.name, stripComponents, names);
    LinkNamesOfOne(stripComponents, e);
    if |names| > stripComponents {
      var rest := names[stripComponents..];
      match e.kind
      case DirectoryEntry =>
        StaysTidy(root, x.fs, items, [], Item(rest, DirectoryPlace), rest);
      case FileEntry(content) => FileIsPut(root, x.fs, items, [], rest, content);
      case LinkEntry(_) =>
      case Metadata =>
      case Unknown =>
    }
  }

  lemma {:induction false} LinkNamesOfOne(stripComponents: nat, e: ArchiveEntry)
    ensures LinkNames(ItemOf(stripComponents, e))
         == if e.kind.LinkEntry? && |NamesIn(e.name)| > stripComponents then [NamesIn(e.name)[stripComponents..]]
            else []
  {
    var item := ItemOf(stripComponents, e);
    if item != [] {
      assert item[..|item| - 1] == [] && LinkNames([]) == [];
    }
  }

  lemma {:induction false} EntriesAreTaken(start: FileSystem, root: Path, stripComponents: nat,
                                           entries: seq<ArchiveEntry>, items: seq<Item>)
    requires root != [] && Fit(items) && Tidy(root, start, items, [])
    requires forall e <- entries :: IsSound(root, stripComponents, e)
    requires forall i <- ItemsIn(stripComponents, entries) :: i in items
    ensures var x := TakeAll(Extraction(start, [], true), root, stripComponents, entries);
            && x.ok && Tidy(root, x.fs, items, [])
            && NamesOf(x.links) == LinkNames(ItemsIn(stripComponents, entries))
    decreases |entries|
  {
    if entries != [] {
      var front, last := entries[..|entries| - 1], entries[|entries| - 1];
      assert last in entries && forall e <- front :: e in entries;
      EntriesAreTaken(start, root, stripComponents, front, items);
      var x := TakeAll(Extraction(start, [], true), root, stripComponents, front);
      EntryIsTaken(root, x, stripComponents, items, last);
      LinkNamesMore(ItemsIn(stripComponents, front), ItemOf(stripComponents, last));
    }
  }

  lemma {:induction false} LinksAreMade(root: Path, fs: FileSystem, items: seq<Item>, made: seq<seq<string>>,
                                        links: seq<PendingLink>)
    requires Fit(items) && Tidy(root, fs, items, made)
    requires forall l <- made + NamesOf(links) :: Item(l, LinkPlace) in items
    requires var all := made + NamesOf(links); forall i, j | 0 <= i < j < |all| :: all[i] != all[j]
    requires forall l <- links :: l.parts != []
    ensures LinkAll(fs, root, links).1
    decreases |links|
  {
    if links != [] {
      var all, l := made + NamesOf(links), links[0];
      var more := made + [l.parts];
      assert NamesOf(links) == [l.parts] + NamesOf(links[1..]);
      Regroup(made, [l.parts], NamesOf(links[1..]));
      assert all[|made|] == l.parts && l.parts in all;
      assert forall d <- made :: d in all;
      NewAmong(made, [l.parts] + NamesOf(links[1..]));
      LinkIsPut(root, fs, items, made, l.parts, l.target);
      LinksAreMade(root, PutLink(fs, root, l.parts, l.target).0, items, more, links[1..]);
    }
  }

  lemma NewAmong(a: seq<seq<string>>, b: seq<seq<string>>)
    requires b != [] && forall i, j | 0 <= i < j < |a + b| :: (a + b)[i] != (a + b)[j]
    ensures b[0] !in a
  {
    forall i | 0 <= i < |a|
      ensures a[i] != b[0]
    {
      assert (a + b)[i] == a[i] && (a + b)[|a|] == b[0];
    }
  }

  /** An archive of sound entries that fit together is extracted into an empty staging directory. */
  lemma {:induction false} FittingArchiveIsExtracted(start: FileSystem, root: Path, stripComponents: nat,
                                                     entries: seq<ArchiveEntry>)
    requires root != [] && NoLinks(root, start) && forall p <- start :: !(root < p)
    requires (forall e <- entries :: IsSound(root, stripComponents, e)) && Fit(ItemsIn(stripComponents, entries))
    ensures Extracted(start, root, stripComponents, entries).1
  {
    var items := ItemsIn(stripComponents, entries);
    EntriesAreTaken(start, root, stripComponents, entries, items);
    TakingAllStaysInside(start, root, stripComponents, entries);
    LinkNamesAre(items);
    var x := TakeAll(Extraction(start, [], true), root, stripComponents, entries);
    Unprefixed(NamesOf(x.links));
    LinksAreMade(root, x.fs, items, [], x.links);
  }

  /** And an archive with an entry that is not sound never is, whatever is there already. */
  lemma {:induction false} ExtractedIsSound(start: FileSystem, root: Path, stripComponents: nat,
                                            entries: seq<ArchiveEntry>)
    requires NoLinks(root, start) && Extracted(start, root, stripComponents, entries).1
    ensures forall e <- entries :: IsSound(root, stripComponents, e)
  {
    TakenAreSound(start, root, stripComponents, entries);
  }

  lemma {:induction false} TakenAreSound(start: FileSystem, root: Path, stripComponents: nat,
                                         entries: seq<ArchiveEntry>)
    requires TakeAll(Extraction(start, [], true), root, stripComponents, entries).ok
    ensures forall e <- entries :: IsSound(root, stripComponents, e)
    decreases |entries|
  {
    if entries != [] {
      var front, last := entries[..|entries| - 1], entries[|entries| - 1];
      TakenAreSound(start, root, stripComponents, front);
      TakenIsSound(TakeAll(Extraction(start, [], true), root, stripComponents, front), root, stripComponents, last);
      assert entries == front + [last];
    }
  }

  lemma TakenIsSound(x: Extraction, root: Path, stripComponents: nat, e: ArchiveEntry)
    requires Take(x, root, stripComponents, e).ok
    ensures x.ok && IsSound(root, stripComponents, e)
  {
    SpellsExactly(e.name, NamesIn(e.name));
    DestinationExactly(root, e.name, stripComponents, NamesIn(e.name));
  }

  // ---------- Plain paths lead where they say ----------

  /** Without links on the way a path leads to the place it spells, if there are directories before it and something
      that is no link there; behind a file there is nothing. */
  lemma {:induction false} PlainPathResolves(fs: FileSystem, cur: Path, names: seq<string>, links: nat)
    requires forall name <- names :: name != "" && name != "." && name != ".."
    requires forall k | 0 < k < |names| :: cur + names[..k] in fs && fs[cur + names[..k]] == Directory
    requires names != [] ==> cur + names in fs && !fs[cur + names].Link?
    ensures Resolve(fs, cur, names, links) == Found(cur + names)
    ensures names != [] && fs[cur + names].File? ==> forall more: seq<string> | more != [] ::
              Resolve(fs, cur, names + more, links) == Failed
    decreases |names|
  {
    if names == [] {
      assert cur + names == cur;
    } else {
      var next, rest := cur + [names[0]], names[1..];
      assert names[0] in names && forall name <- rest :: name in names;
      assert names[..1] == [names[0]] && names[..|names|] == names;
      OneStepOn(cur, names);
      assert rest[..|rest|] == rest;
      if rest == [] {
        assert cur + names == next;
      } else {
        assert fs[cur + names[..1]] == Directory;
        PlainPathResolves(fs, next, rest, links);
      }
      forall more: seq<string> | more != [] && fs[cur + names].File?
        ensures Resolve(fs, cur, names + more, links) == Failed
      {
        assert (names + more)[1..] == rest + more;
      }
    }
  }
}
