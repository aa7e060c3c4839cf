/** What a package of a lockfile asks for and where it is found, told from the lockfile. */
module LockLaws {
  import opened Options
  import opened Ordering
  import opened Sequences
  import opened Text
  import opened LockClosure

  /** A record of some version of the name. */
  ghost predicate IsVersionOf(lock: Lock, key: string, name: string) {
    key in lock.packages && exists version :: lock.packages[key].resolved == (name + "@") + version
  }

  lemma MatchesExactly(lock: Lock, key: string, name: string)
    ensures Matches(lock, key, name) <==> IsVersionOf(lock, key, name)
  {
    if Matches(lock, key, name) {
      var resolved := lock.packages[key].resolved;
      assert resolved == (name + "@") + resolved[|name + "@"|..];
    }
  }

  /** The places a name is looked for below a key of some parts, the longest prefix first. */
  function Place(parts: seq<string>, length: nat, name: string): string
    requires length <= |parts|
  {
    if length == 0 then name else (Join(parts[..length], "/") + "/") + name
  }

  lemma {:induction false} JoinMore(parts: seq<string>, name: string)
    ensures Join(parts + [name], "/") == if parts == [] then name else (Join(parts, "/") + "/") + name
    decreases |parts|
  {
    if |parts| == 1 {
      assert (parts + [name])[1..] == [name];
    } else if |parts| > 1 {
      assert (parts + [name])[1..] == parts[1..] + [name];
      JoinMore(parts[1..], name);
      var rest := Join(parts[1..], "/");
      Regroup(parts[0] + "/", rest, "/");
      Regroup(parts[0] + "/", rest + "/", name);
    }
  }

  lemma {:induction false} PlaceIsCandidate(parts: seq<string>, length: nat, name: string)
    requires length <= |parts|
    ensures Candidate(parts, length, name) == Place(parts, length, name)
  {
    JoinMore(parts[..length], name);
  }

  /** The first of the places, from the whole key down to the root, that holds a version of the name. */
  ghost predicate IsFirst(lock: Lock, parts: seq<string>, length: nat, name: string) {
    && length <= |parts| && IsVersionOf(lock, Place(parts, length, name), name)
    && forall m | length < m <= |parts| :: !IsVersionOf(lock, Place(parts, m, name), name)
  }

  /** Where a name needed from below a key is found: there, and nowhere if that is the empty key. */
  lemma {:induction false} FoundExactly(lock: Lock, parts: seq<string>, name: string)
    requires (forall part <- parts :: '/' !in part) && (Join(parts, "/") == "" ==> parts == [])
    ensures match Resolve(lock, Request(Join(parts, "/"), name))
            case None => forall l: nat | IsFirst(lock, parts, l, name) :: Place(parts, l, name) == ""
            case Some(key) =>
              key != "" && exists l: nat :: IsFirst(lock, parts, l, name) && key == Place(parts, l, name)
  {
    if parts != [] {
      SplitJoined(parts, '/');
    }
    LongestMatchIsLongest(lock, parts, |parts|, name);
    forall l: nat | l <= |parts|
      ensures Candidate(parts, l, name) == Place(parts, l, name)
      ensures Matches(lock, Place(parts, l, name), name) <==> IsVersionOf(lock, Place(parts, l, name), name)
    {
      PlaceIsCandidate(parts, l, name);
      MatchesExactly(lock, Place(parts, l, name), name);
    }
    var found := LongestMatch(lock, parts, |parts|, name);
    if found.Some? {
      var l: nat :| l <= |parts| && found.value == Candidate(parts, l, name)
                    && forall m | l < m <= |parts| :: !Matches(lock, Candidate(parts, m, name), name);
      assert IsFirst(lock, parts, l, name);
      forall k: nat | IsFirst(lock, parts, k, name)
        ensures k == l
      {
        OneFirst(lock, parts, k, l, name);
      }
    }
  }

  lemma OneFirst(lock: Lock, parts: seq<string>, k: nat, l: nat, name: string)
    requires IsFirst(lock, parts, k, name) && IsFirst(lock, parts, l, name)
    ensures k == l
  {
  }

  /** A package asks for its dependencies and its optional dependencies, from below its own key, and for nothing
      else. */
  lemma AsksExactly(lock: Lock, key: string, r: Request)
    ensures r in GraphOf(lock).requests(key) <==>
            && key in lock.packages && r.parent == key
            && (r.name in lock.packages[key].dependencies || r.name in lock.packages[key].optional)
  {
    if key in lock.packages {
      AsksForAll(key, lock.packages[key].dependencies, r);
      AsksForAll(key, lock.packages[key].optional, r);
    }
  }

  lemma AsksForAll(parent: string, names: seq<string>, r: Request)
    ensures r in RequestsFor(parent, names) <==> r.parent == parent && r.name in names
  {
    if r.parent == parent && r.name in names {
      var i :| 0 <= i < |names| && names[i] == r.name;
      assert RequestsFor(parent, names)[i] == r;
    }
  }

  /** The root asks for its dependencies that are not only for building. */
  lemma {:induction false} RootAsksExactly(names: seq<string>, name: string)
    ensures name in Shipped(names) <==> name in names && name != "esbuild" && name != "react-refresh"
    decreases |names|
  {
    if names != [] {
      RootAsksExactly(names[1..], name);
    }
  }

  /** Two keys stand for one package if and only if their records have the same resolution and integrity. */
  lemma SamePackageExactly(lock: Lock, k: string, k': string)
    requires k in lock.packages && k' in lock.packages
    requires '\0' !in lock.packages[k].resolved && '\0' !in lock.packages[k'].resolved
    ensures var p, p' := lock.packages[k], lock.packages[k'];
            GraphOf(lock).identity(k) == GraphOf(lock).identity(k') <==>
              && p.resolved == p'.resolved
              && (if p.integrity.Some? then p.integrity.value else "")
                 == (if p'.integrity.Some? then p'.integrity.value else "")
  {
    var p, p' := lock.packages[k], lock.packages[k'];
    var a := if p.integrity.Some? then p.integrity.value else "";
    var a' := if p'.integrity.Some? then p'.integrity.value else "";
    if Identity(p) == Identity(p') {
      NulEnds(p.resolved, a, p'.resolved, a');
    }
  }

  lemma FirstNul(a: string, x: string)
    requires '\0' !in a
    ensures var s := a + "\0" + x;
            |a| < |s| && s[|a|] == '\0' && forall i | 0 <= i < |a| :: s[i] != '\0'
  {
    forall i | 0 <= i < |a|
      ensures (a + "\0" + x)[i] != '\0'
    {
      assert (a + "\0" + x)[i] == a[i] && a[i] in a;
    }
  }

  lemma NulEnds(a: string, x: string, b: string, y: string)
    requires '\0' !in a && '\0' !in b && a + "\0" + x == b + "\0" + y
    ensures a == b && x == y
  {
    FirstNul(a, x);
    FirstNul(b, y);
    var s, t := a + "\0" + x, b + "\0" + y;
    assert |a| == |b|;
    assert s[..|a|] == a && t[..|b|] == b && s[|a| + 1..] == x && t[|b| + 1..] == y;
  }
}
