/** The packages behind the root dependencies of a lockfile whose records nest: a dependency is looked up
    under the longest prefix of the place it is needed from. */
module LockClosure {
  import opened Options
  import opened Ordering
  import opened Text

  /** Asking for a name from below a record key; the root is the empty key. */
  datatype Request = Request(parent: string, name: string)

  datatype Result<+T> = Ok(value: T) | NoRootDependencies | NoRecord(request: Request)

  datatype Package = Package(
    resolved: string, dependencies: seq<string>, optional: seq<string>, integrity: Option<string>)

  datatype Lock = Lock(rootDependencies: Option<seq<string>>, packages: map<string, Package>)

  // ---------- Looking up a name ----------

  function Parts(parent: string): seq<string> {
    if parent == "" then [] else Split(parent, '/')
  }

  function Candidate(parts: seq<string>, length: nat, name: string): string
    requires length <= |parts|
  {
    Join(parts[..length] + [name], "/")
  }

  predicate Matches(lock: Lock, key: string, name: string) {
    key in lock.packages && name + "@" <= lock.packages[key].resolved
  }

  /** The candidate with the longest prefix that holds a record of the name. */
  function LongestMatch(lock: Lock, parts: seq<string>, length: nat, name: string): (key: Option<string>)
    requires length <= |parts|
    ensures key.Some? ==> Matches(lock, key.value, name)
    decreases length
  {
    var candidate := Candidate(parts, length, name);
    if Matches(lock, candidate, name) then Some(candidate)
    else if length == 0 then None
    else LongestMatch(lock, parts, length - 1, name)
  }

  lemma {:induction false} LongestMatchIsLongest(lock: Lock, parts: seq<string>, length: nat, name: string)
    requires length <= |parts|
    ensures match LongestMatch(lock, parts, length, name)
            case None => forall l: nat | l <= length :: !Matches(lock, Candidate(parts, l, name), name)
            case Some(key) =>
              exists l: nat ::
                && l <= length && key == Candidate(parts, l, name)
                && forall m | l < m <= length :: !Matches(lock, Candidate(parts, m, name), name)
    decreases length
  {
    if !Matches(lock, Candidate(parts, length, name), name) && length > 0 {
      LongestMatchIsLongest(lock, parts, length - 1, name);
    }
  }

  /** The record key a request leads to; the empty key counts as no record. */
  function Resolve(lock: Lock, r: Request): (key: Option<string>)
    ensures key.Some? ==> Matches(lock, key.value, r.name)
  {
    var key := LongestMatch(lock, Parts(r.parent), |Parts(r.parent)|, r.name);
    if key == Some("") then None else key
  }

  // ---------- The closure over an abstract graph ----------

  /** What the worklist sees: where a request leads, which package a key stands for, and what a key asks for
      in turn. */
  datatype Graph = Graph(
    resolve: Request -> Option<string>, identity: string -> string, requests: string -> seq<Request>,
    identities: set<string>)

  ghost predicate Bounded(g: Graph) {
    forall r | g.resolve(r).Some? :: g.identity(g.resolve(r).value) in g.identities
  }

  function Identities(g: Graph, keys: seq<string>): set<string> {
    set k <- keys :: g.identity(k)
  }

  /** The worklist: the keys under which packages were first met, in order. */
  function Close(g: Graph, pending: seq<Request>, included: seq<string>): Result<seq<string>>
    requires Bounded(g)
    decreases g.identities - Identities(g, included), |pending|
  {
    if pending == [] then Ok(included)
    else
      var request, rest := pending[|pending| - 1], pending[..|pending| - 1];
      match g.resolve(request)
      case None => NoRecord(request)
      case Some(key) =>
        if g.identity(key) in Identities(g, included) then Close(g, rest, included)
        else
          assert Identities(g, included + [key]) == Identities(g, included) + {g.identity(key)} by {
            assert key in included + [key] && forall k <- included :: k in included + [key];
          }
          assert g.identity(key) in g.identities - Identities(g, included);
          Close(g, rest + g.requests(key), included + [key])
  }

  /** A way from a root request to a request, each asked for by the key the one before leads to. */
  ghost predicate IsPath(g: Graph, roots: seq<Request>, path: seq<Request>) {
    if path == [] then false
    else if |path| == 1 then path[0] in roots
    else
      var shorter := path[..|path| - 1];
      && IsPath(g, roots, shorter)
      && g.resolve(shorter[|shorter| - 1]).Some?
      && path[|path| - 1] in g.requests(g.resolve(shorter[|shorter| - 1]).value)
  }

  ghost predicate Asked(g: Graph, roots: seq<Request>, r: Request) {
    exists path :: IsPath(g, roots, path) && path[|path| - 1] == r
  }

  ghost predicate Reached(g: Graph, roots: seq<Request>, key: string) {
    exists r :: Asked(g, roots, r) && g.resolve(r) == Some(key)
  }

  lemma RootIsAsked(g: Graph, roots: seq<Request>, r: Request)
    requires r in roots
    ensures Asked(g, roots, r)
  {
    assert IsPath(g, roots, [r]) && [r][|[r]| - 1] == r;
  }

  lemma NextIsAsked(g: Graph, roots: seq<Request>, key: string, r: Request)
    requires Reached(g, roots, key) && r in g.requests(key)
    ensures Asked(g, roots, r)
  {
    var before :| Asked(g, roots, before) && g.resolve(before) == Some(key);
    var path :| IsPath(g, roots, path) && path[|path| - 1] == before;
    var longer := path + [r];
    assert longer[..|longer| - 1] == path;
    assert IsPath(g, roots, longer) && longer[|longer| - 1] == r;
  }

  /** The request leads to a package that is included, under some key. */
  predicate Met(g: Graph, included: seq<string>, r: Request) {
    g.resolve(r).Some? && g.identity(g.resolve(r).value) in Identities(g, included)
  }

  ghost predicate DistinctPackages(g: Graph, included: seq<string>) {
    forall i, j | 0 <= i < j < |included| :: g.identity(included[i]) != g.identity(included[j])
  }

  /** What is asked for is met or still to be looked up. */
  ghost predicate Covered(g: Graph, included: seq<string>, pending: seq<Request>, asked: seq<Request>) {
    forall r <- asked :: Met(g, included, r) || r in pending
  }

  ghost predicate Working(g: Graph, roots: seq<Request>, included: seq<string>, pending: seq<Request>) {
    && DistinctPackages(g, included)
    && (forall k <- included :: Reached(g, roots, k))
    && (forall r <- pending :: Asked(g, roots, r))
    && Covered(g, included, pending, roots)
    && (forall k <- included :: Covered(g, included, pending, g.requests(k)))
  }

  lemma MetStaysMet(g: Graph, included: seq<string>, key: string, r: Request)
    requires Met(g, included, r)
    ensures Met(g, included + [key], r)
  {
    var k :| k in included && g.identity(k) == g.identity(g.resolve(r).value);
    assert k in included + [key];
  }

  lemma CoveredStays(g: Graph, included: seq<string>, rest: seq<Request>, r: Request, asked: seq<Request>)
    requires Covered(g, included, rest + [r], asked) && g.resolve(r).Some?
    ensures var key := g.resolve(r).value;
            Covered(g, included + [key], rest + g.requests(key), asked)
  {
    var key := g.resolve(r).value;
    assert key in included + [key];
    forall q <- asked
      ensures Met(g, included + [key], q) || q in rest + g.requests(key)
    {
      if Met(g, included, q) {
        MetStaysMet(g, included, key, q);
      } else {
        assert q in rest + [r];
      }
    }
  }

  lemma SkipKeepsWorking(g: Graph, roots: seq<Request>, included: seq<string>, rest: seq<Request>, r: Request)
    requires Working(g, roots, included, rest + [r]) && Met(g, included, r)
    ensures Working(g, roots, included, rest)
  {
    assert forall q <- rest :: q in rest + [r];
  }

  lemma IncludeKeepsReach(g: Graph, roots: seq<Request>, included: seq<string>, rest: seq<Request>, r: Request)
    requires Working(g, roots, included, rest + [r]) && g.resolve(r).Some?
    ensures var key := g.resolve(r).value;
            && Reached(g, roots, key)
            && forall q <- rest + g.requests(key) :: Asked(g, roots, q)
  {
    var key := g.resolve(r).value;
    assert r in rest + [r] && forall q <- rest :: q in rest + [r];
    assert Reached(g, roots, key);
    forall q <- g.requests(key)
      ensures Asked(g, roots, q)
    {
      NextIsAsked(g, roots, key, q);
    }
  }

  lemma IncludeKeepsWorking(g: Graph, roots: seq<Request>, included: seq<string>, rest: seq<Request>, r: Request)
    requires Working(g, roots, included, rest + [r]) && g.resolve(r).Some? && !Met(g, included, r)
    ensures var key := g.resolve(r).value;
            Working(g, roots, included + [key], rest + g.requests(key))
  {
    var key := g.resolve(r).value;
    IncludeKeepsReach(g, roots, included, rest, r);
    CoveredStays(g, included, rest, r, roots);
    forall k <- included
      ensures Covered(g, included + [key], rest + g.requests(key), g.requests(k))
    {
      CoveredStays(g, included, rest, r, g.requests(k));
    }
    forall i | 0 <= i < |included|
      ensures g.identity(included[i]) != g.identity(key)
    {
      assert included[i] in included;
    }
  }

  /** What a finished closure is: every included package is reachable, and included once; the roots and
      everything each package asks for, from the key where it was first met, lead to included packages.
      A failure names a request that is asked for and leads nowhere. */
  ghost predicate Answers(g: Graph, roots: seq<Request>, closure: Result<seq<string>>) {
    match closure
    case Ok(included) => Working(g, roots, included, [])
    case NoRootDependencies => false
    case NoRecord(r) => Asked(g, roots, r) && g.resolve(r).None?
  }

  lemma {:induction false} CloseAnswers(g: Graph, roots: seq<Request>, pending: seq<Request>, included: seq<string>)
    requires Bounded(g) && Working(g, roots, included, pending)
    ensures Answers(g, roots, Close(g, pending, included))
    decreases g.identities - Identities(g, included), |pending|
  {
    if pending != [] {
      var r, rest := pending[|pending| - 1], pending[..|pending| - 1];
      assert pending == rest + [r] && r in pending;
      if g.resolve(r).Some? {
        var key := g.resolve(r).value;
        if g.identity(key) in Identities(g, included) {
          SkipKeepsWorking(g, roots, included, rest, r);
          CloseAnswers(g, roots, rest, included);
        } else {
          IncludeKeepsWorking(g, roots, included, rest, r);
          MoreIdentities(g, included, key);
          CloseAnswers(g, roots, rest + g.requests(key), included + [key]);
        }
      }
    }
  }

  lemma MoreIdentities(g: Graph, included: seq<string>, key: string)
    requires g.identity(key) in g.identities && g.identity(key) !in Identities(g, included)
    ensures g.identities - Identities(g, included + [key]) < g.identities - Identities(g, included)
  {
    assert key in included + [key] && forall k <- included :: k in included + [key];
    assert g.identity(key) in g.identities - Identities(g, included);
  }

  // ---------- Keys that stand for the same package ----------

  /** Two keys of one package ask for the same packages. */
  ghost predicate SameNeeds(g: Graph, k: string, k': string) {
    forall r <- g.requests(k) :: exists r' <- g.requests(k') ::
      g.resolve(r').Some? ==> g.resolve(r).Some?
                              && g.identity(g.resolve(r).value) == g.identity(g.resolve(r').value)
  }

  /** Wherever a package is reached under two keys, they ask for the same; a condition on the lockfile alone. */
  ghost predicate KeysAgree(g: Graph, roots: seq<Request>) {
    forall k, k' | Reached(g, roots, k) && Reached(g, roots, k') && g.identity(k) == g.identity(k') ::
      SameNeeds(g, k, k')
  }

  /** Where an included package is met under a key other than its first, what it asks for there is included too. */
  ghost predicate SecondKeysServed(g: Graph, roots: seq<Request>, included: seq<string>) {
    forall key | Reached(g, roots, key) && key !in included && g.identity(key) in Identities(g, included) ::
      Covered(g, included, [], g.requests(key))
  }

  lemma {:induction false} PathIsMet(g: Graph, roots: seq<Request>, included: seq<string>, path: seq<Request>)
    requires Working(g, roots, included, []) && SecondKeysServed(g, roots, included) && IsPath(g, roots, path)
    ensures Met(g, included, path[|path| - 1])
    decreases |path|
  {
    if |path| > 1 {
      var shorter, r := path[..|path| - 1], path[|path| - 1];
      var before := shorter[|shorter| - 1];
      PathIsMet(g, roots, included, shorter);
      var key := g.resolve(before).value;
      assert Asked(g, roots, before) && Reached(g, roots, key);
      assert Covered(g, included, [], g.requests(key));
    }
  }

  /** A check on the result: a finished closure holds everything that can be reached if and only if every second
      key is served. */
  lemma {:induction false} CompleteExactly(g: Graph, roots: seq<Request>, included: seq<string>)
    requires Working(g, roots, included, [])
    ensures (forall r | Asked(g, roots, r) :: Met(g, included, r)) <==> SecondKeysServed(g, roots, included)
  {
    if forall r | Asked(g, roots, r) :: Met(g, included, r) {
      forall key, r | Reached(g, roots, key) && r in g.requests(key)
        ensures Met(g, included, r)
      {
        NextIsAsked(g, roots, key, r);
      }
    }
    if SecondKeysServed(g, roots, included) {
      forall r | Asked(g, roots, r)
        ensures Met(g, included, r)
      {
        var path :| IsPath(g, roots, path) && path[|path| - 1] == r;
        PathIsMet(g, roots, included, path);
      }
    }
  }

  lemma AgreedNeedIsMet(g: Graph, roots: seq<Request>, included: seq<string>, key: string, k: string, r: Request)
    requires Working(g, roots, included, []) && k in included
    requires SameNeeds(g, key, k) && r in g.requests(key)
    ensures Met(g, included, r)
  {
    var r' :| r' in g.requests(k) && (g.resolve(r').Some? ==>
      g.resolve(r).Some? && g.identity(g.resolve(r).value) == g.identity(g.resolve(r').value));
    assert Covered(g, included, [], g.requests(k));
    assert Met(g, included, r');
  }

  /** If it never matters under which of its reached keys a package is met, everything reachable is included. */
  lemma {:induction false} ReachableIsIncluded(g: Graph, roots: seq<Request>, included: seq<string>, key: string)
    requires Working(g, roots, included, []) && KeysAgree(g, roots) && Reached(g, roots, key)
    ensures g.identity(key) in Identities(g, included)
  {
    forall other, r | Reached(g, roots, other) && g.identity(other) in Identities(g, included)
                      && r in g.requests(other)
      ensures Met(g, included, r)
    {
      var k :| k in included && g.identity(k) == g.identity(other);
      AgreedNeedIsMet(g, roots, included, other, k, r);
    }
    CompleteExactly(g, roots, included);
    var r :| Asked(g, roots, r) && g.resolve(r) == Some(key);
  }

  // ---------- The lockfile as a graph, and the closure as code ----------

  function Identity(p: Package): string {
    p.resolved + "\0" + (if p.integrity.Some? then p.integrity.value else "")
  }

  function RequestsFor(parent: string, names: seq<string>): seq<Request> {
    seq(|names|, i requires 0 <= i < |names| => Request(parent, names[i]))
  }

  /** What a package asks for: dependencies, then optional ones, from below its key. */
  function RequestsOf(lock: Lock, key: string): seq<Request> {
    if key in lock.packages then
      RequestsFor(key, lock.packages[key].dependencies) + RequestsFor(key, lock.packages[key].optional)
    else []
  }

  function GraphOf(lock: Lock): Graph {
    Graph((r: Request) => Resolve(lock, r),
          (key: string) => if key in lock.packages then Identity(lock.packages[key]) else "",
          (key: string) => RequestsOf(lock, key),
          set k <- lock.packages :: Identity(lock.packages[k]))
  }

  lemma GraphIsBounded(lock: Lock)
    ensures Bounded(GraphOf(lock))
  {
  }

  const BUILD_ONLY := {"esbuild", "react-refresh"}

  /** The root dependencies that ship. */
  function Shipped(names: seq<string>): seq<string> {
    if names == [] then []
    else (if names[0] in BUILD_ONLY then [] else [names[0]]) + Shipped(names[1..])
  }

  function PackagesAt(lock: Lock, keys: seq<string>): seq<Package>
    requires forall k <- keys :: k in lock.packages
  {
    seq(|keys|, i requires 0 <= i < |keys| => assert keys[i] in keys; lock.packages[keys[i]])
  }

  /** The inner search of `packageClosure`. */
  method FindRecord(lock: Lock, r: Request) returns (key: Option<string>)
    ensures key == Resolve(lock, r)
  {
    var parentParts := Parts(r.parent);
    var length := |parentParts|;
    while true
      invariant 0 <= length <= |parentParts|
      invariant LongestMatch(lock, parentParts, |parentParts|, r.name)
             == LongestMatch(lock, parentParts, length, r.name)
      decreases length
    {
      var candidate := Candidate(parentParts, length, r.name);
      if Matches(lock, candidate, r.name) {
        return if candidate == "" then None else Some(candidate);
      }
      if length == 0 {
        return None;
      }
      length := length - 1;
    }
  }

  /** The worklist loop of `packageClosure`. */
  method Collect(lock: Lock, roots: seq<Request>) returns (closure: Result<seq<string>>)
    requires Bounded(GraphOf(lock))
    ensures closure == Close(GraphOf(lock), roots, [])
    ensures closure.Ok? ==> forall k <- closure.value :: k in lock.packages
  {
    ghost var g := GraphOf(lock);
    var pending := roots;
    var included: seq<string> := [];
    var identities: set<string> := {};
    while pending != []
      invariant Close(g, roots, []) == Close(g, pending, included)
      invariant identities == Identities(g, included)
      invariant forall k <- included :: k in lock.packages
      decreases g.identities - Identities(g, included), |pending|
    {
      var request := pending[|pending| - 1];
      pending := pending[..|pending| - 1];
      var key := FindRecord(lock, request);
      assert g.resolve(request) == key;
      if key.None? {
        return NoRecord(request);
      }
      var identity := Identity(lock.packages[key.value]);
      assert g.identity(key.value) == identity;
      if identity !in identities {
        MoreIdentities(g, included, key.value);
        AddIdentity(g, included, key.value);
        identities := identities + {identity};
        included := included + [key.value];
        pending := pending + RequestsOf(lock, key.value);
      }
    }
    closure := Ok(included);
  }

  lemma AddIdentity(g: Graph, included: seq<string>, key: string)
    ensures Identities(g, included + [key]) == Identities(g, included) + {g.identity(key)}
  {
    assert key in included + [key] && forall k <- included :: k in included + [key];
  }

  function ByName(le: (string, string) -> bool): (Package, Package) -> bool {
    (a: Package, b: Package) => le(a.resolved, b.resolved)
  }

  lemma {:induction false} SortsByName(packages: seq<Package>, le: (string, string) -> bool)
    ensures multiset(Sort(packages, ByName(le))) == multiset(packages)
    ensures TotalPreorder(le) ==> Sorted(Sort(packages, ByName(le)), ByName(le))
  {
    SortPermutes(packages, ByName(le));
    if TotalPreorder(le) {
      assert TotalPreorder(ByName(le)) by {
        assert forall a: Package, b: Package :: ByName(le)(a, b) == le(a.resolved, b.resolved);
      }
      SortSorts(packages, ByName(le));
    }
  }

  function RootsOf(lock: Lock): seq<Request>
    requires lock.rootDependencies.Some?
  {
    RequestsFor("", Shipped(lock.rootDependencies.value))
  }

  /** `packageClosure`, with `le` the locale order of the package names: the packages at `keys`, sorted by
      name, where `keys` is a finished closure; or a request that is asked for and leads nowhere. */
  method PackageClosure(lock: Lock, le: (string, string) -> bool)
    returns (closure: Result<seq<Package>>, ghost keys: seq<string>)
    ensures closure.NoRootDependencies? <==> lock.rootDependencies.None?
    ensures closure.Ok? ==>
              && Answers(GraphOf(lock), RootsOf(lock), Ok(keys))
              && (forall k <- keys :: k in lock.packages)
              && multiset(closure.value) == multiset(PackagesAt(lock, keys))
              && (TotalPreorder(le) ==> Sorted(closure.value, ByName(le)))
    ensures closure.NoRecord? ==> Answers(GraphOf(lock), RootsOf(lock), NoRecord(closure.request))
  {
    keys := [];
    if lock.rootDependencies.None? {
      return NoRootDependencies, [];
    }
    ghost var g := GraphOf(lock);
    var roots := RootsOf(lock);
    GraphIsBounded(lock);
    var found := Collect(lock, roots);
    StartWorking(g, roots);
    CloseAnswers(g, roots, roots, []);
    if found.NoRecord? {
      return NoRecord(found.request), [];
    }
    keys := found.value;
    var packages := PackagesAt(lock, found.value);
    SortsByName(packages, le);
    closure := Ok(Sort(packages, ByName(le)));
  }

  lemma StartWorking(g: Graph, roots: seq<Request>)
    ensures Working(g, roots, [], roots)
  {
    forall r <- roots {
      RootIsAsked(g, roots, r);
    }
  }

  // ---------- A package met under two keys ----------

  /** `x` stands at the root and below `a`; below `a` it has its own `d`. */
  const TWO_KEYS := Lock(Some(["a", "x"]), map[
    "a" := Package("a@1", ["x"], [], None),
    "x" := Package("x@1", ["d"], [], None),
    "a/x" := Package("x@1", ["d"], [], None),
    "d" := Package("d@1", [], [], None),
    "a/x/d" := Package("d@2", [], [], None)])

  lemma KeysDiffer()
    ensures TWO_KEYS.packages.Keys == {"a", "x", "a/x", "d", "a/x/d"}
    ensures "x/d" !in TWO_KEYS.packages
    ensures TWO_KEYS.packages["a"] == Package("a@1", ["x"], [], None)
    ensures TWO_KEYS.packages["x"] == Package("x@1", ["d"], [], None)
    ensures TWO_KEYS.packages["a/x"] == Package("x@1", ["d"], [], None)
    ensures TWO_KEYS.packages["d"] == Package("d@1", [], [], None)
    ensures TWO_KEYS.packages["a/x/d"] == Package("d@2", [], [], None)
  {
    assert "a"[0] == 'a' && "x"[0] == 'x' && "d"[0] == 'd' && "x/d"[0] == 'x';
    assert |"x/d"| == 3 && |"a/x"| == 3 && |"a/x/d"| == 5;
  }

  lemma RootNamesResolve()
    ensures Resolve(TWO_KEYS, Request("", "a")) == Some("a")
    ensures Resolve(TWO_KEYS, Request("", "x")) == Some("x")
  {
    KeysDiffer();
    assert Parts("") == [];
    forall name: string
      ensures Candidate([], 0, name) == name
    {
      assert [][..0] + [name] == [name];
    }
    assert "a" + "@" <= "a@1" && "x" + "@" <= "x@1";
  }

  lemma NamesBelowRootResolve()
    ensures Resolve(TWO_KEYS, Request("x", "d")) == Some("d")
    ensures Resolve(TWO_KEYS, Request("a", "x")) == Some("a/x")
  {
    KeysDiffer();
    OnePart("x");
    OnePart("a");
    assert ["x"][..1] + ["d"] == ["x", "d"] && ["a"][..1] + ["x"] == ["a", "x"];
    TwoJoined("x", "d");
    TwoJoined("a", "x");
    assert "x" + "/" + "d" == "x/d" && "a" + "/" + "x" == "a/x";
    assert ["x"][..0] + ["d"] == ["d"];
    assert "d" + "@" <= "d@1" && "x" + "@" <= "x@1";
  }

  lemma OnePart(s: string)
    requires |s| == 1 && s[0] != '/'
    ensures Parts(s) == [s]
  {
    assert s[1..] == [] && Split([], '/') == [[]];
    assert Split(s, '/') == [[s[0]] + [[]][0]] + [[]][1..];
    assert [s[0]] + [] == s;
  }

  lemma TwoJoined(a: string, b: string)
    ensures Join([a, b], "/") == a + "/" + b
  {
    assert [a, b][1..] == [b];
  }

  lemma NamesBelowTwoResolve()
    ensures Resolve(TWO_KEYS, Request("a/x", "d")) == Some("a/x/d")
  {
    KeysDiffer();
    var parts := ["a", "x"];
    assert Parts("a/x") == parts by {
      assert "a/x"[1..] == "/x" && "/x"[1..] == "x";
      OnePart("x");
      var tail: seq<string> := [[], "x"];
      assert Split("/x", '/') == [[]] + ["x"] == tail;
      assert Split("a/x", '/') == [['a'] + tail[0]] + tail[1..];
      assert ['a'] + [] == "a" && tail[1..] == ["x"];
    }
    assert parts[..2] + ["d"] == ["a", "x", "d"];
    assert ["a", "x", "d"][1..] == ["x", "d"];
    TwoJoined("x", "d");
    assert Join(["a", "x", "d"], "/") == "a/x/d";
    assert "d" + "@" <= "d@2";
  }

  lemma TwoKeysRequests()
    ensures RootsOf(TWO_KEYS) == [Request("", "a"), Request("", "x")]
    ensures RequestsOf(TWO_KEYS, "x") == [Request("x", "d")]
    ensures RequestsOf(TWO_KEYS, "a") == [Request("a", "x")]
    ensures RequestsOf(TWO_KEYS, "d") == []
    ensures RequestsOf(TWO_KEYS, "a/x") == [Request("a/x", "d")]
  {
    KeysDiffer();
    assert "a" !in BUILD_ONLY && "x" !in BUILD_ONLY by {
      assert |"esbuild"| == 7 && |"react-refresh"| == 13;
    }
    assert ["a", "x"][1..] == ["x"] && ["x"][1..] == [];
    assert Shipped(["x"]) == ["x"];
    assert Shipped(["a", "x"]) == ["a", "x"];
  }

  lemma TwoKeysIdentities()
    ensures var g := GraphOf(TWO_KEYS);
            && g.identity("x") == g.identity("a/x")
            && g.identity("a") != g.identity("x") && g.identity("d") != g.identity("x")
            && g.identity("a") != g.identity("d")
            && g.identity("a/x/d") !in {g.identity("x"), g.identity("d"), g.identity("a")}
  {
    KeysDiffer();
    assert Identity(Package("a@1", ["x"], [], None))[0] == 'a';
    assert Identity(Package("x@1", ["d"], [], None))[0] == 'x';
    assert Identity(Package("d@1", [], [], None))[0] == 'd' && Identity(Package("d@1", [], [], None))[2] == '1';
    assert Identity(Package("d@2", [], [], None))[0] == 'd' && Identity(Package("d@2", [], [], None))[2] == '2';
  }

  /** The requests and keys of a graph in which a package is met twice: the roots ask for `ka` and `kx`; `kx`
      asks for `kd`; `ka` asks for the package of `kx` under the second key `kax`, and that for `kaxd`. */
  datatype Twice = Twice(a: Request, x: Request, xd: Request, ax: Request, axd: Request,
                         ka: string, kx: string, kd: string, kax: string, kaxd: string)

  ghost predicate MetTwice(g: Graph, t: Twice) {
    && g.resolve(t.a) == Some(t.ka) && g.resolve(t.x) == Some(t.kx) && g.resolve(t.xd) == Some(t.kd)
    && g.resolve(t.ax) == Some(t.kax) && g.resolve(t.axd) == Some(t.kaxd)
    && g.requests(t.kx) == [t.xd] && g.requests(t.kd) == [] && g.requests(t.ka) == [t.ax]
    && g.requests(t.kax) == [t.axd]
    && g.identity(t.kx) == g.identity(t.kax) && g.identity(t.kd) != g.identity(t.kx)
    && g.identity(t.ka) != g.identity(t.kx) && g.identity(t.ka) != g.identity(t.kd)
    && g.identity(t.kaxd) !in {g.identity(t.kx), g.identity(t.kd), g.identity(t.ka)}
  }

  lemma {:induction false} ClosesWithoutSecond(g: Graph, t: Twice)
    requires Bounded(g) && MetTwice(g, t)
    ensures Close(g, [t.a, t.x], []) == Ok([t.kx, t.kd, t.ka])
    ensures g.identity(t.kaxd) !in Identities(g, [t.kx, t.kd, t.ka])
  {
    var a, x, xd, ax := t.a, t.x, t.xd, t.ax;
    CloseStep(g, [a], x, []);
    assert [a] + [x] == [a, x] && [] + [t.kx] == [t.kx] && Identities(g, []) == {};
    CloseStep(g, [a], xd, [t.kx]);
    assert [t.kx] + [t.kd] == [t.kx, t.kd] && [a] + [] == [a] && Identities(g, [t.kx]) == {g.identity(t.kx)};
    CloseStep(g, [], a, [t.kx, t.kd]);
    assert [t.kx, t.kd] + [t.ka] == [t.kx, t.kd, t.ka] && [] + [ax] == [ax] && [] + [a] == [a];
    AddIdentity(g, [t.kx], t.kd);
    CloseStep(g, [], ax, [t.kx, t.kd, t.ka]);
    AddIdentity(g, [t.kx, t.kd], t.ka);
  }

  lemma ReachesSecond(g: Graph, t: Twice)
    requires MetTwice(g, t)
    ensures Reached(g, [t.a, t.x], t.kaxd)
  {
    var roots := [t.a, t.x];
    RootIsAsked(g, roots, t.a);
    assert Reached(g, roots, t.ka);
    NextIsAsked(g, roots, t.ka, t.ax);
    assert Reached(g, roots, t.kax);
    NextIsAsked(g, roots, t.kax, t.axd);
  }

  lemma TwoKeysIsMetTwice() returns (lock: Lock, t: Twice)
    ensures lock.rootDependencies.Some? && RootsOf(lock) == [t.a, t.x] && MetTwice(GraphOf(lock), t)
  {
    lock := TWO_KEYS;
    t := Twice(Request("", "a"), Request("", "x"), Request("x", "d"), Request("a", "x"), Request("a/x", "d"),
               "a", "x", "d", "a/x", "a/x/d");
    RootNamesResolve();
    NamesBelowRootResolve();
    NamesBelowTwoResolve();
    TwoKeysRequests();
    TwoKeysIdentities();
  }

  /** The closure need not hold everything reachable: there is a lockfile in which a package is met under a
      second key, is not looked into again, and what it needs there is missing. */
  lemma SecondKeyIsMissed() returns (lock: Lock, included: seq<string>, key: string)
    ensures lock.rootDependencies.Some? && Bounded(GraphOf(lock))
    ensures var g := GraphOf(lock);
            && Close(g, RootsOf(lock), []) == Ok(included)
            && Reached(g, RootsOf(lock), key)
            && g.identity(key) !in Identities(g, included)
  {
    var t;
    lock, t := TwoKeysIsMetTwice();
    GraphIsBounded(lock);
    ClosesWithoutSecond(GraphOf(lock), t);
    ReachesSecond(GraphOf(lock), t);
    included, key := [t.kx, t.kd, t.ka], t.kaxd;
  }

  lemma {:induction false} CloseStep(g: Graph, rest: seq<Request>, r: Request, included: seq<string>)
    requires Bounded(g) && g.resolve(r).Some?
    ensures var key := g.resolve(r).value;
            Close(g, rest + [r], included)
            == if g.identity(key) in Identities(g, included) then Close(g, rest, included)
               else Close(g, rest + g.requests(key), included + [key])
  {
    assert (rest + [r])[..|rest + [r]| - 1] == rest;
  }
}
