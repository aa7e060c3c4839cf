/** The production dependencies named in a release: every package name reachable from the root ones. */
module ReleaseNotices {
  import opened Options
  import opened Sequences
  import opened Ordering

  datatype Result<+T> = Ok(value: T) | NoRootDependencies | NoRecord(name: string)

  /** A lockfile record: "name@version" and the names it depends on. */
  datatype Package = Package(resolved: string, dependencies: seq<string>, optional: seq<string>)

  datatype Lock = Lock(rootDependencies: Option<seq<string>>, packages: seq<Package>)

  predicate IsRecordOf(p: Package, name: string) {
    name + "@" <= p.resolved
  }

  lemma RecordExactly(p: Package, name: string)
    ensures IsRecordOf(p, name) <==> exists version :: p.resolved == (name + "@") + version
  {
    if IsRecordOf(p, name) {
      assert p.resolved == (name + "@") + p.resolved[|name + "@"|..];
    }
  }

  /** The position of the first record of a name, or the number of records. */
  function FirstRecord(packages: seq<Package>, name: string): (i: nat)
    ensures i <= |packages|
    ensures i < |packages| ==> IsRecordOf(packages[i], name)
    ensures forall j | 0 <= j < i :: !IsRecordOf(packages[j], name)
  {
    if packages == [] || IsRecordOf(packages[0], name) then 0 else 1 + FirstRecord(packages[1..], name)
  }

  predicate HasRecord(lock: Lock, name: string) {
    FirstRecord(lock.packages, name) < |lock.packages|
  }

  /** The names a name depends on, through its first record. */
  function Needs(lock: Lock, name: string): seq<string> {
    var i := FirstRecord(lock.packages, name);
    if i < |lock.packages| then lock.packages[i].dependencies + lock.packages[i].optional else []
  }

  /** Every name a closure can meet. */
  function AllNames(lock: Lock): set<string> {
    (set n | lock.rootDependencies.Some? && n in lock.rootDependencies.value :: n)
    + (set i, n | 0 <= i < |lock.packages| && n in lock.packages[i].dependencies + lock.packages[i].optional :: n)
  }

  /** What the worklist sees of a lockfile: root names, what each name needs, and which have a record. */
  datatype Graph = Graph(roots: seq<string>, needs: string -> seq<string>, has: string -> bool, all: set<string>)

  function GraphOf(lock: Lock): Graph
    requires lock.rootDependencies.Some?
  {
    Graph(lock.rootDependencies.value, (name: string) => Needs(lock, name), (name: string) => HasRecord(lock, name),
          AllNames(lock))
  }

  ghost predicate Bounded(g: Graph) {
    && (forall n <- g.roots :: n in g.all)
    && (forall n, d | d in g.needs(n) :: d in g.all)
  }

  lemma GraphIsBounded(lock: Lock)
    requires lock.rootDependencies.Some?
    ensures Bounded(GraphOf(lock))
  {
  }

  /** A way from a root dependency to a name, each step a dependency of the one before. */
  ghost predicate IsPath(g: Graph, path: seq<string>) {
    if path == [] then false
    else if |path| == 1 then path[0] in g.roots
    else
      var shorter := path[..|path| - 1];
      IsPath(g, shorter) && path[|path| - 1] in g.needs(shorter[|shorter| - 1])
  }

  ghost predicate Reachable(g: Graph, name: string) {
    exists path :: IsPath(g, path) && path[|path| - 1] == name
  }

  lemma RootIsReachable(g: Graph, name: string)
    requires name in g.roots
    ensures Reachable(g, name)
  {
    assert IsPath(g, [name]) && [name][|[name]| - 1] == name;
  }

  lemma NeededIsReachable(g: Graph, name: string, next: string)
    requires Reachable(g, name) && next in g.needs(name)
    ensures Reachable(g, next)
  {
    var path :| IsPath(g, path) && path[|path| - 1] == name;
    var longer := path + [next];
    assert longer[..|longer| - 1] == path;
    assert IsPath(g, longer) && longer[|longer| - 1] == next;
  }

  lemma {:induction false} PathStaysInside(g: Graph, names: seq<string>, path: seq<string>)
    requires forall n <- g.roots :: n in names
    requires forall n <- names, d <- g.needs(n) :: d in names
    requires IsPath(g, path)
    ensures path[|path| - 1] in names
    decreases |path|
  {
    if |path| > 1 {
      PathStaysInside(g, names, path[..|path| - 1]);
    }
  }

  function Members(names: seq<string>): set<string> {
    set n <- names :: n
  }

  ghost predicate Distinct(names: seq<string>) {
    forall i, j | 0 <= i < j < |names| :: names[i] != names[j]
  }

  /** What the worklist loop keeps: everything met is reachable, and everything a met name needs has been
      met or is pending. */
  ghost predicate Working(g: Graph, included: seq<string>, pending: seq<string>) {
    && Distinct(included)
    && (forall n <- included :: Reachable(g, n) && g.has(n) && n in g.all)
    && (forall n <- pending :: Reachable(g, n) && n in g.all)
    && (forall n <- g.roots :: n in included || n in pending)
    && (forall n <- included, d <- g.needs(n) :: d in included || d in pending)
  }

  lemma StartWorking(g: Graph)
    requires Bounded(g)
    ensures Working(g, [], g.roots)
  {
    forall n <- g.roots {
      RootIsReachable(g, n);
    }
  }

  lemma SkipKeepsWorking(g: Graph, included: seq<string>, pending: seq<string>, name: string)
    requires Working(g, included, pending + [name]) && name in included
    ensures Working(g, included, pending)
  {
    assert forall n <- pending :: n in pending + [name];
  }

  lemma IncludeKeepsWorking(g: Graph, included: seq<string>, pending: seq<string>, name: string)
    requires Bounded(g) && Working(g, included, pending + [name]) && name !in included && g.has(name)
    ensures Working(g, included + [name], pending + g.needs(name))
  {
    assert name in pending + [name];
    assert forall n <- pending :: n in pending + [name];
    forall d <- g.needs(name)
      ensures Reachable(g, d)
    {
      NeededIsReachable(g, name, d);
    }
  }

  lemma WorkedIsReachable(g: Graph, included: seq<string>)
    requires Working(g, included, [])
    ensures forall n :: n in included <==> Reachable(g, n)
  {
    forall n | Reachable(g, n)
      ensures n in included
    {
      var path :| IsPath(g, path) && path[|path| - 1] == n;
      PathStaysInside(g, included, path);
    }
  }

  /** What the graph says of a name, by the position of its first record. */
  ghost predicate Recorded(lock: Lock, g: Graph, name: string, i: nat) {
    if i >= |lock.packages| then !g.has(name)
    else g.has(name) && g.needs(name) == lock.packages[i].dependencies + lock.packages[i].optional
  }

  ghost predicate Describes(lock: Lock, g: Graph) {
    && Bounded(g)
    && lock.rootDependencies == Some(g.roots)
    && forall name :: Recorded(lock, g, name, FirstRecord(lock.packages, name))
  }

  lemma {:induction false} GraphDescribes(lock: Lock)
    requires lock.rootDependencies.Some?
    ensures Describes(lock, GraphOf(lock))
  {
    GraphIsBounded(lock);
    forall name
      ensures Recorded(lock, GraphOf(lock), name, FirstRecord(lock.packages, name))
    {
    }
  }

  /** The worklist loop: the names met, or one that has no record. */
  method Collect(lock: Lock, ghost g: Graph) returns (included: seq<string>, missing: Option<string>)
    requires Describes(lock, g)
    ensures missing.None? ==> Working(g, included, [])
    ensures missing.Some? ==> Reachable(g, missing.value) && !g.has(missing.value)
  {
    var pending := lock.rootDependencies.value;
    included, missing := [], None;
    StartWorking(g);
    while pending != []
      invariant Working(g, included, pending)
      decreases g.all - Members(included), |pending|
    {
      var name := pending[|pending| - 1];
      assert pending == pending[..|pending| - 1] + [name];
      pending := pending[..|pending| - 1];
      TakeName(g, included, pending, name);
      if name !in included {
        var record := FirstRecord(lock.packages, name);
        assert Recorded(lock, g, name, record);
        if record == |lock.packages| {
          return included, Some(name);
        }
        Regroup(pending, lock.packages[record].dependencies, lock.packages[record].optional);
        included := included + [name];
        pending := pending + lock.packages[record].dependencies;
        pending := pending + lock.packages[record].optional;
      }
    }
  }

  /** A name taken from the worklist is reachable, and is either skipped or included with what it needs. */
  lemma TakeName(g: Graph, included: seq<string>, pending: seq<string>, name: string)
    requires Bounded(g) && Working(g, included, pending + [name])
    ensures Reachable(g, name)
    ensures name in included ==> Working(g, included, pending)
    ensures name !in included && g.has(name) ==> Working(g, included + [name], pending + g.needs(name))
    ensures name !in included ==> g.all - Members(included + [name]) < g.all - Members(included)
  {
    PendingIsReachable(g, included, pending, name);
    if name in included {
      SkipKeepsWorking(g, included, pending, name);
    } else {
      MoreMembers(g.all, included, name);
      if g.has(name) {
        IncludeKeepsWorking(g, included, pending, name);
      }
    }
  }

  lemma PendingIsReachable(g: Graph, included: seq<string>, pending: seq<string>, name: string)
    requires Working(g, included, pending + [name])
    ensures Reachable(g, name) && name in g.all
  {
    assert name in pending + [name];
  }

  lemma MoreMembers(all: set<string>, included: seq<string>, name: string)
    requires name in all && name !in included
    ensures all - Members(included + [name]) < all - Members(included)
  {
    assert name in included + [name] && forall n <- included :: n in included + [name];
    assert name in all - Members(included);
  }

  /** `productionDependencyClosure`: the reachable names, sorted and without repetition; or a reachable
      name that has no record, which happens exactly when there is one. */
  method ProductionDependencyClosure(lock: Lock) returns (closure: Result<seq<string>>)
    ensures closure.NoRootDependencies? <==> lock.rootDependencies.None?
    ensures closure.Ok? ==>
              && (forall n :: n in closure.value <==> Reachable(GraphOf(lock), n))
              && Sorted(closure.value, StringLe) && Distinct(closure.value)
    ensures closure.NoRecord? ==> Reachable(GraphOf(lock), closure.name) && !GraphOf(lock).has(closure.name)
    ensures lock.rootDependencies.Some? ==>
              (closure.Ok? <==> forall n | Reachable(GraphOf(lock), n) :: GraphOf(lock).has(n))
  {
    if lock.rootDependencies.None? {
      return NoRootDependencies;
    }
    ghost var g := GraphOf(lock);
    GraphDescribes(lock);
    var included, missing := Collect(lock, g);
    if missing.Some? {
      return NoRecord(missing.value);
    }
    WorkedIsReachable(g, included);
    closure := Ok(Sort(included, StringLe));
    SortsNames(included);
  }

  lemma {:induction false} SortsNames(names: seq<string>)
    requires Distinct(names)
    ensures var sorted := Sort(names, StringLe);
            Sorted(sorted, StringLe) && Distinct(sorted) && forall n :: n in sorted <==> n in names
  {
    SortPermutes(names, StringLe);
    StringLeIsOrder();
    SortSorts(names, StringLe);
    SameMembers(names, Sort(names, StringLe));
  }

  lemma SameMembers(a: seq<string>, b: seq<string>)
    requires multiset(a) == multiset(b) && Distinct(a)
    ensures (forall n :: n in a <==> n in b) && Distinct(b)
  {
    forall n: string
      ensures n in a <==> n in b
    {
      assert n in a <==> n in multiset(a);
      assert n in b <==> n in multiset(b);
    }
    forall i, j | 0 <= i < j < |b|
      ensures b[i] != b[j]
    {
      OnceIfDistinct(a, b[i]);
      if b[i] == b[j] {
        TwiceInside(b, i, j);
      }
    }
  }

  lemma {:induction false} OnceIfDistinct(a: seq<string>, n: string)
    requires Distinct(a)
    ensures multiset(a)[n] <= 1
    decreases |a|
  {
    if a != [] {
      OnceIfDistinct(a[1..], n);
      assert a == [a[0]] + a[1..];
      assert a[0] !in a[1..];
    }
  }
}
