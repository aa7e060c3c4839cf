/** Filtering and sorting of catalog listings. */
module CatalogQuery {
  import opened Options
  import opened Ordering
  import opened Sequences
  import opened Text

  datatype Fit = Fits | Tight | WontFit

  datatype License = Open | Conditional | Prohibited

  datatype SortKey = ByName | BySize | ByMemory | ByFit | ByContext

  datatype Row = Row(id: string, name: string, text: seq<string>, kind: string, capabilities: seq<string>,
                     fit: Option<Fit>, installed: bool, license: Option<License>,
                     storageGb: real, memoryGb: real, contextTokens: Option<int>)

  /** A list left out and an empty list mean the same. */
  datatype Query = Query(search: string, kinds: seq<string>, capabilities: seq<string>, fits: seq<Fit>,
                         installed: Option<bool>, licenses: seq<License>, sort: Option<SortKey>, reverse: bool)

  /** The host's collation, with and without regard to case and accents, and its lower case. */
  datatype Locale = Locale(compare: (string, string) -> int, compareBase: (string, string) -> int,
                           lower: string -> string) {
    ghost predicate Lawful() {
      && IsComparison(compare) && IsComparison(compareBase)
      && forall s :: IsBlank(s) ==> IsBlank(lower(s))
    }
  }

  /** Negative, zero or positive, as a total preorder has it. */
  ghost predicate IsComparison<T(!new)>(compare: (T, T) -> int) {
    && (forall a, b :: compare(a, b) < 0 <==> compare(b, a) > 0)
    && (forall a, b, c :: compare(a, b) <= 0 && compare(b, c) <= 0 ==> compare(a, c) <= 0)
  }

  // ---------- Filtering ----------

  function WordLength(s: string): (n: nat)
    ensures n <= |s|
    ensures s != [] && !IsSpace(s[0]) ==> n > 0
  {
    if s == [] || IsSpace(s[0]) then 0 else 1 + WordLength(s[1..])
  }

  /** The parts between white space. */
  function Words(s: string): seq<string>
    decreases |s|
  {
    if s == [] then []
    else if IsSpace(s[0]) then Words(s[1..])
    else [s[..WordLength(s)]] + Words(s[WordLength(s)..])
  }

  lemma {:induction false} BlankHasNoWords(s: string)
    ensures IsBlank(s) <==> Words(s) == []
    decreases |s|
  {
    if s != [] && IsSpace(s[0]) {
      BlankHasNoWords(s[1..]);
      assert s == [s[0]] + s[1..];
    }
  }

  predicate Includes(s: string, part: string) {
    part <= s || (s != [] && Includes(s[1..], part))
  }

  predicate CatalogRowMatches(l: Locale, row: Row, q: Query) {
    if q.kinds != [] && row.kind !in q.kinds then false
    else if q.installed.Some? && row.installed != q.installed.value then false
    else if q.fits != [] && (row.fit.None? || row.fit.value !in q.fits) then false
    else if q.licenses != [] && (row.license.None? || row.license.value !in q.licenses) then false
    else if exists id <- q.capabilities :: id !in row.capabilities then false
    else
      var terms := Words(l.lower(q.search));
      terms == [] ||
      var haystack := l.lower(Join([row.id, row.name] + row.text, "\n"));
      forall term <- terms :: Includes(haystack, term)
  }

  predicate CatalogQueryFilters(q: Query) {
    !IsBlank(q.search) || q.kinds != [] || q.capabilities != [] || q.fits != [] || q.installed.Some? || q.licenses != []
  }

  /** A query that only sorts lets every row through. */
  lemma WithoutFiltersAllMatch(l: Locale, row: Row, q: Query)
    requires l.Lawful() && !CatalogQueryFilters(q)
    ensures CatalogRowMatches(l, row, q)
  {
    BlankHasNoWords(l.lower(q.search));
  }

  /** Capabilities are all needed: a longer list lets fewer rows through. */
  lemma CapabilitiesNarrow(l: Locale, row: Row, q: Query, a: seq<string>, b: seq<string>)
    ensures CatalogRowMatches(l, row, q.(capabilities := a + b)) <==>
            CatalogRowMatches(l, row, q.(capabilities := a)) && CatalogRowMatches(l, row, q.(capabilities := b))
  {
    assert forall id :: id in a + b <==> id in a || id in b;
  }

  /** Of the kinds, verdicts and licenses listed, one is enough. */
  lemma AlternativesWiden(l: Locale, row: Row, q: Query, kinds: seq<string>, kinds': seq<string>, fits: seq<Fit>,
                          fits': seq<Fit>, licenses: seq<License>, licenses': seq<License>)
    ensures kinds != [] && kinds' != [] ==>
              (CatalogRowMatches(l, row, q.(kinds := kinds + kinds')) <==>
               CatalogRowMatches(l, row, q.(kinds := kinds)) || CatalogRowMatches(l, row, q.(kinds := kinds')))
    ensures fits != [] && fits' != [] ==>
              (CatalogRowMatches(l, row, q.(fits := fits + fits')) <==>
               CatalogRowMatches(l, row, q.(fits := fits)) || CatalogRowMatches(l, row, q.(fits := fits')))
    ensures licenses != [] && licenses' != [] ==>
              (CatalogRowMatches(l, row, q.(licenses := licenses + licenses')) <==>
               CatalogRowMatches(l, row, q.(licenses := licenses))
               || CatalogRowMatches(l, row, q.(licenses := licenses')))
  {
    if kinds != [] && kinds' != [] {
      KindsWiden(l, row, q, kinds, kinds');
    }
    if fits != [] && fits' != [] {
      FitsWiden(l, row, q, fits, fits');
    }
    if licenses != [] && licenses' != [] {
      LicensesWiden(l, row, q, licenses, licenses');
    }
  }

  lemma KindsWiden(l: Locale, row: Row, q: Query, a: seq<string>, b: seq<string>)
    requires a != [] && b != []
    ensures CatalogRowMatches(l, row, q.(kinds := a + b)) <==>
            CatalogRowMatches(l, row, q.(kinds := a)) || CatalogRowMatches(l, row, q.(kinds := b))
  {
    assert forall x :: x in a + b <==> x in a || x in b;
  }

  lemma FitsWiden(l: Locale, row: Row, q: Query, a: seq<Fit>, b: seq<Fit>)
    requires a != [] && b != []
    ensures CatalogRowMatches(l, row, q.(fits := a + b)) <==>
            CatalogRowMatches(l, row, q.(fits := a)) || CatalogRowMatches(l, row, q.(fits := b))
  {
    assert forall x :: x in a + b <==> x in a || x in b;
  }

  lemma LicensesWiden(l: Locale, row: Row, q: Query, a: seq<License>, b: seq<License>)
    requires a != [] && b != []
    ensures CatalogRowMatches(l, row, q.(licenses := a + b)) <==>
            CatalogRowMatches(l, row, q.(licenses := a)) || CatalogRowMatches(l, row, q.(licenses := b))
  {
    assert forall x :: x in a + b <==> x in a || x in b;
  }

  lemma {:induction false} WordsConcat(s: string, t: string)
    ensures Words(s + " " + t) == Words(s) + Words(t)
    decreases |s|
  {
    var all := s + " " + t;
    if s == [] {
      assert all[1..] == t;
    } else if IsSpace(s[0]) {
      assert all[1..] == s[1..] + " " + t;
      WordsConcat(s[1..], t);
    } else {
      var n := WordLength(s);
      WordEnds(s, t);
      assert all[..n] == s[..n] && all[n..] == s[n..] + " " + t;
      WordsConcat(s[n..], t);
    }
  }

  lemma {:induction false} WordEnds(s: string, t: string)
    ensures WordLength(s + " " + t) == WordLength(s)
    decreases |s|
  {
    if s != [] {
      assert (s + " " + t)[1..] == s[1..] + " " + t;
      WordEnds(s[1..], t);
    }
  }

  /** Every word of a search must be found, wherever it stands: more words match fewer models. */
  lemma SearchNarrows(l: Locale, row: Row, q: Query, s: string, t: string)
    requires l.lower(s + " " + t) == l.lower(s) + " " + l.lower(t)
    ensures CatalogRowMatches(l, row, q.(search := s + " " + t)) <==>
            CatalogRowMatches(l, row, q.(search := s)) && CatalogRowMatches(l, row, q.(search := t))
  {
    WordsConcat(l.lower(s), l.lower(t));
    var a, b := Words(l.lower(s)), Words(l.lower(t));
    assert forall w :: w in a + b <==> w in a || w in b;
  }

  // ---------- Comparing ----------

  function FitRank(fit: Fit): int {
    match fit case Fits => 0 case Tight => 1 case WontFit => 2
  }

  /** The sign of a difference; only that matters to a sort. */
  function Difference(a: real, b: real): int {
    if a < b then -1 else if a > b then 1 else 0
  }

  /** The first comparison that decides. */
  function Or(first: int, second: int): int {
    if first != 0 then first else second
  }

  predicate Unknown(sort: SortKey, row: Row) {
    (sort == ByFit && row.fit.None?) || (sort == ByContext && row.contextTokens.None?)
  }

  function CompareBy(l: Locale, sort: SortKey, a: Row, b: Row): int
    requires !Unknown(sort, a) && !Unknown(sort, b)
  {
    match sort
    case ByName => l.compareBase(a.name, b.name)
    case BySize => Difference(a.storageGb, b.storageGb)
    case ByMemory => Difference(a.memoryGb, b.memoryGb)
    case ByFit => Or(FitRank(a.fit.value) - FitRank(b.fit.value), Difference(a.memoryGb, b.memoryGb))
    case ByContext => b.contextTokens.value - a.contextTokens.value
  }

  datatype Entry<T> = Entry(item: T, index: nat, row: Row)

  /** The order of two rows that are both known or both unknown, before any reversal. */
  function Order(l: Locale, sort: SortKey, a: Row, b: Row): int
    requires Unknown(sort, a) == Unknown(sort, b)
  {
    Or(if Unknown(sort, a) then 0 else CompareBy(l, sort, a, b), Or(l.compare(a.name, b.name), l.compare(a.id, b.id)))
  }

  /** Missing rows come last; then the order, reversed or not; then the place in the input. */
  function Decide(missingA: bool, missingB: bool, order: int, reverse: bool, places: int): int {
    if missingA != missingB then if missingA then 1 else -1 else Or(if reverse then -order else order, places)
  }

  function Compare<T>(l: Locale, sort: SortKey, reverse: bool, a: Entry<T>, b: Entry<T>): int {
    var missingA, missingB := Unknown(sort, a.row), Unknown(sort, b.row);
    Decide(missingA, missingB, if missingA == missingB then Order(l, sort, a.row, b.row) else 0, reverse,
           a.index - b.index)
  }

  lemma CompareByIsComparison(l: Locale, sort: SortKey, a: Row, b: Row, c: Row)
    requires l.Lawful() && !Unknown(sort, a) && !Unknown(sort, b) && !Unknown(sort, c)
    ensures CompareBy(l, sort, a, b) < 0 <==> CompareBy(l, sort, b, a) > 0
    ensures CompareBy(l, sort, a, b) <= 0 && CompareBy(l, sort, b, c) <= 0 ==> CompareBy(l, sort, a, c) <= 0
  {
  }

  lemma OrderIsComparison(l: Locale, sort: SortKey, a: Row, b: Row, c: Row)
    requires l.Lawful() && Unknown(sort, a) == Unknown(sort, b) == Unknown(sort, c)
    ensures Order(l, sort, a, b) < 0 <==> Order(l, sort, b, a) > 0
    ensures Order(l, sort, a, b) <= 0 && Order(l, sort, b, c) <= 0 ==> Order(l, sort, a, c) <= 0
  {
    if !Unknown(sort, a) {
      CompareByIsComparison(l, sort, a, b, c);
      CompareByIsComparison(l, sort, b, c, a);
      CompareByIsComparison(l, sort, c, a, b);
    }
  }

  lemma OrdersFlip(l: Locale, sort: SortKey, a: Row, b: Row)
    requires l.Lawful() && Unknown(sort, a) == Unknown(sort, b)
    ensures Order(l, sort, a, b) < 0 <==> Order(l, sort, b, a) > 0
    ensures Order(l, sort, a, b) > 0 <==> Order(l, sort, b, a) < 0
  {
    OrderIsComparison(l, sort, a, b, a);
    OrderIsComparison(l, sort, b, a, b);
  }

  lemma CompareFlips<T>(l: Locale, sort: SortKey, reverse: bool, a: Entry<T>, b: Entry<T>)
    requires l.Lawful()
    ensures Compare(l, sort, reverse, a, b) < 0 <==> Compare(l, sort, reverse, b, a) > 0
    ensures Compare(l, sort, reverse, a, b) == 0 ==> a.index == b.index
  {
    if Unknown(sort, a.row) == Unknown(sort, b.row) {
      OrdersFlip(l, sort, a.row, b.row);
    }
  }

  /** Deciding passes along, if the orders of the rows that are compared do. */
  lemma DecideIsTransitive(ma: bool, mb: bool, mc: bool, ab: int, bc: int, ac: int, reverse: bool,
                           ia: int, ib: int, ic: int)
    requires ma == mb == mc ==>
               && (ab <= 0 && bc <= 0 ==> ac <= 0) && (ab >= 0 && bc >= 0 ==> ac >= 0)
               && (ab <= 0 && bc <= 0 && ac >= 0 ==> ab == 0 && bc == 0)
               && (ab >= 0 && bc >= 0 && ac <= 0 ==> ab == 0 && bc == 0)
    requires Decide(ma, mb, ab, reverse, ia - ib) <= 0 && Decide(mb, mc, bc, reverse, ib - ic) <= 0
    ensures Decide(ma, mc, ac, reverse, ia - ic) <= 0
  {
  }

  lemma OrdersChain(l: Locale, sort: SortKey, a: Row, b: Row, c: Row)
    requires l.Lawful() && Unknown(sort, a) == Unknown(sort, b) == Unknown(sort, c)
    ensures var ab, bc, ac := Order(l, sort, a, b), Order(l, sort, b, c), Order(l, sort, a, c);
            && (ab <= 0 && bc <= 0 ==> ac <= 0)
            && (ab <= 0 && bc <= 0 && ac >= 0 ==> ab == 0 && bc == 0)
  {
    OrderIsComparison(l, sort, a, b, c);
    OrderIsComparison(l, sort, b, c, a);
    OrderIsComparison(l, sort, c, a, b);
    OrdersFlip(l, sort, a, b);
    OrdersFlip(l, sort, b, c);
    OrdersFlip(l, sort, a, c);
  }

  /** The comparison of entries is a strict total order: only an entry of the same place ties with it. */
  lemma CompareIsTotalOrder<T>(l: Locale, sort: SortKey, reverse: bool, a: Entry<T>, b: Entry<T>, c: Entry<T>)
    requires l.Lawful()
    ensures Compare(l, sort, reverse, a, b) < 0 <==> Compare(l, sort, reverse, b, a) > 0
    ensures Compare(l, sort, reverse, a, b) == 0 ==> a.index == b.index
    ensures Compare(l, sort, reverse, a, b) <= 0 && Compare(l, sort, reverse, b, c) <= 0 ==>
              Compare(l, sort, reverse, a, c) <= 0
  {
    CompareFlips(l, sort, reverse, a, b);
    if Compare(l, sort, reverse, a, b) <= 0 && Compare(l, sort, reverse, b, c) <= 0 {
      var ma, mb, mc := Unknown(sort, a.row), Unknown(sort, b.row), Unknown(sort, c.row);
      if ma == mb == mc {
        OrdersChain(l, sort, a.row, b.row, c.row);
        OrdersChain(l, sort, c.row, b.row, a.row);
        OrdersFlip(l, sort, a.row, b.row);
        OrdersFlip(l, sort, b.row, c.row);
        OrdersFlip(l, sort, a.row, c.row);
      }
      DecideIsTransitive(ma, mb, mc, if ma == mb then Order(l, sort, a.row, b.row) else 0,
                         if mb == mc then Order(l, sort, b.row, c.row) else 0,
                         if ma == mc then Order(l, sort, a.row, c.row) else 0, reverse, a.index, b.index, c.index);
    }
  }

  function Before<T>(l: Locale, sort: SortKey, reverse: bool): (Entry<T>, Entry<T>) -> bool {
    (a: Entry<T>, b: Entry<T>) => Compare(l, sort, reverse, a, b) <= 0
  }

  lemma BeforeIsPreorder<T(!new)>(l: Locale, sort: SortKey, reverse: bool)
    requires l.Lawful()
    ensures TotalPreorder(Before<T>(l, sort, reverse))
  {
    var le := Before<T>(l, sort, reverse);
    forall a, b
      ensures le(a, b) || le(b, a)
    {
      CompareIsTotalOrder(l, sort, reverse, a, b, a);
    }
    forall a, b, c | le(a, b) && le(b, c)
      ensures le(a, c)
    {
      CompareIsTotalOrder(l, sort, reverse, a, b, c);
    }
  }

  // ---------- Querying ----------

  /** The matching entries of the first n items, in input order. */
  function Matching<T>(items: seq<T>, toRow: T -> Row, l: Locale, q: Query, n: nat): (entries: seq<Entry<T>>)
    requires n <= |items|
    ensures forall e <- entries :: e.index < n
  {
    if n == 0 then []
    else
      var row := toRow(items[n - 1]);
      Matching(items, toRow, l, q, n - 1) +
      if CatalogRowMatches(l, row, q) then [Entry(items[n - 1], n - 1, row)] else []
  }

  function Reversed<T>(xs: seq<T>): (r: seq<T>)
    ensures |r| == |xs|
    ensures forall i | 0 <= i < |xs| :: r[i] == xs[|xs| - 1 - i]
  {
    if xs == [] then [] else [xs[|xs| - 1]] + Reversed(xs[..|xs| - 1])
  }

  function Arranged<T>(entries: seq<Entry<T>>, l: Locale, q: Query): seq<Entry<T>> {
    if q.sort.Some? then Sort(entries, Before(l, q.sort.value, q.reverse))
    else if q.reverse then Reversed(entries)
    else entries
  }

  /** `queryCatalog`. */
  method QueryCatalog<T>(items: seq<T>, toRow: T -> Row, l: Locale, q: Query) returns (result: seq<T>)
    ensures var entries := Arranged(Matching(items, toRow, l, q, |items|), l, q);
            |result| == |entries| && forall k | 0 <= k < |result| :: result[k] == entries[k].item
  {
    var entries: seq<Entry<T>> := [];
    for i := 0 to |items|
      invariant entries == Matching(items, toRow, l, q, i)
    {
      var row := toRow(items[i]);
      if CatalogRowMatches(l, row, q) {
        entries := entries + [Entry(items[i], i, row)];
      }
    }
    entries := Arranged(entries, l, q);
    result := seq(|entries|, k requires 0 <= k < |entries| => entries[k].item);
  }

  /** One of the first n items, with its own place and row, that matches. */
  predicate IsMatch<T(==)>(items: seq<T>, toRow: T -> Row, l: Locale, q: Query, n: nat, e: Entry<T>)
    requires n <= |items|
  {
    e.index < n && e.item == items[e.index] && e.row == toRow(e.item) && CatalogRowMatches(l, e.row, q)
  }

  ghost predicate Ascending<T>(entries: seq<Entry<T>>) {
    forall i, j | 0 <= i < j < |entries| :: entries[i].index < entries[j].index
  }

  /** Exactly the matching items, each once, with its own place and row. */
  lemma {:induction false} MatchingIsExact<T>(items: seq<T>, toRow: T -> Row, l: Locale, q: Query, n: nat)
    requires n <= |items|
    ensures Ascending(Matching(items, toRow, l, q, n))
    ensures forall e: Entry<T> :: e in Matching(items, toRow, l, q, n) <==> IsMatch(items, toRow, l, q, n, e)
    decreases n
  {
    if n > 0 {
      MatchingIsExact(items, toRow, l, q, n - 1);
      var front, last := Matching(items, toRow, l, q, n - 1), Entry(items[n - 1], n - 1, toRow(items[n - 1]));
      assert forall e: Entry<T> :: IsMatch(items, toRow, l, q, n, e) <==>
                                   IsMatch(items, toRow, l, q, n - 1, e)
                                   || (e == last && CatalogRowMatches(l, last.row, q));
      if CatalogRowMatches(l, last.row, q) {
        AscendsBy(front, last);
      } else {
        Unsuffixed(front);
      }
    }
  }

  lemma AscendsBy<T>(front: seq<Entry<T>>, last: Entry<T>)
    requires Ascending(front) && forall e <- front :: e.index < last.index
    ensures Ascending(front + [last])
  {
    forall i, j | 0 <= i < j < |front + [last]|
      ensures (front + [last])[i].index < (front + [last])[j].index
    {
      assert (front + [last])[i] == front[i] && front[i] in front;
      if j < |front| {
        assert (front + [last])[j] == front[j];
      } else {
        assert (front + [last])[j] == last;
      }
    }
  }

  lemma {:induction false} OwnPlaces<T(!new)>(items: seq<T>, toRow: T -> Row, l: Locale, q: Query, sort: SortKey,
                                       reverse: bool)
    requires l.Lawful()
    ensures NoTies(Matching(items, toRow, l, q, |items|), Before(l, sort, reverse))
  {
    var entries := Matching(items, toRow, l, q, |items|);
    MatchingIsExact(items, toRow, l, q, |items|);
    var le := Before<T>(l, sort, reverse);
    forall a, b | a in entries && b in entries && le(a, b) && le(b, a)
      ensures a == b
    {
      CompareIsTotalOrder(l, sort, reverse, a, b, a);
    }
  }

  /** Missing elements are at the end. */
  ghost predicate MissingLast<T(!new)>(xs: seq<T>, missing: T -> bool) {
    forall i, j | 0 <= i < j < |xs| :: missing(xs[i]) ==> missing(xs[j])
  }

  function Missing<T>(sort: SortKey): Entry<T> -> bool {
    (e: Entry<T>) => Unknown(sort, e.row)
  }

  lemma SortedHasMissingLast<T(!new)>(xs: seq<T>, missing: T -> bool, le: (T, T) -> bool)
    requires Sorted(xs, le) && forall a, b | le(a, b) && missing(a) :: missing(b)
    ensures MissingLast(xs, missing)
  {
    forall i, j | 0 <= i < j < |xs|
      ensures missing(xs[i]) ==> missing(xs[j])
    {
      assert le(xs[i], xs[j]);
    }
  }

  /** The result has exactly the matching items, sorted by the comparison, unknown values last in either
      direction; and there is only one such arrangement, whatever the sorting algorithm. */
  lemma {:induction false} SortedQuery<T(!new)>(items: seq<T>, toRow: T -> Row, l: Locale, q: Query)
    requires l.Lawful() && q.sort.Some?
    ensures var matching := Matching(items, toRow, l, q, |items|);
            var result := Arranged(matching, l, q);
            var le := Before<T>(l, q.sort.value, q.reverse);
            && multiset(result) == multiset(matching) && Sorted(result, le)
            && (forall other | multiset(other) == multiset(matching) && Sorted(other, le) :: other == result)
            && MissingLast(result, Missing(q.sort.value))
  {
    var matching := Matching(items, toRow, l, q, |items|);
    var le := Before<T>(l, q.sort.value, q.reverse);
    BeforeIsPreorder<T>(l, q.sort.value, q.reverse);
    OwnPlaces(items, toRow, l, q, q.sort.value, q.reverse);
    SortIsCanonical(matching, le);
    SortedHasMissingLast(Sort(matching, le), Missing<T>(q.sort.value), le);
  }

  // ---------- Reversing ----------

  /** No two different entries compare alike but for their places. */
  ghost predicate Distinct<T(!new)>(entries: seq<Entry<T>>, l: Locale, sort: SortKey) {
    forall a, b | a in entries && b in entries && a != b && Unknown(sort, a.row) == Unknown(sort, b.row) ::
      Order(l, sort, a.row, b.row) != 0
  }

  /** How many elements come before the first missing one. */
  function KnownCount<T>(xs: seq<T>, missing: T -> bool): (n: nat)
    ensures n <= |xs|
    ensures forall i | 0 <= i < n :: !missing(xs[i])
    ensures n < |xs| ==> missing(xs[n])
  {
    if xs == [] || missing(xs[0]) then 0 else 1 + KnownCount(xs[1..], missing)
  }

  function BlocksReversed<T>(xs: seq<T>, missing: T -> bool): (r: seq<T>)
    ensures |r| == |xs|
  {
    var n := KnownCount(xs, missing);
    Reversed(xs[..n]) + Reversed(xs[n..])
  }

  lemma {:induction false} ReversedPermutes<T>(xs: seq<T>)
    ensures multiset(Reversed(xs)) == multiset(xs)
    decreases |xs|
  {
    if xs != [] {
      ReversedPermutes(xs[..|xs| - 1]);
      assert xs == xs[..|xs| - 1] + [xs[|xs| - 1]];
    }
  }

  /** Of two distinct entries on the same side, reversing the comparison reverses the pair. */
  lemma ReversedPair<T>(l: Locale, sort: SortKey, a: Entry<T>, b: Entry<T>)
    requires l.Lawful() && Unknown(sort, a.row) == Unknown(sort, b.row)
    requires Order(l, sort, a.row, b.row) != 0
    ensures Compare(l, sort, false, a, b) <= 0 ==> Compare(l, sort, true, b, a) <= 0
  {
    OrdersFlip(l, sort, a.row, b.row);
  }

  /** If the second comparison turns every pair on the same side around, the reversed blocks are sorted by it. */
  lemma BlocksReversedSorted<T(!new)>(xs: seq<T>, missing: T -> bool, rev: (T, T) -> bool)
    requires MissingLast(xs, missing)
    requires forall i, j | 0 <= i < j < |xs| && missing(xs[i]) == missing(xs[j]) :: rev(xs[j], xs[i])
    requires forall a, b | !missing(a) && missing(b) :: rev(a, b)
    ensures Sorted(BlocksReversed(xs, missing), rev)
  {
    var r := BlocksReversed(xs, missing);
    forall i, j | 0 <= i < j < |r|
      ensures rev(r[i], r[j])
    {
      var x := PlaceBefore(xs, missing, i);
      var y := PlaceBefore(xs, missing, j);
      assert missing(xs[x]) == missing(xs[y]) ==> y < x;
    }
  }

  /** Where an element of the reversed blocks comes from. */
  lemma PlaceBefore<T(!new)>(xs: seq<T>, missing: T -> bool, i: nat) returns (x: nat)
    requires MissingLast(xs, missing) && i < |xs|
    ensures var n := KnownCount(xs, missing);
            && x == (if i < n then n - 1 - i else |xs| - 1 - (i - n))
            && BlocksReversed(xs, missing)[i] == xs[x] && (missing(xs[x]) <==> i >= n)
  {
    var n := KnownCount(xs, missing);
    x := if i < n then n - 1 - i else |xs| - 1 - (i - n);
    if i < n {
      assert Reversed(xs[..n])[i] == xs[..n][x];
    } else {
      assert Reversed(xs[n..])[i - n] == xs[n..][x - n];
    }
  }

  /** When no two matching rows tie, the reversed query is the known block reversed, then the unknown block
      reversed. */
  lemma {:induction false} ReversedQuery<T(!new)>(items: seq<T>, toRow: T -> Row, l: Locale, q: Query)
    requires l.Lawful() && q.sort.Some? && !q.reverse
    requires Distinct(Matching(items, toRow, l, q, |items|), l, q.sort.value)
    ensures var reversed := q.(reverse := true);
            Arranged(Matching(items, toRow, l, reversed, |items|), l, reversed) ==
            BlocksReversed(Arranged(Matching(items, toRow, l, q, |items|), l, q), Missing(q.sort.value))
  {
    SameMatching(items, toRow, l, q, |items|);
    var sort := q.sort.value;
    var matching := Matching(items, toRow, l, q, |items|);
    var forward := Sort(matching, Before(l, sort, false));
    SortedQuery(items, toRow, l, q);
    PairsTurn(items, toRow, l, q, forward);
    BlocksReversedSorted(forward, Missing(sort), Before(l, sort, true));
    BlocksPermute(forward, Missing(sort));
    BeforeIsPreorder<T>(l, sort, true);
    OwnPlaces(items, toRow, l, q, sort, true);
    SortIsCanonical(matching, Before(l, sort, true));
  }

  lemma BlocksPermute<T>(xs: seq<T>, missing: T -> bool)
    ensures multiset(BlocksReversed(xs, missing)) == multiset(xs)
  {
    PartsPermute(xs, KnownCount(xs, missing));
  }

  lemma PartsPermute<T>(xs: seq<T>, n: nat)
    requires n <= |xs|
    ensures multiset(Reversed(xs[..n]) + Reversed(xs[n..])) == multiset(xs)
  {
    var a, b := xs[..n], xs[n..];
    ReversedPermutes(a);
    ReversedPermutes(b);
    assert multiset(Reversed(a) + Reversed(b)) == multiset(a + b);
    assert xs == a + b;
  }

  lemma {:induction false} PairsTurn<T(!new)>(items: seq<T>, toRow: T -> Row, l: Locale, q: Query, xs: seq<Entry<T>>)
    requires l.Lawful() && q.sort.Some?
    requires multiset(xs) == multiset(Matching(items, toRow, l, q, |items|))
    requires Distinct(Matching(items, toRow, l, q, |items|), l, q.sort.value)
    requires Sorted(xs, Before(l, q.sort.value, false))
    ensures forall i, j | 0 <= i < j < |xs| && Unknown(q.sort.value, xs[i].row) == Unknown(q.sort.value, xs[j].row) ::
              Before(l, q.sort.value, true)(xs[j], xs[i])
  {
    var matching := Matching(items, toRow, l, q, |items|);
    var le := Before<T>(l, q.sort.value, false);
    SameElements(xs, matching);
    DistinctEntries(items, toRow, l, q, xs);
    forall i, j | 0 <= i < j < |xs| && Unknown(q.sort.value, xs[i].row) == Unknown(q.sort.value, xs[j].row)
      ensures Compare(l, q.sort.value, true, xs[j], xs[i]) <= 0
    {
      assert xs[i] in matching && xs[j] in matching && le(xs[i], xs[j]);
      ReversedPair(l, q.sort.value, xs[i], xs[j]);
    }
  }

  lemma {:induction false} SameMatching<T>(items: seq<T>, toRow: T -> Row, l: Locale, q: Query, n: nat)
    requires n <= |items|
    ensures Matching(items, toRow, l, q.(reverse := true), n) == Matching(items, toRow, l, q, n)
    decreases n
  {
    if n > 0 {
      SameMatching(items, toRow, l, q, n - 1);
    }
  }

  lemma {:induction false} DistinctEntries<T(!new)>(items: seq<T>, toRow: T -> Row, l: Locale, q: Query,
                                             xs: seq<Entry<T>>)
    requires multiset(xs) == multiset(Matching(items, toRow, l, q, |items|))
    ensures forall i, j | 0 <= i < j < |xs| :: xs[i] != xs[j]
  {
    var matching := Matching(items, toRow, l, q, |items|);
    MatchingIsExact(items, toRow, l, q, |items|);
    forall i, j | 0 <= i < j < |xs|
      ensures xs[i] != xs[j]
    {
      if xs[i] == xs[j] {
        TwiceInside(xs, i, j);
        OnceInside(matching, xs[i]);
      }
    }
  }

  lemma {:induction false} OnceInside<T>(entries: seq<Entry<T>>, e: Entry<T>)
    requires Ascending(entries)
    ensures multiset(entries)[e] <= 1
    decreases |entries|
  {
    if entries != [] {
      var front, last := entries[..|entries| - 1], entries[|entries| - 1];
      assert entries == front + [last];
      OnceInside(front, e);
      if e == last {
        assert e !in front;
        assert multiset(front)[e] == 0;
      }
    }
  }
}
