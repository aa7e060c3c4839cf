/** What a catalog query shows and in which order, told from rows and texts. */
module QueryLaws {
  import opened Options
  import opened Ordering
  import opened Sequences
  import opened Text
  import opened CatalogQuery

  // ---------- Which rows are shown ----------

  /** From i to j stands a word: no white space in it, and none left out at either end. */
  ghost predicate IsWordAt(s: string, i: int, j: int) {
    && 0 <= i < j <= |s| && (forall k | i <= k < j :: !IsSpace(s[k]))
    && (i > 0 ==> IsSpace(s[i - 1])) && (j < |s| ==> IsSpace(s[j]))
  }

  ghost predicate HasWord(s: string, word: string) {
    exists i, j :: IsWordAt(s, i, j) && word == s[i..j]
  }

  ghost predicate Occurs(s: string, part: string) {
    exists i | 0 <= i <= |s| :: part <= s[i..]
  }

  lemma {:induction false} IncludesExactly(s: string, part: string)
    ensures Includes(s, part) <==> Occurs(s, part)
    decreases |s|
  {
    assert s[0..] == s;
    if s != [] {
      IncludesExactly(s[1..], part);
      assert forall i | 0 <= i <= |s[1..]| :: s[1..][i..] == s[i + 1..];
      if i :| 0 <= i <= |s| && part <= s[i..] {
        assert i > 0 ==> part <= s[1..][i - 1..];
      }
      if i :| 0 <= i <= |s[1..]| && part <= s[1..][i..] {
        assert part <= s[i + 1..];
      }
    }
  }

  lemma {:induction false} WordsExactly(s: string, word: string)
    ensures word in Words(s) <==> HasWord(s, word)
    decreases |s|
  {
    if s == [] {
    } else if IsSpace(s[0]) {
      WordsExactly(s[1..], word);
      WordsBehind(s, 1, word);
    } else {
      var n := WordLength(s);
      FirstWord(s);
      WordsExactly(s[n..], word);
      WordsBehind(s, n, word);
      assert IsWordAt(s, 0, n) && s[0..n] == s[..n];
    }
  }

  lemma {:induction false} FirstWord(s: string)
    ensures var n := WordLength(s);
            (forall k | 0 <= k < n :: !IsSpace(s[k])) && (n < |s| ==> IsSpace(s[n]))
    decreases |s|
  {
    if s != [] && !IsSpace(s[0]) {
      FirstWord(s[1..]);
      assert forall k | 0 < k < WordLength(s) :: s[k] == s[1..][k - 1];
    }
  }

  /** Behind the white space or the word at the front stand the other words. */
  lemma WordsBehind(s: string, n: nat, word: string)
    requires 0 < n <= |s| && (if IsSpace(s[0]) then n == 1 else IsWordAt(s, 0, n))
    ensures HasWord(s, word) <==> HasWord(s[n..], word) || (!IsSpace(s[0]) && word == s[..n])
  {
    if i, j :| IsWordAt(s, i, j) && word == s[i..j] {
      if i == 0 {
        SameEnd(s, n, j);
      } else {
        NotInside(s, n, i, j);
        WordInTail(s, n, i, j);
      }
    }
    if i, j :| IsWordAt(s[n..], i, j) && word == s[n..][i..j] {
      WordOfTail(s, n, i, j);
    }
    if !IsSpace(s[0]) {
      assert s[0..n] == s[..n];
    }
  }

  lemma WordInTail(s: string, n: nat, i: int, j: int)
    requires n <= i && IsWordAt(s, i, j)
    ensures IsWordAt(s[n..], i - n, j - n) && s[n..][i - n..j - n] == s[i..j]
  {
    assert forall k | n <= k < |s| :: s[n..][k - n] == s[k];
  }

  lemma WordOfTail(s: string, n: nat, i: int, j: int)
    requires 0 < n <= |s| && (if IsSpace(s[0]) then n == 1 else IsWordAt(s, 0, n))
    requires IsWordAt(s[n..], i, j)
    ensures IsWordAt(s, i + n, j + n) && s[i + n..j + n] == s[n..][i..j]
  {
    assert forall k | 0 <= k < |s| - n :: s[n..][k] == s[k + n];
    forall k | i + n <= k < j + n
      ensures !IsSpace(s[k])
    {
      assert s[n..][k - n] == s[k];
    }
  }

  lemma SameEnd(s: string, n: nat, j: int)
    requires 0 < n <= |s| && IsWordAt(s, 0, j) && (if IsSpace(s[0]) then n == 1 else IsWordAt(s, 0, n))
    ensures j == n && !IsSpace(s[0])
  {
  }

  lemma NotInside(s: string, n: nat, i: int, j: int)
    requires 0 < n <= |s| && 0 < i && IsWordAt(s, i, j) && (if IsSpace(s[0]) then n == 1 else IsWordAt(s, 0, n))
    ensures n <= i
  {
  }

  /** A row is shown if and only if it passes each filter that is set; every word of the search must occur in its
      id, its name or its texts. */
  lemma RowMatchesExactly(l: Locale, row: Row, q: Query)
    ensures CatalogRowMatches(l, row, q) <==>
            && (q.kinds == [] || exists k <- q.kinds :: row.kind == k)
            && (q.installed == None || q.installed == Some(row.installed))
            && (q.fits == [] || exists f <- q.fits :: row.fit == Some(f))
            && (q.licenses == [] || exists x <- q.licenses :: row.license == Some(x))
            && (forall id <- q.capabilities :: id in row.capabilities)
            && forall word | HasWord(l.lower(q.search), word) ::
                 Occurs(l.lower(Join([row.id, row.name] + row.text, "\n")), word)
  {
    var terms, haystack := Words(l.lower(q.search)), l.lower(Join([row.id, row.name] + row.text, "\n"));
    forall word
      ensures word in terms <==> HasWord(l.lower(q.search), word)
      ensures Includes(haystack, word) <==> Occurs(haystack, word)
    {
      WordsExactly(l.lower(q.search), word);
      IncludesExactly(haystack, word);
    }
  }

  // ---------- In which order ----------

  /** Comes first by the field sorted on: name A to Z, smallest size or memory, best fit and then smallest memory,
      longest context. */
  ghost predicate Earlier(l: Locale, sort: SortKey, a: Row, b: Row) {
    match sort
    case ByName => l.compareBase(a.name, b.name) < 0
    case BySize => a.storageGb < b.storageGb
    case ByMemory => a.memoryGb < b.memoryGb
    case ByFit =>
      || (a.fit == Some(Fits) && b.fit in [Some(Tight), Some(WontFit)])
      || (a.fit == Some(Tight) && b.fit == Some(WontFit))
      || (a.fit.Some? && a.fit == b.fit && a.memoryGb < b.memoryGb)
    case ByContext => a.contextTokens.Some? && b.contextTokens.Some? && b.contextTokens.value < a.contextTokens.value
  }

  /** Has no value in the field sorted on. */
  ghost predicate LacksValue(sort: SortKey, row: Row) {
    || (sort == ByFit && row.fit == None)
    || (sort == ByContext && row.contextTokens == None)
  }

  /** First by the field, then by name, then by id, then by the place in the input; reversing turns all but the
      last around, and rows without a value come last in any case. */
  ghost predicate ComesFirst<T>(l: Locale, sort: SortKey, reverse: bool, a: Entry<T>, b: Entry<T>) {
    if LacksValue(sort, a.row) != LacksValue(sort, b.row) then LacksValue(sort, b.row)
    else
      var (x, y) := if reverse then (b.row, a.row) else (a.row, b.row);
      || Earlier(l, sort, x, y)
      || (!Earlier(l, sort, y, x)
          && (|| l.compare(x.name, y.name) < 0
              || (l.compare(x.name, y.name) == 0
                  && (l.compare(x.id, y.id) < 0 || (l.compare(x.id, y.id) == 0 && a.index < b.index)))))
  }

  lemma FieldExactly(l: Locale, sort: SortKey, a: Row, b: Row)
    requires l.Lawful() && !Unknown(sort, a) && !Unknown(sort, b)
    ensures CompareBy(l, sort, a, b) < 0 <==> Earlier(l, sort, a, b)
    ensures CompareBy(l, sort, a, b) > 0 <==> Earlier(l, sort, b, a)
  {
  }

  lemma ComparesExactly<T>(l: Locale, sort: SortKey, reverse: bool, a: Entry<T>, b: Entry<T>)
    requires l.Lawful() && a.index != b.index
    ensures Compare(l, sort, reverse, a, b) < 0 <==> ComesFirst(l, sort, reverse, a, b)
  {
    assert Unknown(sort, a.row) == LacksValue(sort, a.row) && Unknown(sort, b.row) == LacksValue(sort, b.row);
    if !Unknown(sort, a.row) && !Unknown(sort, b.row) {
      FieldExactly(l, sort, a.row, b.row);
      FieldExactly(l, sort, b.row, a.row);
    }
    assert l.compare(a.row.name, b.row.name) < 0 <==> l.compare(b.row.name, a.row.name) > 0;
    assert l.compare(b.row.name, a.row.name) < 0 <==> l.compare(a.row.name, b.row.name) > 0;
    assert l.compare(a.row.id, b.row.id) < 0 <==> l.compare(b.row.id, a.row.id) > 0;
    assert l.compare(b.row.id, a.row.id) < 0 <==> l.compare(a.row.id, b.row.id) > 0;
  }

  /** A sorted query shows its rows in this order, each pair of them. */
  lemma {:induction false} QueryIsOrdered<T(!new)>(items: seq<T>, toRow: T -> Row, l: Locale, q: Query, i: nat, j: nat)
    requires l.Lawful() && q.sort.Some?
    requires i < j < |Arranged(Matching(items, toRow, l, q, |items|), l, q)|
    ensures var result := Arranged(Matching(items, toRow, l, q, |items|), l, q);
            ComesFirst(l, q.sort.value, q.reverse, result[i], result[j])
  {
    var matching := Matching(items, toRow, l, q, |items|);
    var result := Arranged(matching, l, q);
    SortedQuery(items, toRow, l, q);
    assert Before<T>(l, q.sort.value, q.reverse)(result[i], result[j]);
    PlacesDiffer(items, toRow, l, q, result, i, j);
    CompareFlips(l, q.sort.value, q.reverse, result[i], result[j]);
    ComparesExactly(l, q.sort.value, q.reverse, result[i], result[j]);
  }

  lemma {:induction false} PlacesDiffer<T(!new)>(items: seq<T>, toRow: T -> Row, l: Locale, q: Query,
                                                 result: seq<Entry<T>>, i: nat, j: nat)
    requires i < j < |result|
    requires multiset(result) == multiset(Matching(items, toRow, l, q, |items|))
    ensures result[i].index != result[j].index
  {
    var matching := Matching(items, toRow, l, q, |items|);
    MatchingIsExact(items, toRow, l, q, |items|);
    DistinctEntries(items, toRow, l, q, result);
    assert result[i] in multiset(result) && result[j] in multiset(result);
    assert result[i] in matching && result[j] in matching;
  }

  /** Without a sort key the rows come as the items do, or the other way round. */
  lemma UnsortedQuery<T>(entries: seq<Entry<T>>, l: Locale, q: Query, i: nat)
    requires q.sort == None && i < |entries|
    ensures |Arranged(entries, l, q)| == |entries|
    ensures Arranged(entries, l, q)[i] == entries[if q.reverse then |entries| - 1 - i else i]
  {
  }
}
