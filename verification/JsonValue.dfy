/** JSON values, and the comparison that ignores the order of object keys. */
module JsonValue {
  import opened Options
  import opened Ordering

  datatype Field = Field(key: string, value: Json)

  /** Object fields stand in the order they were written. */
  datatype Json =
    | Null
    | Bool(b: bool)
    | Number(n: real)
    | String(s: string)
    | Array(items: seq<Json>)
    | Object(fields: seq<Field>)

  predicate KeyLe(a: Field, b: Field) {
    StringLe(a.key, b.key)
  }

  /** `canonical`: object keys sorted, at every depth. */
  function Canonical(j: Json): Json {
    match j
    case Array(items) => Array(seq(|items|, i requires 0 <= i < |items| => Canonical(items[i])))
    case Object(fields) => Object(Sort(CanonicalFields(fields), KeyLe))
    case _ => j
  }

  function CanonicalFields(fields: seq<Field>): (r: seq<Field>)
    ensures |r| == |fields|
    ensures forall i | 0 <= i < |r| :: r[i] == Field(fields[i].key, Canonical(fields[i].value))
  {
    seq(|fields|, i requires 0 <= i < |fields| => Field(fields[i].key, Canonical(fields[i].value)))
  }

  /** `sameValue`: equal JSON text of the canonical forms; an absent value is `None`. */
  predicate SameValue(a: Option<Json>, b: Option<Json>) {
    if a.None? || b.None? then a == b else Canonical(a.value) == Canonical(b.value)
  }

  // ---------- What it decides ----------

  /** Objects have no key twice, at any depth. */
  predicate Proper(j: Json) {
    match j
    case Array(items) => forall i | 0 <= i < |items| :: Proper(items[i])
    case Object(fields) =>
      DistinctKeys(fields) && forall i | 0 <= i < |fields| :: Proper(fields[i].value)
    case _ => true
  }

  predicate DistinctKeys(fields: seq<Field>) {
    forall i, j | 0 <= i < j < |fields| :: fields[i].key != fields[j].key
  }

  function Keys(fields: seq<Field>): set<string> {
    set f <- fields :: f.key
  }

  /** Equal up to the order of object keys. */
  ghost predicate Equivalent(a: Json, b: Json) {
    match a
    case Array(items) =>
      && b.Array? && |items| == |b.items|
      && forall i | 0 <= i < |items| :: Equivalent(items[i], b.items[i])
    case Object(fields) =>
      && b.Object? && Keys(fields) == Keys(b.fields)
      && forall i, j | 0 <= i < |fields| && 0 <= j < |b.fields| && fields[i].key == b.fields[j].key ::
           Equivalent(fields[i].value, b.fields[j].value)
    case _ => a == b
  }

  lemma {:induction false} OnceInDistinct(fields: seq<Field>, f: Field)
    requires DistinctKeys(fields)
    ensures multiset(fields)[f] == if f in fields then 1 else 0
    decreases |fields|
  {
    if fields != [] {
      OnceInDistinct(fields[1..], f);
      assert fields == [fields[0]] + fields[1..];
      if f == fields[0] {
        assert f !in fields[1..];
      }
    }
  }

  lemma {:induction false} SortSameFields(a: seq<Field>, b: seq<Field>)
    requires DistinctKeys(a) && DistinctKeys(b) && multiset(a) == multiset(b)
    ensures Sort(a, KeyLe) == Sort(b, KeyLe)
  {
    SortPermutes(a, KeyLe);
    SortPermutes(b, KeyLe);
    KeyLeIsOrder();
    SortSorts(a, KeyLe);
    SortSorts(b, KeyLe);
    KeysBreakTies(a, Sort(a, KeyLe));
    SortedIsUnique(Sort(a, KeyLe), Sort(b, KeyLe), KeyLe);
  }

  lemma KeyLeIsOrder()
    ensures TotalPreorder(KeyLe)
  {
    StringLeIsOrder();
  }

  lemma KeysBreakTies(a: seq<Field>, sorted: seq<Field>)
    requires DistinctKeys(a) && multiset(a) == multiset(sorted)
    ensures NoTies(sorted, KeyLe)
  {
    forall x, y | x in sorted && y in sorted && KeyLe(x, y) && KeyLe(y, x)
      ensures x == y
    {
      StringLeIsAntisymmetric(x.key, y.key);
      assert x in multiset(a) && y in multiset(a);
    }
  }

  ghost predicate SameMembers(a: seq<Field>, b: seq<Field>) {
    forall f :: f in a <==> f in b
  }

  lemma {:induction false} SameMembersSortSame(a: seq<Field>, b: seq<Field>)
    requires DistinctKeys(a) && DistinctKeys(b) && SameMembers(a, b)
    ensures Sort(a, KeyLe) == Sort(b, KeyLe)
  {
    forall f: Field
      ensures multiset(a)[f] == multiset(b)[f]
    {
      OnceInDistinct(a, f);
      OnceInDistinct(b, f);
    }
    assert multiset(a) == multiset(b);
    SortSameFields(a, b);
  }

  lemma {:induction false} SortSameMembers(a: seq<Field>, b: seq<Field>)
    requires Sort(a, KeyLe) == Sort(b, KeyLe)
    ensures SameMembers(a, b)
  {
    SortPermutes(a, KeyLe);
    SortPermutes(b, KeyLe);
    forall f: Field
      ensures f in a <==> f in b
    {
      assert f in a <==> f in multiset(a);
      assert f in b <==> f in multiset(b);
    }
  }

  /** Two values are the same if and only if they are equal up to key order, or both are absent. */
  lemma SameValueExactly(a: Option<Json>, b: Option<Json>)
    requires (a.Some? ==> Proper(a.value)) && (b.Some? ==> Proper(b.value))
    ensures SameValue(a, b) <==>
            (a == None && b == None) || (a.Some? && b.Some? && Equivalent(a.value, b.value))
  {
    if a.Some? && b.Some? {
      SameValueIgnoresKeyOrder(a.value, b.value);
    }
  }

  lemma {:induction false} SameValueIgnoresKeyOrder(a: Json, b: Json)
    requires Proper(a) && Proper(b)
    ensures Canonical(a) == Canonical(b) <==> Equivalent(a, b)
    decreases a
  {
    match a
    case Array(items) =>
      if b.Array? {
        forall i | 0 <= i < |items| && i < |b.items|
          ensures Canonical(items[i]) == Canonical(b.items[i]) <==> Equivalent(items[i], b.items[i])
        {
          SameValueIgnoresKeyOrder(items[i], b.items[i]);
        }
        ArraysAgree(items, b.items);
      }
    case Object(fields) =>
      if b.Object? {
        forall i, j | 0 <= i < |fields| && 0 <= j < |b.fields|
          ensures Canonical(fields[i].value) == Canonical(b.fields[j].value)
             <==> Equivalent(fields[i].value, b.fields[j].value)
        {
          SameValueIgnoresKeyOrder(fields[i].value, b.fields[j].value);
        }
        ObjectsAgree(fields, b.fields);
      }
    case _ =>
  }

  lemma ArraysAgree(a: seq<Json>, b: seq<Json>)
    ensures Canonical(Array(a)) == Canonical(Array(b))
       <==> |a| == |b| && forall i | 0 <= i < |a| :: Canonical(a[i]) == Canonical(b[i])
  {
    var x, y := Canonical(Array(a)).items, Canonical(Array(b)).items;
    assert |x| == |a| && |y| == |b|;
    assert forall i | 0 <= i < |a| :: x[i] == Canonical(a[i]);
    assert forall i | 0 <= i < |b| :: y[i] == Canonical(b[i]);
  }

  ghost predicate FieldsAgree(a: seq<Field>, b: seq<Field>) {
    && Keys(a) == Keys(b)
    && forall i, j | 0 <= i < |a| && 0 <= j < |b| && a[i].key == b[j].key ::
         Canonical(a[i].value) == Canonical(b[j].value)
  }

  lemma {:induction false} SortedAlike(a: seq<Field>, b: seq<Field>)
    requires DistinctKeys(a) && DistinctKeys(b)
    requires Sort(CanonicalFields(a), KeyLe) == Sort(CanonicalFields(b), KeyLe)
    ensures FieldsAgree(a, b)
  {
    var x, y := CanonicalFields(a), CanonicalFields(b);
    SortSameMembers(x, y);
    FieldsWithin(a, b);
    FieldsWithin(b, a);
    forall i, j | 0 <= i < |a| && 0 <= j < |b| && a[i].key == b[j].key
      ensures Canonical(a[i].value) == Canonical(b[j].value)
    {
      assert x[i] in y;
      var k :| 0 <= k < |y| && y[k] == x[i];
      assert k == j;
    }
  }

  lemma {:induction false} ObjectsAgree(a: seq<Field>, b: seq<Field>)
    requires DistinctKeys(a) && DistinctKeys(b)
    ensures Canonical(Object(a)) == Canonical(Object(b)) <==> FieldsAgree(a, b)
  {
    if Sort(CanonicalFields(a), KeyLe) == Sort(CanonicalFields(b), KeyLe) {
      SortedAlike(a, b);
    } else if FieldsAgree(a, b) {
      SameFields(a, b);
      SameFields(b, a);
      SameMembersSortSame(CanonicalFields(a), CanonicalFields(b));
    }
  }

  lemma {:induction false} FieldsWithin(a: seq<Field>, b: seq<Field>)
    requires forall f <- CanonicalFields(a) :: f in CanonicalFields(b)
    ensures Keys(a) <= Keys(b)
  {
    forall f <- a
      ensures f.key in Keys(b)
    {
      var i :| 0 <= i < |a| && a[i] == f;
      assert CanonicalFields(a)[i] in CanonicalFields(b);
      var j :| 0 <= j < |b| && CanonicalFields(b)[j] == CanonicalFields(a)[i];
      assert b[j] in b && b[j].key == f.key;
    }
  }

  lemma {:induction false} SameFields(a: seq<Field>, b: seq<Field>)
    requires Keys(a) <= Keys(b)
    requires forall i, j | 0 <= i < |a| && 0 <= j < |b| && a[i].key == b[j].key ::
               Canonical(a[i].value) == Canonical(b[j].value)
    ensures forall f <- CanonicalFields(a) :: f in CanonicalFields(b)
  {
    forall f <- CanonicalFields(a)
      ensures f in CanonicalFields(b)
    {
      var i :| 0 <= i < |a| && CanonicalFields(a)[i] == f;
      assert a[i] in a && a[i].key in Keys(a);
      var g :| g in b && g.key == a[i].key;
      var j :| 0 <= j < |b| && b[j] == g;
      assert CanonicalFields(b)[j] == f;
    }
  }
}
