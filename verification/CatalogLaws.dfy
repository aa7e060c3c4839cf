/** Which catalog entries are accepted and what becomes of them, told from the entries themselves. */
module CatalogLaws {
  import opened Options
  import opened Sequences
  import opened JsonValue
  import opened CatalogLayers

  // ---------- Reading an entry ----------

  ghost predicate HasKey(fields: seq<Field>, k: string) {
    exists i | 0 <= i < |fields| :: fields[i].key == k
  }

  /** No later field has the same key. */
  ghost predicate IsLast(fields: seq<Field>, i: int) {
    0 <= i < |fields| && forall j | i < j < |fields| :: fields[j].key != fields[i].key
  }

  /** The record of some fields: their keys, each with the value it has last. */
  ghost predicate Reads(fields: seq<Field>, record: Record) {
    forall k :: ReadsAt(fields, record, k)
  }

  ghost predicate ReadsAt(fields: seq<Field>, record: Record, k: string) {
    && (k in record <==> HasKey(fields, k))
    && (forall i | IsLast(fields, i) && fields[i].key == k :: k in record && record[k] == fields[i].value)
  }

  lemma {:induction false} RecordReads(fields: seq<Field>)
    ensures Reads(fields, RecordOf(fields))
  {
    forall k
      ensures ReadsAt(fields, RecordOf(fields), k)
    {
      RecordReadsAt(fields, k);
    }
  }

  lemma {:induction false} RecordReadsAt(fields: seq<Field>, k: string)
    ensures ReadsAt(fields, RecordOf(fields), k)
    decreases |fields|
  {
    if fields != [] {
      var front, last := fields[..|fields| - 1], fields[|fields| - 1];
      assert fields == front + [last];
      RecordReadsAt(front, k);
      ReadsMore(front, RecordOf(front), last, k);
    }
  }

  lemma ReadsMore(front: seq<Field>, less: Record, last: Field, k: string)
    requires ReadsAt(front, less, k)
    ensures ReadsAt(front + [last], less[last.key := last.value], k)
  {
    var fields, next := front + [last], less[last.key := last.value];
    KeysMore(front, last, k);
    forall i | IsLast(fields, i) && fields[i].key == k
      ensures k in next && next[k] == fields[i].value
    {
      LastMore(front, last, i);
    }
  }

  lemma KeysMore(front: seq<Field>, last: Field, k: string)
    ensures HasKey(front + [last], k) <==> HasKey(front, k) || last.key == k
  {
    var fields := front + [last];
    assert fields[|front|] == last;
    if i :| 0 <= i < |front| && front[i].key == k {
      assert fields[i].key == k;
    }
  }

  lemma LastMore(front: seq<Field>, last: Field, i: int)
    requires IsLast(front + [last], i)
    ensures (front + [last])[i] == if i == |front| then last else if 0 <= i < |front| then front[i] else last
    ensures i < |front| ==> IsLast(front, i) && front[i].key != last.key
  {
    var fields := front + [last];
    if i < |front| {
      assert fields[|front|] == last && fields[|front|].key != fields[i].key;
      assert forall j | i < j < |front| :: fields[j] == front[j];
    }
  }

  /** Only one record reads the fields. */
  lemma {:induction false} RecordIsOne(fields: seq<Field>, record: Record)
    requires Reads(fields, record)
    ensures record == RecordOf(fields)
  {
    var other := RecordOf(fields);
    forall k: string
      ensures (k in record <==> k in other) && (k in record ==> record[k] == other[k])
    {
      assert ReadsAt(fields, record, k);
      RecordReadsAt(fields, k);
      if HasKey(fields, k) {
        var i :| 0 <= i < |fields| && fields[i].key == k;
        var last := LastWith(fields, k, i);
        assert IsLast(fields, last);
      }
    }
  }

  lemma {:induction false} LastWith(fields: seq<Field>, k: string, i: nat) returns (last: nat)
    requires i < |fields| && fields[i].key == k
    ensures last < |fields| && fields[last].key == k
    ensures forall j | last < j < |fields| :: fields[j].key != k
    decreases |fields| - i
  {
    last := i;
    if j :| i < j < |fields| && fields[j].key == k {
      last := LastWith(fields, k, j);
    }
  }

  /** A JSON object with a nonempty string for "modelId" and only fields of the schema. */
  ghost predicate IsWellFormed(schema: Schema, entry: Entry, record: Record, id: string) {
    && entry.data.Object? && Reads(entry.data.fields, record)
    && "modelId" in record && record["modelId"] == String(id) && |id| > 0
    && forall i | 0 <= i < |entry.data.fields| :: entry.data.fields[i].key in schema.keys
  }

  lemma {:induction false} KnownFields(schema: Schema, fields: seq<Field>)
    ensures UnknownNames(schema, fields) == []
       <==> forall i | 0 <= i < |fields| :: fields[i].key in schema.keys
  {
    var names, unknown := FieldNames(fields), UnknownNames(schema, fields);
    if unknown != [] {
      assert unknown[0] in unknown;
      var i :| 0 <= i < |names| && names[i] == unknown[0];
      assert fields[i].key == unknown[0];
    }
    if i :| 0 <= i < |fields| && fields[i].key !in schema.keys {
      assert names[i] == fields[i].key && names[i] in unknown;
    }
  }

  // ---------- The verdict on an entry ----------

  /** A user entry for a built-in model that nothing has touched: it is a spec of its own and pins the same files. */
  ghost predicate StandsAside(schema: Schema, c: Composition, tier: Tier, record: Record, id: string) {
    && tier == FromUser && id in c.models
    && id in c.provenance && c.provenance[id] == Provenance(Qualified, BuiltIn, BuiltIn, None, [])
    && schema.accepts(record) && schema.pinsSameFiles(c.models[id], record)
  }

  /** The entry's fields over those of the model there is. */
  ghost predicate IsMerged(c: Composition, record: Record, id: string, merged: Record) {
    if id !in c.models then merged == record
    else
      && merged.Keys == c.models[id].Keys + record.Keys
      && forall k <- merged :: merged[k] == if k in record then record[k] else c.models[id][k]
  }

  /** What parsing makes of a record, field by field. */
  ghost predicate IsParsed(schema: Schema, merged: Record, spec: Record) {
    && (forall k <- spec :: k in schema.keys)
    && forall k <- schema.keys :: Get(spec, k) == schema.field(k, Get(merged, k))
  }

  lemma ParseExactly(schema: Schema, merged: Record, spec: Record)
    ensures Parse(schema, merged) == Some(spec) <==> schema.accepts(merged) && IsParsed(schema, merged, spec)
  {
    if schema.accepts(merged) {
      var parsed := Parse(schema, merged).value;
      if IsParsed(schema, merged, spec) {
        forall k
          ensures Get(parsed, k) == Get(spec, k)
        {
          if k in schema.keys {
            assert Get(parsed, k) == schema.field(k, Get(merged, k));
          }
        }
        SameByGet(parsed, spec);
      }
    }
  }

  lemma SameByGet(a: Record, b: Record)
    requires forall k :: Get(a, k) == Get(b, k)
    ensures a == b
  {
    forall k
      ensures (k in a <==> k in b) && (k in a ==> a[k] == b[k])
    {
      assert Get(a, k) == Get(b, k);
    }
  }

  /** The verdict on an entry, exactly: `taken` says that an entry before it has the id. */
  lemma JudgedExactly(schema: Schema, c: Composition, tier: Tier, seen: map<string, string>, entry: Entry,
                      record: Record, merged: Record, id: string)
    requires IsWellFormed(schema, entry, record, id) && IsMerged(c, record, id, merged)
    ensures var v := Judge(schema, c, tier, seen, entry);
            var taken := id in seen && seen[id] != "";
            && (v.SetAside? <==> !taken && StandsAside(schema, c, tier, record, id))
            && (v.Applied? <==> !taken && !StandsAside(schema, c, tier, record, id) && schema.accepts(merged))
            && (!v.Rejected? ==> v.id == id)
            && (v.Applied? ==> v.record == record && IsParsed(schema, merged, v.spec))
            && (v.Rejected? ==> v.diagnostic == Diagnostic(tier, entry.path, Some(id),
                                                           if taken then Duplicate(seen[id])
                                                           else Invalid(id in c.models)))
  {
    JudgedSo(schema, c, tier, seen, entry, record, merged, id);
    if schema.accepts(merged) {
      ParseExactly(schema, merged, Parse(schema, merged).value);
    }
  }

  lemma JudgedSo(schema: Schema, c: Composition, tier: Tier, seen: map<string, string>, entry: Entry,
                 record: Record, merged: Record, id: string)
    requires IsWellFormed(schema, entry, record, id) && IsMerged(c, record, id, merged)
    ensures Judge(schema, c, tier, seen, entry) ==
            if id in seen && seen[id] != "" then Rejected(Diagnostic(tier, entry.path, Some(id), Duplicate(seen[id])))
            else if StandsAside(schema, c, tier, record, id) then SetAside(id)
            else if !schema.accepts(merged) then
              Rejected(Diagnostic(tier, entry.path, Some(id), Invalid(id in c.models)))
            else Applied(id, record, Parse(schema, merged).value)
  {
    WellFormedReads(schema, entry, record, id);
    MergedIs(c, record, id, merged);
  }

  lemma WellFormedReads(schema: Schema, entry: Entry, record: Record, id: string)
    requires IsWellFormed(schema, entry, record, id)
    ensures entry.data.Object? && record == RecordOf(entry.data.fields) && UnknownNames(schema, entry.data.fields) == []
  {
    RecordIsOne(entry.data.fields, record);
    KnownFields(schema, entry.data.fields);
  }

  lemma MergedIs(c: Composition, record: Record, id: string, merged: Record)
    requires IsMerged(c, record, id, merged)
    ensures merged == if id in c.models then c.models[id] + record else record
  {
  }

  /** Any other entry is rejected: it is no object, names no model, or has fields that the schema lacks. */
  lemma OthersAreRejected(schema: Schema, c: Composition, tier: Tier, seen: map<string, string>, entry: Entry)
    requires forall record: Record, id: string :: !IsWellFormed(schema, entry, record, id)
    ensures var v := Judge(schema, c, tier, seen, entry);
            && v.Rejected? && v.diagnostic.tier == tier && v.diagnostic.path == entry.path
            && (v.diagnostic.problem == NotAnObject <==> !entry.data.Object?)
            && (v.diagnostic.problem == NoModelId <==>
                  entry.data.Object? && forall record: Record | Reads(entry.data.fields, record) ::
                    Get(record, "modelId").None? || !record["modelId"].String? || record["modelId"].s == "")
  {
    if entry.data.Object? {
      var record := RecordOf(entry.data.fields);
      RecordReads(entry.data.fields);
      KnownFields(schema, entry.data.fields);
      forall other | Reads(entry.data.fields, other)
        ensures other == record
      {
        RecordIsOne(entry.data.fields, other);
      }
      if "modelId" in record && record["modelId"].String? && record["modelId"].s != "" {
        assert !IsWellFormed(schema, entry, record, record["modelId"].s);
      }
    }
  }

  // ---------- Entries of one layer ----------

  /** An entry before the i-th one, with a path, was applied or set aside for the id. */
  ghost predicate IsTaken(verdicts: seq<Verdict>, entries: seq<Entry>, i: nat, id: string)
    requires |verdicts| == |entries| && i <= |entries|
  {
    exists j | 0 <= j < i :: entries[j].path != "" && !verdicts[j].Rejected? && verdicts[j].id == id
  }

  /** What the table of a layer says before its i-th entry. */
  lemma {:induction false} SeenExactly(schema: Schema, c: Composition, tier: Tier, seen: map<string, string>,
                                       entries: seq<Entry>, i: nat, id: string)
    requires i <= |entries|
    ensures var (_, seen') := Before(schema, c, tier, seen, entries, i);
            IsNoted(seen', id) <==>
              IsNoted(seen, id) || IsTaken(Verdicts(schema, c, tier, seen, entries), entries, i, id)
    decreases i
  {
    if i > 0 {
      var v := Judge(schema, c, tier, seen, entries[0]);
      var c', seen' := Absorb(schema, c, tier, entries[0].path, v), Noted(seen, entries[0].path, v);
      SeenExactly(schema, c', tier, seen', entries[1..], i - 1, id);
      SeenFirst(schema, c, tier, seen, entries, i, id, Verdicts(schema, c', tier, seen', entries[1..]));
      assert Before(schema, c, tier, seen, entries, i) == Before(schema, c', tier, seen', entries[1..], i - 1);
    }
  }

  lemma {:induction false} SeenFirst(schema: Schema, c: Composition, tier: Tier, seen: map<string, string>,
                                     entries: seq<Entry>, i: nat, id: string, rest: seq<Verdict>)
    requires 0 < i <= |entries| && |rest| == |entries| - 1
    requires var v := Judge(schema, c, tier, seen, entries[0]);
             rest == Verdicts(schema, Absorb(schema, c, tier, entries[0].path, v), tier,
                              Noted(seen, entries[0].path, v), entries[1..])
    ensures var v := Judge(schema, c, tier, seen, entries[0]);
            (IsNoted(seen, id) || IsTaken(Verdicts(schema, c, tier, seen, entries), entries, i, id)) <==>
            (IsNoted(Noted(seen, entries[0].path, v), id) || IsTaken(rest, entries[1..], i - 1, id))
  {
    var v := Judge(schema, c, tier, seen, entries[0]);
    TakenFirst(v, rest, entries, i, id);
    TakenIsDuplicate(schema, c, tier, seen, entries[0]);
    NotedExactly(seen, entries[0].path, v, id);
  }

  ghost predicate IsNoted(seen: map<string, string>, id: string) {
    id in seen && seen[id] != ""
  }

  lemma NotedExactly(seen: map<string, string>, path: string, v: Verdict, id: string)
    requires !v.Rejected? ==> !IsNoted(seen, v.id)
    ensures IsNoted(Noted(seen, path, v), id)
       <==> IsNoted(seen, id) || (path != "" && !v.Rejected? && v.id == id)
  {
  }

  lemma TakenFirst(v: Verdict, rest: seq<Verdict>, entries: seq<Entry>, i: nat, id: string)
    requires 0 < i <= |entries| && |rest| == |entries| - 1
    ensures IsTaken([v] + rest, entries, i, id) <==>
            (entries[0].path != "" && !v.Rejected? && v.id == id) || IsTaken(rest, entries[1..], i - 1, id)
  {
    var all := [v] + rest;
    assert forall j | 0 < j < i :: all[j] == rest[j - 1] && entries[j] == entries[1..][j - 1];
    if j :| 0 <= j < i - 1 && entries[1..][j].path != "" && !rest[j].Rejected? && rest[j].id == id {
      assert all[j + 1] == rest[j];
    }
  }

  /** An id that is taken is not noted again. */
  lemma TakenIsDuplicate(schema: Schema, c: Composition, tier: Tier, seen: map<string, string>, entry: Entry)
    ensures var v := Judge(schema, c, tier, seen, entry);
            !v.Rejected? ==> !IsNoted(seen, v.id)
  {
  }

  /** The verdict on the i-th entry of a layer, exactly, over the composition before it. */
  lemma {:induction false} VerdictExactly(schema: Schema, c: Composition, tier: Tier, entries: seq<Entry>, i: nat,
                                          record: Record, merged: Record, id: string)
    requires i < |entries| && IsWellFormed(schema, entries[i], record, id)
    requires IsMerged(Before(schema, c, tier, map[], entries, i).0, record, id, merged)
    ensures var verdicts := Verdicts(schema, c, tier, map[], entries);
            var before := Before(schema, c, tier, map[], entries, i).0;
            var free := !IsTaken(verdicts, entries, i, id);
            && (verdicts[i].SetAside? <==> free && StandsAside(schema, before, tier, record, id))
            && (verdicts[i].Applied? <==> free && !StandsAside(schema, before, tier, record, id)
                                          && schema.accepts(merged))
            && (!verdicts[i].Rejected? ==> verdicts[i].id == id)
            && (verdicts[i].Applied? ==> verdicts[i].record == record && IsParsed(schema, merged, verdicts[i].spec))
  {
    var (before, seen) := Before(schema, c, tier, map[], entries, i);
    BeforeSplits(schema, c, tier, map[], entries, i);
    SeenExactly(schema, c, tier, map[], entries, i, id);
    JudgedExactly(schema, before, tier, seen, entries[i], record, merged, id);
  }

  /** An entry that is not well formed is rejected wherever it stands. */
  lemma {:induction false} OtherVerdicts(schema: Schema, c: Composition, tier: Tier, entries: seq<Entry>, i: nat)
    requires i < |entries| && forall record: Record, id: string :: !IsWellFormed(schema, entries[i], record, id)
    ensures Verdicts(schema, c, tier, map[], entries)[i].Rejected?
  {
    var (before, seen) := Before(schema, c, tier, map[], entries, i);
    BeforeSplits(schema, c, tier, map[], entries, i);
    OthersAreRejected(schema, before, tier, seen, entries[i]);
  }

  // ---------- What an applied entry leaves ----------

  /** A field that the entry sets and that parses to another value than before. */
  ghost predicate Changes(schema: Schema, base: Record, record: Record, spec: Record, k: string) {
    k in schema.keys && k in record && !SameValue(Get(base, k), Get(spec, k))
  }

  /** A new model: appended, as its layer's own. */
  lemma NewIsOwn(schema: Schema, c: Composition, tier: Tier, path: string, id: string, record: Record, spec: Record)
    requires id !in c.models
    ensures var next := Absorb(schema, c, tier, path, Applied(id, record, spec));
            && next.order == c.order + [id] && id in next.models && next.models[id] == spec
            && id in next.provenance
            && next.provenance[id]
               == Provenance(if tier == Remote then Community else OwnEntry, tier, tier, Some(path), [])
  {
  }

  /** A patched model: it loses its trust if and only if it had some and a launch-shaped field changes, and the
      changed fields join those patched before. */
  lemma PatchExactly(schema: Schema, c: Composition, tier: Tier, path: string, id: string, record: Record,
                     spec: Record)
    requires id in c.models && id in c.provenance
    ensures var next := Absorb(schema, c, tier, path, Applied(id, record, spec));
            var was := c.provenance[id];
            && next.order == c.order && id in next.models && next.models[id] == spec && id in next.provenance
            && var p := next.provenance[id];
               && p.origin == was.origin && p.tier == tier && p.path == Some(path)
               && (p.trust == (if was.trust in {Qualified, Community}
                                  && exists k <- LAUNCH_SHAPED_FIELDS :: Changes(schema, c.models[id], record, spec, k)
                               then Modified else was.trust))
               && forall k :: k in p.patched <==>
                    k in schema.keys && (k in was.patched || Changes(schema, c.models[id], record, spec, k))
  {
    var changed := Changed(schema, c.models[id], record, spec);
    assert forall k :: k in changed <==> Changes(schema, c.models[id], record, spec, k);
  }

  // ---------- Ranks and feeds ----------

  /** The places of the chosen elements, in order. */
  ghost predicate IsSelection<T(!new)>(xs: seq<T>, p: T -> bool, chosen: seq<T>, places: seq<nat>) {
    && |places| == |chosen|
    && (forall i, j | 0 <= i < j < |places| :: places[i] < places[j])
    && (forall i | 0 <= i < |places| :: places[i] < |xs| && chosen[i] == xs[places[i]])
    && forall k | 0 <= k < |xs| :: p(xs[k]) <==> k in places
  }

  lemma {:induction false} FilterSelects<T(!new)>(xs: seq<T>, p: T -> bool) returns (places: seq<nat>)
    ensures IsSelection(xs, p, Filter(xs, p), places)
    decreases |xs|
  {
    if xs == [] {
      places := [];
    } else {
      var rest := FilterSelects(xs[1..], p);
      places := (if p(xs[0]) then [0] else []) + Shifted(rest);
      SelectionMore(xs, p, Filter(xs[1..], p), rest);
    }
  }

  function Shifted(places: seq<nat>): seq<nat> {
    seq(|places|, i requires 0 <= i < |places| => places[i] + 1)
  }

  lemma ShiftedHas(places: seq<nat>, k: nat)
    ensures k in Shifted(places) <==> k > 0 && k - 1 in places
  {
    if k > 0 && k - 1 in places {
      var i :| 0 <= i < |places| && places[i] == k - 1;
      assert Shifted(places)[i] == k;
    }
  }

  /** A selection from all elements but the first, seen from all of them. */
  lemma ShiftedSelects<T(!new)>(xs: seq<T>, p: T -> bool, chosen: seq<T>, rest: seq<nat>)
    requires xs != [] && IsSelection(xs[1..], p, chosen, rest)
    ensures forall i | 0 <= i < |rest| :: 0 < Shifted(rest)[i] < |xs| && chosen[i] == xs[Shifted(rest)[i]]
    ensures forall k | 0 < k < |xs| :: p(xs[k]) <==> k in Shifted(rest)
    ensures 0 !in Shifted(rest)
    ensures forall i, j | 0 <= i < j < |rest| :: Shifted(rest)[i] < Shifted(rest)[j]
  {
    forall i | 0 <= i < |rest|
      ensures 0 < Shifted(rest)[i] < |xs| && chosen[i] == xs[Shifted(rest)[i]]
    {
      assert xs[1..][rest[i]] == xs[rest[i] + 1];
    }
    forall k | 0 < k < |xs|
      ensures p(xs[k]) <==> k in Shifted(rest)
    {
      ShiftedHas(rest, k);
      assert xs[k] == xs[1..][k - 1];
    }
    ShiftedHas(rest, 0);
  }

  lemma SelectionMore<T(!new)>(xs: seq<T>, p: T -> bool, chosen: seq<T>, rest: seq<nat>)
    requires xs != [] && IsSelection(xs[1..], p, chosen, rest)
    ensures var here := p(xs[0]);
            IsSelection(xs, p, (if here then [xs[0]] else []) + chosen, (if here then [0] else []) + Shifted(rest))
  {
    ShiftedSelects(xs, p, chosen, rest);
    if p(xs[0]) {
      WithFirst(xs, p, chosen, Shifted(rest));
    } else {
      Unprefixed(chosen);
      Unprefixed(Shifted(rest));
      WithoutFirst(xs, p, chosen, Shifted(rest));
    }
  }

  lemma WithoutFirst<T(!new)>(xs: seq<T>, p: T -> bool, chosen: seq<T>, places: seq<nat>)
    requires xs != [] && !p(xs[0]) && |places| == |chosen| && 0 !in places
    requires forall i, j | 0 <= i < j < |places| :: places[i] < places[j]
    requires forall i | 0 <= i < |places| :: 0 < places[i] < |xs| && chosen[i] == xs[places[i]]
    requires forall k | 0 < k < |xs| :: p(xs[k]) <==> k in places
    ensures IsSelection(xs, p, chosen, places)
  {
  }

  lemma WithFirst<T(!new)>(xs: seq<T>, p: T -> bool, chosen: seq<T>, places: seq<nat>)
    requires xs != [] && p(xs[0]) && |places| == |chosen|
    requires forall i, j | 0 <= i < j < |places| :: places[i] < places[j]
    requires forall i | 0 <= i < |places| :: 0 < places[i] < |xs| && chosen[i] == xs[places[i]]
    requires forall k | 0 < k < |xs| :: p(xs[k]) <==> k in places
    ensures IsSelection(xs, p, [xs[0]] + chosen, [0] + places)
  {
    var all, taken := [0] + places, [xs[0]] + chosen;
    forall i | 0 <= i < |all|
      ensures all[i] < |xs| && taken[i] == xs[all[i]]
    {
      assert i > 0 ==> all[i] == places[i - 1] && taken[i] == chosen[i - 1];
    }
    Ascends(places);
    forall k: nat | k < |xs|
      ensures p(xs[k]) <==> k in all
    {
      InFront(places, k);
    }
  }

  lemma InFront(places: seq<nat>, k: nat)
    ensures k in [0] + places <==> k == 0 || k in places
  {
    assert ([0] + places)[0] == 0;
  }

  lemma Ascends(places: seq<nat>)
    requires forall i, j | 0 <= i < j < |places| :: places[i] < places[j]
    requires forall i | 0 <= i < |places| :: 0 < places[i]
    ensures var all := [0] + places; forall i, j | 0 <= i < j < |all| :: all[i] < all[j]
  {
    var all := [0] + places;
    forall i, j | 0 <= i < j < |all|
      ensures all[i] < all[j]
    {
      assert all[j] == places[j - 1];
      assert i > 0 ==> all[i] == places[i - 1];
    }
  }

  /** Layers come in the order remote, then user, and within a tier as given; none is lost or repeated. */
  lemma {:induction false} RankedExactly(layers: seq<Layer>) returns (remote: seq<nat>, user: seq<nat>)
    ensures |Ranked(layers)| == |remote| + |user|
    ensures IsSelection(layers, (l: Layer) => l.tier == Remote, Ranked(layers)[..|remote|], remote)
    ensures IsSelection(layers, (l: Layer) => l.tier == FromUser, Ranked(layers)[|remote|..], user)
  {
    remote := FilterSelects(layers, IsRemote);
    user := FilterSelects(layers, IsUser);
    var first, second := Filter(layers, IsRemote), Filter(layers, IsUser);
    assert Ranked(layers)[..|remote|] == first && Ranked(layers)[|remote|..] == second;
  }

  /** A JSON object whose "modelId" is this text. */
  ghost predicate IsOf(data: Json, id: string) {
    data.Object? && exists record :: Reads(data.fields, record) && Get(record, "modelId") == Some(String(id))
  }

  lemma IdIsRead(data: Json, id: string)
    ensures EntryModelId(data) == Some(id) <==> IsOf(data, id)
  {
    if data.Object? {
      RecordReads(data.fields);
      forall record | Reads(data.fields, record)
        ensures record == RecordOf(data.fields)
      {
        RecordIsOne(data.fields, record);
      }
    }
  }

  ghost predicate IsShipped(data: Json, shipped: set<string>) {
    exists id <- shipped :: id != "" && IsOf(data, id)
  }

  /** The published models at some places, each with its place in its path. */
  ghost predicate IsFeed(url: string, models: seq<Json>, places: seq<nat>, entries: seq<Entry>) {
    && |places| == |entries|
    && forall i | 0 <= i < |places| ::
         && places[i] < |models|
         && entries[i] == Entry(url + "#models[" + Digits(places[i]) + "]", models[places[i]])
  }

  /** `kept` is right about the k-th published model: it is kept unless its id is shipped. */
  ghost predicate KeepsRight(models: seq<Json>, shipped: set<string>, kept: nat -> bool, k: nat) {
    k < |models| ==>
      var id := EntryModelId(models[k]);
      kept(k) <==> !(id.Some? && id.value != "" && id.value in shipped)
  }

  lemma {:induction false} FeedKeeps(url: string, models: seq<Json>, from: nat, shipped: set<string>,
                                     kept: nat -> bool) returns (places: seq<nat>)
    requires from <= |models| && forall k :: KeepsRight(models, shipped, kept, k)
    ensures IsFeed(url, models, places, FeedEntries(url, models, from, shipped))
    ensures forall i, j | 0 <= i < j < |places| :: places[i] < places[j]
    ensures forall k: nat :: k in places <==> from <= k < |models| && kept(k)
    decreases |models| - from
  {
    if from == |models| {
      places := [];
    } else {
      var rest := FeedKeeps(url, models, from + 1, shipped, kept);
      PlacesMore(rest, from, |models|, kept);
      FeedFirst(url, models, from, shipped, kept, rest);
      places := (if kept(from) then [from] else []) + rest;
    }
  }

  lemma PlacesMore(rest: seq<nat>, from: nat, end: nat, kept: nat -> bool)
    requires from < end && forall k: nat :: k in rest <==> from < k < end && kept(k)
    ensures var places := (if kept(from) then [from] else []) + rest;
            forall k: nat :: k in places <==> from <= k < end && kept(k)
  {
  }

  lemma {:induction false} FeedFirst(url: string, models: seq<Json>, from: nat, shipped: set<string>,
                                     kept: nat -> bool, rest: seq<nat>)
    requires from < |models| && KeepsRight(models, shipped, kept, from)
    requires IsFeed(url, models, rest, FeedEntries(url, models, from + 1, shipped))
    requires (forall i, j | 0 <= i < j < |rest| :: rest[i] < rest[j]) && forall k <- rest :: from < k
    ensures var places := (if kept(from) then [from] else []) + rest;
            && IsFeed(url, models, places, FeedEntries(url, models, from, shipped))
            && forall i, j | 0 <= i < j < |places| :: places[i] < places[j]
  {
    var later := FeedEntries(url, models, from + 1, shipped);
    if kept(from) {
      var entry := Entry(url + "#models[" + Digits(from) + "]", models[from]);
      assert FeedEntries(url, models, from, shipped) == [entry] + later;
      FeedMore(url, models, from, rest, entry, later);
    } else {
      Unprefixed(later);
      Unprefixed(rest);
    }
  }

  lemma {:induction false} FeedMore(url: string, models: seq<Json>, from: nat, rest: seq<nat>, entry: Entry,
                                    later: seq<Entry>)
    requires from < |models| && IsFeed(url, models, rest, later)
    requires entry == Entry(url + "#models[" + Digits(from) + "]", models[from])
    requires (forall i, j | 0 <= i < j < |rest| :: rest[i] < rest[j]) && forall k <- rest :: from < k
    ensures IsFeed(url, models, [from] + rest, [entry] + later)
    ensures var all := [from] + rest; forall i, j | 0 <= i < j < |all| :: all[i] < all[j]
  {
    var all := [from] + rest;
    forall i | 0 < i < |all|
      ensures all[i] == rest[i - 1] && ([entry] + later)[i] == later[i - 1] && rest[i - 1] in rest
    {
    }
  }

  /** A feed's layer has every published entry that is under no shipped id, in order and under its place, and no
      other; it is in the remote tier, with nothing reported. */
  lemma {:induction false} FeedLayerExactly(url: string, models: seq<Json>, shipped: set<string>)
    returns (places: seq<nat>)
    ensures var layer := FeedLayer(url, models, shipped);
            layer.tier == Remote && layer.diagnostics == [] && IsFeed(url, models, places, layer.entries)
    ensures forall i, j | 0 <= i < j < |places| :: places[i] < places[j]
    ensures forall k: nat :: k in places <==> k < |models| && !IsShipped(models[k], shipped)
  {
    var kept := KeptPlaces(models, shipped);
    forall k: nat
      ensures KeepsRight(models, shipped, kept, k)
    {
      if k < |models| {
        ShippedIsRead(models[k], shipped);
      }
    }
    places := FeedKeeps(url, models, 0, shipped, kept);
  }

  ghost function KeptPlaces(models: seq<Json>, shipped: set<string>): nat -> bool {
    (k: nat) => k < |models| && !IsShipped(models[k], shipped)
  }

  lemma ShippedIsRead(data: Json, shipped: set<string>)
    ensures var id := EntryModelId(data);
            IsShipped(data, shipped) <==> id.Some? && id.value != "" && id.value in shipped
  {
    forall id: string
      ensures EntryModelId(data) == Some(id) <==> IsOf(data, id)
    {
      IdIsRead(data, id);
    }
  }

  /** The number a text of decimal digits stands for. */
  function ValueOf(digits: string): int {
    if digits == "" then 0 else 10 * ValueOf(digits[..|digits| - 1]) + digits[|digits| - 1] as int - '0' as int
  }

  lemma {:induction false} DigitsReadBack(n: nat)
    ensures ValueOf(Digits(n)) == n && Digits(n) != "" && forall c <- Digits(n) :: '0' <= c <= '9'
    decreases n
  {
    var last := ('0' as int + n % 10) as char;
    if n < 10 {
      assert Digits(n)[..0] == "" && Digits(n)[0] == last;
    } else {
      DigitsReadBack(n / 10);
      assert Digits(n)[..|Digits(n)| - 1] == Digits(n / 10);
    }
  }
}
