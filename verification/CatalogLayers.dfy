/** Composing the model catalog from the built-in entries and the remote and user layers over them. */
module CatalogLayers {
  import opened Options
  import opened Sequences
  import opened JsonValue

  /** The top-level fields of a model spec. */
  type Record = map<string, Json>

  datatype Tier = BuiltIn | Remote | FromUser

  datatype Trust = Qualified | Community | OwnEntry | Modified

  datatype Provenance = Provenance(trust: Trust, origin: Tier, tier: Tier, path: Option<string>, patched: seq<string>)

  const BUILT_IN_PROVENANCE := Provenance(Qualified, BuiltIn, BuiltIn, None, [])

  const LAUNCH_SHAPED_FIELDS: set<string> :=
    {"kind", "source", "repositoryRevision", "artifacts", "llmRuntime", "ttsRuntime", "imageRuntime",
     "imageLaunchOptions", "videoRuntime", "contextWindowTokens"}

  /** What the catalog asks of its schema library: the spec keys in order, which records pass (fields and
      cross-field rules), what parsing makes of each field (a default may fill an absent one), and when a
      complete record pins exactly the files of an entry. */
  datatype Schema = Schema(
    keys: seq<string>,
    accepts: Record -> bool,
    field: (string, Option<Json>) -> Option<Json>,
    pinsSameFiles: (Record, Record) -> bool)

  /** Parsing a parsed value changes nothing. */
  ghost predicate Stable(schema: Schema) {
    forall k, v :: schema.field(k, schema.field(k, v)) == schema.field(k, v)
  }

  function Get(r: Record, key: string): Option<Json> {
    if key in r then Some(r[key]) else None
  }

  /** `safeParse`. */
  function Parse(schema: Schema, r: Record): Option<Record> {
    if schema.accepts(r) then
      Some(map k | k in schema.keys && schema.field(k, Get(r, k)).Some? :: schema.field(k, Get(r, k)).value)
    else None
  }

  datatype Problem =
    | NotAnObject
    | NoModelId
    | UnknownFields(names: seq<string>)
    | Duplicate(earlier: string)
    | Invalid(patch: bool)
    | Unreadable(message: string)

  datatype Diagnostic = Diagnostic(tier: Tier, path: string, modelId: Option<string>, problem: Problem)

  datatype Entry = Entry(path: string, data: Json)

  datatype Layer = Layer(tier: Tier, entries: seq<Entry>, diagnostics: seq<Diagnostic>)

  /** A map with its insertion order, the provenance beside it, and what was reported. */
  datatype Composition = Composition(
    order: seq<string>, models: map<string, Record>, provenance: map<string, Provenance>,
    diagnostics: seq<Diagnostic>)

  datatype Model = Model(id: string, spec: Record)

  // ---------- One entry ----------

  datatype Verdict =
    | Rejected(diagnostic: Diagnostic)
    | SetAside(id: string)
    | Applied(id: string, record: Record, spec: Record)

  /** The last value of a key wins. */
  function RecordOf(fields: seq<Field>): Record {
    if fields == [] then map[]
    else RecordOf(fields[..|fields| - 1])[fields[|fields| - 1].key := fields[|fields| - 1].value]
  }

  function FieldNames(fields: seq<Field>): seq<string> {
    seq(|fields|, i requires 0 <= i < |fields| => fields[i].key)
  }

  function Filter<T(!new)>(xs: seq<T>, p: T -> bool): (ys: seq<T>)
    ensures forall x :: x in ys <==> x in xs && p(x)
  {
    if xs == [] then [] else (if p(xs[0]) then [xs[0]] else []) + Filter(xs[1..], p)
  }

  function UnknownNames(schema: Schema, fields: seq<Field>): seq<string> {
    Filter(FieldNames(fields), (k: string) => k !in schema.keys)
  }

  /** The record stands on its own as a spec, and its files are those of the built-in entry. */
  predicate Superseded(schema: Schema, base: Record, record: Record) {
    schema.accepts(record) && schema.pinsSameFiles(base, record)
  }

  function Judge(schema: Schema, c: Composition, tier: Tier, seen: map<string, string>, entry: Entry): Verdict {
    if !entry.data.Object? then
      Rejected(Diagnostic(tier, entry.path, None, NotAnObject))
    else
      var record := RecordOf(entry.data.fields);
      if "modelId" !in record || !record["modelId"].String? || record["modelId"].s == "" then
        Rejected(Diagnostic(tier, entry.path, None, NoModelId))
      else
        var id := record["modelId"].s;
        var unknown := UnknownNames(schema, entry.data.fields);
        if unknown != [] then
          Rejected(Diagnostic(tier, entry.path, Some(id), UnknownFields(unknown)))
        else if id in seen && seen[id] != "" then
          Rejected(Diagnostic(tier, entry.path, Some(id), Duplicate(seen[id])))
        else if id in c.models && tier.FromUser? && id in c.provenance
                && c.provenance[id] == BUILT_IN_PROVENANCE && Superseded(schema, c.models[id], record) then
          SetAside(id)
        else
          var parsed := Parse(schema, if id in c.models then c.models[id] + record else record);
          if parsed.None? then
            Rejected(Diagnostic(tier, entry.path, Some(id), Invalid(id in c.models)))
          else
            Applied(id, record, parsed.value)
  }

  function Changed(schema: Schema, base: Record, record: Record, spec: Record): seq<string> {
    Filter(schema.keys, (k: string) => k in record && !SameValue(Get(base, k), Get(spec, k)))
  }

  function NewProvenance(tier: Tier, path: string): Provenance {
    Provenance(if tier.Remote? then Community else OwnEntry, tier, tier, Some(path), [])
  }

  function PatchedProvenance(schema: Schema, previous: Provenance, tier: Tier, path: string, changed: seq<string>)
    : Provenance
  {
    var launchShaped := exists k <- changed :: k in LAUNCH_SHAPED_FIELDS;
    Provenance(
      if launchShaped && (previous.trust.Qualified? || previous.trust.Community?) then Modified
      else previous.trust,
      previous.origin, tier, Some(path),
      Filter(schema.keys, (k: string) => k in changed || k in previous.patched))
  }

  function Put(c: Composition, id: string, spec: Record, provenance: Provenance): Composition {
    c.(order := if id in c.models then c.order else c.order + [id],
       models := c.models[id := spec],
       provenance := c.provenance[id := provenance])
  }

  function Absorb(schema: Schema, c: Composition, tier: Tier, path: string, v: Verdict): Composition {
    match v
    case Rejected(d) => c.(diagnostics := c.diagnostics + [d])
    case SetAside(_) => c
    case Applied(id, record, spec) =>
      if id !in c.models then Put(c, id, spec, NewProvenance(tier, path))
      else
        var previous := if id in c.provenance then c.provenance[id] else BUILT_IN_PROVENANCE;
        Put(c, id, spec,
            PatchedProvenance(schema, previous, tier, path, Changed(schema, c.models[id], record, spec)))
  }

  function Noted(seen: map<string, string>, path: string, v: Verdict): map<string, string> {
    if v.Rejected? then seen else seen[v.id := path]
  }

  // ---------- Layers ----------

  function AbsorbEntries(schema: Schema, c: Composition, tier: Tier, seen: map<string, string>,
                         entries: seq<Entry>): Composition
    decreases |entries|
  {
    if entries == [] then c
    else
      var v := Judge(schema, c, tier, seen, entries[0]);
      AbsorbEntries(schema, Absorb(schema, c, tier, entries[0].path, v), tier,
                    Noted(seen, entries[0].path, v), entries[1..])
  }

  function AbsorbLayer(schema: Schema, c: Composition, layer: Layer): Composition {
    AbsorbEntries(schema, c.(diagnostics := c.diagnostics + layer.diagnostics), layer.tier, map[], layer.entries)
  }

  function AbsorbLayers(schema: Schema, c: Composition, layers: seq<Layer>): Composition
    decreases |layers|
  {
    if layers == [] then c else AbsorbLayers(schema, AbsorbLayer(schema, c, layers[0]), layers[1..])
  }

  /** Remote layers first, then user layers, each in the order given. */
  function Ranked(layers: seq<Layer>): seq<Layer> {
    Filter(layers, IsRemote) + Filter(layers, IsUser)
  }

  predicate IsRemote(l: Layer) {
    l.tier.Remote?
  }

  predicate IsUser(l: Layer) {
    l.tier.FromUser?
  }

  function Ids(models: seq<Model>): seq<string> {
    seq(|models|, i requires 0 <= i < |models| => models[i].id)
  }

  ghost predicate DistinctIds(models: seq<Model>) {
    forall i, j | 0 <= i < j < |models| :: models[i].id != models[j].id
  }

  function Base(builtIn: seq<Model>): Composition {
    if builtIn == [] then Composition([], map[], map[], [])
    else
      var last := |builtIn| - 1;
      Put(Base(builtIn[..last]), builtIn[last].id, builtIn[last].spec, BUILT_IN_PROVENANCE)
  }

  function Composed(schema: Schema, builtIn: seq<Model>, layers: seq<Layer>): Composition {
    AbsorbLayers(schema, Base(builtIn), Ranked(layers))
  }

  method BuiltInMap(builtIn: seq<Model>) returns (c: Composition)
    ensures c == Base(builtIn)
  {
    c := Composition([], map[], map[], []);
    for i := 0 to |builtIn|
      invariant c == Base(builtIn[..i])
    {
      assert builtIn[..i + 1][..i] == builtIn[..i];
      c := Put(c, builtIn[i].id, builtIn[i].spec, BUILT_IN_PROVENANCE);
    }
    assert builtIn[..|builtIn|] == builtIn;
  }

  /** `composeCatalog`. */
  method ComposeCatalog(schema: Schema, builtIn: seq<Model>, layers: seq<Layer>) returns (c: Composition)
    ensures c == Composed(schema, builtIn, layers)
  {
    c := BuiltInMap(builtIn);
    var order := Ranked(layers);
    ghost var base := c;
    for i := 0 to |order|
      invariant AbsorbLayers(schema, base, order) == AbsorbLayers(schema, c, order[i..])
    {
      assert order[i..][1..] == order[i + 1..];
      c := ComposeLayer(schema, c, order[i]);
    }
  }

  /** The loop over the entries of one layer, with its table of ids seen. */
  method ComposeLayer(schema: Schema, start: Composition, layer: Layer) returns (c: Composition)
    ensures c == AbsorbLayer(schema, start, layer)
  {
    c := start.(diagnostics := start.diagnostics + layer.diagnostics);
    var seen: map<string, string> := map[];
    for i := 0 to |layer.entries|
      invariant AbsorbLayer(schema, start, layer)
             == AbsorbEntries(schema, c, layer.tier, seen, layer.entries[i..])
    {
      var entry := layer.entries[i];
      assert layer.entries[i..][1..] == layer.entries[i + 1..];
      var verdict := Judge(schema, c, layer.tier, seen, entry);
      c := Absorb(schema, c, layer.tier, entry.path, verdict);
      seen := Noted(seen, entry.path, verdict);
    }
  }

  // ---------- The invariant ----------

  /** A spec as parsing leaves it. */
  ghost predicate Fixed(schema: Schema, r: Record) {
    && (forall k <- r :: k in schema.keys)
    && (forall k <- schema.keys :: schema.field(k, Get(r, k)) == Get(r, k))
  }

  lemma ParsedIsFixed(schema: Schema, r: Record)
    requires Stable(schema) && schema.accepts(r)
    ensures Fixed(schema, Parse(schema, r).value)
    ensures forall k <- schema.keys :: Get(Parse(schema, r).value, k) == schema.field(k, Get(r, k))
  {
  }

  /** Where the fields of an entry that no layer changed come from: the built-in spec, or the parsed data
      of the entry that brought the model in. */
  ghost predicate IsOrigin(schema: Schema, builtIn: seq<Model>, layers: seq<Layer>, id: string, tier: Tier, o: Record) {
    if tier.BuiltIn? then Model(id, o) in builtIn
    else
      exists layer <- layers, e <- layer.entries ::
        && layer.tier == tier && e.data.Object?
        && Get(RecordOf(e.data.fields), "modelId") == Some(String(id))
        && Parse(schema, RecordOf(e.data.fields)) == Some(o)
  }

  /** What a composed entry owes to its origin. */
  ghost predicate Owes(o: Record, spec: Record, p: Provenance) {
    && (p.trust.Qualified? <==> p.origin.BuiltIn? && p.trust != Modified)
    && (p.trust.Qualified? || p.trust.Community? ==>
          forall k <- LAUNCH_SHAPED_FIELDS :: SameValue(Get(o, k), Get(spec, k)))
    && (forall k | k !in p.patched :: SameValue(Get(o, k), Get(spec, k)))
  }

  ghost predicate Sound(schema: Schema, builtIn: seq<Model>, layers: seq<Layer>, id: string, o: Record,
                        spec: Record, p: Provenance) {
    && Fixed(schema, spec) && Fixed(schema, o)
    && IsOrigin(schema, builtIn, layers, id, p.origin, o)
    && Owes(o, spec, p)
  }

  /** The same as a function of one entry, for any composition over these layers. */
  ghost function SoundIn(schema: Schema, builtIn: seq<Model>, layers: seq<Layer>)
    : (string, Record, Record, Provenance) -> bool
  {
    (id, o, spec, p) => Sound(schema, builtIn, layers, id, o, spec, p)
  }

  /** Models and provenance share one key set, in an insertion order without repetition. */
  ghost predicate Shaped(c: Composition) {
    && c.models.Keys == c.provenance.Keys
    && (forall i, j | 0 <= i < j < |c.order| :: c.order[i] != c.order[j])
    && (forall id :: id in c.order <==> id in c.models)
  }

  ghost predicate Inv(schema: Schema, builtIn: seq<Model>, layers: seq<Layer>, origins: map<string, Record>,
                      c: Composition) {
    && Shaped(c)
    && origins.Keys == c.models.Keys
    && Ids(builtIn) <= c.order
    && AllSound(SoundIn(schema, builtIn, layers), origins, c)
    && (forall id <- Ids(builtIn) :: id in c.provenance && c.provenance[id].origin.BuiltIn?)
  }

  ghost predicate AllSound(sound: (string, Record, Record, Provenance) -> bool, origins: map<string, Record>,
                           c: Composition)
    requires origins.Keys == c.models.Keys == c.provenance.Keys
  {
    forall id <- c.models :: sound(id, origins[id], c.models[id], c.provenance[id])
  }

  lemma PutKeepsSound(sound: (string, Record, Record, Provenance) -> bool, origins: map<string, Record>,
                      c: Composition, id: string, o: Record, spec: Record, p: Provenance)
    requires origins.Keys == c.models.Keys == c.provenance.Keys
    requires AllSound(sound, origins, c) && sound(id, o, spec, p)
    requires id in origins ==> o == origins[id]
    ensures origins[id := o].Keys == Put(c, id, spec, p).models.Keys == Put(c, id, spec, p).provenance.Keys
    ensures AllSound(sound, origins[id := o], Put(c, id, spec, p))
  {
  }

  /** Every built-in spec went through the schema when the binary was built. */
  ghost predicate BuiltInParsed(schema: Schema, builtIn: seq<Model>) {
    DistinctIds(builtIn) && forall m <- builtIn :: Fixed(schema, m.spec)
  }

  lemma {:induction false} BaseHasBuiltIn(builtIn: seq<Model>)
    requires DistinctIds(builtIn)
    ensures var c := Base(builtIn);
            && c.order == Ids(builtIn) && c.diagnostics == []
            && c.models.Keys == c.provenance.Keys
            && (forall id :: id in c.order <==> id in c.models)
            && (forall id <- c.models :: Model(id, c.models[id]) in builtIn)
            && (forall id <- c.provenance :: c.provenance[id] == BUILT_IN_PROVENANCE)
    decreases |builtIn|
  {
    if builtIn != [] {
      var last := |builtIn| - 1;
      var rest := builtIn[..last];
      BaseHasBuiltIn(rest);
      assert builtIn == rest + [builtIn[last]];
      IdsOfMore(rest, builtIn[last]);
    }
  }

  lemma IdsOfMore(models: seq<Model>, m: Model)
    requires DistinctIds(models + [m])
    ensures m.id !in Ids(models) && Ids(models + [m]) == Ids(models) + [m.id] && DistinctIds(models)
  {
    assert forall i | 0 <= i < |models| :: (models + [m])[i] == models[i];
    assert (models + [m])[|models|] == m;
  }

  lemma {:induction false} BaseKeepsInv(schema: Schema, builtIn: seq<Model>, layers: seq<Layer>)
    requires BuiltInParsed(schema, builtIn)
    ensures Inv(schema, builtIn, layers, Base(builtIn).models, Base(builtIn))
  {
    BaseHasBuiltIn(builtIn);
    var c := Base(builtIn);
    forall id <- c.models
      ensures SoundIn(schema, builtIn, layers)(id, c.models[id], c.models[id], c.provenance[id])
    {
      BuiltInIsSound(schema, builtIn, layers, Model(id, c.models[id]));
    }
    IdsDiffer(builtIn);
  }

  lemma BuiltInIsSound(schema: Schema, builtIn: seq<Model>, layers: seq<Layer>, m: Model)
    requires m in builtIn && Fixed(schema, m.spec)
    ensures SoundIn(schema, builtIn, layers)(m.id, m.spec, m.spec, BUILT_IN_PROVENANCE)
  {
  }

  lemma IdsDiffer(models: seq<Model>)
    requires DistinctIds(models)
    ensures forall i, j | 0 <= i < j < |Ids(models)| :: Ids(models)[i] != Ids(models)[j]
  {
  }

  lemma SameValueIsEquality(a: Option<Json>, b: Option<Json>, c: Option<Json>)
    ensures SameValue(a, a)
    ensures SameValue(a, b) && SameValue(b, c) ==> SameValue(a, c)
  {
  }

  /** A patch keeps every field it does not set. */
  lemma PatchKeepsField(schema: Schema, base: Record, record: Record, k: string)
    requires Fixed(schema, base) && schema.accepts(base + record)
    requires k !in record
    ensures Get(Parse(schema, base + record).value, k) == Get(base, k)
  {
    assert Get(base + record, k) == Get(base, k);
  }

  /** What a patch leaves owed: the fields it changed are recorded, and a change of a launch-shaped field
      costs the trust. */
  lemma PatchOwes(schema: Schema, o: Record, base: Record, record: Record, previous: Provenance, tier: Tier,
                  path: string)
    requires Stable(schema) && Fixed(schema, base) && Fixed(schema, o) && schema.accepts(base + record)
    requires forall k <- record :: k in schema.keys
    requires Owes(o, base, previous)
    ensures var spec := Parse(schema, base + record).value;
            Owes(o, spec, PatchedProvenance(schema, previous, tier, path, Changed(schema, base, record, spec)))
  {
    var spec := Parse(schema, base + record).value;
    var changed := Changed(schema, base, record, spec);
    var p := PatchedProvenance(schema, previous, tier, path, changed);
    ParsedIsFixed(schema, base + record);
    forall k | k !in changed
      ensures SameValue(Get(base, k), Get(spec, k))
    {
      if k !in record {
        PatchKeepsField(schema, base, record, k);
      }
    }
    if p.trust.Qualified? || p.trust.Community? {
      forall k <- LAUNCH_SHAPED_FIELDS
        ensures SameValue(Get(o, k), Get(spec, k))
      {
        SameValueIsEquality(Get(o, k), Get(base, k), Get(spec, k));
      }
    }
    forall k | k !in p.patched
      ensures SameValue(Get(o, k), Get(spec, k))
    {
      if k in schema.keys {
        SameValueIsEquality(Get(o, k), Get(base, k), Get(spec, k));
      }
    }
  }

  lemma {:induction false} RecordHasNames(fields: seq<Field>)
    ensures RecordOf(fields).Keys == (set k <- FieldNames(fields))
    decreases |fields|
  {
    if fields != [] {
      var last := |fields| - 1;
      RecordHasNames(fields[..last]);
      assert FieldNames(fields) == FieldNames(fields[..last]) + [fields[last].key];
    }
  }

  lemma AppliedIsParsed(schema: Schema, c: Composition, tier: Tier, seen: map<string, string>, entry: Entry)
    requires Judge(schema, c, tier, seen, entry).Applied?
    ensures var v := Judge(schema, c, tier, seen, entry);
            && entry.data.Object? && v.record == RecordOf(entry.data.fields)
            && Get(v.record, "modelId") == Some(String(v.id))
            && (forall k <- v.record :: k in schema.keys)
            && (v.id in seen ==> seen[v.id] == "")
            && Parse(schema, if v.id in c.models then c.models[v.id] + v.record else v.record) == Some(v.spec)
  {
    var fields := entry.data.fields;
    RecordHasNames(fields);
    forall k <- RecordOf(fields)
      ensures k in schema.keys
    {
      assert k !in UnknownNames(schema, fields);
    }
  }

  lemma PutKeepsShape(c: Composition, id: string, spec: Record, p: Provenance)
    requires Shaped(c)
    ensures Shaped(Put(c, id, spec, p)) && c.order <= Put(c, id, spec, p).order
  {
  }

  lemma PutKeepsBuiltIn(ids: seq<string>, c: Composition, id: string, spec: Record, p: Provenance)
    requires Shaped(c) && ids <= c.order
    requires forall i <- ids :: i in c.provenance && c.provenance[i].origin.BuiltIn?
    requires id in c.models ==> p.origin == c.provenance[id].origin
    ensures var next := Put(c, id, spec, p);
            ids <= next.order && forall i <- ids :: i in next.provenance && next.provenance[i].origin.BuiltIn?
  {
    assert forall i <- ids :: i in c.order;
  }

  lemma PutKeepsInv(schema: Schema, builtIn: seq<Model>, layers: seq<Layer>, origins: map<string, Record>,
                    c: Composition, id: string, o: Record, spec: Record, p: Provenance)
    requires Inv(schema, builtIn, layers, origins, c)
    requires SoundIn(schema, builtIn, layers)(id, o, spec, p)
    requires id in c.models ==> o == origins[id] && p.origin == c.provenance[id].origin
    ensures Inv(schema, builtIn, layers, origins[id := o], Put(c, id, spec, p))
  {
    PutKeepsShape(c, id, spec, p);
    PutKeepsBuiltIn(Ids(builtIn), c, id, spec, p);
    PutKeepsSound(SoundIn(schema, builtIn, layers), origins, c, id, o, spec, p);
  }

  lemma PatchIsSound(schema: Schema, builtIn: seq<Model>, layers: seq<Layer>, o: Record, base: Record, id: string,
                     record: Record, previous: Provenance, tier: Tier, path: string)
    requires Stable(schema) && schema.accepts(base + record) && forall k <- record :: k in schema.keys
    requires SoundIn(schema, builtIn, layers)(id, o, base, previous)
    ensures var spec := Parse(schema, base + record).value;
            var p := PatchedProvenance(schema, previous, tier, path, Changed(schema, base, record, spec));
            SoundIn(schema, builtIn, layers)(id, o, spec, p)
  {
    ParsedIsFixed(schema, base + record);
    PatchOwes(schema, o, base, record, previous, tier, path);
  }

  lemma AddIsSound(schema: Schema, builtIn: seq<Model>, layers: seq<Layer>, layer: Layer, entry: Entry, id: string)
    requires Stable(schema) && layer in layers && entry in layer.entries && !layer.tier.BuiltIn?
    requires entry.data.Object? && Get(RecordOf(entry.data.fields), "modelId") == Some(String(id))
    requires schema.accepts(RecordOf(entry.data.fields))
    ensures var spec := Parse(schema, RecordOf(entry.data.fields)).value;
            SoundIn(schema, builtIn, layers)(id, spec, spec, NewProvenance(layer.tier, entry.path))
  {
    ParsedIsFixed(schema, RecordOf(entry.data.fields));
    assert IsOrigin(schema, builtIn, layers, id, layer.tier,
                    Parse(schema, RecordOf(entry.data.fields)).value);
  }

  /** One entry keeps the invariant; a model it brings in is its own origin. */
  lemma EntryKeepsInv(schema: Schema, builtIn: seq<Model>, layers: seq<Layer>, origins: map<string, Record>,
                      c: Composition, layer: Layer, seen: map<string, string>, entry: Entry)
    returns (next: map<string, Record>)
    requires Stable(schema) && Inv(schema, builtIn, layers, origins, c)
    requires layer in layers && entry in layer.entries && !layer.tier.BuiltIn?
    ensures var v := Judge(schema, c, layer.tier, seen, entry);
            Inv(schema, builtIn, layers, next, Absorb(schema, c, layer.tier, entry.path, v))
  {
    var v := Judge(schema, c, layer.tier, seen, entry);
    next := origins;
    if v.Applied? {
      AppliedIsParsed(schema, c, layer.tier, seen, entry);
      var p := Absorb(schema, c, layer.tier, entry.path, v).provenance[v.id];
      if v.id in c.models {
        PatchIsSound(schema, builtIn, layers, origins[v.id], c.models[v.id], v.id, v.record,
                     c.provenance[v.id], layer.tier, entry.path);
        next := origins[v.id := origins[v.id]];
      } else {
        AddIsSound(schema, builtIn, layers, layer, entry, v.id);
        next := origins[v.id := v.spec];
      }
      PutKeepsInv(schema, builtIn, layers, origins, c, v.id, next[v.id], v.spec, p);
    }
  }

  lemma {:induction false} EntriesKeepInv(schema: Schema, builtIn: seq<Model>, layers: seq<Layer>,
                                          origins: map<string, Record>, c: Composition, layer: Layer,
                                          seen: map<string, string>, entries: seq<Entry>)
    returns (next: map<string, Record>)
    requires Stable(schema) && Inv(schema, builtIn, layers, origins, c)
    requires layer in layers && !layer.tier.BuiltIn? && forall e <- entries :: e in layer.entries
    ensures Inv(schema, builtIn, layers, next, AbsorbEntries(schema, c, layer.tier, seen, entries))
    decreases |entries|
  {
    next := origins;
    if entries != [] {
      var v := Judge(schema, c, layer.tier, seen, entries[0]);
      assert entries[0] in entries;
      next := EntryKeepsInv(schema, builtIn, layers, origins, c, layer, seen, entries[0]);
      next := EntriesKeepInv(schema, builtIn, layers, next, Absorb(schema, c, layer.tier, entries[0].path, v),
                             layer, Noted(seen, entries[0].path, v), entries[1..]);
    }
  }

  lemma {:induction false} LayersKeepInv(schema: Schema, builtIn: seq<Model>, layers: seq<Layer>,
                                         origins: map<string, Record>, c: Composition, rest: seq<Layer>)
    returns (next: map<string, Record>)
    requires Stable(schema) && Inv(schema, builtIn, layers, origins, c)
    requires forall l <- rest :: l in layers && !l.tier.BuiltIn?
    ensures Inv(schema, builtIn, layers, next, AbsorbLayers(schema, c, rest))
    decreases |rest|
  {
    next := origins;
    if rest != [] {
      assert rest[0] in rest;
      next := EntriesKeepInv(schema, builtIn, layers, origins,
                             c.(diagnostics := c.diagnostics + rest[0].diagnostics), rest[0], map[],
                             rest[0].entries);
      next := LayersKeepInv(schema, builtIn, layers, next, AbsorbLayer(schema, c, rest[0]), rest[1..]);
    }
  }

  lemma ComposedKeepsInv(schema: Schema, builtIn: seq<Model>, layers: seq<Layer>)
    returns (origins: map<string, Record>)
    requires Stable(schema) && BuiltInParsed(schema, builtIn)
    ensures Inv(schema, builtIn, layers, origins, Composed(schema, builtIn, layers))
  {
    BaseKeepsInv(schema, builtIn, layers);
    origins := LayersKeepInv(schema, builtIn, layers, Base(builtIn).models, Base(builtIn), Ranked(layers));
  }

  // ---------- What composition guarantees ----------

  /** Models and provenance share one key set, in an order that starts with the built-in ids. */
  lemma ComposedShape(schema: Schema, builtIn: seq<Model>, layers: seq<Layer>)
    requires Stable(schema) && BuiltInParsed(schema, builtIn)
    ensures var c := Composed(schema, builtIn, layers);
            && c.models.Keys == c.provenance.Keys == (set id <- c.order)
            && (forall i, j | 0 <= i < j < |c.order| :: c.order[i] != c.order[j])
            && Ids(builtIn) <= c.order
  {
    var _ := ComposedKeepsInv(schema, builtIn, layers);
  }

  /** An entry still trusted as qualified is a built-in one that launches exactly what the binary ships;
      and in every entry, a field that is not recorded as patched has its origin's value. */
  lemma TrustIsSound(schema: Schema, builtIn: seq<Model>, layers: seq<Layer>, id: string) returns (origin: Record)
    requires Stable(schema) && BuiltInParsed(schema, builtIn)
    requires id in Composed(schema, builtIn, layers).models
    ensures var c := Composed(schema, builtIn, layers);
            && id in c.provenance
            && IsOrigin(schema, builtIn, layers, id, c.provenance[id].origin, origin)
            && (c.provenance[id].trust.Qualified? ==>
                  && Model(id, origin) in builtIn
                  && forall k <- LAUNCH_SHAPED_FIELDS :: SameValue(Get(origin, k), Get(c.models[id], k)))
            && (forall k | k !in c.provenance[id].patched :: SameValue(Get(origin, k), Get(c.models[id], k)))
  {
    var origins := ComposedKeepsInv(schema, builtIn, layers);
    origin := origins[id];
  }

  // ---------- Nothing is lost without a word ----------

  function Verdicts(schema: Schema, c: Composition, tier: Tier, seen: map<string, string>, entries: seq<Entry>)
    : (verdicts: seq<Verdict>)
    ensures |verdicts| == |entries|
    decreases |entries|
  {
    if entries == [] then []
    else
      var v := Judge(schema, c, tier, seen, entries[0]);
      [v] + Verdicts(schema, Absorb(schema, c, tier, entries[0].path, v), tier,
                     Noted(seen, entries[0].path, v), entries[1..])
  }

  function Reports(verdicts: seq<Verdict>): seq<Diagnostic> {
    if verdicts == [] then []
    else (if verdicts[0].Rejected? then [verdicts[0].diagnostic] else []) + Reports(verdicts[1..])
  }

  /** An applied entry changes its own model only and reports nothing, and a modified entry stays modified;
      one set aside changes nothing; a rejected one only adds its diagnostic. */
  lemma VerdictIsAccounted(schema: Schema, c: Composition, tier: Tier, path: string, v: Verdict)
    ensures var next := Absorb(schema, c, tier, path, v);
            match v
            case Applied(id, record, spec) =>
              && next.diagnostics == c.diagnostics
              && next.models == c.models[id := spec]
              && next.provenance.Keys == c.provenance.Keys + {id}
              && next.provenance[id].tier == tier && next.provenance[id].path == Some(path)
              && (forall i <- c.provenance :: i != id ==> next.provenance[i] == c.provenance[i])
              && (id in c.provenance && id in c.models && c.provenance[id].trust.Modified? ==>
                    next.provenance[id].trust.Modified?)
            case SetAside(id) => next == c
            case Rejected(d) => next == c.(diagnostics := c.diagnostics + [d])
  {
  }

  /** A diagnostic names the file and tier of its entry; only a user entry for an untouched built-in model
      is set aside. */
  lemma VerdictNamesEntry(schema: Schema, c: Composition, tier: Tier, seen: map<string, string>, entry: Entry)
    ensures match Judge(schema, c, tier, seen, entry)
            case Applied(_, _, _) => true
            case SetAside(id) =>
              tier.FromUser? && id in c.models && id in c.provenance && c.provenance[id] == BUILT_IN_PROVENANCE
            case Rejected(d) => d.tier == tier && d.path == entry.path
  {
  }

  function ReportOf(v: Verdict): seq<Diagnostic> {
    if v.Rejected? then [v.diagnostic] else []
  }

  lemma AbsorbReports(schema: Schema, c: Composition, tier: Tier, path: string, v: Verdict)
    ensures Absorb(schema, c, tier, path, v).diagnostics == c.diagnostics + ReportOf(v)
  {
  }

  lemma AbsorbKeepsKeys(schema: Schema, c: Composition, tier: Tier, path: string, v: Verdict)
    requires c.models.Keys == c.provenance.Keys
    ensures Absorb(schema, c, tier, path, v).models.Keys == Absorb(schema, c, tier, path, v).provenance.Keys
  {
  }

  lemma {:induction false} ReportsOfMore(v: Verdict, rest: seq<Verdict>)
    ensures Reports([v] + rest) == ReportOf(v) + Reports(rest)
  {
    assert ([v] + rest)[1..] == rest;
  }

  /** Of a layer, each entry gets exactly one verdict, and the diagnostics are the layer's own and then one
      for each rejected entry, in order. */
  lemma {:induction false} EntriesAreAccounted(schema: Schema, c: Composition, tier: Tier, seen: map<string, string>,
                                               entries: seq<Entry>)
    ensures AbsorbEntries(schema, c, tier, seen, entries).diagnostics
         == c.diagnostics + Reports(Verdicts(schema, c, tier, seen, entries))
    decreases |entries|
  {
    if entries != [] {
      var v := Judge(schema, c, tier, seen, entries[0]);
      var next, seen' := Absorb(schema, c, tier, entries[0].path, v), Noted(seen, entries[0].path, v);
      var rest := Verdicts(schema, next, tier, seen', entries[1..]);
      AbsorbReports(schema, c, tier, entries[0].path, v);
      EntriesAreAccounted(schema, next, tier, seen', entries[1..]);
      ReportsOfMore(v, rest);
      Regroup(c.diagnostics, ReportOf(v), Reports(rest));
    }
  }

  /** A model that a patch has changed in a launch-shaped field. */
  ghost predicate IsModified(c: Composition, id: string) {
    id in c.models && id in c.provenance && c.provenance[id].trust.Modified?
  }

  lemma {:induction false} EntriesKeepModified(schema: Schema, c: Composition, tier: Tier, seen: map<string, string>,
                                               entries: seq<Entry>, id: string)
    requires IsModified(c, id)
    ensures IsModified(AbsorbEntries(schema, c, tier, seen, entries), id)
    decreases |entries|
  {
    if entries != [] {
      var v := Judge(schema, c, tier, seen, entries[0]);
      VerdictIsAccounted(schema, c, tier, entries[0].path, v);
      EntriesKeepModified(schema, Absorb(schema, c, tier, entries[0].path, v), tier,
                          Noted(seen, entries[0].path, v), entries[1..], id);
    }
  }

  /** Once modified, a model stays modified whatever further layers say of it, back to the old values or not. */
  lemma {:induction false} ModifiedStays(schema: Schema, c: Composition, layers: seq<Layer>, id: string)
    requires IsModified(c, id)
    ensures IsModified(AbsorbLayers(schema, c, layers), id)
    decreases |layers|
  {
    if layers != [] {
      var l := layers[0];
      EntriesKeepModified(schema, c.(diagnostics := c.diagnostics + l.diagnostics), l.tier, map[], l.entries, id);
      ModifiedStays(schema, AbsorbLayer(schema, c, l), layers[1..], id);
    }
  }

  // ---------- Precedence ----------

  /** Once a layer has placed an entry for an id, the rest of the layer leaves that model alone. */
  lemma {:induction false} RestOfLayerKeeps(schema: Schema, c: Composition, tier: Tier, seen: map<string, string>,
                                            entries: seq<Entry>, id: string)
    requires id in seen && seen[id] != "" && id in c.models && id in c.provenance
    ensures var end := AbsorbEntries(schema, c, tier, seen, entries);
            && id in end.models && end.models[id] == c.models[id]
            && id in end.provenance && end.provenance[id] == c.provenance[id]
    decreases |entries|
  {
    if entries != [] {
      var v := Judge(schema, c, tier, seen, entries[0]);
      var next := Absorb(schema, c, tier, entries[0].path, v);
      VerdictIsAccounted(schema, c, tier, entries[0].path, v);
      if v.Applied? {
        AppliedIsParsed(schema, c, tier, seen, entries[0]);
      }
      RestOfLayerKeeps(schema, next, tier, Noted(seen, entries[0].path, v), entries[1..], id);
    }
  }

  /** What was known when an entry's turn came. */
  function Before(schema: Schema, c: Composition, tier: Tier, seen: map<string, string>, entries: seq<Entry>, i: nat)
    : (Composition, map<string, string>)
    requires i <= |entries|
    decreases i
  {
    if i == 0 then (c, seen)
    else
      var v := Judge(schema, c, tier, seen, entries[0]);
      Before(schema, Absorb(schema, c, tier, entries[0].path, v), tier, Noted(seen, entries[0].path, v),
             entries[1..], i - 1)
  }

  lemma {:induction false} BeforeSplits(schema: Schema, c: Composition, tier: Tier, seen: map<string, string>,
                                        entries: seq<Entry>, i: nat)
    requires i < |entries|
    ensures var (c', seen') := Before(schema, c, tier, seen, entries, i);
            && Verdicts(schema, c, tier, seen, entries)[i] == Judge(schema, c', tier, seen', entries[i])
            && AbsorbEntries(schema, c, tier, seen, entries)
               == AbsorbEntries(schema, c', tier, seen', entries[i..])
    decreases i
  {
    if i == 0 {
      assert entries[0..] == entries;
    } else {
      var v := Judge(schema, c, tier, seen, entries[0]);
      BeforeSplits(schema, Absorb(schema, c, tier, entries[0].path, v), tier, Noted(seen, entries[0].path, v),
                   entries[1..], i - 1);
      assert entries[1..][i - 1..] == entries[i..];
    }
  }

  lemma {:induction false} AppliedFirstDecides(schema: Schema, c: Composition, tier: Tier, seen: map<string, string>,
                                               entries: seq<Entry>)
    requires Stable(schema) && entries != [] && entries[0].path != ""
    requires Judge(schema, c, tier, seen, entries[0]).Applied? && c.models.Keys == c.provenance.Keys
    ensures var v := Judge(schema, c, tier, seen, entries[0]);
            var end := AbsorbEntries(schema, c, tier, seen, entries);
            && v.id in end.models
            && forall k <- v.record :: Get(end.models[v.id], k) == schema.field(k, Some(v.record[k]))
  {
    var v := Judge(schema, c, tier, seen, entries[0]);
    AppliedIsParsed(schema, c, tier, seen, entries[0]);
    VerdictIsAccounted(schema, c, tier, entries[0].path, v);
    ParsedIsFixed(schema, if v.id in c.models then c.models[v.id] + v.record else v.record);
    RestOfLayerKeeps(schema, Absorb(schema, c, tier, entries[0].path, v), tier,
                     Noted(seen, entries[0].path, v), entries[1..], v.id);
  }

  lemma {:induction false} BeforeKeepsKeys(schema: Schema, c: Composition, tier: Tier, seen: map<string, string>,
                                           entries: seq<Entry>, i: nat)
    requires i <= |entries| && c.models.Keys == c.provenance.Keys
    ensures var (c', _) := Before(schema, c, tier, seen, entries, i); c'.models.Keys == c'.provenance.Keys
    decreases i
  {
    if i > 0 {
      var v := Judge(schema, c, tier, seen, entries[0]);
      AbsorbKeepsKeys(schema, c, tier, entries[0].path, v);
      BeforeKeepsKeys(schema, Absorb(schema, c, tier, entries[0].path, v), tier, Noted(seen, entries[0].path, v),
                      entries[1..], i - 1);
    }
  }

  /** An entry accepted in a layer decides every key it sets, whatever was there before: the model ends
      with what parsing makes of the entry's own values. */
  lemma {:induction false} AcceptedEntryDecides(schema: Schema, c: Composition, tier: Tier, seen: map<string, string>,
                             entries: seq<Entry>, i: nat)
    requires Stable(schema) && c.models.Keys == c.provenance.Keys
    requires i < |entries| && entries[i].path != ""
    requires Verdicts(schema, c, tier, seen, entries)[i].Applied?
    ensures var end := AbsorbEntries(schema, c, tier, seen, entries);
            && entries[i].data.Object?
            && var record := RecordOf(entries[i].data.fields);
               && "modelId" in record && record["modelId"].String? && record["modelId"].s in end.models
               && forall k <- record :: Get(end.models[record["modelId"].s], k) == schema.field(k, Some(record[k]))
  {
    var (c', seen') := Before(schema, c, tier, seen, entries, i);
    BeforeSplits(schema, c, tier, seen, entries, i);
    BeforeKeepsKeys(schema, c, tier, seen, entries, i);
    AppliedIsParsed(schema, c', tier, seen', entries[i]);
    AppliedFirstDecides(schema, c', tier, seen', entries[i..]);
  }

  lemma {:induction false} AbsorbLayersConcat(schema: Schema, c: Composition, a: seq<Layer>, b: seq<Layer>)
    ensures AbsorbLayers(schema, c, a + b) == AbsorbLayers(schema, AbsorbLayers(schema, c, a), b)
    decreases |a|
  {
    if a == [] {
      assert a + b == b;
    } else {
      assert (a + b)[1..] == a[1..] + b;
      AbsorbLayersConcat(schema, AbsorbLayer(schema, c, a[0]), a[1..], b);
    }
  }

  lemma {:induction false} AbsorbLayersLast(schema: Schema, c: Composition, order: seq<Layer>, n: nat)
    requires n < |order|
    ensures AbsorbLayers(schema, c, order[..n + 1])
         == AbsorbLayer(schema, AbsorbLayers(schema, c, order[..n]), order[n])
  {
    assert order[..n + 1] == order[..n] + [order[n]] && [order[n]][1..] == [];
    AbsorbLayersConcat(schema, c, order[..n], [order[n]]);
  }

  /** The verdicts on the entries of the n-th layer of an order. */
  function LayerVerdicts(schema: Schema, builtIn: seq<Model>, order: seq<Layer>, n: nat): (verdicts: seq<Verdict>)
    requires n < |order|
    ensures |verdicts| == |order[n].entries|
  {
    var c := AbsorbLayers(schema, Base(builtIn), order[..n]);
    Verdicts(schema, c.(diagnostics := c.diagnostics + order[n].diagnostics), order[n].tier, map[], order[n].entries)
  }

  predicate Applies(verdicts: seq<Verdict>, id: string) {
    exists v <- verdicts :: v.Applied? && v.id == id
  }

  /** An accepted entry, with no accepted entry for its model in any later layer. */
  ghost predicate LastAccepted(schema: Schema, builtIn: seq<Model>, order: seq<Layer>, n: nat, i: nat) {
    && n < |order| && i < |order[n].entries| && order[n].entries[i].path != ""
    && var v := LayerVerdicts(schema, builtIn, order, n)[i];
    && v.Applied?
    && forall m | n < m < |order| :: !Applies(LayerVerdicts(schema, builtIn, order, m), v.id)
  }

  lemma {:induction false} UnappliedStays(schema: Schema, c: Composition, tier: Tier, seen: map<string, string>,
                                          entries: seq<Entry>, id: string)
    requires !Applies(Verdicts(schema, c, tier, seen, entries), id)
    ensures Held(AbsorbEntries(schema, c, tier, seen, entries), id) == Held(c, id)
    decreases |entries|
  {
    if entries != [] {
      var v := Judge(schema, c, tier, seen, entries[0]);
      var next, seen' := Absorb(schema, c, tier, entries[0].path, v), Noted(seen, entries[0].path, v);
      var rest := Verdicts(schema, next, tier, seen', entries[1..]);
      assert Verdicts(schema, c, tier, seen, entries) == [v] + rest;
      assert v in [v] + rest && forall x <- rest :: x in [v] + rest;
      if v.Applied? {
        AbsorbLeavesOthers(schema, c, tier, entries[0].path, v, id);
      }
      UnappliedStays(schema, next, tier, seen', entries[1..], id);
    }
  }

  lemma {:induction false} LaterLayersLeave(schema: Schema, builtIn: seq<Model>, order: seq<Layer>, n: nat, k: nat,
                                            id: string)
    requires n < k <= |order|
    requires forall m | n < m < |order| :: !Applies(LayerVerdicts(schema, builtIn, order, m), id)
    ensures Held(AbsorbLayers(schema, Base(builtIn), order[..k]), id)
         == Held(AbsorbLayers(schema, Base(builtIn), order[..n + 1]), id)
    decreases k
  {
    if n + 1 < k {
      LaterLayersLeave(schema, builtIn, order, n, k - 1, id);
      LayerLeaves(schema, builtIn, order, k - 1, id);
    }
  }

  lemma {:induction false} LayerLeaves(schema: Schema, builtIn: seq<Model>, order: seq<Layer>, m: nat, id: string)
    requires m < |order| && !Applies(LayerVerdicts(schema, builtIn, order, m), id)
    ensures Held(AbsorbLayers(schema, Base(builtIn), order[..m + 1]), id)
         == Held(AbsorbLayers(schema, Base(builtIn), order[..m]), id)
  {
    var c := AbsorbLayers(schema, Base(builtIn), order[..m]);
    AbsorbLayersLast(schema, Base(builtIn), order, m);
    UnappliedStays(schema, c.(diagnostics := c.diagnostics + order[m].diagnostics), order[m].tier, map[],
                   order[m].entries, id);
  }

  lemma {:induction false} EntriesKeepKeys(schema: Schema, c: Composition, tier: Tier, seen: map<string, string>,
                                           entries: seq<Entry>)
    requires c.models.Keys == c.provenance.Keys
    ensures var end := AbsorbEntries(schema, c, tier, seen, entries); end.models.Keys == end.provenance.Keys
    decreases |entries|
  {
    if entries != [] {
      var v := Judge(schema, c, tier, seen, entries[0]);
      AbsorbKeepsKeys(schema, c, tier, entries[0].path, v);
      EntriesKeepKeys(schema, Absorb(schema, c, tier, entries[0].path, v), tier,
                      Noted(seen, entries[0].path, v), entries[1..]);
    }
  }

  lemma {:induction false} LayersKeepKeys(schema: Schema, c: Composition, layers: seq<Layer>)
    requires c.models.Keys == c.provenance.Keys
    ensures var end := AbsorbLayers(schema, c, layers); end.models.Keys == end.provenance.Keys
    decreases |layers|
  {
    if layers != [] {
      var l := layers[0];
      EntriesKeepKeys(schema, c.(diagnostics := c.diagnostics + l.diagnostics), l.tier, map[], l.entries);
      LayersKeepKeys(schema, AbsorbLayer(schema, c, l), layers[1..]);
    }
  }

  lemma {:induction false} BaseHasKeys(builtIn: seq<Model>)
    ensures Base(builtIn).models.Keys == Base(builtIn).provenance.Keys
    decreases |builtIn|
  {
    if builtIn != [] {
      BaseHasKeys(builtIn[..|builtIn| - 1]);
    }
  }

  /** The keys an entry sets have the values that parsing makes of the entry's own. */
  ghost predicate Decides(schema: Schema, models: map<string, Record>, entry: Entry) {
    && entry.data.Object?
    && var record := RecordOf(entry.data.fields);
       && "modelId" in record && record["modelId"].String? && record["modelId"].s in models
       && forall k <- record :: Get(models[record["modelId"].s], k) == schema.field(k, Some(record[k]))
  }

  /** Of any layers, in the order they rank, the last accepted entry for a model decides every key it sets. User
      layers rank behind all remote ones, so no remote layer can undo what an accepted user entry sets. */
  lemma {:induction false} LastAcceptedDecides(schema: Schema, builtIn: seq<Model>, layers: seq<Layer>, n: nat, i: nat)
    requires Stable(schema) && LastAccepted(schema, builtIn, Ranked(layers), n, i)
    ensures Decides(schema, Composed(schema, builtIn, layers).models, Ranked(layers)[n].entries[i])
  {
    OrderDecides(schema, builtIn, Ranked(layers), n, Ranked(layers)[n].entries[i], i);
  }

  lemma {:induction false} OrderDecides(schema: Schema, builtIn: seq<Model>, order: seq<Layer>, n: nat, entry: Entry,
                                        i: nat)
    requires Stable(schema) && LastAccepted(schema, builtIn, order, n, i) && order[n].entries[i] == entry
    ensures Decides(schema, AbsorbLayers(schema, Base(builtIn), order).models, entry)
  {
    var c := AbsorbLayers(schema, Base(builtIn), order[..n]);
    var met := c.(diagnostics := c.diagnostics + order[n].diagnostics);
    BaseHasKeys(builtIn);
    LayersKeepKeys(schema, Base(builtIn), order[..n]);
    AcceptedEntryDecides(schema, met, order[n].tier, map[], order[n].entries, i);
    AcceptedId(schema, met, order[n].tier, map[], order[n].entries, i);
    var id := LayerVerdicts(schema, builtIn, order, n)[i].id;
    AbsorbLayersLast(schema, Base(builtIn), order, n);
    LaterLayersLeave(schema, builtIn, order, n, |order|, id);
    assert order[..|order|] == order;
    assert Held(AbsorbLayers(schema, Base(builtIn), order), id) == Held(AbsorbLayer(schema, c, order[n]), id);
  }

  lemma {:induction false} AcceptedId(schema: Schema, c: Composition, tier: Tier, seen: map<string, string>,
                                      entries: seq<Entry>, i: nat)
    requires i < |entries| && Verdicts(schema, c, tier, seen, entries)[i].Applied?
    ensures entries[i].data.Object?
    ensures var record := RecordOf(entries[i].data.fields);
            "modelId" in record && record["modelId"] == String(Verdicts(schema, c, tier, seen, entries)[i].id)
  {
    var (c', seen') := Before(schema, c, tier, seen, entries, i);
    BeforeSplits(schema, c, tier, seen, entries, i);
    AppliedIsParsed(schema, c', tier, seen', entries[i]);
  }

  /** The i-th entry of the n-th user layer is the last accepted one for its model. User layers rank behind all
      remote ones, in the order given. */
  ghost predicate UserDecides(schema: Schema, builtIn: seq<Model>, layers: seq<Layer>, n: nat, i: nat) {
    && n < |Filter(layers, IsUser)|
    && LastAccepted(schema, builtIn, Ranked(layers), |Filter(layers, IsRemote)| + n, i)
  }

  /** An accepted user entry that no later user layer replaces decides every key it sets. */
  lemma {:induction false} UserLayerDecides(schema: Schema, builtIn: seq<Model>, layers: seq<Layer>, n: nat, i: nat)
    requires Stable(schema) && UserDecides(schema, builtIn, layers, n, i)
    ensures i < |Filter(layers, IsUser)[n].entries|
    ensures Decides(schema, Composed(schema, builtIn, layers).models, Filter(layers, IsUser)[n].entries[i])
  {
    UserRank(layers, n);
    LastAcceptedDecides(schema, builtIn, layers, |Filter(layers, IsRemote)| + n, i);
  }

  lemma {:induction false} UserRank(layers: seq<Layer>, n: nat)
    requires n < |Filter(layers, IsUser)|
    ensures |Filter(layers, IsRemote)| + n < |Ranked(layers)|
    ensures Ranked(layers)[|Filter(layers, IsRemote)| + n] == Filter(layers, IsUser)[n]
  {
  }

  /** Two catalogs with the same user layers and any remote ones agree on every key that such an entry sets. */
  lemma {:induction false} UserPatchWins(schema: Schema, builtIn: seq<Model>, layers: seq<Layer>,
                                         layers': seq<Layer>, n: nat, i: nat)
    requires Stable(schema) && Filter(layers, IsUser) == Filter(layers', IsUser)
    requires UserDecides(schema, builtIn, layers, n, i) && UserDecides(schema, builtIn, layers', n, i)
    ensures var one, other := Composed(schema, builtIn, layers).models, Composed(schema, builtIn, layers').models;
            && i < |Filter(layers, IsUser)[n].entries|
            && var entry := Filter(layers, IsUser)[n].entries[i];
            && entry.data.Object?
            && var record := RecordOf(entry.data.fields);
               && "modelId" in record && record["modelId"].String?
               && var id := record["modelId"].s;
                  && id in one && id in other
                  && forall k <- record :: Get(one[id], k) == Get(other[id], k)
  {
    UserLayerDecides(schema, builtIn, layers, n, i);
    UserLayerDecides(schema, builtIn, layers', n, i);
  }

  // ---------- The community feed ----------

  function Digits(n: nat): string {
    if n < 10 then [('0' as int + n) as char] else Digits(n / 10) + [('0' as int + n % 10) as char]
  }

  function EntryModelId(data: Json): Option<string> {
    if !data.Object? then None
    else
      var record := RecordOf(data.fields);
      if "modelId" in record && record["modelId"].String? then Some(record["modelId"].s) else None
  }

  function FeedEntries(url: string, models: seq<Json>, from: nat, shipped: set<string>): seq<Entry>
    decreases |models| - from
  {
    if from >= |models| then []
    else
      var id := EntryModelId(models[from]);
      (if id.Some? && id.value != "" && id.value in shipped then []
       else [Entry(url + "#models[" + Digits(from) + "]", models[from])])
      + FeedEntries(url, models, from + 1, shipped)
  }

  /** `feedLayer`: the published entries, without those under an id that is, or once was, built in. */
  function FeedLayer(url: string, models: seq<Json>, shipped: set<string>): Layer {
    Layer(Remote, FeedEntries(url, models, 0, shipped), [])
  }

  lemma {:induction false} FeedSkipsShipped(url: string, models: seq<Json>, from: nat, shipped: set<string>)
    ensures forall e <- FeedEntries(url, models, from, shipped) ::
              EntryModelId(e.data).Some? && EntryModelId(e.data).value != "" ==>
                EntryModelId(e.data).value !in shipped
    decreases |models| - from
  {
    if from < |models| {
      FeedSkipsShipped(url, models, from + 1, shipped);
    }
  }

  lemma {:induction false} EntriesLeaveOthers(schema: Schema, c: Composition, tier: Tier, seen: map<string, string>,
                                              entries: seq<Entry>, id: string)
    requires forall e <- entries :: EntryModelId(e.data) != Some(id)
    ensures var end := AbsorbEntries(schema, c, tier, seen, entries);
            Held(end, id) == Held(c, id)
    decreases |entries|
  {
    if entries != [] {
      var v := Judge(schema, c, tier, seen, entries[0]);
      assert entries[0] in entries;
      if v.Applied? {
        AppliedIsParsed(schema, c, tier, seen, entries[0]);
        AbsorbLeavesOthers(schema, c, tier, entries[0].path, v, id);
      }
      EntriesLeaveOthers(schema, Absorb(schema, c, tier, entries[0].path, v), tier,
                         Noted(seen, entries[0].path, v), entries[1..], id);
    }
  }

  lemma AbsorbLeavesOthers(schema: Schema, c: Composition, tier: Tier, path: string, v: Verdict, id: string)
    requires v.Applied? && v.id != id
    ensures Held(Absorb(schema, c, tier, path, v), id) == Held(c, id)
  {
  }

  /** What a composition holds for an id. */
  function Held(c: Composition, id: string): (Option<Record>, Option<Provenance>) {
    (if id in c.models then Some(c.models[id]) else None,
     if id in c.provenance then Some(c.provenance[id]) else None)
  }

  /** The feed never changes a built-in entry or its trust, and never brings a former id back. */
  lemma {:induction false} FeedLeavesShipped(schema: Schema, builtIn: seq<Model>, url: string, models: seq<Json>,
                                             shipped: set<string>, id: string)
    requires DistinctIds(builtIn) && id in shipped && id != ""
    ensures var c := Composed(schema, builtIn, [FeedLayer(url, models, shipped)]);
            && Held(c, id) == Held(Base(builtIn), id)
            && (forall m <- builtIn :: m.id == id ==> Held(c, id) == (Some(m.spec), Some(BUILT_IN_PROVENANCE)))
            && ((forall m <- builtIn :: m.id != id) ==> id !in c.models)
  {
    var base, feed := Base(builtIn), FeedLayer(url, models, shipped);
    FeedSkipsShipped(url, models, 0, shipped);
    EntriesLeaveOthers(schema, base.(diagnostics := base.diagnostics + feed.diagnostics), Remote, map[],
                       feed.entries, id);
    ComposedOfOne(schema, builtIn, feed);
    BaseHasBuiltIn(builtIn);
    forall m <- builtIn {
      BaseHolds(builtIn, m);
    }
  }

  lemma {:induction false} ComposedOfOne(schema: Schema, builtIn: seq<Model>, layer: Layer)
    requires layer.tier.Remote?
    ensures Composed(schema, builtIn, [layer]) == AbsorbLayer(schema, Base(builtIn), layer)
  {
    assert [layer][1..] == [];
    assert Filter([layer], IsRemote) == [layer] + Filter([], IsRemote) == [layer];
    assert Filter([layer], IsUser) == [] + Filter([], IsUser) == [];
    assert Ranked([layer]) == [layer];
    var c := AbsorbLayer(schema, Base(builtIn), layer);
    assert AbsorbLayers(schema, Base(builtIn), [layer]) == AbsorbLayers(schema, c, []) == c;
  }

  lemma {:induction false} BaseHolds(builtIn: seq<Model>, m: Model)
    requires DistinctIds(builtIn) && m in builtIn
    ensures Held(Base(builtIn), m.id) == (Some(m.spec), Some(BUILT_IN_PROVENANCE))
  {
    BaseHasBuiltIn(builtIn);
    var base := Base(builtIn);
    var i :| 0 <= i < |builtIn| && builtIn[i] == m;
    assert Ids(builtIn)[i] == m.id && m.id in base.order;
    var j :| 0 <= j < |builtIn| && builtIn[j] == Model(m.id, base.models[m.id]);
  }

  // ---------- Reference measurements ----------

  function TrustOf(c: Composition, id: string): Trust {
    if id in c.provenance then c.provenance[id].trust else BUILT_IN_PROVENANCE.trust
  }

  predicate LaunchesLike(a: Record, b: Record) {
    forall k <- LAUNCH_SHAPED_FIELDS :: SameValue(Get(a, k), Get(b, k))
  }

  /** `usesReferenceMeasurements` for a model of the effective catalog (or, if the catalog lacks it, for
      the model given), beside the specs earlier releases shipped. */
  predicate UsesReferenceMeasurements(c: Composition, former: map<string, Record>, model: Model) {
    || TrustOf(c, model.id).Qualified?
    || (model.id in former
        && LaunchesLike(former[model.id], if model.id in c.models then c.models[model.id] else model.spec))
  }

  /** What was measured under an id: the built-in entry, or the entry an earlier release shipped. */
  ghost predicate LaunchesMeasured(builtIn: seq<Model>, former: map<string, Record>, id: string, spec: Record) {
    || (exists m <- builtIn :: m.id == id && LaunchesLike(m.spec, spec))
    || (id in former && LaunchesLike(former[id], spec))
  }

  /** What a model launches: the catalog's spec, or its own if the catalog does not hold it. */
  function Launched(c: Composition, model: Model): Record {
    if model.id in c.models then c.models[model.id] else model.spec
  }

  /** Measurements are used for a catalog model only if it launches what was measured. */
  lemma MeasurementsAreSound(schema: Schema, builtIn: seq<Model>, layers: seq<Layer>, former: map<string, Record>,
                             model: Model)
    requires Stable(schema) && BuiltInParsed(schema, builtIn)
    requires model.id in Composed(schema, builtIn, layers).models
    ensures var c := Composed(schema, builtIn, layers);
            UsesReferenceMeasurements(c, former, model) ==>
              LaunchesMeasured(builtIn, former, model.id, c.models[model.id])
  {
    var c := Composed(schema, builtIn, layers);
    var origin := TrustIsSound(schema, builtIn, layers, model.id);
    if c.provenance[model.id].trust.Qualified? {
      assert Model(model.id, origin) in builtIn && LaunchesLike(Model(model.id, origin).spec, c.models[model.id]);
    }
  }

  /** Measurements are used only for what was measured if and only if the catalog holds the model, or the model
      happens to launch what was measured under its id. */
  lemma MeasurementsAreSoundExactly(schema: Schema, builtIn: seq<Model>, layers: seq<Layer>,
                                    former: map<string, Record>, model: Model)
    requires Stable(schema) && BuiltInParsed(schema, builtIn)
    ensures var c := Composed(schema, builtIn, layers);
            (UsesReferenceMeasurements(c, former, model) ==>
               LaunchesMeasured(builtIn, former, model.id, Launched(c, model)))
            <==> model.id in c.models || LaunchesMeasured(builtIn, former, model.id, model.spec)
  {
    var c := Composed(schema, builtIn, layers);
    ComposedShape(schema, builtIn, layers);
    if model.id in c.models {
      MeasurementsAreSound(schema, builtIn, layers, former, model);
    }
  }

  /** A spec of a kind, and the fields of a catalog that has nothing else. */
  function KindSpec(id: string, kind: string): Record {
    map["modelId" := String(id), "kind" := String(kind)]
  }

  function KindSchema(): Schema {
    Schema(["modelId", "kind"],
           (r: Record) => r.Keys == {"modelId", "kind"} && r["modelId"].String? && r["kind"].String?,
           (k: string, v: Option<Json>) => v,
           (a: Record, b: Record) => false)
  }

  /** Beside a catalog with a model of its own, a former language model, and a model given under that id as an
      image model: every spec passes the schema, the given one is in no catalog and launches something else, and
      it is measured all the same. */
  lemma UnlistedModelIsTrusted() returns (builtIn: seq<Model>, former: map<string, Record>, model: Model)
    ensures var schema := KindSchema();
            && Stable(schema) && BuiltInParsed(schema, builtIn) && builtIn != []
            && (forall m <- builtIn :: schema.accepts(m.spec)) && (forall id <- former :: schema.accepts(former[id]))
            && schema.accepts(model.spec) && model.id in former
            && var c := Composed(schema, builtIn, []);
               && model.id !in c.models
               && UsesReferenceMeasurements(c, former, model)
               && !LaunchesMeasured(builtIn, former, model.id, Launched(c, model))
  {
    builtIn := [Model("new", KindSpec("new", "llm"))];
    former := map["old" := KindSpec("old", "llm")];
    model := Model("old", KindSpec("old", "image"));
    KindIsParsed("new", "llm");
    NotListed(builtIn[0], "old");
    KindsDiffer();
  }

  lemma KindIsParsed(id: string, kind: string)
    ensures Stable(KindSchema()) && KindSchema().accepts(KindSpec(id, kind))
    ensures BuiltInParsed(KindSchema(), [Model(id, KindSpec(id, kind))])
  {
  }

  lemma {:induction false} NotListed(m: Model, id: string)
    requires BuiltInParsed(KindSchema(), [m]) && id != m.id
    ensures var c := Composed(KindSchema(), [m], []);
            id !in c.models && id !in c.provenance
  {
    assert Base([m]).models.Keys <= {m.id} && Base([m]).provenance.Keys <= {m.id} by {
      assert [m][..0] == [];
    }
    assert Ranked([]) == [];
  }

  lemma {:induction false} KindsDiffer()
    ensures !LaunchesLike(KindSpec("old", "llm"), KindSpec("old", "image"))
  {
    assert "kind" in LAUNCH_SHAPED_FIELDS && "llm"[0] != "image"[0];
    assert Get(KindSpec("old", "llm"), "kind") == Some(String("llm"));
    assert Get(KindSpec("old", "image"), "kind") == Some(String("image"));
    assert !SameValue(Some(String("llm")), Some(String("image")));
  }
}
