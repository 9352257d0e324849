/** The runtime configuration service: typed defaults overlaid with stored overrides, and partial updates. */
module RuntimeConfig {
  import opened Collections
  import opened JsonMerge

  datatype Kind = NumberKind | BooleanKind | StringKind | StringArrayKind | JsonKind

  /** Number and JSON text, taken from the platform. */
  datatype Codec = Codec(
    printNumber: Num -> string,
    parseNumber: string -> Option<Num>,
    printJson: Json -> string,
    parseJson: string -> Option<Json>)

  /** What is relied on: printing and parsing are inverse, and no value prints as the empty text. */
  ghost predicate Faithful(c: Codec) {
    && (forall n: Num :: c.parseNumber(c.printNumber(n)) == Some(n) && c.printNumber(n) != "")
    && (forall j: Json :: c.parseJson(c.printJson(j)) == Some(j) && c.printJson(j) != "")
  }

  datatype DomainSpec = DomainSpec(
    schema: map<string, Kind>,
    defaults: map<string, Json>,
    validate: map<string, Json> -> bool)

  datatype ConfigError = DomainNotRegistered | UnknownField(key: string) | WrongType(kind: Kind) | Rejected

  // ---------- Field values ----------

  predicate AllStrings(items: seq<Json>) {
    forall i :: 0 <= i < |items| ==> items[i].JStr?
  }

  function ParseValue(c: Codec, kind: Kind, raw: string): Option<Json> {
    match kind
    case NumberKind => (match c.parseNumber(raw) case None => None case Some(n) => Some(JNum(n)))
    case BooleanKind =>
      if raw == "1" || raw == "true" then Some(JBool(true))
      else if raw == "0" || raw == "false" then Some(JBool(false))
      else None
    case StringArrayKind =>
      (match c.parseJson(raw)
       case None => None
       case Some(v) => if v.JArr? && AllStrings(v.items) then Some(v) else None)
    case JsonKind => c.parseJson(raw)
    case StringKind => Some(JStr(raw))
  }

  predicate HasKind(kind: Kind, v: Json) {
    match kind
    case NumberKind => v.JNum?
    case BooleanKind => v.JBool?
    case StringArrayKind => v.JArr? && AllStrings(v.items)
    case JsonKind => true
    case StringKind => v.JStr?
  }

  function SerializeValue(c: Codec, kind: Kind, v: Json): Result<string, ConfigError> {
    if !HasKind(kind, v) then Err(WrongType(kind))
    else
      match kind
      case NumberKind => Ok(c.printNumber(v.n))
      case BooleanKind => Ok(if v.b then "1" else "0")
      case StringArrayKind => Ok(c.printJson(v))
      case JsonKind => Ok(c.printJson(v))
      case StringKind => Ok(v.s)
  }

  /** A serialized value parses back to itself, and only an empty string prints as the empty text. */
  lemma SerializedParsesBack(c: Codec, kind: Kind, v: Json)
    requires Faithful(c) && SerializeValue(c, kind, v).Ok?
    ensures ParseValue(c, kind, SerializeValue(c, kind, v).value) == Some(v)
    ensures SerializeValue(c, kind, v).value == "" <==> kind == StringKind && v == JStr("")
  {
    assert c.parseJson(c.printJson(v)) == Some(v);
    if kind == NumberKind {
      assert c.parseNumber(c.printNumber(v.n)) == Some(v.n);
    }
  }

  /** What can be read for a kind can also be written. */
  lemma ReadableIsWritable(c: Codec, kind: Kind, text: string)
    requires ParseValue(c, kind, text).Some?
    ensures SerializeValue(c, kind, ParseValue(c, kind, text).value).Ok?
  {
  }

  // ---------- Reading ----------

  function Field<V>(m: map<string, V>, key: string): Option<V> {
    if key in m then Some(m[key]) else None
  }

  function Overlay(base: Option<Json>, v: Json): Json {
    if base.Some? then DeepMerge(base.value, v) else v
  }

  /** One field of the configuration; empty, unreadable and undeclared texts leave the default. */
  function FieldOf(c: Codec, spec: DomainSpec, raw: map<string, string>, key: string): Option<Json> {
    var base := Field(spec.defaults, key);
    if key !in spec.schema || key !in raw || raw[key] == "" then base
    else
      match ParseValue(c, spec.schema[key], raw[key])
      case None => base
      case Some(v) => if spec.schema[key] == JsonKind then Some(Overlay(base, v)) else Some(v)
  }

  /** A stored text counts only for a declared field, and only when it is not empty. */
  predicate IsOverride(spec: DomainSpec, raw: map<string, string>, key: string) {
    key in spec.schema && key in raw && raw[key] != ""
  }

  /** What a field reads as, kind by kind: a text that is not of the declared kind leaves the default. */
  lemma FieldReads(c: Codec, spec: DomainSpec, raw: map<string, string>, key: string)
    ensures !IsOverride(spec, raw, key) ==> FieldOf(c, spec, raw, key) == Field(spec.defaults, key)
    ensures IsOverride(spec, raw, key) ==>
              var text, read, base := raw[key], FieldOf(c, spec, raw, key), Field(spec.defaults, key);
              match spec.schema[key]
              case StringKind => read == Some(JStr(text))
              case BooleanKind =>
                && (text in {"1", "true"} ==> read == Some(JBool(true)))
                && (text in {"0", "false"} ==> read == Some(JBool(false)))
                && (text !in {"0", "1", "false", "true"} ==> read == base)
              case NumberKind =>
                && (forall n :: c.parseNumber(text) == Some(n) ==> read == Some(JNum(n)))
                && (c.parseNumber(text) == None ==> read == base)
              case StringArrayKind =>
                && (forall items :: c.parseJson(text) == Some(JArr(items)) && AllStrings(items) ==>
                      read == Some(JArr(items)))
                && (!(exists items :: c.parseJson(text) == Some(JArr(items)) && AllStrings(items)) ==> read == base)
              case JsonKind =>
                && (forall v :: c.parseJson(text) == Some(v) ==>
                      read == Some(if base.Some? then DeepMerge(base.value, v) else v))
                && (c.parseJson(text) == None ==> read == base)
  {
  }

  /** The configuration a domain has under the stored texts. */
  ghost predicate IsConfig(c: Codec, spec: DomainSpec, raw: map<string, string>, config: map<string, Json>) {
    forall key :: Field(config, key) == FieldOf(c, spec, raw, key)
  }

  lemma SameFields(a: map<string, Json>, b: map<string, Json>)
    requires forall key :: Field(a, key) == Field(b, key)
    ensures a == b
  {
    forall key ensures key in a <==> key in b {
      assert Field(a, key) == Field(b, key);
    }
    assert a.Keys == b.Keys;
    forall key | key in a ensures a[key] == b[key] {
      assert Field(a, key) == Field(b, key);
    }
  }

  /** The loop of `get` over the declared fields. */
  method ReadConfig(c: Codec, spec: DomainSpec, raw: map<string, string>) returns (out: map<string, Json>)
    ensures IsConfig(c, spec, raw, out)
  {
    out := spec.defaults;
    var rest := spec.schema.Keys;
    while rest != {}
      invariant rest <= spec.schema.Keys
      invariant forall key :: Field(out, key) ==
                  if key in spec.schema && key !in rest then FieldOf(c, spec, raw, key) else Field(spec.defaults, key)
      decreases |rest|
    {
      var key :| key in rest;
      if key in raw && raw[key] != "" {
        var kind := spec.schema[key];
        var parsed := ParseValue(c, kind, raw[key]);
        if parsed.Some? {
          assert Field(out, key) == Field(spec.defaults, key);
          var value := if kind == JsonKind then Overlay(Field(out, key), parsed.value) else parsed.value;
          out := out[key := value];
        }
      }
      rest := rest - {key};
    }
  }

  // ---------- Preparing an update ----------

  type Patch = seq<(string, Option<Json>)>

  datatype Prepared = Prepared(candidate: map<string, Json>, normalized: map<string, string>)

  /** One entry of the patch: unknown fields are refused, absent values skipped, JSON values merged into the current. */
  function PrepareEntry(c: Codec, spec: DomainSpec, current: map<string, Json>, so: Prepared, key: string,
                        value: Option<Json>)
    : Result<Prepared, ConfigError>
  {
    if key !in spec.schema then Err(UnknownField(key))
    else if value.None? then Ok(so)
    else
      var kind := spec.schema[key];
      var next := if kind == JsonKind then Overlay(Field(current, key), value.value) else value.value;
      match SerializeValue(c, kind, next)
      case Err(e) => Err(e)
      case Ok(text) => Ok(Prepared(so.candidate[key := next], so.normalized[key := text]))
  }

  function Prepare(c: Codec, spec: DomainSpec, current: map<string, Json>, patch: Patch)
    : Result<Prepared, ConfigError>
  {
    if patch == [] then Ok(Prepared(current, map[]))
    else
      var n := |patch| - 1;
      match Prepare(c, spec, current, patch[..n])
      case Err(e) => Err(e)
      case Ok(so) => PrepareEntry(c, spec, current, so, patch[n].0, patch[n].1)
  }

  /** What a successful preparation means, field by field. */
  ghost predicate PreparedWell(c: Codec, spec: DomainSpec, current: map<string, Json>, p: Prepared) {
    forall key ::
      if key in p.normalized
      then key in spec.schema && key in p.candidate
           && SerializeValue(c, spec.schema[key], p.candidate[key]) == Ok(p.normalized[key])
      else Field(p.candidate, key) == Field(current, key)
  }

  lemma {:induction false} PrepareIsWell(c: Codec, spec: DomainSpec, current: map<string, Json>,
                                         patch: Patch)
    requires Prepare(c, spec, current, patch).Ok?
    ensures PreparedWell(c, spec, current, Prepare(c, spec, current, patch).value)
  {
    if patch != [] {
      PrepareIsWell(c, spec, current, patch[..|patch| - 1]);
    }
  }

  /** What a patch entry makes of a field. */
  function NextValue(kind: Kind, current: Option<Json>, v: Json): Json {
    if kind == JsonKind then Overlay(current, v) else v
  }

  /** Every written field comes from an entry of the patch. */
  lemma {:induction false} PreparedFrom(c: Codec, spec: DomainSpec, current: map<string, Json>,
                                        patch: Patch, key: string) returns (v: Json)
    requires Prepare(c, spec, current, patch).Ok? && key in Prepare(c, spec, current, patch).value.normalized
    ensures (key, Some(v)) in patch && key in spec.schema && key in Prepare(c, spec, current, patch).value.candidate
    ensures Prepare(c, spec, current, patch).value.candidate[key] == NextValue(spec.schema[key], Field(current, key), v)
  {
    PrepareIsWell(c, spec, current, patch);
    var n := |patch| - 1;
    assert patch[n] in patch;
    if patch[n].0 == key && patch[n].1.Some? {
      v := patch[n].1.value;
    } else {
      v := PreparedFrom(c, spec, current, patch[..n], key);
    }
  }

  /** Entry `i` gives `key` the value `v`, and no later entry gives it another. */
  predicate LastGiven(patch: Patch, key: string, i: nat, v: Json) {
    && i < |patch| && patch[i] == (key, Some(v))
    && forall j :: i < j < |patch| ==> patch[j].0 != key || patch[j].1 == None
  }

  predicate Given(patch: Patch, key: string) {
    exists i :: 0 <= i < |patch| && patch[i].0 == key && patch[i].1 != None
  }

  /** The last value given to a field is written, for JSON merged into the current one; a field that was given none is
      neither written nor changed. */
  ghost predicate Applied(c: Codec, spec: DomainSpec, current: map<string, Json>, patch: Patch, p: Prepared) {
    && (forall key, i: nat, v :: LastGiven(patch, key, i, v) ==> WrittenAs(c, spec, current, key, v, p))
    && (forall key :: !Given(patch, key) ==> key !in p.normalized && Field(p.candidate, key) == Field(current, key))
  }

  ghost predicate WrittenAs(c: Codec, spec: DomainSpec, current: map<string, Json>, key: string, v: Json, p: Prepared) {
    && key in spec.schema && key in p.normalized
    && Field(p.candidate, key) == Some(NextValue(spec.schema[key], Field(current, key), v))
    && SerializeValue(c, spec.schema[key], NextValue(spec.schema[key], Field(current, key), v)) == Ok(p.normalized[key])
  }

  /** A successful preparation applies the whole patch. */
  lemma {:induction false} PrepareApplies(c: Codec, spec: DomainSpec, current: map<string, Json>, patch: Patch)
    requires Prepare(c, spec, current, patch).Ok?
    ensures Applied(c, spec, current, patch, Prepare(c, spec, current, patch).value)
  {
    if patch != [] {
      var n := |patch| - 1;
      var front, key, value := patch[..n], patch[n].0, patch[n].1;
      PrepareApplies(c, spec, current, front);
      var before, p := Prepare(c, spec, current, front).value, Prepare(c, spec, current, patch).value;
      forall k, i: nat, v | LastGiven(patch, k, i, v) ensures WrittenAs(c, spec, current, k, v, p) {
        if i < n {
          assert LastGiven(front, k, i, v);
          assert WrittenAs(c, spec, current, k, v, before);
        }
      }
      forall k | !Given(patch, k) ensures k !in p.normalized && Field(p.candidate, k) == Field(current, k) {
        NotGivenBefore(patch, n, k);
      }
    }
  }

  lemma NotGivenBefore(patch: Patch, n: nat, key: string)
    requires n < |patch| && !Given(patch, key)
    ensures !Given(patch[..n], key) && (patch[n].0 == key ==> patch[n].1 == None)
  {
    assert forall i :: 0 <= i < n ==> patch[..n][i] == patch[i];
  }

  /** What is wrong with an entry: its field is not declared, or its value is not of the declared kind. */
  function EntryError(spec: DomainSpec, current: map<string, Json>, key: string, value: Option<Json>)
    : Option<ConfigError>
  {
    if key !in spec.schema then Some(UnknownField(key))
    else if value.Some? && !HasKind(spec.schema[key], NextValue(spec.schema[key], Field(current, key), value.value))
    then Some(WrongType(spec.schema[key]))
    else None
  }

  ghost predicate FirstError(spec: DomainSpec, current: map<string, Json>, patch: Patch, i: nat, e: ConfigError) {
    && i < |patch| && EntryError(spec, current, patch[i].0, patch[i].1) == Some(e)
    && forall j :: 0 <= j < i ==> EntryError(spec, current, patch[j].0, patch[j].1) == None
  }

  /** A patch is refused if and only if some entry is wrong, and then with the error of the first such entry. */
  lemma {:induction false} PrepareRefusesIff(c: Codec, spec: DomainSpec, current: map<string, Json>, patch: Patch,
                                             e: ConfigError)
    ensures Prepare(c, spec, current, patch) == Err(e) <==> exists i: nat :: FirstError(spec, current, patch, i, e)
  {
    if patch != [] {
      var n := |patch| - 1;
      PrepareRefusesIff(c, spec, current, patch[..n], e);
      assert forall j :: 0 <= j < n ==> patch[..n][j] == patch[j];
      forall i: nat | i < n
        ensures FirstError(spec, current, patch, i, e) <==> FirstError(spec, current, patch[..n], i, e)
      {
      }
      FirstErrorLast(c, spec, current, patch, n, e);
    }
  }

  /** The last entry decides when all earlier ones are right. */
  lemma FirstErrorLast(c: Codec, spec: DomainSpec, current: map<string, Json>, patch: Patch, n: nat, e: ConfigError)
    requires n < |patch|
    ensures FirstError(spec, current, patch, n, e) <==>
            var front := Prepare(c, spec, current, patch[..n]);
            front.Ok? && PrepareEntry(c, spec, current, front.value, patch[n].0, patch[n].1) == Err(e)
  {
    PrepareAllRight(c, spec, current, patch[..n]);
    forall j | 0 <= j < n ensures patch[..n][j] == patch[j] {
    }
  }

  lemma {:induction false} PrepareAllRight(c: Codec, spec: DomainSpec, current: map<string, Json>, patch: Patch)
    ensures Prepare(c, spec, current, patch).Ok? <==>
            forall j :: 0 <= j < |patch| ==> EntryError(spec, current, patch[j].0, patch[j].1) == None
  {
    if patch != [] {
      var n := |patch| - 1;
      PrepareAllRight(c, spec, current, patch[..n]);
      assert forall j :: 0 <= j < n ==> patch[..n][j] == patch[j];
    }
  }

  // ---------- Round trip ----------

  /** A written text is read back as the value it was made from: an empty string only where it is the default, a JSON
      value only if it keeps all keys of the default objects it meets. */
  ghost predicate Survives(kind: Kind, base: Option<Json>, v: Json) {
    match kind
    case JsonKind => base.Some? ==> Covers(base.value, v)
    case StringKind => v != JStr("") || base == Some(v)
    case NumberKind => true
    case BooleanKind => true
    case StringArrayKind => true
  }

  ghost predicate AllSurvive(spec: DomainSpec, p: Prepared) {
    forall key :: key in p.normalized ==>
      key in spec.schema && key in p.candidate
      && Survives(spec.schema[key], Field(spec.defaults, key), p.candidate[key])
  }

  lemma OverlayFixedIff(base: Option<Json>, v: Json)
    ensures Overlay(base, v) == v <==> (base.Some? ==> Covers(base.value, v))
  {
    if base.Some? {
      MergeAbsorbedIff(base.value, v);
    }
  }

  /** A JSON field survives every patch when the stored override never replaced a default object by something else. */
  lemma JsonSurvivesPatch(base: Option<Json>, stored: Option<Json>, v: Json)
    requires base.Some? && stored.Some? ==> KeepsObjects(base.value, stored.value)
    ensures var current := if stored.Some? then Some(Overlay(base, stored.value)) else base;
            Survives(JsonKind, base, Overlay(current, v))
  {
    if base.Some? {
      var d := base.value;
      if stored.Some? {
        PatchedCovers(d, stored.value, v);
      } else {
        MergeCovers(d, v);
      }
    }
  }

  lemma WrittenField(c: Codec, spec: DomainSpec, raw: map<string, string>, key: string, v: Json, text: string)
    requires Faithful(c) && key in spec.schema && SerializeValue(c, spec.schema[key], v) == Ok(text)
    requires key in raw && raw[key] == text
    ensures FieldOf(c, spec, raw, key) == Some(v) <==> Survives(spec.schema[key], Field(spec.defaults, key), v)
  {
    SerializedParsesBack(c, spec.schema[key], v);
    OverlayFixedIff(Field(spec.defaults, key), v);
  }

  lemma WrittenBack(c: Codec, spec: DomainSpec, raw: map<string, string>, current: map<string, Json>, p: Prepared,
                    after: map<string, Json>)
    requires Faithful(c) && IsConfig(c, spec, raw, current) && PreparedWell(c, spec, current, p)
    requires IsConfig(c, spec, raw + p.normalized, after)
    ensures after == p.candidate <==> AllSurvive(spec, p)
    ensures forall key :: key !in p.normalized ==> Field(after, key) == Field(current, key)
  {
    var raw' := raw + p.normalized;
    forall key
      ensures key !in p.normalized ==> Field(after, key) == Field(current, key) == Field(p.candidate, key)
      ensures key in p.normalized ==>
                (Field(after, key) == Field(p.candidate, key) <==>
                 Survives(spec.schema[key], Field(spec.defaults, key), p.candidate[key]))
    {
      assert Field(after, key) == FieldOf(c, spec, raw', key);
      assert Field(current, key) == FieldOf(c, spec, raw, key);
      if key in p.normalized {
        WrittenField(c, spec, raw', key, p.candidate[key], p.normalized[key]);
      }
    }
    if AllSurvive(spec, p) {
      SameFields(after, p.candidate);
    }
  }

  /** After an update was prepared and its texts were stored, reading gives exactly the prepared candidate if and only
      if every written field survives; fields that were not written always read as before. */
  lemma UpdateRoundTrip(c: Codec, spec: DomainSpec, raw: map<string, string>, current: map<string, Json>,
                        patch: Patch, after: map<string, Json>)
    requires Faithful(c) && IsConfig(c, spec, raw, current) && Prepare(c, spec, current, patch).Ok?
    requires IsConfig(c, spec, raw + Prepare(c, spec, current, patch).value.normalized, after)
    ensures var p := Prepare(c, spec, current, patch).value;
            && (after == p.candidate <==> AllSurvive(spec, p))
            && forall key :: key !in p.normalized ==> Field(after, key) == Field(current, key)
  {
    PrepareIsWell(c, spec, current, patch);
    WrittenBack(c, spec, raw, current, Prepare(c, spec, current, patch).value, after);
  }

  /** The stored text of a JSON field, when it is read as an override at all. */
  function StoredJson(c: Codec, raw: map<string, string>, key: string): Option<Json> {
    if key in raw && raw[key] != "" then c.parseJson(raw[key]) else None
  }

  /** No stored JSON override replaces a default object by something else. */
  ghost predicate StoredKeepObjects(c: Codec, spec: DomainSpec, raw: map<string, string>) {
    forall key :: key in spec.schema && spec.schema[key] == JsonKind && key in spec.defaults
                  && StoredJson(c, raw, key).Some?
      ==> KeepsObjects(spec.defaults[key], StoredJson(c, raw, key).value)
  }

  /** The patch clears no string field whose default is not empty. */
  ghost predicate PatchStringsKept(spec: DomainSpec, patch: Patch) {
    forall key :: key in spec.schema && spec.schema[key] == StringKind && (key, Some(JStr(""))) in patch
      ==> Field(spec.defaults, key) == Some(JStr(""))
  }

  lemma PatchedFieldSurvives(c: Codec, spec: DomainSpec, raw: map<string, string>, current: map<string, Json>,
                             patch: Patch, key: string, v: Json)
    requires IsConfig(c, spec, raw, current) && StoredKeepObjects(c, spec, raw) && PatchStringsKept(spec, patch)
    requires key in spec.schema && (key, Some(v)) in patch
    ensures Survives(spec.schema[key], Field(spec.defaults, key), NextValue(spec.schema[key], Field(current, key), v))
  {
    assert Field(current, key) == FieldOf(c, spec, raw, key);
    if spec.schema[key] == JsonKind {
      JsonSurvivesPatch(Field(spec.defaults, key), StoredJson(c, raw, key), v);
    }
  }

  /** In terms of what is stored and what is sent: stored JSON overrides that keep objects and a patch that clears no
      string make every update read back exactly. */
  lemma UpdateReadsBack(c: Codec, spec: DomainSpec, raw: map<string, string>, current: map<string, Json>,
                        patch: Patch, after: map<string, Json>)
    requires Faithful(c) && IsConfig(c, spec, raw, current) && Prepare(c, spec, current, patch).Ok?
    requires IsConfig(c, spec, raw + Prepare(c, spec, current, patch).value.normalized, after)
    requires StoredKeepObjects(c, spec, raw) && PatchStringsKept(spec, patch)
    ensures after == Prepare(c, spec, current, patch).value.candidate
  {
    var p := Prepare(c, spec, current, patch).value;
    forall key | key in p.normalized
      ensures key in spec.schema && key in p.candidate
              && Survives(spec.schema[key], Field(spec.defaults, key), p.candidate[key])
    {
      var v := PreparedFrom(c, spec, current, patch, key);
      PatchedFieldSurvives(c, spec, raw, current, patch, key, v);
    }
    UpdateRoundTrip(c, spec, raw, current, patch, after);
  }

  /** What an update of a registered domain answers and stores. */
  ghost predicate Updated(c: Codec, spec: DomainSpec, raw: map<string, string>, patch: Patch, raw': map<string, string>,
                          r: Result<map<string, Json>, ConfigError>)
  {
    exists current :: IsConfig(c, spec, raw, current) && UpdatedFrom(c, spec, raw, current, patch, raw', r)
  }

  ghost predicate UpdatedFrom(c: Codec, spec: DomainSpec, raw: map<string, string>, current: map<string, Json>,
                              patch: Patch, raw': map<string, string>, r: Result<map<string, Json>, ConfigError>)
  {
    match Prepare(c, spec, current, patch)
    case Err(e) => r == Err(e)
    case Ok(p) =>
      if !spec.validate(p.candidate) then r == Err(Rejected)
      else r.Ok? && Accepted(c, spec, raw, current, patch, p, raw', r.value)
  }

  /** An accepted update stores the texts of the whole patch and answers with what it reads back. */
  ghost predicate Accepted(c: Codec, spec: DomainSpec, raw: map<string, string>, current: map<string, Json>,
                           patch: Patch, p: Prepared, raw': map<string, string>, after: map<string, Json>)
  {
    && Applied(c, spec, current, patch, p) && spec.validate(p.candidate)
    && raw' == raw + p.normalized && IsConfig(c, spec, raw', after)
    && (Faithful(c) ==> (after == p.candidate <==> AllSurvive(spec, p)) && ReadsBack(spec, current, patch, after))
    && (Faithful(c) && StoredKeepObjects(c, spec, raw) && PatchStringsKept(spec, patch) ==> after == p.candidate)
    && (forall key :: key !in p.normalized ==> Field(after, key) == Field(current, key))
  }

  /** Every value given last that survives is what is read; a field that was given none reads as before. */
  ghost predicate ReadsBack(spec: DomainSpec, current: map<string, Json>, patch: Patch, after: map<string, Json>) {
    && (forall key, i: nat, v :: LastGiven(patch, key, i, v) ==> GivenReadsBack(spec, current, key, v, after))
    && (forall key :: !Given(patch, key) ==> Field(after, key) == Field(current, key))
  }

  ghost predicate GivenReadsBack(spec: DomainSpec, current: map<string, Json>, key: string, v: Json,
                                 after: map<string, Json>)
  {
    && key in spec.schema
    && (Survives(spec.schema[key], Field(spec.defaults, key), NextValue(spec.schema[key], Field(current, key), v)) <==>
        Field(after, key) == Some(NextValue(spec.schema[key], Field(current, key), v)))
  }

  lemma AppliedReadsBack(c: Codec, spec: DomainSpec, raw: map<string, string>, current: map<string, Json>, patch: Patch,
                         p: Prepared, after: map<string, Json>)
    requires Faithful(c) && IsConfig(c, spec, raw, current) && Applied(c, spec, current, patch, p)
    requires IsConfig(c, spec, raw + p.normalized, after)
    ensures ReadsBack(spec, current, patch, after)
  {
    UnwrittenField(c, spec, raw, current, p, after);
    forall key, i: nat, v | LastGiven(patch, key, i, v) ensures GivenReadsBack(spec, current, key, v, after) {
      assert WrittenAs(c, spec, current, key, v, p);
      assert Field(after, key) == FieldOf(c, spec, raw + p.normalized, key);
      WrittenField(c, spec, raw + p.normalized, key, NextValue(spec.schema[key], Field(current, key), v),
                   p.normalized[key]);
    }
  }

  lemma UpdateIsExact(c: Codec, spec: DomainSpec, raw: map<string, string>, current: map<string, Json>,
                      patch: Patch, raw': map<string, string>, after: map<string, Json>)
    requires IsConfig(c, spec, raw, current) && Prepare(c, spec, current, patch).Ok?
    requires spec.validate(Prepare(c, spec, current, patch).value.candidate)
    requires raw' == raw + Prepare(c, spec, current, patch).value.normalized && IsConfig(c, spec, raw', after)
    ensures Updated(c, spec, raw, patch, raw', Ok(after))
  {
    var p := Prepare(c, spec, current, patch).value;
    PrepareIsWell(c, spec, current, patch);
    UnwrittenField(c, spec, raw, current, p, after);
    PrepareApplies(c, spec, current, patch);
    if Faithful(c) {
      AppliedReadsBack(c, spec, raw, current, patch, p, after);
      UpdateRoundTrip(c, spec, raw, current, patch, after);
      if StoredKeepObjects(c, spec, raw) && PatchStringsKept(spec, patch) {
        UpdateReadsBack(c, spec, raw, current, patch, after);
      }
    }
  }

  lemma UnwrittenField(c: Codec, spec: DomainSpec, raw: map<string, string>, current: map<string, Json>, p: Prepared,
                       after: map<string, Json>)
    requires IsConfig(c, spec, raw, current) && IsConfig(c, spec, raw + p.normalized, after)
    ensures forall key :: key !in p.normalized ==> Field(after, key) == Field(current, key)
  {
    forall key | key !in p.normalized ensures Field(after, key) == Field(current, key) {
      assert Field(after, key) == FieldOf(c, spec, raw + p.normalized, key);
      assert Field(current, key) == FieldOf(c, spec, raw, key);
    }
  }

  // ---------- The service ----------

  class RuntimeConfigService {
    const codec: Codec
    var registry: map<string, DomainSpec>
    /** The backing store: one hash of texts per domain. */
    var store: map<string, map<string, string>>

    constructor (codec: Codec)
      ensures this.codec == codec && registry == map[] && store == map[]
    {
      this.codec := codec;
      registry, store := map[], map[];
    }

    function Stored(domain: string): map<string, string>
      reads this
    {
      if domain in store then store[domain] else map[]
    }

    method RegisterDomain(domain: string, spec: DomainSpec)
      modifies this
      ensures registry == old(registry)[domain := spec] && store == old(store)
    {
      registry := registry[domain := spec];
    }

    method Get(domain: string) returns (r: Result<map<string, Json>, ConfigError>)
      ensures domain !in registry ==> r == Err(DomainNotRegistered)
      ensures domain in registry ==> r.Ok? && IsConfig(codec, registry[domain], Stored(domain), r.value)
    {
      if domain !in registry {
        return Err(DomainNotRegistered);
      }
      var out := ReadConfig(codec, registry[domain], Stored(domain));
      return Ok(out);
    }

    /** Validates the whole candidate before anything is written. */
    method Update(domain: string, patch: Patch)
      returns (r: Result<map<string, Json>, ConfigError>)
      modifies this
      ensures registry == old(registry)
      ensures r.Err? ==> store == old(store)
      ensures domain !in registry ==> r == Err(DomainNotRegistered)
      ensures domain in registry ==>
                Updated(codec, registry[domain], old(Stored(domain)), patch, Stored(domain), r)
      ensures forall d :: d != domain ==> Stored(d) == old(Stored(d))
    {
      if domain !in registry {
        return Err(DomainNotRegistered);
      }
      var spec := registry[domain];
      var current := ReadConfig(codec, spec, Stored(domain));
      var so := Prepared(current, map[]);
      for n := 0 to |patch|
        invariant Prepare(codec, spec, current, patch[..n]) == Ok(so)
        invariant store == old(store) && registry == old(registry)
      {
        assert patch[..n + 1][..n] == patch[..n];
        var entry := PrepareEntry(codec, spec, current, so, patch[n].0, patch[n].1);
        if entry.Err? {
          PrepareFailsEarly(codec, spec, current, patch, n + 1);
          return Err(entry.error);
        }
        so := entry.value;
      }
      assert patch[..|patch|] == patch;
      if !spec.validate(so.candidate) {
        return Err(Rejected);
      }
      if so.normalized != map[] {
        store := store[domain := Stored(domain) + so.normalized];
      }
      assert Stored(domain) == old(Stored(domain)) + so.normalized;
      var after := ReadConfig(codec, spec, Stored(domain));
      UpdateIsExact(codec, spec, old(Stored(domain)), current, patch, Stored(domain), after);
      return Ok(after);
    }

    /** Clearing the store brings back the defaults. */
    method Reset(domain: string) returns (r: Result<map<string, Json>, ConfigError>)
      modifies this
      ensures registry == old(registry)
      ensures domain !in registry ==> r == Err(DomainNotRegistered) && store == old(store)
      ensures domain in registry ==> store == old(store) - {domain} && r == Ok(registry[domain].defaults)
    {
      if domain !in registry {
        return Err(DomainNotRegistered);
      }
      store := store - {domain};
      var out := ReadConfig(codec, registry[domain], Stored(domain));
      SameFields(out, registry[domain].defaults);
      return Ok(out);
    }
  }

  /** The first bad entry decides the error. */
  lemma {:induction false} PrepareFailsEarly(c: Codec, spec: DomainSpec, current: map<string, Json>,
                                             patch: Patch, n: nat)
    requires n <= |patch| && Prepare(c, spec, current, patch[..n]).Err?
    ensures Prepare(c, spec, current, patch) == Prepare(c, spec, current, patch[..n])
    decreases |patch|
  {
    if n < |patch| {
      assert patch[..|patch| - 1][..n] == patch[..n];
      PrepareFailsEarly(c, spec, current, patch[..|patch| - 1], n);
    } else {
      assert patch[..n] == patch;
    }
  }
}
