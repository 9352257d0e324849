/** The demands on number and JSON texts can be met: a codec that meets them, and updates under any such codec that do
    not read back. */
module FaithfulCodec {
  import opened Collections
  import opened JsonMerge
  import opened RuntimeConfig
  import StableJoin

  // ---------- Printing ----------

  function PrintNum(n: Num): string {
    StableJoin.Numeral(n)
  }

  /** The keys in some order; which one does not matter. */
  ghost function KeyList(keys: set<string>): (r: seq<string>)
    ensures forall k :: k in r <==> k in keys
  {
    if keys == {} then []
    else
      var k :| k in keys;
      [k] + KeyList(keys - {k})
  }

  /** A tag, then the printed parts. */
  ghost function Print(j: Json): string
    decreases j, 1
  {
    match j
    case JNull => StableJoin.StableJoin(["null"])
    case JBool(b) => StableJoin.StableJoin(["bool", if b then "1" else "0"])
    case JNum(n) => StableJoin.StableJoin(["number", PrintNum(n)])
    case JStr(s) => StableJoin.StableJoin(["string", s])
    case JArr(items) => StableJoin.StableJoin(["array"] + PrintItems(items))
    case JObj(fields) => StableJoin.StableJoin(["object"] + PrintFields(j, KeyList(fields.Keys)))
  }

  ghost function PrintItems(items: seq<Json>): (r: seq<string>)
    ensures |r| == |items|
    decreases items, 0
  {
    if items == [] then [] else [Print(items[0])] + PrintItems(items[1..])
  }

  /** Key and value in turn, for the listed keys. */
  ghost function PrintFields(j: Json, keys: seq<string>): (r: seq<string>)
    requires j.JObj? && forall k :: k in keys ==> k in j.fields
    ensures |r| == 2 * |keys|
    decreases j, 0, keys
  {
    if keys == [] then [] else [keys[0], Print(j.fields[keys[0]])] + PrintFields(j, keys[1..])
  }

  // ---------- Printing is injective ----------

  lemma JoinedEqual(a: seq<string>, b: seq<string>)
    requires StableJoin.StableJoin(a) == StableJoin.StableJoin(b)
    ensures a == b
  {
    StableJoin.DecodeStableJoin(a);
    StableJoin.DecodeStableJoin(b);
  }

  lemma JoinedNonEmpty(parts: seq<string>)
    requires parts != []
    ensures StableJoin.StableJoin(parts) != ""
  {
    StableJoin.DecodePartsRoundTrip(parts);
  }

  lemma PrintNumInjective(a: Num, b: Num)
    requires PrintNum(a) == PrintNum(b)
    ensures a == b
  {
    StableJoin.NumeralValue(a);
    StableJoin.NumeralValue(b);
  }

  ghost function Tag(j: Json): string {
    match j
    case JNull => "null"
    case JBool(_) => "bool"
    case JNum(_) => "number"
    case JStr(_) => "string"
    case JArr(_) => "array"
    case JObj(_) => "object"
  }

  /** What is printed after the tag. */
  ghost function Payload(j: Json): seq<string> {
    match j
    case JNull => []
    case JBool(b) => [if b then "1" else "0"]
    case JNum(n) => [PrintNum(n)]
    case JStr(s) => [s]
    case JArr(items) => PrintItems(items)
    case JObj(fields) => PrintFields(j, KeyList(fields.Keys))
  }

  lemma PrintTagged(j: Json)
    ensures Print(j) == StableJoin.StableJoin([Tag(j)] + Payload(j))
    ensures Print(j) != ""
  {
    JoinedNonEmpty([Tag(j)] + Payload(j));
    match j
    case JNull => assert ["null"] + [] == ["null"];
    case JBool(b) => assert ["bool"] + Payload(j) == ["bool", if b then "1" else "0"];
    case JNum(n) => assert ["number"] + Payload(j) == ["number", PrintNum(n)];
    case JStr(s) => assert ["string"] + Payload(j) == ["string", s];
    case JArr(_) =>
    case JObj(_) =>
  }

  lemma TagsDiffer(a: Json, b: Json)
    requires Tag(a) == Tag(b)
    ensures a.JNull? == b.JNull? && a.JBool? == b.JBool? && a.JNum? == b.JNum? && a.JStr? == b.JStr?
    ensures a.JArr? == b.JArr? && a.JObj? == b.JObj?
  {
    assert "null"[..2] == "nu" && "number"[..3] == "num" && "null"[..3] == "nul";
    assert |Tag(a)| == |Tag(b)| && Tag(a)[0] == Tag(b)[0] && Tag(a)[1] == Tag(b)[1];
  }

  lemma {:induction false} PrintInjective(a: Json, b: Json)
    requires Print(a) == Print(b)
    ensures a == b
    decreases a, 1
  {
    PrintTagged(a);
    PrintTagged(b);
    JoinedEqual([Tag(a)] + Payload(a), [Tag(b)] + Payload(b));
    assert ([Tag(a)] + Payload(a))[0] == Tag(a) && ([Tag(b)] + Payload(b))[0] == Tag(b);
    assert ([Tag(a)] + Payload(a))[1..] == Payload(a) && ([Tag(b)] + Payload(b))[1..] == Payload(b);
    TagsDiffer(a, b);
    PayloadInjective(a, b);
  }

  lemma {:induction false} PayloadInjective(a: Json, b: Json)
    requires Tag(a) == Tag(b) && Payload(a) == Payload(b)
    ensures a == b
    decreases a, 0, 1
  {
    TagsDiffer(a, b);
    match a
    case JNull =>
    case JBool(x) =>
      assert Payload(a)[0] == Payload(b)[0] && "1"[0] != "0"[0];
    case JNum(n) =>
      assert Payload(a)[0] == Payload(b)[0];
      PrintNumInjective(n, b.n);
    case JStr(s) =>
      assert Payload(a)[0] == Payload(b)[0];
    case JArr(items) =>
      ItemsInjective(items, b.items);
    case JObj(fields) =>
      var keys, keys' := KeyList(fields.Keys), KeyList(b.fields.Keys);
      FieldKeys(a, keys, b, keys');
      assert fields.Keys == b.fields.Keys;
      forall k | k in fields ensures fields[k] == b.fields[k] {
        FieldsInjective(a, b, keys, k);
      }
  }

  lemma {:induction false} ItemsInjective(a: seq<Json>, b: seq<Json>)
    requires PrintItems(a) == PrintItems(b)
    ensures a == b
    decreases a
  {
    if a != [] {
      assert PrintItems(a)[0] == PrintItems(b)[0] && PrintItems(a)[1..] == PrintItems(b)[1..];
      assert PrintItems(a)[1..] == PrintItems(a[1..]) && PrintItems(b)[1..] == PrintItems(b[1..]);
      PrintInjective(a[0], b[0]);
      ItemsInjective(a[1..], b[1..]);
      assert a == [a[0]] + a[1..] && b == [b[0]] + b[1..];
    }
  }

  /** Equal printed fields list equal keys. */
  lemma {:induction false} FieldKeys(a: Json, keys: seq<string>, b: Json, keys': seq<string>)
    requires a.JObj? && (forall k :: k in keys ==> k in a.fields)
    requires b.JObj? && (forall k :: k in keys' ==> k in b.fields)
    requires PrintFields(a, keys) == PrintFields(b, keys')
    ensures keys == keys'
    decreases keys
  {
    if keys != [] {
      assert keys' != [];
      var p, q := PrintFields(a, keys), PrintFields(b, keys');
      assert p[0] == keys[0] && q[0] == keys'[0];
      assert p[2..] == PrintFields(a, keys[1..]) && q[2..] == PrintFields(b, keys'[1..]);
      FieldKeys(a, keys[1..], b, keys'[1..]);
      assert keys == [keys[0]] + keys[1..] && keys' == [keys'[0]] + keys'[1..];
    }
  }

  lemma {:induction false} FieldsInjective(a: Json, b: Json, keys: seq<string>, k: string)
    requires a.JObj? && b.JObj? && forall x :: x in keys ==> x in a.fields && x in b.fields
    requires PrintFields(a, keys) == PrintFields(b, keys) && k in keys
    ensures a.fields[k] == b.fields[k]
    decreases a, 0, 0, keys
  {
    var p, q := PrintFields(a, keys), PrintFields(b, keys);
    if keys[0] == k {
      assert p[1] == Print(a.fields[k]) && q[1] == Print(b.fields[k]);
      PrintInjective(a.fields[k], b.fields[k]);
    } else {
      assert p[2..] == PrintFields(a, keys[1..]) && q[2..] == PrintFields(b, keys[1..]);
      FieldsInjective(a, b, keys[1..], k);
    }
  }

  // ---------- A faithful codec ----------

  ghost function ParseNum(s: string): Option<Num> {
    if n :| PrintNum(n) == s then Some(n) else None
  }

  ghost function ParseText(s: string): Option<Json> {
    if j :| Print(j) == s then Some(j) else None
  }

  ghost function PrintText(j: Json): string {
    Print(j)
  }

  lemma NumParsesBack(n: Num)
    ensures ParseNum(PrintNum(n)) == Some(n) && PrintNum(n) != ""
  {
    StableJoin.NumeralValue(n);
    PrintNumInjective(ParseNum(PrintNum(n)).value, n);
  }

  lemma TextParsesBack(j: Json)
    ensures ParseText(PrintText(j)) == Some(j) && PrintText(j) != ""
  {
    PrintTagged(j);
    PrintInjective(ParseText(Print(j)).value, j);
  }

  /** Some number and JSON texts are as demanded. */
  lemma FaithfulExists()
    ensures exists c :: Faithful(c)
  {
    var c := Codec(PrintNum, ParseNum, PrintText, ParseText);
    forall n: Num ensures c.parseNumber(c.printNumber(n)) == Some(n) && c.printNumber(n) != "" {
      NumParsesBack(n);
    }
    forall j: Json ensures c.parseJson(c.printJson(j)) == Some(j) && c.printJson(j) != "" {
      TextParsesBack(j);
    }
    assert Faithful(c);
  }

  // ---------- Updates that do not read back ----------

  const ANY_CONFIG: map<string, Json> -> bool := _ => true

  lemma PrepareOne(c: Codec, spec: DomainSpec, current: map<string, Json>, key: string, v: Json)
    ensures Prepare(c, spec, current, [(key, Some(v))]) ==
            PrepareEntry(c, spec, current, Prepared(current, map[]), key, Some(v))
  {
    var patch: seq<(string, Option<Json>)> := [(key, Some(v))];
    assert patch[..|patch| - 1] == [];
  }

  /** A single field of one kind. */
  function OneField(kind: Kind, base: Json): DomainSpec {
    DomainSpec(map["field" := kind], map["field" := base], ANY_CONFIG)
  }

  /** The answer to a patch of the single field, when the patch can be serialized. */
  lemma OneFieldUpdated(c: Codec, kind: Kind, base: Json, raw: map<string, string>, now: Json, v: Json,
                        raw': map<string, string>, r: Result<map<string, Json>, ConfigError>)
    requires FieldOf(c, OneField(kind, base), raw, "field") == Some(now)
    requires SerializeValue(c, kind, NextValue(kind, Some(now), v)).Ok?
    requires Updated(c, OneField(kind, base), raw, [("field", Some(v))], raw', r)
    ensures raw' == raw + map["field" := SerializeValue(c, kind, NextValue(kind, Some(now), v)).value]
    ensures r.Ok? && Field(r.value, "field") == FieldOf(c, OneField(kind, base), raw', "field")
  {
    var spec := OneField(kind, base);
    var current :| IsConfig(c, spec, raw, current)
                   && UpdatedFrom(c, spec, raw, current, [("field", Some(v))], raw', r);
    assert Field(current, "field") == FieldOf(c, spec, raw, "field");
    PrepareOne(c, spec, current, "field", v);
    assert Field(r.value, "field") == FieldOf(c, spec, raw', "field");
  }

  /** A string field whose default is not empty, and a patch that clears it: the answer has the default. */
  lemma ClearedStringReturns(c: Codec, base: string, raw': map<string, string>,
                             r: Result<map<string, Json>, ConfigError>)
    requires Updated(c, OneField(StringKind, JStr(base)), map[], [("field", Some(JStr("")))], raw', r)
    ensures r.Ok? && Field(r.value, "field") == Some(JStr(base))
  {
    OneFieldUpdated(c, StringKind, JStr(base), map[], JStr(base), JStr(""), raw', r);
  }

  function DefaultObject(): Json {
    JObj(map["a" := JNum(0)])
  }

  function WrittenObject(): Json {
    JObj(map["b" := JNum(1)])
  }

  /** A JSON field whose default object was replaced by a number, and a patch that writes an object again: the
      candidate is that object, but the answer has the default's key merged back in. */
  lemma ReplacedObjectReturns(c: Codec, raw: map<string, string>, raw': map<string, string>,
                              r: Result<map<string, Json>, ConfigError>)
    requires Faithful(c) && raw == map["field" := c.printJson(JNum(0))]
    requires Updated(c, OneField(JsonKind, DefaultObject()), raw, [("field", Some(WrittenObject()))], raw', r)
    ensures NextValue(JsonKind, FieldOf(c, OneField(JsonKind, DefaultObject()), raw, "field"), WrittenObject())
         == WrittenObject()
    ensures r.Ok? && Field(r.value, "field") == Some(DeepMerge(DefaultObject(), WrittenObject()))
    ensures DeepMerge(DefaultObject(), WrittenObject()) != WrittenObject()
  {
    StoredReadsBack(c, JNum(0), raw);
    OneFieldUpdated(c, JsonKind, DefaultObject(), raw, JNum(0), WrittenObject(), raw', r);
    StoredReadsBack(c, WrittenObject(), raw');
    DefaultKeyReturns();
  }

  lemma StoredReadsBack(c: Codec, v: Json, raw: map<string, string>)
    requires Faithful(c) && "field" in raw && raw["field"] == c.printJson(v)
    ensures FieldOf(c, OneField(JsonKind, DefaultObject()), raw, "field") == Some(DeepMerge(DefaultObject(), v))
  {
    assert c.parseJson(c.printJson(v)) == Some(v) && c.printJson(v) != "";
  }

  lemma DefaultKeyReturns()
    ensures DeepMerge(DefaultObject(), WrittenObject()) != WrittenObject()
  {
    MergeKeys(DefaultObject(), WrittenObject());
    assert "a" in DeepMerge(DefaultObject(), WrittenObject()).fields && "a" !in WrittenObject().fields;
  }
}
