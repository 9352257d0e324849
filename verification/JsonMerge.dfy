/** JSON values and the deep merge of an override into defaults. */
module JsonMerge {

  /** The bits of a double that is finite and not the negative zero, which prints like zero. */
  predicate FiniteDouble(bits: nat) {
    bits < 0x7FF0_0000_0000_0000 || 0x8000_0000_0000_0000 < bits < 0xFFF0_0000_0000_0000
  }

  /** A finite number, identified by its bits. */
  type Num = bits: nat | FiniteDouble(bits)

  datatype Json = JNull | JBool(b: bool) | JNum(n: Num) | JStr(s: string) | JArr(items: seq<Json>)
                | JObj(fields: map<string, Json>)

  /** Objects are merged key by key; anything else is replaced. */
  function DeepMerge(target: Json, source: Json): Json
    decreases source
  {
    if !target.JObj? || !source.JObj? then source
    else JObj(map k | k in target.fields.Keys + source.fields.Keys :: MergedField(target, source, k))
  }

  function MergedField(target: Json, source: Json, k: string): Json
    requires target.JObj? && source.JObj? && k in target.fields.Keys + source.fields.Keys
    decreases source, 0
  {
    if k !in source.fields then target.fields[k]
    else if k in target.fields && target.fields[k].JObj? && source.fields[k].JObj?
    then DeepMerge(target.fields[k], source.fields[k])
    else source.fields[k]
  }

  /** The recursive merge with its loop over the entries of the source on a copy of the target. */
  method DeepMergeJson(target: Json, source: Json) returns (r: Json)
    ensures r == DeepMerge(target, source)
    decreases source
  {
    if !target.JObj? || !source.JObj? {
      return source;
    }
    var out := target.fields;
    var rest := source.fields.Keys;
    while rest != {}
      invariant rest <= source.fields.Keys
      invariant out.Keys == target.fields.Keys + (source.fields.Keys - rest)
      invariant forall k :: k in out ==>
                  out[k] == if k in rest then target.fields[k] else MergedField(target, source, k)
      decreases |rest|
    {
      var key :| key in rest;
      var value := source.fields[key];
      if key in out && out[key].JObj? && value.JObj? {
        var merged := DeepMergeJson(out[key], value);
        out := out[key := merged];
      } else {
        out := out[key := value];
      }
      rest := rest - {key};
    }
    assert source.fields.Keys - {} == source.fields.Keys;
    MergeFromFields(target, source, out);
    r := JObj(out);
  }

  lemma MergeFromFields(target: Json, source: Json, out: map<string, Json>)
    requires target.JObj? && source.JObj? && out.Keys == target.fields.Keys + source.fields.Keys
    requires forall k :: k in out ==> out[k] == MergedField(target, source, k)
    ensures JObj(out) == DeepMerge(target, source)
  {
    assert out == DeepMerge(target, source).fields;
  }

  // ---------- Laws ----------

  /** Every object of `d` meets, in `x`, a non-object or an object that still has all its keys. */
  ghost predicate Covers(d: Json, x: Json)
    decreases d
  {
    d.JObj? && x.JObj? ==>
      forall k :: k in d.fields ==> k in x.fields && Covers(d.fields[k], x.fields[k])
  }

  /** `s` never replaces an object of `d` by something else. */
  ghost predicate KeepsObjects(d: Json, s: Json)
    decreases d
  {
    d.JObj? ==> s.JObj? && forall k :: k in d.fields && k in s.fields ==> KeepsObjects(d.fields[k], s.fields[k])
  }

  lemma MergeKeys(t: Json, s: Json)
    requires t.JObj? && s.JObj?
    ensures DeepMerge(t, s).JObj? && DeepMerge(t, s).fields.Keys == t.fields.Keys + s.fields.Keys
    ensures forall k :: k in t.fields.Keys + s.fields.Keys ==> DeepMerge(t, s).fields[k] == MergedField(t, s, k)
  {
  }

  /** Merging the same override again changes nothing. */
  lemma {:induction false} MergeIdempotent(t: Json, s: Json)
    ensures DeepMerge(DeepMerge(t, s), s) == DeepMerge(t, s)
    decreases s
  {
    if t.JObj? && s.JObj? {
      var m := DeepMerge(t, s);
      MergeKeys(t, s);
      MergeKeys(m, s);
      forall k | k in m.fields ensures DeepMerge(m, s).fields[k] == m.fields[k] {
        if k in s.fields && s.fields[k].JObj? {
          if k in t.fields && t.fields[k].JObj? {
            MergeIdempotent(t.fields[k], s.fields[k]);
          } else {
            MergeSelf(s.fields[k]);
          }
        }
      }
      assert DeepMerge(m, s).fields == m.fields;
    } else {
      MergeSelf(s);
    }
  }

  lemma {:induction false} MergeSelf(s: Json)
    ensures DeepMerge(s, s) == s
    decreases s
  {
    if s.JObj? {
      MergeKeys(s, s);
      forall k | k in s.fields ensures DeepMerge(s, s).fields[k] == s.fields[k] {
        MergeSelf(s.fields[k]);
      }
      assert DeepMerge(s, s).fields == s.fields;
    }
  }

  /** Merging `x` into `d` gives `x` back if and only if `x` covers `d`. */
  lemma {:induction false} MergeAbsorbedIff(d: Json, x: Json)
    ensures DeepMerge(d, x) == x <==> Covers(d, x)
    decreases x
  {
    if d.JObj? && x.JObj? {
      MergeKeys(d, x);
      forall k | k in d.fields && k in x.fields
        ensures MergedField(d, x, k) == x.fields[k] <==> Covers(d.fields[k], x.fields[k])
      {
        MergeAbsorbedIff(d.fields[k], x.fields[k]);
      }
      if Covers(d, x) {
        assert DeepMerge(d, x).fields.Keys == x.fields.Keys;
        forall k | k in x.fields ensures DeepMerge(d, x).fields[k] == x.fields[k] {
        }
        assert DeepMerge(d, x).fields == x.fields;
      }
      if DeepMerge(d, x) == x {
        forall k | k in d.fields ensures k in x.fields && Covers(d.fields[k], x.fields[k]) {
          assert k in DeepMerge(d, x).fields && DeepMerge(d, x).fields[k] == x.fields[k];
        }
      }
    }
  }

  /** An override that keeps objects leaves room for any later patch: the patched value still covers the defaults. */
  lemma {:induction false} PatchedCovers(d: Json, s: Json, v: Json)
    requires KeepsObjects(d, s)
    ensures Covers(d, DeepMerge(DeepMerge(d, s), v))
    decreases d
  {
    if d.JObj? && v.JObj? {
      var c := DeepMerge(d, s);
      var x := DeepMerge(c, v);
      MergeKeys(d, s);
      MergeKeys(c, v);
      forall k | k in d.fields ensures k in x.fields && Covers(d.fields[k], x.fields[k]) {
        PatchedFieldCovers(d, s, v, k);
      }
    }
  }

  lemma {:induction false} PatchedFieldCovers(d: Json, s: Json, v: Json, k: string)
    requires d.JObj? && s.JObj? && v.JObj? && KeepsObjects(d, s) && k in d.fields
    ensures k in DeepMerge(DeepMerge(d, s), v).fields
    ensures Covers(d.fields[k], DeepMerge(DeepMerge(d, s), v).fields[k])
    decreases d, 0
  {
    var c := DeepMerge(d, s);
    var dk, ck := d.fields[k], c.fields[k];
    MergeKeys(d, s);
    MergeKeys(c, v);
    if dk.JObj? {
      if k in s.fields {
        assert ck == DeepMerge(dk, s.fields[k]);
        MergeCovers(dk, s.fields[k]);
        if k in v.fields {
          PatchedCovers(dk, s.fields[k], v.fields[k]);
        }
      } else {
        CoversSelf(dk);
        if k in v.fields {
          MergeSelf(dk);
          KeepsObjectsSelf(dk);
          PatchedCovers(dk, dk, v.fields[k]);
        }
      }
    }
  }

  lemma {:induction false} CoversSelf(d: Json)
    ensures Covers(d, d)
    decreases d
  {
    if d.JObj? {
      forall k | k in d.fields ensures Covers(d.fields[k], d.fields[k]) {
        CoversSelf(d.fields[k]);
      }
    }
  }

  lemma {:induction false} KeepsObjectsSelf(d: Json)
    ensures KeepsObjects(d, d)
    decreases d
  {
    if d.JObj? {
      forall k | k in d.fields ensures KeepsObjects(d.fields[k], d.fields[k]) {
        KeepsObjectsSelf(d.fields[k]);
      }
    }
  }

  /** A merge always covers what it was merged into. */
  lemma {:induction false} MergeCovers(d: Json, s: Json)
    ensures Covers(d, DeepMerge(d, s))
    decreases d
  {
    if d.JObj? && s.JObj? {
      MergeKeys(d, s);
      forall k | k in d.fields ensures Covers(d.fields[k], DeepMerge(d, s).fields[k]) {
        if k !in s.fields {
          CoversSelf(d.fields[k]);
        } else if d.fields[k].JObj? && s.fields[k].JObj? {
          MergeCovers(d.fields[k], s.fields[k]);
        }
      }
    }
  }

  /** Without that condition a patch can be lost: the override `1` replaced the default object, the patch `{b: 2}` then
      replaces the `1`, and reading it back merges the default key in again. */
  lemma LostWithoutKeepingObjects()
    ensures var d := JObj(map["a" := JNum(0)]);
            var x := DeepMerge(DeepMerge(d, JNum(0)), JObj(map["b" := JNum(1)]));
            DeepMerge(d, x) != x
  {
    var d := JObj(map["a" := JNum(0)]);
    var x := DeepMerge(DeepMerge(d, JNum(0)), JObj(map["b" := JNum(1)]));
    MergeKeys(d, x);
    assert "a" in DeepMerge(d, x).fields && "a" !in x.fields;
  }
}
