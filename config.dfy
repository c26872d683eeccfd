/** Configuration key validation: the recursive filter that drops the keys a dataclass
    schema does not declare and reports their dotted or indexed paths, and the
    PASS/WARN/FAIL decision of loading a configuration, strict or not. */
module Config {
  import opened Wrappers
  import opened Ordering
  import Combinatorics

  // ---------------------------------------------------------------------------
  // Values and schemas

  /** A parsed YAML value: null, a scalar (its str() text and its Python truth value), a
      mapping (its entries in insertion order; YAML mappings have distinct keys) or a list. */
  datatype Value =
    | Null
    | Scalar(text: string, truthy: bool)
    | Mapping(entries: seq<Entry>)
    | List(items: seq<Value>)

  datatype Entry = Entry(key: string, value: Value)

  /** The declared type of a dataclass field: a plain value, a nested dataclass, or a list of
      a dataclass. */
  datatype FieldType = Leaf | Nested(schema: Schema) | ListOf(schema: Schema)

  datatype Field = Field(name: string, ftype: FieldType)

  /** A dataclass: its fields in declaration order. */
  datatype Schema = Schema(fields: seq<Field>)

  /** The type of the first field named k, if any. */
  function FieldTypeOf(fields: seq<Field>, k: string): (r: Option<FieldType>)
    ensures r.None? <==> forall i :: 0 <= i < |fields| ==> fields[i].name != k
    ensures r.Some? ==> exists i :: 0 <= i < |fields| && fields[i] == Field(k, r.value)
  {
    if fields == [] then None
    else if fields[0].name == k then Some(fields[0].ftype)
    else
      var r := FieldTypeOf(fields[1..], k);
      assert r.Some? ==> exists i :: 1 <= i < |fields| && fields[i] == Field(k, r.value) by {
        if r.Some? {
          var i :| 0 <= i < |fields[1..]| && fields[1..][i] == Field(k, r.value);
          assert fields[i + 1] == Field(k, r.value);
        }
      }
      r
  }

  /** How the filter sees a field's declared type. With postponed evaluation of annotations
      (`from __future__ import annotations`) the type recorded for a dataclass field is the
      annotation's text, which is neither a dataclass nor a parameterised list, so every field
      is seen as a plain value; evaluated annotations give the declared type. */
  datatype Annotations = Postponed | Evaluated

  function Seen(a: Annotations, ft: FieldType): (r: FieldType)
    ensures a == Evaluated ==> r == ft
    ensures a == Postponed ==> r == Leaf
  {
    if a == Postponed then Leaf else ft
  }

  // ---------------------------------------------------------------------------
  // Paths

  /** The path of key k under prefix: `prefix.k`, or the bare key at the top level. */
  function Join(prefix: string, k: string): (p: string)
    ensures prefix == "" ==> p == k
    ensures prefix != "" ==> p == prefix + "." + k
  {
    if prefix == "" then k else prefix + "." + k
  }

  function DigitChar(d: nat): char
    requires d < 10
  {
    "0123456789"[d]
  }

  /** The decimal text of n. */
  function Digits(n: nat): (s: string)
    ensures |s| >= 1
  {
    if n < 10 then [DigitChar(n)] else Digits(n / 10) + [DigitChar(n % 10)]
  }

  /** The path of item i of the list at path: `path[i]`. */
  function Indexed(path: string, i: nat): string {
    path + "[" + Digits(i) + "]"
  }

  // ---------------------------------------------------------------------------
  // Sequence helpers

  /** The present values of a sequence of options, in order. */
  function Somes<T>(s: seq<Option<T>>): (r: seq<T>)
    ensures |r| <= |s|
  {
    if s == [] then [] else Somes(s[..|s| - 1]) + (if s[|s| - 1].Some? then [s[|s| - 1].value] else [])
  }

  lemma SomesStep<T>(s: seq<Option<T>>, i: nat)
    requires i < |s|
    ensures Somes(s[..i + 1]) == Somes(s[..i]) + (if s[i].Some? then [s[i].value] else [])
  {
    assert s[..i + 1][..i] == s[..i];
  }

  lemma {:induction false} SomesMember<T>(s: seq<Option<T>>, x: T)
    ensures x in Somes(s) <==> Some(x) in s
  {
    if s != [] {
      SomesMember(s[..|s| - 1], x);
      assert s == s[..|s| - 1] + [s[|s| - 1]];
    }
  }

  lemma {:induction false} SomesAll<T>(s: seq<Option<T>>, xs: seq<T>)
    requires |s| == |xs| && forall i :: 0 <= i < |s| ==> s[i] == Some(xs[i])
    ensures Somes(s) == xs
  {
    if s != [] {
      SomesAll(s[..|s| - 1], xs[..|xs| - 1]);
    }
  }

  /** The concatenation of a sequence of sequences. */
  function Flatten<T>(s: seq<seq<T>>): seq<T> {
    if s == [] then [] else Flatten(s[..|s| - 1]) + s[|s| - 1]
  }

  lemma FlattenStep<T>(s: seq<seq<T>>, i: nat)
    requires i < |s|
    ensures Flatten(s[..i + 1]) == Flatten(s[..i]) + s[i]
  {
    assert s[..i + 1][..i] == s[..i];
  }

  lemma {:induction false} FlattenMember<T>(s: seq<seq<T>>, x: T)
    ensures x in Flatten(s) <==> exists i :: 0 <= i < |s| && x in s[i]
  {
    if s != [] {
      var init := s[..|s| - 1];
      FlattenMember(init, x);
      if x in Flatten(s) && x !in s[|s| - 1] {
        var i :| 0 <= i < |init| && x in init[i];
        assert s[i] == init[i];
      }
      if exists i :: 0 <= i < |s| && x in s[i] {
        var i :| 0 <= i < |s| && x in s[i];
        if i < |init| {
          assert init[i] == s[i];
        }
      }
    }
  }

  lemma {:induction false} FlattenEmpty<T>(s: seq<seq<T>>)
    ensures Flatten(s) == [] <==> forall i :: 0 <= i < |s| ==> s[i] == []
  {
    if s != [] {
      FlattenEmpty(s[..|s| - 1]);
    }
  }

  // ---------------------------------------------------------------------------
  // The filter, as functions

  /** A mapping entry after filtering: None when its key is undeclared, otherwise the key
      with its value filtered by the field's type. */
  function EntryResult(a: Annotations, schema: Schema, e: Entry): Option<Entry>
    decreases e
  {
    match FieldTypeOf(schema.fields, e.key)
    case None => None
    case Some(ft) => Some(Entry(e.key, FilteredField(a, ft, e.value)))
  }

  /** The filtered value: None becomes an empty mapping, a mapping keeps its declared keys
      with their values filtered by the fields' types, anything else is returned as it is. */
  function Filtered(a: Annotations, schema: Schema, raw: Value): (r: Value)
    ensures !r.Null?
    ensures raw.Mapping? || raw.Null? <==> r.Mapping?
    decreases raw, 1
  {
    match raw
    case Null => Mapping([])
    case Mapping(es) => Mapping(Somes(EntryResults(a, schema, raw)))
    case _ => raw
  }

  function EntryResults(a: Annotations, schema: Schema, raw: Value): (r: seq<Option<Entry>>)
    requires raw.Mapping?
    ensures |r| == |raw.entries|
    decreases raw, 0
  {
    seq(|raw.entries|, i requires 0 <= i < |raw.entries| => EntryResult(a, schema, raw.entries[i]))
  }

  /** A field's value: a mapping under a nested dataclass is filtered by its schema, a list
      under a list of dataclasses has each item filtered, anything else is kept. */
  function FilteredField(a: Annotations, ft: FieldType, v: Value): Value
    decreases v, 3
  {
    match Seen(a, ft)
    case Nested(sc) => if v.Mapping? then Filtered(a, sc, v) else v
    case ListOf(sc) => if v.List? then List(FilteredItems(a, sc, v)) else v
    case Leaf => v
  }

  function FilteredItems(a: Annotations, sc: Schema, v: Value): (r: seq<Value>)
    requires v.List?
    ensures |r| == |v.items|
    decreases v, 2
  {
    seq(|v.items|, j requires 0 <= j < |v.items| => ItemResult(a, sc, v.items[j]))
  }

  /** An item of a list of dataclasses: a mapping is filtered, anything else is kept. */
  function ItemResult(a: Annotations, sc: Schema, x: Value): Value
    decreases x, 2
  {
    if x.Mapping? then Filtered(a, sc, x) else x
  }

  /** The paths one mapping entry reports. */
  function EntryPaths(a: Annotations, schema: Schema, e: Entry, prefix: string): seq<string>
    decreases e
  {
    match FieldTypeOf(schema.fields, e.key)
    case None => [Join(prefix, e.key)]
    case Some(ft) => FieldPaths(a, ft, e.value, Join(prefix, e.key))
  }

  function EntriesPaths(a: Annotations, schema: Schema, raw: Value, prefix: string): (r: seq<seq<string>>)
    requires raw.Mapping?
    ensures |r| == |raw.entries|
    decreases raw, 0
  {
    seq(|raw.entries|, i requires 0 <= i < |raw.entries| => EntryPaths(a, schema, raw.entries[i], prefix))
  }

  /** The paths of the undeclared keys, in the order the filter meets them. */
  function UnknownPaths(a: Annotations, schema: Schema, raw: Value, prefix: string): seq<string>
    decreases raw, 1
  {
    match raw
    case Mapping(es) => Flatten(EntriesPaths(a, schema, raw, prefix))
    case _ => []
  }

  function FieldPaths(a: Annotations, ft: FieldType, v: Value, path: string): seq<string>
    decreases v, 3
  {
    match Seen(a, ft)
    case Nested(sc) => if v.Mapping? then UnknownPaths(a, sc, v, path) else []
    case ListOf(sc) => if v.List? then Flatten(ItemsPaths(a, sc, v, path)) else []
    case Leaf => []
  }

  function ItemsPaths(a: Annotations, sc: Schema, v: Value, path: string): (r: seq<seq<string>>)
    requires v.List?
    ensures |r| == |v.items|
    decreases v, 2
  {
    seq(|v.items|, j requires 0 <= j < |v.items| => ItemPaths(a, sc, v.items[j], Indexed(path, j)))
  }

  /** The paths one list item reports: those of a mapping item, under `path[i]`. */
  function ItemPaths(a: Annotations, sc: Schema, x: Value, path: string): seq<string>
    decreases x, 2
  {
    if x.Mapping? then UnknownPaths(a, sc, x, path) else []
  }

  // ---------------------------------------------------------------------------
  // The filter, as the source runs it

  /** _validate_and_filter: returns the filtered value and appends the paths of the
      undeclared keys to the caller's list. */
  method ValidateAndFilter(a: Annotations, schema: Schema, raw: Value, prefix: string, paths: seq<string>)
    returns (out: Value, paths': seq<string>)
    ensures out == Filtered(a, schema, raw)
    ensures paths' == paths + UnknownPaths(a, schema, raw, prefix)
    decreases raw, 1
  {
    if raw.Null? {
      out, paths' := Mapping([]), paths;
    } else if raw.Mapping? {
      var filtered;
      filtered, paths' := ValidateEntries(a, schema, raw, prefix, paths);
      out := Mapping(filtered);
    } else {
      out, paths' := raw, paths;
    }
  }

  /** The loop over a mapping's entries: declared keys are kept with their values filtered,
      undeclared keys are reported. */
  method ValidateEntries(a: Annotations, schema: Schema, raw: Value, prefix: string, paths: seq<string>)
    returns (filtered: seq<Entry>, paths': seq<string>)
    requires raw.Mapping?
    ensures filtered == Somes(EntryResults(a, schema, raw))
    ensures paths' == paths + Flatten(EntriesPaths(a, schema, raw, prefix))
    decreases raw, 0
  {
    var es := raw.entries;
    ghost var results := EntryResults(a, schema, raw);
    ghost var found := EntriesPaths(a, schema, raw, prefix);
    filtered := [];
    paths' := paths;
    var i := 0;
    while i < |es|
      invariant i <= |es|
      invariant filtered == Somes(results[..i])
      invariant paths' == paths + Flatten(found[..i])
    {
      assert es[i] in raw.entries;
      var e, p := ValidateEntry(a, schema, es[i], prefix, paths');
      SomesStep(results, i);
      FlattenStep(found, i);
      if e.Some? {
        filtered := filtered + [e.value];
      }
      paths' := p;
      i := i + 1;
    }
    assert results[..i] == results && found[..i] == found;
  }

  /** One pass of the loop over a mapping's entries. */
  method ValidateEntry(a: Annotations, schema: Schema, entry: Entry, prefix: string, paths: seq<string>)
    returns (e: Option<Entry>, paths': seq<string>)
    ensures e == EntryResult(a, schema, entry)
    ensures paths' == paths + EntryPaths(a, schema, entry, prefix)
    decreases entry
  {
    match FieldTypeOf(schema.fields, entry.key) {
      case None =>
        e, paths' := None, paths + [Join(prefix, entry.key)];
      case Some(ft) =>
        var v, p := ValidateField(a, ft, entry.value, Join(prefix, entry.key), paths);
        e, paths' := Some(Entry(entry.key, v)), p;
    }
  }

  /** The handling of one declared field's value. */
  method ValidateField(a: Annotations, ft: FieldType, v: Value, path: string, paths: seq<string>)
    returns (out: Value, paths': seq<string>)
    ensures out == FilteredField(a, ft, v)
    ensures paths' == paths + FieldPaths(a, ft, v, path)
    decreases v, 3
  {
    match Seen(a, ft) {
      case Nested(sc) =>
        if v.Mapping? {
          out, paths' := ValidateAndFilter(a, sc, v, path, paths);
        } else {
          out, paths' := v, paths;
        }
      case ListOf(sc) =>
        if v.List? {
          var items, p := ValidateItems(a, sc, v, path, paths);
          out, paths' := List(items), p;
        } else {
          out, paths' := v, paths;
        }
      case Leaf =>
        out, paths' := v, paths;
    }
  }

  /** The loop over a list of dataclass items: mappings are filtered with the path `path[i]`,
      other items are kept. */
  method ValidateItems(a: Annotations, sc: Schema, v: Value, path: string, paths: seq<string>)
    returns (items: seq<Value>, paths': seq<string>)
    requires v.List?
    ensures items == FilteredItems(a, sc, v)
    ensures paths' == paths + Flatten(ItemsPaths(a, sc, v, path))
    decreases v, 2
  {
    ghost var results := FilteredItems(a, sc, v);
    ghost var found := ItemsPaths(a, sc, v, path);
    items := [];
    paths' := paths;
    var j := 0;
    while j < |v.items|
      invariant j <= |v.items|
      invariant items == results[..j]
      invariant paths' == paths + Flatten(found[..j])
    {
      FlattenStep(found, j);
      var x, p := ValidateItem(a, sc, v.items[j], Indexed(path, j), paths');
      assert results[..j + 1] == results[..j] + [x] by {
        assert x == results[j];
        Combinatorics.TakeSnoc(results, j);
      }
      items, paths' := items + [x], p;
      j := j + 1;
    }
    assert results[..j] == results && found[..j] == found;
  }

  /** One pass of the loop over a list's items. */
  method ValidateItem(a: Annotations, sc: Schema, item: Value, path: string, paths: seq<string>)
    returns (x: Value, paths': seq<string>)
    ensures x == ItemResult(a, sc, item)
    ensures paths' == paths + ItemPaths(a, sc, item, path)
    decreases item, 2
  {
    if item.Mapping? {
      x, paths' := ValidateAndFilter(a, sc, item, path, paths);
    } else {
      x, paths' := item, paths;
    }
  }

  // ---------------------------------------------------------------------------
  // What the filter (with evaluated annotations) guarantees

  /** v holds only declared keys, at every level the schema describes. */
  predicate Conforms(schema: Schema, v: Value)
    decreases v, 1
  {
    v.Mapping? ==> forall i :: 0 <= i < |v.entries| ==> EntryConforms(schema, v.entries[i])
  }

  predicate EntryConforms(schema: Schema, e: Entry)
    decreases e
  {
    match FieldTypeOf(schema.fields, e.key)
    case None => false
    case Some(ft) => FieldConforms(ft, e.value)
  }

  predicate FieldConforms(ft: FieldType, v: Value)
    decreases v, 3
  {
    match ft
    case Leaf => true
    case Nested(sc) => v.Mapping? ==> Conforms(sc, v)
    case ListOf(sc) =>
      v.List? ==> forall j :: 0 <= j < |v.items| ==> v.items[j].Mapping? ==> Conforms(sc, v.items[j])
  }

  /** Every key the filter keeps is declared, at every level. */
  lemma {:induction false} FilteredConforms(schema: Schema, raw: Value)
    ensures Conforms(schema, Filtered(Evaluated, schema, raw))
    decreases raw, 1
  {
    if raw.Mapping? {
      var es := raw.entries;
      var rs := EntryResults(Evaluated, schema, raw);
      var fs := Somes(rs);
      assert Filtered(Evaluated, schema, raw) == Mapping(fs);
      forall i | 0 <= i < |fs| ensures EntryConforms(schema, fs[i]) {
        assert fs[i] in fs;
        SomesMember(rs, fs[i]);
        var k :| 0 <= k < |rs| && rs[k] == Some(fs[i]);
        assert es[k] in raw.entries;
        EntryFilteredConforms(schema, es[k]);
      }
    }
  }

  lemma {:induction false} EntryFilteredConforms(schema: Schema, e: Entry)
    ensures EntryResult(Evaluated, schema, e).Some? ==> EntryConforms(schema, EntryResult(Evaluated, schema, e).value)
    decreases e
  {
    match FieldTypeOf(schema.fields, e.key) {
      case None =>
      case Some(ft) => FieldFilteredConforms(ft, e.value);
    }
  }

  lemma {:induction false} FieldFilteredConforms(ft: FieldType, v: Value)
    ensures FieldConforms(ft, FilteredField(Evaluated, ft, v))
    decreases v, 3
  {
    match ft {
      case Leaf =>
      case Nested(sc) =>
        if v.Mapping? {
          FilteredConforms(sc, v);
        }
      case ListOf(sc) =>
        if v.List? {
          var w := FilteredItems(Evaluated, sc, v);
          forall j | 0 <= j < |w| && w[j].Mapping? ensures Conforms(sc, w[j]) {
            assert w[j] == ItemResult(Evaluated, sc, v.items[j]);
            if v.items[j].Mapping? {
              FilteredConforms(sc, v.items[j]);
            }
          }
        }
    }
  }

  /** A value holding only declared keys is reported clean and is returned as it is. */
  lemma {:induction false} ConformingUnchanged(schema: Schema, raw: Value, prefix: string)
    requires Conforms(schema, raw) && !raw.Null?
    ensures Filtered(Evaluated, schema, raw) == raw
    ensures UnknownPaths(Evaluated, schema, raw, prefix) == []
    decreases raw, 1
  {
    if raw.Mapping? {
      var es := raw.entries;
      var rs := EntryResults(Evaluated, schema, raw);
      var ps := EntriesPaths(Evaluated, schema, raw, prefix);
      forall i | 0 <= i < |es| ensures rs[i] == Some(es[i]) && ps[i] == [] {
        assert es[i] in raw.entries;
        EntryUnchanged(schema, es[i], prefix);
      }
      SomesAll(rs, es);
      FlattenEmpty(ps);
    }
  }

  lemma {:induction false} EntryUnchanged(schema: Schema, e: Entry, prefix: string)
    requires EntryConforms(schema, e)
    ensures EntryResult(Evaluated, schema, e) == Some(e)
    ensures EntryPaths(Evaluated, schema, e, prefix) == []
    decreases e
  {
    var ft := FieldTypeOf(schema.fields, e.key).value;
    FieldUnchanged(ft, e.value, Join(prefix, e.key));
  }

  lemma {:induction false} FieldUnchanged(ft: FieldType, v: Value, path: string)
    requires FieldConforms(ft, v)
    ensures FilteredField(Evaluated, ft, v) == v
    ensures FieldPaths(Evaluated, ft, v, path) == []
    decreases v, 3
  {
    match ft {
      case Leaf =>
      case Nested(sc) =>
        if v.Mapping? {
          ConformingUnchanged(sc, v, path);
        }
      case ListOf(sc) =>
        if v.List? {
          var w := FilteredItems(Evaluated, sc, v);
          var ps := ItemsPaths(Evaluated, sc, v, path);
          forall j | 0 <= j < |v.items| ensures w[j] == v.items[j] && ps[j] == [] {
            assert w[j] == ItemResult(Evaluated, sc, v.items[j]);
            assert ps[j] == ItemPaths(Evaluated, sc, v.items[j], Indexed(path, j));
            if v.items[j].Mapping? {
              ConformingUnchanged(sc, v.items[j], Indexed(path, j));
            }
          }
          assert w == v.items;
          FlattenEmpty(ps);
        }
    }
  }

  /** Nothing reported means nothing to drop. */
  lemma {:induction false} CleanConforms(schema: Schema, raw: Value, prefix: string)
    requires UnknownPaths(Evaluated, schema, raw, prefix) == []
    ensures Conforms(schema, raw)
    decreases raw, 1
  {
    if raw.Mapping? {
      var es := raw.entries;
      var ps := EntriesPaths(Evaluated, schema, raw, prefix);
      FlattenEmpty(ps);
      forall i | 0 <= i < |es| ensures EntryConforms(schema, es[i]) {
        assert ps[i] == [];
        assert es[i] in raw.entries;
        EntryClean(schema, es[i], prefix);
      }
    }
  }

  lemma {:induction false} EntryClean(schema: Schema, e: Entry, prefix: string)
    requires EntryPaths(Evaluated, schema, e, prefix) == []
    ensures EntryConforms(schema, e)
    decreases e
  {
    match FieldTypeOf(schema.fields, e.key) {
      case None =>
        assert false;
      case Some(ft) =>
        FieldClean(ft, e.value, Join(prefix, e.key));
    }
  }

  lemma {:induction false} FieldClean(ft: FieldType, v: Value, path: string)
    requires FieldPaths(Evaluated, ft, v, path) == []
    ensures FieldConforms(ft, v)
    decreases v, 3
  {
    match ft {
      case Leaf =>
      case Nested(sc) =>
        if v.Mapping? {
          CleanConforms(sc, v, path);
        }
      case ListOf(sc) =>
        if v.List? {
          var ps := ItemsPaths(Evaluated, sc, v, path);
          FlattenEmpty(ps);
          forall j | 0 <= j < |v.items| && v.items[j].Mapping? ensures Conforms(sc, v.items[j]) {
            assert ps[j] == ItemPaths(Evaluated, sc, v.items[j], Indexed(path, j));
            CleanConforms(sc, v.items[j], Indexed(path, j));
          }
        }
    }
  }

  /** Filtering twice is filtering once, and the second pass reports nothing. */
  lemma FilterIdempotent(schema: Schema, raw: Value, prefix: string)
    ensures Filtered(Evaluated, schema, Filtered(Evaluated, schema, raw)) == Filtered(Evaluated, schema, raw)
    ensures UnknownPaths(Evaluated, schema, Filtered(Evaluated, schema, raw), prefix) == []
  {
    FilteredConforms(schema, raw);
    ConformingUnchanged(schema, Filtered(Evaluated, schema, raw), prefix);
  }

  /** The report is empty exactly when the value holds only declared keys. */
  lemma CleanIffConforms(schema: Schema, raw: Value, prefix: string)
    ensures UnknownPaths(Evaluated, schema, raw, prefix) == [] <==> Conforms(schema, raw)
  {
    if UnknownPaths(Evaluated, schema, raw, prefix) == [] {
      CleanConforms(schema, raw, prefix);
    } else if Conforms(schema, raw) && !raw.Null? {
      ConformingUnchanged(schema, raw, prefix);
    }
  }

  /** An undeclared key of a mapping is reported under its path and dropped. */
  lemma UndeclaredReported(a: Annotations, schema: Schema, raw: Value, prefix: string, i: nat)
    requires raw.Mapping? && i < |raw.entries|
    requires FieldTypeOf(schema.fields, raw.entries[i].key).None?
    ensures Join(prefix, raw.entries[i].key) in UnknownPaths(a, schema, raw, prefix)
    ensures forall e :: e in Filtered(a, schema, raw).entries ==> e.key != raw.entries[i].key
  {
    var es := raw.entries;
    var k := es[i].key;
    var ps := EntriesPaths(a, schema, raw, prefix);
    assert ps[i] == EntryPaths(a, schema, es[i], prefix);
    assert Join(prefix, k) in ps[i];
    FlattenMember(ps, Join(prefix, k));
    var rs := EntryResults(a, schema, raw);
    forall e | e in Filtered(a, schema, raw).entries ensures e.key != k {
      SomesMember(rs, e);
      var j :| 0 <= j < |rs| && rs[j] == Some(e);
      assert rs[j] == EntryResult(a, schema, es[j]);
    }
  }

  // ---------------------------------------------------------------------------
  // The configuration schema

  const OntologySchema := Schema([Field("classes", Leaf), Field("mdr_threshold", Leaf)])

  const CausalSchema := Schema([Field("enabled", Leaf), Field("algorithm", Leaf), Field("alpha", Leaf),
                                Field("max_cond_set", Leaf)])

  const HypergraphSchema := Schema([Field("enabled", Leaf), Field("min_pattern", Leaf),
                                    Field("max_pattern", Leaf), Field("min_support", Leaf),
                                    Field("max_interaction_order", Leaf)])

  const NetworkSchema := Schema([Field("alpha", Leaf), Field("fdr_method", Leaf), Field("motif_sizes", Leaf)])

  const GeneLayerSchema := Schema([Field("format", Leaf), Field("feature_column", Leaf), Field("value_column", Leaf)])

  const ProbabilisticSchema := Schema([Field("enabled", Leaf), Field("model", Leaf), Field("n_mc", Leaf)])

  const CompressionSchema := Schema([Field("enabled", Leaf), Field("redundancy_jaccard", Leaf), Field("keep_top", Leaf)])

  /** The fields of Config, in declaration order. */
  const ConfigSchema := Schema([
    Field("schema_version", Leaf), Field("config_strict", Leaf),
    Field("input_csv", Leaf), Field("gene_csv", Leaf), Field("output_dir", Leaf), Field("id_column", Leaf),
    Field("ontology", Nested(OntologySchema)), Field("causal", Nested(CausalSchema)),
    Field("hypergraph", Nested(HypergraphSchema)), Field("network", Nested(NetworkSchema)),
    Field("gene_layer", Nested(GeneLayerSchema)), Field("probabilistic", Nested(ProbabilisticSchema)),
    Field("compression", Nested(CompressionSchema)),
    Field("min_classes_matched", Leaf), Field("n_bootstrap", Leaf), Field("confidence", Leaf),
    Field("n_jobs", Leaf), Field("seed", Leaf), Field("test_costs", Leaf)])

  /** The source as written: with postponed annotations an unknown key inside a section is
      neither reported nor dropped. */
  lemma NestedKeyMissedAsWritten()
    ensures var raw := Mapping([Entry("causal", Mapping([Entry("foo", Scalar("1", true))]))]);
      && UnknownPaths(Postponed, ConfigSchema, raw, "") == []
      && Filtered(Postponed, ConfigSchema, raw) == raw
      && !Conforms(ConfigSchema, raw)
  {
    var inner := Mapping([Entry("foo", Scalar("1", true))]);
    ForeignSection();
    CausalEntry(Postponed, inner);
    SingleEntry(Postponed, ConfigSchema, Entry("causal", inner), "");
  }

  /** With evaluated annotations the same key is reported as `causal.foo` and dropped. */
  lemma NestedKeyReported()
    ensures var raw := Mapping([Entry("causal", Mapping([Entry("foo", Scalar("1", true))]))]);
      && UnknownPaths(Evaluated, ConfigSchema, raw, "") == ["causal.foo"]
      && Filtered(Evaluated, ConfigSchema, raw) == Mapping([Entry("causal", Mapping([]))])
  {
    var inner := Mapping([Entry("foo", Scalar("1", true))]);
    ForeignSection();
    CausalEntry(Evaluated, inner);
    SingleEntry(Evaluated, ConfigSchema, Entry("causal", inner), "");
  }

  /** A mapping under the causal section of Config. */
  lemma CausalEntry(a: Annotations, inner: Value)
    requires inner.Mapping?
    ensures EntryResult(a, ConfigSchema, Entry("causal", inner))
      == Some(Entry("causal", if a == Evaluated then Filtered(a, CausalSchema, inner) else inner))
    ensures EntryPaths(a, ConfigSchema, Entry("causal", inner), "")
      == if a == Evaluated then UnknownPaths(a, CausalSchema, inner, "causal") else []
    ensures EntryConforms(ConfigSchema, Entry("causal", inner)) == Conforms(CausalSchema, inner)
  {
    CausalField();
    NestedEntry(a, ConfigSchema, "causal", CausalSchema, inner, "");
  }

  /** A mapping under a field declared as a nested dataclass. */
  lemma NestedEntry(a: Annotations, schema: Schema, k: string, sc: Schema, inner: Value, prefix: string)
    requires FieldTypeOf(schema.fields, k) == Some(Nested(sc)) && inner.Mapping?
    ensures EntryResult(a, schema, Entry(k, inner))
      == Some(Entry(k, if a == Evaluated then Filtered(a, sc, inner) else inner))
    ensures EntryPaths(a, schema, Entry(k, inner), prefix)
      == if a == Evaluated then UnknownPaths(a, sc, inner, Join(prefix, k)) else []
    ensures EntryConforms(schema, Entry(k, inner)) == Conforms(sc, inner)
  {
  }

  /** The section {foo: 1} under causal: its key is undeclared in CausalSpec. */
  lemma ForeignSection()
    ensures var inner := Mapping([Entry("foo", Scalar("1", true))]);
      && !Conforms(CausalSchema, inner)
      && Filtered(Evaluated, CausalSchema, inner) == Mapping([])
      && UnknownPaths(Evaluated, CausalSchema, inner, "causal") == ["causal.foo"]
  {
    var f := Entry("foo", Scalar("1", true));
    FooUndeclared();
    assert !EntryConforms(CausalSchema, f);
    SingleEntry(Evaluated, CausalSchema, f, "causal");
    assert EntryResult(Evaluated, CausalSchema, f).None?;
    CausalFooPath();
  }

  lemma CausalFooPath()
    ensures Join("causal", "foo") == "causal.foo"
  {
  }

  /** Filtering a one-entry mapping is filtering its entry. */
  lemma SingleEntry(a: Annotations, schema: Schema, e: Entry, prefix: string)
    ensures Filtered(a, schema, Mapping([e])) == Mapping(Somes([EntryResult(a, schema, e)]))
    ensures UnknownPaths(a, schema, Mapping([e]), prefix) == EntryPaths(a, schema, e, prefix)
  {
    var raw := Mapping([e]);
    assert EntryResults(a, schema, raw) == [EntryResult(a, schema, e)];
    assert EntriesPaths(a, schema, raw, prefix) == [EntryPaths(a, schema, e, prefix)];
    assert Flatten([EntryPaths(a, schema, e, prefix)]) == Flatten([]) + EntryPaths(a, schema, e, prefix);
  }

  lemma FooUndeclared()
    ensures FieldTypeOf(CausalSchema.fields, "foo").None?
  {
    var fs := CausalSchema.fields;
    assert forall i :: 0 <= i < |fs| ==> fs[i].name != "foo";
  }


  lemma CausalField()
    ensures FieldTypeOf(ConfigSchema.fields, "causal") == Some(Nested(CausalSchema))
  {
    var fs := ConfigSchema.fields;
    assert fs[7] == Field("causal", Nested(CausalSchema));
    assert forall i :: 0 <= i < 7 ==> fs[i].name != "causal";
    FirstMatch(fs, "causal", 7);
  }

  lemma {:induction false} FirstMatch(fs: seq<Field>, k: string, i: nat)
    requires i < |fs| && fs[i].name == k && forall j :: 0 <= j < i ==> fs[j].name != k
    ensures FieldTypeOf(fs, k) == Some(fs[i].ftype)
  {
    if i > 0 {
      FirstMatch(fs[1..], k, i - 1);
    }
  }

  // ---------------------------------------------------------------------------
  // Loading

  /** The schema versions the loader accepts. */
  const SupportedSchemaVersions: set<string> := {"1.0", "1.1"}

  datatype Status = Pass | Warn | Fail

  /** The validation record of a loaded configuration. */
  datatype Validation = Validation(
    schemaIn: string, unknownKeys: seq<string>, strict: bool, status: Status, filtered: Value)

  /** Python truthiness. */
  function Truthy(v: Value): bool {
    match v
    case Null => false
    case Scalar(_, t) => t
    case Mapping(es) => |es| > 0
    case List(xs) => |xs| > 0
  }

  /** raw.get(k) on a mapping: the value of the first entry with key k. */
  function Lookup(es: seq<Entry>, k: string): (r: Option<Value>)
    ensures r.Some? ==> exists i :: 0 <= i < |es| && es[i] == Entry(k, r.value)
  {
    if es == [] then None
    else if es[0].key == k then Some(es[0].value)
    else
      var r := Lookup(es[1..], k);
      assert r.Some? ==> exists i :: 1 <= i < |es| && es[i] == Entry(k, r.value) by {
        if r.Some? {
          var i :| 0 <= i < |es[1..]| && es[1..][i] == Entry(k, r.value);
          assert es[i + 1] == Entry(k, r.value);
        }
      }
      r
  }

  /** str() of a value; the text of a mapping or a list is not modelled and stands for
      a version no loader supports. */
  function Str(v: Value): string {
    match v
    case Null => "None"
    case Scalar(t, _) => t
    case Mapping(_) => "<mapping>"
    case List(_) => "<list>"
  }

  /** The loaded document: an empty or false document counts as an empty mapping. */
  function Document(raw: Value): (d: Value)
    ensures Truthy(raw) ==> d == raw
    ensures !Truthy(raw) ==> d == Mapping([])
  {
    if Truthy(raw) then raw else Mapping([])
  }

  /** The declared schema version, "1.0" when absent. */
  function SchemaVersionIn(doc: Value): string
    requires doc.Mapping?
  {
    match Lookup(doc.entries, "schema_version")
    case None => "1.0"
    case Some(v) => Str(v)
  }

  /** Strict mode: the document's config_strict is true, or the environment asks for it. */
  function StrictOf(doc: Value, envStrict: bool): bool
    requires doc.Mapping?
  {
    (match Lookup(doc.entries, "config_strict") case None => false case Some(v) => Truthy(v)) || envStrict
  }

  /** from_yaml's validation: an unsupported schema version or an unknown key raises in
      strict mode and is recorded otherwise; the status is PASS when neither occurs, WARN
      when one does and the mode is not strict. envStrict is the environment switch. */
  method FromYaml(raw: Value, envStrict: bool) returns (r: Result<Validation>)
    ensures !Document(raw).Mapping? ==> r.Err?
    ensures Document(raw).Mapping? ==>
      var doc := Document(raw);
      var supported := SchemaVersionIn(doc) in SupportedSchemaVersions;
      var unknown := UnknownPaths(Evaluated, ConfigSchema, doc, "");
      && (r.Err? <==> StrictOf(doc, envStrict) && (!supported || unknown != []))
      && (r.Ok? ==>
            && r.value.schemaIn == SchemaVersionIn(doc)
            && r.value.strict == StrictOf(doc, envStrict)
            && r.value.filtered == Filtered(Evaluated, ConfigSchema, doc)
            && (forall x :: x in r.value.unknownKeys <==> x in unknown)
            && (forall i, j :: 0 <= i < j < |r.value.unknownKeys| ==>
                  StrLe(r.value.unknownKeys[i], r.value.unknownKeys[j])
                  && r.value.unknownKeys[i] != r.value.unknownKeys[j])
            && (r.value.status == Pass <==> supported && r.value.unknownKeys == [])
            && r.value.status != Fail
            && (r.value.strict ==> r.value.status == Pass))
  {
    var doc := if Truthy(raw) then raw else Mapping([]);
    if !doc.Mapping? {
      return Err("the configuration document is not a mapping");
    }
    var schemaIn := SchemaVersionIn(doc);
    var strict := StrictOf(doc, envStrict);
    var supported := schemaIn in SupportedSchemaVersions;
    if !supported && strict {
      return Err("unsupported schema_version");
    }
    var filtered, paths := ValidateAndFilter(Evaluated, ConfigSchema, doc, "", []);
    var keys := SortedUnique(paths);
    assert paths == [] <==> keys == [] by {
      if paths != [] {
        assert paths[0] in paths;
      }
      if keys != [] {
        assert keys[0] in keys;
      }
    }
    var status := if supported && paths == [] then Pass else if !strict then Warn else Fail;
    if paths != [] && strict {
      return Err("unknown configuration keys");
    }
    r := Ok(Validation(schemaIn, keys, strict, status, filtered));
  }
}
