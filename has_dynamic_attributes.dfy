/**
 * The `HasDynamicAttributes` trait: a host record whose attributes may be
 * routed into a dynamic document kept in the attribute `values`. Reading an
 * attribute prefers the translation for the current locale; writing one
 * stores it in the document and keeps the host's `values` attribute holding
 * the document's JSON.
 */
module HasDynamicAttributes {
  import opened Wrappers
  import opened PhpKeys
  import opened PhpArrays
  import opened Paths
  import opened DocumentPaths
  import opened DynamicDocuments
  import opened DynamicDocumentCast

  /** `dynamicDocumentKey()`: the host attribute, and database column, that
      holds the document. */
  function DynamicDocumentKey(): string {
    "values"
  }

  /** The entry of `dynamicKeys` that makes every attribute dynamic. */
  const WILDCARD: string := "*"

  /** The host's optional properties `dynamicKeys`, `dynamicKeysBlacklist` and
      `dynamicLocales`; `None` when the host does not declare one. */
  datatype Config = Config(
    dynamicKeys: Option<seq<string>>,
    blacklist: Option<seq<string>>,
    locales: Option<seq<string>>)

  /** An undeclared property reads as the empty list. */
  function DynamicKeys(c: Config): seq<string> { c.dynamicKeys.GetOr([]) }
  function DynamicKeysBlacklist(c: Config): seq<string> { c.blacklist.GetOr([]) }
  function DynamicLocales(c: Config): seq<string> { c.locales.GetOr([]) }

  /** `isDynamic($key)`. */
  predicate IsDynamic(c: Config, key: string) {
    if key in DynamicKeys(c) then true
    else if WILDCARD in DynamicKeys(c) then key !in [DynamicDocumentKey()] + DynamicKeysBlacklist(c)
    else false
  }

  /** The three rules of `isDynamic`: a listed key is dynamic; without the
      wildcard nothing else is; with it, everything but the document key and
      the blacklist is. */
  lemma IsDynamicRules(c: Config, key: string)
    ensures key in DynamicKeys(c) ==> IsDynamic(c, key)
    ensures WILDCARD !in DynamicKeys(c) ==> (IsDynamic(c, key) <==> key in DynamicKeys(c))
    ensures WILDCARD in DynamicKeys(c) && key !in DynamicKeys(c) ==>
      (IsDynamic(c, key) <==> key != DynamicDocumentKey() && key !in DynamicKeysBlacklist(c))
  {
  }

  /** PHP's truth value of the optional `$index` string: null, "" and "0" are false. */
  predicate Truthy(index: Option<string>) {
    index.Some? && index.value != "" && index.value != "0"
  }

  /** The path `dynamic` and `setDynamic` address: `"$key.$index"` for a truthy index. */
  function IndexPath(key: string, index: Option<string>): string {
    if Truthy(index) then key + "." + index.value else key
  }

  /** With a truthy index the path addresses the index's segments below the
      key's; otherwise it is the key itself. */
  lemma IndexPathSegments(key: string, index: Option<string>)
    ensures !Truthy(index) ==> IndexPath(key, index) == key
    ensures Truthy(index) ==> Explode(IndexPath(key, index)) == Explode(key) + Explode(index.value)
  {
    if Truthy(index) {
      ExplodeJoin(key, index.value);
    }
  }

  /** What the host's own `getAttribute` answers: the stored attribute, or null. */
  function HostValue(attrs: map<string, Value>, key: string): Value {
    if key in attrs then attrs[key] else Null
  }

  /** `getAttribute($key)` with the application locale `locale`. */
  function ReadAttribute(c: Config, attrs: map<string, Value>, values: seq<Entry>, key: string, locale: string): Value {
    if !IsDynamic(c, key) then HostValue(attrs, key)
    else if HasPath(values, key + "." + locale) then GetPath(values, key + "." + locale, Null)
    else if HasPath(values, key) then
      var v := GetPath(values, key, Null);
      if v.Arr? && locale in DynamicLocales(c) then Null else v
    else HostValue(attrs, key)
  }

  // ================================================== lemmas: reading

  /** A key that is not dynamic, or that the document does not hold, is
      answered by the host. */
  lemma HostAnswers(c: Config, attrs: map<string, Value>, values: seq<Entry>, key: string, locale: string)
    requires !IsDynamic(c, key) || Walk(Arr(values), Explode(key)) == None
    ensures ReadAttribute(c, attrs, values, key, locale) == HostValue(attrs, key)
  {
    if IsDynamic(c, key) {
      var path := key + "." + locale;
      ExplodeJoin(key, locale);
      assert Explode(path)[..|Explode(key)|] == Explode(key);
      GetMissingPrefix(values, path, |Explode(key)|, Str(NOT_FOUND));
    }
  }

  /** The translation for the current locale, when the document holds one,
      is the answer. */
  lemma TranslationFirst(c: Config, attrs: map<string, Value>, values: seq<Entry>, key: string, locale: string, x: Value)
    requires IsDynamic(c, key)
    requires Walk(Arr(values), Explode(key) + Explode(locale)) == Some(x) && x != Str(NOT_FOUND)
    ensures ReadAttribute(c, attrs, values, key, locale) == x
  {
    ExplodeJoin(key, locale);
  }

  /** A value that is not an array is answered as stored, whatever the locale. */
  lemma PlainValue(c: Config, attrs: map<string, Value>, values: seq<Entry>, key: string, locale: string, x: Value)
    requires IsDynamic(c, key)
    requires Walk(Arr(values), Explode(key)) == Some(x) && !x.Arr? && x != Str(NOT_FOUND)
    ensures ReadAttribute(c, attrs, values, key, locale) == x
  {
    ExplodeJoin(key, locale);
    WalkConcat(Arr(values), Explode(key), Explode(locale));
  }

  /** No fallback: an array without a translation for the current locale (or
      holding only the marker string there) reads as null when the locale is
      one of `dynamicLocales`, and as the raw array otherwise. */
  lemma UntranslatedArray(c: Config, attrs: map<string, Value>, values: seq<Entry>, key: string, locale: string, m: seq<Entry>)
    requires IsDynamic(c, key) && '.' !in locale
    requires Walk(Arr(values), Explode(key)) == Some(Arr(m))
    requires Lookup(m, KeyOf(locale)).GetOr(Str(NOT_FOUND)) == Str(NOT_FOUND)
    ensures ReadAttribute(c, attrs, values, key, locale) == if locale in DynamicLocales(c) then Null else Arr(m)
  {
    ExplodeJoin(key, locale);
    ExplodeNoDot(locale);
    WalkConcat(Arr(values), Explode(key), [locale]);
  }

  /** Writing a translation at `"$key.$locale"` and reading the attribute in
      that locale gives the written value back. */
  lemma ReadAfterSetTranslation(c: Config, attrs: map<string, Value>, values: seq<Entry>, key: string, locale: string, x: Value)
    requires IsDynamic(c, key) && x != Str(NOT_FOUND)
    requires !ThroughObject(Arr(values), Explode(key + "." + locale))
    ensures ReadAttribute(c, attrs, SetPath(values, key + "." + locale, x), key, locale) == x
  {
    GetAfterSet(Arr(values), Explode(key + "." + locale), x);
  }

  /** Writing a value that is not an array at `key` and reading it back, in
      any locale, gives the written value. */
  lemma ReadAfterSetPlain(c: Config, attrs: map<string, Value>, values: seq<Entry>, key: string, locale: string, x: Value)
    requires IsDynamic(c, key) && !x.Arr? && x != Str(NOT_FOUND)
    requires !ThroughObject(Arr(values), Explode(key))
    ensures ReadAttribute(c, attrs, SetPath(values, key, x), key, locale) == x
  {
    GetAfterSet(Arr(values), Explode(key), x);
    PlainValue(c, attrs, SetPath(values, key, x), key, locale, x);
  }

  // ============================================ raw attributes from a row

  /** The attribute names of a row are distinct, as the keys of a PHP array are. */
  predicate DistinctNames(attrs: seq<(string, Value)>) {
    forall j, k | 0 <= j < k < |attrs| :: attrs[j].0 != attrs[k].0
  }

  /** The row as the host stores it. */
  function AsMap(attrs: seq<(string, Value)>): map<string, Value>
    decreases |attrs|
  {
    if |attrs| == 0 then map[]
    else
      var n := |attrs| - 1;
      AsMap(attrs[..n])[attrs[n].0 := attrs[n].1]
  }

  /** The row's entry under the document key, if any. */
  function Payload(attrs: seq<(string, Value)>): Option<Value>
    decreases |attrs|
  {
    if |attrs| == 0 then None
    else
      var n := |attrs| - 1;
      if attrs[n].0 == DynamicDocumentKey() then Some(attrs[n].1) else Payload(attrs[..n])
  }

  /** The row with its document entry replaced by the document's JSON. */
  function Rewrite(attrs: seq<(string, Value)>, json: string): seq<(string, Value)> {
    seq(|attrs|, j requires 0 <= j < |attrs| =>
      if attrs[j].0 == DynamicDocumentKey() then (DynamicDocumentKey(), Str(json)) else attrs[j])
  }

  /** The payload is what the stored row holds under the document key. */
  lemma {:induction false} PayloadIsStored(attrs: seq<(string, Value)>)
    ensures Payload(attrs) == if DynamicDocumentKey() in AsMap(attrs) then Some(AsMap(attrs)[DynamicDocumentKey()]) else None
    decreases |attrs|
  {
    if |attrs| > 0 {
      PayloadIsStored(attrs[..|attrs| - 1]);
    }
  }

  /** In a row with distinct names, the payload is the one document entry. */
  lemma {:induction false} PayloadAt(attrs: seq<(string, Value)>, i: nat)
    requires DistinctNames(attrs) && i < |attrs| && attrs[i].0 == DynamicDocumentKey()
    ensures Payload(attrs) == Some(attrs[i].1)
    decreases |attrs|
  {
    var n := |attrs| - 1;
    if i < n {
      assert attrs[n].0 != attrs[i].0;
      PayloadAt(attrs[..n], i);
    }
  }

  /** A row without a document entry has no payload. */
  lemma {:induction false} PayloadAbsent(attrs: seq<(string, Value)>)
    requires forall j | 0 <= j < |attrs| :: attrs[j].0 != DynamicDocumentKey()
    ensures Payload(attrs) == None
    decreases |attrs|
  {
    if |attrs| > 0 {
      PayloadAbsent(attrs[..|attrs| - 1]);
    }
  }

  /** Rewriting the row changes only the document entry: every other
      attribute is stored as given, and the document entry holds the JSON. */
  lemma {:induction false} RewriteKeepsOthers(attrs: seq<(string, Value)>, json: string, name: string)
    ensures name in AsMap(Rewrite(attrs, json)) <==> name in AsMap(attrs)
    ensures name in AsMap(attrs) ==>
      AsMap(Rewrite(attrs, json))[name] == if name == DynamicDocumentKey() then Str(json) else AsMap(attrs)[name]
    decreases |attrs|
  {
    if |attrs| > 0 {
      var n := |attrs| - 1;
      assert Rewrite(attrs, json)[..n] == Rewrite(attrs[..n], json);
      RewriteKeepsOthers(attrs[..n], json, name);
    }
  }

  // ======================================================== the host

  /** A host record using the trait: its attributes and its document. The
      configuration and the JSON codec are fixed for the record. */
  class Record {
    const config: Config
    const encode: Encoder
    const decode: Decoder
    var attributes: map<string, Value>
    var document: DynamicDocument

    ghost predicate Valid()
      reads this, document
    {
      document.Valid()
    }

    /** A new record starts with no attributes and an empty document
        (`initializeHasDynamicAttributes`). */
    constructor (config: Config, encode: Encoder, decode: Decoder)
      ensures Valid() && fresh(document) && document.values == [] && attributes == map[]
      ensures this.config == config && this.encode == encode && this.decode == decode
    {
      this.config := config;
      this.encode := encode;
      this.decode := decode;
      attributes := map[];
      document := new DynamicDocument([]);
    }

    /** `dynamic($key, $index)`. */
    function Dynamic(key: string, index: Option<string>): Value
      reads this, document
    {
      document.Get(IndexPath(key, index), Null)
    }

    /** `getAttribute($key)` in the application locale `locale`. */
    function GetAttribute(key: string, locale: string): Value
      reads this, document
    {
      ReadAttribute(config, attributes, document.values, key, locale)
    }

    /** `setDynamic($key, $value, $index)`: write into the document, then store
        the document's JSON as the `values` attribute. Unless the write passes
        through an object, `dynamic` then reads the value back. When encoding
        fails, the `TypeError` comes after the write: the document is changed
        and `values` keeps its old text. */
    method SetDynamic(key: string, x: Value, index: Option<string>) returns (r: Outcome<Thrown>)
      requires Valid() && WellFormed(x)
      modifies this, document
      ensures Valid() && document == old(document)
      ensures document.values == SetPath(old(document.values), IndexPath(key, index), x)
      ensures encode(document.values).Some? ==>
        r == Pass && attributes == old(attributes)[DynamicDocumentKey() := Str(encode(document.values).value)]
      ensures encode(document.values).None? ==> r == Fail(TypeError) && attributes == old(attributes)
      ensures !ThroughObject(Arr(old(document.values)), Explode(IndexPath(key, index))) ==> Dynamic(key, index) == x
    {
      if !ThroughObject(Arr(document.values), Explode(IndexPath(key, index))) {
        GetAfterSet(Arr(document.values), Explode(IndexPath(key, index)), x);
      }
      document.Set(IndexPath(key, index), x);
      var json := document.ToJson(encode);
      if json.Err? {
        return Fail(json.error);
      }
      attributes := attributes[DynamicDocumentKey() := Str(json.value)];
      r := Pass;
    }

    /** `fillDynamicDocument($value)`: the record's document becomes the cast's
        merge of the old one with the payload; on a throw nothing changes. */
    method FillDynamicDocument(payload: Value) returns (r: Outcome<Thrown>)
      requires Valid() && WellFormed(payload)
      modifies this
      ensures Valid() && attributes == old(attributes)
      ensures MergedValues(old(document.values), payload, decode).Ok? ==>
        r == Pass && fresh(document) && document.values == MergedValues(old(document.values), payload, decode).value
      ensures MergedValues(old(document.values), payload, decode).Err? ==>
        r == Fail(MergedValues(old(document.values), payload, decode).error) && document == old(document)
    {
      var merged := DynamicDocumentCast.Merge(document, payload, decode);
      match merged {
        case Ok(d) =>
          document := d;
          r := Pass;
        case Err(e) =>
          r := Fail(e);
      }
    }

    /** `setAttribute($key, $value)`: a dynamic key goes into the document; the
        document key, when not itself dynamic, merges its value into the
        document and stores the JSON; any other key is stored as given. A
        failed encoding throws after the document has changed. */
    method SetAttribute(key: string, x: Value) returns (r: Outcome<Thrown>)
      requires Valid() && WellFormed(x)
      modifies this, document
      ensures Valid()
      ensures IsDynamic(config, key) ==>
        document == old(document) && document.values == SetPath(old(document.values), key, x) &&
        (encode(document.values).Some? ==>
          r == Pass && attributes == old(attributes)[DynamicDocumentKey() := Str(encode(document.values).value)]) &&
        (encode(document.values).None? ==> r == Fail(TypeError) && attributes == old(attributes))
      ensures !IsDynamic(config, key) && key == DynamicDocumentKey() && MergedValues(old(document.values), x, decode).Ok? ==>
        fresh(document) && document.values == MergedValues(old(document.values), x, decode).value &&
        (encode(document.values).Some? ==>
          r == Pass && attributes == old(attributes)[key := Str(encode(document.values).value)]) &&
        (encode(document.values).None? ==> r == Fail(TypeError) && attributes == old(attributes))
      ensures !IsDynamic(config, key) && key == DynamicDocumentKey() && MergedValues(old(document.values), x, decode).Err? ==>
        r == Fail(MergedValues(old(document.values), x, decode).error) &&
        document == old(document) && attributes == old(attributes)
      ensures !IsDynamic(config, key) && key != DynamicDocumentKey() ==>
        r == Pass && document == old(document) && attributes == old(attributes)[key := x]
      ensures !IsDynamic(config, key) ==> unchanged(old(document))
    {
      if IsDynamic(config, key) {
        r := SetDynamic(key, x, None);
      } else if key == DynamicDocumentKey() {
        r := FillDynamicDocument(x);
        if r.Pass? {
          var json := document.ToJson(encode);
          if json.Err? {
            return Fail(json.error);
          }
          attributes := attributes[key := Str(json.value)];
        }
      } else {
        attributes := attributes[key := x];
        r := Pass;
      }
    }

    /** `setRawAttributes($attributes)`: a row read from storage. Its document
        entry, if any, is merged into the document and replaced by the
        document's JSON; then the row becomes the record's attributes. A
        failed encoding throws after the document has been replaced. */
    method SetRawAttributes(attrs: seq<(string, Value)>) returns (r: Outcome<Thrown>)
      requires Valid() && DistinctNames(attrs)
      requires forall j | 0 <= j < |attrs| :: WellFormed(attrs[j].1)
      modifies this
      ensures Valid() && unchanged(old(document))
      ensures Payload(attrs) == None ==> r == Pass && document == old(document) && attributes == AsMap(attrs)
      ensures Payload(attrs).Some? && MergedValues(old(document.values), Payload(attrs).value, decode).Ok? ==>
        fresh(document) &&
        document.values == MergedValues(old(document.values), Payload(attrs).value, decode).value &&
        (encode(document.values).Some? ==>
          r == Pass && attributes == AsMap(Rewrite(attrs, encode(document.values).value))) &&
        (encode(document.values).None? ==> r == Fail(TypeError) && attributes == old(attributes))
      ensures Payload(attrs).Some? && MergedValues(old(document.values), Payload(attrs).value, decode).Err? ==>
        r == Fail(MergedValues(old(document.values), Payload(attrs).value, decode).error) &&
        document == old(document) && attributes == old(attributes)
    {
      var out := attrs;
      ghost var at: int := -1;
      ghost var json: string := "";
      var i := 0;
      while i < |attrs|
        invariant 0 <= i <= |attrs| && |out| == |attrs|
        invariant Valid() && attributes == old(attributes)
        invariant forall j | i <= j < |attrs| :: out[j] == attrs[j]
        invariant forall j | 0 <= j < i ::
          out[j] == if attrs[j].0 == DynamicDocumentKey() then (DynamicDocumentKey(), Str(json)) else attrs[j]
        invariant -1 <= at < i
        invariant at == -1 ==> document == old(document) && forall j | 0 <= j < i :: attrs[j].0 != DynamicDocumentKey()
        invariant at >= 0 ==>
          attrs[at].0 == DynamicDocumentKey() && fresh(document) && encode(document.values) == Some(json) &&
          MergedValues(old(document.values), attrs[at].1, decode) == Ok(document.values)
      {
        if attrs[i].0 == DynamicDocumentKey() {
          if at >= 0 {
            assert false;
          }
          PayloadAt(attrs, i);
          var filled := FillDynamicDocument(attrs[i].1);
          if filled.Fail? {
            return filled;
          }
          var encoded := document.ToJson(encode);
          if encoded.Err? {
            return Fail(encoded.error);
          }
          at := i;
          json := encoded.value;
          out := out[i := (DynamicDocumentKey(), Str(encoded.value))];
        }
        i := i + 1;
      }
      if at == -1 {
        PayloadAbsent(attrs);
        assert out == attrs;
      } else {
        PayloadAt(attrs, at);
        assert out == Rewrite(attrs, json);
      }
      attributes := AsMap(out);
      r := Pass;
    }
  }
}
