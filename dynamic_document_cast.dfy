/**
 * `DynamicDocumentCast::merge`: turn a stored payload into an array and merge
 * it into a document, giving a new document.
 */
module DynamicDocumentCast {
  import opened Wrappers
  import opened PhpKeys
  import opened PhpArrays
  import ArrayMerge
  import opened DocumentPaths
  import opened DynamicDocuments

  /** `json_decode($text, true)`, supplied by the caller. Text that is not valid
      JSON decodes to null; the arrays it builds are PHP arrays. */
  type Decoder = f: string -> Value | forall s :: WellFormed(f(s)) witness (s: string) => Null

  /** The payload as an array: null is the empty array, an array is itself and a
      string is decoded. Anything else, and a decoding that is not an array,
      fails `merge`'s `array` parameter under strict types. */
  function Normalise(payload: Value, decode: Decoder): Result<seq<Entry>, Thrown> {
    match payload
    case Null => Ok([])
    case Arr(es) => Ok(es)
    case Str(s) =>
      (match decode(s)
       case Arr(es) => Ok(es)
       case _ => Err(TypeError))
    case _ => Err(TypeError)
  }

  /** The values of the document `merge` returns. */
  function MergedValues(values: seq<Entry>, payload: Value, decode: Decoder): Result<seq<Entry>, Thrown> {
    match Normalise(payload, decode)
    case Ok(m) => Ok(ArrayMerge.Merge(values, m))
    case Err(e) => Err(e)
  }

  lemma NormaliseValid(payload: Value, decode: Decoder)
    requires WellFormed(payload)
    ensures Normalise(payload, decode).Ok? ==> ValidArray(Normalise(payload, decode).value)
  {
    if payload.Str? {
      assert WellFormed(decode(payload.s));
    }
  }

  /** `DynamicDocumentCast::merge($document, $payload)`; `$document` is not changed. */
  method Merge(doc: DynamicDocument, payload: Value, decode: Decoder) returns (r: Result<DynamicDocument, Thrown>)
    requires doc.Valid() && WellFormed(payload)
    ensures MergedValues(doc.values, payload, decode).Ok? ==>
      r.Ok? && fresh(r.value) && r.value.Valid() && r.value.values == MergedValues(doc.values, payload, decode).value
    ensures MergedValues(doc.values, payload, decode).Err? ==> r == Err(MergedValues(doc.values, payload, decode).error)
  {
    NormaliseValid(payload, decode);
    match Normalise(payload, decode) {
      case Ok(m) =>
        var d := doc.Merge(m);
        r := Ok(d);
      case Err(e) =>
        r := Err(e);
    }
  }

  /** The payloads `merge` accepts: null, an array, or text that decodes to an array. */
  lemma PayloadAccepted(values: seq<Entry>, payload: Value, decode: Decoder)
    ensures MergedValues(values, payload, decode).Ok? <==>
      (payload.Null? || payload.Arr? || (payload.Str? && decode(payload.s).Arr?))
    ensures MergedValues(values, payload, decode).Err? ==> MergedValues(values, payload, decode).error == TypeError
  {
  }

  /** A null payload merges nothing, yet the values come back unchanged only
      when the document is packed: other integer keys are renumbered. */
  lemma NullPayloadKeepsValues(values: seq<Entry>, decode: Decoder)
    requires UniqueKeys(values)
    ensures MergedValues(values, Null, decode) == Ok(values) <==> ArrayMerge.Packed(values)
  {
    ArrayMerge.MergeEmptyIdentity(values);
  }

  /** An array payload, or text decoding to one, wins on every string key it
      holds; every other string key keeps the document's value. */
  lemma PayloadWins(values: seq<Entry>, payload: Value, decode: Decoder, s: string)
    requires UniqueKeys(values) && WellFormed(payload)
    requires MergedValues(values, payload, decode).Ok?
    ensures var m := Normalise(payload, decode).value;
      Lookup(MergedValues(values, payload, decode).value, StrKey(s)) ==
        if StrKey(s) in KeysOf(m) then Lookup(m, StrKey(s)) else Lookup(values, StrKey(s))
  {
    NormaliseValid(payload, decode);
    ArrayMerge.MergeStringKey(values, Normalise(payload, decode).value, s);
  }

  /** The integer-keyed values of the payload follow the document's, renumbered. */
  lemma PayloadAppendsLists(values: seq<Entry>, payload: Value, decode: Decoder)
    requires MergedValues(values, payload, decode).Ok?
    ensures ArrayMerge.IntValues(MergedValues(values, payload, decode).value) ==
      ArrayMerge.IntValues(values) + ArrayMerge.IntValues(Normalise(payload, decode).value)
  {
    ArrayMerge.MergeIntValues(values, Normalise(payload, decode).value);
  }
}
