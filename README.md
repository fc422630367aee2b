# dynamic-attributes, modelled in Dafny

`thinktomorrow/dynamic-attributes` lets an Eloquent model keep some of its
attributes in one JSON column (`values`). Those attributes are held in a
`DynamicDocument`, a tree of PHP arrays addressed by dotted paths such as
`title.nl`. The `HasDynamicAttributes` trait sends reads and writes of the
configured keys to that document. Reading prefers the translation for the
current locale. After every write, the `values` attribute holds the
document's JSON. `DynamicDocumentCast::merge` turns a stored payload
(null, an array or JSON text) into an array and merges it into a document.

The model is built in layers:

- `PhpKeys`: PHP's array-key casting. A canonical decimal string in the 64-bit range becomes an integer key.
- `PhpArrays`: ordered PHP arrays of values.
  - `Lookup` reads a key.
  - `Put` replaces a key in place, or appends it.
  - `Unset` removes a key.
  - A well-formed tree has distinct keys in every array, and never a string key that PHP would cast to an integer (such as `"12"`).
- `ArrayMerge`: `array_merge`. Integer keys are renumbered from 0; string keys are overwritten in place. An array is *packed* when each integer key equals the number of integer-keyed entries before it; this is the shape `array_merge` produces.
- `Paths`: `explode('.')` and its inverse.
- `DocumentPaths`:
  - `data_get` and `data_set` on the tree;
  - `has` with its `__NOTFOUND__` marker;
  - the reference-taking walk of `remove`, including which nodes it creates and which make it throw.
- `DynamicDocuments`: the `DynamicDocument` class.
  - `set` and `remove` change its `values` in place.
  - `remove` is a descent loop followed by a write-back loop.
- `DynamicDocumentCast`: the cast's `merge`.
- `HasDynamicAttributes`:
  - `isDynamic`;
  - `getAttribute` as a function of the configuration, the host's attributes, the document and the locale;
  - a `Record` class holding a host record's attributes and document, whose methods are the trait's state-changing overrides.

The code is followed where it differs from the documentation: `getAttribute` has no fallback between locales. If the document holds an array under the key but no translation for the current locale, the result is null when that locale is in `dynamicLocales`. Otherwise the result is the raw array.

Likewise, `remove` on a path that is not there is not always a silent no-op. It is one when the parent array exists without the key (`RemoveAbsentNoOp`). Otherwise its reference walk creates the missing parents as null, and it throws when the walk reaches a string, an integer, true or an object (`RemoveCreatesParent`, `RemoveThrowsAt`).

## Model

| member | source | states |
|---|---|---|
| PhpKeys.KeyOf | src/DynamicDocument.php:26-29 | a path segment becomes a string key equal to the segment, or an integer key within PHP's 64-bit range |
| PhpKeys.KeyTextOfKeyOf | src/DynamicDocument.php:35-38 | turning the key back into text gives the segment back, so no two segments collide |
| PhpKeys.KeyOfIntText | src/DynamicDocument.php:35-38 | the decimal text of any 64-bit integer is read back as that integer key |
| PhpKeys.DecimalRoundTrip | src/DynamicDocument.php:26-29 | a canonical decimal string is the text of its own value |
| PhpKeys.NatTextDecimal | src/DynamicDocument.php:26-29 | the text of a natural number is canonical decimal and denotes that number |
| PhpKeys.KeyOfCanonical | src/DynamicDocument.php:35-38 | every key a path segment addresses is one a PHP array can hold |
| PhpKeys.DigitTextIsIntKey | src/DynamicDocument.php:35-38 | the segment `"12"` is the integer key 12, so the string key `"12"` cannot occur in an array |
| PhpArrays.Lookup | src/DynamicDocument.php:26-29 | a key is found exactly when the array holds it, and what is found is that key's entry |
| PhpArrays.Put | src/DynamicDocument.php:35-38 | after writing, the key holds the new value and every other key reads as before |
| PhpArrays.PutKeys | src/DynamicDocument.php:35-38 | writing an existing key keeps the key order, a new key is appended at the end, and rewriting the same value changes nothing |
| PhpArrays.PutUnique | src/DynamicDocument.php:35-38 | writing keeps keys distinct |
| PhpArrays.PutCanonical | src/DynamicDocument.php:35-38 | writing a key PHP can hold keeps every key one PHP can hold |
| PhpArrays.Unset | src/DynamicDocument.php:51 | after unsetting, the key is absent and every other key reads as before |
| PhpArrays.UnsetMembers | src/DynamicDocument.php:51 | unsetting only drops entries, and unsetting an absent key changes nothing |
| PhpArrays.UnsetUnique | src/DynamicDocument.php:51 | unsetting keeps keys distinct |
| PhpArrays.UnsetCanonical | src/DynamicDocument.php:51 | unsetting keeps every key one PHP can hold |
| ArrayMerge.Merge | src/DynamicDocument.php:61 | `array_merge`: entries of the first array, then of the second; an integer-keyed entry is appended under the next integer, a string-keyed one is written with `$r[$k] = $v` (its properties are the `Merge*` lemmas below) |
| ArrayMerge.MergeStringKey | src/DynamicDocument.php:59-62 | in the merge, a string key holds the second array's value if it has one, otherwise the first's |
| ArrayMerge.MergeIntValues | src/DynamicDocument.php:59-62 | the integer-keyed values of the merge are the first array's followed by the second's |
| ArrayMerge.MergeNumbered | src/DynamicDocument.php:59-62 | the merge's integer keys are exactly 0 to n-1 |
| ArrayMerge.MergeIntKeys | src/DynamicDocument.php:59-62 | integer key n of the merge holds the n-th integer-keyed value of the two arrays in turn |
| ArrayMerge.MergeValid | src/DynamicDocument.php:59-62 | merging two well-formed arrays gives a well-formed array |
| ArrayMerge.MergeEmptyPacked | src/DynamicDocument.php:59-62 | merging nothing into an array whose integer keys are already 0 to n-1 in order leaves it unchanged |
| ArrayMerge.MergeAllKeepsPacked | src/DynamicDocument.php:61 | what `array_merge` builds is always packed: each integer key counts the integer-keyed entries before it |
| ArrayMerge.MergeEmptyIdentity | src/DynamicDocument.php:59-62 | merging nothing returns an array unchanged exactly when it is packed |
| ArrayMerge.MergeEmptyRenumbers | src/DynamicDocument.php:59-62 | merging nothing into `[5 => "x"]` gives `[0 => "x"]` |
| Paths.Explode | src/DynamicDocument.php:42 | a path has at least one segment, and no segment contains a dot |
| Paths.ExplodeJoin | src/HasDynamicAttributes.php:16-19 | the segments of `"$a.$b"` are those of `a` followed by those of `b` |
| Paths.ExplodeNoDot | src/HasDynamicAttributes.php:109 | a text without dots is a single segment |
| Paths.ImplodeExplode | src/DynamicDocument.php:42 | joining the segments with dots gives the path back |
| Paths.ExplodeImplode | src/DynamicDocument.php:42 | splitting dot-joined dot-free segments gives them back |
| DocumentPaths.Walk | src/DynamicDocument.php:26-29 | the node `data_get` reaches by following the segments one key at a time; none when a segment is missing or a node on the way is not an array (partners: `WalkConcat`, `GetAfterSet`, `SetFrame`) |
| DocumentPaths.GetPath | src/DynamicDocument.php:26-29 | `data_get($values, $path, $default)`: the node at the path, or the default (partner: `GetMissingPrefix`, `GetAfterSet`) |
| DocumentPaths.HasPath | src/DynamicDocument.php:16-19 | `has`: `get` with the marker `__NOTFOUND__` as default does not return the marker (partner: `HasPathMeaning`) |
| DocumentPaths.SetPath | src/DynamicDocument.php:35-38 | `data_set` on the document's values at the exploded path (partners: `GetAfterSet`, `SetFrame`, `SetWellFormed`) |
| DocumentPaths.RemovePath | src/DynamicDocument.php:40-52 | `remove`: the reference walk along all segments but the last, then the unset of the last (partners: the `Remove*` lemmas) |
| DocumentPaths.WalkConcat | src/DynamicDocument.php:26-29 | reading a concatenated path reads the first part, then the second from there |
| DocumentPaths.GetMissingPrefix | src/DynamicDocument.php:26-29 | if any prefix of the path is missing, the path is missing and `get` returns the default |
| DocumentPaths.HasPathMeaning | src/DynamicDocument.php:16-19 | `has` holds exactly when the path leads to a value other than the `__NOTFOUND__` string, and a stored null counts as present |
| DocumentPaths.SetAt | src/DynamicDocument.php:35-38 | writing into an array gives an array |
| DocumentPaths.GetAfterSet | src/DynamicDocument.php:35-38 | after `set`, `get` of the same path returns the written value, unless the walk passes through an object |
| DocumentPaths.SetThroughObject | src/DynamicDocument.php:35-38 | a write whose walk meets an object leaves the tree unchanged |
| DocumentPaths.SetFrame | src/DynamicDocument.php:35-38 | `set` leaves every path that diverges from the written one as it was |
| DocumentPaths.SetWellFormed | src/DynamicDocument.php:35-38 | `set` keeps the tree well formed |
| DocumentPaths.RemoveNode | src/DynamicDocument.php:40-52 | a successful remove on an array gives an array |
| DocumentPaths.RemoveDeletes | src/DynamicDocument.php:40-52 | after a successful `remove`, the removed path holds nothing |
| DocumentPaths.RemoveFrame | src/DynamicDocument.php:40-52 | `remove` leaves every path that diverges from the removed one as it was |
| DocumentPaths.RemoveCreatesParent | src/DynamicDocument.php:45-49 | taking references creates the parent of the removed key, as null if it was missing |
| DocumentPaths.NullRemoveOk | src/DynamicDocument.php:45-51 | below null the walk never throws and ends at null |
| DocumentPaths.RemoveExistingParent | src/DynamicDocument.php:40-52 | when the parent is an existing array, `remove` writes that parent back without the key |
| DocumentPaths.RemoveThrowsAt | src/DynamicDocument.php:45-51 | `remove` throws when its walk reaches a string, an integer, true or an object |
| DocumentPaths.RemoveErrorCause | src/DynamicDocument.php:45-51 | `remove` throws only in that case |
| DocumentPaths.RemoveWellFormed | src/DynamicDocument.php:40-52 | `remove` keeps the tree well formed |
| DocumentPaths.SetSameValue | src/DynamicDocument.php:35-38 | writing back the value a path already holds leaves the tree as it was |
| DocumentPaths.RemoveAbsentNoOp | src/DynamicDocument.php:40-52 | removing a key its existing parent array does not hold leaves the tree unchanged |
| DocumentPaths.RemoveStep | src/DynamicDocument.php:47-49 | one step of the walk: remove below the child (null when missing), then put the result back under the segment's key |
| DynamicDocuments.UnwindStep | src/DynamicDocument.php:47-51 | writing back through one more recorded array puts the inner result under that segment's key |
| DynamicDocuments.Descend | src/DynamicDocument.php:42-49 | the descent loop records the arrays it passes; it reports a throw exactly where the reference walk throws, and otherwise the walk equals writing the final removal back through the recorded arrays |
| DynamicDocuments.WriteBack | src/DynamicDocument.php:47-51 | the write-back loop computes the same tree as writing the result back through the recorded arrays |
| DynamicDocuments.DynamicDocument.constructor | src/DynamicDocument.php:11-14 | the document holds exactly the given values |
| DynamicDocuments.DynamicDocument.Has | src/DynamicDocument.php:16-19 | `has` on the document's values (`HasPath`) |
| DynamicDocuments.DynamicDocument.Get | src/DynamicDocument.php:26-29 | `get` on the document's values (`GetPath`) |
| DynamicDocuments.DynamicDocument.All | src/DynamicDocument.php:54-57 | the document's values as they stand |
| DynamicDocuments.DynamicDocument.ToJson | src/DynamicDocument.php:64-67 | the encoding of the document's values; where `json_encode` fails, a `TypeError` for the declared `string` return type |
| DynamicDocuments.DynamicDocument.Set | src/DynamicDocument.php:35-38 | the new values are the old values with the path written, and they stay well formed |
| DynamicDocuments.DynamicDocument.Remove | src/DynamicDocument.php:40-52 | the descent and write-back loops give the result of the reference walk; a throw leaves the values unchanged |
| DynamicDocuments.DynamicDocument.Merge | src/DynamicDocument.php:59-62 | a new, well-formed document holding `array_merge` of the values and the argument; this document is unchanged |
| DynamicDocumentCast.NormaliseValid | src/DynamicDocumentCast.php:17 | the normalised payload is a well-formed array |
| DynamicDocumentCast.Normalise | src/DynamicDocumentCast.php:17 | null becomes `[]`, an array stays, a string is decoded and must give an array; anything else is a `TypeError` (partners: `PayloadAccepted`, `NormaliseValid`) |
| DynamicDocumentCast.MergedValues | src/DynamicDocumentCast.php:15-20 | the values of the document `merge` returns: `array_merge` of the document's values with the normalised payload (partners: `PayloadWins`, `PayloadAppendsLists`, `NullPayloadKeepsValues`) |
| DynamicDocumentCast.Merge | src/DynamicDocumentCast.php:15-20 | null, an array or text decoding to an array gives a new document with the merged values; anything else is a `TypeError` |
| DynamicDocumentCast.PayloadAccepted | src/DynamicDocumentCast.php:15-20 | the merge succeeds exactly for null, an array, or text decoding to an array; otherwise it throws a `TypeError` |
| DynamicDocumentCast.NullPayloadKeepsValues | src/DynamicDocumentCast.php:15-20 | a null payload returns the document's values unchanged exactly when its integer keys are 0 to n-1 in order; otherwise they are renumbered |
| DynamicDocumentCast.PayloadWins | src/DynamicDocumentCast.php:15-20 | every string key in the payload overrides the document, and every other string key keeps its value |
| DynamicDocumentCast.PayloadAppendsLists | src/DynamicDocumentCast.php:15-20 | the payload's integer-keyed values come after the document's |
| HasDynamicAttributes.DynamicDocumentKey | src/HasDynamicAttributes.php:47-50 | the attribute and column that hold the document is `values` |
| HasDynamicAttributes.DynamicKeys | src/HasDynamicAttributes.php:57-60 | the host's `dynamicKeys` property, or `[]` when it declares none |
| HasDynamicAttributes.DynamicLocales | src/HasDynamicAttributes.php:62-65 | the host's `dynamicLocales` property, or `[]` when it declares none |
| HasDynamicAttributes.DynamicKeysBlacklist | src/HasDynamicAttributes.php:73-76 | the host's `dynamicKeysBlacklist` property, or `[]` when it declares none |
| HasDynamicAttributes.IsDynamic | src/HasDynamicAttributes.php:28-39 | `isDynamic`: a listed key, or with `*` listed any key but `values` and the blacklisted ones (partner: `IsDynamicRules`) |
| HasDynamicAttributes.Truthy | src/HasDynamicAttributes.php:18 | PHP's truth value of the optional index: false for null, `""` and `"0"` |
| HasDynamicAttributes.IndexPath | src/HasDynamicAttributes.php:16-24 | the path `dynamic` and `setDynamic` address: `"$key.$index"` for a truthy index, else the key (partner: `IndexPathSegments`) |
| HasDynamicAttributes.HostValue | src/HasDynamicAttributes.php:104 | the host's own reading: the stored attribute, or null when absent |
| HasDynamicAttributes.ReadAttribute | src/HasDynamicAttributes.php:101-124 | `getAttribute`: host value for a non-dynamic key; else the current locale's translation if `has` finds it; else the stored value, null for an array in a listed locale; else the host value (partners: `HostAnswers`, `TranslationFirst`, `PlainValue`, `UntranslatedArray`, `ReadAfterSet*`) |
| HasDynamicAttributes.IsDynamicRules | src/HasDynamicAttributes.php:28-39 | a listed key is dynamic; without `*` nothing else is; with `*`, every key except `values` and the blacklisted keys is |
| HasDynamicAttributes.IndexPathSegments | src/HasDynamicAttributes.php:16-26 | a truthy index addresses its segments below the key; null, `""` and `"0"` address the key itself |
| HasDynamicAttributes.HostAnswers | src/HasDynamicAttributes.php:101-124 | a key that is not dynamic, or that the document does not hold, is answered by the host's own attributes |
| HasDynamicAttributes.TranslationFirst | src/HasDynamicAttributes.php:109-111 | a stored translation for the current locale is the answer |
| HasDynamicAttributes.PlainValue | src/HasDynamicAttributes.php:113-121 | a stored value that is not an array is the answer in every locale |
| HasDynamicAttributes.UntranslatedArray | src/HasDynamicAttributes.php:113-121 | without a translation, the array reads as null in a locale listed in `dynamicLocales`, and as the raw array otherwise |
| HasDynamicAttributes.ReadAfterSetTranslation | src/HasDynamicAttributes.php:101-124 | writing at `"$key.$locale"`, then reading the attribute in that locale, gives the written value |
| HasDynamicAttributes.ReadAfterSetPlain | src/HasDynamicAttributes.php:101-139 | writing a value that is not an array, then reading the attribute, gives that value in any locale |
| HasDynamicAttributes.PayloadIsStored | src/HasDynamicAttributes.php:79-90 | the payload found by the loop is what the stored row holds under `values` |
| HasDynamicAttributes.PayloadAt | src/HasDynamicAttributes.php:82-86 | in a row with distinct names, the payload is its single `values` entry |
| HasDynamicAttributes.PayloadAbsent | src/HasDynamicAttributes.php:82-86 | a row without a `values` entry has no payload |
| HasDynamicAttributes.RewriteKeepsOthers | src/HasDynamicAttributes.php:85-89 | the rewritten row stores every other attribute as given, and the document's JSON under `values` |
| HasDynamicAttributes.Record.constructor | src/HasDynamicAttributes.php:11-14 | a new record has no attributes and an empty document |
| HasDynamicAttributes.Record.Dynamic | src/HasDynamicAttributes.php:16-19 | `dynamic($key, $index)`: `get` of the indexed path with default null (partner: `Record.SetDynamic`) |
| HasDynamicAttributes.Record.GetAttribute | src/HasDynamicAttributes.php:101-124 | `getAttribute` on the record's state: `ReadAttribute` of its configuration, attributes and document |
| HasDynamicAttributes.Record.SetDynamic | src/HasDynamicAttributes.php:21-26 | the document is written at the indexed path and `dynamic` reads the value back unless the walk passes through an object; `values` then holds the document's JSON, or, when encoding fails, a `TypeError` is thrown after the write and `values` keeps its old text |
| HasDynamicAttributes.Record.FillDynamicDocument | src/HasDynamicAttributes.php:141-144 | the document is replaced by the cast's merge of the payload; on a throw nothing changes |
| HasDynamicAttributes.Record.SetAttribute | src/HasDynamicAttributes.php:127-139 | a dynamic key is written to the document; a non-dynamic `values` is merged into the document and stored as JSON, with no change when the merge throws; an encoding failure throws after the document is replaced, leaving the attributes unchanged; any other key is stored as given |
| HasDynamicAttributes.Record.SetRawAttributes | src/HasDynamicAttributes.php:79-90 | a row's `values` entry is merged into the document and replaced by its JSON; the other attributes are stored as given; a merge that throws changes nothing, and an encoding failure throws after the document is replaced, leaving the attributes unchanged |

## Left out

- Eloquent's own `getAttribute`, `setAttribute` and `setRawAttributes` (casts, mutators, relations, dirty tracking, the `$sync` flag) are not part of this model. The host's storage is a map from names to values, read as null when the name is absent.
- `app()->getLocale()` becomes a parameter of `getAttribute`.
- `json_encode` and `json_decode` become function parameters, not a JSON codec. The encoder may fail, and each failure is modelled, but which documents fail (nesting deeper than 512 levels, values it cannot encode) is left to the encoder. The decoder is only required to produce well-formed arrays. Text that is not valid JSON is expected to decode to null.
- `data_get` and `data_set` treat the segments `*`, `{first}` and `{last}` specially; the model reads them as literal keys. For paths holding such segments, `GetAfterSet`, `SetFrame`, `ReadAfterSetTranslation` and `ReadAfterSetPlain` hold of the model but do not describe `data_get` / `data_set`.
- An object on a `set` path is modelled as opaque. The write into the object's own properties is not modelled; the tree is simply left unchanged.
- Reading through an object with `get` is not modelled: a walk stops at any node that is not an array.
- Floating-point values and keys are not modelled. PHP's truncation of float keys is left out with them.
- `isDynamic` (its key lists) and `getAttribute` (its `dynamicLocales` check) use `in_array` with loose comparison, which treats numeric strings such as `"1"` and `"01"` as equal. The model compares exact strings in both.
- `getAttribute` and `setAttribute` take string keys only. Integer attribute names are not modelled.
- `remove` treats every object on its path as one that is not `ArrayAccess`, so reaching it throws. An object implementing `ArrayAccess` (a collection, say) does not throw: PHP calls its `offsetGet` / `offsetUnset` and changes the object, which the model does not capture.
- `remove` takes references in place. It is modelled as a descent that records the arrays it passes, followed by a write-back. PHP's aliasing of references is not modelled.
- ArrayMerge.MergeStringKey: states each string key's value but not where it sits among the merged entries.
- The fallback-locale stubs in the repository's tests describe behaviour the trait does not implement, so they are not modelled.
