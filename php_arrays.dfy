/**
 * PHP's ordered arrays, as the document tree uses them: a sequence of
 * key/value entries in insertion order. Reading finds the entry with the
 * key, writing an existing key replaces its value where it stands, writing
 * a new key appends, and `unset` drops the entry.
 */
module PhpArrays {
  import opened Wrappers
  import opened PhpKeys

  /** A value stored in the document. `Opaque` is an object (such as a nested
      document instance) kept by reference; it is not an array and cannot be
      walked into. */
  datatype Value =
    | Null
    | Bool(b: bool)
    | Int(n: int)
    | Str(s: string)
    | Opaque(id: nat)
    | Arr(entries: seq<Entry>)

  datatype Entry = Entry(key: Key, val: Value)

  function KeysOf(es: seq<Entry>): seq<Key>
    decreases |es|
  {
    if |es| == 0 then [] else [es[0].key] + KeysOf(es[1..])
  }

  /** A PHP array never holds the same key twice. */
  predicate UniqueKeys(es: seq<Entry>)
    decreases |es|
  {
    |es| == 0 || (es[0].key !in KeysOf(es[1..]) && UniqueKeys(es[1..]))
  }

  /** Every key is one a PHP array can hold. */
  predicate CanonicalKeys(es: seq<Entry>)
    decreases |es|
  {
    |es| == 0 || (CanonicalKey(es[0].key) && CanonicalKeys(es[1..]))
  }

  /** Every array in the tree, at every depth, has unique keys, each of them a
      key PHP can hold. */
  predicate WellFormed(v: Value) {
    match v
    case Arr(es) => UniqueKeys(es) && CanonicalKeys(es) && forall e | e in es :: WellFormed(e.val)
    case _ => true
  }

  predicate ValidArray(es: seq<Entry>) {
    WellFormed(Arr(es))
  }

  /** `$a[$k]` when `array_key_exists($k, $a)`; None otherwise. */
  function Lookup(es: seq<Entry>, k: Key): (r: Option<Value>)
    ensures r.Some? <==> k in KeysOf(es)
    ensures r.Some? ==> Entry(k, r.value) in es
    decreases |es|
  {
    if |es| == 0 then None
    else if es[0].key == k then Some(es[0].val)
    else
      Lookup(es[1..], k)
  }

  /** `$a[$k] = $v`: replace in place when the key exists, append otherwise. */
  function Put(es: seq<Entry>, k: Key, v: Value): (r: seq<Entry>)
    ensures Lookup(r, k) == Some(v)
    ensures forall k' | k' != k :: Lookup(r, k') == Lookup(es, k')
    decreases |es|
  {
    if |es| == 0 then [Entry(k, v)]
    else if es[0].key == k then [Entry(k, v)] + es[1..]
    else [es[0]] + Put(es[1..], k, v)
  }

  /** Writing an existing key keeps the key order; a new key goes last. */
  lemma {:induction false} PutKeys(es: seq<Entry>, k: Key, v: Value)
    ensures KeysOf(Put(es, k, v)) == if k in KeysOf(es) then KeysOf(es) else KeysOf(es) + [k]
    ensures k !in KeysOf(es) ==> Put(es, k, v) == es + [Entry(k, v)]
    ensures Lookup(es, k) == Some(v) ==> Put(es, k, v) == es
    decreases |es|
  {
    if |es| > 0 && es[0].key != k {
      PutKeys(es[1..], k, v);
      assert KeysOf(es) == [es[0].key] + KeysOf(es[1..]);
      assert KeysOf([es[0]] + Put(es[1..], k, v)) == [es[0].key] + KeysOf(Put(es[1..], k, v));
      assert es == [es[0]] + es[1..];
    }
  }

  /** Every entry after a write is an old one or the written one. */
  lemma {:induction false} PutMembers(es: seq<Entry>, k: Key, v: Value)
    ensures forall e | e in Put(es, k, v) :: e in es || e == Entry(k, v)
    decreases |es|
  {
    if |es| > 0 && es[0].key != k {
      PutMembers(es[1..], k, v);
    }
  }

  /** Writing keeps the array a PHP array: its keys stay unique. */
  lemma {:induction false} PutUnique(es: seq<Entry>, k: Key, v: Value)
    requires UniqueKeys(es)
    ensures UniqueKeys(Put(es, k, v))
    decreases |es|
  {
    if |es| > 0 && es[0].key != k {
      PutUnique(es[1..], k, v);
      PutKeys(es[1..], k, v);
      assert ([es[0]] + Put(es[1..], k, v))[1..] == Put(es[1..], k, v);
    }
  }

  /** Writing a key PHP can hold keeps every key one PHP can hold. */
  lemma {:induction false} PutCanonical(es: seq<Entry>, k: Key, v: Value)
    requires CanonicalKeys(es) && CanonicalKey(k)
    ensures CanonicalKeys(Put(es, k, v))
    decreases |es|
  {
    if |es| > 0 {
      if es[0].key == k {
        assert ([Entry(k, v)] + es[1..])[1..] == es[1..];
      } else {
        PutCanonical(es[1..], k, v);
        assert ([es[0]] + Put(es[1..], k, v))[1..] == Put(es[1..], k, v);
      }
    }
  }

  /** `unset($a[$k])`: the entry with key `k` is dropped, the others keep their order. */
  function Unset(es: seq<Entry>, k: Key): (r: seq<Entry>)
    ensures Lookup(r, k) == None
    ensures forall k' | k' != k :: Lookup(r, k') == Lookup(es, k')
    decreases |es|
  {
    if |es| == 0 then []
    else if es[0].key == k then Unset(es[1..], k)
    else [es[0]] + Unset(es[1..], k)
  }

  /** Unsetting only drops entries, and changes nothing when the key is absent. */
  lemma {:induction false} UnsetMembers(es: seq<Entry>, k: Key)
    ensures forall e | e in Unset(es, k) :: e in es
    ensures forall k' | k' in KeysOf(Unset(es, k)) :: k' in KeysOf(es)
    ensures k !in KeysOf(es) ==> Unset(es, k) == es
    decreases |es|
  {
    if |es| > 0 {
      UnsetMembers(es[1..], k);
      assert es == [es[0]] + es[1..];
    }
  }

  /** Unsetting keeps every key one PHP can hold. */
  lemma {:induction false} UnsetCanonical(es: seq<Entry>, k: Key)
    requires CanonicalKeys(es)
    ensures CanonicalKeys(Unset(es, k))
    decreases |es|
  {
    if |es| > 0 {
      UnsetCanonical(es[1..], k);
      if es[0].key != k {
        assert ([es[0]] + Unset(es[1..], k))[1..] == Unset(es[1..], k);
      }
    }
  }

  /** Unsetting keeps the array a PHP array: its keys stay unique. */
  lemma {:induction false} UnsetUnique(es: seq<Entry>, k: Key)
    requires UniqueKeys(es)
    ensures UniqueKeys(Unset(es, k))
    decreases |es|
  {
    if |es| > 0 {
      UnsetUnique(es[1..], k);
      UnsetMembers(es[1..], k);
      if es[0].key != k {
        assert ([es[0]] + Unset(es[1..], k))[1..] == Unset(es[1..], k);
      }
    }
  }
}
