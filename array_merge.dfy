/**
 * PHP's `array_merge($a, $b)`: the entries of `$a` and then of `$b` are
 * copied into a fresh array. An integer-keyed entry is appended under the
 * next integer (so integer keys are renumbered 0, 1, 2, ... in order and
 * never overwrite); a string-keyed entry is written with `$r[$k] = $v`, so a
 * later string key replaces an earlier one where it stands.
 */
module ArrayMerge {
  import opened Wrappers
  import opened PhpKeys
  import opened PhpArrays

  /** The values of the integer-keyed entries, in order. */
  function IntValues(es: seq<Entry>): seq<Value>
    decreases |es|
  {
    if |es| == 0 then []
    else (if es[0].key.IntKey? then [es[0].val] else []) + IntValues(es[1..])
  }

  /** Copying one entry into the result being built. */
  function MergeStep(acc: seq<Entry>, e: Entry): seq<Entry> {
    match e.key
    case IntKey(_) => acc + [Entry(IntKey(|IntValues(acc)|), e.val)]
    case StrKey(_) => Put(acc, e.key, e.val)
  }

  function MergeAll(acc: seq<Entry>, src: seq<Entry>): seq<Entry>
    decreases |src|
  {
    if |src| == 0 then acc else MergeAll(MergeStep(acc, src[0]), src[1..])
  }

  /** `array_merge($a, $b)`. */
  function Merge(a: seq<Entry>, b: seq<Entry>): seq<Entry> {
    MergeAll(MergeAll([], a), b)
  }

  /** The integer keys of `es` are exactly 0 .. n-1, key `i` holding the i-th
      integer-keyed value. */
  ghost predicate Numbered(es: seq<Entry>) {
    forall n: int :: Lookup(es, IntKey(n)) == if 0 <= n < |IntValues(es)| then Some(IntValues(es)[n]) else None
  }

  /** Every integer key equals the number of integer-keyed entries before it:
      the shape `array_merge` itself produces. */
  predicate Packed(es: seq<Entry>) {
    forall i | 0 <= i < |es| :: es[i].key.IntKey? ==> es[i].key.n == |IntValues(es[..i])|
  }

  // ---------------------------------------------------------------- helpers

  lemma {:induction false} KeysOfAppend(es: seq<Entry>, e: Entry)
    ensures KeysOf(es + [e]) == KeysOf(es) + [e.key]
    decreases |es|
  {
    if |es| > 0 {
      KeysOfAppend(es[1..], e);
      assert (es + [e])[1..] == es[1..] + [e];
    }
  }

  lemma {:induction false} LookupAppend(es: seq<Entry>, e: Entry, k: Key)
    ensures Lookup(es + [e], k) ==
      if k in KeysOf(es) then Lookup(es, k) else if e.key == k then Some(e.val) else None
    decreases |es|
  {
    if |es| > 0 {
      LookupAppend(es[1..], e, k);
      assert (es + [e])[1..] == es[1..] + [e];
    }
  }

  lemma {:induction false} IntValuesAppend(es: seq<Entry>, e: Entry)
    ensures IntValues(es + [e]) == IntValues(es) + (if e.key.IntKey? then [e.val] else [])
    decreases |es|
  {
    if |es| > 0 {
      IntValuesAppend(es[1..], e);
      assert (es + [e])[1..] == es[1..] + [e];
    }
  }

  lemma {:induction false} UniqueAppend(es: seq<Entry>, e: Entry)
    requires UniqueKeys(es) && e.key !in KeysOf(es)
    ensures UniqueKeys(es + [e])
    decreases |es|
  {
    if |es| > 0 {
      UniqueAppend(es[1..], e);
      KeysOfAppend(es[1..], e);
      assert (es + [e])[1..] == es[1..] + [e];
    }
  }

  /** A string-keyed write leaves the integer-keyed values alone. */
  lemma {:induction false} PutStringKeepsInts(es: seq<Entry>, s: string, v: Value)
    ensures IntValues(Put(es, StrKey(s), v)) == IntValues(es)
    decreases |es|
  {
    if |es| > 0 && es[0].key != StrKey(s) {
      PutStringKeepsInts(es[1..], s, v);
      assert ([es[0]] + Put(es[1..], StrKey(s), v))[1..] == Put(es[1..], StrKey(s), v);
    }
  }

  lemma {:induction false} UniquePrefix(es: seq<Entry>, i: nat)
    requires UniqueKeys(es) && i < |es|
    ensures es[i].key !in KeysOf(es[..i])
    decreases i
  {
    if i > 0 {
      UniquePrefix(es[1..], i - 1);
      KeysOfIndex(es[1..], i - 1);
      assert es[..i][1..] == es[1..][..i - 1];
    }
  }

  lemma {:induction false} KeysOfIndex(es: seq<Entry>, i: nat)
    requires i < |es|
    ensures es[i].key in KeysOf(es)
    decreases i
  {
    if i > 0 {
      KeysOfIndex(es[1..], i - 1);
    }
  }

  lemma EmptyNumbered()
    ensures Numbered([])
  {
    forall n: int ensures Lookup([], IntKey(n)) == None {}
  }

  // ------------------------------------------------------- step invariants

  lemma StepIntValues(acc: seq<Entry>, e: Entry)
    ensures IntValues(MergeStep(acc, e)) == IntValues(acc) + (if e.key.IntKey? then [e.val] else [])
  {
    match e.key
    case IntKey(_) =>
      IntValuesAppend(acc, Entry(IntKey(|IntValues(acc)|), e.val));
    case StrKey(s) =>
      PutStringKeepsInts(acc, s, e.val);
  }

  lemma StepNumbered(acc: seq<Entry>, e: Entry)
    requires Numbered(acc)
    ensures Numbered(MergeStep(acc, e))
  {
    StepIntValues(acc, e);
    match e.key
    case IntKey(_) =>
      var c := |IntValues(acc)|;
      var e' := Entry(IntKey(c), e.val);
      forall n: int ensures Lookup(acc + [e'], IntKey(n)) ==
        if 0 <= n < c + 1 then Some((IntValues(acc) + [e.val])[n]) else None
      {
        LookupAppend(acc, e', IntKey(n));
        assert Lookup(acc, IntKey(n)) == if 0 <= n < c then Some(IntValues(acc)[n]) else None;
      }
    case StrKey(s) =>
  }

  lemma StepUnique(acc: seq<Entry>, e: Entry)
    requires Numbered(acc) && UniqueKeys(acc)
    ensures UniqueKeys(MergeStep(acc, e))
  {
    match e.key
    case IntKey(_) =>
      var c := |IntValues(acc)|;
      assert Lookup(acc, IntKey(c)) == None;
      UniqueAppend(acc, Entry(IntKey(c), e.val));
    case StrKey(_) =>
      PutUnique(acc, e.key, e.val);
  }

  // --------------------------------------------------------- whole merges

  /** String keys: the last source holding the key wins; keys found in
      neither side stay absent. */
  lemma {:induction false} MergeAllStrings(acc: seq<Entry>, src: seq<Entry>, s: string)
    requires UniqueKeys(src)
    ensures Lookup(MergeAll(acc, src), StrKey(s)) ==
      if StrKey(s) in KeysOf(src) then Lookup(src, StrKey(s)) else Lookup(acc, StrKey(s))
    decreases |src|
  {
    if |src| > 0 {
      MergeAllStrings(MergeStep(acc, src[0]), src[1..], s);
      if src[0].key.IntKey? {
        LookupAppend(acc, Entry(IntKey(|IntValues(acc)|), src[0].val), StrKey(s));
      }
    }
  }

  /** Integer keys: the integer-keyed values of the source are appended, in
      order, under fresh consecutive keys. */
  lemma {:induction false} MergeAllIntValues(acc: seq<Entry>, src: seq<Entry>)
    ensures IntValues(MergeAll(acc, src)) == IntValues(acc) + IntValues(src)
    decreases |src|
  {
    if |src| > 0 {
      var next := MergeStep(acc, src[0]);
      var head := if src[0].key.IntKey? then [src[0].val] else [];
      StepIntValues(acc, src[0]);
      assert IntValues(next) == IntValues(acc) + head;
      MergeAllIntValues(next, src[1..]);
      assert IntValues(src) == head + IntValues(src[1..]);
      assert IntValues(acc) + IntValues(src) == (IntValues(acc) + head) + IntValues(src[1..]);
    }
  }

  lemma {:induction false} MergeAllNumbered(acc: seq<Entry>, src: seq<Entry>)
    requires Numbered(acc)
    ensures Numbered(MergeAll(acc, src))
    decreases |src|
  {
    if |src| > 0 {
      StepNumbered(acc, src[0]);
      MergeAllNumbered(MergeStep(acc, src[0]), src[1..]);
    }
  }

  lemma {:induction false} MergeAllUnique(acc: seq<Entry>, src: seq<Entry>)
    requires Numbered(acc) && UniqueKeys(acc)
    ensures UniqueKeys(MergeAll(acc, src))
    decreases |src|
  {
    if |src| > 0 {
      StepNumbered(acc, src[0]);
      StepUnique(acc, src[0]);
      MergeAllUnique(MergeStep(acc, src[0]), src[1..]);
    }
  }

  lemma {:induction false} MergeAllMembers(acc: seq<Entry>, src: seq<Entry>)
    requires forall e | e in acc :: WellFormed(e.val)
    requires forall e | e in src :: WellFormed(e.val)
    ensures forall e | e in MergeAll(acc, src) :: WellFormed(e.val)
    decreases |src|
  {
    if |src| > 0 {
      var next := MergeStep(acc, src[0]);
      if src[0].key.StrKey? {
        PutMembers(acc, src[0].key, src[0].val);
      }
      assert forall e | e in next :: WellFormed(e.val);
      MergeAllMembers(next, src[1..]);
    }
  }

  lemma {:induction false} MergeAllCanonical(acc: seq<Entry>, src: seq<Entry>)
    requires CanonicalKeys(acc) && CanonicalKeys(src)
    ensures CanonicalKeys(MergeAll(acc, src))
    decreases |src|
  {
    if |src| > 0 {
      var e := src[0];
      if e.key.IntKey? {
        CanonicalAppend(acc, Entry(IntKey(|IntValues(acc)|), e.val));
      } else {
        PutCanonical(acc, e.key, e.val);
      }
      MergeAllCanonical(MergeStep(acc, e), src[1..]);
    }
  }

  lemma {:induction false} CanonicalAppend(es: seq<Entry>, e: Entry)
    requires CanonicalKeys(es) && CanonicalKey(e.key)
    ensures CanonicalKeys(es + [e])
    decreases |es|
  {
    if |es| > 0 {
      assert (es + [e])[1..] == es[1..] + [e];
      CanonicalAppend(es[1..], e);
    }
  }

  lemma {:induction false} MergeAllPacked(a: seq<Entry>, i: nat)
    requires Packed(a) && UniqueKeys(a) && i <= |a|
    ensures MergeAll(a[..i], a[i..]) == a
    decreases |a| - i
  {
    if i < |a| {
      var e := a[i];
      assert a[..i + 1] == a[..i] + [e];
      if e.key.StrKey? {
        UniquePrefix(a, i);
        PutKeys(a[..i], e.key, e.val);
      }
      assert MergeStep(a[..i], e) == a[..i + 1];
      assert a[i..][1..] == a[i + 1..];
      MergeAllPacked(a, i + 1);
    } else {
      assert a[..i] == a;
    }
  }

  /** Writing a string key that is already present changes its value where it
      stands: every key keeps its position and integer-keyed entries are untouched. */
  lemma {:induction false} PutStringInPlace(es: seq<Entry>, s: string, v: Value)
    requires StrKey(s) in KeysOf(es)
    ensures |Put(es, StrKey(s), v)| == |es|
    ensures forall i | 0 <= i < |es| ::
      Put(es, StrKey(s), v)[i].key == es[i].key && (es[i].key.IntKey? ==> Put(es, StrKey(s), v)[i] == es[i])
    decreases |es|
  {
    if es[0].key != StrKey(s) {
      PutStringInPlace(es[1..], s, v);
    }
  }

  lemma {:induction false} IntValuesSameInts(a: seq<Entry>, b: seq<Entry>)
    requires |a| == |b|
    requires forall i | 0 <= i < |a| :: a[i].key == b[i].key && (a[i].key.IntKey? ==> a[i] == b[i])
    ensures IntValues(a) == IntValues(b)
    decreases |a|
  {
    if |a| > 0 {
      IntValuesSameInts(a[1..], b[1..]);
    }
  }

  lemma PackedSameInts(a: seq<Entry>, b: seq<Entry>)
    requires Packed(a) && |a| == |b|
    requires forall i | 0 <= i < |a| :: a[i].key == b[i].key && (a[i].key.IntKey? ==> a[i] == b[i])
    ensures Packed(b)
  {
    forall i | 0 <= i < |b| && b[i].key.IntKey?
      ensures b[i].key.n == |IntValues(b[..i])|
    {
      IntValuesSameInts(a[..i], b[..i]);
    }
  }

  lemma PackedAppend(es: seq<Entry>, e: Entry)
    requires Packed(es) && (e.key.IntKey? ==> e.key.n == |IntValues(es)|)
    ensures Packed(es + [e])
  {
    var r := es + [e];
    forall i | 0 <= i < |r| && r[i].key.IntKey?
      ensures r[i].key.n == |IntValues(r[..i])|
    {
      if i < |es| {
        assert r[..i] == es[..i];
      } else {
        assert r[..i] == es;
      }
    }
  }

  lemma StepPacked(acc: seq<Entry>, e: Entry)
    requires Packed(acc)
    ensures Packed(MergeStep(acc, e))
  {
    if e.key.IntKey? {
      PackedAppend(acc, Entry(IntKey(|IntValues(acc)|), e.val));
    } else {
      PutKeys(acc, e.key, e.val);
      if e.key in KeysOf(acc) {
        PutStringInPlace(acc, e.key.s, e.val);
        PackedSameInts(acc, Put(acc, e.key, e.val));
      } else {
        PackedAppend(acc, e);
      }
    }
  }

  /** What `array_merge` builds is always packed. */
  lemma {:induction false} MergeAllKeepsPacked(acc: seq<Entry>, src: seq<Entry>)
    requires Packed(acc)
    ensures Packed(MergeAll(acc, src))
    decreases |src|
  {
    if |src| > 0 {
      StepPacked(acc, src[0]);
      MergeAllKeepsPacked(MergeStep(acc, src[0]), src[1..]);
    }
  }

  // ------------------------------------------------ properties of Merge(a, b)

  /** On a string key the right-hand array wins; otherwise the left-hand value
      is kept; a string key in neither is absent. */
  lemma MergeStringKey(a: seq<Entry>, b: seq<Entry>, s: string)
    requires UniqueKeys(a) && UniqueKeys(b)
    ensures Lookup(Merge(a, b), StrKey(s)) ==
      if StrKey(s) in KeysOf(b) then Lookup(b, StrKey(s)) else Lookup(a, StrKey(s))
  {
    MergeAllStrings([], a, s);
    MergeAllStrings(MergeAll([], a), b, s);
  }

  /** The integer-keyed values of `array_merge($a, $b)` are those of `$a` and
      then those of `$b`, in order. */
  lemma MergeIntValues(a: seq<Entry>, b: seq<Entry>)
    ensures IntValues(Merge(a, b)) == IntValues(a) + IntValues(b)
  {
    MergeAllIntValues([], a);
    MergeAllIntValues(MergeAll([], a), b);
    assert IntValues([]) + IntValues(a) == IntValues(a);
  }

  lemma MergeNumbered(a: seq<Entry>, b: seq<Entry>)
    ensures Numbered(Merge(a, b))
  {
    EmptyNumbered();
    MergeAllNumbered([], a);
    MergeAllNumbered(MergeAll([], a), b);
  }

  /** Integer keys never collide: the result's integer keys are 0 .. n-1 and
      hold the integer-keyed values of `a` and then of `b`, in order. */
  lemma MergeIntKeys(a: seq<Entry>, b: seq<Entry>, n: int)
    ensures Lookup(Merge(a, b), IntKey(n)) ==
      if 0 <= n < |IntValues(a)| + |IntValues(b)| then Some((IntValues(a) + IntValues(b))[n]) else None
  {
    MergeNumbered(a, b);
    MergeIntValues(a, b);
  }

  /** The result of a merge is again a well-formed PHP array. */
  lemma MergeValid(a: seq<Entry>, b: seq<Entry>)
    requires ValidArray(a) && ValidArray(b)
    ensures ValidArray(Merge(a, b))
  {
    EmptyNumbered();
    MergeAllNumbered([], a);
    MergeAllUnique([], a);
    MergeAllUnique(MergeAll([], a), b);
    MergeAllMembers([], a);
    MergeAllMembers(MergeAll([], a), b);
    MergeAllCanonical([], a);
    MergeAllCanonical(MergeAll([], a), b);
  }

  /** Merging nothing into an array that is already packed returns it as it is. */
  lemma MergeEmptyPacked(a: seq<Entry>)
    requires Packed(a) && UniqueKeys(a)
    ensures Merge(a, []) == a
  {
    MergeAllPacked(a, 0);
    assert a[..0] == [] && a[0..] == a;
  }

  /** Merging nothing returns a PHP array unchanged exactly when it is packed. */
  lemma MergeEmptyIdentity(a: seq<Entry>)
    requires UniqueKeys(a)
    ensures Merge(a, []) == a <==> Packed(a)
  {
    MergeAllKeepsPacked([], a);
    if Packed(a) {
      MergeEmptyPacked(a);
    }
  }

  /** ... so an integer key that is not in sequence is renumbered: merging
      nothing into `[5 => "x"]` gives `[0 => "x"]`. */
  lemma MergeEmptyRenumbers()
    ensures Merge([Entry(IntKey(5), Str("x"))], []) == [Entry(IntKey(0), Str("x"))]
  {
  }
}
