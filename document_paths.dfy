/**
 * Reading, writing and removing by path in a document tree: the behaviour of
 * `data_get` and `data_set` on plain arrays, and of `DynamicDocument::remove`,
 * which walks the tree by reference.
 */
module DocumentPaths {
  import opened Wrappers
  import opened PhpKeys
  import opened PhpArrays
  import opened Paths

  /** What PHP throws: a `TypeError` for an argument of the wrong type, an
      `Error` for using a scalar, a string or an object as an array. */
  datatype Thrown = TypeError | Error

  /** The marker `has` passes to `get` as the default. */
  const NOT_FOUND: string := "__NOTFOUND__"

  // ================================================================ reading

  /** The node reached from `v` by following `segs`: at each step the current
      node must be an array holding the segment's key. */
  function Walk(v: Value, segs: seq<string>): Option<Value>
    decreases |segs|
  {
    if |segs| == 0 then Some(v)
    else match v
      case Arr(es) =>
        (match Lookup(es, KeyOf(segs[0]))
         case Some(c) => Walk(c, segs[1..])
         case None => None)
      case _ => None
  }

  /** `data_get($values, $path, $default)`. */
  function GetPath(values: seq<Entry>, path: string, default: Value): Value {
    Walk(Arr(values), Explode(path)).GetOr(default)
  }

  /** `has`: `get` with the marker as default does not return the marker. */
  predicate HasPath(values: seq<Entry>, path: string) {
    GetPath(values, path, Str(NOT_FOUND)) != Str(NOT_FOUND)
  }

  // ================================================================ writing

  /** `data_set($v, $segs, $x)`. An array is written into (a missing or
      non-array child is replaced by a new array); a scalar is first replaced
      by an empty array; an object is written through its own properties,
      which leaves the array tree unchanged. */
  function SetAt(v: Value, segs: seq<string>, x: Value): (r: Value)
    requires |segs| > 0
    ensures v.Arr? ==> r.Arr?
    decreases |segs|, if v.Arr? then 0 else 1
  {
    match v
    case Opaque(_) => v
    case Arr(es) =>
      var k := KeyOf(segs[0]);
      if |segs| == 1 then Arr(Put(es, k, x))
      else Arr(Put(es, k, SetAt(Lookup(es, k).GetOr(Null), segs[1..], x)))
    case _ => SetAt(Arr([]), segs, x)
  }

  /** `DynamicDocument::set`. */
  function SetPath(values: seq<Entry>, path: string, x: Value): seq<Entry> {
    SetAt(Arr(values), Explode(path), x).entries
  }

  /** Walking `segs` meets an object before the last segment, so that a write
      lands in the object and not in the tree. */
  predicate ThroughObject(v: Value, segs: seq<string>)
    decreases |segs|
  {
    |segs| > 1 && v.Arr? &&
    match Lookup(v.entries, KeyOf(segs[0]))
    case Some(c) => c.Opaque? || ThroughObject(c, segs[1..])
    case None => false
  }

  /** Two paths name different places: at the first segment where their keys
      differ, both still have segments (neither is a prefix of the other). */
  predicate Diverge(p: seq<string>, q: seq<string>)
    decreases |p|
  {
    |p| > 0 && |q| > 0 && (KeyOf(p[0]) != KeyOf(q[0]) || Diverge(p[1..], q[1..]))
  }

  // =============================================================== removing

  /** The result of `remove`'s walk from `v` along `parts`, taking a reference
      at each step, followed by `unset($node[$last])`. Taking a reference
      into null or false turns it into an array, and into a missing key
      creates that key as null; into a string, an integer, true or an object
      throws. Unsetting in null or false does nothing; in anything else that
      is not an array it throws. */
  function RemoveNode(v: Value, parts: seq<string>, last: string): (r: Result<Value, Thrown>)
    ensures v.Arr? && r.Ok? ==> r.value.Arr?
    decreases |parts|, if v.Arr? then 0 else 1
  {
    if |parts| == 0 then
      match v
      case Arr(es) => Ok(Arr(Unset(es, KeyOf(last))))
      case Null => Ok(v)
      case Bool(b) => if b then Err(Error) else Ok(v)
      case _ => Err(Error)
    else
      match v
      case Arr(es) =>
        var k := KeyOf(parts[0]);
        (match RemoveNode(Lookup(es, k).GetOr(Null), parts[1..], last)
         case Ok(c) => Ok(Arr(Put(es, k, c)))
         case Err(e) => Err(e))
      case Null => RemoveNode(Arr([]), parts, last)
      case Bool(b) => if b then Err(Error) else RemoveNode(Arr([]), parts, last)
      case _ => Err(Error)
  }

  /** `DynamicDocument::remove` on the document's values. */
  function RemovePath(values: seq<Entry>, path: string): Result<seq<Entry>, Thrown> {
    var segs := Explode(path);
    match RemoveNode(Arr(values), segs[..|segs| - 1], segs[|segs| - 1])
    case Ok(v) => Ok(v.entries)
    case Err(e) => Err(e)
  }

  /** A node that `remove` cannot take a reference into nor unset in. */
  predicate Unwalkable(v: Value) {
    v.Str? || v.Int? || v.Opaque? || v == Bool(true)
  }

  // ======================================================= lemmas: reading

  /** Walking a concatenated path is walking the first part, then the second. */
  lemma {:induction false} WalkConcat(v: Value, p: seq<string>, q: seq<string>)
    ensures Walk(v, p + q) == match Walk(v, p) case Some(w) => Walk(w, q) case None => None
    decreases |p|
  {
    if |p| == 0 {
      assert p + q == q;
    } else if v.Arr? {
      assert (p + q)[1..] == p[1..] + q;
      match Lookup(v.entries, KeyOf(p[0]))
      case Some(c) => WalkConcat(c, p[1..], q);
      case None =>
    }
  }

  /** When a segment is missing, so is every path through it, and `get`
      returns the default. */
  lemma {:induction false} GetMissingPrefix(values: seq<Entry>, path: string, j: nat, default: Value)
    requires 0 < j <= |Explode(path)|
    requires Walk(Arr(values), Explode(path)[..j]) == None
    ensures Walk(Arr(values), Explode(path)) == None
    ensures GetPath(values, path, default) == default
  {
    var segs := Explode(path);
    assert segs == segs[..j] + segs[j..];
    WalkConcat(Arr(values), segs[..j], segs[j..]);
  }

  /** `has` is true exactly when the path leads to a value other than the
      marker string; a stored null counts as present. */
  lemma HasPathMeaning(values: seq<Entry>, path: string)
    ensures HasPath(values, path) <==>
      (Walk(Arr(values), Explode(path)).Some? && Walk(Arr(values), Explode(path)).value != Str(NOT_FOUND))
  {
  }

  // ======================================================= lemmas: writing

  /** After writing `x` at `segs`, reading `segs` gives exactly `x`, provided
      the walk does not pass through an object. */
  lemma {:induction false} GetAfterSet(v: Value, segs: seq<string>, x: Value)
    requires |segs| > 0 && !v.Opaque? && !ThroughObject(v, segs)
    ensures Walk(SetAt(v, segs, x), segs) == Some(x)
    decreases |segs|, if v.Arr? then 0 else 1
  {
    if v.Arr? {
      if |segs| > 1 {
        GetAfterSet(Lookup(v.entries, KeyOf(segs[0])).GetOr(Null), segs[1..], x);
      }
    } else {
      GetAfterSet(Arr([]), segs, x);
    }
  }

  /** A write whose walk meets an object changes nothing in the tree. */
  lemma {:induction false} SetThroughObject(v: Value, segs: seq<string>, x: Value)
    requires |segs| > 0 && ThroughObject(v, segs)
    ensures SetAt(v, segs, x) == v
    decreases |segs|
  {
    var es := v.entries;
    var k := KeyOf(segs[0]);
    var c := Lookup(es, k).value;
    if !c.Opaque? {
      SetThroughObject(c, segs[1..], x);
    }
    PutKeys(es, k, c);
  }

  /** A write leaves every path that diverges from it as it was. */
  lemma {:induction false} SetFrame(v: Value, p: seq<string>, x: Value, q: seq<string>)
    requires |p| > 0 && Diverge(p, q)
    ensures Walk(SetAt(v, p, x), q) == Walk(v, q)
    decreases |p|, if v.Arr? then 0 else 1
  {
    match v
    case Opaque(_) =>
    case Arr(es) =>
      var k := KeyOf(p[0]);
      if KeyOf(q[0]) == k {
        var c := Lookup(es, k).GetOr(Null);
        SetFrame(c, p[1..], x, q[1..]);
        if Lookup(es, k).None? {
          assert Walk(c, q[1..]) == None;
        }
      }
    case _ =>
      SetFrame(Arr([]), p, x, q);
  }

  /** Writing keeps the tree well formed. */
  lemma {:induction false} SetWellFormed(v: Value, segs: seq<string>, x: Value)
    requires |segs| > 0 && WellFormed(v) && WellFormed(x)
    ensures WellFormed(SetAt(v, segs, x))
    decreases |segs|, if v.Arr? then 0 else 1
  {
    match v
    case Opaque(_) =>
    case Arr(es) =>
      var k := KeyOf(segs[0]);
      var child := if |segs| == 1 then x else SetAt(Lookup(es, k).GetOr(Null), segs[1..], x);
      if |segs| > 1 {
        SetWellFormed(Lookup(es, k).GetOr(Null), segs[1..], x);
      }
      PutMembers(es, k, child);
      PutUnique(es, k, child);
      KeyOfCanonical(segs[0]);
      PutCanonical(es, k, child);
    case _ =>
      SetWellFormed(Arr([]), segs, x);
  }

  // ====================================================== lemmas: removing

  /** After a successful remove, the removed path holds nothing. */
  lemma {:induction false} RemoveDeletes(v: Value, parts: seq<string>, last: string)
    requires RemoveNode(v, parts, last).Ok?
    ensures Walk(RemoveNode(v, parts, last).value, parts + [last]) == None
    decreases |parts|, if v.Arr? then 0 else 1
  {
    if |parts| == 0 {
      assert parts + [last] == [last];
    } else if v.Arr? {
      var k := KeyOf(parts[0]);
      RemoveDeletes(Lookup(v.entries, k).GetOr(Null), parts[1..], last);
      assert (parts + [last])[1..] == parts[1..] + [last];
    } else {
      RemoveDeletes(Arr([]), parts, last);
    }
  }

  /** A remove leaves every path that diverges from the removed one as it was. */
  lemma {:induction false} RemoveFrame(v: Value, parts: seq<string>, last: string, q: seq<string>)
    requires RemoveNode(v, parts, last).Ok? && Diverge(parts + [last], q)
    ensures Walk(RemoveNode(v, parts, last).value, q) == Walk(v, q)
    decreases |parts|, if v.Arr? then 0 else 1
  {
    var p := parts + [last];
    if |parts| == 0 {
      assert p == [last];
      assert !Diverge(p[1..], q[1..]);
    } else if v.Arr? {
      var k := KeyOf(parts[0]);
      assert p[1..] == parts[1..] + [last];
      if KeyOf(q[0]) == k {
        var c := Lookup(v.entries, k).GetOr(Null);
        RemoveFrame(c, parts[1..], last, q[1..]);
        if Lookup(v.entries, k).None? {
          assert Walk(c, q[1..]) == None;
        }
      }
    } else {
      RemoveFrame(Arr([]), parts, last, q);
    }
  }

  /** Taking references creates what was missing: after a remove the parent of
      the removed key exists, as null if it did not exist before. */
  lemma {:induction false} RemoveCreatesParent(v: Value, parts: seq<string>, last: string)
    requires RemoveNode(v, parts, last).Ok?
    ensures Walk(RemoveNode(v, parts, last).value, parts).Some?
    ensures Walk(v, parts) == None ==> Walk(RemoveNode(v, parts, last).value, parts) == Some(Null)
    decreases |parts|, if v.Arr? then 0 else 1
  {
    if |parts| > 0 {
      if v.Arr? {
        var k := KeyOf(parts[0]);
        RemoveCreatesParent(Lookup(v.entries, k).GetOr(Null), parts[1..], last);
        if Lookup(v.entries, k).None? {
          NullRemoveOk(parts[1..], last);
        }
      } else {
        RemoveCreatesParent(Arr([]), parts, last);
      }
    }
  }

  /** Below null, the walk only creates: it never throws and ends at null. */
  lemma {:induction false} NullRemoveOk(parts: seq<string>, last: string)
    ensures RemoveNode(Null, parts, last).Ok?
    ensures Walk(RemoveNode(Null, parts, last).value, parts) == Some(Null)
    decreases |parts|
  {
    if |parts| > 0 {
      NullRemoveOk(parts[1..], last);
    }
  }

  /** When the parent exists and is an array, remove is a write of the parent
      without the last key: nothing is created and nothing is thrown. */
  lemma {:induction false} RemoveExistingParent(v: Value, parts: seq<string>, last: string, c: seq<Entry>)
    requires |parts| > 0 && Walk(v, parts) == Some(Arr(c))
    ensures RemoveNode(v, parts, last) == Ok(SetAt(v, parts, Arr(Unset(c, KeyOf(last)))))
    decreases |parts|
  {
    var k := KeyOf(parts[0]);
    var child := Lookup(v.entries, k).value;
    if |parts| > 1 {
      RemoveExistingParent(child, parts[1..], last, c);
    }
  }

  /** Writing back what a path already holds changes nothing. */
  lemma {:induction false} SetSameValue(v: Value, segs: seq<string>, c: Value)
    requires |segs| > 0 && Walk(v, segs) == Some(c)
    ensures SetAt(v, segs, c) == v
    decreases |segs|
  {
    var es := v.entries;
    var k := KeyOf(segs[0]);
    var child := Lookup(es, k).value;
    if |segs| > 1 {
      SetSameValue(child, segs[1..], c);
    }
    PutKeys(es, k, child);
  }

  /** Removing a key its existing parent array does not hold is a no-op. */
  lemma RemoveAbsentNoOp(v: Value, parts: seq<string>, last: string, c: seq<Entry>)
    requires Walk(v, parts) == Some(Arr(c)) && KeyOf(last) !in KeysOf(c)
    ensures RemoveNode(v, parts, last) == Ok(v)
  {
    UnsetMembers(c, KeyOf(last));
    if |parts| > 0 {
      RemoveExistingParent(v, parts, last, c);
      SetSameValue(v, parts, Arr(c));
    }
  }

  /** One step of `remove`'s descent: taking a reference into an array, into
      null or into false (both read as the empty array) at the first segment,
      then removing below it. */
  lemma RemoveStep(node: Value, segs: seq<string>, last: string, es: seq<Entry>)
    requires |segs| > 0
    requires node == Arr(es) || ((node.Null? || node == Bool(false)) && es == [])
    ensures RemoveNode(node, segs, last) ==
      match RemoveNode(Lookup(es, KeyOf(segs[0])).GetOr(Null), segs[1..], last)
      case Ok(c) => Ok(Arr(Put(es, KeyOf(segs[0]), c)))
      case Err(e) => Err(e)
  {
  }

  /** Remove throws when its walk reaches a string, an integer, true or an
      object, whether to take a reference into it or to unset in it ... */
  lemma {:induction false} RemoveThrowsAt(v: Value, parts: seq<string>, last: string, j: nat)
    requires j <= |parts| && Walk(v, parts[..j]).Some? && Unwalkable(Walk(v, parts[..j]).value)
    ensures RemoveNode(v, parts, last) == Err(Error)
    decreases j
  {
    if j > 0 {
      var k := KeyOf(parts[0]);
      var child := Lookup(v.entries, k).value;
      assert parts[..j][1..] == parts[1..][..j - 1];
      RemoveThrowsAt(child, parts[1..], last, j - 1);
    }
  }

  /** ... and only then. */
  lemma {:induction false} RemoveErrorCause(v: Value, parts: seq<string>, last: string)
    requires RemoveNode(v, parts, last).Err?
    ensures exists j | 0 <= j <= |parts| :: Walk(v, parts[..j]).Some? && Unwalkable(Walk(v, parts[..j]).value)
    decreases |parts|, if v.Arr? then 0 else 1
  {
    if Unwalkable(v) {
      assert parts[..0] == [];
      assert Walk(v, parts[..0]) == Some(v);
    } else if |parts| == 0 {
    } else if v.Arr? {
      var k := KeyOf(parts[0]);
      if Lookup(v.entries, k).None? {
        NullRemoveOk(parts[1..], last);
      } else {
        var child := Lookup(v.entries, k).value;
        RemoveErrorCause(child, parts[1..], last);
        var j :| 0 <= j <= |parts[1..]| && Walk(child, parts[1..][..j]).Some? && Unwalkable(Walk(child, parts[1..][..j]).value);
        assert parts[..j + 1][1..] == parts[1..][..j];
        assert Walk(v, parts[..j + 1]) == Walk(child, parts[1..][..j]);
      }
    } else {
      NullRemoveOk(parts[1..], last);
      assert false;
    }
  }

  /** Removing keeps the tree well formed. */
  lemma {:induction false} RemoveWellFormed(v: Value, parts: seq<string>, last: string)
    requires WellFormed(v) && RemoveNode(v, parts, last).Ok?
    ensures WellFormed(RemoveNode(v, parts, last).value)
    decreases |parts|, if v.Arr? then 0 else 1
  {
    if |parts| == 0 {
      if v.Arr? {
        UnsetMembers(v.entries, KeyOf(last));
        UnsetUnique(v.entries, KeyOf(last));
        UnsetCanonical(v.entries, KeyOf(last));
      }
    } else if v.Arr? {
      var es := v.entries;
      var k := KeyOf(parts[0]);
      var child := Lookup(es, k).GetOr(Null);
      RemoveWellFormed(child, parts[1..], last);
      var c := RemoveNode(child, parts[1..], last).value;
      PutMembers(es, k, c);
      PutUnique(es, k, c);
      KeyOfCanonical(parts[0]);
      PutCanonical(es, k, c);
    } else {
      RemoveWellFormed(Arr([]), parts, last);
    }
  }
}
