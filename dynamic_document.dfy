/**
 * The `DynamicDocument` class: a mutable tree of values addressed by dotted
 * paths. `set` and `remove` change `values` in place; `get`, `has`, `all`
 * and `toJson` only read it; `merge` builds a new document.
 */
module DynamicDocuments {
  import opened Wrappers
  import opened PhpKeys
  import opened PhpArrays
  import ArrayMerge
  import opened Paths
  import opened DocumentPaths

  /** `json_encode` of the document's values, supplied by the caller: `None`
      where `json_encode` returns false (nesting deeper than 512 levels, a
      value it cannot encode). */
  type Encoder = seq<Entry> -> Option<string>

  /** The outcome of `remove`'s walk, put back together: each array passed on
      the way down (`trail`, outermost first) receives the result below it
      under the segment by which it was left. A throw stays a throw. */
  function Unwind(trail: seq<seq<Entry>>, segs: seq<string>, r: Result<Value, Thrown>): Result<Value, Thrown>
    requires |trail| == |segs|
    decreases |trail|
  {
    match r
    case Err(e) => Err(e)
    case Ok(c) =>
      if |trail| == 0 then r
      else
        var n := |trail| - 1;
        Unwind(trail[..n], segs[..n], Ok(Arr(Put(trail[n], KeyOf(segs[n]), c))))
  }

  /** Passing one more array on the way down adds one more write on the way back. */
  lemma UnwindStep(trail: seq<seq<Entry>>, segs: seq<string>, es: seq<Entry>, seg: string, r: Result<Value, Thrown>)
    requires |trail| == |segs|
    ensures Unwind(trail + [es], segs + [seg], r) ==
      Unwind(trail, segs, match r case Ok(c) => Ok(Arr(Put(es, KeyOf(seg), c))) case Err(e) => Err(e))
  {
    if r.Ok? {
      assert (trail + [es])[..|trail|] == trail && (segs + [seg])[..|segs|] == segs;
    }
  }

  /** The descent of `remove`: from `root`, take a reference at each segment
      of `parts`. `trail` holds the arrays passed, as they are once each
      reference is taken (null and false read as the empty array), and `node`
      is what the last reference points at. `thrown` when a reference is
      taken into a string, an integer, true or an object. */
  method Descend(root: Value, parts: seq<string>, last: string) returns (trail: seq<seq<Entry>>, node: Value, thrown: bool)
    ensures thrown ==> RemoveNode(root, parts, last) == Err(Error)
    ensures !thrown ==> |trail| == |parts| && RemoveNode(root, parts, last) == Unwind(trail, parts, RemoveNode(node, [], last))
  {
    trail := [];
    node := root;
    thrown := false;
    var i := 0;
    while i < |parts|
      invariant 0 <= i <= |parts| && |trail| == i
      invariant RemoveNode(root, parts, last) == Unwind(trail, parts[..i], RemoveNode(node, parts[i..], last))
    {
      var es: seq<Entry>;
      match node {
        case Arr(entries) => es := entries;
        case Null => es := [];
        case Bool(b) =>
          if b {
            assert RemoveNode(node, parts[i..], last) == Err(Error);
            assert Unwind(trail, parts[..i], Err(Error)) == Err(Error);
            thrown := true;
            return;
          }
          es := [];
        case _ =>
          assert RemoveNode(node, parts[i..], last) == Err(Error);
          assert Unwind(trail, parts[..i], Err(Error)) == Err(Error);
          thrown := true;
          return;
      }
      var k := KeyOf(parts[i]);
      RemoveStep(node, parts[i..], last, es);
      assert parts[i..][1..] == parts[i + 1..];
      assert parts[..i + 1] == parts[..i] + [parts[i]];
      UnwindStep(trail, parts[..i], es, parts[i], RemoveNode(Lookup(es, k).GetOr(Null), parts[i + 1..], last));
      trail := trail + [es];
      node := Lookup(es, k).GetOr(Null);
      i := i + 1;
    }
    assert parts[..i] == parts && parts[i..] == [];
  }

  /** The write-back of `remove`: each array on the trail, innermost first,
      takes the result from below under the segment it was left by. */
  method WriteBack(trail: seq<seq<Entry>>, parts: seq<string>, res: Value) returns (v: Value)
    requires |trail| == |parts|
    ensures Unwind(trail, parts, Ok(res)) == Ok(v)
  {
    v := res;
    var i := |trail|;
    assert trail[..i] == trail && parts[..i] == parts;
    while i > 0
      invariant 0 <= i <= |parts|
      invariant Unwind(trail, parts, Ok(res)) == Unwind(trail[..i], parts[..i], Ok(v))
    {
      assert trail[..i][..i - 1] == trail[..i - 1] && parts[..i][..i - 1] == parts[..i - 1];
      i := i - 1;
      v := Arr(Put(trail[i], KeyOf(parts[i]), v));
    }
  }

  class DynamicDocument {
    var values: seq<Entry>

    ghost predicate Valid()
      reads this
    {
      ValidArray(values)
    }

    constructor (values: seq<Entry>)
      requires ValidArray(values)
      ensures Valid() && this.values == values
    {
      this.values := values;
    }

    function All(): seq<Entry>
      reads this
    {
      values
    }

    predicate Has(key: string)
      reads this
    {
      HasPath(values, key)
    }

    function Get(key: string, default: Value): Value
      reads this
    {
      GetPath(values, key, default)
    }

    /** `toJson()`: the encoding; where `json_encode` fails, its `false`
        does not match the declared `string` return type and PHP throws a
        `TypeError`. */
    function ToJson(encode: Encoder): Result<string, Thrown>
      reads this
    {
      match encode(values)
      case Some(json) => Ok(json)
      case None => Err(TypeError)
    }

    method Set(key: string, x: Value)
      requires Valid() && WellFormed(x)
      modifies this
      ensures Valid() && values == SetPath(old(values), key, x)
    {
      SetWellFormed(Arr(values), Explode(key), x);
      values := SetPath(values, key, x);
    }

    /** Walks to the parent of the last segment, taking a reference at each
        step (and so creating what is missing), then unsets the last key. A
        throw leaves `values` as it was: it can only happen before anything
        has been created. */
    method Remove(key: string) returns (r: Outcome<Thrown>)
      requires Valid()
      modifies this
      ensures Valid()
      ensures RemovePath(old(values), key).Ok? ==> r == Pass && values == RemovePath(old(values), key).value
      ensures RemovePath(old(values), key).Err? ==> r == Fail(RemovePath(old(values), key).error) && values == old(values)
    {
      var parts := Explode(key);
      var last := parts[|parts| - 1];
      parts := parts[..|parts| - 1];
      ghost var goal := RemoveNode(Arr(values), parts, last);
      assert goal.Err? ==> RemovePath(values, key) == Err(goal.error);
      assert goal.Ok? ==> RemovePath(values, key) == Ok(goal.value.entries);

      var trail, node, thrown := Descend(Arr(values), parts, last);
      if thrown {
        return Fail(Error);
      }

      // `unset($values[$last])`.
      var res: Value;
      match node {
        case Arr(entries) => res := Arr(Unset(entries, KeyOf(last)));
        case Null => res := node;
        case Bool(b) =>
          if b {
            return Fail(Error);
          }
          res := node;
        case _ =>
          return Fail(Error);
      }
      assert RemoveNode(node, [], last) == Ok(res);

      var v := WriteBack(trail, parts, res);
      RemoveWellFormed(Arr(values), parts, last);
      values := v.entries;
      r := Pass;
    }

    /** `array_merge` of this document's values with `m`, as a new document;
        this one is not changed. */
    method Merge(m: seq<Entry>) returns (d: DynamicDocument)
      requires Valid() && ValidArray(m)
      ensures fresh(d) && d.Valid() && d.values == ArrayMerge.Merge(values, m)
    {
      ArrayMerge.MergeValid(values, m);
      d := new DynamicDocument(ArrayMerge.Merge(values, m));
    }
  }
}
