/** Dot-separated paths: `explode('.', $path)` and its inverse. */
module Paths {

  /** `explode('.', s)`: the pieces between dots, so always at least one. */
  function Explode(s: string): (parts: seq<string>)
    ensures |parts| >= 1
    ensures forall i | 0 <= i < |parts| :: '.' !in parts[i]
    decreases |s|
  {
    if |s| == 0 then [""]
    else
      var rest := Explode(s[1..]);
      if s[0] == '.' then [""] + rest
      else [[s[0]] + rest[0]] + rest[1..]
  }

  /** `implode('.', parts)`. */
  function Implode(parts: seq<string>): string
    requires |parts| >= 1
    decreases |parts|
  {
    if |parts| == 1 then parts[0] else parts[0] + "." + Implode(parts[1..])
  }

  /** Joining two paths with a dot concatenates their segments: the path
      `"$key.$index"` addresses the segments of `key` followed by those of `index`. */
  lemma {:induction false} ExplodeJoin(a: string, b: string)
    ensures Explode(a + "." + b) == Explode(a) + Explode(b)
    decreases |a|
  {
    var s := a + "." + b;
    if |a| == 0 {
      assert s[1..] == b;
    } else {
      assert s[1..] == a[1..] + "." + b;
      ExplodeJoin(a[1..], b);
    }
  }

  /** A string without dots is a single segment. */
  lemma {:induction false} ExplodeNoDot(s: string)
    requires '.' !in s
    ensures Explode(s) == [s]
    decreases |s|
  {
    if |s| > 0 {
      ExplodeNoDot(s[1..]);
      assert s == [s[0]] + s[1..];
    }
  }

  /** Splitting loses nothing: joining the pieces again gives the path back. */
  lemma {:induction false} ImplodeExplode(s: string)
    ensures Implode(Explode(s)) == s
    decreases |s|
  {
    if |s| > 0 {
      ImplodeExplode(s[1..]);
      var rest := Explode(s[1..]);
      if s[0] == '.' {
        assert Explode(s)[1..] == rest;
      } else if |rest| == 1 {
        assert s == [s[0]] + s[1..];
      } else {
        assert Explode(s)[1..] == rest[1..];
        assert s[1..] == rest[0] + "." + Implode(rest[1..]);
        assert s == [s[0]] + s[1..];
      }
    }
  }

  /** ... and splitting a join of dot-free pieces gives the pieces back. */
  lemma {:induction false} ExplodeImplode(parts: seq<string>)
    requires |parts| >= 1
    requires forall i | 0 <= i < |parts| :: '.' !in parts[i]
    ensures Explode(Implode(parts)) == parts
    decreases |parts|
  {
    if |parts| == 1 {
      ExplodeNoDot(parts[0]);
    } else {
      ExplodeImplode(parts[1..]);
      ExplodeJoin(parts[0], Implode(parts[1..]));
      ExplodeNoDot(parts[0]);
    }
  }
}
