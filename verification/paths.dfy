/** Dot-addressed paths: `parent.child` keys as the validator reads them. */
module Paths {
  import opened Errors

  /** A key without a dot; every PHP property name is one. */
  predicate DotFree(s: string) {
    '.' !in s
  }

  /** `$key . '.' . $subKey`. */
  function Join(key: string, sub: string): (p: string)
    ensures |p| == |key| + 1 + |sub|
    ensures p[..|key|] == key && p[|key|] == '.' && p[|key| + 1..] == sub
  {
    key + "." + sub
  }

  /** `p` lies directly under `key`: it has the shape `key.sub`. */
  predicate IsChildPath(key: string, p: string) {
    |p| > |key| && p[..|key|] == key && p[|key|] == '.'
  }

  /** The `sub` of a path `key.sub`. */
  function ChildSuffix(key: string, p: string): (sub: string)
    requires IsChildPath(key, p)
    ensures p == Join(key, sub)
  {
    p[|key| + 1..]
  }

  /** `p` is `key` itself or some `key.sub`. */
  predicate UnderKey(key: string, p: string) {
    p == key || IsChildPath(key, p)
  }

  /** The position of the last dot in `s`, if there is one. */
  function LastDot(s: string): (r: Option<nat>)
    ensures r.None? <==> DotFree(s)
    ensures r.Some? ==> r.value < |s| && s[r.value] == '.' && DotFree(s[r.value + 1..])
  {
    if s == [] then None
    else if s[|s| - 1] == '.' then Some(|s| - 1)
    else
      var r := LastDot(s[..|s| - 1]);
      assert s == s[..|s| - 1] + [s[|s| - 1]];
      if r.Some? then
        assert s[r.value + 1..] == s[..|s| - 1][r.value + 1..] + [s[|s| - 1]];
        r
      else r
  }

  /** A joined path is never one of its parts, and no dot-free key. */
  lemma JoinIsNew(key: string, sub: string)
    ensures Join(key, sub) != key
    ensures !DotFree(Join(key, sub))
    ensures IsChildPath(key, Join(key, sub))
    ensures ChildSuffix(key, Join(key, sub)) == sub
  {
    assert Join(key, sub)[|key|] == '.';
  }

  /** Two dot-free keys have disjoint families of paths under them. */
  lemma DistinctRootsDisjoint(k1: string, k2: string, p: string)
    requires DotFree(k1) && DotFree(k2) && k1 != k2
    ensures !(UnderKey(k1, p) && UnderKey(k2, p))
  {
  }
}
