/** Operations on ordered token lists that PHP provides as built-ins:
    `array_search` (first position of a value) and `array_unique`.
 */
module TokenLists {

  ghost predicate NoDuplicates<T>(s: seq<T>) {
    forall i, j :: 0 <= i < j < |s| ==> s[i] != s[j]
  }

  /** The position of the first occurrence of `x` (`array_search`, strict). */
  function FirstIndex<T(==)>(s: seq<T>, x: T): (i: nat)
    requires x in s
    ensures i < |s| && s[i] == x
    ensures x !in s[..i]
  {
    if s[0] == x then 0
    else
      assert s == [s[0]] + s[1..];
      1 + FirstIndex(s[1..], x)
  }

  /** A value found in a prefix has the same first position in the whole list. */
  lemma FirstIndexInPrefix<T>(s: seq<T>, n: nat, x: T)
    requires n <= |s|
    requires x in s[..n]
    ensures FirstIndex(s, x) == FirstIndex(s[..n], x)
  {
    var i := FirstIndex(s[..n], x);
    assert s[..n][..i] == s[..i];
  }

  /** `array_unique`: the list with every repeated value dropped, keeping each
      value's first occurrence and the original relative order (the order
      is `DeduplicateOrder`). */
  function Deduplicate(s: seq<string>): (r: seq<string>)
    ensures NoDuplicates(r)
    ensures forall x :: x in r <==> x in s
    ensures |r| <= |s|
  {
    if s == [] then []
    else
      var n := |s| - 1;
      var init := Deduplicate(s[..n]);
      assert s == s[..n] + [s[n]];
      if s[n] in s[..n] then init else init + [s[n]]
  }

  /** The values `array_unique` keeps appear in the order of their first
      occurrence in the input. */
  lemma {:induction false} DeduplicateOrder(s: seq<string>)
    ensures forall i, j :: 0 <= i < j < |Deduplicate(s)| ==>
      FirstIndex(s, Deduplicate(s)[i]) < FirstIndex(s, Deduplicate(s)[j])
  {
    if s != [] {
      var n := |s| - 1;
      var init := Deduplicate(s[..n]);
      DeduplicateOrder(s[..n]);
      assert s == s[..n] + [s[n]];
      if s[n] in s[..n] {
        assert Deduplicate(s) == init;
        forall i, j | 0 <= i < j < |init|
          ensures FirstIndex(s, init[i]) < FirstIndex(s, init[j])
        {
          FirstIndexInPrefix(s, n, init[i]);
          FirstIndexInPrefix(s, n, init[j]);
        }
      } else {
        var r := init + [s[n]];
        assert Deduplicate(s) == r;
        assert FirstIndex(s, s[n]) == n by {
          assert s[..|s|] == s;
        }
        forall i, j | 0 <= i < j < |r|
          ensures FirstIndex(s, r[i]) < FirstIndex(s, r[j])
        {
          FirstIndexInPrefix(s, n, r[i]);
          if j < |init| {
            FirstIndexInPrefix(s, n, r[j]);
          }
        }
      }
    }
  }

  /** A list without repeats is its own deduplication. */
  lemma {:induction false} DeduplicateDistinct(s: seq<string>)
    requires NoDuplicates(s)
    ensures Deduplicate(s) == s
  {
    if s != [] {
      var n := |s| - 1;
      var init := s[..n];
      assert NoDuplicates(init) by {
        forall i, j | 0 <= i < j < |init|
          ensures init[i] != init[j]
        {
          assert init[i] == s[i] && init[j] == s[j];
        }
      }
      DeduplicateDistinct(init);
      assert s[n] !in init by {
        forall i | 0 <= i < n
          ensures init[i] != s[n]
        {
          assert init[i] == s[i];
        }
      }
      assert Deduplicate(s) == Deduplicate(init) + [s[n]];
      assert s == init + [s[n]];
    }
  }

  /** Deduplicating twice is the same as deduplicating once. */
  lemma DeduplicateIdempotent(s: seq<string>)
    ensures Deduplicate(Deduplicate(s)) == Deduplicate(s)
  {
    DeduplicateDistinct(Deduplicate(s));
  }

  /** Appending a value already present changes nothing; appending a new
      one appends it. */
  lemma DeduplicateSnoc(s: seq<string>, x: string)
    ensures x in s ==> Deduplicate(s + [x]) == Deduplicate(s)
    ensures x !in s ==> Deduplicate(s + [x]) == Deduplicate(s) + [x]
  {
    assert (s + [x])[..|s|] == s;
  }
}
