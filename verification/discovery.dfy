/** Discovery order, defined independently of the catalogue: the distinct
    elements of a sequence, each kept at its first occurrence. This is the
    reference the catalogue's insertion order is proved against. */
module Discovery {

  predicate NoDuplicates<T(==)>(s: seq<T>) {
    forall i, j | 0 <= i < j < |s| :: s[i] != s[j]
  }

  /** Index of the first occurrence of `x` in `s`. */
  function FirstIndex<T(==)>(s: seq<T>, x: T): (k: nat)
    requires x in s
    ensures k < |s| && s[k] == x && x !in s[..k]
  {
    if s[0] == x then 0 else 1 + FirstIndex(s[1..], x)
  }

  /** The first occurrence is the only index with nothing equal before it. */
  lemma FirstIndexUnique<T>(s: seq<T>, x: T, k: nat)
    requires k < |s| && s[k] == x && x !in s[..k]
    ensures FirstIndex(s, x) == k
  {
  }

  /** Appending never moves the first occurrence of an element already present. */
  lemma FirstIndexAppend<T>(s: seq<T>, t: seq<T>, x: T)
    requires x in s
    ensures FirstIndex(s + t, x) == FirstIndex(s, x)
  {
    var k := FirstIndex(s, x);
    assert (s + t)[..k] == s[..k];
    FirstIndexUnique(s + t, x, k);
  }

  /** An element absent from `s` first occurs in `s + t` where it first
      occurs in `t`, shifted by `|s|`. */
  lemma FirstIndexShift<T>(s: seq<T>, t: seq<T>, x: T)
    requires x !in s && x in t
    ensures FirstIndex(s + t, x) == |s| + FirstIndex(t, x)
  {
    var k := FirstIndex(t, x);
    assert (s + t)[..|s| + k] == s + t[..k];
    FirstIndexUnique(s + t, x, |s| + k);
  }

  /** The distinct elements of `s` in the order they first appear. */
  function FirstOccurrences<T(==)>(s: seq<T>): (r: seq<T>)
    ensures NoDuplicates(r)
    ensures |r| <= |s|
  {
    if s == [] then []
    else
      var p := FirstOccurrences(s[..|s| - 1]);
      assert s == s[..|s| - 1] + [s[|s| - 1]];
      if s[|s| - 1] in p then p else p + [s[|s| - 1]]
  }

  /** The unfolding of `FirstOccurrences` at an appended element. */
  lemma FirstOccurrencesSnoc<T>(s: seq<T>, x: T)
    ensures FirstOccurrences(s + [x])
         == if x in FirstOccurrences(s) then FirstOccurrences(s) else FirstOccurrences(s) + [x]
  {
    assert (s + [x])[..|s + [x]| - 1] == s;
  }

  /** Nothing is lost or invented: an element is among the first
      occurrences exactly when it occurs at all. */
  lemma {:induction false} FirstOccurrencesMembers<T>(s: seq<T>, x: T)
    ensures x in FirstOccurrences(s) <==> x in s
  {
    if s != [] {
      var init := s[..|s| - 1];
      assert s == init + [s[|s| - 1]];
      FirstOccurrencesMembers(init, x);
    }
  }

  /** A sequence without duplicates is its own list of first occurrences. */
  lemma {:induction false} FirstOccurrencesOfDistinct<T>(s: seq<T>)
    requires NoDuplicates(s)
    ensures FirstOccurrences(s) == s
  {
    if s != [] {
      var init := s[..|s| - 1];
      assert s == init + [s[|s| - 1]];
      assert NoDuplicates(init);
      FirstOccurrencesOfDistinct(init);
      FirstOccurrencesSnoc(init, s[|s| - 1]);
    }
  }

  /** Elements of `FirstOccurrences(s)` are ordered by where they first
      occur in `s`. */
  lemma {:induction false} FirstOccurrencesOrdered<T>(s: seq<T>)
    ensures var r := FirstOccurrences(s);
            forall i, j | 0 <= i < j < |r| ::
              r[i] in s && r[j] in s && FirstIndex(s, r[i]) < FirstIndex(s, r[j])
  {
    if s != [] {
      var init, x := s[..|s| - 1], s[|s| - 1];
      assert s == init + [x];
      FirstOccurrencesOrdered(init);
      FirstOccurrencesSnoc(init, x);
      var p := FirstOccurrences(init);
      var r := FirstOccurrences(s);
      forall i, j | 0 <= i < j < |r|
        ensures r[i] in s && r[j] in s && FirstIndex(s, r[i]) < FirstIndex(s, r[j])
      {
        assert i < |p| && r[i] == p[i];
        FirstOccurrencesMembers(init, r[i]);
        FirstIndexAppend(init, [x], r[i]);
        if j < |p| {
          FirstOccurrencesMembers(init, r[j]);
          FirstIndexAppend(init, [x], r[j]);
        } else {
          FirstOccurrencesMembers(init, x);
          assert r[j] == x && x !in init;
          assert s[..|init|] == init;
          FirstIndexUnique(s, x, |init|);
        }
      }
    }
  }

  /** The converse reading of the order: an element that first occurs
      earlier in `s` sits earlier in `FirstOccurrences(s)`. */
  lemma FirstOccurrencesPrecede<T>(s: seq<T>, i: nat, j: nat)
    requires var r := FirstOccurrences(s);
             && i < |r| && j < |r| && r[i] in s && r[j] in s
             && FirstIndex(s, r[i]) < FirstIndex(s, r[j])
    ensures i < j
  {
    FirstOccurrencesOrdered(s);
  }
}
