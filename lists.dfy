/**
 Python's `s.remove(x)`, the list operation the join relies on: it deletes
 the first element equal to `x`, at the position `FirstIndex` gives. It
 raises ValueError when `x` is absent; the join only removes a value taken
 from the list itself, so these functions require `x in s`. The module also
 defines orderings by first appearance, used for the key order of a dict.
 */
module Lists {

  /** The position of the first element equal to `x`: where `s.remove(x)` deletes. */
  function FirstIndex<T(==)>(s: seq<T>, x: T): (p: nat)
    requires x in s
    ensures p < |s| && s[p] == x
    ensures forall q :: 0 <= q < p ==> s[q] != x
  {
    if s[0] == x then 0 else 1 + FirstIndex(s[1..], x)
  }

  /** The position of the last element equal to `x`. */
  function LastIndex<T(==)>(s: seq<T>, x: T): (p: nat)
    requires x in s
    ensures p < |s| && s[p] == x
    ensures forall q :: p < q < |s| ==> s[q] != x
  {
    var n := |s| - 1;
    if s[n] == x then n
    else
      assert x in s[..n] by { var q :| 0 <= q < |s| && s[q] == x; assert s[..n][q] == x; }
      LastIndex(s[..n], x)
  }

  /** Python's `s.remove(x)`, applied to a copy: the first element equal to `x` is deleted. */
  function RemoveFirst<T(==)>(s: seq<T>, x: T): (r: seq<T>)
    requires x in s
    ensures |r| == |s| - 1
  {
    if s[0] == x then s[1..] else [s[0]] + RemoveFirst(s[1..], x)
  }

  /** `s.remove(x)` deletes exactly the element at `FirstIndex(s, x)` and keeps the rest in order. */
  lemma {:induction false} RemoveFirstDeletes<T>(s: seq<T>, x: T)
    requires x in s
    ensures var p := FirstIndex(s, x); RemoveFirst(s, x) == s[..p] + s[p + 1..]
  {
    if s[0] != x {
      var tail := s[1..];
      var p := FirstIndex(tail, x);
      assert FirstIndex(s, x) == p + 1;
      RemoveFirstDeletes(tail, x);
      assert RemoveFirst(s, x) == [s[0]] + RemoveFirst(tail, x);
      assert s[..p + 1] == [s[0]] + tail[..p];
      assert s[p + 2..] == tail[p + 1..];
      assert [s[0]] + (tail[..p] + tail[p + 1..]) == ([s[0]] + tail[..p]) + tail[p + 1..];
    }
  }

  /** Appending an element does not move the first occurrence of a value already present. */
  lemma FirstIndexSnocOld<T>(s: seq<T>, y: T, x: T)
    requires x in s
    ensures x in s + [y] && FirstIndex(s + [y], x) == FirstIndex(s, x)
  {
    var p, p' := FirstIndex(s, x), FirstIndex(s + [y], x);
    assert (s + [y])[p] == x;
    assert p' < |s| ==> s[p'] == x;
  }

  /** A value appended for the first time has its first occurrence at the end. */
  lemma FirstIndexSnocNew<T>(s: seq<T>, x: T)
    requires x !in s
    ensures FirstIndex(s + [x], x) == |s|
  {
  }

  /** No value occurs twice in `s`. */
  predicate Distinct<T(==)>(s: seq<T>)
  {
    forall i, j :: 0 <= i < j < |s| ==> s[i] != s[j]
  }

  /**
   `keys` lists values of `s`, each before every value whose first occurrence
   in `s` comes later.
   */
  ghost predicate FirstAppearanceOrder<T>(keys: seq<T>, s: seq<T>)
  {
    && (forall k :: k in keys ==> k in s)
    && (forall i, j :: 0 <= i < j < |keys| ==> FirstIndex(s, keys[i]) < FirstIndex(s, keys[j]))
  }

  /**
   Appending a value to `s` keeps a first-appearance order of its values if the
   value is already listed, and extends that order by the value if it is new.
   */
  lemma FirstAppearanceSnoc<T>(keys: seq<T>, s: seq<T>, y: T)
    requires FirstAppearanceOrder(keys, s)
    requires forall k :: k in s ==> k in keys
    ensures y in keys ==> FirstAppearanceOrder(keys, s + [y])
    ensures y !in keys ==> FirstAppearanceOrder(keys + [y], s + [y])
  {
    forall k | k in keys
      ensures k in s + [y] && FirstIndex(s + [y], k) == FirstIndex(s, k)
    {
      FirstIndexSnocOld(s, y, k);
    }
    if y !in keys {
      var keys' := keys + [y];
      FirstIndexSnocNew(s, y);
      forall i, j | 0 <= i < j < |keys'|
        ensures FirstIndex(s + [y], keys'[i]) < FirstIndex(s + [y], keys'[j])
      {
        assert keys'[i] == keys[i];
        if j < |keys| {
          assert keys'[j] == keys[j];
        }
      }
    }
  }
}
