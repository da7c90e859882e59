/**
 * The key order of an insertion-ordered map (Java's LinkedHashMap): a
 * sequence of distinct keys, in the order of their first insertion.
 * Positions, lookups by position, re-insertion and removal are defined
 * here on that sequence alone, with the facts the registry relies on.
 */
module OrderedTable {
  import opened Wrappers

  predicate Distinct<T(==)>(s: seq<T>)
  {
    forall i, j | 0 <= i < j < |s| :: s[i] != s[j]
  }

  /** Zero-based position of the first occurrence of x in s, or -1 when x is absent. */
  function IndexOf<T(==)>(s: seq<T>, x: T): (r: int)
    ensures -1 <= r < |s|
    ensures r == -1 <==> x !in s
    ensures 0 <= r ==> s[r] == x && x !in s[..r]
  {
    if s == [] then -1
    else if s[0] == x then 0
    else
      var t := IndexOf(s[1..], x);
      if t == -1 then -1
      else
        assert s[..t + 1] == [s[0]] + s[1..][..t];
        t + 1
  }

  /** The element at position i, or None when i is not a position of s. */
  function HandleAt<T>(s: seq<T>, i: int): (r: Option<T>)
  {
    if 0 <= i < |s| then Some(s[i]) else None
  }

  /** Key order after a put of x: a new key goes last, a known key keeps its place. */
  function PutKeys<T(==)>(s: seq<T>, x: T): (r: seq<T>)
  {
    if x in s then s else s + [x]
  }

  /** The keys of s other than x, in their order in s. */
  function Without<T(==)>(s: seq<T>, x: T): (r: seq<T>)
    ensures forall y | y in r :: y in s && y != x
    ensures forall y | y in s && y != x :: y in r
  {
    if s == [] then []
    else if s[0] == x then Without(s[1..], x)
    else [s[0]] + Without(s[1..], x)
  }

  /** A position whose element is x and that no earlier x precedes is the one IndexOf finds. */
  lemma FirstOccurrence<T>(s: seq<T>, x: T, k: int)
    requires 0 <= k < |s| && s[k] == x && x !in s[..k]
    ensures IndexOf(s, x) == k
  {
  }

  /** In a sequence without repetitions, position and element determine each other. */
  lemma IndexHandleInverse<T>(s: seq<T>, x: T, i: int)
    requires Distinct(s)
    ensures x in s ==> HandleAt(s, IndexOf(s, x)) == Some(x)
    ensures HandleAt(s, i).None? <==> i < 0 || i >= |s|
    ensures 0 <= i < |s| ==> IndexOf(s, s[i]) == i
  {
  }

  /** Appending a new element leaves the position of every earlier element alone. */
  lemma IndexOfAppend<T>(s: seq<T>, x: T, y: T)
    requires y in s
    ensures IndexOf(s + [x], y) == IndexOf(s, y)
  {
    var k := IndexOf(s, y);
    assert (s + [x])[..k] == s[..k];
    FirstOccurrence(s + [x], y, k);
  }

  /**
   * Put of a new key appends it and grows the table by one; put of a known
   * key leaves the order as it was. Either way every key already present
   * keeps its position, and keys stay distinct.
   */
  lemma PutKeysSpec<T>(s: seq<T>, x: T)
    requires Distinct(s)
    ensures Distinct(PutKeys(s, x))
    ensures x in PutKeys(s, x)
    ensures x in s ==> PutKeys(s, x) == s
    ensures x !in s ==> |PutKeys(s, x)| == |s| + 1 && IndexOf(PutKeys(s, x), x) == |s|
    ensures forall y | y in s :: IndexOf(PutKeys(s, x), y) == IndexOf(s, y)
  {
  }

  /** Removing an element that occurs nowhere in s changes nothing. */
  lemma {:induction false} WithoutAbsent<T>(s: seq<T>, x: T)
    requires x !in s
    ensures Without(s, x) == s
  {
    if s != [] {
      assert x !in s[1..];
      WithoutAbsent(s[1..], x);
      assert [s[0]] + s[1..] == s;
    }
  }

  /**
   * Removing a key present once cuts exactly that position out: the keys
   * before it and after it keep their relative order.
   */
  lemma {:induction false} WithoutPresent<T>(s: seq<T>, x: T)
    requires Distinct(s) && x in s
    ensures 0 <= IndexOf(s, x) && Without(s, x) == s[..IndexOf(s, x)] + s[IndexOf(s, x) + 1..]
  {
    if s[0] == x {
      assert x !in s[1..] by {
        forall j | 1 <= j < |s| ensures s[j] != x { }
      }
      WithoutAbsent(s[1..], x);
    } else {
      var t := IndexOf(s[1..], x);
      WithoutPresent(s[1..], x);
      assert IndexOf(s, x) == t + 1;
      assert s[..t + 1] == [s[0]] + s[1..][..t];
      assert s[t + 2..] == s[1..][t + 1..];
    }
  }

  /** Dropping the first element keeps a sequence free of repetitions. */
  lemma DistinctTail<T>(s: seq<T>)
    requires Distinct(s) && s != []
    ensures Distinct(s[1..]) && s[0] !in s[1..]
  {
  }

  /** Removing an element from a sequence free of repetitions keeps it so. */
  lemma {:induction false} WithoutDistinct<T>(s: seq<T>, x: T)
    requires Distinct(s)
    ensures Distinct(Without(s, x))
  {
    if s != [] {
      DistinctTail(s);
      WithoutDistinct(s[1..], x);
      if s[0] != x {
        var t := Without(s[1..], x);
        var r := [s[0]] + t;
        forall i, j | 0 <= i < j < |r| ensures r[i] != r[j] {
          assert r[j] == t[j - 1] && t[j - 1] in t;
          if i > 0 {
            assert r[i] == t[i - 1];
          }
        }
      }
    }
  }

  /** Removing the element just appended restores the sequence. */
  lemma WithoutDistinctAppend<T>(s: seq<T>, x: T)
    requires Distinct(s) && x !in s
    ensures Without(s + [x], x) == s
  {
    PutKeysSpec(s, x);
    WithoutPresent(s + [x], x);
    assert (s + [x])[..|s|] == s;
  }

  /** Removal keeps keys distinct and, for a present key, shrinks the table by one. */
  lemma WithoutSpec<T>(s: seq<T>, x: T)
    requires Distinct(s)
    ensures Distinct(Without(s, x))
    ensures x !in s ==> Without(s, x) == s
    ensures x in s ==> |Without(s, x)| == |s| - 1
  {
    WithoutDistinct(s, x);
    if x !in s {
      WithoutAbsent(s, x);
    } else {
      WithoutPresent(s, x);
    }
  }

  /**
   * After removing x, a key before x keeps its index and a key after x
   * moves down by one.
   */
  lemma WithoutShiftsIndex<T>(s: seq<T>, x: T, y: T)
    requires Distinct(s) && x in s && y in s && y != x
    ensures IndexOf(Without(s, x), y)
         == if IndexOf(s, y) < IndexOf(s, x) then IndexOf(s, y) else IndexOf(s, y) - 1
  {
    WithoutPresent(s, x);
    WithoutSpec(s, x);
    var k, n := IndexOf(s, x), IndexOf(s, y);
    var r := Without(s, x);
    var m := if n < k then n else n - 1;
    assert r[m] == y;
    IndexHandleInverse(r, y, m);
  }

  /** A sequence without repetitions has as many elements as its set of elements. */
  lemma {:induction false} DistinctCard<T>(s: seq<T>)
    requires Distinct(s)
    ensures |set y | y in s| == |s|
  {
    if s != [] {
      var rest := s[1..];
      DistinctTail(s);
      DistinctCard(rest);
      assert (set y | y in s) == {s[0]} + (set y | y in rest);
    }
  }
}
