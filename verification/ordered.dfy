/**
 Insertion order over sequences: the key order of a Python dict that is filled by assigning to
 keys not yet present, as the sequence of first occurrences.
 */
module Ordered {

  predicate NoDups<T(==)>(s: seq<T>) {
    forall i, j :: 0 <= i < j < |s| ==> s[i] != s[j]
  }

  /** A prefix one longer is the shorter prefix and one more element. */
  lemma {:induction false} PrefixSnoc<T>(s: seq<T>, n: nat)
    requires 0 < n <= |s|
    ensures s[..n] == s[..n - 1] + [s[n - 1]]
  {
  }

  /** A non-empty sequence is its front and its last element. */
  lemma {:induction false} SplitLast<T>(s: seq<T>)
    requires s != []
    ensures s == s[..|s| - 1] + [s[|s| - 1]]
  {
  }

  /** The index of the first occurrence of `x` in `s`. */
  function FirstIndex<T(==)>(s: seq<T>, x: T): (i: nat)
    requires x in s
    ensures i < |s| && s[i] == x
    ensures forall k :: 0 <= k < i ==> s[k] != x
  {
    if s[0] == x then 0 else 1 + FirstIndex(s[1..], x)
  }

  /** Appending an element keeps the first occurrence of everything already present. */
  lemma {:induction false} FirstIndexSnoc<T>(s: seq<T>, y: T, x: T)
    requires x in s
    ensures FirstIndex(s + [y], x) == FirstIndex(s, x)
  {
    var i, i' := FirstIndex(s, x), FirstIndex(s + [y], x);
    assert (s + [y])[i] == x;
  }

  /**
   The elements of `s` in the order of their first occurrence, each once: the keys of a dict
   into which the elements of `s` are inserted one by one.
   */
  function Distinct<T(==)>(s: seq<T>): (r: seq<T>)
    ensures NoDups(r)
    ensures forall i :: 0 <= i < |r| ==> r[i] in s
    ensures forall i :: 0 <= i < |s| ==> s[i] in r
    ensures |r| <= |s|
  {
    if s == [] then
      []
    else
      var d := Distinct(s[..|s| - 1]);
      var x := s[|s| - 1];
      if x in d then d else d + [x]
  }

  /** The insertion order holds exactly the elements of the sequence. */
  lemma {:induction false} DistinctMembers<T>(s: seq<T>)
    ensures forall x :: x in Distinct(s) <==> x in s
  {
    var d := Distinct(s);
    forall x | x in s ensures x in d {
      var i :| 0 <= i < |s| && s[i] == x;
    }
  }

  /** The insertion order lists elements by the index of their first occurrence. */
  lemma {:induction false} DistinctFirstAppearance<T>(s: seq<T>)
    ensures forall i, j :: 0 <= i < j < |Distinct(s)| ==> FirstIndex(s, Distinct(s)[i]) < FirstIndex(s, Distinct(s)[j])
  {
    if s != [] {
      var p := s[..|s| - 1];
      var x := s[|s| - 1];
      var d := Distinct(p);
      DistinctFirstAppearance(p);
      assert s == p + [x];
      forall y | y in p ensures FirstIndex(s, y) == FirstIndex(p, y) {
        FirstIndexSnoc(p, x, y);
      }
      if x !in d {
        assert x !in p;
        assert FirstIndex(s, x) == |s| - 1;
      }
    }
  }

  /** Inserting a new element adds it at the end of the insertion order. */
  lemma {:induction false} DistinctSnoc<T>(s: seq<T>, x: T)
    ensures Distinct(s + [x]) == if x in s then Distinct(s) else Distinct(s) + [x]
  {
    assert (s + [x])[..|s|] == s;
  }

  /** The insertion order of a prefix is a prefix of the insertion order. */
  lemma {:induction false} DistinctPrefix<T>(s: seq<T>, n: nat)
    requires n <= |s|
    ensures Distinct(s[..n]) <= Distinct(s)
    decreases |s|
  {
    if n == |s| {
      assert s[..n] == s;
    } else {
      var p := s[..|s| - 1];
      assert p[..n] == s[..n];
      DistinctPrefix(p, n);
      var a, b, c := Distinct(s[..n]), Distinct(p), Distinct(s);
      assert b <= c;
      assert forall i :: 0 <= i < |a| ==> a[i] == b[i] == c[i];
    }
  }

  /** An element met for the first time at `n` grows the insertion order by one. */
  lemma {:induction false} DistinctGrows<T>(s: seq<T>, n: nat)
    requires n < |s| && s[n] !in s[..n]
    ensures |Distinct(s[..n + 1])| == |Distinct(s[..n])| + 1
  {
    assert s[..n + 1] == s[..n] + [s[n]];
    DistinctSnoc(s[..n], s[n]);
  }

  /** After an element met for the first time at `n`, the insertion order is longer than it was
      before `n`. */
  lemma {:induction false} DistinctGrowsPast<T>(s: seq<T>, n: nat, m: nat)
    requires n < m <= |s| && s[n] !in s[..n]
    ensures |Distinct(s[..n])| < |Distinct(s[..m])|
  {
    DistinctGrows(s, n);
    DistinctPrefix(s[..m], n + 1);
    assert s[..m][..n + 1] == s[..n + 1];
  }

  /** A sequence without duplicates has as many elements as its set. */
  lemma {:induction false} NoDupsCard<T>(s: seq<T>)
    requires NoDups(s)
    ensures |set x | x in s| == |s|
  {
    if s != [] {
      var p := s[..|s| - 1];
      NoDupsCard(p);
      assert (set x | x in s) == (set x | x in p) + {s[|s| - 1]};
      assert s[|s| - 1] !in (set x | x in p);
    }
  }

  /** The insertion order holds one entry per distinct element. */
  lemma {:induction false} DistinctCard<T>(s: seq<T>)
    ensures |Distinct(s)| == |set x | x in s|
  {
    NoDupsCard(Distinct(s));
    assert (set x | x in Distinct(s)) == (set x | x in s);
  }
}
