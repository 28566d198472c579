/** Facts about sequences used to reason about Go slices and map iteration. */
module Seqs {

  /** No element occurs twice. */
  predicate NoDup<T(==)>(s: seq<T>)
  {
    forall i, j :: 0 <= i < j < |s| ==> s[i] != s[j]
  }

  /** The set of elements of `s`. */
  function Elements<T(==)>(s: seq<T>): set<T>
  {
    set x | x in s
  }

  /** `o` lists every element of `keys` exactly once, in some order: one possible
      iteration order of a Go map whose key set is `keys`. */
  predicate IsEnumeration<T(==)>(o: seq<T>, keys: set<T>)
  {
    NoDup(o) && Elements(o) == keys
  }

  /** `a` is obtained from `b` by deleting elements, keeping the order of the rest. */
  predicate IsSubsequence<T(==)>(a: seq<T>, b: seq<T>)
    decreases |b|
  {
    a == [] || (b != [] && ((a[0] == b[0] && IsSubsequence(a[1..], b[1..])) || IsSubsequence(a, b[1..])))
  }

  /** Some fixed enumeration of a finite set (the reference order of the specification functions). */
  ghost function SetToSeq<T>(s: set<T>): (o: seq<T>)
    ensures IsEnumeration(o, s)
    ensures |o| == |s|
    decreases |s|
  {
    if s == {} then []
    else
      var x :| x in s;
      var rest := SetToSeq(s - {x});
      assert Elements([x] + rest) == {x} + Elements(rest);
      [x] + rest
  }

  /** In a sequence without duplicates every element occurs exactly once. */
  lemma {:induction false} NoDupCount<T>(s: seq<T>, x: T)
    requires NoDup(s)
    ensures multiset(s)[x] == if x in s then 1 else 0
  {
    if s != [] {
      assert s == [s[0]] + s[1..];
      NoDupCount(s[1..], x);
      if x == s[0] {
        assert x !in s[1..] by {
          forall k | 0 <= k < |s[1..]| ensures s[1..][k] != x {
            assert s[1..][k] == s[k + 1];
          }
        }
      }
    }
  }

  /** Two enumerations of the same set are permutations of each other. */
  lemma EnumerationsArePermutations<T>(o1: seq<T>, o2: seq<T>, keys: set<T>)
    requires IsEnumeration(o1, keys) && IsEnumeration(o2, keys)
    ensures multiset(o1) == multiset(o2)
  {
    forall x ensures multiset(o1)[x] == multiset(o2)[x] {
      NoDupCount(o1, x);
      NoDupCount(o2, x);
      assert x in o1 <==> x in Elements(o1);
      assert x in o2 <==> x in Elements(o2);
    }
  }
}
