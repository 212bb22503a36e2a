/** Generic facts about sequences shared by the traversal models. */
module Seqs {
  /** The concatenation of `f(x)` over the elements `x` of `s`, in order. */
  function FlatMap<A, B>(f: A -> seq<B>, s: seq<A>): seq<B>
  {
    if s == [] then [] else FlatMap(f, s[..|s| - 1]) + f(s[|s| - 1])
  }

  lemma {:induction false} FlatMapAppend<A, B>(f: A -> seq<B>, a: seq<A>, b: seq<A>)
    ensures FlatMap(f, a + b) == FlatMap(f, a) + FlatMap(f, b)
  {
    if b != [] {
      FlatMapAppend(f, a, b[..|b| - 1]);
      assert (a + b)[..|a + b| - 1] == a + b[..|b| - 1];
    } else {
      assert a + b == a;
    }
  }

  lemma FlatMapStep<A, B>(f: A -> seq<B>, s: seq<A>, k: nat)
    requires k < |s|
    ensures FlatMap(f, s[..k + 1]) == FlatMap(f, s[..k]) + f(s[k])
  {
    assert s[..k + 1][..k] == s[..k];
  }

  lemma FlatMapSplit<A, B>(f: A -> seq<B>, s: seq<A>, j: nat)
    requires j <= |s|
    ensures FlatMap(f, s) == FlatMap(f, s[..j]) + FlatMap(f, s[j..])
  {
    assert s[..j] + s[j..] == s;
    FlatMapAppend(f, s[..j], s[j..]);
  }

  lemma FlatMapAround<A, B>(f: A -> seq<B>, s: seq<A>, k: nat)
    requires k < |s|
    ensures FlatMap(f, s) == FlatMap(f, s[..k]) + f(s[k]) + FlatMap(f, s[k + 1..])
  {
    FlatMapSplit(f, s, k + 1);
    FlatMapStep(f, s, k);
  }

  /** Membership in a sequence with its last element split off. */
  lemma InInitOrLast<T>(s: seq<T>, d: T)
    requires s != []
    ensures d in s <==> d in s[..|s| - 1] || d == s[|s| - 1]
  {
    if d in s {
      var k :| 0 <= k < |s| && s[k] == d;
      if k < |s| - 1 {
        assert s[..|s| - 1][k] == d;
      }
    }
  }

  /** An element of the concatenation comes from the image of some element. */
  lemma {:induction false} FlatMapMembers<A, B>(f: A -> seq<B>, s: seq<A>, x: B)
    ensures x in FlatMap(f, s) <==> exists a :: a in s && x in f(a)
  {
    if s != [] {
      var init, last := s[..|s| - 1], s[|s| - 1];
      FlatMapMembers(f, init, x);
      if x in FlatMap(f, s) {
        if x in FlatMap(f, init) {
          var a :| a in init && x in f(a);
          InInitOrLast(s, a);
        } else {
          InInitOrLast(s, last);
        }
      } else {
        forall a | a in s ensures x !in f(a) {
          InInitOrLast(s, a);
        }
      }
    }
  }

  /** Removing the element at `k` from a sequence removes one occurrence from its multiset. */
  lemma SplitAt<T>(b: seq<T>, k: nat)
    requires k < |b|
    ensures multiset(b[..k] + b[k + 1..]) == multiset(b) - multiset{b[k]}
  {
    assert b == b[..k] + [b[k]] + b[k + 1..];
  }

  /** Reordering the input reorders the output: the multiset of the concatenation is unchanged. */
  lemma {:induction false} FlatMapPermutation<A, B>(f: A -> seq<B>, a: seq<A>, b: seq<A>)
    requires multiset(a) == multiset(b)
    ensures multiset(FlatMap(f, a)) == multiset(FlatMap(f, b))
    decreases |a|
  {
    if a == [] {
      assert |b| == |multiset(b)| == 0;
    } else {
      var init, x := a[..|a| - 1], a[|a| - 1];
      assert a == init + [x];
      assert x in multiset(b);
      var k :| 0 <= k < |b| && b[k] == x;
      SplitAt(b, k);
      FlatMapPermutation(f, init, b[..k] + b[k + 1..]);
      PermutationStep(f, a, b, k);
    }
  }

  /** Matching the last element of `a` with `b[k]` extends a permutation of the rest to all of `a` and `b`. */
  lemma PermutationStep<A, B>(f: A -> seq<B>, a: seq<A>, b: seq<A>, k: nat)
    requires a != [] && k < |b| && b[k] == a[|a| - 1]
    requires multiset(FlatMap(f, a[..|a| - 1])) == multiset(FlatMap(f, b[..k] + b[k + 1..]))
    ensures multiset(FlatMap(f, a)) == multiset(FlatMap(f, b))
  {
    FlatMapAppend(f, b[..k], b[k + 1..]);
    FlatMapAround(f, b, k);
  }

  lemma Reassociate<T>(a: seq<T>, b: seq<T>, c: seq<T>, d: seq<T>)
    ensures a + (b + c) + d == (a + b) + (c + d)
  {
  }

  /** Extending a flattened prefix by one more element's image, behind any fixed lead. */
  lemma FlatMapExtend<A, B>(f: A -> seq<B>, lead: seq<B>, s: seq<A>, k: nat)
    requires k < |s|
    ensures lead + FlatMap(f, s[..k]) + f(s[k]) == lead + FlatMap(f, s[..k + 1])
  {
    FlatMapStep(f, s, k);
  }

  lemma FlatMapSingle<A, B>(f: A -> seq<B>, a: A)
    ensures FlatMap(f, [a]) == f(a)
  {
    assert [a][..0] == [];
    assert FlatMap(f, [a]) == [] + f(a);
  }
}
