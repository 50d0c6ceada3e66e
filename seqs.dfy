/** Sequence helpers shared by the graph model, the extractor and the layout engine:
    distinctness and the order-preserving deduplication that Python spells
    `list(dict.fromkeys(xs))`. */
module Seqs {

  predicate Distinct<T(==,!new)>(s: seq<T>) {
    forall i, j :: 0 <= i < j < |s| ==> s[i] != s[j]
  }

  /** Position of the first occurrence of `v` in `s`. */
  function FirstIndex<T(==,!new)>(s: seq<T>, v: T): (k: nat)
    requires v in s
    ensures k < |s| && s[k] == v
    ensures forall j :: 0 <= j < k ==> s[j] != v
  {
    if s[0] == v then 0 else 1 + FirstIndex(s[1..], v)
  }

  /** `acc` followed by every element of `xs` that is not already present,
      taken left to right, each at most once. */
  function Extend<T(==,!new)>(acc: seq<T>, xs: seq<T>): (r: seq<T>)
    ensures |acc| <= |r| && r[..|acc|] == acc
    ensures forall x :: x in r <==> x in acc || x in xs
    ensures Distinct(acc) ==> Distinct(r)
    decreases |xs|
  {
    if xs == [] then acc
    else
      var a := Extend(acc, xs[..|xs| - 1]);
      var x := xs[|xs| - 1];
      assert forall y :: y in xs <==> y in xs[..|xs| - 1] || y == x;
      if x in a then a else a + [x]
  }

  /** Order-preserving deduplication: `list(dict.fromkeys(xs))`. */
  function Dedup<T(==,!new)>(xs: seq<T>): (r: seq<T>)
    ensures Distinct(r)
    ensures forall x :: x in r <==> x in xs
  {
    Extend([], xs)
  }

  lemma {:induction false} FirstIndexOfPrefix<T(!new)>(s: seq<T>, t: seq<T>, v: T)
    requires v in s
    ensures FirstIndex(s + t, v) == FirstIndex(s, v)
  {
    if s[0] != v {
      assert (s + t)[1..] == s[1..] + t;
      FirstIndexOfPrefix(s[1..], t, v);
    }
  }

  /** A value absent from `s` is first found in `s + t` one `s` further on. */
  lemma {:induction false} FirstIndexOfSuffix<T(!new)>(s: seq<T>, t: seq<T>, v: T)
    requires v !in s && v in t
    ensures FirstIndex(s + t, v) == |s| + FirstIndex(t, v)
  {
    if s == [] {
      assert s + t == t;
    } else {
      assert (s + t)[0] == s[0] != v;
      assert (s + t)[1..] == s[1..] + t;
      FirstIndexOfSuffix(s[1..], t, v);
    }
  }

  /** The result of Dedup lists the distinct values in the order of their
      first occurrence in the input; with Distinct and the element equality
      of Dedup's contract this determines the result completely. */
  lemma {:induction false} DedupFirstSeenOrder<T(!new)>(xs: seq<T>)
    ensures forall i, j :: 0 <= i < j < |Dedup(xs)| ==>
              FirstIndex(xs, Dedup(xs)[i]) < FirstIndex(xs, Dedup(xs)[j])
  {
    if xs != [] {
      var init, x := xs[..|xs| - 1], xs[|xs| - 1];
      assert xs == init + [x];
      DedupFirstSeenOrder(init);
      var d := Dedup(init);
      forall v | v in init ensures FirstIndex(xs, v) == FirstIndex(init, v) {
        FirstIndexOfPrefix(init, [x], v);
      }
      if x !in d {
        assert x !in init;
        assert FirstIndex(xs, x) == |init|;
        assert Dedup(xs) == d + [x];
      } else {
        assert Dedup(xs) == d;
      }
    }
  }

  /** Deduplicating a list that has no repeats returns it unchanged. */
  lemma {:induction false} DedupOfDistinct<T(!new)>(a: seq<T>)
    requires Distinct(a)
    ensures Dedup(a) == a
  {
    if a != [] {
      var init := a[..|a| - 1];
      assert Distinct(init);
      DedupOfDistinct(init);
      assert a[|a| - 1] !in init;
    }
  }

  /** `dict.fromkeys(a + b)` for a repeat-free `a` keeps `a` and appends the
      new items of `b` in first-seen order. */
  lemma {:induction false} DedupAfterDistinct<T(!new)>(a: seq<T>, b: seq<T>)
    requires Distinct(a)
    ensures Dedup(a + b) == Extend(a, b)
    decreases |b|
  {
    if b == [] {
      assert a + b == a;
      DedupOfDistinct(a);
    } else {
      var init := b[..|b| - 1];
      assert (a + b)[..|a + b| - 1] == a + init;
      assert (a + b)[|a + b| - 1] == b[|b| - 1];
      DedupAfterDistinct(a, init);
    }
  }
}
