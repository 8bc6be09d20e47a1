/** Generic facts about sequences used to state the catalog transforms:
    the set of a list's elements, distinctness, and order-preserving
    sublists. */
module Seqs {

  /** Python's `set(xs)`. */
  function ToSet<T>(xs: seq<T>): set<T> {
    set x | x in xs
  }

  /** Concatenation is associative; stated once so that proofs can name
      the regrouping instead of rediscovering it. */
  lemma AppendAssoc<T>(xs: seq<T>, ys: seq<T>, zs: seq<T>)
    ensures (xs + ys) + zs == xs + (ys + zs)
  {
  }

  /** The elements of a concatenation are those of its parts. */
  lemma ToSetConcat<T>(xs: seq<T>, ys: seq<T>)
    ensures ToSet(xs + ys) == ToSet(xs) + ToSet(ys)
  {
    assert forall x :: x in xs + ys <==> x in xs || x in ys;
  }

  /** The elements of a two-entry list. */
  lemma ToSetPair<T>(a: T, b: T)
    ensures ToSet([a, b]) == {a, b}
  {
    assert [a, b][0] == a && [a, b][1] == b;
  }

  /** No element occurs twice. */
  predicate NoDuplicates<T(==)>(xs: seq<T>) {
    forall i, j :: 0 <= i < j < |xs| ==> xs[i] != xs[j]
  }

  /** A list has at least as many entries as distinct elements, and exactly
      as many when it has no duplicates. */
  lemma {:induction false} CardToSet<T>(xs: seq<T>)
    ensures |ToSet(xs)| <= |xs|
    ensures |ToSet(xs)| == |xs| <==> NoDuplicates(xs)
    decreases |xs|
  {
    if xs != [] {
      var init, last := xs[..|xs| - 1], xs[|xs| - 1];
      CardToSet(init);
      assert xs == init + [last];
      assert ToSet(xs) == ToSet(init) + {last};
      if last in init {
        var k :| 0 <= k < |init| && init[k] == last;
        assert xs[k] == xs[|xs| - 1];
        assert ToSet(xs) == ToSet(init);
      } else {
        assert NoDuplicates(xs) <==> NoDuplicates(init) by {
          if NoDuplicates(init) {
            forall i, j | 0 <= i < j < |xs| ensures xs[i] != xs[j] {
              if j == |xs| - 1 {
                assert xs[i] in init;
              } else {
                assert xs[i] == init[i] && xs[j] == init[j];
              }
            }
          }
        }
      }
    }
  }

  /** `xs` is obtained from `ys` by deleting entries, without reordering. */
  ghost predicate IsSubsequence<T>(xs: seq<T>, ys: seq<T>)
    decreases |ys|
  {
    if ys == [] then xs == []
    else
      || IsSubsequence(xs, ys[..|ys| - 1])
      || (xs != [] && xs[|xs| - 1] == ys[|ys| - 1] && IsSubsequence(xs[..|xs| - 1], ys[..|ys| - 1]))
  }

  /** A sublist of a sublist is a sublist. */
  lemma {:induction false} SubsequenceTrans<T>(xs: seq<T>, ys: seq<T>, zs: seq<T>)
    requires IsSubsequence(xs, ys) && IsSubsequence(ys, zs)
    ensures IsSubsequence(xs, zs)
    decreases |zs|
  {
    if zs != [] {
      var zInit := zs[..|zs| - 1];
      if IsSubsequence(ys, zInit) {
        SubsequenceTrans(xs, ys, zInit);
      } else {
        var yInit := ys[..|ys| - 1];
        if IsSubsequence(xs, yInit) {
          SubsequenceTrans(xs, yInit, zInit);
        } else {
          SubsequenceTrans(xs[..|xs| - 1], yInit, zInit);
        }
      }
    }
  }

  /** The entries of `xs` that satisfy `keep`, in order. */
  function Filter<T>(xs: seq<T>, keep: T -> bool): (r: seq<T>)
    ensures |r| <= |xs|
  {
    if xs == [] then []
    else
      var last := xs[|xs| - 1];
      Filter(xs[..|xs| - 1], keep) + (if keep(last) then [last] else [])
  }

  /** Filtering a list extended by one entry. */
  lemma FilterSnoc<T>(xs: seq<T>, x: T, keep: T -> bool)
    ensures Filter(xs + [x], keep) == Filter(xs, keep) + (if keep(x) then [x] else [])
  {
    assert (xs + [x])[..|xs|] == xs;
  }

  /** Filtering a prefix one entry longer. */
  lemma FilterStep<T>(xs: seq<T>, i: nat, keep: T -> bool)
    requires i < |xs|
    ensures Filter(xs[..i + 1], keep) == Filter(xs[..i], keep) + if keep(xs[i]) then [xs[i]] else []
  {
    assert xs[..i + 1] == xs[..i] + [xs[i]];
    FilterSnoc(xs[..i], xs[i], keep);
  }

  /** `[f(x) for x in xs]`. */
  function Map<T, U>(xs: seq<T>, f: T -> U): (r: seq<U>)
    ensures |r| == |xs|
  {
    if xs == [] then [] else Map(xs[..|xs| - 1], f) + [f(xs[|xs| - 1])]
  }

  /** The `i`-th image is the image of the `i`-th entry. */
  lemma {:induction false} MapAt<T, U>(xs: seq<T>, f: T -> U, i: nat)
    requires i < |xs|
    ensures Map(xs, f)[i] == f(xs[i])
    decreases |xs|
  {
    if i < |xs| - 1 {
      MapAt(xs[..|xs| - 1], f, i);
    }
  }

  /** The elements of a mapped list are the images of the list's
      elements. */
  lemma {:induction false} MapValues<T, U>(xs: seq<T>, f: T -> U)
    ensures ToSet(Map(xs, f)) == set x | x in xs :: f(x)
    decreases |xs|
  {
    if xs != [] {
      var init := xs[..|xs| - 1];
      MapValues(init, f);
      assert xs == init + [xs[|xs| - 1]];
      ToSetConcat(Map(init, f), [f(xs[|xs| - 1])]);
    }
  }

  /** Filtering keeps the order of `xs`. */
  lemma {:induction false} FilterIsSubsequence<T>(xs: seq<T>, keep: T -> bool)
    ensures IsSubsequence(Filter(xs, keep), xs)
    decreases |xs|
  {
    if xs != [] {
      var init := xs[..|xs| - 1];
      var last := xs[|xs| - 1];
      FilterIsSubsequence(init, keep);
      var r := Filter(xs, keep);
      if keep(last) {
        assert r[..|r| - 1] == Filter(init, keep);
        assert r[|r| - 1] == last;
      } else {
        assert r == Filter(init, keep);
      }
    }
  }

  /** Filtering keeps exactly the entries that satisfy `keep`. */
  lemma {:induction false} FilterMembers<T>(xs: seq<T>, keep: T -> bool)
    ensures forall x :: x in Filter(xs, keep) <==> x in xs && keep(x)
    decreases |xs|
  {
    if xs != [] {
      var init := xs[..|xs| - 1];
      var last := xs[|xs| - 1];
      FilterMembers(init, keep);
      assert xs == init + [last];
    }
  }

  /** A filter every entry passes keeps the whole list. */
  lemma {:induction false} FilterAll<T>(xs: seq<T>, keep: T -> bool)
    requires forall i :: 0 <= i < |xs| ==> keep(xs[i])
    ensures Filter(xs, keep) == xs
    decreases |xs|
  {
    if xs != [] {
      var init := xs[..|xs| - 1];
      FilterAll(init, keep);
      assert xs == init + [xs[|xs| - 1]];
    }
  }

  /** A filter no entry passes keeps nothing. */
  lemma {:induction false} FilterNone<T>(xs: seq<T>, keep: T -> bool)
    requires forall i :: 0 <= i < |xs| ==> !keep(xs[i])
    ensures Filter(xs, keep) == []
    decreases |xs|
  {
    if xs != [] {
      FilterNone(xs[..|xs| - 1], keep);
    }
  }

  /** A map that fixes every entry leaves the list unchanged. */
  lemma {:induction false} MapIdentity<T>(xs: seq<T>, f: T -> T)
    requires forall i :: 0 <= i < |xs| ==> f(xs[i]) == xs[i]
    ensures Map(xs, f) == xs
    decreases |xs|
  {
    if xs != [] {
      var init := xs[..|xs| - 1];
      MapIdentity(init, f);
      assert xs == init + [xs[|xs| - 1]];
    }
  }

  /** Filtering a list without duplicates keeps its order and adds
      none. */
  lemma FilterOfDistinct<T>(xs: seq<T>, keep: T -> bool)
    requires NoDuplicates(xs)
    ensures IsSubsequence(Filter(xs, keep), xs)
    ensures NoDuplicates(Filter(xs, keep))
  {
    FilterIsSubsequence(xs, keep);
    SubsequenceOfDistinct(Filter(xs, keep), xs);
  }

  /** A sublist of a list without duplicates has none either. */
  lemma {:induction false} SubsequenceOfDistinct<T>(xs: seq<T>, ys: seq<T>)
    requires IsSubsequence(xs, ys)
    requires NoDuplicates(ys)
    ensures NoDuplicates(xs)
    decreases |ys|
  {
    if ys != [] {
      var yInit := ys[..|ys| - 1];
      assert NoDuplicates(yInit);
      if IsSubsequence(xs, yInit) {
        SubsequenceOfDistinct(xs, yInit);
      } else {
        var xInit := xs[..|xs| - 1];
        SubsequenceOfDistinct(xInit, yInit);
        SubsequenceBounds(xInit, yInit);
        assert xs == xInit + [ys[|ys| - 1]];
        assert ys[|ys| - 1] !in yInit;
      }
    }
  }

  /** A sublist has no more entries than the list, and only its elements. */
  lemma {:induction false} SubsequenceBounds<T>(xs: seq<T>, ys: seq<T>)
    requires IsSubsequence(xs, ys)
    ensures |xs| <= |ys|
    ensures forall x :: x in xs ==> x in ys
    decreases |ys|
  {
    if ys != [] {
      var yInit := ys[..|ys| - 1];
      if IsSubsequence(xs, yInit) {
        SubsequenceBounds(xs, yInit);
      } else {
        var xInit := xs[..|xs| - 1];
        SubsequenceBounds(xInit, yInit);
        assert xs == xInit + [ys[|ys| - 1]];
      }
    }
  }

  /** A subset has no more elements than its superset, and equally many only
      when the two are equal. */
  lemma SubsetCard<T>(x: set<T>, y: set<T>)
    requires x <= y
    ensures |x| <= |y|
    ensures |x| == |y| ==> x == y
  {
    assert y == x + (y - x);
    assert x * (y - x) == {};
  }
}
