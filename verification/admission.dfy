/** First-occurrence admission by key: walk a list in order and keep each
    entry whose key is neither already `seen` nor the key of an entry kept
    before it. The deduplication and the insertion scripts of the catalog
    both run this loop on (title, author) keys. */
module Admission {
  import opened Seqs

  /** The keys of the entries, in order. */
  function KeysOf<T(==), K(==)>(xs: seq<T>, key: T -> K): seq<K> {
    Map(xs, key)
  }

  /** The set of keys of the entries. */
  function KeySet<T(==), K(==)>(xs: seq<T>, key: T -> K): set<K> {
    set x | x in xs :: key(x)
  }

  lemma KeySetConcat<T, K>(xs: seq<T>, ys: seq<T>, key: T -> K)
    ensures KeySet(xs + ys, key) == KeySet(xs, key) + KeySet(ys, key)
  {
    assert forall x :: x in xs + ys <==> x in xs || x in ys;
  }

  /** The admission loop. */
  function Admit<T(==), K(==)>(xs: seq<T>, key: T -> K, seen: set<K>): (r: seq<T>)
    ensures |r| <= |xs|
  {
    if xs == [] then []
    else
      var r := Admit(xs[..|xs| - 1], key, seen);
      var last := xs[|xs| - 1];
      if key(last) in seen || key(last) in KeySet(r, key) then r else r + [last]
  }

  /** One step of the loop: the next entry is admitted unless its key was
      seen or already admitted. */
  lemma AdmitSnoc<T, K>(xs: seq<T>, x: T, key: T -> K, seen: set<K>)
    ensures Admit(xs + [x], key, seen) ==
      Admit(xs, key, seen) + (if key(x) in seen || key(x) in KeySet(Admit(xs, key, seen), key) then [] else [x])
  {
    assert (xs + [x])[..|xs|] == xs;
  }

  /** Admission keeps the order of the input. */
  lemma {:induction false} AdmitInOrder<T, K>(xs: seq<T>, key: T -> K, seen: set<K>)
    ensures IsSubsequence(Admit(xs, key, seen), xs)
    decreases |xs|
  {
    if xs != [] {
      var init := xs[..|xs| - 1];
      AdmitInOrder(init, key, seen);
      var r := Admit(xs, key, seen);
      if r != Admit(init, key, seen) {
        assert r[..|r| - 1] == Admit(init, key, seen);
      }
    }
  }

  /** Admitted keys are new: none was `seen` and no two are equal. */
  lemma {:induction false} AdmitFresh<T, K>(xs: seq<T>, key: T -> K, seen: set<K>)
    ensures KeySet(Admit(xs, key, seen), key) !! seen
    ensures NoDuplicates(KeysOf(Admit(xs, key, seen), key))
    decreases |xs|
  {
    if xs != [] {
      var init, last := xs[..|xs| - 1], xs[|xs| - 1];
      AdmitFresh(init, key, seen);
      var r0 := Admit(init, key, seen);
      if !(key(last) in seen || key(last) in KeySet(r0, key)) {
        var r := r0 + [last];
        KeySetConcat(r0, [last], key);
        var ks := KeysOf(r, key);
        assert r[..|r| - 1] == r0;
        assert ks == KeysOf(r0, key) + [key(last)];
        forall i, j | 0 <= i < j < |ks| ensures ks[i] != ks[j] {
          MapAt(r, key, i);
          if j < |ks| - 1 {
            assert ks[i] == KeysOf(r0, key)[i] && ks[j] == KeysOf(r0, key)[j];
          } else {
            assert r[i] in r0;
          }
        }
      }
    }
  }

  /** No key is lost: with `seen`, the admitted keys are those of the
      whole input. */
  lemma {:induction false} AdmitComplete<T, K>(xs: seq<T>, key: T -> K, seen: set<K>)
    ensures seen + KeySet(Admit(xs, key, seen), key) == seen + KeySet(xs, key)
    decreases |xs|
  {
    if xs != [] {
      var init, last := xs[..|xs| - 1], xs[|xs| - 1];
      AdmitComplete(init, key, seen);
      assert xs == init + [last];
      KeySetConcat(init, [last], key);
      var r0 := Admit(init, key, seen);
      KeySetConcat(r0, [last], key);
    }
  }

  /** The first entry carrying each new key is the one admitted: an entry
      whose key was not `seen` and is carried by no earlier entry is in the
      output. */
  lemma {:induction false} AdmitKeepsFirst<T, K>(xs: seq<T>, key: T -> K, seen: set<K>, i: nat)
    requires i < |xs|
    requires key(xs[i]) !in seen
    requires forall j :: 0 <= j < i ==> key(xs[j]) != key(xs[i])
    ensures xs[i] in Admit(xs, key, seen)
    decreases |xs|
  {
    var init, last := xs[..|xs| - 1], xs[|xs| - 1];
    var r0 := Admit(init, key, seen);
    if i < |init| {
      AdmitKeepsFirst(init, key, seen, i);
    } else {
      AdmitComplete(init, key, seen);
      assert key(last) !in KeySet(init, key) by {
        forall x | x in init ensures key(x) != key(last) {
          var j :| 0 <= j < |init| && init[j] == x;
          assert xs[j] == x;
        }
      }
    }
  }

  /** When every key of the input was already seen, nothing is
      admitted. */
  lemma AdmitNothingNew<T, K>(xs: seq<T>, key: T -> K, seen: set<K>)
    requires KeySet(xs, key) <= seen
    ensures Admit(xs, key, seen) == []
  {
    AdmitComplete(xs, key, seen);
    AdmitFresh(xs, key, seen);
    var r := Admit(xs, key, seen);
    assert forall x :: x in r ==> key(x) in KeySet(r, key);
  }
}
