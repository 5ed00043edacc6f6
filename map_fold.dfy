/** Building a map by visiting a sequence first to last, where each element
    may contribute one binding and a later binding of a key replaces an
    earlier one: the shape of the token loop of the attribute parser. */
module MapFold {
  import opened Wrappers

  function Fold<T, K, V>(xs: seq<T>, f: T -> Option<(K, V)>): map<K, V>
    decreases |xs|
  {
    if xs == [] then map[]
    else
      var m := Fold(xs[..|xs| - 1], f);
      match f(xs[|xs| - 1])
      case None => m
      case Some(kv) => m[kv.0 := kv.1]
  }

  /** Visiting one more element of `xs` adds its binding, if any, on top. */
  lemma FoldPrefix<T, K, V>(xs: seq<T>, i: nat, f: T -> Option<(K, V)>)
    requires i < |xs|
    ensures Fold(xs[..i + 1], f) == match f(xs[i]) case None => Fold(xs[..i], f) case Some(kv) => Fold(xs[..i], f)[kv.0 := kv.1]
  {
    assert xs[..i + 1][..i] == xs[..i];
  }

  /** The fold over all of `xs`. */
  lemma FoldAll<T, K, V>(xs: seq<T>, f: T -> Option<(K, V)>)
    ensures Fold(xs[..|xs|], f) == Fold(xs, f)
  {
    assert xs[..|xs|] == xs;
  }

  /** A key is bound exactly when some element contributes a binding for it. */
  lemma {:induction false} FoldKeys<T, K, V>(xs: seq<T>, f: T -> Option<(K, V)>, k: K)
    ensures k in Fold(xs, f) <==> exists i :: 0 <= i < |xs| && f(xs[i]).Some? && f(xs[i]).value.0 == k
    decreases |xs|
  {
    if xs != [] {
      var n := |xs| - 1;
      var init := xs[..n];
      FoldKeys(init, f, k);
      if exists i :: 0 <= i < |init| && f(init[i]).Some? && f(init[i]).value.0 == k {
        var i :| 0 <= i < |init| && f(init[i]).Some? && f(init[i]).value.0 == k;
        assert xs[i] == init[i];
      }
      if exists i :: 0 <= i < |xs| && f(xs[i]).Some? && f(xs[i]).value.0 == k {
        var i :| 0 <= i < |xs| && f(xs[i]).Some? && f(xs[i]).value.0 == k;
        if i < n {
          assert init[i] == xs[i];
        }
      }
    }
  }

  /** A key is bound to what the last element binding it contributes. */
  lemma {:induction false} FoldLastWins<T, K, V>(xs: seq<T>, f: T -> Option<(K, V)>, i: nat)
    requires i < |xs| && f(xs[i]).Some?
    requires forall j :: i < j < |xs| && f(xs[j]).Some? ==> f(xs[j]).value.0 != f(xs[i]).value.0
    ensures f(xs[i]).value.0 in Fold(xs, f)
    ensures Fold(xs, f)[f(xs[i]).value.0] == f(xs[i]).value.1
    decreases |xs|
  {
    var n := |xs| - 1;
    if i < n {
      var init := xs[..n];
      assert init[i] == xs[i];
      forall j | i < j < |init| && f(init[j]).Some?
        ensures f(init[j]).value.0 != f(init[i]).value.0
      {
        assert init[j] == xs[j];
      }
      FoldLastWins(init, f, i);
    }
  }

  /** Every binding in the map was contributed by some element. */
  lemma {:induction false} FoldBindingFrom<T, K, V>(xs: seq<T>, f: T -> Option<(K, V)>, k: K)
    requires k in Fold(xs, f)
    ensures exists i :: 0 <= i < |xs| && f(xs[i]) == Some((k, Fold(xs, f)[k]))
    decreases |xs|
  {
    var n := |xs| - 1;
    var init := xs[..n];
    if f(xs[n]).Some? && f(xs[n]).value.0 == k {
      assert f(xs[n]) == Some((k, Fold(xs, f)[k]));
    } else {
      assert Fold(xs, f)[k] == Fold(init, f)[k];
      FoldBindingFrom(init, f, k);
      var i :| 0 <= i < |init| && f(init[i]) == Some((k, Fold(init, f)[k]));
      assert xs[i] == init[i];
    }
  }

  /** The last element's binding, if any, is in the map. */
  lemma FoldLastElement<T, K, V>(xs: seq<T>, x: T, f: T -> Option<(K, V)>)
    requires f(x).Some? && |xs| > 0 && xs[|xs| - 1] == x
    ensures f(x).value.0 in Fold(xs, f) && Fold(xs, f)[f(x).value.0] == f(x).value.1
  {
    FoldLastWins(xs, f, |xs| - 1);
  }

  /** When every element contributes a binding and no two share a key, the
      map has one entry per element. */
  lemma {:induction false} FoldSize<T, K, V>(xs: seq<T>, f: T -> Option<(K, V)>)
    requires forall i :: 0 <= i < |xs| ==> f(xs[i]).Some?
    requires forall i, j :: 0 <= i < j < |xs| ==> f(xs[i]).value.0 != f(xs[j]).value.0
    ensures |Fold(xs, f)| == |xs|
    decreases |xs|
  {
    if xs != [] {
      var n := |xs| - 1;
      var init := xs[..n];
      assert forall i :: 0 <= i < n ==> init[i] == xs[i];
      FoldSize(init, f);
      var k := f(xs[n]).value.0;
      FoldKeys(init, f, k);
      assert k !in Fold(init, f);
    }
  }

  /** Membership in a prefix is membership in the whole. */
  lemma InPrefix<T>(xs: seq<T>, n: nat, x: T)
    requires n <= |xs| && x in xs[..n]
    ensures x in xs
  {
    var i :| 0 <= i < n && xs[..n][i] == x;
    assert xs[i] == x;
  }
}
