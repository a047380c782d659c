/**
  A multi-select list such as `appsBeingInstalled` or `appsBeingRemoved`:
  a sequence of chosen values, identified by a key (the item's id).
  Selecting a value whose key is present filters every entry with that key
  out; selecting one whose key is absent pushes it at the end.
*/
module Selection {

  /** The keys of the entries, in selection order. */
  function KeysOf<T, K>(s: seq<T>, key: T -> K): (ks: seq<K>)
    ensures |ks| == |s|
    ensures forall i :: 0 <= i < |s| ==> ks[i] == key(s[i])
  {
    if s == [] then [] else [key(s[0])] + KeysOf(s[1..], key)
  }

  ghost predicate Unique<K>(ks: seq<K>)
  {
    forall i, j :: 0 <= i < j < |ks| ==> ks[i] != ks[j]
  }

  /** `s.filter(x => key(x) !== k)`. */
  function Without<T, K(==)>(s: seq<T>, k: K, key: T -> K): (r: seq<T>)
    ensures k !in KeysOf(r, key)
    ensures forall i :: 0 <= i < |r| ==> r[i] in s
    ensures forall i :: 0 <= i < |s| && key(s[i]) != k ==> s[i] in r
    ensures |r| <= |s|
  {
    if s == [] then []
    else
      var t := Without(s[1..], k, key);
      assert forall i :: 1 <= i < |s| ==> s[i] == s[1..][i - 1];
      if key(s[0]) == k then t else [s[0]] + t
  }

  /** The selection toggle without any guard: remove by key if present,
      otherwise append. */
  function Toggle<T, K(==)>(s: seq<T>, x: T, key: T -> K): seq<T>
  {
    if key(x) in KeysOf(s, key) then Without(s, key(x), key) else s + [x]
  }

  lemma {:induction false} WithoutAbsent<T, K>(s: seq<T>, k: K, key: T -> K)
    requires k !in KeysOf(s, key)
    ensures Without(s, k, key) == s
  {
    if s != [] {
      assert KeysOf(s, key) == [key(s[0])] + KeysOf(s[1..], key);
      WithoutAbsent(s[1..], k, key);
    }
  }

  /** Filtering works entry by entry, so it keeps the order of the entries
      it keeps: filtering a concatenation filters each part. */
  lemma {:induction false} WithoutAppend<T, K>(a: seq<T>, b: seq<T>, k: K, key: T -> K)
    ensures Without(a + b, k, key) == Without(a, k, key) + Without(b, k, key)
  {
    if a == [] {
      assert a + b == b;
    } else {
      assert (a + b)[0] == a[0] && (a + b)[1..] == a[1..] + b;
      WithoutAppend(a[1..], b, k, key);
    }
  }

  lemma {:induction false} WithoutAppendMatch<T, K>(s: seq<T>, x: T, key: T -> K)
    ensures Without(s + [x], key(x), key) == Without(s, key(x), key)
  {
    if s == [] {
      assert [x][1..] == [];
    } else {
      assert (s + [x])[0] == s[0] && (s + [x])[1..] == s[1..] + [x];
      WithoutAppendMatch(s[1..], x, key);
    }
  }

  lemma {:induction false} WithoutKeys<T, K>(s: seq<T>, k: K, key: T -> K, k': K)
    requires k' != k
    ensures k' in KeysOf(Without(s, k, key), key) <==> k' in KeysOf(s, key)
  {
    if s != [] {
      assert KeysOf(s, key) == [key(s[0])] + KeysOf(s[1..], key);
      WithoutKeys(s[1..], k, key, k');
      if key(s[0]) != k {
        var r := Without(s, k, key);
        assert r == [s[0]] + Without(s[1..], k, key);
        assert KeysOf(r, key) == [key(s[0])] + KeysOf(Without(s[1..], k, key), key);
      }
    }
  }

  lemma {:induction false} WithoutUnique<T, K>(s: seq<T>, k: K, key: T -> K)
    requires Unique(KeysOf(s, key))
    ensures Unique(KeysOf(Without(s, k, key), key))
  {
    if s != [] {
      var ks, ts := KeysOf(s, key), KeysOf(s[1..], key);
      assert ks == [key(s[0])] + ts;
      assert Unique(ts) by {
        forall i, j | 0 <= i < j < |ts| ensures ts[i] != ts[j] {
          assert ts[i] == ks[i + 1] && ts[j] == ks[j + 1];
        }
      }
      WithoutUnique(s[1..], k, key);
      if key(s[0]) != k {
        var w := Without(s[1..], k, key);
        var rs := KeysOf([s[0]] + w, key);
        assert key(s[0]) !in ts by {
          forall i | 0 <= i < |ts| ensures ts[i] != key(s[0]) {
            assert ts[i] == ks[i + 1];
          }
        }
        WithoutKeys(s[1..], k, key, key(s[0]));
        forall i, j | 0 <= i < j < |rs| ensures rs[i] != rs[j] {
          if i == 0 {
            assert rs[j] == KeysOf(w, key)[j - 1];
          } else {
            assert rs[i] == KeysOf(w, key)[i - 1] && rs[j] == KeysOf(w, key)[j - 1];
          }
        }
      }
    }
  }

  /** Toggling flips the membership of the toggled key and of no other. */
  lemma ToggleMembership<T, K>(s: seq<T>, x: T, key: T -> K, k: K)
    ensures k == key(x) ==> (k in KeysOf(Toggle(s, x, key), key) <==> k !in KeysOf(s, key))
    ensures k != key(x) ==> (k in KeysOf(Toggle(s, x, key), key) <==> k in KeysOf(s, key))
  {
    if k != key(x) {
      if key(x) in KeysOf(s, key) {
        WithoutKeys(s, key(x), key, k);
      } else {
        assert KeysOf(s + [x], key) == KeysOf(s, key) + [key(x)];
      }
    } else if key(x) !in KeysOf(s, key) {
      assert KeysOf(s + [x], key)[|s|] == k;
    }
  }

  /** Toggling never introduces a duplicate key. */
  lemma ToggleUnique<T, K>(s: seq<T>, x: T, key: T -> K)
    requires Unique(KeysOf(s, key))
    ensures Unique(KeysOf(Toggle(s, x, key), key))
  {
    if key(x) in KeysOf(s, key) {
      WithoutUnique(s, key(x), key);
    } else {
      var ks := KeysOf(s + [x], key);
      forall i, j | 0 <= i < j < |ks| ensures ks[i] != ks[j] {
        assert ks[i] == KeysOf(s, key)[i];
        if j < |s| { assert ks[j] == KeysOf(s, key)[j]; }
      }
    }
  }

  /** Selecting an unselected item and then selecting it again (by any value
      with the same key) gives back exactly the selection it started from. */
  lemma ToggleTwiceAbsent<T, K>(s: seq<T>, x: T, y: T, key: T -> K)
    requires key(x) !in KeysOf(s, key) && key(y) == key(x)
    ensures Toggle(Toggle(s, x, key), y, key) == s
  {
    assert KeysOf(s + [x], key)[|s|] == key(x);
    WithoutAppendMatch(s, x, key);
    WithoutAbsent(s, key(x), key);
  }

  /** Deselecting a selected item and then selecting it again keeps the same
      keys but moves the item to the end of the selection. */
  lemma ToggleTwicePresent<T, K>(s: seq<T>, x: T, y: T, key: T -> K)
    requires key(x) in KeysOf(s, key) && key(y) == key(x)
    ensures Toggle(Toggle(s, x, key), y, key) == Without(s, key(x), key) + [y]
    ensures forall k :: k in KeysOf(Toggle(Toggle(s, x, key), y, key), key) <==> k in KeysOf(s, key)
  {
    var t := Toggle(Toggle(s, x, key), y, key);
    forall k ensures k in KeysOf(t, key) <==> k in KeysOf(s, key) {
      ToggleMembership(s, x, key, k);
      ToggleMembership(Toggle(s, x, key), y, key, k);
    }
  }
}
