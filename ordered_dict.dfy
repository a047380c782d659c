/** The optional value used across the model. */
module Options {
  datatype Option<T> = None | Some(value: T)
}

/**
  A plain JavaScript object used as a dictionary with string keys, such as
  the `appsInstalling`, `appsDeleting` and `answers` objects. It is an
  association list in insertion order: `Object.entries` reports string keys
  in the order they were first assigned, and assigning to a key that is
  already present replaces its value where it stands.
*/
module OrderedDict {
  import opened Options

  type Dict<V> = seq<(string, V)>

  /** The keys in entry order. */
  function Keys<V>(d: Dict<V>): (ks: seq<string>)
    ensures |ks| == |d|
    ensures forall i :: 0 <= i < |d| ==> ks[i] == d[i].0
  {
    if d == [] then [] else [d[0].0] + Keys(d[1..])
  }

  ghost predicate Distinct(ks: seq<string>)
  {
    forall i, j :: 0 <= i < j < |ks| ==> ks[i] != ks[j]
  }

  /** The value stored under `k`, as `d[k]` reads it. */
  function Get<V>(d: Dict<V>, k: string): (r: Option<V>)
    ensures r.None? <==> k !in Keys(d)
    ensures r.Some? ==> (k, r.value) in d
  {
    if d == [] then None
    else if d[0].0 == k then Some(d[0].1)
    else Get(d[1..], k)
  }

  /** `d[k] = v`: an existing key keeps its position, a new key goes last. */
  function Put<V>(d: Dict<V>, k: string, v: V): Dict<V>
  {
    if d == [] then [(k, v)]
    else if d[0].0 == k then [(k, v)] + d[1..]
    else [d[0]] + Put(d[1..], k, v)
  }

  /** After `d[k] = v`, `k` reads `v`, every other key reads what it read
      before, and the key order is unchanged except that a new key is last. */
  lemma {:induction false} PutSpec<V>(d: Dict<V>, k: string, v: V)
    ensures k in Keys(d) ==> Keys(Put(d, k, v)) == Keys(d)
    ensures k !in Keys(d) ==> Keys(Put(d, k, v)) == Keys(d) + [k]
    ensures Get(Put(d, k, v), k) == Some(v)
    ensures forall k' :: k' != k ==> Get(Put(d, k, v), k') == Get(d, k')
  {
    if d != [] && d[0].0 != k {
      PutSpec(d[1..], k, v);
      assert Keys(d) == [d[0].0] + Keys(d[1..]);
      assert Keys(Put(d, k, v)) == [d[0].0] + Keys(Put(d[1..], k, v));
    }
  }

  /** `delete d[k]`: the entry goes, the others keep their order. */
  function Delete<V>(d: Dict<V>, k: string): (r: Dict<V>)
    ensures k !in Keys(r)
    ensures forall k' {:trigger Get(d, k')} :: k' != k ==> Get(r, k') == Get(d, k')
    ensures forall i :: 0 <= i < |r| ==> r[i] in d && r[i].0 != k
    ensures forall i :: 0 <= i < |d| && d[i].0 != k ==> d[i] in r
  {
    if d == [] then []
    else
      var t := Delete(d[1..], k);
      assert forall i :: 1 <= i < |d| ==> d[i] == d[1..][i - 1];
      if d[0].0 == k then t else [d[0]] + t
  }

  /** How many entries hold a value satisfying `p`. */
  function CountValues<V>(d: Dict<V>, p: V -> bool): (n: nat)
    ensures n <= |d|
  {
    if d == [] then 0 else (if p(d[0].1) then 1 else 0) + CountValues(d[1..], p)
  }

  lemma {:induction false} PutKeepsDistinct<V>(d: Dict<V>, k: string, v: V)
    requires Distinct(Keys(d))
    ensures Distinct(Keys(Put(d, k, v)))
  {
    PutSpec(d, k, v);
    var ks := Keys(Put(d, k, v));
    if k !in Keys(d) {
      forall i, j | 0 <= i < j < |ks| ensures ks[i] != ks[j] {
        if j == |ks| - 1 {
          assert ks[i] == Keys(d)[i];
        }
      }
    }
  }

  /** The dictionary grows by one exactly when the key is new. */
  lemma PutSize<V>(d: Dict<V>, k: string, v: V)
    ensures |Put(d, k, v)| == if k in Keys(d) then |d| else |d| + 1
  {
    PutSpec(d, k, v);
    assert |Keys(Put(d, k, v))| == |Put(d, k, v)|;
  }

  /** A name in a list other than its last element is in the rest. */
  lemma InInit(ks: seq<string>, k: string)
    requires k in ks && k != ks[|ks| - 1]
    ensures k in ks[..|ks| - 1]
  {
    var i :| 0 <= i < |ks| && ks[i] == k;
    assert ks[..|ks| - 1][i] == k;
  }

  /** A distinct list stays distinct without its last element, which it
      then does not contain. */
  lemma DistinctInit(ks: seq<string>, k: string)
    requires Distinct(ks + [k])
    ensures Distinct(ks) && k !in ks
  {
    var e := ks + [k];
    forall i | 0 <= i < |ks| ensures ks[i] != k {
      assert ks[i] == e[i] && k == e[|ks|];
    }
    forall i, j | 0 <= i < j < |ks| ensures ks[i] != ks[j] {
      assert ks[i] == e[i] && ks[j] == e[j];
    }
  }

  /** Dropping the first entry of a dictionary with distinct keys leaves
      distinct keys, none of them the first entry's key. */
  lemma {:induction false} DistinctTail<V>(d: Dict<V>)
    requires d != [] && Distinct(Keys(d))
    ensures Distinct(Keys(d[1..])) && d[0].0 !in Keys(d[1..])
  {
    var ks, ts := Keys(d), Keys(d[1..]);
    assert ks == [d[0].0] + ts;
    forall i, j | 0 <= i < j < |ts| ensures ts[i] != ts[j] {
      assert ts[i] == ks[i + 1] && ts[j] == ks[j + 1];
    }
    forall i | 0 <= i < |ts| ensures ts[i] != d[0].0 {
      assert ts[i] == ks[i + 1] && d[0].0 == ks[0];
    }
  }

  /** In a dictionary with distinct keys, a write changes the count of a
      predicate by the new value's contribution less the old value's. */
  lemma {:induction false} CountAfterPut<V>(d: Dict<V>, k: string, v: V, p: V -> bool)
    requires Distinct(Keys(d))
    ensures CountValues(Put(d, k, v), p) ==
      CountValues(d, p) + (if p(v) then 1 else 0)
      - (if k in Keys(d) && p(Get(d, k).value) then 1 else 0)
  {
    if d == [] {
    } else if d[0].0 == k {
      var r := Put(d, k, v);
      assert r[0] == (k, v) && r[1..] == d[1..];
      assert Get(d, k) == Some(d[0].1);
    } else {
      DistinctTail(d);
      CountAfterPut(d[1..], k, v, p);
      var r := Put(d, k, v);
      assert r[0] == d[0] && r[1..] == Put(d[1..], k, v);
      assert Keys(d) == [d[0].0] + Keys(d[1..]);
      assert Get(d, k) == Get(d[1..], k);
    }
  }

  /** Writing a new key appends an entry. */
  lemma {:induction false} PutNew<V>(d: Dict<V>, k: string, v: V)
    requires k !in Keys(d)
    ensures Put(d, k, v) == d + [(k, v)]
  {
    if d != [] {
      assert d[0].0 == Keys(d)[0];
      assert k !in Keys(d[1..]) by {
        forall i | 0 <= i < |d| - 1 ensures Keys(d[1..])[i] != k {
          assert Keys(d[1..])[i] == d[i + 1].0 == Keys(d)[i + 1];
        }
      }
      PutNew(d[1..], k, v);
      assert d == [d[0]] + d[1..];
    }
  }

  /** Writing the key of the last entry replaces that entry. */
  lemma PutLast<V>(d: Dict<V>, k: string, u: V, v: V)
    requires k !in Keys(d)
    ensures Put(d + [(k, u)], k, v) == d + [(k, v)]
  {
    PutNew(d, k, u);
    PutPut(d, k, u, v);
    PutNew(d, k, v);
  }

  lemma {:induction false} CountAppend<V>(d: Dict<V>, e: (string, V), p: V -> bool)
    ensures CountValues(d + [e], p) == CountValues(d, p) + (if p(e.1) then 1 else 0)
  {
    if d != [] {
      assert (d + [e])[1..] == d[1..] + [e];
      CountAppend(d[1..], e, p);
    }
  }

  /** Deleting a key that is not there changes nothing. */
  lemma {:induction false} DeleteAbsent<V>(d: Dict<V>, k: string)
    requires k !in Keys(d)
    ensures Delete(d, k) == d
  {
    if d != [] {
      assert Keys(d)[0] == d[0].0;
      assert Keys(d[1..]) == Keys(d)[1..];
      DeleteAbsent(d[1..], k);
    }
  }

  lemma {:induction false} KeysAppend<V>(a: Dict<V>, b: Dict<V>)
    ensures Keys(a + b) == Keys(a) + Keys(b)
  {
    var ks := Keys(a + b);
    assert |ks| == |Keys(a) + Keys(b)|;
    forall i | 0 <= i < |ks| ensures ks[i] == (Keys(a) + Keys(b))[i] {
      if i < |a| {
        assert (a + b)[i] == a[i];
      } else {
        assert (a + b)[i] == b[i - |a|];
      }
    }
  }

  /** A one-entry dictionary holds its own key only. */
  lemma GetSingle<V>(k: string, v: V, k2: string)
    ensures Get([(k, v)], k2) == if k == k2 then Some(v) else None
  {
    assert [(k, v)][1..] == [];
  }

  /** The keys of a one-longer prefix. */
  lemma KeysPrefix<V>(d: Dict<V>, i: nat)
    requires i < |d|
    ensures Keys(d[..i + 1]) == Keys(d[..i]) + [d[i].0]
  {
    var a, b := Keys(d[..i + 1]), Keys(d[..i]) + [d[i].0];
    assert |a| == |b|;
    forall j | 0 <= j < |a| ensures a[j] == b[j] {
      assert d[..i + 1][j] == d[j];
      if j < i {
        assert d[..i][j] == d[j];
      }
    }
  }

  /** A key reads from the first part that holds it. */
  lemma {:induction false} GetAppend<V>(a: Dict<V>, b: Dict<V>, k: string)
    ensures Get(a + b, k) == if k in Keys(a) then Get(a, k) else Get(b, k)
  {
    if a != [] {
      assert (a + b)[0] == a[0] && (a + b)[1..] == a[1..] + b;
      assert Keys(a)[0] == a[0].0 && Keys(a[1..]) == Keys(a)[1..];
      GetAppend(a[1..], b, k);
    } else {
      assert a + b == b;
    }
  }

  /** Deleting a key from two parts deletes it from each: the entries that
      stay keep their relative order. */
  lemma {:induction false} DeleteAppend<V>(a: Dict<V>, b: Dict<V>, k: string)
    ensures Delete(a + b, k) == Delete(a, k) + Delete(b, k)
  {
    if a == [] {
      assert a + b == b;
    } else {
      assert (a + b)[0] == a[0] && (a + b)[1..] == a[1..] + b;
      DeleteAppend(a[1..], b, k);
    }
  }

  /** The keys in order of first occurrence, each once: the keys a run of
      writes `d[ks[0]] = ...; d[ks[1]] = ...` leaves in an empty object. */
  function Dedup(ks: seq<string>): (r: seq<string>)
    ensures forall k :: k in r <==> k in ks
    ensures Distinct(r)
  {
    if ks == [] then []
    else
      var n := |ks| - 1;
      var pre := Dedup(ks[..n]);
      assert forall k :: k in ks <==> k in ks[..n] || k == ks[n] by {
        assert ks == ks[..n] + [ks[n]];
      }
      if ks[n] in pre then pre
      else
        var r := pre + [ks[n]];
        assert forall i :: 0 <= i < |pre| ==> r[i] == pre[i];
        r
  }

  /** With distinct keys, the number of entries is the number of keys. */
  lemma {:induction false} DistinctSize<V>(d: Dict<V>)
    requires Distinct(Keys(d))
    ensures |set k | k in Keys(d)| == |d|
  {
    DistinctSetSize(Keys(d));
  }

  /** A list of distinct names has as many elements as its set. */
  lemma {:induction false} DistinctSetSize(ks: seq<string>)
    requires Distinct(ks)
    ensures |set k | k in ks| == |ks|
  {
    if ks != [] {
      var t := ks[1..];
      assert ks == [ks[0]] + t;
      assert Distinct(t) by {
        forall i, j | 0 <= i < j < |t| ensures t[i] != t[j] {
          assert t[i] == ks[i + 1] && t[j] == ks[j + 1];
        }
      }
      assert ks[0] !in t by {
        forall i | 0 <= i < |t| ensures t[i] != ks[0] {
          assert t[i] == ks[i + 1];
        }
      }
      DistinctSetSize(t);
      assert (set k | k in ks) == {ks[0]} + (set k | k in t);
    }
  }

  /** The keys whose value satisfies `p`. */
  ghost function KeysWhere<V>(d: Dict<V>, p: V -> bool): set<string>
  {
    set k | k in Keys(d) && p(Get(d, k).value)
  }

  /** The keys of a dictionary with distinct keys whose value satisfies `p`
      are those of its tail, plus its first key when its value does. */
  lemma KeysWhereTail<V>(d: Dict<V>, p: V -> bool)
    requires d != [] && Distinct(Keys(d))
    ensures d[0].0 !in KeysWhere(d[1..], p)
    ensures KeysWhere(d, p) == (if p(d[0].1) then {d[0].0} else {}) + KeysWhere(d[1..], p)
  {
    DistinctTail(d);
    var t, x := d[1..], d[0].0;
    assert Keys(d) == [x] + Keys(t);
    forall k | k != x ensures Get(d, k) == Get(t, k) {}
  }

  /** With distinct keys, the count of values satisfying `p` is the number
      of keys whose value satisfies it. */
  lemma {:induction false} CountAsSet<V>(d: Dict<V>, p: V -> bool)
    requires Distinct(Keys(d))
    ensures CountValues(d, p) == |KeysWhere(d, p)|
  {
    if d != [] {
      DistinctTail(d);
      CountAsSet(d[1..], p);
      KeysWhereTail(d, p);
    }
  }


  /** Two writes to the same key leave what the second write alone leaves. */
  lemma {:induction false} PutPut<V>(d: Dict<V>, k: string, u: V, v: V)
    ensures Put(Put(d, k, u), k, v) == Put(d, k, v)
  {
    if d != [] && d[0].0 != k {
      PutPut(d[1..], k, u, v);
      var e := Put(d, k, u);
      assert e[0] == d[0] && e[1..] == Put(d[1..], k, u);
    }
  }

  /** The count of matching values is the size of any set holding exactly
      the keys whose value matches. */
  lemma CountIs<V>(d: Dict<V>, p: V -> bool, want: set<string>)
    requires Distinct(Keys(d))
    requires forall k :: k in KeysWhere(d, p) <==> k in want
    ensures CountValues(d, p) == |want|
  {
    CountAsSet(d, p);
    assert KeysWhere(d, p) == want;
  }

  /** Keys that are already distinct are kept as they are. */
  lemma {:induction false} DedupDistinct(ks: seq<string>)
    requires Distinct(ks)
    ensures Dedup(ks) == ks
  {
    if ks != [] {
      var n := |ks| - 1;
      assert Distinct(ks[..n]);
      DedupDistinct(ks[..n]);
      assert ks[n] !in ks[..n];
      assert ks == ks[..n] + [ks[n]];
    }
  }

  /** Reading one key after a write. */
  lemma PutGet<V>(d: Dict<V>, k: string, v: V, k': string)
    ensures Get(Put(d, k, v), k') == if k' == k then Some(v) else Get(d, k')
  {
    PutSpec(d, k, v);
  }
}
