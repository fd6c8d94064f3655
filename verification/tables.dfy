/** Python dictionaries with string keys, as the application builds them:
    insertion-ordered, and assigning an existing key replaces its value
    without moving it. */
module Tables {
  import opened Wrappers

  /** An insertion-ordered dictionary as a list of key/value pairs. */
  type Table<V> = seq<(string, V)>

  function Keys<V>(t: Table<V>): (ks: seq<string>)
    ensures |ks| == |t|
    ensures forall i :: 0 <= i < |t| ==> ks[i] == t[i].0
  {
    seq(|t|, i requires 0 <= i < |t| => t[i].0)
  }

  predicate DistinctKeys<V>(t: Table<V>) {
    forall i, j :: 0 <= i < j < |t| ==> t[i].0 != t[j].0
  }

  /** A table whose distinct keys are drawn from `ks` has at most `|ks|`
      entries. */
  lemma {:induction false} DistinctKeysBound<V>(t: Table<V>, ks: set<string>)
    requires DistinctKeys(t) && forall i :: 0 <= i < |t| ==> t[i].0 in ks
    ensures |t| <= |ks|
  {
    if |t| > 0 {
      var n := |t| - 1;
      var rest := t[..n];
      forall i | 0 <= i < |rest| ensures rest[i].0 in ks - {t[n].0} {
        assert rest[i] == t[i];
      }
      DistinctKeysBound(rest, ks - {t[n].0});
    }
  }

  /** Python's `d.get(k)`. */
  function Get<V>(t: Table<V>, k: string): (r: Option<V>)
    ensures r.None? <==> k !in Keys(t)
    ensures r.Some? ==> (k, r.value) in t
  {
    if |t| == 0 then None
    else if t[0].0 == k then Some(t[0].1)
    else
      assert Keys(t) == [t[0].0] + Keys(t[1..]);
      Get(t[1..], k)
  }

  /** In a table without repeated keys, `Get` finds the pair at any position. */
  lemma {:induction false} GetAt<V>(t: Table<V>, i: nat)
    requires DistinctKeys(t) && i < |t|
    ensures Get(t, t[i].0) == Some(t[i].1)
  {
    if i > 0 {
      GetAt(t[1..], i - 1);
    }
  }

  /** Python's `d[k] = v`: the value for `k` becomes `v` and every other key
      keeps its value. */
  function Put<V>(t: Table<V>, k: string, v: V): (r: Table<V>)
    ensures Get(r, k) == Some(v)
    ensures forall k' :: k' != k ==> Get(r, k') == Get(t, k')
  {
    if |t| == 0 then [(k, v)]
    else if t[0].0 == k then [(k, v)] + t[1..]
    else
      var r := [t[0]] + Put(t[1..], k, v);
      assert r[1..] == Put(t[1..], k, v);
      r
  }

  lemma KeysCons<V>(x: (string, V), t: Table<V>)
    ensures Keys([x] + t) == [x.0] + Keys(t)
  {
  }

  /** Assigning an existing key keeps the key order. */
  lemma {:induction false} PutKeysExisting<V>(t: Table<V>, k: string, v: V)
    requires k in Keys(t)
    ensures Keys(Put(t, k, v)) == Keys(t)
  {
    KeysCons(t[0], t[1..]);
    assert t == [t[0]] + t[1..];
    if t[0].0 == k {
      KeysCons((k, v), t[1..]);
    } else {
      PutKeysExisting(t[1..], k, v);
      KeysCons(t[0], Put(t[1..], k, v));
    }
  }

  /** Assigning a new key appends it to the key order. */
  lemma {:induction false} PutKeysNew<V>(t: Table<V>, k: string, v: V)
    requires k !in Keys(t)
    ensures Keys(Put(t, k, v)) == Keys(t) + [k]
  {
    if |t| > 0 {
      KeysCons(t[0], t[1..]);
      assert t == [t[0]] + t[1..];
      PutKeysNew(t[1..], k, v);
      KeysCons(t[0], Put(t[1..], k, v));
    }
  }

  /** Assignment never repeats a key. */
  lemma PutDistinct<V>(t: Table<V>, k: string, v: V)
    requires DistinctKeys(t)
    ensures DistinctKeys(Put(t, k, v))
  {
    var r := Put(t, k, v);
    if k in Keys(t) {
      PutKeysExisting(t, k, v);
    } else {
      PutKeysNew(t, k, v);
    }
    forall i, j | 0 <= i < j < |r| ensures r[i].0 != r[j].0 {
      assert Keys(r)[i] == r[i].0 && Keys(r)[j] == r[j].0;
    }
  }

  /** Item `i` of a row-by-row parse assigns key `k`. */
  predicate Binds<V>(items: seq<Option<(string, V)>>, i: int, k: string) {
    0 <= i < |items| && items[i].Some? && items[i].value.0 == k
  }

  /** The dictionary a loop builds by assigning each present item in turn
      (absent items are rows the loop skips). */
  function Collect<V>(items: seq<Option<(string, V)>>): (t: Table<V>)
    ensures DistinctKeys(t)
  {
    if |items| == 0 then []
    else
      var t := Collect(items[..|items| - 1]);
      match items[|items| - 1]
      case None => t
      case Some(kv) =>
        PutDistinct(t, kv.0, kv.1);
        Put(t, kv.0, kv.1)
  }

  /** A key is present exactly when some item assigns it, and its value is
      the one assigned by the last such item: the last write wins. */
  lemma {:induction false} CollectLastWins<V>(items: seq<Option<(string, V)>>, k: string)
    ensures Get(Collect(items), k).None? <==> forall i :: 0 <= i < |items| ==> !Binds(items, i, k)
    ensures forall i :: Binds(items, i, k) && (forall j :: i < j < |items| ==> !Binds(items, j, k)) ==>
              Get(Collect(items), k) == Some(items[i].value.1)
  {
    if |items| > 0 {
      var n := |items| - 1;
      var init := items[..n];
      CollectLastWins(init, k);
      assert forall i :: 0 <= i < n ==> (Binds(init, i, k) <==> Binds(items, i, k));
      if Binds(items, n, k) {
        assert Get(Collect(items), k) == Some(items[n].value.1);
      } else {
        assert Get(Collect(items), k) == Get(Collect(init), k);
        forall i | Binds(items, i, k) && (forall j :: i < j < |items| ==> !Binds(items, j, k))
          ensures Get(Collect(items), k) == Some(items[i].value.1)
        {
          assert Binds(init, i, k);
        }
      }
    }
  }

  /** `CollectLastWins` for one chosen item. */
  lemma CollectLast<V>(items: seq<Option<(string, V)>>, k: string, i: nat)
    requires Binds(items, i, k)
    requires forall j :: i < j < |items| ==> !Binds(items, j, k)
    ensures Get(Collect(items), k) == Some(items[i].value.1)
  {
    CollectLastWins(items, k);
  }

  /** Two item lists that assign `k` at the same positions with the same
      values give `k` the same value. */
  lemma CollectAgree<V>(a: seq<Option<(string, V)>>, b: seq<Option<(string, V)>>, k: string)
    requires |a| == |b|
    requires forall i :: 0 <= i < |a| ==> (Binds(a, i, k) <==> Binds(b, i, k))
    requires forall i :: Binds(a, i, k) ==> a[i] == b[i]
    ensures Get(Collect(a), k) == Get(Collect(b), k)
  {
    CollectLastWins(a, k);
    CollectLastWins(b, k);
    if exists i :: Binds(a, i, k) {
      var i := LastBinding(a, k);
      assert Binds(b, i, k);
    }
  }

  /** The position of the last item that assigns `k`. */
  lemma LastBinding<V>(items: seq<Option<(string, V)>>, k: string) returns (i: nat)
    requires exists i :: Binds(items, i, k)
    ensures Binds(items, i, k)
    ensures forall j :: i < j < |items| ==> !Binds(items, j, k)
  {
    var n := |items| - 1;
    if Binds(items, n, k) {
      i := n;
    } else {
      var j :| Binds(items, j, k);
      assert Binds(items[..n], j, k);
      i := LastBinding(items[..n], k);
      assert Binds(items[..n], i, k);
      forall j | i < j < n ensures !Binds(items, j, k) {
        assert !Binds(items[..n], j, k);
      }
    }
  }

  /** Replacing the only item that assigns `k` by another item assigning
      `k` gives `k` the new value and leaves every other key alone. */
  lemma CollectReplace<V>(a: seq<Option<(string, V)>>, b: seq<Option<(string, V)>>, i: nat, k: string, v: V)
    requires |a| == |b| && i < |a|
    requires forall j :: 0 <= j < |a| && j != i ==> a[j] == b[j]
    requires Binds(a, i, k) && b[i] == Some((k, v))
    requires forall j :: 0 <= j < |a| && j != i ==> !Binds(a, j, k)
    ensures Get(Collect(b), k) == Some(v)
    ensures forall d :: d != k ==> Get(Collect(b), d) == Get(Collect(a), d)
  {
    forall j | 0 <= j < |b| && j != i ensures !Binds(b, j, k) {
      assert !Binds(a, j, k) && a[j] == b[j];
    }
    CollectLast(b, k, i);
    forall d | d != k ensures Get(Collect(b), d) == Get(Collect(a), d) {
      forall j | 0 <= j < |b| ensures (Binds(b, j, d) <==> Binds(a, j, d)) && (Binds(b, j, d) ==> b[j] == a[j]) {
        if j != i {
          assert a[j] == b[j];
        }
      }
      CollectAgree(b, a, d);
    }
  }
}
