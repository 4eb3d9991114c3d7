/** Order-preserving grouping of keyed values.

    This is the `defaultdict(list)` idiom of the analyser: every value is
    appended to the list of its key, and a key that has not been seen before
    gets a fresh list at the END of the dictionary (insertion order). A
    dictionary is modelled as a sequence of buckets with pairwise distinct keys.
 */
module Grouping {

  /** One bucket: a key and the values filed under it, in arrival order. */
  datatype Group<K, V> = Group(key: K, items: seq<V>)

  /** The keys that have a bucket. */
  ghost function Keys<K, V>(gs: seq<Group<K, V>>): set<K>
  {
    set i | 0 <= i < |gs| :: gs[i].key
  }

  /** No key names two buckets. */
  ghost predicate DistinctKeys<K, V>(gs: seq<Group<K, V>>)
  {
    forall i, j :: 0 <= i < j < |gs| ==> gs[i].key != gs[j].key
  }

  /** Every bucket holds at least one value. */
  ghost predicate NonEmptyGroups<K, V>(gs: seq<Group<K, V>>)
  {
    forall i :: 0 <= i < |gs| ==> |gs[i].items| > 0
  }

  /** Reference definition: the values paired with `k`, in input order. */
  function Select<K(==), V>(ps: seq<(K, V)>, k: K): seq<V>
  {
    if |ps| == 0 then []
    else if ps[0].0 == k then [ps[0].1] + Select(ps[1..], k)
    else Select(ps[1..], k)
  }

  /** The values of a list of pairs, in order. */
  function Values<K, V>(ps: seq<(K, V)>): seq<V>
  {
    if |ps| == 0 then [] else [ps[0].1] + Values(ps[1..])
  }

  /** The bucket of `k`, or the empty list when `k` has none (the default
      of a `defaultdict(list)`). */
  function Lookup<K(==), V>(gs: seq<Group<K, V>>, k: K): seq<V>
  {
    if |gs| == 0 then []
    else if gs[0].key == k then gs[0].items
    else Lookup(gs[1..], k)
  }

  /** All buckets' values, bucket after bucket. */
  function Flatten<K, V>(gs: seq<Group<K, V>>): seq<V>
  {
    if |gs| == 0 then [] else gs[0].items + Flatten(gs[1..])
  }

  /** `d[k].append(v)`: extends the bucket of `k`, or opens one at the end. */
  function Insert<K(==,!new), V>(gs: seq<Group<K, V>>, k: K, v: V): (r: seq<Group<K, V>>)
    ensures NonEmptyGroups(gs) ==> NonEmptyGroups(r)
    ensures forall k' :: Lookup(r, k') == if k' == k then Lookup(gs, k) + [v] else Lookup(gs, k')
  {
    if |gs| == 0 then [Group(k, [v])]
    else if gs[0].key == k then [Group(k, gs[0].items + [v])] + gs[1..]
    else [gs[0]] + Insert(gs[1..], k, v)
  }

  /** Inserting adds exactly the key `k` to the keys present. */
  lemma {:induction false} InsertKeys<K(!new), V>(gs: seq<Group<K, V>>, k: K, v: V)
    ensures Keys(Insert(gs, k, v)) == Keys(gs) + {k}
  {
    var r := Insert(gs, k, v);
    if |gs| == 0 {
      KeysCons(r);
      assert r[1..] == [];
    } else if gs[0].key == k {
      KeysCons(gs);
      assert r[1..] == gs[1..];
      KeysCons(r);
    } else {
      InsertKeys(gs[1..], k, v);
      KeysCons(gs);
      assert r[1..] == Insert(gs[1..], k, v);
      KeysCons(r);
    }
  }

  /** Inserting never makes two buckets share a key. */
  lemma {:induction false} InsertDistinct<K(!new), V>(gs: seq<Group<K, V>>, k: K, v: V)
    requires DistinctKeys(gs)
    ensures DistinctKeys(Insert(gs, k, v))
  {
    var r := Insert(gs, k, v);
    if |gs| == 0 {
    } else if gs[0].key == k {
      assert r[1..] == gs[1..];
    } else {
      var rest := Insert(gs[1..], k, v);
      InsertDistinct(gs[1..], k, v);
      InsertKeys(gs[1..], k, v);
      assert r == [gs[0]] + rest;
      forall j | 0 < j < |r| ensures r[0].key != r[j].key {
        assert r[j] == rest[j - 1];
        assert rest[j - 1].key in Keys(rest);
        if rest[j - 1].key in Keys(gs[1..]) {
          var i :| 0 <= i < |gs[1..]| && gs[1..][i].key == rest[j - 1].key;
          assert gs[i + 1].key == gs[1..][i].key;
        }
      }
    }
  }

  /** Inserting adds the one value `v` to the grouped values. */
  lemma {:induction false} InsertFlatten<K(!new), V>(gs: seq<Group<K, V>>, k: K, v: V)
    ensures multiset(Flatten(Insert(gs, k, v))) == multiset(Flatten(gs)) + multiset{v}
  {
    var r := Insert(gs, k, v);
    if |gs| == 0 {
      assert Flatten(r) == [v] + Flatten(r[1..]);
    } else if gs[0].key == k {
      assert r[1..] == gs[1..];
      assert Flatten(r) == gs[0].items + [v] + Flatten(gs[1..]);
    } else {
      InsertFlatten(gs[1..], k, v);
      assert r[1..] == Insert(gs[1..], k, v);
    }
  }

  /** The grouping the analyser builds by appending the pairs one by one. */
  function GroupBy<K(==,!new), V>(ps: seq<(K, V)>): (r: seq<Group<K, V>>)
    ensures DistinctKeys(r)
    ensures NonEmptyGroups(r)
    ensures forall k :: Lookup(r, k) == Select(ps, k)
  {
    if |ps| == 0 then []
    else
      var n := |ps| - 1;
      var front := ps[..n];
      assert ps == front + [ps[n]];
      SelectAppend(front, [ps[n]]);
      assert [ps[n]][1..] == [];
      assert forall k :: Select([ps[n]], k) == if ps[n].0 == k then [ps[n].1] else [];
      InsertDistinct(GroupBy(front), ps[n].0, ps[n].1);
      Insert(GroupBy(front), ps[n].0, ps[n].1)
  }

  /** The keys carried by a list of pairs. */
  ghost function PairKeys<K, V>(ps: seq<(K, V)>): set<K>
  {
    set i | 0 <= i < |ps| :: ps[i].0
  }

  lemma PairKeysSnoc<K, V>(ps: seq<(K, V)>, p: (K, V))
    ensures PairKeys(ps + [p]) == PairKeys(ps) + {p.0}
  {
    var qs := ps + [p];
    forall x | x in PairKeys(qs) ensures x in PairKeys(ps) + {p.0} {
      var i :| 0 <= i < |qs| && qs[i].0 == x;
      if i < |ps| { assert ps[i].0 == x; }
    }
    forall x | x in PairKeys(ps) ensures x in PairKeys(qs) {
      var i :| 0 <= i < |ps| && ps[i].0 == x;
      assert qs[i].0 == x;
    }
    assert qs[|ps|].0 == p.0;
  }

  /** A key has a bucket exactly when some input pair carries it. */
  lemma {:induction false} GroupByKeys<K(!new), V>(ps: seq<(K, V)>)
    ensures Keys(GroupBy(ps)) == PairKeys(ps)
  {
    if |ps| > 0 {
      var n := |ps| - 1;
      var front := ps[..n];
      assert ps == front + [ps[n]];
      GroupByKeys(front);
      InsertKeys(GroupBy(front), ps[n].0, ps[n].1);
      PairKeysSnoc(front, ps[n]);
    }
  }

  lemma KeysCons<K, V>(gs: seq<Group<K, V>>)
    requires |gs| > 0
    ensures Keys(gs) == {gs[0].key} + Keys(gs[1..])
  {
    forall x | x in Keys(gs) ensures x in {gs[0].key} + Keys(gs[1..]) {
      var i :| 0 <= i < |gs| && gs[i].key == x;
      if i > 0 { assert gs[1..][i - 1].key == x; }
    }
    forall x | x in Keys(gs[1..]) ensures x in Keys(gs) {
      var i :| 0 <= i < |gs[1..]| && gs[1..][i].key == x;
      assert gs[i + 1].key == x;
    }
  }

  /** Selecting from a concatenation selects from each part. */
  lemma {:induction false} SelectAppend<K, V>(a: seq<(K, V)>, b: seq<(K, V)>)
    ensures forall k :: Select(a + b, k) == Select(a, k) + Select(b, k)
  {
    if |a| > 0 {
      SelectAppend(a[1..], b);
      assert (a + b)[1..] == a[1..] + b;
    } else {
      assert a + b == b;
    }
  }

  lemma {:induction false} ValuesAppend<K, V>(a: seq<(K, V)>, b: seq<(K, V)>)
    ensures Values(a + b) == Values(a) + Values(b)
  {
    if |a| > 0 {
      ValuesAppend(a[1..], b);
      assert (a + b)[1..] == a[1..] + b;
    } else {
      assert a + b == b;
    }
  }

  /** Everything selected for `k` was paired with `k` in the input. */
  lemma {:induction false} SelectSound<K, V>(ps: seq<(K, V)>, k: K, v: V)
    requires v in Select(ps, k)
    ensures (k, v) in ps
  {
    if ps[0].0 == k && v == ps[0].1 {
    } else {
      SelectSound(ps[1..], k, v);
    }
  }

  /** A key that has no bucket reads as the empty list. */
  lemma {:induction false} LookupAbsent<K, V>(gs: seq<Group<K, V>>, k: K)
    requires forall i :: 0 <= i < |gs| ==> gs[i].key != k
    ensures Lookup(gs, k) == []
  {
    if |gs| > 0 {
      LookupAbsent(gs[1..], k);
    }
  }

  /** With distinct keys, a bucket is exactly what `Lookup` returns for its key. */
  lemma {:induction false} LookupAt<K, V>(gs: seq<Group<K, V>>, i: nat)
    requires DistinctKeys(gs) && i < |gs|
    ensures Lookup(gs, gs[i].key) == gs[i].items
  {
    if i > 0 {
      LookupAt(gs[1..], i - 1);
    }
  }

  /** A non-empty lookup comes from some bucket. */
  lemma {:induction false} LookupFound<K, V>(gs: seq<Group<K, V>>, k: K) returns (i: nat)
    requires Lookup(gs, k) != []
    ensures i < |gs| && gs[i].key == k && gs[i].items == Lookup(gs, k)
  {
    if gs[0].key == k {
      i := 0;
    } else {
      var j := LookupFound(gs[1..], k);
      i := j + 1;
    }
  }

  /** Grouping neither adds nor drops a value: the buckets partition the input. */
  lemma {:induction false} GroupByPartitions<K(!new), V>(ps: seq<(K, V)>)
    ensures multiset(Flatten(GroupBy(ps))) == multiset(Values(ps))
    ensures |Flatten(GroupBy(ps))| == |ps|
  {
    if |ps| > 0 {
      var n := |ps| - 1;
      var front := ps[..n];
      assert ps == front + [ps[n]];
      GroupByPartitions(front);
      InsertFlatten(GroupBy(front), ps[n].0, ps[n].1);
      ValuesAppend(front, [ps[n]]);
    }
    assert |multiset(Flatten(GroupBy(ps)))| == |multiset(Values(ps))|;
    ValuesLength(ps);
  }

  lemma {:induction false} ValuesLength<K, V>(ps: seq<(K, V)>)
    ensures |Values(ps)| == |ps|
  {
    if |ps| > 0 {
      ValuesLength(ps[1..]);
    }
  }
}
