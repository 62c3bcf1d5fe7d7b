/**
  A JavaScript plain object with string keys, as the session coordinator uses it
  (the roster, a poll's answers, a tally). Such an object remembers the order in
  which its keys were first written: assigning to an existing key changes the
  value in place, assigning to a new key adds it at the end, and `delete`
  removes it. The model is an association list in that order.
 */
module Dict {
  import opened Wrappers

  datatype Entry<V> = Entry(key: string, val: V)

  type Dict<V> = seq<Entry<V>>

  /** What every object of the source satisfies: no key occurs twice. */
  ghost predicate DistinctKeys<V>(d: Dict<V>)
  {
    forall i, j :: 0 <= i < j < |d| ==> d[i].key != d[j].key
  }

  /** `Object.values(d)`, in key order. */
  function Values<V>(d: Dict<V>): seq<V>
  {
    seq(|d|, i requires 0 <= i < |d| => d[i].val)
  }

  /** The position of key `k`, or `|d|` when `k` is absent. */
  function IndexOf<V>(d: Dict<V>, k: string): (i: nat)
    ensures i <= |d|
    ensures i < |d| ==> d[i].key == k
    ensures forall j :: 0 <= j < i ==> d[j].key != k
  {
    if d == [] then 0
    else if d[0].key == k then 0
    else 1 + IndexOf(d[1..], k)
  }

  /** The first position whose value is `v`, or `|d|` when no entry holds it. */
  function IndexOfValue<V(==)>(d: Dict<V>, v: V): (i: nat)
    ensures i <= |d|
    ensures i < |d| ==> d[i].val == v
    ensures forall j :: 0 <= j < i ==> d[j].val != v
  {
    if d == [] then 0
    else if d[0].val == v then 0
    else 1 + IndexOfValue(d[1..], v)
  }

  /** `d[k]`: `None` stands for `undefined`. */
  function Get<V>(d: Dict<V>, k: string): (r: Option<V>)
    ensures r.None? <==> forall j :: 0 <= j < |d| ==> d[j].key != k
    ensures r.Some? ==> Entry(k, r.value) in d
  {
    var i := IndexOf(d, k);
    if i < |d| then Some(d[i].val) else None
  }

  /** `d[k] = v`: overwrite in place, or append a new key. */
  function Set<V>(d: Dict<V>, k: string, v: V): (r: Dict<V>)
    ensures Get(d, k).Some? ==> |r| == |d|
    ensures Get(d, k).None? ==> r == d + [Entry(k, v)]
  {
    var i := IndexOf(d, k);
    if i < |d| then d[i := Entry(k, v)] else d + [Entry(k, v)]
  }

  /** `delete d[k]`; a no-op when `k` is absent. */
  function Remove<V>(d: Dict<V>, k: string): (r: Dict<V>)
    ensures |r| <= |d|
    ensures forall j :: 0 <= j < |r| ==> r[j] in d && r[j].key != k
    ensures forall j :: 0 <= j < |d| && d[j].key != k ==> d[j] in r
  {
    if d == [] then []
    else (if d[0].key == k then [] else [d[0]]) + Remove(d[1..], k)
  }

  /** Reading after a write: the written key holds the new value, every other key is untouched. */
  lemma GetSet<V>(d: Dict<V>, k: string, v: V, k': string)
    ensures Get(Set(d, k, v), k') == if k' == k then Some(v) else Get(d, k')
  {
    var i := IndexOf(d, k);
    var r := Set(d, k, v);
    if k' == k {
      assert r[i] == Entry(k, v);
      assert IndexOf(r, k) == i by {
        forall j | 0 <= j < i ensures r[j].key != k { assert r[j] == d[j]; }
      }
    } else {
      var i' := IndexOf(d, k');
      forall j | 0 <= j < |d| ensures r[j].key == k' <==> d[j].key == k' {
        if j == i { assert r[j].key == k; }
      }
      if i' < |d| {
        assert IndexOf(r, k') == i';
        assert r[i'] == d[i'];
      } else {
        assert IndexOf(r, k') == |r|;
      }
    }
  }

  /**
    Writing an existing key overwrites its entry where it stands: every entry
    keeps its position, and only the one with that key changes.
   */
  lemma SetInPlace<V>(d: Dict<V>, k: string, v: V)
    requires DistinctKeys(d)
    requires Get(d, k).Some?
    ensures forall j :: 0 <= j < |d| ==> Set(d, k, v)[j] == (if d[j].key == k then Entry(k, v) else d[j])
  {
    var i := IndexOf(d, k);
    forall j | 0 <= j < |d| ensures Set(d, k, v)[j] == (if d[j].key == k then Entry(k, v) else d[j]) {
      if j != i {
        assert d[j].key != d[i].key;
      }
    }
  }

  /** Writing keeps the object free of duplicate keys. */
  lemma SetKeepsDistinct<V>(d: Dict<V>, k: string, v: V)
    requires DistinctKeys(d)
    ensures DistinctKeys(Set(d, k, v))
  {
  }

  /** Reading a non-empty object looks at its first entry, then at the rest. */
  lemma GetCons<V>(d: Dict<V>, k: string)
    requires d != []
    ensures Get(d, k) == if d[0].key == k then Some(d[0].val) else Get(d[1..], k)
  {
    if d[0].key != k {
      var i := IndexOf(d[1..], k);
      assert IndexOf(d, k) == 1 + i;
      if i < |d[1..]| { assert d[1 + i] == d[1..][i]; }
    }
  }

  /** Reading after a delete: the deleted key is gone, every other key is untouched. */
  lemma {:induction false} GetRemove<V>(d: Dict<V>, k: string, k': string)
    ensures Get(Remove(d, k), k') == if k' == k then None else Get(d, k')
  {
    if d != [] {
      GetRemove(d[1..], k, k');
      GetCons(d, k');
      var rest := Remove(d[1..], k);
      if d[0].key != k {
        var r := [d[0]] + rest;
        assert Remove(d, k) == r;
        assert r[1..] == rest;
        GetCons(r, k');
      } else {
        assert Remove(d, k) == rest;
      }
    }
  }

  /** Deleting keeps the object free of duplicate keys. */
  lemma {:induction false} RemoveKeepsDistinct<V>(d: Dict<V>, k: string)
    requires DistinctKeys(d)
    ensures DistinctKeys(Remove(d, k))
  {
    if d != [] {
      RemoveKeepsDistinct(d[1..], k);
      var rest := Remove(d[1..], k);
      if d[0].key != k {
        forall j | 0 <= j < |rest| ensures rest[j].key != d[0].key {
          assert rest[j] in d[1..];
        }
      }
    }
  }

  /**
    Deleting keeps the remaining entries in their order: deleting from `a + b`
    deletes from `a` and from `b` and leaves the survivors of `a` first.
   */
  lemma {:induction false} RemoveAppend<V>(a: Dict<V>, b: Dict<V>, k: string)
    ensures Remove(a + b, k) == Remove(a, k) + Remove(b, k)
  {
    if a == [] {
      assert a + b == b;
    } else {
      assert (a + b)[0] == a[0];
      assert (a + b)[1..] == a[1..] + b;
      RemoveAppend(a[1..], b, k);
    }
  }

  /**
    An entry that survives a delete keeps the survivors of the entries before
    it in front of it, and the survivors of the entries after it behind it.
   */
  lemma RemoveAround<V>(a: Dict<V>, e: Entry<V>, b: Dict<V>, k: string)
    requires e.key != k
    ensures Remove(a + [e] + b, k) == Remove(a, k) + [e] + Remove(b, k)
  {
    assert Remove([e], k) == [e] by {
      assert [e][1..] == [];
      assert Remove([e], k) == [e] + Remove([], k);
    }
    RemoveAppend(a, [e], k);
    RemoveAppend(a + [e], b, k);
  }

  /** Deleting the same key twice is deleting it once. */
  lemma {:induction false} RemoveIdempotent<V>(d: Dict<V>, k: string)
    ensures Remove(Remove(d, k), k) == Remove(d, k)
  {
    if d != [] {
      RemoveIdempotent(d[1..], k);
      var rest := Remove(d[1..], k);
      if d[0].key != k {
        var r := [d[0]] + rest;
        assert Remove(d, k) == r;
        assert r[1..] == rest;
        assert Remove(r, k) == [d[0]] + Remove(rest, k);
      } else {
        assert Remove(d, k) == rest;
      }
    }
  }

  /** Deleting an absent key changes nothing. */
  lemma {:induction false} RemoveAbsent<V>(d: Dict<V>, k: string)
    requires Get(d, k).None?
    ensures Remove(d, k) == d
  {
    if d != [] {
      RemoveAbsent(d[1..], k);
    }
  }

  /** With distinct keys, a delete of a present key drops exactly one entry. */
  lemma {:induction false} RemovePresentLength<V>(d: Dict<V>, k: string)
    requires DistinctKeys(d)
    requires Get(d, k).Some?
    ensures |Remove(d, k)| == |d| - 1
  {
    if d[0].key == k {
      RemoveAbsent(d[1..], k);
    } else {
      RemovePresentLength(d[1..], k);
    }
  }
}
