/** `java.util.TreeMap<String, V>` as its entry list: `put` keeps the
    entries strictly ascending by key, and `entrySet()` iterates them in
    that order.  The entries are therefore fixed by the key-to-value
    lookup alone, whatever order the keys were put in. */
module TreeMap {
  import opened Wrappers
  import opened JavaString

  type Entries<V> = seq<(string, V)>

  /** Keys strictly ascending: the `TreeMap` invariant. */
  predicate Sorted<V>(e: Entries<V>) {
    forall i, j :: 0 <= i < j < |e| ==> LexLess(e[i].0, e[j].0)
  }

  /** `map.get(q)`, with `None` for an absent key. */
  function Get<V>(e: Entries<V>, q: string): Option<V>
    decreases |e|
  {
    if |e| == 0 then None
    else if e[0].0 == q then Some(e[0].1)
    else Get(e[1..], q)
  }

  /** The keys in iteration order. */
  function Keys<V>(e: Entries<V>): (r: seq<string>)
    ensures |r| == |e| && forall i :: 0 <= i < |e| ==> r[i] == e[i].0
  {
    seq(|e|, i requires 0 <= i < |e| => e[i].0)
  }

  /** `map.put(k, v)`: replaces the value of a present key, otherwise
      inserts the entry before the first greater key. */
  function Put<V>(e: Entries<V>, k: string, v: V): Entries<V>
    decreases |e|
  {
    if |e| == 0 then [(k, v)]
    else if e[0].0 == k then [(k, v)] + e[1..]
    else if LexLess(k, e[0].0) then [(k, v)] + e
    else [e[0]] + Put(e[1..], k, v)
  }

  /** After `put`, `get` sees the new value at `k` and nothing else moves. */
  lemma {:induction false} PutGet<V>(e: Entries<V>, k: string, v: V, q: string)
    ensures Get(Put(e, k, v), q) == if q == k then Some(v) else Get(e, q)
    decreases |e|
  {
    if |e| > 0 && e[0].0 != k && !LexLess(k, e[0].0) {
      PutGet(e[1..], k, v, q);
    }
  }

  /** A key below the first key of a sorted list is absent. */
  lemma {:induction false} GetBelowFirst<V>(e: Entries<V>, q: string)
    requires Sorted(e) && |e| > 0 && LexLess(q, e[0].0)
    ensures Get(e, q) == None
    decreases |e|
  {
    LexLessIrreflexive(q);
    if |e| > 1 {
      LexLessTransitive(q, e[0].0, e[1].0);
      GetBelowFirst(e[1..], q);
    }
  }

  /** A lower bound on every key survives a `put` of a greater key. */
  lemma {:induction false} PutLowerBound<V>(e: Entries<V>, k: string, v: V, x: string)
    requires Sorted(e)
    requires forall i :: 0 <= i < |e| ==> LexLess(x, e[i].0)
    requires LexLess(x, k)
    ensures forall i :: 0 <= i < |Put(e, k, v)| ==> LexLess(x, Put(e, k, v)[i].0)
    decreases |e|
  {
    if |e| > 0 && e[0].0 != k && !LexLess(k, e[0].0) {
      PutLowerBound(e[1..], k, v, x);
    }
  }

  /** `put` keeps the keys strictly ascending. */
  lemma {:induction false} PutSorted<V>(e: Entries<V>, k: string, v: V)
    requires Sorted(e)
    ensures Sorted(Put(e, k, v))
    decreases |e|
  {
    if |e| == 0 {
    } else if e[0].0 == k {
    } else if LexLess(k, e[0].0) {
      forall j | 0 <= j < |e|
        ensures LexLess(k, e[j].0)
      {
        if j > 0 {
          LexLessTransitive(k, e[0].0, e[j].0);
        }
      }
    } else {
      LexLessTotal(k, e[0].0);
      PutSorted(e[1..], k, v);
      PutLowerBound(e[1..], k, v, e[0].0);
    }
  }

  /** A key above every present key is appended at the end. */
  lemma {:induction false} PutAboveAll<V>(e: Entries<V>, k: string, v: V)
    requires forall i :: 0 <= i < |e| ==> LexLess(e[i].0, k)
    ensures Put(e, k, v) == e + [(k, v)]
    decreases |e|
  {
    if |e| > 0 {
      LexLessAsymmetric(e[0].0, k);
      LexLessIrreflexive(k);
      PutAboveAll(e[1..], k, v);
      assert e == [e[0]] + e[1..];
    }
  }

  /** `put` adds exactly one entry for a new key and none for a present one. */
  lemma {:induction false} PutSize<V>(e: Entries<V>, k: string, v: V)
    requires Sorted(e)
    ensures |Put(e, k, v)| == |e| + (if Get(e, k).Some? then 0 else 1)
    decreases |e|
  {
    if |e| > 0 && e[0].0 != k {
      if LexLess(k, e[0].0) {
        GetBelowFirst(e, k);
      } else {
        PutSize(e[1..], k, v);
      }
    }
  }

  /** Two sorted entry lists with the same lookups are the same list. */
  lemma {:induction false} SortedUnique<V>(a: Entries<V>, b: Entries<V>)
    requires Sorted(a) && Sorted(b)
    requires forall q :: Get(a, q) == Get(b, q)
    ensures a == b
    decreases |a|
  {
    if |a| > 0 {
      assert Get(a, a[0].0) == Some(a[0].1);
    }
    if |b| > 0 {
      assert Get(b, b[0].0) == Some(b[0].1);
    }
    if |a| > 0 && |b| > 0 {
      if a[0].0 != b[0].0 {
        LexLessTotal(a[0].0, b[0].0);
        if LexLess(a[0].0, b[0].0) {
          GetBelowFirst(b, a[0].0);
          assert false;
        } else {
          GetBelowFirst(a, b[0].0);
          assert false;
        }
      } else {
        assert Get(a, a[0].0) == Some(a[0].1);
        forall q
          ensures Get(a[1..], q) == Get(b[1..], q)
        {
          if q == a[0].0 {
            if |a| > 1 {
              GetBelowFirst(a[1..], q);
            }
            if |b| > 1 {
              GetBelowFirst(b[1..], q);
            }
          } else {
            assert Get(a, q) == Get(a[1..], q);
            assert Get(b, q) == Get(b[1..], q);
          }
        }
        SortedUnique(a[1..], b[1..]);
        assert a == [a[0]] + a[1..] && b == [b[0]] + b[1..];
      }
    }
  }

  /** Putting two different keys in either order gives the same map; any
      insertion order is a sequence of such swaps. */
  lemma PutCommutes<V>(e: Entries<V>, k1: string, v1: V, k2: string, v2: V)
    requires Sorted(e) && k1 != k2
    ensures Put(Put(e, k1, v1), k2, v2) == Put(Put(e, k2, v2), k1, v1)
  {
    var a := Put(Put(e, k1, v1), k2, v2);
    var b := Put(Put(e, k2, v2), k1, v1);
    PutSorted(e, k1, v1);
    PutSorted(Put(e, k1, v1), k2, v2);
    PutSorted(e, k2, v2);
    PutSorted(Put(e, k2, v2), k1, v1);
    forall q
      ensures Get(a, q) == Get(b, q)
    {
      PutGet(e, k1, v1, q);
      PutGet(Put(e, k1, v1), k2, v2, q);
      PutGet(e, k2, v2, q);
      PutGet(Put(e, k2, v2), k1, v1, q);
    }
    SortedUnique(a, b);
  }

  /** Successive `put`s of a list of entries, first to last. */
  function PutAll<V>(e: Entries<V>, ins: Entries<V>): Entries<V>
    decreases |ins|
  {
    if |ins| == 0 then e else PutAll(Put(e, ins[0].0, ins[0].1), ins[1..])
  }

  predicate DistinctKeys<V>(ins: Entries<V>) {
    forall i, j :: 0 <= i < j < |ins| ==> ins[i].0 != ins[j].0
  }

  lemma {:induction false} PutAllSorted<V>(e: Entries<V>, ins: Entries<V>)
    requires Sorted(e)
    ensures Sorted(PutAll(e, ins))
    decreases |ins|
  {
    if |ins| > 0 {
      PutSorted(e, ins[0].0, ins[0].1);
      PutAllSorted(Put(e, ins[0].0, ins[0].1), ins[1..]);
    }
  }

  /** With distinct keys, each put entry is found, and every other key
      keeps its earlier value. */
  lemma {:induction false} PutAllGet<V>(e: Entries<V>, ins: Entries<V>, q: string)
    requires DistinctKeys(ins)
    ensures forall i :: 0 <= i < |ins| && ins[i].0 == q ==> Get(PutAll(e, ins), q) == Some(ins[i].1)
    ensures (forall i :: 0 <= i < |ins| ==> ins[i].0 != q) ==> Get(PutAll(e, ins), q) == Get(e, q)
    decreases |ins|
  {
    if |ins| > 0 {
      var e1 := Put(e, ins[0].0, ins[0].1);
      var rest := ins[1..];
      PutAllGet(e1, rest, q);
      PutGet(e, ins[0].0, ins[0].1, q);
      if ins[0].0 == q {
        assert forall i :: 0 <= i < |rest| ==> rest[i].0 != q;
      } else {
        assert forall i :: 1 <= i < |ins| ==> ins[i] == rest[i - 1];
      }
    }
  }

  /** A sorted map is the same whatever order its entries were put in. */
  lemma PutAllOrderIndependent<V>(e: Entries<V>, a: Entries<V>, b: Entries<V>)
    requires Sorted(e) && DistinctKeys(a) && DistinctKeys(b)
    requires forall x :: x in a <==> x in b
    ensures PutAll(e, a) == PutAll(e, b)
  {
    PutAllSorted(e, a);
    PutAllSorted(e, b);
    forall q
      ensures Get(PutAll(e, a), q) == Get(PutAll(e, b), q)
    {
      PutAllGet(e, a, q);
      PutAllGet(e, b, q);
      if i :| 0 <= i < |a| && a[i].0 == q {
        assert a[i] in b;
      } else if j :| 0 <= j < |b| && b[j].0 == q {
        assert b[j] in a;
      }
    }
    SortedUnique(PutAll(e, a), PutAll(e, b));
  }

  /** Putting ascending entries, each above everything already present,
      appends them in order. */
  lemma {:induction false} PutAllAscending<V>(e: Entries<V>, ins: Entries<V>)
    requires Sorted(ins)
    requires forall i, j :: 0 <= i < |e| && 0 <= j < |ins| ==> LexLess(e[i].0, ins[j].0)
    ensures PutAll(e, ins) == e + ins
    decreases |ins|
  {
    if |ins| == 0 {
      assert e + ins == e;
    } else {
      PutAboveAll(e, ins[0].0, ins[0].1);
      var e1 := e + [ins[0]];
      forall i, j | 0 <= i < |e1| && 0 <= j < |ins[1..]|
        ensures LexLess(e1[i].0, ins[1..][j].0)
      {
      }
      PutAllAscending(e1, ins[1..]);
      assert e1 + ins[1..] == e + ins;
    }
  }
}
