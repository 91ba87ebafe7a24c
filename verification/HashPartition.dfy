/**
 The bucket chains always partition the elements: by insertion, by deletion, and
 by doubling the bucket array.
 */
module HashPartition {
  import opened Bits
  import opened Sums
  import opened HashModel

  // ----- doubling

  lemma {:induction false} RehashMembers<V>(hash: HashFn, chain: Chain<V>, n: nat, j: nat)
    requires n >= 1
    ensures forall i :: 0 <= i < |Rehash(hash, chain, n, j)| ==>
      Rehash(hash, chain, n, j)[i] in chain && Slot(hash, Rehash(hash, chain, n, j)[i], n) == j
    ensures forall i :: 0 <= i < |chain| && Slot(hash, chain[i], n) == j ==> chain[i] in Rehash(hash, chain, n, j)
  {
    if chain != [] {
      var k := |chain| - 1;
      RehashMembers(hash, chain[..k], n, j);
      assert chain == chain[..k] + [chain[k]];
    }
  }

  lemma {:induction false} RehashDistinct<V>(hash: HashFn, chain: Chain<V>, n: nat, j: nat)
    requires n >= 1 && DistinctKeys(chain)
    ensures DistinctKeys(Rehash(hash, chain, n, j))
  {
    if chain != [] {
      var k := |chain| - 1;
      RehashDistinct(hash, chain[..k], n, j);
      RehashMembers(hash, chain[..k], n, j);
      var done := Rehash(hash, chain[..k], n, j);
      forall i | 0 <= i < |done|
        ensures done[i].key != chain[k].key
      {
        assert done[i] in chain[..k];
      }
    }
  }

  /** Doubling the divisor keeps a remainder or raises it by the old divisor. */
  lemma ModDouble(x: nat, n: nat)
    requires n >= 1
    ensures x % (2 * n) == x % n || x % (2 * n) == x % n + n
    ensures x % (2 * n) % n == x % n
  {
    var q, r := x / (2 * n), x % (2 * n);
    assert x == (2 * n) * q + r;
    if r < n {
      assert x == n * (2 * q) + r;
      DivModUnique(x, n, 2 * q, r);
      DivModUnique(r, n, 0, r);
    } else {
      assert x == n * (2 * q + 1) + (r - n);
      DivModUnique(x, n, 2 * q + 1, r - n);
      DivModUnique(r, n, 1, r - n);
    }
  }

  lemma {:induction false} RehashLengths<V>(hash: HashFn, chain: Chain<V>, n: nat, j: nat)
    requires n >= 1
    requires forall i :: 0 <= i < |chain| ==> Slot(hash, chain[i], n) == j
    ensures |Rehash(hash, chain, 2 * n, j)| + |Rehash(hash, chain, 2 * n, j + n)| == |chain|
  {
    if chain != [] {
      var k := |chain| - 1;
      assert chain[k] in chain;
      ModDouble(hash(chain[k].key), n);
      RehashLengths(hash, chain[..k], n, j);
    }
  }

  lemma SplitCounts<V>(hash: HashFn, chains: seq<Chain<V>>)
    requires chains != []
    requires forall j, i :: 0 <= j < |chains| && 0 <= i < |chains[j]| ==> Slot(hash, chains[j][i], |chains|) == j
    ensures Sum(Counts(Split(hash, chains))) == Sum(Counts(chains))
  {
    var n := |chains|;
    var c := Counts(Split(hash, chains));
    var low, high := c[..n], c[n..];
    forall i | 0 <= i < n
      ensures Counts(chains)[i] == low[i] + high[i]
    {
      RehashLengths(hash, chains[i], n, i);
    }
    SumPointwise(low, high, Counts(chains));
    SumConcat(low, high);
    assert c == low + high;
  }

  /**
   Doubling loses and duplicates nothing: the new chains partition the same
   elements, each in the chain its hash value selects among twice as many.
   */
  lemma SplitPartition<V>(hash: HashFn, order: Chain<V>, chains: seq<Chain<V>>)
    requires chains != [] && Partition(hash, order, chains)
    ensures Partition(hash, order, Split(hash, chains))
  {
    var n, N := |chains|, 2 * |chains|;
    var halves := Split(hash, chains);
    forall j | 0 <= j < N
      ensures ChainOf(hash, order, halves[j], N, j)
    {
      var i := Origin(n, j);
      assert ChainOf(hash, order, chains[i], n, i);
      RehashDistinct(hash, chains[i], N, j);
      RehashMembers(hash, chains[i], N, j);
    }
    forall i | 0 <= i < |order|
      ensures order[i] in halves[Slot(hash, order[i], N)]
    {
      ModDouble(hash(order[i].key), n);
      RehashMembers(hash, chains[Slot(hash, order[i], n)], N, Slot(hash, order[i], N));
    }
    SplitCounts(hash, chains);
  }

  // ----- insertion

  lemma InsertPartition<V>(hash: HashFn, t: Table<V>, e: Elem<V>)
    requires t.Table? && t.chains != [] && Partition(hash, t.order, t.chains)
    requires forall i :: 0 <= i < |t.order| ==> t.order[i].key != e.key
    ensures Partition(hash, Insert(hash, t, e).order, Insert(hash, t, e).chains)
  {
    var n, j := |t.chains|, Slot(hash, e, |t.chains|);
    var order, chains := t.order + [e], t.chains[j := [e] + t.chains[j]];
    forall i | 0 <= i < n
      ensures ChainOf(hash, order, chains[i], n, i)
    {
      assert ChainOf(hash, t.order, t.chains[i], n, i);
    }
    assert Counts(chains) == Counts(t.chains)[j := |t.chains[j]| + 1];
    SumUpdate(Counts(t.chains), j, |t.chains[j]| + 1);
  }

  // ----- deletion

  /** Removing the one occurrence of an element cuts the sequence around it. */
  lemma {:induction false} WithoutCuts<V>(s: Chain<V>, e: Elem<V>, k: nat)
    requires k < |s| && s[k] == e && DistinctKeys(s)
    ensures Without(s, e) == s[..k] + s[k + 1..]
  {
    var n := |s| - 1;
    if k == n {
      assert s[..n] + s[n + 1..] == s[..n];
    } else {
      assert s[k].key != s[n].key;
      WithoutCuts(s[..n], e, k);
      assert s[..n][..k] + s[..n][k + 1..] + [s[n]] == s[..k] + s[k + 1..];
    }
  }

  lemma CutAround<V>(s: Chain<V>, k: nat, r: Chain<V>)
    requires k < |s| && DistinctKeys(s) && r == s[..k] + s[k + 1..]
    ensures |r| == |s| - 1 && DistinctKeys(r)
    ensures forall i :: 0 <= i < |r| ==> r[i] in s && r[i] != s[k]
    ensures forall i :: 0 <= i < |s| && s[i] != s[k] ==> s[i] in r
  {
    assert forall i :: 0 <= i < |r| ==> r[i] == s[if i < k then i else i + 1];
    forall i | 0 <= i < |r|
      ensures r[i] != s[k]
    {
      assert r[i].key != s[k].key;
    }
    forall i | 0 <= i < |s| && s[i] != s[k]
      ensures s[i] in r
    {
      assert s[i] == r[if i < k then i else i - 1];
    }
  }

  lemma WithoutFacts<V>(s: Chain<V>, e: Elem<V>)
    requires e in s && DistinctKeys(s)
    ensures |Without(s, e)| == |s| - 1
    ensures DistinctKeys(Without(s, e))
    ensures forall i :: 0 <= i < |Without(s, e)| ==> Without(s, e)[i] in s && Without(s, e)[i] != e
    ensures forall i :: 0 <= i < |s| && s[i] != e ==> s[i] in Without(s, e)
  {
    var k :| 0 <= k < |s| && s[k] == e;
    WithoutCuts(s, e, k);
    hide Without;
    CutAround(s, k, s[..k] + s[k + 1..]);
  }

  lemma DeletePartition<V>(hash: HashFn, t: Table<V>, e: Elem<V>)
    requires t.Table? && t.chains != [] && Partition(hash, t.order, t.chains)
    requires e in t.order && |t.order| > 1
    ensures Partition(hash, Delete(hash, t, e).order, Delete(hash, t, e).chains)
  {
    var n, j := |t.chains|, Slot(hash, e, |t.chains|);
    var order, chains := Without(t.order, e), t.chains[j := Without(t.chains[j], e)];
    WithoutFacts(t.order, e);
    assert ChainOf(hash, t.order, t.chains[j], n, j);
    WithoutFacts(t.chains[j], e);
    forall i | 0 <= i < n
      ensures ChainOf(hash, order, chains[i], n, i)
    {
      assert ChainOf(hash, t.order, t.chains[i], n, i);
    }
    assert Counts(chains) == Counts(t.chains)[j := |t.chains[j]| - 1];
    SumUpdate(Counts(t.chains), j, |t.chains[j]| - 1);
  }

  // ----- lookup

  lemma {:induction false} FindInFirst<V>(s: Chain<V>, key: Key)
    ensures FindIn(s, key) == null <==> forall i :: 0 <= i < |s| ==> s[i].key != key
    ensures FindIn(s, key) != null ==> FindIn(s, key) in s && FindIn(s, key).key == key
  {
    if s != [] {
      FindInFirst(s[1..], key);
      assert s == [s[0]] + s[1..];
    }
  }

  /** A lookup answers with the element stored under the key, or null when there is none. */
  lemma FindExact<V>(hash: HashFn, t: Table<V>, key: Key)
    requires t.Table? ==> t.chains != [] && Partition(hash, t.order, t.chains)
    ensures forall i :: 0 <= i < |Order(t)| && Order(t)[i].key == key ==> Find(hash, t, key) == Order(t)[i]
    ensures Find(hash, t, key) != null ==> Find(hash, t, key) in Order(t) && Find(hash, t, key).key == key
  {
    if t.Table? {
      var n := |t.chains|;
      var j := hash(key) % n;
      assert ChainOf(hash, t.order, t.chains[j], n, j);
      FindInFirst(t.chains[j], key);
      forall i | 0 <= i < |t.order| && t.order[i].key == key
        ensures Find(hash, t, key) == t.order[i]
      {
        var e := t.order[i];
        assert e in t.chains[Slot(hash, e, n)];
        assert Slot(hash, e, n) == j;
        var f := FindIn(t.chains[j], key);
        SameKeySameElement(t.order, e, f);
      }
    }
  }

  lemma SameKeySameElement<V>(s: Chain<V>, x: Elem<V>, y: Elem<V>)
    requires DistinctKeys(s) && x in s && y in s && x.key == y.key
    ensures x == y
  {
    var i :| 0 <= i < |s| && s[i] == x;
    var j :| 0 <= j < |s| && s[j] == y;
    assert i == j;
  }
}
