/**
 The doubling loop, half way: bucket `i` of the old array is being emptied, and
 `k` of its elements have been moved.
 */
module HashDoubling {
  import opened Bits
  import opened Sums
  import opened HashModel
  import opened HashPartition

  /** What has been moved out of old bucket `c` so far */
  function Moved<V>(chains: seq<Chain<V>>, c: nat, i: nat, k: nat): Chain<V>
    requires c < |chains| && (i < |chains| ==> k <= |chains[i]|)
  {
    if c < i then chains[c] else if c == i then chains[c][..k] else []
  }

  function PartialSplit<V>(hash: HashFn, chains: seq<Chain<V>>, i: nat, k: nat): (r: seq<Chain<V>>)
    requires chains != [] && (i < |chains| ==> k <= |chains[i]|)
    ensures |r| == 2 * |chains|
  {
    seq(2 * |chains|, j requires 0 <= j < 2 * |chains| =>
      Rehash(hash, Moved(chains, Origin(|chains|, j), i, k), 2 * |chains|, j))
  }

  predicate Placed<V>(hash: HashFn, chains: seq<Chain<V>>)
  {
    forall j, m :: 0 <= j < |chains| && 0 <= m < |chains[j]| ==> Slot(hash, chains[j][m], |chains|) == j
  }

  lemma PartialStart<V>(hash: HashFn, chains: seq<Chain<V>>)
    requires chains != []
    ensures PartialSplit(hash, chains, 0, 0) == seq(2 * |chains|, _ => [])
  {
    forall j | 0 <= j < 2 * |chains|
      ensures PartialSplit(hash, chains, 0, 0)[j] == []
    {
      var m := Moved(chains, Origin(|chains|, j), 0, 0);
      assert m == [];
      assert Rehash(hash, m, 2 * |chains|, j) == [];
    }
  }

  lemma PartialNext<V>(hash: HashFn, chains: seq<Chain<V>>, i: nat)
    requires i < |chains|
    ensures PartialSplit(hash, chains, i, |chains[i]|) == PartialSplit(hash, chains, i + 1, 0)
  {
    var N := 2 * |chains|;
    forall j | 0 <= j < N
      ensures PartialSplit(hash, chains, i, |chains[i]|)[j] == PartialSplit(hash, chains, i + 1, 0)[j]
    {
      var c := Origin(|chains|, j);
      assert Moved(chains, c, i, |chains[i]|) == Moved(chains, c, i + 1, 0);
    }
  }

  lemma PartialEnd<V>(hash: HashFn, chains: seq<Chain<V>>)
    requires chains != []
    ensures PartialSplit(hash, chains, |chains|, 0) == Split(hash, chains)
  {
    forall j | 0 <= j < 2 * |chains|
      ensures PartialSplit(hash, chains, |chains|, 0)[j] == Split(hash, chains)[j]
    {
      var c := Origin(|chains|, j);
      assert Moved(chains, c, |chains|, 0) == chains[c];
    }
  }

  lemma PartialPlaced<V>(hash: HashFn, chains: seq<Chain<V>>, i: nat, k: nat)
    requires chains != [] && (i < |chains| ==> k <= |chains[i]|)
    ensures Placed(hash, PartialSplit(hash, chains, i, k))
  {
    var N := 2 * |chains|;
    forall j | 0 <= j < N
      ensures forall m :: 0 <= m < |PartialSplit(hash, chains, i, k)[j]| ==>
        Slot(hash, PartialSplit(hash, chains, i, k)[j][m], N) == j
    {
      RehashMembers(hash, Moved(chains, Origin(|chains|, j), i, k), N, j);
    }
  }

  lemma FreshInPrefix<V>(hash: HashFn, chain: Chain<V>, k: nat, n: nat, j: nat)
    requires k < |chain| && DistinctKeys(chain) && n >= 1
    ensures chain[k] !in Rehash(hash, chain[..k], n, j)
  {
    RehashMembers(hash, chain[..k], n, j);
    var done := Rehash(hash, chain[..k], n, j);
    assert forall m :: 0 <= m < |done| ==> done[m] in chain[..k];
    assert forall i :: 0 <= i < k ==> chain[..k][i].key != chain[k].key;
  }

  lemma RehashStep<V>(hash: HashFn, chain: Chain<V>, k: nat, n: nat, j: nat)
    requires k < |chain| && n >= 1
    ensures Rehash(hash, chain[..k + 1], n, j)
         == if Slot(hash, chain[k], n) == j then [chain[k]] + Rehash(hash, chain[..k], n, j)
            else Rehash(hash, chain[..k], n, j)
  {
    assert chain[..k + 1][..k] == chain[..k];
  }

  /** Moving the next element puts it at the front of one new chain, where it was not before. */
  lemma PartialStep<V>(hash: HashFn, chains: seq<Chain<V>>, i: nat, k: nat)
    requires i < |chains| && k < |chains[i]|
    requires Slot(hash, chains[i][k], |chains|) == i && DistinctKeys(chains[i])
    ensures var e, b := chains[i][k], Slot(hash, chains[i][k], 2 * |chains|);
      && PartialSplit(hash, chains, i, k + 1)
         == PartialSplit(hash, chains, i, k)[b := [e] + PartialSplit(hash, chains, i, k)[b]]
      && e !in PartialSplit(hash, chains, i, k)[b]
  {
    var e, b, N := chains[i][k], Slot(hash, chains[i][k], 2 * |chains|), 2 * |chains|;
    var before, after := PartialSplit(hash, chains, i, k), PartialSplit(hash, chains, i, k + 1);
    ModDouble(hash(e.key), |chains|);
    assert b == i || b == i + |chains|;
    assert Moved(chains, Origin(|chains|, b), i, k) == chains[i][..k];
    FreshInPrefix(hash, chains[i], k, N, b);
    forall j | 0 <= j < N
      ensures after[j] == before[b := [e] + before[b]][j]
    {
      RehashStep(hash, chains[i], k, N, j);
      var c := Origin(|chains|, j);
      assert c != i ==> Moved(chains, c, i, k + 1) == Moved(chains, c, i, k);
      assert c == i ==> Moved(chains, c, i, k + 1) == chains[i][..k + 1];
    }
  }

  lemma PartialDistinct<V>(hash: HashFn, chains: seq<Chain<V>>, i: nat, k: nat, j: nat)
    requires chains != [] && (i < |chains| ==> k <= |chains[i]|) && j < 2 * |chains|
    requires forall c :: 0 <= c < |chains| ==> DistinctKeys(chains[c])
    ensures DistinctKeys(PartialSplit(hash, chains, i, k)[j])
  {
    RehashDistinct(hash, Moved(chains, Origin(|chains|, j), i, k), 2 * |chains|, j);
  }

  /** The element being moved is none of those still to be moved. */
  lemma StillApart<V>(hash: HashFn, chains: seq<Chain<V>>, i: nat, k: nat)
    requires Placed(hash, chains) && i < |chains| && k < |chains[i]| && DistinctKeys(chains[i])
    ensures forall j, m :: 0 <= j < |chains| && 0 <= m < |chains[j]| && (j > i || (j == i && m > k)) ==>
      chains[j][m] != chains[i][k]
  {
  }

  /** One more element in bucket `b`: the count of surplus elements goes up exactly when the bucket is over `ideal`. */
  lemma SurplusStep(counts: seq<nat>, b: nat, ideal: nat)
    requires b < |counts|
    ensures var next := counts[b := counts[b] + 1];
      Sum(Excesses(next, ideal)) == Sum(Excesses(counts, ideal)) + if counts[b] + 1 > ideal then 1 else 0
  {
    var next := counts[b := counts[b] + 1];
    var v := if counts[b] + 1 > ideal then counts[b] + 1 - ideal else 0;
    assert Excesses(next, ideal) == Excesses(counts, ideal)[b := v];
    SumUpdate(Excesses(counts, ideal), b, v);
  }

  /** The shift-and-mask formula for the ideal chain length is the rounded-up quotient. */
  lemma IdealFormula(items: nat, log2: nat)
    ensures Shr(items, log2 + 1) + (if And(items, Pow2(log2) * 2 - 1) != 0 then 1 else 0) == Ceil(items, 2 * Pow2(log2))
  {
    ShrIsDiv(items, log2 + 1);
    MaskIsMod(items, log2 + 1);
    CeilByRemainder(items, Pow2(log2 + 1));
  }
}
