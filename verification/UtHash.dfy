/**
 The table of uthash.h as it is laid out in memory: every element sits in a
 doubly linked list in insertion order and in a doubly linked bucket chain, and
 every operation relinks them in place. `tab` is the value the links represent.
 */
module UtHash {
  import opened Basics
  import opened Bits
  import opened Sums
  import opened HashModel
  import opened HashPartition
  import opened HashDoubling
  import opened HashRuns
  import opened SortModel

  datatype Bucket<V> = Bucket(hhHead: Elem?<V>, count: nat, expandMult: nat)

  function At<V>(s: Chain<V>, i: int): Elem?<V>
  {
    if 0 <= i < |s| then s[i] else null
  }

  /** The bucket array that describes `chains` */
  function Row<V>(chains: seq<Chain<V>>, mults: seq<nat>): (r: seq<Bucket<V>>)
    requires |chains| == |mults|
    ensures |r| == |chains|
  {
    seq(|chains|, j requires 0 <= j < |chains| => Bucket(At(chains[j], 0), |chains[j]|, mults[j]))
  }

  lemma RowUpdate<V>(chains: seq<Chain<V>>, mults: seq<nat>, j: nat, c: Chain<V>)
    requires j < |chains| == |mults|
    ensures Row(chains[j := c], mults) == Row(chains, mults)[j := Bucket(At(c, 0), |c|, mults[j])]
  {
  }

  /** The element at `i` occurs nowhere else in `s`. */
  predicate Lone<V>(s: Chain<V>, i: int)
  {
    0 <= i < |s| ==> forall x :: 0 <= x < |s| && x != i ==> s[x] != s[i]
  }

  lemma DistinctLone<V>(s: Chain<V>)
    requires DistinctKeys(s)
    ensures forall i :: Lone(s, i)
  {
    forall i
      ensures Lone(s, i)
    {
      forall x | 0 <= i < |s| && 0 <= x < |s| && x != i
        ensures s[x] != s[i]
      {
        assert s[if x < i then x else i].key != s[if x < i then i else x].key;
      }
    }
  }

  lemma PartitionPlaced<V>(hash: HashFn, order: Chain<V>, chains: seq<Chain<V>>)
    requires chains != [] && Partition(hash, order, chains)
    ensures Placed(hash, chains)
    ensures forall j :: 0 <= j < |chains| ==> DistinctKeys(chains[j])
  {
    forall j | 0 <= j < |chains|
      ensures ChainOf(hash, order, chains[j], |chains|, j)
    {
    }
  }

  lemma Position<V>(hash: HashFn, t: Table<V>, e: Elem<V>) returns (k: nat, m: nat)
    requires Inv(hash, t) && e in Order(t)
    ensures k < |t.order| && t.order[k] == e && DistinctKeys(t.order)
    ensures var j := Slot(hash, e, |t.chains|);
      m < |t.chains[j]| && t.chains[j][m] == e && DistinctKeys(t.chains[j])
    ensures Placed(hash, t.chains)
  {
    k :| 0 <= k < |t.order| && t.order[k] == e;
    PartitionPlaced(hash, t.order, t.chains);
    var j := Slot(hash, e, |t.chains|);
    m :| 0 <= m < |t.chains[j]| && t.chains[j][m] == e;
  }

  /** A deleted element is in no list of the resulting table. */
  lemma DeletedGone<V>(hash: HashFn, t: Table<V>, e: Elem<V>)
    requires Inv(hash, t) && e in Order(t)
    ensures var u := HashModel.Delete(hash, t, e);
      && Inv(hash, u)
      && (u.Table? ==> e !in u.order && forall j :: 0 <= j < |u.chains| ==> e !in u.chains[j])
  {
    DeleteInv(hash, t, e);
    WithoutFacts(t.order, e);
    if |t.order| > 1 {
      PartitionPlaced(hash, t.order, t.chains);
      WithoutFacts(t.chains[Slot(hash, e, |t.chains|)], e);
    }
  }

  /** What hashes to bucket `b` is not in any other chain. */
  lemma PlacedApart<V>(hash: HashFn, chains: seq<Chain<V>>, e: Elem<V>, b: nat)
    requires b < |chains| && Placed(hash, chains) && Slot(hash, e, |chains|) == b
    ensures forall j, i :: 0 <= j < |chains| && j != b && 0 <= i < |chains[j]| ==>
      chains[j][i] != e && chains[j][i] !in chains[b]
  {
  }

  /** The row of buckets after one more element was put at the front of chain `b` */
  lemma RowStep<V>(done: seq<Chain<V>>, b: nat, e: Elem<V>, ideal: nat)
    requires b < |done|
    ensures Row(done, Mults(Counts(done), ideal))[b] == Bucket(At(done[b], 0), |done[b]|, Mult(|done[b]|, ideal))
    ensures var after := done[b := [e] + done[b]];
      && Row(after, Mults(Counts(after), ideal))
         == Row(done, Mults(Counts(done), ideal))[b := Bucket(e, |done[b]| + 1, Mult(|done[b]| + 1, ideal))]
      && Sum(Excesses(Counts(after), ideal))
         == Sum(Excesses(Counts(done), ideal)) + if |done[b]| + 1 > ideal then 1 else 0
  {
    var after := done[b := [e] + done[b]];
    SurplusStep(Counts(done), b, ideal);
    assert Counts(after) == Counts(done)[b := Counts(done)[b] + 1];
    assert Mults(Counts(after), ideal) == Mults(Counts(done), ideal)[b := Mult(|done[b]| + 1, ideal)];
  }

  lemma FoundIsOrdered<V>(hash: HashFn, t: Table<V>, key: Key)
    requires Inv(hash, t)
    ensures t.Table? ==> t.order != [] && t.chains != []
    ensures var out := HashModel.Find(hash, t, key);
      && (out != null ==> out in Order(t) && out.key == key)
      && (out == null ==> AbsentKey(Order(t), key))
  {
    FindExact(hash, t, key);
  }

  /** What an addition of an absent key may rely on */
  lemma AddFacts<V>(hash: HashFn, t: Table<V>, e: Elem<V>)
    requires Inv(hash, t) && AbsentKey(Order(t), e.key)
    ensures Inv(hash, HashModel.Add(hash, t, e)) && HashModel.Add(hash, t, e).Table?
    ensures t.Table? ==> t.order != [] && e !in t.order && Lone(t.order, |t.order| - 1)
    ensures var u := Ready(t); var j := Slot(hash, e, |u.chains|);
      && e !in u.chains[j] && Lone(u.chains[j], 0)
      && Placed(hash, u.chains) && Placed(hash, Insert(hash, u, e).chains)
      && (forall j :: 0 <= j < |u.chains| ==> DistinctKeys(Insert(hash, u, e).chains[j]))
    ensures var u := Ready(t); u.Table? && u.chains != [] && |u.mults| == |u.chains|
    ensures HashModel.Add(hash, t, e).order == Ready(t).order + [e]
  {
    AddInv(hash, t, e);
    var u := Ready(t);
    var j := Slot(hash, e, |u.chains|);
    InsertPartition(hash, u, e);
    PartitionPlaced(hash, u.order, u.chains);
    PartitionPlaced(hash, Insert(hash, u, e).order, Insert(hash, u, e).chains);
    assert ChainOf(hash, u.order, u.chains[j], |u.chains|, j);
    DistinctLone(u.chains[j]);
    DistinctLone(u.order);
  }

  lemma FreshShape<V>()
    ensures var t := FreshTable<V>();
      && t.Table? && t.order == []
      && |t.chains| == |t.mults| == Pow2(t.log2) == INITIAL_NUM_BUCKETS
      && forall j :: 0 <= j < |t.chains| ==> t.chains[j] == []
  {
    assert Pow2(5) == 2 * Pow2(4) == 4 * Pow2(3) == 8 * Pow2(2);
  }

  lemma MergeNil<V>(le: LeFn<Elem<V>>, done: Chain<V>, rest: Chain<V>)
    ensures done + Merge(le, [], []) == done
    ensures [] + rest == rest
    ensures done + [] + [] + rest == done + rest
  {
  }

  /** The next element of a merge comes from the first run. */
  lemma TakeP<V>(le: LeFn<Elem<V>>, done: Chain<V>, ps: Chain<V>, qs: Chain<V>, rest: Chain<V>)
    requires ps != [] && (qs == [] || le(ps[0], qs[0]))
    requires NoRepeat(done + ps + qs + rest)
    ensures done + Merge(le, ps, qs) == done + [ps[0]] + Merge(le, ps[1..], qs)
    ensures NoRepeat(done + [ps[0]] + ps[1..] + qs + rest)
    ensures Apart(done, ps[0], ps[1..], qs + rest)
  {
    var e, later := ps[0], ps[1..];
    var m := Merge(le, later, qs);
    assert Merge(le, ps, qs) == [e] + m;
    HeadTail(ps);
    hide Merge, NoRepeat, Apart;
    Assoc(done, [e], m);
    Assoc(done, [e], later);
    Assoc(done + [e] + later, qs, rest);
    ApartAt(done + [e] + later + (qs + rest), done, e, later, qs + rest);
  }

  /** The next element of a merge comes from the second run. */
  lemma TakeQ<V>(le: LeFn<Elem<V>>, done: Chain<V>, ps: Chain<V>, qs: Chain<V>, rest: Chain<V>)
    requires qs != [] && (ps == [] || !le(ps[0], qs[0]))
    requires NoRepeat(done + ps + qs + rest)
    ensures done + Merge(le, ps, qs) == done + [qs[0]] + Merge(le, ps, qs[1..])
    ensures NoRepeat(done + [qs[0]] + ps + qs[1..] + rest)
    ensures Apart(done, qs[0], ps, qs[1..] + rest)
  {
    var e, later := qs[0], qs[1..];
    var m := Merge(le, ps, later);
    assert Merge(le, ps, qs) == [e] + m by {
      if ps == [] {
        HeadTail(qs);
      }
    }
    HeadTail(qs);
    hide Merge, NoRepeat, Apart;
    Assoc(done, [e], m);
    Assoc(done + ps, [e], later);
    Assoc(done + ps + [e], later, rest);
    NoRepeatMove(done, ps, e, later + rest);
    Assoc(done + [e] + ps, later, rest);
    ApartAt(done + [e] + ps + (later + rest), done, e, ps, later + rest);
  }

  lemma ConcatTail<V>(qs: Chain<V>, rest: Chain<V>)
    requires qs != []
    ensures (qs + rest)[1..] == qs[1..] + rest && (qs + rest)[0] == qs[0]
  {
  }

  lemma NoRepeatLone<V>(s: Chain<V>)
    requires NoRepeat(s)
    ensures Lone(s, |s| - 1)
  {
  }

  lemma PassesOnce<V>(le: LeFn<Elem<V>>, s: Chain<V>, k: nat)
    requires k >= 1
    ensures Merges(|s|, k) <= 1 ==> Passes(le, s, k) == Pass(le, s, k)
    ensures Merges(|s|, k) > 1 ==> Passes(le, s, k) == Passes(le, Pass(le, s, k), 2 * k)
    ensures Merges(|s|, k) > 1 ==> |s| > 2 * k
  {
  }

  /** Rearranging the insertion order leaves everything else about the table as it was. */
  lemma SortInv<V>(hash: HashFn, t: Table<V>, le: LeFn<Elem<V>>)
    requires t.Table? && Inv(hash, t)
    ensures Inv(hash, t.(order := Passes(le, t.order, 1)))
    ensures t.order != [] && NoRepeat(t.order)
  {
    DistinctNoRepeat(t.order);
    SortIsStable(le, t.order);
    RearrangedPartition(hash, t.order, Passes(le, t.order, 1), t.chains);
  }

  lemma DistinctNoRepeat<V>(s: Chain<V>)
    requires DistinctKeys(s)
    ensures NoRepeat(s)
  {
    forall i, j | 0 <= i < j < |s|
      ensures s[i] != s[j]
    {
      assert s[i].key != s[j].key;
    }
  }

  lemma PassNil<V>(le: LeFn<Elem<V>>, k: nat)
    requires k >= 1
    ensures Pass(le, [], k) == [] && Merges(0, k) == 0
  {
  }

  lemma PassStep<V>(le: LeFn<Elem<V>>, done: Chain<V>, rest: Chain<V>, k: nat)
    requires k >= 1 && rest != []
    ensures var c := TakeRuns(rest, k);
      done + Pass(le, rest, k) == done + Merge(le, c.p, c.q) + Pass(le, c.rest, k)
  {
    var c := TakeRuns(rest, k);
    var merged, later := Merge(le, c.p, c.q), Pass(le, c.rest, k);
    assert Pass(le, rest, k) == merged + later;
    hide Pass, Merge, TakeRuns;
    Assoc(done, merged, later);
  }

  lemma Pieces<V>(p: Chain<V>, q: Chain<V>, rest: Chain<V>)
    ensures var qs := q + rest;
      |qs| == |q| + |rest| && qs[..|q|] == q && qs[|q|..] == rest && At(qs, |q|) == At(rest, 0)
    ensures At(p + (q + rest), |p|) == At(q + rest, 0)
    ensures p != [] ==> (p + (q + rest))[0] == p[0]
  {
  }

  lemma CutFacts<V>(done: Chain<V>, s: Chain<V>, k: nat)
    requires k >= 1 && s != []
    ensures var c := TakeRuns(s, k); var qs := c.q + c.rest;
      && |c.p| == Min(k, |s|) && c.p != [] && c.p[0] == s[0] && At(s, |c.p|) == At(qs, 0)
      && |c.q| == Min(k, |qs|) && qs[..|c.q|] == c.q && qs[|c.q|..] == c.rest && At(qs, |c.q|) == At(c.rest, 0)
      && done + c.p + qs == done + s
  {
    hide TakeRuns, At;
    var c := TakeRuns(s, k);
    Assoc(c.p, c.q, c.rest);
    Pieces(c.p, c.q, c.rest);
    Assoc(done, c.p, c.q + c.rest);
  }

  lemma MergesStep<V>(rest: Chain<V>, k: nat)
    requires k >= 1 && rest != []
    ensures Merges(|rest|, k) == 1 + Merges(|TakeRuns(rest, k).rest|, k)
  {
    var c := TakeRuns(rest, k);
    hide TakeRuns;
    assert |rest| == |c.p| + |c.q| + |c.rest|;
    if |rest| <= 2 * k {
      assert |c.rest| == 0;
    } else {
      assert |c.rest| == |rest| - 2 * k;
    }
  }

  lemma RearrangedPartition<V>(hash: HashFn, order: Chain<V>, r: Chain<V>, chains: seq<Chain<V>>)
    requires chains != [] && Partition(hash, order, chains) && multiset(r) == multiset(order) && |r| == |order|
    ensures Partition(hash, r, chains)
  {
    forall i | 0 <= i < |r|
      ensures r[i] in order
    {
      assert r[i] in multiset(r);
    }
    forall i | 0 <= i < |order|
      ensures order[i] in r
    {
      assert order[i] in multiset(order);
    }
    RearrangedDistinct(order, r);
    forall j | 0 <= j < |chains|
      ensures ChainOf(hash, r, chains[j], |chains|, j)
    {
      assert ChainOf(hash, order, chains[j], |chains|, j);
    }
  }

  lemma RearrangedDistinct<V>(order: Chain<V>, r: Chain<V>)
    requires DistinctKeys(order) && multiset(r) == multiset(order)
    requires forall i :: 0 <= i < |r| ==> r[i] in order
    ensures DistinctKeys(r)
  {
    forall i, j | 0 <= i < j < |r|
      ensures r[i].key != r[j].key
    {
      if r[i].key == r[j].key {
        SameKeySameElement(order, r[i], r[j]);
        OccursTwice(r, i, j);
        OccursOnce(order, r[i]);
      }
    }
  }

  lemma OccursTwice<V>(s: Chain<V>, i: nat, j: nat)
    requires i < j < |s| && s[i] == s[j]
    ensures multiset(s)[s[i]] >= 2
  {
    assert s == s[..j] + [s[j]] + s[j + 1..];
    assert s[..j][i] == s[i];
    assert s[i] in multiset(s[..j]);
  }

  lemma {:induction false} OccursOnce<V>(s: Chain<V>, e: Elem<V>)
    requires DistinctKeys(s)
    ensures multiset(s)[e] <= 1
  {
    if s != [] {
      var n := |s| - 1;
      assert s == s[..n] + [s[n]];
      OccursOnce(s[..n], e);
      if s[n] == e {
        assert e !in s[..n];
        assert e !in multiset(s[..n]);
      }
    }
  }

  /** Writing to `e` and to the end of `done` touches nothing of what is still to be merged. */
  predicate Apart<V>(done: Chain<V>, e: Elem<V>, ps: Chain<V>, qs: Chain<V>)
  {
    && e !in done && Lone(done, |done| - 1)
    && (forall i :: 0 <= i < |ps| ==> ps[i] !in done)
    && (forall i :: 0 <= i < |qs| ==> qs[i] !in done)
  }

  lemma ApartAt<V>(s: Chain<V>, done: Chain<V>, e: Elem<V>, ps: Chain<V>, qs: Chain<V>)
    requires NoRepeat(s) && s == done + [e] + ps + qs
    ensures Apart(done, e, ps, qs)
  {
    var n := |done|;
    assert s[n] == e;
    assert forall i :: 0 <= i < n ==> s[i] == done[i];
    assert forall i :: 0 <= i < |ps| ==> s[n + 1 + i] == ps[i];
    assert forall i :: 0 <= i < |qs| ==> s[n + 1 + |ps| + i] == qs[i];
  }

  class Hash<V> {
    const hash: HashFn
    var head: Elem?<V>
    var tail: Elem?<V>
    var buckets: array?<Bucket<V>>
    var numBuckets: nat
    var log2NumBuckets: nat
    var numItems: nat
    var idealChainMaxlen: nat
    var nonidealItems: nat
    var ineffExpands: nat
    var noexpand: bool
    ghost var tab: Table<V>
    ghost var nodes: set<Elem<V>>  // the elements whose links the table owns

    /** The insertion-order list is `s`. */
    ghost predicate AppRep(s: Chain<V>)
      reads this`head, this`tail, this`nodes, nodes`prev, nodes`next
    {
      && head == At(s, 0)
      && tail == At(s, |s| - 1)
      && (forall i :: 0 <= i < |s| ==> s[i] in nodes)
      && (forall i {:trigger s[i].prev} :: 0 <= i < |s| ==> s[i].prev == At(s, i - 1))
      && (forall i {:trigger s[i].next} :: 0 <= i < |s| ==> s[i].next == At(s, i + 1))
    }

    ghost predicate HhLinked(s: Chain<V>)
      reads this`nodes, nodes`hhPrev, nodes`hhNext
    {
      && (forall i :: 0 <= i < |s| ==> s[i] in nodes)
      && (forall i {:trigger s[i].hhPrev} :: 0 <= i < |s| ==> s[i].hhPrev == At(s, i - 1))
      && (forall i {:trigger s[i].hhNext} :: 0 <= i < |s| ==> s[i].hhNext == At(s, i + 1))
    }

    ghost predicate NodesHashed()
      reads this`nodes, nodes`hashv
    {
      forall x :: x in nodes ==> x.hashv == hash(x.key)
    }

    ghost predicate ChainsLinked(chains: seq<Chain<V>>)
      reads this`nodes, nodes`hhPrev, nodes`hhNext
    {
      forall j :: 0 <= j < |chains| ==> HhLinked(chains[j])
    }

    /** The bucket array and the counters beside it are those of `t`. */
    ghost predicate BktRep(t: Table<V>)
      requires t.Table?
      reads this`buckets, this`numBuckets, this`log2NumBuckets, this`numItems, this`idealChainMaxlen
      reads this`nonidealItems, this`ineffExpands, this`noexpand, buckets
    {
      && |t.chains| == |t.mults| == Pow2(t.log2) == numBuckets
      && log2NumBuckets == t.log2
      && numItems == |t.order|
      && idealChainMaxlen == t.ideal
      && nonidealItems == t.nonideal
      && ineffExpands == t.ineff
      && noexpand == t.noexpand
      && buckets != null
      && buckets[..] == Row(t.chains, t.mults)
    }

    /** The memory represents `t`. */
    ghost predicate Rep(t: Table<V>)
      reads this, buckets, nodes
    {
      && NodesHashed()
      && match t
         case NoTable => head == null
         case Table(_, order, chains, _, _, _, _, _) => AppRep(order) && BktRep(t) && ChainsLinked(chains)
    }

    ghost predicate Valid()
      reads this, buckets, nodes
    {
      Inv(hash, tab) && Rep(tab)
    }

    constructor (hash: HashFn)
      ensures Valid() && tab == NoTable && nodes == {} && buckets == null && this.hash == hash
    {
      this.hash := hash;
      head, tail, buckets := null, null, null;
      numBuckets, log2NumBuckets, numItems := 0, 0, 0;
      idealChainMaxlen, nonidealItems, ineffExpands, noexpand := 0, 0, 0, false;
      tab, nodes := NoTable, {};
    }

    /** HASH_FIND_IN_BKT: walk the chain that starts at `first` */
    method FindInBkt(first: Elem?<V>, key: Key, ghost chain: Chain<V>) returns (out: Elem?<V>)
      requires first == At(chain, 0) && HhLinked(chain)
      ensures out == FindIn(chain, key)
    {
      out := first;
      ghost var k := 0;
      while out != null
        invariant k <= |chain| && out == At(chain, k)
        invariant FindIn(chain, key) == FindIn(chain[k..], key)
        decreases |chain| - k
      {
        if out.key == key {
          break;
        }
        assert chain[k..][1..] == chain[k + 1..];
        out, k := out.hhNext, k + 1;
      }
    }

    /** HASH_FIND */
    method Find(key: Key) returns (out: Elem?<V>)
      requires Valid()
      ensures out == HashModel.Find(hash, tab, key)
      ensures out != null ==> out in Order(tab) && out.key == key
      ensures out == null ==> AbsentKey(Order(tab), key)
    {
      hide Inv, Partition, FindIn, AbsentKey;
      FoundIsOrdered(hash, tab, key);
      out := null;
      if head != null {
        MaskIsMod(hash(key), log2NumBuckets);
        var bkt := And(hash(key), numBuckets - 1);
        out := FindInBkt(buckets[bkt].hhHead, key, tab.chains[bkt]);
      }
    }

    /** HASH_COUNT */
    method Count() returns (n: nat)
      requires Valid()
      ensures n == |Order(tab)|
    {
      n := if head != null then numItems else 0;
    }

    /** Patch the neighbours of `e` in its bucket chain */
    method UnlinkHh(e: Elem<V>, ghost chain: Chain<V>, ghost m: nat)
      requires m < |chain| && chain[m] == e && HhLinked(chain)
      requires Lone(chain, m - 1) && Lone(chain, m) && Lone(chain, m + 1)
      modifies nodes`hhPrev, nodes`hhNext
      ensures HhLinked(chain[..m] + chain[m + 1..])
      ensures forall x :: x in nodes && x !in chain ==> x.hhPrev == old(x.hhPrev) && x.hhNext == old(x.hhNext)
    {
      ghost var rest := chain[..m] + chain[m + 1..];
      assert forall i :: 0 <= i < |rest| ==> rest[i] == chain[if i < m then i else i + 1];
      if e.hhPrev != null {
        e.hhPrev.hhNext := e.hhNext;
      }
      if e.hhNext != null {
        e.hhNext.hhPrev := e.hhPrev;
      }
      assert forall i {:trigger rest[i].hhPrev} :: 0 <= i < |rest| ==> rest[i].hhPrev == At(rest, i - 1);
      assert forall i {:trigger rest[i].hhNext} :: 0 <= i < |rest| ==> rest[i].hhNext == At(rest, i + 1);
    }

    /** HASH_DEL_IN_BKT on bucket `bkt`, whose chain holds `e` at position `m` */
    method DelInBkt(bkt: nat, e: Elem<V>, ghost chains: seq<Chain<V>>, ghost m: nat)
      requires ChainsLinked(chains)
      requires bkt < |chains| && m < |chains[bkt]| && chains[bkt][m] == e && DistinctKeys(chains[bkt])
      requires Placed(hash, chains)
      requires buckets != null && buckets.Length == |chains|
      requires buckets[bkt].hhHead == chains[bkt][0] && buckets[bkt].count == |chains[bkt]|
      modifies buckets, nodes`hhPrev, nodes`hhNext
      ensures var rest := Without(chains[bkt], e);
        && ChainsLinked(chains[bkt := rest])
        && buckets[..] == old(buckets[..])[bkt := Bucket(At(rest, 0), |rest|, old(buckets[bkt]).expandMult)]
    {
      ghost var chain, rest := chains[bkt], Without(chains[bkt], e);
      WithoutCuts(chain, e, m);
      DistinctLone(chain);
      assert rest == chain[..m] + chain[m + 1..];
      PlacedApart(hash, chains, e, bkt);
      hide Placed, DistinctKeys, Without, Slot;
      var b := buckets[bkt];
      b := b.(count := b.count - 1);
      if b.hhHead == e {
        assert Lone(chain, m);
        b := b.(hhHead := e.hhNext);
      }
      assert b.hhHead == At(rest, 0) && b.count == |rest|;
      buckets[bkt] := b;
      assert buckets[..] == old(buckets[..])[bkt := b];
      UnlinkHh(e, chain, m);
      assert HhLinked(rest);
      forall j | 0 <= j < |chains| && j != bkt
        ensures HhLinked(chains[j])
      {
        assert old(HhLinked(chains[j]));
        assert forall i :: 0 <= i < |chains[j]| ==> chains[j][i] in nodes && chains[j][i] !in chain;
      }
      assert forall j :: 0 <= j < |chains| && j != bkt ==> HhLinked(chains[j]);
      hide HhLinked;
    }

    /** Take `e` out of the insertion-order list, as position `k` of at least two */
    method UnlinkApp(e: Elem<V>, ghost s: Chain<V>, ghost k: nat)
      requires AppRep(s) && |s| > 1 && k < |s| && s[k] == e
      requires Lone(s, k - 1) && Lone(s, k) && Lone(s, k + 1)
      modifies this`head, this`tail, nodes`prev, nodes`next
      ensures AppRep(s[..k] + s[k + 1..])
    {
      ghost var rest := s[..k] + s[k + 1..];
      assert forall i :: 0 <= i < |rest| ==> rest[i] == s[if i < k then i else i + 1];
      if e == tail {
        tail := e.prev;
      }
      if e.prev != null {
        e.prev.next := e.next;
      } else {
        head := e.next;
      }
      if e.next != null {
        e.next.prev := e.prev;
      }
      assert forall i {:trigger rest[i].prev} :: 0 <= i < |rest| ==> rest[i].prev == At(rest, i - 1);
      assert forall i {:trigger rest[i].next} :: 0 <= i < |rest| ==> rest[i].next == At(rest, i + 1);
    }

    lemma InOrder(s: Chain<V>, k: nat)
      requires AppRep(s) && k < |s|
      ensures s[k] in nodes
    {
    }

    /** HASH_DELETE where `e`, at position `k` of the list, is not the only element */
    method DeleteOneOfMany(e: Elem<V>, ghost t: Table<V>, ghost k: nat, ghost m: nat)
      requires t.Table? && AppRep(t.order) && BktRep(t) && ChainsLinked(t.chains) && NodesHashed()
      requires |t.order| > 1 && k < |t.order| && t.order[k] == e && DistinctKeys(t.order)
      requires var j := hash(e.key) % Pow2(t.log2);
        m < |t.chains[j]| && t.chains[j][m] == e && DistinctKeys(t.chains[j])
      requires t.chains != [] && Placed(hash, t.chains)
      modifies this`head, this`tail, this`numItems, buckets
      modifies nodes`prev, nodes`next, nodes`hhPrev, nodes`hhNext
      ensures var u := HashModel.Delete(hash, t, e);
        u.Table? && AppRep(u.order) && BktRep(u) && ChainsLinked(u.chains)
    {
      hide Lone, Without, AppRep, ChainsLinked, DistinctKeys, Placed;
      InOrder(t.order, k);
      ghost var u := HashModel.Delete(hash, t, e);
      assert e.hashv == hash(e.key);
      MaskIsMod(e.hashv, log2NumBuckets);
      var bkt := And(e.hashv, numBuckets - 1);
      assert bkt == Slot(hash, e, |t.chains|);
      WithoutCuts(t.order, e, k);
      DistinctLone(t.order);
      RowUpdate(t.chains, t.mults, bkt, u.chains[bkt]);
      assert buckets[bkt] == Row(t.chains, t.mults)[bkt];
      hide Row;
      UnlinkApp(e, t.order, k);
      DelInBkt(bkt, e, t.chains, m);
      numItems := numItems - 1;
    }

    /** The element `e` is no longer linked anywhere: its links are not the table's any more. */
    ghost method Forget(e: Elem<V>, t: Table<V>)
      requires Rep(t) && (t.Table? ==> e !in t.order && forall j :: 0 <= j < |t.chains| ==> e !in t.chains[j])
      modifies this`nodes
      ensures Rep(t) && nodes == old(nodes) - {e}
    {
      nodes := nodes - {e};
      if t.Table? {
        forall j | 0 <= j < |t.chains|
          ensures HhLinked(t.chains[j])
        {
          assert old(HhLinked(t.chains[j]));
        }
      }
    }

    /** HASH_DELETE on the links, `e` being at position `k` of its list and `m` of its chain */
    method DeleteLinks(e: Elem<V>, ghost t: Table<V>, ghost k: nat, ghost m: nat)
      requires t.Table? && Rep(t)
      requires k < |t.order| && t.order[k] == e && DistinctKeys(t.order)
      requires var j := hash(e.key) % Pow2(t.log2);
        |t.chains| == Pow2(t.log2) && m < |t.chains[j]| && t.chains[j][m] == e && DistinctKeys(t.chains[j])
      requires Placed(hash, t.chains)
      modifies this`head, this`tail, this`numItems, this`buckets, buckets
      modifies nodes`prev, nodes`next, nodes`hhPrev, nodes`hhNext
      ensures Rep(HashModel.Delete(hash, t, e)) && (buckets == old(buckets) || buckets == null)
    {
      if e.prev == null && e.next == null {
        buckets := null;
        head := null;
        assert k == 0 && |t.order| == 1;
      } else {
        assert |t.order| > 1;
        DeleteOneOfMany(e, t, k, m);
      }
    }

    /** HASH_DELETE */
    method Delete(e: Elem<V>)
      requires Valid() && e in Order(tab)
      modifies this, buckets, nodes`prev, nodes`next, nodes`hhPrev, nodes`hhNext
      ensures Valid() && tab == HashModel.Delete(hash, old(tab), e)
      ensures nodes == old(nodes) - {e} && (buckets == old(buckets) || buckets == null)
    {
      hide Inv, HashModel.Delete;
      ghost var t := tab;
      ghost var k, m := Position(hash, t, e);
      DeleteLinks(e, t, k, m);
      DeletedGone(hash, t, e);
      tab := HashModel.Delete(hash, t, e);
      Forget(e, tab);
    }

    /** Put `e` at the front of a bucket chain */
    method LinkHh(first: Elem?<V>, e: Elem<V>, ghost chain: Chain<V>)
      requires HhLinked(chain) && first == At(chain, 0) && e in nodes && e !in chain
      requires Lone(chain, 0)
      modifies e`hhPrev, e`hhNext, nodes`hhPrev
      ensures HhLinked([e] + chain)
      ensures forall x :: x in nodes && x != e ==> x.hhNext == old(x.hhNext)
      ensures forall x :: x in nodes && x != e && x !in chain ==> x.hhPrev == old(x.hhPrev)
    {
      e.hhPrev := null;
      e.hhNext := first;
      if first != null {
        first.hhPrev := e;
      }
    }

    /** The new bucket array `nb` describes `done`, and `nonidealItems` counts its surplus elements. */
    ghost predicate Filled(nb: array<Bucket<V>>, done: seq<Chain<V>>)
      reads this`idealChainMaxlen, this`nonidealItems, nb
    {
      && nb[..] == Row(done, Mults(Counts(done), idealChainMaxlen))
      && nonidealItems == Sum(Excesses(Counts(done), idealChainMaxlen))
    }

    /** Count one more element in a new bucket, and whether it is one too many */
    method CountIn(b: Bucket<V>) returns (r: Bucket<V>)
      requires idealChainMaxlen >= 1 && b.expandMult == Mult(b.count, idealChainMaxlen)
      modifies this`nonidealItems
      ensures r == Bucket(b.hhHead, b.count + 1, Mult(b.count + 1, idealChainMaxlen))
      ensures nonidealItems == old(nonidealItems) + if b.count + 1 > idealChainMaxlen then 1 else 0
    {
      r := b.(count := b.count + 1);
      if r.count > idealChainMaxlen {
        nonidealItems := nonidealItems + 1;
        r := r.(expandMult := r.count / idealChainMaxlen);
      }
    }

    /** Put `e` at the front of chain `b` among the chains it hashes into */
    method LinkIn(first: Elem?<V>, e: Elem<V>, ghost chains: seq<Chain<V>>, ghost b: nat)
      requires ChainsLinked(chains) && Placed(hash, chains) && e in nodes
      requires b < |chains| && b == Slot(hash, e, |chains|) && first == At(chains[b], 0)
      requires e !in chains[b] && Lone(chains[b], 0)
      modifies nodes`hhPrev, nodes`hhNext
      ensures ChainsLinked(chains[b := [e] + chains[b]])
      ensures forall x :: x in nodes && x != e ==> x.hhNext == old(x.hhNext)
    {
      PlacedApart(hash, chains, e, b);
      hide Placed, Lone, Slot;
      LinkHh(first, e, chains[b]);
      ghost var after := chains[b := [e] + chains[b]];
      forall j | 0 <= j < |after|
        ensures HhLinked(after[j])
      {
        assert j != b ==> old(HhLinked(chains[j]));
      }
    }

    /** The body of the innermost loop of HASH_EXPAND_BUCKETS: move `thh` to its new bucket */
    method MoveOne(nb: array<Bucket<V>>, thh: Elem<V>, ghost done: seq<Chain<V>>)
      requires numBuckets == Pow2(log2NumBuckets) && |done| == nb.Length == 2 * numBuckets && idealChainMaxlen >= 1
      requires NodesHashed() && thh in nodes
      requires Placed(hash, done) && ChainsLinked(done) && Filled(nb, done)
      requires thh !in done[Slot(hash, thh, |done|)] && Lone(done[Slot(hash, thh, |done|)], 0)
      modifies nb, this`nonidealItems, nodes`hhPrev, nodes`hhNext
      ensures var b := Slot(hash, thh, |done|);
        ChainsLinked(done[b := [thh] + done[b]]) && Filled(nb, done[b := [thh] + done[b]])
      ensures forall x :: x in nodes && x != thh ==> x.hhNext == old(x.hhNext)
    {
      hide Mults, Excesses, Counts, Sum, Row, Lone, Placed, ChainsLinked, Mult;
      MaskIsMod(thh.hashv, log2NumBuckets + 1);
      var bkt := And(thh.hashv, numBuckets * 2 - 1);
      RowStep(done, bkt, thh, idealChainMaxlen);
      var newbkt := CountIn(nb[bkt]);
      LinkIn(newbkt.hhHead, thh, done, bkt);
      nb[bkt] := newbkt.(hhHead := thh);
    }

    /** From position `k` of old bucket `i` on, the old chains can still be walked. */
    ghost predicate Unmoved(chains: seq<Chain<V>>, i: nat, k: nat)
      reads this`nodes, nodes`hhNext
    {
      forall j, m :: 0 <= j < |chains| && 0 <= m < |chains[j]| && (j > i || (j == i && m >= k)) ==>
        chains[j][m] in nodes && chains[j][m].hhNext == At(chains[j], m + 1)
    }

    /** Where the doubling loop stands when `k` elements of old bucket `i` have been moved to `nb` */
    ghost predicate Doubling(nb: array<Bucket<V>>, chains: seq<Chain<V>>, i: nat, k: nat)
      requires chains != [] && (i < |chains| ==> k <= |chains[i]|)
      reads this`idealChainMaxlen, this`nonidealItems, nb, this`nodes, nodes`hhPrev, nodes`hhNext
    {
      && ChainsLinked(PartialSplit(hash, chains, i, k))
      && Filled(nb, PartialSplit(hash, chains, i, k))
      && Unmoved(chains, i, k)
    }

    /** One turn of the inner loop, as a step of the whole doubling */
    method MoveNext(nb: array<Bucket<V>>, thh: Elem<V>, ghost chains: seq<Chain<V>>, ghost i: nat, ghost k: nat)
      requires numBuckets == Pow2(log2NumBuckets) == |chains| && nb.Length == 2 * numBuckets && idealChainMaxlen >= 1
      requires NodesHashed() && Placed(hash, chains) && i < |chains| && k < |chains[i]| && thh == chains[i][k]
      requires forall j :: 0 <= j < |chains| ==> DistinctKeys(chains[j])
      requires Doubling(nb, chains, i, k)
      modifies nb, this`nonidealItems, nodes`hhPrev, nodes`hhNext
      ensures Doubling(nb, chains, i, k + 1)
    {
      ghost var done := PartialSplit(hash, chains, i, k);
      ghost var b := Slot(hash, thh, |done|);
      PartialStep(hash, chains, i, k);
      PartialPlaced(hash, chains, i, k);
      PartialDistinct(hash, chains, i, k, b);
      DistinctLone(done[b]);
      StillApart(hash, chains, i, k);
      hide PartialSplit, Placed, ChainsLinked, Filled, DistinctKeys, Lone, Slot;
      MoveOne(nb, thh, done);
    }

    /** Empty old bucket `i` into the new array */
    method EmptyBucket(nb: array<Bucket<V>>, i: nat, ghost chains: seq<Chain<V>>)
      requires numBuckets == Pow2(log2NumBuckets) == |chains| && nb.Length == 2 * numBuckets && idealChainMaxlen >= 1
      requires NodesHashed() && Placed(hash, chains) && i < |chains|
      requires forall j :: 0 <= j < |chains| ==> DistinctKeys(chains[j])
      requires buckets != null && nb != buckets && i < buckets.Length && buckets[i].hhHead == At(chains[i], 0)
      requires Doubling(nb, chains, i, 0)
      modifies nb, this`nonidealItems, nodes`hhPrev, nodes`hhNext
      ensures Doubling(nb, chains, i + 1, 0)
    {
      var thh := buckets[i].hhHead;
      ghost var k := 0;
      while thh != null
        invariant k <= |chains[i]| && thh == At(chains[i], k)
        invariant Doubling(nb, chains, i, k)
        decreases |chains[i]| - k
      {
        var hhNxt := thh.hhNext;
        assert hhNxt == At(chains[i], k + 1);
        MoveNext(nb, thh, chains, i, k);
        thh, k := hhNxt, k + 1;
      }
      PartialNext(hash, chains, i);
    }

    /** The outer loop of HASH_EXPAND_BUCKETS */
    method EmptyBuckets(nb: array<Bucket<V>>, ghost chains: seq<Chain<V>>)
      requires numBuckets == Pow2(log2NumBuckets) == |chains| && nb.Length == 2 * numBuckets && idealChainMaxlen >= 1
      requires NodesHashed() && Placed(hash, chains)
      requires forall j :: 0 <= j < |chains| ==> DistinctKeys(chains[j])
      requires buckets != null && nb != buckets && buckets.Length == |chains|
      requires forall j :: 0 <= j < |chains| ==> buckets[j].hhHead == At(chains[j], 0)
      requires Doubling(nb, chains, 0, 0)
      modifies nb, this`nonidealItems, nodes`hhPrev, nodes`hhNext
      ensures Filled(nb, Split(hash, chains)) && ChainsLinked(Split(hash, chains))
    {
      hide Doubling, Placed, DistinctKeys, NodesHashed, Filled, ChainsLinked;
      var i := 0;
      while i < numBuckets
        invariant i <= numBuckets
        invariant Doubling(nb, chains, i, 0)
      {
        EmptyBucket(nb, i, chains);
        i := i + 1;
      }
      DoublingEnds(nb, chains);
    }

    /** The end of HASH_EXPAND_BUCKETS: the new array `nb` takes the place of the old one */
    method AdoptBuckets(nb: array<Bucket<V>>, ghost t: Table<V>)
      requires t.Table? && t.chains != [] && Filled(nb, Split(hash, t.chains))
      requires numBuckets == |t.chains| == Pow2(t.log2) && log2NumBuckets == t.log2 && numItems == |t.order|
      requires idealChainMaxlen == Ceil(|t.order|, 2 * |t.chains|) && ineffExpands == t.ineff && noexpand == t.noexpand
      modifies this`buckets, this`numBuckets, this`log2NumBuckets, this`ineffExpands, this`noexpand
      ensures BktRep(Expand(hash, t)) && buckets == nb
    {
      hide Ceil, HashModel.Split, Counts, Mults, Excesses, Sum, Row;
      numBuckets := numBuckets * 2;
      log2NumBuckets := log2NumBuckets + 1;
      buckets := nb;
      ShrIsDiv(numItems, 1);
      ineffExpands := if nonidealItems > Shr(numItems, 1) then ineffExpands + 1 else 0;
      if ineffExpands > 1 {
        noexpand := true;
      }
    }

    /** The start of HASH_EXPAND_BUCKETS: a zeroed array of twice the size, and the ideal chain length for it */
    method StartDoubling(ghost t: Table<V>) returns (nb: array<Bucket<V>>)
      requires t.Table? && t.order != [] && ChainsLinked(t.chains)
      requires numBuckets == |t.chains| == Pow2(log2NumBuckets) && numItems == |t.order|
      modifies this`idealChainMaxlen, this`nonidealItems
      ensures fresh(nb) && nb.Length == 2 * numBuckets && Doubling(nb, t.chains, 0, 0)
      ensures 1 <= idealChainMaxlen == Ceil(|t.order|, 2 * |t.chains|)
    {
      hide *;
      nb := new Bucket<V>[2 * numBuckets](_ => Bucket(null, 0, 0));
      IdealFormula(numItems, log2NumBuckets);
      idealChainMaxlen := Shr(numItems, log2NumBuckets + 1) + if And(numItems, numBuckets * 2 - 1) != 0 then 1 else 0;
      nonidealItems := 0;
      CeilPositive(numItems, 2 * numBuckets);
      DoublingStarts(nb, t.chains);
    }

    /** HASH_EXPAND_BUCKETS */
    method ExpandBuckets(ghost t: Table<V>)
      requires t.Table? && BktRep(t) && ChainsLinked(t.chains) && NodesHashed()
      requires t.order != [] && Placed(hash, t.chains)
      requires forall j :: 0 <= j < |t.chains| ==> DistinctKeys(t.chains[j])
      modifies this`buckets, this`numBuckets, this`log2NumBuckets, this`idealChainMaxlen, this`nonidealItems
      modifies this`ineffExpands, this`noexpand, nodes`hhPrev, nodes`hhNext
      ensures BktRep(Expand(hash, t)) && ChainsLinked(Expand(hash, t).chains)
      ensures fresh(buckets)
    {
      hide *;
      Counters(t);
      var newBuckets := StartDoubling(t);
      EmptyBuckets(newBuckets, t.chains);
      AdoptBuckets(newBuckets, t);
      SplitLinked(t);
    }

    /** What the fields are while the memory represents `t` */
    lemma Counters(t: Table<V>)
      requires t.Table? && BktRep(t)
      ensures |t.chains| == |t.mults| == Pow2(t.log2) == numBuckets && log2NumBuckets == t.log2 && numBuckets >= 1
      ensures numItems == |t.order| && ineffExpands == t.ineff && noexpand == t.noexpand
      ensures buckets != null && buckets.Length == |t.chains|
      ensures forall j :: 0 <= j < |t.chains| ==> buckets[j].hhHead == At(t.chains[j], 0)
    {
      assert forall j :: 0 <= j < |t.chains| ==> buckets[j] == buckets[..][j];
    }

    lemma SplitLinked(t: Table<V>)
      requires t.Table? && t.chains != [] && ChainsLinked(HashModel.Split(hash, t.chains))
      ensures ChainsLinked(Expand(hash, t).chains)
    {
    }

    lemma DoublingEnds(nb: array<Bucket<V>>, chains: seq<Chain<V>>)
      requires chains != [] && Doubling(nb, chains, |chains|, 0)
      ensures Filled(nb, Split(hash, chains)) && ChainsLinked(Split(hash, chains))
    {
      PartialEnd(hash, chains);
    }

    lemma DoublingStarts(nb: array<Bucket<V>>, chains: seq<Chain<V>>)
      requires chains != [] && ChainsLinked(chains)
      requires nb.Length == 2 * |chains| && forall i :: 0 <= i < nb.Length ==> nb[i] == Bucket(null, 0, 0)
      requires nonidealItems == 0
      ensures Doubling(nb, chains, 0, 0)
    {
      PartialStart(hash, chains);
      var done := PartialSplit(hash, chains, 0, 0);
      assert Counts(done) == seq(2 * |chains|, _ => 0);
      SumZero(Excesses(Counts(done), idealChainMaxlen));
      assert Mults(Counts(done), idealChainMaxlen) == seq(2 * |chains|, _ => 0);
      assert nb[..] == Row(done, Mults(Counts(done), idealChainMaxlen));
      assert forall j :: 0 <= j < |chains| ==> HhLinked(chains[j]);
    }

    /** `e` is about to be linked in: its links become the table's. */
    ghost method Enlist(e: Elem<V>, t: Table<V>)
      requires t.Table? && AppRep(t.order) && ChainsLinked(t.chains)
      modifies this`nodes
      ensures AppRep(t.order) && ChainsLinked(t.chains) && nodes == old(nodes) + {e}
    {
      nodes := nodes + {e};
      forall j | 0 <= j < |t.chains|
        ensures HhLinked(t.chains[j])
      {
        assert old(HhLinked(t.chains[j]));
      }
    }

    /** Append `e` to a list that is not empty */
    method AppendApp(e: Elem<V>, ghost s: Chain<V>)
      requires AppRep(s) && s != [] && e in nodes && e !in s && e.next == null && Lone(s, |s| - 1)
      modifies this`tail, e`prev, nodes`next
      ensures AppRep(s + [e])
    {
      ghost var after := s + [e];
      tail.next := e;
      e.prev := tail;
      tail := e;
      assert forall i {:trigger after[i].prev} :: 0 <= i < |after| ==> after[i].prev == At(after, i - 1);
      assert forall i {:trigger after[i].next} :: 0 <= i < |after| ==> after[i].next == At(after, i + 1);
    }

    lemma OneListed(e: Elem<V>)
      requires head == tail == e && e in nodes && e.prev == null && e.next == null
      ensures AppRep([e])
    {
    }

    lemma NoneChained(chains: seq<Chain<V>>)
      requires forall j :: 0 <= j < |chains| ==> chains[j] == []
      ensures ChainsLinked(chains)
    {
    }

    lemma EmptyRow()
      requires numBuckets == INITIAL_NUM_BUCKETS && log2NumBuckets == INITIAL_NUM_BUCKETS_LOG2
      requires buckets != null && buckets.Length == INITIAL_NUM_BUCKETS
      requires forall i :: 0 <= i < buckets.Length ==> buckets[i] == Bucket(null, 0, 0)
      requires numItems == idealChainMaxlen == nonidealItems == ineffExpands == 0 && !noexpand
      ensures BktRep(FreshTable()) && ChainsLinked(FreshTable<V>().chains)
    {
      FreshShape<V>();
      NoneChained(FreshTable<V>().chains);
      assert buckets[..] == Row(FreshTable<V>().chains, FreshTable<V>().mults);
    }

    /** HASH_MAKE_TABLE, with `e` already the head */
    method MakeTable(e: Elem<V>)
      requires head == e && e.prev == null && e.next == null
      modifies this
      ensures AppRep([e]) && BktRep(FreshTable()) && ChainsLinked(FreshTable<V>().chains) && fresh(buckets)
      ensures nodes == old(nodes) + {e} && tab == old(tab)
    {
      hide *;
      tail := e;
      numBuckets := INITIAL_NUM_BUCKETS;
      log2NumBuckets := INITIAL_NUM_BUCKETS_LOG2;
      buckets := new Bucket<V>[INITIAL_NUM_BUCKETS](_ => Bucket(null, 0, 0));
      numItems, idealChainMaxlen, nonidealItems, ineffExpands, noexpand := 0, 0, 0, 0, false;
      nodes := nodes + {e};
      OneListed(e);
      EmptyRow();
    }

    lemma HeadOrNot(t: Table<V>)
      requires Rep(t) && (t.Table? ==> t.order != [])
      ensures head != null <==> t.Table?
      ensures Ready(t) == if t.Table? then t else FreshTable()
      ensures t.Table? ==> AppRep(t.order) && BktRep(t) && ChainsLinked(t.chains)
    {
    }

    lemma FirstListed(e: Elem<V>)
      ensures FreshTable<V>().Table? && FreshTable<V>().order + [e] == [e]
    {
    }

    method ClearNext(e: Elem<V>, ghost t: Table<V>)
      requires t.Table? ==> AppRep(t.order) && e !in t.order
      modifies e`next
      ensures e.next == null && (t.Table? ==> AppRep(t.order))
    {
      e.next := null;
    }

    method CountItem(e: Elem<V>, ghost t: Table<V>)
      requires t.Table? && BktRep(t)
      modifies this`numItems
      ensures BktRep(t.(order := t.order + [e]))
    {
      hide Row;
      numItems := numItems + 1;
    }

    /**
     The first half of HASH_ADD_KEYPTR: link `e` into insertion order, making a table if
     there is none, and count it
     */
    method LinkApp(e: Elem<V>, ghost t: Table<V>)
      requires Rep(t) && (t.Table? ==> t.order != [] && e !in t.order && Lone(t.order, |t.order| - 1))
      modifies this, e`prev, e`next, nodes`next
      ensures var u := Ready(t); AppRep(u.order + [e]) && BktRep(u.(order := u.order + [e])) && ChainsLinked(u.chains)
      ensures nodes == old(nodes) + {e} && tab == old(tab) && (buckets == old(buckets) || fresh(buckets))
    {
      hide *;
      HeadOrNot(t);
      ClearNext(e, t);
      if head == null {
        head := e;
        head.prev := null;
        MakeTable(e);
        FirstListed(e);
      } else {
        Enlist(e, t);
        AppendApp(e, t.order);
      }
      CountItem(e, Ready(t));
    }

    /**
     HASH_ADD_TO_BKT, for an element already counted and linked into insertion
     order, in a table that was `t` before
     */
    method AddToBkt(bkt: nat, e: Elem<V>, ghost t: Table<V>)
      requires t.Table? && t.chains != [] && BktRep(t.(order := t.order + [e])) && ChainsLinked(t.chains)
      requires NodesHashed() && e in nodes
      requires bkt == Slot(hash, e, |t.chains|) && e !in t.chains[bkt] && Lone(t.chains[bkt], 0)
      requires Placed(hash, t.chains) && Placed(hash, Insert(hash, t, e).chains)
      requires forall j :: 0 <= j < |t.chains| ==> DistinctKeys(Insert(hash, t, e).chains[j])
      modifies this`buckets, this`numBuckets, this`log2NumBuckets, this`idealChainMaxlen, this`nonidealItems
      modifies this`ineffExpands, this`noexpand, buckets, nodes`hhPrev, nodes`hhNext
      ensures var u := if MustExpand(hash, t, e) then Expand(hash, Insert(hash, t, e)) else Insert(hash, t, e);
        BktRep(u) && ChainsLinked(u.chains)
      ensures buckets == old(buckets) || fresh(buckets)
    {
      ghost var u := Insert(hash, t, e);
      PlacedApart(hash, t.chains, e, bkt);
      RowUpdate(t.chains, t.mults, bkt, u.chains[bkt]);
      assert buckets[bkt] == Row(t.chains, t.mults)[bkt];
      hide Placed, DistinctKeys, Expand, Lone;
      var b := buckets[bkt];
      b := b.(count := b.count + 1);
      LinkHh(b.hhHead, e, t.chains[bkt]);
      b := b.(hhHead := e);
      buckets[bkt] := b;
      assert BktRep(u) by {
        assert buckets[..] == Row(u.chains, u.mults);
      }
      forall j | 0 <= j < |u.chains|
        ensures HhLinked(u.chains[j])
      {
        assert j != bkt ==> old(HhLinked(t.chains[j]));
      }
      if b.count >= (b.expandMult + 1) * BKT_CAPACITY_THRESH && !noexpand {
        ExpandBuckets(u);
      }
    }

    /** The second half of HASH_ADD_KEYPTR: hash `e` and put it in its bucket */
    method LinkBkt(e: Elem<V>, ghost t: Table<V>)
      requires t.Table? && t.chains != [] && ChainsLinked(t.chains)
      requires AppRep(t.order + [e]) && BktRep(t.(order := t.order + [e]))
      requires e in nodes && forall x :: x in nodes && x != e ==> x.hashv == hash(x.key)
      requires var j := Slot(hash, e, |t.chains|); e !in t.chains[j] && Lone(t.chains[j], 0)
      requires Placed(hash, t.chains) && Placed(hash, Insert(hash, t, e).chains)
      requires forall j :: 0 <= j < |t.chains| ==> DistinctKeys(Insert(hash, t, e).chains[j])
      modifies this`buckets, this`numBuckets, this`log2NumBuckets, this`idealChainMaxlen, this`nonidealItems
      modifies this`ineffExpands, this`noexpand, buckets, nodes`hhPrev, nodes`hhNext, e`hashv
      ensures var u := if MustExpand(hash, t, e) then Expand(hash, Insert(hash, t, e)) else Insert(hash, t, e);
        BktRep(u) && ChainsLinked(u.chains)
      ensures AppRep(t.order + [e]) && NodesHashed()
      ensures buckets == old(buckets) || fresh(buckets)
    {
      hide Placed, DistinctKeys, Lone, Insert, Expand, MustExpand, ChainsLinked;
      e.hashv := hash(e.key);
      MaskIsMod(e.hashv, log2NumBuckets);
      var bkt := And(e.hashv, numBuckets - 1);
      AddToBkt(bkt, e, t);
    }

    /** What the table and its memory have to do with each other before an addition */
    lemma AddStart(e: Elem<V>)
      requires Valid() && AbsentKey(Order(tab), e.key)
      ensures Inv(hash, tab) && Rep(tab) && NodesHashed()
      ensures var u := Ready(tab);
        && u.Table? && u.chains != [] && |u.mults| == |u.chains| && (tab.Table? ==> u == tab)
        && HashModel.Add(hash, tab, e)
           == if MustExpand(hash, u, e) then Expand(hash, Insert(hash, u, e)) else Insert(hash, u, e)
    {
      AddFacts(hash, tab, e);
    }

    lemma HashedBefore(e: Elem<V>)
      ensures NodesHashed() ==> forall x :: x in nodes ==> x.hashv == hash(x.key)
    {
    }

    lemma NowValid()
      requires Inv(hash, tab) && tab.Table?
      requires NodesHashed() && AppRep(tab.order) && BktRep(tab) && ChainsLinked(tab.chains)
      ensures Valid()
    {
    }

    /** HASH_ADD_KEYPTR */
    method Add(e: Elem<V>)
      requires Valid() && AbsentKey(Order(tab), e.key)
      modifies this, buckets, e`prev, e`next, e`hhPrev, e`hhNext, e`hashv, nodes`next, nodes`hhPrev, nodes`hhNext
      ensures Valid() && tab == HashModel.Add(hash, old(tab), e)
      ensures nodes == old(nodes) + {e} && (buckets == old(buckets) || fresh(buckets))
    {
      hide *;
      ghost var t, u := tab, Ready(tab);
      AddStart(e);
      AddFacts(hash, t, e);
      ghost var after := HashModel.Add(hash, t, e);
      LinkApp(e, t);
      HashedBefore(e);
      LinkBkt(e, u);
      tab := after;
      NowValid();
    }

    /** One turn of the bucket loop of HASH_FSCK: count the chain and check every hh_prev */
    method CheckChain(first: Elem?<V>, ghost chain: Chain<V>) returns (count: nat, ok: bool)
      requires first == At(chain, 0) && HhLinked(chain)
      ensures ok && count == |chain|
    {
      count, ok := 0, true;
      var thh, prev: Elem?<V> := first, null;
      while thh != null
        invariant ok && count <= |chain| && thh == At(chain, count) && prev == At(chain, count - 1)
        decreases |chain| - count
      {
        if prev != thh.hhPrev {
          ok := false;
        }
        count := count + 1;
        prev, thh := thh, thh.hhNext;
      }
    }

    /** The second half of HASH_FSCK: count the insertion-order list and check every prev */
    method CheckApp(ghost s: Chain<V>) returns (count: nat, ok: bool)
      requires AppRep(s)
      ensures ok && count == |s|
    {
      count, ok := 0, true;
      var thh, prev: Elem?<V> := head, null;
      while thh != null
        invariant ok && count <= |s| && thh == At(s, count) && prev == At(s, count - 1)
        decreases |s| - count
      {
        if prev != thh.prev {
          ok := false;
        }
        count := count + 1;
        prev, thh := thh, thh.next;
      }
    }

    /**
     HASH_FSCK, the integrity check of uthash's own author: `ok` is false if one of
     its complaints would be printed. In a valid table none of them ever is.
     */
    method Fsck() returns (ok: bool)
      requires Valid()
      ensures ok
    {
      ok := true;
      if head != null {
        ghost var counts := Counts(tab.chains);
        PartitionCounts(hash, tab.order, tab.chains);
        assert counts[..0] == [];
        var i, count := 0, 0;
        hide Inv, Partition;
        while i < numBuckets
          invariant ok && i <= numBuckets && count == Sum(counts[..i])
        {
          assert buckets[i] == Row(tab.chains, tab.mults)[i];
          var bktCount, good := CheckChain(buckets[i].hhHead, tab.chains[i]);
          assert counts[..i + 1][..i] == counts[..i];
          count := count + bktCount;
          if !good || buckets[i].count != bktCount {
            ok := false;
          }
          i := i + 1;
        }
        assert counts[..i] == counts;
        if count != numItems {
          ok := false;
        }
        var appCount, good := CheckApp(tab.order);
        if !good || appCount != numItems {
          ok := false;
        }
      }
    }

    // ----- HASH_SRT

    /** The list `s` can be walked by its next links, to the end. */
    ghost predicate Fwd(s: Chain<V>)
      reads this`nodes, nodes`next
    {
      forall i {:trigger s[i].next} {:trigger s[i] in nodes} :: 0 <= i < |s| ==>
        s[i] in nodes && s[i].next == At(s, i + 1)
    }

    /** The run `p` can be walked by its next links, except that its last link may lead anywhere. */
    ghost predicate FwdRun(p: Chain<V>)
      reads this`nodes, nodes`next
    {
      && (forall i :: 0 <= i < |p| ==> p[i] in nodes)
      && (forall i {:trigger p[i].next} :: 0 <= i < |p| - 1 ==> p[i].next == p[i + 1])
    }

    /** What has been merged so far, from `list` to `end`; the last next link is still open. */
    ghost predicate Out(done: Chain<V>, list: Elem?<V>, end: Elem?<V>)
      reads this`nodes, nodes`prev, nodes`next
    {
      && FwdRun(done)
      && list == At(done, 0) && end == At(done, |done| - 1)
      && (forall i {:trigger done[i].prev} :: 0 <= i < |done| ==> done[i].prev == At(done, i - 1))
    }

    /** Hang `e` at the end of what has been merged so far; what is left of the two runs can still be walked. */
    method Emit(list0: Elem?<V>, end0: Elem?<V>, e: Elem<V>,
                ghost done: Chain<V>, ghost ps: Chain<V>, ghost qs: Chain<V>)
      returns (list: Elem?<V>, end: Elem?<V>)
      requires Out(done, list0, end0) && e in nodes && FwdRun(ps) && Fwd(qs) && Apart(done, e, ps, qs)
      modifies nodes`prev, nodes`next
      ensures Out(done + [e], list, end) && FwdRun(ps) && Fwd(qs)
    {
      list := list0;
      if end0 != null {
        end0.next := e;
      } else {
        list := e;
      }
      e.prev := end0;
      end := e;
      ghost var after := done + [e];
      assert forall i {:trigger after[i].prev} :: 0 <= i < |after| ==> after[i].prev == At(after, i - 1);
    }

    lemma FwdTail(s: Chain<V>)
      requires Fwd(s) && s != []
      ensures s[0] in nodes && s[0].next == At(s[1..], 0) && Fwd(s[1..])
    {
    }

    lemma FwdRunTail(p: Chain<V>)
      requires FwdRun(p) && p != []
      ensures p[0] in nodes && FwdRun(p[1..])
      ensures |p| > 1 ==> p[0].next == p[1..][0]
    {
    }

    /**
     The innermost loop of HASH_SRT: merge the run of `psize` elements at `p` with
     the at most `insize` elements at `q`, hanging the outcome after `done`.
     */
    method MergeTwo(cmpfcn: (Elem<V>, Elem<V>) -> int, p0: Elem<V>, psize0: nat, q0: Elem?<V>, insize: nat,
                    list0: Elem?<V>, end0: Elem?<V>, ghost done0: Chain<V>, ghost ps0: Chain<V>, ghost qs0: Chain<V>)
      returns (q: Elem?<V>, list: Elem?<V>, end: Elem?<V>)
      requires Out(done0, list0, end0) && FwdRun(ps0) && Fwd(qs0) && NoRepeat(done0 + ps0 + qs0)
      requires psize0 == |ps0| > 0 && p0 == ps0[0] && q0 == At(qs0, 0)
      modifies nodes`prev, nodes`next
      ensures var m := Min(insize, |qs0|);
        && Fwd(qs0[m..]) && q == At(qs0, m)
        && Out(done0 + Merge(LeOf(cmpfcn), ps0, qs0[..m]), list, end)
        && NoRepeat(done0 + Merge(LeOf(cmpfcn), ps0, qs0[..m]) + qs0[m..])
    {
      hide Merge, NoRepeat, Apart, Out, Fwd, FwdRun;
      ghost var m := Min(insize, |qs0|);
      ghost var le := LeOf(cmpfcn);
      ghost var done, ps, qs, rest := done0, ps0, qs0[..m], qs0[m..];
      var p: Elem?<V>, psize, qsize := p0, psize0, insize;
      q, list, end := q0, list0, end0;
      assert qs + rest == qs0;
      assert done + ps + qs + rest == done0 + ps0 + qs0;
      while psize > 0 || (qsize > 0 && q != null)
        invariant psize == |ps| && (psize > 0 ==> p == ps[0]) && FwdRun(ps)
        invariant q == At(qs + rest, 0) && Fwd(qs + rest) && |qs| <= qsize && (|qs| < qsize ==> rest == [])
        invariant Out(done, list, end) && NoRepeat(done + ps + qs + rest)
        invariant done + Merge(le, ps, qs) == done0 + Merge(le, ps0, qs0[..m])
        decreases psize + |qs|
      {
        var e: Elem<V>;
        ghost var before := done;
        if ps != [] {
          FwdRunTail(ps);
        }
        if qs != [] {
          FwdTail(qs + rest);
          ConcatTail(qs, rest);
        }
        if psize == 0 {
          e, q, qsize := q, q.next, qsize - 1;
        } else if qsize == 0 || q == null {
          e, p, psize := p, p.next, psize - 1;
        } else if cmpfcn(p, q) <= 0 {
          e, p, psize := p, p.next, psize - 1;
        } else {
          e, q, qsize := q, q.next, qsize - 1;
        }
        if psize < |ps| {
          TakeP(le, done, ps, qs, rest);
          done, ps := done + [e], ps[1..];
        } else {
          TakeQ(le, done, ps, qs, rest);
          done, qs := done + [e], qs[1..];
        }
        list, end := Emit(list, end, e, before, ps, qs + rest);
      }
      assert ps == [] && qs == [];
      MergeNil(le, done, rest);
    }

    /** The for loop of HASH_SRT: step over a run of at most `insize` elements */
    method SkipRun(p: Elem<V>, insize: nat, ghost s: Chain<V>) returns (q: Elem?<V>, psize: nat)
      requires Fwd(s) && s != [] && p == s[0] && insize >= 1
      ensures psize == Min(insize, |s|) && q == At(s, psize)
    {
      q, psize := p, 0;
      for i := 0 to insize
        invariant psize == i <= |s| && q == At(s, i) && q != null
      {
        psize := psize + 1;
        q := q.next;
        if q == null {
          break;
        }
      }
    }

    lemma LinkedCut(s: Chain<V>, k: nat)
      requires Fwd(s) && k >= 1
      ensures var c := TakeRuns(s, k); FwdRun(c.p) && Fwd(c.q + c.rest)
    {
      hide TakeRuns, Fwd, FwdRun;
      var c := TakeRuns(s, k);
      Assoc(c.p, c.q, c.rest);
      FwdParts(c.p, c.q + c.rest);
    }

    lemma FwdParts(p: Chain<V>, q: Chain<V>)
      requires Fwd(p + q)
      ensures FwdRun(p) && Fwd(q)
    {
      var s := p + q;
      assert forall i :: 0 <= i < |p| ==> s[i] == p[i];
      assert forall i :: 0 <= i < |q| ==> s[|p| + i] == q[i];
    }

    /** One turn of the pass: merge the next two runs of `rest`, hanging the outcome after `done` */
    method MergeNext(cmpfcn: (Elem<V>, Elem<V>) -> int, p0: Elem<V>, insize: nat, list0: Elem?<V>, end0: Elem?<V>,
                     ghost done: Chain<V>, ghost rest: Chain<V>)
      returns (p: Elem?<V>, list: Elem?<V>, end: Elem?<V>)
      requires Out(done, list0, end0) && Fwd(rest) && NoRepeat(done + rest)
      requires insize >= 1 && rest != [] && p0 == rest[0]
      modifies nodes`prev, nodes`next
      ensures var c := TakeRuns(rest, insize);
        && Fwd(c.rest) && p == At(c.rest, 0)
        && Out(done + Merge(LeOf(cmpfcn), c.p, c.q), list, end)
        && NoRepeat(done + Merge(LeOf(cmpfcn), c.p, c.q) + c.rest)
    {
      ghost var c := TakeRuns(rest, insize);
      CutFacts(done, rest, insize);
      LinkedCut(rest, insize);
      hide TakeRuns, NoRepeat, Merge, Out, Fwd, FwdRun;
      var q, psize := SkipRun(p0, insize, rest);
      p, list, end := MergeTwo(cmpfcn, p0, psize, q, insize, list0, end0, done, c.p, c.q + c.rest);
    }

    /** Nothing follows the last element merged. */
    method CloseList(list: Elem?<V>, end: Elem?<V>, ghost done: Chain<V>)
      requires Out(done, list, end) && NoRepeat(done)
      modifies nodes`next
      ensures Out(done, list, end) && Fwd(done)
    {
      if end != null {
        NoRepeatLone(done);
        end.next := null;
      }
    }

    /** One turn of the outer loop of HASH_SRT: a pass with runs of `insize` */
    method MergePass(cmpfcn: (Elem<V>, Elem<V>) -> int, list0: Elem<V>, insize: nat, ghost s: Chain<V>)
      returns (list: Elem?<V>, end: Elem?<V>, nmerges: nat)
      requires Fwd(s) && s != [] && list0 == s[0] && NoRepeat(s) && insize >= 1
      modifies nodes`prev, nodes`next
      ensures var r := Pass(LeOf(cmpfcn), s, insize); Out(r, list, end) && Fwd(r) && NoRepeat(r)
      ensures nmerges == Merges(|s|, insize)
    {
      hide TakeRuns, NoRepeat, Merge, Pass, Merges, Fwd;
      ghost var le := LeOf(cmpfcn);
      ghost var done, rest: Chain<V> := [], s;
      var p: Elem?<V> := list0;
      list, end, nmerges := null, null, 0;
      ghost var target := Pass(le, s, insize);
      EmptyUnit(s);
      EmptyUnit(target);
      PassNil(le, insize);
      while p != null
        invariant p == At(rest, 0) && Fwd(rest) && Out(done, list, end) && NoRepeat(done + rest)
        invariant done + Pass(le, rest, insize) == target
        invariant nmerges + Merges(|rest|, insize) == Merges(|s|, insize)
        decreases |rest|
      {
        nmerges := nmerges + 1;
        ghost var c := TakeRuns(rest, insize);
        ghost var merged := Merge(le, c.p, c.q);
        PassStep(le, done, rest, insize);
        MergesStep(rest, insize);
        p, list, end := MergeNext(cmpfcn, p, insize, list, end, done, rest);
        done, rest := done + merged, c.rest;
      }
      EmptyUnit(done);
      CloseList(list, end, done);
    }

    /** The outer loop of HASH_SRT: passes with runs of 1, 2, 4, ... until one merge does it all */
    method SortList(cmpfcn: (Elem<V>, Elem<V>) -> int, ghost s0: Chain<V>)
      requires AppRep(s0) && s0 != [] && NoRepeat(s0)
      modifies this`head, this`tail, nodes`prev, nodes`next
      ensures AppRep(Passes(LeOf(cmpfcn), s0, 1))
    {
      ghost var le, s := LeOf(cmpfcn), s0;
      hide NoRepeat, Passes, Pass, Merges;
      var insize, looping, list, end, nmerges := 1, true, head, tail, 0;
      while looping
        invariant insize >= 1 && |s| == |s0| && NoRepeat(s)
        invariant looping ==> Fwd(s) && list == s[0] && Passes(le, s, insize) == Passes(le, s0, 1)
        invariant !looping ==> s == Passes(le, s0, 1) && AppRep(s)
        decreases looping, if |s| > insize then |s| - insize else 0
      {
        PassesOnce(le, s, insize);
        list, end, nmerges := MergePass(cmpfcn, list, insize, s);
        s := Pass(le, s, insize);
        if nmerges <= 1 {
          looping := false;
          tail := end;
          head := list;
        }
        insize := insize * 2;
      }
    }

    /** HASH_SRT: only the insertion-order list changes */
    method Sort(cmpfcn: (Elem<V>, Elem<V>) -> int)
      requires Valid()
      modifies this`head, this`tail, this`tab, nodes`prev, nodes`next
      ensures Valid()
      ensures tab == if old(tab).NoTable? then NoTable
                     else old(tab).(order := Passes(LeOf(cmpfcn), old(tab).order, 1))
      ensures multiset(Order(tab)) == multiset(old(Order(tab)))
      ensures Consistent(cmpfcn, old(Order(tab))) ==>
        forall i, j :: 0 <= i < j < |Order(tab)| ==> cmpfcn(Order(tab)[i], Order(tab)[j]) <= 0
    {
      hide Passes, Inv, NoRepeat, BktRep, ChainsLinked, AppRep, Partition, Bounded;
      ghost var t := tab;
      HeadTable(t);
      if head != null {
        ghost var s := Passes(LeOf(cmpfcn), t.order, 1);
        SortInv(hash, t, LeOf(cmpfcn));
        BktRepOrder(t, s);
        SortList(cmpfcn, t.order);
        tab := t.(order := s);
        Sorts(cmpfcn, t.order);
      }
    }

    lemma Sorts(cmpfcn: (Elem<V>, Elem<V>) -> int, s: Chain<V>)
      ensures var r := Passes(LeOf(cmpfcn), s, 1);
        && multiset(r) == multiset(s)
        && (Consistent(cmpfcn, s) ==> forall i, j :: 0 <= i < j < |r| ==> cmpfcn(r[i], r[j]) <= 0)
    {
      SortIsStable(LeOf(cmpfcn), s);
      hide Passes;
      if Consistent(cmpfcn, s) {
        SortAscends(cmpfcn, s);
      }
    }

    lemma HeadTable(t: Table<V>)
      requires Inv(hash, t) && Rep(t)
      ensures head != null <==> t.Table?
    {
    }

    lemma BktRepOrder(t: Table<V>, s: Chain<V>)
      requires t.Table? && BktRep(t) && |s| == |t.order|
      ensures BktRep(t.(order := s))
    {
    }
  }

  lemma {:induction false} LegalPrefix<V>(ops: seq<Op<V>>, n: nat)
    requires Legal(ops) && n <= |ops|
    ensures Legal(ops[..n])
  {
    if n < |ops| {
      var front := ops[..|ops| - 1];
      LegalPrefix(front, n);
      assert front[..n] == ops[..n];
    } else {
      assert ops[..n] == ops;
    }
  }

  /** One operation of a run, on the table the operations before it have made */
  lemma OpStep<V>(hash: HashFn, ops: seq<Op<V>>, n: nat)
    requires Legal(ops) && n < |ops|
    ensures Legal(ops[..n]) && Legal(ops[..n + 1])
    ensures var t := After(hash, ops[..n]); var u := Ready(t);
      && u.chains != [] && |u.mults| == |u.chains|
      && match ops[n] {
           case AddOp(e) => AbsentKey(Order(t), e.key) && After(hash, ops[..n + 1]) == HashModel.Add(hash, t, e)
           case DeleteOp(e) =>
             && e in Order(t) && t.Table? && t.chains != []
             && After(hash, ops[..n + 1]) == HashModel.Delete(hash, t, e)
         }
  {
    LegalPrefix(ops, n);
    LegalPrefix(ops, n + 1);
    var now := ops[..n + 1];
    assert now[..|now| - 1] == ops[..n] && now[|now| - 1] == ops[n];
    var t, m := After(hash, ops[..n]), MapAfter(ops[..n]);
    ReadyFacts(hash, t);
    hide Inv;
    match ops[n]
    case AddOp(e) => ListsAdd(Order(t), m, e);
    case DeleteOp(e) => TableOf(hash, t, e);
  }

  lemma TableOf<V>(hash: HashFn, t: Table<V>, e: Elem<V>)
    requires Inv(hash, t) && e in Order(t)
    ensures t.Table? && t.chains != []
  {
  }

  /**
   Any legal run, played on a table in memory: the memory ends up representing what
   the run amounts to, however often the buckets doubled on the way.
   */
  method Replay<V>(hash: HashFn, ops: seq<Op<V>>) returns (h: Hash<V>)
    requires Legal(ops)
    modifies set i | 0 <= i < |ops| :: ops[i].e
    ensures fresh(h) && h.hash == hash && h.Valid() && h.tab == After(hash, ops)
  {
    hide *;
    h := new Hash<V>(hash);
    var n := 0;
    Untouched(hash, ops);
    while n < |ops|
      invariant n <= |ops| && Legal(ops[..n])
      invariant fresh(h) && h.hash == hash && h.Valid() && h.tab == After(hash, ops[..n])
      invariant h.nodes <= set i | 0 <= i < |ops| :: ops[i].e
      invariant h.buckets == null || fresh(h.buckets)
    {
      OpStep(hash, ops, n);
      assert ops[n].e in set i | 0 <= i < |ops| :: ops[i].e;
      match ops[n] {
        case AddOp(e) => h.Add(e);
        case DeleteOp(e) => h.Delete(e);
      }
      n := n + 1;
    }
    assert ops[..n] == ops;
  }

  lemma Untouched<V>(hash: HashFn, ops: seq<Op<V>>)
    ensures Legal(ops[..0]) && After(hash, ops[..0]) == NoTable
  {
  }
}
