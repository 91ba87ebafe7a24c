/**
 Whole runs of the table: short chains while expansion is not inhibited, and
 agreement with a plain map, over every sequence of additions and deletions.
 */
module HashRuns {
  import opened Bits
  import opened Sums
  import opened HashModel
  import opened HashPartition

  // ----- chain lengths

  lemma BoundedSum(counts: seq<nat>, mults: seq<nat>)
    requires |counts| == |mults|
    requires Bounded(counts, mults)
    ensures Sum(counts) <= 19 * |counts|
  {
    var at := AtThreshold(counts, mults);
    var paid := seq(|counts|, i requires 0 <= i < |counts| => mults[i] + at[i]);
    assert Sum(paid) <= |counts| by {
      SumPointwise(mults, at, paid);
    }
    forall i | 0 <= i < |counts|
      ensures counts[i] <= 10 * paid[i] + 9
    {
      assert counts[i] <= Threshold(mults[i]);
    }
    SumAtMost(counts, paid, 10, 9);
  }

  /** Short enough chains make the next ideal chain length at most the capacity threshold. */
  lemma IdealStaysSmall(counts: seq<nat>, mults: seq<nat>)
    requires |counts| == |mults| >= 1
    requires Bounded(counts, mults)
    ensures Ceil(Sum(counts) + 1, 2 * |counts|) <= BKT_CAPACITY_THRESH
  {
    BoundedSum(counts, mults);
    CeilAtMost(Sum(counts) + 1, 2 * |counts|, 10);
  }

  /** The multiplier of one bucket costs no more than the ideal chains it stands for. */
  lemma MultPaid(count: nat, ideal: nat)
    requires 1 <= ideal <= BKT_CAPACITY_THRESH
    ensures count <= Threshold(Mult(count, ideal))
    ensures ideal * (Mult(count, ideal) + if count == Threshold(Mult(count, ideal)) then 1 else 0) <= count
  {
    if count > ideal {
      var m := count / ideal;
      assert count == ideal * m + count % ideal;
      assert ideal * m + ideal == ideal * (m + 1);
      MulMono(m + 1, ideal, 10);
      assert (m + 1) * ideal == ideal * (m + 1);
    }
  }

  /** Every expansion leaves the buckets bounded again, with the multipliers paid for. */
  lemma ExpansionBounds(counts: seq<nat>, items: nat)
    requires |counts| >= 1 && items >= 1
    requires Sum(counts) == items && Ceil(items, |counts|) <= BKT_CAPACITY_THRESH
    ensures Bounded(counts, Mults(counts, Ceil(items, |counts|)))
  {
    var n, ideal := |counts|, Ceil(items, |counts|);
    CeilBounds(items, n);
    assert ideal >= 1;
    var mults := Mults(counts, ideal);
    var at := AtThreshold(counts, mults);
    var paid := seq(n, i requires 0 <= i < n => mults[i] + at[i]);
    forall i | 0 <= i < n
      ensures counts[i] <= Threshold(mults[i])
      ensures ideal * paid[i] <= counts[i]
    {
      MultPaid(counts[i], ideal);
    }
    assert ideal * Sum(paid) <= n * ideal by {
      SumScaledAtMost(paid, ideal, counts);
    }
    assert Sum(paid) <= n by {
      CancelFactor(ideal, Sum(paid), n);
    }
    SumPointwise(mults, at, paid);
  }

  lemma CancelFactor(f: nat, x: nat, y: nat)
    requires f >= 1 && f * x <= y * f
    ensures x <= y
  {
    if x > y {
      MulMono(f, y + 1, x);
    }
  }

  lemma InsertBounds(counts: seq<nat>, mults: seq<nat>, j: nat)
    requires |counts| == |mults| && j < |counts|
    requires Bounded(counts, mults) && counts[j] + 1 < Threshold(mults[j])
    ensures Bounded(counts[j := counts[j] + 1], mults)
  {
    assert AtThreshold(counts[j := counts[j] + 1], mults) == AtThreshold(counts, mults);
  }

  lemma DeleteBounds(counts: seq<nat>, mults: seq<nat>, j: nat)
    requires |counts| == |mults| && j < |counts| && counts[j] >= 1
    requires Bounded(counts, mults)
    ensures Bounded(counts[j := counts[j] - 1], mults)
  {
    var at := AtThreshold(counts, mults);
    assert AtThreshold(counts[j := counts[j] - 1], mults) == at[j := 0];
    SumUpdate(at, j, 0);
  }

  // ----- one step

  lemma FreshFacts<V>(hash: HashFn)
    ensures var t := FreshTable<V>();
      && t.log2 >= INITIAL_NUM_BUCKETS_LOG2
      && |t.chains| == |t.mults| == Pow2(t.log2)
      && Partition(hash, t.order, t.chains)
      && Bounded(Counts(t.chains), t.mults)
  {
    var t := FreshTable<V>();
    assert Pow2(5) == 2 * Pow2(4) == 4 * Pow2(3) == 8 * Pow2(2);
    SumZero(Counts(t.chains));
    SumZero(t.mults);
    SumZero(AtThreshold(Counts(t.chains), t.mults));
  }

  predicate AbsentKey<V>(s: Chain<V>, key: Key)
  {
    forall i :: 0 <= i < |s| ==> s[i].key != key
  }

  /** A new table has 32 empty buckets that may hold ten elements each, and may expand. */
  lemma FreshLaw<V>()
    ensures var t := FreshTable<V>();
      && t.order == [] && |t.chains| == |t.mults| == 32 && t.log2 == 5 && !t.noexpand && t.ineff == 0
      && forall j :: 0 <= j < 32 ==> t.chains[j] == [] && Threshold(t.mults[j]) == 10
  {
  }

  /** The elements of each bucket that are within the ideal length */
  function WithinIdeal(counts: seq<nat>, ideal: nat): (w: seq<nat>)
    ensures |w| == |counts|
  {
    seq(|counts|, j requires 0 <= j < |counts| => if counts[j] < ideal then counts[j] else ideal)
  }

  lemma ExcessRest(counts: seq<nat>, ideal: nat)
    ensures Sum(counts) == Sum(WithinIdeal(counts, ideal)) + Sum(Excesses(counts, ideal))
  {
    SumPointwise(WithinIdeal(counts, ideal), Excesses(counts, ideal), counts);
  }

  /**
   What an expansion leaves behind: twice the buckets, the least ideal length that
   has room for all elements, as multiplier of each bucket how many ideal lengths it
   holds if it is over one, as `nonideal_items` all elements beyond the ideal length,
   and inhibition after two expansions in a row that left more than half beyond it.
   */
  lemma ExpandLaw<V>(hash: HashFn, t: Table<V>, e: Elem<V>, j: nat)
    requires Workable(hash, t) && AbsentKey(t.order, e.key) && j < 2 * |t.chains|
    ensures var u := Expand(hash, Insert(hash, t, e)); var items := |t.order| + 1;
      && |u.chains| == |u.mults| == 2 * |t.chains| && u.log2 == t.log2 + 1 && |u.order| == items
      && u.ideal * |u.chains| >= items && (u.ideal - 1) * |u.chains| < items
      && (var n := |u.chains[j]|;
          if n <= u.ideal then u.mults[j] == 0 else u.mults[j] * u.ideal <= n < (u.mults[j] + 1) * u.ideal)
      && u.nonideal + Sum(WithinIdeal(Counts(u.chains), u.ideal)) == items
      && u.ineff == (if u.nonideal > items / 2 then t.ineff + 1 else 0)
      && (u.noexpand <==> t.noexpand || u.ineff >= 2)
  {
    hide Partition, Bounded, Split;
    var v := Insert(hash, t, e);
    var u := Expand(hash, v);
    InsertPartition(hash, t, e);
    SplitPartition(hash, v.order, v.chains);
    PartitionCounts(hash, v.order, Split(hash, v.chains));
    ExcessRest(Counts(u.chains), u.ideal);
    CeilBounds(|u.order|, |u.chains|);
    MultLaw(|u.chains[j]|, u.ideal);
    LastStep(u.ideal, |u.chains|, |u.order|);
  }

  lemma MultLaw(n: nat, ideal: nat)
    ensures ideal >= 1 ==>
      if n <= ideal then Mult(n, ideal) == 0 else Mult(n, ideal) * ideal <= n < (Mult(n, ideal) + 1) * ideal
  {
    if ideal >= 1 && n > ideal {
      assert n == ideal * (n / ideal) + n % ideal;
    }
  }

  lemma LastStep(q: nat, d: nat, x: nat)
    requires x <= d * q < x + d && x >= 1
    ensures q >= 1 && q * d >= x && (q - 1) * d < x
  {
    assert (q - 1) * d == d * q - d;
  }

  /** What an addition may rely on, whether or not the table has just been made */
  predicate Workable<V>(hash: HashFn, t: Table<V>)
  {
    && t.Table?
    && t.log2 >= INITIAL_NUM_BUCKETS_LOG2
    && |t.chains| == |t.mults| == Pow2(t.log2)
    && Partition(hash, t.order, t.chains)
    && (t.noexpand <==> t.ineff > 1)
    && (!t.noexpand ==> Bounded(Counts(t.chains), t.mults))
  }

  lemma ReadyFacts<V>(hash: HashFn, t: Table<V>)
    requires Inv(hash, t)
    ensures Workable(hash, Ready(t))
    ensures Order(Ready(t)) == Order(t)
  {
    FreshFacts<V>(hash);
  }

  lemma PartitionCounts<V>(hash: HashFn, order: Chain<V>, chains: seq<Chain<V>>)
    requires chains != [] && Partition(hash, order, chains)
    ensures Sum(Counts(chains)) == |order|
  {
  }

  lemma ExpandBounds<V>(hash: HashFn, t: Table<V>, chains: seq<Chain<V>>, items: nat)
    requires t.Table? && |t.chains| == |t.mults| >= 1 && Bounded(Counts(t.chains), t.mults)
    requires |chains| == 2 * |t.chains| && Sum(Counts(chains)) == items == Sum(Counts(t.chains)) + 1
    ensures 1 <= Ceil(items, |chains|) <= BKT_CAPACITY_THRESH
    ensures Bounded(Counts(chains), Mults(Counts(chains), Ceil(items, |chains|)))
  {
    IdealStaysSmall(Counts(t.chains), t.mults);
    CeilBounds(items, |chains|);
    ExpansionBounds(Counts(chains), items);
  }

  /** An expansion keeps everything, and computes an ideal chain length of 1 to 10. */
  lemma ExpandInv<V>(hash: HashFn, t: Table<V>, e: Elem<V>)
    requires Workable(hash, t) && AbsentKey(t.order, e.key) && !t.noexpand
    ensures Inv(hash, Expand(hash, Insert(hash, t, e)))
    ensures 1 <= Expand(hash, Insert(hash, t, e)).ideal <= BKT_CAPACITY_THRESH
  {
    hide Partition, Bounded, Counts, Split;
    var u := Insert(hash, t, e);
    InsertPartition(hash, t, e);
    SplitPartition(hash, u.order, u.chains);
    PartitionCounts(hash, t.order, t.chains);
    PartitionCounts(hash, u.order, Split(hash, u.chains));
    ExpandBounds(hash, t, Split(hash, u.chains), |u.order|);
  }

  /** An addition that triggers no expansion keeps everything. */
  lemma InsertInv<V>(hash: HashFn, t: Table<V>, e: Elem<V>)
    requires Workable(hash, t) && AbsentKey(t.order, e.key) && !MustExpand(hash, t, e)
    ensures Inv(hash, Insert(hash, t, e))
  {
    hide Partition, Bounded;
    InsertPartition(hash, t, e);
    var j := Slot(hash, e, |t.chains|);
    assert Counts(Insert(hash, t, e).chains) == Counts(t.chains)[j := |t.chains[j]| + 1];
    if !t.noexpand {
      InsertBounds(Counts(t.chains), t.mults, j);
    }
  }

  lemma AddInv<V>(hash: HashFn, t: Table<V>, e: Elem<V>)
    requires Inv(hash, t) && AbsentKey(Order(t), e.key)
    ensures Workable(hash, Ready(t))
    ensures Inv(hash, Add(hash, t, e))
    ensures Order(Add(hash, t, e)) == Order(t) + [e]
  {
    hide Partition, Bounded, Split, Counts, Mults, Excesses, Sum, Ceil;
    ReadyFacts(hash, t);
    var u := Ready(t);
    if MustExpand(hash, u, e) {
      ExpandInv(hash, u, e);
    } else {
      InsertInv(hash, u, e);
    }
  }

  lemma DeleteInv<V>(hash: HashFn, t: Table<V>, e: Elem<V>)
    requires Inv(hash, t) && e in Order(t)
    ensures Inv(hash, Delete(hash, t, e))
    ensures Order(Delete(hash, t, e)) == Without(Order(t), e)
  {
    WithoutFacts(t.order, e);
    if |t.order| > 1 {
      DeletePartition(hash, t, e);
      if !t.noexpand {
        DeleteKeepsBounds(hash, t, e);
      }
    }
  }

  lemma InItsChain<V>(hash: HashFn, t: Table<V>, e: Elem<V>)
    requires t.Table? && t.chains != [] && Partition(hash, t.order, t.chains) && e in t.order
    ensures var j := Slot(hash, e, |t.chains|); 0 <= j < |t.chains| && DistinctKeys(t.chains[j]) && e in t.chains[j]
  {
    var j := Slot(hash, e, |t.chains|);
    assert ChainOf(hash, t.order, t.chains[j], |t.chains|, j);
  }

  lemma DeleteKeepsBounds<V>(hash: HashFn, t: Table<V>, e: Elem<V>)
    requires Inv(hash, t) && e in Order(t) && |t.order| > 1 && !t.noexpand
    ensures Bounded(Counts(Delete(hash, t, e).chains), t.mults)
  {
    hide Partition, Bounded, DistinctKeys, Without, Slot;
    var j := Slot(hash, e, |t.chains|);
    InItsChain(hash, t, e);
    WithoutFacts(t.chains[j], e);
    assert Counts(Delete(hash, t, e).chains) == Counts(t.chains)[j := |t.chains[j]| - 1];
    DeleteBounds(Counts(t.chains), t.mults, j);
  }

  // ----- runs

  datatype Op<V> = AddOp(e: Elem<V>) | DeleteOp(e: Elem<V>)

  /** The plain map a run of operations should amount to */
  function MapAfter<V>(ops: seq<Op<V>>): map<Key, Elem<V>>
  {
    if ops == [] then map[]
    else
      var m := MapAfter(ops[..|ops| - 1]);
      match ops[|ops| - 1]
      case AddOp(e) => m[e.key := e]
      case DeleteOp(e) => m - {e.key}
  }

  /** Insertion order minus deletions */
  function OrderAfter<V>(ops: seq<Op<V>>): Chain<V>
  {
    if ops == [] then []
    else
      var s := OrderAfter(ops[..|ops| - 1]);
      match ops[|ops| - 1]
      case AddOp(e) => s + [e]
      case DeleteOp(e) => Without(s, e)
  }

  /** Only absent keys are added and only present elements are deleted. */
  predicate Legal<V>(ops: seq<Op<V>>)
  {
    ops != [] ==>
      && Legal(ops[..|ops| - 1])
      && var m := MapAfter(ops[..|ops| - 1]);
         match ops[|ops| - 1]
         case AddOp(e) => e.key !in m
         case DeleteOp(e) => e.key in m && m[e.key] == e
  }

  /** `order` lists exactly the elements of `m`. */
  predicate Lists<V>(order: Chain<V>, m: map<Key, Elem<V>>)
  {
    && (forall i :: 0 <= i < |order| ==> order[i].key in m && m[order[i].key] == order[i])
    && (forall k :: k in m ==> m[k] in order && m[k].key == k)
  }

  lemma ListsAdd<V>(order: Chain<V>, m: map<Key, Elem<V>>, e: Elem<V>)
    requires Lists(order, m) && e.key !in m
    ensures AbsentKey(order, e.key)
    ensures Lists(order + [e], m[e.key := e])
  {
    assert forall k :: k in m ==> m[k] in order + [e];
    assert (order + [e])[|order|] == e;
  }

  lemma ListsDelete<V>(order: Chain<V>, m: map<Key, Elem<V>>, e: Elem<V>)
    requires Lists(order, m) && DistinctKeys(order) && e.key in m && m[e.key] == e
    ensures Lists(Without(order, e), m - {e.key})
  {
    WithoutFacts(order, e);
    var rest := Without(order, e);
    forall i | 0 <= i < |rest|
      ensures rest[i].key in m - {e.key} && m[rest[i].key] == rest[i]
    {
      var x := rest[i];
      if x.key == e.key {
        SameKeySameElement(order, x, e);
      }
    }
    forall k | k in m - {e.key}
      ensures m[k] in rest
    {
      var i :| 0 <= i < |order| && order[i] == m[k];
    }
  }

  /**
   The table after a run, built by the operations one after the other. Its
   contract is the whole claim: however often the buckets doubled, the table is
   well formed, lists the insertion order minus deletions, and holds exactly the map.
   */
  function After<V>(hash: HashFn, ops: seq<Op<V>>): (t: Table<V>)
    requires Legal(ops)
    ensures Inv(hash, t)
    ensures Order(t) == OrderAfter(ops)
    ensures Lists(Order(t), MapAfter(ops))
  {
    if ops == [] then NoTable
    else
      var before := After(hash, ops[..|ops| - 1]);
      var m := MapAfter(ops[..|ops| - 1]);
      match ops[|ops| - 1]
      case AddOp(e) =>
        ListsAdd(Order(before), m, e);
        AddInv(hash, before, e);
        Add(hash, before, e)
      case DeleteOp(e) =>
        ListsDelete(Order(before), m, e);
        DeleteInv(hash, before, e);
        Delete(hash, before, e)
  }

  /** After any run, a lookup returns exactly what the plain map holds under the key, or null. */
  lemma LookupIsMap<V>(hash: HashFn, ops: seq<Op<V>>, key: Key)
    requires Legal(ops)
    ensures Find(hash, After(hash, ops), key) == if key in MapAfter(ops) then MapAfter(ops)[key] else null
  {
    var t, m := After(hash, ops), MapAfter(ops);
    FindExact(hash, t, key);
    if key in m {
      var i :| 0 <= i < |Order(t)| && Order(t)[i] == m[key];
    }
  }

  lemma InvBounds<V>(hash: HashFn, t: Table<V>)
    requires Inv(hash, t)
    ensures t.Table? && !t.noexpand ==>
      && |t.mults| == |t.chains|
      && (forall j :: 0 <= j < |t.chains| ==> |t.chains[j]| <= (t.mults[j] + 1) * 10)
      && Sum(t.mults) <= |t.chains|
  {
    if t.Table? && !t.noexpand {
      hide Partition;
      assert forall j :: 0 <= j < |t.chains| ==> Counts(t.chains)[j] == |t.chains[j]|;
    }
  }

  /**
   After any run, unless expansion has been inhibited, no bucket holds more than
   `(expand_mult + 1) * 10` elements.
   */
  lemma ChainsStayShort<V>(hash: HashFn, ops: seq<Op<V>>)
    requires Legal(ops)
    ensures var t := After(hash, ops);
      t.Table? && !t.noexpand ==>
        && (forall j :: 0 <= j < |t.chains| ==> |t.chains[j]| <= (t.mults[j] + 1) * 10)
        && Sum(t.mults) <= |t.chains|
  {
    InvBounds(hash, After(hash, ops));
  }
}
