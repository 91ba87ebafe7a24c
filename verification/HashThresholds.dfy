/**
 When every bucket is within its threshold, inhibited expansion or not: which
 additions keep it so, for every hash function, and which runs.
 */
module HashThresholds {
  import opened HashModel
  import opened HashPartition
  import opened HashRuns

  /** Every bucket holds at most `(expand_mult + 1) * 10` elements. */
  predicate Low<V>(t: Table<V>)
  {
    t.Table? ==>
      && |t.mults| == |t.chains|
      && forall j :: 0 <= j < |t.chains| ==> |t.chains[j]| <= Threshold(t.mults[j])
  }

  /** The bucket `e` hashes to has reached its threshold, and must not be split any more. */
  predicate Full<V>(hash: HashFn, t: Table<V>, e: Elem<V>)
  {
    && t.Table? && t.noexpand && t.chains != [] && |t.mults| == |t.chains|
    && |t.chains[Slot(hash, e, |t.chains|)]| >= Threshold(t.mults[Slot(hash, e, |t.chains|)])
  }

  lemma BoundedLow<V>(t: Table<V>)
    requires t.Table? && |t.mults| == |t.chains| && Bounded(Counts(t.chains), t.mults)
    ensures Low(t)
  {
    assert forall j :: 0 <= j < |t.chains| ==> Counts(t.chains)[j] == |t.chains[j]|;
  }

  /** Expansion is inhibited only by an expansion that itself leaves every bucket within its new threshold. */
  lemma ExpandLow<V>(hash: HashFn, t: Table<V>, e: Elem<V>)
    requires Workable(hash, t) && AbsentKey(t.order, e.key) && !t.noexpand
    ensures Low(Expand(hash, Insert(hash, t, e)))
  {
    hide Partition, Bounded, Counts, Split, Low;
    var u := Insert(hash, t, e);
    InsertPartition(hash, t, e);
    SplitPartition(hash, u.order, u.chains);
    PartitionCounts(hash, t.order, t.chains);
    PartitionCounts(hash, u.order, Split(hash, u.chains));
    ExpandBounds(hash, t, Split(hash, u.chains), |u.order|);
    BoundedLow(Expand(hash, u));
  }

  lemma InsertLow<V>(hash: HashFn, t: Table<V>, e: Elem<V>)
    requires t.Table? && t.chains != [] && Low(t)
    ensures Low(Insert(hash, t, e))
      <==> var j := Slot(hash, e, |t.chains|); |t.chains[j]| < Threshold(t.mults[j])
  {
    var j, u := Slot(hash, e, |t.chains|), Insert(hash, t, e);
    assert |u.chains[j]| == |t.chains[j]| + 1;
    assert forall i :: 0 <= i < |t.chains| && i != j ==> u.chains[i] == t.chains[i];
  }

  lemma ReadyLow<V>(t: Table<V>)
    requires Low(t)
    ensures Low(Ready(t))
  {
  }

  /**
   An addition keeps every bucket within its threshold if and only if the bucket
   it goes to has not reached it while expansion is inhibited.
   */
  lemma AddLow<V>(hash: HashFn, t: Table<V>, e: Elem<V>)
    requires Inv(hash, t) && AbsentKey(Order(t), e.key) && Low(t)
    ensures Workable(hash, Ready(t))
    ensures Low(HashModel.Add(hash, t, e)) <==> !Full(hash, t, e)
  {
    ReadyFacts(hash, t);
    ReadyLow(t);
    var u := Ready(t);
    InsertLow(hash, u, e);
    hide Low, Partition, Bounded;
    if MustExpand(hash, u, e) {
      ExpandLow(hash, u, e);
    }
  }

  /** A deletion always does. */
  lemma DeleteLow<V>(hash: HashFn, t: Table<V>, e: Elem<V>)
    requires Inv(hash, t) && e in Order(t) && Low(t)
    ensures Low(HashModel.Delete(hash, t, e))
  {
    if |t.order| > 1 {
      hide Bounded;
      var j := Slot(hash, e, |t.chains|);
      assert ChainOf(hash, t.order, t.chains[j], |t.chains|, j) && e in t.chains[j];
      WithoutFacts(t.chains[j], e);
    }
  }

  // ----- runs

  /** At no time in the run is a bucket above its threshold. */
  predicate AlwaysLow<V>(hash: HashFn, ops: seq<Op<V>>)
    requires Legal(ops)
  {
    Low(After(hash, ops)) && (ops != [] ==> AlwaysLow(hash, ops[..|ops| - 1]))
  }

  /** No addition of the run goes to a full bucket. */
  predicate NeverFull<V>(hash: HashFn, ops: seq<Op<V>>)
    requires Legal(ops)
  {
    ops != [] ==>
      && NeverFull(hash, ops[..|ops| - 1])
      && (ops[|ops| - 1].AddOp? ==> !Full(hash, After(hash, ops[..|ops| - 1]), ops[|ops| - 1].e))
  }

  /** The last operation of a run */
  lemma LastLow<V>(hash: HashFn, ops: seq<Op<V>>)
    requires ops != [] && Legal(ops) && Low(After(hash, ops[..|ops| - 1]))
    ensures Low(After(hash, ops))
      <==> (ops[|ops| - 1].AddOp? ==> !Full(hash, After(hash, ops[..|ops| - 1]), ops[|ops| - 1].e))
  {
    var before := After(hash, ops[..|ops| - 1]);
    var m := MapAfter(ops[..|ops| - 1]);
    hide Low, Full, Inv;
    match ops[|ops| - 1]
    case AddOp(e) =>
      ListsAdd(Order(before), m, e);
      AddLow(hash, before, e);
    case DeleteOp(e) =>
      ListsDelete(Order(before), m, e);
      DeleteLow(hash, before, e);
  }

  /**
   For every hash function and every run: no bucket is ever above its threshold if
   and only if no addition goes to a bucket that has reached it while expansion is
   inhibited.
   */
  lemma {:induction false} LowIffNeverFull<V>(hash: HashFn, ops: seq<Op<V>>)
    requires Legal(ops)
    ensures AlwaysLow(hash, ops) <==> NeverFull(hash, ops)
  {
    if ops != [] {
      LowIffNeverFull(hash, ops[..|ops| - 1]);
      if AlwaysLow(hash, ops[..|ops| - 1]) {
        LastLow(hash, ops);
      }
    }
  }
}
