/**
 Why the bound on chains has to except tables whose expansion is inhibited: when
 every key hashes alike, the second doubling inhibits all further ones, and the
 one chain outgrows its threshold.
 */
module HashCollisions {
  import opened Sums
  import opened HashModel
  import opened HashRuns

  function Alike(k: Key): uint32
  {
    0
  }

  function Adds<V>(es: Chain<V>): (ops: seq<Op<V>>)
    ensures |ops| == |es|
  {
    if es == [] then [] else Adds(es[..|es| - 1]) + [AddOp(es[|es| - 1])]
  }

  lemma {:induction false} AddsLegal<V>(es: Chain<V>)
    requires DistinctKeys(es)
    ensures Legal(Adds(es))
    ensures OrderAfter(Adds(es)) == es
  {
    if es != [] {
      var n := |es| - 1;
      AddsLegal(es[..n]);
      var ops := Adds(es);
      assert ops[..n] == Adds(es[..n]) && ops[n] == AddOp(es[n]);
      assert es == es[..n] + [es[n]];
      assert Lists(Order(After(Alike, Adds(es[..n]))), MapAfter(Adds(es[..n])));
    }
  }

  /** The whole table after `n` colliding additions: one chain, and two doublings at most */
  predicate Piled<V>(t: Table<V>, n: nat)
  {
    && t.Table? && |t.order| == n && |t.chains| == |t.mults| >= (if n < 10 then 32 else 64)
    && |t.chains[0]| == n
    && (forall j :: 0 < j < |t.chains| ==> t.chains[j] == [])
    && t.mults[0] == (if n < 10 then 0 else if n < 110 then 10 else 110)
    && t.ineff == (if n < 10 then 0 else if n < 110 then 1 else 2)
    && (t.noexpand <==> n >= 110)
  }

  lemma {:induction false} RehashAlike<V>(chain: Chain<V>, n: nat, j: nat)
    requires j < n
    ensures |Rehash(Alike, chain, n, j)| == if j == 0 then |chain| else 0
  {
    if chain != [] {
      RehashAlike(chain[..|chain| - 1], n, j);
    }
  }

  lemma SurplusOfOne(counts: seq<nat>)
    requires counts != [] && counts[0] >= 1 && forall j :: 0 < j < |counts| ==> counts[j] == 0
    ensures Sum(Excesses(counts, 1)) == counts[0] - 1
  {
    var none: seq<nat> := seq(|counts|, _ => 0);
    SumZero(none);
    SumUpdate(none, 0, counts[0] - 1);
    assert Excesses(counts, 1) == none[0 := counts[0] - 1];
  }

  lemma SplitPiled<V>(u: Table<V>)
    requires u.Table? && u.chains != [] && |u.chains[0]| == |u.order| >= 1
    requires forall j :: 0 < j < |u.chains| ==> u.chains[j] == []
    requires |u.order| <= 2 * |u.chains|
    ensures var t := Expand(Alike, u);
      && |t.chains| == |t.mults| == 2 * |u.chains| && |t.chains[0]| == |u.order|
      && (forall j :: 0 < j < |t.chains| ==> t.chains[j] == [])
      && t.ideal == 1 && t.nonideal == |u.order| - 1
      && t.mults[0] == if |u.order| > 1 then |u.order| else 0
  {
    var chains := Split(Alike, u.chains);
    forall j | 0 <= j < |chains|
      ensures |chains[j]| == if j == 0 then |u.order| else 0
    {
      RehashAlike(u.chains[Origin(|u.chains|, j)], |chains|, j);
    }
    CeilAtMost(|u.order|, |chains|, 1);
    CeilBounds(|u.order|, |chains|);
    SurplusOfOne(Counts(chains));
  }

  lemma InsertPiled<V>(t: Table<V>, n: nat, e: Elem<V>)
    requires Piled(t, n)
    ensures MustExpand(Alike, t, e) <==> n + 1 == 10 || n + 1 == 110
    ensures var u := Insert(Alike, t, e);
      && u == t.(order := t.order + [e], chains := u.chains)
      && |u.chains| == |t.chains| && |u.chains[0]| == n + 1
      && forall j :: 0 < j < |u.chains| ==> u.chains[j] == []
  {
    assert Slot(Alike, e, |t.chains|) == 0;
  }

  lemma AddPiled<V>(t: Table<V>, n: nat, e: Elem<V>)
    requires Piled(t, n)
    ensures Piled(HashModel.Add(Alike, t, e), n + 1)
  {
    hide Expand, Insert, MustExpand;
    var u := Insert(Alike, t, e);
    InsertPiled(t, n, e);
    if MustExpand(Alike, t, e) {
      SplitPiled(u);
      ExpandIneff(u);
    }
  }

  lemma ExpandIneff<V>(u: Table<V>)
    requires u.Table? && u.chains != []
    ensures var t := Expand(Alike, u);
      && t.Table? && t.order == u.order
      && t.ineff == (if t.nonideal > |u.order| / 2 then u.ineff + 1 else 0)
      && (t.noexpand <==> u.noexpand || t.ineff > 1)
  {
  }

  lemma FirstPiled<V>(e: Elem<V>)
    ensures Piled(HashModel.Add(Alike, NoTable, e), 1)
  {
    var t := FreshTable<V>();
    assert Piled(t, 0);
    AddPiled(t, 0, e);
  }

  lemma AfterLast<V>(es: Chain<V>)
    requires es != [] && Legal(Adds(es)) && Legal(Adds(es[..|es| - 1]))
    ensures var t := After(Alike, Adds(es[..|es| - 1]));
      && (var u := Ready(t); u.chains != [] && |u.mults| == |u.chains|)
      && After(Alike, Adds(es)) == HashModel.Add(Alike, t, es[|es| - 1])
  {
    var n, ops := |es| - 1, Adds(es);
    assert ops[..n] == Adds(es[..n]) && ops[n] == AddOp(es[n]);
    ReadyFacts(Alike, After(Alike, ops[..n]));
  }

  lemma {:induction false} RunPiled<V>(es: Chain<V>)
    requires es != [] && DistinctKeys(es)
    ensures Legal(Adds(es))
    ensures Piled(After(Alike, Adds(es)), |es|)
  {
    var n := |es| - 1;
    AddsLegal(es);
    AddsLegal(es[..n]);
    AfterLast(es);
    hide Piled, After, Adds, Legal, HashModel.Add;
    if n > 0 {
      RunPiled(es[..n]);
      AddPiled(After(Alike, Adds(es[..n])), n, es[n]);
    } else {
      NothingYet<V>(es);
      FirstPiled(es[0]);
    }
  }

  lemma NothingYet<V>(es: Chain<V>)
    ensures Legal(Adds(es[..0])) && After(Alike, Adds(es[..0])) == NoTable
  {
  }

  /**
   With colliding keys the chain is within its threshold up to 1110 elements, and
   above it from then on.
   */
  lemma InhibitedChainOutgrows<V>(es: Chain<V>)
    requires es != [] && DistinctKeys(es)
    ensures Legal(Adds(es)) && After(Alike, Adds(es)).Table?
    ensures var t := After(Alike, Adds(es));
      && (t.noexpand <==> |es| >= 110)
      && t.chains != [] && |t.mults| == |t.chains|
      && (|t.chains[0]| <= (t.mults[0] + 1) * 10 <==> |es| <= 1110)
  {
    RunPiled(es);
  }
}
