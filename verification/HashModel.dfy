/**
 What the hash table of uthash.h computes, on values: the insertion order, the
 bucket chains, and the adaptive thresholds that decide when it doubles.
 */
module HashModel {
  import opened Bits
  import opened Sums

  const INITIAL_NUM_BUCKETS: nat := 32
  const INITIAL_NUM_BUCKETS_LOG2: nat := 5
  const BKT_CAPACITY_THRESH: nat := 10

  type uint32 = x: int | 0 <= x < 0x1_0000_0000

  /** The four bytes of a session serial, the key of every table in this program */
  type Key = uint32

  /** The hash function is arbitrary: nothing below depends on how it spreads keys. */
  type HashFn = Key -> uint32

  /** An element together with the handle embedded in it; `value` is the rest of the element. */
  class Elem<V> {
    const key: Key
    const value: V
    var prev: Elem?<V>
    var next: Elem?<V>
    var hhPrev: Elem?<V>
    var hhNext: Elem?<V>
    var hashv: uint32

    constructor (key: Key, value: V)
      ensures this.key == key && this.value == value
    {
      this.key, this.value := key, value;
      prev, next, hhPrev, hhNext, hashv := null, null, null, null, 0;
    }
  }

  type Chain<V> = seq<Elem<V>>

  /**
   `NoTable` is the null head: the last deletion frees the table and the next
   addition makes a new one.
   */
  datatype Table<V> =
    | NoTable
    | Table(log2: nat, order: Chain<V>, chains: seq<Chain<V>>, mults: seq<nat>,
            ideal: nat, nonideal: nat, ineff: nat, noexpand: bool)

  function Order<V>(t: Table<V>): Chain<V>
  {
    if t.NoTable? then [] else t.order
  }

  // ----- operations

  function Slot<V>(hash: HashFn, e: Elem<V>, n: nat): nat
    requires n >= 1
  {
    hash(e.key) % n
  }

  function Threshold(mult: nat): nat
  {
    (mult + 1) * BKT_CAPACITY_THRESH
  }

  function FreshTable<V>(): Table<V>
  {
    Table(INITIAL_NUM_BUCKETS_LOG2, [], seq(INITIAL_NUM_BUCKETS, _ => []), seq(INITIAL_NUM_BUCKETS, _ => 0),
          0, 0, 0, false)
  }

  /** The elements of `chain` that land in bucket `j` of `n`; each is put before those met earlier. */
  function Rehash<V>(hash: HashFn, chain: Chain<V>, n: nat, j: nat): Chain<V>
    requires n >= 1
  {
    if chain == [] then []
    else
      var e, done := chain[|chain| - 1], Rehash(hash, chain[..|chain| - 1], n, j);
      if Slot(hash, e, n) == j then [e] + done else done
  }

  /** The old bucket that new bucket `j` is filled from, when `n` buckets become twice as many */
  function Origin(n: nat, j: nat): nat
    requires j < 2 * n
  {
    if j < n then j else j - n
  }

  function Split<V>(hash: HashFn, chains: seq<Chain<V>>): (r: seq<Chain<V>>)
    requires chains != []
    ensures |r| == 2 * |chains|
  {
    seq(2 * |chains|, j requires 0 <= j < 2 * |chains| =>
      Rehash(hash, chains[Origin(|chains|, j)], 2 * |chains|, j))
  }

  function Counts<V>(chains: seq<Chain<V>>): (c: seq<nat>)
    ensures |c| == |chains|
  {
    seq(|chains|, j requires 0 <= j < |chains| => |chains[j]|)
  }

  /** The multiplier a bucket of `count` elements ends an expansion with */
  function Mult(count: nat, ideal: nat): nat
  {
    if count > ideal && ideal > 0 then count / ideal else 0
  }

  function Mults(counts: seq<nat>, ideal: nat): (m: seq<nat>)
    ensures |m| == |counts|
  {
    seq(|counts|, j requires 0 <= j < |counts| => Mult(counts[j], ideal))
  }

  function Excesses(counts: seq<nat>, ideal: nat): (m: seq<nat>)
    ensures |m| == |counts|
  {
    seq(|counts|, j requires 0 <= j < |counts| => if counts[j] > ideal then counts[j] - ideal else 0)
  }

  function Expand<V>(hash: HashFn, t: Table<V>): Table<V>
    requires t.Table? && t.chains != []
  {
    var chains := Split(hash, t.chains);
    var ideal := Ceil(|t.order|, |chains|);
    var nonideal := Sum(Excesses(Counts(chains), ideal));
    var ineff := if nonideal > |t.order| / 2 then t.ineff + 1 else 0;
    Table(t.log2 + 1, t.order, chains, Mults(Counts(chains), ideal),
          ideal, nonideal, ineff, t.noexpand || ineff > 1)
  }

  /** Link `e` in, before any expansion */
  function Insert<V>(hash: HashFn, t: Table<V>, e: Elem<V>): Table<V>
    requires t.Table? && t.chains != []
  {
    var j := Slot(hash, e, |t.chains|);
    t.(order := t.order + [e], chains := t.chains[j := [e] + t.chains[j]])
  }

  predicate MustExpand<V>(hash: HashFn, t: Table<V>, e: Elem<V>)
    requires t.Table? && t.chains != [] && |t.mults| == |t.chains|
  {
    var j := Slot(hash, e, |t.chains|);
    |t.chains[j]| + 1 >= Threshold(t.mults[j]) && !t.noexpand
  }

  /** The table an addition works on */
  function Ready<V>(t: Table<V>): Table<V>
  {
    if t.NoTable? then FreshTable() else t
  }

  function Add<V>(hash: HashFn, t: Table<V>, e: Elem<V>): Table<V>
    requires var u := Ready(t); u.chains != [] && |u.mults| == |u.chains|
  {
    var u := Ready(t);
    if MustExpand(hash, u, e) then Expand(hash, Insert(hash, u, e)) else Insert(hash, u, e)
  }

  function Without<V>(s: Chain<V>, e: Elem<V>): Chain<V>
  {
    if s == [] then []
    else if s[|s| - 1] == e then s[..|s| - 1]
    else Without(s[..|s| - 1], e) + [s[|s| - 1]]
  }

  function Delete<V>(hash: HashFn, t: Table<V>, e: Elem<V>): Table<V>
    requires t.Table? && t.chains != []
  {
    if |t.order| == 1 then NoTable
    else
      var j := Slot(hash, e, |t.chains|);
      t.(order := Without(t.order, e), chains := t.chains[j := Without(t.chains[j], e)])
  }

  function FindIn<V>(s: Chain<V>, key: Key): Elem?<V>
  {
    if s == [] then null else if s[0].key == key then s[0] else FindIn(s[1..], key)
  }

  function Find<V>(hash: HashFn, t: Table<V>, key: Key): Elem?<V>
    requires t.Table? ==> t.chains != []
  {
    if t.NoTable? then null else FindIn(t.chains[hash(key) % |t.chains|], key)
  }

  // ----- invariant

  predicate DistinctKeys<V>(s: Chain<V>)
  {
    forall i, j :: 0 <= i < j < |s| ==> s[i].key != s[j].key
  }

  /** Chain `j` of `n` holds, without repetition, elements of `order` that hash to `j`. */
  predicate ChainOf<V>(hash: HashFn, order: Chain<V>, chain: Chain<V>, n: nat, j: nat)
    requires n >= 1
  {
    && DistinctKeys(chain)
    && forall i :: 0 <= i < |chain| ==> chain[i] in order && Slot(hash, chain[i], n) == j
  }

  /** The chains partition the elements of `order` by hash value. */
  predicate Partition<V>(hash: HashFn, order: Chain<V>, chains: seq<Chain<V>>)
    requires chains != []
  {
    && DistinctKeys(order)
    && (forall j :: 0 <= j < |chains| ==> ChainOf(hash, order, chains[j], |chains|, j))
    && (forall i :: 0 <= i < |order| ==> order[i] in chains[Slot(hash, order[i], |chains|)])
    && Sum(Counts(chains)) == |order|
  }

  function AtThreshold(counts: seq<nat>, mults: seq<nat>): (a: seq<nat>)
    requires |counts| == |mults|
    ensures |a| == |counts|
  {
    seq(|counts|, j requires 0 <= j < |counts| => if counts[j] == Threshold(mults[j]) then 1 else 0)
  }

  /**
   No bucket is above its threshold, and the multipliers together with the
   buckets that sit exactly on their threshold are paid for by the buckets.
   */
  predicate Bounded(counts: seq<nat>, mults: seq<nat>)
    requires |counts| == |mults|
  {
    && (forall j :: 0 <= j < |counts| ==> counts[j] <= Threshold(mults[j]))
    && Sum(mults) + Sum(AtThreshold(counts, mults)) <= |counts|
  }

  /** Everything every reachable table satisfies */
  predicate Inv<V>(hash: HashFn, t: Table<V>)
  {
    t.Table? ==>
      && t.order != []
      && t.log2 >= INITIAL_NUM_BUCKETS_LOG2
      && |t.chains| == |t.mults| == Pow2(t.log2)
      && Partition(hash, t.order, t.chains)
      && (t.noexpand <==> t.ineff > 1)
      && (!t.noexpand ==> Bounded(Counts(t.chains), t.mults))
  }
}
