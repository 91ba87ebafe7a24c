/**
 The bottom-up mergesort of uthash.h on sequences: what one pass and all passes
 compute, and that the outcome is the one stable sorted arrangement.
 */
module SortModel {
  import opened Basics

  /** The outcome of `cmpfcn(a, b) <= 0`, the only question the sort asks */
  type LeFn<!T> = (T, T) -> bool

  /** The order a C comparison function describes */
  function LeOf<T>(cmp: (T, T) -> int): LeFn<T>
  {
    (x, y) => cmp(x, y) <= 0
  }

  function Merge<T>(le: LeFn<T>, p: seq<T>, q: seq<T>): (r: seq<T>)
    ensures |r| == |p| + |q|
  {
    if p == [] then q
    else if q == [] then p
    else if le(p[0], q[0]) then [p[0]] + Merge(le, p[1..], q)
    else [q[0]] + Merge(le, p, q[1..])
  }

  /** The two runs of `k` elements a merge works on, and what follows them */
  datatype Cut<T> = Cut(p: seq<T>, q: seq<T>, rest: seq<T>)

  function TakeRuns<T>(s: seq<T>, k: nat): (c: Cut<T>)
    requires k >= 1
    ensures s == c.p + c.q + c.rest
    ensures |c.p| == Min(k, |s|) && |c.q| == Min(k, |s| - |c.p|)
  {
    var n := Min(k, |s|);
    var m := Min(k, |s| - n);
    Cut(s[..n], s[n..n + m], s[n + m..])
  }

  /** One pass: neighbouring runs of `k` elements are merged pairwise. */
  function Pass<T>(le: LeFn<T>, s: seq<T>, k: nat): (r: seq<T>)
    requires k >= 1
    ensures |r| == |s|
    decreases |s|
  {
    if s == [] then []
    else
      var c := TakeRuns(s, k);
      Merge(le, c.p, c.q) + Pass(le, c.rest, k)
  }

  /** The number of merges one pass makes */
  function Merges(n: nat, k: nat): (r: nat)
    requires k >= 1
    ensures n > 0 ==> r >= 1
    ensures r <= 1 <==> n <= 2 * k
  {
    if n == 0 then 0 else if n <= 2 * k then 1 else 1 + Merges(n - 2 * k, k)
  }

  /** All passes, with runs of `k`, `2k`, `4k`, ... until one merge is enough */
  function Passes<T>(le: LeFn<T>, s: seq<T>, k: nat): (r: seq<T>)
    requires k >= 1
    ensures |r| == |s|
    decreases if |s| > k then |s| - k else 0
  {
    var t := Pass(le, s, k);
    if Merges(|s|, k) <= 1 then t else Passes(le, t, 2 * k)
  }

  // ----- what a sorted arrangement is

  /** On the elements of `s`, `le` is total and transitive. */
  ghost predicate Preorder<T>(le: LeFn<T>, s: seq<T>)
  {
    && (forall x, y :: x in s && y in s ==> le(x, y) || le(y, x))
    && (forall x, y, z :: x in s && y in s && z in s && le(x, y) && le(y, z) ==> le(x, z))
  }

  ghost predicate Sorted<T>(le: LeFn<T>, s: seq<T>)
  {
    forall i, j :: 0 <= i < j < |s| ==> le(s[i], s[j])
  }

  /** The elements of `s` that compare equal to `x`, in the order they have in `s` */
  ghost function Equals<T>(le: LeFn<T>, s: seq<T>, x: T): seq<T>
  {
    if s == [] then []
    else (if le(s[0], x) && le(x, s[0]) then [s[0]] else []) + Equals(le, s[1..], x)
  }

  /** `r` is `s` rearranged, with elements that compare equal kept in their order. */
  ghost predicate StableRearrangement<T>(le: LeFn<T>, s: seq<T>, r: seq<T>)
  {
    && multiset(r) == multiset(s)
    && forall x :: x in s ==> Equals(le, r, x) == Equals(le, s, x)
  }

  /** Every run of `k` elements is sorted. */
  ghost predicate Runs<T>(le: LeFn<T>, s: seq<T>, k: nat)
    requires k >= 1
  {
    s == [] || (Sorted(le, s[..Min(k, |s|)]) && Runs(le, s[Min(k, |s|)..], k))
  }

  // ----- sequences

  /** Moving one element forward over a stretch `p` makes no repetition. */
  lemma NoRepeatMove<T>(a: seq<T>, p: seq<T>, e: T, rest: seq<T>)
    requires NoRepeat(a + p + [e] + rest)
    ensures NoRepeat(a + [e] + p + rest)
  {
    var s, t := a + p + [e] + rest, a + [e] + p + rest;
    forall i, j | 0 <= i < j < |t|
      ensures t[i] != t[j]
    {
      assert t[i] == s[Unmove(|a|, |p|, i)] && t[j] == s[Unmove(|a|, |p|, j)];
    }
  }

  function Unmove(a: nat, p: nat, i: nat): nat
  {
    if i < a || i > a + p then i else if i == a then a + p else i - 1
  }

  // ----- merging

  lemma BagRegroup<T>(x: multiset<T>, a: multiset<T>, b: multiset<T>)
    ensures x + (a + b) == (x + a) + b == a + (x + b)
  {
  }

  lemma {:induction false} MergeMultiset<T>(le: LeFn<T>, p: seq<T>, q: seq<T>)
    ensures multiset(Merge(le, p, q)) == multiset(p) + multiset(q)
  {
    if p != [] && q != [] {
      var first := le(p[0], q[0]);
      var x, ps, qs := if first then p[0] else q[0], if first then p[1..] else p, if first then q else q[1..];
      var r := Merge(le, ps, qs);
      assert Merge(le, p, q) == [x] + r;
      HeadTail(p);
      HeadTail(q);
      MergeMultiset(le, ps, qs);
      hide Merge;
      ConsMultiset(x, r);
      ConsMultiset(x, if first then ps else qs);
      BagRegroup(multiset{x}, multiset(ps), multiset(qs));
    }
  }

  lemma ConsMultiset<T>(x: T, s: seq<T>)
    ensures multiset([x] + s) == multiset{x} + multiset(s)
  {
  }

  lemma MergeMembers<T>(le: LeFn<T>, p: seq<T>, q: seq<T>)
    ensures forall i :: 0 <= i < |Merge(le, p, q)| ==> Merge(le, p, q)[i] in p || Merge(le, p, q)[i] in q
  {
    MergeMultiset(le, p, q);
    var r := Merge(le, p, q);
    forall i | 0 <= i < |r|
      ensures r[i] in p || r[i] in q
    {
      assert r[i] in multiset(r);
    }
  }

  lemma {:induction false} MergeSorted<T>(le: LeFn<T>, p: seq<T>, q: seq<T>)
    requires Preorder(le, p + q) && Sorted(le, p) && Sorted(le, q)
    ensures Sorted(le, Merge(le, p, q))
  {
    if p == [] || q == [] {
    } else if le(p[0], q[0]) {
      assert forall x :: x in p[1..] + q ==> x in p + q;
      MergeSorted(le, p[1..], q);
      MergeMembers(le, p[1..], q);
      HeadLeast(le, p, q, p + q, Merge(le, p[1..], q));
    } else {
      assert p[0] in p + q && q[0] in p + q;
      assert forall x :: x in p + q[1..] ==> x in p + q;
      MergeSorted(le, p, q[1..]);
      MergeMembers(le, p, q[1..]);
      HeadLeast(le, q, p, p + q, Merge(le, p, q[1..]));
    }
  }

  /** The smaller head goes before whatever is left of the two runs. */
  lemma HeadLeast<T>(le: LeFn<T>, a: seq<T>, b: seq<T>, all: seq<T>, r: seq<T>)
    requires Preorder(le, all) && a != [] && b != [] && Sorted(le, a) && Sorted(le, b) && le(a[0], b[0])
    requires forall x :: x in a || x in b ==> x in all
    requires forall i :: 0 <= i < |r| ==> r[i] in a[1..] || r[i] in b
    requires Sorted(le, r)
    ensures Sorted(le, [a[0]] + r)
  {
    forall j | 0 <= j < |r|
      ensures le(a[0], r[j])
    {
      if r[j] in a[1..] {
        var i :| 0 <= i < |a| - 1 && a[1..][i] == r[j];
        assert r[j] == a[i + 1];
      } else {
        var i :| 0 <= i < |b| && b[i] == r[j];
        assert i > 0 ==> le(b[0], b[i]);
        assert a[0] in all && b[0] in all && b[i] in all;
      }
    }
  }

  // ----- stability

  lemma {:induction false} EqualsConcat<T>(le: LeFn<T>, a: seq<T>, b: seq<T>, x: T)
    ensures Equals(le, a + b, x) == Equals(le, a, x) + Equals(le, b, x)
  {
    if a == [] {
      assert a + b == b;
    } else {
      assert (a + b)[1..] == a[1..] + b;
      EqualsConcat(le, a[1..], b, x);
    }
  }

  lemma {:induction false} EqualsNone<T>(le: LeFn<T>, s: seq<T>, x: T)
    requires forall i :: 0 <= i < |s| ==> !le(s[i], x)
    ensures Equals(le, s, x) == []
  {
    if s != [] {
      EqualsNone(le, s[1..], x);
    }
  }

  /** Merging sorted runs keeps equal elements in order, those of the first run before those of the second. */
  lemma {:induction false} MergeEquals<T>(le: LeFn<T>, p: seq<T>, q: seq<T>, x: T, all: seq<T>)
    requires Preorder(le, all) && Sorted(le, p) && Sorted(le, q) && x in all
    requires forall i :: 0 <= i < |p| ==> p[i] in all
    requires forall i :: 0 <= i < |q| ==> q[i] in all
    ensures Equals(le, Merge(le, p, q), x) == Equals(le, p, x) + Equals(le, q, x)
  {
    if p == [] {
      assert Equals(le, p, x) + Equals(le, q, x) == Equals(le, q, x);
    } else if q == [] {
      assert Equals(le, p, x) + Equals(le, q, x) == Equals(le, p, x);
    } else if le(p[0], q[0]) {
      MergeEquals(le, p[1..], q, x, all);
      EqualsCons(le, p[0], Merge(le, p[1..], q), x);
      EqualsCons(le, p[0], p[1..], x);
      HeadTail(p);
      hide Merge, Equals, Preorder, Sorted;
      Assoc(EqualHead(le, p[0], x), Equals(le, p[1..], x), Equals(le, q, x));
    } else {
      MergeEquals(le, p, q[1..], x, all);
      EqualsCons(le, q[0], Merge(le, p, q[1..]), x);
      EqualsCons(le, q[0], q[1..], x);
      HeadTail(q);
      if le(q[0], x) && le(x, q[0]) {
        AboveNotEqual(le, p, q[0], x, all);
      } else {
        assert EqualHead(le, q[0], x) == [];
        assert [] + Equals(le, q[1..], x) == Equals(le, q[1..], x);
        assert [] + Equals(le, Merge(le, p, q[1..]), x) == Equals(le, Merge(le, p, q[1..]), x);
      }
    }
  }

  ghost function EqualHead<T>(le: LeFn<T>, y: T, x: T): seq<T>
  {
    if le(y, x) && le(x, y) then [y] else []
  }

  lemma EqualsCons<T>(le: LeFn<T>, y: T, s: seq<T>, x: T)
    ensures Equals(le, [y] + s, x) == EqualHead(le, y, x) + Equals(le, s, x)
  {
    assert ([y] + s)[1..] == s;
  }

  /** Nothing in a sorted run whose head is above `y` compares equal to an `x` that does. */
  lemma AboveNotEqual<T>(le: LeFn<T>, p: seq<T>, y: T, x: T, all: seq<T>)
    requires Preorder(le, all) && Sorted(le, p) && p != [] && x in all && y in all
    requires forall i :: 0 <= i < |p| ==> p[i] in all
    requires !le(p[0], y) && le(x, y)
    ensures Equals(le, p, x) == []
  {
    forall i | 0 <= i < |p|
      ensures !le(p[i], x)
    {
      var u, v := p[0], p[i];
      assert u == v || le(u, v);
      assert le(v, x) ==> le(v, y);
    }
    EqualsNone(le, p, x);
  }

  // ----- passes

  lemma {:induction false} PassMultiset<T>(le: LeFn<T>, s: seq<T>, k: nat)
    requires k >= 1
    ensures multiset(Pass(le, s, k)) == multiset(s)
    decreases |s|
  {
    hide TakeRuns;
    if s != [] {
      var c := TakeRuns(s, k);
      MergeMultiset(le, c.p, c.q);
      PassMultiset(le, c.rest, k);
    }
  }

  lemma CutWithin<T>(s: seq<T>, k: nat, all: seq<T>)
    requires k >= 1 && forall i :: 0 <= i < |s| ==> s[i] in all
    ensures var c := TakeRuns(s, k);
      && (forall i :: 0 <= i < |c.p| ==> c.p[i] in all)
      && (forall i :: 0 <= i < |c.q| ==> c.q[i] in all)
      && (forall i :: 0 <= i < |c.rest| ==> c.rest[i] in all)
  {
  }

  lemma PreorderWithin<T>(le: LeFn<T>, p: seq<T>, q: seq<T>, all: seq<T>)
    requires Preorder(le, all)
    requires forall i :: 0 <= i < |p| ==> p[i] in all
    requires forall i :: 0 <= i < |q| ==> q[i] in all
    ensures Preorder(le, p + q)
  {
    assert forall i :: 0 <= i < |p + q| ==> (p + q)[i] in all;
  }

  lemma RunsHead<T>(le: LeFn<T>, s: seq<T>, k: nat)
    requires k >= 1 && s != [] && Runs(le, s, k)
    ensures var c := TakeRuns(s, k); Sorted(le, c.p) && Sorted(le, c.q) && Runs(le, c.rest, k)
  {
    var n := Min(k, |s|);
    var c, tail := TakeRuns(s, k), s[n..];
    assert Runs(le, tail, k);
    assert tail == c.q + c.rest;
    assert tail[..|c.q|] == c.q && tail[|c.q|..] == c.rest;
  }

  lemma RunsCons<T>(le: LeFn<T>, front: seq<T>, back: seq<T>, k: nat)
    requires k >= 1 && front != [] && Sorted(le, front) && Runs(le, back, k)
    requires |front| == Min(k, |front| + |back|)
    ensures Runs(le, front + back, k)
  {
    assert (front + back)[..|front|] == front && (front + back)[|front|..] == back;
  }

  /** A pass over sorted runs of `k` makes sorted runs of `2k`. */
  lemma {:induction false} PassRuns<T>(le: LeFn<T>, s: seq<T>, k: nat, all: seq<T>)
    requires k >= 1 && Runs(le, s, k) && Preorder(le, all)
    requires forall i :: 0 <= i < |s| ==> s[i] in all
    ensures Runs(le, Pass(le, s, k), 2 * k)
    decreases |s|
  {
    if s != [] {
      var c := TakeRuns(s, k);
      RunsHead(le, s, k);
      CutWithin(s, k, all);
      hide TakeRuns, Runs, Sorted;
      PassRuns(le, c.rest, k, all);
      PreorderWithin(le, c.p, c.q, all);
      hide Preorder;
      MergeSorted(le, c.p, c.q);
      RunsCons(le, Merge(le, c.p, c.q), Pass(le, c.rest, k), 2 * k);
    }
  }

  /** A pass over sorted runs keeps equal elements in order. */
  lemma {:induction false} PassEquals<T>(le: LeFn<T>, s: seq<T>, k: nat, x: T, all: seq<T>)
    requires k >= 1 && Runs(le, s, k) && Preorder(le, all) && x in all
    requires forall i :: 0 <= i < |s| ==> s[i] in all
    ensures Equals(le, Pass(le, s, k), x) == Equals(le, s, x)
    decreases |s|
  {
    if s != [] {
      var c := TakeRuns(s, k);
      RunsHead(le, s, k);
      CutWithin(s, k, all);
      hide TakeRuns, Runs, Sorted, Preorder;
      PassEquals(le, c.rest, k, x, all);
      MergeEquals(le, c.p, c.q, x, all);
      hide Equals;
      EqualsConcat(le, Merge(le, c.p, c.q), Pass(le, c.rest, k), x);
      EqualsConcat(le, c.p, c.q, x);
      EqualsConcat(le, c.p + c.q, c.rest, x);
    }
  }

  lemma {:induction false} SingletonRuns<T>(le: LeFn<T>, s: seq<T>)
    ensures Runs(le, s, 1)
  {
    if s != [] {
      SingletonRuns(le, s[1..]);
    }
  }

  lemma {:induction false} PassesMultiset<T>(le: LeFn<T>, s: seq<T>, k: nat)
    requires k >= 1
    ensures multiset(Passes(le, s, k)) == multiset(s)
    decreases if |s| > k then |s| - k else 0
  {
    PassMultiset(le, s, k);
    if Merges(|s|, k) > 1 {
      PassesMultiset(le, Pass(le, s, k), 2 * k);
    }
  }

  lemma {:induction false} PassesSorted<T>(le: LeFn<T>, s: seq<T>, k: nat, all: seq<T>)
    requires k >= 1 && Runs(le, s, k) && Preorder(le, all)
    requires forall i :: 0 <= i < |s| ==> s[i] in all
    ensures Sorted(le, Passes(le, s, k))
    ensures forall i :: 0 <= i < |all| ==> Equals(le, Passes(le, s, k), all[i]) == Equals(le, s, all[i])
    decreases if |s| > k then |s| - k else 0
  {
    var t := Pass(le, s, k);
    PassRuns(le, s, k, all);
    forall i | 0 <= i < |all|
      ensures Equals(le, t, all[i]) == Equals(le, s, all[i])
    {
      PassEquals(le, s, k, all[i], all);
    }
    if Merges(|s|, k) <= 1 {
      assert t[..Min(2 * k, |t|)] == t;
    } else {
      PassMembers(le, s, k);
      PassesSorted(le, t, 2 * k, all);
    }
  }

  lemma PassMembers<T>(le: LeFn<T>, s: seq<T>, k: nat)
    requires k >= 1
    ensures forall i :: 0 <= i < |s| ==> Pass(le, s, k)[i] in s
  {
    PassMultiset(le, s, k);
    var t := Pass(le, s, k);
    forall i | 0 <= i < |s|
      ensures t[i] in s
    {
      assert t[i] in multiset(t);
    }
  }

  // ----- the outcome

  /** The sort rearranges whatever the comparison; with a total preorder, sorted and stably. */
  lemma SortIsStable<T>(le: LeFn<T>, s: seq<T>)
    ensures multiset(Passes(le, s, 1)) == multiset(s)
    ensures Preorder(le, s) ==> Sorted(le, Passes(le, s, 1)) && StableRearrangement(le, s, Passes(le, s, 1))
  {
    PassesMultiset(le, s, 1);
    if Preorder(le, s) {
      SingletonRuns(le, s);
      PassesSorted(le, s, 1, s);
    }
  }

  lemma {:induction false} EqualsSome<T>(le: LeFn<T>, s: seq<T>, x: T) returns (i: nat)
    requires Equals(le, s, x) != []
    ensures i < |s| && le(s[i], x) && le(x, s[i])
  {
    if le(s[0], x) && le(x, s[0]) {
      i := 0;
    } else {
      var j := EqualsSome(le, s[1..], x);
      i := j + 1;
    }
  }

  lemma {:induction false} EqualsDetermine<T>(le: LeFn<T>, r: seq<T>, t: seq<T>, all: seq<T>)
    requires Preorder(le, all) && Sorted(le, r) && Sorted(le, t) && |r| == |t|
    requires forall i :: 0 <= i < |r| ==> r[i] in all && t[i] in all
    requires forall i :: 0 <= i < |all| ==> Equals(le, r, all[i]) == Equals(le, t, all[i])
    ensures r == t
  {
    if r != [] {
      var a, b := r[0], t[0];
      assert Equals(le, r, a) == Equals(le, t, a) && Equals(le, r, b) == Equals(le, t, b);
      assert le(a, a) && le(b, b);
      var i := EqualsSome(le, t, a);
      var j := EqualsSome(le, r, b);
      assert i > 0 ==> le(b, t[i]);
      assert j > 0 ==> le(a, r[j]);
      assert le(b, a) && le(a, b);
      assert a == Equals(le, r, a)[0] == Equals(le, t, a)[0] == b;
      HeadTail(r);
      HeadTail(t);
      forall i | 0 <= i < |all|
        ensures Equals(le, r[1..], all[i]) == Equals(le, t[1..], all[i])
      {
        hide Equals;
        var x := all[i];
        EqualsCons(le, a, r[1..], x);
        EqualsCons(le, b, t[1..], x);
        SameTail(EqualHead(le, a, x), Equals(le, r[1..], x), Equals(le, t[1..], x));
      }
      EqualsDetermine(le, r[1..], t[1..], all);
    }
  }

  lemma SameTail<T>(h: seq<T>, a: seq<T>, b: seq<T>)
    requires h + a == h + b
    ensures a == b
  {
    assert a == (h + a)[|h|..] && b == (h + b)[|h|..];
  }

  /** There is only one sorted, stable rearrangement, and the passes compute it. */
  lemma SortIsTheStableSort<T>(le: LeFn<T>, s: seq<T>, r: seq<T>)
    requires Preorder(le, s)
    ensures r == Passes(le, s, 1) <==> Sorted(le, r) && StableRearrangement(le, s, r)
  {
    SortIsStable(le, s);
    var t := Passes(le, s, 1);
    if Sorted(le, r) && StableRearrangement(le, s, r) {
      assert |r| == |multiset(r)| == |multiset(t)| == |t|;
      forall i | 0 <= i < |r|
        ensures r[i] in s && t[i] in s
      {
        assert r[i] in multiset(r) && t[i] in multiset(t);
      }
      forall i | 0 <= i < |s|
        ensures Equals(le, r, s[i]) == Equals(le, t, s[i])
      {
        assert s[i] in s;
      }
      EqualsDetermine(le, r, t, s);
    }
  }

  // ----- in terms of the comparison function

  /** On the elements of `s`, `cmp` relates any two, and "not after" is transitive. */
  ghost predicate Consistent<T>(cmp: (T, T) -> int, s: seq<T>)
  {
    && (forall i, j :: 0 <= i < |s| && 0 <= j < |s| ==> cmp(s[i], s[j]) <= 0 || cmp(s[j], s[i]) <= 0)
    && (forall i, j, k :: 0 <= i < |s| && 0 <= j < |s| && 0 <= k < |s| ==>
          cmp(s[i], s[j]) <= 0 && cmp(s[j], s[k]) <= 0 ==> cmp(s[i], s[k]) <= 0)
  }

  /** `r` is `s` rearranged, and no element of `r` comes before one that `cmp` puts before it. */
  ghost predicate Ascending<T>(cmp: (T, T) -> int, s: seq<T>, r: seq<T>)
  {
    && multiset(r) == multiset(s)
    && forall i, j :: 0 <= i < j < |r| ==> cmp(r[i], r[j]) <= 0
  }

  /** The elements of `s` that `cmp` puts neither before nor after `x`, in their order */
  ghost function Level<T>(cmp: (T, T) -> int, s: seq<T>, x: T): seq<T>
  {
    if s == [] then []
    else (if cmp(s[0], x) <= 0 && cmp(x, s[0]) <= 0 then [s[0]] else []) + Level(cmp, s[1..], x)
  }

  /** The sort puts its elements in ascending order of the comparison function, and is stable. */
  lemma SortAscends<T>(cmp: (T, T) -> int, s: seq<T>)
    requires Consistent(cmp, s)
    ensures Ascending(cmp, s, Passes(LeOf(cmp), s, 1))
    ensures forall k :: 0 <= k < |s| ==> Level(cmp, Passes(LeOf(cmp), s, 1), s[k]) == Level(cmp, s, s[k])
  {
    var le, r := LeOf(cmp), Passes(LeOf(cmp), s, 1);
    ConsistentPreorder(cmp, s);
    SortIsStable(le, s);
    hide Passes;
    forall k | 0 <= k < |s|
      ensures Level(cmp, r, s[k]) == Level(cmp, s, s[k])
    {
      assert s[k] in s;
      LevelEquals(cmp, r, s[k]);
      LevelEquals(cmp, s, s[k]);
    }
  }

  lemma ConsistentPreorder<T>(cmp: (T, T) -> int, s: seq<T>)
    requires Consistent(cmp, s)
    ensures Preorder(LeOf(cmp), s)
  {
  }

  lemma {:induction false} LevelEquals<T>(cmp: (T, T) -> int, s: seq<T>, x: T)
    ensures Level(cmp, s, x) == Equals(LeOf(cmp), s, x)
  {
    if s != [] {
      LevelEquals(cmp, s[1..], x);
    }
  }
}
