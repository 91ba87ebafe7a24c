/** Sums over sequences of counters. */
module Sums {
  import opened Bits

  function Sum(s: seq<nat>): nat
  {
    if s == [] then 0 else Sum(s[..|s| - 1]) + s[|s| - 1]
  }

  function Ceil(x: nat, d: nat): nat
    requires d >= 1
  {
    (x + d - 1) / d
  }

  lemma {:induction false} SumUpdate(s: seq<nat>, i: nat, v: nat)
    requires i < |s|
    ensures Sum(s[i := v]) == Sum(s) - s[i] + v
  {
    var n := |s| - 1;
    if i == n {
      assert s[i := v][..n] == s[..n];
    } else {
      assert s[i := v][..n] == s[..n][i := v];
      SumUpdate(s[..n], i, v);
    }
  }

  lemma {:induction false} SumConcat(a: seq<nat>, b: seq<nat>)
    ensures Sum(a + b) == Sum(a) + Sum(b)
  {
    if b == [] {
      assert a + b == a;
    } else {
      assert (a + b)[..|a + b| - 1] == a + b[..|b| - 1];
      SumConcat(a, b[..|b| - 1]);
    }
  }

  lemma {:induction false} SumPointwise(a: seq<nat>, b: seq<nat>, c: seq<nat>)
    requires |a| == |b| == |c|
    requires forall i :: 0 <= i < |a| ==> c[i] == a[i] + b[i]
    ensures Sum(c) == Sum(a) + Sum(b)
  {
    if a != [] {
      var n := |a| - 1;
      SumPointwise(a[..n], b[..n], c[..n]);
    }
  }

  lemma Distribute(f: nat, x: nat, y: nat)
    ensures f * (x + y) == f * x + f * y
  {
  }

  /** A bound `c[i] <= f * a[i] + g` on every term adds up. */
  lemma {:induction false} SumAtMost(c: seq<nat>, a: seq<nat>, f: nat, g: nat)
    requires |a| == |c|
    requires forall i :: 0 <= i < |a| ==> c[i] <= f * a[i] + g
    ensures Sum(c) <= f * Sum(a) + g * |a|
  {
    if a != [] {
      var n := |a| - 1;
      SumAtMost(c[..n], a[..n], f, g);
      Distribute(f, Sum(a[..n]), a[n]);
      Distribute(g, n, 1);
    }
  }

  lemma {:induction false} SumScaledAtMost(a: seq<nat>, f: nat, c: seq<nat>)
    requires |a| == |c|
    requires forall i :: 0 <= i < |a| ==> f * a[i] <= c[i]
    ensures f * Sum(a) <= Sum(c)
  {
    if a != [] {
      var n := |a| - 1;
      SumScaledAtMost(a[..n], f, c[..n]);
      Distribute(f, Sum(a[..n]), a[n]);
    }
  }

  lemma {:induction false} SumZero(s: seq<nat>)
    requires forall i :: 0 <= i < |s| ==> s[i] == 0
    ensures Sum(s) == 0
  {
    if s != [] {
      SumZero(s[..|s| - 1]);
    }
  }

  lemma CeilBounds(x: nat, d: nat)
    requires d >= 1
    ensures x <= d * Ceil(x, d) < x + d
  {
    assert x + d - 1 == d * ((x + d - 1) / d) + (x + d - 1) % d;
  }

  lemma CeilPositive(x: nat, d: nat)
    requires x >= 1 && d >= 1
    ensures Ceil(x, d) >= 1
  {
    CeilBounds(x, d);
  }

  lemma CeilByRemainder(x: nat, d: nat)
    requires d >= 1
    ensures Ceil(x, d) == x / d + if x % d != 0 then 1 else 0
  {
    var q, r := x / d, x % d;
    assert x == d * q + r;
    if r == 0 {
      DivModUnique(x + d - 1, d, q, d - 1);
    } else {
      assert d * (q + 1) == d * q + d;
      DivModUnique(x + d - 1, d, q + 1, r - 1);
    }
  }

  lemma CeilAtMost(x: nat, d: nat, k: nat)
    requires d >= 1 && x <= k * d
    ensures Ceil(x, d) <= k
  {
    CeilBounds(x, d);
    if Ceil(x, d) > k {
      MulMono(d, k + 1, Ceil(x, d));
    }
  }

  lemma MulMono(d: nat, x: nat, y: nat)
    requires x <= y
    ensures d * x <= d * y
  {
    assert d * y == d * x + d * (y - x);
  }
}
