/**
 Session serials: 32-bit, never zero, handed out in cyclic order, skipping those
 still in use.
 */
module Serials {

  const TWO_32: nat := 0x1_0000_0000
  const NONZERO: nat := 0xffff_ffff  // how many serials there are

  /** Zero is no serial */
  function Skip0(s: nat): nat
  {
    if s == 0 then 1 else s
  }

  /** The serial after `s`, with the wrap-around of `uint32_t` and past zero */
  function Succ(s: nat): nat
  {
    Skip0((s + 1) % TWO_32)
  }

  /** The `d`-th serial in cyclic order from `start` */
  function Nth(start: nat, d: nat): (s: nat)
    requires start < TWO_32
    ensures 0 < s < TWO_32
  {
    if d == 0 then Skip0(start) else Succ(Nth(start, d - 1))
  }

  /** `s` is the first serial from `start` on, in cyclic order, that is not in use. */
  ghost predicate FirstFree(used: set<nat>, start: nat, s: nat)
    requires start < TWO_32
  {
    exists d: nat :: s == Nth(start, d) && s !in used && forall c: nat :: c < d ==> Nth(start, c) in used
  }

  lemma RoundStep(x: nat)
    ensures (x + 1) % NONZERO == if x % NONZERO == NONZERO - 1 then 0 else x % NONZERO + 1
  {
  }

  lemma SuccClosed(r: nat)
    requires r < NONZERO
    ensures Succ(1 + r) == 1 + if r == NONZERO - 1 then 0 else r + 1
  {
  }

  lemma {:induction false} NthClosed(start: nat, d: nat)
    requires start < TWO_32
    ensures Nth(start, d) == 1 + (Skip0(start) - 1 + d) % NONZERO
  {
    if d > 0 {
      var x := Skip0(start) - 1 + (d - 1);
      NthClosed(start, d - 1);
      RoundStep(x);
      SuccClosed(x % NONZERO);
      hide Succ;
    }
  }

  /** No serial comes up twice within one round. */
  lemma NthInjective(start: nat, c: nat, d: nat)
    requires start < TWO_32 && c < d < NONZERO
    ensures Nth(start, c) != Nth(start, d)
  {
    NthClosed(start, c);
    NthClosed(start, d);
    RoundInjective(Skip0(start) - 1 + c, Skip0(start) - 1 + d);
  }

  lemma RoundInjective(x: nat, y: nat)
    requires x < y < x + NONZERO
    ensures x % NONZERO != y % NONZERO
  {
  }

  /** Meeting only serials in use can go on no longer than there are such serials. */
  lemma {:induction false} MetAreMany(used: set<nat>, start: nat, d: nat)
    requires start < TWO_32 && d <= NONZERO
    requires forall c: nat :: c < d ==> Nth(start, c) in used
    ensures d <= |used|
  {
    if d > 0 {
      var last := Nth(start, d - 1);
      forall c: nat | c < d - 1
        ensures Nth(start, c) in used - {last}
      {
        NthInjective(start, c, d - 1);
      }
      MetAreMany(used - {last}, start, d - 1);
    }
  }

  /** The search for a free serial, `d` serials after `start` */
  function FreeFrom(used: set<nat>, start: nat, d: nat): (s: nat)
    requires start < TWO_32 && |used| < NONZERO && d <= |used|
    requires forall c: nat :: c < d ==> Nth(start, c) in used
    ensures FirstFree(used, start, s) && 0 < s < TWO_32
    decreases |used| - d
  {
    if Nth(start, d) in used then
      MetAreMany(used, start, d + 1);
      FreeFrom(used, start, d + 1)
    else Nth(start, d)
  }

  function Free(used: set<nat>, start: nat): (s: nat)
    requires start < TWO_32 && |used| < NONZERO
    ensures FirstFree(used, start, s) && 0 < s < TWO_32
  {
    FreeFrom(used, start, 0)
  }

  lemma FirstMet(used: set<nat>, start: nat, s: nat, d: nat)
    requires start < TWO_32 && s == Nth(start, d) && s !in used
    requires forall c: nat :: c < d ==> Nth(start, c) in used
    ensures FirstFree(used, start, s)
  {
  }

  lemma FirstFreeUnique(used: set<nat>, start: nat, s: nat, t: nat)
    requires start < TWO_32 && FirstFree(used, start, s) && FirstFree(used, start, t)
    ensures s == t
  {
    var c: nat :| s == Nth(start, c) && s !in used && forall b: nat :: b < c ==> Nth(start, b) in used;
    var d: nat :| t == Nth(start, d) && t !in used && forall b: nat :: b < d ==> Nth(start, b) in used;
    assert !(c < d) && !(d < c);
  }

  lemma SkipZero(s: nat)
    requires s < TWO_32
    ensures s < 0x1_0000_0000 && Skip0(s) < 0x1_0000_0000
    ensures Skip0(s) == if s == 0 then 1 else s
  {
  }

  lemma NthFirst(start: nat)
    requires start < TWO_32
    ensures Nth(start, 0) == Skip0(start)
  {
  }

  lemma NthNext(start: nat, d: nat)
    requires start < TWO_32
    ensures Nth(start, d + 1) == Skip0((Nth(start, d) + 1) % TWO_32)
  {
  }

  /** Where the search stops is the first free serial. */
  lemma FoundFree(used: set<nat>, start: nat, s: nat, d: nat)
    requires start < TWO_32 && |used| < NONZERO && s == Nth(start, d) && s !in used
    requires forall c: nat :: c < d ==> Nth(start, c) in used
    ensures s == Free(used, start)
  {
    FirstMet(used, start, s, d);
    FirstFreeUnique(used, start, s, Free(used, start));
  }

  /** Starting one serial later is skipping one. */
  lemma {:induction false} NthShift(x: nat, d: nat)
    requires 0 < x < TWO_32
    ensures Nth((x + 1) % TWO_32, d) == Nth(x, d + 1)
  {
    if d == 0 {
      assert Nth(x, 1) == Succ(Nth(x, 0));
    } else {
      NthShift(x, d - 1);
    }
  }

  /**
   The serial handed out last is not handed out next, even when its session is
   gone already.
   */
  lemma NotReusedAtOnce(used: set<nat>, x: nat)
    requires 0 < x < TWO_32 && |used| < NONZERO - 1
    ensures Free(used, (x + 1) % TWO_32) != x
  {
    var start := (x + 1) % TWO_32;
    var s := Free(used, start);
    var d: nat :| s == Nth(start, d) && s !in used && forall c: nat :: c < d ==> Nth(start, c) in used;
    MetAreMany(used, start, if d <= NONZERO then d else NONZERO);
    NthShift(x, d);
    NthInjective(x, 0, d + 1);
  }
}
