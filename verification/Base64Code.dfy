/** b64_ntop and b64_pton, byte by byte, against the codec of Base64. */
module Base64Code {
  import opened Basics
  import opened Bits
  import opened Base64

  // ----- the bit operations of the two loops

  lemma PowersOfTwo()
    ensures Pow2(2) == 4 && Pow2(4) == 16 && Pow2(6) == 64
  {
    assert Pow2(2) == 2 * Pow2(1);
    assert Pow2(4) == 2 * Pow2(3) == 4 * Pow2(2);
    assert Pow2(6) == 2 * Pow2(5) == 4 * Pow2(4);
  }

  lemma ByteParts(x: nat)
    ensures Shr(x, 2) == x / 4 && And(x, 3) == x % 4
    ensures Shr(x, 4) == x / 16 && And(x, 15) == x % 16
    ensures Shr(x, 6) == x / 64 && And(x, 63) == x % 64
    ensures Shl(x, 2) == x * 4 && Shl(x, 4) == x * 16 && Shl(x, 6) == x * 64
  {
    PowersOfTwo();
    ShrIsDiv(x, 2);
    ShrIsDiv(x, 4);
    ShrIsDiv(x, 6);
    MaskIsMod(x, 2);
    MaskIsMod(x, 4);
    MaskIsMod(x, 6);
    ShlIsMul(x, 2);
    ShlIsMul(x, 4);
    ShlIsMul(x, 6);
  }

  // ----- encoding

  lemma EncodePrefix(src: seq<byte>, i: nat)
    requires i % 3 == 0 && i <= |src|
    ensures Encode(src) == Encode(src[..i]) + Encode(src[i..])
  {
    hide Encode;
    var a, b := src[..i], src[i..];
    assert src == a + b;
    EncodeAppend(a, b);
  }

  lemma EncodeNext(src: seq<byte>, i: nat)
    requires i % 3 == 0 && i + 3 <= |src|
    ensures Encode(src[..i + 3]) == Encode(src[..i]) + Quad(src[i], src[i + 1], src[i + 2])
  {
    hide Encode, Quad;
    EncodeAppend(src[..i], [src[i], src[i + 1], src[i + 2]]);
    EncodeThree(src[i], src[i + 1], src[i + 2]);
    assert src[..i] + [src[i], src[i + 1], src[i + 2]] == src[..i + 3];
  }

  /** Put four characters into the target */
  method Put4(target: array<byte>, at: nat, w: byte, x: byte, y: byte, z: byte)
    requires at + 4 <= target.Length
    modifies target
    ensures target[..at + 4] == old(target[..at]) + [w, x, y, z]
  {
    target[at] := w;
    target[at + 1] := x;
    target[at + 2] := y;
    target[at + 3] := z;
  }

  /** The four sextets of three bytes, by shifts and masks */
  method Sextets(a: byte, b: byte, c: byte) returns (o0: byte, o1: byte, o2: byte, o3: byte)
    ensures o0 < 64 && o1 < 64 && o2 < 64 && o3 < 64
    ensures [Digit(o0), Digit(o1), Digit(o2), Digit(o3)] == Quad(a, b, c)
  {
    hide Digit, And, Shr, Shl;
    ByteParts(a);
    ByteParts(b);
    ByteParts(c);
    ByteParts(a % 4);
    ByteParts(b % 16);
    o0 := Shr(a, 2);
    o1 := Shl(And(a, 3), 4) + Shr(b, 4);
    o2 := Shl(And(b, 15), 2) + Shr(c, 6);
    o3 := And(c, 63);
    assert o1 == a % 4 * 16 + b / 16 && o2 == b % 16 * 4 + c / 64;
  }

  /**
   b64_ntop: the encoding and a terminating zero, if the target holds both; -1
   otherwise.
   */
  method Ntop(src: seq<byte>, target: array<byte>) returns (r: int)
    modifies target
    ensures r == if Chars(|src|) < target.Length then Chars(|src|) else -1
    ensures r >= 0 ==> target[..r] == Encode(src) && target[r] == 0
  {
    hide Encode, Quad, Digit;
    var datalength, i := 0, 0;
    assert src[..0] == [] && Encode([]) == [] by {
      EncodeNothing();
    }
    while 2 < |src| - i
      invariant i % 3 == 0 && i <= |src| && datalength == i / 3 * 4 <= target.Length
      invariant target[..datalength] == Encode(src[..i])
    {
      var o0, o1, o2, o3 := Sextets(src[i], src[i + 1], src[i + 2]);
      EncodeNext(src, i);
      if datalength + 4 > target.Length {
        return -1;
      }
      Put4(target, datalength, Digit(o0), Digit(o1), Digit(o2), Digit(o3));
      datalength := datalength + 4;
      i := i + 3;
    }
    EncodePrefix(src, i);
    if |src| != i {
      var left := |src| - i;
      var in0 := src[i];
      var in1: byte := if left == 2 then src[i + 1] else 0;
      var o0, o1, o2, o3 := Sextets(in0, in1, 0);
      if datalength + 4 > target.Length {
        return -1;
      }
      Padded(src[i..], in0, in1, o0, o1, o2, o3);
      Put4(target, datalength, Digit(o0), Digit(o1), if left == 1 then PAD else Digit(o2), PAD);
      datalength := datalength + 4;
    } else {
      assert src[..i] == src;
    }
    if datalength >= target.Length {
      return -1;
    }
    target[datalength] := 0;
    return datalength;
  }

  lemma EncodeNothing()
    ensures Encode([]) == []
  {
  }

  /** The last one or two bytes, with zeros for what is missing */
  lemma Padded(left: seq<byte>, a: byte, b: byte, o0: byte, o1: byte, o2: byte, o3: byte)
    requires 1 <= |left| <= 2 && left[0] == a && b == (if |left| == 2 then left[1] else 0)
    requires o0 < 64 && o1 < 64 && o2 < 64 && o3 < 64
    requires [Digit(o0), Digit(o1), Digit(o2), Digit(o3)] == Quad(a, b, 0)
    ensures Encode(left) == [Digit(o0), Digit(o1), if |left| == 1 then PAD else Digit(o2), PAD]
  {
    var q := Quad(a, b, 0);
    assert q[0] == Digit(o0) && q[1] == Digit(o1) && q[2] == Digit(o2);
    hide Digit;
    if |left| == 1 {
      assert left == [a];
      TailOfOne(a);
    } else {
      assert left == [a, b];
      TailOfTwo(a, b);
    }
  }

  /** With a target of B64_ENCODE_LEN bytes the encoder never fails. */
  lemma EncodeLenSuffices(n: nat)
    requires n >= 1
    ensures Chars(n) < EncodeLen(n)
  {
  }

  // ----- decoding

  /** `*src`, with the zero that ends a C string */
  function Ch(src: seq<byte>, i: nat): byte
  {
    if i < |src| then src[i] else 0
  }

  predicate NoZero(src: seq<byte>)
  {
    forall i :: 0 <= i < |src| ==> src[i] != 0
  }

  lemma {:induction false} StripAppend(a: seq<byte>, b: seq<byte>)
    ensures Strip(a + b) == Strip(a) + Strip(b)
  {
    if b == [] {
      assert a + b == a;
    } else {
      var n := |b| - 1;
      assert (a + b)[..|a + b| - 1] == a + b[..n];
      StripAppend(a, b[..n]);
      hide Strip;
      assert Strip(a) + (Strip(b[..n]) + []) == Strip(a) + Strip(b[..n]) + [];
      assert Strip(a) + (Strip(b[..n]) + [b[n]]) == Strip(a) + Strip(b[..n]) + [b[n]];
    }
  }

  lemma StripOne(c: byte)
    ensures Strip([c]) == if IsSpace(c) then [] else [c]
  {
    assert [c][..0] == [];
  }

  /** Taking the next character from the rest of the string */
  lemma StripNext(src: seq<byte>, i: nat)
    requires i < |src|
    ensures Strip(src[..i + 1]) == Strip(src[..i]) + if IsSpace(src[i]) then [] else [src[i]]
    ensures Strip(src[i..]) == (if IsSpace(src[i]) then [] else [src[i]]) + Strip(src[i + 1..])
  {
    hide Strip;
    StripOne(src[i]);
    assert src[..i + 1] == src[..i] + [src[i]];
    assert src[i..] == [src[i]] + src[i + 1..];
    StripAppend(src[..i], [src[i]]);
    StripAppend([src[i]], src[i + 1..]);
  }

  lemma StripEnd()
    ensures Strip([]) == []
  {
  }

  /** The automaton's state, as the target and the two counters hold it */
  ghost predicate Holds(target: array?<byte>, tarindex: nat, state: nat, d: Dec)
    reads target
  {
    && state == d.state && tarindex == |d.out|
    && (target != null ==>
          && tarindex + (if state == 0 then 0 else 1) <= target.Length
          && target[..tarindex] == d.out
          && (state != 0 ==> target[tarindex] == d.part))
  }

  /** One digit with value `pos`: the switch of b64_pton; `ok` is false when the target has no room. */
  method Store(target: array?<byte>, tarindex0: nat, state0: nat, pos: sextet, ghost d: Dec)
    returns (ok: bool, tarindex: nat, state: nat)
    requires WfDec(d) && Holds(target, tarindex0, state0, d)
    modifies if target != null then {target} else {}
    ensures ok <==> (target != null ==> tarindex0 + (if state0 == 1 || state0 == 2 then 2 else 1) <= target.Length)
    ensures ok ==> Holds(target, tarindex, state, Push(d, pos))
  {
    ok, tarindex, state := true, tarindex0, state0;
    if state == 0 {
      if target != null {
        ok := Store0(target, tarindex, pos, d);
      }
      state := 1;
    } else if state == 1 {
      if target != null {
        ok := Store1(target, tarindex, pos, d);
      }
      tarindex := tarindex + 1;
      state := 2;
    } else if state == 2 {
      if target != null {
        ok := Store2(target, tarindex, pos, d);
      }
      tarindex := tarindex + 1;
      state := 3;
    } else {
      if target != null {
        ok := Store3(target, tarindex, pos, d);
      }
      tarindex := tarindex + 1;
      state := 0;
    }
  }

  method Store0(target: array<byte>, tarindex: nat, pos: sextet, ghost d: Dec) returns (ok: bool)
    requires WfDec(d) && Holds(target, tarindex, 0, d)
    modifies target
    ensures ok <==> tarindex + 1 <= target.Length
    ensures ok ==> Holds(target, tarindex, 1, Push(d, pos))
  {
    if tarindex >= target.Length {
      return false;
    }
    hide Shl, WfDec;
    Bits0(pos);
    target[tarindex] := Shl(pos, 2) % 256;
    return true;
  }

  method Store1(target: array<byte>, tarindex: nat, pos: sextet, ghost d: Dec) returns (ok: bool)
    requires WfDec(d) && Holds(target, tarindex, 1, d)
    modifies target
    ensures ok <==> tarindex + 2 <= target.Length
    ensures ok ==> Holds(target, tarindex + 1, 2, Push(d, pos))
  {
    if tarindex + 1 >= target.Length {
      return false;
    }
    hide Shl, Shr, And, Or, WfDec;
    Bits1(d, pos);
    target[tarindex] := Or(target[tarindex], Shr(pos, 4));
    target[tarindex + 1] := Shl(And(pos, 15), 4) % 256;
    assert target[..tarindex + 1] == d.out + [d.part + pos / 16];
    return true;
  }

  method Store2(target: array<byte>, tarindex: nat, pos: sextet, ghost d: Dec) returns (ok: bool)
    requires WfDec(d) && Holds(target, tarindex, 2, d)
    modifies target
    ensures ok <==> tarindex + 2 <= target.Length
    ensures ok ==> Holds(target, tarindex + 1, 3, Push(d, pos))
  {
    if tarindex + 1 >= target.Length {
      return false;
    }
    hide Shl, Shr, And, Or, WfDec;
    Bits2(d, pos);
    target[tarindex] := Or(target[tarindex], Shr(pos, 2));
    target[tarindex + 1] := Shl(And(pos, 3), 6) % 256;
    assert target[..tarindex + 1] == d.out + [d.part + pos / 4];
    return true;
  }

  method Store3(target: array<byte>, tarindex: nat, pos: sextet, ghost d: Dec) returns (ok: bool)
    requires WfDec(d) && Holds(target, tarindex, 3, d)
    modifies target
    ensures ok <==> tarindex + 1 <= target.Length
    ensures ok ==> Holds(target, tarindex + 1, 0, Push(d, pos))
  {
    if tarindex >= target.Length {
      return false;
    }
    hide Or, WfDec;
    Bits3(d, pos);
    target[tarindex] := Or(target[tarindex], pos);
    assert target[..tarindex + 1] == d.out + [d.part + pos];
    return true;
  }

  lemma Bits0(pos: sextet)
    ensures Shl(pos, 2) % 256 == pos * 4
  {
    hide Shl, Shr, And;
    ByteParts(pos);
  }

  lemma Bits1(d: Dec, pos: sextet)
    requires WfDec(d) && d.state == 1
    ensures Or(d.part, Shr(pos, 4)) == d.part + pos / 16 < 256
    ensures Shl(And(pos, 15), 4) % 256 == pos % 16 * 16
  {
    hide Shl, Shr, And, Or;
    ByteParts(pos);
    ByteParts(pos % 16);
    PowersOfTwo();
    OrInto(d.part, 2, pos / 16);
  }

  lemma Bits2(d: Dec, pos: sextet)
    requires WfDec(d) && d.state == 2
    ensures Or(d.part, Shr(pos, 2)) == d.part + pos / 4 < 256
    ensures Shl(And(pos, 3), 6) % 256 == pos % 4 * 64
  {
    hide Shl, Shr, And, Or;
    ByteParts(pos);
    ByteParts(pos % 4);
    PowersOfTwo();
    OrInto(d.part, 4, pos / 4);
  }

  lemma Bits3(d: Dec, pos: sextet)
    requires WfDec(d) && d.state == 3
    ensures Or(d.part, pos) == d.part + pos < 256
  {
    hide Or;
    PowersOfTwo();
    OrInto(d.part, 6, pos);
  }

  /** `|=` into a byte whose low bits are clear */
  lemma OrInto(part: nat, k: nat, v: nat)
    requires part % Pow2(k) == 0 && v < Pow2(k)
    ensures Or(part, v) == part + v
  {
    var p := Pow2(k);
    assert part == part / p * p;
    OrIsSum(part / p, k, v);
  }

  /**
   What b64_pton answers for a string that is `t` without its spaces; `size` is that
   of the target, if there is one.
   */
  function Answer(t: seq<byte>, size: Option<nat>): int
  {
    match Decode(t, size.Some?)
    case None => -1
    case Some(d) => if size.Some? && Room(DigitsFirst(t)) > size.value then -1 else |d|
  }

  function SizeOf(target: array?<byte>): Option<nat>
  {
    if target == null then None else Some(target.Length)
  }

  /** A character that is neither digit, space nor pad spoils the string. */
  lemma BadCharacter(t: seq<byte>, c: byte, later: seq<byte>, size: Option<nat>)
    requires AllDigits(t) && Value(c).None? && c != PAD
    ensures Answer(t + ([c] + later), size) == -1
  {
    hide AllDigits, Run, DigitsFirst, Value;
    Parts(t, [c] + later);
  }

  lemma NoRoom(t: seq<byte>, c: byte, later: seq<byte>, size: Option<nat>)
    requires AllDigits(t) && Value(c).Some? && size.Some? && Room(|t| + 1) > size.value
    ensures Answer(t + ([c] + later), size) == -1
  {
    var full := t + ([c] + later);
    var m := DigitsFirst(full);
    assert full[|t|] == c && forall k :: 0 <= k < |t| ==> full[k] == t[k];
    RoomGrows(|t| + 1, m);
  }

  lemma RoomGrows(m: nat, n: nat)
    requires m <= n
    ensures Room(m) <= Room(n)
  {
  }

  /** The loop over the digits; it ends at the zero or at a pad (`ch`), the latter already taken, or fails. */
  method Digits(src: seq<byte>, target: array?<byte>)
    returns (ok: bool, ch: byte, i: nat, state: nat, tarindex: nat, ghost t: seq<byte>)
    requires NoZero(src)
    modifies if target != null then {target} else {}
    ensures !ok ==> Answer(Strip(src), SizeOf(target)) == -1
    ensures ok ==>
      && i <= |src| && AllDigits(t) && Holds(target, tarindex, state, Run(t))
      && (target != null ==> Room(|t|) <= target.Length)
      && (ch == 0 || ch == PAD)
      && Strip(src) == t + ((if ch == PAD then [PAD] else []) + Strip(src[i..]))
      && (ch == 0 ==> i == |src|)
  {
    hide Run, Strip, AllDigits, Value, DigitsFirst, Decode, Room, Push, WfDec, Answer;
    state, tarindex, i, t := 0, 0, 0, [];
    StartOfDigits(src);
    while true
      invariant i <= |src| && AllDigits(t) && Holds(target, tarindex, state, Run(t))
      invariant Strip(src) == t + Strip(src[i..])
      invariant target != null ==> Room(|t|) <= target.Length
      decreases |src| - i
    {
      ch := Ch(src, i);
      if ch == 0 {
        EmptyLeft(Strip(src[i..]));
        return true, ch, i, state, tarindex, t;
      }
      StripNext(src, i);
      i := i + 1;
      if IsSpace(ch) {
        EmptyLeft(Strip(src[i..]));
        continue;
      }
      if ch == PAD {
        return true, ch, i, state, tarindex, t;
      }
      var pos := Value(ch);
      if pos == None {
        BadCharacter(t, ch, Strip(src[i..]), SizeOf(target));
        return false, ch, i, state, tarindex, t;
      }
      RunPush(t, ch);
      RoomStep(t);
      ok, tarindex, state := Store(target, tarindex, state, pos.value, Run(t));
      if !ok {
        NoRoom(t, ch, Strip(src[i..]), SizeOf(target));
        return false, ch, i, state, tarindex, t;
      }
      Assoc(t, [ch], Strip(src[i..]));
      t := t + [ch];
    }
  }

  lemma EmptyLeft(s: seq<byte>)
    ensures [] + s == s
  {
  }

  lemma StartOfDigits(src: seq<byte>)
    ensures AllDigits([]) && Run([]) == FRESH && Room(0) == 0
    ensures Strip(src) == [] + Strip(src[0..])
  {
    assert src[0..] == src;
  }

  /** The room one more digit needs, in terms of the counters */
  lemma RoomStep(t: seq<byte>)
    requires AllDigits(t)
    ensures var d := Run(t);
      WfDec(d) && Room(|t| + 1) == |d.out| + (if d.state == 1 || d.state == 2 then 2 else 1)
  {
    hide Run;
    var n := |t|;
    assert n == n / 4 * 4 + n % 4;
  }

  /** The loop that skips spaces before the second pad; `ch` is the character it stops at, already taken. */
  method SkipSpaces(src: seq<byte>, i0: nat) returns (ch: byte, i: nat)
    requires NoZero(src) && i0 <= |src|
    ensures i <= |src| && !IsSpace(ch)
    ensures Strip(src[i0..]) == (if ch == 0 then [] else [ch]) + Strip(src[i..])
    ensures ch == 0 ==> i == |src|
  {
    hide Strip;
    i := i0;
    ch := Ch(src, i);
    while ch != 0
      invariant i <= |src| && ch == Ch(src, i) && Strip(src[i0..]) == Strip(src[i..])
      decreases |src| - i
    {
      StripNext(src, i);
      i := i + 1;
      if !IsSpace(ch) {
        return;
      }
      EmptyLeft(Strip(src[i..]));
      ch := Ch(src, i);
    }
    EmptyLeft(Strip(src[i..]));
  }

  /** The loop that lets nothing but spaces follow the last pad */
  method OnlySpaces(src: seq<byte>, i0: nat) returns (ok: bool)
    requires NoZero(src) && i0 <= |src|
    ensures ok <==> Strip(src[i0..]) == []
  {
    hide Strip;
    var i := i0;
    var ch := Ch(src, i);
    while ch != 0
      invariant i <= |src| && ch == Ch(src, i) && Strip(src[i0..]) == Strip(src[i..])
      decreases |src| - i
    {
      StripNext(src, i);
      if !IsSpace(ch) {
        return false;
      }
      i := i + 1;
      EmptyLeft(Strip(src[i..]));
      ch := Ch(src, i);
    }
    StripEnd();
    assert src[i..] == [];
    return true;
  }

  /**
   b64_pton: the length of what the string decodes to, which is then in the
   target, or -1. Without a target the bits that make no byte go unchecked.
   */
  method Pton(src: seq<byte>, target: array?<byte>) returns (r: int)
    requires NoZero(src)
    modifies if target != null then {target} else {}
    ensures r == Answer(Strip(src), SizeOf(target))
    ensures r >= 0 && target != null ==>
      r <= target.Length && Decode(Strip(src), true) == Some(target[..r])
  {
    hide Run, Strip, AllDigits, Value, DigitsFirst, Decode, Room, WfDec, Answer;
    ghost var t;
    var ok, ch, i, state, tarindex;
    ok, ch, i, state, tarindex, t := Digits(src, target);
    if !ok {
      return -1;
    }
    ghost var full, d, size := Strip(src), Run(t), SizeOf(target);
    if ch == PAD {
      ghost var later := Strip(src[i..]);
      AfterPad(t, later, size);
      if state == 0 || state == 1 {
        return -1;
      }
      if state == 2 {
        ch, i := SkipSpaces(src, i);
        if ch != PAD {
          StripEnd();
          assert ch == 0 ==> src[i..] == [];
          assert ch != 0 ==> later[0] == ch;
          return -1;
        }
        assert later[0] == PAD && later[1..] == Strip(src[i..]);
      }
      ok := OnlySpaces(src, i);
      if !ok {
        return -1;
      }
      if target != null && target[tarindex] != 0 {
        return -1;
      }
    } else {
      StripEnd();
      assert src[i..] == [];
      AtEnd(t, size);
      if state != 0 {
        return -1;
      }
    }
    return tarindex;
  }

  /** The answer when a pad follows the digits `t`, and then `later` */
  lemma AfterPad(t: seq<byte>, later: seq<byte>, size: Option<nat>)
    requires AllDigits(t) && (size.Some? ==> Room(|t|) <= size.value)
    ensures var full, d := t + ([PAD] + later), Run(t);
      var good := ((d.state == 2 && later == [PAD]) || (d.state == 3 && later == [])) && (size.Some? ==> d.part == 0);
      && Answer(full, size) == (if good then |d.out| else -1)
      && (good && size.Some? ==> Decode(full, true) == Some(d.out))
  {
    hide Run, AllDigits, DigitsFirst, Value, Room, WfDec;
    PadIsNoDigit();
    Parts(t, [PAD] + later);
    assert [PAD] + [PAD] == [PAD, PAD] && [PAD] + [] == [PAD];
    assert later != [] ==> ([PAD] + later)[1..] == later;
  }

  lemma AtEnd(t: seq<byte>, size: Option<nat>)
    requires AllDigits(t) && (size.Some? ==> Room(|t|) <= size.value)
    ensures var full, d := t + ([] + []), Run(t);
      && Answer(full, size) == (if d.state == 0 then |d.out| else -1)
      && (d.state == 0 && size.Some? ==> Decode(full, true) == Some(d.out))
  {
    hide Run, AllDigits, DigitsFirst, Value, Room, WfDec;
    Parts(t, []);
    assert t + ([] + []) == t + [];
  }

  // ----- main results

  lemma {:induction false} StripShortens(s: seq<byte>)
    ensures |Strip(s)| <= |s|
  {
    if s != [] {
      StripShortens(s[..|s| - 1]);
    }
  }

  /** With a target of three quarters of the string, rounded up, no size check of the decoder ever fires. */
  lemma DecodeLenSuffices(s: seq<byte>, size: nat)
    requires size >= DecodeLen(|s|)
    ensures Room(DigitsFirst(Strip(s))) <= size
  {
    StripShortens(s);
    var m := DigitsFirst(Strip(s));
    hide DigitsFirst, Strip;
    assert m == m / 4 * 4 + m % 4;
    assert Room(m) <= DecodeLen(m) <= DecodeLen(|s|);
  }

  /**
   With such a target, b64_pton succeeds with the bytes `d` if and only if the
   string, its spaces removed, is what b64_ntop makes of `d`.
   */
  lemma PtonIffNtop(s: seq<byte>, size: nat, d: seq<byte>)
    requires size >= DecodeLen(|s|)
    ensures Answer(Strip(s), Some(size)) >= 0 && Decode(Strip(s), true) == Some(d) <==> Strip(s) == Encode(d)
    ensures Strip(s) == Encode(d) ==> Answer(Strip(s), Some(size)) == |d|
  {
    hide Decode, Encode, DigitsFirst, Strip, Room;
    DecodeLenSuffices(s, size);
    DecodeIffEncode(Strip(s), d);
  }

  lemma {:induction false} StripNone(t: seq<byte>)
    requires forall i :: 0 <= i < |t| ==> !IsSpace(t[i])
    ensures Strip(t) == t
  {
    if t != [] {
      StripNone(t[..|t| - 1]);
    }
  }

  lemma {:induction false} EncodeNoSpace(d: seq<byte>)
    ensures forall i :: 0 <= i < |Encode(d)| ==> !IsSpace(Encode(d)[i]) && Encode(d)[i] != 0
  {
    if |d| > 2 {
      EncodeNoSpace(d[3..]);
    }
  }

  /** Decoding what was encoded gives it back, and the zero bytes and spaces a C string cannot carry do not occur. */
  lemma EncodeDecodeRoundTrip(d: seq<byte>)
    ensures NoZero(Encode(d)) && Strip(Encode(d)) == Encode(d)
    ensures Answer(Strip(Encode(d)), Some(DecodeLen(Chars(|d|)))) == |d|
    ensures Decode(Strip(Encode(d)), true) == Some(d)
  {
    EncodeNoSpace(d);
    hide Decode, Encode, DigitsFirst, Strip, Room, Answer;
    StripNone(Encode(d));
    PtonIffNtop(Encode(d), DecodeLen(Chars(|d|)), d);
    DecodeIffEncode(Encode(d), d);
  }

  /** A call without a target accepts a string that is no encoding exactly when bits that make no byte are set. */
  lemma LooseWhen(t: seq<byte>)
    requires Decode(t, false).Some?
    ensures Answer(t, None) == |Decode(t, false).value|
    ensures t == Encode(Decode(t, false).value) <==> Run(t[..DigitsFirst(t)]).part == 0
  {
    hide Encode, DigitsFirst, Run;
    var d := Decode(t, false).value;
    DecodeIffEncode(t, d);
  }

  /** "QR==" is such a string: the encoder never writes it, yet without a target it counts as one byte. */
  lemma LooseExample()
    ensures var t := [81, 82, PAD, PAD];
      Answer(t, None) == 1 && forall d: seq<byte> :: t != Encode(d)
  {
    var t: seq<byte> := [81, 82, PAD, PAD];
    RunTwo([], 81, 82);
    assert [] + [81, 82] == [81, 82];
    Parts([81, 82], [PAD, PAD]);
    assert [81, 82] + [PAD, PAD] == t;
    hide Encode, DigitsFirst, Run;
    forall d: seq<byte>
      ensures t != Encode(d)
    {
      DecodeIffEncode(t, d);
    }
  }
}
