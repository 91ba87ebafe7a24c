/**
 The Base64 encoder and decoder of lua_b64.c. A character is the value of its
 byte; a C string is its bytes before the terminating zero.
 */
module Base64 {
  import opened Basics

  type sextet = x: int | 0 <= x < 64

  const PAD: byte := 61

  /** The alphabet of RFC 1521, table 1 */
  function Digit(v: sextet): (c: byte)
    ensures c != PAD && !IsSpace(c) && c != 0
  {
    if v < 26 then 65 + v
    else if v < 52 then 97 + (v - 26)
    else if v < 62 then 48 + (v - 52)
    else if v == 62 then 43
    else 47
  }

  /** `strchr` in the alphabet */
  function Value(c: byte): Option<sextet>
  {
    if 65 <= c <= 90 then Some(c - 65)
    else if 97 <= c <= 122 then Some(c - 97 + 26)
    else if 48 <= c <= 57 then Some(c - 48 + 52)
    else if c == 43 then Some(62)
    else if c == 47 then Some(63)
    else None
  }

  /** `isspace` in the C locale */
  predicate IsSpace(c: byte)
  {
    c == 32 || 9 <= c <= 13
  }

  lemma ValueOfDigit(v: sextet)
    ensures Value(Digit(v)) == Some(v)
  {
  }

  lemma DigitOfValue(c: byte)
    requires Value(c).Some?
    ensures Digit(Value(c).value) == c
  {
  }

  // ----- the encoding

  /** The four digits of three bytes */
  function Quad(a: byte, b: byte, c: byte): (q: seq<byte>)
    ensures |q| == 4
  {
    [Digit(a / 4), Digit(a % 4 * 16 + b / 16), Digit(b % 16 * 4 + c / 64), Digit(c % 64)]
  }

  /** The three bytes of four sextets */
  function Byte1(a: sextet, b: sextet): byte
  {
    a * 4 + b / 16
  }

  function Byte2(b: sextet, c: sextet): byte
  {
    b % 16 * 16 + c / 4
  }

  function Byte3(c: sextet, d: sextet): byte
  {
    c % 4 * 64 + d
  }

  function Encode(d: seq<byte>): (t: seq<byte>)
    ensures |t| == (|d| + 2) / 3 * 4
  {
    if d == [] then []
    else if |d| == 1 then [Digit(d[0] / 4), Digit(d[0] % 4 * 16), PAD, PAD]
    else if |d| == 2 then [Digit(d[0] / 4), Digit(d[0] % 4 * 16 + d[1] / 16), Digit(d[1] % 16 * 4), PAD]
    else Quad(d[0], d[1], d[2]) + Encode(d[3..])
  }

  /** B64_CHARS */
  function Chars(n: nat): nat
  {
    (n + 2) / 3 * 4
  }

  /** B64_ENCODE_LEN, for which the empty input is no use: `B64_CHARS(0) - 1` wraps */
  function EncodeLen(n: nat): nat
    requires n >= 1
  {
    Chars(n) + (Chars(n) - 1) / 76 + 1
  }

  /** B64_DECODE_LEN: three quarters, rounded up */
  function DecodeLen(n: nat): nat
  {
    (3 * n + 3) / 4
  }

  // ----- the decoder's automaton

  /** `out` is the finished bytes, `part` the byte begun, `state` the number of digits since the last quad. */
  datatype Dec = Dec(out: seq<byte>, part: nat, state: nat)

  const FRESH: Dec := Dec([], 0, 0)

  predicate WfDec(d: Dec)
  {
    || (d.state == 0 && d.part == 0)
    || (d.state == 1 && d.part % 4 == 0 && d.part < 256)
    || (d.state == 2 && d.part % 16 == 0 && d.part < 256)
    || (d.state == 3 && d.part % 64 == 0 && d.part < 256)
  }

  function Push(d: Dec, v: sextet): (e: Dec)
    requires WfDec(d)
    ensures WfDec(e) && e.state == (d.state + 1) % 4
    ensures |e.out| == |d.out| + if d.state == 0 then 0 else 1
  {
    if d.state == 0 then Dec(d.out, v * 4, 1)
    else if d.state == 1 then Dec(d.out + [d.part + v / 16], v % 16 * 16, 2)
    else if d.state == 2 then Dec(d.out + [d.part + v / 4], v % 4 * 64, 3)
    else Dec(d.out + [d.part + v], 0, 0)
  }

  predicate AllDigits(t: seq<byte>)
  {
    forall i :: 0 <= i < |t| ==> Value(t[i]).Some?
  }

  /** How many bytes `n` digits finish */
  function Finished(n: nat): nat
  {
    n / 4 * 3 + if n % 4 == 0 then 0 else n % 4 - 1
  }

  lemma OneMoreDigit(n: nat)
    ensures Finished(n + 1) == Finished(n) + if n % 4 == 0 then 0 else 1
    ensures (n + 1) % 4 == (n % 4 + 1) % 4
  {
  }

  /** The automaton after the digits `t` */
  function Run(t: seq<byte>): (d: Dec)
    requires AllDigits(t)
    ensures WfDec(d) && d.state == |t| % 4
    ensures |d.out| == Finished(|t|)
  {
    if t == [] then FRESH
    else
      var n := |t| - 1;
      assert AllDigits(t[..n]);
      OneMoreDigit(n);
      Push(Run(t[..n]), Value(t[n]).value)
  }

  /** How many digits come before the first other character */
  function DigitsFirst(t: seq<byte>): (m: nat)
    ensures m <= |t| && AllDigits(t[..m])
    ensures m < |t| ==> Value(t[m]).None?
  {
    if t == [] || Value(t[0]).None? then 0
    else
      var m := 1 + DigitsFirst(t[1..]);
      assert forall i :: 0 < i < m ==> t[i] == t[1..][i - 1];
      m
  }

  function Strip(s: seq<byte>): seq<byte>
  {
    if s == [] then []
    else
      var n := |s| - 1;
      Strip(s[..n]) + if IsSpace(s[n]) then [] else [s[n]]
  }

  /**
   What the decoder makes of a string without spaces: the digits, then nothing,
   or the padding their number calls for. `strict` asks that the bits that do not
   make a byte are zero.
   */
  function Decode(t: seq<byte>, strict: bool): Option<seq<byte>>
  {
    var m := DigitsFirst(t);
    var d := Run(t[..m]);
    if t[m..] == [] then (if d.state == 0 then Some(d.out) else None)
    else if d.state == 2 && t[m..] == [PAD, PAD] && (strict ==> d.part == 0) then Some(d.out)
    else if d.state == 3 && t[m..] == [PAD] && (strict ==> d.part == 0) then Some(d.out)
    else None
  }

  /** The room the decoder wants in its target for `m` digits */
  function Room(m: nat): nat
  {
    m / 4 * 3 + m % 4
  }

  // ----- the encoding, cut at a multiple of three bytes

  lemma EncodeStep(d: seq<byte>)
    requires |d| >= 3
    ensures Encode(d) == Quad(d[0], d[1], d[2]) + Encode(d[3..])
  {
    hide Quad, Digit;
  }

  lemma EncodeEmpty()
    ensures Encode([]) == []
  {
  }

  lemma FirstThree(d: seq<byte>, e: seq<byte>)
    requires |d| >= 3
    ensures var s := d + e; s[3..] == d[3..] + e && s[0] == d[0] && s[1] == d[1] && s[2] == d[2]
  {
  }

  lemma {:induction false} EncodeAppend(d: seq<byte>, e: seq<byte>)
    requires |d| % 3 == 0
    ensures Encode(d + e) == Encode(d) + Encode(e)
  {
    hide *;
    if d == [] {
      EncodeEmpty();
      EmptyUnit(e);
      EmptyUnit(Encode(e));
    } else {
      FirstThree(d, e);
      EncodeStep(d + e);
      EncodeStep(d);
      EncodeAppend(d[3..], e);
      Assoc(Quad(d[0], d[1], d[2]), Encode(d[3..]), Encode(e));
    }
  }

  lemma RunPush(t: seq<byte>, c: byte)
    requires AllDigits(t) && Value(c).Some?
    ensures AllDigits(t + [c]) && Run(t + [c]) == Push(Run(t), Value(c).value)
  {
    assert (t + [c])[..|t + [c]| - 1] == t;
  }

  lemma Snoc2(o: seq<byte>, p: byte, q: byte)
    ensures o + [p] + [q] == o + [p, q]
  {
  }

  lemma Snoc3(o: seq<byte>, p: byte, q: byte, r: byte)
    ensures o + [p, q] + [r] == o + [p, q, r]
  {
  }

  lemma Snoc4(o: seq<byte>, p: byte, q: byte, r: byte, s: byte)
    ensures o + [p, q, r] + [s] == o + [p, q, r, s]
  {
  }

  lemma Pushes(o: seq<byte>, a: sextet, b: sextet, c: sextet, d: sextet)
    ensures Push(Dec(o, 0, 0), a) == Dec(o, a * 4, 1)
    ensures Push(Dec(o, a * 4, 1), b) == Dec(o + [Byte1(a, b)], b % 16 * 16, 2)
    ensures Push(Dec(o, b % 16 * 16, 2), c) == Dec(o + [Byte2(b, c)], c % 4 * 64, 3)
    ensures Push(Dec(o, c % 4 * 64, 3), d) == Dec(o + [Byte3(c, d)], 0, 0)
  {
  }

  /** Two more digits after complete quads finish one byte. */
  lemma RunTwo(t: seq<byte>, w: byte, x: byte)
    requires AllDigits(t) && |t| % 4 == 0 && Value(w).Some? && Value(x).Some?
    ensures AllDigits(t + [w, x])
    ensures Run(t + [w, x]) == Dec(Run(t).out + [Byte1(Value(w).value, Value(x).value)], Value(x).value % 16 * 16, 2)
  {
    hide Run, Value, AllDigits, Push, Byte1, WfDec;
    var a, b := Value(w).value, Value(x).value;
    RunOut(t);
    RunPush(t, w);
    RunPush(t + [w], x);
    Pushes(Run(t).out, a, b, 0, 0);
    Snoc2(t, w, x);
  }

  lemma RunThree(t: seq<byte>, w: byte, x: byte, y: byte)
    requires AllDigits(t) && |t| % 4 == 0 && Value(w).Some? && Value(x).Some? && Value(y).Some?
    ensures AllDigits(t + [w, x, y])
    ensures var a, b, c := Value(w).value, Value(x).value, Value(y).value;
      Run(t + [w, x, y]) == Dec(Run(t).out + [Byte1(a, b), Byte2(b, c)], c % 4 * 64, 3)
  {
    hide Run, Value, AllDigits, Push, Byte1, Byte2, WfDec;
    RunTwo(t, w, x);
    RunPush(t + [w, x], y);
    Snoc3(t, w, x, y);
    var a, b, c := Value(w).value, Value(x).value, Value(y).value;
    Pushes(Run(t).out + [Byte1(a, b)], a, b, c, 0);
    Snoc2(Run(t).out, Byte1(a, b), Byte2(b, c));
  }

  /** Four more digits complete three bytes. */
  lemma RunQuad(t: seq<byte>, w: byte, x: byte, y: byte, z: byte)
    requires AllDigits(t) && |t| % 4 == 0
    requires Value(w).Some? && Value(x).Some? && Value(y).Some? && Value(z).Some?
    ensures AllDigits(t + [w, x, y, z])
    ensures var a, b, c, d := Value(w).value, Value(x).value, Value(y).value, Value(z).value;
      Run(t + [w, x, y, z]) == Dec(Run(t).out + [Byte1(a, b), Byte2(b, c), Byte3(c, d)], 0, 0)
  {
    hide Run, Value, AllDigits, Push, Byte1, Byte2, Byte3, WfDec;
    RunThree(t, w, x, y);
    RunPush(t + [w, x, y], z);
    Snoc4(t, w, x, y, z);
    var a, b, c, d := Value(w).value, Value(x).value, Value(y).value, Value(z).value;
    Pushes(Run(t).out + [Byte1(a, b), Byte2(b, c)], a, b, c, d);
    Snoc3(Run(t).out, Byte1(a, b), Byte2(b, c), Byte3(c, d));
  }

  /** Splitting three bytes into sextets and putting them together again */
  lemma QuadValues(a: byte, b: byte, c: byte)
    ensures var q := Quad(a, b, c);
      && (forall i :: 0 <= i < 4 ==> Value(q[i]).Some?)
      && Byte1(Value(q[0]).value, Value(q[1]).value) == a
      && Byte2(Value(q[1]).value, Value(q[2]).value) == b
      && Byte3(Value(q[2]).value, Value(q[3]).value) == c
  {
    ValueOfDigit(a / 4);
    ValueOfDigit(a % 4 * 16 + b / 16);
    ValueOfDigit(b % 16 * 4 + c / 64);
    ValueOfDigit(c % 64);
  }

  lemma {:induction false} RunOfEncode(d: seq<byte>)
    requires |d| % 3 == 0
    ensures AllDigits(Encode(d)) && Run(Encode(d)) == Dec(d, 0, 0)
  {
    if d != [] {
      var n := |d| - 3;
      var front, a, b, c := d[..n], d[n], d[n + 1], d[n + 2];
      assert d == front + [a, b, c];
      RunOfEncode(front);
      EncodeAppend(front, [a, b, c]);
      EncodeThree(a, b, c);
      hide Encode, Run;
      QuadValues(a, b, c);
      var q := Quad(a, b, c);
      RunQuad(Encode(front), q[0], q[1], q[2], q[3]);
      assert q == [q[0], q[1], q[2], q[3]];
    }
  }

  lemma EncodeThree(a: byte, b: byte, c: byte)
    ensures Encode([a, b, c]) == Quad(a, b, c)
  {
    assert [a, b, c][3..] == [];
  }

  lemma SextetsBack(a: sextet, b: sextet, c: sextet, d: sextet)
    ensures Quad(Byte1(a, b), Byte2(b, c), Byte3(c, d)) == [Digit(a), Digit(b), Digit(c), Digit(d)]
  {
    hide Digit;
    var p, q, r := Byte1(a, b), Byte2(b, c), Byte3(c, d);
    assert p / 4 == a;
    assert p % 4 * 16 + q / 16 == b;
    assert q % 16 * 4 + r / 64 == c;
    assert r % 64 == d;
    hide Byte1, Byte2, Byte3;
  }

  lemma {:induction false} EncodeOfRun(t: seq<byte>)
    requires AllDigits(t) && |t| % 4 == 0
    ensures Encode(Run(t).out) == t
  {
    if t != [] {
      var n := |t| - 4;
      var front, w, x, y, z := t[..n], t[n], t[n + 1], t[n + 2], t[n + 3];
      assert AllDigits(front);
      assert t == front + [w, x, y, z];
      EncodeOfRun(front);
      RunOut(front);
      RunQuad(front, w, x, y, z);
      hide Run, AllDigits, Encode, Value, Digit;
      var a, b, c, d := Value(w).value, Value(x).value, Value(y).value, Value(z).value;
      EncodeAppend(Run(front).out, [Byte1(a, b), Byte2(b, c), Byte3(c, d)]);
      EncodeThree(Byte1(a, b), Byte2(b, c), Byte3(c, d));
      SextetsBack(a, b, c, d);
      hide Quad;
      DigitOfValue(w);
      DigitOfValue(x);
      DigitOfValue(y);
      DigitOfValue(z);
    }
  }

  lemma RunOut(t: seq<byte>)
    requires AllDigits(t) && |t| % 4 == 0
    ensures |Run(t).out| % 3 == 0 && Run(t) == Dec(Run(t).out, 0, 0)
  {
    hide Run;
    assert |Run(t).out| == |t| / 4 * 3;
  }

  // ----- the padded end

  /** One byte at the end is two digits, the second with clear low bits. */
  lemma TailOfOne(a: byte)
    ensures Encode([a]) == [Digit(a / 4), Digit(a % 4 * 16), PAD, PAD]
  {
  }

  lemma TailOfTwo(a: byte, b: byte)
    ensures Encode([a, b]) == [Digit(a / 4), Digit(a % 4 * 16 + b / 16), Digit(b % 16 * 4), PAD]
  {
  }

  lemma {:induction false} DigitsFirstIs(t: seq<byte>, m: nat)
    requires m <= |t| && AllDigits(t[..m]) && (m < |t| ==> Value(t[m]).None?)
    ensures DigitsFirst(t) == m
  {
    var k := DigitsFirst(t);
    assert forall i :: 0 <= i < m ==> t[..m][i] == t[i];
    assert forall i :: 0 <= i < k ==> t[..k][i] == t[i];
  }

  /** How a string falls apart into digits and the rest */
  lemma Parts(body: seq<byte>, pads: seq<byte>)
    requires AllDigits(body) && (pads != [] ==> Value(pads[0]).None?)
    ensures var t := body + pads;
      DigitsFirst(t) == |body| && t[..|body|] == body && t[|body|..] == pads
  {
    var t := body + pads;
    assert t[..|body|] == body && t[|body|..] == pads;
    assert pads != [] ==> t[|body|] == pads[0];
    DigitsFirstIs(t, |body|);
  }

  /** A byte left over after complete triples: its two digits and two pads */
  lemma DecodeOne(f: seq<byte>, o: seq<byte>, a: byte)
    requires AllDigits(f) && |f| % 4 == 0 && Run(f).out == o
    ensures Decode(f + Encode([a]), true) == Some(o + [a])
  {
    hide Run, AllDigits, DigitsFirst, Digit, Value;
    var w, x := Digit(a / 4), Digit(a % 4 * 16);
    ValueOfDigit(a / 4);
    ValueOfDigit(a % 4 * 16);
    TailOfOne(a);
    hide Encode;
    RunTwo(f, w, x);
    PadIsNoDigit();
    Parts(f + [w, x], [PAD, PAD]);
    assert f + [w, x, PAD, PAD] == f + [w, x] + [PAD, PAD];
  }

  lemma PadIsNoDigit()
    ensures Value(PAD).None?
  {
  }

  lemma DecodeTwo(f: seq<byte>, o: seq<byte>, a: byte, b: byte)
    requires AllDigits(f) && |f| % 4 == 0 && Run(f).out == o
    ensures Decode(f + Encode([a, b]), true) == Some(o + [a, b])
  {
    hide Run, AllDigits, DigitsFirst, Digit, Value;
    var w, x, y := Digit(a / 4), Digit(a % 4 * 16 + b / 16), Digit(b % 16 * 4);
    ValueOfDigit(a / 4);
    ValueOfDigit(a % 4 * 16 + b / 16);
    ValueOfDigit(b % 16 * 4);
    TailOfTwo(a, b);
    hide Encode;
    RunThree(f, w, x, y);
    PadIsNoDigit();
    Parts(f + [w, x, y], [PAD]);
    ThreeAndOne(f, w, x, y, PAD);
  }

  lemma DecodeNone(f: seq<byte>)
    requires AllDigits(f) && |f| % 4 == 0
    ensures Decode(f, true) == Some(Run(f).out)
  {
    hide Run, AllDigits, DigitsFirst, Value;
    Parts(f, []);
    assert f + [] == f;
  }

  /** The decoder accepts every encoding, and gives back what was encoded. */
  lemma DecodeOfEncode(d: seq<byte>)
    ensures Decode(Encode(d), true) == Some(d)
  {
    hide Run, AllDigits, DigitsFirst, Encode, Decode;
    var n := |d| / 3 * 3;
    var front := d[..n];
    RunOfEncode(front);
    EncodeAppend(front, d[n..]);
    assert d == front + d[n..];
    if |d| == n {
      assert front == d;
      DecodeNone(Encode(d));
    } else if |d| == n + 1 {
      assert d[n..] == [d[n]];
      DecodeOne(Encode(front), front, d[n]);
    } else {
      assert d[n..] == [d[n], d[n + 1]];
      DecodeTwo(Encode(front), front, d[n], d[n + 1]);
    }
  }

  lemma OneByteBack(a: sextet, b: sextet)
    requires b % 16 == 0
    ensures Encode([Byte1(a, b)]) == [Digit(a), Digit(b), PAD, PAD]
  {
    hide Digit;
    var p := Byte1(a, b);
    TailOfOne(p);
    hide Encode;
    assert p / 4 == a && p % 4 * 16 == b;
  }

  lemma TwoBytesBack(a: sextet, b: sextet, c: sextet)
    requires c % 4 == 0
    ensures Encode([Byte1(a, b), Byte2(b, c)]) == [Digit(a), Digit(b), Digit(c), PAD]
  {
    hide Digit;
    var p, q := Byte1(a, b), Byte2(b, c);
    TailOfTwo(p, q);
    hide Encode;
    assert p / 4 == a && p % 4 * 16 + q / 16 == b && q % 16 * 4 == c;
  }

  lemma TwoAndTwo(f: seq<byte>, w: byte, x: byte, y: byte, z: byte)
    ensures f + [w, x, y, z] == f + [w, x] + [y, z]
  {
  }

  lemma ThreeAndOne(f: seq<byte>, w: byte, x: byte, y: byte, z: byte)
    ensures f + [w, x, y, z] == f + [w, x, y] + [z]
  {
  }

  lemma EncodeOfTwoDigits(f: seq<byte>, w: byte, x: byte)
    requires AllDigits(f) && |f| % 4 == 0 && Value(w).Some? && Value(x).Some? && Value(x).value % 16 == 0
    ensures Encode(Run(f).out + [Byte1(Value(w).value, Value(x).value)]) == f + [w, x] + [PAD, PAD]
  {
    hide *;
    var a, b := Value(w).value, Value(x).value;
    OneByteBack(a, b);
    EncodeOfRun(f);
    RunOut(f);
    EncodeAppend(Run(f).out, [Byte1(a, b)]);
    DigitOfValue(w);
    DigitOfValue(x);
    TwoAndTwo(f, w, x, PAD, PAD);
  }

  lemma EncodeOfThreeDigits(f: seq<byte>, w: byte, x: byte, y: byte)
    requires AllDigits(f) && |f| % 4 == 0
    requires Value(w).Some? && Value(x).Some? && Value(y).Some? && Value(y).value % 4 == 0
    ensures Encode(Run(f).out + [Byte1(Value(w).value, Value(x).value), Byte2(Value(x).value, Value(y).value)])
         == f + [w, x, y] + [PAD]
  {
    hide *;
    var a, b, c := Value(w).value, Value(x).value, Value(y).value;
    TwoBytesBack(a, b, c);
    EncodeOfRun(f);
    RunOut(f);
    EncodeAppend(Run(f).out, [Byte1(a, b), Byte2(b, c)]);
    DigitOfValue(w);
    DigitOfValue(x);
    DigitOfValue(y);
    ThreeAndOne(f, w, x, y, PAD);
  }

  /** The complete quads of a run of digits, and the digits after them */
  lemma DigitsSplit(body: seq<byte>)
    requires AllDigits(body)
    ensures var n := |body| / 4 * 4;
      AllDigits(body[..n]) && forall i :: n <= i < |body| ==> Value(body[i]).Some?
  {
  }

  /** Whatever the decoder accepts is the encoding of what it makes of it. */
  lemma EncodeOfDecode(t: seq<byte>)
    requires Decode(t, true).Some?
    ensures Encode(Decode(t, true).value) == t
  {
    hide Run, AllDigits, DigitsFirst, Value, Encode;
    var m := DigitsFirst(t);
    var body := t[..m];
    var n := m / 4 * 4;
    var front, d := body[..n], Run(body);
    assert t == body + t[m..];
    DigitsSplit(body);
    if d.state == 0 {
      assert body + [] == body;
      EncodeOfRun(body);
    } else if d.state == 2 {
      assert body == front + [body[n], body[n + 1]];
      RunTwo(front, body[n], body[n + 1]);
      EncodeOfTwoDigits(front, body[n], body[n + 1]);
    } else {
      assert body == front + [body[n], body[n + 1], body[n + 2]];
      RunThree(front, body[n], body[n + 1], body[n + 2]);
      EncodeOfThreeDigits(front, body[n], body[n + 1], body[n + 2]);
    }
  }

  /**
   Decoding is exact and canonical: a string is accepted as `d` if and only if it
   is the encoding of `d`. So decoding undoes encoding, and every value has one
   accepted spelling.
   */
  lemma DecodeIffEncode(t: seq<byte>, d: seq<byte>)
    ensures Decode(t, true) == Some(d) <==> t == Encode(d)
  {
    hide Decode, Encode;
    DecodeOfEncode(d);
    if Decode(t, true) == Some(d) {
      EncodeOfDecode(t);
    }
  }

  // ----- the alphabet, and the bits

  /** Space, tab, newline, vertical tab, form feed and carriage return */
  lemma SpaceIs(c: byte)
    ensures IsSpace(c) <==>
      c == ' ' as int || c == '\t' as int || c == '\n' as int || c == 11 || c == 12 || c == '\r' as int
  {
  }

  /** The table string, eight characters a row */
  function Row(r: nat): (s: string)
    requires r < 8
    ensures |s| == 8
  {
    if r == 0 then "ABCDEFGH"
    else if r == 1 then "IJKLMNOP"
    else if r == 2 then "QRSTUVWX"
    else if r == 3 then "YZabcdef"
    else if r == 4 then "ghijklmn"
    else if r == 5 then "opqrstuv"
    else if r == 6 then "wxyz0123"
    else "456789+/"
  }

  /** The character of a digit is the one at its place in the table, and the pad is `=`. */
  lemma AlphabetIs(v: sextet)
    ensures Digit(v) == Row(v / 8)[v % 8] as int && PAD == '=' as int
  {
    var r := v / 8;
    if r < 4 {
      RowsBelow(v);
    } else {
      RowsAbove(v);
    }
  }

  lemma RowsBelow(v: sextet)
    requires v < 32
    ensures Digit(v) == Row(v / 8)[v % 8] as int
  {
  }

  lemma RowsAbove(v: sextet)
    requires v >= 32
    ensures Digit(v) == Row(v / 8)[v % 8] as int
  {
  }

  /** A character has a value exactly if it is in the table, and then its place there. */
  lemma ValueIs(c: byte, v: sextet)
    ensures Value(c) == Some(v) <==> c == Row(v / 8)[v % 8] as int
  {
    AlphabetIs(v);
    ValueOfDigit(v);
    if Value(c) == Some(v) {
      DigitOfValue(c);
    }
  }

  /** The byte at `j`, or zero bits behind the end */
  function ByteAt(d: seq<byte>, j: nat): nat
  {
    if j < |d| then d[j] else 0
  }

  /** The 24 bits of group `i`, first byte highest */
  function Group(d: seq<byte>, i: nat): nat
  {
    ByteAt(d, 3 * i) * 65536 + ByteAt(d, 3 * i + 1) * 256 + ByteAt(d, 3 * i + 2)
  }

  /** Digit `k` of 24 bits, highest first */
  function SixBits(n: nat, k: nat): sextet
    requires k < 4
  {
    if k == 0 then n / 262144 % 64
    else if k == 1 then n / 4096 % 64
    else if k == 2 then n / 64 % 64
    else n % 64
  }

  lemma QuadBits(a: byte, b: byte, c: byte)
    ensures var n := (a as int) * 65536 + (b as int) * 256 + c as int;
      && SixBits(n, 0) == a / 4
      && SixBits(n, 1) == a % 4 * 16 + b / 16
      && SixBits(n, 2) == b % 16 * 4 + c / 64
      && SixBits(n, 3) == c % 64
  {
    var n := (a as int) * 65536 + (b as int) * 256 + c as int;
    assert n / 262144 == a / 4;
    assert n / 4096 == a * 16 + b / 16;
    assert n / 64 == a * 1024 + b * 4 + c / 64;
  }

  /**
   The encoding takes the bits of three bytes six at a time, from the highest; what
   the last bytes do not reach is padded.
   */
  lemma {:induction false} EncodeBits(d: seq<byte>, i: nat, k: nat)
    requires 3 * i < |d| && k < 4
    ensures 4 * i + k < |Encode(d)|
    ensures Encode(d)[4 * i + k] == if k <= |d| - 3 * i then Digit(SixBits(Group(d, i), k)) else PAD
  {
    hide Digit, SixBits;
    if i == 0 {
      QuadBits(ByteAt(d, 0), ByteAt(d, 1), ByteAt(d, 2));
    } else {
      EncodeStep(d);
      EncodeBits(d[3..], i - 1, k);
      hide Encode, Quad;
      assert Group(d, i) == Group(d[3..], i - 1);
    }
  }
}
