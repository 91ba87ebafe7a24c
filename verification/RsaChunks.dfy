/**
 RSA over messages longer than a block (lua_crypto.c): the message is cut into
 chunks that leave room for the padding, and each is ciphered into the context's
 buffer. The block cipher itself is a parameter.
 */
module RsaChunks {
  import opened Basics
  import opened Bits
  import opened Sums

  type bytes = seq<byte>

  const MAX_RSA_BUF: nat := 16384
  const PADDING: nat := 11      // what PKCS#1 v1.5 padding takes from a block
  const INT_MAX: nat := 0x7fff_ffff

  /**
   One call of an OpenSSL block function; its second argument numbers the call, so
   that randomised padding may differ from call to call. No output is failure.
   */
  type BlockFn = (bytes, nat) -> bytes

  datatype Result = Ok(out: bytes) | Err(code: int)

  /** What a block function makes of `src`, chunk by chunk, from call number `i` on */
  function Chunked(func: BlockFn, len: nat, src: bytes, i: nat): Option<bytes>
    requires len >= 1
    decreases |src|
  {
    if src == [] then Some([])
    else
      var n := Min(len, |src|);
      var o := func(src[..n], i);
      if o == [] then None
      else
        match Chunked(func, len, src[n..], i + 1)
        case None => None
        case Some(later) => Some(o + later)
  }

  /** A block function whose output is never longer than `bound` on chunks of 1 to `len` bytes */
  ghost predicate Fits(func: BlockFn, len: nat, bound: nat)
  {
    forall b, i: nat {:trigger func(b, i)} :: 1 <= |b| <= len ==> |func(b, i)| <= bound
  }

  /** Encryption that succeeds fills a block, and decryption takes it back. */
  ghost predicate InversePair(enc: BlockFn, dec: BlockFn, modulus: nat)
    requires modulus > PADDING
  {
    && (forall b, i: nat {:trigger enc(b, i)} ::
          1 <= |b| <= modulus - PADDING && enc(b, i) != [] ==> |enc(b, i)| == modulus)
    && (forall b, i: nat, j: nat {:trigger dec(enc(b, i), j)} ::
          1 <= |b| <= modulus - PADDING && enc(b, i) != [] ==> dec(enc(b, i), j) == b)
  }

  /** The room do_rsa_encrypt asks for */
  function EncryptNeed(modulus: nat, size: nat): nat
    requires modulus > PADDING
  {
    modulus * (size / (modulus - PADDING) + if size % (modulus - PADDING) > 0 then 1 else 0)
  }

  /** The room do_rsa_decrypt asks for; a short key makes it negative. */
  function DecryptNeed(modulus: nat, size: nat): int
    requires modulus >= 1
  {
    (modulus - PADDING) * (size / modulus)
  }

  function Done(o: Option<bytes>): Result
  {
    match o
    case None => Err(-1)
    case Some(out) => Ok(out)
  }

  function Encrypted(enc: BlockFn, modulus: nat, src: bytes): Result
    requires modulus > PADDING
  {
    if EncryptNeed(modulus, |src|) > MAX_RSA_BUF then Err(-2) else Done(Chunked(enc, modulus - PADDING, src, 0))
  }

  function Decrypted(dec: BlockFn, modulus: nat, src: bytes): Result
    requires modulus >= 1
  {
    if |src| % modulus != 0 then Err(-3)
    else if DecryptNeed(modulus, |src|) > MAX_RSA_BUF then Err(-2)
    else Done(Chunked(dec, modulus, src, 0))
  }

  /** What is left of a block after the padding */
  function Payload(modulus: nat): nat
  {
    if modulus > PADDING then modulus - PADDING else 0
  }

  /**
   Does the room do_rsa_encrypt computes fit an `int`? Otherwise C does not define
   the outcome.
   */
  predicate EncryptFits(modulus: nat, size: nat)
    requires modulus > PADDING
  {
    size <= INT_MAX / modulus * (modulus - PADDING)
  }

  /** The same for do_rsa_decrypt; with keys longer than the padding it always does. */
  predicate DecryptFits(modulus: nat, size: nat)
    requires modulus >= 1
  {
    size <= INT_MAX && (modulus < PADDING ==> (PADDING - modulus) * (size / modulus) <= INT_MAX)
  }

  // ----- the loop

  class Rsa {
    const buf: array<byte>

    constructor ()
      ensures buf.Length == MAX_RSA_BUF && fresh(buf)
    {
      buf := new byte[MAX_RSA_BUF](_ => 0);
    }

    /**
     The while loop the two directions share: chunks of `len` bytes of `src` become
     at most `bound` bytes each.
     */
    method Loop(func: BlockFn, len: nat, bound: nat, src: bytes) returns (r: int)
      requires len >= 1 && src != [] && Fits(func, len, bound)
      requires bound * Ceil(|src|, len) <= buf.Length
      modifies buf
      ensures match Chunked(func, len, src, 0)
              case None => r == -1
              case Some(out) => r == |out| && |out| <= buf.Length && buf[..r] == out
    {
      hide Chunked, Ceil, Prepend, Fits, Min;
      var size: nat, at: nat, dst: nat := |src|, 0, 0;
      var i: nat := 0;  // the number of the call
      WholeIsRest(func, len, src);
      while size > 0
        invariant at + size == |src| && dst <= buf.Length
        invariant dst + bound * Ceil(size, len) <= buf.Length
        invariant Chunked(func, len, src, 0) == Prepend(buf[..dst], Chunked(func, len, src[at..], i))
        decreases size
      {
        var n := if size > len then len else size;
        var chunk := src[at..at + n];
        var o := func(chunk, i);
        NextChunk(func, len, src, at, i);
        CeilStep(bound, size, len);
        FitsChunk(func, len, bound, chunk, i);
        if |o| > 0 {
          ghost var before := buf[..dst];
          Copy(o, dst);
          PrependTwice(before, o, Chunked(func, len, src[at + n..], i + 1));
          size := size - n;
          at := at + n;
          dst := dst + |o|;
          i := i + 1;
        } else {
          PrependNone(buf[..dst]);
          return -1;
        }
      }
      assert src[at..] == [];
      NothingLeft(func, len, i);
      PrependAll(buf[..dst]);
      return dst;
    }

    /** The block function writes its output at `dst`. */
    method Copy(o: bytes, dst: nat)
      requires dst + |o| <= buf.Length
      modifies buf
      ensures buf[..dst + |o|] == old(buf[..dst]) + o
    {
      var k := 0;
      while k < |o|
        invariant k <= |o| && buf[..dst + k] == old(buf[..dst]) + o[..k]
      {
        buf[dst + k] := o[k];
        k := k + 1;
      }
    }

    /** do_rsa_encrypt */
    method Encrypt(enc: BlockFn, modulus: nat, src: bytes) returns (r: int)
      requires modulus > PADDING && src != [] && EncryptFits(modulus, |src|)
      requires buf.Length == MAX_RSA_BUF && Fits(enc, modulus - PADDING, modulus)
      modifies buf
      ensures match Encrypted(enc, modulus, src)
              case Err(code) => r == code
              case Ok(out) => r == |out| && |out| <= buf.Length && buf[..r] == out
    {
      var blockSize := modulus - PADDING;
      var needSize := modulus * (|src| / blockSize + if |src| % blockSize > 0 then 1 else 0);
      if needSize > MAX_RSA_BUF {
        return -2;
      }
      CeilIs(|src|, blockSize);
      r := Loop(enc, blockSize, modulus, src);
    }

    /** do_rsa_decrypt */
    method Decrypt(dec: BlockFn, modulus: nat, src: bytes) returns (r: int)
      requires modulus >= 1 && src != [] && DecryptFits(modulus, |src|)
      requires buf.Length == MAX_RSA_BUF && Fits(dec, modulus, Payload(modulus))
      modifies buf
      ensures match Decrypted(dec, modulus, src)
              case Err(code) => r == code
              case Ok(out) => r == |out| && |out| <= buf.Length && buf[..r] == out
    {
      if |src| % modulus != 0 {
        return -3;
      }
      var needSize := (modulus - PADDING) * (|src| / modulus);
      if needSize > MAX_RSA_BUF {
        return -2;
      }
      CeilIs(|src|, modulus);
      r := Loop(dec, modulus, Payload(modulus), src);
    }
  }

  function Prepend(front: bytes, o: Option<bytes>): Option<bytes>
  {
    match o
    case None => None
    case Some(later) => Some(front + later)
  }

  lemma WholeIsRest(func: BlockFn, len: nat, src: bytes)
    requires len >= 1
    ensures Chunked(func, len, src, 0) == Prepend([], Chunked(func, len, src[0..], 0))
  {
    assert src[0..] == src;
    match Chunked(func, len, src, 0)
    case None =>
    case Some(out) => assert [] + out == out;
  }

  lemma NothingLeft(func: BlockFn, len: nat, i: nat)
    requires len >= 1
    ensures Chunked(func, len, [], i) == Some([])
  {
  }

  lemma ChunkStep(func: BlockFn, len: nat, src: bytes, i: nat)
    requires len >= 1 && src != []
    ensures var n := Min(len, |src|); var o := func(src[..n], i);
      Chunked(func, len, src, i) == if o == [] then None else Prepend(o, Chunked(func, len, src[n..], i + 1))
  {
  }

  /** The chunk the loop takes at `at` */
  lemma NextChunk(func: BlockFn, len: nat, src: bytes, at: nat, i: nat)
    requires len >= 1 && at < |src|
    ensures var n := if |src| - at > len then len else |src| - at;
      && n == Min(len, |src| - at)
      && Chunked(func, len, src[at..], i)
         == (if func(src[at..at + n], i) == [] then None
             else Prepend(func(src[at..at + n], i), Chunked(func, len, src[at + n..], i + 1)))
  {
    var n := Min(len, |src| - at);
    ChunkStep(func, len, src[at..], i);
    assert src[at..][..n] == src[at..at + n] && src[at..][n..] == src[at + n..];
  }

  lemma FitsChunk(func: BlockFn, len: nat, bound: nat, chunk: bytes, i: nat)
    requires Fits(func, len, bound) && 1 <= |chunk| <= len
    ensures |func(chunk, i)| <= bound
  {
  }

  lemma PrependNone(front: bytes)
    ensures Prepend(front, None) == None
  {
  }

  lemma PrependAll(out: bytes)
    ensures Prepend(out, Some([])) == Some(out)
  {
    assert out + [] == out;
  }

  lemma PrependTwice(a: bytes, b: bytes, o: Option<bytes>)
    ensures Prepend(a, Prepend(b, o)) == Prepend(a + b, o)
  {
    match o
    case None =>
    case Some(c) => assert a + (b + c) == a + b + c;
  }

  lemma CeilIs(x: nat, d: nat)
    requires d >= 1
    ensures Ceil(x, d) == x / d + if x % d > 0 then 1 else 0
  {
    CeilByRemainder(x, d);
  }

  /** One chunk less to come makes the rounded-up quotient one less. */
  lemma CeilStep(bound: nat, size: nat, len: nat)
    requires len >= 1 && size >= 1
    ensures var n := Min(len, size);
      bound * Ceil(size, len) == bound + bound * Ceil(size - n, len)
  {
    var n := Min(len, size);
    if size <= len {
      DivModUnique(size + len - 1, len, 1, size - 1);
      DivModUnique(len - 1, len, 0, len - 1);
    } else {
      var q, r := (size - len + len - 1) / len, (size - len + len - 1) % len;
      assert size - len + len - 1 == len * q + r;
      assert size + len - 1 == len * (q + 1) + r;
      DivModUnique(size + len - 1, len, q + 1, r);
    }
    assert Ceil(size, len) == 1 + Ceil(size - n, len);
  }

  // ----- main results

  /** Decrypting, chunk by chunk, what was encrypted chunk by chunk gives the message back. */
  lemma {:induction false} ChunksRoundTrip(enc: BlockFn, dec: BlockFn, modulus: nat, src: bytes, i: nat, j: nat)
    requires modulus > PADDING && InversePair(enc, dec, modulus)
    requires Chunked(enc, modulus - PADDING, src, i).Some?
    ensures var c := Chunked(enc, modulus - PADDING, src, i).value;
      && Chunked(dec, modulus, c, j) == Some(src)
      && |c| == modulus * Ceil(|src|, modulus - PADDING)
    decreases |src|
  {
    var len := modulus - PADDING;
    var c := Chunked(enc, len, src, i).value;
    if src == [] {
      CeilIs(0, len);
    } else {
      var n := Min(len, |src|);
      var chunk, o := src[..n], enc(src[..n], i);
      ChunksRoundTrip(enc, dec, modulus, src[n..], i + 1, j + 1);
      var later := Chunked(enc, len, src[n..], i + 1).value;
      assert c == o + later && |o| == modulus && dec(o, j) == chunk;
      assert c[..modulus] == o && c[modulus..] == later;
      ChunkStep(dec, modulus, c, j);
      assert src == chunk + src[n..];
      CeilStep(modulus, |src|, len);
    }
  }

  /**
   Whatever do_rsa_encrypt accepts, do_rsa_decrypt accepts in turn and restores;
   the ciphertext is as long as the chunks are many.
   */
  lemma RsaRoundTrip(enc: BlockFn, dec: BlockFn, modulus: nat, src: bytes)
    requires modulus > PADDING && InversePair(enc, dec, modulus)
    requires Encrypted(enc, modulus, src).Ok?
    ensures var c := Encrypted(enc, modulus, src).out;
      && |c| == modulus * Ceil(|src|, modulus - PADDING)
      && Decrypted(dec, modulus, c) == Ok(src)
  {
    hide Chunked, InversePair, Ceil;
    var c := Encrypted(enc, modulus, src).out;
    ChunksRoundTrip(enc, dec, modulus, src, 0, 0);
    var q := Ceil(|src|, modulus - PADDING);
    CeilIs(|src|, modulus - PADDING);
    DecryptNeedOf(modulus, q);
  }

  lemma DecryptNeedOf(modulus: nat, q: nat)
    requires modulus > PADDING
    ensures modulus * q % modulus == 0 && DecryptNeed(modulus, modulus * q) <= modulus * q
  {
    DivModUnique(modulus * q, modulus, q, 0);
    assert modulus * q == (modulus - PADDING) * q + PADDING * q;
  }

  // ----- which messages are accepted

  lemma {:induction false} ChunkedSucceeds(func: BlockFn, len: nat, src: bytes, i: nat)
    requires len >= 1 && Reliable(func, len)
    ensures Chunked(func, len, src, i).Some?
    decreases |src|
  {
    if src != [] {
      var n := Min(len, |src|);
      assert func(src[..n], i) != [];
      ChunkedSucceeds(func, len, src[n..], i + 1);
    }
  }

  /** A block function that fails on no chunk of 1 to `len` bytes */
  ghost predicate Reliable(func: BlockFn, len: nat)
  {
    forall b, i: nat {:trigger func(b, i)} :: 1 <= |b| <= len ==> func(b, i) != []
  }

  lemma QuotientAtMost(x: nat, d: nat, k: nat)
    requires d >= 1
    ensures d * k <= x <==> k <= x / d
  {
    assert x == d * (x / d) + x % d;
    if k <= x / d {
      MulMono(d, k, x / d);
    } else {
      MulMono(d, x / d + 1, k);
    }
  }

  lemma CeilAtMostIff(x: nat, d: nat, k: nat)
    requires d >= 1
    ensures Ceil(x, d) <= k <==> x <= k * d
  {
    CeilBounds(x, d);
    if x <= k * d {
      CeilAtMost(x, d, k);
    }
    if Ceil(x, d) <= k {
      MulMono(d, Ceil(x, d), k);
    }
  }

  /**
   With a cipher that never fails, exactly the messages that make no more full
   blocks than the buffer holds are accepted; all others are refused with -2.
   */
  lemma EncryptAccepts(enc: BlockFn, modulus: nat, src: bytes)
    requires modulus > PADDING && Reliable(enc, modulus - PADDING)
    ensures Encrypted(enc, modulus, src).Ok? <==> |src| <= MAX_RSA_BUF / modulus * (modulus - PADDING)
    ensures !Encrypted(enc, modulus, src).Ok? ==> Encrypted(enc, modulus, src) == Err(-2)
  {
    var len, q := modulus - PADDING, MAX_RSA_BUF / modulus;
    CeilIs(|src|, len);
    QuotientAtMost(MAX_RSA_BUF, modulus, Ceil(|src|, len));
    CeilAtMostIff(|src|, len, q);
    ChunkedSucceeds(enc, len, src, 0);
  }

  /**
   With a cipher that never fails: sizes that are no multiple of the block get -3,
   more blocks than the buffer has room for the payloads of get -2, and all others
   are accepted.
   */
  lemma DecryptAccepts(dec: BlockFn, modulus: nat, src: bytes)
    requires modulus > PADDING && Reliable(dec, modulus)
    ensures var full := |src| / modulus > MAX_RSA_BUF / (modulus - PADDING);
      && (|src| % modulus != 0 ==> Decrypted(dec, modulus, src) == Err(-3))
      && (|src| % modulus == 0 && full ==> Decrypted(dec, modulus, src) == Err(-2))
      && (|src| % modulus == 0 && !full ==> Decrypted(dec, modulus, src).Ok?)
  {
    QuotientAtMost(MAX_RSA_BUF, modulus - PADDING, |src| / modulus);
    ChunkedSucceeds(dec, modulus, src, 0);
    hide Chunked;
  }

  // ----- what is in the output

  /** Chunk `k` of `src` */
  function Chunk(src: bytes, len: nat, k: nat): bytes
    requires len >= 1 && k * len < |src|
  {
    src[k * len..Min(k * len + len, |src|)]
  }

  /** Block `k` of the ciphertext is the encryption of chunk `k` of the message. */
  lemma {:induction false} CipherBlock(enc: BlockFn, dec: BlockFn, modulus: nat, src: bytes, i: nat, k: nat)
    requires modulus > PADDING && InversePair(enc, dec, modulus)
    requires Chunked(enc, modulus - PADDING, src, i).Some? && k * (modulus - PADDING) < |src|
    ensures var c := Chunked(enc, modulus - PADDING, src, i).value;
      && (k + 1) * modulus <= |c|
      && c[k * modulus..(k + 1) * modulus] == enc(Chunk(src, modulus - PADDING, k), i + k)
    decreases k
  {
    hide *;
    var len := modulus - PADDING;
    FirstBlock(enc, dec, modulus, src, i);
    var o, later := enc(src[..Min(len, |src|)], i), Chunked(enc, len, src[Min(len, |src|)..], i + 1).value;
    if k == 0 {
      FrontBlock(src, len, o, later, modulus);
    } else {
      NextBlock(src, len, k);
      CipherBlock(enc, dec, modulus, src[len..], i + 1, k - 1);
      BlockShift(o, later, modulus, k);
    }
  }

  lemma FirstBlock(enc: BlockFn, dec: BlockFn, modulus: nat, src: bytes, i: nat)
    requires modulus > PADDING && InversePair(enc, dec, modulus) && src != []
    requires Chunked(enc, modulus - PADDING, src, i).Some?
    ensures var n := Min(modulus - PADDING, |src|); var o := enc(src[..n], i);
      && 1 <= n <= |src| && |o| == modulus && Chunked(enc, modulus - PADDING, src[n..], i + 1).Some?
      && Chunked(enc, modulus - PADDING, src, i).value == o + Chunked(enc, modulus - PADDING, src[n..], i + 1).value
  {
    ChunkStep(enc, modulus - PADDING, src, i);
  }

  lemma FrontBlock(src: bytes, len: nat, o: bytes, later: bytes, m: nat)
    requires len >= 1 && src != [] && |o| == m
    ensures 0 * len < |src| && Chunk(src, len, 0) == src[..Min(len, |src|)]
    ensures (0 + 1) * m <= |o + later| && 0 * m <= (0 + 1) * m && (o + later)[0 * m..(0 + 1) * m] == o
  {
    assert 0 * len == 0 && 0 * m == 0 && 1 * m == m;
  }

  lemma NextBlock(src: bytes, len: nat, k: nat)
    requires len >= 1 && k >= 1 && k * len < |src|
    ensures Min(len, |src|) == len && (k - 1) * len < |src| - len
    ensures Chunk(src, len, k) == Chunk(src[len..], len, k - 1)
  {
    assert k * len == (k - 1) * len + len;
    MulMono(len, 1, k);
  }

  lemma BlockShift(o: bytes, later: bytes, m: nat, k: nat)
    requires k >= 1 && |o| == m && k * m <= |later|
    ensures (k + 1) * m <= |o + later|
    ensures (k - 1) * m <= k * m && (o + later)[k * m..(k + 1) * m] == later[(k - 1) * m..k * m]
  {
    assert k * m == (k - 1) * m + m && (k + 1) * m == k * m + m;
  }

  // ----- when the room computation fits

  /** The product do_rsa_encrypt computes fits an `int` exactly up to this size. */
  lemma NeedFits(modulus: nat, size: nat)
    requires modulus > PADDING
    ensures EncryptNeed(modulus, size) <= INT_MAX <==> size <= INT_MAX / modulus * (modulus - PADDING)
  {
    var len := modulus - PADDING;
    CeilIs(size, len);
    QuotientAtMost(INT_MAX, modulus, Ceil(size, len));
    CeilAtMostIff(size, len, INT_MAX / modulus);
  }

  /** The `int` two's-complement arithmetic makes of a non-negative number */
  function Wrapped(x: nat): (w: int)
    ensures -0x8000_0000 <= w <= INT_MAX
  {
    var low := x % 0x1_0000_0000;
    if low <= INT_MAX then low else low - 0x1_0000_0000
  }

  lemma HalfMore(m: nat, len: nat, q: nat, bound: nat)
    requires 2 * m <= 3 * len && len * q < bound
    ensures 2 * (m * q) < 3 * bound
  {
    MulMono(q, 2 * m, 3 * len);
    assert q * (2 * m) == 2 * (m * q);
    assert q * (3 * len) == 3 * (len * q);
  }

  lemma NeedBelowTwice(modulus: nat, size: nat)
    requires 3 * PADDING <= modulus <= 0x1_0000 && size <= INT_MAX
    ensures EncryptNeed(modulus, size) < 0x1_0000_0000
  {
    var len := modulus - PADDING;
    CeilIs(size, len);
    CeilBounds(size, len);
    hide Ceil;
    HalfMore(modulus, len, Ceil(size, len), size + len);
  }

  /** Does a check of the wrapped product let a message pass that needs more room than the buffer has? */
  predicate CheckFails(modulus: nat, size: nat)
    requires modulus > PADDING
  {
    Wrapped(EncryptNeed(modulus, size)) <= MAX_RSA_BUF < EncryptNeed(modulus, size)
  }

  /**
   With a key of any length, it does if and only if the product does not fit an
   `int` and its low 32 bits, as a number, are outside the range above the buffer size.
   */
  lemma WrapPassesCheck(modulus: nat, size: nat)
    requires modulus > PADDING
    ensures CheckFails(modulus, size)
      <==> && size > INT_MAX / modulus * (modulus - PADDING)
           && !(MAX_RSA_BUF < EncryptNeed(modulus, size) % 0x1_0000_0000 <= INT_MAX)
  {
    NeedFits(modulus, size);
  }

  /** Keys of 33 bytes and more wrap around once at most, so that then any product that does not fit passes. */
  lemma WrapPassesLongKey(modulus: nat, size: nat)
    requires 3 * PADDING <= modulus <= 0x1_0000 && size <= INT_MAX
    ensures CheckFails(modulus, size) <==> size > INT_MAX / modulus * (modulus - PADDING)
  {
    NeedBelowTwice(modulus, size);
    NeedFits(modulus, size);
  }

  /** With a 2048-bit key, the smallest size for which it does not */
  lemma OverflowExample()
    ensures EncryptNeed(256, 2055208715) <= INT_MAX < EncryptNeed(256, 2055208716)
    ensures 2055208716 <= INT_MAX && Wrapped(EncryptNeed(256, 2055208716)) < 0
  {
    NeedFits(256, 2055208715);
    NeedFits(256, 2055208716);
    NeedBelowTwice(256, 2055208716);
  }
}
