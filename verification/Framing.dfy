/**
 The wire format of the session server, a two-byte big-endian length before every
 message, and the reader of that format as a function of the chunks it is given.
 */
module Framing {
  import opened Basics

  type Message = seq<byte>

  const MAX_UINT16: nat := 65535

  /** The value `ntohs` gives to two bytes as they arrive */
  function Be16(hi: byte, lo: byte): nat
  {
    hi * 256 + lo
  }

  /** `htons` of a size, as it is put on the wire */
  function Header(n: nat): (h: seq<byte>)
    requires n <= MAX_UINT16
    ensures |h| == 2 && Be16(h[0], h[1]) == n
  {
    [n / 256, n % 256]
  }

  lemma HeaderOf(hi: byte, lo: byte)
    ensures Be16(hi, lo) <= MAX_UINT16 && Header(Be16(hi, lo)) == [hi, lo]
  {
  }

  // ----- the stream, as a whole

  datatype Parsed = Parsed(msgs: seq<Message>, rest: seq<byte>)

  /** The complete messages of a stream and its unfinished end; a zero length carries no message. */
  function Parse(s: seq<byte>): (p: Parsed)
    ensures |p.rest| <= |s|
  {
    if |s| < 2 then Parsed([], s)
    else
      var n := Be16(s[0], s[1]);
      if |s| < 2 + n then Parsed([], s)
      else
        var later := Parse(s[2 + n..]);
        Parsed((if n == 0 then [] else [s[2..2 + n]]) + later.msgs, later.rest)
  }

  predicate Writable(msgs: seq<Message>)
  {
    forall i :: 0 <= i < |msgs| ==> 1 <= |msgs[i]| <= MAX_UINT16
  }

  function Frame(m: Message): (f: seq<byte>)
    requires |m| <= MAX_UINT16
  {
    Header(|m|) + m
  }

  function Frames(msgs: seq<Message>): seq<byte>
    requires Writable(msgs)
  {
    if msgs == [] then [] else Frame(msgs[0]) + Frames(msgs[1..])
  }

  // ----- the reader

  /** `body` is the announced size, 0 while the header is incomplete; `recv` is what is in the buffer. */
  datatype Reader = Reader(body: nat, recv: seq<byte>)

  const START: Reader := Reader(0, [])

  function Target(r: Reader): nat
  {
    if r.body == 0 then 2 else r.body
  }

  predicate Wf(r: Reader)
  {
    r.body <= MAX_UINT16 && |r.recv| < Target(r)
  }

  /** How many bytes the reader asks for */
  function Offered(r: Reader): nat
    requires Wf(r)
  {
    Target(r) - |r.recv|
  }

  datatype Outcome = Outcome(r: Reader, msgs: seq<Message>)

  /** One successful read of `chunk` */
  function Read(r: Reader, chunk: seq<byte>): (o: Outcome)
    requires Wf(r) && 1 <= |chunk| <= Offered(r)
    ensures Wf(o.r)
  {
    var recv := r.recv + chunk;
    if r.body == 0 then
      Outcome(if |recv| == 2 then Reader(Be16(recv[0], recv[1]), []) else Reader(0, recv), [])
    else if |recv| == r.body then Outcome(Reader(0, []), [recv])
    else Outcome(Reader(r.body, recv), [])
  }

  /** The part of the stream the reader holds on to */
  function Pending(r: Reader): seq<byte>
    requires Wf(r)
  {
    if r.body == 0 then r.recv else Header(r.body) + r.recv
  }

  /** Every chunk is a read libuv may deliver: at least one byte, at most what was offered. */
  predicate Deliverable(r: Reader, chunks: seq<seq<byte>>)
    requires Wf(r)
    decreases |chunks|
  {
    chunks != [] ==>
      && 1 <= |chunks[0]| <= Offered(r)
      && Deliverable(Read(r, chunks[0]).r, chunks[1..])
  }

  function Feed(r: Reader, chunks: seq<seq<byte>>): (o: Outcome)
    requires Wf(r) && Deliverable(r, chunks)
    ensures Wf(o.r)
    decreases |chunks|
  {
    if chunks == [] then Outcome(r, [])
    else
      var first := Read(r, chunks[0]);
      var later := Feed(first.r, chunks[1..]);
      Outcome(later.r, first.msgs + later.msgs)
  }

  function Flatten(chunks: seq<seq<byte>>): seq<byte>
  {
    if chunks == [] then [] else chunks[0] + Flatten(chunks[1..])
  }

  // ----- the parse, piece by piece

  /** A complete frame at the front is parsed first. */
  lemma ParseFrame(h: seq<byte>, body: seq<byte>, later: seq<byte>)
    requires |h| == 2 && |body| == Be16(h[0], h[1])
    ensures Parse(h + body + later)
         == Parsed((if body == [] then [] else [body]) + Parse(later).msgs, Parse(later).rest)
  {
    var s := h + body + later;
    assert s[0] == h[0] && s[1] == h[1];
    assert s[2..2 + |body|] == body;
    assert s[2 + |body|..] == later;
  }

  lemma ParseShort(s: seq<byte>)
    requires |s| < 2 || |s| < 2 + Be16(s[0], s[1])
    ensures Parse(s) == Parsed([], s)
  {
  }

  lemma CutFrame(a: seq<byte>)
    requires |a| >= 2 && |a| >= 2 + Be16(a[0], a[1])
    ensures a == a[..2] + a[2..2 + Be16(a[0], a[1])] + a[2 + Be16(a[0], a[1])..]
  {
  }

  /** Parsing can stop anywhere and go on later with what was left. */
  lemma {:induction false} ParseAppend(a: seq<byte>, b: seq<byte>)
    ensures Parse(a + b).msgs == Parse(a).msgs + Parse(Parse(a).rest + b).msgs
    ensures Parse(a + b).rest == Parse(Parse(a).rest + b).rest
    decreases |a|
  {
    if |a| >= 2 && |a| >= 2 + Be16(a[0], a[1]) {
      var n := Be16(a[0], a[1]);
      var h, body, later := a[..2], a[2..2 + n], a[2 + n..];
      hide Parse;
      CutFrame(a);
      ParseAppend(later, b);
      ParseFrame(h, body, later);
      ParseFrame(h, body, later + b);
      Assoc(h + body, later, b);
      var first := if body == [] then [] else [body];
      Assoc(first, Parse(later).msgs, Parse(Parse(later).rest + b).msgs);
    } else {
      ParseShort(a);
      hide Parse;
      assert [] + Parse(a + b).msgs == Parse(a + b).msgs;
    }
  }

  /** One read adds to the parse exactly what the reader reports and keeps. */
  lemma ReadParses(r: Reader, chunk: seq<byte>)
    requires Wf(r) && 1 <= |chunk| <= Offered(r)
    ensures Parse(Pending(r) + chunk) == Parsed(Read(r, chunk).msgs, Pending(Read(r, chunk).r))
  {
    if r.body == 0 {
      ReadParsesHeader(r.recv + chunk);
    } else {
      ReadParsesBody(Header(r.body), r.body, r.recv + chunk);
      Assoc(Header(r.body), r.recv, chunk);
    }
  }

  lemma ReadParsesHeader(recv: seq<byte>)
    requires |recv| <= 2
    ensures Parse(recv)
         == Parsed([], Pending(if |recv| == 2 then Reader(Be16(recv[0], recv[1]), []) else Reader(0, recv)))
  {
    if |recv| < 2 {
      ParseShort(recv);
    } else if Be16(recv[0], recv[1]) == 0 {
      EmptyFrame(recv);
    } else {
      ParseShort(recv);
      HeaderOf(recv[0], recv[1]);
      assert [recv[0], recv[1]] + [] == recv;
    }
  }

  lemma ReadParsesBody(h: seq<byte>, n: nat, recv: seq<byte>)
    requires |h| == 2 && Be16(h[0], h[1]) == n > 0 && |recv| <= n
    ensures Parse(h + recv) == if |recv| == n then Parsed([recv], []) else Parsed([], h + recv)
  {
    if |recv| == n {
      WholeFrame(h, recv);
    } else {
      ParseShort(h + recv);
    }
  }

  lemma EmptyFrame(h: seq<byte>)
    requires |h| == 2 && Be16(h[0], h[1]) == 0
    ensures Parse(h) == Parsed([], [])
  {
    assert h[2..] == [];
  }

  lemma WholeFrame(h: seq<byte>, body: seq<byte>)
    requires |h| == 2 && |body| == Be16(h[0], h[1]) > 0
    ensures Parse(h + body) == Parsed([body], [])
  {
    ParseFrame(h, body, []);
    assert h + body + [] == h + body;
  }

  /** A reader that holds the unfinished end of a stream still does after one more read. */
  lemma ReadExtends(stream: seq<byte>, msgs: seq<Message>, r: Reader, chunk: seq<byte>)
    requires Wf(r) && 1 <= |chunk| <= Offered(r) && Parse(stream) == Parsed(msgs, Pending(r))
    ensures Parse(stream + chunk) == Parsed(msgs + Read(r, chunk).msgs, Pending(Read(r, chunk).r))
  {
    hide Parse;
    ReadParses(r, chunk);
    ParseAppend(stream, chunk);
  }

  lemma {:induction false} FeedParses(r: Reader, chunks: seq<seq<byte>>)
    requires Wf(r) && Deliverable(r, chunks)
    ensures Parse(Pending(r) + Flatten(chunks)) == Parsed(Feed(r, chunks).msgs, Pending(Feed(r, chunks).r))
    decreases |chunks|
  {
    if chunks == [] {
      assert Pending(r) + Flatten(chunks) == Pending(r);
      PendingUnparsed(r);
    } else {
      var first := Read(r, chunks[0]);
      ReadParses(r, chunks[0]);
      FeedParses(first.r, chunks[1..]);
      Assoc(Pending(r), chunks[0], Flatten(chunks[1..]));
      ParseAppend(Pending(r) + chunks[0], Flatten(chunks[1..]));
    }
  }

  /** What the reader holds never contains a finished frame. */
  lemma PendingUnparsed(r: Reader)
    requires Wf(r)
    ensures Parse(Pending(r)) == Parsed([], Pending(r))
  {
  }

  // ----- main results

  /**
   Reassembly does not depend on how the stream was cut into reads: the messages
   delivered are those of the parse, and the reader holds exactly the unfinished end.
   */
  lemma ReassemblyIsParse(chunks: seq<seq<byte>>)
    requires Deliverable(START, chunks)
    ensures Parse(Flatten(chunks)) == Parsed(Feed(START, chunks).msgs, Pending(Feed(START, chunks).r))
  {
    FeedParses(START, chunks);
    assert Pending(START) + Flatten(chunks) == Flatten(chunks);
  }

  lemma PendingDetermines(r: Reader, t: Reader)
    requires Wf(r) && Wf(t) && Pending(r) == Pending(t)
    ensures r == t
  {
    if r.body != 0 {
      assert Pending(r)[0] == Header(r.body)[0] && Pending(r)[1] == Header(r.body)[1];
      assert Pending(t)[0] == Header(t.body)[0] && Pending(t)[1] == Header(t.body)[1];
      assert Pending(r)[2..] == r.recv && Pending(t)[2..] == t.recv;
    }
  }

  /** Two ways of cutting the same bytes leave the reader in the same state, having delivered the same. */
  lemma ChunkingIrrelevant(c: seq<seq<byte>>, d: seq<seq<byte>>)
    requires Deliverable(START, c) && Deliverable(START, d) && Flatten(c) == Flatten(d)
    ensures Feed(START, c) == Feed(START, d)
  {
    ReassemblyIsParse(c);
    ReassemblyIsParse(d);
    PendingDetermines(Feed(START, c).r, Feed(START, d).r);
  }

  lemma {:induction false} FramesParse(msgs: seq<Message>)
    requires Writable(msgs)
    ensures Parse(Frames(msgs)) == Parsed(msgs, [])
  {
    if msgs == [] {
      ParseShort([]);
    } else {
      hide Parse;
      var m, later := msgs[0], Frames(msgs[1..]);
      assert Frames(msgs) == Header(|m|) + m + later;
      assert msgs == [m] + msgs[1..];
      FramesParse(msgs[1..]);
      hide Frames, Header;
      ParseFrame(Header(|m|), m, later);
    }
  }

  /** What is framed on one side is delivered on the other, in order and whole, however the bytes arrive. */
  lemma WriteReadRoundTrip(msgs: seq<Message>, chunks: seq<seq<byte>>)
    requires Writable(msgs)
    requires Deliverable(START, chunks) && Flatten(chunks) == Frames(msgs)
    ensures Feed(START, chunks) == Outcome(START, msgs)
  {
    FramesParse(msgs);
    ReassemblyIsParse(chunks);
    PendingDetermines(Feed(START, chunks).r, START);
  }

  // ----- the bytes on the wire

  /** A frame is the size of the message in network byte order, high byte first, and the message. */
  lemma FrameBytes(m: Message)
    requires |m| <= MAX_UINT16
    ensures |Frame(m)| == 2 + |m| && Frame(m)[0] == |m| / 256 && Frame(m)[1] == |m| % 256 && Frame(m)[2..] == m
  {
  }

  /** The reader takes the first byte of a header as the high one, in one read or in two. */
  lemma HeaderBytes(hi: byte, lo: byte)
    ensures Read(START, [hi, lo]) == Outcome(Reader(256 * (hi as int) + lo as int, []), [])
    ensures Read(START, [hi]) == Outcome(Reader(0, [hi]), [])
    ensures Read(Reader(0, [hi]), [lo]) == Outcome(Reader(256 * (hi as int) + lo as int, []), [])
  {
    assert [] + [hi, lo] == [hi, lo] && [] + [hi] == [hi] && [hi] + [lo] == [hi, lo];
  }

  /** The size a stream announces for its first frame, once two bytes have come */
  predicate Announces(s: seq<byte>, n: int)
  {
    |s| >= 2 && n == 256 * (s[0] as int) + s[1] as int
  }

  /** A stream is parsed frame by frame, by the sizes announced; a size of zero delivers nothing. */
  lemma FirstFrame(s: seq<byte>, n: int)
    requires Announces(s, n)
    ensures |s| < 2 + n ==> Parse(s) == Parsed([], s)
    ensures |s| >= 2 + n ==>
      && Parse(s).msgs == (if n == 0 then [] else [s[2..2 + n]]) + Parse(s[2 + n..]).msgs
      && Parse(s).rest == Parse(s[2 + n..]).rest
  {
    hide Parse;
    assert n == Be16(s[0], s[1]);
    if |s| < 2 + n {
      ParseShort(s);
    } else {
      CutFrame(s);
      ParseFrame(s[..2], s[2..2 + n], s[2 + n..]);
    }
  }

  lemma {:induction false} ParsedWritable(s: seq<byte>)
    ensures Writable(Parse(s).msgs)
    decreases |s|
  {
    if |s| >= 2 && |s| >= 2 + Be16(s[0], s[1]) {
      ParsedWritable(s[2 + Be16(s[0], s[1])..]);
    }
  }

  /** However a stream is cut, every message delivered has 1 to 65535 bytes. */
  lemma DeliveredSizes(chunks: seq<seq<byte>>)
    requires Deliverable(START, chunks)
    ensures forall i :: 0 <= i < |Feed(START, chunks).msgs| ==> 1 <= |Feed(START, chunks).msgs[i]| <= 65535
  {
    ReassemblyIsParse(chunks);
    ParsedWritable(Flatten(chunks));
  }
}
