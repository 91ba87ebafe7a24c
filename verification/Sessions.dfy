/** A client connection: its receive buffer, and the fields the server keeps about it. */
module Sessions {
  import opened Basics
  import opened Framing

  const DEFAULT_RECV_BUF_SIZE: nat := 128

  type uint16 = x: int | 0 <= x < 0x1_0000

  /** The handle of the connection, as libuv sees it */
  datatype Handle = Open | Closing | Freed

  /** A read, by cases */
  lemma ReadCases(r: Reader, chunk: seq<byte>, recv: seq<byte>)
    requires Wf(r) && 1 <= |chunk| <= Offered(r) && recv == r.recv + chunk
    ensures Read(r, chunk) ==
      if |recv| < Target(r) then Outcome(Reader(r.body, recv), [])
      else if r.body == 0 then Outcome(Reader(Be16(recv[0], recv[1]), []), [])
      else Outcome(START, [recv])
  {
  }

  class Session {
    var serial: nat
    var lastRecvTime: nat
    var bufSize: nat
    var recvBytes: uint16
    var bodySize: uint16
    var recvBuf: array<byte>
    var handle: Handle
    var reading: bool  // between uv_read_start and uv_read_stop
    ghost var received: seq<byte>       // every byte ever read
    ghost var delivered: seq<Message>   // every message ever handed to the read callback

    ghost function View(): Reader
      reads this`recvBytes, this`bodySize, this`recvBuf, recvBuf
      requires recvBytes <= recvBuf.Length
    {
      Reader(bodySize, recvBuf[..recvBytes])
    }

    /** The announced body fits the buffer, and what has been received is short of the target. */
    ghost predicate Sized()
      reads this`bufSize, this`recvBytes, this`bodySize, this`recvBuf, recvBuf
    {
      && bufSize == recvBuf.Length >= DEFAULT_RECV_BUF_SIZE
      && bodySize <= bufSize
      && recvBytes <= recvBuf.Length
      && Wf(View())
    }

    ghost predicate Valid()
      reads this`bufSize, this`recvBytes, this`bodySize, this`recvBuf, this`received, this`delivered, recvBuf
    {
      && Sized()
      && Parse(received) == Parsed(delivered, Pending(View()))
    }

    /** session_create */
    constructor (now: nat)
      ensures Valid() && fresh(recvBuf) && recvBuf.Length == 128 && View() == START
      ensures serial == 0 && lastRecvTime == now && handle == Open && !reading && received == [] && delivered == []
    {
      serial, lastRecvTime, handle, reading := 0, now, Open, false;
      bufSize := DEFAULT_RECV_BUF_SIZE;
      recvBytes, bodySize := 0, 0;
      recvBuf := new byte[DEFAULT_RECV_BUF_SIZE](_ => 0);
      received, delivered := [], [];
    }

    /**
     on_session_alloc: the stretch of the buffer the next read may fill is never
     empty and never leaves the buffer.
     */
    method OnAlloc() returns (base: nat, len: nat)
      requires Valid()
      ensures base == |View().recv| && len == Offered(View())
      ensures 1 <= len && base + len <= recvBuf.Length && base + len <= MAX_UINT16
    {
      var bytes := recvBytes;
      base := bytes;
      if bodySize == 0 {
        len := 2 - bytes;
      } else {
        len := bodySize - bytes;
      }
    }

    /** The header is complete with its second byte; the buffer grows if the body would not fit. */
    method FillHeader(ghost recv: seq<byte>)
      requires bodySize == 0 && recvBytes == |recv| <= 2 && recvBuf.Length == bufSize >= DEFAULT_RECV_BUF_SIZE
      requires recvBuf[..recvBytes] == recv
      modifies this`recvBytes, this`bodySize, this`bufSize, this`recvBuf
      ensures Sized() && (recvBuf == old(recvBuf) || fresh(recvBuf))
      ensures View() == if |recv| == 2 then Reader(Be16(recv[0], recv[1]), []) else Reader(0, recv)
      ensures |recv| == 2 ==> bodySize == 256 * (recv[0] as int) + recv[1] as int
    {
      if recvBytes == 2 {
        assert recv[0] == recvBuf[0] && recv[1] == recvBuf[1];
        HeaderOf(recvBuf[0], recvBuf[1]);
        hide Be16;
        bodySize := Be16(recvBuf[0], recvBuf[1]);
        recvBytes := 0;
        if bodySize > bufSize {
          recvBuf := new byte[bodySize](_ => 0);
          bufSize := bodySize;
        }
      }
    }

    /** The body is complete with its last byte. */
    method FillBody(ghost recv: seq<byte>) returns (msg: Option<Message>)
      requires 1 <= bodySize <= bufSize && recvBytes == |recv| <= bodySize
      requires recvBuf.Length == bufSize >= DEFAULT_RECV_BUF_SIZE && recvBuf[..recvBytes] == recv
      modifies this`recvBytes, this`bodySize
      ensures Sized()
      ensures View() == if |recv| == old(bodySize) then START else Reader(old(bodySize), recv)
      ensures msg == if |recv| == old(bodySize) then Some(recv) else None
    {
      msg := None;
      var size := bodySize;
      if recvBytes == size {
        recvBytes := 0;
        bodySize := 0;
        msg := Some(recvBuf[..size]);
      }
    }

    /** The buffer and the two counters after `nread` more bytes */
    method Advance(nread: nat) returns (msg: Option<Message>)
      requires Sized() && 1 <= nread <= Offered(View())
      modifies this`recvBytes, this`bodySize, this`bufSize, this`recvBuf
      ensures Sized() && (recvBuf == old(recvBuf) || fresh(recvBuf))
      ensures var chunk := old(recvBuf[recvBytes..recvBytes + nread]);
        Outcome(View(), if msg.Some? then [msg.value] else []) == Read(old(View()), chunk)
    {
      hide Read, Be16;
      ghost var before, chunk, recv := View(), recvBuf[recvBytes..recvBytes + nread], recvBuf[..recvBytes + nread];
      assert recv == before.recv + chunk;
      ReadCases(before, chunk, recv);
      msg := None;
      recvBytes := (recvBytes + nread % 0x1_0000) % 0x1_0000;
      if bodySize == 0 {
        FillHeader(recv);
      } else {
        msg := FillBody(recv);
      }
    }

    /** on_session_read for `nread > 0`, the bytes read being in the buffer behind the `recvBytes` known so far */
    method OnRead(nread: nat, now: nat) returns (msg: Option<Message>)
      requires Valid() && 1 <= nread <= Offered(View())
      modifies this
      ensures Valid() && (recvBuf == old(recvBuf) || fresh(recvBuf))
      ensures var chunk := old(recvBuf[recvBytes..recvBytes + nread]);
        && Outcome(View(), if msg.Some? then [msg.value] else []) == Read(old(View()), chunk)
        && received == old(received) + chunk
      ensures delivered == old(delivered) + if msg.Some? then [msg.value] else []
      ensures lastRecvTime == now && serial == old(serial) && handle == old(handle) && reading == old(reading)
    {
      hide Parse, Pending, Read;
      ghost var before, chunk := View(), recvBuf[recvBytes..recvBytes + nread];
      ReadExtends(received, delivered, before, chunk);
      lastRecvTime := now;
      msg := Advance(nread);
      received := received + chunk;
      delivered := delivered + if msg.Some? then [msg.value] else [];
    }

    /** What libuv does with a successful read: ask for room, fill it, report it. */
    method Receive(chunk: seq<byte>, now: nat) returns (msg: Option<Message>)
      requires Valid() && 1 <= |chunk| <= Offered(View())
      modifies this, recvBuf
      ensures Valid() && (recvBuf == old(recvBuf) || fresh(recvBuf))
      ensures Outcome(View(), if msg.Some? then [msg.value] else []) == Read(old(View()), chunk)
      ensures received == old(received) + chunk
      ensures delivered == old(delivered) + if msg.Some? then [msg.value] else []
      ensures lastRecvTime == now && serial == old(serial) && handle == old(handle) && reading == old(reading)
    {
      hide Parse, Pending, Read;
      var base, len := OnAlloc();
      var i := 0;
      while i < |chunk|
        invariant i <= |chunk|
        invariant recvBuf[..base] == old(recvBuf[..base]) && recvBuf[base..base + i] == chunk[..i]
        modifies recvBuf
      {
        recvBuf[base + i] := chunk[i];
        i := i + 1;
      }
      assert chunk[..i] == chunk;
      assert View().recv == old(View().recv) && recvBuf[recvBytes..recvBytes + |chunk|] == chunk;
      msg := OnRead(|chunk|, now);
    }
  }

  /** The bytes a writer has handed to libuv, and the messages they stand for */
  class Writer {
    var wire: seq<byte>
    ghost var sent: seq<Message>

    ghost predicate Valid()
      reads this
    {
      Writable(sent) && wire == Frames(sent)
    }

    constructor ()
      ensures Valid() && sent == []
    {
      wire, sent := [], [];
    }

    /** do_session_write; `r` is what uv_write answers */
    method Write(data: seq<byte>, r: int) returns (result: int)
      requires Valid() && 1 <= |data| <= MAX_UINT16
      modifies this
      ensures Valid()
      ensures result == if r < 0 then r else 0
      ensures sent == if r < 0 then old(sent) else old(sent) + [data]
    {
      hide *;
      var buffer := Pack(data);
      if r < 0 {
        return r;
      }
      FrameSent(data);
      wire := wire + buffer[..];
      sent := sent + [data];
      NowValid();
      return 0;
    }

    lemma FrameSent(data: seq<byte>)
      requires Valid() && 1 <= |data| <= MAX_UINT16
      ensures Writable(sent + [data]) && wire + Frame(data) == Frames(sent + [data])
    {
      FramesSnoc(sent, data);
    }

    lemma NowValid()
      requires Writable(sent) && wire == Frames(sent)
      ensures Valid()
    {
    }
  }

  /** The write buffer: the size in network order, and the data behind it */
  method Pack(data: seq<byte>) returns (buffer: array<byte>)
    requires |data| <= MAX_UINT16
    ensures fresh(buffer) && buffer[..] == Frame(data)
    ensures buffer.Length == 2 + |data| && buffer[0] == |data| / 256 && buffer[1] == |data| % 256
  {
    hide Header;
    var size := |data|;
    buffer := new byte[2 + size](_ => 0);
    var order := Header(size);
    buffer[0], buffer[1] := order[0], order[1];
    var i := 0;
    while i < size
      invariant i <= size
      invariant buffer[..2 + i] == Header(size) + data[..i]
      modifies buffer
    {
      buffer[2 + i] := data[i];
      i := i + 1;
    }
    assert data[..i] == data && buffer[..2 + i] == buffer[..];
    FrameBytes(data);
    assert buffer[0] == buffer[..][0] && buffer[1] == buffer[..][1];
  }

  lemma {:induction false} FramesSnoc(msgs: seq<Message>, m: Message)
    requires Writable(msgs) && 1 <= |m| <= MAX_UINT16
    ensures Frames(msgs + [m]) == Frames(msgs) + Frame(m)
  {
    if msgs == [] {
      assert [m][1..] == [];
      assert Frame(m) + [] == Frame(m);
    } else {
      FramesSnoc(msgs[1..], m);
      assert (msgs + [m])[1..] == msgs[1..] + [m];
    }
  }
}
