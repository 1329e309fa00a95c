/** ZeroMqTransport: the older framing that carries the argument bytes of a
    remote call after a header of host-order fields, over one ZeroMQ message
    per call. Only Send and Receive are modelled; the socket itself is the
    outcome of each library call. */
module ZeroMq {
  import opened Wire

  /// `BUFFER_SIZE`, the size of the member `buffer` zmq_recv fills.
  const BUFFER_SIZE: nat := 4096

  /// What `zmq_send` reports: success, or -1 with `zmq_errno()`.
  datatype SendResult = SendOk | SendFailed(errno: int)

  /// What `zmq_recv` finds: no message (timeout or error), or a message.
  /// zmq_recv copies at most BUFFER_SIZE bytes of it and returns its full size.
  datatype RecvEvent = NoMessage | Message(bytes: seq<byte>)

  /// A `std::stringstream` as Receive returns it: its contents and the read
  /// position, so the bytes a caller can still read are `data[pos..]`.
  datatype ZmqStream = ZmqStream(data: seq<byte>, pos: nat)

  function EmptyStream(): ZmqStream { ZmqStream([], 0) }

  /// The bytes a caller can still read from a stream.
  function Unread(s: ZmqStream): seq<byte>
  {
    if s.pos <= |s.data| then s.data[s.pos..] else []
  }

  /// The return code of `Send(os)`: -1 for a bad or empty stream, else 0 or
  /// the library's error number.
  function SendCode(data: seq<byte>, osGood: bool, res: SendResult): int
  {
    if !osGood || |data| == 0 then -1
    else match res
      case SendOk => 0
      case SendFailed(e) => e
  }

  lemma SendCodeCases(data: seq<byte>, osGood: bool, res: SendResult)
    ensures SendCode(data, osGood, res) == 0 <==> osGood && |data| > 0 && (res.SendOk? || res.errno == 0)
    ensures !osGood || |data| == 0 ==> SendCode(data, osGood, res) == -1
    ensures osGood && |data| > 0 && res.SendFailed? ==> SendCode(data, osGood, res) == res.errno
  {
  }

  function Min(a: nat, b: nat): nat { if a <= b then a else b }

  /// The part of a message that lands in `buffer`.
  function Landed(m: seq<byte>): (b: seq<byte>)
    ensures |b| <= BUFFER_SIZE && b == m[..Min(|m|, BUFFER_SIZE)]
  {
    m[..Min(|m|, BUFFER_SIZE)]
  }

  /// `Receive(header)` on what zmq_recv finds, with the argument bytes taken
  /// from what the buffer holds (see AsWrittenArgs for the code as written).
  /// No message, or one no longer than the header: an empty stream and the
  /// header untouched. A wrong marker: the marker is stored and the stream
  /// holding the eight header bytes is returned with its first two read.
  /// Otherwise marker, id and sequence number are stored as read in host
  /// order (the length is not) and the stream holds the bytes past the header.
  function ReceiveSpec(ev: RecvEvent, header: DmqHeader): (ZmqStream, DmqHeader)
  {
    match ev
    case NoMessage => (EmptyStream(), header)
    case Message(m) =>
      if |m| <= HEADER_SIZE then (EmptyStream(), header)
      else
        var b := Landed(m);
        var h1 := header.(marker := HostWord(b[0], b[1]));
        if h1.marker != MARKER then (ZmqStream(b[..HEADER_SIZE], 2), h1)
        else (ZmqStream(b[HEADER_SIZE..], 0), h1.(id := HostWord(b[2], b[3]), seqNum := HostWord(b[4], b[5])))
  }

  /// A message no longer than the header yields nothing.
  lemma ShortMessageIgnored(m: seq<byte>, header: DmqHeader)
    requires |m| <= HEADER_SIZE
    ensures ReceiveSpec(Message(m), header) == (EmptyStream(), header)
  {
  }

  /// With a wrong marker, what the caller can read is the rest of the header.
  lemma BadMarkerGivesHeaderBytes(m: seq<byte>, header: DmqHeader)
    requires |m| > HEADER_SIZE && HostWord(m[0], m[1]) != MARKER
    ensures Unread(ReceiveSpec(Message(m), header).0) == m[2..HEADER_SIZE]
    ensures ReceiveSpec(Message(m), header).1 == header.(marker := HostWord(m[0], m[1]))
  {
  }

  /// The argument stream of an accepted message holds exactly the message's
  /// bytes after the header, up to the end of the buffer, and the header's
  /// length field is never set.
  lemma AcceptedArgs(m: seq<byte>, header: DmqHeader)
    requires |m| > HEADER_SIZE && HostWord(m[0], m[1]) == MARKER
    ensures Unread(ReceiveSpec(Message(m), header).0) == m[HEADER_SIZE..Min(|m|, BUFFER_SIZE)]
    ensures ReceiveSpec(Message(m), header).1 == DmqHeader(MARKER, HostWord(m[2], m[3]), HostWord(m[4], m[5]), header.length)
  {
  }

  /// The header bytes `HostBytes(marker) + HostBytes(id) + HostBytes(seq)`
  /// read back in host order.
  lemma HostFieldsRead(marker: u16, id: u16, sq: u16, more: seq<byte>)
    ensures var f := HostBytes(marker) + HostBytes(id) + HostBytes(sq) + more;
      HostWord(f[0], f[1]) == marker && HostWord(f[2], f[3]) == id && HostWord(f[4], f[5]) == sq
  {
    HostWordOfHostBytes(marker);
    HostWordOfHostBytes(id);
    HostWordOfHostBytes(sq);
  }

  /// `argStream.write(buffer + HEADER_SIZE, size - HEADER_SIZE)` as written:
  /// `mem` is the object's memory from `buffer` on (the buffer and whatever
  /// lies after it), `size` what zmq_recv returned.
  function AsWrittenArgs(mem: seq<byte>, size: nat): seq<byte>
    requires HEADER_SIZE < size <= |mem|
  {
    mem[HEADER_SIZE..size]
  }

  /// Where the message fits, the code as written and ReceiveSpec agree.
  lemma AsWrittenAgreesWhenFits(m: seq<byte>, mem: seq<byte>, header: DmqHeader)
    requires HEADER_SIZE < |m| <= BUFFER_SIZE && |mem| >= BUFFER_SIZE && mem[..|m|] == m
    requires HostWord(m[0], m[1]) == MARKER
    ensures Unread(ReceiveSpec(Message(m), header).0) == AsWrittenArgs(mem, |m|)
  {
    assert mem[HEADER_SIZE..|m|] == m[HEADER_SIZE..];
  }

  /// A 4097-byte message: the code as written reads one byte past `buffer`,
  /// and what it returns is not the message's tail.
  lemma AsWrittenOverreads()
    ensures var m := seq(BUFFER_SIZE + 1, i => 0 as byte);
      var mem := seq(BUFFER_SIZE, i => 0 as byte) + [1];
      Landed(m) == mem[..BUFFER_SIZE] && |m| > BUFFER_SIZE &&
      AsWrittenArgs(mem, |m|) != m[HEADER_SIZE..]
  {
    var m := seq(BUFFER_SIZE + 1, i => 0 as byte);
    var mem := seq(BUFFER_SIZE, i => 0 as byte) + [1];
    assert AsWrittenArgs(mem, |m|)[BUFFER_SIZE - HEADER_SIZE] == 1;
    assert m[HEADER_SIZE..][BUFFER_SIZE - HEADER_SIZE] == 0;
  }

  class ZeroMqTransport {
    /// The member `buffer`.
    const buffer: array<byte>
    /// Every message `zmq_send` accepted.
    var sent: seq<seq<byte>>

    ghost predicate Valid()
      reads this
    {
      buffer.Length == BUFFER_SIZE
    }

    constructor ()
      ensures Valid() && fresh(buffer) && sent == []
    {
      buffer := new byte[BUFFER_SIZE];
      sent := [];
    }

    /// `Send(os)`: `data` is `os.str()`, `osGood` is `!os.bad() && !os.fail()`.
    method Send(data: seq<byte>, osGood: bool, res: SendResult) returns (r: int)
      modifies this`sent
      ensures r == SendCode(data, osGood, res)
      ensures sent == old(sent) + (if osGood && |data| > 0 && res.SendOk? then [data] else [])
    {
      var length := |data|;
      if !osGood || length <= 0 { return -1; }
      match res {
        case SendFailed(e) => return e;
        case SendOk =>
      }
      sent := sent + [data];
      r := 0;
    }

    /// `Receive(header)`.
    method Receive(header: DmqHeader, ev: RecvEvent) returns (s: ZmqStream, hdrOut: DmqHeader)
      requires Valid()
      modifies buffer
      ensures (s, hdrOut) == ReceiveSpec(ev, header)
    {
      if ev.NoMessage? { return EmptyStream(), header; }
      var size := |ev.bytes|;
      var n := Min(size, BUFFER_SIZE);
      forall i | 0 <= i < n {
        buffer[i] := ev.bytes[i];
      }
      ghost var b := Landed(ev.bytes);
      assert buffer[..n] == b;
      if size <= HEADER_SIZE { return EmptyStream(), header; }
      var headerStream := buffer[..HEADER_SIZE];
      assert headerStream == b[..HEADER_SIZE];
      assert buffer[HEADER_SIZE..n] == b[HEADER_SIZE..];
      var marker := HostWord(headerStream[0], headerStream[1]);
      hdrOut := header.(marker := marker);
      if hdrOut.marker != MARKER { return ZmqStream(headerStream, 2), hdrOut; }
      hdrOut := hdrOut.(id := HostWord(headerStream[2], headerStream[3]));
      hdrOut := hdrOut.(seqNum := HostWord(headerStream[4], headerStream[5]));
      s := ZmqStream(buffer[HEADER_SIZE..n], 0);
    }
  }
}
