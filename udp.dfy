/** NetconnUdpTransport (lwIP netconn API): one datagram per message, the
    8-byte network-order header followed by the payload, no CRC. A SUB
    transport only sends acknowledgements, and replies go to whoever sent
    the last datagram. */
module Udp {
  import opened Wire

  /// `Type::PUB` or `Type::SUB`.
  datatype Role = Pub | Sub

  /// An `ip_addr_t` (IPv4).
  newtype IpAddr = x: int | 0 <= x < 0x1_0000_0000

  /// A netbuf's contents: lwIP keeps its total length in 16 bits.
  type Payload16 = s: seq<byte> | |s| <= 0xFFFF

  /// A datagram this transport handed to `netconn_sendto`.
  datatype Sent = Sent(ip: IpAddr, port: u16, data: seq<byte>)

  /// What `netconn_recv` delivers: a timeout, another error (or no buffer),
  /// or a datagram with the sender's address (absent when lwIP has none) and port.
  datatype RecvEvent = RecvTimeout | RecvError | Got(from: Option<IpAddr>, port: u16, data: Payload16)

  /// What lwIP reports for the calls one Send makes: `netbuf_new`,
  /// `netbuf_alloc` and `netconn_sendto`.
  datatype TxOutcome = TxOutcome(netbufOk: bool, allocOk: bool, sendOk: bool)

  /// The stream and header a Receive leaves behind, with its return code.
  datatype Parsed = Parsed(status: int, header: DmqHeader, stream: seq<byte>)

  /// The datagram Send builds: the header with its length replaced by the
  /// payload size, then the payload.
  function Datagram(header: DmqHeader, payload: seq<byte>): (d: seq<byte>)
    requires |payload| <= U16_MAX
    ensures |d| == HEADER_SIZE + |payload|
  {
    EncodeHeader(header.(length := |payload| as u16)) + payload
  }

  /// The checks and the payload extraction of Receive, on the bytes of one
  /// datagram. `hdr` and `strm` are the header and stream passed in.
  function ParseDatagram(d: seq<byte>, hdr: DmqHeader, strm: seq<byte>): Parsed
  {
    if |d| < HEADER_SIZE then Parsed(-1, hdr, strm)
    else
      var h := DecodeHeader(d[..HEADER_SIZE]);
      if h.marker != MARKER || |d| < HEADER_SIZE + h.length as nat then Parsed(-1, h, [])
      else Parsed(0, h, d[HEADER_SIZE..HEADER_SIZE + h.length as nat])
  }

  /// A datagram is accepted exactly when it holds a header with the marker
  /// and at least as many bytes after it as the header declares.
  lemma AcceptedIff(d: seq<byte>, hdr: DmqHeader, strm: seq<byte>)
    ensures ParseDatagram(d, hdr, strm).status == 0 <==>
      |d| >= HEADER_SIZE && DecodeHeader(d[..HEADER_SIZE]).marker == MARKER &&
      |d| >= HEADER_SIZE + DecodeHeader(d[..HEADER_SIZE]).length as nat
    ensures ParseDatagram(d, hdr, strm).status in {0, -1}
  {
  }

  /// Whatever Receive accepts is a datagram Send could have built, followed
  /// by bytes that are ignored.
  lemma AcceptedIsDatagram(d: seq<byte>, hdr: DmqHeader, strm: seq<byte>)
    requires ParseDatagram(d, hdr, strm).status == 0
    ensures var P := ParseDatagram(d, hdr, strm);
      |P.stream| == P.header.length as nat &&
      d == Datagram(P.header, P.stream) + d[HEADER_SIZE + |P.stream|..]
  {
    var hb := d[..HEADER_SIZE];
    var h := DecodeHeader(hb);
    var n := HEADER_SIZE + h.length as nat;
    var p := d[HEADER_SIZE..n];
    assert ParseDatagram(d, hdr, strm) == Parsed(0, h, p);
    HeaderBytesRoundTrip(hb);
    assert |p| as u16 == h.length;
    assert Datagram(h, p) == hb + p;
    SplitAt(d, HEADER_SIZE, n);
  }

  lemma SplitAt<T>(s: seq<T>, i: nat, j: nat)
    requires i <= j <= |s|
    ensures s == s[..i] + s[i..j] + s[j..]
  {
  }

  /// Round trip: a datagram built by Send, with anything after it, is
  /// received with the same header (length set to the payload size) and payload.
  lemma RoundTrip(h: DmqHeader, p: seq<byte>, extra: seq<byte>, hdr: DmqHeader, strm: seq<byte>)
    requires h.marker == MARKER && |p| <= U16_MAX
    ensures ParseDatagram(Datagram(h, p) + extra, hdr, strm) == Parsed(0, h.(length := |p| as u16), p)
  {
    var h' := h.(length := |p| as u16);
    var d := Datagram(h, p) + extra;
    assert d[..HEADER_SIZE] == EncodeHeader(h');
    HeaderRoundTrip(h');
    assert d[HEADER_SIZE..HEADER_SIZE + |p|] == p;
  }

  /// A marker mismatch or a short datagram costs the caller's stream: it is
  /// cleared before the checks.
  lemma RejectedAfterHeaderClearsStream(d: seq<byte>, hdr: DmqHeader, strm: seq<byte>)
    requires |d| >= HEADER_SIZE && ParseDatagram(d, hdr, strm).status != 0
    ensures ParseDatagram(d, hdr, strm) == Parsed(-1, DecodeHeader(d[..HEADER_SIZE]), [])
  {
  }

  class NetconnUdpTransport {
    /// `m_conn != nullptr`.
    var hasConn: bool
    var role: Role
    var remoteIp: IpAddr
    var remotePort: u16
    /// The receive timeout last given to `netconn_set_recvtimeout`, in milliseconds.
    var recvTimeoutMs: nat
    var sendTransport: Peer
    var recvTransport: Peer
    var hasMonitor: bool
    var monitorLog: seq<MonitorCall>
    /// Every datagram `netconn_sendto` accepted.
    var sent: seq<Sent>
    var forwarded: seq<ForwardedSend>

    /// `NetconnUdpTransport()`: both transport pointers designate the new object.
    constructor ()
      ensures !hasConn && role == Pub && remotePort == 0 && !hasMonitor
      ensures sendTransport == SelfPeer && recvTransport == SelfPeer
      ensures monitorLog == [] && sent == [] && forwarded == []
    {
      hasConn, role, remoteIp, remotePort, recvTimeoutMs := false, Pub, 0, 0, 0;
      sendTransport, recvTransport, hasMonitor := SelfPeer, SelfPeer, false;
      monitorLog, sent, forwarded := [], [], [];
    }

    /// `Create(type, addr, port)`. `connOk` is whether `netconn_new` gives a
    /// connection, `parsed` what `ipaddr_aton` makes of `addr`, `bindOk`
    /// whether `netconn_bind` succeeds. Role and port are recorded first,
    /// so they stay when creation fails.
    method Create(r0: Role, parsed: Option<IpAddr>, port: u16, connOk: bool, bindOk: bool) returns (r: int)
      modifies this`role, this`remotePort, this`hasConn, this`remoteIp, this`recvTimeoutMs
      ensures role == r0 && remotePort == port
      ensures r == (if connOk && (if r0 == Pub then parsed.Some? else bindOk) then 0 else -1)
      ensures hasConn == (r == 0)
      ensures r == 0 && r0 == Pub ==> remoteIp == parsed.value && recvTimeoutMs == 50
      ensures r == 0 && r0 == Sub ==> remoteIp == old(remoteIp) && recvTimeoutMs == 2000
    {
      role := r0;
      remotePort := port;
      hasConn := connOk;
      if !hasConn { return -1; }
      if r0 == Pub {
        if parsed.None? {
          Close();
          return -1;
        }
        remoteIp := parsed.value;
        recvTimeoutMs := 50;
      } else {
        if !bindOk {
          Close();
          return -1;
        }
        recvTimeoutMs := 2000;
      }
      r := 0;
    }

    /// `Close()`: deletes the connection, if any.
    method Close()
      modifies this`hasConn
      ensures !hasConn
    {
      if hasConn { hasConn := false; }
    }

    method SetTransportMonitor(present: bool)
      modifies this`hasMonitor
      ensures hasMonitor == present
    {
      hasMonitor := present;
    }

    method SetSendTransport(p: Peer)
      modifies this`sendTransport
      ensures sendTransport == p
    {
      sendTransport := p;
    }

    method SetRecvTransport(p: Peer)
      modifies this`recvTransport
      ensures recvTransport == p
    {
      recvTransport := p;
    }

    /// Whether Send passes its guards: a good stream, a connection, a PUB or
    /// an acknowledgement, this object as send transport, a payload that fits
    /// the 16-bit length.
    predicate SendAllowed(payload: seq<byte>, header: DmqHeader, osGood: bool)
      reads this
    {
      osGood && hasConn && !(role == Sub && header.id != ACK_REMOTE_ID) &&
      sendTransport == SelfPeer && |payload| <= U16_MAX
    }

    /// `Send(os, header)`. The monitor hears of the frame only once
    /// `netconn_sendto` has taken it.
    method Send(payload: seq<byte>, header: DmqHeader, osGood: bool, tx: TxOutcome) returns (r: int)
      modifies this`sent, this`monitorLog
      ensures var ok := SendAllowed(payload, header, osGood) && tx.netbufOk && tx.allocOk && tx.sendOk;
        r == (if ok then 0 else -1) &&
        sent == old(sent) + (if ok then [Sent(remoteIp, remotePort, Datagram(header, payload))] else []) &&
        monitorLog == old(monitorLog) + (if ok then Registration(header, hasMonitor) else [])
    {
      if !osGood || !hasConn { return -1; }
      if role == Sub && header.id != ACK_REMOTE_ID { return -1; }
      if sendTransport != SelfPeer { return -1; }
      if |payload| > U16_MAX { return -1; }
      var hc := header.(length := |payload| as u16);
      if !tx.netbufOk { return -1; }
      if !tx.allocOk { return -1; }
      var data := BuildDatagram(hc, payload);
      if !tx.sendOk { return -1; }
      sent := sent + [Sent(remoteIp, remotePort, data)];
      if header.id != ACK_REMOTE_ID && hasMonitor {
        monitorLog := monitorLog + [Add(hc.seqNum, hc.id)];
      }
      r := 0;
    }

    /// `Receive(is, header)`; `ev` is what `netconn_recv` delivers and
    /// `ackTx` what lwIP reports for an acknowledgement this object sends itself.
    method Receive(hdr: DmqHeader, strm: seq<byte>, ev: RecvEvent, ackTx: TxOutcome)
      returns (r: int, hdrOut: DmqHeader, strmOut: seq<byte>)
      modifies this`remoteIp, this`remotePort, this`sent, this`monitorLog, this`forwarded
      ensures !(recvTransport == SelfPeer && hasConn && ev.Got?) ==>
        r == -1 && hdrOut == hdr && strmOut == strm &&
        remoteIp == old(remoteIp) && remotePort == old(remotePort)
      ensures recvTransport == SelfPeer && hasConn && ev.Got? ==>
        remoteIp == (if ev.from.Some? then ev.from.value else old(remoteIp)) && remotePort == ev.port &&
        var P := ParseDatagram(ev.data, hdr, strm);
        r == P.status && hdrOut == P.header && strmOut == P.stream
      ensures r != 0 ==> sent == old(sent) && monitorLog == old(monitorLog) && forwarded == old(forwarded)
      ensures r == 0 && hdrOut.id == ACK_REMOTE_ID ==>
        monitorLog == old(monitorLog) + (if hasMonitor then [Remove(hdrOut.seqNum)] else []) &&
        sent == old(sent) && forwarded == old(forwarded)
      ensures r == 0 && hdrOut.id != ACK_REMOTE_ID ==>
        monitorLog == old(monitorLog) &&
        forwarded == old(forwarded) + (if hasMonitor && sendTransport == OtherPeer
                                       then [ForwardedSend(AckHeader(hdrOut.seqNum), [])] else []) &&
        sent == old(sent) + (if hasMonitor && sendTransport == SelfPeer && ackTx.netbufOk && ackTx.allocOk && ackTx.sendOk
                             then [Sent(remoteIp, remotePort, Datagram(AckHeader(hdrOut.seqNum), []))] else [])
    {
      if recvTransport != SelfPeer || !hasConn { return -1, hdr, strm; }
      if !ev.Got? { return -1, hdr, strm; }
      if ev.from.Some? { remoteIp := ev.from.value; }
      remotePort := ev.port;
      r, hdrOut, strmOut := Decode(ev.data, hdr, strm);
      if r != 0 { return; }
      React(hdrOut, ackTx);
    }

    /// The reliability step of Receive after an accepted frame with header `h`:
    /// an acknowledgement clears the pending send, anything else is
    /// acknowledged with its sequence number when a monitor and a send
    /// transport are set.
    method React(h: DmqHeader, ackTx: TxOutcome)
      requires hasConn
      modifies this`sent, this`monitorLog, this`forwarded
      ensures h.id == ACK_REMOTE_ID ==>
        monitorLog == old(monitorLog) + (if hasMonitor then [Remove(h.seqNum)] else []) &&
        sent == old(sent) && forwarded == old(forwarded)
      ensures h.id != ACK_REMOTE_ID ==>
        monitorLog == old(monitorLog) &&
        forwarded == old(forwarded) + (if hasMonitor && sendTransport == OtherPeer
                                       then [ForwardedSend(AckHeader(h.seqNum), [])] else []) &&
        sent == old(sent) + (if hasMonitor && sendTransport == SelfPeer && ackTx.netbufOk && ackTx.allocOk && ackTx.sendOk
                             then [Sent(remoteIp, remotePort, Datagram(AckHeader(h.seqNum), []))] else [])
    {
      if h.id == ACK_REMOTE_ID {
        if hasMonitor { monitorLog := monitorLog + [Remove(h.seqNum)]; }
      } else if hasMonitor && sendTransport != NoPeer {
        var ack := AckHeader(h.seqNum);
        if sendTransport == SelfPeer {
          var _ := Send([], ack, true, ackTx);
        } else {
          forwarded := forwarded + [ForwardedSend(ack, [])];
        }
      }
    }
  }

  /// The checks and the payload extraction of Receive on datagram `d`: the
  /// header is copied out field by field in host order and converted with
  /// `ntohs`; the caller's stream is cleared once the datagram holds a header.
  method Decode(d: Payload16, hdr: DmqHeader, strm: seq<byte>) returns (r: int, hdrOut: DmqHeader, strmOut: seq<byte>)
    ensures Parsed(r, hdrOut, strmOut) == ParseDatagram(d, hdr, strm)
  {
    if |d| < HEADER_SIZE { return -1, hdr, strm; }
    strmOut := [];
    var hb := d[..HEADER_SIZE];
    hdrOut := DmqHeader(Swap16(HostWord(hb[0], hb[1])), Swap16(HostWord(hb[2], hb[3])),
                        Swap16(HostWord(hb[4], hb[5])), Swap16(HostWord(hb[6], hb[7])));
    SwappedHostHeader(hb);
    var len := hdrOut.length as nat;
    if hdrOut.marker != MARKER || |d| < HEADER_SIZE + len { return -1, hdrOut, strmOut; }
    strmOut := d[HEADER_SIZE..HEADER_SIZE + len];
    r := 0;
  }

  /// The `memcpy` calls of Send: the four header fields after `htons`, each
  /// copied in host byte order at an advancing offset, then the payload.
  method BuildDatagram(hc: DmqHeader, payload: seq<byte>) returns (data: seq<byte>)
    requires |payload| <= U16_MAX && hc.length as nat == |payload|
    ensures data == Datagram(hc, payload)
  {
    var buf := new byte[HEADER_SIZE + |payload|];
    var ptr := 0;
    ptr := CopyWord(buf, ptr, Swap16(hc.marker));
    ptr := CopyWord(buf, ptr, Swap16(hc.id));
    ptr := CopyWord(buf, ptr, Swap16(hc.seqNum));
    ptr := CopyWord(buf, ptr, Swap16(hc.length));
    SwappedHostIsNet(hc.marker);
    SwappedHostIsNet(hc.id);
    SwappedHostIsNet(hc.seqNum);
    SwappedHostIsNet(hc.length);
    assert buf[..HEADER_SIZE] == EncodeHeader(hc);
    CopyBytes(buf, ptr, payload);
    assert buf[..] == buf[..HEADER_SIZE] + buf[HEADER_SIZE..];
    data := buf[..];
  }

  /// `memcpy(ptr, &v, 2); ptr += 2`: the word's bytes in host order.
  method CopyWord(buf: array<byte>, ptr: nat, v: u16) returns (next: nat)
    requires ptr + 2 <= buf.Length
    modifies buf
    ensures next == ptr + 2 && buf[ptr..next] == HostBytes(v)
    ensures forall j :: 0 <= j < buf.Length && !(ptr <= j < next) ==> buf[j] == old(buf[j])
  {
    buf[ptr] := Lo(v);
    buf[ptr + 1] := Hi(v);
    next := ptr + 2;
  }

  /// `memcpy(ptr, src, n)` into the tail of `buf`.
  method CopyBytes(buf: array<byte>, at: nat, src: seq<byte>)
    requires at + |src| == buf.Length
    modifies buf
    ensures buf[at..] == src && buf[..at] == old(buf[..at])
  {
    var i := 0;
    while i < |src|
      invariant 0 <= i <= |src|
      invariant forall k :: 0 <= k < i ==> buf[at + k] == src[k]
      invariant forall j :: 0 <= j < at ==> buf[j] == old(buf[j])
    {
      buf[at + i] := src[i];
      i := i + 1;
    }
    assert buf[at..] == src;
  }
}
