/** SerialTransport (libserialport): frames are
    `header (8 bytes, network order) + payload + CRC-16 (2 bytes, host order)`.
    The serial port is an abstract byte source (`input`, the bytes the port
    will still deliver) and an abstract sink (`wire`, every packet handed to
    `sp_blocking_write`); the number of bytes a write reports is a parameter. */
module Serial {
  import opened Wire

  /// Capacity of `m_buffer`, the largest payload Receive accepts.
  const BUFFER_SIZE: nat := 4096

  /// The packet `Send` writes for header `h` (its length already set) and payload `p`:
  /// the header and payload, then the CRC over both.
  function SerialFrame(step: CrcStep, h: DmqHeader, p: seq<byte>): (f: seq<byte>)
    ensures |f| == HEADER_SIZE + |p| + 2
  {
    var body := EncodeHeader(h) + p;
    body + HostBytes(Crc16CalcBlock(step, body, CRC_SEED))
  }

  /// What the port still delivers once the sync loop of Receive has consumed
  /// a 0xAA immediately followed by 0x55, or None when the port runs dry first
  /// (then the loop has consumed everything). The byte after a 0xAA is always
  /// consumed, so a 0xAA that is not followed by 0x55 also swallows the byte after it.
  function SyncRest(s: seq<byte>): Option<seq<byte>>
    decreases |s|
  {
    if |s| == 0 then None
    else if s[0] != 0xAA then SyncRest(s[1..])
    else if |s| == 1 then None
    else if s[1] == 0x55 then Some(s[2..])
    else SyncRest(s[2..])
  }

  /// What the sync loop leaves is what follows some 0xAA 0x55 in the input.
  lemma {:induction false} SyncRestIsSuffix(s: seq<byte>)
    requires SyncRest(s).Some?
    ensures exists skipped :: s == skipped + [0xAA, 0x55] + SyncRest(s).value
    decreases |s|
  {
    if s[0] != 0xAA {
      SyncRestIsSuffix(s[1..]);
      var skipped :| s[1..] == skipped + [0xAA, 0x55] + SyncRest(s).value;
      assert s == [s[0]] + skipped + [0xAA, 0x55] + SyncRest(s).value;
    } else if s[1] == 0x55 {
      assert s == [] + [0xAA, 0x55] + s[2..];
    } else {
      SyncRestIsSuffix(s[2..]);
      var skipped :| s[2..] == skipped + [0xAA, 0x55] + SyncRest(s).value;
      assert s == s[..2] + skipped + [0xAA, 0x55] + SyncRest(s).value;
    }
  }

  ghost predicate NoSyncByte(junk: seq<byte>)
  {
    forall i :: 0 <= i < |junk| ==> junk[i] != 0xAA
  }

  /// Bytes before a frame that contain no 0xAA are skipped by the sync loop.
  lemma {:induction false} SyncSkipsJunk(junk: seq<byte>, rest: seq<byte>)
    requires NoSyncByte(junk)
    ensures SyncRest(junk + [0xAA, 0x55] + rest) == Some(rest)
  {
    var s := junk + [0xAA, 0x55] + rest;
    if |junk| > 0 {
      assert s[1..] == junk[1..] + [0xAA, 0x55] + rest;
      SyncSkipsJunk(junk[1..], rest);
    } else {
      assert s[2..] == rest;
    }
  }

  /// A lone 0xAA right before a frame makes the sync loop swallow the frame's
  /// own 0xAA, so the loop resynchronises only after that frame's marker.
  lemma StrayAaHidesNextMarker(rest: seq<byte>)
    ensures SyncRest([0xAA, 0xAA, 0x55] + rest) == SyncRest(rest)
  {
    var s := [0xAA, 0xAA, 0x55] + rest;
    assert s[2..] == [0x55] + rest;
    assert s[2..][1..] == rest;
  }

  /// What one call of `Receive(is, header)` does with the bytes `s` the port
  /// delivers, starting from header object `hdr` and stream `strm` (the call's
  /// guards on the port and the receive transport have passed).
  function ReceiveSpec(step: CrcStep, s: seq<byte>, hdr: DmqHeader, strm: seq<byte>): Received
  {
    match SyncRest(s)
    case None => Received(-1, hdr, strm, [])
    case Some(t) => AfterSync(step, t, hdr, strm)
  }

  /// The rest of Receive once the sync loop has consumed 0xAA 0x55; `t` is
  /// what the port still delivers.
  function AfterSync(step: CrcStep, t: seq<byte>, hdr: DmqHeader, strm: seq<byte>): Received
  {
    if |t| < HEADER_SIZE - 2 then Received(-1, hdr, strm, [])
    else
      var hb := [0xAA, 0x55] + t[..HEADER_SIZE - 2];
      var h := DecodeHeader(hb);
      var u := t[HEADER_SIZE - 2..];
      if h.marker != MARKER then Received(-1, h, strm, u)
      else AfterHeader(step, hb, h, u, strm)
  }

  /// Payload and CRC, after the header bytes `hb` decoded to `h`.
  function AfterHeader(step: CrcStep, hb: seq<byte>, h: DmqHeader, u: seq<byte>, strm: seq<byte>): Received
  {
    var len := h.length as nat;
    if len > 0 && len > BUFFER_SIZE then Received(-1, h, strm, u)
    else if |u| < len then Received(-1, h, strm, [])
    else CrcCheck(step, hb, h, u[..len], u[len..], strm)
  }

  /// The CRC test: the two bytes after payload `p` must, read in host order,
  /// equal the CRC of the header bytes chained with the payload.
  function CrcCheck(step: CrcStep, hb: seq<byte>, h: DmqHeader, p: seq<byte>, v: seq<byte>, strm: seq<byte>): Received
  {
    if |v| < 2 then Received(-1, h, strm + p, [])
    else if HostWord(v[0], v[1]) != Crc16CalcBlock(step, p, Crc16CalcBlock(step, hb, CRC_SEED))
    then Received(-1, h, strm + p, v[2..])
    else Received(0, h, strm + p, v[2..])
  }

  /// The marker test in Receive never rejects: the sync loop has already
  /// matched both marker bytes.
  lemma MarkerTestNeverRejects(step: CrcStep, t: seq<byte>, hdr: DmqHeader, strm: seq<byte>)
    requires |t| >= HEADER_SIZE - 2
    ensures DecodeHeader([0xAA, 0x55] + t[..HEADER_SIZE - 2]).marker == MARKER
    ensures AfterSync(step, t, hdr, strm)
         == AfterHeader(step, [0xAA, 0x55] + t[..HEADER_SIZE - 2], DecodeHeader([0xAA, 0x55] + t[..HEADER_SIZE - 2]),
                        t[HEADER_SIZE - 2..], strm)
  {
    SyncBytesAreMarker([0xAA, 0x55] + t[..HEADER_SIZE - 2]);
  }

  /// The payload and CRC of a well-formed packet are accepted.
  lemma {:induction false} BodyAccepted(step: CrcStep, hb: seq<byte>, h: DmqHeader, p: seq<byte>,
                                        rest: seq<byte>, strm: seq<byte>)
    requires |hb| == HEADER_SIZE && h.length as nat == |p| && |p| <= BUFFER_SIZE
    ensures AfterHeader(step, hb, h, p + HostBytes(Crc16CalcBlock(step, hb + p, CRC_SEED)) + rest, strm)
         == Received(0, h, strm + p, rest)
  {
    var c := Crc16CalcBlock(step, hb + p, CRC_SEED);
    var u := p + HostBytes(c) + rest;
    assert u[..|p|] == p;
    assert u[|p|..] == HostBytes(c) + rest;
    assert (HostBytes(c) + rest)[2..] == rest;
    HostWordOfHostBytes(c);
    CrcChain(step, hb, p, CRC_SEED);
  }

  /// After bytes free of 0xAA, an encoded header carrying MARKER is synced on
  /// and decoded, and Receive goes on with the bytes after it.
  lemma SyncThenHeader(step: CrcStep, junk: seq<byte>, h: DmqHeader, tail: seq<byte>,
                       hdr: DmqHeader, strm: seq<byte>)
    requires NoSyncByte(junk) && h.marker == MARKER
    ensures ReceiveSpec(step, junk + EncodeHeader(h) + tail, hdr, strm)
         == AfterHeader(step, EncodeHeader(h), h, tail, strm)
  {
    var eh := EncodeHeader(h);
    var t := eh[2..] + tail;
    assert junk + eh + tail == junk + [0xAA, 0x55] + t;
    SyncSkipsJunk(junk, t);
    assert [0xAA, 0x55] + t[..6] == eh;
    assert t[6..] == tail;
    HeaderRoundTrip(h);
  }

  /// Round trip: a packet built by Send, after any bytes free of 0xAA, is
  /// received as the same header and payload, and exactly the packet is consumed.
  lemma RoundTrip(step: CrcStep, junk: seq<byte>, h: DmqHeader, p: seq<byte>,
                  rest: seq<byte>, hdr: DmqHeader, strm: seq<byte>)
    requires NoSyncByte(junk)
    requires h.marker == MARKER && h.length as nat == |p| && |p| <= BUFFER_SIZE
    ensures ReceiveSpec(step, junk + SerialFrame(step, h, p) + rest, hdr, strm) == Received(0, h, strm + p, rest)
  {
    var eh := EncodeHeader(h);
    var tail := p + HostBytes(Crc16CalcBlock(step, eh + p, CRC_SEED)) + rest;
    assert junk + SerialFrame(step, h, p) + rest == junk + eh + tail;
    SyncThenHeader(step, junk, h, tail, hdr, strm);
    BodyAccepted(step, eh, h, p, rest, strm);
  }

  /// Conversely, an accepted payload and CRC are exactly the declared number
  /// of bytes followed by their CRC.
  lemma BodyAcceptedIsFrame(step: CrcStep, hb: seq<byte>, h: DmqHeader, u: seq<byte>, strm: seq<byte>)
    requires |hb| == HEADER_SIZE && EncodeHeader(h) == hb
    requires AfterHeader(step, hb, h, u, strm).status == 0
    ensures var R := AfterHeader(step, hb, h, u, strm);
      var p := u[..h.length as nat];
      |p| == h.length as nat <= BUFFER_SIZE && R.header == h && R.stream == strm + p &&
      hb + u == SerialFrame(step, h, p) + R.rest
  {
    var len := h.length as nat;
    var p := u[..len];
    var v := u[len..];
    var c := Crc16CalcBlock(step, hb + p, CRC_SEED);
    CrcChain(step, hb, p, CRC_SEED);
    assert HostWord(v[0], v[1]) == c;
    WordBytes(v[1], v[0]);
    assert v[..2] == HostBytes(c);
    assert u == p + v[..2] + v[2..];
  }

  /// The marker bytes and the six header bytes after them, then the rest.
  lemma SplitAfterMarker(t: seq<byte>)
    requires |t| >= HEADER_SIZE - 2
    ensures [0xAA, 0x55] + t == ([0xAA, 0x55] + t[..HEADER_SIZE - 2]) + t[HEADER_SIZE - 2..]
  {
  }

  /// An accepted call, from the point where the sync loop stopped: the marker
  /// bytes and what followed them form exactly one packet.
  lemma AfterSyncAcceptedIsFrame(step: CrcStep, t: seq<byte>, hdr: DmqHeader, strm: seq<byte>)
    requires AfterSync(step, t, hdr, strm).status == 0
    ensures var R := AfterSync(step, t, hdr, strm);
      var p := t[HEADER_SIZE - 2..][..R.header.length as nat];
      R.stream == strm + p && |p| == R.header.length as nat <= BUFFER_SIZE && R.header.marker == MARKER &&
      [0xAA, 0x55] + t == SerialFrame(step, R.header, p) + R.rest
  {
    var hb := [0xAA, 0x55] + t[..6];
    HeaderBytesRoundTrip(hb);
    SplitAfterMarker(t);
    BodyAcceptedIsFrame(step, hb, DecodeHeader(hb), t[6..], strm);
  }

  lemma Regroup<T>(a: seq<T>, b: seq<T>, f: seq<T>, r: seq<T>)
    requires b == f + r
    ensures a + b == a + f + r
  {
  }

  /// The bytes before the sync point, then an accepted rest, form skipped
  /// bytes followed by one packet.
  lemma SkippedThenFrame(step: CrcStep, s: seq<byte>, skipped: seq<byte>, t: seq<byte>,
                         hdr: DmqHeader, strm: seq<byte>)
    requires s == skipped + [0xAA, 0x55] + t && AfterSync(step, t, hdr, strm).status == 0
    ensures var R := AfterSync(step, t, hdr, strm);
      exists p: seq<byte> ::
        R.stream == strm + p && |p| == R.header.length as nat && |p| <= BUFFER_SIZE &&
        R.header.marker == MARKER && s == skipped + SerialFrame(step, R.header, p) + R.rest
  {
    var R := AfterSync(step, t, hdr, strm);
    AfterSyncAcceptedIsFrame(step, t, hdr, strm);
    var p := t[HEADER_SIZE - 2..][..R.header.length as nat];
    Regroup(skipped, [0xAA, 0x55] + t, SerialFrame(step, R.header, p), R.rest);
  }

  /// Conversely, an accepted call consumed some bytes and then exactly one
  /// well-formed packet carrying the returned header and payload.
  lemma AcceptedIsFrame(step: CrcStep, s: seq<byte>, hdr: DmqHeader, strm: seq<byte>)
    requires ReceiveSpec(step, s, hdr, strm).status == 0
    ensures var R := ReceiveSpec(step, s, hdr, strm);
      exists skipped: seq<byte>, p: seq<byte> ::
        R.stream == strm + p && |p| == R.header.length as nat && |p| <= BUFFER_SIZE &&
        R.header.marker == MARKER && s == skipped + SerialFrame(step, R.header, p) + R.rest
  {
    var t := SyncRest(s).value;
    assert ReceiveSpec(step, s, hdr, strm) == AfterSync(step, t, hdr, strm);
    SyncRestIsSuffix(s);
    var skipped :| s == skipped + [0xAA, 0x55] + t;
    SkippedThenFrame(step, s, skipped, t, hdr, strm);
  }

  /// A declared length above BUFFER_SIZE is refused before any payload is read.
  lemma RejectsOversize(step: CrcStep, junk: seq<byte>, h: DmqHeader, tail: seq<byte>,
                        hdr: DmqHeader, strm: seq<byte>)
    requires NoSyncByte(junk) && h.marker == MARKER && h.length as nat > BUFFER_SIZE
    ensures ReceiveSpec(step, junk + EncodeHeader(h) + tail, hdr, strm) == Received(-1, h, strm, tail)
  {
    SyncThenHeader(step, junk, h, tail, hdr, strm);
  }

  /// Payload bytes followed by a wrong CRC are refused, after both are consumed.
  lemma BodyRejectsBadCrc(step: CrcStep, hb: seq<byte>, h: DmqHeader, p: seq<byte>, crc: u16,
                          rest: seq<byte>, strm: seq<byte>)
    requires |hb| == HEADER_SIZE && h.length as nat == |p| && |p| <= BUFFER_SIZE
    requires crc != Crc16CalcBlock(step, hb + p, CRC_SEED)
    ensures AfterHeader(step, hb, h, p + HostBytes(crc) + rest, strm) == Received(-1, h, strm + p, rest)
  {
    var u := p + HostBytes(crc) + rest;
    assert u[..|p|] == p;
    assert u[|p|..] == HostBytes(crc) + rest;
    assert (HostBytes(crc) + rest)[2..] == rest;
    HostWordOfHostBytes(crc);
    CrcChain(step, hb, p, CRC_SEED);
  }

  /// A packet whose CRC bytes differ from the CRC of its header and payload is refused.
  lemma RejectsBadCrc(step: CrcStep, junk: seq<byte>, h: DmqHeader, p: seq<byte>, crc: u16,
                      rest: seq<byte>, hdr: DmqHeader, strm: seq<byte>)
    requires NoSyncByte(junk)
    requires h.marker == MARKER && h.length as nat == |p| && |p| <= BUFFER_SIZE
    requires crc != Crc16CalcBlock(step, EncodeHeader(h) + p, CRC_SEED)
    ensures ReceiveSpec(step, junk + EncodeHeader(h) + p + HostBytes(crc) + rest, hdr, strm)
         == Received(-1, h, strm + p, rest)
  {
    var eh := EncodeHeader(h);
    var tail := p + HostBytes(crc) + rest;
    assert junk + eh + p + HostBytes(crc) + rest == junk + eh + tail;
    SyncThenHeader(step, junk, h, tail, hdr, strm);
    BodyRejectsBadCrc(step, eh, h, p, crc, rest, strm);
  }

  class SerialTransport {
    const step: CrcStep
    /// `m_buffer`, where the payload is reassembled.
    const buffer: array<byte>
    /// `m_port != nullptr`.
    var portOpen: bool
    var sendTransport: Peer
    var recvTransport: Peer
    var hasMonitor: bool
    var monitorLog: seq<MonitorCall>
    /// Every packet handed to `sp_blocking_write`, in order.
    var wire: seq<seq<byte>>
    /// Send calls made on a send transport other than this one.
    var forwarded: seq<ForwardedSend>
    /// The bytes the port will still deliver.
    var input: seq<byte>

    ghost predicate Valid()
      reads this
    {
      buffer.Length == BUFFER_SIZE
    }

    /// Both transport pointers designate the new object; no port, no monitor.
    constructor (step: CrcStep, input: seq<byte>)
      ensures Valid() && fresh(buffer)
      ensures this.step == step && this.input == input
      ensures !portOpen && sendTransport == SelfPeer && recvTransport == SelfPeer && !hasMonitor
      ensures monitorLog == [] && wire == [] && forwarded == []
    {
      this.step := step;
      this.input := input;
      buffer := new byte[BUFFER_SIZE];
      portOpen := false;
      sendTransport, recvTransport := SelfPeer, SelfPeer;
      hasMonitor := false;
      monitorLog, wire, forwarded := [], [], [];
    }

    /// `Create(portName, baudRate)`: `found` and `openOk` are the results of
    /// looking the port up and opening it (a failed lookup leaves no port, a
    /// failed open frees it); the port is open exactly when both succeeded.
    method Create(found: bool, openOk: bool) returns (r: int)
      modifies this`portOpen
      ensures portOpen == (found && openOk) && r == (if portOpen then 0 else -1)
    {
      portOpen := false;
      if !found { return -1; }
      if !openOk { return -1; }
      portOpen := true;
      r := 0;
    }

    method Close()
      modifies this`portOpen
      ensures !portOpen
    {
      portOpen := false;
    }

    method SetTransportMonitor(present: bool)
      modifies this`hasMonitor
      ensures hasMonitor == present
    {
      hasMonitor := present;
    }

    method SetSendTransport(p: Peer)
      modifies this`sendTransport
      ensures sendTransport == p
    {
      sendTransport := p;
    }

    method SetRecvTransport(p: Peer)
      modifies this`recvTransport
      ensures recvTransport == p
    {
      recvTransport := p;
    }

    /// `Send(os, header)`. `writeResult` is what `sp_blocking_write` reports.
    /// The monitor registration happens before the write, so a failed write
    /// leaves it in place.
    method Send(payload: seq<byte>, header: DmqHeader, writeResult: int) returns (r: int)
      modifies this`wire, this`monitorLog
      ensures !portOpen || |payload| > U16_MAX ==>
        r == -1 && wire == old(wire) && monitorLog == old(monitorLog)
      ensures portOpen && |payload| <= U16_MAX ==>
        var hc := header.(length := |payload| as u16);
        wire == old(wire) + [SerialFrame(step, hc, payload)] &&
        monitorLog == old(monitorLog) + Registration(header, hasMonitor) &&
        r == (if writeResult == |SerialFrame(step, hc, payload)| then 0 else -1)
    {
      if !portOpen { return -1; }
      if |payload| > U16_MAX { return -1; }
      var hc := header.(length := |payload| as u16);
      SwappedHostIsNet(hc.marker);
      SwappedHostIsNet(hc.id);
      SwappedHostIsNet(hc.seqNum);
      SwappedHostIsNet(hc.length);
      var ss: seq<byte> := [];
      ss := ss + HostBytes(Swap16(hc.marker));
      ss := ss + HostBytes(Swap16(hc.id));
      ss := ss + HostBytes(Swap16(hc.seqNum));
      ss := ss + HostBytes(Swap16(hc.length));
      assert ss == EncodeHeader(hc);
      ss := ss + payload;
      var crc := Crc16CalcBlock(step, ss, CRC_SEED);
      ss := ss + HostBytes(crc);
      if header.id != ACK_REMOTE_ID && hasMonitor {
        monitorLog := monitorLog + [Add(hc.seqNum, hc.id)];
      }
      wire := wire + [ss];
      r := if writeResult == |ss| then 0 else -1;
    }

    /// `sp_blocking_read(port, dest + at, want, timeout)`: copies what the port
    /// has, up to `want` bytes, and reports how many; 0 means it timed out.
    method PortRead(dest: array<byte>, at: nat, want: nat) returns (got: nat)
      requires at + want <= dest.Length
      modifies this`input, dest
      ensures got == if want < |old(input)| then want else |old(input)|
      ensures forall i :: 0 <= i < got ==> dest[at + i] == old(input)[i]
      ensures input == old(input)[got..]
      ensures forall j :: 0 <= j < dest.Length && !(at <= j < at + got) ==> dest[j] == old(dest[j])
    {
      got := if want < |input| then want else |input|;
      var j := 0;
      while j < got
        invariant 0 <= j <= got && input == old(input)
        invariant forall i :: 0 <= i < j ==> dest[at + i] == input[i]
        invariant forall i :: 0 <= i < dest.Length && !(at <= i < at + j) ==> dest[i] == old(dest[i])
      {
        dest[at + j] := input[j];
        j := j + 1;
      }
      input := input[got..];
    }

    /// `ReadExact(dest, size, timeout)`: reads until `size` bytes have arrived;
    /// fails when the port is closed or a read times out.
    method ReadExact(dest: array<byte>, at: nat, size: nat) returns (ok: bool)
      requires at + size <= dest.Length
      modifies this`input, dest
      ensures ok == (size == 0 || (portOpen && size <= |old(input)|))
      ensures ok ==> dest[at..at + size] == old(input)[..size] && input == old(input)[size..]
      ensures !ok ==> input == (if portOpen then [] else old(input))
      ensures forall j :: 0 <= j < dest.Length && !(at <= j < at + size) ==> dest[j] == old(dest[j])
    {
      var total := 0;
      while total < size
        invariant 0 <= total <= size && total <= |old(input)|
        invariant input == old(input)[total..]
        invariant forall i :: 0 <= i < total ==> dest[at + i] == old(input)[i]
        invariant total > 0 ==> portOpen
        invariant forall j :: 0 <= j < dest.Length && !(at <= j < at + size) ==> dest[j] == old(dest[j])
      {
        if !portOpen { return false; }
        var ret := PortRead(dest, at + total, size - total);
        if ret == 0 {
          return false;
        }
        total := total + ret;
      }
      assert dest[at..at + size] == old(input)[..size];
      return true;
    }

    /// One `sp_blocking_read(port, &b, 1, timeout) > 0`.
    method ReadOne() returns (got: bool, b: byte)
      modifies this`input
      ensures got == (old(input) != [])
      ensures got ==> b == old(input)[0] && input == old(input)[1..]
      ensures !got ==> input == old(input)
    {
      if input == [] { return false, 0; }
      b := input[0];
      input := input[1..];
      got := true;
    }

    /// One pass of the sync loop: reads a byte and, after a 0xAA, the next one.
    /// `stop` says the loop ends here, `found` that it ends on 0xAA 0x55.
    method SyncRound() returns (stop: bool, found: bool)
      modifies this`input
      ensures stop ==> found == SyncRest(old(input)).Some? &&
                       input == (if found then SyncRest(old(input)).value else [])
      ensures !stop ==> |input| < |old(input)| && SyncRest(input) == SyncRest(old(input))
    {
      ghost var s := input;
      var got, b := ReadOne();
      if !got { return true, false; }
      if b == 0xAA {
        var got2, nb := ReadOne();
        if got2 && nb == 0x55 {
          return true, true;
        }
        if got2 {
          assert input == s[2..];
        }
      }
      return false, false;
    }

    /// The sync loop of Receive: discards bytes until 0xAA immediately followed by 0x55.
    method Sync() returns (ok: bool)
      modifies this`input
      ensures ok == SyncRest(old(input)).Some?
      ensures input == if ok then SyncRest(old(input)).value else []
    {
      while true
        invariant SyncRest(input) == SyncRest(old(input))
        decreases |input|
      {
        var stop, found := SyncRound();
        if stop { return found; }
      }
    }

    /// Steps 4 and 5 of Receive: the payload into `m_buffer` and the CRC test,
    /// after the header bytes `headerBuf` (decoded to `h`) have been read.
    method ReadBody(headerBuf: array<byte>, h: DmqHeader, strm: seq<byte>) returns (r: int, strmOut: seq<byte>)
      requires Valid() && portOpen && headerBuf.Length == HEADER_SIZE && headerBuf != buffer
      modifies this`input, buffer
      ensures var R := AfterHeader(step, headerBuf[..], h, old(input), strm);
        r == R.status && h == R.header && strmOut == R.stream && input == R.rest
    {
      ghost var u := input;
      strmOut := strm;
      var len := h.length as nat;
      if len > 0 {
        if len > BUFFER_SIZE { return -1, strmOut; }
        var got := ReadExact(buffer, 0, len);
        if !got { return -1, strmOut; }
        strmOut := strm + buffer[..len];
      }
      assert strmOut == strm + u[..len] && input == u[len..];
      ghost var v := input;
      var crcBuf := new byte[2];
      var got := ReadExact(crcBuf, 0, 2);
      if !got { return -1, strmOut; }
      var receivedCrc := HostWord(crcBuf[0], crcBuf[1]);
      var calcCrc := Crc16CalcBlock(step, headerBuf[..], CRC_SEED);
      if len > 0 { calcCrc := Crc16CalcBlock(step, buffer[..len], calcCrc); }
      assert receivedCrc == HostWord(v[0], v[1]);
      assert calcCrc == Crc16CalcBlock(step, u[..len], Crc16CalcBlock(step, headerBuf[..], CRC_SEED));
      if receivedCrc != calcCrc { return -1, strmOut; }
      r := 0;
    }

    /// Steps 1 to 5 of Receive: sync, header, payload and CRC test.
    method ReadFrame(hdr: DmqHeader, strm: seq<byte>) returns (r: int, hdrOut: DmqHeader, strmOut: seq<byte>)
      requires Valid() && portOpen
      modifies this`input, buffer
      ensures var R := ReceiveSpec(step, old(input), hdr, strm);
        r == R.status && hdrOut == R.header && strmOut == R.stream && input == R.rest
    {
      var headerBuf := new byte[HEADER_SIZE];
      var synced := Sync();
      if !synced { return -1, hdr, strm; }
      ghost var t := input;
      headerBuf[0], headerBuf[1] := 0xAA, 0x55;
      var got := ReadExact(headerBuf, 2, HEADER_SIZE - 2);
      if !got { return -1, hdr, strm; }
      assert headerBuf[..] == [0xAA, 0x55] + t[..HEADER_SIZE - 2] by {
        assert headerBuf[..] == headerBuf[..2] + headerBuf[2..HEADER_SIZE];
      }
      SwapOfHostWordIsNet(headerBuf[0], headerBuf[1]);
      SwapOfHostWordIsNet(headerBuf[2], headerBuf[3]);
      SwapOfHostWordIsNet(headerBuf[4], headerBuf[5]);
      SwapOfHostWordIsNet(headerBuf[6], headerBuf[7]);
      hdrOut := DmqHeader(Swap16(HostWord(headerBuf[0], headerBuf[1])), Swap16(HostWord(headerBuf[2], headerBuf[3])),
                          Swap16(HostWord(headerBuf[4], headerBuf[5])), Swap16(HostWord(headerBuf[6], headerBuf[7])));
      assert hdrOut == DecodeHeader(headerBuf[..]);
      if hdrOut.marker != MARKER { return -1, hdrOut, strm; }
      r, strmOut := ReadBody(headerBuf, hdrOut, strm);
    }

    /// `Receive(is, header)`. `ackWriteResult` is what the write of the
    /// acknowledgement reports when this object sends it itself (the result is
    /// ignored, as in the source).
    method Receive(hdr: DmqHeader, strm: seq<byte>, ackWriteResult: int)
      returns (r: int, hdrOut: DmqHeader, strmOut: seq<byte>)
      requires Valid()
      modifies this`input, this`wire, this`monitorLog, this`forwarded, buffer
      ensures !portOpen || recvTransport != SelfPeer ==>
        r == -1 && hdrOut == hdr && strmOut == strm && input == old(input) &&
        wire == old(wire) && monitorLog == old(monitorLog) && forwarded == old(forwarded)
      ensures portOpen && recvTransport == SelfPeer ==>
        var R := ReceiveSpec(step, old(input), hdr, strm);
        r == R.status && hdrOut == R.header && strmOut == R.stream && input == R.rest
      ensures r != 0 ==> wire == old(wire) && monitorLog == old(monitorLog) && forwarded == old(forwarded)
      ensures r == 0 && hdrOut.id == ACK_REMOTE_ID ==>
        monitorLog == old(monitorLog) + (if hasMonitor then [Remove(hdrOut.seqNum)] else []) &&
        wire == old(wire) && forwarded == old(forwarded)
      ensures r == 0 && hdrOut.id != ACK_REMOTE_ID ==>
        monitorLog == old(monitorLog) &&
        wire == old(wire) + (if sendTransport == SelfPeer then [SerialFrame(step, AckHeader(hdrOut.seqNum), [])] else []) &&
        forwarded == old(forwarded) + (if sendTransport == OtherPeer then [ForwardedSend(AckHeader(hdrOut.seqNum), [])] else [])
    {
      if !portOpen { return -1, hdr, strm; }
      if recvTransport != SelfPeer { return -1, hdr, strm; }
      r, hdrOut, strmOut := ReadFrame(hdr, strm);
      if r != 0 { return; }
      if hdrOut.id == ACK_REMOTE_ID {
        if hasMonitor { monitorLog := monitorLog + [Remove(hdrOut.seqNum)]; }
      } else if sendTransport == SelfPeer {
        var _ := Send([], AckHeader(hdrOut.seqNum), ackWriteResult);
      } else if sendTransport == OtherPeer {
        forwarded := forwarded + [ForwardedSend(AckHeader(hdrOut.seqNum), [])];
      }
    }
  }
}
