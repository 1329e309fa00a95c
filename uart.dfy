/** Stm32UartTransport (STM32 HAL, FreeRTOS): the interrupt-fed ring buffer
    and a transport that frames messages like the serial one but syncs on the
    0xAA byte alone and never compares the CRC it receives. */
module Uart {
  import opened Wire
  import Serial

  /// The bytes held in ring storage `a` between `tail` (oldest) and `head`
  /// (next free slot), wrapping at the end of the storage.
  function RingView(a: seq<byte>, head: nat, tail: nat): (c: seq<byte>)
    requires head < |a| && tail < |a|
    ensures |c| == if tail <= head then head - tail else |a| - tail + head
  {
    if tail <= head then a[tail..head] else a[tail..] + a[..head]
  }

  /// The slot after `i` in storage of `n` slots: `(i + 1) % Size`.
  function Next(i: nat, n: nat): (r: nat)
    requires i < n
    ensures r < n && r == if i + 1 == n then 0 else i + 1
  {
    (i + 1) % n
  }

  /// Storing a byte in the free slot `head` and advancing `head` appends the
  /// byte, unless the advanced `head` would meet `tail`.
  lemma RingPut(a: seq<byte>, head: nat, tail: nat, d: byte)
    requires head < |a| && tail < |a| && Next(head, |a|) != tail
    ensures RingView(a[head := d], Next(head, |a|), tail) == RingView(a, head, tail) + [d]
  {
    var b := a[head := d];
    if tail <= head {
      assert b[tail..head] == a[tail..head];
      if head + 1 != |a| {
        assert b[tail..head + 1] == b[tail..head] + [d];
      } else {
        assert b[tail..] == b[tail..head] + [d];
        assert b[..0] == [];
      }
    } else {
      assert b[tail..] == a[tail..];
      assert b[..head + 1] == a[..head] + [d];
    }
  }

  /// Advancing `tail` past a non-empty ring removes its oldest byte, `a[tail]`.
  lemma RingGet(a: seq<byte>, head: nat, tail: nat)
    requires head < |a| && tail < |a| && head != tail
    ensures RingView(a, head, tail)[0] == a[tail]
    ensures RingView(a, head, Next(tail, |a|)) == RingView(a, head, tail)[1..]
  {
    var v := RingView(a, head, tail);
    if tail < head {
      assert Next(tail, |a|) == tail + 1;
      assert v == a[tail..head];
      assert a[tail + 1..head] == v[1..];
    } else if tail + 1 == |a| {
      assert Next(tail, |a|) == 0;
      assert v == [a[tail]] + a[..head];
      assert RingView(a, head, 0) == a[..head];
    } else {
      assert Next(tail, |a|) == tail + 1;
      assert v == a[tail..] + a[..head];
      assert a[tail..] == [a[tail]] + a[tail + 1..];
      assert v[1..] == a[tail + 1..] + a[..head];
    }
  }

  /// A full ring holds one byte less than its storage.
  lemma RingFullness(a: seq<byte>, head: nat, tail: nat)
    requires head < |a| && tail < |a|
    ensures Next(head, |a|) == tail <==> |RingView(a, head, tail)| == |a| - 1
  {
  }

  /// `UartRingBuffer<Size>`: one slot is always left free, so it holds at
  /// most `size - 1` bytes; `head` is where the next byte goes, `tail` where
  /// the oldest byte is.
  class UartRingBuffer {
    const size: nat
    const buffer: array<byte>
    var head: nat
    var tail: nat

    /// The bytes in the buffer, oldest first.
    ghost var contents: seq<byte>

    ghost predicate Valid()
      reads this, buffer
    {
      size > 0 && buffer.Length == size && head < size && tail < size &&
      contents == RingView(buffer[..], head, tail)
    }

    constructor (size: nat)
      requires size > 0
      ensures Valid() && this.size == size && fresh(buffer) && contents == []
    {
      this.size := size;
      buffer := new byte[size];
      head, tail := 0, 0;
      contents := [];
    }

    /// `Put(data)`, called from the interrupt: fails when the buffer is full.
    method Put(data: byte) returns (ok: bool)
      requires Valid()
      modifies this, buffer
      ensures Valid() && tail == old(tail)
      ensures ok == (|old(contents)| < size - 1)
      ensures contents == if ok then old(contents) + [data] else old(contents)
    {
      RingFullness(buffer[..], head, tail);
      var nextHead := (head + 1) % size;
      assert nextHead == Next(head, size);
      if nextHead == tail { return false; }
      RingPut(buffer[..], head, tail, data);
      buffer[head] := data;
      head := nextHead;
      contents := contents + [data];
      return true;
    }

    /// `Get(data)`, called from the receiving task: fails when the buffer is empty.
    method Get() returns (ok: bool, data: byte)
      requires Valid()
      modifies this
      ensures Valid() && head == old(head)
      ensures ok == (old(contents) != [])
      ensures ok ==> data == old(contents)[0] && contents == old(contents)[1..]
      ensures !ok ==> contents == old(contents)
    {
      if head == tail { return false, 0; }
      RingGet(buffer[..], head, tail);
      data := buffer[tail];
      tail := (tail + 1) % size;
      contents := contents[1..];
      ok := true;
    }

    method Clear()
      requires Valid()
      modifies this
      ensures Valid() && contents == []
    {
      head, tail := 0, 0;
      contents := [];
    }
  }

  /// A ring buffer of `n` slots accepts `n - 1` bytes and refuses the next.
  method FillRing(n: nat, data: seq<byte>) returns (accepted: nat)
    requires n > 0
    ensures accepted == if |data| < n - 1 then |data| else n - 1
  {
    var ring := new UartRingBuffer(n);
    accepted := 0;
    var i := 0;
    while i < |data|
      invariant 0 <= i <= |data| && ring.Valid() && ring.size == n && fresh(ring.buffer) && accepted <= i
      invariant ring.contents == data[..accepted]
      invariant accepted == if i < n - 1 then i else n - 1
    {
      var ok := ring.Put(data[i]);
      if ok {
        accepted := accepted + 1;
        assert data[..accepted] == data[..accepted - 1] + [data[i]];
      }
      i := i + 1;
    }
  }

  const RING_SIZE: nat := 1024
  /// `BUFFER_SIZE`, the capacity of `m_tempRxBuffer` and the largest payload accepted.
  const BUFFER_SIZE: nat := 512

  /// What the HAL reports for the calls one Send makes: taking the mutex and
  /// the three `HAL_UART_Transmit` calls (header, payload, CRC).
  datatype TxOutcome = TxOutcome(mutexTaken: bool, headerOk: bool, payloadOk: bool, crcOk: bool)

  /// The header Send transmits: the length is `(uint16_t)payload.length()`,
  /// the payload length reduced modulo 2^16.
  function TxHeader(header: DmqHeader, payload: seq<byte>): (h: DmqHeader)
    ensures h.length as nat == |payload| % 0x1_0000
    ensures h.(length := header.length) == header
  {
    header.(length := (|payload| % 0x1_0000) as u16)
  }

  /// The three transmissions of a Send that succeeds: the header, the payload
  /// (only when it is not empty, and only its first `(uint16_t)length` bytes),
  /// then the CRC, in host order, of the header and the whole payload.
  function TxSegments(step: CrcStep, header: DmqHeader, payload: seq<byte>): seq<seq<byte>>
  {
    var packet := EncodeHeader(TxHeader(header, payload));
    var crc := Crc16CalcBlock(step, payload, Crc16CalcBlock(step, packet, CRC_SEED));
    [packet] + (if |payload| > 0 then [payload[..|payload| % 0x1_0000]] else []) + [HostBytes(crc)]
  }

  /// The segments a Send that holds the mutex puts on the line: each one
  /// up to the first `HAL_UART_Transmit` that fails.
  function Transmits(step: CrcStep, header: DmqHeader, payload: seq<byte>, tx: TxOutcome): seq<seq<byte>>
  {
    var segs := TxSegments(step, header, payload);
    var sent := if !tx.headerOk then 0
                else if |payload| > 0 && !tx.payloadOk then 1
                else if !tx.crcOk then |segs| - 1
                else |segs|;
    segs[..sent]
  }

  function Flatten(segs: seq<seq<byte>>): seq<byte>
  {
    if segs == [] then [] else segs[0] + Flatten(segs[1..])
  }

  /// For a payload of at most 65535 bytes the UART sender puts on the line
  /// exactly the bytes the serial sender writes.
  lemma SameBytesAsSerial(step: CrcStep, header: DmqHeader, payload: seq<byte>)
    requires |payload| <= U16_MAX
    ensures Flatten(TxSegments(step, header, payload))
         == Serial.SerialFrame(step, header.(length := |payload| as u16), payload)
  {
    var hc := header.(length := |payload| as u16);
    var packet := EncodeHeader(hc);
    var crc := Crc16CalcBlock(step, payload, Crc16CalcBlock(step, packet, CRC_SEED));
    CrcChain(step, packet, payload, CRC_SEED);
    assert payload[..|payload| % 0x1_0000] == payload;
    var segs := TxSegments(step, header, payload);
    if |payload| > 0 {
      assert segs == [packet, payload, HostBytes(crc)];
      assert Flatten(segs[2..]) == HostBytes(crc) by {
        assert segs[2..][1..] == [];
      }
      assert Flatten(segs) == packet + (payload + HostBytes(crc));
    } else {
      assert segs == [packet, HostBytes(crc)];
      assert Flatten(segs[1..]) == HostBytes(crc) by {
        assert segs[1..][1..] == [];
      }
      assert payload + HostBytes(crc) == HostBytes(crc);
    }
  }

  /// A payload of 65536 + k bytes goes out with header length k: the length
  /// field wraps, there is no length check as in the serial sender.
  lemma LengthWraps(header: DmqHeader, payload: seq<byte>, k: nat)
    requires |payload| == 0x1_0000 + k && k < 0x1_0000
    ensures TxHeader(header, payload).length as nat == k
  {
  }

  /// What the UART sync loop leaves: the bytes after the first 0xAA, or None
  /// when no 0xAA ever arrives (the source then waits forever).
  function SyncRest(s: seq<byte>): Option<seq<byte>>
  {
    if |s| == 0 then None
    else if s[0] == 0xAA then Some(s[1..])
    else SyncRest(s[1..])
  }

  ghost predicate NoSyncByte(junk: seq<byte>)
  {
    forall i :: 0 <= i < |junk| ==> junk[i] != 0xAA
  }

  lemma {:induction false} SyncSkipsJunk(junk: seq<byte>, rest: seq<byte>)
    requires NoSyncByte(junk)
    ensures SyncRest(junk + [0xAA] + rest) == Some(rest)
  {
    var s := junk + [0xAA] + rest;
    if |junk| > 0 {
      assert s[1..] == junk[1..] + [0xAA] + rest;
      SyncSkipsJunk(junk[1..], rest);
    } else {
      assert s[1..] == rest;
    }
  }

  /// One `Receive(is, header)` (past its guard) on the stream of bytes `s`
  /// the ring buffer and the UART will deliver: None when no 0xAA ever
  /// arrives, since the sync loop retries every read and the call never
  /// returns.
  function ReceiveSpec(s: seq<byte>, hdr: DmqHeader, strm: seq<byte>): Option<Received>
  {
    match SyncRest(s)
    case None => None
    case Some(t) => Some(AfterSync(t, hdr, strm))
  }

  /// Receive does not return exactly when no 0xAA ever arrives.
  lemma {:induction false} NeverReturnsIff(s: seq<byte>, hdr: DmqHeader, strm: seq<byte>)
    ensures ReceiveSpec(s, hdr, strm) == None <==> NoSyncByte(s)
  {
    if |s| > 0 && s[0] != 0xAA {
      NeverReturnsIff(s[1..], hdr, strm);
      assert NoSyncByte(s) <==> NoSyncByte(s[1..]) by {
        if NoSyncByte(s[1..]) {
          forall i | 0 <= i < |s|
            ensures s[i] != 0xAA
          {
            if i > 0 { assert s[i] == s[1..][i - 1]; }
          }
        }
      }
    }
  }

  /// After the 0xAA: seven more header bytes, then the marker test.
  function AfterSync(t: seq<byte>, hdr: DmqHeader, strm: seq<byte>): Received
  {
    if |t| < HEADER_SIZE - 1 then Received(-1, hdr, strm, [])
    else
      var h := DecodeHeader([0xAA] + t[..HEADER_SIZE - 1]);
      var u := t[HEADER_SIZE - 1..];
      if h.marker != MARKER then Received(-1, h, strm, u)
      else AfterHeader(h, u, strm)
  }

  /// Payload, which replaces the stream when there is one, then two CRC bytes
  /// that are consumed and not compared.
  function AfterHeader(h: DmqHeader, u: seq<byte>, strm: seq<byte>): Received
  {
    var len := h.length as nat;
    if len > 0 && len > BUFFER_SIZE then Received(-1, h, strm, u)
    else if |u| < len then Received(-1, h, strm, [])
    else
      CrcBytes(h, if len > 0 then u[..len] else strm, u[len..])
  }

  /// The two CRC bytes, read and dropped.
  function CrcBytes(h: DmqHeader, strm: seq<byte>, v: seq<byte>): Received
  {
    if |v| < 2 then Received(-1, h, strm, []) else Received(0, h, strm, v[2..])
  }

  /// After bytes free of 0xAA, an encoded header carrying MARKER is synced on
  /// and decoded.
  lemma SyncThenHeader(junk: seq<byte>, h: DmqHeader, tail: seq<byte>, hdr: DmqHeader, strm: seq<byte>)
    requires NoSyncByte(junk) && h.marker == MARKER
    ensures ReceiveSpec(junk + EncodeHeader(h) + tail, hdr, strm) == Some(AfterHeader(h, tail, strm))
  {
    var eh := EncodeHeader(h);
    var t := eh[1..] + tail;
    assert junk + eh + tail == junk + [0xAA] + t;
    SyncSkipsJunk(junk, t);
    assert [0xAA] + t[..7] == eh;
    assert t[7..] == tail;
    HeaderRoundTrip(h);
  }

  /// The UART receiver accepts a packet whatever its two CRC bytes are.
  lemma AcceptsAnyCrc(junk: seq<byte>, h: DmqHeader, p: seq<byte>, crc: seq<byte>, rest: seq<byte>,
                      hdr: DmqHeader, strm: seq<byte>)
    requires NoSyncByte(junk) && |crc| == 2
    requires h.marker == MARKER && h.length as nat == |p| && |p| <= BUFFER_SIZE
    ensures ReceiveSpec(junk + EncodeHeader(h) + p + crc + rest, hdr, strm)
         == Some(Received(0, h, if |p| > 0 then p else strm, rest))
  {
    var tail := p + crc + rest;
    assert junk + EncodeHeader(h) + p + crc + rest == junk + EncodeHeader(h) + tail;
    SyncThenHeader(junk, h, tail, hdr, strm);
    assert tail[..|p|] == p;
    assert tail[|p|..] == crc + rest;
    assert (crc + rest)[2..] == rest;
  }

  /// Round trip between the serial sender and the UART receiver: a packet of
  /// at most BUFFER_SIZE payload bytes arrives with its header and payload.
  lemma RoundTrip(step: CrcStep, junk: seq<byte>, h: DmqHeader, p: seq<byte>, rest: seq<byte>,
                  hdr: DmqHeader, strm: seq<byte>)
    requires NoSyncByte(junk)
    requires h.marker == MARKER && h.length as nat == |p| && |p| <= BUFFER_SIZE
    ensures ReceiveSpec(junk + Serial.SerialFrame(step, h, p) + rest, hdr, strm)
         == Some(Received(0, h, if |p| > 0 then p else strm, rest))
  {
    var eh := EncodeHeader(h);
    var crc := HostBytes(Crc16CalcBlock(step, eh + p, CRC_SEED));
    assert junk + Serial.SerialFrame(step, h, p) + rest == junk + eh + p + crc + rest;
    AcceptsAnyCrc(junk, h, p, crc, rest, hdr, strm);
  }

  /// A declared length above BUFFER_SIZE is refused once the header is read;
  /// the stream is left as it was and the bytes after the header stay unread.
  lemma RejectsOversize(junk: seq<byte>, h: DmqHeader, tail: seq<byte>, hdr: DmqHeader, strm: seq<byte>)
    requires NoSyncByte(junk) && h.marker == MARKER && h.length as nat > BUFFER_SIZE
    ensures ReceiveSpec(junk + EncodeHeader(h) + tail, hdr, strm) == Some(Received(-1, h, strm, tail))
  {
    SyncThenHeader(junk, h, tail, hdr, strm);
  }

  /// The acknowledgement Receive sends by itself, when every transmission
  /// succeeds, is the serial frame of the ACK header with no payload, and a
  /// UART receiver accepts it as that header, keeping its stream.
  lemma AckIsEmptyFrame(step: CrcStep, seqNum: u16, tx: TxOutcome, junk: seq<byte>, rest: seq<byte>,
                        hdr: DmqHeader, strm: seq<byte>)
    requires tx.headerOk && tx.crcOk && NoSyncByte(junk)
    ensures Flatten(Transmits(step, AckHeader(seqNum), [], tx)) == Serial.SerialFrame(step, AckHeader(seqNum), [])
    ensures ReceiveSpec(junk + Flatten(Transmits(step, AckHeader(seqNum), [], tx)) + rest, hdr, strm)
         == Some(Received(0, AckHeader(seqNum), strm, rest))
  {
    var a := AckHeader(seqNum);
    assert a.(length := 0) == a;
    assert Transmits(step, a, [], tx) == TxSegments(step, a, []);
    SameBytesAsSerial(step, a, []);
    RoundTrip(step, junk, a, [], rest, hdr, strm);
  }

  /// A 0xAA not followed by 0x55 costs the whole 8-byte header: the receiver
  /// does not resync inside it.
  lemma FalseSyncConsumesHeader(b: byte, rest7: seq<byte>, tail: seq<byte>, hdr: DmqHeader, strm: seq<byte>)
    requires b != 0x55 && |rest7| == 6
    ensures ReceiveSpec([0xAA, b] + rest7 + tail, hdr, strm).Some?
    ensures ReceiveSpec([0xAA, b] + rest7 + tail, hdr, strm).value.status == -1
    ensures ReceiveSpec([0xAA, b] + rest7 + tail, hdr, strm).value.rest == tail
  {
    var s := [0xAA, b] + rest7 + tail;
    var t := s[1..];
    assert t[..7] == [b] + rest7 && t[7..] == tail;
    var hb := [0xAA] + t[..7];
    assert hb[1] == b;
    WordBytes(0xAA, b);
    WordBytes(0xAA, 0x55);
  }

  /// The UART peripheral behind `m_huart`, as far as receiving goes: the bytes
  /// that will still arrive on its RX line.
  class UartLine {
    var pending: seq<byte>

    constructor (pending: seq<byte>)
      ensures this.pending == pending
    {
      this.pending := pending;
    }
  }

  class Stm32UartTransport {
    const step: CrcStep
    /// `m_ringBuffer`, 1024 slots.
    const ring: UartRingBuffer
    /// `m_tempRxBuffer`.
    const tempRx: array<byte>
    /// `m_huart != nullptr`, `m_mutex != nullptr`, `m_rxSemaphore != nullptr`.
    var hasUart: bool
    var hasMutex: bool
    var hasRxSem: bool
    var sendTransport: Peer
    var recvTransport: Peer
    var hasMonitor: bool
    var monitorLog: seq<MonitorCall>
    /// The bytes of every `HAL_UART_Transmit` that succeeded, one entry per call.
    var transmitted: seq<seq<byte>>
    var forwarded: seq<ForwardedSend>
    /// The RX side of the UART; each byte it receives is taken in by the interrupt.
    const line: UartLine

    ghost predicate Valid()
      reads this, ring, ring.buffer
    {
      ring.Valid() && ring.size == RING_SIZE && tempRx.Length == BUFFER_SIZE && tempRx != ring.buffer
    }

    /// All bytes Receive can still read: those in the ring buffer, then those to come.
    ghost function Stream(): seq<byte>
      reads this, ring, line
    {
      ring.contents + line.pending
    }

    /// `Stm32UartTransport(huart)`: both transport pointers designate the new object.
    constructor (step: CrcStep, hasUart: bool, pending: seq<byte>)
      ensures Valid() && fresh(ring) && fresh(ring.buffer) && fresh(tempRx)
      ensures fresh(line) && this.step == step && this.hasUart == hasUart
      ensures !hasMutex && !hasRxSem && !hasMonitor && sendTransport == SelfPeer && recvTransport == SelfPeer
      ensures Stream() == pending && monitorLog == [] && transmitted == [] && forwarded == []
    {
      this.step := step;
      this.hasUart := hasUart;
      line := new UartLine(pending);
      ring := new UartRingBuffer(RING_SIZE);
      tempRx := new byte[BUFFER_SIZE];
      hasMutex, hasRxSem, hasMonitor := false, false, false;
      sendTransport, recvTransport := SelfPeer, SelfPeer;
      monitorLog, transmitted, forwarded := [], [], [];
    }

    /// `Create(huart)`: creates whichever OS primitive is missing (`mutexOk` and
    /// `semOk` say whether creating it succeeds), then arms the receive
    /// interrupt (`armOk`).
    method Create(uartPresent: bool, mutexOk: bool, semOk: bool, armOk: bool) returns (r: int)
      modifies this`hasUart, this`hasMutex, this`hasRxSem
      ensures hasUart == uartPresent
      ensures hasMutex == (old(hasMutex) || mutexOk) && hasRxSem == (old(hasRxSem) || semOk)
      ensures r == (if hasUart && hasMutex && hasRxSem && armOk then 0 else -1)
    {
      hasUart := uartPresent;
      if !hasMutex { hasMutex := mutexOk; }
      if !hasRxSem { hasRxSem := semOk; }
      if !hasUart || !hasMutex || !hasRxSem { return -1; }
      if !armOk { return -1; }
      r := 0;
    }

    method SetTransportMonitor(present: bool)
      modifies this`hasMonitor
      ensures hasMonitor == present
    {
      hasMonitor := present;
    }

    method SetSendTransport(p: Peer)
      modifies this`sendTransport
      ensures sendTransport == p
    {
      sendTransport := p;
    }

    method SetRecvTransport(p: Peer)
      modifies this`recvTransport
      ensures recvTransport == p
    {
      recvTransport := p;
    }

    /// `Send(os, header)`; `osGood` is `!os.bad() && !os.fail()`, `tx` what the
    /// OS and HAL report. The monitor registration precedes the first
    /// transmission, so it stays when a transmission fails.
    method Send(payload: seq<byte>, header: DmqHeader, osGood: bool, tx: TxOutcome) returns (r: int)
      modifies this`transmitted, this`monitorLog
      ensures if !osGood || !hasUart || !hasMutex || !tx.mutexTaken then
          r == -1 && transmitted == old(transmitted) && monitorLog == old(monitorLog)
        else
          monitorLog == old(monitorLog) + Registration(header, hasMonitor) &&
          transmitted == old(transmitted) + Transmits(step, header, payload, tx) &&
          r == (if tx.headerOk && (|payload| == 0 || tx.payloadOk) && tx.crcOk then 0 else -1)
    {
      if !osGood { return -1; }
      if !hasUart || !hasMutex { return -1; }
      if !tx.mutexTaken { return -1; }
      var hc := TxHeader(header, payload);
      SwappedHostIsNet(hc.marker);
      SwappedHostIsNet(hc.id);
      SwappedHostIsNet(hc.seqNum);
      SwappedHostIsNet(hc.length);
      var packet := HostBytes(Swap16(hc.marker)) + HostBytes(Swap16(hc.id))
                  + HostBytes(Swap16(hc.seqNum)) + HostBytes(Swap16(hc.length));
      assert packet == EncodeHeader(hc);
      ghost var segs := TxSegments(step, header, payload);
      if header.id != ACK_REMOTE_ID && hasMonitor {
        monitorLog := monitorLog + [Add(hc.seqNum, hc.id)];
      }
      if !tx.headerOk { return -1; }
      transmitted := transmitted + [packet];
      if |payload| > 0 {
        if !tx.payloadOk { return -1; }
        transmitted := transmitted + [payload[..|payload| % 0x1_0000]];
      }
      var crc := Crc16CalcBlock(step, packet, CRC_SEED);
      if |payload| > 0 { crc := Crc16CalcBlock(step, payload, crc); }
      if !tx.crcOk { return -1; }
      transmitted := transmitted + [HostBytes(crc)];
      assert transmitted == old(transmitted) + segs;
      r := 0;
    }

    /// `OnRxCplt()`: the receive interrupt stores the byte that arrived; when
    /// the ring buffer is full the byte is lost.
    method OnRxCplt(b: byte)
      requires Valid()
      modifies ring, ring.buffer
      ensures Valid() && ring.tail == old(ring.tail)
      ensures ring.contents == if |old(ring.contents)| < RING_SIZE - 1 then old(ring.contents) + [b]
                                 else old(ring.contents)
    {
      var _ := ring.Put(b);
    }

    /// `ReadByteBlocked(out)`: takes the oldest byte from the ring buffer; when
    /// it is empty the task sleeps until the interrupt has stored the next
    /// byte. When no byte ever comes, the source sleeps forever; here it fails.
    method ReadByteBlocked() returns (ok: bool, b: byte)
      requires Valid()
      modifies line, ring, ring.buffer
      ensures Valid()
      ensures ok == (old(Stream()) != [])
      ensures ok ==> b == old(Stream())[0] && Stream() == old(Stream())[1..]
      ensures !ok ==> Stream() == old(Stream())
    {
      ok, b := ring.Get();
      if ok {
        assert old(Stream())[1..] == ring.contents + line.pending;
        return;
      }
      if line.pending == [] { return; }
      OnRxCplt(line.pending[0]);
      line.pending := line.pending[1..];
      ok, b := ring.Get();
    }

    /// The sync loop of Receive: reads bytes until the marker's high byte.
    /// A failed read is retried, so once no byte is left the loop never ends;
    /// `returned` is false then.
    method Sync() returns (returned: bool)
      requires Valid()
      modifies line, ring, ring.buffer
      ensures Valid()
      ensures returned == SyncRest(old(Stream())).Some?
      ensures Stream() == if returned then SyncRest(old(Stream())).value else []
    {
      while true
        invariant Valid() && SyncRest(Stream()) == SyncRest(old(Stream()))
        decreases |Stream()|
      {
        var got, b := ReadByteBlocked();
        if !got { return false; }
        if b == 0xAA { return true; }
      }
    }


    /// `for (i ...) ReadByteBlocked(dest[at + i])`: stops at the first failure.
    method ReadBytes(dest: array<byte>, at: nat, n: nat) returns (ok: bool)
      requires Valid() && at + n <= dest.Length && dest != ring.buffer
      modifies line, ring, ring.buffer, dest
      ensures Valid()
      ensures ok == (n <= |old(Stream())|)
      ensures ok ==> (forall k :: 0 <= k < n ==> dest[at + k] == old(Stream())[k]) && Stream() == old(Stream())[n..]
      ensures !ok ==> Stream() == []
      ensures forall j :: 0 <= j < dest.Length && !(at <= j < at + n) ==> dest[j] == old(dest[j])
    {
      ghost var s := Stream();
      var i := 0;
      while i < n
        invariant 0 <= i <= n && i <= |s| && Valid()
        invariant Stream() == s[i..]
        invariant forall k :: 0 <= k < i ==> dest[at + k] == s[k]
        invariant forall j :: 0 <= j < dest.Length && !(at <= j < at + n) ==> dest[j] == old(dest[j])
      {
        var got, b := ReadByteBlocked();
        if !got { return false; }
        dest[at + i] := b;
        i := i + 1;
      }
      return true;
    }

    /// Steps 1 to 4 of Receive: sync, header, payload, CRC bytes.
    method ReadFrame(hdr: DmqHeader, strm: seq<byte>) returns (returned: bool, r: int, hdrOut: DmqHeader, strmOut: seq<byte>)
      requires Valid()
      modifies line, ring, ring.buffer, tempRx
      ensures Valid()
      ensures var R := ReceiveSpec(old(Stream()), hdr, strm);
        returned == R.Some? &&
        (returned ==> r == R.value.status && hdrOut == R.value.header && strmOut == R.value.stream && Stream() == R.value.rest) &&
        (!returned ==> hdrOut == hdr && strmOut == strm && Stream() == [])
    {
      returned := Sync();
      if !returned { return false, -1, hdr, strm; }
      var got;
      got, hdrOut := ReadHeader();
      if !got { return true, -1, hdr, strm; }
      if hdrOut.marker != MARKER { return true, -1, hdrOut, strm; }
      r, strmOut := ReadBody(hdrOut, strm);
    }

    /// Step 2 of Receive: the seven header bytes after the 0xAA, each 16-bit
    /// field copied out in host order and swapped.
    method ReadHeader() returns (ok: bool, h: DmqHeader)
      requires Valid()
      modifies line, ring, ring.buffer
      ensures Valid()
      ensures ok == (HEADER_SIZE - 1 <= |old(Stream())|)
      ensures ok ==> h == DecodeHeader([0xAA] + old(Stream())[..HEADER_SIZE - 1])
      ensures ok ==> Stream() == old(Stream())[HEADER_SIZE - 1..]
      ensures !ok ==> Stream() == []
    {
      ghost var t := Stream();
      var headerBuf := new byte[HEADER_SIZE];
      headerBuf[0] := 0xAA;
      ok := ReadBytes(headerBuf, 1, HEADER_SIZE - 1);
      if !ok { return false, DefaultHeader(); }
      assert headerBuf[..] == [0xAA] + t[..HEADER_SIZE - 1] by {
        assert headerBuf[..] == headerBuf[..1] + headerBuf[1..HEADER_SIZE];
      }
      SwapOfHostWordIsNet(headerBuf[0], headerBuf[1]);
      SwapOfHostWordIsNet(headerBuf[2], headerBuf[3]);
      SwapOfHostWordIsNet(headerBuf[4], headerBuf[5]);
      SwapOfHostWordIsNet(headerBuf[6], headerBuf[7]);
      h := DmqHeader(Swap16(HostWord(headerBuf[0], headerBuf[1])), Swap16(HostWord(headerBuf[2], headerBuf[3])),
                     Swap16(HostWord(headerBuf[4], headerBuf[5])), Swap16(HostWord(headerBuf[6], headerBuf[7])));
    }

    /// Steps 3 and 4 of Receive, after header `h` was read and its marker checked.
    method ReadBody(h: DmqHeader, strm: seq<byte>) returns (r: int, strmOut: seq<byte>)
      requires Valid()
      modifies line, ring, ring.buffer, tempRx
      ensures Valid()
      ensures var R := AfterHeader(h, old(Stream()), strm);
        r == R.status && h == R.header && strmOut == R.stream && Stream() == R.rest
    {
      strmOut := strm;
      var len := h.length as nat;
      if len > 0 {
        if len > BUFFER_SIZE { return -1, strmOut; }
        var got := ReadBytes(tempRx, 0, len);
        if !got { return -1, strmOut; }
        strmOut := tempRx[..len];
      }
      r := ReadCrc();
    }

    /// Step 4 of Receive: `ReadByteBlocked(crcBuf[0])`, `ReadByteBlocked(crcBuf[1])`.
    method ReadCrc() returns (r: int)
      requires Valid()
      modifies line, ring, ring.buffer
      ensures Valid()
      ensures var R := CrcBytes(DefaultHeader(), [], old(Stream()));
        r == R.status && Stream() == R.rest
    {
      var crcBuf := new byte[2];
      var got, b := ReadByteBlocked();
      if !got { return -1; }
      crcBuf[0] := b;
      got, b := ReadByteBlocked();
      if !got { return -1; }
      crcBuf[1] := b;
      r := 0;
    }

    /// `Receive(is, header)`; `ackTx` is what the OS and HAL report for the
    /// acknowledgement when this object sends it itself (its result is ignored).
    /// `returned` is false when the call never returns.
    method Receive(hdr: DmqHeader, strm: seq<byte>, ackTx: TxOutcome)
      returns (returned: bool, r: int, hdrOut: DmqHeader, strmOut: seq<byte>)
      requires Valid()
      modifies line, ring, ring.buffer, tempRx, this`transmitted, this`monitorLog, this`forwarded
      ensures Valid()
      ensures recvTransport != SelfPeer ==>
        returned && r == -1 && hdrOut == hdr && strmOut == strm && Stream() == old(Stream())
      ensures recvTransport == SelfPeer ==>
        var R := ReceiveSpec(old(Stream()), hdr, strm);
        returned == R.Some? &&
        (returned ==> r == R.value.status && hdrOut == R.value.header && strmOut == R.value.stream && Stream() == R.value.rest) &&
        (!returned ==> hdrOut == hdr && strmOut == strm && Stream() == [])
      ensures !returned || r != 0 ==> transmitted == old(transmitted) && monitorLog == old(monitorLog) && forwarded == old(forwarded)
      ensures returned && r == 0 ==> Reacted(hdrOut, ackTx, old(monitorLog), old(transmitted), old(forwarded))
    {
      if recvTransport != SelfPeer { return true, -1, hdr, strm; }
      returned, r, hdrOut, strmOut := ReadFrame(hdr, strm);
      if !returned || r != 0 { return; }
      React(hdrOut, ackTx);
    }

    /// What the reliability step of Receive leaves, from the monitor calls,
    /// transmissions and forwarded sends before it, after an accepted frame
    /// with header `h`: an acknowledgement removes its sequence number; any
    /// other frame is acknowledged with its sequence number when a monitor and
    /// a send transport are set, by this object's own Send (the segments it
    /// transmits) or handed on to the other transport.
    ghost predicate Reacted(h: DmqHeader, ackTx: TxOutcome, log0: seq<MonitorCall>, tx0: seq<seq<byte>>, fw0: seq<ForwardedSend>)
      reads this
    {
      if h.id == ACK_REMOTE_ID then
        monitorLog == log0 + (if hasMonitor then [Remove(h.seqNum)] else []) &&
        transmitted == tx0 && forwarded == fw0
      else
        monitorLog == log0 &&
        forwarded == fw0 + (if hasMonitor && sendTransport == OtherPeer
                            then [ForwardedSend(AckHeader(h.seqNum), [])] else []) &&
        transmitted == tx0 + (if hasMonitor && sendTransport == SelfPeer && hasUart && hasMutex && ackTx.mutexTaken
                              then Transmits(step, AckHeader(h.seqNum), [], ackTx) else [])
    }

    /// Step 5 of Receive, after an accepted frame with header `h`.
    method React(h: DmqHeader, ackTx: TxOutcome)
      modifies this`transmitted, this`monitorLog, this`forwarded
      ensures Reacted(h, ackTx, old(monitorLog), old(transmitted), old(forwarded))
    {
      if h.id == ACK_REMOTE_ID {
        if hasMonitor { monitorLog := monitorLog + [Remove(h.seqNum)]; }
      } else if hasMonitor && sendTransport != NoPeer {
        var ack := AckHeader(h.seqNum);
        if sendTransport == SelfPeer {
          var _ := Send([], ack, true, ackTx);
        } else {
          forwarded := forwarded + [ForwardedSend(ack, [])];
        }
      }
    }
  }
}
