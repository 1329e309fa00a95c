/** Wire-level vocabulary shared by every DelegateMQ transport in this model:
    bytes and 16-bit words, the two byte orders, the message header and its
    network-order encoding, the CRC block function, and the records the
    transports leave behind (calls on the transport monitor, sends handed on
    to another transport). */
module Wire {

  newtype byte = x: int | 0 <= x < 0x100
  newtype u16 = x: int | 0 <= x < 0x1_0000

  datatype Option<T> = None | Some(value: T)

  /// Sync marker every header starts with.
  const MARKER: u16 := 0xAA55
  /// Four 16-bit fields: marker, id, sequence number, length.
  const HEADER_SIZE: nat := 8
  /// The destination id reserved for acknowledgements. Its value is not fixed here.
  const ACK_REMOTE_ID: u16
  /// Seed the transports pass to the CRC.
  const CRC_SEED: u16 := 0xFFFF
  const U16_MAX: nat := 0xFFFF

  function Hi(v: u16): byte { (v / 256) as byte }
  function Lo(v: u16): byte { (v % 256) as byte }

  /// The 16-bit value whose high byte is `hi` and whose low byte is `lo`.
  function Word(hi: byte, lo: byte): u16
  {
    (hi as int * 256 + lo as int) as u16
  }

  /// Splitting a word into bytes and joining them again are inverse.
  lemma WordBytes(hi: byte, lo: byte)
    ensures Hi(Word(hi, lo)) == hi && Lo(Word(hi, lo)) == lo
  {
  }

  lemma WordOfBytes(v: u16)
    ensures Word(Hi(v), Lo(v)) == v
  {
  }

  /// `swap16` (serial) and `to_net`/`from_net` (UART): `(v << 8) | (v >> 8)`
  /// narrowed to 16 bits. The two shifted parts have no bit in common, so the
  /// OR is a sum; the narrowing drops the old high byte shifted past bit 15.
  function Swap16(v: u16): u16
  {
    ((v as int * 256 + v as int / 256) % 0x1_0000) as u16
  }

  /// `swap16` exchanges the two bytes of a word.
  lemma Swap16Bytes(v: u16)
    ensures Hi(Swap16(v)) == Lo(v) && Lo(Swap16(v)) == Hi(v)
  {
    var h, l := v as int / 256, v as int % 256;
    var m := 256 * l + h;
    assert 0 <= m < 0x1_0000;
    assert v as int * 256 + h == 0x1_0000 * h + m;
    assert (0x1_0000 * h + m) % 0x1_0000 == m;
    assert Swap16(v) as int == m;
    assert m / 256 == l && m % 256 == h;
  }

  lemma Swap16Involutive(v: u16)
    ensures Swap16(Swap16(v)) == v
  {
    Swap16Bytes(v);
    Swap16Bytes(Swap16(v));
    WordOfBytes(Swap16(Swap16(v)));
    WordOfBytes(v);
  }

  /// The two bytes of `v` as they lie in memory on a little-endian host:
  /// what `write((char*)&v, 2)` emits and `memcpy` copies.
  function HostBytes(v: u16): (b: seq<byte>)
    ensures |b| == 2
  {
    [Lo(v), Hi(v)]
  }

  /// The value `memcpy(&v, &buf[i], 2)` reads on a little-endian host.
  function HostWord(b0: byte, b1: byte): u16 { Word(b1, b0) }

  /// Network byte order (`htons`): high byte first.
  function NetBytes(v: u16): (b: seq<byte>)
    ensures |b| == 2
  {
    [Hi(v), Lo(v)]
  }

  /// The value `ntohs` gives for two bytes in network order.
  function NetWord(b0: byte, b1: byte): u16 { Word(b0, b1) }

  lemma HostWordOfHostBytes(v: u16)
    ensures HostWord(HostBytes(v)[0], HostBytes(v)[1]) == v
  {
    WordOfBytes(v);
  }

  /// Writing the swapped value in host order puts it on the wire in network order.
  lemma SwappedHostIsNet(v: u16)
    ensures HostBytes(Swap16(v)) == NetBytes(v)
  {
    Swap16Bytes(v);
  }

  /// Reading two bytes in host order and swapping gives their network-order value.
  lemma SwapOfHostWordIsNet(b0: byte, b1: byte)
    ensures Swap16(HostWord(b0, b1)) == NetWord(b0, b1)
  {
    var w := HostWord(b0, b1);
    WordBytes(b1, b0);
    Swap16Bytes(w);
    WordOfBytes(Swap16(w));
  }

  /// DmqHeader: marker, destination id, sequence number, payload length.
  datatype DmqHeader = DmqHeader(marker: u16, id: u16, seqNum: u16, length: u16)

  /// A default-constructed DmqHeader (DmqHeader.h is not part of this model:
  /// the marker is taken to be MARKER and the other fields 0).
  function DefaultHeader(): DmqHeader { DmqHeader(MARKER, 0, 0, 0) }

  /// The header of the acknowledgement a receiver sends back for `seqNum`.
  function AckHeader(seqNum: u16): (h: DmqHeader)
    ensures h.id == ACK_REMOTE_ID && h.seqNum == seqNum && h.marker == MARKER && h.length == 0
  {
    DefaultHeader().(id := ACK_REMOTE_ID, seqNum := seqNum)
  }

  /// The 8-byte header in network order, as the 8-byte-header transports write it.
  function EncodeHeader(h: DmqHeader): (b: seq<byte>)
    ensures |b| == HEADER_SIZE
  {
    NetBytes(h.marker) + NetBytes(h.id) + NetBytes(h.seqNum) + NetBytes(h.length)
  }

  function DecodeHeader(b: seq<byte>): DmqHeader
    requires |b| == HEADER_SIZE
  {
    DmqHeader(NetWord(b[0], b[1]), NetWord(b[2], b[3]), NetWord(b[4], b[5]), NetWord(b[6], b[7]))
  }

  lemma HeaderRoundTrip(h: DmqHeader)
    ensures DecodeHeader(EncodeHeader(h)) == h
  {
    WordOfBytes(h.marker);
    WordOfBytes(h.id);
    WordOfBytes(h.seqNum);
    WordOfBytes(h.length);
  }

  lemma HeaderBytesRoundTrip(b: seq<byte>)
    requires |b| == HEADER_SIZE
    ensures EncodeHeader(DecodeHeader(b)) == b
  {
    WordBytes(b[0], b[1]);
    WordBytes(b[2], b[3]);
    WordBytes(b[4], b[5]);
    WordBytes(b[6], b[7]);
  }

  /// Copying each field out in host order and swapping it (what `ntohs`
  /// does on a little-endian host) decodes the network-order header.
  lemma SwappedHostHeader(b: seq<byte>)
    requires |b| == HEADER_SIZE
    ensures DmqHeader(Swap16(HostWord(b[0], b[1])), Swap16(HostWord(b[2], b[3])),
                      Swap16(HostWord(b[4], b[5])), Swap16(HostWord(b[6], b[7]))) == DecodeHeader(b)
  {
    SwapOfHostWordIsNet(b[0], b[1]);
    SwapOfHostWordIsNet(b[2], b[3]);
    SwapOfHostWordIsNet(b[4], b[5]);
    SwapOfHostWordIsNet(b[6], b[7]);
  }

  /// A header whose first two bytes are 0xAA 0x55 carries MARKER.
  lemma SyncBytesAreMarker(b: seq<byte>)
    requires |b| == HEADER_SIZE && b[0] == 0xAA && b[1] == 0x55
    ensures DecodeHeader(b).marker == MARKER
  {
  }

  /// One step of the CRC: the new register value after one more byte.
  type CrcStep = (u16, byte) -> u16

  /// `Crc16CalcBlock(data, len, seed)`. crc16.h is not part of this model: the
  /// block CRC is taken to be the byte-by-byte fold of an unspecified step
  /// function, which is how every table-driven or bitwise CRC-16 is computed.
  function Crc16CalcBlock(step: CrcStep, data: seq<byte>, seed: u16): u16
    decreases |data|
  {
    if |data| == 0 then seed else Crc16CalcBlock(step, data[1..], step(seed, data[0]))
  }

  /// Chaining: the CRC of `a + b` is the CRC of `b` seeded with the CRC of `a`.
  lemma {:induction false} CrcChain(step: CrcStep, a: seq<byte>, b: seq<byte>, seed: u16)
    ensures Crc16CalcBlock(step, a + b, seed) == Crc16CalcBlock(step, b, Crc16CalcBlock(step, a, seed))
  {
    if |a| == 0 {
      assert a + b == b;
    } else {
      assert (a + b)[1..] == a[1..] + b;
      CrcChain(step, a[1..], b, step(seed, a[0]));
    }
  }

  /// Which transport a `m_sendTransport`/`m_recvTransport` pointer designates.
  datatype Peer = NoPeer | SelfPeer | OtherPeer

  /// Calls a transport makes on its ITransportMonitor.
  datatype MonitorCall = Add(seqNum: u16, id: u16) | Remove(seqNum: u16)

  /// A `Send(payload, header)` call handed on to a transport other than this one.
  datatype ForwardedSend = ForwardedSend(header: DmqHeader, payload: seq<byte>)

  /// What a `Receive(is, header)` call leaves behind: its return code, the
  /// header object, the stream `is` and the input not yet consumed.
  datatype Received = Received(status: int, header: DmqHeader, stream: seq<byte>, rest: seq<byte>)

  /// The monitor calls a sender makes for a frame with id `id`.
  function Registration(header: DmqHeader, hasMonitor: bool): (calls: seq<MonitorCall>)
    ensures calls != [] <==> (header.id != ACK_REMOTE_ID && hasMonitor)
    ensures calls != [] ==> calls == [Add(header.seqNum, header.id)]
  {
    if header.id != ACK_REMOTE_ID && hasMonitor then [Add(header.seqNum, header.id)] else []
  }
}
