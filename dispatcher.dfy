/** Dispatcher: frames the argument bytes of a remote call behind three
    host-order header fields and hands the frame to its transport (the
    ZeroMQ one, which consumes this framing). */
module Dispatch {
  import opened Wire
  import ZeroMq

  /// The sequence-number source behind `DmqHeader::GetNextSeqNum()`
  /// (DmqHeader.h is not part of this model: each call is taken to return the
  /// counter and advance it by one, wrapping at 16 bits).
  class SeqCounter {
    var next: u16

    constructor (start: u16)
      ensures next == start
    {
      next := start;
    }

    method GetNextSeqNum() returns (s: u16)
      modifies this
      ensures s == old(next) && next == Advance(old(next), 1)
    {
      s := next;
      next := ((next as int + 1) % 0x1_0000) as u16;
    }
  }

  /// The counter after `k` calls.
  function Advance(s: u16, k: nat): u16
  {
    ((s as nat + k) % 0x1_0000) as u16
  }

  /// Sequence numbers are not reused before the counter wraps.
  lemma NoReuseBeforeWrap(s: u16, j: nat, k: nat)
    requires j < k < j + 0x1_0000
    ensures Advance(s, j) != Advance(s, k)
  {
    ShiftChangesResidue(s as nat + j, k - j);
  }

  /// Adding an amount strictly between 0 and 2^16 changes the residue.
  lemma ShiftChangesResidue(a: nat, d: nat)
    requires 0 < d < 0x1_0000
    ensures (a + d) % 0x1_0000 != a % 0x1_0000
  {
    var q, r := a / 0x1_0000, a % 0x1_0000;
    assert a == q * 0x1_0000 + r;
    if r + d < 0x1_0000 {
      assert a + d == q * 0x1_0000 + (r + d);
      assert (a + d) % 0x1_0000 == r + d;
    } else {
      assert a + d == (q + 1) * 0x1_0000 + (r + d - 0x1_0000);
      assert (a + d) % 0x1_0000 == r + d - 0x1_0000;
    }
  }

  /// The stream `Dispatch` builds: marker, id and sequence number, each in
  /// host byte order, then the argument bytes unchanged.
  function DispatchFrame(id: u16, seqNum: u16, args: seq<byte>): (f: seq<byte>)
    ensures |f| == 6 + |args| && f[6..] == args
  {
    HostBytes(MARKER) + HostBytes(id) + HostBytes(seqNum) + args
  }

  /// `ss << os.rdbuf()` leaves `ss` failed when it inserts nothing, so the
  /// frame of an empty argument stream is handed over marked as failed.
  function FrameGood(args: seq<byte>): bool { |args| > 0 }

  /// The three fields read back from a frame in host order are the ones written.
  lemma FrameFields(id: u16, seqNum: u16, args: seq<byte>)
    ensures var f := DispatchFrame(id, seqNum, args);
      HostWord(f[0], f[1]) == MARKER && HostWord(f[2], f[3]) == id && HostWord(f[4], f[5]) == seqNum
  {
    ZeroMq.HostFieldsRead(MARKER, id, seqNum, args);
  }

  /// A dispatch with no argument bytes is refused by the ZeroMQ transport.
  lemma EmptyArgumentsRefused(id: u16, seqNum: u16, res: ZeroMq.SendResult)
    ensures ZeroMq.SendCode(DispatchFrame(id, seqNum, []), FrameGood([]), res) == -1
  {
  }

  /// A frame delivered whole to ZeroMqTransport::Receive is accepted with the
  /// id and sequence number written, but Receive skips an 8-byte header while
  /// Dispatch writes 6 bytes, so the first two argument bytes are lost.
  lemma ThroughZeroMq(id: u16, seqNum: u16, args: seq<byte>, hdr: DmqHeader)
    requires 2 < |args| && 6 + |args| <= ZeroMq.BUFFER_SIZE
    ensures ZeroMq.ReceiveSpec(ZeroMq.Message(DispatchFrame(id, seqNum, args)), hdr).1 == DmqHeader(MARKER, id, seqNum, hdr.length)
    ensures ZeroMq.Unread(ZeroMq.ReceiveSpec(ZeroMq.Message(DispatchFrame(id, seqNum, args)), hdr).0) == args[2..]
  {
    var f := DispatchFrame(id, seqNum, args);
    FrameFields(id, seqNum, args);
    assert |f| > HEADER_SIZE;
    assert HostWord(f[0], f[1]) == MARKER;
    ZeroMq.AcceptedArgs(f, hdr);
    assert ZeroMq.Min(|f|, ZeroMq.BUFFER_SIZE) == |f|;
    DropFurther(f, args, 6, 2);
  }

  lemma DropFurther<T>(f: seq<T>, tail: seq<T>, i: nat, j: nat)
    requires i + j <= |f| && f[i..] == tail
    ensures f[i + j..|f|] == tail[j..]
  {
  }

  class Dispatcher {
    /// `m_transport`.
    var transport: ZeroMq.ZeroMqTransport?

    constructor ()
      ensures transport == null
    {
      transport := null;
    }

    method SetTransport(t: ZeroMq.ZeroMqTransport?)
      modifies this`transport
      ensures transport == t
    {
      transport := t;
    }

    /// `~Dispatcher()`.
    method Destroy()
      modifies this`transport
      ensures transport == null
    {
      transport := null;
    }

    /// `Dispatch(os, id)`: `args` are the bytes of `os`, `res` what zmq_send
    /// reports. A sequence number is used up even when there is no transport.
    method Dispatch(args: seq<byte>, id: u16, counter: SeqCounter, res: ZeroMq.SendResult) returns (r: int)
      modifies counter, transport
      ensures counter.next == Advance(old(counter.next), 1)
      ensures transport == null ==> r == -1
      ensures transport != null ==>
        var f := DispatchFrame(id, old(counter.next), args);
        r == ZeroMq.SendCode(f, FrameGood(args), res) &&
        transport.sent == old(transport.sent) + (if FrameGood(args) && res.SendOk? then [f] else [])
    {
      var seqNum := counter.GetNextSeqNum();
      var ss := HostBytes(MARKER) + HostBytes(id) + HostBytes(seqNum);
      ss := ss + args;
      var good := |args| > 0;
      if transport != null {
        r := transport.Send(ss, good, res);
        return;
      }
      r := -1;
    }
  }
}
