# DelegateMQ transports and RTOS glue, modelled in Dafny

DelegateMQ invokes C++ delegates across threads and across processes. For
a remote call, the `Dispatcher` prefixes the serialised arguments with a
`DmqHeader` and passes them to a transport. The transports covered here are:

- ZeroMQ;
- a serial port (libserialport);
- an STM32 HAL UART with an interrupt-fed ring buffer;
- lwIP netconn UDP.

The reliable transports frame each message with a marker (0xAA55), a remote id, a
sequence number and a length. The serial and UART framings add a CRC-16.
Each received data frame is acknowledged, and an acknowledgement clears
an entry in the transport monitor.

The `NetworkEngine` does four things:
- it wires the transports to the dispatcher;
- it runs a receive loop;
- it forwards each received frame to the endpoint registered for its id;
- it starts and stops its timers.

The RTOS layer has two parts:
- the FreeRTOS and ThreadX `Thread` classes, each a task draining a
  bounded message queue;
- the FreeRTOS and ThreadX condition variables, built on a semaphore
  with a tick-bounded `wait_for`.

The sample `Logger` uses the same worker pattern. It serialises writes,
timer flushes and dispatched delegates through one FIFO queue, and its
`LogData` appends every stored line to a file on each flush.

The modules of the model are:
- `Wire` (`wire.dfy`): what the codecs share. It covers 16-bit words,
  `swap16`, host and network byte order (the host is little-endian), the
  8-byte header, the CRC as a fold, and monitor registration.
- `Serial`, `Uart`, `Udp` and `ZeroMq`: one module per transport. Each
  transport is a class whose medium (port bytes, ring buffer and line,
  datagram, socket message) holds data or is supplied as parameters.
  Each codec is also a pure function.
- `Dispatch`: the sequence counter and `Dispatcher::Dispatch`.
- `Engine`: the NetworkEngine.
- `Logging`: Logger and LogData.
- `FreeRtosThread` and `ThreadXThread`: the two Thread classes.
- `WaitLoop`: the wait loops both condition variables share.
- `ThreadXCondVar` and `FreeRtosCondVar`: the two condition variables.

Results of the library and kernel calls are parameters of the methods:
- `sp_*`, HAL, lwIP, zmq, `xQueue*`, `tx_*`;
- allocation;
- tick counts;
- predicate values.

Where the source blocks forever, the model returns a "did not return"
result instead: an empty trace, `None`, or `returned == false`.

Three notes on the code as written. Lemmas state each:
- The UART transport's header comment (Stm32UartTransport.h:22) says every
  packet's CRC is verified. Receive reads the two CRC bytes and never
  compares them (`Uart.AcceptsAnyCrc`).
- The UART sender casts the payload length to 16 bits with no check
  (`Uart.LengthWraps`). The serial sender refuses payloads above 65535 bytes.
- `Dispatcher::Dispatch` writes a 6-byte prefix (marker, id, sequence
  number). `ZeroMqTransport::Receive` skips an 8-byte header, so the first two
  argument bytes are lost on that path (`Dispatch.ThroughZeroMq`).

## Model

| member | source | states |
|---|---|---|
| Wire.WordBytes | DelegateMQ/predef/transport/serial/SerialTransport.h:84 | joining a high and a low byte into a word and splitting it again gives the two bytes back |
| Wire.WordOfBytes | DelegateMQ/predef/transport/serial/SerialTransport.h:84 | splitting a word into its bytes and joining them gives the word back |
| Wire.Swap16Bytes | DelegateMQ/predef/transport/serial/SerialTransport.h:84 | `swap16` exchanges the high and low byte of a word |
| Wire.Swap16Involutive | DelegateMQ/predef/transport/stm32-uart/Stm32UartTransport.h:145 | swapping twice gives the original word, so `to_net` and `from_net` are inverse |
| Wire.HostBytes | DelegateMQ/predef/transport/serial/SerialTransport.h:101-102 | a word in memory is two bytes; HostWordOfHostBytes and SwappedHostIsNet fix their order, low byte first |
| Wire.NetBytes | DelegateMQ/predef/transport/arm-lwip-netconn-udp/ArmLwipNetconnUdpTransport.h:124-128 | a word in network order is two bytes; SwappedHostIsNet and SwapOfHostWordIsNet tie them to the host-order bytes swapped |
| Wire.HostWordOfHostBytes | DelegateMQ/predef/transport/zeromq/ZeroMqTransport.h:147-164 | reading back in host order two bytes written in host order gives the word written |
| Wire.SwappedHostIsNet | DelegateMQ/predef/transport/serial/SerialTransport.h:98-111 | writing a swapped word in host order puts it on the wire in network order |
| Wire.SwapOfHostWordIsNet | DelegateMQ/predef/transport/serial/SerialTransport.h:162-166 | reading two bytes in host order and swapping gives their network-order value |
| Wire.AckHeader | DelegateMQ/predef/transport/serial/SerialTransport.h:196-201 | the acknowledgement header carries ACK_REMOTE_ID and the acknowledged sequence number, with the default marker and length |
| Wire.EncodeHeader | DelegateMQ/predef/transport/serial/SerialTransport.h:98-111 | the encoded header is HEADER_SIZE (8) bytes; HeaderRoundTrip and HeaderBytesRoundTrip make encoding and decoding inverse |
| Wire.HeaderRoundTrip | DelegateMQ/predef/transport/serial/SerialTransport.h:98-111 | decoding an encoded header gives the header back |
| Wire.HeaderBytesRoundTrip | DelegateMQ/predef/transport/serial/SerialTransport.h:156-166 | encoding what 8 bytes decode to gives the same 8 bytes, so the codec is a bijection |
| Wire.SwappedHostHeader | DelegateMQ/predef/transport/stm32-uart/Stm32UartTransport.h:206-211 | copying each field out in host order and swapping it equals decoding the network-order header |
| Wire.SyncBytesAreMarker | DelegateMQ/predef/transport/serial/SerialTransport.h:144-150 | a header whose first bytes are 0xAA 0x55 decodes with MARKER |
| Wire.CrcChain | DelegateMQ/predef/transport/serial/SerialTransport.h:184-185 | the CRC of a concatenation is the CRC of the second part, seeded with the CRC of the first |
| Wire.Registration | DelegateMQ/predef/transport/serial/SerialTransport.h:123-125 | a sender registers a frame with the monitor exactly when the id is not ACK_REMOTE_ID and a monitor is set, with the frame's sequence number and id |
| Serial.SerialFrame | DelegateMQ/predef/transport/serial/SerialTransport.h:94-121 | a packet is its payload plus 8 header bytes and 2 CRC bytes; RoundTrip and AcceptedIsFrame tie its content to Receive |
| Serial.SyncRestIsSuffix | DelegateMQ/predef/transport/serial/SerialTransport.h:138-154 | what the sync loop leaves is exactly what follows some 0xAA 0x55 in the input |
| Serial.SyncSkipsJunk | DelegateMQ/predef/transport/serial/SerialTransport.h:138-154 | bytes that contain no 0xAA, then 0xAA 0x55, are consumed by the sync loop up to the marker |
| Serial.StrayAaHidesNextMarker | DelegateMQ/predef/transport/serial/SerialTransport.h:144-150 | a lone 0xAA right before a marker makes the sync loop swallow the marker's 0xAA, so that frame is missed |
| Serial.MarkerTestNeverRejects | DelegateMQ/predef/transport/serial/SerialTransport.h:156-168 | after sync, the decoded marker always equals MARKER, so the marker test never fails |
| Serial.BodyAccepted | DelegateMQ/predef/transport/serial/SerialTransport.h:170-190 | a declared number of payload bytes at most BUFFER_SIZE, followed by their CRC, is accepted; the payload is appended to the stream |
| Serial.SyncThenHeader | DelegateMQ/predef/transport/serial/SerialTransport.h:138-168 | after bytes with no 0xAA, an encoded header carrying MARKER is synced on and decoded |
| Serial.RoundTrip | DelegateMQ/predef/transport/serial/SerialTransport.h:86-204 | a packet built by Send, after bytes with no 0xAA, is received with the same header and payload, and exactly the packet is consumed |
| Serial.BodyAcceptedIsFrame | DelegateMQ/predef/transport/serial/SerialTransport.h:170-190 | an accepted body is exactly the declared number of bytes followed by their CRC |
| Serial.AfterSyncAcceptedIsFrame | DelegateMQ/predef/transport/serial/SerialTransport.h:156-190 | from where the sync loop stops, an accepted call consumed exactly one well-formed packet |
| Serial.SkippedThenFrame | DelegateMQ/predef/transport/serial/SerialTransport.h:138-190 | skipped bytes followed by an accepted rest form skipped bytes followed by one packet |
| Serial.AcceptedIsFrame | DelegateMQ/predef/transport/serial/SerialTransport.h:131-190 | whatever Receive accepts was a packet Send could have built, preceded by skipped bytes, and it carries the returned header and payload |
| Serial.RejectsOversize | DelegateMQ/predef/transport/serial/SerialTransport.h:173 | a declared length above BUFFER_SIZE (4096) is refused before any payload is read |
| Serial.BodyRejectsBadCrc | DelegateMQ/predef/transport/serial/SerialTransport.h:179-190 | payload bytes followed by a wrong CRC are refused, after both have been consumed |
| Serial.RejectsBadCrc | DelegateMQ/predef/transport/serial/SerialTransport.h:131-190 | a packet whose CRC bytes differ from the CRC of its header and payload is refused |
| Serial.SerialTransport.constructor | DelegateMQ/predef/transport/serial/SerialTransport.h:44 | both transport pointers designate the object; no port, no monitor |
| Serial.SerialTransport.Create | DelegateMQ/predef/transport/serial/SerialTransport.h:48-71 | the port is open and 0 is returned exactly when the lookup and the open both succeed; otherwise -1 |
| Serial.SerialTransport.Close | DelegateMQ/predef/transport/serial/SerialTransport.h:73-81 | no port is left open |
| Serial.SerialTransport.SetTransportMonitor | DelegateMQ/predef/transport/serial/SerialTransport.h:206 | the monitor is set as given |
| Serial.SerialTransport.SetSendTransport | DelegateMQ/predef/transport/serial/SerialTransport.h:207 | the send transport is set as given |
| Serial.SerialTransport.SetRecvTransport | DelegateMQ/predef/transport/serial/SerialTransport.h:208 | the receive transport is set as given |
| Serial.SerialTransport.Send | DelegateMQ/predef/transport/serial/SerialTransport.h:86-129 | with no port, or a payload above 65535 bytes, Send returns -1 and nothing is written or registered; otherwise the packet for the header (with its length set) is written and registered, and the result is 0 exactly when the whole packet was written |
| Serial.SerialTransport.PortRead | DelegateMQ/predef/transport/serial/SerialTransport.h:218 | a read copies at most the requested bytes, in order, from what the port has, and consumes them |
| Serial.SerialTransport.ReadExact | DelegateMQ/predef/transport/serial/SerialTransport.h:211-224 | the read succeeds exactly when the size is 0 or the port is open and has that many bytes; those bytes are then copied in order |
| Serial.SerialTransport.ReadOne | DelegateMQ/predef/transport/serial/SerialTransport.h:142 | a one-byte read yields the next byte exactly when there is one |
| Serial.SerialTransport.SyncRound | DelegateMQ/predef/transport/serial/SerialTransport.h:140-153 | one pass of the sync loop either ends it, as the spec of the whole loop says, or consumes a byte without changing where the loop will end |
| Serial.SerialTransport.Sync | DelegateMQ/predef/transport/serial/SerialTransport.h:138-154 | the sync loop ends on 0xAA 0x55 exactly when the input holds that pair, leaving the bytes after it |
| Serial.SerialTransport.ReadBody | DelegateMQ/predef/transport/serial/SerialTransport.h:170-190 | status, stream and remaining input are those the pure body spec gives |
| Serial.SerialTransport.ReadFrame | DelegateMQ/predef/transport/serial/SerialTransport.h:138-190 | status, header, stream and remaining input are those ReceiveSpec gives for the port's bytes |
| Serial.SerialTransport.Receive | DelegateMQ/predef/transport/serial/SerialTransport.h:131-204 | guards, then ReceiveSpec. An accepted acknowledgement removes its sequence number from the monitor. An accepted data frame is acknowledged, by this object or by the send transport. A refused frame changes nothing else |
| Uart.RingView | DelegateMQ/predef/transport/stm32-uart/Stm32UartTransport.h:57-83 | the ring holds the bytes from tail up to head, wrapping at the end of the storage: head - tail bytes, or storage - tail + head once wrapped |
| Uart.Next | DelegateMQ/predef/transport/stm32-uart/Stm32UartTransport.h:62 | the next slot is i + 1, or 0 after the last slot, always a valid index |
| Uart.RingPut | DelegateMQ/predef/transport/stm32-uart/Stm32UartTransport.h:61-66 | storing at head and advancing head appends the byte to the ring's contents |
| Uart.RingGet | DelegateMQ/predef/transport/stm32-uart/Stm32UartTransport.h:70-75 | on a non-empty ring the tail slot holds the oldest byte, and advancing tail removes exactly that byte |
| Uart.RingFullness | DelegateMQ/predef/transport/stm32-uart/Stm32UartTransport.h:63 | the full test `next_head == tail` holds exactly when the ring holds one byte less than its storage |
| Uart.UartRingBuffer.constructor | DelegateMQ/predef/transport/stm32-uart/Stm32UartTransport.h:80-82 | a new ring buffer is empty |
| Uart.UartRingBuffer.Put | DelegateMQ/predef/transport/stm32-uart/Stm32UartTransport.h:61-66 | Put succeeds exactly when the ring is not full, and then appends the byte; otherwise nothing changes |
| Uart.UartRingBuffer.Get | DelegateMQ/predef/transport/stm32-uart/Stm32UartTransport.h:70-75 | Get succeeds exactly when the ring is not empty, and then yields and removes the oldest byte |
| Uart.UartRingBuffer.Clear | DelegateMQ/predef/transport/stm32-uart/Stm32UartTransport.h:77 | the ring is empty afterwards |
| Uart.FillRing | DelegateMQ/predef/transport/stm32-uart/Stm32UartTransport.h:61-66 | a ring of n slots accepts at most n - 1 bytes: the capacity is one less than the storage |
| Uart.TxHeader | DelegateMQ/predef/transport/stm32-uart/Stm32UartTransport.h:140-142 | the transmitted header is the given one with the length set to the payload length modulo 2^16 |
| Uart.SameBytesAsSerial | DelegateMQ/predef/transport/stm32-uart/Stm32UartTransport.h:132-180 | for payloads of at most 65535 bytes, the three transmissions are exactly the bytes the serial sender writes |
| Uart.LengthWraps | DelegateMQ/predef/transport/stm32-uart/Stm32UartTransport.h:142 | a payload of 65536 + k bytes is announced with length k |
| Uart.SyncSkipsJunk | DelegateMQ/predef/transport/stm32-uart/Stm32UartTransport.h:192-198 | bytes with no 0xAA, then 0xAA, are consumed up to that byte |
| Uart.NeverReturnsIff | DelegateMQ/predef/transport/stm32-uart/Stm32UartTransport.h:192-198 | Receive does not return exactly when the bytes that arrive hold no 0xAA |
| Uart.SyncThenHeader | DelegateMQ/predef/transport/stm32-uart/Stm32UartTransport.h:192-213 | after bytes with no 0xAA, an encoded header carrying MARKER is synced on and decoded |
| Uart.AcceptsAnyCrc | DelegateMQ/predef/transport/stm32-uart/Stm32UartTransport.h:225-229 | a packet with a true marker and length is accepted whatever its two CRC bytes are |
| Uart.RoundTrip | DelegateMQ/predef/transport/stm32-uart/Stm32UartTransport.h:185-244 | a packet from the serial sender with at most 512 payload bytes, after bytes with no 0xAA, is received with its header and payload. The stream is replaced only when the payload is not empty |
| Uart.Stm32UartTransport.React | DelegateMQ/predef/transport/stm32-uart/Stm32UartTransport.h:230-240 | after an accepted frame: an acknowledgement removes its sequence number from the monitor; any other frame, with a monitor and a send transport set, is acknowledged with an empty ACK of its sequence number, transmitted by this object's Send (up to the first failed transmission) or forwarded to the other transport; nothing happens otherwise |
| Uart.RejectsOversize | DelegateMQ/predef/transport/stm32-uart/Stm32UartTransport.h:195-217 | after bytes with no 0xAA, a header declaring more than 512 payload bytes is refused with -1; the stream is unchanged and the bytes after the header are not read |
| Uart.AckIsEmptyFrame | DelegateMQ/predef/transport/stm32-uart/Stm32UartTransport.h:234-240 | the acknowledgement Receive sends itself, when its transmissions succeed, is the serial frame of the ACK header with no payload, and a UART receiver accepts it as that header with its stream kept |
| Uart.FalseSyncConsumesHeader | DelegateMQ/predef/transport/stm32-uart/Stm32UartTransport.h:195-213 | 0xAA followed by anything but 0x55 fails the marker test after consuming 8 bytes: no resync inside the header |
| Uart.UartLine.constructor | DelegateMQ/predef/transport/stm32-uart/Stm32UartTransport.h:287 | the bytes still to arrive on the line are as given |
| Uart.Stm32UartTransport.constructor | DelegateMQ/predef/transport/stm32-uart/Stm32UartTransport.h:91-92 | both transport pointers designate the object; no mutex, no semaphore, no monitor; the ring is empty |
| Uart.Stm32UartTransport.Create | DelegateMQ/predef/transport/stm32-uart/Stm32UartTransport.h:103-123 | each missing OS primitive is created; the result is 0 exactly when the UART, the mutex and the semaphore are present and the receive interrupt is armed |
| Uart.Stm32UartTransport.SetTransportMonitor | DelegateMQ/predef/transport/stm32-uart/Stm32UartTransport.h:266 | the monitor is set as given |
| Uart.Stm32UartTransport.SetSendTransport | DelegateMQ/predef/transport/stm32-uart/Stm32UartTransport.h:267 | the send transport is set as given |
| Uart.Stm32UartTransport.SetRecvTransport | DelegateMQ/predef/transport/stm32-uart/Stm32UartTransport.h:268 | the receive transport is set as given |
| Uart.Stm32UartTransport.Send | DelegateMQ/predef/transport/stm32-uart/Stm32UartTransport.h:132-180 | after the guards, the frame is registered, then the header, the payload and the CRC are transmitted (Transmits). Transmission stops at the first failure, which gives -1 and leaves the registration. The result is 0 only when all succeed |
| Uart.Stm32UartTransport.OnRxCplt | DelegateMQ/predef/transport/stm32-uart/Stm32UartTransport.h:250-264 | the arrived byte is appended to the ring, or lost when the ring is full |
| Uart.Stm32UartTransport.ReadByteBlocked | DelegateMQ/predef/transport/stm32-uart/Stm32UartTransport.h:272-281 | the oldest byte of ring-then-line is returned and consumed; it fails only when no byte is left |
| Uart.Stm32UartTransport.Sync | DelegateMQ/predef/transport/stm32-uart/Stm32UartTransport.h:192-198 | the sync loop returns exactly when a 0xAA arrives, leaving the bytes after it; when none ever arrives it does not return (a failed read is retried), and every byte is consumed |
| Uart.Stm32UartTransport.ReadBytes | DelegateMQ/predef/transport/stm32-uart/Stm32UartTransport.h:219-221 | n bytes are read in order exactly when n are available; a failure has consumed everything |
| Uart.Stm32UartTransport.ReadFrame | DelegateMQ/predef/transport/stm32-uart/Stm32UartTransport.h:192-229 | returns exactly when ReceiveSpec is not None; then status, header, stream and remaining bytes are those ReceiveSpec gives; otherwise header and stream are unchanged |
| Uart.Stm32UartTransport.ReadHeader | DelegateMQ/predef/transport/stm32-uart/Stm32UartTransport.h:200-211 | seven more bytes are read and the header decodes from 0xAA and those bytes |
| Uart.Stm32UartTransport.ReadBody | DelegateMQ/predef/transport/stm32-uart/Stm32UartTransport.h:215-229 | status, stream and remaining bytes are those of the pure payload-and-CRC spec |
| Uart.Stm32UartTransport.ReadCrc | DelegateMQ/predef/transport/stm32-uart/Stm32UartTransport.h:226-229 | two bytes are consumed and not compared |
| Uart.Stm32UartTransport.Receive | DelegateMQ/predef/transport/stm32-uart/Stm32UartTransport.h:185-244 | guard, then ReceiveSpec: the call does not return when no 0xAA ever arrives, and then nothing else changes. An accepted acknowledgement removes its sequence number. An accepted data frame is acknowledged exactly when a monitor and a send transport are set: forwarded to another transport, or, when the send transport is this object, transmitted as this object's Send of an empty ACK with the frame's sequence number puts it on the line, segment by segment up to the first failed transmission. A refusal changes nothing else |
| Udp.Datagram | DelegateMQ/predef/transport/arm-lwip-netconn-udp/ArmLwipNetconnUdpTransport.h:122-146 | a datagram is its payload plus the 8 header bytes; RoundTrip and AcceptedIsDatagram tie its content to Receive |
| Udp.AcceptedIff | DelegateMQ/predef/transport/arm-lwip-netconn-udp/ArmLwipNetconnUdpTransport.h:179-213 | a datagram is accepted exactly when it holds a header with MARKER and at least the declared number of bytes after it; every other outcome is -1 |
| Udp.AcceptedIsDatagram | DelegateMQ/predef/transport/arm-lwip-netconn-udp/ArmLwipNetconnUdpTransport.h:179-213 | what Receive accepts is a datagram Send could build for the returned header and payload, followed by ignored bytes |
| Udp.RoundTrip | DelegateMQ/predef/transport/arm-lwip-netconn-udp/ArmLwipNetconnUdpTransport.h:102-213 | a datagram built by Send, with anything after it, is received with the same header (length set) and payload |
| Udp.RejectedAfterHeaderClearsStream | DelegateMQ/predef/transport/arm-lwip-netconn-udp/ArmLwipNetconnUdpTransport.h:185-205 | a refused datagram that holds a header has already cleared the caller's stream and overwritten the header |
| Udp.NetconnUdpTransport.constructor | DelegateMQ/predef/transport/arm-lwip-netconn-udp/ArmLwipNetconnUdpTransport.h:40-42 | both transport pointers designate the object; no connection, no monitor |
| Udp.NetconnUdpTransport.Create | DelegateMQ/predef/transport/arm-lwip-netconn-udp/ArmLwipNetconnUdpTransport.h:54-90 | the role and port are stored. The result is 0 exactly when the connection is made and, for PUB, the address parses or, for SUB, the bind succeeds. The receive timeout is 50 ms for PUB and 2000 ms for SUB |
| Udp.NetconnUdpTransport.Close | DelegateMQ/predef/transport/arm-lwip-netconn-udp/ArmLwipNetconnUdpTransport.h:93-100 | no connection is left |
| Udp.NetconnUdpTransport.SetTransportMonitor | DelegateMQ/predef/transport/arm-lwip-netconn-udp/ArmLwipNetconnUdpTransport.h:234 | the monitor is set as given |
| Udp.NetconnUdpTransport.SetSendTransport | DelegateMQ/predef/transport/arm-lwip-netconn-udp/ArmLwipNetconnUdpTransport.h:235 | the send transport is set as given |
| Udp.NetconnUdpTransport.SetRecvTransport | DelegateMQ/predef/transport/arm-lwip-netconn-udp/ArmLwipNetconnUdpTransport.h:236 | the receive transport is set as given |
| Udp.NetconnUdpTransport.Send | DelegateMQ/predef/transport/arm-lwip-netconn-udp/ArmLwipNetconnUdpTransport.h:102-159 | the result is 0 exactly when the guards pass and lwIP takes the datagram. The sent datagram is Datagram of the header. The monitor hears of it only after a successful send |
| Udp.NetconnUdpTransport.Receive | DelegateMQ/predef/transport/arm-lwip-netconn-udp/ArmLwipNetconnUdpTransport.h:161-232 | without a datagram nothing changes. Otherwise the sender's address is captured, and the outcome is ParseDatagram's. Acknowledgements then clear the monitor, and data frames are acknowledged |
| Udp.NetconnUdpTransport.React | DelegateMQ/predef/transport/arm-lwip-netconn-udp/ArmLwipNetconnUdpTransport.h:218-229 | an acknowledgement removes its sequence number from the monitor; another frame is acknowledged with its sequence number, by this object or by the send transport |
| Udp.Decode | DelegateMQ/predef/transport/arm-lwip-netconn-udp/ArmLwipNetconnUdpTransport.h:179-213 | the field-by-field host-order copy and `ntohs` give exactly ParseDatagram's outcome |
| Udp.BuildDatagram | DelegateMQ/predef/transport/arm-lwip-netconn-udp/ArmLwipNetconnUdpTransport.h:122-146 | the `htons` and `memcpy` steps build exactly Datagram of the header and payload |
| Udp.CopyWord | DelegateMQ/predef/transport/arm-lwip-netconn-udp/ArmLwipNetconnUdpTransport.h:142-145 | `memcpy` of a word puts its host-order bytes at the pointer, advances it by 2 and changes nothing else |
| Udp.CopyBytes | DelegateMQ/predef/transport/arm-lwip-netconn-udp/ArmLwipNetconnUdpTransport.h:146 | `memcpy` of the payload fills the tail of the buffer with it and leaves the head |
| ZeroMq.SendCodeCases | DelegateMQ/predef/transport/zeromq/ZeroMqTransport.h:109-123 | Send returns 0 exactly for a good non-empty stream that zmq sends (or fails with errno 0). A bad or empty stream gives -1, and a failed send gives errno |
| ZeroMq.Landed | DelegateMQ/predef/transport/zeromq/ZeroMqTransport.h:129 | what lands in the buffer is the message truncated to BUFFER_SIZE (4096) bytes |
| ZeroMq.ShortMessageIgnored | DelegateMQ/predef/transport/zeromq/ZeroMqTransport.h:138-140 | a message of at most 8 bytes yields an empty stream and leaves the header |
| ZeroMq.BadMarkerGivesHeaderBytes | DelegateMQ/predef/transport/zeromq/ZeroMqTransport.h:144-154 | with a wrong marker, the caller gets the header stream with the marker consumed, and the header's marker is overwritten |
| ZeroMq.AcceptedArgs | DelegateMQ/predef/transport/zeromq/ZeroMqTransport.h:144-173 | an accepted message yields its bytes after the header, up to the buffer's end; the header gets the marker, id and sequence number, and its length is untouched |
| ZeroMq.HostFieldsRead | DelegateMQ/predef/transport/zeromq/ZeroMqTransport.h:147-164 | the three host-order fields at the front of a message are read back as written |
| ZeroMq.AsWrittenAgreesWhenFits | DelegateMQ/predef/transport/zeromq/ZeroMqTransport.h:169 | for messages that fit the buffer, the code as written yields exactly what ReceiveSpec yields |
| ZeroMq.AsWrittenOverreads | DelegateMQ/predef/transport/zeromq/ZeroMqTransport.h:129-169 | for a 4097-byte message the code as written reads past the buffer, and returns bytes that are not the message's tail |
| ZeroMq.ZeroMqTransport.constructor | DelegateMQ/predef/transport/zeromq/ZeroMqTransport.h:179-180 | a new transport has its 4096-byte buffer and has sent nothing |
| ZeroMq.ZeroMqTransport.Send | DelegateMQ/predef/transport/zeromq/ZeroMqTransport.h:109-123 | the result is SendCode's; the message goes out only for a good non-empty stream that zmq sends |
| ZeroMq.ZeroMqTransport.Receive | DelegateMQ/predef/transport/zeromq/ZeroMqTransport.h:125-173 | stream and header are those ReceiveSpec gives, where the argument bytes come from the buffer |
| Dispatch.SeqCounter.constructor | DelegateMQ/predef/dispatcher/Dispatcher.h:44 | the counter starts at the given value |
| Dispatch.SeqCounter.GetNextSeqNum | DelegateMQ/predef/dispatcher/Dispatcher.h:44 | returns the current number, and the counter advances by one modulo 2^16 |
| Dispatch.NoReuseBeforeWrap | DelegateMQ/predef/dispatcher/Dispatcher.h:44 | no two calls fewer than 65536 apart get the same sequence number |
| Dispatch.ShiftChangesResidue | DelegateMQ/predef/dispatcher/Dispatcher.h:44 | advancing by a positive amount below 2^16 always changes the 16-bit number |
| Dispatch.DispatchFrame | DelegateMQ/predef/dispatcher/Dispatcher.h:46-57 | the frame is six header bytes followed by the argument bytes unchanged |
| Dispatch.FrameFields | DelegateMQ/predef/dispatcher/Dispatcher.h:46-54 | the three fields read back in host order are MARKER, the id and the sequence number |
| Dispatch.EmptyArgumentsRefused | DelegateMQ/predef/dispatcher/Dispatcher.h:57-61 | a dispatch with no argument bytes hands a failed stream to the transport, which returns -1 |
| Dispatch.ThroughZeroMq | DelegateMQ/predef/dispatcher/Dispatcher.h:46-61 | a dispatched frame received whole by the ZeroMQ transport carries the id and sequence number written, but loses its first two argument bytes |
| Dispatch.Dispatcher.constructor | DelegateMQ/predef/dispatcher/Dispatcher.h:28 | no transport is set |
| Dispatch.Dispatcher.SetTransport | DelegateMQ/predef/dispatcher/Dispatcher.h:34-37 | the transport is set as given |
| Dispatch.Dispatcher.Destroy | DelegateMQ/predef/dispatcher/Dispatcher.h:29-32 | no transport is set afterwards |
| Dispatch.Dispatcher.Dispatch | DelegateMQ/predef/dispatcher/Dispatcher.h:40-65 | a sequence number is always used up. With no transport the result is -1. Otherwise the frame goes to the transport's Send, marked failed when empty, and the result is what Send returns |
| Engine.Route1 | DelegateMQ/predef/util/NetworkEngine.cpp:280-292 | a frame invokes at most one endpoint |
| Engine.AckNeverInvoked | DelegateMQ/predef/util/NetworkEngine.cpp:283 | an acknowledgement id reaches no endpoint, whatever is registered |
| Engine.UnknownDropped | DelegateMQ/predef/util/NetworkEngine.cpp:285-290 | an id with no endpoint, or a null one, reaches nothing |
| Engine.RegisterThenRoute | DelegateMQ/predef/util/NetworkEngine.cpp:214-227 | after registering an endpoint for an id, frames for that id reach exactly that endpoint once, with their payload (unless it is null or the id is ACK_REMOTE_ID); routes for other ids are unchanged |
| Engine.ForwardedAreNonEmpty | DelegateMQ/predef/util/NetworkEngine.cpp:257 | every forwarded frame carries payload bytes and is the header and stream of a poll that returned no error; no more frames are forwarded than polls were made |
| Engine.NothingAfterExit | DelegateMQ/predef/util/NetworkEngine.cpp:248-262 | nothing received after the exit flag is seen is forwarded |
| Engine.DeliverAppend | DelegateMQ/predef/util/NetworkEngine.cpp:280-292 | delivering two runs of frames is delivering the first, then the second |
| Engine.StartFlag.constructor | DelegateMQ/predef/util/NetworkEngine.cpp:181 | the shared flag starts unset |
| Engine.SecondEngineNeverReceives | DelegateMQ/predef/util/NetworkEngine.cpp:181-190 | with two engines started, only the first creates a receive thread |
| Engine.NetworkEngine.constructor | DelegateMQ/predef/util/NetworkEngine.cpp:18-46 | no endpoints, nothing invoked, no timer, nothing connected, no dispatcher route |
| Engine.NetworkEngine.InitializeZeroMq | DelegateMQ/predef/util/NetworkEngine.cpp:61-84 | the result is the sum of the two Create results; the dispatcher sends on the transport directly |
| Engine.NetworkEngine.InitializeUdp | DelegateMQ/predef/util/NetworkEngine.cpp:91-113 | the result is the sum of the two Create results; the dispatcher goes through the reliable transport whatever they are |
| Engine.NetworkEngine.InitializeUart | DelegateMQ/predef/util/NetworkEngine.cpp:120-142 | the result is the Create result; the transport is wired up whatever it is |
| Engine.NetworkEngine.InitializeSerial | DelegateMQ/predef/util/NetworkEngine.cpp:148-173 | the status handler, the transport links and the dispatcher route are set exactly when opening the port returned 0; otherwise they are unchanged |
| Engine.NetworkEngine.Start | DelegateMQ/predef/util/NetworkEngine.cpp:176-194 | the receive loop is posted at most once across all engines, by the first call; every call starts the timer |
| Engine.NetworkEngine.Stop | DelegateMQ/predef/util/NetworkEngine.cpp:196-212 | the timer and connections are stopped. Called from another thread, the transports are also closed and the receive loop told to exit |
| Engine.NetworkEngine.RegisterEndpoint | DelegateMQ/predef/util/NetworkEngine.cpp:214-227 | the map gains or replaces the entry for the id, and every other entry stays |
| Engine.NetworkEngine.Incoming | DelegateMQ/predef/util/NetworkEngine.cpp:280-292 | the invocations are extended by exactly the frame's route |
| Engine.NetworkEngine.RecvThread | DelegateMQ/predef/util/NetworkEngine.cpp:243-264 | the invocations are extended by delivering, in order, the frames the polls forward (none if the exit flag was already set) |
| Engine.NetworkEngine.PollOnce | DelegateMQ/predef/util/NetworkEngine.cpp:250-262 | one poll forwards its frame exactly when it had no error, a non-empty stream and no exit seen |
| Engine.Unroll | DelegateMQ/predef/util/NetworkEngine.cpp:248-262 | what the remaining polls deliver is what the next poll delivers, then what the rest deliver, unless it sees the exit flag |
| Logging.LinesSnoc | Logger/src/LogData.cpp:26-29 | writing one more line appends that line and a newline to what is flushed |
| Logging.LogData.constructor | Logger/src/LogData.cpp:12-15 | the list starts empty and the file is as given |
| Logging.LogData.Write | Logger/src/LogData.cpp:12-15 | the message is appended; earlier entries are unchanged |
| Logging.LogData.Flush | Logger/src/LogData.cpp:20-34 | the result is whether the file opens; when it does, every stored line and a newline are appended to it in order; the list is kept |
| Logging.FlushTwice | Logger/src/LogData.cpp:20-34 | two flushes without a write append the whole list twice: the flushed lines are not cleared |
| Logging.RunAppend | Logger/src/Logger.cpp:203-217 | FIFO: handling a then b is handling a, then b from where a left off, when a holds no exit message |
| Logging.ExitStops | Logger/src/Logger.cpp:269-274 | an exit message ends the loop and what is queued after it is never handled |
| Logging.RunEmptyAtEnd | Logger/src/Logger.cpp:203-217 | a queue with no exit message is drained without exiting |
| Logging.WriteThenTimer | Logger/src/Logger.cpp:221-252 | a write then a timer tick reports "Write success!" then "Flush success!" and appends the written line to the file |
| Logging.NoCallbackNoReports | Logger/src/Logger.cpp:230-249 | without a callback nothing is reported, whatever is handled |
| Logging.Logger.constructor | Logger/src/Logger.cpp:63-66 | the worker thread exists; the queue is empty and no callback is set |
| Logging.Logger.SetCallback | Logger/src/Logger.cpp:230-231 | the status callback is present or absent as given |
| Logging.Logger.Write | Logger/src/Logger.cpp:79-90 | one write message is appended to the back of the queue |
| Logging.Logger.DispatchDelegate | Logger/src/Logger.cpp:160-171 | one dispatch message is appended to the back of the queue |
| Logging.Logger.TimerTick | Logger/src/Logger.cpp:177-193 | one timer message is appended to the back of the queue |
| Logging.Logger.ExitThread | Logger/src/Logger.cpp:137-154 | with a thread, the state is Run of the queue plus an exit message, and the thread is gone; without one, nothing changes |
| Logging.Logger.Process | Logger/src/Logger.cpp:198-280 | the new state, the messages left and whether it exited are exactly Run's for the old queue and state |
| Logging.Logger.HandleOne | Logger/src/Logger.cpp:221-266 | one write, timer or dispatch message changes the state as Handle says |
| FreeRtosThread.QueueSizeFor | DelegateMQ/predef/os/freertos/Thread.cpp:17 | the depth is the requested size, or DEFAULT_QUEUE_SIZE (20) for 0; never 0 |
| FreeRtosThread.DefaultPriority | DelegateMQ/predef/os/freertos/Thread.cpp:18 | the priority is above idle, below the maximum when there are at least two levels, and the maximum minus two when there are more than two |
| FreeRtosThread.SkippedMessages | DelegateMQ/predef/os/freertos/Thread.cpp:184-219 | null messages, unknown ids and dispatches without data or invoker are passed over without effect |
| FreeRtosThread.DispatchInvokes | DelegateMQ/predef/os/freertos/Thread.cpp:184-219 | a dispatch with data and invoker runs that invoker once, before the messages behind it |
| FreeRtosThread.InvokedCameFromQueue | DelegateMQ/predef/os/freertos/Thread.cpp:184-219 | every invoker run came from a dispatch message in the queue; the invokers already run are kept |
| FreeRtosThread.ExitStops | DelegateMQ/predef/os/freertos/Thread.cpp:184-219 | an exit message ends Run, and what is queued after it stays in the queue |
| FreeRtosThread.Thread.constructor | DelegateMQ/predef/os/freertos/Thread.cpp:14-19 | queue size and priority as the two functions say; no queue, no task, no semaphore; the default stack is 1024 words |
| FreeRtosThread.Thread.SetStackMem | DelegateMQ/predef/os/freertos/Thread.cpp:36-42 | a non-null buffer with a positive size is stored; otherwise nothing changes |
| FreeRtosThread.Thread.CreateThread | DelegateMQ/predef/os/freertos/Thread.cpp:47-104 | missing primitives are created. The call succeeds exactly when the semaphore and queue exist and the task is created (always, with a static stack). The task runs statically at the set size or dynamically at 1024 words. A failed semaphore raises the assertion |
| FreeRtosThread.Thread.SetThreadPriority | DelegateMQ/predef/os/freertos/Thread.cpp:136-141 | the priority is stored, and applied to a running task |
| FreeRtosThread.Thread.DispatchDelegate | DelegateMQ/predef/os/freertos/Thread.cpp:146-171 | with a queue, the message is appended when the bounded send succeeds and there is room; otherwise the queue is unchanged |
| FreeRtosThread.Thread.Run | DelegateMQ/predef/os/freertos/Thread.cpp:184-219 | invokers run, queue left and exit are those RunSpec gives; an exit gives the exit semaphore |
| FreeRtosThread.Thread.ExitThread | DelegateMQ/predef/os/freertos/Thread.cpp:109-128 | with a queue, the exit message is sent if it fits. Called from another task with a live thread, it waits until Run has handled everything before the exit message. When it returns, the queue and task are gone |
| FreeRtosThread.ExitAfterDispatch | DelegateMQ/predef/os/freertos/Thread.cpp:109-219 | a dispatch followed by ExitThread from another task runs the dispatched invoker before the thread ends |
| ThreadXThread.CeilDivBounds | DelegateMQ/predef/os/threadx/Thread.cpp:61-79 | the rounded-up number of words holds the bytes, and wastes less than one word |
| ThreadXThread.CeilDivLeast | DelegateMQ/predef/os/threadx/Thread.cpp:61-79 | it is the least number of words that holds the bytes |
| ThreadXThread.CommonSizes | DelegateMQ/predef/os/threadx/Thread.cpp:61-79 | with 4-byte ULONG a 64-bit pointer takes 2 words and the 2048-byte stack 512 words; with 8-byte ULONG, 1 and 256 |
| ThreadXThread.QueueSizeFor | DelegateMQ/predef/os/threadx/Thread.cpp:21 | the depth is the requested size, or DEFAULT_QUEUE_SIZE (20) for 0; never 0 |
| ThreadXThread.Thread.constructor | DelegateMQ/predef/os/threadx/Thread.cpp:17-32 | control blocks zeroed, priority 10, the exit semaphore as its creation reports |
| ThreadXThread.Thread.CreateThread | DelegateMQ/predef/os/threadx/Thread.cpp:50-98 | an already created thread is left alone. Otherwise the queue memory, queue, stack and thread are created in order; a failure means the call does not return. A returning call returns true, with the sizes rounded up to whole ULONG words |
| ThreadXThread.Thread.SetThreadPriority | DelegateMQ/predef/os/threadx/Thread.cpp:103-112 | the priority is stored, and changed live on a created thread |
| ThreadXThread.Thread.GetThreadPriority | DelegateMQ/predef/os/threadx/Thread.cpp:117-120 | the stored priority is returned |
| ThreadXThread.Thread.DispatchDelegate | DelegateMQ/predef/os/threadx/Thread.cpp:182-201 | with a queue and an allocated message, the message is appended when the send succeeds and there is room; otherwise the queue is unchanged |
| ThreadXThread.Thread.ExitThread | DelegateMQ/predef/os/threadx/Thread.cpp:125-161 | with a queue, the exit message is sent if it can be allocated and fits. The call waits only from another thread. Both control blocks are zeroed. Without a queue nothing happens |
| ThreadXThread.Thread.Destroy | DelegateMQ/predef/os/threadx/Thread.cpp:37-45 | ExitThread is called, then the exit semaphore is deleted |
| ThreadXThread.RecreateAfterExit | DelegateMQ/predef/os/threadx/Thread.cpp:50-161 | after ExitThread a thread can be created again |
| WaitLoop.ElapsedAcrossWrap | DelegateMQ/predef/util/ThreadXConditionVariable.h:79-82 | the unsigned 32-bit difference of two tick readings is the true number of elapsed ticks, across a wrap of the counter, for spans below 2^32 |
| WaitLoop.ReadyReturnsAtOnce | DelegateMQ/predef/util/ThreadXConditionVariable.h:77 | a predicate that already holds returns true with no wait |
| WaitLoop.ExpiredReturnsPredicate | DelegateMQ/predef/util/ThreadXConditionVariable.h:84-85 | once the elapsed ticks reach the timeout, the result is the predicate re-read, with no further wait |
| WaitLoop.ZeroTimeoutNeverWaits | DelegateMQ/predef/util/ThreadXConditionVariable.h:84-85 | with a zero timeout there is never a wait, and the result is the predicate |
| WaitLoop.WaitsEndAtDeadline | DelegateMQ/predef/util/ThreadXConditionVariable.h:77-107 | every semaphore take waits a positive number of ticks, and its round's elapsed ticks plus its wait equal the timeout |
| WaitLoop.TrueOnlyWhenSeen | DelegateMQ/predef/util/ThreadXConditionVariable.h:77-109 | a true result means the predicate was seen to hold |
| WaitLoop.TokenFallsThrough | DelegateMQ/predef/util/ThreadXConditionVariable.h:92-106 | a token left by an earlier notify is consumed by the first take, and the loop goes on |
| WaitLoop.WaitReturnsAtFirstTrue | DelegateMQ/predef/util/ThreadXConditionVariable.h:49-58 | wait returns exactly when the predicate is seen to hold, at the first such test, after one take per earlier test; tokens already there are used first |
| WaitLoop.WaitTakes | DelegateMQ/predef/util/ThreadXConditionVariable.h:49-58 | the loop's outcome is WaitSpec's |
| WaitLoop.WaitForRounds | DelegateMQ/predef/util/ThreadXConditionVariable.h:75-109 | the loop's result, tokens and waits are WaitForSpec's |
| ThreadXCondVar.CorrectedAgrees | DelegateMQ/predef/util/ThreadXConditionVariable.h:66-73 | for timeouts that are not negative, the corrected conversion equals the code's |
| ThreadXCondVar.NegativeTimeoutWaitsForever | DelegateMQ/predef/util/ThreadXConditionVariable.h:67-73 | as written, -1 ms at 1000 ticks/s converts to 0xFFFFFFFF ticks (TX_WAIT_FOREVER), and wait_for takes the semaphore with that timeout; corrected, it is 0 |
| ThreadXCondVar.NegativeNeverWaits | DelegateMQ/predef/util/ThreadXConditionVariable.h:62-110 | with the correction, a negative timeout tests the predicate and returns without taking the semaphore |
| ThreadXCondVar.PositiveNeverZero | DelegateMQ/predef/util/ThreadXConditionVariable.h:70 | a positive timeout is never zero ticks |
| ThreadXCondVar.NonPositiveIsZero | DelegateMQ/predef/util/ThreadXConditionVariable.h:67-70 | zero milliseconds, and a corrected negative count, are zero ticks |
| ThreadXCondVar.RoundsDown | DelegateMQ/predef/util/ThreadXConditionVariable.h:67 | where the product does not overflow and neither minimum nor cap applies, the timeout is the requested time rounded down to whole ticks |
| ThreadXCondVar.CapsLongTimeouts | DelegateMQ/predef/util/ThreadXConditionVariable.h:73 | a timeout beyond the largest 32-bit wait is capped at 0xFFFFFFFF |
| ThreadXCondVar.ThreadXConditionVariable.constructor | DelegateMQ/predef/util/ThreadXConditionVariable.h:20-29 | the semaphore starts at count 0 |
| ThreadXCondVar.ThreadXConditionVariable.NotifyOne | DelegateMQ/predef/util/ThreadXConditionVariable.h:40-45 | the semaphore count grows by one: a notify before a wait is not lost |
| ThreadXCondVar.ThreadXConditionVariable.Wait | DelegateMQ/predef/util/ThreadXConditionVariable.h:49-58 | the outcome and the tokens left are WaitSpec's |
| ThreadXCondVar.ThreadXConditionVariable.WaitFor | DelegateMQ/predef/util/ThreadXConditionVariable.h:62-110 | the result, tokens and waits are WaitForSpec's for the corrected tick timeout |
| FreeRtosCondVar.FreeRtosConditionVariable.constructor | DelegateMQ/predef/util/FreeRTOSConditionVariable.h:23-30 | a binary semaphore, present as its creation reports, with no token |
| FreeRtosCondVar.FreeRtosConditionVariable.NotifyOne | DelegateMQ/predef/util/FreeRTOSConditionVariable.h:43-66 | without a semaphore nothing happens; otherwise one token is there afterwards, so a second give before a take adds nothing |
| FreeRtosCondVar.FreeRtosConditionVariable.Wait | DelegateMQ/predef/util/FreeRTOSConditionVariable.h:70-79 | the outcome and the token left are WaitSpec's |
| FreeRtosCondVar.FreeRtosConditionVariable.WaitFor | DelegateMQ/predef/util/FreeRTOSConditionVariable.h:84-119 | the result, tokens and waits are WaitForSpec's for the tick timeout |
| FreeRtosCondVar.TokensNeverGrow | DelegateMQ/predef/util/FreeRTOSConditionVariable.h:89-116 | a wait_for never leaves more tokens than it found, so the binary semaphore stays binary |

## Left out

- The bodies of the library calls (`sp_*`, `zmq_*`, HAL, lwIP netconn, `xQueue*`/`xTask*`/`xSemaphore*`, `tx_*`) are not modelled. Their outcomes are method parameters, and the media are finite byte sequences.
- `Crc16CalcBlock`: crc16.h is not part of this model. The CRC is a byte-by-byte fold of an unspecified step function, so only its chaining is proved, not its polynomial.
- DmqHeader.h is not part of this model. MARKER is taken as 0xAA55 and HEADER_SIZE as 8. ACK_REMOTE_ID is an unspecified constant, and a default-constructed header is (MARKER, 0, 0, 0).
- Dispatch.SeqCounter.GetNextSeqNum: `DmqHeader::GetNextSeqNum` is in DmqHeader.h, which is not part of this model. It is taken to be a 16-bit counter that wraps, and its thread safety is not modelled.
- Marshalling of calls onto the engine or worker thread (`MakeDelegate(..., m_thread, WAIT_INFINITE)`) is not modelled. Every method runs as if already on the right thread.
- Engine.NetworkEngine.Start: the timer, its 100 ms period and the `Timeout` handler are flags only. `InternalStatusHandler` and `Timeout` are not modelled.
- Engine.NetworkEngine.RecvThread: the loop also ends when the finite polls run out. The source polls forever until the exit flag. `INVOKE_TIMEOUT` and queue-full drops of `Incoming` are not modelled.
- `~NetworkEngine()` (Stop, then ExitThread of the engine thread) is not modelled as its own member: both steps are.
- Invocation of an endpoint (`IRemoteInvoker::Invoke`) is recorded as an invocation and not performed.
- Logging.Logger.TimerTick: `TimerThread`'s 1-second sleep and its `m_timerExit` race with `ExitThread` are not modelled. Each pass of its loop is one call.
- Logger: `std::thread`, `std::mutex` and `std::condition_variable` are left out. The worker runs inside `ExitThread` (join) or `Process`, and `GetThreadId`/`GetCurrentThreadId` are not modelled.
- Logging.Logger.Write and Logging.Logger.DispatchDelegate require a thread. `ASSERT_TRUE(m_thread)` aborts otherwise.
- Logging.LogData.Flush: file I/O is a string the lines are appended to. `fileOk` says whether `LogData.txt` opens, and it is fixed for the lifetime of one LogData, so an open that fails after an earlier one succeeded (or the reverse) is not expressed. Write errors while streaming and `std::endl` flushing are not modelled.
- The ThreadX `Thread::Process`/`Thread::Run` task loop is declared in Thread.h but its body is not in the available Thread.cpp, which ends at line 201. The thread-identity getters of both Thread classes return kernel handles and are not modelled.
- FreeRtosThread.Thread.CreateThread: `configASSERT` is a `faulted` flag, not a halt.
- ThreadXThread.Thread.CreateThread: the `ASSERT_TRUE` spin is a `returned == false` result.
- ThreadXThread.Thread.CreateThread: the ULONG arithmetic of the queue size in words is unbounded here, so overflow of `m_queueSize * msgSizeWords` is not modelled.
- ThreadXThread.Thread.ExitThread: the wait on the exit semaphore, and the thread's own handling of the exit message, are recorded as `waited`, not run. The ThreadX Run loop is not available.
- FreeRtosCondVar.FreeRtosConditionVariable.WaitFor takes the timeout already in ticks. `pdMS_TO_TICKS` is a FreeRTOS macro outside the available source.
- FreeRtosCondVar.FreeRtosConditionVariable.Wait and WaitFor require the semaphore. The constructor's `configASSERT(m_sem != NULL)` stops the program otherwise.
- Condition variables: the lock passed to `wait`/`wait_for` is not modelled. Interrupt and task flavours of the give are one operation. A spurious wakeup is a take that finds a token.
- ThreadXCondVar.ThreadXConditionVariable.NotifyOne: the semaphore count is unbounded. The 32-bit ceiling of `tx_semaphore_put` is not modelled.
- Uart: the ring buffer is shared between the interrupt and the task without locking. The model runs them one at a time, and its `volatile` ordering and the recursive mutex are not modelled.
- Serial.SerialTransport.Send: the lock and the `std::cerr` diagnostic in Receive have no effect in the model.
- Serial/Uart timeouts (`sp_blocking_read` timeouts, `portMAX_DELAY`): a read with no byte available fails at once. The UART sync loop retries a failed read, so there the model reports that Receive does not return; the UART header, payload and CRC reads return -1 on such a failure, as their code does.
- Stream objects: a stream is its bytes plus, for ZeroMQ, a read position. `bad()`/`fail()` is a boolean parameter.

## Findings

| source | as written | input that shows it | evidently intended | confidence | as-written member | corrected member |
|---|---|---|---|---|---|---|
| DelegateMQ/predef/transport/zeromq/ZeroMqTransport.h:129-169 | `zmq_recv` returns the full message size even when it truncates to BUFFER_SIZE. `argStream.write(buffer + HEADER_SIZE, size - HEADER_SIZE)` then copies `size - 8` bytes, which runs past the 4096-byte buffer | a 4097-byte message with MARKER in front | copy only the bytes that landed in the buffer, `min(size, BUFFER_SIZE) - HEADER_SIZE` | high, not executed | ZeroMq.AsWrittenOverreads | ZeroMq.ZeroMqTransport.Receive |
| DelegateMQ/predef/util/ThreadXConditionVariable.h:67-73 | a negative `timeout.count()` is cast to unsigned before the multiplication, so the product is huge and the cap turns it into 0xFFFFFFFF, which is TX_WAIT_FOREVER | `wait_for(lock, -1ms, pred)` at 1000 ticks per second with the predicate false | a negative timeout is an expired one, as for `std::condition_variable::wait_for`: test the predicate and return | high, not executed | ThreadXCondVar.NegativeTimeoutWaitsForever | ThreadXCondVar.NegativeNeverWaits |
