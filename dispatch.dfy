/**
 * What NspireService._HandlePacket (NavNet/NspireService.ts) does with one
 * decoded packet, stated on values: the new connection state, the replies it
 * sends, in order, and the error it throws, if any. Replies that answer the
 * incoming packet reuse its sequence number ("echoed"); replies the service
 * originates take the next value of its counter ("originated"). On every path
 * the echoed reply, if any, is sent before the originated ones, so the
 * transmission order is `echoed + originated`.
 */
module Dispatch {
  import opened Wrappers
  import opened RawPackets
  import opened ServiceIds

  /** Link addresses of every reply: from the host (0x6400) to the calculator (0x6401). */
  const ReplySourceAddress: int := 0x6400
  const ReplyDestinationAddress: int := 0x6401

  /**
   * The output file, seen only through the calls made on it: whether a
   * stream was ever created, whether a writer was ever taken from it, the
   * bytes handed to the writer and whether the writer was ever closed.
   */
  datatype Sink = Sink(streamCreated: bool, writerCreated: bool, written: seq<Byte>, closed: bool)

  /** The service's connection state, everything except the reassembly buffers. */
  datatype Conn = Conn(nextSequenceId: int, osSize: int, receivedFirstPacket: bool, sink: Sink)

  /** The state of a freshly constructed service. */
  const InitialConn := Conn(0, 0, false, Sink(false, false, [], false))

  /** A packet handed to the transport together with the sequence number it is encoded with. */
  datatype Outgoing = Outgoing(packet: RawPacket, sequenceId: int)

  /** The errors the handler throws. */
  datatype Error =
    | InvalidRequestType            // InstallOS with fewer than two data bytes
    | InvalidInitialRequestSize     // InstallOS type 3 with fewer than five data bytes
    | NoFileStream                  // InstallOS type 5 before any type 3
    | InvalidDeviceInformationType  // DeviceInformation with no data byte

  /** The outcome of handling one packet. Replies sent before an error stay sent. */
  datatype Handled = Handled(conn: Conn, echoed: seq<Outgoing>, originated: seq<Outgoing>, error: Option<Error>)

  /** Everything sent, in transmission order. */
  function Sent(h: Handled): seq<Outgoing>
  {
    h.echoed + h.originated
  }

  /** A payload byte, or 0 where the payload is too short (a missing element shifts and ors as 0). */
  function ByteAt(data: seq<Byte>, i: nat): (b: Byte)
    ensures i < |data| ==> b == data[i]
    ensures i >= |data| ==> b == 0
  {
    if i < |data| then data[i] else 0
  }

  /** The ad-hoc source service id of an acknowledgement: 0x00FE for sequence 0, else 0x00FF. */
  function AckSource(sequence: int): int
  {
    if sequence == 0 then 0x00FE else 0x00FF
  }

  /**
   * The acknowledgement of `p`, addressed to service `destination`: ACK byte
   * 0x0A and, as payload, the service id the request was addressed to.
   */
  function Acknowledgement(p: RawPacket, destination: int): RawPacket
  {
    NewPacket(ReplySourceAddress, AckSource(p.Sequence), ReplyDestinationAddress, destination, 0x0A,
              [HighByte(p.DestinationServiceId), LowByte(p.DestinationServiceId)])
  }

  /** A packet the host originates from service `source` to service `destination`. */
  function Originated(source: ServiceId, destination: int, data: seq<Byte>): RawPacket
  {
    NewPacket(ReplySourceAddress, source.Value(), ReplyDestinationAddress, destination, 0x00, data)
  }

  /**
   * Four big-endian bytes read as a signed 32-bit integer, as JavaScript's
   * `<<`, `&` and `|` produce it: negative exactly when the top bit is set.
   */
  function Int32BigEndian(b1: Byte, b2: Byte, b3: Byte, b4: Byte): (r: int)
    ensures -0x8000_0000 <= r < 0x8000_0000
    ensures r < 0 <==> b1 >= 0x80
    ensures r % 0x1_0000_0000 == b1 * 0x100_0000 + b2 * 0x1_0000 + b3 * 0x100 + b4
  {
    var u := b1 * 0x100_0000 + b2 * 0x1_0000 + b3 * 0x100 + b4;
    if b1 >= 0x80 then u - 0x1_0000_0000 else u
  }

  /** The general device information the host reports: 111 fixed bytes. */
  const DeviceInformationBlob: seq<Byte> := [
    0x01, 0x00, 0x00, 0x00, 0x00, 0x06, 0x62, 0xC8, 0x00, 0x00, 0x00, 0x00, 0x00, 0x07, 0x34, 0x00,
    0x00, 0x00, 0x00, 0x00, 0x00, 0x02, 0xA7, 0x9F, 0x74, 0x00, 0x00, 0x00, 0x00, 0x03, 0x39, 0x61,
    0xC0, 0xFF, 0x01, 0x00, 0x84, 0x03, 0x02, 0x07, 0x01, 0x03, 0x00, 0x00, 0x63, 0x03, 0x02, 0x00,
    0x8D, 0x00, 0x00, 0x00, 0x00, 0x00, 0x02, 0x00, 0x00, 0x00, 0x00, 0x01, 0x40, 0x00, 0xF0, 0x10,
    0x01, 0x1F, 0x38, 0x30, 0x30, 0x30, 0x30, 0x30, 0x30, 0x31, 0x30, 0x35, 0x32, 0x31, 0x46, 0x33,
    0x43, 0x30, 0x00, 0x31, 0x30, 0x30, 0x38, 0x30, 0x30, 0x30, 0x30, 0x30, 0x30, 0x31, 0x30, 0x35,
    0x32, 0x31, 0x46, 0x33, 0x43, 0x30, 0x36, 0x34, 0x34, 0x45, 0x30, 0x33, 0x30, 0x43, 0x00]

  /** A request that the host answers with nothing. */
  function Ignored(c: Conn): Handled
  {
    Handled(c, [], [], None)
  }

  /**
   * The dispatcher: a pure acknowledgement is dropped; then the source
   * service decides (only ServiceDisconnection is recognised); then the
   * destination service; anything else is ignored.
   */
  function HandlePacket(c: Conn, p: RawPacket): Handled
  {
    if p.Ack == 0x0A then Ignored(c)
    else if p.SourceServiceId == ServiceDisconnection.Value() then
      var destination := Word(ByteAt(p.Data, 0), ByteAt(p.Data, 1));
      Handled(c, [Outgoing(Acknowledgement(p, destination), p.Sequence)], [], None)
    else if p.DestinationServiceId == InstallOS.Value() then InstallOSRequest(c, p)
    else if p.DestinationServiceId == DeviceAddressAssignment.Value() then
      var n := c.nextSequenceId + 1;
      var data := [HighByte(ReplyDestinationAddress), LowByte(ReplyDestinationAddress), 0xFF, 0x00];
      Handled(c.(nextSequenceId := n), [],
              [Outgoing(Originated(DeviceAddressAssignment, DeviceAddressAssignment.Value(), data), n)], None)
    else if p.DestinationServiceId == Login.Value() then
      var refusal := NewPacket(ReplySourceAddress, NACK.Value(), ReplyDestinationAddress, p.SourceServiceId, 0x0A,
                               [HighByte(Login.Value()), LowByte(Login.Value())]);
      Handled(c, [Outgoing(refusal, p.Sequence)], [], None)
    else if p.DestinationServiceId == DeviceInformation.Value() then DeviceInformationRequest(c, p)
    else Ignored(c)
  }

  /** A request to the InstallOS service: acknowledge, then act on the request type in Data[0]. */
  function InstallOSRequest(c: Conn, p: RawPacket): Handled
  {
    var ack := [Outgoing(Acknowledgement(p, p.SourceServiceId), p.Sequence)];
    if |p.Data| <= 1 then Handled(c, ack, [], Some(InvalidRequestType))
    else if p.Data[0] == 0x03 then
      if |p.Data| < 5 then Handled(c, ack, [], Some(InvalidInitialRequestSize))
      else
        var n := c.nextSequenceId + 1;
        var start := Conn(n, Int32BigEndian(p.Data[1], p.Data[2], p.Data[3], p.Data[4]), false,
                          c.sink.(streamCreated := true));
        Handled(start, ack, [Outgoing(Originated(InstallOS, p.SourceServiceId, [0x04]), n)], None)
    else if p.Data[0] == 0x05 then
      if !c.sink.streamCreated then Handled(c, ack, [], Some(NoFileStream))
      else OSData(c, p).(echoed := ack)
    else Handled(c, ack, [], None)
  }

  /**
   * An InstallOS data chunk (type 5), once a stream exists: write Data[1..],
   * count it off the remaining size, confirm the first chunk, and announce
   * completion when the size is used up or the chunk is short.
   */
  function OSData(c: Conn, p: RawPacket): Handled
    requires 1 <= |p.Data|
  {
    var sink := c.sink.(writerCreated := true, written := c.sink.written + p.Data[1..]);
    var size := c.osSize - (|p.Data| - 1);
    var first := if c.receivedFirstPacket then []
                 else [Outgoing(Originated(InstallOS, p.SourceServiceId, [0xFF, 0x00]), c.nextSequenceId + 1)];
    var n := c.nextSequenceId + |first|;
    if size <= 0 || |p.Data| < 0xFE then
      var done := Outgoing(Originated(InstallOS, InstallOS.Value(), [0x06, 0x64]), n + 1);
      Handled(Conn(n + 1, size, true, sink.(closed := true)), [], first + [done], None)
    else
      Handled(Conn(n, size, true, sink), [], first, None)
  }

  /** A request to the DeviceInformation service: acknowledge, then answer type 1 with the blob. */
  function DeviceInformationRequest(c: Conn, p: RawPacket): Handled
  {
    var ack := [Outgoing(Acknowledgement(p, p.SourceServiceId), p.Sequence)];
    if |p.Data| < 1 then Handled(c, ack, [], Some(InvalidDeviceInformationType))
    else if p.Data[0] == 0x01 then
      var n := c.nextSequenceId + 1;
      Handled(c.(nextSequenceId := n), ack,
              [Outgoing(Originated(DeviceInformation, p.SourceServiceId, DeviceInformationBlob), n)], None)
    else Handled(c, ack, [], None)
  }

  /**
   * A request that reaches the destination-service switch for `s`: not a
   * pure acknowledgement and not from ServiceDisconnection.
   */
  predicate ToService(p: RawPacket, s: ServiceId)
  {
    p.Ack != 0x0A && p.SourceServiceId != ServiceDisconnection.Value() && p.DestinationServiceId == s.Value()
  }

  /** A completion announcement: payload [0x06, 0x64] (100 %) to the InstallOS service. */
  predicate IsCompletion(o: Outgoing)
  {
    o.packet.SourceServiceId == InstallOS.Value() && o.packet.DestinationServiceId == InstallOS.Value() &&
    o.packet.Data == [0x06, 0x64]
  }

  /**
   * Every service id survives the two-byte big-endian wire field: splitting
   * its value into bytes and joining them names the same member.
   */
  lemma ServiceIdOnWire(s: ServiceId)
    ensures FromValue(Word(HighByte(s.Value()), LowByte(s.Value()))) == Some(s)
  {
    WordSplit(s.Value());
    FromValueRoundTrip(s);
  }

  /** A pure acknowledgement is dropped: nothing is sent and nothing changes. */
  lemma AckPacketIgnored(c: Conn, p: RawPacket)
    requires p.Ack == 0x0A
    ensures HandlePacket(c, p) == Handled(c, [], [], None)
  {
  }

  /**
   * Sequence numbering: at most one echoed reply, carrying the incoming
   * sequence and ACK 0x0A; the originated replies carry ACK 0 and the
   * counter's next values, one each, and the counter ends at the last one.
   */
  lemma SequenceDiscipline(c: Conn, p: RawPacket)
    ensures Numbered(c, p, HandlePacket(c, p))
  {
    if p.Ack != 0x0A && p.SourceServiceId != ServiceDisconnection.Value() {
      InstallOSNumbered(c, p);
      DeviceInformationNumbered(c, p);
    }
  }

  /** The numbering SequenceDiscipline states, for the outcome `h` of handling `p` from state `c`. */
  predicate Numbered(c: Conn, p: RawPacket, h: Handled)
  {
    |h.echoed| <= 1 &&
    (forall e :: e in h.echoed ==> e.sequenceId == p.Sequence && e.packet.Ack == 0x0A) &&
    (forall i :: 0 <= i < |h.originated| ==>
       h.originated[i].sequenceId == c.nextSequenceId + 1 + i && h.originated[i].packet.Ack == 0x00) &&
    h.conn.nextSequenceId == c.nextSequenceId + |h.originated|
  }

  /** SequenceDiscipline for the InstallOS arm. */
  lemma InstallOSNumbered(c: Conn, p: RawPacket)
    ensures Numbered(c, p, InstallOSRequest(c, p))
  {
    if |p.Data| > 1 && p.Data[0] == 0x05 && c.sink.streamCreated {
      var h := OSData(c, p);
      assert Numbered(c, p, h.(echoed := []));
    }
  }

  /** SequenceDiscipline for the DeviceInformation arm. */
  lemma DeviceInformationNumbered(c: Conn, p: RawPacket)
    ensures Numbered(c, p, DeviceInformationRequest(c, p))
  {
  }

  /**
   * Every reply goes from address 0x6400 to 0x6401 with a payload that fits
   * the length byte.
   */
  lemma RepliesAddressed(c: Conn, p: RawPacket)
    ensures forall o :: o in Sent(HandlePacket(c, p)) ==> HostReply(o)
  {
    if p.Ack != 0x0A && p.SourceServiceId != ServiceDisconnection.Value() {
      InstallOSRepliesAddressed(c, p);
      DeviceInformationRepliesAddressed(c, p);
    }
  }

  /** A reply from the host's address to the calculator's, with a payload that fits the length byte. */
  predicate HostReply(o: Outgoing)
  {
    o.packet.SourceAddress == 0x6400 && o.packet.DestinationAddress == 0x6401 && |o.packet.Data| <= 0xFF
  }

  /** RepliesAddressed for the InstallOS arm. */
  lemma InstallOSRepliesAddressed(c: Conn, p: RawPacket)
    ensures forall o :: o in Sent(InstallOSRequest(c, p)) ==> HostReply(o)
  {
    if |p.Data| > 1 && p.Data[0] == 0x05 && c.sink.streamCreated {
      assert forall o :: o in Sent(OSData(c, p)) ==> HostReply(o);
    }
  }

  /** RepliesAddressed for the DeviceInformation arm. */
  lemma DeviceInformationRepliesAddressed(c: Conn, p: RawPacket)
    ensures forall o :: o in Sent(DeviceInformationRequest(c, p)) ==> HostReply(o)
  {
  }

  /**
   * When the request's fields fit the wire, so do the fields of every reply:
   * every reply is encoded without loss.
   */
  lemma RepliesFitWire(c: Conn, p: RawPacket)
    requires FitsWire(p)
    ensures forall o :: o in Sent(HandlePacket(c, p)) ==> FitsWire(o.packet)
  {
    if p.Ack != 0x0A && p.SourceServiceId != ServiceDisconnection.Value() {
      InstallOSRepliesFitWire(c, p);
      DeviceInformationRepliesFitWire(c, p);
    }
  }

  /** RepliesFitWire for the InstallOS arm. */
  lemma InstallOSRepliesFitWire(c: Conn, p: RawPacket)
    requires FitsWire(p)
    ensures forall o :: o in Sent(InstallOSRequest(c, p)) ==> FitsWire(o.packet)
  {
    if |p.Data| > 1 && p.Data[0] == 0x05 && c.sink.streamCreated {
      assert forall o :: o in Sent(OSData(c, p)) ==> FitsWire(o.packet);
    }
  }

  /** RepliesFitWire for the DeviceInformation arm. */
  lemma DeviceInformationRepliesFitWire(c: Conn, p: RawPacket)
    requires FitsWire(p)
    ensures forall o :: o in Sent(DeviceInformationRequest(c, p)) ==> FitsWire(o.packet)
  {
  }

  /**
   * The source service of an echoed reply is 0x00FE when the request's
   * sequence is 0 and 0x00FF otherwise, except for the Login refusal, which
   * comes from NACK.
   */
  lemma EchoedAckSource(c: Conn, p: RawPacket)
    ensures forall e :: e in HandlePacket(c, p).echoed ==>
      e.packet.SourceServiceId ==
        (if ToService(p, Login) then NACK.Value() else if p.Sequence == 0 then 0x00FE else 0x00FF)
  {
  }

  /**
   * A ServiceDisconnection request is answered with one acknowledgement to
   * the service named by its first two payload bytes, missing bytes reading
   * as 0; nothing else changes.
   */
  lemma DisconnectionAcknowledged(c: Conn, p: RawPacket)
    requires p.Ack != 0x0A && p.SourceServiceId == ServiceDisconnection.Value()
    ensures var h := HandlePacket(c, p);
      h.conn == c && h.originated == [] && h.error == None && |h.echoed| == 1 &&
      h.echoed[0].packet.DestinationServiceId ==
        (if |p.Data| >= 2 then p.Data[0] as int * 0x100 + p.Data[1]
         else if |p.Data| == 1 then p.Data[0] as int * 0x100 else 0) &&
      h.echoed[0].packet.Data == [HighByte(p.DestinationServiceId), LowByte(p.DestinationServiceId)]
  {
  }

  /**
   * DeviceAddressAssignment is always answered with one originated packet
   * from and to that service, assigning address 0x6401: [0x64, 0x01, 0xFF, 0x00].
   */
  lemma AddressAssignmentReply(c: Conn, p: RawPacket)
    requires ToService(p, DeviceAddressAssignment)
    ensures var h := HandlePacket(c, p);
      h.echoed == [] && |h.originated| == 1 && h.error == None &&
      h.originated[0].packet.SourceServiceId == 0x4003 &&
      h.originated[0].packet.DestinationServiceId == 0x4003 &&
      h.originated[0].packet.Data == [0x64, 0x01, 0xFF, 0x00] &&
      h.conn == c.(nextSequenceId := c.nextSequenceId + 1)
  {
  }

  /**
   * Login is always refused with one echoed packet from NACK, ACK 0x0A and
   * payload [0x40, 0x50], back to the requesting service.
   */
  lemma LoginReply(c: Conn, p: RawPacket)
    requires ToService(p, Login)
    ensures var h := HandlePacket(c, p);
      h.conn == c && h.originated == [] && h.error == None && |h.echoed| == 1 &&
      h.echoed[0].packet.SourceServiceId == 0x00D3 && h.echoed[0].packet.Ack == 0x0A &&
      h.echoed[0].packet.DestinationServiceId == p.SourceServiceId &&
      h.echoed[0].packet.Data == [0x40, 0x50] && h.echoed[0].sequenceId == p.Sequence
  {
  }

  /**
   * DeviceInformation is acknowledged first; an empty payload is an error;
   * type 1 is answered with the 111-byte blob; any other type with nothing more.
   */
  lemma DeviceInformationReplies(c: Conn, p: RawPacket)
    requires ToService(p, DeviceInformation)
    ensures var h := HandlePacket(c, p);
      |h.echoed| == 1 && h.echoed[0].packet.DestinationServiceId == p.SourceServiceId &&
      h.echoed[0].packet.Data == [0x40, 0x20] &&
      (h.error.Some? <==> |p.Data| == 0) &&
      (h.error.Some? ==> h.error == Some(InvalidDeviceInformationType) && h.conn == c && h.originated == []) &&
      (|p.Data| >= 1 && p.Data[0] == 0x01 ==>
         |h.originated| == 1 && h.originated[0].packet.Data == DeviceInformationBlob &&
         |DeviceInformationBlob| == 111 &&
         h.originated[0].packet.SourceServiceId == 0x4020 &&
         h.originated[0].packet.DestinationServiceId == p.SourceServiceId &&
         h.conn == c.(nextSequenceId := c.nextSequenceId + 1) && h.error == None) &&
      (|p.Data| >= 1 && p.Data[0] != 0x01 ==> h.conn == c && h.originated == [] && h.error == None)
  {
  }

  /**
   * A request to any other destination service (the switch's default arm)
   * is ignored: no reply, no error and no change of state.
   */
  lemma UnknownDestinationIgnored(c: Conn, p: RawPacket)
    requires p.Ack != 0x0A && p.SourceServiceId != ServiceDisconnection.Value()
    requires FromValue(p.DestinationServiceId) !in
      {Some(InstallOS), Some(DeviceAddressAssignment), Some(Login), Some(DeviceInformation)}
    ensures HandlePacket(c, p) == Handled(c, [], [], None)
  {
    if FromValue(p.DestinationServiceId).Some? {
      FromValueRoundTrip(FromValue(p.DestinationServiceId).value);
    }
  }

  /**
   * InstallOS always acknowledges first, to the requesting service, with
   * the InstallOS id as payload and the incoming sequence.
   */
  lemma InstallOSAcknowledgedFirst(c: Conn, p: RawPacket)
    requires ToService(p, InstallOS)
    ensures var h := HandlePacket(c, p);
      |h.echoed| == 1 && Sent(h)[0] == h.echoed[0] && h.echoed[0].sequenceId == p.Sequence &&
      h.echoed[0].packet.Ack == 0x0A && h.echoed[0].packet.DestinationServiceId == p.SourceServiceId &&
      h.echoed[0].packet.Data == [0x40, 0x80]
  {
  }

  /**
   * The InstallOS errors, each exactly when its condition holds; an error
   * changes no state and originates nothing (only the acknowledgement went out).
   */
  lemma InstallOSErrors(c: Conn, p: RawPacket)
    requires ToService(p, InstallOS)
    ensures var h := HandlePacket(c, p);
      (h.error == Some(InvalidRequestType) <==> |p.Data| <= 1) &&
      (h.error == Some(InvalidInitialRequestSize) <==> |p.Data| > 1 && p.Data[0] == 0x03 && |p.Data| < 5) &&
      (h.error == Some(NoFileStream) <==> |p.Data| > 1 && p.Data[0] == 0x05 && !c.sink.streamCreated) &&
      h.error != Some(InvalidDeviceInformationType) &&
      (h.error.Some? ==> h.conn == c && h.originated == [])
  {
  }

  /**
   * InstallOS type 3 starts a transfer: the size is the signed 32-bit value
   * of Data[1..5], the first-chunk flag is cleared, a stream is created (an
   * existing writer and the bytes written are kept), and [0x04] tells the
   * requesting service to start sending.
   */
  lemma InstallOSStart(c: Conn, p: RawPacket)
    requires ToService(p, InstallOS) && |p.Data| >= 5 && p.Data[0] == 0x03
    ensures var h := HandlePacket(c, p);
      h.error == None &&
      h.conn.osSize == Int32BigEndian(p.Data[1], p.Data[2], p.Data[3], p.Data[4]) &&
      !h.conn.receivedFirstPacket &&
      h.conn.sink == c.sink.(streamCreated := true) &&
      |h.originated| == 1 && h.originated[0].packet.Data == [0x04] &&
      h.originated[0].packet.SourceServiceId == 0x4080 &&
      h.originated[0].packet.DestinationServiceId == p.SourceServiceId
  {
  }

  /**
   * InstallOS type 5 with a stream: the payload after the type byte is
   * written and counted off the size; [0xFF, 0x00] goes out only for the
   * first chunk since the start; and whenever the size is used up or the
   * chunk is short (fewer than 0xFE bytes), the writer is closed and the
   * completion is announced.
   */
  lemma InstallOSChunk(c: Conn, p: RawPacket)
    requires ToService(p, InstallOS) && |p.Data| > 1 && p.Data[0] == 0x05 && c.sink.streamCreated
    ensures var h := HandlePacket(c, p);
      var done := c.osSize - (|p.Data| - 1) <= 0 || |p.Data| < 0xFE;
      h.error == None &&
      h.conn.osSize == c.osSize - (|p.Data| - 1) &&
      h.conn.receivedFirstPacket &&
      h.conn.sink == Sink(true, true, c.sink.written + p.Data[1..], c.sink.closed || done) &&
      |h.originated| == (if c.receivedFirstPacket then 0 else 1) + (if done then 1 else 0) &&
      (!c.receivedFirstPacket ==>
         h.originated[0].packet.Data == [0xFF, 0x00] && h.originated[0].packet.SourceServiceId == 0x4080 &&
         h.originated[0].packet.DestinationServiceId == p.SourceServiceId) &&
      (done <==> |h.originated| > 0 && IsCompletion(h.originated[|h.originated| - 1]))
  {
  }

  /** InstallOS request types other than 3 and 5 are acknowledged and otherwise ignored. */
  lemma InstallOSOtherType(c: Conn, p: RawPacket)
    requires ToService(p, InstallOS) && |p.Data| > 1 && p.Data[0] != 0x03 && p.Data[0] != 0x05
    ensures var h := HandlePacket(c, p);
      h.conn == c && h.originated == [] && h.error == None && |h.echoed| == 1
  {
  }

  /**
   * A transfer declared as 300 bytes, sent as two full chunks of 253
   * payload bytes and a short one: the size is used up by the second chunk,
   * which announces completion, and the short third chunk announces it
   * again, because the stream and writer outlive the completion.
   */
  lemma {:induction false} CompletionRepeats(c: Conn, start: RawPacket, d1: RawPacket, d2: RawPacket, d3: RawPacket)
    requires ToService(start, InstallOS) && start.Data == [0x03, 0x00, 0x00, 0x01, 0x2C]
    requires ToService(d1, InstallOS) && |d1.Data| == 0xFE && d1.Data[0] == 0x05
    requires ToService(d2, InstallOS) && |d2.Data| == 0xFE && d2.Data[0] == 0x05
    requires ToService(d3, InstallOS) && 1 < |d3.Data| < 0xFE && d3.Data[0] == 0x05
    ensures var h0 := HandlePacket(c, start);
      var h1 := HandlePacket(h0.conn, d1);
      var h2 := HandlePacket(h1.conn, d2);
      var h3 := HandlePacket(h2.conn, d3);
      h0.conn.osSize == 300 &&
      h1.conn.osSize == 47 && |h1.originated| == 1 && !IsCompletion(h1.originated[0]) &&
      h2.conn.osSize == -206 && |h2.originated| == 1 && IsCompletion(h2.originated[0]) &&
      |h3.originated| == 1 && IsCompletion(h3.originated[0]) && h3.error == None &&
      h3.conn.sink.written == c.sink.written + d1.Data[1..] + d2.Data[1..] + d3.Data[1..]
  {
    var h0 := HandlePacket(c, start);
    InstallOSStart(c, start);
    InstallOSChunk(h0.conn, d1);
    var h1 := HandlePacket(h0.conn, d1);
    InstallOSChunk(h1.conn, d2);
    var h2 := HandlePacket(h1.conn, d2);
    InstallOSChunk(h2.conn, d3);
  }

  /** A trace of several handled packets: the final state, everything sent, and the originated replies. */
  datatype Trace = Trace(conn: Conn, sent: seq<Outgoing>, originated: seq<Outgoing>)

  /**
   * Packets handled one after another, as consecutive calls would; a thrown
   * error ends only the call it happened in.
   */
  function Run(c: Conn, ps: seq<RawPacket>): Trace
  {
    if ps == [] then Trace(c, [], [])
    else
      var t := Run(c, ps[..|ps| - 1]);
      var h := HandlePacket(t.conn, ps[|ps| - 1]);
      Trace(h.conn, t.sent + Sent(h), t.originated + h.originated)
  }

  /**
   * Over any run the originated replies are numbered consecutively after the
   * counter's starting value; from a fresh service the first one carries 1.
   */
  lemma {:induction false} RunNumbering(c: Conn, ps: seq<RawPacket>)
    ensures var t := Run(c, ps);
      t.conn.nextSequenceId == c.nextSequenceId + |t.originated| &&
      forall i :: 0 <= i < |t.originated| ==> t.originated[i].sequenceId == c.nextSequenceId + 1 + i
  {
    if ps != [] {
      var init := ps[..|ps| - 1];
      RunNumbering(c, init);
      SequenceDiscipline(Run(c, init).conn, ps[|ps| - 1]);
    }
  }

  /** From a fresh service, the first originated reply carries sequence number 1. */
  lemma FirstOriginatedIsOne(ps: seq<RawPacket>)
    requires Run(InitialConn, ps).originated != []
    ensures Run(InitialConn, ps).originated[0].sequenceId == 1
  {
    RunNumbering(InitialConn, ps);
  }
}
