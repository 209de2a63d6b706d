/**
 * The service object of NavNet/NspireService.ts with its fields updated in
 * place: bytes arrive through HandleInData, the reassembler's two loops move
 * them from the FIFO into the header and data buffers, and a complete packet
 * is decoded and handled step by step, each reply appended to the transport
 * log with the sequence number it is encoded with. Every method is proved
 * against the value-level model in the Reassembly and Dispatch modules.
 */
module NspireServices {
  import opened Wrappers
  import opened RawPackets
  import opened ServiceIds
  import opened Reassembly
  import opened Dispatch

  class NspireService {
    /** The FIFO of received bytes not yet moved into a buffer. */
    var queue: seq<Byte>
    /** The header being assembled (at most 16 bytes). */
    var incompletePacket: seq<Byte>
    /** The payload being assembled, once the header is complete. */
    var incompletePacketData: seq<Byte>

    var nextSequenceId: int
    var osSize: int
    var receivedFirstPacket: bool

    /** The output file: whether a stream and a writer exist, what was written, whether it was closed. */
    var osFileStream: bool
    var osWriter: bool
    var written: seq<Byte>
    var writerClosed: bool

    /**
     * The transport: every packet handed to it, in order, with the sequence
     * number it is encoded with (its bytes are Encode of the pair).
     */
    var sent: seq<Outgoing>

    /** Every byte ever received and every frame ever extracted. */
    ghost var fed: seq<Byte>
    ghost var frames: seq<Frame>

    /** The reassembly buffers as a value. */
    function BufferState(): Buffers
      reads this`incompletePacket, this`incompletePacketData, this`queue
    {
      Buffers(incompletePacket, incompletePacketData, queue)
    }

    /** The connection state as a value. */
    function ConnState(): Conn
      reads this`nextSequenceId, this`osSize, this`receivedFirstPacket
      reads this`osFileStream, this`osWriter, this`written, this`writerClosed
    {
      Conn(nextSequenceId, osSize, receivedFirstPacket,
                    Sink(osFileStream, osWriter, written, writerClosed))
    }

    /** The reassembler's bookkeeping holds for the fields. */
    ghost predicate Valid()
      reads this`fed, this`frames, this`incompletePacket, this`incompletePacketData, this`queue
    {
      Accounted(fed, frames, BufferState())
    }

    constructor()
      ensures Valid()
      ensures BufferState() == Idle && ConnState() == InitialConn
      ensures fed == [] && frames == [] && sent == []
    {
      queue := [];
      incompletePacket := [];
      incompletePacketData := [];
      nextSequenceId := 0;
      osSize := 0;
      receivedFirstPacket := false;
      osFileStream := false;
      osWriter := false;
      written := [];
      writerClosed := false;
      fed := [];
      frames := [];
      sent := [];
    }

    /** Hand `packet` to the transport, to be encoded with `sequenceId`. */
    method SendData(packet: RawPacket, sequenceId: int)
      modifies this`sent
      ensures sent == old(sent) + [Outgoing(packet, sequenceId)]
    {
      sent := sent + [Outgoing(packet, sequenceId)];
    }

    /** Handle one decoded packet: the dispatcher. */
    method HandlePacket(p: RawPacket) returns (error: Option<Error>)
      modifies this`nextSequenceId, this`osSize, this`receivedFirstPacket
      modifies this`osFileStream, this`osWriter, this`written, this`writerClosed
      modifies this`sent
      ensures var h := Dispatch.HandlePacket(old(ConnState()), p);
        ConnState() == h.conn && sent == old(sent) + Sent(h) && error == h.error
    {
      if p.Ack == 0x0A {
        return None;
      }
      if p.SourceServiceId == ServiceDisconnection.Value() {
        SendData(Acknowledgement(p, Word(ByteAt(p.Data, 0), ByteAt(p.Data, 1))), p.Sequence);
        return None;
      }
      if p.DestinationServiceId == InstallOS.Value() {
        error := HandleInstallOS(p);
      } else if p.DestinationServiceId == DeviceAddressAssignment.Value() {
        nextSequenceId := nextSequenceId + 1;
        SendData(Originated(DeviceAddressAssignment, DeviceAddressAssignment.Value(),
                            [HighByte(ReplyDestinationAddress), LowByte(ReplyDestinationAddress), 0xFF, 0x00]),
                 nextSequenceId);
        error := None;
      } else if p.DestinationServiceId == Login.Value() {
        SendData(NewPacket(ReplySourceAddress, NACK.Value(), ReplyDestinationAddress, p.SourceServiceId, 0x0A,
                           [HighByte(Login.Value()), LowByte(Login.Value())]),
                 p.Sequence);
        error := None;
      } else if p.DestinationServiceId == DeviceInformation.Value() {
        error := HandleDeviceInformation(p);
      } else {
        error := None;
      }
    }

    /** The InstallOS arm of the dispatcher. */
    method HandleInstallOS(p: RawPacket) returns (error: Option<Error>)
      modifies this`nextSequenceId, this`osSize, this`receivedFirstPacket
      modifies this`osFileStream, this`osWriter, this`written, this`writerClosed
      modifies this`sent
      ensures var h := InstallOSRequest(old(ConnState()), p);
        ConnState() == h.conn && sent == old(sent) + Sent(h) && error == h.error
    {
      SendData(Acknowledgement(p, p.SourceServiceId), p.Sequence);
      if |p.Data| <= 1 {
        return Some(InvalidRequestType);
      }
      var requestType := p.Data[0];
      if requestType == 0x03 {
        if |p.Data| < 5 {
          return Some(InvalidInitialRequestSize);
        }
        osSize := Int32BigEndian(p.Data[1], p.Data[2], p.Data[3], p.Data[4]);
        receivedFirstPacket := false;
        osFileStream := true;
        nextSequenceId := nextSequenceId + 1;
        SendData(Originated(InstallOS, p.SourceServiceId, [0x04]), nextSequenceId);
      } else if requestType == 0x05 {
        if !osFileStream {
          return Some(NoFileStream);
        }
        ReceiveOSData(p);
      }
      return None;
    }

    /** An InstallOS data chunk (type 5) once a stream exists. */
    method ReceiveOSData(p: RawPacket)
      requires |p.Data| > 1 && osFileStream
      modifies this`nextSequenceId, this`osSize, this`receivedFirstPacket
      modifies this`osFileStream, this`osWriter, this`written, this`writerClosed
      modifies this`sent
      ensures var h := OSData(old(ConnState()), p);
        ConnState() == h.conn && sent == old(sent) + h.originated
    {
      if !osWriter {
        osWriter := true;
      }
      written := written + p.Data[1..];
      osSize := osSize - (|p.Data| - 1);
      if !receivedFirstPacket {
        nextSequenceId := nextSequenceId + 1;
        SendData(Originated(InstallOS, p.SourceServiceId, [0xFF, 0x00]), nextSequenceId);
        receivedFirstPacket := true;
      }
      if osSize <= 0 || |p.Data| < 0xFE {
        writerClosed := true;
        nextSequenceId := nextSequenceId + 1;
        SendData(Originated(InstallOS, InstallOS.Value(), [0x06, 0x64]), nextSequenceId);
      }
    }

    /** The DeviceInformation arm of the dispatcher. */
    method HandleDeviceInformation(p: RawPacket) returns (error: Option<Error>)
      modifies this`nextSequenceId, this`osSize, this`receivedFirstPacket
      modifies this`osFileStream, this`osWriter, this`written, this`writerClosed
      modifies this`sent
      ensures var h := DeviceInformationRequest(old(ConnState()), p);
        ConnState() == h.conn && sent == old(sent) + Sent(h) && error == h.error
    {
      SendData(Acknowledgement(p, p.SourceServiceId), p.Sequence);
      if |p.Data| < 1 {
        return Some(InvalidDeviceInformationType);
      }
      if p.Data[0] == 0x01 {
        nextSequenceId := nextSequenceId + 1;
        SendData(Originated(DeviceInformation, p.SourceServiceId, DeviceInformationBlob), nextSequenceId);
      }
      return None;
    }

    /** The first loop of the reassembler: fill the header from the FIFO. */
    method FillHeaderBuffer()
      requires AtRest(BufferState())
      modifies this`incompletePacket, this`queue
      ensures BufferState() == FillHeader(old(BufferState()))
    {
      ghost var h0 := incompletePacket;
      ghost var q0 := queue;
      while |incompletePacket| < HeaderSize
        invariant |h0| <= |incompletePacket| <= HeaderSize
        invariant |incompletePacket| - |h0| <= |q0|
        invariant incompletePacket == h0 + q0[..|incompletePacket| - |h0|]
        invariant queue == q0[|incompletePacket| - |h0|..]
        decreases HeaderSize - |incompletePacket|
      {
        if |queue| == 0 {
          break;
        }
        ghost var k := |incompletePacket| - |h0|;
        assert q0[..k + 1] == q0[..k] + [queue[0]];
        incompletePacket := incompletePacket + [queue[0]];
        queue := queue[1..];
      }
    }

    /** The second loop of the reassembler: fill the payload from the FIFO, up to header[12] bytes. */
    method FillDataBuffer()
      requires |incompletePacket| == HeaderSize && |incompletePacketData| <= incompletePacket[12]
      modifies this`incompletePacketData, this`queue
      ensures BufferState() == FillData(old(BufferState()))
    {
      var size := incompletePacket[12];
      ghost var d0 := incompletePacketData;
      ghost var q0 := queue;
      while |incompletePacketData| < size
        invariant |d0| <= |incompletePacketData| <= size
        invariant |incompletePacketData| - |d0| <= |q0|
        invariant incompletePacketData == d0 + q0[..|incompletePacketData| - |d0|]
        invariant queue == q0[|incompletePacketData| - |d0|..]
        decreases size - |incompletePacketData|
      {
        if |queue| == 0 {
          break;
        }
        ghost var k := |incompletePacketData| - |d0|;
        assert q0[..k + 1] == q0[..k] + [queue[0]];
        incompletePacketData := incompletePacketData + [queue[0]];
        queue := queue[1..];
      }
    }

    /**
     * The buffer work of one reassembly attempt: fill the header, then the
     * payload; a complete packet empties both buffers and is returned.
     */
    method ExtractFrame() returns (frame: Option<Frame>)
      requires Valid()
      modifies this`incompletePacket, this`incompletePacketData, this`queue, this`frames
      ensures Valid()
      ensures Extract(old(BufferState())) == Extracted(BufferState(), frame)
      ensures frames == old(frames) + (if frame.Some? then [frame.value] else [])
      ensures frame.Some? ==> incompletePacket == [] && incompletePacketData == []
      ensures frame.None? ==> queue == []
    {
      ExtractKeepsAccount(fed, frames, BufferState());
      ExtractConserves(BufferState());
      FillHeaderBuffer();
      if |incompletePacket| == HeaderSize {
        FillDataBuffer();
        if |incompletePacketData| >= incompletePacket[12] {
          var f := Frame(incompletePacket, incompletePacketData);
          frames := frames + [f];
          incompletePacket := [];
          incompletePacketData := [];
          return Some(f);
        }
      }
      return None;
    }

    /**
     * The effect of one reassembly attempt that started from buffers `b`,
     * connection state `c`, extracted frames `frames0` and transport log
     * `sent0`: the buffers are what Extract leaves; without a frame nothing
     * else changed; a frame was recorded, decoded and handled as the
     * dispatcher specifies, its replies appended to the log.
     */
    ghost predicate Attempted(b: Buffers, c: Conn, frames0: seq<Frame>, sent0: seq<Outgoing>, error: Option<Error>)
      requires AtRest(b)
      reads this
    {
      var x := Extract(b);
      BufferState() == x.rest &&
      (x.frame.None? ==> frames == frames0 && ConnState() == c && sent == sent0 && error == None) &&
      (x.frame.Some? ==>
         var h := Dispatch.HandlePacket(c, FromHeaderAndData(x.frame.value.header, x.frame.value.data));
         frames == frames0 + [x.frame.value] && ConnState() == h.conn && sent == sent0 + Sent(h) && error == h.error)
    }

    /**
     * One reassembly attempt: a complete packet leaves the buffers, is
     * decoded and is handled.
     */
    method TryConstructPacket() returns (error: Option<Error>)
      requires Valid()
      modifies this`incompletePacket, this`incompletePacketData, this`queue, this`frames
      modifies this`nextSequenceId, this`osSize, this`receivedFirstPacket
      modifies this`osFileStream, this`osWriter, this`written, this`writerClosed, this`sent
      ensures Valid()
      ensures Attempted(old(BufferState()), old(ConnState()), old(frames), old(sent), error)
      ensures (|frames| == |old(frames)| + 1 && incompletePacket == [] && incompletePacketData == []) ||
              (frames == old(frames) && queue == [])
    {
      var frame := ExtractFrame();
      if frame.Some? {
        var packet := FromHeaderAndData(frame.value.header, frame.value.data);
        error := HandlePacket(packet);
      } else {
        error := None;
      }
    }

    /** Append received bytes to the FIFO, one at a time. */
    method Enqueue(buffer: seq<Byte>)
      modifies this`queue
      ensures queue == old(queue) + buffer
    {
      for i := 0 to |buffer|
        invariant queue == old(queue) + buffer[..i]
      {
        assert buffer[..i + 1] == buffer[..i] + [buffer[i]];
        queue := queue + [buffer[i]];
      }
      assert buffer[..|buffer|] == buffer;
    }

    /**
     * Received bytes: append them to the FIFO, then make one reassembly
     * attempt. Afterwards either one packet was handled and both buffers are
     * empty, or nothing was handled and the FIFO is empty.
     */
    method HandleInData(buffer: seq<Byte>) returns (error: Option<Error>)
      requires Valid()
      modifies this
      ensures Valid()
      ensures fed == old(fed) + buffer
      ensures Attempted(old(BufferState()).(queue := old(queue) + buffer), old(ConnState()), old(frames), old(sent), error)
      ensures (|frames| == |old(frames)| + 1 && incompletePacket == [] && incompletePacketData == []) ||
              (frames == old(frames) && queue == [])
    {
      ghost var b0 := BufferState();
      Enqueue(buffer);
      EnqueueKeepsAccount(fed, frames, b0, buffer);
      fed := fed + buffer;
      ghost var b1 := BufferState();
      assert b1 == b0.(queue := b0.queue + buffer);
      error := TryConstructPacket();
    }
  }
}
