/**
 * The NavNet packet codec (NavNet/RawPacket.ts): the logical packet, its
 * 16-byte wire header, the 16-bit data checksum and the 8-bit header sum.
 *
 * JavaScript numbers are modelled as unbounded `int`s; every place where the
 * source relies on a 32-bit bitwise operator or on a store into a Uint8Array
 * (which keeps the value modulo 256) is written out explicitly.
 */
module RawPackets {

  /** One element of a Uint8Array. */
  type Byte = b: int | 0 <= b < 0x100

  /** The wire header is always this long. */
  const HeaderSize: nat := 16

  /** The two magic bytes that open every header. */
  const Magic0: Byte := 0x54
  const Magic1: Byte := 0xFD

  /**
   * A logical packet. The 16-bit fields and the ACK are plain JavaScript
   * numbers in the source; `Sequence` is only meaningful on a decoded packet
   * (a packet built for sending keeps the default 0, and the sequence id is
   * given to the encoder instead).
   */
  datatype RawPacket = RawPacket(
    SourceAddress: int,
    SourceServiceId: int,
    DestinationAddress: int,
    DestinationServiceId: int,
    Ack: int,
    Sequence: int,
    Data: seq<Byte>)

  /** The source's constructor: `Sequence` starts at 0. */
  function NewPacket(sourceAddress: int, sourceServiceId: int, destinationAddress: int,
                     destinationServiceId: int, ack: int, data: seq<Byte>): RawPacket
  {
    RawPacket(sourceAddress, sourceServiceId, destinationAddress, destinationServiceId, ack, 0, data)
  }

  /**
   * `(x >> 8) & 0xFF` in JavaScript: bits 8 to 15 of the 32-bit pattern of `x`.
   * Dafny's division by a positive constant rounds down, so this is also right
   * for negative `x`.
   */
  function HighByte(x: int): Byte
  {
    (x / 0x100) % 0x100
  }

  /** `x & 0xFF` in JavaScript, which is also what a Uint8Array store keeps of `x`. */
  function LowByte(x: int): Byte
  {
    x % 0x100
  }

  /** `(hi << 8) | lo` for two bytes: a big-endian 16-bit value. */
  function Word(hi: Byte, lo: Byte): (w: int)
    ensures 0 <= w < 0x10000
    ensures HighByte(w) == hi && LowByte(w) == lo
  {
    hi * 0x100 + lo
  }

  /** Splitting a 16-bit value into its two bytes and joining them again gives it back. */
  lemma WordSplit(x: int)
    requires 0 <= x < 0x10000
    ensures Word(HighByte(x), LowByte(x)) == x
  {
  }

  /** Whether all four 16-bit fields and the ACK fit their wire fields. */
  predicate FitsWire(p: RawPacket)
  {
    0 <= p.SourceAddress < 0x10000 && 0 <= p.SourceServiceId < 0x10000 &&
    0 <= p.DestinationAddress < 0x10000 && 0 <= p.DestinationServiceId < 0x10000 &&
    0 <= p.Ack < 0x100
  }

  // ---------------------------------------------------------------------------
  // Data checksum (_GetDataChecksum)
  // ---------------------------------------------------------------------------

  /**
   * One turn of the checksum loop. The source runs it on JavaScript's signed
   * 32-bit integers, but with a byte `b` and an accumulator below 2^16 no
   * intermediate value ever reaches 2^16: `b << 8` and the shifted `second`
   * stay below 0xFF01, so 16-bit words give exactly the same bits.
   */
  function ChecksumStep(acc: bv16, b: Byte): (r: bv16)
  {
    var first := ((b as bv16) << 8) | (acc >> 8);
    var low := acc & 0xFF;
    var second := (((low & 0x0F) << 4) ^ low) << 8;
    var third := second >> 5;
    ((third >> 7) ^ first ^ second ^ third) & 0xFFFF
  }

  /**
   * One turn of the checksum loop on 32-bit words, as the source writes it
   * (lines with `<<`, `>>`, `&`, `^` and `|` on JavaScript's 32-bit integers).
   * The sign bit is never set, so `>>` shifts in zeros here.
   */
  function ChecksumStep32(acc: bv32, b: Byte): (r: bv32)
  {
    var first := ((b as bv32) << 8) | (acc >> 8);
    var low := acc & 0xFF;
    var second := (((low & 0x0F) << 4) ^ low) << 8;
    var third := second >> 5;
    ((third >> 7) ^ first ^ second ^ third) & 0xFFFF
  }

  /** For every 16-bit accumulator, the 16-bit step gives the same bits as the 32-bit one. */
  lemma ChecksumStepWidth(acc: bv16, b: Byte)
    ensures ChecksumStep32(acc as bv32, b) == ChecksumStep(acc, b) as bv32
  {
  }

  /** The 16-bit data checksum: a left fold of `ChecksumStep` over the payload, starting from 0. */
  function DataChecksum(data: seq<Byte>): (c: bv16)
  {
    if data == [] then 0
    else ChecksumStep(DataChecksum(data[..|data| - 1]), data[|data| - 1])
  }

  /** The data checksum as a JavaScript number. */
  function ChecksumValue(data: seq<Byte>): (n: int)
    ensures 0 <= n < 0x10000
  {
    DataChecksum(data) as int
  }

  /** Appending one byte to the payload applies one more checksum step. */
  lemma {:induction false} DataChecksumSnoc(data: seq<Byte>, b: Byte)
    ensures DataChecksum(data + [b]) == ChecksumStep(DataChecksum(data), b)
  {
    assert (data + [b])[..|data|] == data;
  }

  /** Fixed input/output pairs of the checksum. */
  lemma DataChecksumVectors()
    ensures DataChecksum([]) == 0
    ensures DataChecksum([0x01]) == 0x0100
    ensures DataChecksum([0x12, 0x34]) == 0x3412
    ensures DataChecksum([0x12, 0x34, 0x56]) == 0x65A7
  {
    DataChecksumSnoc([], 0x12);
    DataChecksumSnoc([0x12], 0x34);
    DataChecksumSnoc([0x12, 0x34], 0x56);
  }

  /**
   * The source's accumulator loop, proved to compute the fold. The
   * accumulator is a 32-bit value; the result is handed back as a number.
   */
  method GetDataChecksum(data: seq<Byte>) returns (checksum: int)
    ensures checksum == ChecksumValue(data)
    ensures 0 <= checksum < 0x10000
  {
    var ret: bv16 := 0x0000;
    var i := 0;
    while i < |data|
      invariant 0 <= i <= |data|
      invariant ret == DataChecksum(data[..i])
    {
      ghost var acc := ret;
      var b := data[i];
      var first := ((b as bv16) << 8) | (ret >> 8);
      ret := ret & 0xFF;
      var second := (((ret & 0x0F) << 4) ^ ret) << 8;
      var third := second >> 5;
      ret := third >> 7;
      ret := (ret ^ first ^ second ^ third) & 0xFFFF;
      assert ret == ChecksumStep(acc, b);
      assert data[..i + 1] == data[..i] + [data[i]];
      DataChecksumSnoc(data[..i], data[i]);
      i := i + 1;
    }
    assert data[..i] == data;
    checksum := ret as int;
  }

  // ---------------------------------------------------------------------------
  // Encoding (GetRawData)
  // ---------------------------------------------------------------------------

  /** The byte sum of `s`, summed from the front. */
  function ByteSum(s: seq<Byte>): (n: int)
    ensures 0 <= n <= 0xFF * |s|
  {
    if s == [] then 0 else ByteSum(s[..|s| - 1]) + s[|s| - 1]
  }

  /** Header bytes 0 to 14, as the source stores them before summing. */
  function HeaderFields(p: RawPacket, sequenceId: int): (h: seq<Byte>)
    ensures |h| == HeaderSize - 1
  {
    var checksum := ChecksumValue(p.Data);
    [Magic0, Magic1,
     HighByte(p.SourceAddress), LowByte(p.SourceAddress),
     HighByte(p.SourceServiceId), LowByte(p.SourceServiceId),
     HighByte(p.DestinationAddress), LowByte(p.DestinationAddress),
     HighByte(p.DestinationServiceId), LowByte(p.DestinationServiceId),
     HighByte(checksum), LowByte(checksum),
     |p.Data| % 0x100, p.Ack % 0x100, sequenceId % 0x100]
  }

  /**
   * The 16-byte wire header of `p` sent with `sequenceId`: bytes 0 to 14,
   * then their sum modulo 256. The length byte keeps only |Data| modulo 256,
   * as the Uint8Array store does; nothing rejects a longer payload.
   */
  function Header(p: RawPacket, sequenceId: int): (h: seq<Byte>)
    ensures |h| == HeaderSize && h[..HeaderSize - 1] == HeaderFields(p, sequenceId)
    ensures h[HeaderSize - 1] == ByteSum(h[..HeaderSize - 1]) % 0x100
  {
    var fields := HeaderFields(p, sequenceId);
    assert (fields + [ByteSum(fields) % 0x100])[..HeaderSize - 1] == fields;
    fields + [ByteSum(fields) % 0x100]
  }

  /**
   * The header layout: the magic bytes, the four 16-bit fields big-endian,
   * the data checksum big-endian, the length, ACK and sequence bytes, and the
   * sum of the fifteen bytes before it, which includes the checksum bytes.
   */
  lemma HeaderLayout(p: RawPacket, sequenceId: int)
    ensures var h := Header(p, sequenceId);
      h[0] == 0x54 && h[1] == 0xFD &&
      h[2] == HighByte(p.SourceAddress) && h[3] == LowByte(p.SourceAddress) &&
      h[4] == HighByte(p.SourceServiceId) && h[5] == LowByte(p.SourceServiceId) &&
      h[6] == HighByte(p.DestinationAddress) && h[7] == LowByte(p.DestinationAddress) &&
      h[8] == HighByte(p.DestinationServiceId) && h[9] == LowByte(p.DestinationServiceId) &&
      h[10] == HighByte(ChecksumValue(p.Data)) && h[11] == LowByte(ChecksumValue(p.Data)) &&
      h[12] == |p.Data| % 0x100 && h[13] == p.Ack % 0x100 && h[14] == sequenceId % 0x100 &&
      h[15] == ByteSum(h[..15]) % 0x100
  {
    var h := Header(p, sequenceId);
    var fields := HeaderFields(p, sequenceId);
    assert forall i :: 0 <= i < HeaderSize - 1 ==> h[i] == fields[i] by {
      assert h[..HeaderSize - 1] == fields;
    }
  }

  /** The wire form of `p` sent with `sequenceId`: the header, then the payload verbatim. */
  function Encode(p: RawPacket, sequenceId: int): (wire: seq<Byte>)
    ensures |wire| == HeaderSize + |p.Data|
    ensures wire[..HeaderSize] == Header(p, sequenceId)
    ensures wire[HeaderSize..] == p.Data
  {
    Header(p, sequenceId) + p.Data
  }

  /** Bytes 10 and 11 carry the whole data checksum, big-endian. */
  lemma EncodedChecksum(p: RawPacket, sequenceId: int)
    ensures var h := Header(p, sequenceId); Word(h[10], h[11]) == ChecksumValue(p.Data)
  {
    HeaderLayout(p, sequenceId);
    WordSplit(ChecksumValue(p.Data));
  }

  /** Sums modulo 256 can be reduced at every step (a helper for the header-sum loop). */
  lemma ModAddByte(a: int, b: int)
    ensures (a % 0x100 + b) % 0x100 == (a + b) % 0x100
  {
  }

  /**
   * The first block of stores of the encoder: the magic bytes, the four
   * 16-bit fields, the length, the ACK and the sequence, each a Uint8Array
   * store of the value the source computes. Bytes 10, 11 and 15 are left alone.
   */
  method StoreFields(ret: array<Byte>, p: RawPacket, sequenceId: int)
    requires ret.Length >= HeaderSize
    modifies ret
    ensures ret[0] == Magic0 && ret[1] == Magic1
    ensures ret[2] == HighByte(p.SourceAddress) && ret[3] == LowByte(p.SourceAddress)
    ensures ret[4] == HighByte(p.SourceServiceId) && ret[5] == LowByte(p.SourceServiceId)
    ensures ret[6] == HighByte(p.DestinationAddress) && ret[7] == LowByte(p.DestinationAddress)
    ensures ret[8] == HighByte(p.DestinationServiceId) && ret[9] == LowByte(p.DestinationServiceId)
    ensures ret[12] == |p.Data| % 0x100 && ret[13] == p.Ack % 0x100 && ret[14] == sequenceId % 0x100
    ensures forall k :: 0 <= k < ret.Length && (k == 10 || k == 11 || k >= HeaderSize - 1) ==> ret[k] == old(ret[k])
  {
    ret[0] := Magic0;
    ret[1] := Magic1;
    ret[2] := HighByte(p.SourceAddress);
    ret[3] := LowByte(p.SourceAddress);
    ret[4] := HighByte(p.SourceServiceId);
    ret[5] := LowByte(p.SourceServiceId);
    ret[6] := HighByte(p.DestinationAddress);
    ret[7] := LowByte(p.DestinationAddress);
    ret[8] := HighByte(p.DestinationServiceId);
    ret[9] := LowByte(p.DestinationServiceId);
    ret[12] := |p.Data| % 0x100;
    ret[13] := p.Ack % 0x100;
    ret[14] := sequenceId % 0x100;
  }

  /**
   * The header-sum loop: byte 15 (zero beforehand) accumulates bytes 0 to 14
   * with `+=`, each store keeping the running sum modulo 256.
   */
  method SumHeader(ret: array<Byte>)
    requires ret.Length >= HeaderSize && ret[HeaderSize - 1] == 0
    modifies ret
    ensures ret[..HeaderSize - 1] == old(ret[..HeaderSize - 1]) && ret[HeaderSize..] == old(ret[HeaderSize..])
    ensures ret[HeaderSize - 1] == ByteSum(ret[..HeaderSize - 1]) % 0x100
  {
    ghost var fields := ret[..HeaderSize - 1];
    var i := 0;
    while i < HeaderSize - 1
      invariant 0 <= i <= HeaderSize - 1
      invariant ret[..HeaderSize - 1] == fields && ret[HeaderSize..] == old(ret[HeaderSize..])
      invariant ret[HeaderSize - 1] == ByteSum(fields[..i]) % 0x100
    {
      ModAddByte(ByteSum(fields[..i]), ret[i]);
      ret[HeaderSize - 1] := (ret[HeaderSize - 1] as int + ret[i]) % 0x100;
      assert fields[..i + 1][..i] == fields[..i];
      i := i + 1;
    }
    assert fields[..HeaderSize - 1] == fields;
  }

  /** The payload loop: bytes 16 onwards become the payload, in order. */
  method CopyPayload(ret: array<Byte>, data: seq<Byte>)
    requires ret.Length == HeaderSize + |data|
    modifies ret
    ensures ret[..HeaderSize] == old(ret[..HeaderSize])
    ensures ret[HeaderSize..] == data
  {
    var i := 0;
    while i < |data|
      invariant 0 <= i <= |data|
      invariant ret[..HeaderSize] == old(ret[..HeaderSize])
      invariant ret[HeaderSize..HeaderSize + i] == data[..i]
    {
      ret[HeaderSize + i] := data[i];
      i := i + 1;
    }
    assert ret[HeaderSize..] == ret[HeaderSize..HeaderSize + |data|];
    assert data[..|data|] == data;
  }

  /**
   * The source's imperative encoder: a zero-filled buffer, the field stores,
   * the two checksum bytes, the header sum, then the payload.
   */
  method GetRawData(p: RawPacket, sequenceId: int) returns (wire: seq<Byte>)
    ensures wire == Encode(p, sequenceId)
  {
    var ret := new Byte[HeaderSize + |p.Data|];
    ret[HeaderSize - 1] := 0;  // a fresh Uint8Array is zero-filled; only byte 15 is read before it is written
    StoreFields(ret, p, sequenceId);

    var checksum := GetDataChecksum(p.Data);
    ret[10] := HighByte(checksum);
    ret[11] := LowByte(checksum);
    ghost var fields := ret[..HeaderSize - 1];
    assert fields == HeaderFields(p, sequenceId);

    SumHeader(ret);
    ghost var header := ret[..HeaderSize];
    assert header == fields + [ByteSum(fields) % 0x100];
    CopyPayload(ret, p.Data);
    wire := ret[..];
    assert wire[..HeaderSize] == header;
    assert wire == wire[..HeaderSize] + wire[HeaderSize..];
  }

  // ---------------------------------------------------------------------------
  // Decoding (fromHeaderAndData)
  // ---------------------------------------------------------------------------

  /**
   * Rebuilds a packet from a 16-byte header and a payload. Nothing is
   * validated: the magic bytes, both checksums and the length byte are
   * ignored, and the payload is taken exactly as given.
   */
  function FromHeaderAndData(header: seq<Byte>, data: seq<Byte>): (p: RawPacket)
    requires |header| == HeaderSize
    ensures FitsWire(p)
    ensures HighByte(p.SourceAddress) == header[2] && LowByte(p.SourceAddress) == header[3]
    ensures HighByte(p.SourceServiceId) == header[4] && LowByte(p.SourceServiceId) == header[5]
    ensures HighByte(p.DestinationAddress) == header[6] && LowByte(p.DestinationAddress) == header[7]
    ensures HighByte(p.DestinationServiceId) == header[8] && LowByte(p.DestinationServiceId) == header[9]
    ensures p.Ack == header[13] && p.Sequence == header[14] && p.Data == data
  {
    RawPacket(Word(header[2], header[3]), Word(header[4], header[5]),
              Word(header[6], header[7]), Word(header[8], header[9]),
              header[13], header[14], data)
  }

  /** Decoding reads only bytes 2 to 9, 13 and 14 of the header. */
  lemma DecodeReadsOnlyFields(h1: seq<Byte>, h2: seq<Byte>, data: seq<Byte>)
    requires |h1| == HeaderSize && |h2| == HeaderSize
    requires forall i :: 2 <= i < 10 || i == 13 || i == 14 ==> h1[i] == h2[i]
    ensures FromHeaderAndData(h1, data) == FromHeaderAndData(h2, data)
  {
    assert h1[2] == h2[2] && h1[3] == h2[3] && h1[4] == h2[4] && h1[5] == h2[5];
    assert h1[6] == h2[6] && h1[7] == h2[7] && h1[8] == h2[8] && h1[9] == h2[9];
    assert h1[13] == h2[13] && h1[14] == h2[14];
  }

  /**
   * Round trip: decoding an encoded packet gives back every field, with the
   * sequence reduced to the byte that was sent.
   */
  lemma {:induction false} RoundTrip(p: RawPacket, sequenceId: int)
    requires FitsWire(p)
    ensures var wire := Encode(p, sequenceId);
            FromHeaderAndData(wire[..HeaderSize], wire[HeaderSize..]) == p.(Sequence := sequenceId % 0x100)
  {
    HeaderLayout(p, sequenceId);
    WordSplit(p.SourceAddress);
    WordSplit(p.SourceServiceId);
    WordSplit(p.DestinationAddress);
    WordSplit(p.DestinationServiceId);
  }

  /** The length byte describes the payload exactly when the payload has at most 255 bytes. */
  lemma LengthByteExact(p: RawPacket, sequenceId: int)
    ensures Header(p, sequenceId)[12] == |p.Data| <==> |p.Data| <= 0xFF
  {
    HeaderLayout(p, sequenceId);
  }
}
