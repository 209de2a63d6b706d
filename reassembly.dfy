/**
 * What one call of the stream reassembler does (NspireService._TryConstructPacket
 * in NavNet/NspireService.ts), stated on values: bytes move from the FIFO into
 * a header buffer of up to 16 bytes, then into a data buffer of header[12]
 * bytes, and a complete frame is handed on. At most one frame leaves per call.
 */
module Reassembly {
  import opened Wrappers
  import opened RawPackets

  /** The reassembler's three byte buffers: header, data and the FIFO behind them. */
  datatype Buffers = Buffers(header: seq<Byte>, data: seq<Byte>, queue: seq<Byte>)

  /** A complete packet as it left the buffers: its header bytes and its data bytes. */
  datatype Frame = Frame(header: seq<Byte>, data: seq<Byte>)

  /** The buffers after one call, and the frame handed to the dispatcher, if any. */
  datatype Extracted = Extracted(rest: Buffers, frame: Option<Frame>)

  /** All buffered bytes, in arrival order. */
  function Pending(b: Buffers): seq<Byte>
  {
    b.header + b.data + b.queue
  }

  /**
   * The shape of the buffers between two calls: the header holds at most 16
   * bytes, the data buffer stays empty until the header is complete, and then
   * holds fewer bytes than the header's length byte asks for (a full packet
   * would have been handed on).
   */
  predicate AtRest(b: Buffers)
  {
    |b.header| <= HeaderSize &&
    (|b.header| < HeaderSize ==> b.data == []) &&
    (|b.header| == HeaderSize ==> |b.data| < b.header[12])
  }

  /** A frame whose data length is the one its header declares. */
  predicate Complete(f: Frame)
  {
    |f.header| == HeaderSize && |f.data| == f.header[12]
  }

  /** The bytes of a frame, header first. */
  function FrameBytes(f: Frame): seq<Byte>
  {
    f.header + f.data
  }

  /** The bytes of a sequence of frames, in order. */
  function AllFrameBytes(fs: seq<Frame>): seq<Byte>
  {
    if fs == [] then [] else AllFrameBytes(fs[..|fs| - 1]) + FrameBytes(fs[|fs| - 1])
  }

  /** One more frame adds its bytes at the end. */
  lemma {:induction false} AllFrameBytesSnoc(fs: seq<Frame>, f: Frame)
    ensures AllFrameBytes(fs + [f]) == AllFrameBytes(fs) + FrameBytes(f)
  {
    assert (fs + [f])[..|fs|] == fs;
  }

  function Min(a: int, b: int): int
  {
    if a <= b then a else b
  }

  /**
   * The first loop: move bytes from the FIFO into the header buffer until it
   * holds 16 bytes or the FIFO is empty.
   */
  function FillHeader(b: Buffers): (r: Buffers)
    requires AtRest(b)
    ensures Pending(r) == Pending(b) && r.data == b.data
    ensures |b.header| <= |r.header| <= HeaderSize && r.header[..|b.header|] == b.header
    ensures |r.header| < HeaderSize ==> r.queue == [] && r.data == []
    ensures |b.header| == HeaderSize ==> r == b
  {
    var take := Min(HeaderSize - |b.header|, |b.queue|);
    assert b.queue == b.queue[..take] + b.queue[take..];
    Buffers(b.header + b.queue[..take], b.data, b.queue[take..])
  }

  /**
   * The second loop, once the header is complete: move bytes from the FIFO
   * into the data buffer until it holds header[12] bytes or the FIFO is empty.
   */
  function FillData(b: Buffers): (r: Buffers)
    requires |b.header| == HeaderSize && |b.data| <= b.header[12]
    ensures Pending(r) == Pending(b) && r.header == b.header
    ensures |b.data| <= |r.data| <= b.header[12] && r.data[..|b.data|] == b.data
    ensures |r.data| < b.header[12] ==> r.queue == []
  {
    var take := Min(b.header[12] - |b.data|, |b.queue|);
    assert b.queue == b.queue[..take] + b.queue[take..];
    Buffers(b.header, b.data + b.queue[..take], b.queue[take..])
  }

  /**
   * One extraction attempt: fill the header, then, once it is complete, the
   * data; a full packet empties both buffers and is handed on, and leftover
   * bytes stay queued.
   */
  function Extract(b: Buffers): Extracted
    requires AtRest(b)
  {
    var h := FillHeader(b);
    if |h.header| < HeaderSize then
      Extracted(h, None)
    else
      var d := FillData(h);
      if |d.data| >= d.header[12] then
        Extracted(Buffers([], [], d.queue), Some(Frame(d.header, d.data)))
      else
        Extracted(d, None)
  }

  /**
   * What an extraction guarantees: the buffers are at rest again, no byte is
   * lost, duplicated or reordered, a frame handed on is complete and leaves
   * both buffers empty, and when no frame is handed on the FIFO is drained.
   */
  lemma ExtractConserves(b: Buffers)
    requires AtRest(b)
    ensures var r := Extract(b);
      AtRest(r.rest) &&
      Pending(b) == (if r.frame.Some? then FrameBytes(r.frame.value) else []) + Pending(r.rest) &&
      (r.frame.Some? ==> Complete(r.frame.value) && r.rest.header == [] && r.rest.data == []) &&
      (r.frame.None? ==> r.rest.queue == [])
  {
    var h := FillHeader(b);
    var r := Extract(b);
    if |h.header| < HeaderSize {
      assert r == Extracted(h, None);
    } else {
      var d := FillData(h);
      if |d.data| >= d.header[12] {
        var f := Frame(d.header, d.data);
        assert r == Extracted(Buffers([], [], d.queue), Some(f));
        assert Pending(Buffers([], [], d.queue)) == d.queue;
        assert Pending(d) == FrameBytes(f) + d.queue;
      } else {
        assert r == Extracted(d, None);
      }
    }
  }

  /**
   * The reassembler's bookkeeping: the buffers are at rest, every frame
   * handed on is complete, and the bytes received are exactly those frames
   * followed by the buffered bytes, in arrival order.
   */
  predicate Accounted(fed: seq<Byte>, frames: seq<Frame>, b: Buffers)
  {
    AtRest(b) && (forall f :: f in frames ==> Complete(f)) && fed == AllFrameBytes(frames) + Pending(b)
  }

  /** Received bytes join the FIFO without disturbing the bookkeeping. */
  lemma EnqueueKeepsAccount(fed: seq<Byte>, frames: seq<Frame>, b: Buffers, bytes: seq<Byte>)
    requires Accounted(fed, frames, b)
    ensures Accounted(fed + bytes, frames, b.(queue := b.queue + bytes))
  {
    assert Pending(b.(queue := b.queue + bytes)) == Pending(b) + bytes;
  }

  /** An extraction keeps the bookkeeping, counting the frame it hands on, if any. */
  lemma {:induction false} ExtractKeepsAccount(fed: seq<Byte>, frames: seq<Frame>, b: Buffers)
    requires Accounted(fed, frames, b)
    ensures var x := Extract(b);
      Accounted(fed, frames + (if x.frame.Some? then [x.frame.value] else []), x.rest)
  {
    var x := Extract(b);
    ExtractConserves(b);
    if x.frame.Some? {
      FrameKeepsAccount(fed, frames, b, x.frame.value, x.rest);
    } else {
      assert frames + [] == frames;
      assert Pending(b) == Pending(x.rest);
    }
  }

  /** Handing on a complete frame from the front of the buffered bytes keeps the bookkeeping. */
  lemma {:induction false} FrameKeepsAccount(fed: seq<Byte>, frames: seq<Frame>, b: Buffers, f: Frame, rest: Buffers)
    requires Accounted(fed, frames, b) && Complete(f) && AtRest(rest)
    requires Pending(b) == FrameBytes(f) + Pending(rest)
    ensures Accounted(fed, frames + [f], rest)
  {
    AllFrameBytesSnoc(frames, f);
    assert fed == AllFrameBytes(frames) + FrameBytes(f) + Pending(rest);
  }

  /** Idle buffers: nothing buffered, nothing queued. */
  const Idle := Buffers([], [], [])

  /** A byte string that is exactly one frame: a 16-byte header, then header[12] data bytes. */
  predicate OneFrame(wire: seq<Byte>)
  {
    |wire| >= HeaderSize && |wire| == HeaderSize + wire[12]
  }

  /** The buffers at rest after the first `k` bytes of a frame have arrived. */
  function Holding(wire: seq<Byte>, k: nat): (b: Buffers)
    requires OneFrame(wire) && k < |wire|
    ensures AtRest(b) && Pending(b) == wire[..k]
  {
    if k <= HeaderSize then Buffers(wire[..k], [], [])
    else
      assert wire[..k] == wire[..HeaderSize] + wire[HeaderSize..k];
      Buffers(wire[..HeaderSize], wire[HeaderSize..k], [])
  }

  /** A FIFO that fits in what the header still lacks is moved into it whole. */
  lemma FillHeaderAll(h: seq<Byte>, q: seq<Byte>)
    requires AtRest(Buffers(h, [], q)) && |h| + |q| <= HeaderSize
    ensures FillHeader(Buffers(h, [], q)) == Buffers(h + q, [], [])
  {
    assert q[..|q|] == q;
  }

  /** A FIFO that reaches past the header's end is split there. */
  lemma FillHeaderSplit(h: seq<Byte>, q: seq<Byte>)
    requires AtRest(Buffers(h, [], q)) && HeaderSize <= |h| + |q|
    ensures FillHeader(Buffers(h, [], q)) == Buffers(h + q[..HeaderSize - |h|], [], q[HeaderSize - |h|..])
  {
  }

  /** A FIFO that fits in what the payload still lacks is moved into it whole. */
  lemma FillDataAll(h: seq<Byte>, d: seq<Byte>, q: seq<Byte>)
    requires |h| == HeaderSize && |d| + |q| <= h[12]
    ensures FillData(Buffers(h, d, q)) == Buffers(h, d + q, [])
  {
    assert q[..|q|] == q;
  }

  /** A FIFO that reaches past the payload's end is split there. */
  lemma FillDataSplit(h: seq<Byte>, d: seq<Byte>, q: seq<Byte>)
    requires |h| == HeaderSize && |d| <= h[12] <= |d| + |q|
    ensures FillData(Buffers(h, d, q)) == Buffers(h, d + q[..h[12] - |d|], q[h[12] - |d|..])
  {
  }

  /**
   * A chunk that does not finish the frame is absorbed: nothing is handed on
   * and the buffers then hold every byte that has arrived.
   */
  lemma ChunkAbsorbed(wire: seq<Byte>, j: nat, k: nat)
    requires OneFrame(wire) && j <= k < |wire|
    ensures Extract(Holding(wire, j).(queue := wire[j..k])) == Extracted(Holding(wire, k), None)
  {
    if k <= HeaderSize {
      AbsorbedInHeader(wire, j, k);
    } else if j <= HeaderSize {
      AbsorbedAcrossHeader(wire, j, k);
    } else {
      AbsorbedInData(wire, j, k);
    }
  }

  /** ChunkAbsorbed when the header is still incomplete or just completed. */
  lemma AbsorbedInHeader(wire: seq<Byte>, j: nat, k: nat)
    requires OneFrame(wire) && j <= k <= HeaderSize && k < |wire|
    ensures Extract(Holding(wire, j).(queue := wire[j..k])) == Extracted(Buffers(wire[..k], [], []), None)
  {
    assert Holding(wire, j).(queue := wire[j..k]) == Buffers(wire[..j], [], wire[j..k]);
    FillHeaderAll(wire[..j], wire[j..k]);
    assert wire[..j] + wire[j..k] == wire[..k];
    if k == HeaderSize {
      FillDataAll(wire[..k], [], []);
    }
  }

  /** ChunkAbsorbed when the chunk completes the header and starts the data. */
  lemma AbsorbedAcrossHeader(wire: seq<Byte>, j: nat, k: nat)
    requires OneFrame(wire) && j <= HeaderSize < k < |wire|
    ensures Extract(Holding(wire, j).(queue := wire[j..k]))
         == Extracted(Buffers(wire[..HeaderSize], wire[HeaderSize..k], []), None)
  {
    var q := wire[j..k];
    assert Holding(wire, j).(queue := q) == Buffers(wire[..j], [], q);
    FillHeaderSplit(wire[..j], q);
    assert q[..HeaderSize - j] == wire[j..HeaderSize];
    assert wire[..j] + wire[j..HeaderSize] == wire[..HeaderSize];
    assert q[HeaderSize - j..] == wire[HeaderSize..k];
    FillDataAll(wire[..HeaderSize], [], wire[HeaderSize..k]);
    assert [] + wire[HeaderSize..k] == wire[HeaderSize..k];
  }

  /** ChunkAbsorbed when the header was already complete. */
  lemma AbsorbedInData(wire: seq<Byte>, j: nat, k: nat)
    requires OneFrame(wire) && HeaderSize < j <= k < |wire|
    ensures Extract(Holding(wire, j).(queue := wire[j..k]))
         == Extracted(Buffers(wire[..HeaderSize], wire[HeaderSize..k], []), None)
  {
    var b := Buffers(wire[..HeaderSize], wire[HeaderSize..j], wire[j..k]);
    assert Holding(wire, j).(queue := wire[j..k]) == b;
    FillDataAll(wire[..HeaderSize], wire[HeaderSize..j], wire[j..k]);
    assert wire[HeaderSize..j] + wire[j..k] == wire[HeaderSize..k];
  }

  /**
   * The chunk that brings the frame's last byte hands on exactly that frame,
   * however the earlier bytes were split; whatever follows it stays queued.
   */
  lemma ChunkCompletes(wire: seq<Byte>, j: nat, rest: seq<Byte>)
    requires OneFrame(wire) && j < |wire|
    ensures Extract(Holding(wire, j).(queue := wire[j..] + rest))
         == Extracted(Buffers([], [], rest), Some(Frame(wire[..HeaderSize], wire[HeaderSize..])))
  {
    if j <= HeaderSize {
      CompletedFromHeader(wire, j, rest);
    } else {
      CompletedFromData(wire, j, rest);
    }
  }

  /** ChunkCompletes when the header was not yet complete. */
  lemma CompletedFromHeader(wire: seq<Byte>, j: nat, rest: seq<Byte>)
    requires OneFrame(wire) && j <= HeaderSize && j < |wire|
    ensures Extract(Holding(wire, j).(queue := wire[j..] + rest))
         == Extracted(Buffers([], [], rest), Some(Frame(wire[..HeaderSize], wire[HeaderSize..])))
  {
    var q := wire[j..] + rest;
    var q2 := wire[HeaderSize..] + rest;
    assert Holding(wire, j).(queue := q) == Buffers(wire[..j], [], q);
    FillHeaderSplit(wire[..j], q);
    assert wire[..j] + q[..HeaderSize - j] == wire[..HeaderSize];
    assert q[HeaderSize - j..] == q2;
    FillDataSplit(wire[..HeaderSize], [], q2);
    assert [] + q2[..wire[12]] == wire[HeaderSize..];
    assert q2[wire[12]..] == rest;
  }

  /** ChunkCompletes when the header was already complete. */
  lemma CompletedFromData(wire: seq<Byte>, j: nat, rest: seq<Byte>)
    requires OneFrame(wire) && HeaderSize < j < |wire|
    ensures Extract(Holding(wire, j).(queue := wire[j..] + rest))
         == Extracted(Buffers([], [], rest), Some(Frame(wire[..HeaderSize], wire[HeaderSize..])))
  {
    var q := wire[j..] + rest;
    assert Holding(wire, j).(queue := q) == Buffers(wire[..HeaderSize], wire[HeaderSize..j], q);
    FillDataSplit(wire[..HeaderSize], wire[HeaderSize..j], q);
    assert q[..|wire| - j] == wire[j..];
    assert q[|wire| - j..] == rest;
    assert wire[HeaderSize..j] + wire[j..] == wire[HeaderSize..];
  }

  /** An encoded packet whose payload fits the length byte is exactly one frame. */
  lemma EncodedIsOneFrame(p: RawPacket, sequenceId: int)
    requires |p.Data| <= 0xFF
    ensures OneFrame(Encode(p, sequenceId))
  {
    HeaderLayout(p, sequenceId);
  }

  /**
   * Feeding an encoded packet into idle buffers hands on that packet: the
   * frame decodes to every field of the original, with the sequence byte
   * that was sent, and anything fed after it stays queued.
   */
  lemma {:induction false} ExtractEncoded(p: RawPacket, sequenceId: int, rest: seq<Byte>)
    requires FitsWire(p) && |p.Data| <= 0xFF
    ensures var r := Extract(Idle.(queue := Encode(p, sequenceId) + rest));
            r.rest == Idle.(queue := rest) && r.frame.Some? &&
            FromHeaderAndData(r.frame.value.header, r.frame.value.data) == p.(Sequence := sequenceId % 0x100)
  {
    var wire := Encode(p, sequenceId);
    EncodedIsOneFrame(p, sequenceId);
    ChunkCompletes(wire, 0, rest);
    assert Holding(wire, 0) == Idle;
    assert wire[0..] == wire;
    RoundTrip(p, sequenceId);
  }
}
