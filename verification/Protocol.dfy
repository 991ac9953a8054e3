/**
 Wire format (wraith-go/pkg/transport/protocol.go): frames, the data-block layout inside a
 frame, and the connection they travel on.  A byte stream is a finite sequence; reading
 past its end is the closed connection.
 */
module Protocol {
  import opened Wrappers
  import opened Words
  import opened Blocks

  const MSG_HANDSHAKE: u32 := 0x01
  const MSG_READY_ACK: u32 := 0x02
  const MSG_DATA_BLOCK: u32 := 0x03
  const MSG_COMPLETE: u32 := 0x04
  const MSG_ERROR: u32 := 0xFF
  const PAGE_SIZE: nat := 4096
  const BLOCK_HEADER: nat := 20

  // ---------- Frames ----------

  datatype Frame = Frame(typ: u32, payload: seq<byte>)

  predicate Carriable(f: Frame) { |f.payload| < TWO_32 }

  // The length field holds the low 32 bits of the payload length.
  function EncodeFrame(f: Frame): (s: seq<byte>)
    ensures |s| == 8 + |f.payload|
  {
    BigEndian(f.typ, 4) + BigEndian(Wrap32(|f.payload|), 4) + f.payload
  }

  datatype ReadError = TypeCut | LengthCut | PayloadCut

  /** A frame and what is left of the stream. */
  datatype Parsed = Parsed(frame: Frame, rest: seq<byte>)

  function ReadFrame(s: seq<byte>): (r: Result<Parsed, ReadError>)
    ensures r.Success? ==> |r.value.rest| + 8 + |r.value.frame.payload| == |s|
  {
    if |s| < 4 then Failure(TypeCut)
    else if |s| < 8 then Failure(LengthCut)
    else
      FromBigEndianBound(s[..4]);
      FromBigEndianBound(s[4..8]);
      assert Pow256(4) == TWO_32;
      var len: u32 := FromBigEndian(s[4..8]);
      if |s| < 8 + len then Failure(PayloadCut)
      else Success(Parsed(Frame(FromBigEndian(s[..4]), s[8..8 + len]), s[8 + len..]))
  }

  lemma ReadFrameHeader(f: Frame, s: seq<byte>)
    requires |s| >= 8 && s[..8] == EncodeFrame(f)[..8]
    ensures FromBigEndian(s[..4]) == f.typ && FromBigEndian(s[4..8]) == Wrap32(|f.payload|)
  {
    var e := EncodeFrame(f);
    assert s[..4] == s[..8][..4] == e[..4] == BigEndian(f.typ, 4);
    assert s[4..8] == s[..8][4..] == e[4..8] == BigEndian(Wrap32(|f.payload|), 4);
    Bytes4(f.typ);
    Bytes4(Wrap32(|f.payload|));
  }

  /** Reading back an encoded frame recovers it and consumes it exactly when its length fits the length field. */
  lemma FrameRoundTrip(f: Frame, rest: seq<byte>)
    ensures ReadFrame(EncodeFrame(f) + rest) == Success(Parsed(f, rest)) <==> Carriable(f)
  {
    var e := EncodeFrame(f);
    var s := e + rest;
    assert s[..8] == e[..8];
    ReadFrameHeader(f, s);
    if Carriable(f) {
      assert s[8..8 + |f.payload|] == f.payload;
      assert s[8 + |f.payload|..] == rest;
    } else {
      assert Wrap32(|f.payload|) < TWO_32 <= |f.payload|;
    }
  }

  /** A frame cut anywhere before its end cannot be read. */
  lemma CutFrameUnreadable(f: Frame, cut: seq<byte>)
    requires Carriable(f) && cut < EncodeFrame(f)
    ensures ReadFrame(cut) == Failure(if |cut| < 4 then TypeCut else if |cut| < 8 then LengthCut else PayloadCut)
  {
    if |cut| >= 8 {
      assert cut[..8] == EncodeFrame(f)[..8];
      ReadFrameHeader(f, cut);
    }
  }

  function EncodeFrames(fs: seq<Frame>): seq<byte> {
    if fs == [] then [] else EncodeFrame(fs[0]) + EncodeFrames(fs[1..])
  }

  /** Reads frames until the stream ends or cannot be read. */
  function ReadFrames(s: seq<byte>): Option<seq<Frame>>
    decreases |s|
  {
    if s == [] then Some([])
    else match ReadFrame(s)
      case Failure(_) => None
      case Success(Parsed(f, rest)) =>
        match ReadFrames(rest)
        case None => None
        case Some(fs) => Some([f] + fs)
  }

  /** The frame stream is self-delimiting. */
  lemma {:induction false} StreamRoundTrip(fs: seq<Frame>)
    requires forall i | 0 <= i < |fs| :: Carriable(fs[i])
    ensures ReadFrames(EncodeFrames(fs)) == Some(fs)
  {
    if fs != [] {
      var s := EncodeFrame(fs[0]) + EncodeFrames(fs[1..]);
      StreamRoundTrip(fs[1..]);
      FrameRoundTrip(fs[0], EncodeFrames(fs[1..]));
      assert EncodeFrames(fs) == s && s != [];
      assert fs == [fs[0]] + fs[1..];
    }
  }

  lemma {:induction false} EncodeFramesConcat(a: seq<Frame>, b: seq<Frame>)
    ensures EncodeFrames(a + b) == EncodeFrames(a) + EncodeFrames(b)
  {
    hide EncodeFrame;
    if a == [] {
      assert a + b == b;
    } else {
      EncodeFramesConcat(a[1..], b);
      assert (a + b)[1..] == a[1..] + b;
    }
  }

  // ---------- Data blocks ----------

  function BlockPayload(b: DataBlock): (s: seq<byte>)
    ensures |s| == BLOCK_HEADER + |b.data|
  {
    BigEndian(b.offset, 8) + BigEndian(b.checksum, 8) + BigEndian(Wrap32(|b.data|), 4) + b.data
  }

  function BlockFrame(b: DataBlock): Frame { Frame(MSG_DATA_BLOCK, BlockPayload(b)) }

  // SliceFault is Go's run-time panic for slice bounds out of range.
  datatype BlockRead = Block(block: DataBlock) | TooShort | Truncated | SliceFault

  // The end of the data within the payload is a 32-bit sum.
  function ReadBlock(payload: seq<byte>): BlockRead {
    if |payload| < BLOCK_HEADER then TooShort
    else
      FromBigEndianBound(payload[..8]);
      FromBigEndianBound(payload[8..16]);
      FromBigEndianBound(payload[16..20]);
      assert Pow256(8) == TWO_64 && Pow256(4) == TWO_32;
      var dataLen: u32 := FromBigEndian(payload[16..20]);
      var hi := Wrap32(BLOCK_HEADER + dataLen);
      if dataLen > |payload| - BLOCK_HEADER then Truncated
      else if hi < BLOCK_HEADER then SliceFault
      else Block(DataBlock(FromBigEndian(payload[..8]), FromBigEndian(payload[8..16]), payload[BLOCK_HEADER..hi]))
  }

  lemma BlockHeader(b: DataBlock)
    ensures var p := BlockPayload(b);
            FromBigEndian(p[..8]) == b.offset && FromBigEndian(p[8..16]) == b.checksum
            && FromBigEndian(p[16..20]) == Wrap32(|b.data|) && p[20..] == b.data
  {
    var p := BlockPayload(b);
    assert p[..8] == BigEndian(b.offset, 8);
    assert p[8..16] == BigEndian(b.checksum, 8);
    assert p[16..20] == BigEndian(Wrap32(|b.data|), 4);
    Bytes8(b.offset);
    Bytes8(b.checksum);
    Bytes4(Wrap32(|b.data|));
  }

  /** A block survives its payload exactly when header and data together stay below 2^32 bytes. */
  lemma BlockRoundTrip(b: DataBlock)
    ensures ReadBlock(BlockPayload(b)) == Block(b) <==> |b.data| <= TWO_32 - 21
  {
    BlockHeader(b);
  }

  /** The uint32 sum 20+dataLen wraps only for payloads that no frame can carry. */
  lemma NoSliceFaultInFrames(payload: seq<byte>)
    requires |payload| < TWO_32
    ensures ReadBlock(payload) != SliceFault
    ensures ReadBlock(payload).Block? <==>
            |payload| >= BLOCK_HEADER && BLOCK_HEADER + FromBigEndian(payload[16..20]) <= |payload|
    ensures ReadBlock(payload) == TooShort <==> |payload| < BLOCK_HEADER
  {
    if |payload| >= BLOCK_HEADER {
      FromBigEndianBound(payload[16..20]);
      assert Pow256(4) == TWO_32;
    }
  }

  /** A block frame is carriable exactly when its block survives the trip. */
  lemma BlockFrameRoundTrip(b: DataBlock, rest: seq<byte>)
    requires |b.data| <= TWO_32 - 21
    ensures Carriable(BlockFrame(b))
    ensures ReadFrame(EncodeFrame(BlockFrame(b)) + rest) == Success(Parsed(BlockFrame(b), rest))
    ensures ReadBlock(BlockFrame(b).payload) == Block(b)
  {
    FrameRoundTrip(BlockFrame(b), rest);
    BlockRoundTrip(b);
  }

  lemma OffsetBytes()
    ensures BigEndian(0x0102030405060708, 8) == [1, 2, 3, 4, 5, 6, 7, 8]
  {
    EightBytes(1, 2, 3, 4, 5, 6, 7, 8);
  }

  lemma ChecksumBytes()
    ensures BigEndian(0x1112131415161718, 8) == [0x11, 0x12, 0x13, 0x14, 0x15, 0x16, 0x17, 0x18]
  {
    EightBytes(0x11, 0x12, 0x13, 0x14, 0x15, 0x16, 0x17, 0x18);
  }

  /** A block on the wire, byte by byte: type, payload length, offset, checksum, data length, data. */
  lemma BlockOnTheWire()
    ensures EncodeFrame(BlockFrame(DataBlock(0x0102030405060708, 0x1112131415161718, [7, 9]))) ==
            [0, 0, 0, 3] + [0, 0, 0, 22]
            + ([1, 2, 3, 4, 5, 6, 7, 8] + [0x11, 0x12, 0x13, 0x14, 0x15, 0x16, 0x17, 0x18] + [0, 0, 0, 2] + [7, 9])
  {
    OffsetBytes();
    ChecksumBytes();
    SmallNumber(2);
    SmallNumber(3);
    SmallNumber(22);
    assert Wrap32(2) == 2 && Wrap32(22) == 22;
    hide BigEndian, Wrap32;
  }

  lemma SmallNumber(n: byte)
    ensures BigEndian(n, 4) == [0, 0, 0, n]
  {
    assert BigEndian(n, 4) == BigEndian(0, 3) + [n] && BigEndian(0, 3) == BigEndian(0, 2) + [0];
    assert BigEndian(0, 2) == BigEndian(0, 1) + [0] && BigEndian(0, 1) == BigEndian(0, 0) + [0];
  }

  lemma EightBytes(a: byte, b: byte, c: byte, d: byte, e: byte, f: byte, g: byte, h: byte)
    ensures BigEndian(((((((a * 256 + b) * 256 + c) * 256 + d) * 256 + e) * 256 + f) * 256 + g) * 256 + h, 8)
         == [a, b, c, d, e, f, g, h]
  {
    var n2: nat := a * 256 + b;
    var n3: nat := n2 * 256 + c;
    var n4: nat := n3 * 256 + d;
    LastByte(a, 0, 0);
    LastByte(b, a, 1);
    LastByte(c, n2, 2);
    LastByte(d, n3, 3);
    hide BigEndian;
    assert BigEndian(0, 0) == [] ==> BigEndian(n4, 4) == [a, b, c, d];
    NoBytes();
    FourMore(n4, e, f, g, h);
  }

  lemma NoBytes()
    ensures BigEndian(0, 0) == []
  {
  }

  lemma FourMore(n: nat, e: byte, f: byte, g: byte, h: byte)
    ensures BigEndian((((n * 256 + e) * 256 + f) * 256 + g) * 256 + h, 8) == BigEndian(n, 4) + [e, f, g, h]
  {
    TwoMore(n, e, f, 4);
    TwoMore((n * 256 + e) * 256 + f, g, h, 6);
    hide BigEndian;
  }

  lemma TwoMore(n: nat, e: byte, f: byte, w: nat)
    ensures BigEndian((n * 256 + e) * 256 + f, w + 2) == BigEndian(n, w) + [e, f]
  {
    LastByte(e, n, w);
    LastByte(f, n * 256 + e, w + 1);
    hide BigEndian;
  }

  lemma LastByte(x: byte, n: nat, w: nat)
    ensures BigEndian(n * 256 + x, w + 1) == BigEndian(n, w) + [x]
  {
  }

  // ---------- Control messages ----------

  datatype Handshake = Handshake(hostname: string, pid: u32, arch: string, totalBytes: u64, pageCount: u32,
      version: string)

  datatype ReadyAck = ReadyAck(accepted: bool, reason: string)

  /** encoding/json as a pair of codecs. */
  datatype Json = Json(
    handshake: Handshake -> seq<byte>,
    parseHandshake: seq<byte> -> Option<Handshake>,
    ack: ReadyAck -> seq<byte>,
    parseAck: seq<byte> -> Option<ReadyAck>)
  {
    /** This handshake survives marshalling, and its text fits a frame. */
    predicate Carries(h: Handshake) { |handshake(h)| < TWO_32 && parseHandshake(handshake(h)) == Some(h) }

    predicate CarriesAck(a: ReadyAck) { |ack(a)| < TWO_32 && parseAck(ack(a)) == Some(a) }

    function HandshakeFrame(h: Handshake): Frame { Frame(MSG_HANDSHAKE, handshake(h)) }

    function AckFrame(a: ReadyAck): Frame { Frame(MSG_READY_ACK, ack(a)) }
  }

  // ---------- Connections ----------

  /** What a failed write of `e` gets out when the connection takes n more bytes: never all of it. */
  function Cut(e: seq<byte>, n: nat): (s: seq<byte>)
    requires e != []
    ensures s < e && (s == [] <==> n == 0 || |e| == 1)
  {
    e[..if n < |e| then n else |e| - 1]
  }

  lemma TakeMore(base: seq<byte>, e: seq<byte>, at: nat, piece: seq<byte>, n: nat)
    requires at + |piece| <= |e| && e[at..at + |piece|] == piece && n <= |piece|
    ensures base + e[..at] + piece[..n] == base + e[..at + n]
  {
    assert e[..at] + piece[..n] == e[..at + n];
  }

  /**
   One end of a connection: the bytes still to arrive, the bytes sent, and the environment's
   verdict on every write, with the number of bytes that a failed one gets out all the same.
   */
  class Conn {
    const writeSucceeds: nat -> bool
    const cuts: nat -> nat
    var input: seq<byte>
    var output: seq<byte>
    var writes: nat
    var sleptNs: int

    constructor (input: seq<byte>, writeSucceeds: nat -> bool, cuts: nat -> nat)
      ensures this.input == input && output == [] && writes == 0 && sleptNs == 0
      ensures this.writeSucceeds == writeSucceeds && this.cuts == cuts
    {
      this.input, output, writes, sleptNs := input, [], 0, 0;
      this.writeSucceeds, this.cuts := writeSucceeds, cuts;
    }

    /** Writes the next piece of `e`, which is at offset `at`, as far as the budget allows. */
    method Put(piece: seq<byte>, budget: nat, ghost base: seq<byte>, ghost e: seq<byte>, ghost at: nat)
      returns (left: nat)
      requires at + |piece| <= |e| && e[at..at + |piece|] == piece && output == base + e[..at]
      modifies this`output
      ensures left == if budget < |piece| then 0 else budget - |piece|
      ensures output == base + e[..at + budget - left]
    {
      var n := if budget < |piece| then budget else |piece|;
      TakeMore(base, e, at, piece, n);
      output := output + piece[..n];
      left := budget - n;
    }

    /** The frame is written in three pieces. */
    method WriteFrame(f: Frame) returns (ok: bool)
      modifies this`output, this`writes
      ensures ok == writeSucceeds(old(writes)) && writes == old(writes) + 1
      ensures output == old(output) + if ok then EncodeFrame(f) else Cut(EncodeFrame(f), cuts(old(writes)))
    {
      hide BigEndian, Wrap32;
      ghost var e, base := EncodeFrame(f), output;
      var size, taken := 8 + |f.payload|, cuts(writes);
      ok := writeSucceeds(writes);
      var budget := if ok then size else if taken < size then taken else size - 1;
      writes := writes + 1;
      budget := Put(BigEndian(f.typ, 4), budget, base, e, 0);
      if budget > 0 {
        budget := Put(BigEndian(Wrap32(|f.payload|), 4), budget, base, e, 4);
      }
      if budget > 0 {
        budget := Put(f.payload, budget, base, e, 8);
      }
      assert e[..size] == e;
    }

    method NextFrame() returns (r: Result<Frame, ReadError>)
      modifies this`input
      ensures r == (match ReadFrame(old(input)) case Success(p) => Success(p.frame) case Failure(e) => Failure(e))
      ensures r.Success? ==> input == ReadFrame(old(input)).value.rest && |input| < |old(input)|
      ensures r.Failure? ==> input == []
    {
      match ReadFrame(input) {
        case Success(p) =>
          input := p.rest;
          r := Success(p.frame);
        case Failure(e) =>
          input := [];
          r := Failure(e);
      }
    }

    // time.Sleep returns at once for a negative duration.
    method Sleep(ns: int)
      modifies this`sleptNs
      ensures sleptNs == old(sleptNs) + (if ns > 0 then ns else 0)
    {
      if ns > 0 {
        sleptNs := sleptNs + ns;
      }
    }
  }
}
