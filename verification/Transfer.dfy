/**
 Both ends of a transfer put together: what the receiver makes of the bytes the sender emits.
 */
module Transfer {
  import opened Wrappers
  import opened Words
  import opened Blocks
  import opened Protocol
  import opened Delta
  import opened Receiver
  import opened Transmitter

  /** The blocks of `bs` that a receiver of `total` bytes takes. */
  ghost predicate Acceptable(hash: Hash, bs: seq<DataBlock>, total: u64) {
    AllFit(bs, total) && forall i | 0 <= i < |bs| :: |bs[i].data| <= PAGE_SIZE && bs[i].checksum == hash(bs[i].data)
  }

  lemma BlockFrameTaken(hash: Hash, b: DataBlock, total: u64)
    requires Fits(b, total) && |b.data| <= PAGE_SIZE && b.checksum == hash(b.data)
    ensures React(hash, BlockFrame(b), total) == Take(b)
  {
    hide ReadBlock, ReadFrame, EncodeFrame, BlockPayload;
    BlockFrameRoundTrip(b, []);
  }

  lemma RunTakes(hash: Hash, fs: seq<Frame>, b: DataBlock, buf: seq<byte>, written: u64, hs: Handshake)
    requires |buf| == hs.totalBytes && fs != [] && React(hash, fs[0], hs.totalBytes) == Take(b)
    ensures RunFrames(hash, fs, buf, written, hs)
         == RunFrames(hash, fs[1..], Splice(buf, b.offset, b.data), Wrap64(written + |b.data|), hs)
  {
  }

  /** `r` is what running the tail gives once the blocks are written and their bytes counted. */
  ghost predicate RunsOn(hash: Hash, r: Outcome, bs: seq<DataBlock>, tail: seq<Frame>, buf: seq<byte>, written: u64,
        hs: Handshake)
    requires |buf| == hs.totalBytes && AllFit(bs, |buf|) && written + TotalLength(bs) <= hs.totalBytes
  {
    r == RunFrames(hash, tail, ApplyBlocks(buf, bs), written + TotalLength(bs), hs)
  }

  lemma RunsOnStep(hash: Hash, r: Outcome, bs: seq<DataBlock>, tail: seq<Frame>, buf: seq<byte>, written: u64,
        hs: Handshake)
    requires |buf| == hs.totalBytes && AllFit(bs, |buf|) && written + TotalLength(bs) <= hs.totalBytes && bs != []
    requires Fits(bs[0], |buf|)
    requires RunsOn(hash, r, bs[1..], tail, Splice(buf, bs[0].offset, bs[0].data), written + |bs[0].data|, hs)
    ensures RunsOn(hash, r, bs, tail, buf, written, hs)
  {
  }

  lemma BlockFramesCons(bs: seq<DataBlock>, tail: seq<Frame>)
    requires bs != []
    ensures var fs := BlockFrames(bs) + tail;
            fs[0] == BlockFrame(bs[0]) && fs[1..] == BlockFrames(bs[1..]) + tail
  {
  }

  /** Block frames leave the receiver with the blocks written and their bytes counted. */
  lemma {:induction false} RunBlocks(hash: Hash, bs: seq<DataBlock>, tail: seq<Frame>, buf: seq<byte>, written: u64,
        hs: Handshake)
    requires |buf| == hs.totalBytes && Acceptable(hash, bs, hs.totalBytes)
    requires written + TotalLength(bs) <= hs.totalBytes
    ensures RunsOn(hash, RunFrames(hash, BlockFrames(bs) + tail, buf, written, hs), bs, tail, buf, written, hs)
    decreases |bs|
  {
    hide React, RunFrames, BlockFrame, Splice;
    if bs == [] {
      assert BlockFrames(bs) + tail == tail;
    } else {
      BlockFramesCons(bs, tail);
      BlockFrameTaken(hash, bs[0], hs.totalBytes);
      RunTakes(hash, BlockFrames(bs) + tail, bs[0], buf, written, hs);
      RunBlocks(hash, bs[1..], tail, Splice(buf, bs[0].offset, bs[0].data), written + |bs[0].data|, hs);
      RunsOnStep(hash, RunFrames(hash, BlockFrames(bs) + tail, buf, written, hs), bs, tail, buf, written, hs);
    }
  }

  /** The block frames of a snapshot followed by the complete signal. */
  ghost function BlockPart(bs: seq<DataBlock>): seq<Frame> { BlockFrames(bs) + [COMPLETE] }

  lemma BlockPartCarriable(hash: Hash, bs: seq<DataBlock>, total: u64)
    requires Acceptable(hash, bs, total)
    ensures forall i | 0 <= i < |BlockPart(bs)| :: Carriable(BlockPart(bs)[i])
  {
    forall i | 0 <= i < |BlockPart(bs)| ensures Carriable(BlockPart(bs)[i]) {
      if i < |bs| { BlockFrameRoundTrip(bs[i], []); }
    }
  }

  /** The receive loop undoes the send loop. */
  lemma BlocksDelivered(hash: Hash, bs: seq<DataBlock>, buf: seq<byte>, hs: Handshake)
    requires |buf| == hs.totalBytes && Acceptable(hash, bs, hs.totalBytes) && TotalLength(bs) <= hs.totalBytes
    ensures ReceiveBlocks(hash, EncodeFrames(BlockPart(bs)), buf, 0, hs)
         == Accepted(ApplyBlocks(buf, bs)[..TotalLength(bs)], hs)
  {
    BlockPartCarriable(hash, bs, hs.totalBytes);
    var k := StreamCarriesFrames(hash, BlockPart(bs), EncodeFrames(BlockPart(bs)), buf, 0, hs);
    assert BlockPart(bs)[..k] == BlockPart(bs);
    RunBlocks(hash, bs, [COMPLETE], buf, 0, hs);
  }

  /** A block stream cut short is refused, wherever it is cut. */
  lemma CutBlocksRefused(hash: Hash, bs: seq<DataBlock>, cut: seq<byte>, buf: seq<byte>, hs: Handshake)
    requires |buf| == hs.totalBytes && Acceptable(hash, bs, hs.totalBytes) && TotalLength(bs) <= hs.totalBytes
    requires cut < EncodeFrames(BlockPart(bs))
    ensures ReceiveBlocks(hash, cut, buf, 0, hs) == Rejected(CutStream)
  {
    BlockPartCarriable(hash, bs, hs.totalBytes);
    var k := StreamCarriesFrames(hash, BlockPart(bs), cut, buf, 0, hs);
    assert bs == bs[..k] + bs[k..];
    TotalLengthConcat(bs[..k], bs[k..]);
    assert BlockPart(bs)[..k] == BlockFrames(bs[..k]) + [];
    RunBlocks(hash, bs[..k], [], buf, 0, hs);
  }

  /** The byte stream of a complete session. */
  ghost function SenderStream(json: Json, hash: Hash, data: seq<byte>, opts: TransferOptions): seq<byte>
    requires GoSlice(data)
  {
    EncodeFrames(SessionFrames(json, hash, data, opts))
  }

  ghost function SentBlocks(hash: Hash, data: seq<byte>, opts: TransferOptions): seq<DataBlock>
    requires GoSlice(data)
  {
    if opts.maxRetries < 0 then [] else SnapshotBlocks(hash, data)
  }

  lemma SentAcceptable(hash: Hash, data: seq<byte>, opts: TransferOptions)
    requires GoSlice(data)
    ensures Acceptable(hash, SentBlocks(hash, data, opts), |data|)
    ensures TotalLength(SentBlocks(hash, data, opts)) == if opts.maxRetries < 0 then 0 else |data|
  {
    SnapshotBlocksPartition(hash, data, 0);
  }

  lemma SessionSplit(json: Json, hash: Hash, data: seq<byte>, opts: TransferOptions)
    requires GoSlice(data)
    ensures SenderStream(json, hash, data, opts)
         == EncodeFrame(json.HandshakeFrame(HandshakeOf(data, opts)))
             + EncodeFrames(BlockPart(SentBlocks(hash, data, opts)))
  {
    var bs := SentBlocks(hash, data, opts);
    var fs := SessionFrames(json, hash, data, opts);
    assert BlockFrames([]) == [];
    assert fs[0] == json.HandshakeFrame(HandshakeOf(data, opts));
    assert fs[1..] == BlockPart(bs);
  }

  /** What the receiver makes of a whole session with any retry limit. */
  lemma SessionReceived(json: Json, hash: Hash, data: seq<byte>, opts: TransferOptions, ackOk: bool)
    requires GoSlice(data) && json.Carries(HandshakeOf(data, opts))
    ensures var r := Receive(json, hash, SenderStream(json, hash, data, opts), ackOk);
            if ackOk && 0 < |data| <= MAX_SNAPSHOT_BYTES
            then r == Accepted(if opts.maxRetries < 0 then [] else data, HandshakeOf(data, opts))
            else r.Rejected?
  {
    var hs, bs := HandshakeOf(data, opts), SentBlocks(hash, data, opts);
    SessionSplit(json, hash, data, opts);
    FrameRoundTrip(json.HandshakeFrame(hs), EncodeFrames(BlockPart(bs)));
    if ackOk && 0 < |data| <= MAX_SNAPSHOT_BYTES {
      SentAcceptable(hash, data, opts);
      BlocksDelivered(hash, bs, Zeros(|data|), hs);
      FirstRoundRebuilds(hash, Zeros(|data|), data, PAGE_SIZE);
    }
  }

  /** A snapshot arrives byte for byte exactly when it is nonempty, within the size limit, the
      receiver could answer, and the retry limit is not negative. */
  lemma TransferCorrect(json: Json, hash: Hash, data: seq<byte>, opts: TransferOptions, ackOk: bool)
    requires GoSlice(data) && json.Carries(HandshakeOf(data, opts))
    ensures Receive(json, hash, SenderStream(json, hash, data, opts), ackOk) == Accepted(data, HandshakeOf(data, opts))
            <==> ackOk && 0 < |data| <= MAX_SNAPSHOT_BYTES && opts.maxRetries >= 0
  {
    SessionReceived(json, hash, data, opts, ackOk);
  }

  /** With a negative retry limit every block is skipped, and the receiver takes an empty snapshot for the real one. */
  lemma NegativeRetriesLoseEverything(json: Json, hash: Hash)
    requires json.Carries(HandshakeOf([7], SKIPS_ALL))
    ensures Receive(json, hash, SenderStream(json, hash, [7], SKIPS_ALL), true)
        == Accepted([], HandshakeOf([7], SKIPS_ALL))
  {
    SessionReceived(json, hash, [7], SKIPS_ALL, true);
  }

  const SKIPS_ALL: TransferOptions := TransferOptions("h", 1, "1.0", -1)

  /** For any two messages there is a codec that carries them, so no result here is about nothing. */
  lemma CodecFor(h: Handshake, a: ReadyAck) returns (json: Json)
    ensures json.Carries(h) && json.CarriesAck(a)
  {
    json := Json((_: Handshake) => [], (_: seq<byte>) => Some(h), (_: ReadyAck) => [], (_: seq<byte>) => Some(a));
  }

  /** A block whose end wraps around 2^64 passes the range check and crashes the receiver. */
  lemma WrappingBlockCrashes(hash: Hash, hs: Handshake, rest: seq<byte>)
    requires hs.totalBytes == 1
    ensures var b := DataBlock(TWO_64 - 1, hash([0, 0]), [0, 0]);
            ReceiveBlocks(hash, EncodeFrame(BlockFrame(b)) + rest, [0], 0, hs) == Panicked
  {
    hide EncodeFrame, ReadFrame, BlockPayload, ReadBlock;
    var b := DataBlock(TWO_64 - 1, hash([0, 0]), [0, 0]);
    BlockFrameRoundTrip(b, rest);
    CrashIffEndWraps(hash, BlockPayload(b), 1);
  }

  lemma WrittenBlocksCons(hash: Hash, b: DataBlock, rest: seq<byte>, total: u64)
    requires Fits(b, total) && |b.data| <= PAGE_SIZE && b.checksum == hash(b.data)
    ensures WrittenBlocks(hash, EncodeFrame(BlockFrame(b)) + rest, total) == [b] + WrittenBlocks(hash, rest, total)
    ensures Completed(hash, EncodeFrame(BlockFrame(b)) + rest, total) == Completed(hash, rest, total)
  {
    hide EncodeFrame, ReadFrame, BlockPayload, ReadBlock, React;
    BlockFrameRoundTrip(b, rest);
    BlockFrameTaken(hash, b, total);
  }

  lemma RepeatedBlockWritten(hash: Hash, b: DataBlock, total: u64)
    requires b == DataBlock(0, hash([7]), [7]) && total >= 1
    ensures WrittenBlocks(hash, EncodeFrames(BlockPart([b, b])), total) == [b, b]
    ensures Completed(hash, EncodeFrames(BlockPart([b, b])), total)
  {
    hide EncodeFrame, ReadFrame, BlockPayload, ReadBlock, React, WrittenBlocks, Completed;
    var done := EncodeFrames([COMPLETE]);
    assert [b, b][1..] == [b] && [b][1..] == [];
    BlockFramesCons([b, b], [COMPLETE]);
    BlockFramesCons([b], [COMPLETE]);
    assert BlockFrames([]) + [COMPLETE] == [COMPLETE];
    WrittenBlocksCons(hash, b, EncodeFrame(BlockFrame(b)) + done, total);
    WrittenBlocksCons(hash, b, done, total);
    NothingAfterComplete(hash, total);
  }

  /** The same one-byte block sent twice for a snapshot of one byte: every check passes, and the complete
      signal crashes the receiver. */
  lemma RepeatedBlockPanics(hash: Hash, hs: Handshake)
    requires hs.totalBytes == 1
    ensures var b := DataBlock(0, hash([7]), [7]);
            ReceiveBlocks(hash, EncodeFrames(BlockPart([b, b])), Zeros(1), 0, hs) == Panicked
  {
    hide EncodeFrames, ReceiveBlocks, WrittenBlocks, BlockPart, Completed, MeetsWrap;
    var b := DataBlock(0, hash([7]), [7]);
    RepeatedBlockWritten(hash, b, 1);
    assert [b, b][1..] == [b] && [b][1..] == [];
    assert TotalLength([b, b]) == 1 + TotalLength([b]) && TotalLength([b]) == 1 + TotalLength([]);
    PanicExact(hash, EncodeFrames(BlockPart([b, b])), Zeros(1), 0, hs);
  }

  lemma RepeatedBlockAccepted(hash: Hash, hs: Handshake, b: DataBlock)
    requires hs.totalBytes == 2 && b == DataBlock(0, hash([7]), [7])
    ensures ReceiveBlocks(hash, EncodeFrames(BlockPart([b, b])), Zeros(2), 0, hs) == Accepted([7, 0], hs)
    ensures TotalLength([b, b]) == 2
  {
    hide EncodeFrames, ReceiveBlocks;
    assert [b, b][1..] == [b] && [b][1..] == [];
    assert TotalLength([b, b]) == 1 + TotalLength([b]) && TotalLength([b]) == 1 + TotalLength([]);
    BlocksDelivered(hash, [b, b], Zeros(2), hs);
    assert Splice(Zeros(2), 0, [7]) == [7, 0] && Splice([7, 0], 0, [7]) == [7, 0];
    assert ApplyBlocks(Zeros(2), [b, b]) == ApplyBlocks([7, 0], [b]) == ApplyBlocks([7, 0], []);
  }

  lemma OneBlockAccepted(hash: Hash, hs: Handshake, b: DataBlock)
    requires hs.totalBytes == 1 && b == DataBlock(0, hash([7]), [7])
    ensures ReceiveBlocks(hash, EncodeFrame(BlockFrame(b)) + EncodeFrames([COMPLETE]), [0], 0, hs) == Accepted([7], hs)
  {
    hide EncodeFrame, ReceiveBlocks, BlockFrame;
    assert [b][1..] == [] && TotalLength([b]) == 1 + TotalLength([]);
    BlocksDelivered(hash, [b], [0], hs);
    BlockFramesCons([b], [COMPLETE]);
    assert BlockFrames([]) + [COMPLETE] == [COMPLETE];
    assert Splice([0], 0, [7]) == [7] && ApplyBlocks([0], [b]) == ApplyBlocks([7], []);
  }

  /** The type of a data frame read one byte late is the high byte of a length: 3 times 2^24 or more. */
  lemma ShiftedFrame(b: DataBlock, rest: seq<byte>)
    requires |b.data| + |rest| < 0x100_0000
    ensures var e := EncodeFrame(BlockFrame(b)); ReadFrame(Cut(e, 1) + e + rest).Failure?
  {
    var e := EncodeFrame(BlockFrame(b));
    var s := Cut(e, 1) + e + rest;
    var typ := BlockFrame(b).typ;
    LowByte(typ, 4);
    assert s[4] == e[3] == BigEndian(typ, 4)[3] == typ % 256;
    assert s[4..8][0] == s[4];
    LargeLength(s[4..8]);
  }

  lemma LowByte(n: nat, w: nat)
    requires w > 0
    ensures BigEndian(n, w)[w - 1] == n % 256
  {
  }

  lemma LargeLength(s: seq<byte>)
    requires |s| == 4 && s[0] == 3
    ensures FromBigEndian(s) >= 3 * 0x100_0000
  {
    assert s[..3][..2] == s[..2] && s[..2][..1] == s[..1] == [s[0]] && [s[0]][..0] == [];
    assert FromBigEndian(s[..1]) == FromBigEndian([]) * 256 + s[0];
    assert FromBigEndian(s[..2]) == FromBigEndian(s[..1]) * 256 + s[1];
    assert FromBigEndian(s[..3]) == FromBigEndian(s[..2]) * 256 + s[2];
  }

  lemma OneScrap(c: Conn, e: seq<byte>)
    requires e != [] && !c.writeSucceeds(0) && c.writeSucceeds(1)
    ensures Tried(c, 0, 2, [], Cut(e, c.cuts(0)) + e, e, false)
  {
    assert Scraps(c, 0, 1, e) == Scraps(c, 0, 0, e) + Cut(e, c.cuts(0));
    assert [] + Cut(e, c.cuts(0)) + e == Cut(e, c.cuts(0)) + e;
  }

  /** On a connection whose first write fails after one byte and whose second succeeds, sending a block
      succeeds with the retry; and the receiver, which now reads every frame one byte late, takes nothing. */
  lemma RetryAfterPartialWrite(c: Conn, hash: Hash, hs: Handshake)
    requires hs.totalBytes == 1 && !c.writeSucceeds(0) && c.cuts(0) == 1 && c.writeSucceeds(1)
    ensures var e := EncodeFrame(BlockFrame(DataBlock(0, hash([7]), [7])));
            Tried(c, 0, 2, [], Cut(e, 1) + e, e, false)
            && ReceiveBlocks(hash, e + EncodeFrames([COMPLETE]), [0], 0, hs) == Accepted([7], hs)
            && ReceiveBlocks(hash, Cut(e, 1) + e + EncodeFrames([COMPLETE]), [0], 0, hs) == Rejected(CutStream)
  {
    var b := DataBlock(0, hash([7]), [7]);
    OneBlockAccepted(hash, hs, b);
    OneScrap(c, EncodeFrame(BlockFrame(b)));
    assert [COMPLETE][1..] == [] && |EncodeFrames([COMPLETE])| == 8;
    ShiftedFrame(b, EncodeFrames([COMPLETE]));
    hide EncodeFrame, EncodeFrames, ReadFrame;
  }

  /** The same one-byte block sent twice for a snapshot of two bytes: the count is full, the snapshot
      accepted, and its second byte never arrived. */
  lemma RepeatedBlockHidesGap(hash: Hash, hs: Handshake)
    requires hs.totalBytes == 2
    ensures var b := DataBlock(0, hash([7]), [7]);
            var s := EncodeFrames(BlockPart([b, b]));
            ReceiveBlocks(hash, s, Zeros(2), 0, hs) == Accepted([7, 0], hs)
            && WrittenBlocks(hash, s, 2) == [b, b]
            && TotalLength(WrittenBlocks(hash, s, 2)) == 2 && !CoveredBy(WrittenBlocks(hash, s, 2), 1)
  {
    hide EncodeFrames, ReceiveBlocks, WrittenBlocks, BlockPart;
    var b := DataBlock(0, hash([7]), [7]);
    RepeatedBlockWritten(hash, b, 2);
    RepeatedBlockAccepted(hash, hs, b);
  }

  lemma NothingAfterComplete(hash: Hash, total: u64)
    ensures WrittenBlocks(hash, EncodeFrames([COMPLETE]), total) == []
    ensures Completed(hash, EncodeFrames([COMPLETE]), total)
  {
    hide EncodeFrame, ReadFrame;
    assert [COMPLETE][1..] == [];
    FrameRoundTrip(COMPLETE, []);
  }

  /** Every proper prefix of a session is refused, so a failed send never leaves an accepted snapshot behind. */
  lemma TruncationRefused(json: Json, hash: Hash, data: seq<byte>, opts: TransferOptions, cut: seq<byte>, ackOk: bool)
    requires GoSlice(data) && json.Carries(HandshakeOf(data, opts))
    requires cut < SenderStream(json, hash, data, opts)
    ensures Receive(json, hash, cut, ackOk).Rejected?
  {
    var hs, bs := HandshakeOf(data, opts), SentBlocks(hash, data, opts);
    var f := json.HandshakeFrame(hs);
    var e := EncodeFrame(f);
    SessionSplit(json, hash, data, opts);
    if |cut| < |e| {
      assert cut < e;
      CutFrameUnreadable(f, cut);
    } else {
      var rest := cut[|e|..];
      assert cut == e + rest;
      assert rest < EncodeFrames(BlockPart(bs));
      FrameRoundTrip(f, rest);
      if 0 < |data| <= MAX_SNAPSHOT_BYTES {
        SentAcceptable(hash, data, opts);
        CutBlocksRefused(hash, bs, rest, Zeros(|data|), hs);
      }
    }
  }

  /** The answer the sender waits for is the one the receiver gives, and it lets the session proceed. */
  lemma HandshakeAgreement(json: Json, hash: Hash, data: seq<byte>, opts: TransferOptions)
    requires GoSlice(data) && data != []
    requires json.Carries(HandshakeOf(data, opts)) && json.CarriesAck(ReadyAck(true, ""))
    ensures var answer := Answer(json, SenderStream(json, hash, data, opts));
            answer == Some(ReadyAck(true, ""))
            && ReadFrame(EncodeFrame(json.AckFrame(answer.value))) == Success(Parsed(json.AckFrame(answer.value), []))
            && json.parseAck(json.AckFrame(answer.value).payload) == answer
  {
    var ack := ReadyAck(true, "");
    SessionSplit(json, hash, data, opts);
    FrameRoundTrip(json.HandshakeFrame(HandshakeOf(data, opts)), EncodeFrames(BlockPart(SentBlocks(hash, data, opts))));
    FrameRoundTrip(json.AckFrame(ack), []);
    assert EncodeFrame(json.AckFrame(ack)) + [] == EncodeFrame(json.AckFrame(ack));
  }

  /** What the receiver is told about a session: the sender's own data, and as many pages as blocks follow. */
  lemma HandshakeTells(hash: Hash, data: seq<byte>, opts: TransferOptions)
    requires GoSlice(data)
    ensures var hs := HandshakeOf(data, opts);
            hs.hostname == opts.hostname && hs.pid == opts.pid && hs.version == opts.version && hs.arch == "x86_64"
            && hs.totalBytes == |data|
            && (|data| <= MAX_SNAPSHOT_BYTES ==> hs.pageCount == |SnapshotBlocks(hash, data)|)
  {
    BlockCount(hash, data);
    if 0 < |data| <= MAX_SNAPSHOT_BYTES { PagesFit(|data|); }
  }

  lemma PagesFit(n: nat)
    requires 0 < n <= MAX_SNAPSHOT_BYTES
    ensures Wrap32(PageCount(n, PAGE_SIZE)) == PageCount(n, PAGE_SIZE)
  {
  }

  /** Sending to a receiver: with every write succeeding and the receiver's own answer on the input, the
      sender reports success and emits exactly its session; an empty snapshot is given up after the
      handshake, for the reason that the receiver gives. */
  method SendToReceiver(c: Conn, json: Json, hash: Hash, data: seq<byte>, opts: TransferOptions,
                        ghost answer: ReadyAck, ghost later: seq<byte>)
    returns (stats: TransferStats, err: Option<TxError>)
    requires GoSlice(data) && json.Carries(HandshakeOf(data, opts)) && json.CarriesAck(answer)
    requires Answer(json, SenderStream(json, hash, data, opts)) == Some(answer)
    requires c.input == EncodeFrame(json.AckFrame(answer)) + later
    requires forall i | c.writes <= i :: c.writeSucceeds(i)
    modifies c
    ensures data != [] ==> err == None && c.output == old(c.output) + SenderStream(json, hash, data, opts)
    ensures data == [] ==>
              err == Some(RejectedByReceiver("empty snapshot"))
              && c.output == old(c.output) + EncodeFrame(json.HandshakeFrame(HandshakeOf(data, opts)))
  {
    FrameRoundTrip(json.AckFrame(answer), later);
    AnswerToSession(json, hash, data, opts);
    ghost var first, base := c.writes, c.output;
    NeverAllFail(c, c.writes);
    hide EncodeFrame, EncodeFrames, ReadFrame, SessionFrames, HandshakeOf, SnapshotBlocks, Answer, Emitted, AllFail;
    stats, err := SendSnapshot(c, json, hash, data, opts);
    assert err == None || err == Some(RejectedByReceiver(answer.reason));
    assert Transmitter.Clean(c, first, c.writes);
    if data == [] {
      FirstFrameOut(json, hash, data, opts, base, c.output);
    }
  }

  lemma NeverAllFail(c: Conn, from: nat)
    requires forall i | from <= i :: c.writeSucceeds(i)
    ensures forall a: nat, n: nat | a >= from && n > 0 :: !AllFail(c, a, n)
  {
    forall a: nat, n: nat | a >= from && n > 0 ensures !AllFail(c, a, n) {
      assert c.writeSucceeds(a);
    }
  }

  lemma AnswerToSession(json: Json, hash: Hash, data: seq<byte>, opts: TransferOptions)
    requires GoSlice(data) && json.Carries(HandshakeOf(data, opts))
    ensures Answer(json, SenderStream(json, hash, data, opts))
         == Some(if data == [] then ReadyAck(false, "empty snapshot") else ReadyAck(true, ""))
  {
    SessionSplit(json, hash, data, opts);
    FrameRoundTrip(json.HandshakeFrame(HandshakeOf(data, opts)), EncodeFrames(BlockPart(SentBlocks(hash, data, opts))));
  }

  lemma FirstFrameOut(json: Json, hash: Hash, data: seq<byte>, opts: TransferOptions, base: seq<byte>,
                      output: seq<byte>)
    requires GoSlice(data) && Emitted(base, output, SessionFrames(json, hash, data, opts), 1)
    ensures output == base + EncodeFrame(json.HandshakeFrame(HandshakeOf(data, opts)))
  {
    var session := SessionFrames(json, hash, data, opts);
    hide EncodeFrame;
    assert session[..1] == [session[0]] && [session[0]][1..] == [];
    assert EncodeFrames([session[0]]) == EncodeFrame(session[0]) + [];
  }

  /** Both programs, each reading what the other writes: the receiver takes the snapshot, and the sender
      reports success. */
  method Exchange(tx: Conn, rx: Conn, json: Json, hash: Hash, data: seq<byte>, opts: TransferOptions)
    returns (received: Outcome, err: Option<TxError>)
    requires tx != rx && tx.input == [] && rx.output == []
    requires GoSlice(data) && 0 < |data| <= MAX_SNAPSHOT_BYTES && opts.maxRetries >= 0
    requires json.Carries(HandshakeOf(data, opts)) && json.CarriesAck(ReadyAck(true, ""))
    requires forall i | tx.writes <= i :: tx.writeSucceeds(i)
    requires rx.writeSucceeds(rx.writes) && rx.input == SenderStream(json, hash, data, opts)
    modifies tx, rx
    ensures received == Accepted(data, HandshakeOf(data, opts)) && err == None
    ensures tx.output == old(tx.output) + old(rx.input)
  {
    AnswerToSession(json, hash, data, opts);
    TransferCorrect(json, hash, data, opts, true);
    hide SenderStream, HandshakeOf, EncodeFrame, Answer, Receive;
    received := ReceiveOne(rx, json, hash);
    tx.input := rx.output;
    ghost var answer := ReadyAck(true, "");
    assert tx.input == EncodeFrame(json.AckFrame(answer)) + [];
    var stats;
    stats, err := SendToReceiver(tx, json, hash, data, opts, answer, []);
  }
}
