/**
 The receiving end of a transfer (wraith-go/pkg/transport/server.go).
 */
module Receiver {
  import opened Wrappers
  import opened Words
  import opened Spans
  import opened Blocks
  import opened Protocol
  import opened Delta

  const MAX_SNAPSHOT_BYTES: nat := 0x20_0000_0000  // 128 GB

  datatype RxError =
    | NoHandshake | NotHandshake | BadHandshake | WrongArch | EmptySnapshot | AckFailed | TooLarge
    | CutStream | BadBlock | BlockOverflow | ChecksumMismatch | SenderError

  // Panicked is a Go run-time panic (slice bounds out of range), which ends the receiver.
  datatype Outcome = Accepted(data: seq<byte>, hs: Handshake) | Rejected(error: RxError) | Panicked

  // ---------- What the receiver computes ----------

  datatype Verdict = Write(block: DataBlock) | Refuse(error: RxError) | Crash

  /** The checks made on a data frame before its block is written. */
  function Inspect(hash: Hash, payload: seq<byte>, total: u64): (v: Verdict)
    ensures v.Write? ==> Fits(v.block, total) && hash(v.block.data) == v.block.checksum
    ensures v.Write? ==> ReadBlock(payload) == Block(v.block)
  {
    match ReadBlock(payload)
    case TooShort => Refuse(BadBlock)
    case Truncated => Refuse(BadBlock)
    case SliceFault => Crash
    case Block(b) =>
      var end := Wrap64(b.offset + |b.data|);
      if end > total then Refuse(BlockOverflow)
      else if hash(b.data) != b.checksum then Refuse(ChecksumMismatch)
      else if b.offset > end then Crash
      else
        WrapStaysAbove(b, end);
        Write(b)
  }

  lemma WrapStaysAbove(b: DataBlock, end: u64)
    requires end == Wrap64(b.offset + |b.data|) && b.offset <= end
    requires |b.data| < TWO_64
    ensures end == b.offset + |b.data|
  {
  }

  /** The complete signal returns as much of the buffer as was counted, and panics if that is more than there is. */
  function Conclude(buf: seq<byte>, written: u64, hs: Handshake): Outcome {
    if written > |buf| then Panicked else Accepted(buf[..written], hs)
  }

  datatype Reaction = Take(block: DataBlock) | Fail(error: RxError) | Fault | Finish | Ignore

  /** What one frame makes the receiver do; unknown frame types are skipped. */
  function React(hash: Hash, f: Frame, total: u64): (r: Reaction)
    ensures r.Take? ==> Fits(r.block, total) && hash(r.block.data) == r.block.checksum
  {
    if f.typ == MSG_DATA_BLOCK then
      match Inspect(hash, f.payload, total)
      case Write(b) => Take(b)
      case Refuse(e) => Fail(e)
      case Crash => Fault
    else if f.typ == MSG_COMPLETE then Finish
    else if f.typ == MSG_ERROR then Fail(SenderError)
    else Ignore
  }

  ghost function ReceiveBlocks(hash: Hash, s: seq<byte>, buf: seq<byte>, written: u64, hs: Handshake): Outcome
    requires |buf| == hs.totalBytes
    decreases |s|
  {
    match ReadFrame(s)
    case Failure(_) => Rejected(CutStream)
    case Success(Parsed(f, rest)) =>
      match React(hash, f, hs.totalBytes)
      case Take(b) => ReceiveBlocks(hash, rest, Splice(buf, b.offset, b.data), Wrap64(written + |b.data|), hs)
      case Fail(e) => Rejected(e)
      case Fault => Panicked
      case Finish => Conclude(buf, written, hs)
      case Ignore => ReceiveBlocks(hash, rest, buf, written, hs)
  }

  function Zeros(n: nat): (z: seq<byte>)
    ensures |z| == n
  {
    seq(n, _ => 0)
  }

  /** The whole session on the stream `s`; `ackOk` says whether the answer to the handshake could be sent. */
  ghost function Receive(json: Json, hash: Hash, s: seq<byte>, ackOk: bool): Outcome {
    match ReadFrame(s)
    case Failure(_) => Rejected(NoHandshake)
    case Success(Parsed(f, rest)) =>
      if f.typ != MSG_HANDSHAKE then Rejected(NotHandshake)
      else match json.parseHandshake(f.payload)
        case None => Rejected(BadHandshake)
        case Some(hs) =>
          if hs.arch != "x86_64" then Rejected(WrongArch)
          else if hs.totalBytes == 0 then Rejected(EmptySnapshot)
          else if !ackOk then Rejected(AckFailed)
          else if hs.totalBytes > MAX_SNAPSHOT_BYTES then Rejected(TooLarge)
          else ReceiveBlocks(hash, rest, Zeros(hs.totalBytes), 0, hs)
  }

  /** The answer to a handshake; a transfer over the size limit is accepted first and refused afterwards. */
  function Answer(json: Json, s: seq<byte>): Option<ReadyAck> {
    match ReadFrame(s)
    case Failure(_) => None
    case Success(Parsed(f, _)) =>
      if f.typ != MSG_HANDSHAKE then None
      else match json.parseHandshake(f.payload)
        case None => None
        case Some(hs) =>
          if hs.arch != "x86_64" then Some(ReadyAck(false, "unsupported arch: " + hs.arch))
          else if hs.totalBytes == 0 then Some(ReadyAck(false, "empty snapshot"))
          else Some(ReadyAck(true, ""))
  }

  // ---------- The receiver ----------

  method CopyInto(buf: array<byte>, off: nat, data: seq<byte>)
    requires off + |data| <= buf.Length
    modifies buf
    ensures buf[..] == Splice(old(buf[..]), off, data)
  {
    forall i | 0 <= i < |data| {
      buf[off + i] := data[i];
    }
  }

  /** What write number n gets out of a frame. */
  function AnswerBytes(c: Conn, n: nat, f: Frame): seq<byte> {
    if c.writeSucceeds(n) then EncodeFrame(f) else Cut(EncodeFrame(f), c.cuts(n))
  }

  method ReceiveOne(c: Conn, json: Json, hash: Hash) returns (r: Outcome)
    modifies c
    ensures r == Receive(json, hash, old(c.input), c.writeSucceeds(old(c.writes)))
    ensures var answer := Answer(json, old(c.input));
            c.output == if answer == None then old(c.output)
                        else old(c.output) + AnswerBytes(c, old(c.writes), json.AckFrame(answer.value))
  {
    var first := c.NextFrame();
    if first.Failure? { return Rejected(NoHandshake); }
    if first.value.typ != MSG_HANDSHAKE { return Rejected(NotHandshake); }
    var parsed := json.parseHandshake(first.value.payload);
    if parsed == None { return Rejected(BadHandshake); }
    var hs := parsed.value;
    if hs.arch != "x86_64" {
      var _ := c.WriteFrame(json.AckFrame(ReadyAck(false, "unsupported arch: " + hs.arch)));
      return Rejected(WrongArch);
    }
    if hs.totalBytes == 0 {
      var _ := c.WriteFrame(json.AckFrame(ReadyAck(false, "empty snapshot")));
      return Rejected(EmptySnapshot);
    }
    var acked := c.WriteFrame(json.AckFrame(ReadyAck(true, "")));
    if !acked { return Rejected(AckFailed); }
    if hs.totalBytes > MAX_SNAPSHOT_BYTES { return Rejected(TooLarge); }
    r := ReceiveInto(c, hash, hs);
  }

  method ReceiveInto(c: Conn, hash: Hash, hs: Handshake) returns (r: Outcome)
    modifies c`input
    ensures r == ReceiveBlocks(hash, old(c.input), Zeros(hs.totalBytes), 0, hs)
  {
    var buf := new byte[hs.totalBytes](_ => 0);
    var bytesWritten: u64 := 0;
    var blocksReceived := 0;
    assert buf[..] == Zeros(hs.totalBytes);
    while true
      invariant ReceiveBlocks(hash, c.input, buf[..], bytesWritten, hs)
             == ReceiveBlocks(hash, old(c.input), Zeros(hs.totalBytes), 0, hs)
      decreases |c.input|
    {
      ghost var s, image := c.input, buf[..];
      var next := c.NextFrame();
      if next.Failure? { return Rejected(CutStream); }
      var frame := next.value;
      if frame.typ == MSG_DATA_BLOCK {
        match Inspect(hash, frame.payload, hs.totalBytes) {
          case Refuse(e) => return Rejected(e);
          case Crash => return Panicked;
          case Write(block) =>
            CopyInto(buf, block.offset, block.data);
            bytesWritten := Wrap64(bytesWritten + |block.data|);
            blocksReceived := blocksReceived + 1;
        }
      } else if frame.typ == MSG_COMPLETE {
        if bytesWritten > buf.Length { return Panicked; }
        return Accepted(buf[..bytesWritten], hs);
      } else if frame.typ == MSG_ERROR {
        return Rejected(SenderError);
      }
    }
  }

  // ---------- What a run writes ----------

  /** The blocks written in a run, in order of arrival. */
  ghost function WrittenBlocks(hash: Hash, s: seq<byte>, total: u64): seq<DataBlock>
    decreases |s|
  {
    match ReadFrame(s)
    case Failure(_) => []
    case Success(Parsed(f, rest)) =>
      match React(hash, f, total)
      case Take(b) => [b] + WrittenBlocks(hash, rest, total)
      case Ignore => WrittenBlocks(hash, rest, total)
      case _ => []
  }

  /** The run gets as far as the complete signal. */
  ghost predicate Completed(hash: Hash, s: seq<byte>, total: u64)
    decreases |s|
  {
    match ReadFrame(s)
    case Failure(_) => false
    case Success(Parsed(f, rest)) =>
      match React(hash, f, total)
      case Take(_) => Completed(hash, rest, total)
      case Ignore => Completed(hash, rest, total)
      case Finish => true
      case _ => false
  }

  lemma AllFitCons(b: DataBlock, bs: seq<DataBlock>, total: u64)
    requires Fits(b, total) && AllFit(bs, total)
    ensures AllFit([b] + bs, total) && ([b] + bs)[1..] == bs
  {
  }

  /** Only the complete signal ends a run in acceptance, and what is accepted is the prefix of
      the written buffer whose length is the number of bytes written. */
  lemma {:induction false} RunEffect(hash: Hash, s: seq<byte>, buf: seq<byte>, written: u64, hs: Handshake)
    requires |buf| == hs.totalBytes
    ensures var bs := WrittenBlocks(hash, s, hs.totalBytes);
            var r := ReceiveBlocks(hash, s, buf, written, hs);
            AllFit(bs, |buf|)
            && if Completed(hash, s, hs.totalBytes)
               then r == Conclude(ApplyBlocks(buf, bs), Wrap64(written + TotalLength(bs)), hs)
               else !r.Accepted?
    decreases |s|
  {
    hide React, ReadFrame, Conclude, Splice;
    if ReadFrame(s).Success? {
      var f, rest := ReadFrame(s).value.frame, ReadFrame(s).value.rest;
      var r := React(hash, f, hs.totalBytes);
      if r.Take? {
        var later := WrittenBlocks(hash, rest, hs.totalBytes);
        RunEffect(hash, rest, Splice(buf, r.block.offset, r.block.data), Wrap64(written + |r.block.data|), hs);
        assert WrittenBlocks(hash, s, hs.totalBytes) == [r.block] + later;
        AllFitCons(r.block, WrittenBlocks(hash, rest, hs.totalBytes), hs.totalBytes);
        WrapAdds(written + |r.block.data|, TotalLength(WrittenBlocks(hash, rest, hs.totalBytes)));
      } else if r.Ignore? {
        RunEffect(hash, rest, buf, written, hs);
      }
    }
  }

  // ---------- Runs as lists of frames ----------

  /** The receive loop on frames that have been read already, the connection closing after the last. */
  ghost function RunFrames(hash: Hash, fs: seq<Frame>, buf: seq<byte>, written: u64, hs: Handshake): Outcome
    requires |buf| == hs.totalBytes
    decreases |fs|
  {
    if fs == [] then Rejected(CutStream)
    else match React(hash, fs[0], hs.totalBytes)
      case Take(b) => RunFrames(hash, fs[1..], Splice(buf, b.offset, b.data), Wrap64(written + |b.data|), hs)
      case Fail(e) => Rejected(e)
      case Fault => Panicked
      case Finish => Conclude(buf, written, hs)
      case Ignore => RunFrames(hash, fs[1..], buf, written, hs)
  }

  /** Of the frames of `fs` exactly the first k are in `cut` whole. */
  ghost predicate WholeFrames(fs: seq<Frame>, cut: seq<byte>, k: nat)
    requires k <= |fs|
  {
    EncodeFrames(fs[..k]) <= cut && (k < |fs| ==> |cut| < |EncodeFrames(fs[..k + 1])|)
  }

  lemma WholeFramesCons(fs: seq<Frame>, cut: seq<byte>, rest: seq<byte>, k: nat)
    requires fs != [] && 1 <= k <= |fs| && cut == EncodeFrame(fs[0]) + rest && WholeFrames(fs[1..], rest, k - 1)
    ensures WholeFrames(fs, cut, k)
  {
    hide EncodeFrame;
    FirstFrames(fs, k);
    if k < |fs| { FirstFrames(fs, k + 1); }
  }

  lemma FirstFrames(fs: seq<Frame>, k: nat)
    requires 1 <= k <= |fs|
    ensures EncodeFrames(fs[..k]) == EncodeFrame(fs[0]) + EncodeFrames(fs[1..][..k - 1])
  {
    hide EncodeFrame;
    assert fs[..k][1..] == fs[1..][..k - 1];
  }

  /** On any list of frames the byte stream carries exactly the list; a stream cut anywhere
      carries exactly the frames that arrived whole. */
  lemma {:induction false} StreamCarriesFrames(hash: Hash, fs: seq<Frame>, cut: seq<byte>, buf: seq<byte>,
        written: u64, hs: Handshake)
    returns (k: nat)
    requires |buf| == hs.totalBytes && forall i | 0 <= i < |fs| :: Carriable(fs[i])
    requires cut <= EncodeFrames(fs)
    ensures k <= |fs| && (k == |fs| <==> cut == EncodeFrames(fs)) && WholeFrames(fs, cut, k)
    ensures ReceiveBlocks(hash, cut, buf, written, hs) == RunFrames(hash, fs[..k], buf, written, hs)
    decreases |fs|
  {
    if fs == [] {
      k := 0;
    } else {
      var e, later := EncodeFrame(fs[0]), EncodeFrames(fs[1..]);
      if |cut| < |e| {
        assert cut < e;
        CutFrameUnreadable(fs[0], cut);
        k := 0;
        FirstFrames(fs, 1);
      } else {
        var rest := cut[|e|..];
        assert cut == e + rest && rest <= later;
        FrameRoundTrip(fs[0], rest);
        k := CutRest(hash, fs, cut, rest, buf, written, hs);
        assert cut == EncodeFrames(fs) <==> rest == later;
        WholeFramesCons(fs, cut, rest, k);
      }
    }
  }

  lemma {:induction false} CutRest(hash: Hash, fs: seq<Frame>, cut: seq<byte>, rest: seq<byte>, buf: seq<byte>,
        written: u64, hs: Handshake)
    returns (k: nat)
    requires |buf| == hs.totalBytes && fs != [] && forall i | 0 <= i < |fs| :: Carriable(fs[i])
    requires ReadFrame(cut) == Success(Parsed(fs[0], rest)) && rest <= EncodeFrames(fs[1..])
    ensures 1 <= k <= |fs| && (k == |fs| <==> rest == EncodeFrames(fs[1..])) && WholeFrames(fs[1..], rest, k - 1)
    ensures ReceiveBlocks(hash, cut, buf, written, hs) == RunFrames(hash, fs[..k], buf, written, hs)
    decreases |fs|, -1
  {
    hide React, Splice, EncodeFrames, ReadFrame;
    var r := React(hash, fs[0], hs.totalBytes);
    var next := if r.Take? then Splice(buf, r.block.offset, r.block.data) else buf;
    var count := if r.Take? then Wrap64(written + |r.block.data|) else written;
    var j := StreamCarriesFrames(hash, fs[1..], rest, next, count, hs);
    k := j + 1;
    assert fs[..k][1..] == fs[1..][..j];
  }

  predicate Unknown(f: Frame) {
    f.typ != MSG_DATA_BLOCK && f.typ != MSG_COMPLETE && f.typ != MSG_ERROR
  }

  /** Frames of unknown types change nothing, wherever they come. */
  lemma {:induction false} UnknownFramesSkipped(hash: Hash, a: seq<Frame>, f: Frame, b: seq<Frame>, buf: seq<byte>,
        written: u64, hs: Handshake)
    requires |buf| == hs.totalBytes && Unknown(f)
    ensures RunFrames(hash, a + [f] + b, buf, written, hs) == RunFrames(hash, a + b, buf, written, hs)
    decreases |a|
  {
    hide Inspect;
    var with, without := a + [f] + b, a + b;
    if a == [] {
      assert with[1..] == b && without == b;
    } else {
      assert with[0] == a[0] == without[0];
      assert with[1..] == a[1..] + [f] + b && without[1..] == a[1..] + b;
      var r := React(hash, a[0], hs.totalBytes);
      if r.Take? {
        UnknownFramesSkipped(hash, a[1..], f, b, Splice(buf, r.block.offset, r.block.data),
            Wrap64(written + |r.block.data|), hs);
      } else if r.Ignore? {
        UnknownFramesSkipped(hash, a[1..], f, b, buf, written, hs);
      }
    }
  }

  /** A sender error ends a run that gets to it, and nothing behind it counts. */
  lemma {:induction false} SenderErrorEnds(hash: Hash, a: seq<Frame>, f: Frame, b: seq<Frame>, buf: seq<byte>,
        written: u64, hs: Handshake)
    requires |buf| == hs.totalBytes && f.typ == MSG_ERROR
    ensures RunFrames(hash, a + [f] + b, buf, written, hs) ==
            var before := RunFrames(hash, a, buf, written, hs);
            if before == Rejected(CutStream) then Rejected(SenderError) else before
    decreases |a|
  {
    hide Inspect;
    var fs := a + [f] + b;
    if a != [] {
      assert fs[0] == a[0] && fs[1..] == a[1..] + [f] + b;
      var r := React(hash, a[0], hs.totalBytes);
      if r.Take? {
        SenderErrorEnds(hash, a[1..], f, b, Splice(buf, r.block.offset, r.block.data),
            Wrap64(written + |r.block.data|), hs);
      } else if r.Ignore? {
        SenderErrorEnds(hash, a[1..], f, b, buf, written, hs);
      } else {
        NeverCutInLoop(hash, a[0], hs.totalBytes);
      }
    }
  }

  lemma NeverCutInLoop(hash: Hash, f: Frame, total: u64)
    ensures React(hash, f, total) != Fail(CutStream)
  {
  }

  /** A sender error before the complete signal ends the run without acceptance, whatever follows. */
  lemma {:induction false} SenderErrorRefused(hash: Hash, a: seq<Frame>, f: Frame, b: seq<Frame>, buf: seq<byte>,
        written: u64, hs: Handshake)
    requires |buf| == hs.totalBytes && f.typ == MSG_ERROR && forall i | 0 <= i < |a| :: a[i].typ != MSG_COMPLETE
    ensures !RunFrames(hash, a + [f] + b, buf, written, hs).Accepted?
    decreases |a|
  {
    hide Inspect;
    var fs := a + [f] + b;
    if a != [] {
      assert fs[0] == a[0] && fs[1..] == a[1..] + [f] + b;
      var r := React(hash, a[0], hs.totalBytes);
      if r.Take? {
        SenderErrorRefused(hash, a[1..], f, b, Splice(buf, r.block.offset, r.block.data),
            Wrap64(written + |r.block.data|), hs);
      } else if r.Ignore? {
        SenderErrorRefused(hash, a[1..], f, b, buf, written, hs);
      }
    }
  }

  // ---------- Counting ----------

  /** When no two written blocks overlap, the byte count is the number of bytes covered: it stays
      within the announced size and reaches it exactly when every byte was written. */
  lemma DisjointRunCounts(hash: Hash, s: seq<byte>, total: u64)
    requires PairwiseDisjoint(WrittenBlocks(hash, s, total))
    ensures var bs := WrittenBlocks(hash, s, total);
            AllFit(bs, total) && TotalLength(bs) == |CoveredSet(bs)| <= total
            && (TotalLength(bs) == total <==> forall k | 0 <= k < total :: CoveredBy(bs, k))
  {
    RunEffect(hash, s, Zeros(total), 0, Handshake("", 0, "", total, 0, ""));
    LengthCountsCoverage(WrittenBlocks(hash, s, total));
    CoverageBounded(WrittenBlocks(hash, s, total), total);
  }

  /** A completed run without overlaps is accepted, with as many bytes as were covered. */
  lemma DisjointRunAccepted(hash: Hash, s: seq<byte>, hs: Handshake)
    requires Completed(hash, s, hs.totalBytes) && PairwiseDisjoint(WrittenBlocks(hash, s, hs.totalBytes))
    ensures var bs := WrittenBlocks(hash, s, hs.totalBytes);
            AllFit(bs, hs.totalBytes) && TotalLength(bs) <= hs.totalBytes
            && ReceiveBlocks(hash, s, Zeros(hs.totalBytes), 0, hs)
               == Accepted(ApplyBlocks(Zeros(hs.totalBytes), bs)[..TotalLength(bs)], hs)
  {
    hide WrittenBlocks, Completed, ReceiveBlocks, PairwiseDisjoint, ApplyBlocks;
    var bs := WrittenBlocks(hash, s, hs.totalBytes);
    assert TotalLength(bs) <= hs.totalBytes by {
      DisjointRunCounts(hash, s, hs.totalBytes);
    }
    RunEffect(hash, s, Zeros(hs.totalBytes), 0, hs);
  }

  /** A run whose count reaches the announced size has no gap exactly when no two blocks overlapped. */
  lemma FullCountHasNoGapIffDisjoint(hash: Hash, s: seq<byte>, total: u64)
    requires TotalLength(WrittenBlocks(hash, s, total)) == total
    ensures (forall k | 0 <= k < total :: CoveredBy(WrittenBlocks(hash, s, total), k))
            <==> PairwiseDisjoint(WrittenBlocks(hash, s, total))
  {
    var bs := WrittenBlocks(hash, s, total);
    RunEffect(hash, s, Zeros(total), 0, Handshake("", 0, "", total, 0, ""));
    LengthCountsCoverage(bs);
    if forall k | 0 <= k < total :: CoveredBy(bs, k) {
      forall k | k in Span(0, total) ensures k in CoveredSet(bs) {
        CoveredSetMembers(bs, k);
      }
      SpanSize(0, total);
      SubsetSize(Span(0, total), CoveredSet(bs));
    }
    if PairwiseDisjoint(bs) {
      CoverageBounded(bs, total);
    }
  }

  /** Two completed runs that write the same disjoint blocks in different orders, with whatever
      other frames in between, end the same way. */
  lemma ArrivalOrderIrrelevant(hash: Hash, s: seq<byte>, t: seq<byte>, hs: Handshake)
    requires Completed(hash, s, hs.totalBytes) && Completed(hash, t, hs.totalBytes)
    requires PairwiseDisjoint(WrittenBlocks(hash, s, hs.totalBytes))
    requires multiset(WrittenBlocks(hash, s, hs.totalBytes)) == multiset(WrittenBlocks(hash, t, hs.totalBytes))
    ensures ReceiveBlocks(hash, s, Zeros(hs.totalBytes), 0, hs) == ReceiveBlocks(hash, t, Zeros(hs.totalBytes), 0, hs)
  {
    DisjointRunAccepted(hash, s, hs);
    OrderIrrelevant(Zeros(hs.totalBytes), WrittenBlocks(hash, s, hs.totalBytes), WrittenBlocks(hash, t, hs.totalBytes));
    DisjointRunAccepted(hash, t, hs);
  }

  /** A data frame is written exactly when its block is complete, lies within the announced size in
      unbounded integers, and matches its checksum. */
  lemma WrittenIffSound(hash: Hash, payload: seq<byte>, total: u64, b: DataBlock)
    requires |payload| < TWO_32
    ensures Inspect(hash, payload, total) == Write(b) <==>
            ReadBlock(payload) == Block(b) && b.offset + |b.data| <= total && hash(b.data) == b.checksum
  {
    NoSliceFaultInFrames(payload);
    if ReadBlock(payload) == Block(b) {
      assert |b.data| < TWO_32;
    }
  }

  /** A snapshot is accepted exactly when a well-formed handshake within the limits could be
      answered, the run reaches the complete signal, and the byte count stays within the buffer. */
  lemma AcceptanceExact(json: Json, hash: Hash, s: seq<byte>, ackOk: bool)
    ensures Receive(json, hash, s, ackOk).Accepted? <==>
            ackOk && ReadFrame(s).Success?
            && var p := ReadFrame(s).value;
               p.frame.typ == MSG_HANDSHAKE && json.parseHandshake(p.frame.payload).Some?
               && var hs := json.parseHandshake(p.frame.payload).value;
                  hs.arch == "x86_64" && 0 < hs.totalBytes <= MAX_SNAPSHOT_BYTES
                  && Completed(hash, p.rest, hs.totalBytes)
                  && Wrap64(TotalLength(WrittenBlocks(hash, p.rest, hs.totalBytes))) <= hs.totalBytes
  {
    hide ReadFrame, WrittenBlocks, Completed, ReceiveBlocks;
    if ReadFrame(s).Success? && json.parseHandshake(ReadFrame(s).value.frame.payload).Some? {
      var hs := json.parseHandshake(ReadFrame(s).value.frame.payload).value;
      RunEffect(hash, ReadFrame(s).value.rest, Zeros(hs.totalBytes), 0, hs);
    }
  }

  // ---------- Refusals ----------

  /** Why a data frame is refused. */
  lemma RefusalExact(hash: Hash, payload: seq<byte>, total: u64)
    requires |payload| < TWO_32
    ensures var v, r := Inspect(hash, payload, total), ReadBlock(payload);
            (v == Refuse(BadBlock) <==>
               |payload| < 20 || 20 + FromBigEndian(payload[16..20]) > |payload|)
            && (v == Refuse(BlockOverflow) <==> r.Block? && (r.block.offset + |r.block.data|) % TWO_64 > total)
            && (v == Refuse(ChecksumMismatch) <==> r.Block? && (r.block.offset + |r.block.data|) % TWO_64 <= total
                                                   && hash(r.block.data) != r.block.checksum)
            && (v.Refuse? ==> v.error in {BadBlock, BlockOverflow, ChecksumMismatch})
  {
    NoSliceFaultInFrames(payload);
  }

  /** The errors that a run can end with. */
  lemma {:induction false} RunErrors(hash: Hash, s: seq<byte>, buf: seq<byte>, written: u64, hs: Handshake)
    requires |buf| == hs.totalBytes
    ensures var r := ReceiveBlocks(hash, s, buf, written, hs);
            r.Rejected? ==> r.error in {CutStream, BadBlock, BlockOverflow, ChecksumMismatch, SenderError}
    decreases |s|
  {
    hide ReadFrame, ReadBlock, Splice;
    if ReadFrame(s).Success? {
      var f, rest := ReadFrame(s).value.frame, ReadFrame(s).value.rest;
      var r := React(hash, f, hs.totalBytes);
      if r.Take? {
        RunErrors(hash, rest, Splice(buf, r.block.offset, r.block.data), Wrap64(written + |r.block.data|), hs);
      } else if r.Ignore? {
        RunErrors(hash, rest, buf, written, hs);
      }
    }
  }

  /** What the receiver finds wrong with a session before any block, in the order in which it looks, and what
      it answers. */
  lemma OpeningExact(json: Json, hash: Hash, s: seq<byte>, ackOk: bool)
    ensures var r, first, answer := Receive(json, hash, s, ackOk), ReadFrame(s), Answer(json, s);
            (r == Rejected(NoHandshake) <==> first.Failure?)
            && (r == Rejected(NotHandshake) <==> first.Success? && first.value.frame.typ != 1)
            && (r == Rejected(BadHandshake) <==>
                  first.Success? && first.value.frame.typ == 1
                  && json.parseHandshake(first.value.frame.payload) == None)
            && (answer == None <==> r in {Rejected(NoHandshake), Rejected(NotHandshake), Rejected(BadHandshake)})
            && (answer.Some? ==>
                  var hs := json.parseHandshake(first.value.frame.payload).value;
                  (r == Rejected(WrongArch) <==> hs.arch != "x86_64")
                  && (r == Rejected(EmptySnapshot) <==> hs.arch == "x86_64" && hs.totalBytes == 0)
                  && (r == Rejected(AckFailed) <==> hs.arch == "x86_64" && hs.totalBytes > 0 && !ackOk)
                  && (r == Rejected(TooLarge) <==> hs.arch == "x86_64" && ackOk && hs.totalBytes > 128 * 0x4000_0000)
                  && (answer.value.accepted <==> hs.arch == "x86_64" && hs.totalBytes > 0)
                  && (answer.value.accepted ==> answer.value.reason == "")
                  && (hs.arch != "x86_64" ==> answer.value.reason == "unsupported arch: " + hs.arch)
                  && (r == Rejected(EmptySnapshot) ==> answer.value.reason == "empty snapshot"))
  {
    hide ReceiveBlocks, ReadFrame;
    if ReadFrame(s).Success? && json.parseHandshake(ReadFrame(s).value.frame.payload).Some? {
      var hs := json.parseHandshake(ReadFrame(s).value.frame.payload).value;
      RunErrors(hash, ReadFrame(s).value.rest, Zeros(hs.totalBytes), 0, hs);
    }
  }

  // ---------- Panics ----------

  /** A well-formed block that matches its checksum and starts so high that its end wraps into range. */
  ghost predicate EndWraps(hash: Hash, payload: seq<byte>, total: u64) {
    match ReadBlock(payload)
    case Block(b) => hash(b.data) == b.checksum && TWO_64 <= b.offset + |b.data| <= TWO_64 + total
    case _ => false
  }

  /** On a data frame the receiver crashes exactly when the end of its block wraps around 2^64. */
  lemma CrashIffEndWraps(hash: Hash, payload: seq<byte>, total: u64)
    requires |payload| < TWO_32
    ensures Inspect(hash, payload, total).Crash? <==> EndWraps(hash, payload, total)
  {
    NoSliceFaultInFrames(payload);
  }

  lemma FramesAreShort(s: seq<byte>)
    requires ReadFrame(s).Success?
    ensures |ReadFrame(s).value.frame.payload| < TWO_32
  {
    FromBigEndianBound(s[4..8]);
    assert Pow256(4) == TWO_32;
  }

  /** The run gets as far as a block whose end wraps. */
  ghost predicate MeetsWrap(hash: Hash, s: seq<byte>, total: u64)
    decreases |s|
  {
    match ReadFrame(s)
    case Failure(_) => false
    case Success(Parsed(f, rest)) =>
      (f.typ == MSG_DATA_BLOCK && EndWraps(hash, f.payload, total))
      || match React(hash, f, total)
         case Take(_) => MeetsWrap(hash, rest, total)
         case Ignore => MeetsWrap(hash, rest, total)
         case _ => false
  }

  /** A run panics exactly if it meets a block whose end wraps, or reaches the complete signal with more
      bytes counted than the buffer holds, which only overlapping blocks can do. */
  lemma {:induction false} PanicExact(hash: Hash, s: seq<byte>, buf: seq<byte>, written: u64, hs: Handshake)
    requires |buf| == hs.totalBytes
    ensures ReceiveBlocks(hash, s, buf, written, hs).Panicked? <==>
            MeetsWrap(hash, s, hs.totalBytes)
            || (Completed(hash, s, hs.totalBytes)
                && Wrap64(written + TotalLength(WrittenBlocks(hash, s, hs.totalBytes))) > hs.totalBytes)
    decreases |s|
  {
    hide ReadFrame, Splice, EndWraps, Inspect;
    if ReadFrame(s).Success? {
      var f, rest := ReadFrame(s).value.frame, ReadFrame(s).value.rest;
      FramesAreShort(s);
      CrashIffEndWraps(hash, f.payload, hs.totalBytes);
      var r := React(hash, f, hs.totalBytes);
      if r.Take? {
        var later := WrittenBlocks(hash, rest, hs.totalBytes);
        PanicExact(hash, rest, Splice(buf, r.block.offset, r.block.data), Wrap64(written + |r.block.data|), hs);
        assert WrittenBlocks(hash, s, hs.totalBytes) == [r.block] + later && ([r.block] + later)[1..] == later;
        WrapAdds(written + |r.block.data|, TotalLength(later));
      } else if r.Ignore? {
        PanicExact(hash, rest, buf, written, hs);
      }
    }
  }

  /** Without overlaps a run panics only on a block whose end wraps. */
  lemma DisjointRunPanics(hash: Hash, s: seq<byte>, hs: Handshake)
    requires PairwiseDisjoint(WrittenBlocks(hash, s, hs.totalBytes))
    ensures ReceiveBlocks(hash, s, Zeros(hs.totalBytes), 0, hs).Panicked? <==> MeetsWrap(hash, s, hs.totalBytes)
  {
    hide ReceiveBlocks, MeetsWrap, Completed, WrittenBlocks;
    PanicExact(hash, s, Zeros(hs.totalBytes), 0, hs);
    DisjointRunCounts(hash, s, hs.totalBytes);
  }
}
