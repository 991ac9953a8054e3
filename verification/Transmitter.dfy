/**
 The sending end of a transfer (wraith-go/pkg/transport/client.go).
 */
module Transmitter {
  import opened Wrappers
  import opened Words
  import opened Blocks
  import opened Protocol
  import opened Delta

  datatype TransferOptions = TransferOptions(hostname: string, pid: u32, version: string, maxRetries: int)

  datatype TransferStats = TransferStats(totalPages: u32, totalBytes: u64, pagesSent: nat, bytesSent: u64,
      reduction: real)

  datatype TxError =
    | HandshakeFailed | NoAck | BadAck | RejectedByReceiver(reason: string) | BlockFailed(offset: u64) | CompleteFailed

  // ---------- Retry with backoff ----------

  const MILLISECOND: int := 1_000_000

  // 100 milliseconds doubled once per attempt, as a duration in 64-bit nanoseconds.
  function DelayNs(attempt: nat): int {
    AsInt64(100 * Pow2(attempt) * MILLISECOND)
  }

  /** Total sleep of the first n waits; a negative duration is no wait. */
  function SleptAfter(n: nat): int {
    if n == 0 then 0 else SleptAfter(n - 1) + (if DelayNs(n - 1) > 0 then DelayNs(n - 1) else 0)
  }

  /** The delay is the intended one exactly for the first 37 waits; the next one overflows. */
  lemma DelayExactness(attempt: nat)
    ensures DelayNs(attempt) == 100 * Pow2(attempt) * MILLISECOND <==> attempt <= 36
  {
    PowersOfInterest();
    if attempt <= 36 {
      Pow2Monotonic(attempt, 36);
    } else {
      Pow2Monotonic(37, attempt);
    }
  }

  lemma {:induction false} RetryTimeBounded(n: nat)
    requires n <= 37
    ensures SleptAfter(n) == 100 * (Pow2(n) - 1) * MILLISECOND
  {
    if n > 0 {
      RetryTimeBounded(n - 1);
      DelayExactness(n - 1);
    }
  }

  lemma SleepWithin(n: nat, maxRetries: nat)
    requires n <= maxRetries <= 37
    ensures 0 <= SleptAfter(n) <= 100 * (Pow2(maxRetries) - 1) * MILLISECOND
  {
    RetryTimeBounded(n);
    Pow2Monotonic(n, maxRetries);
  }

  ghost predicate AllFail(c: Conn, first: nat, n: nat) {
    forall i | first <= i < first + n :: !c.writeSucceeds(i)
  }

  /** What n failed writes of `e`, the first being write number `first`, leave in the stream. */
  ghost function Scraps(c: Conn, first: nat, n: nat, e: seq<byte>): seq<byte>
    requires e != []
  {
    if n == 0 then [] else Scraps(c, first, n - 1, e) + Cut(e, c.cuts(first + n - 1))
  }

  /** Writes lo to hi-1 were attempts at writing `e`: all failed, or all but the last, which sent it. */
  ghost predicate Tried(c: Conn, lo: nat, hi: nat, before: seq<byte>, output: seq<byte>, e: seq<byte>, failed: bool)
    requires e != [] && lo < hi
  {
    if failed then AllFail(c, lo, hi - lo) && output == before + Scraps(c, lo, hi - lo, e)
    else AllFail(c, lo, hi - 1 - lo) && c.writeSucceeds(hi - 1) && output == before + Scraps(c, lo, hi - 1 - lo, e) + e
  }

  /**
   Reports failure exactly when there was at least one attempt and all failed.  A negative
   retry limit makes no attempt at all and reports success with nothing sent.  What failed
   attempts got out stays in the stream, ahead of the copy that is sent in the end.
   */
  method SendBlockWithRetry(c: Conn, block: DataBlock, maxRetries: int) returns (failed: bool)
    modifies c`output, c`writes, c`sleptNs
    ensures old(c.writes) <= c.writes
    ensures maxRetries >= 0 ==> 1 <= c.writes - old(c.writes) <= maxRetries + 1
    ensures maxRetries < 0 ==> c.writes == old(c.writes)
    ensures failed <==> maxRetries >= 0 && AllFail(c, old(c.writes), maxRetries + 1)
    ensures failed ==> c.writes == old(c.writes) + maxRetries + 1
    ensures maxRetries < 0 ==> c.output == old(c.output)
    ensures maxRetries >= 0 ==>
              Tried(c, old(c.writes), c.writes, old(c.output), c.output, EncodeFrame(BlockFrame(block)), failed)
    ensures maxRetries >= 0 ==> c.sleptNs == old(c.sleptNs) + SleptAfter(c.writes - old(c.writes) - 1)
    ensures 0 <= maxRetries <= 37 ==> c.sleptNs - old(c.sleptNs) <= 100 * (Pow2(maxRetries) - 1) * MILLISECOND
    ensures maxRetries < 0 ==> c.sleptNs == old(c.sleptNs)
  {
    hide EncodeFrame, BlockFrame, DelayNs, Pow2, Cut;
    failed := false;
    ghost var e, first := EncodeFrame(BlockFrame(block)), c.writes;
    var attempt: int := 0;
    assert c.output == old(c.output) + Scraps(c, first, 0, e);
    while attempt <= maxRetries
      invariant 0 <= attempt && (maxRetries >= 0 ==> attempt <= maxRetries + 1)
      invariant maxRetries < 0 ==> attempt == 0
      invariant failed == (attempt > 0)
      invariant c.writes == first + attempt && AllFail(c, first, attempt)
      invariant c.output == old(c.output) + Scraps(c, first, attempt, e)
      invariant c.sleptNs == old(c.sleptNs) +
                SleptAfter(if attempt == maxRetries + 1 && attempt > 0 then attempt - 1 else attempt)
    {
      var ok := c.WriteFrame(BlockFrame(block));
      if !ok {
        failed := true;
        assert c.output == old(c.output) + Scraps(c, first, attempt + 1, e);
        if attempt < maxRetries {
          c.Sleep(DelayNs(attempt));
        }
      } else {
        if maxRetries <= 37 { SleepWithin(attempt, maxRetries); }
        return false;
      }
      attempt := attempt + 1;
    }
    if 0 <= maxRetries <= 37 { SleepWithin(maxRetries, maxRetries); }
  }

  // ---------- Sending a snapshot ----------

  function HandshakeOf(data: seq<byte>, opts: TransferOptions): Handshake
    requires GoSlice(data)
  {
    Handshake(opts.hostname, opts.pid, "x86_64", |data|, Wrap32(PageCount(|data|, PAGE_SIZE)), opts.version)
  }

  const COMPLETE: Frame := Frame(MSG_COMPLETE, [])

  function BlockFrames(bs: seq<DataBlock>): (fs: seq<Frame>)
    ensures |fs| == |bs|
  {
    seq(|bs|, i requires 0 <= i < |bs| => BlockFrame(bs[i]))
  }

  /** The pages of a first transfer. */
  ghost function SnapshotBlocks(hash: Hash, data: seq<byte>): (bs: seq<DataBlock>)
    requires GoSlice(data)
    ensures AllFit(bs, |data|)
  {
    DirtyBlocks(hash, [], data, 0, PAGE_SIZE)
  }

  /** The frames of a complete session, in order. */
  ghost function SessionFrames(json: Json, hash: Hash, data: seq<byte>, opts: TransferOptions): seq<Frame>
    requires GoSlice(data)
  {
    [json.HandshakeFrame(HandshakeOf(data, opts))]
    + (if opts.maxRetries < 0 then [] else BlockFrames(SnapshotBlocks(hash, data)))
    + [COMPLETE]
  }

  lemma {:induction false} SnapshotBlocksPartition(hash: Hash, data: seq<byte>, off: nat)
    requires GoSlice(data)
    ensures var bs := DirtyBlocks(hash, [], data, off, PAGE_SIZE);
            TotalLength(bs) == (if off < |data| then |data| - off else 0)
            && forall i | 0 <= i < |bs| :: |bs[i].data| <= PAGE_SIZE && bs[i].checksum == hash(bs[i].data)
    decreases |data| - off
  {
    if off < |data| {
      var rest := DirtyBlocks(hash, [], data, off + PAGE_SIZE, PAGE_SIZE);
      SnapshotBlocksPartition(hash, data, off + PAGE_SIZE);
      var bs := DirtyBlocks(hash, [], data, off, PAGE_SIZE);
      assert bs[0] == BlockAt(hash, data, off, PAGE_SIZE) && bs[1..] == rest;
    }
  }

  lemma {:induction false} BlocksAtIndex(hash: Hash, data: seq<byte>, offsets: seq<u64>, p: nat)
    requires Within(offsets, 0, |data|)
    ensures |BlocksAt(hash, data, offsets, p)| == |offsets|
    ensures forall i | 0 <= i < |offsets| :: BlocksAt(hash, data, offsets, p)[i] == BlockAt(hash, data, offsets[i], p)
  {
    if offsets != [] {
      BlocksAtIndex(hash, data, offsets[1..], p);
    }
  }

  /** The first k frames of a session have been emitted after `base`. */
  ghost predicate Emitted(base: seq<byte>, output: seq<byte>, session: seq<Frame>, k: nat) {
    k <= |session| && output == base + EncodeFrames(session[..k])
  }

  lemma EmitNone(base: seq<byte>, session: seq<Frame>)
    ensures Emitted(base, base, session, 0)
  {
    assert base + [] == base;
  }

  lemma EmitOne(base: seq<byte>, output: seq<byte>, session: seq<Frame>, k: nat)
    requires k < |session| && Emitted(base, output, session, k)
    ensures Emitted(base, output + EncodeFrame(session[k]), session, k + 1)
  {
    OneMoreFrame(session, k);
    hide EncodeFrame, EncodeFrames;
    assert base + (EncodeFrames(session[..k]) + EncodeFrame(session[k])) == output + EncodeFrame(session[k]);
  }

  lemma OneMoreFrame(session: seq<Frame>, k: nat)
    requires k < |session|
    ensures EncodeFrames(session[..k + 1]) == EncodeFrames(session[..k]) + EncodeFrame(session[k])
  {
    hide EncodeFrame;
    assert session[..k + 1] == session[..k] + [session[k]];
    EncodeFramesConcat(session[..k], [session[k]]);
    assert EncodeFrames([session[k]]) == EncodeFrame(session[k]) + EncodeFrames([session[k]][1..]);
  }

  lemma EncodedNonempty(fs: seq<Frame>)
    requires fs != []
    ensures |EncodeFrames(fs)| > 0
  {
    assert |EncodeFrames(fs)| == |EncodeFrame(fs[0])| + |EncodeFrames(fs[1..])|;
  }

  lemma ProperlyInside(base: seq<byte>, x: seq<byte>, y: seq<byte>)
    requires |y| > 0
    ensures base <= base + x < base + (x + y)
  {
    assert base + (x + y) == (base + x) + y;
  }

  lemma EmittedPrefix(base: seq<byte>, output: seq<byte>, session: seq<Frame>, k: nat)
    requires Emitted(base, output, session, k)
    ensures if k == |session| then output == base + EncodeFrames(session)
            else base <= output < base + EncodeFrames(session)
  {
    hide EncodeFrames, EncodeFrame;
    var done, rest := session[..k], session[k..];
    if k == |session| {
      assert done == session;
    } else {
      assert session == done + rest;
      EncodeFramesConcat(done, rest);
      EncodedNonempty(rest);
      ProperlyInside(base, EncodeFrames(done), EncodeFrames(rest));
      assert EncodeFrames(session) == EncodeFrames(done) + EncodeFrames(rest);
    }
  }

  // ---------- Failed writes ----------

  /** No failed write among numbers lo to hi-1 got anything out. */
  ghost predicate Clean(c: Conn, lo: nat, hi: nat) {
    forall i | lo <= i < hi && !c.writeSucceeds(i) :: c.cuts(i) == 0
  }

  /** After writes lo to hi-1 the first k frames of the session are out after `base`; anything that failed
      writes got out makes the output longer than that. */
  ghost predicate Out(c: Conn, lo: nat, hi: nat, base: seq<byte>, output: seq<byte>, session: seq<Frame>, k: nat) {
    k <= |session|
    && if Clean(c, lo, hi) then Emitted(base, output, session, k)
       else |output| > |base| + |EncodeFrames(session[..k])|
  }

  lemma OutNone(c: Conn, lo: nat, base: seq<byte>, session: seq<Frame>)
    ensures Out(c, lo, lo, base, base, session, 0)
  {
    EmitNone(base, session);
  }

  lemma OutSent(c: Conn, lo: nat, hi: nat, base: seq<byte>, output: seq<byte>, session: seq<Frame>, k: nat)
    requires Out(c, lo, hi, base, output, session, k) && lo <= hi && c.writeSucceeds(hi) && k < |session|
    ensures Out(c, lo, hi + 1, base, output + EncodeFrame(session[k]), session, k + 1)
  {
    hide EncodeFrame;
    if Clean(c, lo, hi) {
      EmitOne(base, output, session, k);
    } else {
      OneMoreFrame(session, k);
    }
  }

  lemma OutFailed(c: Conn, lo: nat, hi: nat, base: seq<byte>, output: seq<byte>, session: seq<Frame>, k: nat,
                  e: seq<byte>)
    requires Out(c, lo, hi, base, output, session, k) && lo <= hi && !c.writeSucceeds(hi) && |e| > 1
    ensures Out(c, lo, hi + 1, base, output + Cut(e, c.cuts(hi)), session, k)
  {
    hide EncodeFrames;
    if Clean(c, lo, hi + 1) {
      assert Clean(c, lo, hi) && output + [] == output;
    }
  }

  lemma {:induction false} OutScraps(
      c: Conn, lo: nat, hi: nat, base: seq<byte>, output: seq<byte>, session: seq<Frame>, k: nat, e: seq<byte>, n: nat)
    requires Out(c, lo, hi, base, output, session, k) && lo <= hi && AllFail(c, hi, n) && |e| > 1
    ensures Out(c, lo, hi + n, base, output + Scraps(c, hi, n, e), session, k)
  {
    hide Out, Cut;
    if n == 0 {
      assert output + [] == output;
    } else {
      OutScraps(c, lo, hi, base, output, session, k, e, n - 1);
      OutFailed(c, lo, hi + n - 1, base, output + Scraps(c, hi, n - 1, e), session, k, e);
      assert output + Scraps(c, hi, n - 1, e) + Cut(e, c.cuts(hi + n - 1)) == output + Scraps(c, hi, n, e);
    }
  }

  /** Attempts at sending the next frame of a session get it out or not. */
  lemma OutTried(c: Conn, first: nat, lo: nat, hi: nat, base: seq<byte>, before: seq<byte>, output: seq<byte>,
                 session: seq<Frame>, k: nat, failed: bool)
    requires first <= lo < hi && k < |session| && Out(c, first, lo, base, before, session, k)
    requires Tried(c, lo, hi, before, output, EncodeFrame(session[k]), failed)
    ensures Out(c, first, hi, base, output, session, if failed then k else k + 1)
  {
    hide Out, EncodeFrame, Scraps, AllFail;
    var e, n := EncodeFrame(session[k]), if failed then hi - lo else hi - 1 - lo;
    OutScraps(c, first, lo, base, before, session, k, e, n);
    if !failed {
      OutSent(c, first, hi - 1, base, before + Scraps(c, lo, n, e), session, k);
    }
  }

  /** A whole session is out exactly if no failed write got anything out; frames short of it are a proper
      prefix then. */
  lemma OutMeans(c: Conn, lo: nat, hi: nat, base: seq<byte>, output: seq<byte>, session: seq<Frame>, k: nat)
    requires Out(c, lo, hi, base, output, session, k)
    ensures k == |session| ==> (output == base + EncodeFrames(session) <==> Clean(c, lo, hi))
    ensures k < |session| && Clean(c, lo, hi) ==> base <= output < base + EncodeFrames(session)
  {
    hide EncodeFrames;
    if Clean(c, lo, hi) {
      EmittedPrefix(base, output, session, k);
    }
    if k == |session| { assert session[..k] == session; }
  }

  lemma PartialLength(bs: seq<DataBlock>, i: nat)
    requires i < |bs|
    ensures TotalLength(bs[..i + 1]) == TotalLength(bs[..i]) + |bs[i].data| <= TotalLength(bs)
  {
    assert bs[..i + 1] == bs[..i] + [bs[i]];
    TotalLengthConcat(bs[..i], [bs[i]]);
    assert bs == bs[..i + 1] + bs[i + 1..];
    TotalLengthConcat(bs[..i + 1], bs[i + 1..]);
  }

  /** What the detector of a first transfer finds. */
  lemma FirstTransfer(hash: Hash, data: seq<byte>, offsets: seq<u64>)
    requires GoSlice(data) && offsets == DirtyPages([], ManifestOf(hash, data, PAGE_SIZE))
    ensures |offsets| == |SnapshotBlocks(hash, data)| == PageCount(|data|, PAGE_SIZE)
    ensures forall i | 0 <= i < |offsets| ::
              offsets[i] < |data|
              && SnapshotBlocks(hash, data)[i] == BlockAt(hash, data, offsets[i], PAGE_SIZE)
    ensures TotalLength(SnapshotBlocks(hash, data)) == |data|
  {
    DirtyOffsetsNameDirtyBlocks(hash, [], data, 0, PAGE_SIZE);
    BlocksAtIndex(hash, data, offsets, PAGE_SIZE);
    FirstCallAllDirty(ManifestOf(hash, data, PAGE_SIZE));
    ManifestLength(hash, data, PAGE_SIZE);
    SnapshotBlocksPartition(hash, data, 0);
  }

  lemma BlockFrameAt(session: seq<Frame>, bs: seq<DataBlock>, i: nat)
    requires |session| == |bs| + 2 && session[1..|session| - 1] == BlockFrames(bs) && i < |bs|
    ensures session[1 + i] == BlockFrame(bs[i])
  {
    assert session[1..|session| - 1][i] == session[1 + i];
  }

  /** On a first transfer page number i starts at byte 4096 i. */
  lemma OffsetOfPage(hash: Hash, data: seq<byte>, offsets: seq<u64>, i: nat)
    requires GoSlice(data) && offsets == DirtyPages([], ManifestOf(hash, data, PAGE_SIZE)) && i < |offsets|
    ensures offsets[i] == i * PAGE_SIZE < |data|
  {
    FirstTransfer(hash, data, offsets);
    FirstCallAllDirty(ManifestOf(hash, data, PAGE_SIZE));
    PageOffsets(hash, data, 0, PAGE_SIZE, i);
  }

  /** The loop over the dirty pages. */
  method SendPages(c: Conn, hash: Hash, data: seq<byte>, maxRetries: int, dirtyOffsets: seq<u64>,
                   ghost first: nat, ghost base: seq<byte>, ghost session: seq<Frame>)
    returns (pagesSent: nat, bytesSent: u64, failedAt: Option<u64>)
    requires GoSlice(data) && dirtyOffsets == DirtyPages([], ManifestOf(hash, data, PAGE_SIZE))
    requires first <= c.writes && Out(c, first, c.writes, base, c.output, session, 1)
    requires maxRetries >= 0 ==>
               |session| == |dirtyOffsets| + 2
               && session[1..|session| - 1] == BlockFrames(SnapshotBlocks(hash, data))
    requires maxRetries < 0 ==> |session| == 2
    modifies c`output, c`writes, c`sleptNs
    ensures old(c.writes) <= c.writes
    ensures failedAt == None ==> Out(c, first, c.writes, base, c.output, session, |session| - 1)
    ensures failedAt == None ==> pagesSent == |dirtyOffsets| && bytesSent == |data|
    ensures pagesSent <= |SnapshotBlocks(hash, data)| == |dirtyOffsets|
    ensures bytesSent == TotalLength(SnapshotBlocks(hash, data)[..pagesSent])
    ensures failedAt.Some? ==>
              maxRetries >= 0 && pagesSent < |dirtyOffsets| && failedAt.value == dirtyOffsets[pagesSent]
    ensures failedAt.Some? ==> Out(c, first, c.writes, base, c.output, session, 1 + pagesSent)
    ensures failedAt.Some? ==>
              c.writes - maxRetries - 1 >= old(c.writes) && AllFail(c, c.writes - maxRetries - 1, maxRetries + 1)
  {
    hide SnapshotBlocks, EncodeFrames, EncodeFrame, BlockPayload, DirtyPages, ManifestOf, Out, Wrap64,
      BlockFrame, BlockFrames, AllFail, SleptAfter, Pow2, Tried;
    ghost var bs := SnapshotBlocks(hash, data);
    FirstTransfer(hash, data, dirtyOffsets);
    pagesSent, bytesSent := 0, 0;
    ghost var sent := 1;
    for i := 0 to |dirtyOffsets|
      invariant sent == if maxRetries < 0 then 1 else 1 + i
      invariant old(c.writes) <= c.writes && Out(c, first, c.writes, base, c.output, session, sent)
      invariant pagesSent == i && bytesSent == TotalLength(bs[..i])
    {
      var offset := dirtyOffsets[i];
      var end := offset + PAGE_SIZE;
      if end > |data| { end := |data|; }
      var page := data[offset..end];
      var block := DataBlock(offset, hash(page), page);
      assert block == bs[i];

      ghost var output, writes := c.output, c.writes;
      var failed := SendBlockWithRetry(c, block, maxRetries);
      if maxRetries >= 0 {
        BlockFrameAt(session, bs, i);
        OutTried(c, first, writes, c.writes, base, output, c.output, session, sent, failed);
      }
      if failed { return pagesSent, bytesSent, Some(offset); }
      sent := if maxRetries < 0 then 1 else sent + 1;
      PartialLength(bs, i);
      WrapExact(bytesSent + |page|);
      pagesSent := pagesSent + 1;
      bytesSent := Wrap64(bytesSent + |page|);
    }
    assert bs[..|bs|] == bs;
    failedAt := None;
  }

  /** How many frames of a session of n frames are out when it ends so. */
  function FramesOut(err: Option<TxError>, pagesSent: nat, n: nat): int {
    match err
    case None => n
    case Some(HandshakeFailed) => 0
    case Some(BlockFailed(_)) => 1 + pagesSent
    case Some(CompleteFailed) => n - 1
    case Some(_) => 1
  }

  /** What is out after `base` when a session ends with `err`: on success all of it, exactly if no failed
      write got anything out; on failure, in that case, the frames before the one that failed. */
  ghost predicate Ended(c: Conn, lo: nat, hi: nat, base: seq<byte>, output: seq<byte>, session: seq<Frame>,
                        err: Option<TxError>, pagesSent: nat)
  {
    var k := FramesOut(err, pagesSent, |session|);
    0 <= k <= |session| && (k == |session| <==> err == None)
    && (err == None ==> (output == base + EncodeFrames(session) <==> Clean(c, lo, hi)))
    && (Clean(c, lo, hi) ==> Emitted(base, output, session, k))
    && (err.Some? && Clean(c, lo, hi) ==> base <= output < base + EncodeFrames(session))
  }

  lemma OutEnds(c: Conn, lo: nat, hi: nat, base: seq<byte>, output: seq<byte>, session: seq<Frame>,
                err: Option<TxError>, pagesSent: nat)
    requires var k := FramesOut(err, pagesSent, |session|);
             0 <= k && Out(c, lo, hi, base, output, session, k) && (k == |session| <==> err == None)
    ensures Ended(c, lo, hi, base, output, session, err, pagesSent)
  {
    hide EncodeFrames;
    OutMeans(c, lo, hi, base, output, session, FramesOut(err, pagesSent, |session|));
  }

  lemma NothingSent(bs: seq<DataBlock>)
    ensures TotalLength(bs[..0]) == 0
  {
  }

  lemma BlockCount(hash: Hash, data: seq<byte>)
    requires GoSlice(data)
    ensures |SnapshotBlocks(hash, data)| == PageCount(|data|, PAGE_SIZE)
  {
    FirstTransfer(hash, data, DirtyPages([], ManifestOf(hash, data, PAGE_SIZE)));
  }

  /** The complete signal ends a session whose other frames are out. */
  lemma CompleteEnds(c: Conn, lo: nat, hi: nat, base: seq<byte>, output: seq<byte>, session: seq<Frame>, pagesSent: nat)
    requires lo <= hi && session != [] && session[|session| - 1] == COMPLETE
    requires Out(c, lo, hi, base, output, session, |session| - 1)
    ensures c.writeSucceeds(hi) ==>
              Ended(c, lo, hi + 1, base, output + EncodeFrame(COMPLETE), session, None, pagesSent)
    ensures !c.writeSucceeds(hi) ==>
              Ended(c, lo, hi + 1, base, output + Cut(EncodeFrame(COMPLETE), c.cuts(hi)), session,
                    Some(CompleteFailed), pagesSent)
  {
    hide EncodeFrame, EncodeFrames, Out, Ended, Cut;
    if c.writeSucceeds(hi) {
      OutSent(c, lo, hi, base, output, session, |session| - 1);
      OutEnds(c, lo, hi + 1, base, output + EncodeFrame(COMPLETE), session, None, pagesSent);
    } else {
      var out := output + Cut(EncodeFrame(COMPLETE), c.cuts(hi));
      OutFailed(c, lo, hi, base, output, session, |session| - 1, EncodeFrame(COMPLETE));
      OutEnds(c, lo, hi + 1, base, out, session, Some(CompleteFailed), pagesSent);
    }
  }

  lemma SessionShape(json: Json, hash: Hash, data: seq<byte>, opts: TransferOptions)
    requires GoSlice(data)
    ensures var session, bs := SessionFrames(json, hash, data, opts), SnapshotBlocks(hash, data);
            |session| == (if opts.maxRetries < 0 then 2 else |bs| + 2)
            && session[0] == json.HandshakeFrame(HandshakeOf(data, opts)) && session[|session| - 1] == COMPLETE
            && (opts.maxRetries >= 0 ==> session[1..|session| - 1] == BlockFrames(bs))
  {
  }

  /**
   On success every byte is accounted for, and the whole session is out exactly if no failed write got
   anything out.  On failure, in that case, exactly the frames before the one that failed are out, and
   the statistics count the blocks among them.
   */
  method SendSnapshot(c: Conn, json: Json, hash: Hash, data: seq<byte>, opts: TransferOptions)
    returns (stats: TransferStats, err: Option<TxError>)
    requires GoSlice(data)
    modifies c
    ensures old(c.writes) <= c.writes
    ensures var session := SessionFrames(json, hash, data, opts);
            Ended(c, old(c.writes), c.writes, old(c.output), c.output, session, err, stats.pagesSent)
    ensures stats.pagesSent <= |SnapshotBlocks(hash, data)|
    ensures stats.bytesSent == TotalLength(SnapshotBlocks(hash, data)[..stats.pagesSent])
    ensures err.Some? && err.value.BlockFailed? ==> err.value.offset == stats.pagesSent * PAGE_SIZE < |data|
    ensures err == Some(HandshakeFailed) <==> !c.writeSucceeds(old(c.writes))
    ensures c.writeSucceeds(old(c.writes)) ==>
              match ReadFrame(old(c.input))
              case Failure(_) => err == Some(NoAck)
              case Success(p) =>
                match json.parseAck(p.frame.payload)
                case None => err == Some(BadAck)
                case Some(ack) =>
                  if ack.accepted then err == None || err.value.BlockFailed? || err.value.CompleteFailed?
                  else err == Some(RejectedByReceiver(ack.reason))
    ensures err.Some? && err.value.BlockFailed? ==>
              opts.maxRetries >= 0 && c.writes - opts.maxRetries - 1 > old(c.writes)
              && AllFail(c, c.writes - opts.maxRetries - 1, opts.maxRetries + 1)
    ensures err == Some(CompleteFailed) || err == None ==>
              c.writes > old(c.writes) + 1 && (err == None <==> c.writeSucceeds(c.writes - 1))
    ensures stats.totalBytes == |data| && stats.totalPages == Wrap32(|SnapshotBlocks(hash, data)|)
    ensures err == None ==> stats.pagesSent == PageCount(|data|, PAGE_SIZE)
    ensures err == None ==> stats.bytesSent == stats.totalBytes == |data| && stats.reduction == 0.0
  {
    hide SnapshotBlocks, EncodeFrames, EncodeFrame, ReadFrame, DirtyPages, ManifestOf, BlockFrames, Out, PageCount,
      Wrap32, Clean, Cut, Ended, SessionFrames, HandshakeOf, TotalLength, AllFail;
    ghost var session, base, first := SessionFrames(json, hash, data, opts), c.output, c.writes;
    SessionShape(json, hash, data, opts);
    OutNone(c, first, base, session);
    NothingSent(SnapshotBlocks(hash, data));
    BlockCount(hash, data);
    var pageCount := Wrap32(PageCount(|data|, PAGE_SIZE));
    stats := TransferStats(pageCount, |data|, 0, 0, 0.0);

    var ok := c.WriteFrame(json.HandshakeFrame(HandshakeOf(data, opts)));
    if !ok {
      OutFailed(c, first, first, base, base, session, 0, EncodeFrame(session[0]));
      OutEnds(c, first, c.writes, base, c.output, session, Some(HandshakeFailed), 0);
      return stats, Some(HandshakeFailed);
    }
    OutSent(c, first, first, base, base, session, 0);

    var frame := c.NextFrame();
    if frame.Failure? {
      OutEnds(c, first, c.writes, base, c.output, session, Some(NoAck), 0);
      return stats, Some(NoAck);
    }
    var ack := json.parseAck(frame.value.payload);
    if ack == None {
      OutEnds(c, first, c.writes, base, c.output, session, Some(BadAck), 0);
      return stats, Some(BadAck);
    }
    if !ack.value.accepted {
      OutEnds(c, first, c.writes, base, c.output, session, Some(RejectedByReceiver(ack.value.reason)), 0);
      return stats, Some(RejectedByReceiver(ack.value.reason));
    }

    var det := new Detector(hash);
    var dirtyOffsets := det.DirtyOffsets(data, PAGE_SIZE);
    FirstTransfer(hash, data, dirtyOffsets);
    var pagesSent, bytesSent, failedAt := SendPages(c, hash, data, opts.maxRetries, dirtyOffsets, first, base, session);
    stats := stats.(pagesSent := pagesSent, bytesSent := bytesSent);
    if failedAt.Some? {
      OutEnds(c, first, c.writes, base, c.output, session, Some(BlockFailed(failedAt.value)), pagesSent);
      OffsetOfPage(hash, data, dirtyOffsets, pagesSent);
      return stats, Some(BlockFailed(failedAt.value));
    }

    CompleteEnds(c, first, c.writes, base, c.output, session, pagesSent);
    ok := c.WriteFrame(COMPLETE);
    if !ok { return stats, Some(CompleteFailed); }
    stats := stats.(reduction := Reduction(stats.bytesSent, stats.totalBytes));
    err := None;
  }
}
