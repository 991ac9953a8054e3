/**
 The whole pipeline: capture, encode, send, receive, decode and restore.
 */
module Pipeline {
  import opened Wrappers
  import opened Words
  import opened Snapshot
  import opened MapsProofs
  import opened Layout
  import opened Machine
  import opened Restorer
  import opened RestorerProofs
  import opened Capturer
  import opened CapturerProofs
  import opened RestorerProgram
  import Protocol
  import Delta
  import Receiver
  import Transmitter
  import Transfer
  import Teleporter
  import TeleporterProofs

  /** The restored machine reproduces the source on the kept mappings and leaves the rest of the stub alone. */
  ghost predicate Reproduces(src: Source, vs: seq<Vma>, stub: Machine, after: Machine) {
    (forall j: nat, a | j < |vs| && Kept(src, vs, j) && InVma(vs[j], a) ::
       a in src.mem && a in after.mem && after.mem[a] == Cell(src.mem[a], PermsToProt(vs[j].perms)))
    && (forall a | (forall j: nat | j < |vs| && Kept(src, vs, j) :: !InVma(vs[j], a)) :: SameAt(after.mem, stub.mem, a))
    && after.regs == src.regs.(origRax := TWO_64 - 1)
    && after.fpu == (if src.fpu == [] then stub.fpu else src.fpu)
  }

  lemma RegionHeld(snap: ProcessSnapshot, before: Machine, after: Machine, p: nat, a: int)
    requires AllWholePages(snap.memoryRegions) && Rebuilt(snap, before, after)
    requires p < |snap.memoryRegions| && Inside(snap.memoryRegions[p], a)
    ensures WholePages(snap.memoryRegions[p])
    ensures a in after.mem && after.mem[a]
         == Cell(snap.memoryRegions[p].data[a - snap.memoryRegions[p].startAddr],
             PermsToProt(snap.memoryRegions[p].permissions))
  {
    hide PermsToProt, SameAt, InsideAny;
    assert Holds(after.mem, snap.memoryRegions[p]);
  }

  lemma KeptCell(src: Source, crc: Crc, vs: seq<Vma>, stub: Machine, after: Machine, j: nat, a: int)
    requires Listed(src, vs) && j < |vs| && Kept(src, vs, j) && InVma(vs[j], a)
    requires var snap := SnapshotOf(src, crc, src.maps.value);
             AllWholePages(snap.memoryRegions) && Rebuilt(snap, stub, after)
    ensures a in src.mem && a in after.mem && after.mem[a] == Cell(src.mem[a], PermsToProt(vs[j].perms))
  {
    hide Kept, Dumped, FromIndex, SoundMaps, PermsToProt, RegionToProto, SnapshotOf, Rebuilt, AllWholePages,
        InUserSpace;
    var snap := SnapshotOf(src, crc, src.maps.value);
    SnapshotRegions(src, crc, vs);
    var p := Position(src, crc, vs, 0, j);
    assert snap.memoryRegions[p] == KeptRegion(src, crc, vs, j);
    KeptRegionSound(src, crc, vs, j);
    RegionHeld(snap, stub, after, p, a);
  }

  lemma RegionFromSource(src: Source, crc: Crc, vs: seq<Vma>, stub: Machine, after: Machine, p: nat)
    requires Listed(src, vs) && Reproduces(src, vs, stub, after)
    requires p < |SnapshotOf(src, crc, src.maps.value).memoryRegions|
    ensures var r := SnapshotOf(src, crc, src.maps.value).memoryRegions[p]; WholePages(r) && Holds(after.mem, r)
  {
    hide Kept, Dumped, FromIndex, SoundMaps, PermsToProt, RegionToProto, SnapshotOf, InUserSpace, SameAt;
    SnapshotRegions(src, crc, vs);
    var r := SnapshotOf(src, crc, src.maps.value).memoryRegions[p];
    var j := Origin(src, crc, vs, 0, p);
    KeptRegionSound(src, crc, vs, j);
    forall a | Inside(r, a)
      ensures a in after.mem && after.mem[a] == Cell(r.data[a - r.startAddr], PermsToProt(r.permissions))
    {
      assert InVma(vs[j], a);
    }
  }

  /** The restorer's promise for a captured snapshot, in terms of the source. */
  lemma ReproducesIffRebuilt(src: Source, crc: Crc, vs: seq<Vma>, stub: Machine, after: Machine)
    requires Listed(src, vs)
    ensures var snap := SnapshotOf(src, crc, src.maps.value);
            AllWholePages(snap.memoryRegions)
            && (Reproduces(src, vs, stub, after) <==> Rebuilt(snap, stub, after))
  {
    hide SoundMaps, Kept, Dumped, SnapshotOf, InVma, Holds;
    var snap := SnapshotOf(src, crc, src.maps.value);
    CapturedPassesValidation(src, crc, vs);
    SnapshotRegisters(src, crc);
    RegistersRoundTrip(src.regs, src.fpu);
    forall a ensures InsideAny(snap.memoryRegions, a)
                     <==> exists j: nat :: j < |vs| && Kept(src, vs, j) && InVma(vs[j], a) {
      CapturedCoverage(src, crc, vs, a);
    }
    if Rebuilt(snap, stub, after) {
      forall j: nat, a | j < |vs| && Kept(src, vs, j) && InVma(vs[j], a)
        ensures a in src.mem && a in after.mem && after.mem[a] == Cell(src.mem[a], PermsToProt(vs[j].perms))
      {
        KeptCell(src, crc, vs, stub, after, j, a);
      }
    }
    if Reproduces(src, vs, stub, after) {
      forall p | 0 <= p < |snap.memoryRegions| ensures Holds(after.mem, snap.memoryRegions[p]) {
        RegionFromSource(src, crc, vs, stub, after, p);
      }
    }
  }

  /** A stub whose own code is in no captured region, in user memory above the first page. */
  ghost predicate FitStub(snap: ProcessSnapshot, stub: Machine) {
    OutOfTheWay(stub, snap) && StubMemory(stub.mem)
  }

  lemma SnapshotRegisters(src: Source, crc: Crc)
    requires src.maps.Some?
    ensures SnapshotOf(src, crc, src.maps.value).registers == Some(RegistersOf(src.regs, src.fpu))
  {
  }

  /** Capture then restore preserves memory, exactly the mappings that were kept coming back with their
      bytes and protections, and the registers with them, if and only if the restore lost no protection
      and left no injected code. */
  lemma CaptureThenRestore(
      src: Source, crc: Crc, vs: seq<Vma>, stub: Machine, k: Kernel, host: string, files: seq<Opened>)
    requires Listed(src, vs) && FitStub(SnapshotOf(src, crc, src.maps.value), stub)
    requires Restore(crc, stub, k, 0, SnapshotOf(src, crc, src.maps.value), host, files).result.Success?
    ensures var snap := SnapshotOf(src, crc, src.maps.value);
            Reproduces(src, vs, stub, Restore(crc, stub, k, 0, snap, host, files).machine)
            <==> ExactEnd(snap, stub, k, 0, files)
  {
    hide Restore, OutOfTheWay, StubMemory, ExactEnd, SoundMaps, SnapshotOf, Reproduces, Rebuilt;
    var snap := SnapshotOf(src, crc, src.maps.value);
    ReproducesIffRebuilt(src, crc, vs, stub, Restore(crc, stub, k, 0, snap, host, files).machine);
    RestoreExactIff(crc, stub, k, 0, snap, host, files);
  }

  /** When a process can be captured and restored: capture succeeds for an ordinary process, and with a
      cooperative kernel and a ready stub out of the way the restore then does, if and only if the
      capture kept at least one mapping. */
  lemma CapturedRestoresIff(
      src: Source, crc: Crc, vs: seq<Vma>, stub: Machine, k: Kernel, t: nat, files: seq<Opened>)
    requires Listed(src, vs) && src.attach.Stops? && SaneRegisters(src.regs, src.fpu) && src.listsFds
    requires var snap := SnapshotOf(src, crc, src.maps.value);
             OutOfTheWay(stub, snap) && Cooperative(k, t, snap.memoryRegions)
    requires StubReady(stub) && NeverDies(k)
    ensures var captured := CaptureResult(src, crc, "x86_64");
            captured == Success(SnapshotOf(src, crc, src.maps.value))
            && (Restore(crc, stub, k, t, captured.value, "x86_64", files).result.Success?
                <==> exists j: nat :: j < |vs| && Kept(src, vs, j))
  {
    hide Restore, SoundMaps, Dumped, Kept, StubReady, Cooperative, NeverDies, OutOfTheWay;
    var snap := SnapshotOf(src, crc, src.maps.value);
    CaptureOutcome(src, crc, "x86_64");
    CapturedSound(src, crc, vs);
    CapturedPassesValidation(src, crc, vs);
    SnapshotRegisters(src, crc);
    RestoreSucceedsIff(crc, stub, k, t, snap, "x86_64", files);
    CapturedArch(src, crc);
  }

  lemma CapturedArch(src: Source, crc: Crc)
    requires src.maps.Some?
    ensures SnapshotOf(src, crc, src.maps.value).arch == "x86_64"
  {
  }

  /** From the source's memory to the destination's: the snapshot arrives as captured, and restoring
      what arrived reproduces the source under the same condition. */
  lemma MigrationPreservesProcess(
      src: Source, crc: Crc, vs: seq<Vma>, codec: SnapshotCodec, json: Protocol.Json, hash: Delta.Hash,
      opts: Transmitter.TransferOptions, stub: Machine, k: Kernel, host: string, files: seq<Opened>)
    requires Listed(src, vs) && opts.maxRetries >= 0
    requires var snap := SnapshotOf(src, crc, src.maps.value);
             0 < |codec.encode(snap)| <= Receiver.MAX_SNAPSHOT_BYTES && codec.Carries(snap)
             && json.Carries(Transmitter.HandshakeOf(codec.encode(snap), opts))
             && FitStub(snap, stub) && Restore(crc, stub, k, 0, snap, host, files).result.Success?
    ensures var snap := SnapshotOf(src, crc, src.maps.value);
            var sent := codec.encode(snap);
            Delta.GoSlice(sent)
            && var r := Receiver.Receive(json, hash, Transfer.SenderStream(json, hash, sent, opts), true);
               r.Accepted? && codec.decode(r.data).Some?
               && (Reproduces(src, vs, stub, Restore(crc, stub, k, 0, codec.decode(r.data).value, host, files).machine)
                   <==> ExactEnd(snap, stub, k, 0, files))
  {
    hide Restore, FitStub, ExactEnd, SoundMaps, Reproduces, SnapshotOf;
    var snap := SnapshotOf(src, crc, src.maps.value);
    CaptureThenRestore(src, crc, vs, stub, k, host, files);
    Transfer.TransferCorrect(json, hash, codec.encode(snap), opts, true);
  }

  // ---------- The commit ----------

  /** The file a restorer can find: none, one that is still empty, or what the receiver accepted. */
  ghost predicate FileFrom(file: Option<seq<byte>>, r: Receiver.Outcome) {
    file.Some? ==> file.value == [] || (r.Accepted? && file.value == r.data)
  }

  /** Of whatever part of a session reached the receiver, a restorer that exits 0 has seen all. */
  lemma ExitZeroSawSnapshot(
      snap: ProcessSnapshot, crc: Crc, codec: SnapshotCodec, json: Protocol.Json, hash: Delta.Hash,
      opts: Transmitter.TransferOptions, wire: seq<byte>, ackOk: bool, file: Option<seq<byte>>, d: Destination,
      strict: bool)
    requires codec.EmptyIsDefault() && Delta.GoSlice(codec.encode(snap))
    requires json.Carries(Transmitter.HandshakeOf(codec.encode(snap), opts))
    requires wire <= Transfer.SenderStream(json, hash, codec.encode(snap), opts)
    requires FileFrom(file, Receiver.Receive(json, hash, wire, ackOk))
    requires Teleporter.ExitCode(RunRestorer(d, crc, codec, file, strict).run, strict) == 0
    ensures file == Some(codec.encode(snap))
  {
    hide Restore;
    var sent := codec.encode(snap);
    ExitZeroRestored(d, crc, codec, file, strict);
    if wire == Transfer.SenderStream(json, hash, sent, opts) {
      Transfer.SessionReceived(json, hash, sent, opts, ackOk);
      assert file != Some([]);
    } else {
      Transfer.TruncationRefused(json, hash, sent, opts, wire, ackOk);
    }
  }

  /** A whole migration: the source and its mappings, the codecs, how much of the session reached the
      receiver and whether it could answer, the file the restorer found, and both ends' environments. */
  datatype Move = Move(
    src: Source, vs: seq<Vma>, codec: SnapshotCodec, json: Protocol.Json, opts: Transmitter.TransferOptions,
    wire: seq<byte>, ackOk: bool, file: Option<seq<byte>>, d: Destination,
    env: Teleporter.Env, strict: bool, verifyOnly: bool)

  /** The parts of a migration belong together: what is sent is the capture, what arrives is a prefix of
      the session, what is restored is what was received, and the orchestrator sees the restorer's status. */
  ghost predicate Connected(m: Move, crc: Crc, hash: Delta.Hash) {
    m.codec.EmptyIsDefault() && Listed(m.src, m.vs)
    && var snap := SnapshotOf(m.src, crc, m.src.maps.value);
       m.codec.Carries(snap) && Delta.GoSlice(m.codec.encode(snap))
       && m.json.Carries(Transmitter.HandshakeOf(m.codec.encode(snap), m.opts))
       && m.wire <= Transfer.SenderStream(m.json, hash, m.codec.encode(snap), m.opts)
       && FileFrom(m.file, Receiver.Receive(m.json, hash, m.wire, m.ackOk))
       && m.env.restorer == Teleporter.Reported(RunRestorer(m.d, crc, m.codec, m.file, m.strict).run)
  }

  ghost predicate Commits(m: Move) {
    var t := Teleporter.Migration(m.env, m.strict, m.verifyOnly);
    exists i | 0 <= i < |t.events| :: t.events[i].Signalled?
  }

  /** If a migration signals the source, then, however much of the session arrived and whatever happened on
      the way, a live process on the destination was restored from all of the source; and it reproduces
      the source if and only if the restore lost no protection and left no injected code. */
  lemma CommitMeansReproduced(m: Move, crc: Crc, hash: Delta.Hash)
    requires Connected(m, crc, hash) && Commits(m)
    requires m.d.stub.Some? ==> FitStub(SnapshotOf(m.src, crc, m.src.maps.value), m.d.stub.value)
    ensures var p := RunRestorer(m.d, crc, m.codec, m.file, m.strict).process;
            p.Some? && m.d.stub.Some? && p.value.alive
            && (Reproduces(m.src, m.vs, m.d.stub.value, p.value)
                <==> ExactEnd(SnapshotOf(m.src, crc, m.src.maps.value), m.d.stub.value, m.d.kernel, 0, m.d.files))
  {
    hide Restore, RunRestorer, FitStub, ExactEnd, SoundMaps, Reproduces, SnapshotOf;
    hide Teleporter.Migration;
    var snap := SnapshotOf(m.src, crc, m.src.maps.value);
    var t := Teleporter.Migration(m.env, m.strict, m.verifyOnly);
    var i :| 0 <= i < |t.events| && t.events[i].Signalled?;
    TeleporterProofs.SignalOnlyAfterRestore(m.env, m.strict, m.verifyOnly, i);
    ExitZeroIffAlive(m.d, crc, m.codec, m.file, m.strict);
    ExitZeroSawSnapshot(snap, crc, m.codec, m.json, hash, m.opts, m.wire, m.ackOk, m.file, m.d, m.strict);
    ExitZeroRestored(m.d, crc, m.codec, m.file, m.strict);
    CaptureThenRestore(m.src, crc, m.vs, m.d.stub.value, m.d.kernel, m.d.host, m.d.files);
  }
}
