/**
 One migration from end to end: a process of a single page is captured, sent, restored and committed.
 It meets everything that the results about the whole pipeline ask for.
 */
module PipelineExample {
  import opened Wrappers
  import opened Words
  import opened Snapshot
  import opened MapsProofs
  import opened Layout
  import opened Machine
  import opened Restorer
  import opened RestorerProofs
  import opened RestorerExamples
  import opened Capturer
  import opened CapturerProofs
  import opened RestorerProgram
  import opened Pipeline
  import Protocol
  import Delta
  import Receiver
  import Transmitter
  import Transfer
  import Teleporter

  const PAGE_OF_CODE: Vma := Vma(TEXT, DATA, "r-xp", 0, "00:00", "0", 0, "")

  function Zeroed(mem: Memory): map<int, byte> { map a | a in mem :: mem[a].value }

  function SmallSource(): Source {
    Source(1, Some(PrintedFile([PAGE_OF_CODE])), Zeroed(ZeroCells(TEXT, 4096, Prot(true, false, true))),
           RegsOf(RegistersWith(0, 0, 0, TEXT)), [], Stops, true, true, _ => false)
  }

  lemma SmallSourceListed()
    ensures Listed(SmallSource(), [PAGE_OF_CODE])
  {
    hide PrintedFile, ZeroCells, Zeroed;
    assert WellFormed(PAGE_OF_CODE);
    assert SoundMaps([PAGE_OF_CODE]);
  }

  lemma SmallSourceKept()
    ensures Kept(SmallSource(), [PAGE_OF_CODE], 0)
  {
    hide PrintedFile;
    assert "r-xp"[0] == 'r';
    SkippedVmas(PAGE_OF_CODE);
  }

  lemma SmallRegions(crc: Crc)
    ensures var regions := SnapshotOf(SmallSource(), crc, SmallSource().maps.value).memoryRegions;
            |regions| == 1 && regions[0].permissions == "r-xp"
  {
    hide Dumped, PrintedFile, RegionOfVma;
    var src, vs := SmallSource(), [PAGE_OF_CODE];
    SmallSourceListed();
    SmallSourceKept();
    SnapshotRegions(src, crc, vs);
    FromIndexStep(src, crc, vs, 0);
    EmptyFrom(src, crc, vs);
    KeptRegionSound(src, crc, vs, 0);
  }

  /** Lets the child run, unless a stray trap signal comes in place of the mprotect. */
  function SmallKernel(stray: bool): Kernel { KernelWith(1, if stray then TrapBefore else Runs) }

  lemma SmallStubIsFit(crc: Crc, stray: bool)
    ensures var snap := SnapshotOf(SmallSource(), crc, SmallSource().maps.value);
            FitStub(snap, Stub()) && StubReady(Stub()) && Cooperative(SmallKernel(stray), 0, snap.memoryRegions)
            && (ExactEnd(snap, Stub(), SmallKernel(stray), 0, []) <==> !stray)
  {
    hide SnapshotOf, EndImage;
    SmallSourceListed();
    SmallRegions(crc);
    var snap := SnapshotOf(SmallSource(), crc, SmallSource().maps.value);
    assert OutOfTheWay(Stub(), snap) by { OutOfTheWayIff(SmallSource(), crc, [PAGE_OF_CODE], Stub()); }
    assert StubReady(Stub()) && StubMemory(Stub().mem) by { ExampleIsSound(crc, [], RegistersWith(0, 0, 0, TEXT)); }
    assert Cooperative(SmallKernel(stray), 2, snap.memoryRegions[1..]);
    assert snap.memoryRegions[..0] == [];
  }

  lemma SmallRestores(crc: Crc, stray: bool)
    ensures Restore(crc, Stub(), SmallKernel(stray), 0, SnapshotOf(SmallSource(), crc, SmallSource().maps.value),
        "x86_64", []).result.Success?
  {
    hide Restore, StubReady, Cooperative, OutOfTheWay, ExactEnd, SnapshotOf, Kept;
    var src, vs := SmallSource(), [PAGE_OF_CODE];
    SmallSourceListed();
    SmallSourceKept();
    SmallStubIsFit(crc, stray);
    assert SaneRegisters(src.regs, src.fpu);
    CapturedRestoresIff(src, crc, vs, Stub(), SmallKernel(stray), 0, []);
  }

  /** A codec of two messages: the empty one, and the one byte that stands for `snap`. */
  function TinyCodec(snap: ProcessSnapshot): SnapshotCodec {
    SnapshotCodec((_: ProcessSnapshot) => [1],
                  (s: seq<byte>) => Some(if s == [] then ProcessSnapshot(0, "", None, []) else snap))
  }

  const CALM: Teleporter.Env := Teleporter.Env(
    true, Teleporter.Passed, true, Teleporter.Exited(0), true, true, Teleporter.Exited(0),
    Teleporter.Reported(Teleporter.Restored(false)), 7, Teleporter.Delivered, Teleporter.Delivered,
    Teleporter.Exited(0), true, true)

  lemma CalmCommits()
    ensures var t := Teleporter.Migration(CALM, false, false);
            exists i | 0 <= i < |t.events| :: t.events[i].Signalled?
  {
    var t := Teleporter.Migration(CALM, false, false);
    assert t.events == [Teleporter.RanCapturer, Teleporter.RanTransmitter, Teleporter.RestorerEnded(Some(0)),
                        Teleporter.Signalled(Teleporter.Sigterm), Teleporter.Signalled(Teleporter.Sigkill)];
    assert t.events[3].Signalled?;
  }

  const SMALL_OPTIONS: Transmitter.TransferOptions := Transmitter.TransferOptions("h", 1, "1.0", 3)

  lemma TinyTransfer(hash: Delta.Hash) returns (json: Protocol.Json)
    ensures json.Carries(Transmitter.HandshakeOf([1], SMALL_OPTIONS))
    ensures var r := Receiver.Receive(json, hash, Transfer.SenderStream(json, hash, [1], SMALL_OPTIONS), true);
            r.Accepted? && r.data == [1]
  {
    json := Transfer.CodecFor(Transmitter.HandshakeOf([1], SMALL_OPTIONS), Protocol.ReadyAck(true, ""));
    Transfer.SessionReceived(json, hash, [1], SMALL_OPTIONS, true);
  }

  lemma RestoresToRunning(d: Destination, crc: Crc, snap: ProcessSnapshot)
    requires d.stub.Some? && !d.fdFailures
    requires Restore(crc, d.stub.value, d.kernel, 0, snap, d.host, d.files).result.Success?
    ensures RunRestorer(d, crc, TinyCodec(snap), Some([1]), false).run == Teleporter.Restored(false)
  {
    hide RestoreInner, ValidateSnapshot;
  }

  /** Everything the results about whole migrations ask for can happen together, and ends in the commit.  The
      copy reproduces the source, or does not, as the one mprotect goes. */
  lemma SmallMigration(crc: Crc, hash: Delta.Hash, stray: bool) returns (m: Move)
    ensures Connected(m, crc, hash) && Commits(m) && m.d.stub.Some?
    ensures FitStub(SnapshotOf(m.src, crc, m.src.maps.value), m.d.stub.value)
    ensures ExactEnd(SnapshotOf(m.src, crc, m.src.maps.value), m.d.stub.value, m.d.kernel, 0, m.d.files) <==> !stray
  {
    hide Listed, Restore, FitStub, ExactEnd, PrintedFile, Stub, RunRestorer, SnapshotOf, Zeroed, Cooperative, StubReady;
    hide Receiver.Receive, Transfer.SenderStream, Teleporter.Migration;
    var src := SmallSource();
    var snap := SnapshotOf(src, crc, src.maps.value);
    var json := TinyTransfer(hash);
    var wire := Transfer.SenderStream(json, hash, [1], SMALL_OPTIONS);
    var d := Destination("x86_64", Some(Stub()), SmallKernel(stray), [], false);
    m := Move(src, [PAGE_OF_CODE], TinyCodec(snap), json, SMALL_OPTIONS, wire, true, Some([1]), d, CALM, false, false);
    assert Listed(m.src, m.vs) by { SmallSourceListed(); }
    SmallStubIsFit(crc, stray);
    assert RunRestorer(d, crc, m.codec, m.file, false).run == Teleporter.Restored(false) by {
      SmallRestores(crc, stray);
      RestoresToRunning(d, crc, snap);
    }
    assert Commits(m) by { CalmCommits(); }
  }

  /** A migration that commits to a copy that reproduces the source. */
  lemma MigrationHappens(crc: Crc, hash: Delta.Hash) returns (m: Move)
    ensures Connected(m, crc, hash) && Commits(m) && m.d.stub.Some?
    ensures var p := RunRestorer(m.d, crc, m.codec, m.file, m.strict).process;
            p.Some? && p.value.alive && Reproduces(m.src, m.vs, m.d.stub.value, p.value)
  {
    hide Connected, Commits, RunRestorer, Reproduces, FitStub, ExactEnd, SnapshotOf;
    m := SmallMigration(crc, hash, false);
    CommitMeansReproduced(m, crc, hash);
  }

  /** A migration that commits to a copy that does not: a page that could not be written now can. */
  lemma CommitCanFallShort(crc: Crc, hash: Delta.Hash) returns (m: Move)
    ensures Connected(m, crc, hash) && Commits(m) && m.d.stub.Some?
    ensures var p := RunRestorer(m.d, crc, m.codec, m.file, m.strict).process;
            p.Some? && p.value.alive && !Reproduces(m.src, m.vs, m.d.stub.value, p.value)
  {
    hide Connected, Commits, RunRestorer, Reproduces, FitStub, ExactEnd, SnapshotOf;
    m := SmallMigration(crc, hash, true);
    CommitMeansReproduced(m, crc, hash);
  }
}
