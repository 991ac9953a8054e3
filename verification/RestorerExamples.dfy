/**
 Four concrete restores that report success: three that are not exact, and one that is although its dup2
 injection was interrupted.
 */
module RestorerExamples {
  import opened Wrappers
  import opened Words
  import opened Snapshot
  import opened Layout
  import opened Machine
  import opened Injector
  import opened Restorer
  import opened DupProofs
  import opened RestorerProofs

  const TEXT: u64 := 0x40_0000
  const DATA: u64 := 0x40_1000

  function Padded(code: seq<byte>): (s: seq<byte>)
    requires |code| <= 4096
    ensures |s| == 4096 && forall i | 0 <= i < 4096 :: s[i] == if i < |code| then code[i] else 0
  {
    code + seq(4096 - |code|, _ => 0)
  }

  function PageRegion(crc: Crc, start: u64, perms: string, bytes: seq<byte>): MemoryRegion
    requires |bytes| == 4096 && start + 4096 < TWO_64
  {
    MemoryRegion(start, start + 4096, 4096, perms, "anon", "", 0, bytes, crc(bytes))
  }

  /** One page of code followed by one page of data. */
  function TwoPages(crc: Crc, code: seq<byte>): seq<MemoryRegion>
    requires |code| <= 4096
  {
    [PageRegion(crc, TEXT, "r-xp", Padded(code)), PageRegion(crc, DATA, "rw-p", Padded([]))]
  }

  function RegistersWith(rax: u64, rdi: u64, rsi: u64, rip: u64): Registers {
    Registers(rax, 0, 0, 0, rdi, rsi, 0, 0x7000, 0, 0, 0, 0, 0, 0, 0, 0, rip, 0x202, 0x33, 0x2b, 0, 0, 0, 0, 0, 0, [])
  }

  function Example(crc: Crc, code: seq<byte>, regs: Registers): ProcessSnapshot
    requires |code| <= 4096
  {
    ProcessSnapshot(1, "x86_64", Some(regs), TwoPages(crc, code))
  }

  function Stub(): Machine {
    Machine(ZeroCells(0x1000, 8, Prot(true, false, true)),
            RegsOf(RegistersWith(0, 0, 0, 0x1000)), [], map[], true)
  }

  /** Grants everything and lets the child run, but for what it does at one tick. */
  function KernelWith(at: nat, fate: Fate): Kernel {
    (t: nat) => Reply(if t == at then fate else Runs, AsAsked, Stop(Gone, Stub()))
  }

  lemma PairSorted(x: AddrRange, y: AddrRange)
    requires x.start < y.start
    ensures SortByStart([x, y]) == [x, y]
  {
    assert [x, y][1..] == [y] && [y][1..] == [];
    assert SortByStart([y]) == InsertByStart(y, SortByStart([]));
  }

  /** The checks pass: valid layout, whole pages, a stub out of the way and fit for injections. */
  lemma ExampleIsSound(crc: Crc, code: seq<byte>, regs: Registers)
    requires |code| <= 4096
    ensures var snap := Example(crc, code, regs);
            ValidateSnapshot(snap, "x86_64") == None && AllWholePages(snap.memoryRegions)
            && OutOfTheWay(Stub(), snap) && StubReady(Stub()) && StubMemory(Stub().mem)
            && forall i | 0 <= i < 2 :: PageAligned(snap.memoryRegions[i])
  {
    var regions := TwoPages(crc, code);
    assert InUserSpace(regions[0]) && InUserSpace(regions[1]) && Apart(regions[0], regions[1]);
    ValidationExact(regions);
    var x, y := AddrRange(TEXT, DATA), AddrRange(DATA, DATA + 4096);
    assert RangesOf(regions) == [x, y];
    PairSorted(x, y);
    assert forall a | a in Stub().mem :: Stub().mem[a].prot.exec;
  }

  /** The image: the code page with its bytes, executable, then the data page, not executable. */
  lemma ExampleImage(crc: Crc, code: seq<byte>, regs: Registers, a: int)
    requires |code| <= 4096 && regs.fpuState == []
    ensures var image := Image(Example(crc, code, regs), Stub());
            image.regs == RegsOf(regs)
            && (TEXT <= a < DATA ==>
                  a in image.mem && image.mem[a] == Cell(Padded(code)[a - TEXT], Prot(true, false, true)))
            && (DATA <= a < DATA + 4096 ==> a in image.mem && image.mem[a] == Cell(0, Prot(true, true, false)))
  {
    hide ZeroCells, Padded;
    var regions := TwoPages(crc, code);
    assert regions[1..] == [regions[1]] && [regions[1]][1..] == [];
    var placed := Placed(Stub().mem, regions[0]);
    assert PlacedAll(Stub().mem, regions) == PlacedAll(placed, [regions[1]]);
    assert PlacedAll(placed, [regions[1]]) == PlacedAll(Placed(placed, regions[1]), []);
  }

  /** The code page takes ticks 0 and 1, the data page tick 2. */
  lemma ExampleTicks(crc: Crc, code: seq<byte>, k: Kernel)
    requires |code| <= 4096
    ensures Injections(TwoPages(crc, code)) == 3
    ensures ProtectionsKept(TwoPages(crc, code), k, 0) <==> !k(1).fate.TrapBefore?
    ensures Cooperative(k, 0, TwoPages(crc, code)) <==>
            Serves(k(0)) && (Serves(k(1)) || k(1).fate.TrapBefore?) && Serves(k(2))
  {
    hide Padded, Serves;
    var regions := TwoPages(crc, code);
    assert regions[1..] == [regions[1]] && [regions[1]][1..] == [] && regions[..0] == [];
    assert Injections(regions) == 2 + Injections([regions[1]]);
    assert Injections([regions[1]]) == 1 + Injections([]);
    assert Cooperative(k, 3, []) && Cooperative(k, 2, [regions[1]]) == Serves(k(2));
  }

  /** Whatever the child's registers, and whatever stops it in place of the mprotect, if it passes for success,
      or later, if it does not kill it, the restore reports success. */
  lemma ExampleRestores(crc: Crc, code: seq<byte>, regs: Registers, k: Kernel, files: seq<Opened>)
    requires |code| <= 4096 && regs.fpuState == [] && NeverDies(k) && Cooperative(k, 0, TwoPages(crc, code))
    ensures Restore(crc, Stub(), k, 0, Example(crc, code, regs), "x86_64", files).result.Success?
  {
    hide Restore, Padded, ValidateSnapshot, OutOfTheWay, StubReady, Cooperative;
    ExampleIsSound(crc, code, regs);
    RestoreSucceedsIff(crc, Stub(), k, 0, Example(crc, code, regs), "x86_64", files);
  }

  /** The outcome of the example is decided by the code word at the starting instruction pointer, and by the
      one mprotect. */
  lemma ExampleExactIff(crc: Crc, code: seq<byte>, regs: Registers, k: Kernel, f: Opened)
    requires |code| <= 4096 && regs.fpuState == [] && NeverDies(k) && Cooperative(k, 0, TwoPages(crc, code))
    requires !k(1).fate.TrapBefore?
    ensures var snap, image := Example(crc, code, regs), Image(Example(crc, code, regs), Stub());
            AllWholePages(snap.memoryRegions)
            && (SafeEnd(snap, Stub(), k, 0, [f]) <==> !WordMapped(image.mem, regs.rip) || Traps(image, k(3)))
            && (Rebuilt(snap, Stub(), Restore(crc, Stub(), k, 0, snap, "x86_64", [f]).machine) <==>
                SafeEnd(snap, Stub(), k, 0, [f]) || Coincident(image, k, 3, [f]))
            && (SafeEnd(snap, Stub(), k, 0, [f])
                || SyscallAt(Restore(crc, Stub(), k, 0, snap, "x86_64", [f]).machine.mem, regs.rip))
  {
    hide Restore, Padded, ValidateSnapshot, OutOfTheWay, StubReady, Coincident, Traps, WordMapped, StubMemory;
    hide PlacedAll, Rebuilt, Cooperative, AllAsLeft, ProtectionsKept, NeverDies;
    var snap := Example(crc, code, regs);
    ExampleIsSound(crc, code, regs);
    ExampleTicks(crc, code, k);
    ExampleRestores(crc, code, regs, k, [f]);
    KeptAsLeft(snap.memoryRegions, k, 0);
    RestoreExactIff(crc, Stub(), k, 0, snap, "x86_64", [f]);
    if !SafeEnd(snap, Stub(), k, 0, [f]) {
      UnsafeEndLeavesPatch(crc, Stub(), k, 0, snap, "x86_64", [f]);
    }
  }

  /** Without code of its own the image is mapped and zero. */
  lemma ZeroWord(crc: Crc, regs: Registers, at: int)
    requires regs.fpuState == [] && TEXT <= at <= DATA + 4088
    ensures var mem := Image(Example(crc, [], regs), Stub()).mem; WordMapped(mem, at) && mem[at].value == 0
  {
    hide Padded, Image;
    var mem := Image(Example(crc, [], regs), Stub()).mem;
    forall a | at <= a < at + 8 ensures a in mem && mem[a].value == 0 {
      ExampleImage(crc, [], regs, a);
    }
  }

  /** A signal during the one dup2 injection: the restore reports success and is not exact. */
  lemma SignalledDup(crc: Crc)
    ensures var snap, k, f := Example(crc, [], RegistersWith(0, 0, 0, TEXT)), KernelWith(3, SignalBefore), Opened(3, 5);
            var r := Restore(crc, Stub(), k, 0, snap, "x86_64", [f]);
            r.result.Success? && AllWholePages(snap.memoryRegions) && !Rebuilt(snap, Stub(), r.machine)
            && SyscallAt(r.machine.mem, TEXT)
  {
    hide Restore, Padded, Image, Rebuilt, SafeEnd, WordMapped, TwoPages, SyscallAt, AllWholePages, Quiet, Stub;
    hide Cooperative;
    var regs, k := RegistersWith(0, 0, 0, TEXT), KernelWith(3, SignalBefore);
    ExampleTicks(crc, [], k);
    ExampleRestores(crc, [], regs, k, [Opened(3, 5)]);
    ExampleExactIff(crc, [], regs, k, Opened(3, 5));
    ZeroWord(crc, regs, TEXT);
    ExampleImage(crc, [], regs, TEXT);
  }

  /** A process stopped in the last two bytes of its code: the trap of the injected call lies in a page that
      cannot be executed, so the injection fails and stays, although the kernel never interferes. */
  lemma CodeAtPageEnd(crc: Crc)
    ensures var snap, k, f := Example(crc, [], RegistersWith(0, 0, 0, DATA - 2)), KernelWith(0, Runs), Opened(3, 5);
            var r := Restore(crc, Stub(), k, 0, snap, "x86_64", [f]);
            (forall t: nat :: k(t).fate.Runs? && k(t).grant.AsAsked?)
            && r.result.Success? && AllWholePages(snap.memoryRegions) && !Rebuilt(snap, Stub(), r.machine)
  {
    hide Restore, Padded, Image, Rebuilt, SafeEnd, WordMapped, TwoPages, SyscallAt, AllWholePages, Quiet, Stub;
    hide Cooperative;
    var regs, k := RegistersWith(0, 0, 0, DATA - 2), KernelWith(0, Runs);
    ExampleTicks(crc, [], k);
    ExampleRestores(crc, [], regs, k, [Opened(3, 5)]);
    ExampleExactIff(crc, [], regs, k, Opened(3, 5));
    ZeroWord(crc, regs, DATA - 2);
    ExampleImage(crc, [], regs, DATA);
    assert !CodeReady(Image(Example(crc, [], regs), Stub()));
    assert !CodeInPlace(Image(Example(crc, [], regs), Stub()));
  }

  /** A trap signal from outside in place of the mprotect: the restore reports success, every later stop is
      the child's own trap, and the code page, which is "r-xp", can be written. */
  lemma LostProtection(crc: Crc)
    ensures var snap, k, f := Example(crc, [], RegistersWith(0, 0, 0, TEXT)), KernelWith(1, TrapBefore), Opened(3, 5);
            var r := Restore(crc, Stub(), k, 0, snap, "x86_64", [f]);
            r.result.Success? && AllWholePages(snap.memoryRegions) && !Rebuilt(snap, Stub(), r.machine)
            && snap.memoryRegions[0].permissions == "r-xp" && StartsWritable(r.machine.mem, snap.memoryRegions[0])
  {
    hide Restore, Padded, OutOfTheWay, StubReady, StubMemory, ProtectionsKept, Cooperative, ValidateSnapshot;
    hide StartsWritable, Rebuilt, EndImage, SafeEnd, Coincident;
    var regs, k := RegistersWith(0, 0, 0, TEXT), KernelWith(1, TrapBefore);
    var snap := Example(crc, [], regs);
    ExampleTicks(crc, [], k);
    ExampleIsSound(crc, [], regs);
    ExampleRestores(crc, [], regs, k, [Opened(3, 5)]);
    RestoreExactIff(crc, Stub(), k, 0, snap, "x86_64", [Opened(3, 5)]);
    LostProtectionStays(crc, Stub(), k, 0, snap, "x86_64", [Opened(3, 5)]);
    assert PermsToProt(snap.memoryRegions[1].permissions).write;
  }

  /** A process captured while a debugger had it stopped before a dup2 of its own, with the trap
      behind it: a signal during the same injection leaves exactly what was there. */
  lemma StoppedAtSameCall(crc: Crc)
    ensures var snap, k, f := Example(crc, [0x0f, 0x05, 0xcc], RegistersWith(33, 5, 3, TEXT)),
                              KernelWith(3, SignalBefore), Opened(3, 5);
            var r := Restore(crc, Stub(), k, 0, snap, "x86_64", [f]);
            r.result.Success? && AllWholePages(snap.memoryRegions)
            && !SafeEnd(snap, Stub(), k, 0, [f]) && Rebuilt(snap, Stub(), r.machine)
  {
    hide Restore, Padded, Image, Rebuilt, SafeEnd, Cooperative, TwoPages;
    var code, regs, f := [0x0f, 0x05, 0xcc], RegistersWith(33, 5, 3, TEXT), Opened(3, 5);
    var k, image := KernelWith(3, SignalBefore), Image(Example(crc, code, regs), Stub());
    ExampleTicks(crc, code, k);
    ExampleRestores(crc, code, regs, k, [f]);
    ExampleExactIff(crc, code, regs, k, f);
    forall a | TEXT <= a < TEXT + 8 ensures a in image.mem && image.mem[a].value == Padded(code)[a - TEXT] {
      ExampleImage(crc, code, regs, a);
    }
    ExampleImage(crc, code, regs, TEXT);
    assert image.mem[TEXT].value == 0x0f && image.mem[TEXT + 1].value == 0x05 && image.mem[TEXT + 2].value == 0xcc;
    assert LastStop(image, k, 3, 1, 0);
    assert CallOf(image.regs) == DupCall([f][0]);
  }
}
