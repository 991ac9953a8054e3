/**
 Rebuilding a process from a snapshot (wraith-rust/src/restorer.rs).

 Each step is a method on the traced child, proved against a function on machines; what the
 restorer promises is then proved of those functions in the module RestorerProofs.
 */
module Restorer {
  import opened Wrappers
  import opened Words
  import opened Snapshot
  import opened Layout
  import opened Machine
  import opened Injector

  /** CRC-64 of a byte string. */
  type Crc = seq<byte> -> u64

  datatype RestoreError =
    | WrongArch | WrongHost | BadLayout(layout: LayoutError) | NoRegisters | NoRegions
    | ChecksumMismatch(start: u64) | InjectionFailed(cause: InjectError) | Misplaced(mapped: u64) | WriteFailed
    | RegistersFailed | BadFpuSize | DetachFailed

  const FPU_BYTES: nat := 512

  // ---------- Injected calls ----------

  // fd is -1 and offset 0 for an anonymous mapping.
  function MmapCall(addr: u64, len: u64, p: Prot): Call {
    Call(SYS_MMAP, addr, len, p.Bits(), MAP_FIXED_PRIVATE_ANONYMOUS, TWO_64 - 1, 0)
  }

  function MprotectCall(addr: u64, len: u64, p: Prot): Call { Call(SYS_MPROTECT, addr, len, p.Bits(), 0, 0, 0) }

  /** An i32 passed as a 64-bit argument is sign-extended. */
  function SignExtend(fd: u32): u64 { if fd < TWO_32 / 2 then fd else fd + (TWO_64 - TWO_32) }

  function Dup2Call(osFd: u32, fdNum: u32): Call { Call(SYS_DUP2, SignExtend(osFd), SignExtend(fdNum), 0, 0, 0, 0) }

  // ---------- Restoring one region ----------

  datatype Step = Step(machine: Machine, tick: nat, error: Option<RestoreError>)

  function BytesWritten(mem: Memory, addr: int, data: seq<byte>): Memory {
    map a | a in mem :: if addr <= a < addr + |data| then mem[a].(value := data[a - addr]) else mem[a]
  }

  /** Maps the region writable, wherever the kernel says it put it. */
  function MapRegion(m: Machine, k: Kernel, t: nat, r: MemoryRegion): Step {
    var i := Inject(m, k(t), MmapCall(r.startAddr, r.sizeBytes, PermsToProt(r.permissions).(write := true)));
    match i.result
    case Failure(e) => Step(i.machine, t + 1, Some(InjectionFailed(e)))
    case Success(mapped) => Step(i.machine, t + 1, if mapped == r.startAddr then None else Some(Misplaced(mapped)))
  }

  function FillRegion(m: Machine, t: nat, r: MemoryRegion): Step {
    if m.alive && AllMapped(m.mem, r.startAddr, |r.data|)
    then Step(m.(mem := BytesWritten(m.mem, r.startAddr, r.data)), t, None)
    else Step(m, t, Some(WriteFailed))
  }

  /** Takes the write permission away again if the region did not have it. */
  function ProtectRegion(m: Machine, k: Kernel, t: nat, r: MemoryRegion): Step {
    var prot := PermsToProt(r.permissions);
    if prot.write then Step(m, t, None)
    else
      var i := Inject(m, k(t), MprotectCall(r.startAddr, r.sizeBytes, prot));
      Step(i.machine, t + 1, if i.result.Success? then None else Some(InjectionFailed(i.result.error)))
  }

  function RestoreRegion(crc: Crc, m: Machine, k: Kernel, t: nat, r: MemoryRegion): Step {
    if crc(r.data) != r.checksum then Step(m, t, Some(ChecksumMismatch(r.startAddr)))
    else
      var s1 := MapRegion(m, k, t, r);
      if s1.error.Some? then s1
      else
        var s2 := FillRegion(s1.machine, s1.tick, r);
        if s2.error.Some? then s2 else ProtectRegion(s2.machine, k, s2.tick, r)
  }

  function RestoreRegions(crc: Crc, m: Machine, k: Kernel, t: nat, regions: seq<MemoryRegion>): Step
    decreases |regions|
  {
    if regions == [] then Step(m, t, None)
    else
      var s := RestoreRegion(crc, m, k, t, regions[0]);
      if s.error.Some? then s else RestoreRegions(crc, s.machine, k, s.tick, regions[1..])
  }

  // ---------- Registers and descriptors ----------

  function RegsOf(r: Registers): Regs {
    Regs(
      rax := r.rax, rbx := r.rbx, rcx := r.rcx, rdx := r.rdx, rdi := r.rdi, rsi := r.rsi, rbp := r.rbp, rsp := r.rsp,
      r8 := r.r8, r9 := r.r9, r10 := r.r10, r11 := r.r11, r12 := r.r12, r13 := r.r13, r14 := r.r14, r15 := r.r15,
      rip := r.rip, eflags := r.rflags, cs := r.cs, ss := r.ss, ds := r.ds, es := r.es, fs := r.fs, gs := r.gs,
      fsBase := r.fsBase, gsBase := r.gsBase, origRax := TWO_64 - 1)
  }

  function RestoreRegisters(m: Machine, regs: Option<Registers>): (Machine, Option<RestoreError>) {
    if regs == None then (m, Some(NoRegisters))
    else if !m.alive then (m, Some(RegistersFailed))
    else
      var r := regs.value;
      var m1 := m.(regs := RegsOf(r));
      if r.fpuState == [] then (m1, None)
      else if |r.fpuState| != FPU_BYTES then (m1, Some(BadFpuSize))
      else (m1.(fpu := r.fpuState), None)
  }

  /** A file reopened by the restorer, to become descriptor `fdNum` of the child. */
  datatype Opened = Opened(fdNum: u32, osFd: u32)

  /** The dup2 injections; a failure is only logged. */
  function RunDups(m: Machine, k: Kernel, t: nat, files: seq<Opened>): Machine
    decreases |files|
  {
    if files == [] then m
    else RunDups(Inject(m, k(t), Dup2Call(files[0].osFd, files[0].fdNum)).machine, k, t + 1, files[1..])
  }

  // ---------- The whole restore ----------

  datatype Run = Run(machine: Machine, result: Result<nat, RestoreError>)

  function RestoreInner(crc: Crc, m: Machine, k: Kernel, t: nat, snap: ProcessSnapshot, files: seq<Opened>): Run {
    var s := RestoreRegions(crc, m, k, t, snap.memoryRegions);
    if s.error.Some? then Run(s.machine, Failure(s.error.value))
    else
      var (m1, e) := RestoreRegisters(s.machine, snap.registers);
      if e.Some? then Run(m1, Failure(e.value))
      else
        var last := RunDups(m1, k, s.tick, files);
        Run(last, if last.alive then Success(|snap.memoryRegions|) else Failure(DetachFailed))
  }

  function ValidateSnapshot(snap: ProcessSnapshot, hostArch: string): Option<RestoreError> {
    if snap.arch != "x86_64" then Some(WrongArch)
    else if hostArch != "x86_64" then Some(WrongHost)
    else if Verdict(FromSnapshot(snap.memoryRegions)).Some?
        then Some(BadLayout(Verdict(FromSnapshot(snap.memoryRegions)).value))
    else if snap.registers == None then Some(NoRegisters)
    else if snap.memoryRegions == [] then Some(NoRegions)
    else None
  }

  function Killed(m: Machine): Machine { m.(alive := false) }

  /** On any error after the fork the child is killed; before it, there is no child to touch. */
  function Restore(crc: Crc, m: Machine, k: Kernel, t: nat, snap: ProcessSnapshot, hostArch: string,
        files: seq<Opened>): Run {
    var e := ValidateSnapshot(snap, hostArch);
    if e.Some? then Run(m, Failure(e.value))
    else
      var r := RestoreInner(crc, m, k, t, snap, files);
      if r.result.Success? then r else Run(Killed(r.machine), r.result)
  }

  // ---------- The restorer ----------

  class ProcessRestorer {
    const snapshot: ProcessSnapshot
    const crc: Crc
    const hostArch: string

    constructor (snapshot: ProcessSnapshot, crc: Crc, hostArch: string)
      ensures this.snapshot == snapshot && this.crc == crc && this.hostArch == hostArch
    {
      this.snapshot, this.crc, this.hostArch := snapshot, crc, hostArch;
    }

    method Check() returns (e: Option<RestoreError>)
      ensures e == ValidateSnapshot(snapshot, hostArch)
    {
      if snapshot.arch != "x86_64" { return Some(WrongArch); }
      if hostArch != "x86_64" { return Some(WrongHost); }
      var layout := Validate(FromSnapshot(snapshot.memoryRegions));
      if layout.Some? { return Some(BadLayout(layout.value)); }
      if snapshot.registers == None { return Some(NoRegisters); }
      if snapshot.memoryRegions == [] { return Some(NoRegions); }
      e := None;
    }

    method WriteToChild(child: Tracee, r: MemoryRegion) returns (e: Option<RestoreError>)
      modifies child`m
      ensures Step(child.m, child.tick, e) == FillRegion(old(child.m), child.tick, r)
    {
      if child.m.alive && AllMapped(child.m.mem, r.startAddr, |r.data|) {
        child.m := child.m.(mem := BytesWritten(child.m.mem, r.startAddr, r.data));
        e := None;
      } else {
        e := Some(WriteFailed);
      }
    }

    method RestoreOne(child: Tracee, region: MemoryRegion) returns (e: Option<RestoreError>)
      modifies child
      ensures Step(child.m, child.tick, e) == RestoreRegion(crc, old(child.m), child.kernel, old(child.tick), region)
    {
      hide Inject, FillRegion, PermsToProt;
      var computed := crc(region.data);
      if computed != region.checksum { return Some(ChecksumMismatch(region.startAddr)); }
      var finalProt := PermsToProt(region.permissions);
      var mmapProt := finalProt.(write := true);
      var mapped := InjectInto(child, MmapCall(region.startAddr, region.sizeBytes, mmapProt));
      if mapped.Failure? { return Some(InjectionFailed(mapped.error)); }
      if mapped.value != region.startAddr { return Some(Misplaced(mapped.value)); }
      e := WriteToChild(child, region);
      if e.Some? { return; }
      if finalProt != mmapProt {
        var reprotected := InjectInto(child, MprotectCall(region.startAddr, region.sizeBytes, finalProt));
        if reprotected.Failure? { return Some(InjectionFailed(reprotected.error)); }
      }
      e := None;
    }

    method SetRegisters(child: Tracee) returns (e: Option<RestoreError>)
      modifies child`m
      ensures (child.m, e) == RestoreRegisters(old(child.m), snapshot.registers)
    {
      if snapshot.registers == None { return Some(NoRegisters); }
      var regs := snapshot.registers.value;
      var ok := child.SetRegs(RegsOf(regs));
      if !ok { return Some(RegistersFailed); }
      if regs.fpuState != [] {
        if |regs.fpuState| != FPU_BYTES { return Some(BadFpuSize); }
        child.m := child.m.(fpu := regs.fpuState);
      }
      e := None;
    }

    method Inner(child: Tracee, files: seq<Opened>) returns (r: Result<nat, RestoreError>)
      modifies child
      ensures Run(child.m, r) == RestoreInner(crc, old(child.m), child.kernel, old(child.tick), snapshot, files)
    {
      hide RestoreRegion, RestoreRegisters, Inject;
      var regions := snapshot.memoryRegions;
      ghost var k := child.kernel;
      ghost var all := RestoreRegions(crc, child.m, k, child.tick, regions);
      var regionsOk := 0;
      while regionsOk < |regions|
        invariant 0 <= regionsOk <= |regions|
        invariant RestoreRegions(crc, child.m, k, child.tick, regions[regionsOk..]) == all
      {
        var e := RestoreOne(child, regions[regionsOk]);
        if e.Some? { return Failure(e.value); }
        regionsOk := regionsOk + 1;
      }
      var e := SetRegisters(child);
      if e.Some? { return Failure(e.value); }
      ghost var last := RunDups(child.m, k, child.tick, files);
      for i := 0 to |files|
        invariant RunDups(child.m, k, child.tick, files[i..]) == last
      {
        var _ := InjectInto(child, Dup2Call(files[i].osFd, files[i].fdNum));
      }
      if !child.m.alive { return Failure(DetachFailed); }
      r := Success(regionsOk);
    }

    method RestoreProcess(child: Tracee, files: seq<Opened>) returns (r: Result<nat, RestoreError>)
      modifies child
      ensures Run(child.m, r) == Restore(crc, old(child.m), child.kernel, old(child.tick), snapshot, hostArch, files)
    {
      hide RestoreInner;
      var e := Check();
      if e.Some? { return Failure(e.value); }
      r := Inner(child, files);
      if r.Failure? {
        child.m := Killed(child.m);
      }
    }
  }
}
