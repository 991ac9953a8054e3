/**
 Capturing a process (wraith-rust/src/capturer.rs, with the conversions of registers.rs and
 snapshot.rs that feed the snapshot message).
 */
module Capturer {
  import opened Wrappers
  import opened Words
  import opened Snapshot
  import opened Maps
  import opened Layout
  import opened Machine
  import opened Restorer

  /**
   The source process while it is stopped, and the environment's answers: whether maps can be
   read, how attaching goes, whether ptrace detaches, whether descriptors can be listed, and which
   regions the kernel refuses to let be read.
   */
  datatype Source = Source(
    pid: int, maps: Option<seq<string>>, mem: map<int, byte>, regs: Regs, fpu: seq<byte>,
    attach: Attach, detaches: bool, listsFds: bool, refuses: nat -> bool)

  // StopLost: attached, but waiting for the stop failed, so that no lock is made.
  datatype Attach = Stops | Refuses | StopLost

  datatype CaptureError = UnsupportedHost | MapsUnreadable | AttachFailed | BadRegisters | FdsUnreadable

  // ---------- Conversions ----------

  /** PTRACE_GETREGS and PTRACE_GETFPREGS as the message carries them. */
  function RegistersOf(gp: Regs, fpu: seq<byte>): Registers {
    Registers(
      rax := gp.rax, rbx := gp.rbx, rcx := gp.rcx, rdx := gp.rdx, 
      rdi := gp.rdi, rsi := gp.rsi, rbp := gp.rbp, rsp := gp.rsp,
      r8 := gp.r8, r9 := gp.r9, r10 := gp.r10, r11 := gp.r11,
      r12 := gp.r12, r13 := gp.r13, r14 := gp.r14, r15 := gp.r15,
      rip := gp.rip, rflags := gp.eflags, cs := gp.cs, ss := gp.ss, ds := gp.ds, es := gp.es, fs := gp.fs, gs := gp.gs,
      fsBase := gp.fsBase, gsBase := gp.gsBase, fpuState := fpu)
  }

  /** Putting captured registers back gives the same registers, with no system call pending. */
  lemma RegistersRoundTrip(gp: Regs, fpu: seq<byte>)
    ensures RegsOf(RegistersOf(gp, fpu)) == gp.(origRax := TWO_64 - 1)
    ensures RegistersOf(gp, fpu).fpuState == fpu
  {
  }

  predicate ValidRegisters(r: Registers) {
    r.rip < USER_SPACE_LIMIT && r.rsp != 0 && (r.fpuState == [] || |r.fpuState| == FPU_BYTES)
  }

  function RegionToProto(r: Region): MemoryRegion {
    MemoryRegion(r.start, r.end, r.Size(), r.perms, r.regionType,
                 if r.backingFile.Some? then r.backingFile.value else "", r.offset, r.data, r.checksum)
  }

  function RegionsToProto(rs: seq<Region>): (ps: seq<MemoryRegion>)
    ensures |ps| == |rs|
  {
    seq(|rs|, i requires 0 <= i < |rs| => RegionToProto(rs[i]))
  }

  // ---------- Reading regions ----------

  predicate Readable(src: Source, r: Region, i: nat) {
    !src.refuses(i) && forall a | r.start <= a < r.start + r.Size() :: a in src.mem
  }

  function BytesOf(mem: map<int, byte>, start: int, n: nat): (s: seq<byte>)
    requires forall a | start <= a < start + n :: a in mem
    ensures |s| == n && forall i | 0 <= i < n :: s[i] == mem[start + i]
  {
    seq(n, i requires 0 <= i < n => mem[start + i])
  }

  /** Reading the whole region, or nothing. */
  function DumpRegion(src: Source, r: Region, i: nat): Option<seq<byte>> {
    if Readable(src, r, i) then Some(BytesOf(src.mem, r.start, r.Size())) else None
  }

  predicate Captures(src: Source, r: Region, i: nat) { !ShouldSkip(r) && Readable(src, r, i) }

  /** Region number i after the dump loop. */
  function Dumped(src: Source, crc: Crc, r: Region, i: nat): Region {
    if Captures(src, r, i)
    then
      var data := BytesOf(src.mem, r.start, r.Size());
      r.(data := data, checksum := crc(data))
    else r
  }

  /** The regions that hold data, in the same order. */
  function Retained(rs: seq<Region>): seq<Region> {
    if rs == [] then [] else (if rs[0].data != [] then [rs[0]] else []) + Retained(rs[1..])
  }

  function DumpedFrom(src: Source, crc: Crc, rs: seq<Region>, i: nat): (ds: seq<Region>)
    requires i <= |rs|
    ensures |ds| == |rs| - i
    ensures forall j | 0 <= j < |ds| :: ds[j] == Dumped(src, crc, rs[i + j], i + j)
    decreases |rs| - i
  {
    if i == |rs| then [] else [Dumped(src, crc, rs[i], i)] + DumpedFrom(src, crc, rs, i + 1)
  }

  /** The regions a capture keeps. */
  function CapturedRegions(src: Source, crc: Crc, rs: seq<Region>): seq<Region> {
    Retained(DumpedFrom(src, crc, rs, 0))
  }

  function SnapshotOf(src: Source, crc: Crc, lines: seq<string>): ProcessSnapshot {
    ProcessSnapshot(src.pid, "x86_64", Some(RegistersOf(src.regs, src.fpu)),
                    RegionsToProto(CapturedRegions(src, crc, ParsedLines(lines))))
  }

  function CaptureResult(src: Source, crc: Crc, hostArch: string): Result<ProcessSnapshot, CaptureError> {
    if hostArch != "x86_64" then Failure(UnsupportedHost)
    else if src.maps == None then Failure(MapsUnreadable)
    else if !src.attach.Stops? then Failure(AttachFailed)
    else if !ValidRegisters(RegistersOf(src.regs, src.fpu)) then Failure(BadRegisters)
    else if !src.listsFds then Failure(FdsUnreadable)
    else Success(SnapshotOf(src, crc, src.maps.value))
  }

  // ---------- The capturer ----------

  /** ptrace attachment to the source; released by every way out of a capture that got the lock. */
  class ProcessLock {
    const source: Source
    var frozen: bool

    constructor (source: Source)
      ensures this.source == source && !frozen
    {
      this.source := source;
      frozen := false;
    }

    method Attach() returns (ok: bool)
      modifies this
      ensures ok == source.attach.Stops? && frozen == (old(frozen) || !source.attach.Refuses?)
    {
      if source.attach.Refuses? { return false; }
      frozen := true;
      ok := source.attach.Stops?;
    }

    method Drop()
      modifies this
      ensures frozen == (old(frozen) && !source.detaches)
    {
      if source.detaches { frozen := false; }
    }
  }

  method DumpRegions(src: Source, crc: Crc, parsed: seq<Region>) returns (regions: seq<Region>, skipped: nat)
    ensures regions == DumpedFrom(src, crc, parsed, 0)
    ensures skipped == |set i | 0 <= i < |parsed| && !Captures(src, parsed[i], i)|
  {
    regions := parsed;
    skipped := 0;
    ghost var missed: set<int> := {};
    for i := 0 to |parsed|
      invariant |regions| == |parsed| && skipped == |missed|
      invariant forall j | 0 <= j < i :: regions[j] == Dumped(src, crc, parsed[j], j)
      invariant forall j | i <= j < |parsed| :: regions[j] == parsed[j]
      invariant forall j :: j in missed <==> 0 <= j < i && !Captures(src, parsed[j], j)
    {
      if ShouldSkip(regions[i]) {
        skipped := skipped + 1;
        missed := missed + {i};
        continue;
      }
      match DumpRegion(src, regions[i], i) {
        case Some(data) =>
          regions := regions[i := regions[i].(checksum := crc(data), data := data)];
        case None =>
          skipped := skipped + 1;
          missed := missed + {i};
      }
    }
    assert missed == set i | 0 <= i < |parsed| && !Captures(src, parsed[i], i);
  }

  method Retain(regions: seq<Region>) returns (kept: seq<Region>)
    ensures kept == Retained(regions)
  {
    kept := [];
    for i := 0 to |regions|
      invariant kept + Retained(regions[i..]) == Retained(regions)
    {
      assert regions[i..][1..] == regions[i + 1..];
      if regions[i].data != [] {
        assert kept + ([regions[i]] + Retained(regions[i + 1..])) == (kept + [regions[i]]) + Retained(regions[i + 1..]);
        kept := kept + [regions[i]];
      }
    }
  }

  /** Whether the source is left attached: exactly if the kernel refuses to detach, or if waiting for the
      stop failed after attaching. */
  method Capture(process: ProcessLock, crc: Crc, hostArch: string) returns (r: Result<ProcessSnapshot, CaptureError>)
    requires !process.frozen
    modifies process
    ensures r == CaptureResult(process.source, crc, hostArch)
    ensures process.frozen <==>
            hostArch == "x86_64" && process.source.maps.Some?
            && (process.source.attach.StopLost? || (process.source.attach.Stops? && !process.source.detaches))
  {
    hide Retained, DumpedFrom;
    var src := process.source;
    if hostArch != "x86_64" { return Failure(UnsupportedHost); }
    if src.maps == None { return Failure(MapsUnreadable); }
    var parsed := ParseMaps(src.maps.value);
    var ok := process.Attach();
    if !ok { return Failure(AttachFailed); }
    var registers := RegistersOf(src.regs, src.fpu);
    if !ValidRegisters(registers) {
      process.Drop();
      return Failure(BadRegisters);
    }
    var regions, skipped := DumpRegions(src, crc, parsed);
    regions := Retain(regions);
    if !src.listsFds {
      process.Drop();
      return Failure(FdsUnreadable);
    }
    process.Drop();
    r := Success(ProcessSnapshot(src.pid, "x86_64", Some(registers), RegionsToProto(regions)));
  }
}
