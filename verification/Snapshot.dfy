/**
 The parts of the snapshot message that restoring reads (proto/wraith.proto).
 */
module Snapshot {
  import opened Wrappers
  import opened Words

  datatype MemoryRegion = MemoryRegion(
    startAddr: u64, endAddr: u64, sizeBytes: u64, permissions: string, regionType: string,
    backingFile: string, fileOffset: u64, data: seq<byte>, checksum: u64)

  datatype Registers = Registers(
    rax: u64, rbx: u64, rcx: u64, rdx: u64, rdi: u64, rsi: u64, rbp: u64, rsp: u64,
    r8: u64, r9: u64, r10: u64, r11: u64, r12: u64, r13: u64, r14: u64, r15: u64,
    rip: u64, rflags: u64, cs: u64, ss: u64, ds: u64, es: u64, fs: u64, gs: u64,
    fsBase: u64, gsBase: u64, fpuState: seq<byte>)

  datatype ProcessSnapshot = ProcessSnapshot(
    pid: int, arch: string, registers: Option<Registers>, memoryRegions: seq<MemoryRegion>)
}
