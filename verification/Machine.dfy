/**
 A ptrace-stopped child as the restorer sees it: memory with protections, registers, the
 kernel calls that are injected, and what happens when the child is resumed.

 System calls follow section A.2.1 of the System V AMD64 ABI: the number in rax, arguments
 in rdi, rsi, rdx, r10, r8 and r9, the result in rax, rcx and r11 overwritten, and results
 from -4095 to -1 reporting an error.
 */
module Machine {
  import opened Words
  import opened Layout

  /** libc's user_regs_struct. */
  datatype Regs = Regs(
    rax: u64, rbx: u64, rcx: u64, rdx: u64, rdi: u64, rsi: u64, rbp: u64, rsp: u64,
    r8: u64, r9: u64, r10: u64, r11: u64, r12: u64, r13: u64, r14: u64, r15: u64,
    rip: u64, eflags: u64, cs: u64, ss: u64, ds: u64, es: u64, fs: u64, gs: u64,
    fsBase: u64, gsBase: u64, origRax: u64)

  datatype Cell = Cell(value: byte, prot: Prot)

  // Addresses that are not mapped are absent.
  type Memory = map<int, Cell>

  datatype Machine = Machine(mem: Memory, regs: Regs, fpu: seq<byte>, fds: map<u64, int>, alive: bool)

  // ---------- Kernel calls ----------

  const SYS_MMAP: u64 := 9
  const SYS_MPROTECT: u64 := 10
  const SYS_DUP2: u64 := 33
  const MAP_FIXED_PRIVATE_ANONYMOUS: u64 := 0x32

  type Errno = e: int | 1 <= e <= 4095 witness 1
  const EBADF: Errno := 9
  const ENOMEM: Errno := 12
  const EINVAL: Errno := 22
  const ENOSYS: Errno := 38

  datatype Call = Call(nr: u64, a0: u64, a1: u64, a2: u64, a3: u64, a4: u64, a5: u64)

  // What the kernel is willing to do; a mapping it does not put where asked goes to free addresses.
  datatype Grant = AsAsked | Elsewhere(place: u64) | Refused(errno: Errno)

  function Failed(e: Errno): u64 { TWO_64 - e }

  function ProtOf(bits: u64): Prot { Prot(bits % 2 == 1, bits / 2 % 2 == 1, bits / 4 % 2 == 1) }

  lemma ProtRoundTrip(p: Prot)
    ensures ProtOf(p.Bits()) == p
  {
  }

  // Mappings and protections cover whole pages.
  function PageSpan(len: nat): nat { (len + PAGE - 1) / PAGE * PAGE }

  predicate AllMapped(mem: Memory, lo: int, n: nat) { forall a | lo <= a < lo + n :: a in mem }

  predicate NoneMapped(mem: Memory, lo: int, n: nat) { forall a | lo <= a < lo + n :: a !in mem }

  /** Fresh zeroed cells with one protection. */
  function ZeroCells(lo: int, n: nat, p: Prot): (z: Memory)
    ensures forall a :: a in z <==> lo <= a < lo + n
    ensures forall a | a in z :: z[a] == Cell(0, p)
  {
    if n == 0 then map[] else ZeroCells(lo, n - 1, p)[lo + n - 1 := Cell(0, p)]
  }

  function Protected(mem: Memory, lo: int, n: nat, p: Prot): Memory {
    map a | a in mem :: if lo <= a < lo + n then mem[a].(prot := p) else mem[a]
  }

  datatype CallResult = CallResult(machine: Machine, ret: u64)

  function Mmap(m: Machine, c: Call, g: Grant): CallResult {
    var place := if g.Elsewhere? then g.place else c.a0;
    var n := PageSpan(c.a1);
    if c.a1 == 0 || c.a3 != MAP_FIXED_PRIVATE_ANONYMOUS || place % PAGE != 0 then CallResult(m, Failed(EINVAL))
    else if place + n > USER_SPACE_LIMIT then CallResult(m, Failed(ENOMEM))
    else if g.Elsewhere? && !NoneMapped(m.mem, place, n) then CallResult(m, Failed(ENOMEM))
    else CallResult(m.(mem := m.mem + ZeroCells(place, n, ProtOf(c.a2))), place)
  }

  function Mprotect(m: Machine, c: Call): CallResult {
    var n := PageSpan(c.a1);
    if c.a0 % PAGE != 0 then CallResult(m, Failed(EINVAL))
    else if !AllMapped(m.mem, c.a0, n) then CallResult(m, Failed(ENOMEM))
    else CallResult(m.(mem := Protected(m.mem, c.a0, n, ProtOf(c.a2))), 0)
  }

  function Dup2(m: Machine, c: Call): CallResult {
    if c.a0 !in m.fds || c.a1 >= TWO_32 / 2 then CallResult(m, Failed(EBADF))
    else CallResult(m.(fds := m.fds[c.a1 := m.fds[c.a0]]), c.a1)
  }

  /** The kernel serving a call for this process. */
  function KernelCall(m: Machine, c: Call, g: Grant): CallResult {
    if g.Refused? then CallResult(m, Failed(g.errno))
    else if c.nr == SYS_MMAP then Mmap(m, c, g)
    else if c.nr == SYS_MPROTECT then Mprotect(m, c)
    else if c.nr == SYS_DUP2 then Dup2(m, c)
    else CallResult(m, Failed(ENOSYS))
  }

  // ---------- Words in memory ----------

  predicate WordMapped(mem: Memory, a: int) { AllMapped(mem, a, 8) }

  /** The n bytes from `a` on as a little-endian number. */
  function LittleEndian(mem: Memory, a: int, n: nat): nat
    requires AllMapped(mem, a, n)
    decreases n
  {
    if n == 0 then 0 else mem[a].value + 256 * LittleEndian(mem, a + 1, n - 1)
  }

  function ByteOf(w: nat, i: nat): byte {
    if i == 0 then w % 256 else ByteOf(w / 256, i - 1)
  }

  lemma {:induction false} LittleEndianBytes(mem: Memory, a: int, n: nat, i: nat)
    requires AllMapped(mem, a, n) && i < n
    ensures ByteOf(LittleEndian(mem, a, n), i) == mem[a + i].value
    decreases n
  {
    var rest := LittleEndian(mem, a + 1, n - 1);
    assert (mem[a].value + 256 * rest) / 256 == rest;
    if i > 0 {
      LittleEndianBytes(mem, a + 1, n - 1, i - 1);
    }
  }

  lemma {:induction false} LittleEndianBound(mem: Memory, a: int, n: nat)
    requires AllMapped(mem, a, n)
    ensures LittleEndian(mem, a, n) < Pow256(n)
    decreases n
  {
    if n > 0 {
      LittleEndianBound(mem, a + 1, n - 1);
    }
  }

  function ReadWord(mem: Memory, a: int): u64
    requires WordMapped(mem, a)
  {
    LittleEndianBound(mem, a, 8);
    assert Pow256(8) == TWO_64;
    LittleEndian(mem, a, 8)
  }

  /** Debugger writes ignore protections and leave them as they are. */
  function WriteWord(mem: Memory, a: int, w: nat): Memory {
    map k | k in mem :: if a <= k < a + 8 then Cell(ByteOf(w, k - a), mem[k].prot) else mem[k]
  }

  // ---------- Running the child ----------

  predicate Executable(mem: Memory, a: int) { a in mem && mem[a].prot.exec }

  function CallOf(r: Regs): Call { Call(r.rax, r.rdi, r.rsi, r.rdx, r.r10, r.r8, r.r9) }

  function WithCall(r: Regs, c: Call): Regs {
    r.(rax := c.nr, rdi := c.a0, rsi := c.a1, rdx := c.a2, r10 := c.a3, r8 := c.a4, r9 := c.a5)
  }

  // Gone: the child exited or was killed instead of stopping.
  datatype WaitStatus = Trapped | OtherSignal | Gone

  datatype Stop = Stop(status: WaitStatus, machine: Machine)

  // When the child is resumed: it runs, or a signal stops it before the first instruction or after
  // it, or it dies.  A trap signal sent from outside cannot be told from the child's own trap.
  datatype Fate = Runs | SignalBefore | SignalAfter | TrapBefore | TrapAfter | Dies

  // `wild` is what becomes of a child whose control has left the injected code.
  datatype Reply = Reply(fate: Fate, grant: Grant, wild: Stop)

  /** The environment's choices, one per injection. */
  type Kernel = nat -> Reply

  function Resume(m: Machine, reply: Reply): Stop {
    var rip := m.regs.rip;
    if reply.fate.Dies? then Stop(Gone, m.(alive := false))
    else if reply.fate.SignalBefore? then Stop(OtherSignal, m)
    else if reply.fate.TrapBefore? then Stop(Trapped, m)
    else if !Executable(m.mem, rip) || !Executable(m.mem, rip + 1) then Stop(OtherSignal, m)
    else if m.mem[rip].value != 0x0f || m.mem[rip + 1].value != 0x05 then reply.wild
    else
      var served := KernelCall(m, CallOf(m.regs), reply.grant);
      var next := Wrap64(rip + 2);
      var after := m.regs.(rax := served.ret, rcx := next, r11 := m.regs.eflags, rip := next, origRax := m.regs.rax);
      var m' := served.machine.(regs := after);
      if reply.fate.TrapAfter? then Stop(Trapped, m')
      else if reply.fate.SignalAfter? || !Executable(m'.mem, rip + 2) then Stop(OtherSignal, m')
      else if m'.mem[rip + 2].value != 0xcc then reply.wild
      else Stop(Trapped, m'.(regs := m'.regs.(rip := Wrap64(rip + 3), origRax := TWO_64 - 1)))
  }
}
