/**
 Injecting system calls into the child (SyscallInjector in wraith-rust/src/restorer.rs):
 the injector, and the proof that an injection whose child traps is no more than the kernel
 serving the call.
 */
module Injector {
  import opened Wrappers
  import opened Words
  import opened Machine

  // ---------- The patch ----------

  // The saved word with its low three bytes replaced by the code of a system call and a trap.
  function Patch(word: u64): nat {
    BitOr(BitAnd(word, Not64(0x00ff_ffff)), 0x00cc_050f)
  }

  lemma PatchValue(word: u64)
    ensures Patch(word) == word / TWO_24 * TWO_24 + 0x00cc_050f
  {
    PowersOfInterest();
    MaskClearsLowBits(word, 24, 64);
    OrFillsLowBits(word / TWO_24, 0x00cc_050f, 24);
  }

  lemma ByteAboveThree(w: nat, i: nat)
    requires i >= 3
    ensures ByteOf(w, i) == ByteOf(w / TWO_24, i - 3)
  {
    assert ByteOf(w, i) == ByteOf(w / 256, i - 1) == ByteOf(w / 256 / 256, i - 2) == ByteOf(w / 256 / 256 / 256, i - 3);
    assert w / 256 / 256 / 256 == w / TWO_24;
  }

  lemma LowBytes(w: nat)
    ensures ByteOf(w, 0) == w % 256 && ByteOf(w, 1) == w / 256 % 256 && ByteOf(w, 2) == w / 256 / 256 % 256
  {
    assert ByteOf(w, 1) == ByteOf(w / 256, 0);
    assert ByteOf(w, 2) == ByteOf(w / 256, 1) == ByteOf(w / 256 / 256, 0);
  }

  /** The patch puts `syscall; int3` in the low three bytes of the word and keeps the other five. */
  lemma PatchBytes(word: u64, i: nat)
    requires i < 8
    ensures ByteOf(Patch(word), i) ==
            if i == 0 then 0x0f else if i == 1 then 0x05 else if i == 2 then 0xcc else ByteOf(word, i)
  {
    hide ByteOf, Patch;
    PatchValue(word);
    var p, q := Patch(word), word / TWO_24;
    LowBytes(p);
    if i >= 3 {
      ByteAboveThree(p, i);
      ByteAboveThree(word, i);
      assert p / TWO_24 == q;
    } else {
      assert p / 256 == q * 0x1_0000 + 0xcc05;
      assert p / 256 / 256 == q * 256 + 0xcc;
    }
  }

  // ---------- What an injection does ----------

  datatype InjectError = NoChild | Unreadable | Unwritable | BadStop(status: WaitStatus) | SysError(errno: int)

  datatype Injected = Injected(machine: Machine, result: Result<u64, InjectError>)

  /** The value an injected call returns, read as a signed number. */
  function ReturnOf(ret: u64): Result<u64, InjectError> {
    var signed := AsInt64(ret);
    if -4095 <= signed < 0 then Failure(SysError(-signed)) else Success(ret)
  }

  /** An error number comes back as itself, and nothing but the last 4095 values is one. */
  lemma ReturnExact(ret: u64, e: Errno)
    ensures ReturnOf(Failed(e)) == Failure(SysError(e))
    ensures ReturnOf(ret) == Success(ret) <==> ret <= TWO_64 - 4096
    ensures ReturnOf(ret).Failure? ==> exists n: Errno :: ret == Failed(n) && ReturnOf(ret) == Failure(SysError(n))
  {
    if ret > TWO_64 - 4096 {
      var n: Errno := TWO_64 - ret;
      assert ret == Failed(n);
    }
  }

  function Patched(m: Machine, c: Call): Machine
    requires WordMapped(m.mem, m.regs.rip)
  {
    m.(mem := WriteWord(m.mem, m.regs.rip, Patch(ReadWord(m.mem, m.regs.rip))), regs := WithCall(m.regs, c))
  }

  function Inject(m: Machine, reply: Reply, c: Call): Injected {
    if !m.alive then Injected(m, Failure(NoChild))
    else if !WordMapped(m.mem, m.regs.rip) then Injected(m, Failure(Unreadable))
    else
      var stop := Resume(Patched(m, c), reply);
      var after := stop.machine;
      if !stop.status.Trapped? then Injected(after, Failure(BadStop(stop.status)))
      else if !after.alive then Injected(after, Failure(NoChild))
      else if !WordMapped(after.mem, m.regs.rip) then Injected(after, Failure(Unwritable))
      else Injected(after.(mem := WriteWord(after.mem, m.regs.rip, ReadWord(m.mem, m.regs.rip)), regs := m.regs),
                    ReturnOf(after.regs.rax))
  }

  // ---------- The injector ----------

  /** The traced child process; requests fail only when it is gone or the word is not mapped. */
  class Tracee {
    const kernel: Kernel
    var m: Machine
    var tick: nat

    constructor (m: Machine, kernel: Kernel)
      ensures this.m == m && tick == 0 && this.kernel == kernel
    {
      this.m, tick := m, 0;
      this.kernel := kernel;
    }

    method GetRegs() returns (r: Option<Regs>)
      ensures r == if m.alive then Some(m.regs) else None
    {
      r := if m.alive then Some(m.regs) else None;
    }

    method SetRegs(regs: Regs) returns (ok: bool)
      modifies this`m
      ensures ok == old(m).alive && m == if ok then old(m).(regs := regs) else old(m)
    {
      ok := m.alive;
      if ok { m := m.(regs := regs); }
    }

    method Peek(a: u64) returns (w: Option<u64>)
      ensures w == if m.alive && WordMapped(m.mem, a) then Some(ReadWord(m.mem, a)) else None
    {
      w := if m.alive && WordMapped(m.mem, a) then Some(ReadWord(m.mem, a)) else None;
    }

    method Poke(a: u64, w: nat) returns (ok: bool)
      modifies this`m
      ensures ok == (old(m).alive && WordMapped(old(m).mem, a))
      ensures m == if ok then old(m).(mem := WriteWord(old(m).mem, a, w)) else old(m)
    {
      ok := m.alive && WordMapped(m.mem, a);
      if ok { m := m.(mem := WriteWord(m.mem, a, w)); }
    }

    // Resumes the child and waits for its next stop.
    method ContAndWait() returns (status: WaitStatus)
      modifies this
      ensures Stop(status, m) == Resume(old(m), kernel(old(tick))) && tick == old(tick) + 1
    {
      var stop := Resume(m, kernel(tick));
      tick := tick + 1;
      m := stop.machine;
      status := stop.status;
    }

    method SkipTick()
      modifies this`tick
      ensures tick == old(tick) + 1
    {
      tick := tick + 1;
    }
  }

  /** One injection; the environment's reply of this tick is used up whether or not the child is resumed. */
  method InjectInto(child: Tracee, c: Call) returns (r: Result<u64, InjectError>)
    modifies child
    ensures Injected(child.m, r) == Inject(old(child.m), child.kernel(old(child.tick)), c)
    ensures child.tick == old(child.tick) + 1
  {
    var savedRegs := child.GetRegs();
    if savedRegs == None {
      child.SkipTick();
      return Failure(NoChild);
    }
    var rip := savedRegs.value.rip;
    var savedWord := child.Peek(rip);
    if savedWord == None {
      child.SkipTick();
      return Failure(Unreadable);
    }
    var patched := child.Poke(rip, Patch(savedWord.value));
    ghost var m0 := old(child.m);
    MappingKept(m0.mem, rip, Patch(savedWord.value));
    var ready := child.SetRegs(WithCall(savedRegs.value, c));
    assert patched && ready && child.m == Patched(m0, c);
    var status := child.ContAndWait();
    if status != Trapped { return Failure(BadStop(status)); }
    var resultRegs := child.GetRegs();
    if resultRegs == None { return Failure(NoChild); }
    var restored := child.Poke(rip, savedWord.value);
    if !restored { return Failure(Unwritable); }
    var reset := child.SetRegs(savedRegs.value);
    assert reset;
    r := ReturnOf(resultRegs.value.rax);
  }

  lemma MappingKept(mem: Memory, a: int, w: nat)
    ensures WriteWord(mem, a, w).Keys == mem.Keys
  {
  }

  // ---------- Transparency ----------

  /** The call asks for nothing on the eight bytes from `rip` on. */
  ghost predicate Spares(c: Call, rip: u64) {
    c.nr == SYS_MMAP || c.nr == SYS_MPROTECT ==> rip + 8 <= c.a0 || c.a0 + PageSpan(c.a1) <= rip
  }

  lemma PatchedMemory(m: Machine, c: Call)
    requires WordMapped(m.mem, m.regs.rip)
    ensures var p, rip := Patched(m, c).mem, m.regs.rip;
            p.Keys == m.mem.Keys
            && (forall a | a in p :: p[a].prot == m.mem[a].prot)
            && (forall a | a in p && !(rip <= a < rip + 8) :: p[a] == m.mem[a])
            && p[rip].value == 0x0f && p[rip + 1].value == 0x05 && p[rip + 2].value == 0xcc
  {
    var rip: int := m.regs.rip;
    var w := ReadWord(m.mem, rip);
    PatchBytes(w, 0);
    PatchBytes(w, 1);
    PatchBytes(w, 2);
    assert rip in m.mem && rip + 1 in m.mem && rip + 2 in m.mem;
  }

  /** Memory `p` is memory `q` except that eight bytes hold other values. */
  ghost predicate SameBut(p: Memory, q: Memory, rip: int) {
    p.Keys == q.Keys
    && (forall a | a in q :: p[a].prot == q[a].prot)
    && (forall a | a in q && !(rip <= a < rip + 8) :: p[a] == q[a])
  }

  /** Memories x and y, made from p and q, still differ only in the word at `rip`, which is as it was in each. */
  ghost predicate WordKept(x: Memory, y: Memory, p: Memory, q: Memory, rip: u64) {
    SameBut(x, y, rip)
    && forall a | rip <= a < rip + 8 :: a in y && a in q && a in p && y[a] == q[a] && x[a] == p[a]
  }

  /** Serving the call in machines `p` and `m`, which differ only in the word at `rip`, does the
      same to both and leaves the word alone. */
  ghost predicate Alike(x: CallResult, y: CallResult, p: Machine, m: Machine, rip: u64) {
    x.ret == y.ret && WordKept(x.machine.mem, y.machine.mem, p.mem, m.mem, rip)
    && x.machine == p.(mem := x.machine.mem, fds := y.machine.fds)
    && y.machine == m.(mem := y.machine.mem, fds := y.machine.fds)
  }

  lemma ZeroingElsewhere(q: Memory, p: Memory, rip: u64, z: Memory)
    requires SameBut(p, q, rip) && WordMapped(q, rip) && forall a | rip <= a < rip + 8 :: a !in z
    ensures WordKept(p + z, q + z, p, q, rip) && WordKept(p, q, p, q, rip)
  {
    forall a | rip <= a < rip + 8 ensures a in q && a in p && a !in z {
      assert a in q;
    }
  }

  lemma MmapCommutes(m: Machine, p: Machine, c: Call, g: Grant, rip: u64)
    requires SameBut(p.mem, m.mem, rip) && p.fds == m.fds && WordMapped(m.mem, rip)
    requires c.nr == SYS_MMAP && Spares(c, rip)
    ensures Alike(Mmap(p, c, g), Mmap(m, c, g), p, m, rip)
  {
    hide ProtOf, PageSpan, ZeroCells, WordKept;
    var place := if g.Elsewhere? then g.place else c.a0;
    var n := PageSpan(c.a1);
    var z := ZeroCells(place, n, ProtOf(c.a2));
    ZeroingElsewhere(m.mem, p.mem, rip, map[]);
    assert NoneMapped(p.mem, place, n) == NoneMapped(m.mem, place, n);
    if !g.Elsewhere? || NoneMapped(m.mem, place, n) {
      forall a | rip <= a < rip + 8 ensures a !in z {
        assert a in m.mem;
      }
      ZeroingElsewhere(m.mem, p.mem, rip, z);
    }
  }

  lemma MprotectCommutes(m: Machine, p: Machine, c: Call, rip: u64)
    requires SameBut(p.mem, m.mem, rip) && p.fds == m.fds && WordMapped(m.mem, rip)
    requires c.nr == SYS_MPROTECT && Spares(c, rip)
    ensures Alike(Mprotect(p, c), Mprotect(m, c), p, m, rip)
  {
    hide ProtOf, PageSpan;
    assert AllMapped(p.mem, c.a0, PageSpan(c.a1)) == AllMapped(m.mem, c.a0, PageSpan(c.a1));
  }

  /** A call that spares the patched word serves the patched child as it would the original. */
  lemma CallCommutes(m: Machine, p: Machine, c: Call, g: Grant, rip: u64)
    requires SameBut(p.mem, m.mem, rip) && p.fds == m.fds && WordMapped(m.mem, rip) && Spares(c, rip)
    ensures Alike(KernelCall(p, c, g), KernelCall(m, c, g), p, m, rip)
  {
    if !g.Refused? && c.nr == SYS_MMAP {
      MmapCommutes(m, p, c, g, rip);
    } else if !g.Refused? && c.nr == SYS_MPROTECT {
      MprotectCommutes(m, p, c, rip);
    }
  }

  /** Writing back the saved word undoes the patch, whatever else happened outside it. */
  lemma UndoPatch(saved: Memory, x: Memory, y: Memory, rip: u64)
    requires WordMapped(saved, rip) && SameBut(x, y, rip)
    requires forall a | rip <= a < rip + 8 :: a in y && y[a] == saved[a]
    ensures WriteWord(x, rip, ReadWord(saved, rip)) == y
  {
    forall a | rip <= a < rip + 8 ensures ByteOf(ReadWord(saved, rip), a - rip) == y[a].value {
      LittleEndianBytes(saved, rip, 8, a - rip);
    }
  }

  /** The three bytes that the patch turns into code can be executed. */
  ghost predicate CodeReady(m: Machine) {
    var rip: int := m.regs.rip;
    Executable(m.mem, rip) && Executable(m.mem, rip + 1) && Executable(m.mem, rip + 2)
  }

  /** The resumed child executes the injected call and stops with a trap signal behind it, its own or
      one that came from outside just then. */
  ghost predicate Served(m: Machine, reply: Reply) {
    var rip: int := m.regs.rip;
    if reply.fate.TrapAfter? then Executable(m.mem, rip) && Executable(m.mem, rip + 1)
    else reply.fate.Runs? && CodeReady(m)
  }

  /** How a patched child stops. */
  lemma PatchedStops(m: Machine, reply: Reply, c: Call)
    requires WordMapped(m.mem, m.regs.rip) && Spares(c, m.regs.rip)
    ensures var stop, p := Resume(Patched(m, c), reply), Patched(m, c);
            var x, y := KernelCall(p, c, reply.grant), KernelCall(m, c, reply.grant);
            Alike(x, y, p, m, m.regs.rip)
            && if Served(m, reply)
               then stop.status.Trapped? && stop.machine == x.machine.(regs := stop.machine.regs)
                    && stop.machine.regs.rax == x.ret
               else if reply.fate.TrapBefore? then stop == Stop(Trapped, p)
               else stop.status == if reply.fate.Dies? then Gone else OtherSignal
  {
    hide KernelCall, Spares, Patch, WriteWord, ReadWord;
    var rip: int := m.regs.rip;
    var p := Patched(m, c);
    PatchedMemory(m, c);
    assert CallOf(p.regs) == c;
    CallCommutes(m, p, c, reply.grant, rip);
    var x := KernelCall(p, c, reply.grant);
    assert rip + 2 in p.mem && x.machine.mem[rip + 2] == p.mem[rip + 2];
  }

  /** How an injection whose call spares the code word can end: with the call served; with a trap
      signal from outside before it, which passes for a call that returned its own number and has no
      effect; or with an error that leaves the patch behind. */
  lemma InjectionEnds(m: Machine, reply: Reply, c: Call)
    requires m.alive && WordMapped(m.mem, m.regs.rip) && Spares(c, m.regs.rip)
    ensures var r, served := Inject(m, reply, c), KernelCall(m, c, reply.grant);
            if Served(m, reply) then r == Injected(served.machine, ReturnOf(served.ret))
            else if reply.fate.TrapBefore? then r == Injected(m, ReturnOf(c.nr))
            else r.result == Failure(BadStop(if reply.fate.Dies? then Gone else OtherSignal))
  {
    hide KernelCall, Spares, Resume, WriteWord, ReadWord, ReturnOf, CodeReady, Patch;
    PatchedStops(m, reply, c);
    if Served(m, reply) {
      var x, y := KernelCall(Patched(m, c), c, reply.grant), KernelCall(m, c, reply.grant);
      UndoPatch(m.mem, x.machine.mem, y.machine.mem, m.regs.rip);
    } else if reply.fate.TrapBefore? {
      PatchIsLocal(m, c);
      UndoPatch(m.mem, Patched(m, c).mem, m.mem, m.regs.rip);
    }
  }

  lemma PatchIsLocal(m: Machine, c: Call)
    requires WordMapped(m.mem, m.regs.rip)
    ensures SameBut(Patched(m, c).mem, m.mem, m.regs.rip) && Patched(m, c).regs.rax == c.nr
    ensures Patched(m, c) == m.(mem := Patched(m, c).mem, regs := Patched(m, c).regs)
  {
    hide Patch, ReadWord, WriteWord;
    PatchedMemory(m, c);
  }

  /** An injection that reports no unexpected stop, errno results included, is exactly the kernel
      serving the call: code, registers and all other state are as before except for the call's own
      effect.  The one exception is a trap signal from outside before the call, which changes nothing. */
  lemma InjectTransparent(m: Machine, reply: Reply, c: Call)
    requires Spares(c, m.regs.rip)
    ensures var r, served := Inject(m, reply, c), KernelCall(m, c, reply.grant);
            if !m.alive then r == Injected(m, Failure(NoChild))
            else if !WordMapped(m.mem, m.regs.rip) then r == Injected(m, Failure(Unreadable))
            else if r.result.Failure? && r.result.error.BadStop? then true
            else if r.result.Failure? && !r.result.error.SysError? then r.machine == m
            else if reply.fate.TrapBefore? then r == Injected(m, ReturnOf(c.nr))
            else r == Injected(served.machine, ReturnOf(served.ret))
    ensures KernelCall(m, c, reply.grant).machine.regs == m.regs
  {
    if m.alive && WordMapped(m.mem, m.regs.rip) {
      InjectionEnds(m, reply, c);
    }
  }

  // ---------- Sequences of injections ----------

  ghost predicate DidTrap(r: Injected) { r.result.Success? || r.result.error.SysError? }

  /** Injects the calls one after the other and says whether every child stop was a trap. */
  ghost function InjectAll(m: Machine, k: Kernel, t: nat, calls: seq<Call>): (Machine, bool)
    decreases |calls|
  {
    if calls == [] then (m, true)
    else
      var r := Inject(m, k(t), calls[0]);
      var (last, ok) := InjectAll(r.machine, k, t + 1, calls[1..]);
      (last, ok && DidTrap(r))
  }

  /** The kernel serving the same calls, with no injection around them, except those that a trap signal
      from outside came before. */
  ghost function ServeAll(m: Machine, k: Kernel, t: nat, calls: seq<Call>): Machine
    decreases |calls|
  {
    if calls == [] then m
    else if k(t).fate.TrapBefore? then ServeAll(m, k, t + 1, calls[1..])
    else ServeAll(KernelCall(m, calls[0], k(t).grant).machine, k, t + 1, calls[1..])
  }

  /** Any sequence of injections that all trap amounts to the calls themselves, less those that were
      never executed. */
  lemma {:induction false} InjectAllTransparent(m: Machine, k: Kernel, t: nat, calls: seq<Call>)
    requires forall i | 0 <= i < |calls| :: Spares(calls[i], m.regs.rip)
    ensures InjectAll(m, k, t, calls).1 ==>
            InjectAll(m, k, t, calls).0 == ServeAll(m, k, t, calls) && ServeAll(m, k, t, calls).regs == m.regs
    decreases |calls|
  {
    if calls != [] {
      var r := Inject(m, k(t), calls[0]);
      InjectTransparent(m, k(t), calls[0]);
      if DidTrap(r) {
        assert r.machine.regs == m.regs;
        InjectAllTransparent(r.machine, k, t + 1, calls[1..]);
      }
    }
  }
}
