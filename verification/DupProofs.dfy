/**
 The dup2 injections that end a restore (wraith-rust/src/restorer.rs, lines 234-249).  Their
 failures are only logged, so what a failed one leaves behind is still there when the child is let go.
 */
module DupProofs {
  import opened Words
  import opened Layout
  import opened Machine
  import opened Injector
  import opened Restorer

  // ---------- Conditions on the start of the injections ----------

  /** The resumed child stops with a trap signal, behind the injected call or, from outside, before it. */
  ghost predicate Traps(m: Machine, reply: Reply) { Served(m, reply) || reply.fate.TrapBefore? }

  /** The resumed child lives and stops before the injected call is executed, with another signal. */
  ghost predicate StopsBefore(m: Machine, reply: Reply) {
    var rip: int := m.regs.rip;
    !reply.fate.Dies? && !reply.fate.TrapBefore?
    && (reply.fate.SignalBefore? || !Executable(m.mem, rip) || !Executable(m.mem, rip + 1))
  }

  /** In ticks t to t+n-1 nothing can go wrong: the word at the instruction pointer is not mapped, so
      that no injection starts, or every child stop is a trap. */
  ghost predicate DupsSafe(m: Machine, k: Kernel, t: nat, n: nat) {
    !WordMapped(m.mem, m.regs.rip) || forall i: nat | t <= i < t + n :: Traps(m, k(i))
  }

  /** Every injection in ticks t to t+n-1 traps or stops before its call. */
  ghost predicate Quiet(m: Machine, k: Kernel, t: nat, n: nat) {
    forall i: nat | t <= i < t + n :: Traps(m, k(i)) || StopsBefore(m, k(i))
  }

  /** The injected code is in place at the instruction pointer. */
  ghost predicate CodeInPlace(p: Machine) {
    var at: int := p.regs.rip;
    SyscallAt(p.mem, at) && at + 2 in p.mem && p.mem[at + 2].value == 0xcc
  }

  ghost predicate SyscallAt(mem: Memory, a: int) {
    a in mem && a + 1 in mem && mem[a].value == 0x0f && mem[a + 1].value == 0x05
  }

  function DupCall(f: Opened): Call { Dup2Call(f.osFd, f.fdNum) }

  /** The process is stopped on the very code and the very call that the last injection that stopped
      early would leave, and all others trapped: what is left behind is what was there. */
  ghost predicate Coincident(m: Machine, k: Kernel, t: nat, files: seq<Opened>) {
    Quiet(m, k, t, |files|) && CodeInPlace(m)
    && exists j :: 0 <= j < |files| && CallOf(m.regs) == DupCall(files[j]) && LastStop(m, k, t, |files|, j)
  }

  /** Injection number j of n stops early and every later one traps. */
  ghost predicate LastStop(m: Machine, k: Kernel, t: nat, n: nat, j: nat) {
    j < n && StopsBefore(m, k(t + j)) && forall i: nat | t + j < i < t + n :: Traps(m, k(i))
  }

  ghost predicate UserOnly(mem: Memory) { forall a | a in mem :: 0 <= a < USER_SPACE_LIMIT }

  // ---------- One injection ----------

  lemma DupTouchesNoMemory(m: Machine, c: Call, g: Grant)
    requires c.nr == SYS_DUP2
    ensures KernelCall(m, c, g).machine == m.(fds := KernelCall(m, c, g).machine.fds)
  {
  }

  lemma PatchedCode(m: Machine, c: Call)
    requires WordMapped(m.mem, m.regs.rip)
    ensures CodeInPlace(Patched(m, c)) && CallOf(Patched(m, c).regs) == c
    ensures Patched(m, c).mem.Keys == m.mem.Keys && CodeReady(Patched(m, c)) == CodeReady(m)
    ensures forall a :: Executable(Patched(m, c).mem, a) == Executable(m.mem, a)
  {
    hide Patch, ReadWord, WriteWord;
    PatchedMemory(m, c);
    var at: int := m.regs.rip;
    assert at in m.mem && at + 1 in m.mem && at + 2 in m.mem;
  }

  /** A child resumed on an injected dup2 that neither traps nor dies keeps its memory; it is where
      it was, untouched, or behind the call. */
  lemma ResumeDup(p: Machine, reply: Reply)
    requires CodeInPlace(p) && CallOf(p.regs).nr == SYS_DUP2 && !Traps(p, reply)
    ensures var stop := Resume(p, reply);
            !stop.status.Trapped? && stop.machine.mem == p.mem && stop.machine.alive == (p.alive && !reply.fate.Dies?)
            && (StopsBefore(p, reply) ==> stop.machine == p)
            && (!StopsBefore(p, reply) && !reply.fate.Dies? ==> stop.machine.regs.rip == Wrap64(p.regs.rip + 2))
  {
    hide KernelCall;
    DupTouchesNoMemory(p, CallOf(p.regs), reply.grant);
  }

  /** The ways a dup2 injection into a live child can end. */
  lemma DupEnds(m: Machine, reply: Reply, f: Opened)
    requires m.alive
    ensures var after, p := Inject(m, reply, DupCall(f)).machine, m.regs.rip;
            if !WordMapped(m.mem, p) then after == m
            else if Served(m, reply) then after == KernelCall(m, DupCall(f), reply.grant).machine
            else if reply.fate.TrapBefore? then after == m
            else if StopsBefore(m, reply) then after == Patched(m, DupCall(f))
            else if reply.fate.Dies? then !after.alive
            else after.alive && after.mem == Patched(m, DupCall(f)).mem && after.regs.rip == Wrap64(p + 2)
  {
    var c := DupCall(f);
    if WordMapped(m.mem, m.regs.rip) {
      hide Patched, Resume, WriteWord, ReadWord, KernelCall, CodeInPlace, ReturnOf, StopsBefore, CodeReady, Executable;
      PatchedCode(m, c);
      if Traps(m, reply) {
        InjectionEnds(m, reply, c);
        DupTouchesNoMemory(m, c, reply.grant);
      } else {
        PatchedKeeps(m, c);
        SameStops(m, c, reply);
        ResumeDup(Patched(m, c), reply);
      }
    }
  }

  /** A dup2 that is served makes the descriptor of the snapshot another name of the one the file was
      reopened under, whatever it was before, and touches no other. */
  lemma DupServed(m: Machine, reply: Reply, f: Opened)
    requires m.alive && WordMapped(m.mem, m.regs.rip) && Served(m, reply) && !reply.grant.Refused?
    requires f.osFd < 0x8000_0000 && f.fdNum < 0x8000_0000
    ensures var after := Inject(m, reply, DupCall(f)).machine;
            if f.osFd in m.fds then
              after.fds.Keys == m.fds.Keys + {f.fdNum} && after.fds[f.fdNum] == m.fds[f.osFd]
              && forall d | d in m.fds && d != f.fdNum :: after.fds[d] == m.fds[d]
            else after.fds == m.fds
  {
    hide Inject;
    DupEnds(m, reply, f);
  }

  lemma SameStops(m: Machine, c: Call, reply: Reply)
    requires WordMapped(m.mem, m.regs.rip)
    ensures Traps(Patched(m, c), reply) == Traps(m, reply) && StopsBefore(Patched(m, c), reply) == StopsBefore(m, reply)
  {
    hide Patched;
    PatchedCode(m, c);
    PatchedKeeps(m, c);
  }

  lemma PatchedKeeps(m: Machine, c: Call)
    requires WordMapped(m.mem, m.regs.rip)
    ensures Patched(m, c) == m.(mem := Patched(m, c).mem, regs := Patched(m, c).regs)
        && Patched(m, c).regs.rip == m.regs.rip
  {
    hide Patch, ReadWord, WriteWord;
  }

  /** Byte number i of a patched word over the byte `was`. */
  function CodeByte(i: int, was: byte): byte {
    if i == 0 then 0x0f else if i == 1 then 0x05 else if i == 2 then 0xcc else was
  }

  lemma PatchedCell(m: Machine, c: Call, a: int)
    requires WordMapped(m.mem, m.regs.rip) && a in m.mem
    ensures var rip, p := m.regs.rip, Patched(m, c).mem;
            a in p && p[a] ==
              if rip <= a < rip + 8 then Cell(CodeByte(a - rip, m.mem[a].value), m.mem[a].prot) else m.mem[a]
  {
    hide Patch, ByteOf;
    if m.regs.rip <= a < m.regs.rip + 8 {
      PatchBytes(ReadWord(m.mem, m.regs.rip), a - m.regs.rip);
      LittleEndianBytes(m.mem, m.regs.rip, 8, a - m.regs.rip);
    }
  }

  /** Patching a patched child again leaves only the later patch. */
  lemma PatchTwice(m: Machine, b: Call, c: Call)
    requires WordMapped(m.mem, m.regs.rip)
    ensures WordMapped(Patched(m, b).mem, m.regs.rip) && Patched(Patched(m, b), c) == Patched(m, c)
  {
    PatchedCode(m, b);
    PatchedKeeps(m, b);
    PatchedCode(m, c);
    PatchedCode(Patched(m, b), c);
    forall a | a in m.mem ensures Patched(Patched(m, b), c).mem[a] == Patched(m, c).mem[a] {
      hide Patched;
      PatchedCell(m, b, a);
      PatchedCell(m, c, a);
      PatchedCell(Patched(m, b), c, a);
    }
    hide Patch, ReadWord, WriteWord;
    assert Patched(Patched(m, b), c).mem == Patched(m, c).mem;
  }

  /** Patching changes nothing exactly when the process was stopped on this code with this call. */
  lemma PatchInvisible(m: Machine, c: Call)
    requires WordMapped(m.mem, m.regs.rip)
    ensures Patched(m, c) == m <==> CodeInPlace(m) && CallOf(m.regs) == c
  {
    PatchedCode(m, c);
    if CodeInPlace(m) && CallOf(m.regs) == c {
      forall a | a in m.mem ensures Patched(m, c).mem[a] == m.mem[a] {
        hide Patched;
        PatchedCell(m, c, a);
      }
      hide Patch, ReadWord, WriteWord;
      assert Patched(m, c).mem == m.mem;
      assert WithCall(m.regs, c) == m.regs;
    }
  }

  // ---------- All of them ----------

  lemma {:induction false} RunDupsLast(m: Machine, k: Kernel, t: nat, files: seq<Opened>)
    requires files != []
    ensures var n := |files| - 1;
            RunDups(m, k, t, files) == Inject(RunDups(m, k, t, files[..n]), k(t + n), DupCall(files[n])).machine
    decreases |files|
  {
    hide Inject;
    var n := |files| - 1;
    if n > 0 {
      RunDupsLast(Inject(m, k(t), DupCall(files[0])).machine, k, t + 1, files[1..]);
      assert files[..n][1..] == files[1..][..n - 1];
    } else {
      assert files[..n] == [] && files[1..] == [];
    }
  }

  /** What quiet injections leave, apart from descriptors: the child itself, or the patch of the last one
      that stopped early. */
  ghost function LeftBy(m: Machine, k: Kernel, t: nat, files: seq<Opened>): Machine
    requires WordMapped(m.mem, m.regs.rip)
    decreases |files|
  {
    var n := |files| - 1;
    if files == [] then m
    else if StopsBefore(m, k(t + n)) then Patched(m, DupCall(files[n]))
    else LeftBy(m, k, t, files[..n])
  }

  lemma {:induction false} LeftByShape(m: Machine, k: Kernel, t: nat, files: seq<Opened>)
    requires WordMapped(m.mem, m.regs.rip)
    ensures LeftBy(m, k, t, files) == m || exists f | f in files :: LeftBy(m, k, t, files) == Patched(m, DupCall(f))
    decreases |files|
  {
    hide Patched;
    var n := |files| - 1;
    if files != [] {
      if StopsBefore(m, k(t + n)) {
        assert files[n] in files;
      } else {
        LeftByShape(m, k, t, files[..n]);
      }
    }
  }

  /** The mark of an injection that stopped behind its call: its code, and an instruction pointer past it. */
  ghost predicate Moved(m: Machine, rip: u64) {
    UserOnly(m.mem) && SyscallAt(m.mem, rip) && m.regs.rip >= rip + 2
  }

  /** The state of a live child after the injections. */
  ghost predicate AfterDups(m: Machine, k: Kernel, t: nat, files: seq<Opened>, after: Machine)
    requires WordMapped(m.mem, m.regs.rip)
  {
    if Quiet(m, k, t, |files|) then after == LeftBy(m, k, t, files).(fds := after.fds) else Moved(after, m.regs.rip)
  }

  lemma MovedStays(m: Machine, reply: Reply, f: Opened, rip: u64)
    requires m.alive && Moved(m, rip)
    ensures var after := Inject(m, reply, DupCall(f)).machine; after.alive ==> Moved(after, rip)
  {
    hide Inject, Patched;
    DupEnds(m, reply, f);
    if WordMapped(m.mem, m.regs.rip) {
      PatchedPast(m, DupCall(f), rip);
    }
  }

  lemma PatchedPast(m: Machine, c: Call, rip: u64)
    requires Moved(m, rip) && WordMapped(m.mem, m.regs.rip)
    ensures Moved(Patched(m, c), rip) && m.regs.rip < USER_SPACE_LIMIT
  {
    hide Patch, ReadWord, WriteWord;
    PatchedMemory(m, c);
    var at: int := m.regs.rip;
    assert at in m.mem;
  }

  lemma PatchedMarks(m: Machine, c: Call)
    requires UserOnly(m.mem) && WordMapped(m.mem, m.regs.rip)
    ensures UserOnly(Patched(m, c).mem) && SyscallAt(Patched(m, c).mem, m.regs.rip) && m.regs.rip < USER_SPACE_LIMIT
  {
    hide Patch, ReadWord, WriteWord;
    PatchedCode(m, c);
    var at: int := m.regs.rip;
    assert at in m.mem;
  }

  /** One injection into a child as quiet injections leave it. */
  lemma NextQuiet(m: Machine, s: Machine, reply: Reply, f: Opened, was: seq<Opened>, k: Kernel, t: nat)
    requires UserOnly(m.mem) && WordMapped(m.mem, m.regs.rip) && s.alive && m.alive
    requires s == LeftBy(m, k, t, was).(fds := s.fds)
    ensures var after := Inject(s, reply, DupCall(f)).machine;
            after.alive ==>
              if StopsBefore(m, reply) then after == Patched(m, DupCall(f)).(fds := after.fds)
              else if Traps(m, reply) then after == s.(fds := after.fds)
              else Moved(after, m.regs.rip)
  {
    hide Inject, LeftBy, Patched, CodeInPlace;
    LeftByShape(m, k, t, was);
    var base := m.(fds := s.fds);
    SamePatch(m, base, DupCall(f));
    if s != base {
      var g :| g in was && LeftBy(m, k, t, was) == Patched(m, DupCall(g));
      SamePatch(m, base, DupCall(g));
      PatchTwice(base, DupCall(g), DupCall(f));
      PatchedCode(base, DupCall(g));
      PatchedKeeps(base, DupCall(g));
      assert s == Patched(base, DupCall(g));
    }
    assert s.regs.rip == m.regs.rip && s.mem.Keys == m.mem.Keys;
    assert Patched(s, DupCall(f)) == Patched(base, DupCall(f));
    assert Traps(s, reply) == Traps(m, reply) && StopsBefore(s, reply) == StopsBefore(m, reply);
    DupEnds(s, reply, f);
    PatchedMarks(m, DupCall(f));
  }

  lemma SamePatch(m: Machine, n: Machine, c: Call)
    requires WordMapped(m.mem, m.regs.rip) && n == m.(fds := n.fds)
    ensures Patched(n, c) == Patched(m, c).(fds := n.fds)
  {
    hide Patch, ReadWord, WriteWord;
  }

  /** What the dup2 injections do to a child that survives them, whatever happens on the way. */
  lemma {:induction false} DupsEffect(m: Machine, k: Kernel, t: nat, files: seq<Opened>)
    requires UserOnly(m.mem) && WordMapped(m.mem, m.regs.rip) && m.alive
    ensures var after := RunDups(m, k, t, files); after.alive ==> AfterDups(m, k, t, files, after)
    decreases |files|
  {
    hide Inject, Moved, Patched, StopsBefore, Traps, UserOnly;
    if files != [] {
      var n := |files| - 1;
      var was, s := files[..n], RunDups(m, k, t, files[..n]);
      RunDupsLast(m, k, t, files);
      DupsEffect(m, k, t, was);
      if s.alive {
        assert Quiet(m, k, t, n + 1) <==> Quiet(m, k, t, n) && (Traps(m, k(t + n)) || StopsBefore(m, k(t + n)));
        if Quiet(m, k, t, n) {
          NextQuiet(m, s, k(t + n), files[n], was, k, t);
        } else {
          MovedStays(s, k(t + n), files[n], m.regs.rip);
        }
      } else {
        DeadStaysDead(s, k(t + n), files[n]);
      }
    }
  }

  lemma DeadStaysDead(m: Machine, reply: Reply, f: Opened)
    requires !m.alive
    ensures Inject(m, reply, DupCall(f)).machine == m
  {
  }

  lemma {:induction false} DeadDups(m: Machine, k: Kernel, t: nat, files: seq<Opened>)
    requires !m.alive
    ensures RunDups(m, k, t, files) == m
    decreases |files|
  {
    if files != [] {
      DeadStaysDead(m, k(t), files[0]);
      DeadDups(m, k, t + 1, files[1..]);
    }
  }

  /** The same addresses with the same protections. */
  ghost predicate SameRights(x: Memory, y: Memory) {
    x.Keys == y.Keys && forall a | a in y :: x[a].prot == y[a].prot
  }

  lemma PatchKeepsRights(m: Machine, c: Call)
    requires WordMapped(m.mem, m.regs.rip)
    ensures SameRights(Patched(m, c).mem, m.mem)
  {
    hide Patch, ReadWord, WriteWord;
    PatchedMemory(m, c);
  }

  /** Whatever happens during the dup2 injections, a child that survives them has its protections. */
  lemma {:induction false} DupsKeepRights(m: Machine, k: Kernel, t: nat, files: seq<Opened>)
    ensures RunDups(m, k, t, files).alive ==> SameRights(RunDups(m, k, t, files).mem, m.mem)
    decreases |files|
  {
    hide Inject, Patched, KernelCall;
    if !m.alive {
      DeadDups(m, k, t, files);
    } else if files != [] {
      var i := Inject(m, k(t), DupCall(files[0]));
      DupEnds(m, k(t), files[0]);
      DupTouchesNoMemory(m, DupCall(files[0]), k(t).grant);
      if WordMapped(m.mem, m.regs.rip) { PatchKeepsRights(m, DupCall(files[0])); }
      DupsKeepRights(i.machine, k, t + 1, files[1..]);
      if !i.machine.alive { DeadDups(i.machine, k, t + 1, files[1..]); }
    }
  }

  /** Safe dup2 injections change nothing but descriptors. */
  lemma {:induction false} DupsHarmless(m: Machine, k: Kernel, t: nat, files: seq<Opened>)
    requires DupsSafe(m, k, t, |files|)
    ensures RunDups(m, k, t, files) == m.(fds := RunDups(m, k, t, files).fds)
    decreases |files|
  {
    hide Inject;
    if !m.alive {
      DeadDups(m, k, t, files);
    } else if files != [] {
      DupEnds(m, k(t), files[0]);
      DupsHarmless(Inject(m, k(t), DupCall(files[0])).machine, k, t + 1, files[1..]);
    }
  }

  lemma UnsafeLeavesPatch(m: Machine, k: Kernel, t: nat, files: seq<Opened>)
    requires WordMapped(m.mem, m.regs.rip) && Quiet(m, k, t, |files|) && !DupsSafe(m, k, t, |files|)
    ensures exists j ::
              0 <= j < |files| && LastStop(m, k, t, |files|, j)
              && LeftBy(m, k, t, files) == Patched(m, DupCall(files[j]))
    decreases |files|
  {
    hide Patched, Traps;
    var n := |files| - 1;
    if StopsBefore(m, k(t + n)) {
      assert LastStop(m, k, t, n + 1, n);
    } else {
      UnsafeLeavesPatch(m, k, t, files[..n]);
      var j :| 0 <= j < n && LastStop(m, k, t, n, j)
               && LeftBy(m, k, t, files[..n]) == Patched(m, DupCall(files[..n][j]));
      assert LastStop(m, k, t, n + 1, j);
    }
  }

  lemma LastStopUnique(m: Machine, k: Kernel, t: nat, n: nat, i: nat, j: nat)
    requires LastStop(m, k, t, n, i) && LastStop(m, k, t, n, j)
    ensures i == j
  {
  }

  /** If the dup2 injections were not safe and the child lives, an injected system call is still in the
      code at the starting instruction pointer. */
  lemma InterruptionLeavesPatch(m: Machine, k: Kernel, t: nat, files: seq<Opened>)
    requires UserOnly(m.mem) && !DupsSafe(m, k, t, |files|)
    ensures RunDups(m, k, t, files).alive ==> SyscallAt(RunDups(m, k, t, files).mem, m.regs.rip)
  {
    hide RunDups, Patched, Traps, StopsBefore;
    if !m.alive {
      DeadDups(m, k, t, files);
    } else {
      DupsEffect(m, k, t, files);
      if Quiet(m, k, t, |files|) {
        UnsafeLeavesPatch(m, k, t, files);
        var j :| 0 <= j < |files| && LeftBy(m, k, t, files) == Patched(m, DupCall(files[j]));
        PatchedMarks(m, DupCall(files[j]));
      }
    }
  }

  /** The dup2 injections that a child survives leave it as it was, apart from its descriptors, if and only
      if they were safe, or the child was stopped on the very code and call that they left. */
  lemma DupsUnseenIff(m: Machine, k: Kernel, t: nat, files: seq<Opened>)
    requires UserOnly(m.mem) && RunDups(m, k, t, files).alive
    ensures RunDups(m, k, t, files) == m.(fds := RunDups(m, k, t, files).fds)
            <==> DupsSafe(m, k, t, |files|) || Coincident(m, k, t, files)
  {
    hide RunDups, Patched, Traps, StopsBefore, UserOnly, CodeInPlace, LastStop;
    if DupsSafe(m, k, t, |files|) {
      DupsHarmless(m, k, t, files);
    } else {
      if !m.alive { DeadDups(m, k, t, files); }
      DupsEffect(m, k, t, files);
      if Quiet(m, k, t, |files|) {
        UnsafeLeavesPatch(m, k, t, files);
        var j :| 0 <= j < |files| && LastStop(m, k, t, |files|, j)
            && LeftBy(m, k, t, files) == Patched(m, DupCall(files[j]));
        PatchInvisible(m, DupCall(files[j]));
        PatchedKeeps(m, DupCall(files[j]));
        if Coincident(m, k, t, files) {
          var i :| 0 <= i < |files| && CallOf(m.regs) == DupCall(files[i]) && LastStop(m, k, t, |files|, i);
          LastStopUnique(m, k, t, |files|, i, j);
        }
      }
    }
  }
}
