/**
 What a restore leaves behind: exactness, when it fails to hold, and when a restore succeeds.
 */
module RestorerProofs {
  import opened Wrappers
  import opened Words
  import opened Snapshot
  import opened Layout
  import opened Machine
  import opened Injector
  import opened Restorer
  import opened DupProofs

  // ---------- Statements ----------

  ghost predicate Inside(r: MemoryRegion, a: int) { r.startAddr <= a < r.startAddr + r.sizeBytes }

  ghost predicate InsideAny(regions: seq<MemoryRegion>, a: int) {
    exists i :: 0 <= i < |regions| && Inside(regions[i], a)
  }

  /** What capture guarantees of a region: whole pages, all of them read. */
  ghost predicate WholePages(r: MemoryRegion) {
    |r.data| == r.sizeBytes && r.sizeBytes % PAGE == 0
  }

  ghost predicate AllWholePages(regions: seq<MemoryRegion>) {
    forall i | 0 <= i < |regions| :: WholePages(regions[i])
  }

  /** Every address of the region is mapped with its byte and the region's own protection. */
  ghost predicate Holds(mem: Memory, r: MemoryRegion)
    requires WholePages(r)
  {
    forall a | Inside(r, a) :: a in mem && mem[a] == Cell(r.data[a - r.startAddr], PermsToProt(r.permissions))
  }

  ghost predicate SameAt(x: Memory, y: Memory, a: int) {
    (a in x <==> a in y) && (a in x ==> x[a] == y[a])
  }

  /** The region's addresses apart, the two memories are the same. */
  ghost predicate SameOutside(x: Memory, y: Memory, r: MemoryRegion) {
    forall a | !Inside(r, a) :: SameAt(x, y, a)
  }

  /** The code word at `rip` touches no region. */
  ghost predicate ClearOf(rip: u64, r: MemoryRegion) {
    rip + 8 <= r.startAddr || r.startAddr + r.sizeBytes <= rip
  }

  ghost predicate ClearOfAll(rip: u64, regions: seq<MemoryRegion>) {
    forall i | 0 <= i < |regions| :: ClearOf(rip, regions[i])
  }

  // ---------- The registers of an injected call ----------

  /** What the kernel finds in the registers, as the x86-64 calling convention for system calls has it; all
      other registers stay the child's own. */
  lemma InjectedRegisters(r: Regs, addr: u64, len: u64, p: Prot, osFd: u32, fdNum: u32)
    ensures Prot(true, false, false).Bits() == 1 && Prot(false, true, false).Bits() == 2
            && Prot(false, false, true).Bits() == 4 && Prot(true, true, true).Bits() == 7
    ensures var w, bits := WithCall(r, MmapCall(addr, len, p)), p.Bits();
            w == r.(rax := 9, rdi := addr, rsi := len, rdx := bits, r10 := 0x32, r8 := 0xFFFF_FFFF_FFFF_FFFF, r9 := 0)
    ensures var w := WithCall(r, MprotectCall(addr, len, p));
            w == r.(rax := 10, rdi := addr, rsi := len, rdx := p.Bits(), r10 := 0, r8 := 0, r9 := 0)
    ensures osFd < 0x8000_0000 && fdNum < 0x8000_0000 ==>
              WithCall(r, Dup2Call(osFd, fdNum))
              == r.(rax := 33, rdi := osFd, rsi := fdNum, rdx := 0, r10 := 0, r8 := 0, r9 := 0)
    ensures osFd >= 0x8000_0000 ==> Dup2Call(osFd, fdNum).a0 == osFd + 0xFFFF_FFFF_0000_0000
  {
  }

  // ---------- One region ----------

  lemma WholePageSpan(n: nat)
    requires n % PAGE == 0
    ensures PageSpan(n) == n
  {
  }

  lemma FailureIsFailure(e: Errno)
    ensures ReturnOf(Failed(e)).Failure?
  {
  }

  lemma MapRegionExact(m: Machine, k: Kernel, t: nat, r: MemoryRegion)
    requires WholePages(r) && ClearOf(m.regs.rip, r)
    ensures var s := MapRegion(m, k, t, r);
            s.error == None ==>
              if k(t).fate.TrapBefore? then s.machine == m && r.startAddr == SYS_MMAP
              else
                var p := PermsToProt(r.permissions).(write := true);
                s.machine == m.(mem := m.mem + ZeroCells(r.startAddr, r.sizeBytes, p))
  {
    hide Inject, ReturnOf, Failed;
    var p := PermsToProt(r.permissions).(write := true);
    var c := MmapCall(r.startAddr, r.sizeBytes, p);
    WholePageSpan(r.sizeBytes);
    ProtRoundTrip(p);
    InjectTransparent(m, k(t), c);
    if k(t).grant.Refused? { FailureIsFailure(k(t).grant.errno); }
    FailureIsFailure(EINVAL);
    FailureIsFailure(ENOMEM);
    ReturnIdentity(m, k(t), c);
    ServedValue(SYS_MMAP);
  }

  lemma ServedValue(ret: u64)
    requires ret <= USER_SPACE_LIMIT
    ensures ReturnOf(ret) == Success(ret)
  {
  }

  lemma ReturnIdentity(m: Machine, reply: Reply, c: Call)
    ensures ReturnOf(KernelCall(m, c, reply.grant).ret).Success? ==>
            ReturnOf(KernelCall(m, c, reply.grant).ret).value == KernelCall(m, c, reply.grant).ret
  {
  }

  lemma ProtectRegionExact(m: Machine, k: Kernel, t: nat, r: MemoryRegion)
    requires WholePages(r) && ClearOf(m.regs.rip, r)
    ensures var s, p := ProtectRegion(m, k, t, r), PermsToProt(r.permissions);
            s.error == None ==>
              s.machine == if p.write || k(t).fate.TrapBefore? then m
                           else m.(mem := Protected(m.mem, r.startAddr, r.sizeBytes, p))
  {
    hide Inject, ReturnOf, Failed;
    var p := PermsToProt(r.permissions);
    if !p.write {
      WholePageSpan(r.sizeBytes);
      ProtRoundTrip(p);
      InjectTransparent(m, k(t), MprotectCall(r.startAddr, r.sizeBytes, p));
      if k(t).grant.Refused? { FailureIsFailure(k(t).grant.errno); }
      FailureIsFailure(EINVAL);
      FailureIsFailure(ENOMEM);
    }
  }

  /** The region with the write permission it is filled under. */
  function Writable(r: MemoryRegion): (w: MemoryRegion)
    ensures w == r.(permissions := w.permissions)
    ensures PermsToProt(w.permissions) == PermsToProt(r.permissions).(write := true)
  {
    PermsRoundTrip(PermsToProt(r.permissions).(write := true), false);
    r.(permissions := PermsString(PermsToProt(r.permissions).(write := true), false))
  }

  /** What mapping and filling do to memory. */
  lemma FilledMemory(mem: Memory, r: MemoryRegion)
    requires WholePages(r)
    ensures var zeroed := mem + ZeroCells(r.startAddr, r.sizeBytes, PermsToProt(r.permissions).(write := true));
            var filled := BytesWritten(zeroed, r.startAddr, r.data);
            Holds(filled, Writable(r)) && SameOutside(filled, mem, r)
  {
    hide PermsToProt;
    var p := PermsToProt(r.permissions);
    var mapped := mem + ZeroCells(r.startAddr, r.sizeBytes, p.(write := true));
    var filled := BytesWritten(mapped, r.startAddr, r.data);
    forall a | Inside(r, a) ensures a in filled && filled[a] == Cell(r.data[a - r.startAddr], p.(write := true)) {
      assert a in mapped;
    }
    forall a | !Inside(r, a) ensures SameAt(filled, mem, a) {
      assert a in mapped <==> a in mem;
    }
  }

  /** What protecting a filled region does to memory. */
  lemma ProtectedMemory(mem: Memory, before: Memory, r: MemoryRegion)
    requires WholePages(r) && Holds(mem, Writable(r)) && SameOutside(mem, before, r)
    ensures var final := Protected(mem, r.startAddr, r.sizeBytes, PermsToProt(r.permissions));
            Holds(final, r) && SameOutside(final, before, r)
  {
    hide PermsToProt, Writable;
    var final := Protected(mem, r.startAddr, r.sizeBytes, PermsToProt(r.permissions));
    forall a | Inside(r, a) ensures a in final && final[a] == CellAt(r, a) {
      assert Inside(Writable(r), a);
    }
    forall a | !Inside(r, a) ensures SameAt(final, before, a) {
      assert SameAt(mem, before, a);
    }
  }

  function CellAt(r: MemoryRegion, a: int): Cell
    requires r.startAddr <= a < r.startAddr + |r.data|
  {
    Cell(r.data[a - r.startAddr], PermsToProt(r.permissions))
  }

  /** Injections it takes to restore a region: one, and one more where writing is taken away again. */
  function Ticks(r: MemoryRegion): nat { if PermsToProt(r.permissions).write then 1 else 2 }

  /** The region as a successful restore from tick t on leaves it.  A trap signal from outside in place of
      mprotect passes for success, and the region stays writable. */
  ghost function AsLeft(r: MemoryRegion, k: Kernel, t: nat): (l: MemoryRegion)
    ensures l == r.(permissions := l.permissions)
  {
    if !PermsToProt(r.permissions).write && k(t + 1).fate.TrapBefore? then Writable(r) else r
  }

  /** A trap signal from outside in place of mmap passes for a mapping at the number of the call.  A region
      that is to start there is not taken for restored if nothing was mapped there before. */
  ghost predicate NotMistaken(mem: Memory, r: MemoryRegion) {
    r.startAddr == SYS_MMAP && r.sizeBytes > 0 ==> SYS_MMAP !in mem
  }

  lemma RegionExact(crc: Crc, m: Machine, k: Kernel, t: nat, r: MemoryRegion)
    requires WholePages(r) && ClearOf(m.regs.rip, r) && NotMistaken(m.mem, r)
    ensures var s := RestoreRegion(crc, m, k, t, r);
            s.error == None ==>
              crc(r.data) == r.checksum && Holds(s.machine.mem, AsLeft(r, k, t)) && SameOutside(s.machine.mem, m.mem, r)
              && s.machine == m.(mem := s.machine.mem) && s.tick == t + Ticks(r)
  {
    hide MapRegion, ProtectRegion, Holds, SameOutside, Inject, PermsToProt;
    if RestoreRegion(crc, m, k, t, r).error == None {
      MapRegionExact(m, k, t, r);
      var s1 := MapRegion(m, k, t, r);
      var s2 := FillRegion(s1.machine, s1.tick, r);
      RegionTicks(crc, m, k, t, r);
      ProtectRegionExact(s2.machine, k, s2.tick, r);
      FilledMemory(m.mem, r);
      if k(t).fate.TrapBefore? {
        assert r.sizeBytes == 0;
        NothingToMap(m.mem, r);
      }
      ProtectedMemory(s2.machine.mem, m.mem, r);
      if PermsToProt(r.permissions).write { WritableAlready(s2.machine.mem, r); }
    }
  }

  lemma RegionTicks(crc: Crc, m: Machine, k: Kernel, t: nat, r: MemoryRegion)
    requires RestoreRegion(crc, m, k, t, r).error == None
    ensures MapRegion(m, k, t, r).tick == t + 1 && RestoreRegion(crc, m, k, t, r).tick == t + Ticks(r)
  {
    hide Inject, PermsToProt;
  }

  lemma NothingToMap(mem: Memory, r: MemoryRegion)
    requires r.sizeBytes == 0
    ensures mem + ZeroCells(r.startAddr, r.sizeBytes, PermsToProt(r.permissions).(write := true)) == mem
  {
  }

  lemma WritableAlready(mem: Memory, r: MemoryRegion)
    requires WholePages(r) && PermsToProt(r.permissions).write
    ensures Holds(mem, Writable(r)) ==> Holds(mem, r)
  {
    hide PermsToProt;
  }

  // ---------- All regions ----------

  /** All regions are in place and nothing else has changed. */
  ghost predicate RegionsInPlace(mem: Memory, before: Memory, regions: seq<MemoryRegion>)
    requires AllWholePages(regions)
  {
    (forall i | 0 <= i < |regions| :: Holds(mem, regions[i]))
    && forall a | !InsideAny(regions, a) :: SameAt(mem, before, a)
  }

  lemma InPlaceStep(mem: Memory, mid: Memory, before: Memory, regions: seq<MemoryRegion>)
    requires regions != [] && AllWholePages(regions) && AllWholePages(regions[1..])
    requires forall j | 0 < j < |regions| :: Apart(regions[0], regions[j])
    requires Holds(mid, regions[0]) && SameOutside(mid, before, regions[0])
    requires RegionsInPlace(mem, mid, regions[1..])
    ensures RegionsInPlace(mem, before, regions)
  {
    var rest := regions[1..];
    forall i | 0 <= i < |regions| ensures Holds(mem, regions[i]) {
      if i == 0 {
        forall a | Inside(regions[0], a)
          ensures a in mem && mem[a] == Cell(regions[0].data[a - regions[0].startAddr],
              PermsToProt(regions[0].permissions))
        {
          forall j | 0 <= j < |rest| ensures !Inside(rest[j], a) {
            assert Apart(regions[0], regions[j + 1]);
          }
          assert SameAt(mem, mid, a);
        }
      } else {
        assert rest[i - 1] == regions[i];
      }
    }
    forall a | !InsideAny(regions, a) ensures SameAt(mem, before, a) {
      assert !Inside(regions[0], a);
      forall j | 0 <= j < |rest| ensures !Inside(rest[j], a) {
        assert rest[j] == regions[j + 1];
      }
      assert SameAt(mem, mid, a) && SameAt(mid, before, a);
    }
  }

  // Injections it takes to restore the regions.
  function Injections(regions: seq<MemoryRegion>): nat {
    if regions == [] then 0 else Ticks(regions[0]) + Injections(regions[1..])
  }

  /** The regions as a successful restore from tick t on leaves them. */
  ghost function AllAsLeft(regions: seq<MemoryRegion>, k: Kernel, t: nat): (ls: seq<MemoryRegion>)
    ensures |ls| == |regions|
    ensures forall i | 0 <= i < |ls| :: ls[i] == regions[i].(permissions := ls[i].permissions)
    decreases |regions|
  {
    if regions == [] then []
    else [AsLeft(regions[0], k, t)] + AllAsLeft(regions[1..], k, t + Ticks(regions[0]))
  }

  /** Region number i takes its turn after the injections of the earlier ones. */
  lemma {:induction false} AsLeftAt(regions: seq<MemoryRegion>, k: Kernel, t: nat, i: nat)
    requires i < |regions|
    ensures AllAsLeft(regions, k, t)[i] == AsLeft(regions[i], k, t + Injections(regions[..i]))
    decreases |regions|
  {
    hide AsLeft, Ticks;
    if i == 0 {
      assert regions[..0] == [];
    } else {
      var rest, front := regions[1..], regions[..i];
      AsLeftAt(rest, k, t + Ticks(regions[0]), i - 1);
      assert front[0] == regions[0] && front[1..] == rest[..i - 1];
      assert Injections(front) == Ticks(regions[0]) + Injections(rest[..i - 1]);
      assert AllAsLeft(regions, k, t)[i] == AllAsLeft(rest, k, t + Ticks(regions[0]))[i - 1];
    }
  }

  lemma StillNotMistaken(mem: Memory, before: Memory, regions: seq<MemoryRegion>)
    requires regions != [] && SameOutside(mem, before, regions[0])
    requires forall i | 0 <= i < |regions| :: NotMistaken(before, regions[i])
    requires forall j | 0 < j < |regions| :: Apart(regions[0], regions[j])
    ensures forall i | 0 <= i < |regions[1..]| :: NotMistaken(mem, regions[1..][i])
  {
    forall i | 0 <= i < |regions[1..]| ensures NotMistaken(mem, regions[1..][i]) {
      var r := regions[i + 1];
      assert NotMistaken(before, r) && Apart(regions[0], r);
      if r.startAddr == SYS_MMAP && r.sizeBytes > 0 {
        assert SameAt(mem, before, SYS_MMAP);
      }
    }
  }

  ghost predicate AllApart(regions: seq<MemoryRegion>) {
    forall i, j | 0 <= i < j < |regions| :: Apart(regions[i], regions[j])
  }

  lemma RestApart(regions: seq<MemoryRegion>)
    requires regions != [] && AllApart(regions)
    ensures AllApart(regions[1..]) && forall j | 0 < j < |regions| :: Apart(regions[0], regions[j])
  {
    forall i, j | 0 <= i < j < |regions[1..]| ensures Apart(regions[1..][i], regions[1..][j]) {
      assert Apart(regions[i + 1], regions[j + 1]);
    }
  }

  /** Being left as they are moves no region. */
  lemma LeftShape(regions: seq<MemoryRegion>, k: Kernel, t: nat)
    requires AllWholePages(regions)
    ensures AllWholePages(AllAsLeft(regions, k, t)) && (AllApart(regions) ==> AllApart(AllAsLeft(regions, k, t)))
  {
    hide AllAsLeft;
    var left := AllAsLeft(regions, k, t);
    forall i | 0 <= i < |left| ensures WholePages(left[i]) {
      assert WholePages(regions[i]);
    }
    if AllApart(regions) {
      forall i, j | 0 <= i < j < |left| ensures Apart(left[i], left[j]) {
        assert Apart(regions[i], regions[j]);
      }
    }
  }

  /** Every region matches its checksum. */
  ghost predicate AllChecked(crc: Crc, regions: seq<MemoryRegion>) {
    forall i | 0 <= i < |regions| :: crc(regions[i].data) == regions[i].checksum
  }

  lemma CheckedCons(crc: Crc, regions: seq<MemoryRegion>)
    requires regions != [] && crc(regions[0].data) == regions[0].checksum && AllChecked(crc, regions[1..])
    ensures AllChecked(crc, regions)
  {
    forall i | 0 <= i < |regions| ensures crc(regions[i].data) == regions[i].checksum {
      if i > 0 { assert regions[1..][i - 1] == regions[i]; }
    }
  }

  /** Restoring disjoint regions, in whatever order they are listed, puts all of them in place, each as it
      was left. */
  lemma {:induction false} RegionsExact(crc: Crc, m: Machine, k: Kernel, t: nat, regions: seq<MemoryRegion>)
    requires AllWholePages(regions) && ClearOfAll(m.regs.rip, regions) && AllApart(regions)
    requires forall i | 0 <= i < |regions| :: NotMistaken(m.mem, regions[i])
    ensures AllWholePages(AllAsLeft(regions, k, t))
    ensures var s := RestoreRegions(crc, m, k, t, regions);
            s.error == None ==>
              RegionsInPlace(s.machine.mem, m.mem, AllAsLeft(regions, k, t)) && s.machine == m.(mem := s.machine.mem)
              && s.tick == t + Injections(regions) && AllChecked(crc, regions)
    decreases |regions|
  {
    hide RestoreRegion, Holds, SameOutside, RegionsInPlace, NotMistaken, AsLeft, AllAsLeft, WholePages, AllApart, Apart,
      Ticks, AllChecked, ClearOf, PermsToProt;
    LeftShape(regions, k, t);
    if regions == [] {
      NothingInPlace(m.mem);
      assert AllChecked(crc, regions) by { NothingToCheck(crc); }
    } else {
      var rest, left := regions[1..], AllAsLeft(regions, k, t);
      var s := RestoreRegion(crc, m, k, t, regions[0]);
      RegionExact(crc, m, k, t, regions[0]);
      RestApart(regions);
      if s.error == None {
        StillNotMistaken(s.machine.mem, m.mem, regions);
        RegionsExact(crc, s.machine, k, s.tick, rest);
        var last := RestoreRegions(crc, s.machine, k, s.tick, rest);
        if last.error == None {
          LeftCons(regions, k, t);
          SameRegion(s.machine.mem, m.mem, regions[0], left[0]);
          RestApart(left);
          InPlaceStep(last.machine.mem, s.machine.mem, m.mem, left);
          CheckedCons(crc, regions);
        }
      }
    }
  }

  lemma LeftCons(regions: seq<MemoryRegion>, k: Kernel, t: nat)
    requires regions != []
    ensures AllAsLeft(regions, k, t)[0] == AsLeft(regions[0], k, t)
    ensures AllAsLeft(regions, k, t)[1..] == AllAsLeft(regions[1..], k, t + Ticks(regions[0]))
  {
    hide AsLeft, Ticks;
  }

  lemma NothingToCheck(crc: Crc)
    ensures AllChecked(crc, [])
  {
  }

  lemma SameRegion(x: Memory, y: Memory, r: MemoryRegion, l: MemoryRegion)
    requires SameOutside(x, y, r) && l == r.(permissions := l.permissions)
    ensures SameOutside(x, y, l)
  {
    forall a | !Inside(l, a) ensures SameAt(x, y, a) {
      assert !Inside(r, a);
    }
  }

  lemma NothingInPlace(mem: Memory)
    ensures RegionsInPlace(mem, mem, [])
  {
  }

  // ---------- The image of a snapshot ----------

  /** Memory with one region in place. */
  ghost function Placed(mem: Memory, r: MemoryRegion): Memory {
    mem + map a | r.startAddr <= a < r.startAddr + |r.data| :: CellAt(r, a)
  }

  ghost function PlacedAll(mem: Memory, regions: seq<MemoryRegion>): Memory
    decreases |regions|
  {
    if regions == [] then mem else PlacedAll(Placed(mem, regions[0]), regions[1..])
  }

  /** The stub with the snapshot's regions laid over its memory and the snapshot's registers. */
  ghost function Image(snap: ProcessSnapshot, m: Machine): Machine {
    RestoreRegisters(m.(mem := PlacedAll(m.mem, snap.memoryRegions)), snap.registers).0
  }

  lemma RegionImage(crc: Crc, m: Machine, k: Kernel, t: nat, r: MemoryRegion)
    requires WholePages(r) && ClearOf(m.regs.rip, r) && NotMistaken(m.mem, r)
    ensures var s := RestoreRegion(crc, m, k, t, r);
            s.error == None ==> s.machine == m.(mem := Placed(m.mem, AsLeft(r, k, t))) && s.tick == t + Ticks(r)
  {
    hide PermsToProt, Inject, AsLeft, NotMistaken;
    RegionExact(crc, m, k, t, r);
    var s := RestoreRegion(crc, m, k, t, r);
    if s.error == None {
      SameRegion(s.machine.mem, m.mem, r, AsLeft(r, k, t));
      SameEverywhere(s.machine.mem, m.mem, AsLeft(r, k, t));
    }
  }

  lemma SameEverywhere(x: Memory, before: Memory, r: MemoryRegion)
    requires WholePages(r) && Holds(x, r) && SameOutside(x, before, r)
    ensures x == Placed(before, r)
  {
    hide PermsToProt;
    var y := Placed(before, r);
    forall a ensures SameAt(x, y, a) {
      if !Inside(r, a) { assert SameAt(x, before, a); }
    }
    SameMaps(x, y);
  }

  lemma SameMaps(x: Memory, y: Memory)
    requires forall a :: SameAt(x, y, a)
    ensures x == y
  {
    forall a ensures (a in x <==> a in y) && (a in x ==> x[a] == y[a]) {
      assert SameAt(x, y, a);
    }
  }

  /** Restoring disjoint regions lays them over memory one after the other, each as it was left. */
  lemma {:induction false} RegionsImage(crc: Crc, m: Machine, k: Kernel, t: nat, regions: seq<MemoryRegion>)
    requires AllWholePages(regions) && ClearOfAll(m.regs.rip, regions) && AllApart(regions)
    requires forall i | 0 <= i < |regions| :: NotMistaken(m.mem, regions[i])
    ensures var s := RestoreRegions(crc, m, k, t, regions);
            s.error == None ==>
              s.machine == m.(mem := PlacedAll(m.mem, AllAsLeft(regions, k, t))) && s.tick == t + Injections(regions)
    decreases |regions|
  {
    hide RestoreRegion, Placed, PlacedAll, PermsToProt, AsLeft, AllAsLeft, NotMistaken, SameOutside, WholePages,
      AllApart, Apart, Ticks, ClearOf;
    if regions == [] {
      NothingPlaced(m.mem, k, t);
    } else {
      var s := RestoreRegion(crc, m, k, t, regions[0]);
      RegionImage(crc, m, k, t, regions[0]);
      RegionExact(crc, m, k, t, regions[0]);
      RestApart(regions);
      if s.error == None {
        StillNotMistaken(s.machine.mem, m.mem, regions);
        RegionsImage(crc, s.machine, k, s.tick, regions[1..]);
        PlacedCons(m.mem, regions, k, t);
      }
    }
  }

  lemma NothingPlaced(mem: Memory, k: Kernel, t: nat)
    ensures PlacedAll(mem, AllAsLeft([], k, t)) == mem
  {
  }

  lemma PlacedCons(mem: Memory, regions: seq<MemoryRegion>, k: Kernel, t: nat)
    requires regions != []
    ensures PlacedAll(mem, AllAsLeft(regions, k, t))
         == PlacedAll(Placed(mem, AsLeft(regions[0], k, t)), AllAsLeft(regions[1..], k, t + Ticks(regions[0])))
  {
    hide Placed, AsLeft, Ticks, AllAsLeft;
    LeftCons(regions, k, t);
  }

  // ---------- Exactness ----------

  /** The machine a restore promises. */
  ghost predicate Rebuilt(snap: ProcessSnapshot, before: Machine, after: Machine)
    requires AllWholePages(snap.memoryRegions)
  {
    RegionsInPlace(after.mem, before.mem, snap.memoryRegions)
    && snap.registers.Some? && after.regs == RegsOf(snap.registers.value)
    && after.fpu == (if snap.registers.value.fpuState == [] then before.fpu else snap.registers.value.fpuState)
  }

  /** The stub's own code is in no region; the restorer does not check this. */
  ghost predicate OutOfTheWay(m: Machine, snap: ProcessSnapshot) {
    m.regs.rip + 8 < TWO_64
    && !ConflictsWith(FromSnapshot(snap.memoryRegions), AddrRange(m.regs.rip, m.regs.rip + 8))
  }

  lemma StubIsClear(snap: ProcessSnapshot, m: Machine)
    requires OutOfTheWay(m, snap) && Verdict(FromSnapshot(snap.memoryRegions)) == None
    ensures ClearOfAll(m.regs.rip, snap.memoryRegions)
    ensures forall i, j | 0 <= i < j < |snap.memoryRegions| :: Apart(snap.memoryRegions[i], snap.memoryRegions[j])
    ensures forall i | 0 <= i < |snap.memoryRegions| :: InUserSpace(snap.memoryRegions[i])
  {
    var regions := snap.memoryRegions;
    ValidationExact(regions);
    var rs, sorted := RangesOf(regions), FromSnapshot(regions);
    SortIsFaithful(rs);
    forall i | 0 <= i < |regions| ensures ClearOf(m.regs.rip, regions[i]) {
      SoundRangeIsExact(regions[i]);
      assert InUserSpace(regions[i]);
      assert rs[i] in multiset(sorted);
      var j :| 0 <= j < |sorted| && sorted[j] == rs[i];
      assert !sorted[j].Overlaps(AddrRange(m.regs.rip, m.regs.rip + 8));
    }
  }

  /** The snapshot with its regions as a successful restore leaves them. */
  ghost function SnapAsLeft(snap: ProcessSnapshot, k: Kernel, t: nat): ProcessSnapshot {
    snap.(memoryRegions := AllAsLeft(snap.memoryRegions, k, t))
  }

  /** The machine in which the dup2 injections of a successful restore start. */
  ghost function EndImage(snap: ProcessSnapshot, m: Machine, k: Kernel, t: nat): Machine {
    Image(SnapAsLeft(snap, k, t), m)
  }

  /** A stub's memory: nothing in the first page, nothing above user space. */
  ghost predicate StubMemory(mem: Memory) { forall a | a in mem :: PAGE <= a < USER_SPACE_LIMIT }

  /** What success tells of the restore up to the dup2 injections: they start in the snapshot's image, its
      regions as they were left. */
  lemma RestoreReachesImage(
      crc: Crc, m: Machine, k: Kernel, t: nat, snap: ProcessSnapshot, host: string, files: seq<Opened>)
    requires AllWholePages(snap.memoryRegions) && OutOfTheWay(m, snap) && StubMemory(m.mem)
    requires Restore(crc, m, k, t, snap, host, files).result.Success?
    ensures var r := Restore(crc, m, k, t, snap, host, files);
            r.machine == RunDups(EndImage(snap, m, k, t), k, t + Injections(snap.memoryRegions), files)
            && r.machine.alive && r.result == Success(|snap.memoryRegions|)
    ensures Rebuilt(SnapAsLeft(snap, k, t), m, EndImage(snap, m, k, t))
    ensures Verdict(FromSnapshot(snap.memoryRegions)) == None
    ensures forall i | 0 <= i < |snap.memoryRegions| ::
              crc(snap.memoryRegions[i].data) == snap.memoryRegions[i].checksum
  {
    hide RestoreRegions, RunDups, RegionsInPlace, PlacedAll, Injections, AllAsLeft;
    StubIsClear(snap, m);
    forall i | 0 <= i < |snap.memoryRegions| ensures NotMistaken(m.mem, snap.memoryRegions[i]) {
    }
    RegionsImage(crc, m, k, t, snap.memoryRegions);
    RegionsExact(crc, m, k, t, snap.memoryRegions);
  }

  /** No trap signal from outside comes in place of an mprotect that takes writing away. */
  ghost predicate ProtectionsKept(regions: seq<MemoryRegion>, k: Kernel, t: nat) {
    forall i | 0 <= i < |regions| && !PermsToProt(regions[i].permissions).write ::
      !k(t + Injections(regions[..i]) + 1).fate.TrapBefore?
  }

  lemma KeptAsLeft(regions: seq<MemoryRegion>, k: Kernel, t: nat)
    requires ProtectionsKept(regions, k, t)
    ensures AllAsLeft(regions, k, t) == regions
  {
    hide AllAsLeft, Injections, PermsToProt;
    forall i | 0 <= i < |regions| ensures AllAsLeft(regions, k, t)[i] == regions[i] {
      AsLeftAt(regions, k, t, i);
    }
  }

  /** Nothing can go wrong with the dup2 injections at the end of restoring `snap` from stub `m`. */
  ghost predicate SafeEnd(snap: ProcessSnapshot, m: Machine, k: Kernel, t: nat, files: seq<Opened>) {
    DupsSafe(EndImage(snap, m, k, t), k, t + Injections(snap.memoryRegions), |files|)
  }

  /** What it takes for a restore that succeeds to be exact: no protection was lost to a stray trap signal,
      and the dup2 injections were safe or left what was there. */
  ghost predicate ExactEnd(snap: ProcessSnapshot, m: Machine, k: Kernel, t: nat, files: seq<Opened>) {
    ProtectionsKept(snap.memoryRegions, k, t)
    && (SafeEnd(snap, m, k, t, files)
        || Coincident(EndImage(snap, m, k, t), k, t + Injections(snap.memoryRegions), files))
  }

  /** Exactness: after a successful restore that lost no protection and whose dup2 injections were safe,
      every region holds its bytes with its protection, the registers are the snapshot's, and no other
      memory has changed. */
  lemma RestoreExact(
      crc: Crc, m: Machine, k: Kernel, t: nat, snap: ProcessSnapshot, host: string, files: seq<Opened>)
    requires AllWholePages(snap.memoryRegions) && OutOfTheWay(m, snap) && StubMemory(m.mem)
    requires ProtectionsKept(snap.memoryRegions, k, t) && SafeEnd(snap, m, k, t, files)
    requires Restore(crc, m, k, t, snap, host, files).result.Success?
    ensures Rebuilt(snap, m, Restore(crc, m, k, t, snap, host, files).machine)
    ensures forall i | 0 <= i < |snap.memoryRegions| ::
              crc(snap.memoryRegions[i].data) == snap.memoryRegions[i].checksum
  {
    hide Restore, RunDups, RegionsInPlace, Image, Injections, DupsSafe, ProtectionsKept, AllAsLeft;
    RestoreReachesImage(crc, m, k, t, snap, host, files);
    KeptAsLeft(snap.memoryRegions, k, t);
    DupsHarmless(EndImage(snap, m, k, t), k, t + Injections(snap.memoryRegions), files);
  }

  lemma UserOnlyKept(snap: ProcessSnapshot, before: Machine, after: Machine)
    requires AllWholePages(snap.memoryRegions) && Rebuilt(snap, before, after) && UserOnly(before.mem)
    requires forall i | 0 <= i < |snap.memoryRegions| :: InUserSpace(snap.memoryRegions[i])
    ensures UserOnly(after.mem)
  {
    forall a | a in after.mem ensures 0 <= a < USER_SPACE_LIMIT {
      if InsideAny(snap.memoryRegions, a) {
        var i :| 0 <= i < |snap.memoryRegions| && Inside(snap.memoryRegions[i], a);
        assert InUserSpace(snap.memoryRegions[i]);
      } else {
        assert SameAt(after.mem, before.mem, a);
      }
    }
  }

  /** A snapshot and a stub determine what is rebuilt, apart from descriptors. */
  lemma RebuiltIsUnique(snap: ProcessSnapshot, before: Machine, x: Machine, y: Machine)
    requires AllWholePages(snap.memoryRegions) && Rebuilt(snap, before, x) && Rebuilt(snap, before, y)
    ensures x == y.(fds := x.fds, alive := x.alive)
  {
    forall a ensures SameAt(x.mem, y.mem, a) {
      if InsideAny(snap.memoryRegions, a) {
        var i :| 0 <= i < |snap.memoryRegions| && Inside(snap.memoryRegions[i], a);
        assert Holds(x.mem, snap.memoryRegions[i]) && Holds(y.mem, snap.memoryRegions[i]);
      } else {
        assert SameAt(x.mem, before.mem, a) && SameAt(y.mem, before.mem, a);
      }
    }
    SameMaps(x.mem, y.mem);
  }

  lemma EndIsUserMemory(snap: ProcessSnapshot, m: Machine, k: Kernel, t: nat)
    requires AllWholePages(snap.memoryRegions) && OutOfTheWay(m, snap) && StubMemory(m.mem)
    requires Verdict(FromSnapshot(snap.memoryRegions)) == None
    requires Rebuilt(SnapAsLeft(snap, k, t), m, EndImage(snap, m, k, t))
    ensures UserOnly(EndImage(snap, m, k, t).mem)
  {
    hide Rebuilt, Image, Verdict, OutOfTheWay, AllAsLeft;
    StubIsClear(snap, m);
    var left := SnapAsLeft(snap, k, t);
    forall i | 0 <= i < |left.memoryRegions| ensures InUserSpace(left.memoryRegions[i]) {
      assert InUserSpace(snap.memoryRegions[i]);
    }
    UserOnlyKept(left, m, EndImage(snap, m, k, t));
  }

  /** Whatever signals came while regions were restored, a restore that succeeds is exact for the regions
      as they were left, if and only if the dup2 injections were safe or coincide. */
  lemma LeftExactIff(
      crc: Crc, m: Machine, k: Kernel, t: nat, snap: ProcessSnapshot, host: string, files: seq<Opened>)
    requires AllWholePages(snap.memoryRegions) && OutOfTheWay(m, snap) && StubMemory(m.mem)
    requires Restore(crc, m, k, t, snap, host, files).result.Success?
    ensures Rebuilt(SnapAsLeft(snap, k, t), m, Restore(crc, m, k, t, snap, host, files).machine) <==>
            SafeEnd(snap, m, k, t, files)
            || Coincident(EndImage(snap, m, k, t), k, t + Injections(snap.memoryRegions), files)
  {
    hide Restore, RunDups, RegionsInPlace, Image, Injections, DupsSafe, Coincident, UserOnly, AllAsLeft;
    var image, after := EndImage(snap, m, k, t), Restore(crc, m, k, t, snap, host, files).machine;
    RestoreReachesImage(crc, m, k, t, snap, host, files);
    EndIsUserMemory(snap, m, k, t);
    DupsUnseenIff(image, k, t + Injections(snap.memoryRegions), files);
    AliveBefore(image, k, t + Injections(snap.memoryRegions), files);
    if Rebuilt(SnapAsLeft(snap, k, t), m, after) {
      RebuiltIsUnique(SnapAsLeft(snap, k, t), m, after, image);
    }
  }

  /** The region's first byte is mapped and can be written. */
  ghost predicate StartsWritable(mem: Memory, r: MemoryRegion) {
    Inside(r, r.startAddr) && r.startAddr in mem && mem[r.startAddr].prot.write
  }

  lemma LeftWritable(mem: Memory, regions: seq<MemoryRegion>, k: Kernel, t: nat, i: nat)
    requires i < |regions| && InUserSpace(regions[i]) && WholePages(regions[i])
    requires !PermsToProt(regions[i].permissions).write && k(t + Injections(regions[..i]) + 1).fate.TrapBefore?
    requires Holds(mem, AllAsLeft(regions, k, t)[i])
    ensures StartsWritable(mem, regions[i])
  {
    hide PermsToProt, Injections, AllAsLeft;
    AsLeftAt(regions, k, t, i);
    assert Inside(AllAsLeft(regions, k, t)[i], regions[i].startAddr);
  }

  lemma ImageWritable(snap: ProcessSnapshot, m: Machine, k: Kernel, t: nat, i: nat)
    requires AllWholePages(snap.memoryRegions) && OutOfTheWay(m, snap)
    requires Verdict(FromSnapshot(snap.memoryRegions)) == None && i < |snap.memoryRegions|
    requires Rebuilt(SnapAsLeft(snap, k, t), m, EndImage(snap, m, k, t))
    requires !PermsToProt(snap.memoryRegions[i].permissions).write
             && k(t + Injections(snap.memoryRegions[..i]) + 1).fate.TrapBefore?
    ensures StartsWritable(EndImage(snap, m, k, t).mem, snap.memoryRegions[i])
  {
    hide Injections, AllAsLeft, PermsToProt, Image, OutOfTheWay, Verdict, FromSnapshot, Holds, StartsWritable;
    StubIsClear(snap, m);
    assert InUserSpace(snap.memoryRegions[i]) && WholePages(snap.memoryRegions[i]);
    assert Holds(EndImage(snap, m, k, t).mem, SnapAsLeft(snap, k, t).memoryRegions[i]);
    LeftWritable(EndImage(snap, m, k, t).mem, snap.memoryRegions, k, t, i);
  }

  lemma StaysWritable(x: Memory, y: Memory, r: MemoryRegion)
    requires SameRights(x, y) && StartsWritable(y, r)
    ensures StartsWritable(x, r)
  {
  }

  /** A region that lost its protection to a stray trap signal is writable in the end. */
  lemma LostProtectionStays(
      crc: Crc, m: Machine, k: Kernel, t: nat, snap: ProcessSnapshot, host: string, files: seq<Opened>)
    requires AllWholePages(snap.memoryRegions) && OutOfTheWay(m, snap) && StubMemory(m.mem)
    requires Restore(crc, m, k, t, snap, host, files).result.Success? && !ProtectionsKept(snap.memoryRegions, k, t)
    ensures exists i ::
              0 <= i < |snap.memoryRegions| && !PermsToProt(snap.memoryRegions[i].permissions).write
              && StartsWritable(Restore(crc, m, k, t, snap, host, files).machine.mem, snap.memoryRegions[i])
  {
    hide Restore, RunDups, Injections, AllAsLeft, PermsToProt, EndImage, OutOfTheWay, Verdict, StubMemory, Rebuilt,
      StartsWritable, SameRights, FromSnapshot, AllWholePages, WholePages;
    var regions, after := snap.memoryRegions, Restore(crc, m, k, t, snap, host, files).machine;
    var i :| 0 <= i < |regions| && !PermsToProt(regions[i].permissions).write
             && k(t + Injections(regions[..i]) + 1).fate.TrapBefore?;
    RestoreReachesImage(crc, m, k, t, snap, host, files);
    ImageWritable(snap, m, k, t, i);
    DupsKeepRights(EndImage(snap, m, k, t), k, t + Injections(regions), files);
    StaysWritable(after.mem, EndImage(snap, m, k, t).mem, regions[i]);
  }

  /** A restore reports success even when a dup2 injection went wrong, because such failures are only
      logged, and when a trap signal from outside came in place of an mprotect, because every trap
      is taken for the child's own.  A successful restore is exact if and only if no protection was lost
      like that, and every stop during the dup2 injections was a trap (or the code word is not mapped).
      The one exception is a process stopped on the very code and call that the last failed injection
      left. */
  lemma RestoreExactIff(
      crc: Crc, m: Machine, k: Kernel, t: nat, snap: ProcessSnapshot, host: string, files: seq<Opened>)
    requires AllWholePages(snap.memoryRegions) && OutOfTheWay(m, snap) && StubMemory(m.mem)
    requires Restore(crc, m, k, t, snap, host, files).result.Success?
    ensures Rebuilt(snap, m, Restore(crc, m, k, t, snap, host, files).machine) <==> ExactEnd(snap, m, k, t, files)
  {
    hide Restore, Injections, Image, DupsSafe, Coincident, AllAsLeft, StubMemory, OutOfTheWay, PermsToProt;
    var after := Restore(crc, m, k, t, snap, host, files).machine;
    if ProtectionsKept(snap.memoryRegions, k, t) {
      KeptAsLeft(snap.memoryRegions, k, t);
      LeftExactIff(crc, m, k, t, snap, host, files);
    } else {
      LostProtectionStays(crc, m, k, t, snap, host, files);
      var i :| 0 <= i < |snap.memoryRegions| && !PermsToProt(snap.memoryRegions[i].permissions).write
               && StartsWritable(after.mem, snap.memoryRegions[i]);
      assert !Holds(after.mem, snap.memoryRegions[i]);
    }
  }

  /** After a successful restore whose dup2 injections were not safe, an injected system call stands
      where the process starts. */
  lemma UnsafeEndLeavesPatch(
      crc: Crc, m: Machine, k: Kernel, t: nat, snap: ProcessSnapshot, host: string, files: seq<Opened>)
    requires AllWholePages(snap.memoryRegions) && OutOfTheWay(m, snap) && StubMemory(m.mem)
    requires Restore(crc, m, k, t, snap, host, files).result.Success? && !SafeEnd(snap, m, k, t, files)
    ensures SyscallAt(Restore(crc, m, k, t, snap, host, files).machine.mem, EndImage(snap, m, k, t).regs.rip)
  {
    hide Restore, RunDups, RegionsInPlace, Image, Injections, DupsSafe, UserOnly, AllAsLeft;
    RestoreReachesImage(crc, m, k, t, snap, host, files);
    EndIsUserMemory(snap, m, k, t);
    InterruptionLeavesPatch(EndImage(snap, m, k, t), k, t + Injections(snap.memoryRegions), files);
  }

  lemma AliveBefore(m: Machine, k: Kernel, t: nat, files: seq<Opened>)
    requires RunDups(m, k, t, files).alive
    ensures m.alive
  {
    hide RunDups;
    if !m.alive { DeadDups(m, k, t, files); }
  }

  // ---------- Progress and failure ----------

  /** The kernel grants what is asked and lets the child execute it. */
  ghost predicate Serves(reply: Reply) { (reply.fate.Runs? || reply.fate.TrapAfter?) && reply.grant.AsAsked? }

  /** From tick t on the kernel serves every mmap and every mprotect of the regions, but for an mprotect that a
      trap signal from outside keeps from being executed. */
  ghost predicate Cooperative(k: Kernel, t: nat, regions: seq<MemoryRegion>)
    decreases |regions|
  {
    regions == []
    || (Serves(k(t)) && (Ticks(regions[0]) == 1 || Serves(k(t + 1)) || k(t + 1).fate.TrapBefore?)
        && Cooperative(k, t + Ticks(regions[0]), regions[1..]))
  }

  ghost predicate NeverDies(k: Kernel) { forall t: nat :: !k(t).fate.Dies? }

  /** A stub fit for injections: alive, with executable code mapped at its instruction pointer. */
  ghost predicate StubReady(m: Machine) {
    m.alive && WordMapped(m.mem, m.regs.rip) && CodeReady(m)
  }

  lemma ReadyInjection(m: Machine, reply: Reply, c: Call)
    requires StubReady(m) && Spares(c, m.regs.rip) && Serves(reply)
    requires KernelCall(m, c, reply.grant).ret <= USER_SPACE_LIMIT
    ensures Inject(m, reply, c) == Injected(KernelCall(m, c, reply.grant).machine,
        Success(KernelCall(m, c, reply.grant).ret))
  {
    hide Inject, KernelCall;
    InjectionEnds(m, reply, c);
    ServedValue(KernelCall(m, c, reply.grant).ret);
  }

  lemma StrayInjection(m: Machine, reply: Reply, c: Call)
    requires StubReady(m) && Spares(c, m.regs.rip) && reply.fate.TrapBefore? && c.nr <= USER_SPACE_LIMIT
    ensures Inject(m, reply, c) == Injected(m, Success(c.nr))
  {
    hide Inject, KernelCall;
    InjectionEnds(m, reply, c);
    ServedValue(c.nr);
  }

  ghost predicate PageAligned(r: MemoryRegion) { r.startAddr % PAGE == 0 }

  /** With a cooperative kernel a region is restored exactly when its checksum matches. */
  lemma RegionSucceeds(crc: Crc, m: Machine, k: Kernel, t: nat, r: MemoryRegion)
    requires WholePages(r) && PageAligned(r) && InUserSpace(r) && ClearOf(m.regs.rip, r)
    requires StubReady(m) && Cooperative(k, t, [r])
    ensures RestoreRegion(crc, m, k, t, r).error == None <==> crc(r.data) == r.checksum
  {
    hide Inject, PermsToProt, PageSpan, ProtOf, StubReady;
    if crc(r.data) == r.checksum {
      var p := PermsToProt(r.permissions);
      WholePageSpan(r.sizeBytes);
      var c1 := MmapCall(r.startAddr, r.sizeBytes, p.(write := true));
      ReadyInjection(m, k(t), c1);
      var s1 := MapRegion(m, k, t, r);
      MapRegionExact(m, k, t, r);
      assert s1.error == None;
      assert AllMapped(s1.machine.mem, r.startAddr, |r.data|);
      assert m.alive by { Alive(m); }
      var s2 := FillRegion(s1.machine, s1.tick, r);
      assert s2.error == None && AllMapped(s2.machine.mem, r.startAddr, |r.data|);
      if !p.write {
        assert StubReady(s2.machine) by { StaysReady(m, s2.machine, r); }
        var c2 := MprotectCall(r.startAddr, r.sizeBytes, p);
        if Serves(k(s2.tick)) {
          ReadyInjection(s2.machine, k(s2.tick), c2);
        } else {
          StrayInjection(s2.machine, k(s2.tick), c2);
        }
      }
    }
  }

  lemma Alive(m: Machine)
    requires StubReady(m)
    ensures m.alive
  {
  }

  lemma StaysReady(m: Machine, n: Machine, r: MemoryRegion)
    requires StubReady(m) && ClearOf(m.regs.rip, r) && SameOutside(n.mem, m.mem, r) && n.regs == m.regs && n.alive
    ensures StubReady(n)
  {
    forall a | m.regs.rip <= a < m.regs.rip + 8 ensures a in n.mem {
      assert a in m.mem && !Inside(r, a);
      assert SameAt(n.mem, m.mem, a);
    }
    var rip: int := m.regs.rip;
    assert SameAt(n.mem, m.mem, rip) && SameAt(n.mem, m.mem, rip + 1) && SameAt(n.mem, m.mem, rip + 2);
  }

  lemma {:induction false} RegionsSucceed(crc: Crc, m: Machine, k: Kernel, t: nat, regions: seq<MemoryRegion>)
    requires AllWholePages(regions) && ClearOfAll(m.regs.rip, regions)
    requires forall i | 0 <= i < |regions| :: PageAligned(regions[i]) && InUserSpace(regions[i])
    requires StubReady(m) && Cooperative(k, t, regions)
    ensures RestoreRegions(crc, m, k, t, regions).error == None
            <==> forall i | 0 <= i < |regions| :: crc(regions[i].data) == regions[i].checksum
    decreases |regions|
  {
    hide RestoreRegion, StubReady;
    if regions != [] {
      var s := RestoreRegion(crc, m, k, t, regions[0]);
      RegionSucceeds(crc, m, k, t, regions[0]);
      RegionExact(crc, m, k, t, regions[0]);
      RegionImage(crc, m, k, t, regions[0]);
      if s.error == None {
        Alive(m);
        StaysReady(m, s.machine, regions[0]);
        RegionsSucceed(crc, s.machine, k, s.tick, regions[1..]);
        assert regions == [regions[0]] + regions[1..];
      }
    }
  }

  lemma {:induction false} DupsSurvived(m: Machine, k: Kernel, t: nat, files: seq<Opened>)
    requires NeverDies(k) && m.alive
    ensures RunDups(m, k, t, files).alive
    decreases |files|
  {
    hide Inject;
    if files != [] {
      var i := Inject(m, k(t), Dup2Call(files[0].osFd, files[0].fdNum));
      DupEnds(m, k(t), files[0]);
      DupsSurvived(i.machine, k, t + 1, files[1..]);
    }
  }

  /** The snapshots that a restorer takes on. */
  ghost predicate Admissible(snap: ProcessSnapshot, host: string) {
    snap.arch == "x86_64" && host == "x86_64" && Restorable(snap.memoryRegions)
    && snap.registers.Some? && snap.memoryRegions != []
  }

  /** The pre-flight checks pass exactly for admissible snapshots, and name the first thing amiss. */
  lemma PreflightExact(snap: ProcessSnapshot, host: string)
    ensures var e := ValidateSnapshot(snap, host);
            (e == None <==> Admissible(snap, host))
            && (e == Some(WrongArch) <==> snap.arch != "x86_64")
            && (e == Some(WrongHost) <==> snap.arch == "x86_64" && host != "x86_64")
            && (e.Some? && e.value.BadLayout? <==>
                  snap.arch == "x86_64" && host == "x86_64" && !Restorable(snap.memoryRegions))
            && (e == Some(NoRegisters) <==> snap.arch == "x86_64" && host == "x86_64" && Restorable(snap.memoryRegions)
                                            && snap.registers == None)
            && (e == Some(NoRegions) <==> snap.arch == "x86_64" && host == "x86_64" && snap.registers.Some?
                                          && snap.memoryRegions == [])
  {
    ValidationExact(snap.memoryRegions);
    hide Restorable, Verdict, FromSnapshot;
    if snap.memoryRegions == [] { NothingRestorable(); }
  }

  lemma NothingRestorable()
    ensures Restorable([])
  {
  }

  /** A restore that succeeds, whatever the kernel did, was of an admissible snapshot; any other is refused
      before a child exists. */
  lemma OnlyAdmissible(crc: Crc, m: Machine, k: Kernel, t: nat, snap: ProcessSnapshot, host: string, files: seq<Opened>)
    ensures var r := Restore(crc, m, k, t, snap, host, files);
            (r.result.Success? ==> Admissible(snap, host))
            && (!Admissible(snap, host) ==> r.result.Failure? && r.machine == m)
  {
    PreflightExact(snap, host);
    hide ValidateSnapshot, Admissible, RestoreInner;
  }

  /** With a ready stub and a kernel that cooperates while regions are restored, a child that never
      dies is restored exactly when the snapshot is admissible, every checksum matches and the
      floating-point state has the right size. */
  lemma RestoreSucceedsIff(
      crc: Crc, m: Machine, k: Kernel, t: nat, snap: ProcessSnapshot, host: string, files: seq<Opened>)
    requires AllWholePages(snap.memoryRegions) && OutOfTheWay(m, snap) && StubReady(m)
    requires Cooperative(k, t, snap.memoryRegions) && NeverDies(k)
    requires forall i | 0 <= i < |snap.memoryRegions| :: PageAligned(snap.memoryRegions[i])
    ensures Restore(crc, m, k, t, snap, host, files).result.Success? <==>
            Admissible(snap, host) && |snap.registers.value.fpuState| in {0, FPU_BYTES}
            && forall i | 0 <= i < |snap.memoryRegions| ::
                 crc(snap.memoryRegions[i].data) == snap.memoryRegions[i].checksum
  {
    PreflightExact(snap, host);
    hide RestoreRegions, RunDups, StubReady, Cooperative, NeverDies, OutOfTheWay, Verdict, Restorable;
    if ValidateSnapshot(snap, host) == None {
      StubIsClear(snap, m);
      Alive(m);
      RegionsSucceed(crc, m, k, t, snap.memoryRegions);
      RegionsExact(crc, m, k, t, snap.memoryRegions);
      var s := RestoreRegions(crc, m, k, t, snap.memoryRegions);
      if s.error == None {
        var m1 := RestoreRegisters(s.machine, snap.registers).0;
        DupsSurvived(m1, k, s.tick, files);
      }
    }
  }

  lemma {:induction false} RegionsFail(crc: Crc, m: Machine, k: Kernel, t: nat, regions: seq<MemoryRegion>, i: nat)
    requires AllWholePages(regions) && ClearOfAll(m.regs.rip, regions)
    requires forall j | 0 <= j < |regions| :: PageAligned(regions[j]) && InUserSpace(regions[j])
    requires StubReady(m) && Cooperative(k, t, regions)
    requires i < |regions| && crc(regions[i].data) != regions[i].checksum
    requires forall j | 0 <= j < i :: crc(regions[j].data) == regions[j].checksum
    ensures RestoreRegions(crc, m, k, t, regions).error == Some(ChecksumMismatch(regions[i].startAddr))
    decreases |regions|
  {
    hide StubReady, MapRegion, FillRegion, ProtectRegion;
    if i > 0 {
      var s := RestoreRegion(crc, m, k, t, regions[0]);
      RegionSucceeds(crc, m, k, t, regions[0]);
      RegionExact(crc, m, k, t, regions[0]);
      RegionImage(crc, m, k, t, regions[0]);
      Alive(m);
      StaysReady(m, s.machine, regions[0]);
      hide RestoreRegion;
      RegionsFail(crc, s.machine, k, s.tick, regions[1..], i - 1);
    }
  }

  /** How a restore of an admissible snapshot ends under a kernel that cooperates while regions are restored:
      with the first checksum that does not match, or else with a floating-point state of the wrong size,
      or else with a child that died during the dup2 injections; or it succeeds. */
  lemma RestoreEnds(
      crc: Crc, m: Machine, k: Kernel, t: nat, snap: ProcessSnapshot, host: string, files: seq<Opened>, i: nat)
    requires AllWholePages(snap.memoryRegions) && OutOfTheWay(m, snap) && StubReady(m) && Admissible(snap, host)
    requires Cooperative(k, t, snap.memoryRegions)
    requires forall j | 0 <= j < |snap.memoryRegions| :: PageAligned(snap.memoryRegions[j])
    requires i <= |snap.memoryRegions|
             && forall j | 0 <= j < i :: crc(snap.memoryRegions[j].data) == snap.memoryRegions[j].checksum
    ensures var r := Restore(crc, m, k, t, snap, host, files).result;
            if i < |snap.memoryRegions| then
              crc(snap.memoryRegions[i].data) != snap.memoryRegions[i].checksum ==>
                r == Failure(ChecksumMismatch(snap.memoryRegions[i].startAddr))
            else if |snap.registers.value.fpuState| !in {0, 512} then r == Failure(BadFpuSize)
            else if RunDups(EndImage(snap, m, k, t), k, t + Injections(snap.memoryRegions), files).alive
            then r == Success(|snap.memoryRegions|)
            else r == Failure(DetachFailed)
  {
    PreflightExact(snap, host);
    hide Restorable, OutOfTheWay, StubReady, Cooperative, RestoreRegions, RunDups, AllAsLeft, PlacedAll;
    StubIsClear(snap, m);
    if i < |snap.memoryRegions| {
      if crc(snap.memoryRegions[i].data) != snap.memoryRegions[i].checksum {
        RegionsFail(crc, m, k, t, snap.memoryRegions, i);
      }
    } else {
      forall j | 0 <= j < |snap.memoryRegions| ensures NotMistaken(m.mem, snap.memoryRegions[j]) {
        assert PageAligned(snap.memoryRegions[j]);
      }
      RegionsSucceed(crc, m, k, t, snap.memoryRegions);
      RegionsImage(crc, m, k, t, snap.memoryRegions);
      Alive(m);
    }
  }

  /** A kernel that does not do as asked, and a child that does not get to do it: the error says which. */
  lemma MapFailure(crc: Crc, m: Machine, k: Kernel, t: nat, r: MemoryRegion)
    requires WholePages(r) && PageAligned(r) && InUserSpace(r) && ClearOf(m.regs.rip, r) && StubReady(m)
    requires crc(r.data) == r.checksum
    ensures var e, g := RestoreRegion(crc, m, k, t, r).error, k(t).grant;
            match k(t).fate
            case Runs =>
              (g.Refused? ==> e == Some(InjectionFailed(SysError(g.errno))))
              && (g.Elsewhere? && g.place != r.startAddr && g.place % PAGE == 0
                  && g.place + r.sizeBytes <= USER_SPACE_LIMIT && NoneMapped(m.mem, g.place, r.sizeBytes)
                  ==> e == Some(Misplaced(g.place)))
            case Dies => e == Some(InjectionFailed(BadStop(Gone)))
            case SignalBefore => e == Some(InjectionFailed(BadStop(OtherSignal)))
            case TrapBefore => e == Some(Misplaced(9))
            case _ => true
  {
    hide Inject, PermsToProt, PageSpan, ProtOf, CodeReady;
    var c := MmapCall(r.startAddr, r.sizeBytes, PermsToProt(r.permissions).(write := true));
    WholePageSpan(r.sizeBytes);
    InjectionEnds(m, k(t), c);
    ServedValue(9);
    if k(t).grant.Refused? { ReturnExact(0, k(t).grant.errno); }
    if k(t).grant.Elsewhere? && k(t).grant.place + r.sizeBytes <= USER_SPACE_LIMIT { ServedValue(k(t).grant.place); }
  }

  /** The same for the mprotect of a region that was mapped and filled. */
  lemma ProtectFailure(m: Machine, k: Kernel, t: nat, r: MemoryRegion)
    requires WholePages(r) && ClearOf(m.regs.rip, r) && StubReady(m) && !PermsToProt(r.permissions).write
    ensures var e, g := ProtectRegion(m, k, t, r).error, k(t).grant;
            match k(t).fate
            case Runs => g.Refused? ==> e == Some(InjectionFailed(SysError(g.errno)))
            case Dies => e == Some(InjectionFailed(BadStop(Gone)))
            case SignalBefore => e == Some(InjectionFailed(BadStop(OtherSignal)))
            case _ => true
  {
    hide Inject, PermsToProt, PageSpan, ProtOf, CodeReady;
    WholePageSpan(r.sizeBytes);
    InjectionEnds(m, k(t), MprotectCall(r.startAddr, r.sizeBytes, PermsToProt(r.permissions)));
    if k(t).grant.Refused? { ReturnExact(0, k(t).grant.errno); }
  }

  /** A failed restore leaves no process behind: either none was forked or it is killed. */
  lemma FailureLeavesNoChild(crc: Crc, m: Machine, k: Kernel, t: nat, snap: ProcessSnapshot, hostArch: string,
        files: seq<Opened>)
    ensures var r := Restore(crc, m, k, t, snap, hostArch, files);
            r.result.Failure? ==> if ValidateSnapshot(snap, hostArch).Some? then r.machine == m else !r.machine.alive
    ensures Restore(crc, m, k, t, snap, hostArch, files).result.Success? ==>
        Restore(crc, m, k, t, snap, hostArch, files).machine.alive
  {
    hide RestoreRegions, RestoreRegisters, RunDups;
  }
}
