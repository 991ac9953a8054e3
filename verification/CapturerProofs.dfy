/**
 What a capture guarantees: the snapshot of a well-formed source passes every check of the
 restorer, and holds exactly the regions that were read.
 */
module CapturerProofs {
  import opened Wrappers
  import opened Words
  import opened Snapshot
  import opened Maps
  import opened MapsProofs
  import opened Layout
  import opened Machine
  import opened Restorer
  import opened RestorerProofs
  import opened Capturer

  /** The mapping can be captured as far as its listing goes. */
  ghost predicate Wanted(v: Vma) { !ShouldSkip(RegionOfVma(v)) }

  ghost predicate VmasApart(a: Vma, b: Vma) { a.end <= b.start || b.end <= a.start }

  /** Mappings as a kernel lists them: whole pages, disjoint, and in user space where capturable. */
  ghost predicate SoundMaps(vs: seq<Vma>) {
    (forall i | 0 <= i < |vs| ::
       WellFormed(vs[i]) && vs[i].start <= vs[i].end && vs[i].start % PAGE == 0 && vs[i].end % PAGE == 0)
    && (forall i | 0 <= i < |vs| && Wanted(vs[i]) :: vs[i].end <= USER_SPACE_LIMIT)
    && forall i, j | 0 <= i < j < |vs| :: VmasApart(vs[i], vs[j])
  }

  /** Mapping number i ends up in the snapshot. */
  ghost predicate Kept(src: Source, vs: seq<Vma>, i: nat)
    requires i < |vs|
  {
    Captures(src, RegionOfVma(vs[i]), i)
  }

  function KeptRegion(src: Source, crc: Crc, vs: seq<Vma>, i: nat): MemoryRegion
    requires i < |vs|
  {
    RegionToProto(Dumped(src, crc, RegionOfVma(vs[i]), i))
  }

  /** A mapping is kept exactly when it is nonempty and readable, is neither vsyscall nor vvar, and the kernel
      lets all of it be read. */
  lemma KeptExact(src: Source, vs: seq<Vma>, i: nat)
    requires i < |vs| && vs[i].start <= vs[i].end
    ensures Kept(src, vs, i) <==>
            vs[i].start < vs[i].end && vs[i].perms != [] && vs[i].perms[0] == 'r'
            && vs[i].path != "[vsyscall]" && vs[i].path != "[vvar]"
            && !src.refuses(i) && forall a | vs[i].start <= a < vs[i].end :: a in src.mem
  {
    SkippedVmas(vs[i]);
    hide ShouldSkip;
    assert RegionOfVma(vs[i]).Size() == vs[i].end - vs[i].start;
  }

  /** Registers that a capture accepts. */
  predicate SaneRegisters(regs: Regs, fpu: seq<byte>) {
    regs.rip < 0x8000_0000_0000 && regs.rsp != 0 && |fpu| in {0, 512}
  }

  /** When a capture succeeds, and which error it ends with otherwise. */
  lemma CaptureOutcome(src: Source, crc: Crc, host: string)
    ensures var r := CaptureResult(src, crc, host);
            (r.Success? <==> host == "x86_64" && src.maps.Some? && src.attach.Stops?
                             && SaneRegisters(src.regs, src.fpu) && src.listsFds)
            && (r == Failure(UnsupportedHost) <==> host != "x86_64")
            && (r == Failure(MapsUnreadable) <==> host == "x86_64" && src.maps == None)
            && (r == Failure(AttachFailed) <==> host == "x86_64" && src.maps.Some? && !src.attach.Stops?)
            && (r == Failure(BadRegisters) <==> host == "x86_64" && src.maps.Some? && src.attach.Stops?
                                                && !SaneRegisters(src.regs, src.fpu))
            && (r == Failure(FdsUnreadable) <==> host == "x86_64" && src.maps.Some? && src.attach.Stops?
                                                 && SaneRegisters(src.regs, src.fpu) && !src.listsFds)
    ensures var r := CaptureResult(src, crc, host);
            r.Success? ==> r.value.pid == src.pid && r.value.arch == "x86_64" && r.value.registers.Some?
                           && r.value == SnapshotOf(src, crc, src.maps.value)
  {
    hide CapturedRegions, ParsedLines;
  }

  lemma KeptHasData(src: Source, crc: Crc, vs: seq<Vma>, i: nat)
    requires i < |vs|
    ensures Dumped(src, crc, RegionOfVma(vs[i]), i).data != [] <==> Kept(src, vs, i)
  {
  }

  function FromIndex(src: Source, crc: Crc, vs: seq<Vma>, i: nat): seq<Region>
    requires i <= |vs|
  {
    Retained(DumpedFrom(src, crc, MappedRegions(vs), i))
  }

  lemma FromIndexStep(src: Source, crc: Crc, vs: seq<Vma>, i: nat)
    requires i < |vs|
    ensures FromIndex(src, crc, vs, i)
         == (if Kept(src, vs, i) then [Dumped(src, crc, RegionOfVma(vs[i]), i)] else [])
             + FromIndex(src, crc, vs, i + 1)
  {
    hide Dumped, Captures;
    KeptHasData(src, crc, vs, i);
    var ds := DumpedFrom(src, crc, MappedRegions(vs), i);
    assert ds[1..] == DumpedFrom(src, crc, MappedRegions(vs), i + 1);
    assert ds[0] == Dumped(src, crc, RegionOfVma(vs[i]), i);
  }

  /** Position p of the retained regions, counted from mapping i on, came from some kept mapping. */
  lemma {:induction false} Origin(src: Source, crc: Crc, vs: seq<Vma>, i: nat, p: nat) returns (j: nat)
    requires i <= |vs| && p < |FromIndex(src, crc, vs, i)|
    ensures i <= j < |vs| && Kept(src, vs, j)
    ensures FromIndex(src, crc, vs, i)[p] == Dumped(src, crc, RegionOfVma(vs[j]), j)
    ensures p > 0 ==> j > i
    decreases |vs| - i
  {
    hide Kept, Dumped;
    j := i;
    if i < |vs| {
      FromIndexStep(src, crc, vs, i);
      if Kept(src, vs, i) {
        if p == 0 { j := i; } else { j := Origin(src, crc, vs, i + 1, p - 1); }
      } else {
        j := Origin(src, crc, vs, i + 1, p);
      }
    } else {
      EmptyFrom(src, crc, vs);
    }
  }

  lemma EmptyFrom(src: Source, crc: Crc, vs: seq<Vma>)
    ensures FromIndex(src, crc, vs, |vs|) == []
  {
  }

  /** Every kept mapping has a position. */
  lemma {:induction false} Position(src: Source, crc: Crc, vs: seq<Vma>, i: nat, j: nat) returns (p: nat)
    requires i <= j < |vs| && Kept(src, vs, j)
    ensures p < |FromIndex(src, crc, vs, i)|
    ensures FromIndex(src, crc, vs, i)[p] == Dumped(src, crc, RegionOfVma(vs[j]), j)
    decreases j - i
  {
    hide Kept, Dumped;
    FromIndexStep(src, crc, vs, i);
    if i == j {
      p := 0;
    } else {
      var q := Position(src, crc, vs, i + 1, j);
      p := if Kept(src, vs, i) then q + 1 else q;
    }
  }

  /** Origins respect positions, so different regions come from different mappings. */
  lemma {:induction false} OriginPair(src: Source, crc: Crc, vs: seq<Vma>, i: nat, p: nat, q: nat)
    returns (j: nat, k: nat)
    requires i <= |vs| && p < q < |FromIndex(src, crc, vs, i)|
    ensures i <= j < k < |vs| && Kept(src, vs, j) && Kept(src, vs, k)
    ensures FromIndex(src, crc, vs, i)[p] == Dumped(src, crc, RegionOfVma(vs[j]), j)
    ensures FromIndex(src, crc, vs, i)[q] == Dumped(src, crc, RegionOfVma(vs[k]), k)
    decreases |vs| - i
  {
    hide Kept, Dumped, FromIndex, RegionOfVma;
    j, k := i, i;
    if i < |vs| {
      FromIndexStep(src, crc, vs, i);
      if Kept(src, vs, i) {
        if p == 0 {
          j := i;
          k := Origin(src, crc, vs, i + 1, q - 1);
        } else {
          j, k := OriginPair(src, crc, vs, i + 1, p - 1, q - 1);
        }
      } else {
        j, k := OriginPair(src, crc, vs, i + 1, p, q);
      }
    } else {
      EmptyFrom(src, crc, vs);
    }
  }

  ghost predicate Listed(src: Source, vs: seq<Vma>) {
    src.maps == Some(PrintedFile(vs)) && SoundMaps(vs)
  }

  lemma SnapshotRegions(src: Source, crc: Crc, vs: seq<Vma>)
    requires Listed(src, vs)
    ensures SnapshotOf(src, crc, src.maps.value).memoryRegions == RegionsToProto(FromIndex(src, crc, vs, 0))
  {
    ParsePrintedFile(vs);
  }

  /** A kept mapping as the restorer will see it. */
  lemma KeptRegionSound(src: Source, crc: Crc, vs: seq<Vma>, j: nat)
    requires SoundMaps(vs) && j < |vs| && Kept(src, vs, j)
    ensures var r := KeptRegion(src, crc, vs, j);
            r.startAddr == vs[j].start && r.startAddr + r.sizeBytes == r.endAddr == vs[j].end
            && r.permissions == vs[j].perms && r.fileOffset == vs[j].offset && TypedAs(vs[j].path, r.regionType)
            && r.backingFile == (if vs[j].path != [] && vs[j].path[0] in {'/', '.'} then vs[j].path else "")
            && InUserSpace(r) && WholePages(r) && PageAligned(r) && crc(r.data) == r.checksum
            && forall a | Inside(r, a) :: a in src.mem && r.data[a - r.startAddr] == src.mem[a]
  {
    var v := vs[j];
    assert WellFormed(v) && v.start <= v.end && v.start % PAGE == 0 && v.end % PAGE == 0;
    assert Wanted(v) && v.end <= USER_SPACE_LIMIT;
    TypeOfPath(v.path);
    hide SoundMaps, WellFormed, TypedAs, Classify;
  }

  /** The regions of a captured snapshot are sound one by one and pairwise apart. */
  lemma CapturedSound(src: Source, crc: Crc, vs: seq<Vma>)
    requires Listed(src, vs)
    ensures var rs := SnapshotOf(src, crc, src.maps.value).memoryRegions;
            (forall i | 0 <= i < |rs| ::
               InUserSpace(rs[i]) && WholePages(rs[i]) && PageAligned(rs[i]) && crc(rs[i].data) == rs[i].checksum)
            && forall i, j | 0 <= i < j < |rs| :: Apart(rs[i], rs[j])
  {
    hide Kept, Dumped, RegionToProto, InUserSpace, WholePages, PageAligned, Apart, FromIndex, SoundMaps;
    var rs := SnapshotOf(src, crc, src.maps.value).memoryRegions;
    SnapshotRegions(src, crc, vs);
    forall i | 0 <= i < |rs|
      ensures InUserSpace(rs[i]) && WholePages(rs[i]) && PageAligned(rs[i]) && crc(rs[i].data) == rs[i].checksum
    {
      var j := Origin(src, crc, vs, 0, i);
      KeptRegionSound(src, crc, vs, j);
    }
    forall p, q | 0 <= p < q < |rs| ensures Apart(rs[p], rs[q]) {
      var j, k := OriginPair(src, crc, vs, 0, p, q);
      KeptApart(src, crc, vs, j, k);
    }
  }

  lemma KeptApart(src: Source, crc: Crc, vs: seq<Vma>, j: nat, k: nat)
    requires SoundMaps(vs) && j < k < |vs| && Kept(src, vs, j) && Kept(src, vs, k)
    ensures Apart(KeptRegion(src, crc, vs, j), KeptRegion(src, crc, vs, k))
  {
    assert VmasApart(vs[j], vs[k]);
    KeptRegionSound(src, crc, vs, j);
    KeptRegionSound(src, crc, vs, k);
  }

  /** The snapshot of a well-formed source always has a valid layout; it passes the restorer's
      pre-flight checks if and only if at least one region was captured. */
  lemma CapturedPassesValidation(src: Source, crc: Crc, vs: seq<Vma>)
    requires Listed(src, vs)
    ensures var snap := SnapshotOf(src, crc, src.maps.value);
            Verdict(FromSnapshot(snap.memoryRegions)) == None && AllWholePages(snap.memoryRegions)
            && (ValidateSnapshot(snap, "x86_64") == None <==> exists j: nat :: j < |vs| && Kept(src, vs, j))
  {
    hide Kept, Dumped, InUserSpace, PageAligned, WholePages, Apart, SoundMaps, FromIndex, RegionToProto, Verdict;
    var snap := SnapshotOf(src, crc, src.maps.value);
    CapturedSound(src, crc, vs);
    ValidationExact(snap.memoryRegions);
    SnapshotRegions(src, crc, vs);
    if j: nat :| j < |vs| && Kept(src, vs, j) {
      var p := Position(src, crc, vs, 0, j);
    }
    if snap.memoryRegions != [] {
      var j := Origin(src, crc, vs, 0, 0);
    }
  }

  ghost predicate InVma(v: Vma, a: int) { v.start <= a < v.end }

  /** An address is in the snapshot exactly when it lies in a mapping that was kept. */
  lemma CapturedCoverage(src: Source, crc: Crc, vs: seq<Vma>, a: int)
    requires Listed(src, vs)
    ensures InsideAny(SnapshotOf(src, crc, src.maps.value).memoryRegions, a)
            <==> exists j: nat :: j < |vs| && Kept(src, vs, j) && InVma(vs[j], a)
  {
    hide Kept, Dumped, RegionToProto, FromIndex, SoundMaps;
    var rs := SnapshotOf(src, crc, src.maps.value).memoryRegions;
    SnapshotRegions(src, crc, vs);
    if InsideAny(rs, a) {
      var i :| 0 <= i < |rs| && Inside(rs[i], a);
      var j := Origin(src, crc, vs, 0, i);
      KeptRegionSound(src, crc, vs, j);
      assert InVma(vs[j], a);
    }
    if j: nat :| j < |vs| && Kept(src, vs, j) && InVma(vs[j], a) {
      var p := Position(src, crc, vs, 0, j);
      KeptRegionSound(src, crc, vs, j);
      assert Inside(rs[p], a);
    }
  }

  lemma ConflictsAnyOrder(rs: seq<AddrRange>, sorted: seq<AddrRange>, c: AddrRange)
    requires multiset(rs) == multiset(sorted)
    ensures ConflictsWith(sorted, c) <==> ConflictsWith(rs, c)
  {
    if i :| 0 <= i < |rs| && rs[i].Overlaps(c) {
      assert rs[i] in multiset(sorted);
    }
    if i :| 0 <= i < |sorted| && sorted[i].Overlaps(c) {
      assert sorted[i] in multiset(rs);
    }
  }

  lemma RangeClear(r: MemoryRegion, rip: u64)
    requires InUserSpace(r) && rip + 8 < TWO_64
    ensures RangeOf(r).Overlaps(AddrRange(rip, rip + 8)) <==> !ClearOf(rip, r)
  {
  }

  lemma OutOfTheWayOfRegions(m: Machine, snap: ProcessSnapshot)
    requires forall i | 0 <= i < |snap.memoryRegions| :: InUserSpace(snap.memoryRegions[i])
    ensures OutOfTheWay(m, snap) <==> m.regs.rip + 8 < TWO_64 && ClearOfAll(m.regs.rip, snap.memoryRegions)
  {
    var regions := snap.memoryRegions;
    var rs := RangesOf(regions);
    SortIsFaithful(rs);
    if m.regs.rip + 8 < TWO_64 {
      var c := AddrRange(m.regs.rip, m.regs.rip + 8);
      ConflictsAnyOrder(rs, FromSnapshot(regions), c);
      hide SortByStart, InUserSpace, ClearOf, RangeOf;
      forall i | 0 <= i < |regions| ensures rs[i].Overlaps(c) <==> !ClearOf(m.regs.rip, regions[i]) {
        RangeClear(regions[i], m.regs.rip);
      }
    }
  }

  /** A stub is out of the way of a captured snapshot exactly when its code word touches no kept mapping. */
  lemma OutOfTheWayIff(src: Source, crc: Crc, vs: seq<Vma>, stub: Machine)
    requires Listed(src, vs)
    ensures OutOfTheWay(stub, SnapshotOf(src, crc, src.maps.value)) <==>
            stub.regs.rip + 8 < TWO_64
            && forall j: nat | j < |vs| && Kept(src, vs, j) ::
                stub.regs.rip + 8 <= vs[j].start || vs[j].end <= stub.regs.rip
  {
    hide Kept, Dumped, RegionToProto, FromIndex, SoundMaps, OutOfTheWay, InUserSpace, WholePages, PageAligned;
    var snap := SnapshotOf(src, crc, src.maps.value);
    var rs := snap.memoryRegions;
    CapturedSound(src, crc, vs);
    OutOfTheWayOfRegions(stub, snap);
    SnapshotRegions(src, crc, vs);
    if ClearOfAll(stub.regs.rip, rs) {
      forall j: nat | j < |vs| && Kept(src, vs, j)
        ensures stub.regs.rip + 8 <= vs[j].start || vs[j].end <= stub.regs.rip
      {
        var p := Position(src, crc, vs, 0, j);
        KeptRegionSound(src, crc, vs, j);
        assert ClearOf(stub.regs.rip, rs[p]);
      }
    } else {
      var i :| 0 <= i < |rs| && !ClearOf(stub.regs.rip, rs[i]);
      var j := Origin(src, crc, vs, 0, i);
      KeptRegionSound(src, crc, vs, j);
    }
  }
}
