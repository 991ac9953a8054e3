/**
 Validation of the address-space layout of a snapshot (wraith-rust/src/aslr.rs).
 */
module Layout {
  import opened Wrappers
  import opened Words
  import opened Spans
  import opened Snapshot

  const USER_SPACE_LIMIT: u64 := 0x8000_0000_0000  // 2^47
  const PAGE: u64 := 4096

  /** Byte-addressed range [start, end). */
  datatype AddrRange = AddrRange(start: u64, end: u64) {
    // Zero for a range that ends before it starts.
    function Size(): u64 { if end >= start then end - start else 0 }

    predicate Overlaps(other: AddrRange) { start < other.end && other.start < end }
  }

  // ---------- Building the layout ----------

  // The end is a wrapping 64-bit sum.
  function RangeOf(r: MemoryRegion): AddrRange {
    AddrRange(r.startAddr, Wrap64(r.startAddr + r.sizeBytes))
  }

  function RangesOf(regions: seq<MemoryRegion>): (rs: seq<AddrRange>)
    ensures |rs| == |regions| && forall i | 0 <= i < |rs| :: rs[i] == RangeOf(regions[i])
  {
    seq(|regions|, i requires 0 <= i < |regions| => RangeOf(regions[i]))
  }

  function InsertByStart(x: AddrRange, s: seq<AddrRange>): seq<AddrRange> {
    if s == [] || x.start <= s[0].start then [x] + s else [s[0]] + InsertByStart(x, s[1..])
  }

  /** The standard library's stable sort by start address. */
  function SortByStart(s: seq<AddrRange>): seq<AddrRange> {
    if s == [] then [] else InsertByStart(s[0], SortByStart(s[1..]))
  }

  function FromSnapshot(regions: seq<MemoryRegion>): seq<AddrRange> {
    SortByStart(RangesOf(regions))
  }

  // ---------- Validation ----------

  datatype LayoutError = StartsAboveLimit(r: AddrRange) | CrossesLimit(r: AddrRange) | ZeroSize(r: AddrRange)
      | Overlapping(a: AddrRange, b: AddrRange)

  function RangeError(r: AddrRange): Option<LayoutError> {
    if r.start >= USER_SPACE_LIMIT then Some(StartsAboveLimit(r))
    else if r.end > USER_SPACE_LIMIT then Some(CrossesLimit(r))
    else if r.Size() == 0 then Some(ZeroSize(r))
    else None
  }

  function FirstRangeError(rs: seq<AddrRange>): Option<LayoutError> {
    if rs == [] then None
    else if RangeError(rs[0]).Some? then RangeError(rs[0])
    else FirstRangeError(rs[1..])
  }

  function FirstOverlap(rs: seq<AddrRange>): Option<LayoutError> {
    if |rs| < 2 then None
    else if rs[0].Overlaps(rs[1]) then Some(Overlapping(rs[0], rs[1]))
    else FirstOverlap(rs[1..])
  }

  /** The verdict on a layout: bad ranges are reported before overlaps, each in sorted order. */
  function Verdict(rs: seq<AddrRange>): Option<LayoutError> {
    if FirstRangeError(rs).Some? then FirstRangeError(rs) else FirstOverlap(rs)
  }

  method Validate(ranges: seq<AddrRange>) returns (err: Option<LayoutError>)
    ensures err == Verdict(ranges)
  {
    for i := 0 to |ranges|
      invariant FirstRangeError(ranges) == FirstRangeError(ranges[i..])
    {
      var range := ranges[i];
      if range.start >= USER_SPACE_LIMIT { return Some(StartsAboveLimit(range)); }
      if range.end > USER_SPACE_LIMIT { return Some(CrossesLimit(range)); }
      if range.Size() == 0 { return Some(ZeroSize(range)); }
    }
    var i := 0;
    while i + 1 < |ranges|
      invariant 0 <= i <= |ranges|
      invariant FirstOverlap(ranges) == FirstOverlap(ranges[i..])
    {
      if ranges[i].Overlaps(ranges[i + 1]) { return Some(Overlapping(ranges[i], ranges[i + 1])); }
      i := i + 1;
    }
    err := None;
  }

  // ---------- What validation means ----------

  ghost predicate InUserSpace(r: MemoryRegion) {
    r.sizeBytes > 0 && r.startAddr + r.sizeBytes <= USER_SPACE_LIMIT
  }

  ghost predicate Apart(a: MemoryRegion, b: MemoryRegion) {
    a.startAddr + a.sizeBytes <= b.startAddr || b.startAddr + b.sizeBytes <= a.startAddr
  }

  /** In unbounded integers: every region is nonempty and in user space, and no two share an address. */
  ghost predicate Restorable(regions: seq<MemoryRegion>) {
    (forall i | 0 <= i < |regions| :: InUserSpace(regions[i]))
    && forall i, j | 0 <= i < j < |regions| :: Apart(regions[i], regions[j])
  }

  ghost predicate Sorted(rs: seq<AddrRange>) {
    forall i, j | 0 <= i < j < |rs| :: rs[i].start <= rs[j].start
  }

  ghost predicate AllSound(rs: seq<AddrRange>) {
    forall i | 0 <= i < |rs| :: RangeError(rs[i]) == None
  }

  ghost predicate NoOverlap(rs: seq<AddrRange>) {
    forall i, j | 0 <= i < j < |rs| :: !rs[i].Overlaps(rs[j])
  }

  ghost predicate ApartFromAll(x: AddrRange, s: seq<AddrRange>) {
    forall i | 0 <= i < |s| :: !x.Overlaps(s[i])
  }

  lemma NoOverlapCons(x: AddrRange, s: seq<AddrRange>)
    ensures NoOverlap([x] + s) <==> ApartFromAll(x, s) && NoOverlap(s)
  {
    var t := [x] + s;
    if NoOverlap(t) {
      forall i | 0 <= i < |s| ensures !x.Overlaps(s[i]) { assert !t[0].Overlaps(t[i + 1]); }
      forall i, j | 0 <= i < j < |s| ensures !s[i].Overlaps(s[j]) { assert !t[i + 1].Overlaps(t[j + 1]); }
    }
  }

  lemma ApartFromAllCons(x: AddrRange, y: AddrRange, s: seq<AddrRange>)
    ensures ApartFromAll(x, [y] + s) <==> !x.Overlaps(y) && ApartFromAll(x, s)
  {
    var t := [y] + s;
    if ApartFromAll(x, t) {
      assert !x.Overlaps(t[0]);
      forall i | 0 <= i < |s| ensures !x.Overlaps(s[i]) { assert t[i + 1] == s[i]; }
    }
  }

  lemma {:induction false} InsertedApart(y: AddrRange, x: AddrRange, s: seq<AddrRange>)
    ensures ApartFromAll(y, InsertByStart(x, s)) <==> !y.Overlaps(x) && ApartFromAll(y, s)
  {
    if s == [] || x.start <= s[0].start {
      ApartFromAllCons(y, x, s);
    } else {
      InsertedApart(y, x, s[1..]);
      ApartFromAllCons(y, s[0], InsertByStart(x, s[1..]));
      ApartFromAllCons(y, s[0], s[1..]);
      assert s == [s[0]] + s[1..];
    }
  }

  lemma {:induction false} InsertedNoOverlap(x: AddrRange, s: seq<AddrRange>)
    ensures NoOverlap(InsertByStart(x, s)) <==> ApartFromAll(x, s) && NoOverlap(s)
  {
    if s == [] || x.start <= s[0].start {
      NoOverlapCons(x, s);
    } else {
      InsertedNoOverlap(x, s[1..]);
      InsertedApart(s[0], x, s[1..]);
      NoOverlapCons(s[0], InsertByStart(x, s[1..]));
      NoOverlapCons(s[0], s[1..]);
      ApartFromAllCons(x, s[0], s[1..]);
      assert s == [s[0]] + s[1..];
    }
  }

  lemma {:induction false} InsertedMembers(x: AddrRange, s: seq<AddrRange>)
    ensures multiset(InsertByStart(x, s)) == multiset{x} + multiset(s)
  {
    if s != [] && x.start > s[0].start {
      InsertedMembers(x, s[1..]);
      assert s == [s[0]] + s[1..];
    }
  }

  lemma SortedCons(x: AddrRange, t: seq<AddrRange>)
    requires Sorted(t) && forall y | y in t :: x.start <= y.start
    ensures Sorted([x] + t)
  {
  }

  lemma {:induction false} InsertedSorted(x: AddrRange, s: seq<AddrRange>)
    requires Sorted(s)
    ensures Sorted(InsertByStart(x, s))
  {
    hide Sorted;
    if s == [] {
      SortedSingle(x);
    } else {
      assert s == [s[0]] + s[1..];
      SortedTail(s);
      if x.start <= s[0].start {
        SortedCons(x, s);
      } else {
        InsertedSorted(x, s[1..]);
        InsertedMembers(x, s[1..]);
        forall y | y in InsertByStart(x, s[1..]) ensures s[0].start <= y.start {
          assert y in multiset(InsertByStart(x, s[1..]));
        }
        SortedCons(s[0], InsertByStart(x, s[1..]));
      }
    }
  }

  lemma SortedSingle(x: AddrRange)
    ensures Sorted([x] + [])
  {
  }

  lemma SortedTail(s: seq<AddrRange>)
    requires Sorted(s) && s != []
    ensures Sorted(s[1..]) && forall y | y in s :: s[0].start <= y.start
  {
  }

  /** Sorting only rearranges, and whether ranges overlap does not depend on their order. */
  lemma {:induction false} SortIsFaithful(s: seq<AddrRange>)
    ensures Sorted(SortByStart(s)) && multiset(SortByStart(s)) == multiset(s)
    ensures NoOverlap(SortByStart(s)) <==> NoOverlap(s)
  {
    if s != [] {
      var rest := SortByStart(s[1..]);
      SortIsFaithful(s[1..]);
      InsertedSorted(s[0], rest);
      InsertedMembers(s[0], rest);
      InsertedNoOverlap(s[0], rest);
      NoOverlapCons(s[0], s[1..]);
      assert s == [s[0]] + s[1..];
      if ApartFromAll(s[0], rest) { ApartPermuted(s[0], rest, s[1..]); }
      if ApartFromAll(s[0], s[1..]) { ApartPermuted(s[0], s[1..], rest); }
    }
  }

  lemma ApartPermuted(x: AddrRange, s: seq<AddrRange>, t: seq<AddrRange>)
    requires multiset(s) == multiset(t) && ApartFromAll(x, s)
    ensures ApartFromAll(x, t)
  {
    forall i | 0 <= i < |t| ensures !x.Overlaps(t[i]) {
      assert t[i] in multiset(s);
    }
  }

  lemma {:induction false} NoRangeErrorIffSound(rs: seq<AddrRange>)
    ensures FirstRangeError(rs) == None <==> AllSound(rs)
  {
    if rs != [] {
      NoRangeErrorIffSound(rs[1..]);
      if AllSound(rs) {
        assert AllSound(rs[1..]);
      }
      if RangeError(rs[0]) == None && AllSound(rs[1..]) {
        forall i | 0 <= i < |rs| ensures RangeError(rs[i]) == None {
          if i > 0 { assert rs[i] == rs[1..][i - 1]; }
        }
      }
    }
  }

  /** On sorted nonempty ranges, comparing neighbours is enough to compare all pairs. */
  lemma {:induction false} NeighboursSuffice(rs: seq<AddrRange>)
    requires Sorted(rs) && AllSound(rs)
    ensures FirstOverlap(rs) == None <==> NoOverlap(rs)
  {
    if |rs| >= 2 {
      var rest := rs[1..];
      assert AllSound(rest) && Sorted(rest);
      NeighboursSuffice(rest);
      NoOverlapCons(rs[0], rest);
      assert rs == [rs[0]] + rest;
      assert RangeError(rs[0]) == None && RangeError(rs[1]) == None;
      if !rs[0].Overlaps(rs[1]) {
        forall i | 0 <= i < |rest| ensures !rs[0].Overlaps(rest[i]) {
          assert rs[1].start <= rs[i + 1].start;
        }
      } else {
        assert rs[0].Overlaps(rest[0]);
      }
    }
  }

  lemma SoundRangeIsExact(r: MemoryRegion)
    ensures RangeError(RangeOf(r)) == None <==> InUserSpace(r)
    ensures InUserSpace(r) ==> RangeOf(r).end == r.startAddr + r.sizeBytes
  {
  }

  lemma SoundPermuted(s: seq<AddrRange>, t: seq<AddrRange>)
    requires multiset(s) == multiset(t) && AllSound(s)
    ensures AllSound(t)
  {
    forall i | 0 <= i < |t| ensures RangeError(t[i]) == None {
      assert t[i] in multiset(s);
    }
  }

  lemma SoundIffInUserSpace(regions: seq<MemoryRegion>)
    ensures AllSound(RangesOf(regions)) <==> forall i | 0 <= i < |regions| :: InUserSpace(regions[i])
  {
    var rs := RangesOf(regions);
    forall i | 0 <= i < |regions| ensures RangeError(rs[i]) == None <==> InUserSpace(regions[i]) {
      SoundRangeIsExact(regions[i]);
    }
  }

  /** Validation with wrapping arithmetic and neighbour checks accepts exactly the regions that,
      in unbounded integers, are nonempty, in user space and pairwise disjoint. */
  lemma ValidationExact(regions: seq<MemoryRegion>)
    ensures Verdict(FromSnapshot(regions)) == None <==> Restorable(regions)
  {
    var rs, sorted := RangesOf(regions), FromSnapshot(regions);
    SortIsFaithful(rs);
    NoRangeErrorIffSound(sorted);
    SoundIffInUserSpace(regions);
    if AllSound(rs) { SoundPermuted(rs, sorted); }
    if AllSound(sorted) {
      SoundPermuted(sorted, rs);
      NeighboursSuffice(sorted);
      forall i, j | 0 <= i < j < |regions| ensures rs[i].Overlaps(rs[j]) <==> !Apart(regions[i], regions[j]) {
        SoundRangeIsExact(regions[i]);
        SoundRangeIsExact(regions[j]);
        assert InUserSpace(regions[i]) && InUserSpace(regions[j]);
      }
    }
  }

  /** The error of a rejected layout names a range, or two neighbours, that do have the fault; an
      overlap is reported only when every range is sound. */
  lemma {:induction false} VerdictIsHonest(rs: seq<AddrRange>)
    ensures match Verdict(rs)
            case None => true
            case Some(StartsAboveLimit(r)) => r in rs && r.start >= USER_SPACE_LIMIT
            case Some(CrossesLimit(r)) => r in rs && r.start < USER_SPACE_LIMIT < r.end
            case Some(ZeroSize(r)) => r in rs && r.end <= r.start < USER_SPACE_LIMIT
            case Some(Overlapping(a, b)) =>
              AllSound(rs) && a.Overlaps(b) && exists i :: 0 <= i < |rs| - 1 && rs[i] == a && rs[i + 1] == b
    decreases |rs|
  {
    NoRangeErrorIffSound(rs);
    if FirstRangeError(rs).Some? {
      FirstErrorFound(rs);
    } else {
      FirstOverlapFound(rs);
    }
  }

  lemma {:induction false} FirstErrorFound(rs: seq<AddrRange>)
    requires FirstRangeError(rs).Some?
    ensures exists i :: 0 <= i < |rs| && RangeError(rs[i]) == FirstRangeError(rs)
    decreases |rs|
  {
    if RangeError(rs[0]).Some? {
      assert RangeError(rs[0]) == FirstRangeError(rs);
    } else {
      FirstErrorFound(rs[1..]);
      var i :| 0 <= i < |rs[1..]| && RangeError(rs[1..][i]) == FirstRangeError(rs);
      assert RangeError(rs[i + 1]) == FirstRangeError(rs);
    }
  }

  lemma {:induction false} FirstOverlapFound(rs: seq<AddrRange>)
    ensures FirstOverlap(rs).Some? ==>
            exists i :: 0 <= i < |rs| - 1 && rs[i].Overlaps(rs[i + 1])
                && FirstOverlap(rs) == Some(Overlapping(rs[i], rs[i + 1]))
    decreases |rs|
  {
    if |rs| >= 2 && !rs[0].Overlaps(rs[1]) {
      FirstOverlapFound(rs[1..]);
      if FirstOverlap(rs).Some? {
        var i :| 0 <= i < |rs[1..]| - 1 && rs[1..][i].Overlaps(rs[1..][i + 1])
            && FirstOverlap(rs) == Some(Overlapping(rs[1..][i], rs[1..][i + 1]));
        assert rs[i + 1].Overlaps(rs[i + 2]);
      }
    } else if |rs| >= 2 {
      assert rs[0].Overlaps(rs[0 + 1]);
    }
  }

  /** Before position i no two neighbours overlap. */
  ghost predicate NoneBefore(rs: seq<AddrRange>, i: nat)
    requires i < |rs|
  {
    forall j | 0 <= j < i :: !rs[j].Overlaps(rs[j + 1])
  }

  /** The first range that has a fault is reported, and among overlaps of sorted sound ranges the first. */
  lemma {:induction false} VerdictIsFirst(rs: seq<AddrRange>, i: nat)
    requires i < |rs| && forall j | 0 <= j < i :: RangeError(rs[j]) == None
    ensures RangeError(rs[i]).Some? ==> Verdict(rs) == RangeError(rs[i])
    ensures AllSound(rs) && i + 1 < |rs| && rs[i].Overlaps(rs[i + 1]) && NoneBefore(rs, i)
            ==> Verdict(rs) == Some(Overlapping(rs[i], rs[i + 1]))
    decreases |rs|
  {
    NoRangeErrorIffSound(rs);
    if i > 0 {
      assert RangeError(rs[0]) == None;
      if AllSound(rs) { assert AllSound(rs[1..]); }
      NoRangeErrorIffSound(rs[1..]);
      VerdictIsFirst(rs[1..], i - 1);
    }
  }

  // ---------- Total size ----------

  ghost function TotalSize(rs: seq<AddrRange>): nat {
    if rs == [] then 0 else rs[0].Size() + TotalSize(rs[1..])
  }

  ghost function Addresses(rs: seq<AddrRange>): set<int> {
    if rs == [] then {} else Span(rs[0].start, rs[0].Size()) + Addresses(rs[1..])
  }

  lemma {:induction false} AddressMembers(rs: seq<AddrRange>, a: int)
    ensures a in Addresses(rs) <==> exists i :: 0 <= i < |rs| && rs[i].start <= a < rs[i].end
  {
    if rs != [] {
      AddressMembers(rs[1..], a);
      if a in Addresses(rs[1..]) {
        var i :| 0 <= i < |rs[1..]| && rs[1..][i].start <= a < rs[1..][i].end;
        assert rs[i + 1].start <= a < rs[i + 1].end;
      }
      if i :| 0 <= i < |rs| && rs[i].start <= a < rs[i].end {
        if i > 0 { assert rs[1..][i - 1] == rs[i]; }
      }
    }
  }

  lemma AddressesBounded(rs: seq<AddrRange>)
    requires AllSound(rs)
    ensures |Addresses(rs)| <= USER_SPACE_LIMIT
  {
    forall a | a in Addresses(rs) ensures a in Span(0, USER_SPACE_LIMIT) {
      AddressMembers(rs, a);
      var i :| 0 <= i < |rs| && rs[i].start <= a < rs[i].end;
      assert RangeError(rs[i]) == None;
    }
    SpanSize(0, USER_SPACE_LIMIT);
    SubsetSize(Addresses(rs), Span(0, USER_SPACE_LIMIT));
  }

  lemma HeadApart(rs: seq<AddrRange>)
    requires rs != [] && NoOverlap(rs) && RangeError(rs[0]) == None
    ensures Span(rs[0].start, rs[0].Size()) !! Addresses(rs[1..])
  {
    forall a | a in Span(rs[0].start, rs[0].Size()) ensures a !in Addresses(rs[1..]) {
      AddressMembers(rs[1..], a);
      forall i | 0 <= i < |rs[1..]| ensures !(rs[1..][i].start <= a < rs[1..][i].end) {
        assert !rs[0].Overlaps(rs[i + 1]);
      }
    }
  }

  /** The sizes of sound disjoint ranges add up to the number of distinct addresses they cover,
      which user space bounds. */
  lemma {:induction false} TotalIsCoverage(rs: seq<AddrRange>)
    requires AllSound(rs) && NoOverlap(rs)
    ensures TotalSize(rs) == |Addresses(rs)| <= USER_SPACE_LIMIT
  {
    AddressesBounded(rs);
    if rs != [] {
      var rest, head := rs[1..], Span(rs[0].start, rs[0].Size());
      assert rs == [rs[0]] + rest;
      NoOverlapCons(rs[0], rest);
      assert AllSound(rest) && RangeError(rs[0]) == None;
      TotalIsCoverage(rest);
      SpanSize(rs[0].start, rs[0].Size());
      HeadApart(rs);
      assert |head + Addresses(rest)| == |head| + |Addresses(rest)|;
    }
  }

  lemma {:induction false} TotalSizeConcat(a: seq<AddrRange>, b: seq<AddrRange>)
    ensures TotalSize(a + b) == TotalSize(a) + TotalSize(b)
  {
    if a == [] {
      assert a + b == b;
    } else {
      TotalSizeConcat(a[1..], b);
      assert (a + b)[1..] == a[1..] + b;
    }
  }

  lemma PrefixSize(rs: seq<AddrRange>, i: nat)
    requires i < |rs|
    ensures TotalSize(rs[..i + 1]) == TotalSize(rs[..i]) + rs[i].Size() <= TotalSize(rs)
  {
    assert rs[..i + 1] == rs[..i] + [rs[i]];
    TotalSizeConcat(rs[..i], [rs[i]]);
    assert rs == rs[..i + 1] + rs[i + 1..];
    TotalSizeConcat(rs[..i + 1], rs[i + 1..]);
  }

  /** On every validated layout the 64-bit sum is the exact one: no addition wraps. */
  method TotalBytes(ranges: seq<AddrRange>) returns (total: u64)
    ensures total == Wrap64(TotalSize(ranges))
    ensures AllSound(ranges) && NoOverlap(ranges) ==> total == |Addresses(ranges)| <= USER_SPACE_LIMIT
  {
    hide Wrap64;
    WrapExact(0);
    total := 0;
    for i := 0 to |ranges|
      invariant total == Wrap64(TotalSize(ranges[..i]))
    {
      PrefixSize(ranges, i);
      WrapAdds(TotalSize(ranges[..i]), ranges[i].Size());
      total := Wrap64(total + ranges[i].Size());
    }
    assert ranges[..|ranges|] == ranges;
    if AllSound(ranges) && NoOverlap(ranges) {
      TotalIsCoverage(ranges);
      WrapExact(TotalSize(ranges));
    }
  }

  /** Every partial sum of a validated layout is below the 64-bit limit. */
  lemma SumNeverOverflows(rs: seq<AddrRange>, i: nat)
    requires AllSound(rs) && NoOverlap(rs) && i < |rs|
    ensures TotalSize(rs[..i]) + rs[i].Size() <= USER_SPACE_LIMIT < TWO_64
  {
    PrefixSize(rs, i);
    TotalIsCoverage(rs);
  }

  /** A layout that passed validation has an exact total. */
  lemma ValidatedIsSound(regions: seq<MemoryRegion>)
    requires Verdict(FromSnapshot(regions)) == None
    ensures AllSound(FromSnapshot(regions)) && NoOverlap(FromSnapshot(regions))
  {
    SortIsFaithful(RangesOf(regions));
    NoRangeErrorIffSound(FromSnapshot(regions));
    NeighboursSuffice(FromSnapshot(regions));
  }

  // ---------- A safe place for the stub ----------

  function MaxEnd(rs: seq<AddrRange>): Option<u64> {
    if rs == [] then None
    else match MaxEnd(rs[1..])
      case None => Some(rs[0].end)
      case Some(e) => Some(if rs[0].end >= e then rs[0].end else e)
  }

  // The largest end, or one page, rounded up to a page in 64-bit arithmetic.
  function FindSafeBase(rs: seq<AddrRange>): nat {
    var maxEnd := if MaxEnd(rs).Some? then MaxEnd(rs).value else PAGE;
    BitAnd(Wrap64(maxEnd + PAGE - 1), Not64(PAGE - 1))
  }

  predicate ConflictsWith(rs: seq<AddrRange>, candidate: AddrRange) {
    exists i | 0 <= i < |rs| :: rs[i].Overlaps(candidate)
  }

  lemma {:induction false} MaxEndIsMaximum(rs: seq<AddrRange>)
    ensures MaxEnd(rs) == None <==> rs == []
    ensures rs != [] ==> (forall i | 0 <= i < |rs| :: rs[i].end <= MaxEnd(rs).value)
                         && exists i :: 0 <= i < |rs| && rs[i].end == MaxEnd(rs).value
  {
    if rs != [] {
      MaxEndIsMaximum(rs[1..]);
      forall i | 0 <= i < |rs| ensures rs[i].end <= MaxEnd(rs).value {
        if i > 0 { assert rs[i] == rs[1..][i - 1]; }
      }
      if rs[0].end != MaxEnd(rs).value {
        var i :| 0 <= i < |rs[1..]| && rs[1..][i].end == MaxEnd(rs[1..]).value;
        assert rs[i + 1].end == MaxEnd(rs).value;
      }
    }
  }

  /** The mask form rounds up to a page, for every word where rounding stays in 64 bits. */
  lemma RoundUpByMask(x: u64)
    requires x <= TWO_64 - 4096
    ensures var r := BitAnd(Wrap64(x + PAGE - 1), Not64(PAGE - 1));
            r == (x + PAGE - 1) / PAGE * PAGE && r % PAGE == 0 && x <= r < x + PAGE
  {
    hide BitAnd;
    PowersOfInterest();
    var y: u64 := x + PAGE - 1;
    MaskClearsLowBits(y, 12, 64);
    assert y == y / PAGE * PAGE + y % PAGE;
    QuotientRemainder(y - y % PAGE, PAGE, y / PAGE, 0);
  }

  /** The safe base of a validated layout is page-aligned, at or above every region, less than a
      page above the highest, and nothing placed there conflicts with a region. */
  lemma SafeBaseIsSafe(rs: seq<AddrRange>, end: u64)
    requires AllSound(rs)
    ensures var base := FindSafeBase(rs);
            base % PAGE == 0 && base <= USER_SPACE_LIMIT
            && (forall i | 0 <= i < |rs| :: rs[i].end <= base)
            && (rs != [] ==> exists i :: 0 <= i < |rs| && base < rs[i].end + PAGE)
            && (rs == [] ==> base == PAGE)
            && !ConflictsWith(rs, AddrRange(base, end))
  {
    hide BitAnd, Not64, Wrap64;
    MaxEndIsMaximum(rs);
    if rs == [] {
      RoundUpByMask(PAGE);
    } else {
      var i :| 0 <= i < |rs| && rs[i].end == MaxEnd(rs).value;
      assert rs[i].end <= USER_SPACE_LIMIT by { assert RangeError(rs[i]) == None; }
      RoundUpByMask(rs[i].end);
    }
  }

  // ---------- Protections ----------

  /** PROT_READ, PROT_WRITE and PROT_EXEC as a set of rights. */
  datatype Prot = Prot(read: bool, write: bool, exec: bool) {
    function Bits(): u64 {
      (if read then 1 else 0) + (if write then 2 else 0) + (if exec then 4 else 0)
    }
  }

  /** Decodes a permission string such as "rwxp"; missing or other characters grant nothing. */
  function PermsToProt(perms: string): Prot {
    Prot(|perms| > 0 && perms[0] == 'r', |perms| > 1 && perms[1] == 'w', |perms| > 2 && perms[2] == 'x')
  }

  /** The permission column of /proc/<pid>/maps. */
  function PermsString(p: Prot, shared: bool): string {
    [if p.read then 'r' else '-', if p.write then 'w' else '-', if p.exec then 'x' else '-',
     if shared then 's' else 'p']
  }

  /** Decoding a printed permission column gives back its rights; sharing is ignored. */
  lemma PermsRoundTrip(p: Prot, shared: bool)
    ensures PermsToProt(PermsString(p, shared)) == p
  {
  }
}
