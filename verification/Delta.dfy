/**
 Page-level dirty detection (wraith-go/pkg/delta/delta.go).  xxHash-64 is a parameter; a
 result says so where it needs the hash to tell two compared pages apart.
 */
module Delta {
  import opened Wrappers
  import opened Words
  import opened Blocks

  type Hash = seq<byte> -> u64

  /** Hash of the page that starts at `offset`. */
  datatype PageHash = PageHash(offset: u64, hash: u64)

  type Manifest = seq<PageHash>

  // A Go slice is never longer than the largest int.
  predicate GoSlice(data: seq<byte>) { |data| < TWO_63 }

  function PageAt(data: seq<byte>, off: nat, p: nat): (page: seq<byte>)
    requires off <= |data|
    ensures |page| == Min(p, |data| - off)
  {
    data[off..Min(off + p, |data|)]
  }

  // ---------- Manifests ----------

  function ManifestFrom(hash: Hash, data: seq<byte>, off: nat, p: nat): (m: Manifest)
    requires p > 0 && GoSlice(data)
    ensures m == [] <==> off >= |data|
    decreases |data| - off
  {
    if off >= |data| then []
    else [PageHash(off, hash(PageAt(data, off, p)))] + ManifestFrom(hash, data, off + p, p)
  }

  function ManifestOf(hash: Hash, data: seq<byte>, p: nat): Manifest
    requires p > 0 && GoSlice(data)
  {
    ManifestFrom(hash, data, 0, p)
  }

  method BuildManifest(hash: Hash, data: seq<byte>, pageSize: nat) returns (m: Manifest)
    requires pageSize > 0 && GoSlice(data)
    ensures m == ManifestOf(hash, data, pageSize)
  {
    m := [];
    var offset := 0;
    while offset < |data|
      invariant m + ManifestFrom(hash, data, offset, pageSize) == ManifestOf(hash, data, pageSize)
    {
      var end := offset + pageSize;
      if end > |data| { end := |data|; }
      m := m + [PageHash(offset, hash(data[offset..end]))];
      offset := offset + pageSize;
    }
  }

  function DropFirst(m: Manifest): Manifest { if m == [] then [] else m[1..] }

  /** Offsets of the pages of `curr` that `prev` does not have or has with another hash. */
  function DirtyPages(prev: Manifest, curr: Manifest): seq<u64>
    decreases |curr|
  {
    if curr == [] then []
    else (if prev == [] || curr[0].hash != prev[0].hash then [curr[0].offset] else [])
         + DirtyPages(DropFirst(prev), curr[1..])
  }

  function Known(prev: Option<Manifest>): Manifest {
    if prev.Some? then prev.value else []
  }

  /** Suffix of a manifest from page i on, empty when there are no such pages. */
  function From(m: Manifest, i: nat): Manifest { if i <= |m| then m[i..] else [] }

  lemma DirtyStep(prev: Manifest, curr: Manifest, i: nat, done: seq<u64>)
    requires i < |curr|
    requires done + DirtyPages(From(prev, i), From(curr, i)) == DirtyPages(prev, curr)
    ensures var now := if i >= |prev| || curr[i].hash != prev[i].hash then done + [curr[i].offset] else done;
            now + DirtyPages(From(prev, i + 1), From(curr, i + 1)) == DirtyPages(prev, curr)
  {
    assert From(prev, i + 1) == DropFirst(From(prev, i));
    assert From(curr, i + 1) == From(curr, i)[1..];
    assert From(curr, i)[0] == curr[i];
    if i < |prev| {
      assert From(prev, i)[0] == prev[i];
    }
    var rest := DirtyPages(From(prev, i + 1), From(curr, i + 1));
    if i >= |prev| || curr[i].hash != prev[i].hash {
      assert DirtyPages(From(prev, i), From(curr, i)) == [curr[i].offset] + rest;
      assert done + ([curr[i].offset] + rest) == (done + [curr[i].offset]) + rest;
    } else {
      assert DirtyPages(From(prev, i), From(curr, i)) == [] + rest == rest;
    }
  }

  lemma NothingDirty(prev: Manifest)
    ensures DirtyPages(prev, []) == []
  {
  }

  lemma ManifestLength(hash: Hash, data: seq<byte>, p: nat)
    requires p > 0 && GoSlice(data)
    ensures |ManifestOf(hash, data, p)| == PageCount(|data|, p)
  {
    ManifestSize(hash, data, 0, p);
    if data == [] {
      QuotientRemainder(p - 1, p, 0, p - 1);
    }
  }

  class Detector {
    const hash: Hash
    var prev: Option<Manifest>

    constructor (hash: Hash)
      ensures this.hash == hash && prev == None
    {
      this.hash := hash;
      prev := None;
    }

    method DirtyOffsets(data: seq<byte>, pageSize: nat) returns (dirty: seq<u64>)
      requires pageSize > 0 && GoSlice(data)
      modifies this
      ensures dirty == DirtyPages(Known(old(prev)), ManifestOf(hash, data, pageSize))
      ensures prev == Some(ManifestOf(hash, data, pageSize))
    {
      hide ManifestOf;
      var curr := BuildManifest(hash, data, pageSize);
      ghost var known := Known(prev);
      dirty := [];
      for i := 0 to |curr|
        invariant prev == old(prev)
        invariant dirty + DirtyPages(From(known, i), From(curr, i)) == DirtyPages(known, curr)
      {
        DirtyStep(known, curr, i, dirty);
        if prev == None || i >= |prev.value| || curr[i].hash != prev.value[i].hash {
          dirty := dirty + [curr[i].offset];
        }
      }
      prev := Some(curr);
    }
  }

  datatype ChangeStats = ChangeStats(totalPages: nat, dirtyPages: nat, cleanPages: int, reduction: real)

  /**
   Counts exactly the pages that a detector primed with `prev` would return for `curr`, and
   splits the pages of `curr` into dirty and clean ones.
   */
  method Analyze(hash: Hash, prev: seq<byte>, curr: seq<byte>, pageSize: nat) returns (stats: ChangeStats)
    requires pageSize > 0 && GoSlice(prev) && GoSlice(curr)
    ensures stats.dirtyPages == |DirtyPages(ManifestOf(hash, prev, pageSize), ManifestOf(hash, curr, pageSize))|
    ensures stats.totalPages == PageCount(|curr|, pageSize)
    ensures stats.dirtyPages + stats.cleanPages == stats.totalPages && stats.cleanPages >= 0
    ensures 0.0 <= stats.reduction <= 1.0
    ensures stats.reduction * stats.totalPages as real == stats.cleanPages as real
    ensures stats.totalPages == 0 ==> stats.reduction == 0.0
  {
    hide DirtyPages, ManifestOf, PageCount, Reduction;
    var pm := BuildManifest(hash, prev, pageSize);
    var cm := BuildManifest(hash, curr, pageSize);
    var dirty := 0;
    ghost var found: seq<u64> := [];
    for i := 0 to |cm|
      invariant dirty == |found| <= i
      invariant found + DirtyPages(From(pm, i), From(cm, i)) == DirtyPages(pm, cm)
    {
      DirtyStep(pm, cm, i, found);
      if i >= |pm| || cm[i].hash != pm[i].hash {
        dirty := dirty + 1;
        found := found + [cm[i].offset];
      }
    }
    NothingDirty(From(pm, |cm|));
    assert From(cm, |cm|) == [] && found + [] == found;
    ManifestLength(hash, curr, pageSize);
    var total := |cm|;
    stats := ChangeStats(total, dirty, total - dirty, Reduction(dirty, total));
  }

  /** The fraction of `total` that is not in `part`. */
  function Reduction(part: nat, total: nat): (r: real)
    requires part <= total
    ensures 0.0 <= r <= 1.0
    ensures r == 0.0 <==> total == 0 || part == total
    ensures r * total as real == (total - part) as real
  {
    if total > 0 then 1.0 - part as real / total as real else 0.0
  }

  // ---------- Partition of the data into pages ----------

  /** Pages needed for n bytes. */
  function PageCount(n: nat, p: nat): nat
    requires p > 0
  {
    (n + p - 1) / p
  }

  lemma PageCountStep(n: nat, p: nat)
    requires p > 0 && n > 0
    ensures PageCount(n, p) == 1 + (if n <= p then 0 else PageCount(n - p, p))
  {
    if n <= p {
      QuotientRemainder(n + p - 1, p, 1, n - 1);
    } else {
      var q, r := (n - 1) / p, (n - 1) % p;
      QuotientRemainder(n + p - 1, p, q + 1, r);
    }
  }

  lemma {:induction false} ManifestSize(hash: Hash, data: seq<byte>, off: nat, p: nat)
    requires p > 0 && GoSlice(data)
    ensures |ManifestFrom(hash, data, off, p)| == if off >= |data| then 0 else PageCount(|data| - off, p)
    decreases |data| - off
  {
    if off < |data| {
      ManifestSize(hash, data, off + p, p);
      PageCountStep(|data| - off, p);
    }
  }

  /** The pages named by a manifest, put end to end. */
  function Pages(data: seq<byte>, m: Manifest, p: nat): seq<byte>
    requires forall i | 0 <= i < |m| :: m[i].offset <= |data|
  {
    if m == [] then [] else PageAt(data, m[0].offset, p) + Pages(data, m[1..], p)
  }

  /** The pages of a manifest tile the data: none is missing, repeated, cut short or out of order. */
  lemma {:induction false} PagesTile(hash: Hash, data: seq<byte>, off: nat, p: nat)
    requires p > 0 && GoSlice(data) && off <= |data|
    ensures var m := ManifestFrom(hash, data, off, p);
            (forall i | 0 <= i < |m| :: m[i].offset < |data|) && Pages(data, m, p) == data[off..]
    decreases |data| - off
  {
    if off < |data| {
      var rest := ManifestFrom(hash, data, off + p, p);
      if off + p <= |data| {
        PagesTile(hash, data, off + p, p);
      } else {
        assert rest == [];
      }
      var m := ManifestFrom(hash, data, off, p);
      assert m[1..] == rest;
      forall i | 0 <= i < |m| ensures m[i].offset < |data| {
        if i > 0 { assert m[i] == rest[i - 1]; }
      }
      assert Pages(data, rest, p) == if off + p <= |data| then data[off + p..] else [];
    }
  }

  /** With no earlier manifest every page is dirty. */
  lemma {:induction false} FirstCallAllDirty(m: Manifest)
    ensures |DirtyPages([], m)| == |m|
    ensures forall i | 0 <= i < |m| :: DirtyPages([], m)[i] == m[i].offset
  {
    if m != [] {
      FirstCallAllDirty(m[1..]);
      assert DirtyPages([], m) == [m[0].offset] + DirtyPages([], m[1..]);
    }
  }

  // ---------- Replaying dirty pages ----------

  function BlockAt(hash: Hash, data: seq<byte>, off: u64, p: nat): DataBlock
    requires off <= |data|
  {
    DataBlock(off, hash(PageAt(data, off, p)), PageAt(data, off, p))
  }

  ghost predicate Within(offsets: seq<u64>, lo: int, hi: int) {
    forall i | 0 <= i < |offsets| :: lo <= offsets[i] < hi
  }

  /** The blocks a sender makes for the given page offsets. */
  ghost function BlocksAt(hash: Hash, data: seq<byte>, offsets: seq<u64>, p: nat): seq<DataBlock>
    requires Within(offsets, 0, |data|)
  {
    if offsets == [] then []
    else [BlockAt(hash, data, offsets[0], p)] + BlocksAt(hash, data, offsets[1..], p)
  }

  /** The blocks for the pages from `off` on that differ from the manifest `prev`. */
  ghost function DirtyBlocks(hash: Hash, prev: Manifest, data: seq<byte>, off: nat, p: nat): (bs: seq<DataBlock>)
    requires p > 0 && GoSlice(data)
    ensures AllFit(bs, |data|)
    decreases |data| - off
  {
    if off >= |data| then []
    else (if prev == [] || hash(PageAt(data, off, p)) != prev[0].hash then [BlockAt(hash, data, off, p)] else [])
         + DirtyBlocks(hash, DropFirst(prev), data, off + p, p)
  }

  lemma ManifestStep(hash: Hash, data: seq<byte>, off: nat, p: nat)
    requires p > 0 && GoSlice(data) && off < |data|
    ensures var m := ManifestFrom(hash, data, off, p);
            m[0] == PageHash(off, hash(PageAt(data, off, p))) && m[1..] == ManifestFrom(hash, data, off + p, p)
  {
  }

  /** Page number i of a manifest starts i pages after the first. */
  lemma {:induction false} PageOffsets(hash: Hash, data: seq<byte>, off: nat, p: nat, i: nat)
    requires p > 0 && GoSlice(data) && i < |ManifestFrom(hash, data, off, p)|
    ensures ManifestFrom(hash, data, off, p)[i].offset == off + i * p < |data|
    decreases i
  {
    ManifestStep(hash, data, off, p);
    if i > 0 {
      PageOffsets(hash, data, off + p, p, i - 1);
    }
  }

  /** Making blocks for these offsets gives these blocks. */
  ghost predicate Names(hash: Hash, data: seq<byte>, offsets: seq<u64>, bs: seq<DataBlock>, lo: nat, p: nat) {
    Within(offsets, lo, |data|) && BlocksAt(hash, data, offsets, p) == bs
  }

  lemma NamesStep(hash: Hash, data: seq<byte>, off: nat, rest: seq<u64>, bs: seq<DataBlock>, p: nat)
    requires GoSlice(data) && off < |data| && Names(hash, data, rest, bs, off + p, p)
    ensures Names(hash, data, rest, bs, off, p)
    ensures Names(hash, data, [off] + rest, [BlockAt(hash, data, off, p)] + bs, off, p)
  {
    assert ([off] + rest)[1..] == rest;
  }

  /** The dirty offsets lie in the data, and the blocks made for them are the dirty blocks. */
  lemma {:induction false} DirtyOffsetsNameDirtyBlocks(hash: Hash, prev: Manifest, data: seq<byte>, off: nat, p: nat)
    requires p > 0 && GoSlice(data)
    ensures Names(hash, data, DirtyPages(prev, ManifestFrom(hash, data, off, p)),
        DirtyBlocks(hash, prev, data, off, p), off, p)
    decreases |data| - off
  {
    if off < |data| {
      var m, later := ManifestFrom(hash, data, off, p), ManifestFrom(hash, data, off + p, p);
      var rest, bs := DirtyPages(DropFirst(prev), later), DirtyBlocks(hash, DropFirst(prev), data, off + p, p);
      DirtyOffsetsNameDirtyBlocks(hash, DropFirst(prev), data, off + p, p);
      NamesStep(hash, data, off, rest, bs, p);
      ManifestStep(hash, data, off, p);
      if prev == [] || m[0].hash != prev[0].hash {
        assert DirtyPages(prev, m) == [off] + rest;
        assert DirtyBlocks(hash, prev, data, off, p) == [BlockAt(hash, data, off, p)] + bs;
      } else {
        assert DirtyPages(prev, m) == [] + rest == rest;
        assert DirtyBlocks(hash, prev, data, off, p) == [] + bs == bs;
      }
    }
  }

  /** Page `off` of `data` is not sent because the earlier manifest has the same hash for it. */
  ghost predicate Clean(hash: Hash, before: seq<byte>, data: seq<byte>, off: nat, p: nat) {
    off < |before| && off < |data| && hash(PageAt(before, off, p)) == hash(PageAt(data, off, p))
  }

  /** Every page from `off` on that is not sent already reads in `img` as it does in `data`. */
  ghost predicate CleanPagesAgree(hash: Hash, before: seq<byte>, data: seq<byte>, img: seq<byte>, off: nat, p: nat)
    requires p > 0 && |img| == |data|
    decreases |data| - off
  {
    off >= |data| ||
    ((Clean(hash, before, data, off, p) ==> PageAt(img, off, p) == PageAt(data, off, p))
     && CleanPagesAgree(hash, before, data, img, off + p, p))
  }

  lemma {:induction false} AgreementIsLocal(hash: Hash, before: seq<byte>, data: seq<byte>, a: seq<byte>,
        b: seq<byte>, off: nat, p: nat)
    requires p > 0 && |a| == |b| == |data|
    requires forall k | off <= k < |a| :: a[k] == b[k]
    ensures CleanPagesAgree(hash, before, data, a, off, p) == CleanPagesAgree(hash, before, data, b, off, p)
    decreases |data| - off
  {
    if off < |data| {
      assert PageAt(a, off, p) == PageAt(b, off, p);
      AgreementIsLocal(hash, before, data, a, b, off + p, p);
    }
  }

  ghost predicate Same(a: seq<byte>, b: seq<byte>, lo: nat, hi: nat)
    requires |a| == |b|
  {
    forall k | lo <= k < hi && k < |a| :: a[k] == b[k]
  }

  lemma SamePage(a: seq<byte>, b: seq<byte>, off: nat, p: nat)
    requires |a| == |b| && off <= |a|
    ensures Same(a, b, off, off + p) <==> PageAt(a, off, p) == PageAt(b, off, p)
  {
    var x, y := PageAt(a, off, p), PageAt(b, off, p);
    if x == y {
      forall k | off <= k < off + p && k < |a| ensures a[k] == b[k] {
        assert x[k - off] == y[k - off];
      }
    }
  }

  /** Writing the blocks leaves what is before `off` alone and completes the rest exactly when
      the pages that were not sent are right already. */
  ghost predicate Completes(hash: Hash, before: seq<byte>, data: seq<byte>, img: seq<byte>, bs: seq<DataBlock>,
        off: nat, p: nat)
    requires p > 0 && |img| == |data| && AllFit(bs, |img|)
  {
    var out := ApplyBlocks(img, bs);
    Same(out, img, 0, off)
    && (Same(out, data, off, |data|) <==> CleanPagesAgree(hash, before, data, img, off, p))
  }

  lemma CompleteAfterClean(hash: Hash, before: seq<byte>, data: seq<byte>, img: seq<byte>, rest: seq<DataBlock>,
        off: nat, p: nat)
    requires p > 0 && off < |data| && |img| == |data| && AllFit(rest, |img|)
    requires Clean(hash, before, data, off, p) && Completes(hash, before, data, img, rest, off + p, p)
    ensures Completes(hash, before, data, img, rest, off, p)
  {
    SamePage(img, data, off, p);
    Join(ApplyBlocks(img, rest), img, data, off, p);
  }

  lemma CompleteAfterDirty(hash: Hash, before: seq<byte>, data: seq<byte>, img: seq<byte>, rest: seq<DataBlock>,
        off: nat, p: nat)
    requires p > 0 && GoSlice(data) && off < |data| && |img| == |data| && AllFit(rest, |img|)
    requires !Clean(hash, before, data, off, p)
    requires Completes(hash, before, data, Splice(img, off, PageAt(data, off, p)), rest, off + p, p)
    ensures AllFit([BlockAt(hash, data, off, p)] + rest, |img|)
    ensures Completes(hash, before, data, img, [BlockAt(hash, data, off, p)] + rest, off, p)
  {
    var next := Splice(img, off, PageAt(data, off, p));
    var bs := [BlockAt(hash, data, off, p)] + rest;
    assert bs[1..] == rest;
    AgreementIsLocal(hash, before, data, img, next, off + p, p);
    SpliceReads(img, data, off, p);
    Join(ApplyBlocks(next, rest), next, data, off, p);
  }

  /** Replaying the dirty pages from `off` on completes the image. */
  lemma {:induction false} ReplaySuffix(hash: Hash, before: seq<byte>, data: seq<byte>, img: seq<byte>, off: nat,
        p: nat)
    requires p > 0 && GoSlice(data) && GoSlice(before) && |img| == |data|
    ensures Completes(hash, before, data, img, DirtyBlocks(hash, ManifestFrom(hash, before, off, p), data, off, p),
        off, p)
    decreases |data| - off
  {
    hide CleanPagesAgree, ApplyBlocks, Splice, Completes;
    if off < |data| {
      var prev, later := ManifestFrom(hash, before, off, p), ManifestFrom(hash, before, off + p, p);
      assert DropFirst(prev) == later;
      var bs, rest := DirtyBlocks(hash, prev, data, off, p), DirtyBlocks(hash, later, data, off + p, p);
      if Clean(hash, before, data, off, p) {
        assert bs == [] + rest == rest;
        ReplaySuffix(hash, before, data, img, off + p, p);
        CompleteAfterClean(hash, before, data, img, rest, off, p);
      } else {
        assert bs == [BlockAt(hash, data, off, p)] + rest;
        ReplaySuffix(hash, before, data, Splice(img, off, PageAt(data, off, p)), off + p, p);
        CompleteAfterDirty(hash, before, data, img, rest, off, p);
      }
    } else {
      CompleteAtEnd(hash, before, data, img, off, p);
    }
  }

  lemma CompleteAtEnd(hash: Hash, before: seq<byte>, data: seq<byte>, img: seq<byte>, off: nat, p: nat)
    requires p > 0 && off >= |data| == |img|
    ensures Completes(hash, before, data, img, [], off, p)
  {
  }

  lemma Join(out: seq<byte>, img: seq<byte>, data: seq<byte>, off: nat, p: nat)
    requires |out| == |img| == |data| && Same(out, img, 0, off + p)
    ensures Same(out, img, 0, off)
    ensures Same(out, data, off, |data|) <==> Same(img, data, off, off + p) && Same(out, data, off + p, |data|)
  {
    if Same(img, data, off, off + p) && Same(out, data, off + p, |data|) {
      forall k | off <= k < |data| ensures out[k] == data[k] {
        if k < off + p { assert out[k] == img[k]; }
      }
    }
    if Same(out, data, off, |data|) {
      forall k | off <= k < off + p && k < |data| ensures img[k] == data[k] {
        assert out[k] == img[k];
      }
    }
  }

  lemma SpliceReads(img: seq<byte>, data: seq<byte>, off: nat, p: nat)
    requires |img| == |data| && off <= |data|
    ensures var next := Splice(img, off, PageAt(data, off, p));
            Same(next, img, 0, off) && Same(next, data, off, off + p) && Same(next, img, off + p, |data|)
  {
  }

  // ---------- Rounds ----------

  /** The previous image cut or zero-extended to the size announced for this round. */
  function Resize(img: seq<byte>, n: nat): (r: seq<byte>)
    ensures |r| == n
  {
    if n <= |img| then img[..n] else img + seq(n - |img|, _ => 0)
  }

  /** What the two ends hold between rounds: the detector's manifest and the receiver's image. */
  datatype Sync = Sync(prev: Option<Manifest>, image: seq<byte>)

  ghost function Round(hash: Hash, s: Sync, data: seq<byte>, p: nat): Sync
    requires p > 0 && GoSlice(data)
  {
    Sync(Some(ManifestOf(hash, data, p)),
         ApplyBlocks(Resize(s.image, |data|), DirtyBlocks(hash, Known(s.prev), data, 0, p)))
  }

  ghost function Rounds(hash: Hash, snaps: seq<seq<byte>>, p: nat): Sync
    requires p > 0 && forall i | 0 <= i < |snaps| :: GoSlice(snaps[i])
  {
    if snaps == [] then Sync(None, [])
    else Round(hash, Rounds(hash, snaps[..|snaps| - 1], p), snaps[|snaps| - 1], p)
  }

  /** The hash tells apart any two pages that the comparison of these snapshots looks at. */
  ghost predicate NoCollision(hash: Hash, a: seq<byte>, b: seq<byte>, p: nat)
    requires p > 0
  {
    NoCollisionFrom(hash, a, b, 0, p)
  }

  lemma MultipleNext(off: nat, p: nat)
    requires p > 0 && off % p == 0
    ensures (off + p) % p == 0
    ensures forall o | off < o < off + p :: o % p != 0
  {
    var q := off / p;
    assert off == q * p;
    QuotientRemainder(off + p, p, q + 1, 0);
    forall o | off < o < off + p ensures o % p != 0 {
      QuotientRemainder(o, p, q, o - off);
    }
  }

  ghost predicate NoCollisionFrom(hash: Hash, a: seq<byte>, b: seq<byte>, off: nat, p: nat)
    requires p > 0
  {
    forall o: nat | o >= off && o % p == 0 && Clean(hash, a, b, o, p) :: PageAt(a, o, p) == PageAt(b, o, p)
  }

  lemma NoCollisionStep(hash: Hash, a: seq<byte>, b: seq<byte>, off: nat, p: nat)
    requires p > 0 && off % p == 0
    ensures NoCollisionFrom(hash, a, b, off, p) <==>
            (Clean(hash, a, b, off, p) ==> PageAt(a, off, p) == PageAt(b, off, p))
            && NoCollisionFrom(hash, a, b, off + p, p)
  {
    MultipleNext(off, p);
  }

  /** A page that is equal in both versions survives the resizing. */
  lemma ResizeKeepsPage(a: seq<byte>, b: seq<byte>, off: nat, p: nat)
    requires off < |a| && off < |b|
    ensures PageAt(a, off, p) == PageAt(b, off, p) ==> PageAt(Resize(a, |b|), off, p) == PageAt(b, off, p)
    ensures |a| == |b| ==> PageAt(Resize(a, |b|), off, p) == PageAt(a, off, p)
  {
    if PageAt(a, off, p) == PageAt(b, off, p) {
      assert |PageAt(a, off, p)| == |PageAt(b, off, p)|;
      assert PageAt(Resize(a, |b|), off, p) == PageAt(a, off, p);
    }
    if |a| == |b| {
      assert Resize(a, |b|) == a;
    }
  }

  /** On resized images, absence of collisions from `off` on gives agreement, and for data of
      equal size the two are the same. */
  lemma {:induction false} AgreementVsCollisions(hash: Hash, a: seq<byte>, b: seq<byte>, off: nat, p: nat)
    requires p > 0 && off % p == 0
    ensures NoCollisionFrom(hash, a, b, off, p) ==> CleanPagesAgree(hash, a, b, Resize(a, |b|), off, p)
    ensures |a| == |b| && CleanPagesAgree(hash, a, b, Resize(a, |b|), off, p) ==> NoCollisionFrom(hash, a, b, off, p)
    decreases |b| - off
  {
    hide PageAt, Resize;
    if off < |b| {
      MultipleNext(off, p);
      NoCollisionStep(hash, a, b, off, p);
      AgreementVsCollisions(hash, a, b, off + p, p);
      if off < |a| {
        ResizeKeepsPage(a, b, off, p);
      }
    }
  }

  /** One round rebuilds the snapshot if no compared pages collide, and for snapshots of equal
      size only then. */
  lemma RoundRebuilds(hash: Hash, before: seq<byte>, data: seq<byte>, p: nat)
    requires p > 0 && GoSlice(before) && GoSlice(data)
    ensures var after := Round(hash, Sync(Some(ManifestOf(hash, before, p)), before), data, p);
            (NoCollision(hash, before, data, p) ==> after.image == data)
            && (|before| == |data| ==> (after.image == data <==> NoCollision(hash, before, data, p)))
  {
    ReplaySuffix(hash, before, data, Resize(before, |data|), 0, p);
    AgreementVsCollisions(hash, before, data, 0, p);
  }

  /** The very first round sends everything, so it needs nothing of the hash. */
  lemma FirstRoundRebuilds(hash: Hash, img: seq<byte>, data: seq<byte>, p: nat)
    requires p > 0 && GoSlice(data) && |img| == |data|
    ensures ApplyBlocks(img, DirtyBlocks(hash, [], data, 0, p)) == data
  {
    ReplaySuffix(hash, [], data, img, 0, p);
    NothingClean(hash, data, img, 0, p);
  }

  lemma {:induction false} NothingClean(hash: Hash, data: seq<byte>, img: seq<byte>, off: nat, p: nat)
    requires p > 0 && |img| == |data|
    ensures CleanPagesAgree(hash, [], data, img, off, p)
    decreases |data| - off
  {
    if off < |data| {
      NothingClean(hash, data, img, off + p, p);
    }
  }

  /** After every round of any run of snapshots, of any sizes, the receiver's image is the latest snapshot. */
  lemma {:induction false} RoundsRebuildLatest(hash: Hash, snaps: seq<seq<byte>>, p: nat)
    requires p > 0 && snaps != []
    requires forall i | 0 <= i < |snaps| :: GoSlice(snaps[i])
    requires forall i | 0 < i < |snaps| :: NoCollision(hash, snaps[i - 1], snaps[i], p)
    ensures Rounds(hash, snaps, p) == Sync(Some(ManifestOf(hash, snaps[|snaps| - 1], p)), snaps[|snaps| - 1])
    decreases |snaps|
  {
    var earlier, last := snaps[..|snaps| - 1], snaps[|snaps| - 1];
    if earlier == [] {
      FirstRoundRebuilds(hash, Resize([], |last|), last, p);
    } else {
      RoundsRebuildLatest(hash, earlier, p);
      RoundRebuilds(hash, earlier[|earlier| - 1], last, p);
      assert NoCollision(hash, snaps[|snaps| - 2], snaps[|snaps| - 1], p);
    }
  }
}
