/**
 Blocks of snapshot data and what writing them into a buffer does: the effect of a run of
 blocks, how many bytes it covers, and when the order of the blocks does not matter.
 */
module Blocks {
  import opened Words
  import opened Spans

  /** One page of snapshot data as it travels on the wire. */
  datatype DataBlock = DataBlock(offset: u64, checksum: u64, data: seq<byte>)

  predicate Fits(b: DataBlock, size: nat) { b.offset + |b.data| <= size }

  ghost predicate AllFit(bs: seq<DataBlock>, size: nat) {
    forall i | 0 <= i < |bs| :: Fits(bs[i], size)
  }

  /** Copies `data` over the bytes of `buf` that start at `off`. */
  function Splice(buf: seq<byte>, off: nat, data: seq<byte>): (r: seq<byte>)
    requires off + |data| <= |buf|
    ensures |r| == |buf|
  {
    buf[..off] + data + buf[off + |data|..]
  }

  ghost function ApplyBlocks(buf: seq<byte>, bs: seq<DataBlock>): (r: seq<byte>)
    requires AllFit(bs, |buf|)
    ensures |r| == |buf|
    decreases |bs|
  {
    if bs == [] then buf
    else
      assert Fits(bs[0], |buf|);
      ApplyBlocks(Splice(buf, bs[0].offset, bs[0].data), bs[1..])
  }

  ghost function TotalLength(bs: seq<DataBlock>): nat {
    if bs == [] then 0 else |bs[0].data| + TotalLength(bs[1..])
  }

  // ---------- Coverage ----------

  ghost predicate Covers(b: DataBlock, k: int) {
    b.offset <= k < b.offset + |b.data|
  }

  ghost predicate Disjoint(a: DataBlock, b: DataBlock) {
    forall k | Covers(a, k) :: !Covers(b, k)
  }

  ghost predicate PairwiseDisjoint(bs: seq<DataBlock>) {
    forall i, j | 0 <= i < j < |bs| :: Disjoint(bs[i], bs[j])
  }

  ghost predicate CoveredBy(bs: seq<DataBlock>, k: int) {
    exists i :: 0 <= i < |bs| && Covers(bs[i], k)
  }

  ghost function CoveredSet(bs: seq<DataBlock>): set<int> {
    if bs == [] then {} else Span(bs[0].offset, |bs[0].data|) + CoveredSet(bs[1..])
  }

  lemma {:induction false} CoveredSetMembers(bs: seq<DataBlock>, k: int)
    ensures k in CoveredSet(bs) <==> CoveredBy(bs, k)
  {
    if bs != [] {
      CoveredSetMembers(bs[1..], k);
      if CoveredBy(bs[1..], k) {
        var i :| 0 <= i < |bs[1..]| && Covers(bs[1..][i], k);
        assert Covers(bs[i + 1], k);
      }
      if CoveredBy(bs, k) && !Covers(bs[0], k) {
        var i :| 0 <= i < |bs| && Covers(bs[i], k);
        assert bs[1..][i - 1] == bs[i];
      }
    }
  }

  lemma DisjointHeadTail(bs: seq<DataBlock>)
    requires bs != []
    ensures PairwiseDisjoint(bs) <==>
            (Span(bs[0].offset, |bs[0].data|) !! CoveredSet(bs[1..]) && PairwiseDisjoint(bs[1..]))
  {
    var b, rest := bs[0], bs[1..];
    forall k ensures k in CoveredSet(rest) <==> CoveredBy(rest, k) {
      CoveredSetMembers(rest, k);
    }
    if PairwiseDisjoint(bs) {
      forall k | k in Span(b.offset, |b.data|) ensures k !in CoveredSet(rest) {
        forall i | 0 <= i < |rest| ensures !Covers(rest[i], k) {
          assert Disjoint(bs[0], bs[i + 1]) && Covers(b, k);
        }
      }
      forall i, j | 0 <= i < j < |rest| ensures Disjoint(rest[i], rest[j]) {
        assert Disjoint(bs[i + 1], bs[j + 1]);
      }
    }
    if Span(b.offset, |b.data|) !! CoveredSet(rest) && PairwiseDisjoint(rest) {
      forall i, j | 0 <= i < j < |bs| ensures Disjoint(bs[i], bs[j]) {
        if i == 0 {
          forall k | Covers(b, k) ensures !Covers(bs[j], k) {
            assert k in Span(b.offset, |b.data|);
            assert bs[j] == rest[j - 1];
          }
        } else {
          assert Disjoint(rest[i - 1], rest[j - 1]);
        }
      }
    }
  }

  /** Summing block lengths counts the bytes covered exactly when no two blocks overlap. */
  lemma {:induction false} LengthCountsCoverage(bs: seq<DataBlock>)
    ensures |CoveredSet(bs)| <= TotalLength(bs)
    ensures |CoveredSet(bs)| == TotalLength(bs) <==> PairwiseDisjoint(bs)
  {
    if bs != [] {
      var head, tail := Span(bs[0].offset, |bs[0].data|), CoveredSet(bs[1..]);
      SpanSize(bs[0].offset, |bs[0].data|);
      LengthCountsCoverage(bs[1..]);
      DisjointHeadTail(bs);
      assert |head + tail| == |head| + |tail| - |head * tail|;
      if head !! tail {
        assert head * tail == {};
      } else {
        var k :| k in head && k in tail;
        assert k in head * tail;
      }
    }
  }

  /** Disjoint blocks that fit write at most the whole buffer, and all of it exactly when every byte is covered. */
  lemma CoverageBounded(bs: seq<DataBlock>, size: nat)
    requires AllFit(bs, size) && PairwiseDisjoint(bs)
    ensures TotalLength(bs) <= size
    ensures TotalLength(bs) == size <==> forall k | 0 <= k < size :: CoveredBy(bs, k)
  {
    LengthCountsCoverage(bs);
    forall k ensures k in CoveredSet(bs) <==> CoveredBy(bs, k) {
      CoveredSetMembers(bs, k);
    }
    forall k | CoveredBy(bs, k) ensures k in Span(0, size) {
      var i :| 0 <= i < |bs| && Covers(bs[i], k);
      assert Fits(bs[i], size);
    }
    SpanSize(0, size);
    SubsetSize(CoveredSet(bs), Span(0, size));
  }

  // ---------- Effect of a run of disjoint blocks ----------

  lemma {:induction false} ApplyOutside(buf: seq<byte>, bs: seq<DataBlock>, k: nat)
    requires AllFit(bs, |buf|) && k < |buf| && !CoveredBy(bs, k)
    ensures ApplyBlocks(buf, bs)[k] == buf[k]
    decreases |bs|
  {
    if bs != [] {
      assert !Covers(bs[0], k) && Fits(bs[0], |buf|);
      forall i | 0 <= i < |bs[1..]| ensures !Covers(bs[1..][i], k) {
        assert bs[1..][i] == bs[i + 1];
      }
      ApplyOutside(Splice(buf, bs[0].offset, bs[0].data), bs[1..], k);
    }
  }

  lemma {:induction false} ApplyInside(buf: seq<byte>, bs: seq<DataBlock>, i: nat, k: nat)
    requires AllFit(bs, |buf|) && PairwiseDisjoint(bs)
    requires i < |bs| && Covers(bs[i], k)
    ensures k < |buf| && ApplyBlocks(buf, bs)[k] == bs[i].data[k - bs[i].offset]
    decreases i
  {
    assert Fits(bs[0], |buf|) && Fits(bs[i], |buf|);
    var next := Splice(buf, bs[0].offset, bs[0].data);
    DisjointHeadTail(bs);
    if i == 0 {
      CoveredSetMembers(bs[1..], k);
      assert k in Span(bs[0].offset, |bs[0].data|);
      ApplyOutside(next, bs[1..], k);
    } else {
      ApplyInside(next, bs[1..], i - 1, k);
    }
  }

  // ---------- Arrival order ----------

  lemma {:induction false} TotalLengthConcat(a: seq<DataBlock>, b: seq<DataBlock>)
    ensures TotalLength(a + b) == TotalLength(a) + TotalLength(b)
  {
    if a == [] {
      assert a + b == b;
    } else {
      TotalLengthConcat(a[1..], b);
      assert (a + b)[1..] == a[1..] + b;
    }
  }

  lemma RemoveOne(s: seq<DataBlock>, j: nat)
    requires j < |s|
    ensures multiset(s[..j] + s[j + 1..]) == multiset(s) - multiset{s[j]}
    ensures TotalLength(s[..j] + s[j + 1..]) == TotalLength(s) - |s[j].data|
  {
    assert s == s[..j] + ([s[j]] + s[j + 1..]);
    TotalLengthConcat(s[..j], s[j + 1..]);
    TotalLengthConcat(s[..j], [s[j]] + s[j + 1..]);
  }

  /** Taking the first block of `bs` out of a permutation of it. */
  lemma TakeOut(bs: seq<DataBlock>, cs: seq<DataBlock>) returns (others: seq<DataBlock>)
    requires bs != [] && multiset(bs) == multiset(cs)
    ensures multiset(others) == multiset(bs[1..]) && |others| == |cs| - 1
    ensures TotalLength(others) == TotalLength(cs) - |bs[0].data|
  {
    hide TotalLength;
    assert bs[0] in multiset(bs);
    var j :| 0 <= j < |cs| && cs[j] == bs[0];
    others := cs[..j] + cs[j + 1..];
    RemoveOne(cs, j);
    assert bs == [bs[0]] + bs[1..];
    assert multiset(bs[1..]) == multiset(bs) - multiset{bs[0]};
  }

  lemma {:induction false} TotalLengthPermuted(bs: seq<DataBlock>, cs: seq<DataBlock>)
    requires multiset(bs) == multiset(cs)
    ensures TotalLength(bs) == TotalLength(cs)
    decreases |bs|
  {
    assert |bs| == |multiset(bs)| == |multiset(cs)| == |cs|;
    if bs != [] {
      var others := TakeOut(bs, cs);
      TotalLengthPermuted(bs[1..], others);
    }
  }

  lemma CoveredByPermuted(bs: seq<DataBlock>, cs: seq<DataBlock>, k: int)
    requires multiset(bs) == multiset(cs) && CoveredBy(bs, k)
    ensures CoveredBy(cs, k)
  {
    var i :| 0 <= i < |bs| && Covers(bs[i], k);
    assert bs[i] in multiset(cs);
  }

  lemma DisjointPermuted(bs: seq<DataBlock>, cs: seq<DataBlock>)
    requires multiset(bs) == multiset(cs) && PairwiseDisjoint(bs)
    ensures PairwiseDisjoint(cs)
  {
    forall k ensures k in CoveredSet(bs) <==> k in CoveredSet(cs) {
      CoveredSetMembers(bs, k);
      CoveredSetMembers(cs, k);
      if CoveredBy(bs, k) { CoveredByPermuted(bs, cs, k); }
      if CoveredBy(cs, k) { CoveredByPermuted(cs, bs, k); }
    }
    assert CoveredSet(bs) == CoveredSet(cs);
    TotalLengthPermuted(bs, cs);
    LengthCountsCoverage(bs);
    LengthCountsCoverage(cs);
  }

  /** The buffer that disjoint blocks leave behind does not depend on the order they arrive in. */
  lemma OrderIrrelevant(buf: seq<byte>, bs: seq<DataBlock>, cs: seq<DataBlock>)
    requires AllFit(bs, |buf|) && PairwiseDisjoint(bs) && multiset(bs) == multiset(cs)
    ensures AllFit(cs, |buf|) && PairwiseDisjoint(cs)
    ensures TotalLength(cs) == TotalLength(bs)
    ensures ApplyBlocks(buf, cs) == ApplyBlocks(buf, bs)
  {
    forall i | 0 <= i < |cs| ensures Fits(cs[i], |buf|) {
      assert cs[i] in multiset(bs);
    }
    DisjointPermuted(bs, cs);
    TotalLengthPermuted(bs, cs);
    forall k | 0 <= k < |buf| ensures ApplyBlocks(buf, cs)[k] == ApplyBlocks(buf, bs)[k] {
      if CoveredBy(cs, k) {
        var i :| 0 <= i < |cs| && Covers(cs[i], k);
        assert cs[i] in multiset(bs);
        var j :| 0 <= j < |bs| && bs[j] == cs[i];
        ApplyInside(buf, cs, i, k);
        ApplyInside(buf, bs, j, k);
      } else {
        if CoveredBy(bs, k) { CoveredByPermuted(bs, cs, k); }
        ApplyOutside(buf, cs, k);
        ApplyOutside(buf, bs, k);
      }
    }
  }
}
