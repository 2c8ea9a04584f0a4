/**
Page-aligned covers of byte ranges.
*/
module PageRanges {
  import opened Words
  import opened Alignment

  /** A run of `length` bytes from `offset`. */
  datatype Range = Range(offset: nat, length: nat) {
    function End(): nat { offset + length }
  }

  // ----- the header's functions, on words of `w` bits

  function PageAlignStart(addr: nat, pageAlignment: nat, w: nat): nat {
    And(addr, Complement(Wrap(pageAlignment - 1, w), w))
  }

  function PageAlignEnd(addr: nat, pageAlignment: nat, w: nat): nat {
    PageAlignStart(Wrap(addr + Wrap(pageAlignment - 1, w), w), pageAlignment, w)
  }

  /** Unsigned subtraction. */
  function WrappedSub(a: nat, b: nat, w: nat): nat {
    Wrap(a - b, w)
  }

  function PageRangeUnion(a: Range, b: Range, w: nat): Range {
    var start := if a.offset <= b.offset then a.offset else b.offset;
    var endA, endB := Wrap(a.offset + a.length, w), Wrap(b.offset + b.length, w);
    var end := if endA <= endB then endB else endA;
    Range(start, WrappedSub(end, start, w))
  }

  // ----- what they are meant to compute

  /** Page-aligned at both ends. */
  predicate PageAligned(r: Range, page: nat) {
    Multiple(r.offset, page) && Multiple(r.End(), page)
  }

  predicate Covers(outer: Range, inner: Range) {
    outer.offset <= inner.offset && inner.End() <= outer.End()
  }

  /** `c` is the least page-aligned range that covers `r`. */
  ghost predicate IsLeastCover(c: Range, r: Range, page: nat) {
    && PageAligned(c, page) && Covers(c, r)
    && forall d: Range :: PageAligned(d, page) && Covers(d, r) ==> Covers(d, c)
  }

  /** The least range that covers both. */
  function Hull(a: Range, b: Range): (h: Range)
    ensures Covers(h, a) && Covers(h, b)
    ensures forall d: Range :: Covers(d, a) && Covers(d, b) ==> Covers(d, h)
  {
    var start := if a.offset <= b.offset then a.offset else b.offset;
    var end := if a.End() <= b.End() then b.End() else a.End();
    Range(start, end - start)
  }

  function PageCover(r: Range, page: nat): (c: Range)
    requires page > 0
    ensures IsLeastCover(c, r, page)
  {
    RoundDownIsGreatest(r.offset, page);
    RoundUpIsLeast(r.End(), page);
    Range(RoundDown(r.offset, page), RoundUp(r.End(), page) - RoundDown(r.offset, page))
  }

  lemma LeastCoverUnique(c: Range, d: Range, r: Range, page: nat)
    requires IsLeastCover(c, r, page) && IsLeastCover(d, r, page)
    ensures c == d
  {
    assert Covers(c, d) && Covers(d, c);
  }

  // ----- rounding of addresses

  lemma PageStartRoundsDown(addr: nat, page: nat, w: nat)
    requires IsPow2(page) && page < Pow2(w) && addr < Pow2(w)
    ensures PageAlignStart(addr, page, w) == RoundDown(addr, page)
  {
    MaskRoundsDown(addr, page, w);
  }

  /** Also for an end that is the top of the address space, where it wraps to zero. */
  lemma PageEndRoundsUp(addr: nat, page: nat, w: nat)
    requires IsPow2(page) && page < Pow2(w) && addr <= Pow2(w)
    ensures RoundUp(addr, page) <= Pow2(w)
    ensures PageAlignEnd(Wrap(addr, w), page, w) == Wrap(RoundUp(addr, page), w)
  {
    var W := Pow2(w);
    if addr < W {
      SmallRemainder(addr, W);
      AlignIsRoundUpWrapped(addr, page, w);
      assert PageAlignEnd(addr, page, w) == HostAlign(addr, page, w);
    } else {
      var _ := Pow2Divides(page, w);
      RoundUpIsLeast(W, page);
      DivModUnique(W, W, 1, 0);
      AlignIsRoundUpWrapped(0, page, w);
      RoundUpIsLeast(0, page);
      SmallRemainder(0, page);
      assert Multiple(0, page);
      assert PageAlignEnd(0, page, w) == HostAlign(0, page, w);
    }
    if RoundUp(addr, page) < W {
      SmallRemainder(RoundUp(addr, page), W);
    } else {
      DivModUnique(W, W, 1, 0);
    }
  }

  /**
  The start address and length of the page cover of `range` above `baseAddress`.
  The range may reach up to the top of the address space; the length is exact
  unless the cover is the whole address space, whose size is not a word.
  */
  method PageAlignRange(baseAddress: nat, range: Range, pageAlignment: nat, w: nat)
    returns (start: nat, alignedLength: nat, ghost cover: Range)
    requires IsPow2(pageAlignment) && pageAlignment < Pow2(w)
    requires baseAddress + range.offset < Pow2(w) && baseAddress + range.End() <= Pow2(w)
    ensures IsLeastCover(cover, Range(baseAddress + range.offset, range.length), pageAlignment)
    ensures start == cover.offset
    ensures alignedLength == cover.length <==> cover != Range(0, Pow2(w))
    ensures cover == Range(0, Pow2(w)) ==> alignedLength == 0
  {
    ghost var bytes := Range(baseAddress + range.offset, range.length);
    cover := CoverComputed(bytes, pageAlignment, w);
    start := PageAlignStart(Wrap(baseAddress + range.offset, w), pageAlignment, w);
    var rangeEnd := PageAlignEnd(Wrap(baseAddress + range.offset + range.length, w), pageAlignment, w);
    alignedLength := WrappedSub(rangeEnd, start, w);
  }

  lemma CoverComputed(r: Range, page: nat, w: nat) returns (c: Range)
    requires IsPow2(page) && page < Pow2(w) && r.offset < Pow2(w) && r.End() <= Pow2(w)
    ensures c == PageCover(r, page) && IsLeastCover(c, r, page) && c.End() <= Pow2(w)
    ensures PageAlignStart(Wrap(r.offset, w), page, w) == c.offset
    ensures WrappedSub(PageAlignEnd(Wrap(r.End(), w), page, w), c.offset, w)
         == if c.length == Pow2(w) then 0 else c.length
  {
    c := PageCover(r, page);
    SmallRemainder(r.offset, Pow2(w));
    PageStartRoundsDown(r.offset, page, w);
    PageEndRoundsUp(r.End(), page, w);
    WrappedDifference(c.End(), c.offset, w);
  }

  lemma WrappedDifference(end: nat, start: nat, w: nat)
    requires start <= end <= Pow2(w)
    ensures WrappedSub(Wrap(end, w), start, w) == if end - start == Pow2(w) then 0 else end - start
  {
    var W := Pow2(w);
    if end < W {
      SmallRemainder(end, W);
      SmallRemainder(end - start, W);
    } else {
      DivModUnique(W, W, 1, 0);
      if start == 0 { SmallRemainder(0, W); } else { DivModUnique(0 - start, W, -1, W - start); }
    }
  }

  /** The page cover of the hull of two byte ranges is the union of their page covers. */
  lemma CoverDistributesOverHull(a: Range, b: Range, c: Range, d: Range, page: nat, w: nat)
    requires IsLeastCover(c, a, page) && IsLeastCover(d, b, page)
    requires c.End() < Pow2(w) && d.End() < Pow2(w)
    ensures IsLeastCover(PageRangeUnion(c, d, w), Hull(a, b), page)
  {
    var h := Hull(c, d);
    forall e: Range | PageAligned(e, page) && Covers(e, Hull(a, b))
      ensures Covers(e, h)
    {
      assert Covers(e, a) && Covers(e, b);
    }
    UnionIsHullIff(c, d, w);
  }

  /** For ranges that may end at the top of the address space, the union is the
      hull exactly when no end wraps or both do. */
  lemma UnionIsHullIff(a: Range, b: Range, w: nat)
    requires a.End() <= Pow2(w) && b.End() <= Pow2(w) && Hull(a, b).length < Pow2(w)
    ensures PageRangeUnion(a, b, w) == Hull(a, b)
       <==> (a.End() < Pow2(w) && b.End() < Pow2(w)) || a.End() == b.End()
  {
    var h, W := Hull(a, b), Pow2(w);
    WrappedDifference(a.End(), 0, w);
    WrappedDifference(b.End(), 0, w);
    if a.End() == b.End() {
      WrappedDifference(h.End(), h.offset, w);
    } else if a.End() < W && b.End() < W {
      SmallRemainder(h.length, W);
    } else {
      var end := if a.End() < W then a.End() else b.End();
      SmallRemainder(end - h.offset, W);
    }
    DivModUnique(W, W, 1, 0);
    if a.End() < W { SmallRemainder(a.End(), W); }
    if b.End() < W { SmallRemainder(b.End(), W); }
  }
}
