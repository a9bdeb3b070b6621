/** Lazily mapped guest memory: a list of reserved regions, and pages materialised when first touched. */
module LazyMemory {
  import opened Machine

  const PAGE := 0x1000

  datatype Prot = Prot(read: bool, write: bool, exec: bool)

  datatype Region = Region(start: u64, end: u64, prot: Prot) {
    predicate Contains(a: int)
    {
      start <= a < end
    }
  }

  function PageOf(a: u64): (p: u64)
    ensures p % 0x1000 == 0 && p <= a < p + 0x1000
  {
    a - a % PAGE
  }

  /** The end of an address range, rounded up to a page and saturating below the last page. */
  function RangeEnd(addr: u64, size: u64): (e: u64)
    ensures e % PAGE == 0 && PageOf(addr) <= e <= TWO_64 - PAGE
    ensures addr + size <= 0xFFFF_FFFF_FFFF_F000 ==> addr + size <= e < addr + size + 0x1000
    ensures addr + size > 0xFFFF_FFFF_FFFF_F000 ==> e == 0xFFFF_FFFF_FFFF_F000
  {
    PageOf(SaturatingAdd(SaturatingAdd(addr, size), 0xFFF))
  }

  // ----- Looking regions up ------------------------------------------------------------------

  /** The first region that contains an address. */
  function Find(regions: seq<Region>, a: int): (r: Option<Region>)
    ensures r.Some? ==> r.value in regions && r.value.Contains(a)
  {
    if regions == [] then None
    else if regions[0].Contains(a) then Some(regions[0])
    else Find(regions[1..], a)
  }

  function Lookup(regions: seq<Region>, a: int): Option<Prot>
  {
    match Find(regions, a)
    case None => None
    case Some(r) => Some(r.prot)
  }

  /** How many regions contain an address. */
  function Coverage(regions: seq<Region>, a: int): nat
  {
    if regions == [] then 0 else (if regions[0].Contains(a) then 1 else 0) + Coverage(regions[1..], a)
  }

  predicate Disjoint(regions: seq<Region>)
  {
    forall a: u64 :: Coverage(regions, a) <= 1
  }

  predicate Aligned(regions: seq<Region>)
  {
    forall r :: r in regions ==> r.start % PAGE == 0 && r.end % PAGE == 0 && r.start <= r.end
  }

  predicate NonEmpty(regions: seq<Region>)
  {
    forall r :: r in regions ==> r.start < r.end
  }

  lemma {:induction false} FindAppend(xs: seq<Region>, ys: seq<Region>, a: int)
    ensures Find(xs + ys, a) == if Find(xs, a).Some? then Find(xs, a) else Find(ys, a)
    ensures Coverage(xs + ys, a) == Coverage(xs, a) + Coverage(ys, a)
  {
    if xs == [] {
      assert xs + ys == ys;
    } else {
      assert (xs + ys)[1..] == xs[1..] + ys;
      FindAppend(xs[1..], ys, a);
    }
  }

  lemma {:induction false} CoveredIffFound(regions: seq<Region>, a: int)
    ensures Coverage(regions, a) > 0 <==> Find(regions, a).Some?
  {
    if regions != [] {
      CoveredIffFound(regions[1..], a);
    }
  }

  /** Among disjoint regions, any region containing an address is the one that lookup finds. */
  lemma {:induction false} OnlyRegionFound(regions: seq<Region>, r: Region, a: int)
    requires r in regions && r.Contains(a) && Coverage(regions, a) <= 1
    ensures Find(regions, a) == Some(r)
  {
    if regions[0] != r {
      assert r in regions[1..];
      CoveredSomewhere(regions[1..], r, a);
      OnlyRegionFound(regions[1..], r, a);
    }
  }

  lemma {:induction false} CoveredSomewhere(regions: seq<Region>, r: Region, a: int)
    requires r in regions && r.Contains(a)
    ensures Coverage(regions, a) >= 1
  {
    if regions[0] != r {
      assert r in regions[1..];
      CoveredSomewhere(regions[1..], r, a);
    }
  }

  // ----- What the operations do to the region list ----------------------------------------------

  predicate Overlaps(r: Region, start: u64, end: u64)
  {
    !(end <= r.start || start >= r.end)
  }

  function Below(r: Region, start: u64): seq<Region>
  {
    if start > r.start then [r.(end := start)] else []
  }

  function Above(r: Region, end: u64): seq<Region>
  {
    if end < r.end then [r.(start := end)] else []
  }

  /** What is left of a region when a range is cut out of it. */
  function Cut(r: Region, start: u64, end: u64): seq<Region>
  {
    if !Overlaps(r, start, end) then [r] else Below(r, start) + Above(r, end)
  }

  function Unmapped(regions: seq<Region>, start: u64, end: u64): seq<Region>
  {
    if regions == [] then []
    else Unmapped(regions[..|regions| - 1], start, end) + Cut(regions[|regions| - 1], start, end)
  }

  /** A region with the part inside a range given another protection. */
  function Repainted(r: Region, start: u64, end: u64, prot: Prot): seq<Region>
  {
    if !Overlaps(r, start, end) then [r]
    else Below(r, start) + [Region(Max(start, r.start), Min(end, r.end), prot)] + Above(r, end)
  }

  function AllRepainted(regions: seq<Region>, start: u64, end: u64, prot: Prot): seq<Region>
  {
    if regions == [] then []
    else AllRepainted(regions[..|regions| - 1], start, end, prot)
         + Repainted(regions[|regions| - 1], start, end, prot)
  }

  predicate AnyOverlaps(regions: seq<Region>, start: u64, end: u64)
  {
    exists r :: r in regions && Overlaps(r, start, end)
  }

  function Protected(regions: seq<Region>, start: u64, end: u64, prot: Prot): seq<Region>
  {
    AllRepainted(regions, start, end, prot)
    + if AnyOverlaps(regions, start, end) then [] else [Region(start, end, prot)]
  }

  lemma LookupOne(r: Region, a: int)
    ensures Find([r], a) == if r.Contains(a) then Some(r) else None
    ensures Coverage([r], a) == if r.Contains(a) then 1 else 0
  {
    assert Find([r][1..], a) == None;
  }

  lemma CutLookup(r: Region, start: u64, end: u64, a: u64)
    requires start <= end
    ensures var inside := start <= a < end;
            && Lookup(Cut(r, start, end), a) == (if inside then None else Lookup([r], a))
            && Coverage(Cut(r, start, end), a) == (if inside then 0 else Coverage([r], a))
  {
    LookupOne(r, a);
    if Overlaps(r, start, end) {
      FindAppend(Below(r, start), Above(r, end), a);
      LookupOne(r.(end := start), a);
      LookupOne(r.(start := end), a);
    }
  }

  lemma RepaintLookup(r: Region, start: u64, end: u64, prot: Prot, a: u64)
    requires start <= end
    ensures var before := Lookup([r], a);
            && Lookup(Repainted(r, start, end, prot), a)
               == (if start <= a < end && before.Some? then Some(prot) else before)
            && Coverage(Repainted(r, start, end, prot), a) == Coverage([r], a)
  {
    LookupOne(r, a);
    if Overlaps(r, start, end) {
      var middle := Region(Max(start, r.start), Min(end, r.end), prot);
      FindAppend(Below(r, start) + [middle], Above(r, end), a);
      FindAppend(Below(r, start), [middle], a);
      LookupOne(r.(end := start), a);
      LookupOne(middle, a);
      LookupOne(r.(start := end), a);
    }
  }

  lemma LastSplit(regions: seq<Region>, a: int)
    requires regions != []
    ensures var init, last := regions[..|regions| - 1], regions[|regions| - 1];
            && Lookup(regions, a) == (if Lookup(init, a).Some? then Lookup(init, a) else Lookup([last], a))
            && Coverage(regions, a) == Coverage(init, a) + Coverage([last], a)
  {
    assert regions == regions[..|regions| - 1] + [regions[|regions| - 1]];
    FindAppend(regions[..|regions| - 1], [regions[|regions| - 1]], a);
  }

  /** Unmapping removes exactly the range, from any region list whatever. */
  lemma {:induction false} UnmapRemovesRange(regions: seq<Region>, start: u64, end: u64, a: u64)
    requires start <= end
    ensures var inside := start <= a < end;
            && Lookup(Unmapped(regions, start, end), a) == (if inside then None else Lookup(regions, a))
            && Coverage(Unmapped(regions, start, end), a) == (if inside then 0 else Coverage(regions, a))
    decreases |regions|
  {
    if regions != [] {
      var init, last := regions[..|regions| - 1], regions[|regions| - 1];
      UnmapRemovesRange(init, start, end, a);
      CutLookup(last, start, end, a);
      LastSplit(regions, a);
      FindAppend(Unmapped(init, start, end), Cut(last, start, end), a);
    }
  }

  lemma {:induction false} RepaintKeepsCover(regions: seq<Region>, start: u64, end: u64, prot: Prot, a: u64)
    requires start <= end
    ensures var before := Lookup(regions, a);
            && Lookup(AllRepainted(regions, start, end, prot), a)
               == (if start <= a < end && before.Some? then Some(prot) else before)
            && Coverage(AllRepainted(regions, start, end, prot), a) == Coverage(regions, a)
    decreases |regions|
  {
    if regions != [] {
      var init, last := regions[..|regions| - 1], regions[|regions| - 1];
      RepaintKeepsCover(init, start, end, prot, a);
      RepaintLookup(last, start, end, prot, a);
      LastSplit(regions, a);
      FindAppend(AllRepainted(init, start, end, prot), Repainted(last, start, end, prot), a);
    }
  }

  /** Protecting changes only addresses covered in the range, or adds the whole range when no region overlaps it. */
  lemma ProtectChangesRange(regions: seq<Region>, start: u64, end: u64, prot: Prot, a: u64)
    requires start <= end
    ensures var before := Lookup(regions, a);
            var after := Lookup(Protected(regions, start, end, prot), a);
            if start <= a < end then
              after == (if before.Some? || !AnyOverlaps(regions, start, end) then Some(prot) else None)
            else after == before
    ensures AnyOverlaps(regions, start, end) ==>
              Coverage(Protected(regions, start, end, prot), a) == Coverage(regions, a)
    ensures !AnyOverlaps(regions, start, end) ==>
              Coverage(Protected(regions, start, end, prot), a) == if start <= a < end then 1 else Coverage(regions, a)
  {
    RepaintKeepsCover(regions, start, end, prot, a);
    CoveredIffFound(regions, a);
    if AnyOverlaps(regions, start, end) {
      assert AllRepainted(regions, start, end, prot) + [] == AllRepainted(regions, start, end, prot);
    } else {
      FindAppend(AllRepainted(regions, start, end, prot), [Region(start, end, prot)], a);
      LookupOne(Region(start, end, prot), a);
      if Find(regions, a).Some? && start <= a < end {
        assert Overlaps(Find(regions, a).value, start, end);
      }
    }
  }

  lemma OverlapCovers(regions: seq<Region>, r: Region, start: u64, end: u64)
    requires r in regions && r.start < r.end && start < end && Overlaps(r, start, end)
    ensures var a: u64 := Max(r.start, start);
            start <= a < end && Lookup(regions, a).Some?
  {
    var a: u64 := Max(r.start, start);
    CoveredSomewhere(regions, r, a);
    CoveredIffFound(regions, a);
  }

  /** Protecting a range of which nothing is covered adds it, unless an empty region lies strictly inside. */
  lemma ProtectAddsRange(regions: seq<Region>, start: u64, end: u64, prot: Prot)
    requires start < end && Aligned(regions)
    requires forall a: u64 :: start <= a < end ==> Lookup(regions, a).None?
    ensures (forall a: u64 :: start <= a < end ==> Lookup(Protected(regions, start, end, prot), a) == Some(prot))
            <==> !(exists r :: r in regions && r.start == r.end && start < r.start < end)
  {
    if r :| r in regions && r.start == r.end && start < r.start < end {
      assert Overlaps(r, start, end);
      ProtectChangesRange(regions, start, end, prot, start);
      assert Lookup(Protected(regions, start, end, prot), start).None?;
    } else {
      if r :| r in regions && Overlaps(r, start, end) {
        OverlapCovers(regions, r, start, end);
      }
      forall a: u64 | start <= a < end
        ensures Lookup(Protected(regions, start, end, prot), a) == Some(prot)
      {
        ProtectChangesRange(regions, start, end, prot, a);
      }
    }
  }

  /** Unmapping splits only regions that contain the start of the range, so it adds at most one among disjoint ones. */
  lemma {:induction false} UnmapGrowth(regions: seq<Region>, start: u64, end: u64)
    requires start <= end
    ensures |Unmapped(regions, start, end)| <= |regions| + Coverage(regions, start)
    ensures Disjoint(regions) ==> |Unmapped(regions, start, end)| <= |regions| + 1
    decreases |regions|
  {
    if regions != [] {
      var init, last := regions[..|regions| - 1], regions[|regions| - 1];
      UnmapGrowth(init, start, end);
      LastSplit(regions, start);
      LookupOne(last, start);
    }
  }

  lemma {:induction false} RepaintGrowth(regions: seq<Region>, start: u64, end: u64, prot: Prot)
    requires start <= end
    ensures |AllRepainted(regions, start, end, prot)| <= |regions| + Coverage(regions, start) + Coverage(regions, end)
    ensures !AnyOverlaps(regions, start, end) ==> |AllRepainted(regions, start, end, prot)| == |regions|
    decreases |regions|
  {
    if regions != [] {
      var init, last := regions[..|regions| - 1], regions[|regions| - 1];
      assert forall r :: r in init ==> r in regions;
      assert last in regions;
      RepaintGrowth(init, start, end, prot);
      LastSplit(regions, start);
      LastSplit(regions, end);
      LookupOne(last, start);
      LookupOne(last, end);
    }
  }

  /** Protecting adds at most two regions among disjoint ones. */
  lemma ProtectGrowth(regions: seq<Region>, start: u64, end: u64, prot: Prot)
    requires start <= end && Disjoint(regions)
    ensures |Protected(regions, start, end, prot)| <= |regions| + 2
  {
    RepaintGrowth(regions, start, end, prot);
  }

  // ----- Well-formedness of the list ----------------------------------------------------------

  lemma {:induction false} UnmapWellFormed(regions: seq<Region>, start: u64, end: u64)
    requires start <= end && start % PAGE == 0 && end % PAGE == 0 && Aligned(regions)
    ensures Aligned(Unmapped(regions, start, end))
    ensures NonEmpty(regions) ==> NonEmpty(Unmapped(regions, start, end))
    decreases |regions|
  {
    if regions != [] {
      UnmapWellFormed(regions[..|regions| - 1], start, end);
    }
  }

  lemma {:induction false} RepaintWellFormed(regions: seq<Region>, start: u64, end: u64, prot: Prot)
    requires start <= end && start % PAGE == 0 && end % PAGE == 0 && Aligned(regions)
    ensures Aligned(AllRepainted(regions, start, end, prot))
    ensures start < end && NonEmpty(regions) ==> NonEmpty(AllRepainted(regions, start, end, prot))
    decreases |regions|
  {
    if regions != [] {
      RepaintWellFormed(regions[..|regions| - 1], start, end, prot);
    }
  }

  /** With aligned regions an address is covered exactly as its page is. */
  lemma {:induction false} PageLookup(regions: seq<Region>, a: u64)
    requires Aligned(regions)
    ensures Find(regions, PageOf(a)) == Find(regions, a)
  {
    if regions != [] {
      assert regions[0] in regions;
      PageContained(regions[0], a);
      PageLookup(regions[1..], a);
    }
  }

  lemma PageContained(r: Region, a: u64)
    requires r.start % PAGE == 0 && r.end % PAGE == 0
    ensures r.Contains(PageOf(a)) <==> r.Contains(a)
  {
    Multiples(PageOf(a), r.start);
    Multiples(PageOf(a), r.end);
  }

  lemma Multiples(p: u64, q: u64)
    requires p % PAGE == 0 && q % PAGE == 0
    ensures p < q ==> p + PAGE <= q
  {
  }

  // ----- Pages ---------------------------------------------------------------------------------

  type Pages = map<u64, Prot>

  predicate PagesAligned(pages: Pages)
  {
    forall p :: p in pages ==> p % PAGE == 0
  }

  datatype State = State(regions: seq<Region>, pages: Pages)

  function Without(pages: Pages, start: u64, end: u64): Pages
  {
    map p | p in pages && !(start <= p < end) :: pages[p]
  }

  function Repaged(pages: Pages, start: u64, end: u64, prot: Prot): Pages
  {
    map p | p in pages :: if start <= p < end then prot else pages[p]
  }

  /** Mapping every page of a range that is not mapped yet. */
  function Filled(pages: Pages, start: u64, end: u64, prot: Prot): Pages
  {
    (map p: u64 | start <= p < end && p % PAGE == 0 :: prot) + pages
  }

  function AfterReserve(st: State, addr: u64, size: u64, prot: Prot): State
  {
    st.(regions := st.regions + [Region(PageOf(addr), RangeEnd(addr, size), prot)])
  }

  function AfterUnmap(st: State, addr: u64, size: u64): State
  {
    var start, end := PageOf(addr), RangeEnd(addr, size);
    State(Unmapped(st.regions, start, end), Without(st.pages, start, end))
  }

  function AfterProtect(st: State, addr: u64, size: u64, prot: Prot): State
  {
    var start, end := PageOf(addr), RangeEnd(addr, size);
    State(Protected(st.regions, start, end, prot), Repaged(st.pages, start, end, prot))
  }

  /** An access is refused outside every region, and when it touches no byte at the very start of a page. */
  predicate Handles(regions: seq<Region>, addr: u64, size: u64)
  {
    && Find(regions, addr).Some?
    && var r := Find(regions, addr).value;
       Max(PageOf(addr), r.start) < Min(RangeEnd(addr, size), r.end)
  }

  function AfterFault(st: State, addr: u64, size: u64): State
  {
    if !Handles(st.regions, addr, size) then st
    else
      var r := Find(st.regions, addr).value;
      st.(pages := Filled(st.pages, Max(PageOf(addr), r.start), Min(RangeEnd(addr, size), r.end), r.prot))
  }

  lemma FilledNothing(pages: Pages, start: u64, prot: Prot)
    ensures Filled(pages, start, start, prot) == pages
  {
  }

  lemma FilledAligned(pages: Pages, start: u64, end: u64, prot: Prot)
    requires PagesAligned(pages)
    ensures PagesAligned(Filled(pages, start, end, prot))
  {
  }

  /** Filling a range one page further. */
  lemma FilledOneMore(pages: Pages, start: u64, cur: u64, prot: Prot)
    requires start <= cur && cur % PAGE == 0 && cur + PAGE < TWO_64
    ensures var filled := Filled(pages, start, cur, prot);
            Filled(pages, start, cur + PAGE, prot) == if cur in filled then filled else filled[cur := prot]
  {
    var filled := Filled(pages, start, cur, prot);
    var next := if cur in filled then filled else filled[cur := prot];
    forall p: u64 | p % PAGE == 0 && start <= p < cur + PAGE
      ensures p < cur || p == cur
    {
      Multiples(cur, p);
    }
    assert Filled(pages, start, cur + PAGE, prot).Keys == next.Keys;
  }

  lemma NextPage(p: u64, end: u64)
    requires p % PAGE == 0 && end % PAGE == 0 && p < end
    ensures p + PAGE <= end && SaturatingAdd(p, PAGE) == p + PAGE
    ensures forall q: u64 :: q % PAGE == 0 && p < q ==> p + PAGE <= q
  {
  }

  lemma CutOneMore(regions: seq<Region>, i: nat, start: u64, end: u64)
    requires i < |regions|
    ensures Unmapped(regions[..i + 1], start, end) == Unmapped(regions[..i], start, end) + Cut(regions[i], start, end)
  {
    assert regions[..i + 1][..i] == regions[..i];
  }

  lemma RepaintOneMore(regions: seq<Region>, i: nat, start: u64, end: u64, prot: Prot)
    requires i < |regions|
    ensures AllRepainted(regions[..i + 1], start, end, prot)
            == AllRepainted(regions[..i], start, end, prot) + Repainted(regions[i], start, end, prot)
  {
    assert regions[..i + 1][..i] == regions[..i];
  }

  lemma OverlapsOneMore(regions: seq<Region>, r: Region, start: u64, end: u64)
    ensures AnyOverlaps(regions + [r], start, end) <==> AnyOverlaps(regions, start, end) || Overlaps(r, start, end)
  {
    assert r in regions + [r];
    assert forall x :: x in regions ==> x in regions + [r];
  }

  class LazyMemory {
    var regions: seq<Region>
    var pages: Pages

    ghost predicate Valid()
      reads this
    {
      Aligned(regions) && PagesAligned(pages)
    }

    ghost function View(): State
      reads this
    {
      State(regions, pages)
    }

    constructor ()
      ensures Valid() && View() == State([], map[])
    {
      regions, pages := [], map[];
    }

    method ReserveLazyMemory(addr: u64, size: u64, prot: Prot)
      requires Valid()
      modifies this
      ensures Valid() && View() == AfterReserve(old(View()), addr, size, prot)
    {
      var start := PageOf(addr);
      var end := RangeEnd(addr, size);
      regions := regions + [Region(start, end, prot)];
    }

    /** One pass over the region list, cutting the range out of every region. */
    method CutRegions(start: u64, end: u64) returns (next: seq<Region>)
      ensures next == Unmapped(regions, start, end)
    {
      next := [];
      assert Unmapped(regions[..0], start, end) == [];
      for i := 0 to |regions|
        invariant next == Unmapped(regions[..i], start, end)
      {
        hide Unmapped;
        CutOneMore(regions, i, start, end);
        var region := regions[i];
        ghost var before := next;
        if end <= region.start || start >= region.end {
          next := next + [region];
        } else {
          if start > region.start {
            next := next + [Region(region.start, start, region.prot)];
          }
          if end < region.end {
            next := next + [Region(end, region.end, region.prot)];
          }
        }
        assert next == before + Cut(region, start, end);
      }
      assert regions[..|regions|] == regions;
    }

    method UnmapLazyMemory(addr: u64, size: u64)
      requires Valid()
      modifies this
      ensures Valid() && View() == AfterUnmap(old(View()), addr, size)
    {
      hide Unmapped;
      var start := PageOf(addr);
      var end := RangeEnd(addr, size);
      var next := CutRegions(start, end);
      UnmapWellFormed(regions, start, end);
      regions := next;
      var cur := start;
      while cur < end
        invariant start <= cur <= end && cur % PAGE == 0
        invariant regions == next && pages == Without(old(pages), start, cur)
      {
        NextPage(cur, end);
        pages := pages - {cur};
        cur := SaturatingAdd(cur, PAGE);
      }
    }

    /** One pass over the region list, noting whether any region overlaps the range. */
    method RepaintRegions(start: u64, end: u64, prot: Prot) returns (next: seq<Region>, covered: bool)
      requires start <= end
      ensures next == AllRepainted(regions, start, end, prot)
      ensures covered <==> AnyOverlaps(regions, start, end)
    {
      next, covered := [], false;
      assert AllRepainted(regions[..0], start, end, prot) == [];
      for i := 0 to |regions|
        invariant next == AllRepainted(regions[..i], start, end, prot)
        invariant covered <==> AnyOverlaps(regions[..i], start, end)
      {
        hide AllRepainted, AnyOverlaps;
        RepaintOneMore(regions, i, start, end, prot);
        assert regions[..i + 1] == regions[..i] + [regions[i]];
        var region := regions[i];
        ghost var before := next;
        if end <= region.start || start >= region.end {
          next := next + [region];
        } else {
          if start > region.start {
            next := next + [Region(region.start, start, region.prot)];
          }
          next := next + [Region(Max(start, region.start), Min(end, region.end), prot)];
          if end < region.end {
            next := next + [Region(end, region.end, region.prot)];
          }
          covered := true;
        }
        assert next == before + Repainted(region, start, end, prot);
        OverlapsOneMore(regions[..i], region, start, end);
      }
      assert regions[..|regions|] == regions;
    }

    method ProtectLazyMemory(addr: u64, size: u64, prot: Prot)
      requires Valid()
      modifies this
      ensures Valid() && View() == AfterProtect(old(View()), addr, size, prot)
    {
      hide AllRepainted, AnyOverlaps, RangeEnd, PageOf;
      var start := PageOf(addr);
      var end := RangeEnd(addr, size);
      var next, covered := RepaintRegions(start, end, prot);
      RepaintWellFormed(regions, start, end, prot);
      if !covered {
        next := next + [Region(start, end, prot)];
      }
      assert next == Protected(regions, start, end, prot);
      regions := next;
      var cur := start;
      while cur < end
        invariant start <= cur <= end && cur % PAGE == 0
        invariant regions == next && pages == Repaged(old(pages), start, cur, prot)
      {
        NextPage(cur, end);
        if cur in pages {
          pages := pages[cur := prot];
        }
        cur := SaturatingAdd(cur, PAGE);
      }
    }

    /** The unmapped-access hook: maps the pages of the access that lie in the region found. */
    method Fault(addr: u64, size: u64) returns (handled: bool)
      requires Valid()
      modifies this
      ensures Valid() && View() == AfterFault(old(View()), addr, size)
      ensures handled <==> Handles(old(regions), addr, size)
    {
      hide Filled, Find, RangeEnd, PageOf;
      var pageStart := PageOf(addr);
      var pageEnd := RangeEnd(addr, size);
      var found := Find(regions, addr);
      if found.None? {
        return false;
      }
      var region := found.value;
      var mapStart: u64 := Max(pageStart, region.start);
      var mapEnd: u64 := Min(pageEnd, region.end);
      if mapStart >= mapEnd {
        return false;
      }
      var cur := mapStart;
      assert pages == Filled(pages, mapStart, cur, region.prot) by { FilledNothing(pages, mapStart, region.prot); }
      while cur < mapEnd
        invariant mapStart <= cur <= mapEnd && cur % PAGE == 0
        invariant regions == old(regions) && pages == Filled(old(pages), mapStart, cur, region.prot)
      {
        NextPage(cur, mapEnd);
        FilledOneMore(old(pages), mapStart, cur, region.prot);
        if cur !in pages {
          pages := pages[cur := region.prot];
        }
        cur := SaturatingAdd(cur, PAGE);
      }
      FilledAligned(old(pages), mapStart, mapEnd, region.prot);
      handled := true;
    }
  }
}
