/** Lazy materialisation is invisible: every run behaves like an eager map from pages to protections. */
module LazyMemoryRuns {
  import opened Machine
  import opened LazyMemory

  datatype Step =
    | Reserve(addr: u64, size: u64, prot: Prot)
    | Unmap(addr: u64, size: u64)
    | Protect(addr: u64, size: u64, prot: Prot)
    | Touch(addr: u64, size: u64)
  {
    function Start(): u64 { PageOf(addr) }

    function End(): u64 { RangeEnd(addr, size) }
  }

  function Apply(st: State, step: Step): State
  {
    match step
    case Reserve(addr, size, prot) => AfterReserve(st, addr, size, prot)
    case Unmap(addr, size) => AfterUnmap(st, addr, size)
    case Protect(addr, size, prot) => AfterProtect(st, addr, size, prot)
    case Touch(addr, size) => AfterFault(st, addr, size)
  }

  /** Every operation on the lazy memory is a step. */
  method Perform(memory: LazyMemory, step: Step)
    requires memory.Valid()
    modifies memory
    ensures memory.Valid() && memory.View() == Apply(old(memory.View()), step)
  {
    match step {
      case Reserve(addr, size, prot) => memory.ReserveLazyMemory(addr, size, prot);
      case Unmap(addr, size) => memory.UnmapLazyMemory(addr, size);
      case Protect(addr, size, prot) => memory.ProtectLazyMemory(addr, size, prot);
      case Touch(addr, size) => var handled := memory.Fault(addr, size);
    }
  }

  function Run(st: State, steps: seq<Step>): State
    decreases |steps|
  {
    if steps == [] then st else Run(Apply(st, steps[0]), steps[1..])
  }

  /** Every materialised page has the protection its region says. */
  ghost predicate Coherent(st: State)
  {
    forall p :: p in st.pages ==> Lookup(st.regions, p) == Some(st.pages[p])
  }

  /** Some region overlaps the range, and every one that does is empty. */
  predicate OnlyEmptyOverlap(regions: seq<Region>, start: u64, end: u64)
  {
    AnyOverlaps(regions, start, end) && forall r :: r in regions && Overlaps(r, start, end) ==> r.start == r.end
  }

  /** Every page that a fault is about to map is looked up in the region found, or in one that agrees with it. */
  ghost predicate Uncontested(st: State, addr: u64, size: u64)
  {
    Handles(st.regions, addr, size) ==>
      var r := Find(st.regions, addr).value;
      var from, to := Max(PageOf(addr), r.start), Min(RangeEnd(addr, size), r.end);
      forall p: u64 :: from <= p < to && p % PAGE == 0 && p !in st.pages ==> Lookup(st.regions, p) == Some(r.prot)
  }

  // ----- What becomes of the materialised pages --------------------------------------------------

  /** A page lies in the range of a step. */
  predicate Covers(step: Step, p: u64)
  {
    step.Start() <= p < step.End()
  }

  /** Only an unmap takes a page away, and it takes exactly the pages of its range. */
  lemma PagesStay(st: State, step: Step, p: u64)
    ensures p in Apply(st, step).pages && p !in st.pages ==> step.Touch?
    ensures p in st.pages ==> (p in Apply(st, step).pages <==> !(step.Unmap? && Covers(step, p)))
    ensures step.Reserve? ==> Apply(st, step).pages == st.pages
  {
  }

  /** Only a protect changes the protection of a page that is there, and it changes exactly those of its range. */
  lemma PagesReprotected(st: State, step: Step, p: u64)
    requires p in st.pages && p in Apply(st, step).pages
    ensures Apply(st, step).pages[p] == if step.Protect? && Covers(step, p) then step.prot else st.pages[p]
  {
  }

  /** A fault maps a page that was not there exactly if the page belongs to the access and to the first region
      that contains the address, and the access takes up some of that region; it maps it as that region says. */
  lemma FaultMapsExactly(st: State, addr: u64, size: u64, p: u64)
    requires p !in st.pages
    ensures var after, r := AfterFault(st, addr, size), Find(st.regions, addr);
            && after.regions == st.regions
            && (p in after.pages <==>
                  r.Some? && p % 0x1000 == 0 && PageOf(addr) <= p < RangeEnd(addr, size)
                  && r.value.start <= p < r.value.end)
            && (p in after.pages ==> after.pages[p] == r.value.prot)
  {
  }

  /** Over every run a materialised page stays until an unmap covers it, under the last protection that did. */
  lemma {:induction false} PageKeepsLastProtection(st: State, steps: seq<Step>, p: u64)
    requires p in st.pages && forall i :: 0 <= i < |steps| ==> !(steps[i].Unmap? && Covers(steps[i], p))
    ensures p in Run(st, steps).pages
    ensures Run(st, steps).pages[p] == LastProtection(steps, p, st.pages[p])
    decreases |steps|
  {
    hide Apply, Covers;
    if steps != [] {
      PagesStay(st, steps[0], p);
      PagesReprotected(st, steps[0], p);
      PageKeepsLastProtection(Apply(st, steps[0]), steps[1..], p);
    }
  }

  function LastProtection(steps: seq<Step>, p: u64, was: Prot): Prot
    decreases |steps|
  {
    if steps == [] then was
    else LastProtection(steps[1..], p, if steps[0].Protect? && Covers(steps[0], p) then steps[0].prot else was)
  }

  // ----- The eager map ---------------------------------------------------------------------------

  predicate Touches(flat: Pages, start: u64, end: u64)
  {
    exists p :: p in flat && start <= p < end
  }

  /** Reserving maps at once, unmapping unmaps, protecting changes what is mapped or else maps. */
  function EagerApply(flat: Pages, step: Step): Pages
  {
    match step
    case Reserve(_, _, prot) => Filled(flat, step.Start(), step.End(), prot)
    case Unmap(_, _) => Without(flat, step.Start(), step.End())
    case Protect(_, _, prot) =>
      if Touches(flat, step.Start(), step.End()) then Repaged(flat, step.Start(), step.End(), prot)
      else Filled(flat, step.Start(), step.End(), prot)
    case Touch(_, _) => flat
  }

  function EagerRun(flat: Pages, steps: seq<Step>): Pages
    decreases |steps|
  {
    if steps == [] then flat else EagerRun(EagerApply(flat, steps[0]), steps[1..])
  }

  function FlatLookup(flat: Pages, p: u64): Option<Prot>
  {
    if p in flat then Some(flat[p]) else None
  }

  ghost predicate Represents(regions: seq<Region>, flat: Pages)
  {
    PagesAligned(flat) && forall p: u64 :: p % PAGE == 0 ==> Lookup(regions, p) == FlatLookup(flat, p)
  }

  lemma ReserveLookup(regions: seq<Region>, r: Region, a: u64)
    ensures Lookup(regions + [r], a)
            == if Lookup(regions, a).Some? then Lookup(regions, a) else if r.Contains(a) then Some(r.prot) else None
    ensures Coverage(regions + [r], a) == Coverage(regions, a) + if r.Contains(a) then 1 else 0
  {
    FindAppend(regions, [r], a);
    LookupOne(r, a);
  }

  /** Among aligned regions the overlap of a non-empty one always shows on some page. */
  lemma OverlapOnPage(regions: seq<Region>, flat: Pages, start: u64, end: u64)
    requires Aligned(regions) && Represents(regions, flat)
    requires start < end && start % PAGE == 0 && end % PAGE == 0
    ensures Touches(flat, start, end) <==> exists r :: r in regions && Overlaps(r, start, end) && r.start < r.end
    ensures Touches(flat, start, end) <==> AnyOverlaps(regions, start, end) && !OnlyEmptyOverlap(regions, start, end)
  {
    if r :| r in regions && Overlaps(r, start, end) && r.start < r.end {
      OverlapCovers(regions, r, start, end);
      var p: u64 := Max(r.start, start);
      assert Lookup(regions, p) == FlatLookup(flat, p);
    }
    if Touches(flat, start, end) {
      var p :| p in flat && start <= p < end;
      assert Lookup(regions, p) == FlatLookup(flat, p);
      var r := Find(regions, p).value;
      assert r in regions && Overlaps(r, start, end) && r.start < r.end;
    }
  }

  /** A step keeps the region list and the eager map in step, unless it protects a range that only empty regions
      overlap: overlapping and empty regions do no other harm. */
  lemma StepRefinesEager(st: State, flat: Pages, step: Step)
    requires Aligned(st.regions) && Represents(st.regions, flat)
    ensures Represents(Apply(st, step).regions, EagerApply(flat, step))
            <==> !(step.Protect? && OnlyEmptyOverlap(st.regions, step.Start(), step.End()))
  {
    hide Find, Unmapped, AllRepainted, AnyOverlaps;
    var start, end := step.Start(), step.End();
    if step.Protect? {
      if start < end {
        OverlapOnPage(st.regions, flat, start, end);
      } else {
        NothingOnlyEmpty(st.regions, start);
      }
    }
    if step.Protect? && OnlyEmptyOverlap(st.regions, start, end) {
      assert Lookup(st.regions, start) == FlatLookup(flat, start);
      ProtectChangesRange(st.regions, start, end, step.prot, start);
      assert Lookup(Apply(st, step).regions, start) != FlatLookup(EagerApply(flat, step), start);
    } else {
      forall p: u64 | p % PAGE == 0
        ensures Lookup(Apply(st, step).regions, p) == FlatLookup(EagerApply(flat, step), p)
      {
        assert Lookup(st.regions, p) == FlatLookup(flat, p);
        match step {
          case Reserve(_, _, prot) => ReserveLookup(st.regions, Region(start, end, prot), p);
          case Unmap(_, _) => UnmapRemovesRange(st.regions, start, end, p);
          case Protect(_, _, prot) => ProtectChangesRange(st.regions, start, end, prot, p);
          case Touch(_, _) =>
        }
      }
    }
  }

  /** A range without addresses overlaps only what has addresses on both sides of it. */
  lemma NothingOnlyEmpty(regions: seq<Region>, at: u64)
    ensures !OnlyEmptyOverlap(regions, at, at)
  {
  }

  lemma AlignedKept(st: State, step: Step)
    requires Aligned(st.regions)
    ensures Aligned(Apply(st, step).regions)
  {
    hide Unmapped, AllRepainted, AnyOverlaps;
    var start, end := step.Start(), step.End();
    if step.Unmap? {
      UnmapWellFormed(st.regions, start, end);
    } else if step.Protect? {
      RepaintWellFormed(st.regions, start, end, step.prot);
    }
  }

  /** No step of the run protects a range that only empty regions overlap. */
  ghost predicate NoneSwallowed(st: State, steps: seq<Step>)
    decreases |steps|
  {
    steps == [] ||
    (&& !(steps[0].Protect? && OnlyEmptyOverlap(st.regions, steps[0].Start(), steps[0].End()))
     && NoneSwallowed(Apply(st, steps[0]), steps[1..]))
  }

  /** At every moment of the run the region lookup is the eager map's. */
  ghost predicate AlwaysRepresents(st: State, flat: Pages, steps: seq<Step>)
    decreases |steps|
  {
    Represents(st.regions, flat) &&
    (steps == [] || AlwaysRepresents(Apply(st, steps[0]), EagerApply(flat, steps[0]), steps[1..]))
  }

  /** Over every run the region lookup stays the eager map's, exactly as long as no protection is swallowed. */
  lemma {:induction false} RunRefinesEager(st: State, flat: Pages, steps: seq<Step>)
    requires Aligned(st.regions) && Represents(st.regions, flat)
    ensures AlwaysRepresents(st, flat, steps) <==> NoneSwallowed(st, steps)
    ensures AlwaysRepresents(st, flat, steps) ==> Represents(Run(st, steps).regions, EagerRun(flat, steps))
    decreases |steps|
  {
    hide Apply, EagerApply, Represents, OnlyEmptyOverlap;
    if steps != [] {
      var st', flat' := Apply(st, steps[0]), EagerApply(flat, steps[0]);
      AlignedKept(st, steps[0]);
      StepRefinesEager(st, flat, steps[0]);
      if Represents(st'.regions, flat') {
        RunRefinesEager(st', flat', steps[1..]);
      }
    }
  }

  // ----- Coherence of the materialised pages --------------------------------------------------------

  /** A fault keeps the pages coherent exactly when no page it maps belongs to a region that disagrees. */
  lemma FaultCoherence(st: State, addr: u64, size: u64)
    ensures Coherent(AfterFault(st, addr, size)) <==> Coherent(st) && Uncontested(st, addr, size)
  {
    var st' := AfterFault(st, addr, size);
    assert forall p :: p in st.pages ==> p in st'.pages && st'.pages[p] == st.pages[p];
  }

  /** Among disjoint regions no fault is contested. */
  lemma DisjointUncontested(st: State, addr: u64, size: u64)
    requires Disjoint(st.regions)
    ensures Uncontested(st, addr, size)
  {
    if Handles(st.regions, addr, size) {
      var r := Find(st.regions, addr).value;
      forall p: u64 | r.Contains(p)
        ensures Lookup(st.regions, p) == Some(r.prot)
      {
        OnlyRegionFound(st.regions, r, p);
      }
    }
  }

  /** Nor is an access within one page, even among overlapping regions. */
  lemma OnePageUncontested(st: State, addr: u64, size: u64)
    requires Aligned(st.regions) && RangeEnd(addr, size) <= PageOf(addr) + PAGE
    ensures Uncontested(st, addr, size)
  {
    PageLookup(st.regions, addr);
    if Handles(st.regions, addr, size) {
      var r := Find(st.regions, addr).value;
      forall p: u64 | PageOf(addr) <= p < RangeEnd(addr, size) && p % PAGE == 0
        ensures p == PageOf(addr)
      {
        Multiples(PageOf(addr), p);
      }
      assert r.start <= PageOf(addr) by { PageContained(r, addr); }
    }
  }

  lemma StepKeepsCoherent(st: State, step: Step)
    requires Coherent(st)
    ensures Coherent(Apply(st, step)) <==> (step.Touch? ==> Uncontested(st, step.addr, step.size))
  {
    hide Find, Unmapped, AllRepainted, Coverage, AnyOverlaps, Uncontested;
    var start, end := step.Start(), step.End();
    var st' := Apply(st, step);
    if step.Touch? {
      FaultCoherence(st, step.addr, step.size);
    } else {
      forall p | p in st'.pages
        ensures Lookup(st'.regions, p) == Some(st'.pages[p])
      {
        assert Lookup(st.regions, p) == Some(st.pages[p]);
        if step.Reserve? {
          ReserveLookup(st.regions, Region(start, end, step.prot), p);
        } else if step.Unmap? {
          UnmapRemovesRange(st.regions, start, end, p);
        } else {
          ProtectChangesRange(st.regions, start, end, step.prot, p);
        }
      }
    }
  }

  ghost predicate UncontestedRun(st: State, steps: seq<Step>)
    decreases |steps|
  {
    steps == [] ||
    (&& (steps[0].Touch? ==> Uncontested(st, steps[0].addr, steps[0].size))
     && UncontestedRun(Apply(st, steps[0]), steps[1..]))
  }

  ghost predicate AlwaysCoherent(st: State, steps: seq<Step>)
    decreases |steps|
  {
    Coherent(st) && (steps == [] || AlwaysCoherent(Apply(st, steps[0]), steps[1..]))
  }

  /** Over every run the materialised pages stay coherent exactly as long as no access is contested. */
  lemma {:induction false} RunStaysCoherent(st: State, steps: seq<Step>)
    requires Coherent(st)
    ensures AlwaysCoherent(st, steps) <==> UncontestedRun(st, steps)
    ensures AlwaysCoherent(st, steps) ==> Coherent(Run(st, steps))
    decreases |steps|
  {
    hide Apply, Coherent, Uncontested;
    if steps != [] {
      StepKeepsCoherent(st, steps[0]);
      if Coherent(Apply(st, steps[0])) {
        RunStaysCoherent(Apply(st, steps[0]), steps[1..]);
      }
    }
  }

  // ----- Disjoint, non-empty reservations -------------------------------------------------------------

  ghost predicate Sound(st: State)
  {
    && Aligned(st.regions) && NonEmpty(st.regions) && Disjoint(st.regions)
    && PagesAligned(st.pages) && Coherent(st)
  }

  /** Reservations take unreserved, non-empty ranges; protections apply to non-empty ranges. */
  ghost predicate Legal(st: State, step: Step)
  {
    match step
    case Reserve(_, _, _) =>
      step.Start() < step.End() && forall a: u64 :: step.Start() <= a < step.End() ==> Lookup(st.regions, a).None?
    case Protect(_, _, _) => step.Start() < step.End()
    case _ => true
  }

  ghost predicate LegalRun(st: State, steps: seq<Step>)
    decreases |steps|
  {
    steps == [] || (Legal(st, steps[0]) && LegalRun(Apply(st, steps[0]), steps[1..]))
  }

  lemma ShapeKept(st: State, step: Step)
    requires Aligned(st.regions) && NonEmpty(st.regions) && Disjoint(st.regions) && PagesAligned(st.pages)
    requires Legal(st, step)
    ensures var st' := Apply(st, step);
            Aligned(st'.regions) && NonEmpty(st'.regions) && Disjoint(st'.regions) && PagesAligned(st'.pages)
  {
    hide Find, Unmapped, AllRepainted, Coverage;
    var start, end := step.Start(), step.End();
    var st' := Apply(st, step);
    match step {
      case Reserve(_, _, prot) =>
        forall a: u64
          ensures Coverage(st'.regions, a) <= 1
        {
          ReserveLookup(st.regions, Region(start, end, prot), a);
          CoveredIffFound(st.regions, a);
        }
      case Unmap(_, _) =>
        UnmapWellFormed(st.regions, start, end);
        forall a: u64
          ensures Coverage(st'.regions, a) <= 1
        {
          UnmapRemovesRange(st.regions, start, end, a);
        }
      case Protect(_, _, prot) =>
        RepaintWellFormed(st.regions, start, end, prot);
        forall a: u64
          ensures Coverage(st'.regions, a) <= 1
        {
          ProtectChangesRange(st.regions, start, end, prot, a);
        }
      case Touch(_, _) =>
    }
  }

  /** With fresh, non-empty reservations laziness is invisible: in every run the lookup is the eager map's,
      and every materialised page has the protection looked up for it. */
  lemma {:induction false} LegalRunsLookEager(st: State, flat: Pages, steps: seq<Step>)
    requires Sound(st) && Represents(st.regions, flat) && LegalRun(st, steps)
    ensures Sound(Run(st, steps)) && Represents(Run(st, steps).regions, EagerRun(flat, steps))
    ensures NoneSwallowed(st, steps) && UncontestedRun(st, steps)
    decreases |steps|
  {
    hide Apply, EagerApply, Represents, Legal, Coherent, Disjoint, Uncontested, OnlyEmptyOverlap, NonEmpty;
    if steps != [] {
      var step, st' := steps[0], Apply(st, steps[0]);
      ShapeKept(st, step);
      NonEmptyOverlap(st.regions, step.Start(), step.End());
      if step.Touch? {
        DisjointUncontested(st, step.addr, step.size);
      }
      StepKeepsCoherent(st, step);
      StepRefinesEager(st, flat, step);
      LegalRunsLookEager(st', EagerApply(flat, step), steps[1..]);
    }
  }

  lemma NonEmptyOverlap(regions: seq<Region>, start: u64, end: u64)
    requires NonEmpty(regions)
    ensures !OnlyEmptyOverlap(regions, start, end)
  {
  }

  // ----- What the guest sees of an access -----------------------------------------------------------

  /** An access is served exactly where the eager map has a page, and its first page is then materialised. */
  lemma AccessServed(st: State, flat: Pages, addr: u64, size: u64)
    requires Aligned(st.regions) && Represents(st.regions, flat)
    ensures Handles(st.regions, addr, size) <==> PageOf(addr) in flat && (size > 0 || addr % PAGE != 0)
    ensures Handles(st.regions, addr, size) ==> PageOf(addr) in AfterFault(st, addr, size).pages
    ensures AfterFault(st, addr, size).regions == st.regions
  {
    PageLookup(st.regions, addr);
    var page := PageOf(addr);
    assert Lookup(st.regions, page) == FlatLookup(flat, page);
    if Find(st.regions, addr).Some? {
      var r := Find(st.regions, addr).value;
      assert r in st.regions;
      PageContained(r, addr);
      Multiples(page, r.end);
      AccessEnd(addr, size, r.end);
    }
  }

  lemma AccessEnd(addr: u64, size: u64, end: u64)
    requires end % PAGE == 0 && PageOf(addr) + PAGE <= end
    ensures RangeEnd(addr, size) > PageOf(addr) <==> size > 0 || addr % PAGE != 0
  {
    var page := PageOf(addr);
    assert end <= TWO_64 - PAGE;
    if size > 0 || addr % PAGE != 0 {
      assert SaturatingAdd(addr, size) > page;
      assert SaturatingAdd(SaturatingAdd(addr, size), 0xFFF) >= page + PAGE;
    }
  }

  /** The retries of an access: one fault on every page of a range. */
  function PageTouches(start: u64, end: u64): seq<Step>
    requires start % PAGE == 0 && end % PAGE == 0
    decreases end - start
  {
    if start >= end then []
    else
      NextPage(start, end);
      [Touch(start, 1)] + PageTouches(start + PAGE, end)
  }

  /** Touching a range page by page materialises exactly the pages that the eager map has there, with its
      protections, whatever regions overlap. */
  lemma {:induction false} TouchedPagesLookEager(st: State, flat: Pages, start: u64, end: u64)
    requires Aligned(st.regions) && Coherent(st) && Represents(st.regions, flat)
    requires start % PAGE == 0 && end % PAGE == 0
    ensures var st' := Run(st, PageTouches(start, end));
            && Coherent(st') && st'.regions == st.regions
            && (forall p :: p in st.pages ==> p in st'.pages && st'.pages[p] == st.pages[p])
            && (forall p: u64 :: start <= p < end && p % PAGE == 0 ==> FlatLookup(st'.pages, p) == FlatLookup(flat, p))
    decreases end - start
  {
    hide Handles, Coherent, Uncontested, Represents;
    if start < end {
      NextPage(start, end);
      var st1 := AfterFault(st, start, 1);
      assert Run(st, PageTouches(start, end)) == Run(st1, PageTouches(start + PAGE, end)) by {
        assert PageTouches(start, end)[1..] == PageTouches(start + PAGE, end);
      }
      AccessServed(st, flat, start, 1);
      OnePageUncontested(st, start, 1);
      FaultCoherence(st, start, 1);
      TouchedPagesLookEager(st1, flat, start + PAGE, end);
      var st' := Run(st1, PageTouches(start + PAGE, end));
      forall p: u64 | start <= p < end && p % PAGE == 0
        ensures FlatLookup(st'.pages, p) == FlatLookup(flat, p)
      {
        if p == start && start in st'.pages {
          CoherentPage(st', flat, start);
        } else if p > start {
          Multiples(start, p);
        }
      }
    }
  }

  lemma CoherentPage(st: State, flat: Pages, p: u64)
    requires Coherent(st) && Represents(st.regions, flat) && p % PAGE == 0 && p in st.pages
    ensures p in flat && flat[p] == st.pages[p]
  {
    assert Lookup(st.regions, p) == FlatLookup(flat, p);
  }

  /** Retries never change a page that is there. */
  lemma {:induction false} TouchesKeepPages(st: State, start: u64, end: u64)
    requires start % PAGE == 0 && end % PAGE == 0
    ensures var st' := Run(st, PageTouches(start, end));
            forall p :: p in st.pages ==> p in st'.pages && st'.pages[p] == st.pages[p]
    decreases end - start
  {
    hide Handles, Find;
    if start < end {
      NextPage(start, end);
      var st1 := AfterFault(st, start, 1);
      assert Run(st, PageTouches(start, end)) == Run(st1, PageTouches(start + PAGE, end)) by {
        assert PageTouches(start, end)[1..] == PageTouches(start + PAGE, end);
      }
      TouchesKeepPages(st1, start + PAGE, end);
    }
  }

  /** A contested fault leaves some page of the access with a protection that is not the eager map's. */
  lemma ContestedPage(st: State, flat: Pages, addr: u64, size: u64) returns (p: u64)
    requires Represents(st.regions, flat) && !Uncontested(st, addr, size)
    ensures PageOf(addr) <= p < RangeEnd(addr, size) && p % PAGE == 0
    ensures var st' := AfterFault(st, addr, size);
            p in st'.pages && FlatLookup(flat, p) != Some(st'.pages[p])
  {
    var r := Find(st.regions, addr).value;
    var from, to := Max(PageOf(addr), r.start), Min(RangeEnd(addr, size), r.end);
    p :| from <= p < to && p % PAGE == 0 && p !in st.pages && Lookup(st.regions, p) != Some(r.prot);
    assert Lookup(st.regions, p) == FlatLookup(flat, p);
  }

  /** An access across pages, retried page by page, leaves each of its pages exactly as the eager map has it,
      if and only if the access is not contested. */
  lemma AccessLooksEager(st: State, flat: Pages, addr: u64, size: u64)
    requires Aligned(st.regions) && Coherent(st) && Represents(st.regions, flat)
    ensures var st' := Run(AfterFault(st, addr, size), PageTouches(PageOf(addr), RangeEnd(addr, size)));
            (forall p: u64 :: PageOf(addr) <= p < RangeEnd(addr, size) && p % PAGE == 0 ==>
               FlatLookup(st'.pages, p) == FlatLookup(flat, p))
            <==> Uncontested(st, addr, size)
  {
    hide Uncontested, Coherent, Represents, Handles;
    var st1 := AfterFault(st, addr, size);
    if Uncontested(st, addr, size) {
      FaultCoherence(st, addr, size);
      TouchedPagesLookEager(st1, flat, PageOf(addr), RangeEnd(addr, size));
    } else {
      var p := ContestedPage(st, flat, addr, size);
      TouchesKeepPages(st1, PageOf(addr), RangeEnd(addr, size));
      var st' := Run(st1, PageTouches(PageOf(addr), RangeEnd(addr, size)));
      assert FlatLookup(st'.pages, p) != FlatLookup(flat, p);
    }
  }

  // ----- Where laziness shows, reached from the empty state ---------------------------------------------

  const NOTHING := State([], map[])

  /** A reservation of no bytes at a page boundary swallows a later protection around it: the range is not added. */
  lemma EmptyReservationSwallowsProtection(at: u64, prot: Prot, addr: u64, size: u64, prot': Prot)
    requires at % PAGE == 0 && PageOf(addr) < at < RangeEnd(addr, size)
    ensures var steps := [Reserve(at, 0, prot), Protect(addr, size, prot')];
            && (forall a: u64 :: Lookup(Run(NOTHING, steps).regions, a).None?)
            && PageOf(addr) in EagerRun(map[], steps)
            && !NoneSwallowed(NOTHING, steps)
  {
    var steps := [Reserve(at, 0, prot), Protect(addr, size, prot')];
    var st1 := Apply(NOTHING, steps[0]);
    var empty := Region(at, at, prot);
    assert st1.regions == [empty];
    assert steps[1..] == [steps[1]] && steps[1..][1..] == [];
    assert empty in st1.regions && Overlaps(empty, steps[1].Start(), steps[1].End());
    assert OnlyEmptyOverlap(st1.regions, steps[1].Start(), steps[1].End());
    var st2 := Apply(st1, steps[1]);
    forall a: u64
      ensures Lookup(st2.regions, a).None?
    {
      LookupOne(empty, a);
      ProtectChangesRange(st1.regions, steps[1].Start(), steps[1].End(), prot', a);
    }
    assert EagerApply(map[], steps[0]) == map[];
    assert Run(NOTHING, steps) == Run(st1, steps[1..]) == Run(st2, []);
    assert EagerRun(map[], steps) == EagerRun(map[], steps[1..]) == EagerRun(EagerApply(map[], steps[1]), []);
  }

  /** Two overlapping reservations and one access across their boundary: a page is materialised with the
      protection of the wrong one. */
  lemma OverlapFaultIncoherent(page: u64, prot: Prot, prot': Prot)
    requires page % PAGE == 0 && page + 3 * PAGE < TWO_64 && prot != prot'
    ensures var steps := [Reserve(page + PAGE, PAGE, prot), Reserve(page, 2 * PAGE, prot'), Touch(page + PAGE - 8, 16)];
            !Coherent(Run(NOTHING, steps)) && !UncontestedRun(NOTHING, steps)
  {
    hide Apply, Coherent, UncontestedRun, Find;
    var high, low := Region(page + PAGE, page + 2 * PAGE, prot), Region(page, page + 2 * PAGE, prot');
    var steps := [Reserve(page + PAGE, PAGE, prot), Reserve(page, 2 * PAGE, prot'), Touch(page + PAGE - 8, 16)];
    WholePages(NOTHING, page + PAGE, PAGE, prot);
    WholePages(State([high], map[]), page, 2 * PAGE, prot');
    assert [high] + [low] == [high, low] && [] + [high] == [high];
    RunOfThree(NOTHING, steps);
    StraddlingFault(page, prot, prot');
    NothingCoherent();
    RunStaysCoherent(NOTHING, steps);
  }

  lemma NothingCoherent()
    ensures Coherent(NOTHING)
  {
  }

  /** A reservation of whole pages. */
  lemma WholePages(st: State, addr: u64, size: u64, prot: Prot)
    requires addr % PAGE == 0 && size % PAGE == 0 && addr + size <= TWO_64 - PAGE
    ensures Apply(st, Reserve(addr, size, prot)) == st.(regions := st.regions + [Region(addr, addr + size, prot)])
  {
  }

  lemma StraddlingFault(page: u64, prot: Prot, prot': Prot)
    requires page % PAGE == 0 && page + 3 * PAGE < TWO_64 && prot != prot'
    ensures var high, low := Region(page + PAGE, page + 2 * PAGE, prot), Region(page, page + 2 * PAGE, prot');
            !Coherent(Apply(State([high, low], map[]), Touch(page + PAGE - 8, 16)))
  {
    hide Find;
    var high, low := Region(page + PAGE, page + 2 * PAGE, prot), Region(page, page + 2 * PAGE, prot');
    var addr: u64 := page + PAGE - 8;
    var regions := [high] + [low];
    FindAppend([high], [low], addr);
    LookupOne(high, addr);
    LookupOne(low, addr);
    FindAppend([high], [low], page + PAGE);
    LookupOne(high, page + PAGE);
    assert PageOf(addr) == page;
    assert Find(regions, addr) == Some(low) && Lookup(regions, page + PAGE) == Some(prot);
    var after := AfterFault(State(regions, map[]), addr, 16);
    assert regions == [high, low] && Apply(State([high, low], map[]), Touch(addr, 16)) == after;
    assert page + PAGE in after.pages && after.pages[page + PAGE] == prot';
  }

  lemma RunOfThree(st: State, steps: seq<Step>)
    requires |steps| == 3
    ensures Run(st, steps) == Apply(Apply(Apply(st, steps[0]), steps[1]), steps[2])
  {
    hide Apply;
    var st1 := Apply(st, steps[0]);
    assert Run(st, steps) == Run(st1, steps[1..]);
    assert Run(st1, steps[1..]) == Run(Apply(st1, steps[1]), steps[1..][1..]);
    assert Run(Apply(st1, steps[1]), steps[1..][1..]) == Run(Apply(Apply(st1, steps[1]), steps[2]), []);
  }
}
