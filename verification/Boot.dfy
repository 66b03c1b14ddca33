/** The boot memory map (kernel/mem/boot.c) and the pages that page_init
    (kernel/mem/init.c) hands to the buddy allocator from it. */
module Boot {
  import opened Dyadic
  import opened FreeSet
  import opened Runs
  import opened Buddy
  import opened PageTables
  import opened Words

  const MMAP_FREE: nat := 1
  const BOOT_MAP_LIM: nat := 8 * 1024 * 1024
  const KERNEL_LMA: nat := 0x10_0000

  /** One region of the memory map; addr and len are 64-bit words. */
  datatype Entry = Entry(addr: nat, len: nat, kind: nat) {
    function End(): nat {
      (addr + len) % WORD
    }

    /** The region leaves a page free below the top of the address space. */
    predicate Fits() {
      addr + len + PAGE_SIZE <= WORD
    }

    /** Holds the page that starts at pa; how page_init sees the region. */
    predicate Spans(pa: nat) {
      addr <= pa < End()
    }
  }

  /** What align_boot_info makes of one entry, in 64-bit arithmetic. */
  function Align(e: Entry): (r: Entry)
    ensures r.kind == e.kind
  {
    if e.kind == MMAP_FREE then
      var base := RoundUp(e.addr);
      var end := (e.len - (base - e.addr)) % WORD;
      var end' := RoundDown((base + end) % WORD);
      Entry(base, (end' - base) % WORD, e.kind)
    else
      var base := RoundDown(e.addr);
      var end := (e.len + (e.addr - base)) % WORD;
      var end' := RoundUp((base + end) % WORD);
      Entry(base, (end' - base) % WORD, e.kind)
  }

  method AlignBootInfo(entries: array<Entry>)
    modifies entries
    ensures forall i :: 0 <= i < entries.Length ==> entries[i] == Align(old(entries[i]))
  {
    for i := 0 to entries.Length
      invariant forall j :: 0 <= j < i ==> entries[j] == Align(old(entries[j]))
      invariant forall j :: i <= j < entries.Length ==> entries[j] == old(entries[j])
    {
      var entry := entries[i];
      var base, end;
      if entry.kind == MMAP_FREE {
        base := RoundUp(entry.addr);
        end := (entry.len - (base - entry.addr)) % WORD;
        end := RoundDown((base + end) % WORD);
      } else {
        base := RoundDown(entry.addr);
        end := (entry.len + (entry.addr - base)) % WORD;
        end := RoundUp((base + end) % WORD);
      }
      entries[i] := Entry(base, (end - base) % WORD, entry.kind);
    }
  }

  /** A FREE region is cut down to its rounded ends, even if its length wraps. */
  lemma FreeEnds(e: Entry)
    requires e.Fits() && e.kind == MMAP_FREE
    ensures Align(e).addr == RoundUp(e.addr) && Align(e).End() == RoundDown(e.addr + e.len)
  {
    var base, end := RoundUp(e.addr), RoundDown(e.addr + e.len);
    UpPages(e.addr, 0);
    WrapCancels(base, e.addr + e.len - base);
    WrapCancels(base, end - base);
    assert Align(e) == Entry(base, (end - base) % WORD, e.kind);
  }

  /** Any other region is extended to its rounded ends. */
  lemma OtherEnds(e: Entry)
    requires e.Fits() && e.kind != MMAP_FREE
    ensures Align(e).addr == RoundDown(e.addr) && Align(e).End() == RoundUp(e.addr + e.len)
  {
    var base, end := RoundDown(e.addr), RoundUp(e.addr + e.len);
    UpPages(e.addr + e.len, 0);
    WrapCancels(base, e.addr + e.len - base);
    WrapCancels(base, end - base);
    assert Align(e) == Entry(base, (end - base) % WORD, e.kind);
  }

  /** A FREE region becomes the pages that lie wholly inside it, any other
      region the pages that it reaches into. */
  lemma AlignPages(e: Entry, pa: nat)
    requires e.Fits() && pa % PAGE_SIZE == 0
    ensures e.kind == MMAP_FREE ==>
              (Align(e).Spans(pa) <==> e.addr <= pa && pa + PAGE_SIZE <= e.addr + e.len)
    ensures e.kind != MMAP_FREE ==>
              (Align(e).Spans(pa) <==> e.addr < pa + PAGE_SIZE && pa < e.addr + e.len)
  {
    if e.kind == MMAP_FREE {
      FreeEnds(e);
      UpPages(e.addr, pa);
      DownPages(e.addr + e.len, pa);
    } else {
      OtherEnds(e);
      DownPages(e.addr, pa);
      UpPages(e.addr + e.len, pa);
    }
  }

  /** Regions that share no byte share no page once aligned, if one of them is
      FREE and the other is not. */
  lemma AlignKeepsApart(e: Entry, f: Entry, pa: nat)
    requires e.Fits() && f.Fits() && e.kind == MMAP_FREE && pa % PAGE_SIZE == 0
    requires e.addr + e.len <= f.addr || f.addr + f.len <= e.addr
    ensures !(Align(e).Spans(pa) && Align(f).Spans(pa))
  {
    AlignPages(e, pa);
    AlignPages(f, pa);
  }

  /** Alignment never lengthens a FREE region, except one with no page boundary
      between its rounded ends, whose length wraps round the 64-bit word. */
  lemma AlignShrinks(e: Entry)
    requires e.Fits() && e.kind == MMAP_FREE
    ensures Align(e).len <= e.len <==> RoundUp(e.addr) <= RoundDown(e.addr + e.len)
  {
    UpPages(e.addr, 0);
    var base, end := RoundUp(e.addr), RoundDown(e.addr + e.len);
    WrapCancels(base, e.addr + e.len - base);
    assert Align(e).len == (end - base) % WORD;
    WrapOnce(if base <= end then end - base else end - base + WORD);
  }

  lemma TinyRegionWraps()
    ensures Align(Entry(1, 10, MMAP_FREE)) == Entry(PAGE_SIZE, WORD - PAGE_SIZE, MMAP_FREE)
  {
  }

  // ----- page_init -----

  /** What page_init knows besides the map: the addresses it must not free. */
  datatype Kernel = Kernel(elfHdr: nat, bootInfo: nat, end: nat) {
    /** addr_reserved */
    predicate Reserved(pa: nat) {
      || pa == 0 || pa == elfHdr
      || pa == PageAddr(bootInfo)
      || (KERNEL_LMA <= pa && pa < end)
    }

    /** Page p is not the first, does not start at the ELF header, holds no boot
        information, and shares no byte with the kernel from 1 MiB up to end. */
    ghost predicate Spares(p: nat) {
      && p != 0 && p * 4096 != elfHdr && p != bootInfo / 4096 % 0x10_0000_0000
      && !(0x10_0000 < (p + 1) * 4096 && p * 4096 < end)
    }
  }

  lemma ReservedIs(k: Kernel, p: nat)
    ensures k.Reserved(p * PAGE_SIZE) <==> !k.Spares(p)
  {
    EntryBits(k.bootInfo);
  }

  /** Page p is to be freed for region e. */
  predicate Eligible(e: Entry, k: Kernel, p: nat) {
    var pa := p * PAGE_SIZE;
    e.kind == MMAP_FREE && e.Spans(pa) && pa < BOOT_MAP_LIM && !k.Reserved(pa)
  }

  /** Page p is in the region, below 8 MiB, and spares the kernel. */
  lemma EligibleIs(e: Entry, k: Kernel, p: nat)
    ensures Eligible(e, k, p) <==>
              && e.kind == 1 && e.addr <= p * 4096 < (e.addr + e.len) % 0x1_0000_0000_0000_0000
              && p < 2048 && k.Spares(p)
  {
    ReservedIs(k, p);
  }

  ghost predicate Wanted(es: seq<Entry>, k: Kernel, p: nat) {
    exists i :: 0 <= i < |es| && Eligible(es[i], k, p)
  }

  /** An aligned map whose FREE regions share no page, and have a struct
      page_info for every page below the limit. */
  ghost predicate MapFits(es: seq<Entry>, n: nat) {
    && (forall i :: 0 <= i < |es| && es[i].kind == MMAP_FREE ==>
          es[i].addr % PAGE_SIZE == 0 && es[i].End() + PAGE_SIZE <= WORD)
    && (forall i, pa: nat :: 0 <= i < |es| && es[i].kind == MMAP_FREE && es[i].Spans(pa) && pa < BOOT_MAP_LIM ==>
          pa / PAGE_SIZE < n)
    && (forall i, j, pa: nat :: 0 <= i < j < |es| && es[i].kind == MMAP_FREE && es[j].kind == MMAP_FREE ==>
          !(es[i].Spans(pa) && es[j].Spans(pa)))
  }

  /** So far exactly the pages f have been freed, one by one. */
  ghost predicate Freed(a: Allocator, f: iset<nat>)
    reads a, a.pages, a.freeList, a.nodes
  {
    && a.Valid()
    && (forall p: nat :: Covers(a.Now().free, p) <==> p in f)
    && (forall p: nat :: p < |a.pages| && p !in f ==> Block(p, 0) in a.live)
    && (forall i :: 0 <= i < |a.pages| ==> a.pages[i].pp_ref == 0)
  }

  lemma OnePageMore(free: set<Block>, p: nat, f: iset<nat>)
    requires Coalesced(free) && Apart(free, Block(p, 0)) && !Overruns(free, Block(p, 0))
    requires forall q: nat :: Covers(free, q) <==> q in f
    ensures forall q: nat :: Covers(Release(free, Block(p, 0)), q) <==> q in f + iset{p}
  {
    ReleaseKeeps(free, Block(p, 0));
    forall q: nat ensures Block(p, 0).Has(q) <==> p == q {
    }
  }

  lemma NotFreedYet(a: Allocator, f: iset<nat>, p: nat)
    requires Freed(a, f) && p < |a.pages| && p !in f
    ensures a.BlockAt(p) == Block(p, 0) && Block(p, 0) in a.live
    ensures Coalesced(a.Free({})) && Block(p, 0).Aligned() && Apart(a.Free({}), Block(p, 0))
  {
    LiveApart(a.Now(), |a.pages|, Block(p, 0));
  }

  lemma FreedMore(a: Allocator, f: iset<nat>, p: nat, s: State, m: seq<Meta>)
    requires a.Valid() && |m| == |a.pages| && FreeStep(s, a.Now(), Block(p, 0))
    requires Coalesced(s.free) && Apart(s.free, Block(p, 0)) && !Overruns(s.free, Block(p, 0))
    requires forall q: nat :: Covers(s.free, q) <==> q in f
    requires forall q: nat :: q < |a.pages| && q !in f ==> Block(q, 0) in s.live
    requires forall i :: 0 <= i < |m| ==> m[i].ref == 0
    requires Kept(m, a.Metas(), Merge(s.free, Block(p, 0)).1)
    ensures Freed(a, f + iset{p})
  {
    hide Allocator.Valid, Merge;
    OnePageMore(s.free, p, f);
    forall i | 0 <= i < |a.pages| ensures a.pages[i].pp_ref == 0 {
      assert a.Metas()[i].ref == m[i].ref;
    }
  }

  /** One call of page_free from page_init. */
  method FreePage(a: Allocator, p: nat, ghost f: iset<nat>) returns (inBounds: bool)
    requires Freed(a, f) && p < |a.pages| && p !in f
    modifies a`lists, a`live, a.freeList, a.nodes, a.pages
    ensures if inBounds then Freed(a, f + iset{p}) else HoldsRun(f + iset{p})
  {
    hide Allocator.Valid, Allocator.Returned, Coalesced, Apart, Overruns, HoldsRun, Kept, FreeStep;
    ghost var s, m := a.Now(), a.Metas();
    NotFreedYet(a, f, p);
    inBounds := a.PageFree(p);
    if inBounds {
      FreedMore(a, f, p, s, m);
    } else {
      OverrunHoldsRun(s.free, Block(p, 0), f + iset{p});
    }
  }

  /** The pages f and the eligible pages of region e below address pa. */
  ghost function UpTo(f: iset<nat>, e: Entry, k: Kernel, pa: nat): iset<nat> {
    iset p: nat | p in f || (Eligible(e, k, p) && p * PAGE_SIZE < pa)
  }

  lemma UpToStep(f: iset<nat>, e: Entry, k: Kernel, p: nat)
    ensures Eligible(e, k, p) ==> UpTo(f, e, k, (p + 1) * PAGE_SIZE) == UpTo(f, e, k, p * PAGE_SIZE) + iset{p}
    ensures !Eligible(e, k, p) ==> UpTo(f, e, k, (p + 1) * PAGE_SIZE) == UpTo(f, e, k, p * PAGE_SIZE)
    ensures e.addr == p * PAGE_SIZE ==> UpTo(f, e, k, p * PAGE_SIZE) == f
    ensures e.End() <= p * PAGE_SIZE ==> UpTo(f, e, k, WORD) == UpTo(f, e, k, p * PAGE_SIZE)
  {
  }

  /** The loop of page_init over one region. */
  method FreeRegion(a: Allocator, e: Entry, k: Kernel, ghost f: iset<nat>) returns (inBounds: bool)
    requires Freed(a, f) && e.addr % PAGE_SIZE == 0 && e.End() + PAGE_SIZE <= WORD && e.kind == MMAP_FREE
    requires forall p: nat :: Eligible(e, k, p) ==> p < |a.pages| && p !in f
    modifies a`lists, a`live, a.freeList, a.nodes, a.pages
    ensures if inBounds then Freed(a, UpTo(f, e, k, WORD)) else HoldsRun(UpTo(f, e, k, WORD))
  {
    hide Freed, HoldsRun;
    var pa := e.addr;
    UpToStep(f, e, k, pa / PAGE_SIZE);
    while pa < e.End()
      invariant pa % PAGE_SIZE == 0 && e.addr <= pa
      invariant Freed(a, UpTo(f, e, k, pa))
      decreases e.End() - pa
    {
      var p := pa / PAGE_SIZE;
      UpToStep(f, e, k, p);
      if pa < BOOT_MAP_LIM && !k.Reserved(pa) {
        ghost var g := UpTo(f, e, k, pa);
        var ok := FreePage(a, p, g);
        if !ok {
          MoreHoldsRun(g + iset{p}, UpTo(f, e, k, WORD));
          return false;
        }
      }
      pa := pa + PAGE_SIZE;
    }
    UpToStep(f, e, k, pa / PAGE_SIZE);
    return true;
  }

  ghost function WantedIn(es: seq<Entry>, k: Kernel): iset<nat> {
    iset p: nat | Wanted(es, k, p)
  }

  lemma WantedMore(es: seq<Entry>, k: Kernel, i: nat)
    requires i < |es|
    ensures es[i].kind == MMAP_FREE ==> WantedIn(es[..i + 1], k) == UpTo(WantedIn(es[..i], k), es[i], k, WORD)
    ensures es[i].kind != MMAP_FREE ==> WantedIn(es[..i + 1], k) == WantedIn(es[..i], k)
    ensures WantedIn(es[..i + 1], k) <= WantedIn(es, k)
  {
    forall p: nat
      ensures Wanted(es[..i + 1], k, p) <==> Wanted(es[..i], k, p) || Eligible(es[i], k, p)
      ensures Wanted(es[..i + 1], k, p) ==> Wanted(es, k, p)
    {
      if Wanted(es[..i], k, p) {
        var j :| 0 <= j < i && Eligible(es[..i][j], k, p);
        assert Eligible(es[..i + 1][j], k, p);
      }
      if Eligible(es[i], k, p) {
        assert Eligible(es[..i + 1][i], k, p);
      }
      if Wanted(es[..i + 1], k, p) {
        var j :| 0 <= j <= i && Eligible(es[..i + 1][j], k, p);
        assert es[..i + 1][j] == es[j];
        assert j < i ==> es[..i][j] == es[j];
      }
    }
  }

  lemma RegionsApart(es: seq<Entry>, k: Kernel, n: nat, i: nat, p: nat)
    requires MapFits(es, n) && i < |es| && Eligible(es[i], k, p)
    ensures p < n && !Wanted(es[..i], k, p)
  {
    assert es[i].Spans(p * PAGE_SIZE);
    forall j | 0 <= j < i ensures !Eligible(es[..i][j], k, p) {
      assert es[..i][j] == es[j];
    }
  }

  lemma FreeAligned(es: seq<Entry>, n: nat, i: nat)
    requires MapFits(es, n) && i < |es| && es[i].kind == MMAP_FREE
    ensures es[i].addr % PAGE_SIZE == 0 && es[i].End() + PAGE_SIZE <= WORD
  {
  }

  lemma FreedCovers(a: Allocator, f: iset<nat>)
    requires Freed(a, f)
    ensures forall p: nat :: Covers(a.Free({}), p) <==> p in f
  {
  }

  lemma FreedHoldsNoRun(a: Allocator, f: iset<nat>)
    requires Freed(a, f)
    ensures !HoldsRun(f)
  {
    CoalescedHoldsNoRun(a.Now().free, f);
  }

  /** Page p starts in a FREE region of the aligned map. */
  ghost predicate InFreeRegion(es: seq<Entry>, p: nat) {
    exists i :: 0 <= i < |es| && es[i].kind == 1 &&
      es[i].addr <= p * 4096 < (es[i].addr + es[i].len) % 0x1_0000_0000_0000_0000
  }

  lemma WantedIs(es: seq<Entry>, k: Kernel)
    ensures forall p: nat :: Wanted(es, k, p) <==> InFreeRegion(es, p) && p < 2048 && k.Spares(p)
  {
    forall p: nat ensures Wanted(es, k, p) <==> InFreeRegion(es, p) && p < 2048 && k.Spares(p) {
      forall i | 0 <= i < |es|
        ensures Eligible(es[i], k, p) <==>
                  && es[i].kind == 1 && es[i].addr <= p * 4096 < (es[i].addr + es[i].len) % 0x1_0000_0000_0000_0000
                  && p < 2048 && k.Spares(p)
      {
        EligibleIs(es[i], k, p);
      }
    }
  }

  /** Frees every wanted page, and fails exactly when a whole aligned run of
      2^BUDDY_MAX_ORDER pages is wanted. */
  method PageInit(a: Allocator, es: seq<Entry>, k: Kernel) returns (inBounds: bool)
    requires Freed(a, iset{}) && MapFits(es, |a.pages|)
    modifies a`lists, a`live, a.freeList, a.nodes, a.pages
    ensures inBounds <==> !HoldsRun(WantedIn(es, k))
    ensures inBounds ==> Freed(a, WantedIn(es, k))
    ensures inBounds ==> forall p: nat :: Covers(a.Free({}), p) <==> InFreeRegion(es, p) && p < 2048 && k.Spares(p)
  {
    WantedIs(es, k);
    hide Freed, HoldsRun, MapFits;
    assert WantedIn(es[..0], k) == iset{};
    for i := 0 to |es|
      invariant Freed(a, WantedIn(es[..i], k))
    {
      WantedMore(es, k, i);
      if es[i].kind == MMAP_FREE {
        forall p: nat | Eligible(es[i], k, p) ensures p < |a.pages| && p !in WantedIn(es[..i], k) {
          RegionsApart(es, k, |a.pages|, i, p);
        }
        FreeAligned(es, |a.pages|, i);
        var ok := FreeRegion(a, es[i], k, WantedIn(es[..i], k));
        if !ok {
          MoreHoldsRun(WantedIn(es[..i + 1], k), WantedIn(es, k));
          return false;
        }
      }
    }
    assert es[..|es|] == es;
    FreedHoldsNoRun(a, WantedIn(es, k));
    FreedCovers(a, WantedIn(es, k));
    return true;
  }

  // ----- from the boot loader's map to page_init -----

  /** The regions of the boot loader's map lie in ascending order. */
  ghost predicate Ascending(es: seq<Entry>) {
    && (forall i :: 0 <= i < |es| ==> es[i].Fits())
    && (forall i, j :: 0 <= i < j < |es| ==> es[i].addr + es[i].len <= es[j].addr)
  }

  function LastFreeEnd(es: seq<Entry>): nat {
    if es == [] then 0
    else if es[|es| - 1].kind == MMAP_FREE then es[|es| - 1].End()
    else LastFreeEnd(es[..|es| - 1])
  }

  /** The end of the last FREE region, 0 if there is none. */
  method HighestAddr(es: seq<Entry>) returns (highest: nat)
    ensures highest == LastFreeEnd(es)
  {
    highest := 0;
    for i := 0 to |es|
      invariant highest == LastFreeEnd(es[..i])
    {
      assert es[..i + 1][..i] == es[..i];
      if es[i].kind == MMAP_FREE {
        highest := es[i].End();
      }
    }
    assert es[..|es|] == es;
  }

  /** npages, as mem_init computes it. */
  function PageCount(es: seq<Entry>): nat {
    (if BOOT_MAP_LIM <= LastFreeEnd(es) then BOOT_MAP_LIM else LastFreeEnd(es)) / PAGE_SIZE
  }

  ghost predicate AlignedFrom(es: seq<Entry>, raw: seq<Entry>) {
    |es| == |raw| && forall i :: 0 <= i < |es| ==> es[i] == Align(raw[i])
  }

  lemma FreeFacts(e: Entry)
    requires e.Fits() && e.kind == MMAP_FREE
    ensures Align(e).addr % PAGE_SIZE == 0 && Align(e).End() % PAGE_SIZE == 0 && Align(e).End() + PAGE_SIZE <= WORD
  {
    hide Align, RoundUp, RoundDown;
    FreeEnds(e);
    Rounds(e.addr);
    Rounds(e.addr + e.len);
  }

  lemma NoPageBetween(x: nat, y: nat)
    requires x % PAGE_SIZE == 0 && y % PAGE_SIZE == 0 && x < y + PAGE_SIZE
    ensures x <= y
  {
    var q, r := x / PAGE_SIZE, y / PAGE_SIZE;
    assert x == 4096 * q && y == 4096 * r;
  }

  lemma FreeInOrder(e: Entry, f: Entry)
    requires e.Fits() && f.Fits() && e.kind == f.kind == MMAP_FREE && e.addr + e.len <= f.addr
    ensures Align(e).End() <= Align(f).addr && Align(e).End() <= Align(f).End()
  {
    hide Align, RoundUp, RoundDown, Entry.End;
    FreeEnds(e);
    FreeEnds(f);
    Rounds(f.addr);
    Rounds(e.addr + e.len);
    Rounds(f.addr + f.len);
    NoPageBetween(RoundDown(e.addr + e.len), RoundDown(f.addr + f.len));
  }

  lemma {:induction false} LastFreeIsHighest(es: seq<Entry>, raw: seq<Entry>, i: nat)
    requires Ascending(raw) && AlignedFrom(es, raw) && i < |es| && es[i].kind == MMAP_FREE
    ensures es[i].End() <= LastFreeEnd(es)
  {
    hide Align, Entry.End;
    var m := |es| - 1;
    if es[m].kind == MMAP_FREE {
      if i < m {
        FreeInOrder(raw[i], raw[m]);
      }
    } else {
      LastFreeIsHighest(es[..m], raw[..m], i);
    }
  }

  lemma {:induction false} LastFreeIsAligned(es: seq<Entry>, raw: seq<Entry>)
    requires Ascending(raw) && AlignedFrom(es, raw)
    ensures LastFreeEnd(es) % PAGE_SIZE == 0
  {
    if es != [] {
      var m := |es| - 1;
      if es[m].kind == MMAP_FREE {
        FreeFacts(raw[m]);
      } else {
        LastFreeIsAligned(es[..m], raw[..m]);
      }
    }
  }

  /** On every ascending map, what align_boot_info and mem_init compute is what
      page_init needs. */
  lemma AlignedMapFits(es: seq<Entry>, raw: seq<Entry>)
    requires Ascending(raw) && AlignedFrom(es, raw)
    ensures MapFits(es, PageCount(es))
  {
    hide Align, Entry.End, LastFreeEnd;
    forall i | 0 <= i < |es| && es[i].kind == MMAP_FREE
      ensures es[i].addr % PAGE_SIZE == 0 && es[i].End() + PAGE_SIZE <= WORD
      ensures forall pa: nat :: es[i].Spans(pa) && pa < BOOT_MAP_LIM ==> pa / PAGE_SIZE < PageCount(es)
    {
      FreeFacts(raw[i]);
      LastFreeIsHighest(es, raw, i);
      LastFreeIsAligned(es, raw);
    }
    forall i, j, pa: nat | 0 <= i < j < |es| && es[i].kind == MMAP_FREE && es[j].kind == MMAP_FREE
      ensures !(es[i].Spans(pa) && es[j].Spans(pa))
    {
      FreeInOrder(raw[i], raw[j]);
    }
  }

  lemma NothingFreed(a: Allocator, n: nat)
    requires |a.pages| == n && a.Valid() && Init(a.Now(), n)
    requires forall i :: 0 <= i < n ==> a.pages[i].pp_ref == 0
    ensures Freed(a, iset{})
  {
  }

  /** Page p ends within a FREE region of the boot loader's map, or before it. */
  ghost predicate BelowFreeEnd(raw: seq<Entry>, p: nat) {
    exists i :: 0 <= i < |raw| && raw[i].kind == 1 && (p + 1) * 4096 <= raw[i].addr + raw[i].len
  }

  lemma {:induction false} LastFreeIsThere(es: seq<Entry>)
    ensures LastFreeEnd(es) > 0 ==>
              exists i :: 0 <= i < |es| && es[i].kind == MMAP_FREE && es[i].End() == LastFreeEnd(es)
  {
    if es != [] {
      var m := |es| - 1;
      if es[m].kind != MMAP_FREE {
        LastFreeIsThere(es[..m]);
        if LastFreeEnd(es) > 0 {
          var i :| 0 <= i < |es[..m]| && es[..m][i].kind == MMAP_FREE && es[..m][i].End() == LastFreeEnd(es[..m]);
          assert es[i] == es[..m][i];
        }
      }
    }
  }

  lemma EndsBelow(e: Entry, p: nat)
    requires e.Fits() && e.kind == MMAP_FREE
    ensures (p + 1) * 4096 <= Align(e).End() <==> (p + 1) * 4096 <= e.addr + e.len
  {
    hide RoundDown, Align, Entry.End;
    FreeEnds(e);
    var end := RoundDown(e.addr + e.len);
    DownPages(e.addr + e.len, p * 4096);
    Rounds(e.addr + e.len);
    assert end == 4096 * (end / 4096);
  }

  /** npages counts exactly the pages below 8 MiB that end within a FREE region
      or before it. */
  lemma PageCountIs(es: seq<Entry>, raw: seq<Entry>, p: nat)
    requires Ascending(raw) && AlignedFrom(es, raw)
    ensures p < PageCount(es) <==> p < 2048 && BelowFreeEnd(raw, p)
  {
    hide Align, Entry.End;
    assert p < PageCount(es) <==> p < 2048 && (p + 1) * 4096 <= LastFreeEnd(es);
    hide PageCount;
    if BelowFreeEnd(raw, p) {
      var i :| 0 <= i < |raw| && raw[i].kind == 1 && (p + 1) * 4096 <= raw[i].addr + raw[i].len;
      assert es[i] == Align(raw[i]);
      EndsBelow(raw[i], p);
      LastFreeIsHighest(es, raw, i);
    }
    if (p + 1) * 4096 <= LastFreeEnd(es) {
      LastFreeIsThere(es);
      var i :| 0 <= i < |es| && es[i].kind == MMAP_FREE && es[i].End() == LastFreeEnd(es);
      assert es[i] == Align(raw[i]);
      EndsBelow(raw[i], p);
    }
  }

  /** Page p lies wholly in a FREE region of the boot loader's map. */
  ghost predicate WithinFree(raw: seq<Entry>, p: nat) {
    exists i :: 0 <= i < |raw| && raw[i].kind == 1 &&
      raw[i].addr <= p * 4096 && (p + 1) * 4096 <= raw[i].addr + raw[i].len
  }

  /** The pages that mem_init should free. */
  ghost function ToFree(raw: seq<Entry>, k: Kernel): iset<nat> {
    iset p: nat | WithinFree(raw, p) && p < 2048 && k.Spares(p)
  }

  lemma WantedIsToFree(es: seq<Entry>, raw: seq<Entry>, k: Kernel)
    requires Ascending(raw) && AlignedFrom(es, raw)
    ensures WantedIn(es, k) == ToFree(raw, k)
  {
    WantedIs(es, k);
    hide Align, Wanted, Kernel.Spares;
    forall p: nat ensures InFreeRegion(es, p) <==> WithinFree(raw, p) {
      forall i | 0 <= i < |es| && es[i].kind == 1
        ensures raw[i].kind == 1
        ensures es[i].addr <= p * 4096 < (es[i].addr + es[i].len) % 0x1_0000_0000_0000_0000 <==>
                  raw[i].addr <= p * 4096 && (p + 1) * 4096 <= raw[i].addr + raw[i].len
      {
        AlignPages(raw[i], p * 4096);
        assert es[i].End() == (es[i].addr + es[i].len) % 0x1_0000_0000_0000_0000;
      }
      forall i | 0 <= i < |raw| ensures es[i].kind == raw[i].kind {
        assert es[i] == Align(raw[i]);
      }
    }
  }

  /** mem_init as far as the allocator: on every ascending map it stays within
      the lists just when the pages to be freed hold no whole aligned run of
      2^BUDDY_MAX_ORDER pages, and then exactly those are free. */
  method MemInit(entries: array<Entry>, k: Kernel) returns (a: Allocator, inBounds: bool)
    requires Ascending(entries[..])
    modifies entries
    ensures AlignedFrom(entries[..], old(entries[..]))
    ensures forall p: nat :: p < |a.pages| <==> p < 2048 && BelowFreeEnd(old(entries[..]), p)
    ensures inBounds <==> !HoldsRun(ToFree(old(entries[..]), k))
    ensures inBounds ==> Freed(a, ToFree(old(entries[..]), k))
    ensures inBounds ==> forall p: nat :: Covers(a.Free({}), p) <==> p in ToFree(old(entries[..]), k)
  {
    ghost var raw := entries[..];
    AlignBootInfo(entries);
    var es := entries[..];
    var highest := HighestAddr(es);
    a := new Allocator((if BOOT_MAP_LIM <= highest then BOOT_MAP_LIM else highest) / PAGE_SIZE);
    hide Align, Ascending, HoldsRun, WantedIn, ToFree, MapFits, Allocator.Valid, Entry.End;
    AlignedMapFits(es, raw);
    forall p: nat ensures p < |a.pages| <==> p < 2048 && BelowFreeEnd(raw, p) {
      PageCountIs(es, raw, p);
    }
    WantedIsToFree(es, raw, k);
    NothingFreed(a, |a.pages|);
    inBounds := PageInit(a, es, k);
    if inBounds {
      FreedCovers(a, ToFree(raw, k));
    }
  }

  /** The second 4 MiB, as an aligned run of 2^BUDDY_MAX_ORDER pages. */
  lemma SecondRun(p: nat)
    ensures Block(1024, BUDDY_MAX_ORDER).Aligned()
    ensures Block(1024, BUDDY_MAX_ORDER).Has(p) <==> 1024 <= p < 2048
  {
    ShlIsTimes(1, BUDDY_MAX_ORDER);
    ShrOfShl(1, BUDDY_MAX_ORDER);
    assert Pow2(10) == 1024;
    BlockIsInterval(Block(1024, BUDDY_MAX_ORDER), p);
  }

  lemma SecondRunIsFree(p: nat)
    requires 1024 <= p < 2048
    ensures p in ToFree([Entry(0x10_0000, 0x70_0000, MMAP_FREE)], Kernel(0x1_0000, 0x9000, 0x20_0000))
  {
    var e := Entry(0x10_0000, 0x70_0000, MMAP_FREE);
    assert [e][0].addr <= p * 4096 && (p + 1) * 4096 <= [e][0].addr + [e][0].len;
  }

  lemma EightMegabytesAlign()
    ensures var es := [Entry(0x10_0000, 0x70_0000, MMAP_FREE)];
            Ascending(es) && AlignedFrom(es, es) && MapFits(es, 2048)
  {
    assert Align(Entry(0x10_0000, 0x70_0000, MMAP_FREE)) == Entry(0x10_0000, 0x70_0000, MMAP_FREE);
    hide Align;
  }

  /** A machine with 8 MiB of memory, free from 1 MiB up, and a kernel that ends
      below 4 MiB: the pages of the second 4 MiB make page_init overrun the
      free lists. */
  lemma EightMegabytesOverrun()
    ensures var es := [Entry(0x10_0000, 0x70_0000, MMAP_FREE)];
            && Ascending(es) && AlignedFrom(es, es) && MapFits(es, 2048)
            && HoldsRun(ToFree(es, Kernel(0x1_0000, 0x9000, 0x20_0000)))
  {
    var es := [Entry(0x10_0000, 0x70_0000, MMAP_FREE)];
    var k := Kernel(0x1_0000, 0x9000, 0x20_0000);
    var r := Block(1024, BUDDY_MAX_ORDER);
    hide Block.Aligned, Block.Has, Ascending, AlignedFrom, MapFits, ToFree;
    EightMegabytesAlign();
    SecondRun(0);
    forall p: nat | r.Has(p) ensures p in ToFree(es, k) {
      SecondRun(p);
      SecondRunIsFree(p);
    }
  }
}
